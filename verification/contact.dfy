/** The contact page: its wheel navigation (down to /, up to /projects)
    and the two colours it derives from the theme's accent. */
module ContactPage {
  import opened Wrappers
  import opened Routes
  import opened ScrollNav
  import Hex
  import Color
  import Themes

  const ContactNav: Neighbours := Neighbours(Home, Projects)

  /** The contact page's handler: an accepted wheel event navigates to /
      downward, to /projects upward and nowhere for deltaY = 0; a dropped
      one changes nothing. Its neighbours close the route cycle. */
  lemma ContactWheel(p: Policy, h: Hook, t: int, deltaY: int)
    ensures ContactNav == Neighbours(Next(Contact), Prev(Contact))
    ensures var o := Step(p, ContactNav, h, Wheel(t, deltaY));
            && (!Accepts(h, t) ==> o == Outcome(h, None))
            && (Accepts(h, t) && deltaY > 0 ==> o.nav == Some(Home))
            && (Accepts(h, t) && deltaY < 0 ==> o.nav == Some(Projects))
            && (deltaY == 0 ==> o.nav == None)
  {
  }

  /** The style of the contact links. */
  datatype LinkStyle = LinkStyle(color: string, opacity: real)

  /** The links: the accent lightened by 32 per byte, at opacity 0.8. */
  function ContactLinkStyle(theme: Themes.Theme): (s: LinkStyle)
    ensures Color.IsAdjustedBy(s.color, theme.accent, 32)
    ensures s.opacity == 0.8
  {
    Color.LumenColorAdjusts(theme.accent, 32);
    LinkStyle(Color.LumenColor(theme.accent, 32), 0.8)
  }

  /** The colour of accented text, shared by the about and contact pages. */
  function AccentText(theme: Themes.Theme): (r: string)
    ensures Color.IsAdjustedBy(r, theme.accent, 25)
  {
    Color.LumenColorAdjusts(theme.accent, 25);
    Color.LumenColor(theme.accent, 25)
  }

  /** On an accent whose value fits in 24 bits (every `#rrggbb` and every
      shorter hex colour) the links are at least as light as accented text,
      byte by byte, and accented text at least as light as the accent
      itself. */
  lemma LinkLighterThanText(theme: Themes.Theme)
    requires 0 <= Color.NumericValue(theme.accent) <= Color.MaxColor
    ensures var a := Color.NumericValue(theme.accent);
            var t := Hex.ValueOf(Color.Digits(AccentText(theme)));
            var l := Hex.ValueOf(Color.Digits(ContactLinkStyle(theme).color));
            && Color.Low(a) <= Color.Low(t) <= Color.Low(l)
            && Color.Middle(a) <= Color.Middle(t) <= Color.Middle(l)
            && Color.High(a) <= Color.High(t) <= Color.High(l)
  {
    Color.LumenColorOrdered(theme.accent, 25, 32);
  }

  lemma AccentInput()
    ensures Color.HasPound("#6b86f9") && Color.NumericValue("#6b86f9") == 0x6b86f9
  {
    Hex.SixDigitValue("6b86f9");
    Color.PoundValue("#6b86f9", "6b86f9");
  }

  lemma AccentBytes()
    ensures Color.Low(0x6b86f9) == 0xf9 && Color.Middle(0x6b86f9) == 0x86 && Color.High(0x6b86f9) == 0x6b
  {
  }

  lemma LinkOutput()
    ensures "#8ba6ff" == "#" + "8ba6ff"
    ensures Hex.IsCanonical("8ba6ff") && Hex.ValueOf("8ba6ff") == 0x8ba6ff
  {
    Hex.SixDigitValue("8ba6ff");
  }

  lemma LinkBytes()
    ensures Color.Pack(Color.ClampByte(0xf9 + 32), Color.ClampByte(0x86 + 32), Color.ClampByte(0x6b + 32)) == 0x8ba6ff
  {
    assert Color.ClampByte(0xf9 + 32) == 0xff;
  }

  lemma TextOutput()
    ensures "#849fff" == "#" + "849fff"
    ensures Hex.IsCanonical("849fff") && Hex.ValueOf("849fff") == 0x849fff
  {
    Hex.SixDigitValue("849fff");
  }

  lemma TextBytes()
    ensures Color.Pack(Color.ClampByte(0xf9 + 25), Color.ClampByte(0x86 + 25), Color.ClampByte(0x6b + 25)) == 0x849fff
  {
    assert Color.ClampByte(0xf9 + 25) == 0xff;
  }

  /** With the default accent #6b86f9 the links are #8ba6ff (the blue byte
      saturates). */
  lemma DefaultLinkColor()
    ensures ContactLinkStyle(Themes.DefaultTheme).color == "#8ba6ff"
  {
    Themes.DefaultIsDark();
    AccentInput();
    AccentBytes();
    LinkOutput();
    LinkBytes();
    Color.PrintedAs("#6b86f9", 0x6b86f9, 32, "#8ba6ff", "8ba6ff");
  }

  /** With the default accent, accented text is #849fff. */
  lemma DefaultAccentText()
    ensures AccentText(Themes.DefaultTheme) == "#849fff"
  {
    Themes.DefaultIsDark();
    AccentInput();
    AccentBytes();
    TextOutput();
    TextBytes();
    Color.PrintedAs("#6b86f9", 0x6b86f9, 25, "#849fff", "849fff");
  }
}
