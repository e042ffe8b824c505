/** A project card: its own wheel handler (down to /contact, up to /about),
    its hover variant and the background that variant selects. The
    projects page renders a list of cards and has no handler of its own,
    so one wheel event reaches every mounted card. */
module ProjectCard {
  import opened Wrappers
  import opened Routes
  import opened ScrollNav
  import Hex
  import Color
  import Themes

  const CardNav: Neighbours := Neighbours(Contact, About)

  /** A card's handler: an accepted wheel event navigates to /contact
      downward, to /about upward and nowhere for deltaY = 0; a dropped one
      changes nothing. The targets are the projects page's neighbours. */
  lemma CardWheel(p: Policy, h: Hook, t: int, deltaY: int)
    ensures CardNav == Neighbours(Next(Projects), Prev(Projects))
    ensures var o := Step(p, CardNav, h, Wheel(t, deltaY));
            && (!Accepts(h, t) ==> o == Outcome(h, None))
            && (Accepts(h, t) && deltaY > 0 ==> o.nav == Some(Contact))
            && (Accepts(h, t) && deltaY < 0 ==> o.nav == Some(About))
            && (deltaY == 0 ==> o.nav == None)
  {
  }

  /** One wheel event delivered to every card's listener, in order: each
      card's hook after the event, and the navigations the cards request. */
  function Dispatch(p: Policy, cards: seq<Hook>, t: int, deltaY: int): (r: (seq<Hook>, seq<Route>))
    ensures |r.0| == |cards|
    ensures |r.1| <= |cards|
    ensures forall i :: 0 <= i < |r.1| ==> r.1[i] == (if deltaY > 0 then Contact else About)
    ensures deltaY == 0 ==> r.1 == []
    ensures forall i :: 0 <= i < |cards| ==> r.0[i] == Step(p, CardNav, cards[i], Wheel(t, deltaY)).hook
    decreases |cards|
  {
    if |cards| == 0 then ([], [])
    else
      var first := Step(p, CardNav, cards[0], Wheel(t, deltaY));
      var rest := Dispatch(p, cards[1..], t, deltaY);
      ([first.hook] + rest.0, ToSeq(first.nav) + rest.1)
  }

  /** Cards that all accept the event each request the same navigation:
      the page navigates once per card, always to the same route. */
  lemma {:induction false} AllCardsAgree(p: Policy, cards: seq<Hook>, t: int, deltaY: int)
    requires forall i :: 0 <= i < |cards| ==> Accepts(cards[i], t)
    requires deltaY != 0
    ensures |Dispatch(p, cards, t, deltaY).1| == |cards|
    decreases |cards|
  {
    if |cards| > 0 {
      AllCardsAgree(p, cards[1..], t, deltaY);
    }
  }

  // ---------------------------------------------------------------------
  // Hover

  datatype MouseEvent = Enter | Leave

  /** `hovered` after a sequence of mouse events on the card's link:
      entering sets it, leaving clears it. */
  function HoveredAfter(hovered: bool, es: seq<MouseEvent>): bool
    decreases |es|
  {
    if |es| == 0 then hovered else HoveredAfter(es[0] == Enter, es[1..])
  }

  /** A card is hovered exactly when the last mouse event on it was an
      enter; with no events it keeps its state. */
  lemma {:induction false} HoverFollowsLastEvent(hovered: bool, es: seq<MouseEvent>)
    ensures |es| == 0 ==> HoveredAfter(hovered, es) == hovered
    ensures |es| > 0 ==> (HoveredAfter(hovered, es) <==> es[|es| - 1] == Enter)
    decreases |es|
  {
    if |es| > 1 {
      HoverFollowsLastEvent(es[0] == Enter, es[1..]);
      assert es[1..][|es[1..]| - 1] == es[|es| - 1];
    } else if |es| == 1 {
      assert es[1..] == [];
    }
  }

  datatype Variant = Hovered | NotHovered

  function VariantOf(hovered: bool): (v: Variant)
    ensures v == Hovered <==> hovered
  {
    if hovered then Hovered else NotHovered
  }

  /** The background each variant animates to: the theme's background
      unchanged, or with 20 added to each byte when hovered. */
  function Background(theme: Themes.Theme, v: Variant): (r: string)
    ensures v == NotHovered ==> r == theme.background
    ensures v == Hovered ==> Color.IsAdjustedBy(r, theme.background, 20)
  {
    match v
    case Hovered => Color.LumenColorAdjusts(theme.background, 20); Color.LumenColor(theme.background, 20)
    case NotHovered => theme.background
  }

  /** On any `#rrggbb` background the hovered card is lighter: no byte of
      its background is below the same byte of the plain background. */
  lemma HoverLightens(theme: Themes.Theme)
    requires Themes.IsHexColor(theme.background)
    ensures var plain := Color.NumericValue(Background(theme, NotHovered));
            var lit := Color.NumericValue(Background(theme, Hovered));
            && Color.Low(lit) >= Color.Low(plain)
            && Color.Middle(lit) >= Color.Middle(plain)
            && Color.High(lit) >= Color.High(plain)
  {
    Themes.HexColorFits(theme.background);
    Color.LumenColorMonotone(theme.background, 20);
    Color.OutputReadsBack(theme.background, 20);
  }

  lemma DarkInput()
    ensures Color.HasPound("#000000") && Color.NumericValue("#000000") == 0
  {
    Hex.SixDigitValue("000000");
    Color.PoundValue("#000000", "000000");
  }

  lemma DarkOutput()
    ensures "#141414" == "#" + "141414"
    ensures Hex.IsCanonical("141414") && Hex.ValueOf("141414") == 0x141414
  {
    Hex.SixDigitValue("141414");
  }

  lemma LightInput()
    ensures Color.HasPound("#fbfbfb") && Color.NumericValue("#fbfbfb") == 0xfbfbfb
  {
    Hex.SixDigitValue("fbfbfb");
    Color.PoundValue("#fbfbfb", "fbfbfb");
  }

  lemma LightOutput()
    ensures "#ffffff" == "#" + "ffffff"
    ensures Hex.IsCanonical("ffffff") && Hex.ValueOf("ffffff") == 0xffffff
  {
    Hex.SixDigitValue("ffffff");
  }

  lemma LightBytes()
    ensures Color.Pack(Color.ClampByte(Color.Low(0xfbfbfb) + 20), Color.ClampByte(Color.Middle(0xfbfbfb) + 20),
                       Color.ClampByte(Color.High(0xfbfbfb) + 20)) == 0xffffff
  {
    assert Color.Low(0xfbfbfb) == 0xfb && Color.Middle(0xfbfbfb) == 0xfb && Color.High(0xfbfbfb) == 0xfb;
    assert Color.ClampByte(0xfb + 20) == 0xff;
  }

  /** A hovered card on the dark palette turns #141414. */
  lemma DarkHoveredBackground(accent: string)
    ensures Background(Themes.WithAccent(Themes.DarkTheme, accent), Hovered) == "#141414"
  {
    DarkInput();
    DarkOutput();
    Color.PrintedAs("#000000", 0, 20, "#141414", "141414");
  }

  /** On the light palette every byte saturates: a hovered card turns
      #ffffff. */
  lemma LightHoveredBackground(accent: string)
    ensures Background(Themes.WithAccent(Themes.LightTheme, accent), Hovered) == "#ffffff"
  {
    LightInput();
    LightOutput();
    LightBytes();
    Color.PrintedAs("#fbfbfb", 0xfbfbfb, 20, "#ffffff", "ffffff");
  }
}
