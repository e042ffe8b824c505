/** The about page: its wheel navigation (down to /projects, up to /) and
    the puzzle popup that follows the cursor while a puzzle name is
    hovered. */
module AboutPage {
  import opened Wrappers
  import opened Routes
  import opened ScrollNav

  const AboutNav: Neighbours := Neighbours(Projects, Home)

  /** The about page's handler: an accepted wheel event navigates to
      /projects downward, to / upward and nowhere for deltaY = 0; a dropped
      one changes nothing. */
  lemma AboutWheel(p: Policy, h: Hook, t: int, deltaY: int)
    ensures AboutNav == Neighbours(Next(About), Prev(About))
    ensures var o := Step(p, AboutNav, h, Wheel(t, deltaY));
            && (!Accepts(h, t) ==> o == Outcome(h, None))
            && (Accepts(h, t) && deltaY > 0 ==> o.nav == Some(Projects))
            && (Accepts(h, t) && deltaY < 0 ==> o.nav == Some(Home))
            && (deltaY == 0 ==> o.nav == None)
  {
  }

  // ---------------------------------------------------------------------
  // Puzzle popup

  datatype PuzzleKey = Mastermorphix | Megaminx | Square1

  /** Where the popup sits relative to the cursor, and the image's size. */
  datatype PuzzleData = PuzzleData(offsetX: int, offsetY: int, width: int, height: int)

  function Data(k: PuzzleKey): PuzzleData {
    match k
    case Mastermorphix => PuzzleData(-100, -195, 200, 175)
    case Megaminx => PuzzleData(-100, -220, 200, 200)
    case Square1 => PuzzleData(-100, -170, 200, 150)
  }

  /** The name each puzzle is shown under in the text. */
  function DisplayName(k: PuzzleKey): string {
    match k
    case Mastermorphix => "Mastermorphix"
    case Megaminx => "Megaminx"
    case Square1 => "Square-1"
  }

  /** The lookup table from display names to keys: exactly the three
      display names are known. */
  function PuzzleNameToKey(name: string): (k: Option<PuzzleKey>)
    ensures k.Some? ==> DisplayName(k.value) == name
  {
    if name == "Mastermorphix" then Some(Mastermorphix)
    else if name == "Megaminx" then Some(Megaminx)
    else if name == "Square-1" then Some(Square1)
    else None
  }

  /** The lookup recovers every puzzle from its display name, and a name
      that is no puzzle's display name is unknown. */
  lemma NameKeyRoundTrip(k: PuzzleKey, name: string)
    ensures PuzzleNameToKey(DisplayName(k)) == Some(k)
    ensures (forall j: PuzzleKey :: DisplayName(j) != name) ==> PuzzleNameToKey(name) == None
  {
  }

  datatype Point = Point(x: int, y: int)

  /** The page's hover state: the active puzzle (null in the source) and
      the last recorded cursor position. */
  datatype Hover = Hover(active: Option<PuzzleKey>, position: Point)

  const NoHover: Hover := Hover(None, Point(0, 0))

  /** Entering a known puzzle name activates it and records the cursor;
      entering anything else changes nothing. */
  function MouseEnter(s: Hover, name: string, cursor: Point): (r: Hover)
    ensures PuzzleNameToKey(name).Some? ==> r.active == PuzzleNameToKey(name) && r.position == cursor
    ensures PuzzleNameToKey(name).None? ==> r == s
  {
    match PuzzleNameToKey(name)
    case Some(k) => Hover(Some(k), cursor)
    case None => s
  }

  /** Leaving clears the active puzzle and keeps the position. */
  function MouseLeave(s: Hover): (r: Hover)
    ensures r.active.None? && r.position == s.position
  {
    s.(active := None)
  }

  /** Moving records the cursor only while a puzzle is active. */
  function MouseMove(s: Hover, cursor: Point): (r: Hover)
    ensures r.active == s.active
    ensures s.active.Some? ==> r.position == cursor
    ensures s.active.None? ==> r == s
  {
    if s.active.Some? then s.(position := cursor) else s
  }

  /** The popup's box on screen: top and left in pixels, then the size. */
  datatype Popup = Popup(top: int, left: int, width: int, height: int)

  /** The popup is drawn exactly while a puzzle is active, at the cursor
      shifted by that puzzle's offsets and with its image size. */
  function PopupAt(s: Hover): (r: Option<Popup>)
    ensures r.Some? <==> s.active.Some?
    ensures r.Some? ==> (r.value.width == Data(s.active.value).width
                         && r.value.height == Data(s.active.value).height)
  {
    match s.active
    case None => None
    case Some(k) =>
      Some(Popup(s.position.y + Data(k).offsetY, s.position.x + Data(k).offsetX,
                 Data(k).width, Data(k).height))
  }

  /** The popup tracks the cursor: after entering a puzzle and any moves,
      undoing that puzzle's offsets on the popup's corner gives back the
      last cursor position, which is the entry point when there were no
      moves. */
  lemma {:induction false} PopupFollowsCursor(name: string, enter: Point, moves: seq<Point>)
    requires PuzzleNameToKey(name).Some?
    ensures var s := Moves(MouseEnter(NoHover, name, enter), moves);
            var d := Data(PuzzleNameToKey(name).value);
            var last := ([enter] + moves)[|moves|];
            && PopupAt(s).Some?
            && PopupAt(s).value.left - d.offsetX == last.x
            && PopupAt(s).value.top - d.offsetY == last.y
    decreases |moves|
  {
    var start := MouseEnter(NoHover, name, enter);
    MovesKeepActive(start, moves);
    if |moves| == 0 {
      assert ([enter] + moves)[0] == enter;
    } else {
      var init := moves[..|moves| - 1];
      MovesSnoc(start, init, moves[|moves| - 1]);
      assert moves == init + [moves[|moves| - 1]];
      MovesKeepActive(start, init);
      assert ([enter] + moves)[|moves|] == moves[|moves| - 1];
    }
  }

  function Moves(s: Hover, cursors: seq<Point>): Hover
    decreases |cursors|
  {
    if |cursors| == 0 then s else Moves(MouseMove(s, cursors[0]), cursors[1..])
  }

  lemma {:induction false} MovesKeepActive(s: Hover, cursors: seq<Point>)
    ensures Moves(s, cursors).active == s.active
    decreases |cursors|
  {
    if |cursors| > 0 {
      MovesKeepActive(MouseMove(s, cursors[0]), cursors[1..]);
    }
  }

  lemma {:induction false} MovesSnoc(s: Hover, cursors: seq<Point>, c: Point)
    ensures Moves(s, cursors + [c]) == MouseMove(Moves(s, cursors), c)
    decreases |cursors|
  {
    if |cursors| == 0 {
      assert (cursors + [c])[1..] == [];
    } else {
      assert (cursors + [c])[1..] == cursors[1..] + [c];
      MovesSnoc(MouseMove(s, cursors[0]), cursors[1..], c);
    }
  }

  /** Leaving hides the popup whatever the cursor does afterwards, until a
      puzzle is entered again. */
  lemma {:induction false} LeaveHidesPopup(s: Hover, cursors: seq<Point>)
    ensures PopupAt(Moves(MouseLeave(s), cursors)) == None
  {
    MovesKeepActive(MouseLeave(s), cursors);
  }

  /** Every puzzle's popup sits above and to the left of the cursor, and
      the image's height fits between the popup's top and the cursor. */
  lemma PopupAboveCursor(k: PuzzleKey)
    ensures Data(k).offsetX < 0 && Data(k).offsetY < 0
    ensures Data(k).height <= -Data(k).offsetY
  {
  }
}
