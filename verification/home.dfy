/** The home page: its wheel navigation (down to /about, up to /contact),
    the rotating greeting, and the delayed hint. */
module HomePage {
  import opened Wrappers
  import opened Routes
  import opened ScrollNav

  const HomeNav: Neighbours := Neighbours(About, Contact)

  /** The home page's handler: an accepted wheel event navigates to /about
      downward, to /contact upward and nowhere for deltaY = 0; a dropped one
      changes nothing. Its neighbours are the home page's neighbours in the
      route cycle. */
  lemma HomeWheel(p: Policy, h: Hook, t: int, deltaY: int)
    ensures HomeNav == Neighbours(Next(Home), Prev(Home))
    ensures var o := Step(p, HomeNav, h, Wheel(t, deltaY));
            && (!Accepts(h, t) ==> o == Outcome(h, None))
            && (Accepts(h, t) && deltaY > 0 ==> o.nav == Some(About))
            && (Accepts(h, t) && deltaY < 0 ==> o.nav == Some(Contact))
            && (deltaY == 0 ==> o.nav == None)
  {
  }

  /** A horizontal wheel on the home page after the grace period, the
      re-render it causes, the reset timer's due time, and a later
      downward wheel: as written the downward wheel is dropped; with the
      reset kept across the re-render it navigates to /about. */
  lemma HomeHorizontalWheel()
    ensures var es := [Mount(0), Wheel(600, 0), ListenerCleanup(true), ResetFires(1600), Wheel(5000, 120)];
            && Run(AsWritten, HomeNav, Unmounted, es).navs == []
            && Run(KeepResetOnResubscribe, HomeNav, Unmounted, es).navs == [About]
  {
    var es := [Mount(0), Wheel(600, 0), ListenerCleanup(true), ResetFires(1600), Wheel(5000, 120)];
    var mounted := Step(AsWritten, HomeNav, Unmounted, Mount(0)).hook;
    assert es[1..] == [Wheel(600, 0), ListenerCleanup(true)] + [ResetFires(1600), Wheel(5000, 120)];
    RerenderLocksAsWritten(HomeNav, mounted, 600, [ResetFires(1600), Wheel(5000, 120)]);
    assert es[1..] == [Wheel(600, 0), ListenerCleanup(true), ResetFires(1600), Wheel(5000, 120)];
    CorrectedReopensAfterRerender(HomeNav, mounted, 600, 0, 1600, 5000, 120);
    assert Target(HomeNav, 0) == None;
    assert ToSeq(Target(HomeNav, 0)) + [HomeNav.next] == [About];
    assert Run(KeepResetOnResubscribe, HomeNav, mounted, es[1..]).navs == [About];
  }

  // ---------------------------------------------------------------------
  // Greeting rotation and hint

  const Greetings: seq<string> := [
    "Hello!", "Bonjour!", "Olá!", "नमस्ते!", "Ciao!", "السلام عليكم", "你好!", "Hallo!",
    "Привет!", "Γειά σου!", "Hej!", "Merhaba!", "שלום!"
  ]

  const HintDelayMs: int := 3500

  /** The page's timer-driven state: the greeting index, whether the hint
      shows, the due time of the hint timeout (None once it has run or been
      cleared), and whether the greeting interval is running. */
  datatype Timers = Timers(greetingIndex: nat, showHint: bool, hintDue: Option<int>, rotating: bool)

  /** The mount effects: index 0, hint hidden and due 3500 ms later, the
      2000 ms greeting interval started. */
  function MountTimers(t: int): Timers {
    Timers(0, false, Some(t + HintDelayMs), true)
  }

  /** What the timers do: the interval ticks, the hint timeout fires, or the
      page unmounts and both effects' cleanups run. */
  datatype TimerEvent = GreetingTick | HintFires(t: int) | Teardown

  /** `(prevIndex + 1) % greetings.length`. */
  function NextGreeting(i: nat): (j: nat)
    ensures j < |Greetings|
    ensures i + 1 < |Greetings| ==> j == i + 1
    ensures i + 1 == |Greetings| ==> j == 0
  {
    (i + 1) % |Greetings|
  }

  function TimerStep(s: Timers, e: TimerEvent): (r: Timers)
    ensures s.greetingIndex < |Greetings| ==> r.greetingIndex < |Greetings|
    ensures e.GreetingTick? && s.rotating ==> r == s.(greetingIndex := NextGreeting(s.greetingIndex))
    ensures !(e.GreetingTick? && s.rotating) ==> r.greetingIndex == s.greetingIndex
    ensures e.GreetingTick? && !s.rotating ==> r == s
    ensures e.HintFires? ==> r.greetingIndex == s.greetingIndex && r.rotating == s.rotating
    ensures e.HintFires? ==> (r.showHint <==> s.showHint || (s.hintDue.Some? && s.hintDue.value <= e.t))
    ensures e.Teardown? ==> !r.rotating && r.hintDue.None? && r.showHint == s.showHint
    ensures !e.Teardown? ==> r.rotating == s.rotating
  {
    match e
    case GreetingTick => if s.rotating then s.(greetingIndex := NextGreeting(s.greetingIndex)) else s
    case HintFires(t) =>
      if s.hintDue.Some? && s.hintDue.value <= t then s.(showHint := true, hintDue := None) else s
    case Teardown => s.(hintDue := None, rotating := false)
  }

  function RunTimers(s: Timers, es: seq<TimerEvent>): Timers
    decreases |es|
  {
    if |es| == 0 then s else RunTimers(TimerStep(s, es[0]), es[1..])
  }

  /** The greeting shown is always an entry of the list. */
  lemma {:induction false} GreetingInRange(s: Timers, es: seq<TimerEvent>)
    requires s.greetingIndex < |Greetings|
    ensures RunTimers(s, es).greetingIndex < |Greetings|
    decreases |es|
  {
    if |es| > 0 {
      GreetingInRange(TimerStep(s, es[0]), es[1..]);
    }
  }

  /** k interval ticks after mount show greeting k mod 13. */
  lemma {:induction false} GreetingAfterTicks(t: int, k: nat)
    ensures RunTimers(MountTimers(t), seq(k, _ => GreetingTick)).greetingIndex == k % |Greetings|
    ensures RunTimers(MountTimers(t), seq(k, _ => GreetingTick)).rotating
    decreases k
  {
    if k > 0 {
      var ticks := seq(k, _ => GreetingTick);
      var fewer := seq(k - 1, _ => GreetingTick);
      GreetingAfterTicks(t, k - 1);
      RunTimersSnoc(MountTimers(t), fewer, GreetingTick);
      assert ticks == fewer + [GreetingTick];
      assert (k - 1) % |Greetings| + 1 < |Greetings| ==> k % |Greetings| == (k - 1) % |Greetings| + 1;
      assert (k - 1) % |Greetings| + 1 == |Greetings| ==> k % |Greetings| == 0;
    }
  }

  lemma {:induction false} RunTimersSnoc(s: Timers, es: seq<TimerEvent>, e: TimerEvent)
    ensures RunTimers(s, es + [e]) == TimerStep(RunTimers(s, es), e)
    decreases |es|
  {
    if |es| == 0 {
      assert (es + [e])[1..] == [];
    } else {
      assert (es + [e])[1..] == es[1..] + [e];
      RunTimersSnoc(TimerStep(s, es[0]), es[1..], e);
    }
  }

  /** After teardown neither timer acts: whatever events follow, the hint
      is never shown anew and the greeting never changes. */
  lemma {:induction false} TeardownFreezes(s: Timers, es: seq<TimerEvent>)
    ensures var gone := TimerStep(s, Teardown);
            RunTimers(gone, es) == gone
    decreases |es|
  {
    if |es| > 0 {
      var gone := TimerStep(s, Teardown);
      assert TimerStep(gone, es[0]) == gone;
      assert TimerStep(gone, Teardown) == gone;
      TeardownFreezes(s, es[1..]);
    }
  }
}
