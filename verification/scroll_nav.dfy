/** The wheel-navigation behaviour each page wires up: a grace period of
    500 ms after mount, then a wheel event navigates to the next page
    (downward) or the previous page (upward), sets `scrolling`, and
    schedules a timeout that clears `scrolling` after 1000 ms. While
    `scrolling` is set, wheel events are dropped. One transition function,
    parameterised by the page's two neighbours, stands for the four copies
    of the handler. */
module ScrollNav {
  import opened Wrappers
  import opened Routes

  const GraceMs: int := 500
  const ResetDelayMs: int := 1000

  /** Where a page navigates: down to `next`, up to `prev`. */
  datatype Neighbours = Neighbours(next: Route, prev: Route)

  /** The hook's state for one mounted component: the instant from which
      wheel input counts (`scrollEnabledTimeRef`), the `scrolling` flag, the
      due time of the live reset timeout in `scrollTimeoutRef` (None when no
      timeout is live), and whether the wheel listener is attached. */
  datatype Hook = Hook(enabledAt: int, scrolling: bool, pendingReset: Option<int>, listening: bool)

  /** What can happen to the hook. `ListenerCleanup(resubscribe)` is the
      cleanup of the listener effect: React runs it on unmount
      (`resubscribe` false) and, because the handler depends on
      `scrolling`, on the re-render after every change of `scrolling`, where
      the effect then attaches the new handler (`resubscribe` true). */
  datatype Event =
    | Mount(t: int)
    | Wheel(t: int, deltaY: int)
    | ResetFires(t: int)
    | ListenerCleanup(resubscribe: bool)

  /** How the listener cleanup treats the pending reset: the source clears
      it on every cleanup; the corrected behaviour clears it only when the
      component unmounts. */
  datatype Policy = AsWritten | KeepResetOnResubscribe

  /** The hook after an event, and the route navigated to, if any. */
  datatype Outcome = Outcome(hook: Hook, nav: Option<Route>)

  /** The hook before its component mounts: the ref starts at 0, the flag
      at false, and no listener is attached. */
  const Unmounted: Hook := Hook(0, false, None, false)

  /** The handler's guard: `Date.now() < scrollEnabledTimeRef.current ||
      scrolling` returns early; a detached listener sees nothing. */
  predicate Accepts(h: Hook, t: int) {
    h.listening && !(t < h.enabledAt || h.scrolling)
  }

  /** The route a wheel movement asks for. */
  function Target(n: Neighbours, deltaY: int): Option<Route> {
    if deltaY > 0 then Some(n.next) else if deltaY < 0 then Some(n.prev) else None
  }

  /** `handleWheel`. */
  function OnWheel(n: Neighbours, h: Hook, t: int, deltaY: int): (o: Outcome)
    ensures !Accepts(h, t) ==> o == Outcome(h, None)
    ensures Accepts(h, t) ==> o.hook.scrolling && o.hook.pendingReset == Some(t + ResetDelayMs)
    ensures o.hook.enabledAt == h.enabledAt && o.hook.listening == h.listening
    ensures o.nav.Some? ==> Accepts(h, t) && deltaY != 0
    ensures Accepts(h, t) && deltaY > 0 ==> o.nav == Some(n.next)
    ensures Accepts(h, t) && deltaY < 0 ==> o.nav == Some(n.prev)
  {
    if !Accepts(h, t) then Outcome(h, None)
    else Outcome(h.(scrolling := true, pendingReset := Some(t + ResetDelayMs)), Target(n, deltaY))
  }

  /** The reset timeout's callback, `setScrolling(false)`, runs once the
      clock reaches its due time; a cleared timeout never runs. */
  function OnReset(h: Hook, t: int): (r: Hook)
    ensures r.enabledAt == h.enabledAt && r.listening == h.listening
    ensures h.pendingReset.Some? && h.pendingReset.value <= t ==> !r.scrolling && r.pendingReset.None?
    ensures !(h.pendingReset.Some? && h.pendingReset.value <= t) ==> r == h
  {
    match h.pendingReset
    case Some(due) => if due <= t then h.(scrolling := false, pendingReset := None) else h
    case None => h
  }

  /** The listener effect's cleanup, followed by the re-attachment of the
      new handler when the component stays mounted. */
  function OnCleanup(p: Policy, h: Hook, resubscribe: bool): (r: Hook)
    ensures r.enabledAt == h.enabledAt && r.scrolling == h.scrolling
    ensures r.listening <==> h.listening && resubscribe
    ensures p == AsWritten || !resubscribe ==> r.pendingReset.None?
    ensures p == KeepResetOnResubscribe && resubscribe ==> r.pendingReset == h.pendingReset
  {
    var kept := p == KeepResetOnResubscribe && resubscribe;
    h.(pendingReset := if kept then h.pendingReset else None, listening := h.listening && resubscribe)
  }

  /** The transition function of the hook. */
  function Step(p: Policy, n: Neighbours, h: Hook, e: Event): (o: Outcome)
    ensures o.nav.Some? ==> e.Wheel? && Accepts(h, e.t)
    ensures !e.Mount? ==> o.hook.enabledAt == h.enabledAt
  {
    match e
    case Mount(t) => Outcome(Hook(t + GraceMs, false, None, true), None)
    case Wheel(t, deltaY) => OnWheel(n, h, t, deltaY)
    case ResetFires(t) => Outcome(OnReset(h, t), None)
    case ListenerCleanup(resubscribe) => Outcome(OnCleanup(p, h, resubscribe), None)
  }

  /** A run of events: the final hook and the routes navigated to, in order. */
  datatype Trace = Trace(hook: Hook, navs: seq<Route>)

  function Run(p: Policy, n: Neighbours, h: Hook, es: seq<Event>): (r: Trace)
    decreases |es|
  {
    if |es| == 0 then Trace(h, [])
    else
      var o := Step(p, n, h, es[0]);
      var rest := Run(p, n, o.hook, es[1..]);
      Trace(rest.hook, ToSeq(o.nav) + rest.navs)
  }

  // ---------------------------------------------------------------------
  // Properties of single events

  /** The grace period: after a mount at t0, a wheel event before t0 + 500
      is dropped, and one at exactly t0 + 500 is taken (the comparison is
      strict). */
  lemma GracePeriod(p: Policy, n: Neighbours, t0: int, t: int, deltaY: int)
    ensures var h := Step(p, n, Unmounted, Mount(t0)).hook;
            && (t < t0 + GraceMs ==> Step(p, n, h, Wheel(t, deltaY)) == Outcome(h, None))
            && (t >= t0 + GraceMs ==> Accepts(h, t))
  {
  }

  /** An accepted wheel event replaces whatever reset was pending by one
      due 1000 ms later, sets `scrolling`, and navigates at most once: to
      `next` downward, to `prev` upward, nowhere for deltaY = 0. */
  lemma AcceptedWheel(p: Policy, n: Neighbours, h: Hook, t: int, deltaY: int)
    requires Accepts(h, t)
    ensures var o := Step(p, n, h, Wheel(t, deltaY));
            && o.hook == h.(scrolling := true, pendingReset := Some(t + ResetDelayMs))
            && |ToSeq(o.nav)| <= 1
            && (o.nav == Some(n.next) <== deltaY > 0)
            && (o.nav == Some(n.prev) <== deltaY < 0)
            && (o.nav.None? <==> deltaY == 0)
  {
  }

  /** While `scrolling` is set, every wheel event is dropped. */
  lemma ScrollingDropsWheel(p: Policy, n: Neighbours, h: Hook, t: int, deltaY: int)
    requires h.scrolling
    ensures Step(p, n, h, Wheel(t, deltaY)) == Outcome(h, None)
  {
  }

  /** The listener cleanup detaches the handler (unless it is re-attached)
      and, as written, cancels the pending reset. */
  lemma CleanupCancelsReset(n: Neighbours, h: Hook, resubscribe: bool)
    ensures var h' := Step(AsWritten, n, h, ListenerCleanup(resubscribe)).hook;
            && h'.pendingReset.None?
            && h'.scrolling == h.scrolling
            && (!resubscribe ==> !h'.listening)
  {
  }

  // ---------------------------------------------------------------------
  // An invariant of reachable hooks

  /** A live reset timeout exists only while `scrolling` is set and the
      listener is attached. */
  predicate Valid(h: Hook) {
    h.pendingReset.Some? ==> h.scrolling && h.listening
  }

  lemma StepKeepsValid(p: Policy, n: Neighbours, h: Hook, e: Event)
    requires Valid(h)
    ensures Valid(Step(p, n, h, e).hook)
  {
  }

  lemma {:induction false} RunKeepsValid(p: Policy, n: Neighbours, h: Hook, es: seq<Event>)
    requires Valid(h)
    ensures Valid(Run(p, n, h, es).hook)
    decreases |es|
  {
    if |es| > 0 {
      StepKeepsValid(p, n, h, es[0]);
      RunKeepsValid(p, n, Step(p, n, h, es[0]).hook, es[1..]);
    }
  }

  // ---------------------------------------------------------------------
  // Properties of runs

  /** No event of the run mounts the component afresh. */
  predicate NoMount(es: seq<Event>) {
    forall i :: 0 <= i < |es| ==> !es[i].Mount?
  }

  /** Every reset timeout in the run fires before `d`. */
  predicate ResetsBefore(es: seq<Event>, d: int) {
    forall i :: 0 <= i < |es| && es[i].ResetFires? ==> es[i].t < d
  }

  /** Every wheel event in the run comes before `d`. */
  predicate WheelsBefore(es: seq<Event>, d: int) {
    forall i :: 0 <= i < |es| && es[i].Wheel? ==> es[i].t < d
  }

  /** The debounce window: while `scrolling` is set and no reset can run
      before `d`, nothing navigates until `d` and `scrolling` stays set. */
  lemma {:induction false} QuietUntilReset(p: Policy, n: Neighbours, h: Hook, es: seq<Event>, d: int)
    requires h.scrolling
    requires h.pendingReset.None? || h.pendingReset.value >= d
    requires NoMount(es) && ResetsBefore(es, d)
    ensures Run(p, n, h, es).navs == []
    ensures Run(p, n, h, es).hook.scrolling
    decreases |es|
  {
    if |es| > 0 {
      var h' := Step(p, n, h, es[0]).hook;
      assert h'.scrolling;
      assert NoMount(es[1..]) && ResetsBefore(es[1..], d) by {
        forall i | 0 <= i < |es| - 1
          ensures !es[1..][i].Mount? && (es[1..][i].ResetFires? ==> es[1..][i].t < d)
        {
          assert es[1..][i] == es[i + 1];
        }
      }
      QuietUntilReset(p, n, h', es[1..], d);
    }
  }

  /** At most one navigation per debounce window: after a wheel event
      accepted at t, the events that follow navigate nowhere as long as the
      component is not mounted afresh and no reset runs before t + 1000. */
  lemma NoSecondNavigationWithinWindow(p: Policy, n: Neighbours, h: Hook, t: int, deltaY: int, es: seq<Event>)
    requires Accepts(h, t)
    requires NoMount(es) && ResetsBefore(es, t + ResetDelayMs)
    ensures |Run(p, n, h, [Wheel(t, deltaY)] + es).navs| <= 1
  {
    var es' := [Wheel(t, deltaY)] + es;
    assert es'[1..] == es;
    QuietUntilReset(p, n, Step(p, n, h, Wheel(t, deltaY)).hook, es, t + ResetDelayMs);
  }

  /** During the grace period nothing navigates: after a mount at t0, a run
      whose wheel events all come before t0 + 500 navigates nowhere. */
  lemma {:induction false} NothingBeforeGraceEnds(p: Policy, n: Neighbours, h: Hook, es: seq<Event>)
    requires NoMount(es) && WheelsBefore(es, h.enabledAt)
    ensures Run(p, n, h, es).navs == []
    decreases |es|
  {
    if |es| > 0 {
      var h' := Step(p, n, h, es[0]).hook;
      assert h'.enabledAt == h.enabledAt;
      assert NoMount(es[1..]) && WheelsBefore(es[1..], h.enabledAt) by {
        forall i | 0 <= i < |es| - 1
          ensures !es[1..][i].Mount? && (es[1..][i].Wheel? ==> es[1..][i].t < h.enabledAt)
        {
          assert es[1..][i] == es[i + 1];
        }
      }
      NothingBeforeGraceEnds(p, n, h', es[1..]);
    }
  }

  /** After unmount nothing fires: once the listener is detached and no
      reset is pending, no run without a fresh mount navigates or changes
      the hook. */
  lemma {:induction false} NothingAfterUnmount(p: Policy, n: Neighbours, h: Hook, es: seq<Event>)
    requires !h.listening && h.pendingReset.None?
    requires NoMount(es)
    ensures Run(p, n, h, es) == Trace(h, [])
    decreases |es|
  {
    if |es| > 0 {
      assert Step(p, n, h, es[0]).hook == h;
      assert NoMount(es[1..]) by {
        forall i | 0 <= i < |es| - 1 ensures !es[1..][i].Mount? {
          assert es[1..][i] == es[i + 1];
        }
      }
      NothingAfterUnmount(p, n, h, es[1..]);
    }
  }

  /** Unmounting, the cleanup without re-attachment, leaves such a hook. */
  lemma UnmountSilences(p: Policy, n: Neighbours, h: Hook, es: seq<Event>)
    requires NoMount(es)
    ensures var gone := Step(p, n, h, ListenerCleanup(false)).hook;
            Run(p, n, gone, es) == Trace(gone, [])
  {
    NothingAfterUnmount(p, n, Step(p, n, h, ListenerCleanup(false)).hook, es);
  }

  /** What the reset callback does when it runs: once it has fired, the
      next wheel event navigates again. The run has no cleanup between the
      events. On a mounted page the as-written hook never produces such a
      run, because the re-render that `setScrolling(true)` causes always
      runs the cleanup in between and cancels the reset
      (RerenderLocksAsWritten). The corrected hook reaches the same end
      with the cleanup included (CorrectedReopensAfterRerender). */
  lemma ResetReopens(p: Policy, n: Neighbours, h: Hook, t: int, deltaY: int, t2: int, deltaY2: int)
    requires Accepts(h, t) && deltaY2 != 0
    requires t2 >= t + ResetDelayMs
    ensures Run(p, n, h, [Wheel(t, deltaY), ResetFires(t2), Wheel(t2, deltaY2)]).navs
            == ToSeq(Target(n, deltaY)) + [if deltaY2 > 0 then n.next else n.prev]
  {
    var es := [Wheel(t, deltaY), ResetFires(t2), Wheel(t2, deltaY2)];
    var h1 := Step(p, n, h, Wheel(t, deltaY)).hook;
    var h2 := Step(p, n, h1, ResetFires(t2)).hook;
    assert Accepts(h2, t2);
    var last := Step(p, n, h2, Wheel(t2, deltaY2));
    assert ToSeq(last.nav) == [if deltaY2 > 0 then n.next else n.prev];
    assert es[1..] == [ResetFires(t2), Wheel(t2, deltaY2)];
    assert es[1..][1..] == [Wheel(t2, deltaY2)];
    assert Run(p, n, h2, es[1..][1..]).navs == ToSeq(last.nav) + [];
  }

  // ---------------------------------------------------------------------
  // The re-render cleanup and the reset

  /** Once `scrolling` is set with no live reset, nothing but a fresh mount
      ever clears it: no run navigates. */
  lemma {:induction false} StuckWithoutReset(p: Policy, n: Neighbours, h: Hook, es: seq<Event>)
    requires h.scrolling && h.pendingReset.None?
    requires NoMount(es)
    ensures Run(p, n, h, es).navs == []
    ensures Run(p, n, h, es).hook.scrolling
    decreases |es|
  {
    if |es| > 0 {
      var h' := Step(p, n, h, es[0]).hook;
      assert h'.scrolling && h'.pendingReset.None?;
      assert NoMount(es[1..]) by {
        forall i | 0 <= i < |es| - 1 ensures !es[1..][i].Mount? {
          assert es[1..][i] == es[i + 1];
        }
      }
      StuckWithoutReset(p, n, h', es[1..]);
    }
  }

  /** As written, an accepted wheel event that does not navigate away (a
      purely horizontal wheel, deltaY = 0) leaves the page mounted; the
      re-render that `setScrolling(true)` causes runs the listener cleanup,
      which clears the reset timeout just scheduled, so `scrolling` is never
      cleared again and wheel navigation stays off until the page is
      mounted afresh. */
  lemma RerenderLocksAsWritten(n: Neighbours, h: Hook, t: int, es: seq<Event>)
    requires Accepts(h, t)
    requires NoMount(es)
    ensures Run(AsWritten, n, h, [Wheel(t, 0), ListenerCleanup(true)] + es).navs == []
  {
    var h1 := Step(AsWritten, n, h, Wheel(t, 0)).hook;
    var h2 := Step(AsWritten, n, h1, ListenerCleanup(true)).hook;
    var all := [Wheel(t, 0), ListenerCleanup(true)] + es;
    assert all[1..][1..] == es;
    StuckWithoutReset(AsWritten, n, h2, es);
  }

  /** With the reset kept across the re-render, the window does close:
      after an accepted wheel event, the re-render, and the reset firing
      1000 ms later, the next wheel event navigates again. */
  lemma CorrectedReopensAfterRerender(n: Neighbours, h: Hook, t: int, deltaY: int, t2: int, t3: int, deltaY2: int)
    requires Accepts(h, t) && deltaY2 != 0
    requires t + ResetDelayMs <= t2 <= t3
    ensures Run(KeepResetOnResubscribe, n, h,
                [Wheel(t, deltaY), ListenerCleanup(true), ResetFires(t2), Wheel(t3, deltaY2)]).navs
            == ToSeq(Target(n, deltaY)) + [if deltaY2 > 0 then n.next else n.prev]
  {
    var p := KeepResetOnResubscribe;
    var es := [Wheel(t, deltaY), ListenerCleanup(true), ResetFires(t2), Wheel(t3, deltaY2)];
    var h1 := Step(p, n, h, Wheel(t, deltaY)).hook;
    var h2 := Step(p, n, h1, ListenerCleanup(true)).hook;
    assert h2.pendingReset == Some(t + ResetDelayMs);
    var h3 := Step(p, n, h2, ResetFires(t2)).hook;
    assert Accepts(h3, t3);
    var last := Step(p, n, h3, Wheel(t3, deltaY2));
    assert es[1..] == [ListenerCleanup(true), ResetFires(t2), Wheel(t3, deltaY2)];
    assert es[1..][1..] == [ResetFires(t2), Wheel(t3, deltaY2)];
    assert es[1..][1..][1..] == [Wheel(t3, deltaY2)];
    assert Run(p, n, h3, es[1..][1..][1..]).navs == ToSeq(last.nav) + [];
    assert Run(p, n, h2, es[1..][1..]).navs == ToSeq(last.nav);
    assert Run(p, n, h1, es[1..]).navs == ToSeq(last.nav);
  }
}
