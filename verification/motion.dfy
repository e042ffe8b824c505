/** The two animation-prop helpers: `fade` and `objectIf`. */
module Motion {

  /** The props `fade` returns: none at all (`{}`), or a fade-in from
      opacity 0 to opacity 1 with the caller's transition. */
  datatype FadeProps<T> = NoProps | FadeIn(initialOpacity: int, animateOpacity: int, transition: T)

  /** `fade(transition, disable)`. */
  function Fade<T>(transition: T, disable: bool): (p: FadeProps<T>)
    ensures disable <==> p.NoProps?
    ensures p.FadeIn? ==> p.initialOpacity == 0 && p.animateOpacity == 1
    ensures p.FadeIn? ==> p.transition == transition
  {
    if disable then NoProps else FadeIn(0, 1, transition)
  }

  /** `objectIf(condition, object, def)`; `obj` and `fallback` are `object` and `def`. */
  function ObjectIf<T>(condition: bool, obj: T, fallback: T): (r: T)
    ensures condition ==> r == obj
    ensures !condition ==> r == fallback
  {
    if condition then obj else fallback
  }

  /** When the two alternatives differ, the result tells the condition. */
  lemma ObjectIfSelects<T>(condition: bool, obj: T, fallback: T)
    requires obj != fallback
    ensures ObjectIf(condition, obj, fallback) == obj <==> condition
  {
  }

  /** The props tell how `fade` was called: whether it was disabled and,
      if not, the transition it was given. */
  lemma FadeInjective<T>(t1: T, d1: bool, t2: T, d2: bool)
    requires Fade(t1, d1) == Fade(t2, d2)
    ensures d1 == d2
    ensures !d1 ==> t1 == t2
  {
  }
}
