/** Runs of a step machine: `next` gives the state after one step, or None when the
    step is not possible. */
module Runs {
  import opened Wrappers

  /** The state after a whole interleaving, if every step of it was possible. */
  function Run<S, L>(next: (S, L) -> Option<S>, s: S, ls: seq<L>): Option<S>
    decreases ls
  {
    if ls == [] then Some(s)
    else
      match next(s, ls[0])
      case None => None
      case Some(t) => Run(next, t, ls[1..])
  }

  lemma RunCons<S, L>(next: (S, L) -> Option<S>, s: S, l: L, ls: seq<L>)
    ensures Run(next, s, [l] + ls) == match next(s, l) case None => None case Some(t) => Run(next, t, ls)
  {
    assert ([l] + ls)[1..] == ls;
  }

  /** Every step keeps the invariant. */
  ghost predicate Kept<S(!new), L(!new)>(next: (S, L) -> Option<S>, inv: S -> bool) {
    forall s: S, l: L :: inv(s) && next(s, l).Some? ==> inv(next(s, l).value)
  }

  /** So every run does. */
  lemma {:induction false} RunKeeps<S(!new), L(!new)>(next: (S, L) -> Option<S>, inv: S -> bool, s: S, ls: seq<L>)
    requires Kept(next, inv) && inv(s) && Run(next, s, ls).Some?
    ensures inv(Run(next, s, ls).value)
    decreases ls
  {
    if ls != [] {
      RunKeeps(next, inv, next(s, ls[0]).value, ls[1..]);
    }
  }

  lemma {:induction false} RunSplit<S, L>(next: (S, L) -> Option<S>, s: S, a: seq<L>, b: seq<L>)
    ensures Run(next, s, a + b) == match Run(next, s, a) case None => None case Some(t) => Run(next, t, b)
    decreases a
  {
    if a == [] {
      assert a + b == b;
    } else {
      assert (a + b)[0] == a[0] && (a + b)[1..] == a[1..] + b;
      match next(s, a[0])
      case None =>
      case Some(t) => RunSplit(next, t, a[1..], b);
    }
  }

  /** A run in which every step changes something. */
  ghost predicate Effective<S, L>(next: (S, L) -> Option<S>, s: S, ls: seq<L>)
    decreases ls
  {
    ls == [] ||
    (next(s, ls[0]).Some? && next(s, ls[0]).value != s && Effective(next, next(s, ls[0]).value, ls[1..]))
  }

  /** Every step that changes something lowers the measure, which is not negative. */
  ghost predicate Lowers<S(!new), L(!new)>(next: (S, L) -> Option<S>, inv: S -> bool, measure: S -> int) {
    forall s: S, l: L :: inv(s) && next(s, l).Some? && next(s, l).value != s ==>
      0 <= measure(next(s, l).value) < measure(s)
  }

  /** So the measure bounds the number of such steps. */
  lemma {:induction false} EffectiveRunsEnd<S(!new), L(!new)>(
      next: (S, L) -> Option<S>, inv: S -> bool, measure: S -> int, s: S, ls: seq<L>)
    requires Kept(next, inv) && Lowers(next, inv, measure) && inv(s) && Effective(next, s, ls)
    ensures Run(next, s, ls).Some? && inv(Run(next, s, ls).value)
    ensures |ls| + measure(Run(next, s, ls).value) <= measure(s)
    decreases ls
  {
    if ls != [] {
      EffectiveRunsEnd(next, inv, measure, next(s, ls[0]).value, ls[1..]);
    }
  }
}
