/** Runs of a state machine. The machine is the partial function from a state and a step to the next
    state; a step is enabled where the function is defined. */
module Runs {

  ghost predicate IsRun<S, T>(apply: (S, T) --> S, s: S, steps: seq<T>)
    decreases |steps|
  {
    steps == [] || (apply.requires(s, steps[0]) && IsRun(apply, apply(s, steps[0]), steps[1..]))
  }

  ghost function Final<S, T>(apply: (S, T) --> S, s: S, steps: seq<T>): S
    requires IsRun(apply, s, steps)
    decreases |steps|
  {
    if steps == [] then s else Final(apply, apply(s, steps[0]), steps[1..])
  }

  /** Each step meets `ok` in the state it is taken in. */
  ghost predicate Along<S, T>(apply: (S, T) --> S, ok: (S, T) -> bool, s: S, steps: seq<T>)
    requires IsRun(apply, s, steps)
    decreases |steps|
  {
    steps == [] || (ok(s, steps[0]) && Along(apply, ok, apply(s, steps[0]), steps[1..]))
  }

  /** What each such step keeps, each such run keeps. */
  lemma {:induction false} RunKeeps<S(!new), T(!new)>(
    apply: (S, T) --> S, ok: (S, T) -> bool, inv: S -> bool, s: S, steps: seq<T>)
    requires IsRun(apply, s, steps) && Along(apply, ok, s, steps) && inv(s)
    requires forall t, step | inv(t) && apply.requires(t, step) && ok(t, step) :: inv(apply(t, step))
    ensures inv(Final(apply, s, steps))
    decreases |steps|
  {
    if steps == [] {
    } else {
      RunKeeps(apply, ok, inv, apply(s, steps[0]), steps[1..]);
    }
  }

  /** What every step keeps, every run keeps. */
  lemma {:induction false} EveryRunKeeps<S(!new), T(!new)>(
    apply: (S, T) --> S, inv: S -> bool, s: S, steps: seq<T>)
    requires IsRun(apply, s, steps) && inv(s)
    requires forall t, step | inv(t) && apply.requires(t, step) :: inv(apply(t, step))
    ensures inv(Final(apply, s, steps))
    decreases |steps|
  {
    if steps == [] {
    } else {
      EveryRunKeeps(apply, inv, apply(s, steps[0]), steps[1..]);
    }
  }

  /** If a property survives exactly the `ok` steps and is never regained, it holds at the end of
      exactly the runs of `ok` steps. */
  lemma {:induction false} HoldsIffAlong<S(!new), T(!new)>(
    apply: (S, T) --> S, ok: (S, T) -> bool, inv: S -> bool, p: S -> bool, s: S, steps: seq<T>)
    requires IsRun(apply, s, steps) && inv(s) && p(s)
    requires forall t, step | inv(t) && apply.requires(t, step) :: inv(apply(t, step))
    requires forall t, step | inv(t) && apply.requires(t, step) :: p(apply(t, step)) <==> p(t) && ok(t, step)
    ensures p(Final(apply, s, steps)) <==> Along(apply, ok, s, steps)
    decreases |steps|
  {
    if steps == [] {
    } else if ok(s, steps[0]) {
      HoldsIffAlong(apply, ok, inv, p, apply(s, steps[0]), steps[1..]);
    } else {
      var inv' := t => inv(t) && !p(t);
      EveryRunKeeps(apply, inv', apply(s, steps[0]), steps[1..]);
    }
  }

  lemma {:induction false} Append<S, T>(apply: (S, T) --> S, s: S, a: seq<T>, b: seq<T>)
    requires IsRun(apply, s, a) && IsRun(apply, Final(apply, s, a), b)
    ensures IsRun(apply, s, a + b) && Final(apply, s, a + b) == Final(apply, Final(apply, s, a), b)
    decreases |a|
  {
    if a == [] {
      assert a + b == b;
    } else {
      Append(apply, apply(s, a[0]), a[1..], b);
      assert (a + b)[1..] == a[1..] + b;
    }
  }

  lemma {:induction false} AlongAppend<S, T>(
    apply: (S, T) --> S, ok: (S, T) -> bool, s: S, a: seq<T>, b: seq<T>)
    requires IsRun(apply, s, a) && Along(apply, ok, s, a)
    requires IsRun(apply, Final(apply, s, a), b) && Along(apply, ok, Final(apply, s, a), b)
    ensures IsRun(apply, s, a + b) && Along(apply, ok, s, a + b)
    ensures Final(apply, s, a + b) == Final(apply, Final(apply, s, a), b)
    decreases |a|
  {
    if a == [] {
      assert a + b == b;
    } else {
      AlongAppend(apply, ok, apply(s, a[0]), a[1..], b);
      assert (a + b)[1..] == a[1..] + b;
    }
  }

  lemma OneStep<S, T>(apply: (S, T) --> S, s: S, step: T)
    requires apply.requires(s, step)
    ensures IsRun(apply, s, [step]) && Final(apply, s, [step]) == apply(s, step)
    ensures forall ok: (S, T) -> bool :: Along(apply, ok, s, [step]) <==> ok(s, step)
  {
  }

  /** A run one step longer. */
  lemma Extend<S, T>(apply: (S, T) --> S, s: S, steps: seq<T>, step: T)
    requires IsRun(apply, s, steps) && apply.requires(Final(apply, s, steps), step)
    ensures IsRun(apply, s, steps + [step])
    ensures Final(apply, s, steps + [step]) == apply(Final(apply, s, steps), step)
  {
    OneStep(apply, Final(apply, s, steps), step);
    Append(apply, s, steps, [step]);
  }

  lemma AlongExtend<S, T>(apply: (S, T) --> S, ok: (S, T) -> bool, s: S, steps: seq<T>, step: T)
    requires IsRun(apply, s, steps) && Along(apply, ok, s, steps)
    requires apply.requires(Final(apply, s, steps), step) && ok(Final(apply, s, steps), step)
    ensures IsRun(apply, s, steps + [step]) && Along(apply, ok, s, steps + [step])
    ensures Final(apply, s, steps + [step]) == apply(Final(apply, s, steps), step)
  {
    OneStep(apply, Final(apply, s, steps), step);
    AlongAppend(apply, ok, s, steps, [step]);
  }

  /** A run given with its states. */
  lemma {:induction false} Unfold<S, T>(apply: (S, T) --> S, states: seq<S>, steps: seq<T>)
    requires |states| == |steps| + 1
    requires forall i | 0 <= i < |steps| ::
               apply.requires(states[i], steps[i]) && states[i + 1] == apply(states[i], steps[i])
    ensures IsRun(apply, states[0], steps) && Final(apply, states[0], steps) == states[|steps|]
    decreases |steps|
  {
    if steps == [] {
    } else {
      Unfold(apply, states[1..], steps[1..]);
    }
  }

  lemma {:induction false} AlongUnfold<S, T>(
    apply: (S, T) --> S, ok: (S, T) -> bool, states: seq<S>, steps: seq<T>)
    requires |states| == |steps| + 1
    requires forall i | 0 <= i < |steps| ::
               apply.requires(states[i], steps[i]) && states[i + 1] == apply(states[i], steps[i])
    requires forall i | 0 <= i < |steps| :: ok(states[i], steps[i])
    ensures IsRun(apply, states[0], steps) && Final(apply, states[0], steps) == states[|steps|]
    ensures Along(apply, ok, states[0], steps)
    decreases |steps|
  {
    if steps == [] {
    } else {
      AlongUnfold(apply, ok, states[1..], steps[1..]);
    }
  }
}
