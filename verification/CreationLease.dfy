/**
 The lock of the creation task: one leased key per chain, set only if absent, deleted without a
 check of its owner. Time passes between their steps.
 */
module CreationLease {
  import opened Runs

  const LEASE: nat := 300

  datatype Phase = Waiting | Inside(since: nat) | Refused | Out

  datatype Task = Task(chain: int, phase: Phase)

  /** The stored value does not say who owns the key; `owner` is recorded for the proofs only. */
  datatype Lock = Lock(owner: nat, expiresAt: nat)

  datatype State = State(now: nat, locks: map<int, Lock>, tasks: seq<Task>)

  /** A task that dies inside does not delete the lock. */
  datatype Step = Start(chain: int) | Try(i: nat) | Leave(i: nat) | Die(i: nat) | Tick

  predicate Enabled(s: State, step: Step) {
    match step
    case Try(i) => i < |s.tasks| && s.tasks[i].phase.Waiting?
    case Leave(i) => i < |s.tasks| && s.tasks[i].phase.Inside?
    case Die(i) => i < |s.tasks| && s.tasks[i].phase.Inside?
    case _ => true
  }

  function Apply(s: State, step: Step): State
    requires Enabled(s, step)
  {
    match step
    case Start(chain) => s.(tasks := s.tasks + [Task(chain, Waiting)])
    case Try(i) =>
      var chain := s.tasks[i].chain;
      if chain in s.locks then s.(tasks := s.tasks[i := Task(chain, Refused)])
      else
        s.(locks := s.locks[chain := Lock(i, s.now + LEASE)], tasks := s.tasks[i := Task(chain, Inside(s.now))])
    case Leave(i) =>
      var chain := s.tasks[i].chain;
      s.(locks := s.locks - {chain}, tasks := s.tasks[i := Task(chain, Out)])
    case Die(i) => s.(tasks := s.tasks[i := Task(s.tasks[i].chain, Out)])
    case Tick =>
      s.(now := s.now + 1,
         locks := map chain | chain in s.locks && s.locks[chain].expiresAt > s.now + 1 :: s.locks[chain])
  }

  /** No task inside is past its lease when the clock ticks. */
  ghost predicate InTime(s: State, step: Step) {
    step.Tick? ==> forall t | t in s.tasks :: t.phase.Inside? ==> s.now + 1 < t.phase.since + LEASE
  }

  ghost predicate Initial(s: State) {
    s.locks == map[] && s.tasks == []
  }

  ghost predicate HoldsOwnLock(s: State, i: int) {
    && 0 <= i < |s.tasks| && s.tasks[i].phase.Inside?
    && s.tasks[i].chain in s.locks
    && s.locks[s.tasks[i].chain] == Lock(i, s.tasks[i].phase.since + LEASE)
  }

  /** A task inside holds its own unexpired lock, and no lock outlives the lease. */
  ghost predicate Inv(s: State) {
    && (forall i | 0 <= i < |s.tasks| && s.tasks[i].phase.Inside? ::
          HoldsOwnLock(s, i) && s.now < s.tasks[i].phase.since + LEASE)
    && forall chain | chain in s.locks :: s.now < s.locks[chain].expiresAt <= s.now + LEASE
  }

  lemma StepKeepsInv(s: State, step: Step)
    requires Inv(s) && Enabled(s, step) && InTime(s, step)
    ensures Inv(Apply(s, step))
  {
    var t := Apply(s, step);
    forall i | 0 <= i < |s.tasks| && s.tasks[i].phase.Inside? ensures HoldsOwnLock(s, i) {
    }
  }

  ghost predicate MutuallyExclusive(s: State) {
    forall i, j | 0 <= i < j < |s.tasks| && s.tasks[i].phase.Inside? && s.tasks[j].phase.Inside? ::
      s.tasks[i].chain != s.tasks[j].chain
  }

  lemma InvExcludes(s: State)
    requires Inv(s)
    ensures MutuallyExclusive(s)
  {
    forall i, j | 0 <= i < j < |s.tasks| && s.tasks[i].phase.Inside? && s.tasks[j].phase.Inside?
      ensures s.tasks[i].chain != s.tasks[j].chain
    {
      assert HoldsOwnLock(s, i) && HoldsOwnLock(s, j);
    }
  }

  lemma TimelyRunKeepsInv(s: State, steps: seq<Step>)
    requires Inv(s) && IsRun(Apply, s, steps) && Along(Apply, InTime, s, steps)
    ensures Inv(Final(Apply, s, steps))
  {
    forall t, step | Inv(t) && Enabled(t, step) && InTime(t, step) ensures Inv(Apply(t, step)) {
      StepKeepsInv(t, step);
    }
    RunKeeps(Apply, InTime, Inv, s, steps);
  }

  /** If every task is out before its lease ends, no two tasks are inside for one chain, the
      unconditional delete of a leaving task leaves every other task inside its own lock, and the lock
      of a task that died inside is gone after the lease at the latest. */
  lemma LeaseExcludes(s: State, steps: seq<Step>)
    requires Initial(s) && IsRun(Apply, s, steps) && Along(Apply, InTime, s, steps)
    ensures var t := Final(Apply, s, steps);
            && MutuallyExclusive(t)
            && (forall i: nat, j | Enabled(t, Leave(i)) && 0 <= j < |t.tasks| && j != i && t.tasks[j].phase.Inside? ::
                  HoldsOwnLock(Apply(t, Leave(i)), j))
            && forall chain | chain in t.locks :: t.now < t.locks[chain].expiresAt <= t.now + 300
  {
    TimelyRunKeepsInv(s, steps);
    var t := Final(Apply, s, steps);
    InvExcludes(t);
    forall i: nat, j | Enabled(t, Leave(i)) && 0 <= j < |t.tasks| && j != i && t.tasks[j].phase.Inside?
      ensures HoldsOwnLock(Apply(t, Leave(i)), j)
    {
      assert HoldsOwnLock(t, j) && HoldsOwnLock(t, i);
    }
  }

  /** A task gets in exactly if there is no lock for its chain, and then holds it for 300 seconds; a task
      that does not is turned away for good. */
  lemma GetsInIff(s: State, i: nat, steps: seq<Step>)
    requires Enabled(s, Try(i)) && IsRun(Apply, Apply(s, Try(i)), steps)
    ensures var t, chain := Apply(s, Try(i)), s.tasks[i].chain;
            && (t.tasks[i].phase.Inside? <==> chain !in s.locks)
            && (chain !in s.locks ==> chain in t.locks && t.locks[chain] == Lock(i, s.now + 300))
            && (chain in s.locks ==> t.locks == s.locks)
    ensures s.tasks[i].chain in s.locks ==>
              i < |Final(Apply, Apply(s, Try(i)), steps).tasks|
              && !Final(Apply, Apply(s, Try(i)), steps).tasks[i].phase.Inside?
  {
    if s.tasks[i].chain in s.locks {
      var turnedAway := (t: State) => i < |t.tasks| && t.tasks[i].phase.Refused?;
      forall t, step | turnedAway(t) && Enabled(t, step) ensures turnedAway(Apply(t, step)) {
      }
      EveryRunKeeps(Apply, turnedAway, Apply(s, Try(i)), steps);
    }
  }

  /******* The hypothesis is exact *******/

  /** Once the lease of a task inside is over, the next task for its chain joins it. */
  lemma OverstayerIsJoined(s: State, i: nat) returns (steps: seq<Step>)
    requires Inv(s) && i < |s.tasks| && s.tasks[i].phase.Inside? && s.now + 1 >= s.tasks[i].phase.since + LEASE
    ensures var t := Apply(s, Tick);
            && IsRun(Apply, t, steps) && Along(Apply, InTime, t, steps)
            && !MutuallyExclusive(Final(Apply, t, steps))
  {
    var chain, n := s.tasks[i].chain, |s.tasks|;
    assert HoldsOwnLock(s, i);
    var t := Apply(s, Tick);
    assert chain !in t.locks;
    var t1 := Apply(t, Start(chain));
    var t2 := Apply(t1, Try(n));
    steps := [Start(chain), Try(n)];
    Unfold(Apply, [t, t1, t2], steps);
    AlongTwo(t, steps);
    assert t2.tasks[i] == s.tasks[i] && t2.tasks[n] == Task(chain, Inside(t.now));
  }

  lemma AlongTwo(s: State, steps: seq<Step>)
    requires IsRun(Apply, s, steps) && |steps| == 2 && !steps[0].Tick? && !steps[1].Tick?
    ensures Along(Apply, InTime, s, steps)
  {
    assert steps[1..][0] == steps[1];
    assert steps[1..][1..] == [];
  }

  /** From any reachable state, all timely continuations of a tick of the clock keep the exclusion
      exactly if no task inside is past its lease at that tick. */
  lemma ExclusionAfterTickIff(s: State)
    requires Inv(s)
    ensures InTime(s, Tick) <==>
            forall steps ::
              IsRun(Apply, Apply(s, Tick), steps) && Along(Apply, InTime, Apply(s, Tick), steps) ==>
                MutuallyExclusive(Final(Apply, Apply(s, Tick), steps))
  {
    var t := Apply(s, Tick);
    if InTime(s, Tick) {
      StepKeepsInv(s, Tick);
      forall steps | IsRun(Apply, t, steps) && Along(Apply, InTime, t, steps)
        ensures MutuallyExclusive(Final(Apply, t, steps))
      {
        TimelyRunKeepsInv(t, steps);
        InvExcludes(Final(Apply, t, steps));
      }
    } else {
      var i :| 0 <= i < |s.tasks| && s.tasks[i].phase.Inside? && s.now + 1 >= s.tasks[i].phase.since + LEASE;
      var steps := OverstayerIsJoined(s, i);
    }
  }

  /** One lease on one chain, seen `ticks` later. */
  lemma {:induction false} LeaseRunsOut(s: State, chain: int, owner: nat, ticks: nat) returns (steps: seq<Step>)
    requires ticks > 0 && s.locks == map[chain := Lock(owner, s.now + ticks)]
    ensures IsRun(Apply, s, steps) && Final(Apply, s, steps) == s.(now := s.now + ticks, locks := map[])
    decreases ticks
  {
    var t := Apply(s, Tick);
    OneStep(Apply, s, Tick);
    steps := [Tick];
    if ticks == 1 {
      assert t.locks == map[];
    } else {
      assert t.locks == map[chain := Lock(owner, t.now + (ticks - 1))];
      var rest := LeaseRunsOut(t, chain, owner, ticks - 1);
      Append(Apply, s, steps, rest);
      steps := steps + rest;
    }
  }

  /** Three tasks arrive and the first gets in. */
  lemma FirstGetsIn(chain: int) returns (s: State, steps: seq<Step>)
    ensures Initial(s) && IsRun(Apply, s, steps)
    ensures var waiting := Task(chain, Waiting);
            Final(Apply, s, steps)
            == State(0, map[chain := Lock(0, LEASE)], [Task(chain, Inside(0)), waiting, waiting])
  {
    var waiting := Task(chain, Waiting);
    s := State(0, map[], []);
    var s1, s2 := State(0, map[], [waiting]), State(0, map[], [waiting, waiting]);
    var s3 := State(0, map[], [waiting, waiting, waiting]);
    var s4 := State(0, map[chain := Lock(0, LEASE)], [Task(chain, Inside(0)), waiting, waiting]);
    assert s1 == Apply(s, Start(chain)) && s2 == Apply(s1, Start(chain)) && s3 == Apply(s2, Start(chain));
    assert s4 == Apply(s3, Try(0));
    steps := [Start(chain), Start(chain), Start(chain), Try(0)];
    Unfold(Apply, [s, s1, s2, s3, s4], steps);
  }

  /** It overstays, and the second gets in. */
  lemma SecondGetsIn(s: State, chain: int) returns (steps: seq<Step>)
    requires s.now == 0 && s.locks == map[chain := Lock(0, LEASE)]
    requires var waiting := Task(chain, Waiting); s.tasks == [Task(chain, Inside(0)), waiting, waiting]
    ensures IsRun(Apply, s, steps)
    ensures Final(Apply, s, steps)
            == State(LEASE, map[chain := Lock(1, 2 * LEASE)], s.tasks[1 := Task(chain, Inside(LEASE))])
  {
    steps := LeaseRunsOut(s, chain, 0, LEASE);
    var t := Final(Apply, s, steps);
    assert Enabled(t, Try(1)) && Apply(t, Try(1)).tasks == s.tasks[1 := Task(chain, Inside(LEASE))];
    Extend(Apply, s, steps, Try(1));
    steps := steps + [Try(1)];
  }

  /** A task that overstays its lease is joined by a second one, and when it leaves it deletes the
      lock of the second, which lets in a third. */
  lemma OverstayingBreaksExclusion(chain: int) returns (s: State, together: seq<Step>, later: seq<Step>)
    ensures Initial(s) && IsRun(Apply, s, together)
    ensures var t := Final(Apply, s, together);
            && !MutuallyExclusive(t)
            && Enabled(t, Leave(0)) && chain in t.locks && t.locks[chain].owner == 1
            && IsRun(Apply, t, later) && later != [] && later[0] == Leave(0)
            && !MutuallyExclusive(Final(Apply, t, later))
  {
    s, together := FirstGetsIn(chain);
    var rest := SecondGetsIn(Final(Apply, s, together), chain);
    Append(Apply, s, together, rest);
    together := together + rest;
    var t := Final(Apply, s, together);
    var left := State(LEASE, map[], [Task(chain, Out), Task(chain, Inside(LEASE)), Task(chain, Waiting)]);
    assert left == Apply(t, Leave(0));
    later := [Leave(0), Try(2)];
    Unfold(Apply, [t, left, Apply(left, Try(2))], later);
    assert t.tasks[0].phase.Inside? && t.tasks[1].phase.Inside?;
    assert Apply(left, Try(2)).tasks[1].phase.Inside? && Apply(left, Try(2)).tasks[2].phase.Inside?;
  }
}
