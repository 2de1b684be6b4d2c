/**
 The download protocol over any number of workers. A message is a token that one worker carries
 from step to step; between two steps of a token every other token may step. A finished download
 of a proxy turns the token into the message for the implementation, so one token is one cascade.
 */
module MetadataDownload {
  import opened ContractRows
  import opened Sets
  import opened Runs

  /** Who sent the message: an event or a follow-up, the scan of missing ABIs, the proxy refresh. */
  datatype Origin = Checked | MissingScan | ProxyScan

  datatype Phase =
    | Queued
    | CheckingRow
    | Refusing
    | Fetching
    | Inserting(fetched: Fetched)
    | Loading(fetched: Fetched)
    | Writing(fetched: Fetched, read: Row)
    | FollowingUp(fetched: Fetched)
    | Done

  /** `attempted` records the keys the cascade went on to download, in order. */
  datatype Token = Token(key: Key, origin: Origin, phase: Phase, attempted: seq<Key>)

  /** `refused` is the negative cache for `max_retries` 0; `scan` the rows the running scan of
      missing ABIs has selected and not yet sent; `limit` the configured number of retries. */
  datatype State = State(rows: map<Key, Row>, refused: set<Key>, tokens: seq<Token>, scan: set<Key>, limit: nat)

  datatype Step =
    | Advance(i: nat, fetched: Fetched)
    | SendEvent(key: Key)
    | StartScan
    | SendScanned(key: Key)
    | SendProxy(key: Key)
    | CreateRow(key: Key)
    | ExpireRefusal(key: Key)

  /** A token reads the row of its key, or finds there is none. */
  predicate ShouldDownload(rows: map<Key, Row>, key: Key) {
    !SettledAt(rows, key)
  }

  function StartDownload(t: Token): Token {
    t.(phase := Fetching, attempted := t.attempted + [t.key])
  }

  /** The next phase of a token, given the state it steps from. */
  function AdvanceToken(s: State, t: Token, fetched: Fetched): Token
    requires !t.phase.Done?
    requires t.phase.Loading? ==> t.key in s.rows
  {
    match t.phase
    case Queued =>
      if !t.origin.Checked? then StartDownload(t)
      else if t.key in s.refused then t.(phase := Done)
      else t.(phase := CheckingRow)
    case CheckingRow => if ShouldDownload(s.rows, t.key) then StartDownload(t) else t.(phase := Refusing)
    case Refusing => t.(phase := Done)
    case Fetching => t.(phase := Inserting(fetched))
    case Inserting(f) => t.(phase := if t.key in s.rows then Loading(f) else Writing(f, NEW_ROW))
    case Loading(f) => t.(phase := Writing(f, s.rows[t.key]))
    case Writing(f, _) => t.(phase := FollowingUp(f))
    case FollowingUp(f) =>
      match ProxyImplementation(f)
      case None => t.(phase := Done)
      case Some(address) => Token(Key(address, t.key.chain), Checked, Queued, t.attempted)
  }

  /** The rows after a token steps: inserting adds a fresh row, writing writes the outcome. */
  function AdvanceRows(s: State, t: Token): map<Key, Row> {
    match t.phase
    case Inserting(_) => if t.key in s.rows then s.rows else s.rows[t.key := NEW_ROW]
    case Writing(f, read) => if t.key in s.rows then s.rows[t.key := WriteOutcome(s.rows[t.key], read, f)] else s.rows
    case _ => s.rows
  }

  function Missing(rows: map<Key, Row>, max: nat): set<Key> {
    set key | key in rows && rows[key].abiId.None? && rows[key].fetchRetries <= max
  }

  ghost predicate Enabled(s: State, step: Step) {
    match step
    case Advance(i, _) =>
      && i < |s.tokens| && !s.tokens[i].phase.Done?
      && (s.tokens[i].phase.Loading? ==> s.tokens[i].key in s.rows)
    case SendEvent(_) => true
    case StartScan => s.scan == {}
    case SendScanned(key) => key in s.scan
    case SendProxy(key) => key in s.rows && s.rows[key].implementation.Some?
    case CreateRow(key) => key !in s.rows
    case ExpireRefusal(_) => true
  }

  function NewToken(key: Key, origin: Origin): Token {
    Token(key, origin, Queued, [])
  }

  ghost function Apply(s: State, step: Step): State
    requires Enabled(s, step)
  {
    match step
    case Advance(i, fetched) =>
      var t := s.tokens[i];
      s.(rows := AdvanceRows(s, t),
         refused := if t.phase.Refusing? then s.refused + {t.key} else s.refused,
         tokens := s.tokens[i := AdvanceToken(s, t, fetched)])
    case SendEvent(key) => s.(tokens := s.tokens + [NewToken(key, Checked)])
    case StartScan => s.(scan := Missing(s.rows, s.limit))
    case SendScanned(key) => s.(tokens := s.tokens + [NewToken(key, MissingScan)], scan := s.scan - {key})
    case SendProxy(key) => s.(tokens := s.tokens + [NewToken(key, ProxyScan)])
    case CreateRow(key) => s.(rows := s.rows[key := NEW_ROW])
    case ExpireRefusal(key) => s.(refused := s.refused - {key})
  }

  /** Any table, no messages under way, nothing refused. */
  ghost predicate Initial(s: State) {
    s.refused == {} && s.tokens == [] && s.scan == {}
  }

  /******* The invariant of every run *******/

  predicate Downloading(phase: Phase) {
    phase.Fetching? || phase.Inserting? || phase.Loading? || phase.Writing?
  }

  ghost predicate AllSettled(rows: map<Key, Row>, keys: seq<Key>) {
    forall key | key in keys :: SettledAt(rows, key)
  }

  ghost predicate Distinct(keys: seq<Key>) {
    forall i, j | 0 <= i < j < |keys| :: keys[i] != keys[j]
  }

  /** What a row keeps for ever once it is there. */
  predicate Preserves(before: Row, after: Row) {
    && (Settled(before) ==> Settled(after))
    && (before.abiId.Some? ==> after.abiId.Some?)
    && (before.implementation.Some? ==> after.implementation.Some?)
  }

  ghost predicate RowsPreserved(before: map<Key, Row>, after: map<Key, Row>) {
    forall key | key in before :: key in after && Preserves(before[key], after[key])
  }

  ghost predicate TokenInv(rows: map<Key, Row>, t: Token) {
    && Distinct(t.attempted)
    && (t.phase.Queued? && !t.origin.Checked? ==> t.attempted == [])
    && (t.phase.Refusing? || t.phase.FollowingUp? ==> SettledAt(rows, t.key))
    && (t.phase.Loading? || t.phase.Writing? ==> t.key in rows)
    && (t.phase.Writing? ==> Preserves(t.phase.read, rows[t.key]))
    && if Downloading(t.phase) then
         t.attempted != [] && t.attempted[|t.attempted| - 1] == t.key
         && AllSettled(rows, t.attempted[..|t.attempted| - 1])
       else AllSettled(rows, t.attempted)
  }

  ghost predicate Inv(s: State) {
    && (forall key | key in s.refused :: SettledAt(s.rows, key))
    && forall t | t in s.tokens :: TokenInv(s.rows, t)
  }

  lemma TokenInvPreserved(before: map<Key, Row>, after: map<Key, Row>, t: Token)
    requires RowsPreserved(before, after) && TokenInv(before, t)
    ensures TokenInv(after, t)
  {
  }

  lemma AdvancePreservesRows(s: State, t: Token)
    requires TokenInv(s.rows, t)
    ensures RowsPreserved(s.rows, AdvanceRows(s, t))
    ensures t.phase.Writing? ==> SettledAt(AdvanceRows(s, t), t.key)
  {
  }

  lemma DistinctAppend(keys: seq<Key>, key: Key)
    requires Distinct(keys) && key !in keys
    ensures Distinct(keys + [key])
  {
  }

  /** The moving token keeps its own invariant; in particular a download never starts on a key the
      cascade has attempted, because those are settled. */
  lemma AdvanceKeepsTokenInv(s: State, t: Token, fetched: Fetched)
    requires TokenInv(s.rows, t) && !t.phase.Done?
    ensures TokenInv(AdvanceRows(s, t), AdvanceToken(s, t, fetched))
  {
    AdvancePreservesRows(s, t);
    var rows', t' := AdvanceRows(s, t), AdvanceToken(s, t, fetched);
    forall key | SettledAt(s.rows, key) ensures SettledAt(rows', key) {
    }
    if t'.phase.Fetching? {
      assert t'.attempted[..|t'.attempted| - 1] == t.attempted;
      DistinctAppend(t.attempted, t.key);
    }
    if t.phase.Writing? {
      assert t.attempted == t.attempted[..|t.attempted| - 1] + [t.key];
    }
  }

  lemma StepKeepsInv(s: State, step: Step)
    requires Inv(s) && Enabled(s, step)
    ensures Inv(Apply(s, step))
    ensures RowsPreserved(s.rows, Apply(s, step).rows)
  {
    var s' := Apply(s, step);
    if step.Advance? {
      AdvancePreservesRows(s, s.tokens[step.i]);
      AdvanceKeepsTokenInv(s, s.tokens[step.i], step.fetched);
    }
    forall t | t in s'.tokens ensures TokenInv(s'.rows, t) {
      if t in s.tokens {
        TokenInvPreserved(s.rows, s'.rows, t);
      }
    }
  }

  lemma RunKeepsInv(s: State, steps: seq<Step>)
    requires Inv(s) && IsRun(Apply, s, steps)
    ensures Inv(Final(Apply, s, steps))
    ensures RowsPreserved(s.rows, Final(Apply, s, steps).rows)
  {
    var inv := t => Inv(t) && RowsPreserved(s.rows, t.rows);
    forall t, step | inv(t) && Enabled(t, step) ensures inv(Apply(t, step)) {
      StepKeepsInv(t, step);
    }
    EveryRunKeeps(Apply, inv, s, steps);
  }

  /** The negative cache never lies: whatever the interleaving of checks, reads and writes, a cached
      refusal means that the row has an ABI or at least one failed download. */
  lemma RefusalsAreTrue(s: State, steps: seq<Step>)
    requires Initial(s) && IsRun(Apply, s, steps)
    ensures forall key | key in Final(Apply, s, steps).refused :: SettledAt(Final(Apply, s, steps).rows, key)
  {
    RunKeepsInv(s, steps);
  }

  /** A completed download settles its key, and no later step unsettles it. */
  lemma CompletedDownloadSettlesForGood(s: State, i: nat, fetched: Fetched, steps: seq<Step>)
    requires Inv(s) && Enabled(s, Advance(i, fetched)) && s.tokens[i].phase.Writing?
    requires IsRun(Apply, Apply(s, Advance(i, fetched)), steps)
    ensures SettledAt(Final(Apply, Apply(s, Advance(i, fetched)), steps).rows, s.tokens[i].key)
  {
    AdvancePreservesRows(s, s.tokens[i]);
    StepKeepsInv(s, Advance(i, fetched));
    RunKeepsInv(Apply(s, Advance(i, fetched)), steps);
  }

  /** No cascade downloads an address twice, on any implementation graph and however many cascades,
      scans and events run beside it. */
  lemma CascadesNeverRepeat(s: State, steps: seq<Step>)
    requires Initial(s) && IsRun(Apply, s, steps)
    ensures forall t | t in Final(Apply, s, steps).tokens :: Distinct(t.attempted)
  {
    RunKeepsInv(s, steps);
  }

  /******* Termination *******/

  ghost function Unsettled(universe: set<Key>, rows: map<Key, Row>): set<Key> {
    set key | key in universe && !SettledAt(rows, key)
  }

  /** The implementation graph stays in the universe. */
  predicate FetchWithin(universe: set<Key>, key: Key, fetched: Fetched) {
    ProxyImplementation(fetched).Some? ==> Key(ProxyImplementation(fetched).value, key.chain) in universe
  }

  predicate TokenWithin(universe: set<Key>, t: Token) {
    && t.key in universe
    && (t.phase.Inserting? || t.phase.Loading? || t.phase.Writing? || t.phase.FollowingUp? ==>
          FetchWithin(universe, t.key, t.phase.fetched))
  }

  ghost predicate AllWithin(universe: set<Key>, s: State) {
    forall t | t in s.tokens :: TokenWithin(universe, t)
  }

  /** The token has not been permitted to download yet. */
  predicate BeforeCheck(t: Token) {
    (t.phase.Queued? && t.origin.Checked?) || t.phase.CheckingRow? || t.phase.Refusing?
  }

  /** The keys a token may still download. One it is downloading counts as settled. */
  ghost function Open(unsettled: set<Key>, t: Token): set<Key> {
    if t.phase.Done? then {} else if BeforeCheck(t) then unsettled else unsettled - {t.key}
  }

  function Rank(t: Token): nat {
    match t.phase
    case Queued => if t.origin.Checked? then 4 else 13
    case CheckingRow => 3
    case Refusing => 2
    case Fetching => 12
    case Inserting(_) => 11
    case Loading(_) => 10
    case Writing(_, _) => 9
    case FollowingUp(_) => 5
    case Done => 0
  }

  ghost function Weight(unsettled: set<Key>, t: Token): nat {
    20 * |Open(unsettled, t)| + Rank(t)
  }

  ghost function Weights(unsettled: set<Key>, tokens: seq<Token>): (weights: seq<nat>)
    ensures |weights| == |tokens| && forall i | 0 <= i < |tokens| :: weights[i] == Weight(unsettled, tokens[i])
  {
    seq(|tokens|, i requires 0 <= i < |tokens| => Weight(unsettled, tokens[i]))
  }

  function Sum(numbers: seq<nat>): nat {
    if numbers == [] then 0 else Sum(numbers[..|numbers| - 1]) + numbers[|numbers| - 1]
  }

  lemma {:induction false} SumShrinks(less: seq<nat>, more: seq<nat>)
    requires |less| == |more| && forall j | 0 <= j < |less| :: less[j] <= more[j]
    ensures Sum(less) <= Sum(more)
    ensures (exists i :: 0 <= i < |less| && less[i] < more[i]) ==> Sum(less) < Sum(more)
  {
    if less == [] {
    } else {
      var n := |less| - 1;
      SumShrinks(less[..n], more[..n]);
      if i :| 0 <= i < n && less[i] < more[i] {
        assert less[..n][i] < more[..n][i];
      }
    }
  }

  lemma {:induction false} SumIsBounded(numbers: seq<nat>, bound: nat)
    requires forall i | 0 <= i < |numbers| :: numbers[i] <= bound
    ensures Sum(numbers) <= |numbers| * bound
  {
    if numbers == [] {
    } else {
      SumIsBounded(numbers[..|numbers| - 1], bound);
      OneMore(|numbers| - 1, bound);
    }
  }

  ghost function Measure(universe: set<Key>, s: State): nat {
    Sum(Weights(Unsettled(universe, s.rows), s.tokens))
  }

  lemma WeightShrinks(less: set<Key>, more: set<Key>, t: Token)
    requires less <= more
    ensures Weight(less, t) <= Weight(more, t)
  {
    SubsetIsSmaller(Open(less, t), Open(more, t));
  }

  lemma WeightsShrink(less: set<Key>, more: set<Key>, tokens: seq<Token>, i: nat, t: Token)
    requires less <= more && i < |tokens| && Weight(less, t) < Weight(more, tokens[i])
    ensures Sum(Weights(less, tokens[i := t])) < Sum(Weights(more, tokens))
  {
    var after, before := Weights(less, tokens[i := t]), Weights(more, tokens);
    forall j | 0 <= j < |tokens| ensures after[j] <= before[j] {
      WeightShrinks(less, more, tokens[j]);
    }
    assert after[i] < before[i];
    SumShrinks(after, before);
  }

  lemma UnsettledShrinks(universe: set<Key>, before: map<Key, Row>, after: map<Key, Row>)
    requires RowsPreserved(before, after)
    ensures Unsettled(universe, after) <= Unsettled(universe, before)
  {
  }

  /** Every step but a permitting check keeps to the open keys and lowers the rank. */
  lemma StepLowersRank(less: set<Key>, more: set<Key>, s: State, t: Token, fetched: Fetched)
    requires less <= more && !t.phase.Done? && (t.phase.Loading? ==> t.key in s.rows)
    requires t.phase.CheckingRow? ==> !ShouldDownload(s.rows, t.key)
    requires t.phase.FollowingUp? ==> t.key !in more
    ensures Open(less, AdvanceToken(s, t, fetched)) <= Open(more, t)
    ensures Rank(AdvanceToken(s, t, fetched)) < Rank(t)
  {
  }

  /** A check that permits a download uses up the key. */
  lemma CheckUsesUpKey(less: set<Key>, more: set<Key>, s: State, t: Token, fetched: Fetched)
    requires less <= more && t.phase.CheckingRow? && ShouldDownload(s.rows, t.key) && t.key in more
    ensures Weight(less, AdvanceToken(s, t, fetched)) < Weight(more, t)
  {
    SubsetIsSmaller(less - {t.key}, more - {t.key});
  }

  /** A step of a token lowers its own weight. */
  lemma AdvanceLowersWeight(universe: set<Key>, s: State, t: Token, fetched: Fetched)
    requires TokenInv(s.rows, t) && !t.phase.Done? && TokenWithin(universe, t)
    ensures var unsettled, unsettled' := Unsettled(universe, s.rows), Unsettled(universe, AdvanceRows(s, t));
            unsettled' <= unsettled && Weight(unsettled', AdvanceToken(s, t, fetched)) < Weight(unsettled, t)
  {
    AdvancePreservesRows(s, t);
    UnsettledShrinks(universe, s.rows, AdvanceRows(s, t));
    var less, more := Unsettled(universe, AdvanceRows(s, t)), Unsettled(universe, s.rows);
    if t.phase.CheckingRow? && ShouldDownload(s.rows, t.key) {
      CheckUsesUpKey(less, more, s, t, fetched);
    } else {
      StepLowersRank(less, more, s, t, fetched);
      SubsetIsSmaller(Open(less, AdvanceToken(s, t, fetched)), Open(more, t));
    }
  }

  lemma AdvanceStaysWithin(universe: set<Key>, s: State, i: nat, fetched: Fetched)
    requires AllWithin(universe, s) && Enabled(s, Advance(i, fetched))
    requires FetchWithin(universe, s.tokens[i].key, fetched)
    ensures AllWithin(universe, Apply(s, Advance(i, fetched)))
  {
    var t' := AdvanceToken(s, s.tokens[i], fetched);
    assert TokenWithin(universe, s.tokens[i]) && TokenWithin(universe, t');
    forall other | other in s.tokens[i := t'] ensures TokenWithin(universe, other) {
      assert other == t' || other in s.tokens;
    }
  }

  /** Every step of every worker lowers the measure: this is the real bound on the cascades. */
  lemma AdvanceLowersMeasure(universe: set<Key>, s: State, i: nat, fetched: Fetched)
    requires Inv(s) && AllWithin(universe, s) && Enabled(s, Advance(i, fetched))
    ensures Measure(universe, Apply(s, Advance(i, fetched))) < Measure(universe, s)
  {
    var t := s.tokens[i];
    var t' := AdvanceToken(s, t, fetched);
    assert t in s.tokens;
    AdvanceLowersWeight(universe, s, t, fetched);
    WeightsShrink(Unsettled(universe, AdvanceRows(s, t)), Unsettled(universe, s.rows), s.tokens, i, t');
  }

  /** A step of a worker, on an implementation graph within the universe. */
  ghost predicate WorkerStep(universe: set<Key>, s: State, step: Step) {
    && step.Advance? && Enabled(s, step)
    && FetchWithin(universe, s.tokens[step.i].key, step.fetched)
  }

  ghost function ByWorkers(universe: set<Key>): (State, Step) -> bool {
    (s, step) => WorkerStep(universe, s, step)
  }

  lemma {:induction false} WorkersRunIsBounded(universe: set<Key>, s: State, steps: seq<Step>)
    requires Inv(s) && AllWithin(universe, s)
    requires IsRun(Apply, s, steps) && Along(Apply, ByWorkers(universe), s, steps)
    ensures |steps| <= Measure(universe, s)
    decreases |steps|
  {
    if steps == [] {
    } else {
      AdvanceLowersMeasure(universe, s, steps[0].i, steps[0].fetched);
      AdvanceStaysWithin(universe, s, steps[0].i, steps[0].fetched);
      StepKeepsInv(s, steps[0]);
      WorkersRunIsBounded(universe, Apply(s, steps[0]), steps[1..]);
    }
  }

  lemma WeightIsBounded(universe: set<Key>, unsettled: set<Key>, t: Token)
    requires unsettled <= universe
    ensures Weight(unsettled, t) <= 20 * |universe| + 13
  {
    SubsetIsSmaller(Open(unsettled, t), universe);
  }

  lemma OneMore(n: nat, bound: nat)
    ensures (n + 1) * bound == n * bound + bound
  {
  }

  /** From any reachable state, once events and scans pause, the cascades under way end after a
      number of steps linear in the messages and in the addresses; self-loops and cycles included. */
  lemma CascadesTerminate(universe: set<Key>, s: State, before: seq<Step>, steps: seq<Step>)
    requires Initial(s) && IsRun(Apply, s, before)
    requires AllWithin(universe, Final(Apply, s, before)) && IsRun(Apply, Final(Apply, s, before), steps)
    requires Along(Apply, ByWorkers(universe), Final(Apply, s, before), steps)
    ensures |steps| <= |Final(Apply, s, before).tokens| * (20 * |universe| + 13)
  {
    var t := Final(Apply, s, before);
    RunKeepsInv(s, before);
    WorkersRunIsBounded(universe, t, steps);
    var unsettled := Unsettled(universe, t.rows);
    forall i | 0 <= i < |t.tokens| ensures Weights(unsettled, t.tokens)[i] <= 20 * |universe| + 13 {
      WeightIsBounded(universe, unsettled, t.tokens[i]);
    }
    SumIsBounded(Weights(unsettled, t.tokens), 20 * |universe| + 13);
  }
}
