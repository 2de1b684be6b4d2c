/**
 How often a contract without an ABI is retried: in every run, and more sharply in runs where
 downloads of one contract do not overlap and each scan drains before the next.
 */
module RetryBound {
  import opened ContractRows
  import opened MetadataDownload
  import opened Runs

  /** A worker is between reading the row for the first time and writing it. */
  predicate InAttempt(t: Token) {
    t.phase.CheckingRow? || Downloading(t.phase)
  }

  /** A message of the scan of missing ABIs whose download is not complete. */
  predicate ScanOutstanding(t: Token) {
    t.origin.MissingScan? && (t.phase.Queued? || InAttempt(t))
  }

  predicate MissingAbi(rows: map<Key, Row>, key: Key) {
    key in rows && rows[key].abiId.None?
  }

  /** The retries of a row without ABI are at most `bound`. */
  predicate RetriesWithin(rows: map<Key, Row>, key: Key, bound: nat) {
    MissingAbi(rows, key) ==> rows[key].fetchRetries <= bound
  }

  /** Any table, no messages; retries within the bound, and implementations on rows with an ABI. */
  ghost predicate BoundedStart(s: State) {
    Initial(s) && forall key | key in s.rows :: RetriesWithin(s.rows, key, s.limit + 1) && Linked(s.rows[key])
  }

  /** An implementation is only recorded together with an ABI. */
  predicate Linked(row: Row) {
    row.implementation.Some? ==> row.abiId.Some?
  }

  /******* Every run *******/

  ghost predicate IsOutstanding(s: State, key: Key, i: int) {
    0 <= i < |s.tokens| && s.tokens[i].key == key && ScanOutstanding(s.tokens[i])
  }

  /** The scan of missing ABIs has selected the row, and the download is not complete. */
  ghost predicate Outstanding(s: State, key: Key) {
    key in s.scan || exists i :: IsOutstanding(s, key, i)
  }

  /** Another message of the scan is outstanding besides the token's. */
  ghost predicate Accompanied(s: State, key: Key, i: nat) {
    key in s.scan || exists j :: j != i && IsOutstanding(s, key, j)
  }

  /** The step completes a download of a checked message, or one that another message of the scan
      will repeat. */
  ghost predicate IsExtra(s: State, step: Step, key: Key) {
    && step.Advance? && step.i < |s.tokens| && s.tokens[step.i].key == key && s.tokens[step.i].phase.Writing?
    && (s.tokens[step.i].origin.Checked? || Accompanied(s, key, step.i))
  }

  ghost function Extra(s: State, step: Step, key: Key): nat {
    if IsExtra(s, step, key) then 1 else 0
  }

  ghost function Extras(s: State, steps: seq<Step>, key: Key): nat
    requires IsRun(Apply, s, steps)
    decreases |steps|
  {
    if steps == [] then 0 else Extra(s, steps[0], key) + Extras(Apply(s, steps[0]), steps[1..], key)
  }

  /** The proxy refresh works on rows with an ABI only. */
  ghost predicate ProxiesHaveAbi(s: State) {
    && (forall key | key in s.rows :: Linked(s.rows[key]))
    && forall t | t in s.tokens && t.origin.ProxyScan? && (t.phase.Queued? || InAttempt(t)) ::
         t.key in s.rows && s.rows[t.key].abiId.Some?
  }

  /** What a worker has read of the row. */
  ghost predicate ReadWithin(t: Token, key: Key, bound: nat) {
    t.key == key && t.phase.Writing? ==> t.phase.read.fetchRetries <= bound
  }

  /** After `extras` extra downloads: if a message of the scan is outstanding, the retries and all that
      was read of them are one below the bound; else nothing above that was read but what is there. */
  ghost predicate CountInv(s: State, key: Key, extras: nat)
    requires MissingAbi(s.rows, key)
  {
    var retries, below := s.rows[key].fetchRetries, s.limit + extras;
    && retries <= below + 1
    && (forall t | t in s.tokens :: ReadWithin(t, key, if retries <= below then below else below + 1))
    && (Outstanding(s, key) ==> retries <= below && forall t | t in s.tokens :: ReadWithin(t, key, below))
  }

  ghost predicate RunInv(s: State, key: Key, extras: nat) {
    Inv(s) && ProxiesHaveAbi(s) && (MissingAbi(s.rows, key) ==> CountInv(s, key, extras))
  }

  lemma WriteKeepsLinked(current: Row, read: Row, f: Fetched)
    requires Linked(current) && Preserves(read, current)
    ensures Linked(WriteOutcome(current, read, f))
    ensures WriteOutcome(current, read, f).abiId.None? ==>
              current.abiId.None? && WriteOutcome(current, read, f).fetchRetries == read.fetchRetries + 1
  {
  }

  lemma StepKeepsProxies(s: State, step: Step)
    requires Inv(s) && ProxiesHaveAbi(s) && Enabled(s, step)
    ensures ProxiesHaveAbi(Apply(s, step))
  {
    StepKeepsInv(s, step);
    var s' := Apply(s, step);
    if step.Advance? && s.tokens[step.i].phase.Writing? {
      var t := s.tokens[step.i];
      assert TokenInv(s.rows, t);
      WriteKeepsLinked(s.rows[t.key], t.phase.read, t.phase.fetched);
    }
    forall t | t in s'.tokens && t.origin.ProxyScan? && (t.phase.Queued? || InAttempt(t))
      ensures t.key in s'.rows && s'.rows[t.key].abiId.Some?
    {
      if t !in s.tokens && step.Advance? {
        assert s.tokens[step.i] in s.tokens;
      }
    }
  }

  lemma WriteKeepsCount(s: State, i: nat, fetched: Fetched, key: Key, extras: nat)
    requires RunInv(s, key, extras) && Enabled(s, Advance(i, fetched))
    requires s.tokens[i].key == key && s.tokens[i].phase.Writing?
    requires MissingAbi(Apply(s, Advance(i, fetched)).rows, key)
    ensures CountInv(Apply(s, Advance(i, fetched)), key, extras + Extra(s, Advance(i, fetched), key))
  {
    var s', t := Apply(s, Advance(i, fetched)), s.tokens[i];
    assert t in s.tokens && TokenInv(s.rows, t);
    WriteKeepsLinked(s.rows[key], t.phase.read, t.phase.fetched);
    if t.origin.MissingScan? {
      assert IsOutstanding(s, key, i);
    }
    if j :| IsOutstanding(s', key, j) {
      assert j != i && IsOutstanding(s, key, j);
    }
    forall other | other in s'.tokens && other.phase.Writing? ensures other in s.tokens {
      assert other == s'.tokens[i] || other in s.tokens;
    }
  }

  /** Every other step leaves the retries as they are, or makes the row. */
  lemma AdvanceKeepsCount(s: State, i: nat, fetched: Fetched, key: Key, extras: nat)
    requires RunInv(s, key, extras) && Enabled(s, Advance(i, fetched))
    requires !(s.tokens[i].key == key && s.tokens[i].phase.Writing?)
    requires MissingAbi(Apply(s, Advance(i, fetched)).rows, key)
    ensures CountInv(Apply(s, Advance(i, fetched)), key, extras)
  {
    var s', t := Apply(s, Advance(i, fetched)), s.tokens[i];
    assert t in s.tokens && TokenInv(s.rows, t);
    if j :| IsOutstanding(s', key, j) {
      assert IsOutstanding(s, key, j);
    }
    forall other | other in s'.tokens && other.key == key && other.phase.Writing? && other !in s.tokens
      ensures other.phase.read == s'.rows[key]
    {
      assert other == s'.tokens[i];
    }
    forall other | other in s.tokens && key !in s.rows && other.key == key ensures !other.phase.Writing? {
      assert TokenInv(s.rows, other);
    }
  }

  lemma OtherStepKeepsCount(s: State, step: Step, key: Key, extras: nat)
    requires RunInv(s, key, extras) && Enabled(s, step) && !step.Advance?
    requires MissingAbi(Apply(s, step).rows, key)
    ensures CountInv(Apply(s, step), key, extras)
  {
    var s' := Apply(s, step);
    forall t | t in s.tokens && key !in s.rows && t.key == key ensures !t.phase.Writing? {
      assert TokenInv(s.rows, t);
    }
    if i :| IsOutstanding(s', key, i) {
      assert IsOutstanding(s, key, i) || (step.SendScanned? && step.key == key);
    }
  }

  lemma StepKeepsCount(s: State, step: Step, key: Key, extras: nat)
    requires RunInv(s, key, extras) && Enabled(s, step)
    ensures RunInv(Apply(s, step), key, extras + Extra(s, step, key))
  {
    StepKeepsInv(s, step);
    StepKeepsProxies(s, step);
    if MissingAbi(Apply(s, step).rows, key) {
      if !step.Advance? {
        OtherStepKeepsCount(s, step, key, extras);
      } else if s.tokens[step.i].key == key && s.tokens[step.i].phase.Writing? {
        WriteKeepsCount(s, step.i, step.fetched, key, extras);
      } else {
        AdvanceKeepsCount(s, step.i, step.fetched, key, extras);
      }
    }
  }

  lemma {:induction false} RunKeepsCount(s: State, steps: seq<Step>, key: Key, extras: nat)
    requires RunInv(s, key, extras) && IsRun(Apply, s, steps)
    ensures RunInv(Final(Apply, s, steps), key, extras + Extras(s, steps, key))
    ensures Final(Apply, s, steps).limit == s.limit
    decreases |steps|
  {
    if steps == [] {
    } else {
      StepKeepsCount(s, steps[0], key, extras);
      RunKeepsCount(Apply(s, steps[0]), steps[1..], key, extras + Extra(s, steps[0], key));
    }
  }

  /** In every run, however workers, events and scans overlap: the retries of a contract without an ABI
      exceed the limit by at most one more than the extra downloads it had, and the proxy refresh
      never works on such a contract. */
  lemma RetriesAreBounded(s: State, steps: seq<Step>, key: Key)
    requires BoundedStart(s) && IsRun(Apply, s, steps)
    ensures var t := Final(Apply, s, steps);
            && (MissingAbi(t.rows, key) ==> t.rows[key].fetchRetries <= s.limit + 1 + Extras(s, steps, key))
            && (forall token | token in t.tokens && token.origin.ProxyScan? && InAttempt(token) ::
                  !MissingAbi(t.rows, token.key))
  {
    RunKeepsCount(s, steps, key, 0);
  }

  /******* Serialized runs *******/

  /** A worker starts on a contract only when no other works on it. */
  ghost predicate Alone(s: State, step: Step) {
    step.Advance? && step.i < |s.tokens| && s.tokens[step.i].phase.Queued? ==>
      forall t | t in s.tokens :: InAttempt(t) ==> t.key != s.tokens[step.i].key
  }

  /** A scan starts only when the messages of the last one are done. */
  ghost predicate Drained(s: State, step: Step) {
    step.StartScan? ==> forall t | t in s.tokens :: !ScanOutstanding(t)
  }

  ghost predicate Serialized(s: State, step: Step) {
    Alone(s, step) && Drained(s, step)
  }

  ghost predicate RowsInv(bound: nat, rows: map<Key, Row>) {
    forall key | key in rows ::
      RetriesWithin(rows, key, bound + 1) && (rows[key].implementation.Some? ==> rows[key].abiId.Some?)
  }

  /** What each message may still do to its row. */
  ghost predicate TokenBound(bound: nat, rows: map<Key, Row>, t: Token) {
    && (t.phase.Loading? || t.phase.Writing? ==> t.key in rows)
    && (t.phase.Writing? ==> t.phase.read == rows[t.key])
    && match t.origin
       case Checked => Downloading(t.phase) ==> RetriesWithin(rows, t.key, 0)
       case MissingScan => ScanOutstanding(t) ==> RetriesWithin(rows, t.key, bound)
       case ProxyScan => t.phase.Queued? || InAttempt(t) ==> t.key in rows && rows[t.key].abiId.Some?
  }

  /** An event's failure counts even if the limit is 0. */
  function Bound(s: State): nat {
    if s.limit == 0 then 1 else s.limit
  }

  ghost predicate BoundInv(s: State) {
    && RowsInv(Bound(s), s.rows)
    && (forall key | key in s.scan :: key in s.rows && RetriesWithin(s.rows, key, Bound(s)))
    && (forall t | t in s.tokens :: TokenBound(Bound(s), s.rows, t))
    && (forall t | t in s.tokens :: ScanOutstanding(t) ==> t.key !in s.scan)
    && Exclusive(s.tokens)
  }

  /** One worker a contract, and one message of a scan a contract. */
  ghost predicate Exclusive(tokens: seq<Token>) {
    forall i, j | 0 <= i < j < |tokens| && tokens[i].key == tokens[j].key ::
      !(InAttempt(tokens[i]) && InAttempt(tokens[j])) && !(ScanOutstanding(tokens[i]) && ScanOutstanding(tokens[j]))
  }

  /** The row a worker writes stays within the bound. */
  lemma WriteKeepsRows(bound: nat, rows: map<Key, Row>, t: Token)
    requires bound >= 1 && RowsInv(bound, rows) && TokenBound(bound, rows, t) && t.phase.Writing?
    ensures var after := WriteOutcome(rows[t.key], t.phase.read, t.phase.fetched);
            && (after.abiId.None? ==> after.fetchRetries <= bound + 1)
            && (t.origin.Checked? && after.abiId.None? ==> after.fetchRetries <= bound)
            && (after.implementation.Some? ==> after.abiId.Some?)
            && (rows[t.key].abiId.Some? ==> after.abiId.Some?)
  {
  }

  lemma AdvanceKeepsRows(bound: nat, s: State, t: Token)
    requires bound >= 1 && RowsInv(bound, s.rows) && TokenBound(bound, s.rows, t)
    ensures RowsInv(bound, AdvanceRows(s, t))
    ensures forall key | key in s.rows && key != t.key :: AdvanceRows(s, t)[key] == s.rows[key]
  {
  }

  lemma AdvanceKeepsOwnBound(bound: nat, s: State, t: Token, fetched: Fetched)
    requires bound >= 1 && RowsInv(bound, s.rows) && TokenBound(bound, s.rows, t) && !t.phase.Done?
    requires t.phase.Loading? ==> t.key in s.rows
    ensures TokenBound(bound, AdvanceRows(s, t), AdvanceToken(s, t, fetched))
  {
  }

  /** The other messages of the same contract are waiting, so a write cannot overtake them. */
  lemma AdvanceKeepsOtherBound(bound: nat, s: State, t: Token, other: Token)
    requires bound >= 1 && RowsInv(bound, s.rows) && TokenBound(bound, s.rows, t) && TokenBound(bound, s.rows, other)
    requires t.key == other.key ==>
               !(InAttempt(t) && InAttempt(other)) && !(ScanOutstanding(t) && ScanOutstanding(other))
    ensures TokenBound(bound, AdvanceRows(s, t), other)
  {
  }

  lemma AdvanceKeepsExclusive(s: State, i: nat, fetched: Fetched)
    requires Exclusive(s.tokens) && Enabled(s, Advance(i, fetched)) && Serialized(s, Advance(i, fetched))
    ensures Exclusive(s.tokens[i := AdvanceToken(s, s.tokens[i], fetched)])
  {
  }

  lemma AdvanceKeepsBound(s: State, i: nat, fetched: Fetched)
    requires BoundInv(s) && Enabled(s, Advance(i, fetched)) && Serialized(s, Advance(i, fetched))
    ensures BoundInv(Apply(s, Advance(i, fetched)))
  {
    var t := s.tokens[i];
    var t' := AdvanceToken(s, t, fetched);
    var s' := Apply(s, Advance(i, fetched));
    assert t in s.tokens;
    AdvanceKeepsRows(Bound(s), s, t);
    AdvanceKeepsOwnBound(Bound(s), s, t, fetched);
    AdvanceKeepsExclusive(s, i, fetched);
    forall j | 0 <= j < |s'.tokens|
      ensures TokenBound(Bound(s), s'.rows, s'.tokens[j])
      ensures ScanOutstanding(s'.tokens[j]) ==> s'.tokens[j].key !in s'.scan
    {
      if j != i {
        assert s.tokens[j] in s.tokens;
        AdvanceKeepsOtherBound(Bound(s), s, t, s.tokens[j]);
      }
    }
    forall key | key in s'.scan ensures key in s'.rows && RetriesWithin(s'.rows, key, Bound(s)) {
      if key == t.key && t.phase.Writing? {
        WriteKeepsRows(Bound(s), s.rows, t);
      }
    }
  }

  lemma SendKeepsExclusive(tokens: seq<Token>, t: Token)
    requires Exclusive(tokens) && t.phase.Queued?
    requires t.origin.MissingScan? ==> forall other | other in tokens :: ScanOutstanding(other) ==> other.key != t.key
    ensures Exclusive(tokens + [t])
  {
  }

  lemma StepKeepsBound(s: State, step: Step)
    requires BoundInv(s) && Enabled(s, step) && Serialized(s, step)
    ensures BoundInv(Apply(s, step))
  {
    match step
    case Advance(i, fetched) => AdvanceKeepsBound(s, i, fetched);
    case SendEvent(key) => SendKeepsExclusive(s.tokens, NewToken(key, Checked));
    case SendScanned(key) => SendKeepsExclusive(s.tokens, NewToken(key, MissingScan));
    case SendProxy(key) => SendKeepsExclusive(s.tokens, NewToken(key, ProxyScan));
    case CreateRow(key) =>
      forall t | t in s.tokens ensures TokenBound(Bound(s), s.rows[key := NEW_ROW], t) {
      }
    case _ =>
  }

  /** Whatever the limit, in a serialized run a contract without an ABI has at most one retry more
      than the limit, and at most two if the limit is 0. */
  lemma SerializedRetriesAreBounded(s: State, steps: seq<Step>)
    requires BoundedStart(s) && IsRun(Apply, s, steps) && Along(Apply, Serialized, s, steps)
    ensures var t := Final(Apply, s, steps);
            forall key | MissingAbi(t.rows, key) :: t.rows[key].fetchRetries <= Bound(s) + 1
  {
    var inv := t => BoundInv(t) && t.limit == s.limit;
    forall t, step | inv(t) && Enabled(t, step) && Serialized(t, step) ensures inv(Apply(t, step)) {
      StepKeepsBound(t, step);
    }
    RunKeeps(Apply, Serialized, inv, s, steps);
  }

  /******* When retries go down *******/

  /** A failure is written over more failures than the worker had read. */
  ghost predicate Overwrites(s: State, step: Step, key: Key) {
    && step.Advance? && step.i < |s.tokens| && s.tokens[step.i].key == key && s.tokens[step.i].phase.Writing?
    && !Succeeds(s.tokens[step.i].phase.fetched)
    && key in s.rows && s.tokens[step.i].phase.read.fetchRetries + 1 < s.rows[key].fetchRetries
  }

  lemma RetriesGoDownIff(s: State, step: Step, key: Key)
    requires Inv(s) && Enabled(s, step) && key in s.rows
    ensures key in Apply(s, step).rows
    ensures Apply(s, step).rows[key].fetchRetries < s.rows[key].fetchRetries <==> Overwrites(s, step, key)
  {
    StepKeepsInv(s, step);
    if step.Advance? {
      assert s.tokens[step.i] in s.tokens;
    }
  }

  /** One worker a contract, and what it has read is what is there. */
  ghost predicate ReadsCurrent(s: State) {
    && (forall i, j | 0 <= i < j < |s.tokens| && s.tokens[i].key == s.tokens[j].key ::
          !(InAttempt(s.tokens[i]) && InAttempt(s.tokens[j])))
    && forall t | t in s.tokens && t.phase.Writing? :: t.key in s.rows && t.phase.read == s.rows[t.key]
  }

  lemma AdvanceKeepsReadsCurrent(s: State, i: nat, fetched: Fetched)
    requires ReadsCurrent(s) && Enabled(s, Advance(i, fetched)) && Alone(s, Advance(i, fetched))
    ensures ReadsCurrent(Apply(s, Advance(i, fetched)))
  {
    var s', t := Apply(s, Advance(i, fetched)), s.tokens[i];
    assert t in s.tokens;
    forall j | 0 <= j < |s'.tokens| && s'.tokens[j].phase.Writing?
      ensures s'.tokens[j].key in s'.rows && s'.tokens[j].phase.read == s'.rows[s'.tokens[j].key]
    {
      if j != i {
        assert s.tokens[j] in s.tokens && InAttempt(s.tokens[j]);
      }
    }
  }

  lemma StepKeepsReadsCurrent(s: State, step: Step)
    requires ReadsCurrent(s) && Enabled(s, step) && Alone(s, step)
    ensures ReadsCurrent(Apply(s, step))
  {
    if step.Advance? {
      AdvanceKeepsReadsCurrent(s, step.i, step.fetched);
    }
  }

  /** The retries of every row in `before` are still there. */
  ghost predicate RetriesKept(before: map<Key, Row>, after: map<Key, Row>) {
    forall key | key in before :: key in after && after[key].fetchRetries >= before[key].fetchRetries
  }

  /** If downloads of a contract do not overlap, no row's retries ever go down. */
  lemma AloneKeepsRetries(s: State, before: seq<Step>, after: seq<Step>)
    requires Initial(s) && IsRun(Apply, s, before) && Along(Apply, Alone, s, before)
    requires IsRun(Apply, Final(Apply, s, before), after) && Along(Apply, Alone, Final(Apply, s, before), after)
    ensures RetriesKept(Final(Apply, s, before).rows, Final(Apply, Final(Apply, s, before), after).rows)
  {
    var current := t => Inv(t) && ReadsCurrent(t);
    forall t, step | current(t) && Enabled(t, step) && Alone(t, step) ensures current(Apply(t, step)) {
      StepKeepsInv(t, step);
      StepKeepsReadsCurrent(t, step);
    }
    RunKeeps(Apply, Alone, current, s, before);
    var m := Final(Apply, s, before);
    var kept := t => current(t) && RetriesKept(m.rows, t.rows);
    forall t, step | kept(t) && Enabled(t, step) && Alone(t, step) ensures kept(Apply(t, step)) {
      StepKeepsInv(t, step);
      StepKeepsReadsCurrent(t, step);
      AloneStepKeepsRetries(t, step);
    }
    RunKeeps(Apply, Alone, kept, m, after);
  }

  lemma AloneStepKeepsRetries(s: State, step: Step)
    requires Inv(s) && ReadsCurrent(s) && Enabled(s, step)
    ensures RetriesKept(s.rows, Apply(s, step).rows)
  {
    forall key | key in s.rows ensures key in Apply(s, step).rows
      ensures Apply(s, step).rows[key].fetchRetries >= s.rows[key].fetchRetries
    {
      RetriesGoDownIff(s, step, key);
      if step.Advance? {
        assert s.tokens[step.i] in s.tokens;
      }
    }
  }

  /** So there a refusal stays true for every number of retries it was given for. */
  lemma AloneKeepsRefusalsTrue(s: State, before: seq<Step>, after: seq<Step>, key: Key, maxRetries: nat)
    requires Initial(s) && IsRun(Apply, s, before) && Along(Apply, Alone, s, before)
    requires IsRun(Apply, Final(Apply, s, before), after) && Along(Apply, Alone, Final(Apply, s, before), after)
    requires Exhausted(Final(Apply, s, before).rows, key, maxRetries)
    ensures Exhausted(Final(Apply, Final(Apply, s, before), after).rows, key, maxRetries)
  {
    AloneKeepsRetries(s, before, after);
    MetadataDownload.RunKeepsInv(s, before);
    MetadataDownload.RunKeepsInv(Final(Apply, s, before), after);
  }

  /******* Runs of one worker *******/

  lemma {:induction false} ExtrasAppend(s: State, a: seq<Step>, b: seq<Step>, key: Key)
    requires IsRun(Apply, s, a) && IsRun(Apply, Final(Apply, s, a), b)
    ensures IsRun(Apply, s, a + b) && Final(Apply, s, a + b) == Final(Apply, Final(Apply, s, a), b)
    ensures Extras(s, a + b, key) == Extras(s, a, key) + Extras(Final(Apply, s, a), b, key)
    decreases |a|
  {
    if a == [] {
      assert a + b == b;
    } else {
      ExtrasAppend(Apply(s, a[0]), a[1..], b, key);
      assert (a + b)[1..] == a[1..] + b;
    }
  }

  lemma ExtrasExtend(s: State, steps: seq<Step>, step: Step, key: Key)
    requires IsRun(Apply, s, steps) && Enabled(Final(Apply, s, steps), step)
    ensures IsRun(Apply, s, steps + [step])
    ensures Final(Apply, s, steps + [step]) == Apply(Final(Apply, s, steps), step)
    ensures Extras(s, steps + [step], key) == Extras(s, steps, key) + Extra(Final(Apply, s, steps), step, key)
  {
    var t := Final(Apply, s, steps);
    var t' := Apply(t, step);
    OneStep(Apply, t, step);
    assert Extras(t', [], key) == 0 && [step][1..] == [];
    ExtrasAppend(s, steps, [step], key);
  }

  predicate AllAdvance(steps: seq<Step>, i: nat) {
    forall step | step in steps :: step == Advance(i, NoMetadata)
  }

  lemma {:induction false} AdvancesAreDrained(s: State, steps: seq<Step>, i: nat)
    requires IsRun(Apply, s, steps) && AllAdvance(steps, i)
    ensures Along(Apply, Drained, s, steps)
    decreases |steps|
  {
    if steps == [] {
    } else {
      assert steps[0] in steps && forall step | step in steps[1..] :: step in steps;
      AdvancesAreDrained(Apply(s, steps[0]), steps[1..], i);
    }
  }

  /** A message that is worked on alone is serialized. */
  lemma {:induction false} AloneIsSerialized(s: State, i: nat, steps: seq<Step>)
    requires IsRun(Apply, s, steps) && AllAdvance(steps, i)
    requires forall j | 0 <= j < |s.tokens| && j != i :: !InAttempt(s.tokens[j])
    ensures Along(Apply, Serialized, s, steps)
    decreases |steps|
  {
    if steps == [] {
    } else {
      assert steps[0] in steps && forall step | step in steps[1..] :: step in steps;
      AloneIsSerialized(Apply(s, steps[0]), i, steps[1..]);
    }
  }

  /** A permitted message, up to where its worker starts the download. A checked one must find the row
      unsettled. */
  lemma Begin(s: State, i: nat) returns (steps: seq<Step>)
    requires i < |s.tokens| && s.tokens[i] == NewToken(s.tokens[i].key, s.tokens[i].origin)
    requires s.tokens[i].origin.Checked? ==> s.tokens[i].key !in s.refused && !SettledAt(s.rows, s.tokens[i].key)
    ensures IsRun(Apply, s, steps) && AllAdvance(steps, i)
    ensures Final(Apply, s, steps) == s.(tokens := s.tokens[i := StartDownload(s.tokens[i])])
    ensures forall key :: Extras(s, steps, key) == 0
  {
    var go := Advance(i, NoMetadata);
    var t := Apply(s, go);
    steps := [go];
    OneStep(Apply, s, go);
    forall key ensures Extras(s, [go], key) == 0 {
      ExtrasExtend(s, [], go, key);
      assert [] + [go] == [go];
    }
    if s.tokens[i].origin.Checked? {
      assert Enabled(t, go);
      forall key ensures Extras(s, [go] + [go], key) == 0 {
        ExtrasExtend(s, [go], go, key);
      }
      Extend(Apply, s, steps, go);
      steps := steps + [go];
    }
  }

  /** From there to the point where the row is read. */
  lemma ReadRow(s: State, i: nat) returns (steps: seq<Step>)
    requires i < |s.tokens| && s.tokens[i].phase == Fetching && s.tokens[i].key in s.rows
    ensures IsRun(Apply, s, steps) && AllAdvance(steps, i)
    ensures var read := Writing(NoMetadata, s.rows[s.tokens[i].key]);
            Final(Apply, s, steps) == s.(tokens := s.tokens[i := s.tokens[i].(phase := read)])
    ensures forall key :: Extras(s, steps, key) == 0
  {
    var go, token := Advance(i, NoMetadata), s.tokens[i];
    var phases := [Fetching, Inserting(NoMetadata), Loading(NoMetadata), Writing(NoMetadata, s.rows[token.key])];
    steps := [];
    for k := 0 to 3
      invariant IsRun(Apply, s, steps) && AllAdvance(steps, i)
      invariant Final(Apply, s, steps) == s.(tokens := s.tokens[i := token.(phase := phases[k])])
      invariant forall key :: Extras(s, steps, key) == 0
    {
      var t := Final(Apply, s, steps);
      assert Enabled(t, go) && Apply(t, go) == s.(tokens := s.tokens[i := token.(phase := phases[k + 1])]);
      Extend(Apply, s, steps, go);
      forall key ensures Extras(s, steps + [go], key) == 0 {
        ExtrasExtend(s, steps, go, key);
      }
      steps := steps + [go];
    }
  }

  /** The write of a failed download. */
  lemma WriteFailure(s: State, i: nat)
    requires i < |s.tokens| && s.tokens[i].phase.Writing? && s.tokens[i].phase.fetched == NoMetadata
    requires s.tokens[i].key in s.rows
    ensures var t := s.tokens[i];
            Apply(s, Advance(i, NoMetadata))
            == s.(rows := s.rows[t.key := s.rows[t.key].(fetchRetries := t.phase.read.fetchRetries + 1)],
                  tokens := s.tokens[i := t.(phase := FollowingUp(NoMetadata))])
  {
  }

  /** A download that fails, from where the worker starts it. It is extra if the message is checked or
      accompanied. */
  lemma FailDownload(s: State, i: nat) returns (steps: seq<Step>)
    requires i < |s.tokens| && s.tokens[i].phase == Fetching && s.tokens[i].key in s.rows
    ensures IsRun(Apply, s, steps) && AllAdvance(steps, i)
    ensures var t := s.tokens[i];
            && Final(Apply, s, steps)
               == s.(rows := s.rows[t.key := s.rows[t.key].(fetchRetries := s.rows[t.key].fetchRetries + 1)],
                     tokens := s.tokens[i := t.(phase := FollowingUp(NoMetadata))])
            && Extras(s, steps, t.key) == if t.origin.Checked? || Accompanied(s, t.key, i) then 1 else 0
  {
    var key, go := s.tokens[i].key, Advance(i, NoMetadata);
    steps := ReadRow(s, i);
    var t := Final(Apply, s, steps);
    WriteFailure(t, i);
    SameCompany(s, t, key, i);
    ExtrasExtend(s, steps, go, key);
    steps := steps + [go];
  }

  lemma SameCompany(s: State, t: State, key: Key, i: nat)
    requires i < |s.tokens| && t.scan == s.scan && |t.tokens| == |s.tokens|
    requires forall j | 0 <= j < |s.tokens| && j != i :: t.tokens[j] == s.tokens[j]
    ensures Accompanied(t, key, i) <==> Accompanied(s, key, i)
  {
    if j :| j != i && IsOutstanding(s, key, j) {
      assert IsOutstanding(t, key, j);
    }
    if j :| j != i && IsOutstanding(t, key, j) {
      assert IsOutstanding(s, key, j);
    }
  }

  /** The whole of such a message. */
  lemma FailMessage(s: State, i: nat) returns (steps: seq<Step>)
    requires i < |s.tokens| && s.tokens[i] == NewToken(s.tokens[i].key, s.tokens[i].origin)
    requires s.tokens[i].key in s.rows
    requires s.tokens[i].origin.Checked? ==> s.tokens[i].key !in s.refused && !Settled(s.rows[s.tokens[i].key])
    ensures IsRun(Apply, s, steps) && AllAdvance(steps, i)
    ensures var t := s.tokens[i];
            && Final(Apply, s, steps)
               == s.(rows := s.rows[t.key := s.rows[t.key].(fetchRetries := s.rows[t.key].fetchRetries + 1)],
                     tokens := s.tokens[i := StartDownload(t).(phase := FollowingUp(NoMetadata))])
            && Extras(s, steps, t.key) == if t.origin.Checked? || Accompanied(s, t.key, i) then 1 else 0
  {
    var key := s.tokens[i].key;
    steps := Begin(s, i);
    var t := Final(Apply, s, steps);
    var rest := FailDownload(t, i);
    SameCompany(s, t, key, i);
    ExtrasAppend(s, steps, rest, key);
    steps := steps + rest;
  }

  /** A scan over a table of one row sends one message. */
  lemma ScanOnce(s: State, key: Key) returns (steps: seq<Step>)
    requires s.rows.Keys == {key} && s.rows[key].abiId.None? && s.rows[key].fetchRetries <= s.limit && s.scan == {}
    ensures IsRun(Apply, s, steps)
    ensures Final(Apply, s, steps) == s.(tokens := s.tokens + [NewToken(key, MissingScan)])
    ensures Extras(s, steps, key) == 0
    ensures (forall t | t in s.tokens :: !ScanOutstanding(t)) ==> Along(Apply, Serialized, s, steps)
  {
    assert Missing(s.rows, s.limit) == {key};
    var s1 := s.(scan := {key});
    var s2 := s.(tokens := s.tokens + [NewToken(key, MissingScan)]);
    assert s1 == Apply(s, StartScan) && s2 == Apply(s1, SendScanned(key));
    steps := [StartScan, SendScanned(key)];
    Unfold(Apply, [s, s1, s2], steps);
    assert steps[1..] == [SendScanned(key)] && steps[1..][1..] == [];
    assert Extras(s1, [SendScanned(key)], key) == Extra(s1, SendScanned(key), key) + Extras(s2, [], key);
  }

  /******* The bounds are reached, and the hypotheses are needed *******/

  /** New contracts only, no messages. */
  ghost predicate NewContract(s: State, key: Key, limit: nat) {
    s == State(map[key := NEW_ROW], {}, [], {}, limit)
  }

  function Admitted(key: Key, n: nat): (tokens: seq<Token>)
    ensures |tokens| == n && forall j | 0 <= j < n :: tokens[j] == Token(key, Checked, Fetching, [key])
  {
    seq(n, _ => Token(key, Checked, Fetching, [key]))
  }

  /** `n` events find the contract new and begin to download. */
  lemma {:induction false} AdmitEvents(s: State, key: Key, n: nat) returns (steps: seq<Step>)
    requires key in s.rows && !Settled(s.rows[key]) && key !in s.refused
    ensures IsRun(Apply, s, steps) && Along(Apply, Drained, s, steps) && Extras(s, steps, key) == 0
    ensures Final(Apply, s, steps)
            == s.(tokens := s.tokens + Admitted(key, n))
    decreases n
  {
    if n == 0 {
      steps := [];
    } else {
      var before := AdmitEvents(s, key, n - 1);
      var t := Final(Apply, s, before);
      var t1 := Apply(t, SendEvent(key));
      var send := [SendEvent(key)];
      OneStep(Apply, t, SendEvent(key));
      ExtrasExtend(t, [], SendEvent(key), key);
      assert [] + send == send;
      var check := Begin(t1, |t.tokens|);
      AdvancesAreDrained(t1, check, |t.tokens|);
      AlongAppend(Apply, Drained, t, send, check);
      ExtrasAppend(t, send, check, key);
      AlongAppend(Apply, Drained, s, before, send + check);
      ExtrasAppend(s, before, send + check, key);
      steps := before + (send + check);
      assert NewToken(key, Checked).attempted + [key] == [key];
      assert t1.tokens[|t.tokens| := Token(key, Checked, Fetching, [key])] == s.tokens + Admitted(key, n);
    }
  }

  /** One scan and its only message, which fails. */
  lemma ScanRound(s: State, key: Key) returns (steps: seq<Step>)
    requires s.rows.Keys == {key} && s.rows[key].abiId.None? && s.rows[key].fetchRetries <= s.limit && s.scan == {}
    requires forall t | t in s.tokens :: !ScanOutstanding(t)
    ensures IsRun(Apply, s, steps) && Along(Apply, Drained, s, steps) && Extras(s, steps, key) == 0
    ensures Final(Apply, s, steps)
            == s.(rows := map[key := s.rows[key].(fetchRetries := s.rows[key].fetchRetries + 1)],
                  tokens := s.tokens + [Token(key, MissingScan, FollowingUp(NoMetadata), [key])])
  {
    var n := |s.tokens|;
    steps := ScanOnce(s, key);
    SerializedIsDrained(s, steps);
    var t := Final(Apply, s, steps);
    var fail := FailMessage(t, n);
    AdvancesAreDrained(t, fail, n);
    assert !Accompanied(t, key, n);
    AlongAppend(Apply, Drained, s, steps, fail);
    ExtrasAppend(s, steps, fail, key);
    steps := steps + fail;
    var u := Final(Apply, s, steps);
    assert u.rows == map[key := s.rows[key].(fetchRetries := s.rows[key].fetchRetries + 1)];
    assert NewToken(key, MissingScan).attempted + [key] == [key];
    assert u.tokens == s.tokens + [Token(key, MissingScan, FollowingUp(NoMetadata), [key])];
  }

  lemma {:induction false} SerializedIsDrained(s: State, steps: seq<Step>)
    requires IsRun(Apply, s, steps) && Along(Apply, Serialized, s, steps)
    ensures Along(Apply, Drained, s, steps)
    decreases |steps|
  {
    if steps == [] {
    } else {
      SerializedIsDrained(Apply(s, steps[0]), steps[1..]);
    }
  }

  /** Scans fail one after the other. */
  lemma {:induction false} ScanRounds(s: State, key: Key, rounds: nat) returns (steps: seq<Step>)
    requires s.rows.Keys == {key} && s.rows[key].abiId.None? && s.scan == {}
    requires s.rows[key].fetchRetries + rounds <= s.limit
    requires forall t | t in s.tokens :: !ScanOutstanding(t)
    ensures IsRun(Apply, s, steps) && Along(Apply, Drained, s, steps) && Extras(s, steps, key) == 0
    ensures var t := Final(Apply, s, steps);
            && t == s.(rows := map[key := s.rows[key].(fetchRetries := s.rows[key].fetchRetries + rounds)],
                       tokens := t.tokens)
            && s.tokens <= t.tokens && forall token | token in t.tokens :: !ScanOutstanding(token)
    decreases rounds
  {
    if rounds == 0 {
      steps := [];
      assert s.rows == map[key := s.rows[key]];
    } else {
      steps := ScanRound(s, key);
      var t := Final(Apply, s, steps);
      var rest := ScanRounds(t, key, rounds - 1);
      AlongAppend(Apply, Drained, s, steps, rest);
      ExtrasAppend(s, steps, rest, key);
      steps := steps + rest;
    }
  }

  /** The messages below `n` change, but not who sent them. */
  ghost predicate OnlyFirst(n: nat, before: seq<Token>, after: seq<Token>) {
    && n <= |before| == |after|
    && forall j | 0 <= j < |before| :: after[j].origin == before[j].origin && (j >= n ==> after[j] == before[j])
  }

  lemma FailEvent(s: State, key: Key, i: nat) returns (steps: seq<Step>)
    requires s.rows.Keys == {key} && i < |s.tokens| && s.tokens[i] == Token(key, Checked, Fetching, [key])
    ensures IsRun(Apply, s, steps) && Along(Apply, Drained, s, steps) && Extras(s, steps, key) == 1
    ensures var t := Final(Apply, s, steps);
            && t == s.(rows := map[key := s.rows[key].(fetchRetries := s.rows[key].fetchRetries + 1)],
                       tokens := t.tokens)
            && OnlyFirst(i + 1, s.tokens, t.tokens)
            && t.tokens[..i] == s.tokens[..i]
  {
    steps := FailDownload(s, i);
    AdvancesAreDrained(s, steps, i);
    assert Final(Apply, s, steps).rows == map[key := s.rows[key].(fetchRetries := s.rows[key].fetchRetries + 1)];
  }

  /** The first `n` messages are events' whose downloads now fail. */
  lemma {:induction false} FailEvents(s: State, key: Key, n: nat) returns (steps: seq<Step>)
    requires s.rows.Keys == {key} && n <= |s.tokens| && s.tokens[..n] == Admitted(key, n)
    ensures IsRun(Apply, s, steps) && Along(Apply, Drained, s, steps) && Extras(s, steps, key) == n
    ensures var t := Final(Apply, s, steps);
            && t == s.(rows := map[key := s.rows[key].(fetchRetries := s.rows[key].fetchRetries + n)],
                       tokens := t.tokens)
            && OnlyFirst(n, s.tokens, t.tokens)
    decreases n
  {
    if n == 0 {
      steps := [];
      assert s.rows == map[key := s.rows[key]];
    } else {
      assert s.tokens[n - 1] == s.tokens[..n][n - 1];
      steps := FailEvent(s, key, n - 1);
      var t := Final(Apply, s, steps);
      assert t.tokens[..n - 1] == s.tokens[..n][..n - 1] == Admitted(key, n - 1);
      var rest := FailEvents(t, key, n - 1);
      AlongAppend(Apply, Drained, s, steps, rest);
      ExtrasAppend(s, steps, rest, key);
      steps := steps + rest;
    }
  }

  /** The bound of `RetriesAreBounded` is reached for every limit and every number of extra downloads,
      though every scan drains: events pass their check while the contract is new, scans fail until
      the limit, and the last scan has selected the contract when the events' downloads fail. */
  lemma BoundIsReached(limit: nat, key: Key, n: nat) returns (s: State, steps: seq<Step>)
    ensures NewContract(s, key, limit) && IsRun(Apply, s, steps) && Along(Apply, Drained, s, steps)
    ensures Extras(s, steps, key) == n
    ensures var t := Final(Apply, s, steps);
            MissingAbi(t.rows, key) && t.rows[key].fetchRetries == limit + 1 + n
  {
    s := State(map[key := NEW_ROW], {}, [], {}, limit);
    steps := AdmitEvents(s, key, n);
    var s1 := Final(Apply, s, steps);
    var rounds := ScanRounds(s1, key, limit);
    AlongAppend(Apply, Drained, s, steps, rounds);
    ExtrasAppend(s, steps, rounds, key);
    steps := steps + rounds;
    assert s1.tokens == Admitted(key, n);
    assert Final(Apply, s, steps).tokens[..n] == s1.tokens;
    var rest := OvertakeLastScan(Final(Apply, s, steps), key, n);
    AlongAppend(Apply, Drained, s, steps, rest);
    ExtrasAppend(s, steps, rest, key);
    steps := steps + rest;
  }

  lemma OvertakeLastScan(s: State, key: Key, n: nat) returns (steps: seq<Step>)
    requires s.rows.Keys == {key} && s.rows[key].abiId.None? && s.rows[key].fetchRetries <= s.limit && s.scan == {}
    requires n <= |s.tokens| && s.tokens[..n] == Admitted(key, n)
    requires forall t | t in s.tokens :: !ScanOutstanding(t)
    ensures IsRun(Apply, s, steps) && Along(Apply, Drained, s, steps) && Extras(s, steps, key) == n
    ensures var t := Final(Apply, s, steps);
            MissingAbi(t.rows, key) && t.rows[key].fetchRetries == s.rows[key].fetchRetries + n + 1
  {
    var i := |s.tokens|;
    steps := ScanOnce(s, key);
    SerializedIsDrained(s, steps);
    var s1 := Final(Apply, s, steps);
    assert s1.tokens[..n] == s.tokens[..n];
    var events := FailEvents(s1, key, n);
    AlongAppend(Apply, Drained, s, steps, events);
    ExtrasAppend(s, steps, events, key);
    steps := steps + events;
    var s2 := Final(Apply, s, steps);
    assert s2.tokens[i] == s1.tokens[i] == NewToken(key, MissingScan);
    forall j | 0 <= j < i ensures !ScanOutstanding(s2.tokens[j]) {
      assert s1.tokens[j] == s.tokens[j] && s.tokens[j] in s.tokens;
      assert j < n ==> s.tokens[j] == s.tokens[..n][j];
    }
    assert !Accompanied(s2, key, i);
    var last := FailMessage(s2, i);
    AdvancesAreDrained(s2, last, i);
    AlongAppend(Apply, Drained, s, steps, last);
    ExtrasAppend(s, steps, last, key);
    steps := steps + last;
  }

  /** Without `Alone`: scans that drain do not keep overlapping downloads within the bound of serialized
      runs, whatever the limit. */
  lemma OverlapExceedsBound(limit: nat, key: Key) returns (s: State, steps: seq<Step>)
    ensures NewContract(s, key, limit) && IsRun(Apply, s, steps) && Along(Apply, Drained, s, steps)
    ensures var t := Final(Apply, s, steps);
            MissingAbi(t.rows, key) && t.rows[key].fetchRetries == Bound(s) + 2
  {
    s, steps := BoundIsReached(limit, key, if limit == 0 then 2 else 1);
  }

  /** Without `Drained`: a contract at the limit is selected by two scans and retried twice. */
  lemma UndrainedScansExceedBound(limit: nat, key: Key) returns (s: State, steps: seq<Step>)
    ensures BoundedStart(s) && s.limit == limit && IsRun(Apply, s, steps)
    ensures Extras(s, steps, key) == 1
    ensures MissingAbi(Final(Apply, s, steps).rows, key) && Final(Apply, s, steps).rows[key].fetchRetries == limit + 2
  {
    s := State(map[key := NEW_ROW.(fetchRetries := limit)], {}, [], {}, limit);
    var a := ScanOnce(s, key);
    var s1 := Final(Apply, s, a);
    var b := ScanOnce(s1, key);
    var s2 := Final(Apply, s1, b);
    assert IsOutstanding(s2, key, 1);
    var c := FailMessage(s2, 0);
    var s3 := Final(Apply, s2, c);
    assert !Accompanied(s3, key, 1);
    var d := FailMessage(s3, 1);
    ExtrasAppend(s2, c, d, key);
    ExtrasAppend(s1, b, c + d, key);
    ExtrasAppend(s, a, b + (c + d), key);
    steps := a + (b + (c + d));
  }

  /** A limit of 0 lets a new contract be retried twice even in a serialized run: a scan selects it, an
      event's download fails first, and the scan's message retries without a check. */
  lemma ZeroLimitReachesTwo(key: Key) returns (s: State, steps: seq<Step>)
    ensures NewContract(s, key, 0) && IsRun(Apply, s, steps) && Along(Apply, Serialized, s, steps)
    ensures MissingAbi(Final(Apply, s, steps).rows, key) && Final(Apply, s, steps).rows[key].fetchRetries == 2
  {
    s := State(map[key := NEW_ROW], {}, [], {}, 0);
    steps := ScanOnce(s, key);
    var s1 := Final(Apply, s, steps);
    var s2 := Apply(s1, SendEvent(key));
    AlongExtend(Apply, Serialized, s, steps, SendEvent(key));
    steps := steps + [SendEvent(key)];
    var event := FailMessage(s2, 1);
    AloneIsSerialized(s2, 1, event);
    AlongAppend(Apply, Serialized, s, steps, event);
    steps := steps + event;
    var s3 := Final(Apply, s, steps);
    var scanned := FailMessage(s3, 0);
    AloneIsSerialized(s3, 0, scanned);
    AlongAppend(Apply, Serialized, s, steps, scanned);
    steps := steps + scanned;
  }

  /** Three scans of a table of one new row. */
  lemma ThreeMessages(s: State, key: Key) returns (steps: seq<Step>)
    requires NewContract(s, key, s.limit)
    ensures IsRun(Apply, s, steps)
    ensures var t := NewToken(key, MissingScan); Final(Apply, s, steps) == s.(tokens := [t, t, t])
  {
    var a := ScanOnce(s, key);
    var s1 := Final(Apply, s, a);
    var b := ScanOnce(s1, key);
    var s2 := Final(Apply, s1, b);
    var c := ScanOnce(s2, key);
    Append(Apply, s1, b, c);
    Append(Apply, s, a, b + c);
    steps := a + (b + c);
  }

  lemma BeginAndRead(s: State, i: nat) returns (steps: seq<Step>)
    requires i < |s.tokens| && s.tokens[i] == NewToken(s.tokens[i].key, MissingScan) && s.tokens[i].key in s.rows
    ensures IsRun(Apply, s, steps)
    ensures var key := s.tokens[i].key;
            Final(Apply, s, steps)
            == s.(tokens := s.tokens[i := Token(key, MissingScan, Writing(NoMetadata, s.rows[key]), [key])])
  {
    steps := Begin(s, i);
    var rest := ReadRow(Final(Apply, s, steps), i);
    Append(Apply, s, steps, rest);
    steps := steps + rest;
    assert s.tokens[i].attempted + [s.tokens[i].key] == [s.tokens[i].key];
  }

  /** One reads the row, the two others fail completely. */
  lemma StaleReader(s: State, key: Key) returns (steps: seq<Step>)
    requires s.rows == map[key := NEW_ROW]
    requires var t := NewToken(key, MissingScan); s.tokens == [t, t, t]
    ensures IsRun(Apply, s, steps)
    ensures var t := Final(Apply, s, steps);
            && t.rows == map[key := NEW_ROW.(fetchRetries := 2)]
            && |t.tokens| == 3 && t.tokens[0] == Token(key, MissingScan, Writing(NoMetadata, NEW_ROW), [key])
  {
    var a := BeginAndRead(s, 0);
    var s1 := Final(Apply, s, a);
    var b := FailMessage(s1, 1);
    var s2 := Final(Apply, s1, b);
    var c := FailMessage(s2, 2);
    Append(Apply, s1, b, c);
    Append(Apply, s, a, b + c);
    steps := a + (b + c);
  }

  /** A stale read-modify-write makes the retries of a row go down, so a refusal for `max_retries` 1
      becomes false although one for 0 cannot. */
  lemma RetriesCanGoDown(limit: nat, key: Key) returns (s: State, before: seq<Step>, last: Step)
    ensures NewContract(s, key, limit) && IsRun(Apply, s, before) && Enabled(Final(Apply, s, before), last)
    ensures var t := Final(Apply, s, before);
            && key in t.rows && t.rows[key].fetchRetries == 2
            && key in Apply(t, last).rows && Apply(t, last).rows[key].fetchRetries == 1
            && Exhausted(t.rows, key, 1) && !Exhausted(Apply(t, last).rows, key, 1)
  {
    s := State(map[key := NEW_ROW], {}, [], {}, limit);
    var a := ThreeMessages(s, key);
    var s1 := Final(Apply, s, a);
    var b := StaleReader(s1, key);
    Append(Apply, s, a, b);
    before := a + b;
    last := Advance(0, NoMetadata);
    WriteFailure(Final(Apply, s, before), 0);
  }
}
