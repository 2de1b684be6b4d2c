/**
 The index as a state machine. Rows are inserted into the `abi` table while the service starts and
 while calls to `load_new_abis` run; every await of the loader is a point where others may step.
 */
module IndexLoader {
  import opened Wrappers
  import opened Encoding
  import opened Abis
  import opened AbiTable
  import opened SelectorIndex
  import opened Runs

  /** Where the start-up code or the holder of the lock stands. `Idle` is the free lock. */
  datatype Loader =
    | NotStarted
    | InitCursorRead
    | InitStreaming(pending: seq<AbiRow>, built: Index)
    | Idle
    | Acquired
    | CursorMoved(previous: Option<nat>)
    | Streaming(pending: seq<AbiRow>, loaded: nat)

  datatype State = State(table: seq<AbiRow>, index: Index, cursor: Option<nat>, loader: Loader)

  datatype Step =
    | Insert(row: AbiRow, at: nat)
    | InitReadId
    | InitOpen(order: seq<AbiRow>)
    | InitMerge
    | InitFinish
    | TimeOutOnLock
    | Acquire
    | ReadId
    | NothingNew
    | Open(order: seq<AbiRow>)
    | Merge
    | Finish
    | Abort

  /** The rows a load streams: the full query when there was no cursor, else the rows past it. */
  ghost predicate IsLoadStream(table: seq<AbiRow>, previous: Option<nat>, order: seq<AbiRow>) {
    match previous
    case None => IsRelevanceOrder(RowSet(table), order)
    case Some(p) => order == IdGreaterThan(table, p)
  }

  predicate HasNews(previous: Option<nat>, cursor: Option<nat>) {
    previous.Some? ==> cursor.Some? && cursor.value > previous.value
  }

  predicate CanAbort(loader: Loader) {
    loader.Acquired? || loader.CursorMoved? || loader.Streaming?
  }

  ghost predicate Enabled(s: State, step: Step) {
    match step
    case Insert(row, at) => at <= |s.table| && Ascending(s.table[..at] + [row] + s.table[at..])
    case InitReadId => s.loader.NotStarted?
    case InitOpen(order) => s.loader.InitCursorRead? && IsRelevanceOrder(RowSet(s.table), order)
    case InitMerge => s.loader.InitStreaming? && s.loader.pending != []
    case InitFinish => s.loader.InitStreaming? && s.loader.pending == []
    case TimeOutOnLock => CanAbort(s.loader)
    case Acquire => s.loader.Idle?
    case ReadId => s.loader.Acquired?
    case NothingNew => s.loader.CursorMoved? && !HasNews(s.loader.previous, s.cursor)
    case Open(order) =>
      s.loader.CursorMoved? && HasNews(s.loader.previous, s.cursor) && IsLoadStream(s.table, s.loader.previous, order)
    case Merge => s.loader.Streaming? && s.loader.pending != []
    case Finish => s.loader.Streaming? && s.loader.pending == []
    case Abort => CanAbort(s.loader)
  }

  ghost function Apply(s: State, step: Step): State
    requires Enabled(s, step)
  {
    match step
    case Insert(row, at) => s.(table := s.table[..at] + [row] + s.table[at..])
    case InitReadId => s.(cursor := LastInsertedId(s.table), loader := InitCursorRead)
    case InitOpen(order) => s.(loader := InitStreaming(order, map[]))
    case InitMerge =>
      s.(loader := InitStreaming(s.loader.pending[1..], s.loader.built + SelectorMap(s.loader.pending[0].abi)))
    case InitFinish => s.(index := s.loader.built, loader := Idle)
    case TimeOutOnLock => s
    case Acquire => s.(loader := Acquired)
    case ReadId => s.(cursor := LastInsertedId(s.table), loader := CursorMoved(s.cursor))
    case NothingNew => s.(loader := Idle)
    case Open(order) => s.(loader := Streaming(order, 0))
    case Merge =>
      var abi := s.loader.pending[0].abi;
      var loaded := if AddsKey(s.index, abi) then s.loader.loaded + 1 else s.loader.loaded;
      s.(index := AddAbi(s.index, abi), loader := Streaming(s.loader.pending[1..], loaded))
    case Finish => s.(loader := Idle)
    case Abort => s.(loader := Idle)
  }

  /******* Coverage *******/

  ghost predicate AllKeys(index: Index, abi: Abi) {
    SelectorMap(abi).Keys <= index.Keys
  }

  /** Every selector of every row up to `cursor` is a key of `index`, or its row is in `pending`. */
  ghost predicate Covers(table: seq<AbiRow>, cursor: Option<nat>, index: Index, pending: seq<AbiRow>) {
    forall row | row in table && IdWithin(row, cursor) :: AllKeys(index, row.abi) || row in pending
  }

  /** The id up to which the loader answers for the rows. */
  function Horizon(s: State): Option<nat> {
    match s.loader
    case NotStarted => None
    case InitCursorRead => None
    case CursorMoved(previous) => previous
    case _ => s.cursor
  }

  /** The index that is being built, or is in use. */
  function IndexOf(s: State): Index {
    if s.loader.InitStreaming? then s.loader.built else s.index
  }

  function Pending(s: State): seq<AbiRow> {
    if s.loader.InitStreaming? || s.loader.Streaming? then s.loader.pending else []
  }

  ghost predicate Coverage(s: State) {
    Covers(s.table, Horizon(s), IndexOf(s), Pending(s))
  }

  /** Every entry is what some row of the table defines. */
  ghost predicate Sound(table: seq<AbiRow>, index: Index) {
    forall selector | selector in index :: DefinedAs(table, selector, index[selector])
  }

  ghost predicate DefinedAs(table: seq<AbiRow>, selector: Bytes, fn: AbiFunction) {
    exists row | row in table :: Defines(row.abi, selector) && SelectorMap(row.abi)[selector] == fn
  }

  ghost predicate PendingInTable(s: State) {
    (forall row | row in Pending(s) :: row in s.table) && Sound(s.table, IndexOf(s))
  }

  /** A cursor is the id of a visible row. */
  ghost predicate CursorSeen(table: seq<AbiRow>, cursor: Option<nat>) {
    cursor.Some? ==> exists row :: row in table && row.id == cursor.value
  }

  /** What every run keeps, orderly or not. */
  ghost predicate Inv(s: State) {
    && Ascending(s.table)
    && Sound(s.table, s.index)
    && PendingInTable(s)
    && CursorSeen(s.table, s.cursor)
    && CursorSeen(s.table, Horizon(s))
    && (Horizon(s).Some? ==> s.cursor.Some? && Horizon(s).value <= s.cursor.value)
    && (s.loader.NotStarted? ==> s.cursor == None)
  }

  ghost predicate Initial(s: State) {
    Ascending(s.table) && s.index == map[] && s.cursor == None && s.loader == NotStarted
  }

  lemma SoundAfterInsert(table: seq<AbiRow>, table': seq<AbiRow>, index: Index)
    requires Sound(table, index) && forall row | row in table :: row in table'
    ensures Sound(table', index)
  {
    forall selector | selector in index ensures DefinedAs(table', selector, index[selector]) {
      assert DefinedAs(table, selector, index[selector]);
    }
  }

  lemma SoundAfterMerge(table: seq<AbiRow>, index: Index, row: AbiRow)
    requires Sound(table, index) && row in table
    ensures Sound(table, AddAbi(index, row.abi))
    ensures Sound(table, index + SelectorMap(row.abi))
  {
  }

  lemma InsertedRows(s: State, row: AbiRow, at: nat)
    requires Enabled(s, Insert(row, at))
    ensures forall r :: r in Apply(s, Insert(row, at)).table <==> r in s.table || r == row
    ensures row !in s.table
  {
    var table' := s.table[..at] + [row] + s.table[at..];
    assert s.table == s.table[..at] + s.table[at..];
    forall i | 0 <= i < |s.table| ensures s.table[i] != row {
      var k := if i < at then i else i + 1;
      assert table'[k] == s.table[i] && table'[k].id != table'[at].id;
    }
  }

  lemma StreamIsInTable(s: State, order: seq<AbiRow>)
    requires Enabled(s, Open(order))
    ensures forall row | row in order :: row in s.table
  {
    if s.loader.previous.Some? {
      IdGreaterThanContent(s.table, s.loader.previous.value);
    }
  }

  lemma StepKeepsInv(s: State, step: Step)
    requires Inv(s) && Enabled(s, step)
    ensures Inv(Apply(s, step))
  {
    LastInsertedIdIsGreatest(s.table);
    match step
    case Insert(row, at) =>
      InsertedRows(s, row, at);
      SoundAfterInsert(s.table, Apply(s, step).table, s.index);
      SoundAfterInsert(s.table, Apply(s, step).table, IndexOf(s));
    case InitMerge => SoundAfterMerge(s.table, s.loader.built, s.loader.pending[0]);
    case Merge => SoundAfterMerge(s.table, s.index, s.loader.pending[0]);
    case Open(order) => StreamIsInTable(s, order);
    case _ =>
  }

  lemma RunKeepsInv(s: State, steps: seq<Step>)
    requires Inv(s) && IsRun(Apply, s, steps)
    ensures Inv(Final(Apply, s, steps))
  {
    forall t, step | Inv(t) && Enabled(t, step) ensures Inv(Apply(t, step)) {
      StepKeepsInv(t, step);
    }
    EveryRunKeeps(Apply, Inv, s, steps);
  }

  /******* Exactly when a step keeps coverage *******/

  /** The rows that the step puts out of the loader's reach although they define a missing selector:
      a row that becomes visible at or below an id the loader answers for, and the rows up to the
      cursor that an interrupted load has not merged. */
  ghost function Overlooked(s: State, step: Step): set<AbiRow> {
    match step
    case Insert(row, _) => if IdWithin(row, Horizon(s)) && !AllKeys(IndexOf(s), row.abi) then {row} else {}
    case Abort =>
      if s.loader.Streaming? then
        set row | row in s.loader.pending && IdWithin(row, s.cursor) && !AllKeys(s.index, row.abi)
      else if s.loader.CursorMoved? then
        set row |
          row in s.table && IdWithin(row, s.cursor) && !IdWithin(row, s.loader.previous) && !AllKeys(s.index, row.abi)
      else {}
    case _ => {}
  }

  ghost predicate OverlooksNothing(s: State, step: Step) {
    Overlooked(s, step) == {}
  }

  /** The rows up to the cursor that the load had not merged had nothing to add; before the stream
      opens these are the rows past the previous cursor. */
  ghost predicate AbortIsHarmless(s: State)
    requires CanAbort(s.loader)
  {
    match s.loader
    case Streaming(pending, _) => forall row | row in pending && IdWithin(row, s.cursor) :: AllKeys(s.index, row.abi)
    case CursorMoved(previous) =>
      forall row | row in s.table && IdWithin(row, s.cursor) && !IdWithin(row, previous) :: AllKeys(s.index, row.abi)
    case _ => true
  }

  lemma CoversAfterMerge(table: seq<AbiRow>, cursor: Option<nat>, index: Index, index': Index, pending: seq<AbiRow>)
    requires Covers(table, cursor, index, pending) && pending != []
    requires index'.Keys == index.Keys + SelectorMap(pending[0].abi).Keys
    ensures Covers(table, cursor, index', pending[1..])
  {
  }

  lemma OpenKeepsCoverage(s: State, order: seq<AbiRow>)
    requires Coverage(s) && Enabled(s, Open(order))
    ensures Coverage(Apply(s, Open(order)))
  {
    if s.loader.previous.Some? {
      IdGreaterThanContent(s.table, s.loader.previous.value);
    }
  }

  lemma AbortOverlooks(s: State)
    requires CanAbort(s.loader)
    ensures OverlooksNothing(s, Abort) <==> AbortIsHarmless(s)
  {
    if !AbortIsHarmless(s) {
      if s.loader.Streaming? {
        var row :| row in s.loader.pending && IdWithin(row, s.cursor) && !AllKeys(s.index, row.abi);
        assert row in Overlooked(s, Abort);
      } else {
        var row :| row in s.table && IdWithin(row, s.cursor) && !IdWithin(row, s.loader.previous)
                   && !AllKeys(s.index, row.abi);
        assert row in Overlooked(s, Abort);
      }
    }
  }

  /** A covered state stays covered exactly if the step overlooks nothing: this for every step of
      start-up, of a load and of the database, in every state. */
  lemma StepKeepsCoverageIff(s: State, step: Step)
    requires Inv(s) && Coverage(s) && Enabled(s, step)
    ensures Coverage(Apply(s, step)) <==> OverlooksNothing(s, step)
  {
    var t := Apply(s, step);
    match step
    case Insert(row, at) => InsertKeepsCoverageIff(s, row, at);
    case InitMerge => CoversAfterMerge(s.table, s.cursor, s.loader.built, t.loader.built, s.loader.pending);
    case Merge => CoversAfterMerge(s.table, s.cursor, s.index, t.index, s.loader.pending);
    case Open(order) => OpenKeepsCoverage(s, order);
    case Abort =>
      AbortKeepsCoverageIff(s);
      AbortOverlooks(s);
    case NothingNew => LastInsertedIdIsGreatest(s.table);
    case _ =>
  }

  /** A row that becomes visible keeps coverage exactly if it is past the ids the loader answers for
      or all its selectors are keys. */
  lemma InsertKeepsCoverageIff(s: State, row: AbiRow, at: nat)
    requires Inv(s) && Coverage(s) && Enabled(s, Insert(row, at))
    ensures Coverage(Apply(s, Insert(row, at))) <==> (IdWithin(row, Horizon(s)) ==> AllKeys(IndexOf(s), row.abi))
  {
    InsertedRows(s, row, at);
  }

  /** An interrupted load keeps coverage exactly if what it had not merged up to the cursor had
      nothing to add. */
  lemma AbortKeepsCoverageIff(s: State)
    requires Inv(s) && Coverage(s) && CanAbort(s.loader)
    ensures Coverage(Apply(s, Abort)) <==> AbortIsHarmless(s)
  {
  }

  /** In every run that overlooks nothing: with the lock free each selector of each row up to the
      cursor is a key; after the cursor moved those of the rows up to the previous cursor are; while
      a load streams a selector is a key or its row is pending; and every entry is a definition of a
      visible row. */
  lemma IndexCoverage(s: State, steps: seq<Step>)
    requires Initial(s) && IsRun(Apply, s, steps) && Along(Apply, OverlooksNothing, s, steps)
    ensures var t := Final(Apply, s, steps);
            && Sound(t.table, t.index)
            && match t.loader
               case Idle => Covers(t.table, t.cursor, t.index, [])
               case Acquired => Covers(t.table, t.cursor, t.index, [])
               case CursorMoved(previous) => Covers(t.table, previous, t.index, [])
               case Streaming(pending, _) => Covers(t.table, t.cursor, t.index, pending)
               case InitStreaming(pending, built) => Covers(t.table, t.cursor, built, pending)
               case _ => true
  {
    var inv := t => Inv(t) && Coverage(t);
    forall t, step | inv(t) && Enabled(t, step) && OverlooksNothing(t, step) ensures inv(Apply(t, step)) {
      StepKeepsInv(t, step);
      StepKeepsCoverageIff(t, step);
    }
    RunKeeps(Apply, OverlooksNothing, inv, s, steps);
  }

  /** Ids become visible in increasing order, and a load that moved the cursor is not interrupted. */
  ghost predicate Orderly(s: State, step: Step) {
    && (step.Insert? ==> step.at == |s.table|)
    && (step.Abort? ==> s.loader.Acquired?)
  }

  /** Such a step overlooks nothing: a row at the end of the table is past every id that was ever a
      cursor. */
  lemma OrderlyOverlooksNothing(s: State, step: Step)
    requires Inv(s) && Enabled(s, step) && Orderly(s, step)
    ensures OverlooksNothing(s, step)
  {
    if step.Insert? {
      var table' := Apply(s, step).table;
      assert table' == s.table + [step.row];
      forall r | r in s.table ensures r.id < step.row.id {
        var i :| 0 <= i < |s.table| && s.table[i] == r;
        assert table'[i].id < table'[|s.table|].id;
      }
    }
  }

  lemma {:induction false} OrderlyRunOverlooksNothing(s: State, steps: seq<Step>)
    requires Inv(s) && IsRun(Apply, s, steps) && Along(Apply, Orderly, s, steps)
    ensures Along(Apply, OverlooksNothing, s, steps)
    decreases |steps|
  {
    if steps == [] {
    } else {
      OrderlyOverlooksNothing(s, steps[0]);
      StepKeepsInv(s, steps[0]);
      OrderlyRunOverlooksNothing(Apply(s, steps[0]), steps[1..]);
    }
  }

  /******* Runs of any kind *******/

  /** All rows that a run overlooked. */
  ghost function OverlookedIn(s: State, steps: seq<Step>): set<AbiRow>
    requires IsRun(Apply, s, steps)
    decreases |steps|
  {
    if steps == [] then {} else Overlooked(s, steps[0]) + OverlookedIn(Apply(s, steps[0]), steps[1..])
  }

  lemma {:induction false} NothingOverlookedIn(s: State, steps: seq<Step>)
    requires IsRun(Apply, s, steps)
    ensures OverlookedIn(s, steps) == {} <==> Along(Apply, OverlooksNothing, s, steps)
    decreases |steps|
  {
    if steps == [] {
    } else {
      NothingOverlookedIn(Apply(s, steps[0]), steps[1..]);
    }
  }

  /** `gone` are rows that were overlooked; every other row is covered. */
  ghost predicate CoveredBut(gone: set<AbiRow>, s: State) {
    && (forall row | row in s.table && IdWithin(row, Horizon(s)) ::
          AllKeys(IndexOf(s), row.abi) || row in Pending(s) || row in gone)
    && (forall row | row in gone :: row in s.table && IdWithin(row, s.cursor))
    && (gone != {} ==> Started(s) || s.loader.InitStreaming?)
    && (s.loader.CursorMoved? ==> forall row | row in gone :: IdWithin(row, s.loader.previous))
  }

  lemma MergeKeepsCoveredBut(gone: set<AbiRow>, s: State, step: Step)
    requires CoveredBut(gone, s) && Enabled(s, step) && (step.Merge? || step.InitMerge?)
    ensures CoveredBut(gone, Apply(s, step))
  {
    var t := Apply(s, step);
    assert IndexOf(t).Keys == IndexOf(s).Keys + SelectorMap(Pending(s)[0].abi).Keys;
    assert Pending(s) == [Pending(s)[0]] + Pending(t);
  }

  lemma OpenKeepsCoveredBut(gone: set<AbiRow>, s: State, order: seq<AbiRow>)
    requires CoveredBut(gone, s) && Enabled(s, Open(order))
    ensures CoveredBut(gone, Apply(s, Open(order)))
  {
    if s.loader.previous.Some? {
      IdGreaterThanContent(s.table, s.loader.previous.value);
    }
  }

  lemma InsertKeepsCoveredBut(gone: set<AbiRow>, s: State, row: AbiRow, at: nat)
    requires Inv(s) && CoveredBut(gone, s) && Enabled(s, Insert(row, at))
    ensures CoveredBut(gone + Overlooked(s, Insert(row, at)), Apply(s, Insert(row, at)))
  {
    InsertedRows(s, row, at);
  }

  lemma AbortKeepsCoveredBut(gone: set<AbiRow>, s: State)
    requires Inv(s) && CoveredBut(gone, s) && CanAbort(s.loader)
    ensures CoveredBut(gone + Overlooked(s, Abort), Apply(s, Abort))
  {
  }

  lemma ReadKeepsCoveredBut(gone: set<AbiRow>, s: State, step: Step)
    requires CoveredBut(gone, s) && Enabled(s, step) && (step.ReadId? || step.NothingNew?)
    ensures CoveredBut(gone, Apply(s, step))
  {
    LastInsertedIdIsGreatest(s.table);
  }

  lemma StepKeepsCoveredBut(gone: set<AbiRow>, s: State, step: Step)
    requires Inv(s) && CoveredBut(gone, s) && Enabled(s, step)
    ensures CoveredBut(gone + Overlooked(s, step), Apply(s, step))
  {
    assert gone + {} == gone;
    match step
    case Insert(row, at) => InsertKeepsCoveredBut(gone, s, row, at);
    case Abort => AbortKeepsCoveredBut(gone, s);
    case InitMerge => MergeKeepsCoveredBut(gone, s, step);
    case Merge => MergeKeepsCoveredBut(gone, s, step);
    case Open(order) => OpenKeepsCoveredBut(gone, s, order);
    case ReadId => ReadKeepsCoveredBut(gone, s, step);
    case NothingNew => ReadKeepsCoveredBut(gone, s, step);
    case _ =>
  }

  lemma {:induction false} RunKeepsCoveredBut(gone: set<AbiRow>, s: State, steps: seq<Step>)
    requires Inv(s) && CoveredBut(gone, s) && IsRun(Apply, s, steps)
    ensures CoveredBut(gone + OverlookedIn(s, steps), Final(Apply, s, steps))
    decreases |steps|
  {
    if steps == [] {
      assert gone + {} == gone;
    } else {
      StepKeepsInv(s, steps[0]);
      StepKeepsCoveredBut(gone, s, steps[0]);
      RunKeepsCoveredBut(gone + Overlooked(s, steps[0]), Apply(s, steps[0]), steps[1..]);
      assert gone + OverlookedIn(s, steps)
             == gone + Overlooked(s, steps[0]) + OverlookedIn(Apply(s, steps[0]), steps[1..]);
    }
  }

  /** In every run whatsoever, only overlooked rows can be uncovered, and the state is covered exactly
      if each of them has become covered since, by other rows with the same selectors or because a
      load has it pending. */
  lemma CoverageIff(s: State, steps: seq<Step>)
    requires Initial(s) && IsRun(Apply, s, steps)
    ensures var t, gone := Final(Apply, s, steps), OverlookedIn(s, steps);
            && (forall row | row in t.table && IdWithin(row, Horizon(t)) ::
                  AllKeys(IndexOf(t), row.abi) || row in Pending(t) || row in gone)
            && (Coverage(t) <==> forall row | row in gone :: AllKeys(IndexOf(t), row.abi) || row in Pending(t))
  {
    RunKeepsCoveredBut({}, s, steps);
    assert {} + OverlookedIn(s, steps) == OverlookedIn(s, steps);
  }

  ghost predicate CaughtUp(s: State) {
    s.loader.Idle? && s.cursor == LastInsertedId(s.table)
  }

  /** Once the cursor stands at the last row and the lock is free, the keys are exactly the selectors
      of the table. */
  lemma CaughtUpIndexIsExact(s: State, steps: seq<Step>, selector: Bytes)
    requires Initial(s) && IsRun(Apply, s, steps) && Along(Apply, OverlooksNothing, s, steps)
    requires CaughtUp(Final(Apply, s, steps))
    ensures var t := Final(Apply, s, steps);
            selector in t.index <==> exists row | row in t.table :: Defines(row.abi, selector)
  {
    var t := Final(Apply, s, steps);
    IndexCoverage(s, steps);
    LastInsertedIdIsGreatest(t.table);
    if selector in t.index {
      assert DefinedAs(t.table, selector, t.index[selector]);
    }
    if row :| row in t.table && Defines(row.abi, selector) {
      assert AllKeys(t.index, row.abi);
    }
  }

  /** If the ABIs agree on shared selectors, a caught-up index, whatever the inserts and loads that led
      to it, is the one a start-up would build now from any order of the table. */
  lemma CaughtUpIndexIsARebuild(s: State, steps: seq<Step>, order: seq<AbiRow>)
    requires Initial(s) && IsRun(Apply, s, steps) && Along(Apply, OverlooksNothing, s, steps)
    requires CaughtUp(Final(Apply, s, steps))
    requires RowSet(order) == RowSet(Final(Apply, s, steps).table)
    requires Consistent(set row | row in order :: row.abi)
    ensures Final(Apply, s, steps).index == LastWins(AbisOf(order))
  {
    var t, rebuilt := Final(Apply, s, steps), LastWins(AbisOf(order));
    IndexCoverage(s, steps);
    forall selector
      ensures selector in t.index <==> selector in rebuilt
      ensures selector in t.index ==> t.index[selector] == rebuilt[selector]
    {
      CaughtUpIndexIsExact(s, steps, selector);
      RebuiltEntry(order, t.table, rebuilt, selector);
      if selector in t.index {
        assert DefinedAs(t.table, selector, t.index[selector]) && DefinedAs(t.table, selector, rebuilt[selector]);
        SameDefinition(order, t.table, selector, t.index[selector], rebuilt[selector]);
      }
    }
  }

  lemma RebuiltEntry(order: seq<AbiRow>, table: seq<AbiRow>, rebuilt: Index, selector: Bytes)
    requires RowSet(order) == RowSet(table) && rebuilt == LastWins(AbisOf(order))
    ensures selector in rebuilt <==> exists row | row in table :: Defines(row.abi, selector)
    ensures selector in rebuilt ==> DefinedAs(table, selector, rebuilt[selector])
  {
    var abis := AbisOf(order);
    LastWinsContent(abis, selector);
    SomeDefinerIsLast(abis, selector);
    assert forall row :: row in order <==> row in RowSet(table);
    OrderDefinesWhatTableDefines(RowSet(table), order, selector);
    if selector in rebuilt {
      var i :| IsLastDefiner(abis, i, selector);
      assert ResolvesTo(rebuilt, selector, abis, i) && order[i] in RowSet(order);
    }
    if row :| row in table && Defines(row.abi, selector) {
      assert row in RowSet(table) && TableDefines(RowSet(table), selector);
    }
  }

  lemma SameDefinition(order: seq<AbiRow>, table: seq<AbiRow>, selector: Bytes, f: AbiFunction, g: AbiFunction)
    requires RowSet(order) == RowSet(table) && Consistent(set row | row in order :: row.abi)
    requires DefinedAs(table, selector, f) && DefinedAs(table, selector, g)
    ensures f == g
  {
    var x :| x in table && Defines(x.abi, selector) && SelectorMap(x.abi)[selector] == f;
    var y :| y in table && Defines(y.abi, selector) && SelectorMap(y.abi)[selector] == g;
    assert x in RowSet(table) && y in RowSet(table);
  }

  /******* Stability *******/

  ghost predicate Started(s: State) {
    !s.loader.NotStarted? && !s.loader.InitCursorRead? && !s.loader.InitStreaming?
  }

  /** After start-up no run, orderly or not, changes or removes an entry. */
  lemma EntriesNeverChange(s: State, steps: seq<Step>, selector: Bytes)
    requires Started(s) && IsRun(Apply, s, steps) && selector in s.index
    ensures selector in Final(Apply, s, steps).index && Final(Apply, s, steps).index[selector] == s.index[selector]
  {
    var inv := (t: State) => Started(t) && selector in t.index && t.index[selector] == s.index[selector];
    forall t, step | inv(t) && Enabled(t, step) ensures inv(Apply(t, step)) {
    }
    EveryRunKeeps(Apply, inv, s, steps);
  }

  /******* The uninterrupted start-up *******/

  /** Left alone, the steps of a start-up do what the method `Init` of the service promises. */
  lemma UninterruptedStart(s: State, order: seq<AbiRow>) returns (steps: seq<Step>)
    requires s.loader.NotStarted? && IsRelevanceOrder(RowSet(s.table), order)
    ensures IsRun(Apply, s, steps)
    ensures Final(Apply, s, steps) == State(s.table, LastWins(AbisOf(order)), LastInsertedId(s.table), Idle)
  {
    var abis := AbisOf(order);
    var s1 := Apply(s, InitReadId);
    var s2 := Apply(s1, InitOpen(order));
    steps := [InitReadId, InitOpen(order)];
    Unfold(Apply, [s, s1, s2], steps);
    for i := 0 to |order|
      invariant IsRun(Apply, s, steps)
      invariant Final(Apply, s, steps) == s1.(loader := InitStreaming(order[i..], LastWins(abis[..i])))
    {
      var t := Final(Apply, s, steps);
      assert abis[..i + 1][..i] == abis[..i] && order[i..][1..] == order[i + 1..];
      assert Enabled(t, InitMerge);
      Extend(Apply, s, steps, InitMerge);
      steps := steps + [InitMerge];
    }
    assert abis[..|order|] == abis;
    assert Enabled(Final(Apply, s, steps), InitFinish);
    Extend(Apply, s, steps, InitFinish);
    steps := steps + [InitFinish];
  }

  /******* The uninterrupted load *******/

  lemma {:induction false} LoadFromFront(index: Index, abis: seq<Abi>)
    requires abis != []
    ensures LoadAll(AddAbi(index, abis[0]), abis[1..]) == LoadAll(index, abis)
  {
    var n := |abis| - 1;
    if n == 0 {
      assert abis[..0] == [];
    } else {
      LoadFromFront(index, abis[..n]);
      assert abis[1..][..n - 1] == abis[..n][1..];
    }
  }

  lemma {:induction false} CountFromFront(index: Index, abis: seq<Abi>)
    requires abis != []
    ensures LoadCount(index, abis)
            == (if AddsKey(index, abis[0]) then 1 else 0) + LoadCount(AddAbi(index, abis[0]), abis[1..])
  {
    var n := |abis| - 1;
    if n == 0 {
      assert abis[..0] == [];
    } else {
      CountFromFront(index, abis[..n]);
      LoadFromFront(index, abis[..n]);
      assert abis[1..][..n - 1] == abis[..n][1..];
    }
  }

  /** The first merges of a load. */
  ghost function Merged(s: State, k: nat): State
    requires s.loader.Streaming? && k <= |s.loader.pending|
  {
    var abis := AbisOf(s.loader.pending)[..k];
    s.(index := LoadAll(s.index, abis),
       loader := Streaming(s.loader.pending[k..], s.loader.loaded + LoadCount(s.index, abis)))
  }

  lemma MergedFromFront(s: State, k: nat)
    requires s.loader.Streaming? && 0 < k <= |s.loader.pending|
    ensures Merged(Apply(s, Merge), k - 1) == Merged(s, k)
  {
    var pending := s.loader.pending;
    var abis := AbisOf(pending)[..k];
    LoadFromFront(s.index, abis);
    CountFromFront(s.index, abis);
    assert AbisOf(pending[1..])[..k - 1] == abis[1..];
    assert pending[1..][k - 1..] == pending[k..];
  }

  lemma {:induction false} MergeSome(s: State, k: nat) returns (steps: seq<Step>)
    requires s.loader.Streaming? && k <= |s.loader.pending|
    ensures IsRun(Apply, s, steps) && Along(Apply, Orderly, s, steps)
    ensures Final(Apply, s, steps) == Merged(s, k)
    ensures |steps| == k && forall i | 0 <= i < k :: steps[i] == Merge
    decreases k
  {
    if k == 0 {
      steps := [];
      assert s.loader.pending[0..] == s.loader.pending && AbisOf(s.loader.pending)[..0] == [];
    } else {
      var t := Apply(s, Merge);
      MergedFromFront(s, k);
      OneStep(Apply, s, Merge);
      var rest := MergeSome(t, k - 1);
      AlongAppend(Apply, Orderly, s, [Merge], rest);
      steps := [Merge] + rest;
    }
  }

  /** The steps of a load up to where `k` ABIs have arrived and been merged. */
  lemma LoadSome(s: State, order: seq<AbiRow>, k: nat) returns (steps: seq<Step>)
    requires s.loader.Idle? && k <= |order|
    requires HasNews(s.cursor, LastInsertedId(s.table)) && IsLoadStream(s.table, s.cursor, order)
    ensures IsRun(Apply, s, steps) && Along(Apply, Orderly, s, steps)
    ensures var abis := AbisOf(order)[..k];
            Final(Apply, s, steps)
            == State(s.table, LoadAll(s.index, abis), LastInsertedId(s.table),
                     Streaming(order[k..], LoadCount(s.index, abis)))
    ensures IsCall(steps, k)
  {
    var s1 := Apply(s, Acquire);
    var s2 := Apply(s1, ReadId);
    var s3 := Apply(s2, Open(order));
    steps := [Acquire, ReadId, Open(order)];
    AlongUnfold(Apply, Orderly, [s, s1, s2, s3], steps);
    var rest := MergeSome(s3, k);
    AlongAppend(Apply, Orderly, s, steps, rest);
    steps := steps + rest;
  }

  /** Left alone, the steps of a load do what the method `LoadNewAbis` of the service promises: the
      index, the cursor, and when it ends the number it has counted. */
  lemma UninterruptedLoad(s: State, order: seq<AbiRow>) returns (steps: seq<Step>)
    requires s.loader.Idle?
    requires HasNews(s.cursor, LastInsertedId(s.table)) && IsLoadStream(s.table, s.cursor, order)
    ensures IsRun(Apply, s, steps) && Along(Apply, Orderly, s, steps) && Enabled(Final(Apply, s, steps), Finish)
    ensures Final(Apply, s, steps).loader.loaded == LoadCount(s.index, AbisOf(order))
    ensures Apply(Final(Apply, s, steps), Finish)
            == State(s.table, LoadAll(s.index, AbisOf(order)), LastInsertedId(s.table), Idle)
  {
    steps := LoadSome(s, order, |order|);
    assert AbisOf(order)[..|order|] == AbisOf(order);
  }

  /** How a call that holds the lock may end. */
  datatype Ending = Completed(loaded: nat) | FoundNothingNew | Interrupted(merged: nat)

  /** The steps are one such call and nothing else, up to but without its last step. */
  ghost predicate IsCall(steps: seq<Step>, merges: nat) {
    && |steps| >= 2 && steps[0] == Acquire && steps[1] == ReadId
    && (|steps| == 2 ==> merges == 0)
    && (|steps| > 2 ==> steps[2].Open? && |steps| == 3 + merges && forall i | 3 <= i < |steps| :: steps[i] == Merge)
  }

  /** A call takes the service from `s` to `t` and ends like that. */
  ghost predicate CallLeads(s: State, t: State, ending: Ending) {
    exists steps, merges ::
      IsCall(steps, merges) && IsRun(Apply, s, steps) && EndsCall(Final(Apply, s, steps), merges, t, ending)
  }

  ghost predicate EndsCall(u: State, merges: nat, t: State, ending: Ending) {
    match ending
    case Completed(loaded) => Enabled(u, Finish) && u.loader.loaded == loaded && Apply(u, Finish) == t
    case FoundNothingNew => Enabled(u, NothingNew) && Apply(u, NothingNew) == t
    case Interrupted(merged) =>
      u.loader.Streaming? && u.loader.pending != [] && merges == merged && Apply(u, Abort) == t
  }

  lemma NothingNewLeads(s: State)
    requires s.loader.Idle? && !HasNews(s.cursor, LastInsertedId(s.table))
    ensures CallLeads(s, s.(cursor := LastInsertedId(s.table)), FoundNothingNew)
  {
    var s1 := Apply(s, Acquire);
    var s2 := Apply(s1, ReadId);
    Unfold(Apply, [s, s1, s2], [Acquire, ReadId]);
    assert IsCall([Acquire, ReadId], 0) && EndsCall(s2, 0, s.(cursor := LastInsertedId(s.table)), FoundNothingNew);
  }

  lemma LoadLeads(s: State, order: seq<AbiRow>, k: nat)
    requires s.loader.Idle? && k <= |order|
    requires HasNews(s.cursor, LastInsertedId(s.table)) && IsLoadStream(s.table, s.cursor, order)
    ensures var abis := AbisOf(order)[..k];
            CallLeads(s, State(s.table, LoadAll(s.index, abis), LastInsertedId(s.table), Idle),
                      if k < |order| then Interrupted(k) else Completed(LoadCount(s.index, abis)))
  {
    var steps := LoadSome(s, order, k);
    var u := Final(Apply, s, steps);
    var ending := if k < |order| then Interrupted(k) else Completed(u.loader.loaded);
    assert IsCall(steps, k) && EndsCall(u, k, u.(loader := Idle), ending);
  }

  /******* Caught up and rebuilt, exactly *******/

  /** The service starts on an empty table; nothing is ever built. */
  lemma StartOnEmpty() returns (s: State, steps: seq<Step>)
    ensures Initial(s) && IsRun(Apply, s, steps) && Along(Apply, Orderly, s, steps)
    ensures Final(Apply, s, steps) == State([], map[], None, Idle)
  {
    s := State([], map[], None, NotStarted);
    var s1, s2, s3 := s.(loader := InitCursorRead), s.(loader := InitStreaming([], map[])), s.(loader := Idle);
    assert LastInsertedId([]) == None && IsRelevanceOrder(RowSet([]), []);
    assert s1 == Apply(s, InitReadId) && s2 == Apply(s1, InitOpen([])) && s3 == Apply(s2, InitFinish);
    steps := [InitReadId, InitOpen([]), InitFinish];
    AlongUnfold(Apply, Orderly, [s, s1, s2, s3], steps);
  }

  function TwoRows(x: Abi, y: Abi): seq<AbiRow> {
    [AbiRow(1, 0, x), AbiRow(2, 0, y)]
  }

  lemma FirstInsert(s: State, x: Abi)
    requires s.table == []
    ensures Enabled(s, Insert(AbiRow(1, 0, x), 0))
    ensures Apply(s, Insert(AbiRow(1, 0, x), 0)) == s.(table := [AbiRow(1, 0, x)])
  {
    assert [] + [AbiRow(1, 0, x)] + [] == [AbiRow(1, 0, x)];
  }

  lemma SecondInsert(s: State, x: Abi, y: Abi)
    requires s.table == [AbiRow(1, 0, x)]
    ensures Enabled(s, Insert(AbiRow(2, 0, y), 1))
    ensures Apply(s, Insert(AbiRow(2, 0, y), 1)) == s.(table := TwoRows(x, y))
  {
    assert s.table[..1] + [AbiRow(2, 0, y)] + s.table[1..] == TwoRows(x, y);
  }

  /** Then two rows become visible. */
  lemma TwoInserts(x: Abi, y: Abi) returns (s: State, steps: seq<Step>)
    ensures Initial(s) && IsRun(Apply, s, steps) && Along(Apply, Orderly, s, steps)
    ensures Final(Apply, s, steps) == State(TwoRows(x, y), map[], None, Idle)
  {
    s, steps := StartOnEmpty();
    var t := Final(Apply, s, steps);
    FirstInsert(t, x);
    AlongExtend(Apply, Orderly, s, steps, Insert(AbiRow(1, 0, x), 0));
    steps := steps + [Insert(AbiRow(1, 0, x), 0)];
    t := Final(Apply, s, steps);
    SecondInsert(t, x, y);
    AlongExtend(Apply, Orderly, s, steps, Insert(AbiRow(2, 0, y), 1));
    steps := steps + [Insert(AbiRow(2, 0, y), 1)];
  }

  /** And a load without a cursor, which keeps the first definition where a start-up keeps the last. */
  lemma DisagreementShows(x: Abi, y: Abi, selector: Bytes) returns (s: State, steps: seq<Step>, order: seq<AbiRow>)
    requires Defines(x, selector) && Defines(y, selector) && SelectorMap(x)[selector] != SelectorMap(y)[selector]
    ensures Initial(s) && IsRun(Apply, s, steps) && Along(Apply, OverlooksNothing, s, steps)
    ensures CaughtUp(Final(Apply, s, steps)) && Final(Apply, s, steps).table == TwoRows(x, y)
    ensures IsRelevanceOrder(RowSet(TwoRows(x, y)), order)
    ensures Final(Apply, s, steps).index != LastWins(AbisOf(order))
  {
    order := TwoRows(x, y);
    s, steps := TwoInserts(x, y);
    var t := Final(Apply, s, steps);
    LastInsertedIdIsGreatest(t.table);
    assert order[1] in order && IsRelevanceOrder(RowSet(order), order);
    var load := UninterruptedLoad(t, order);
    AlongAppend(Apply, Orderly, s, steps, load);
    var u := Final(Apply, t, load);
    AlongExtend(Apply, Orderly, s, steps + load, Finish);
    steps := steps + load + [Finish];
    OrderlyRunOverlooksNothing(s, steps);
    var abis := AbisOf(order);
    LoadAllContent(map[], abis, selector);
    assert IsFirstDefiner(abis, 0, selector);
    assert ResolvesTo(LoadAll(map[], abis), selector, abis, 0);
    LastWinsContent(abis, selector);
    assert IsLastDefiner(abis, 1, selector);
    assert ResolvesTo(LastWins(abis), selector, abis, 1);
  }

  /** The table holds none but these ABIs. */
  ghost predicate HoldsOnly(table: seq<AbiRow>, abis: set<Abi>) {
    forall row | row in table :: row.abi in abis
  }

  /** On tables of these ABIs, every caught-up index of a run that overlooks nothing is the one that a
      start-up builds, whatever the order of ties. */
  ghost predicate AlwaysARebuild(abis: set<Abi>) {
    forall s, steps, order |
      && Initial(s) && IsRun(Apply, s, steps) && Along(Apply, OverlooksNothing, s, steps)
      && CaughtUp(Final(Apply, s, steps)) && HoldsOnly(Final(Apply, s, steps).table, abis)
      && IsRelevanceOrder(RowSet(Final(Apply, s, steps).table), order) ::
      Final(Apply, s, steps).index == LastWins(AbisOf(order))
  }

  lemma ConsistentIsARebuild(abis: set<Abi>, s: State, steps: seq<Step>, order: seq<AbiRow>)
    requires Consistent(abis)
    requires Initial(s) && IsRun(Apply, s, steps) && Along(Apply, OverlooksNothing, s, steps)
    requires CaughtUp(Final(Apply, s, steps)) && HoldsOnly(Final(Apply, s, steps).table, abis)
    requires IsRelevanceOrder(RowSet(Final(Apply, s, steps).table), order)
    ensures Final(Apply, s, steps).index == LastWins(AbisOf(order))
  {
    var table := RowSet(Final(Apply, s, steps).table);
    assert RowSet(order) == table;
    assert forall row | row in order :: row in table;
    CaughtUpIndexIsARebuild(s, steps, order);
  }

  lemma ConsistentAlwaysIs(abis: set<Abi>)
    requires Consistent(abis)
    ensures AlwaysARebuild(abis)
  {
    forall s, steps, order |
      && Initial(s) && IsRun(Apply, s, steps) && Along(Apply, OverlooksNothing, s, steps)
      && CaughtUp(Final(Apply, s, steps)) && HoldsOnly(Final(Apply, s, steps).table, abis)
      && IsRelevanceOrder(RowSet(Final(Apply, s, steps).table), order)
      ensures Final(Apply, s, steps).index == LastWins(AbisOf(order))
    {
      ConsistentIsARebuild(abis, s, steps, order);
    }
  }

  lemma DisagreementBreaks(abis: set<Abi>, x: Abi, y: Abi, selector: Bytes)
    requires x in abis && y in abis && Defines(x, selector) && Defines(y, selector)
    requires SelectorMap(x)[selector] != SelectorMap(y)[selector]
    ensures !AlwaysARebuild(abis)
  {
    var s, steps, order := DisagreementShows(x, y, selector);
    assert HoldsOnly(TwoRows(x, y), abis);
  }

  /** That is so exactly if the ABIs agree on shared selectors. */
  lemma CaughtUpIndexIsARebuildIff(abis: set<Abi>)
    ensures Consistent(abis) <==> AlwaysARebuild(abis)
  {
    if Consistent(abis) {
      ConsistentAlwaysIs(abis);
    } else {
      var x, y, selector :| x in abis && y in abis && Defines(x, selector) && Defines(y, selector)
                            && SelectorMap(x)[selector] != SelectorMap(y)[selector];
      DisagreementBreaks(abis, x, y, selector);
    }
  }

  /******* Interrupted loads *******/

  /** No row past the cursor, and none still to be merged, defines the selector. */
  ghost predicate Lost(s: State, selector: Bytes) {
    && Started(s) && s.cursor.Some? && s.table != [] && selector !in s.index
    && (forall row | row in s.table && row.id > s.cursor.value :: !Defines(row.abi, selector))
    && (s.loader.Streaming? ==> forall row | row in s.loader.pending :: !Defines(row.abi, selector))
    && (s.loader.CursorMoved? ==>
          && s.loader.previous.Some?
          && forall row | row in s.table && row.id > s.loader.previous.value :: !Defines(row.abi, selector))
  }

  ghost predicate NeverInserted(steps: seq<Step>, selector: Bytes) {
    forall step | step in steps :: step.Insert? ==> !Defines(step.row.abi, selector)
  }

  lemma LostAfterStep(s: State, step: Step, selector: Bytes)
    requires Lost(s, selector) && CursorSeen(s.table, s.cursor) && Enabled(s, step)
    requires step.Insert? ==> !Defines(step.row.abi, selector)
    ensures Lost(Apply(s, step), selector) && CursorSeen(Apply(s, step).table, Apply(s, step).cursor)
  {
    LastInsertedIdIsGreatest(s.table);
    match step
    case Insert(row, at) =>
      assert s.table == s.table[..at] + s.table[at..];
      var table' := Apply(s, step).table;
      assert forall r :: r in table' <==> r in s.table || r == row;
    case Open(order) => IdGreaterThanContent(s.table, s.loader.previous.value);
    case _ =>
  }

  /** A selector that an interrupted load skipped stays missing in every later run, of any number
      of loads, until some new row defines it again. */
  lemma LostStaysLost(s: State, steps: seq<Step>, selector: Bytes)
    requires Lost(s, selector) && CursorSeen(s.table, s.cursor)
    requires IsRun(Apply, s, steps) && NeverInserted(steps, selector)
    ensures selector !in Final(Apply, s, steps).index
  {
    var inv := (t: State) => Lost(t, selector) && CursorSeen(t.table, t.cursor);
    var ok := (t: State, step: Step) => step.Insert? ==> !Defines(step.row.abi, selector);
    forall t, step | inv(t) && Enabled(t, step) && ok(t, step) ensures inv(Apply(t, step)) {
      LostAfterStep(t, step, selector);
    }
    NeverInsertedAlong(s, steps, selector, ok);
    RunKeeps(Apply, ok, inv, s, steps);
  }

  lemma {:induction false} NeverInsertedAlong(s: State, steps: seq<Step>, selector: Bytes, ok: (State, Step) -> bool)
    requires IsRun(Apply, s, steps) && NeverInserted(steps, selector)
    requires forall t, step: Step :: (step.Insert? ==> !Defines(step.row.abi, selector)) ==> ok(t, step)
    ensures Along(Apply, ok, s, steps)
    decreases |steps|
  {
    if steps == [] {
    } else {
      assert steps[0] in steps && forall step | step in steps[1..] :: step in steps;
      NeverInsertedAlong(Apply(s, steps[0]), steps[1..], selector, ok);
    }
  }

  const SAMPLE_SELECTOR: Selector := [1, 2, 3, 4]
  const SAMPLE_ABI: Abi := [FunctionEntry(AbiFunction(SAMPLE_SELECTOR, "f", []))]

  lemma SampleDefinesSelector()
    ensures Defines(SAMPLE_ABI, SAMPLE_SELECTOR)
  {
  }

  /** Start-up on a table that holds one row without functions. */
  lemma StartOnOneRow(id: nat) returns (s: State, steps: seq<Step>)
    ensures Initial(s) && IsRun(Apply, s, steps)
    ensures Final(Apply, s, steps) == State([AbiRow(id, 0, [])], map[], Some(id), Idle)
    ensures forall step | step in steps :: !step.Insert? && !step.Abort?
  {
    var table := [AbiRow(id, 0, [])];
    s := State(table, map[], None, NotStarted);
    assert LastInsertedId(table) == Some(id);
    assert IsRelevanceOrder(RowSet(table), table);
    steps := [InitReadId, InitOpen(table), InitMerge, InitFinish];
    var s1 := Apply(s, steps[0]);
    var s2 := Apply(s1, steps[1]);
    var s3 := Apply(s2, steps[2]);
    Unfold(Apply, [s, s1, s2, s3, Apply(s3, steps[3])], steps);
  }

  /** The service starts on a table with one row, a second row arrives, and a load is interrupted
      right after the cursor moved. The lock is free and the new selector is missing for good. */
  lemma InterruptedLoadLosesSelector() returns (s: State, steps: seq<Step>)
    ensures Initial(s) && IsRun(Apply, s, steps)
    ensures forall step | step in steps && step.Insert? :: step.at == 1
    ensures Final(Apply, s, steps).loader.Idle? && !Coverage(Final(Apply, s, steps))
    ensures Lost(Final(Apply, s, steps), SAMPLE_SELECTOR)
  {
    s, steps := StartOnOneRow(1);
    var rest := InterruptAfterInsert(Final(Apply, s, steps));
    Append(Apply, s, steps, rest);
    steps := steps + rest;
    SampleDefinesSelector();
    var second, t := AbiRow(2, 0, SAMPLE_ABI), Final(Apply, s, steps);
    assert second in t.table && IdWithin(second, t.cursor);
    assert SAMPLE_SELECTOR in SelectorMap(second.abi);
  }

  lemma InterruptAfterInsert(s: State) returns (steps: seq<Step>)
    requires s == State([AbiRow(1, 0, [])], map[], Some(1), Idle)
    ensures IsRun(Apply, s, steps)
    ensures Final(Apply, s, steps) == State([AbiRow(1, 0, []), AbiRow(2, 0, SAMPLE_ABI)], map[], Some(2), Idle)
    ensures forall step | step in steps && step.Insert? :: step.at == 1
  {
    var first, second := AbiRow(1, 0, []), AbiRow(2, 0, SAMPLE_ABI);
    var s1 := State([first, second], map[], Some(1), Idle);
    assert s1 == Apply(s, Insert(second, 1));
    var s2 := s1.(loader := Acquired);
    assert [first, second][..1] == [first] && LastInsertedId([first]) == Some(1);
    assert LastInsertedId([first, second]) == Some(2);
    var s3 := s1.(cursor := Some(2), loader := CursorMoved(Some(1)));
    var s4 := s1.(cursor := Some(2));
    assert s2 == Apply(s1, Acquire) && s3 == Apply(s2, ReadId) && s4 == Apply(s3, Abort);
    steps := [Insert(second, 1), Acquire, ReadId, Abort];
    Unfold(Apply, [s, s1, s2, s3, s4], steps);
  }

  /** A row whose id is below the cursor becomes visible after the cursor passed it, and is not
      covered although no load was interrupted. */
  lemma LateRowIsNotCovered() returns (s: State, steps: seq<Step>)
    ensures Initial(s) && IsRun(Apply, s, steps)
    ensures Abort !in steps
    ensures Final(Apply, s, steps).loader.Idle? && !Coverage(Final(Apply, s, steps))
  {
    s, steps := StartOnOneRow(2);
    var t := Final(Apply, s, steps);
    var late, early := AbiRow(1, 0, SAMPLE_ABI), AbiRow(2, 0, []);
    var s1 := State([late, early], map[], Some(2), Idle);
    assert s1 == Apply(t, Insert(late, 0));
    Extend(Apply, s, steps, Insert(late, 0));
    steps := steps + [Insert(late, 0)];
    SampleDefinesSelector();
    assert late in s1.table && IdWithin(late, s1.cursor);
    assert SAMPLE_SELECTOR in SelectorMap(late.abi);
  }
}
