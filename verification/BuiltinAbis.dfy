/**
 The start-up loader of the built-in ABIs and the precedence it gives the Safe contracts in the
 index. ABI contents are unique in the table, so equal contents are one row.
 */
module BuiltinAbis {
  import opened Encoding
  import opened Abis
  import opened AbiTable
  import opened Runs
  import SelectorIndex

  datatype Table = Table(rows: seq<AbiRow>, nextId: nat)

  const EMPTY_TABLE := Table([], 1)

  predicate Stored(t: Table, abi: Abi) {
    exists row | row in t.rows :: row.abi == abi
  }

  /** Insert unless the content is there: a stored row keeps its relevance. */
  function StoreOne(t: Table, abi: Abi, relevance: int): Table {
    if Stored(t, abi) then t else Table(t.rows + [AbiRow(t.nextId, relevance, abi)], t.nextId + 1)
  }

  function Store(t: Table, abis: seq<Abi>, relevance: int): Table
    decreases |abis|
  {
    if abis == [] then t else Store(StoreOne(t, abis[0], relevance), abis[1..], relevance)
  }

  const SAFE_CONTRACTS_RELEVANCE := 100
  const SAFE_RELEVANCE := 90
  const THIRD_PARTIES_RELEVANCE := 50

  /** The three lists, most relevant first: Safe contracts, ERC and Safe, third parties. */
  datatype Builtin = Builtin(safeContracts: seq<Abi>, ercAndSafe: seq<Abi>, thirdParties: seq<Abi>)

  function LoadLocal(t: Table, lists: Builtin): Table {
    Store(
      Store(Store(t, lists.safeContracts, SAFE_CONTRACTS_RELEVANCE), lists.ercAndSafe, SAFE_RELEVANCE),
      lists.thirdParties, THIRD_PARTIES_RELEVANCE)
  }

  class AbiService {
    var table: Table

    constructor ()
      ensures table == EMPTY_TABLE
    {
      table := EMPTY_TABLE;
    }

    method StoreAbisInDatabase(abiJsons: seq<Abi>, relevance: int)
      modifies this
      ensures table == Store(old(table), abiJsons, relevance)
    {
      for i := 0 to |abiJsons|
        invariant Store(table, abiJsons[i..], relevance) == Store(old(table), abiJsons, relevance)
      {
        assert abiJsons[i..][1..] == abiJsons[i + 1..];
        if !Stored(table, abiJsons[i]) {
          table := Table(table.rows + [AbiRow(table.nextId, relevance, abiJsons[i])], table.nextId + 1);
        }
      }
    }

    method LoadLocalAbisInDatabase(lists: Builtin)
      modifies this
      ensures table == LoadLocal(old(table), lists)
    {
      StoreAbisInDatabase(lists.safeContracts, 100);
      StoreAbisInDatabase(lists.ercAndSafe, 90);
      StoreAbisInDatabase(lists.thirdParties, 50);
    }
  }

  /******* What storing a list does *******/

  lemma {:induction false} StoreContent(t: Table, abis: seq<Abi>, relevance: int)
    ensures t.rows <= Store(t, abis, relevance).rows
    ensures forall row | row in Store(t, abis, relevance).rows ::
              row in t.rows || (row.relevance == relevance && row.abi in abis && !Stored(t, row.abi))
    ensures forall abi :: Stored(Store(t, abis, relevance), abi) <==> Stored(t, abi) || abi in abis
    decreases |abis|
  {
    if abis == [] {
    } else {
      StoreOneContent(t, abis[0], relevance);
      StoreContent(StoreOne(t, abis[0], relevance), abis[1..], relevance);
      assert abis == [abis[0]] + abis[1..];
    }
  }

  lemma StoreOneContent(t: Table, abi: Abi, relevance: int)
    ensures t.rows <= StoreOne(t, abi, relevance).rows
    ensures forall row | row in StoreOne(t, abi, relevance).rows ::
              row in t.rows || (row.relevance == relevance && row.abi == abi && !Stored(t, abi))
    ensures forall other :: Stored(StoreOne(t, abi, relevance), other) <==> Stored(t, other) || other == abi
  {
  }

  /** Ids start at 1, ascend and are not given twice. */
  ghost predicate Numbered(t: Table) {
    Ascending(t.rows) && t.nextId >= 1 && forall row | row in t.rows :: 1 <= row.id < t.nextId
  }

  lemma StoreOneKeepsNumbers(t: Table, abi: Abi, relevance: int)
    requires Numbered(t)
    ensures Numbered(StoreOne(t, abi, relevance))
  {
    forall i | 0 <= i < |t.rows| ensures t.rows[i] in t.rows {
    }
  }

  lemma {:induction false} StoreKeepsNumbers(t: Table, abis: seq<Abi>, relevance: int)
    requires Numbered(t)
    ensures Numbered(Store(t, abis, relevance))
    decreases |abis|
  {
    if abis == [] {
    } else {
      StoreOneKeepsNumbers(t, abis[0], relevance);
      StoreKeepsNumbers(StoreOne(t, abis[0], relevance), abis[1..], relevance);
    }
  }

  lemma {:induction false} StoringStoredChangesNothing(t: Table, abis: seq<Abi>, relevance: int)
    requires forall abi | abi in abis :: Stored(t, abi)
    ensures Store(t, abis, relevance) == t
    decreases |abis|
  {
    if abis == [] {
    } else {
      StoringStoredChangesNothing(t, abis[1..], relevance);
    }
  }

  lemma LoadLocalContent(t: Table, lists: Builtin)
    ensures t.rows <= LoadLocal(t, lists).rows
    ensures forall abi :: Stored(LoadLocal(t, lists), abi) <==>
              Stored(t, abi) || abi in lists.safeContracts || abi in lists.ercAndSafe || abi in lists.thirdParties
    ensures forall row | row in LoadLocal(t, lists).rows ::
              row in t.rows || row.relevance == FirstListRelevance(lists, row.abi)
  {
    var one := Store(t, lists.safeContracts, SAFE_CONTRACTS_RELEVANCE);
    var two := Store(one, lists.ercAndSafe, SAFE_RELEVANCE);
    StoreContent(t, lists.safeContracts, SAFE_CONTRACTS_RELEVANCE);
    StoreContent(one, lists.ercAndSafe, SAFE_RELEVANCE);
    StoreContent(two, lists.thirdParties, THIRD_PARTIES_RELEVANCE);
  }

  /** Running the loader again changes nothing. */
  lemma LoadLocalIsIdempotent(t: Table, lists: Builtin)
    ensures LoadLocal(LoadLocal(t, lists), lists) == LoadLocal(t, lists)
  {
    LoadLocalContent(t, lists);
    var loaded := LoadLocal(t, lists);
    StoringStoredChangesNothing(loaded, lists.safeContracts, SAFE_CONTRACTS_RELEVANCE);
    StoringStoredChangesNothing(loaded, lists.ercAndSafe, SAFE_RELEVANCE);
    StoringStoredChangesNothing(loaded, lists.thirdParties, THIRD_PARTIES_RELEVANCE);
  }

  /** The relevance of the first list that has the ABI. */
  function FirstListRelevance(lists: Builtin, abi: Abi): int {
    if abi in lists.safeContracts then SAFE_CONTRACTS_RELEVANCE
    else if abi in lists.ercAndSafe then SAFE_RELEVANCE
    else THIRD_PARTIES_RELEVANCE
  }

  /** From an empty database: exactly the listed ABIs, each with the relevance of its first list. */
  lemma LoadLocalFromEmpty(lists: Builtin, abi: Abi)
    ensures Stored(LoadLocal(EMPTY_TABLE, lists), abi) <==>
            abi in lists.safeContracts || abi in lists.ercAndSafe || abi in lists.thirdParties
    ensures forall row | row in LoadLocal(EMPTY_TABLE, lists).rows ::
              row.relevance == FirstListRelevance(lists, row.abi)
  {
    LoadLocalContent(EMPTY_TABLE, lists);
  }

  /******* Precedence of the Safe contracts *******/

  /** A stored row does not upset the precedence. */
  predicate RankedRow(lists: Builtin, row: AbiRow) {
    row.relevance >= SAFE_CONTRACTS_RELEVANCE <==> row.abi in lists.safeContracts
  }

  /** Exactly the Safe contract ABIs have the top relevance, and all of them are stored. */
  ghost predicate SafeOnTop(t: Table, lists: Builtin) {
    && (forall row | row in t.rows :: RankedRow(lists, row))
    && forall abi | abi in lists.safeContracts :: Stored(t, abi)
  }

  /** A start-up that nothing interrupts gives the Safe contracts precedence exactly if no row already
      there was misplaced. */
  lemma StartupRanksIff(t: Table, lists: Builtin)
    ensures SafeOnTop(LoadLocal(t, lists), lists) <==> forall row | row in t.rows :: RankedRow(lists, row)
  {
    LoadLocalContent(t, lists);
    forall row | row in t.rows ensures row in LoadLocal(t, lists).rows {
    }
  }

  /** Under that ranking every selector of a Safe contract ABI resolves to a Safe contract ABI,
      whatever the order of ties. */
  lemma SafeSelectorsResolveToSafe(t: Table, lists: Builtin, order: seq<AbiRow>, selector: Bytes, safe: Abi)
    requires SafeOnTop(t, lists)
    requires SelectorIndex.IsRelevanceOrder(RowSet(t.rows), order)
    requires safe in lists.safeContracts && Defines(safe, selector)
    ensures var index := SelectorIndex.LastWins(SelectorIndex.AbisOf(order));
            selector in index && exists abi | abi in lists.safeContracts ::
              Defines(abi, selector) && index[selector] == SelectorMap(abi)[selector]
  {
    var table := RowSet(t.rows);
    assert Stored(t, safe);
    var row :| row in t.rows && row.abi == safe;
    assert RankedRow(lists, row);
    assert SelectorIndex.TableDefines(table, selector);
    SelectorIndex.InitPicksMostRelevant(table, order, selector);
    var abis := SelectorIndex.AbisOf(order);
    var i :| SelectorIndex.ResolvesTo(SelectorIndex.LastWins(abis), selector, abis, i)
             && SelectorIndex.IsMostRelevantDefiner(table, order[i], selector);
    assert RankedRow(lists, order[i]);
    assert order[i].abi in lists.safeContracts;
  }

  predicate SafeDefines(lists: Builtin, selector: Bytes) {
    exists abi | abi in lists.safeContracts :: Defines(abi, selector)
  }

  /** Some Safe contract ABI defines the selector as `fn`. */
  ghost predicate IsSafeFunction(lists: Builtin, selector: Bytes, fn: AbiFunction) {
    exists abi | abi in lists.safeContracts :: Defines(abi, selector) && SelectorMap(abi)[selector] == fn
  }

  ghost predicate ResolvesToSafe(lists: Builtin, selector: Bytes, index: Index) {
    selector in index && IsSafeFunction(lists, selector, index[selector])
  }

  /** In the index of every start, each selector of a Safe contract ABI is resolved to one. */
  ghost predicate SafeWins(t: Table, lists: Builtin) {
    forall selector, order | SafeDefines(lists, selector) && SelectorIndex.IsRelevanceOrder(RowSet(t.rows), order) ::
      ResolvesToSafe(lists, selector, SelectorIndex.LastWins(SelectorIndex.AbisOf(order)))
  }

  /** No row with another function is among the most relevant definers of such a selector. */
  ghost predicate NoRivalOnTop(t: Table, lists: Builtin) {
    forall selector, row |
      SafeDefines(lists, selector) && SelectorIndex.IsMostRelevantDefiner(RowSet(t.rows), row, selector) ::
      IsSafeFunction(lists, selector, SelectorMap(row.abi)[selector])
  }

  /** With all Safe contract ABIs stored, they win their selectors exactly if they have no rival on
      top. */
  lemma SafeWinsIff(t: Table, lists: Builtin)
    requires forall abi | abi in lists.safeContracts :: Stored(t, abi)
    ensures SafeWins(t, lists) <==> NoRivalOnTop(t, lists)
  {
    var table := RowSet(t.rows);
    forall selector | SafeDefines(lists, selector)
      ensures (forall order | SelectorIndex.IsRelevanceOrder(table, order) ::
                 ResolvesToSafe(lists, selector, SelectorIndex.LastWins(SelectorIndex.AbisOf(order))))
              <==> forall row | SelectorIndex.IsMostRelevantDefiner(table, row, selector) ::
                     IsSafeFunction(lists, selector, SelectorMap(row.abi)[selector])
    {
      var safe :| safe in lists.safeContracts && Defines(safe, selector);
      assert Stored(t, safe);
      var row :| row in t.rows && row.abi == safe;
      assert row in table && SelectorIndex.TableDefines(table, selector);
      SelectorIndex.EveryOrderMeetsIff(table, selector, fn => IsSafeFunction(lists, selector, fn));
    }
  }

  /******* Start-ups among downloads *******/

  datatype Planned = Planned(abi: Abi, relevance: int)

  function PlanOf(abis: seq<Abi>, relevance: int): (plan: seq<Planned>)
    ensures |plan| == |abis| && forall i | 0 <= i < |abis| :: plan[i] == Planned(abis[i], relevance)
  {
    seq(|abis|, i requires 0 <= i < |abis| => Planned(abis[i], relevance))
  }

  /** What a start-up stores, in order. */
  function Plan(lists: Builtin): seq<Planned> {
    PlanOf(lists.safeContracts, SAFE_CONTRACTS_RELEVANCE)
    + PlanOf(lists.ercAndSafe, SAFE_RELEVANCE)
    + PlanOf(lists.thirdParties, THIRD_PARTIES_RELEVANCE)
  }

  /** A start-up awaits between looking for an ABI and creating it. If the ABI was stored meanwhile the
      unique constraint makes the start-up fail. */
  datatype Loader = Loading(todo: seq<Planned>, missing: bool) | FailedLoader

  /** Any number of service instances may start on one database. */
  datatype Database = Database(lists: Builtin, table: Table, loaders: seq<Loader>)

  datatype Step = StartUp | Look(i: nat) | Create(i: nat) | Download(abi: Abi)

  predicate Busy(s: Database, i: int) {
    0 <= i < |s.loaders| && s.loaders[i].Loading? && s.loaders[i].todo != []
  }

  predicate Enabled(s: Database, step: Step) {
    match step
    case Look(i) => Busy(s, i) && !s.loaders[i].missing
    case Create(i) => Busy(s, i) && s.loaders[i].missing
    case _ => true
  }

  /** A download inserts at once, and reads the stored ABI if there is one. */
  function Apply(s: Database, step: Step): Database
    requires Enabled(s, step)
  {
    match step
    case StartUp => s.(loaders := s.loaders + [Loading(Plan(s.lists), false)])
    case Look(i) =>
      var todo := s.loaders[i].todo;
      var next := if Stored(s.table, todo[0].abi) then Loading(todo[1..], false) else Loading(todo, true);
      s.(loaders := s.loaders[i := next])
    case Create(i) =>
      var todo := s.loaders[i].todo;
      if Stored(s.table, todo[0].abi) then s.(loaders := s.loaders[i := FailedLoader])
      else
        s.(table := StoreOne(s.table, todo[0].abi, todo[0].relevance),
           loaders := s.loaders[i := Loading(todo[1..], false)])
    case Download(abi) => s.(table := StoreOne(s.table, abi, 0))
  }

  /** A start-up fails exactly if an ABI it found missing has been stored since; the stored row stays. */
  lemma StartUpFailsIff(s: Database, i: nat)
    requires Enabled(s, Create(i))
    ensures var abi, t := s.loaders[i].todo[0].abi, Apply(s, Create(i));
            && (t.loaders[i] == FailedLoader <==> Stored(s.table, abi))
            && (Stored(s.table, abi) ==> t.table == s.table)
            && Stored(t.table, abi)
  {
    StoreOneContent(s.table, s.loaders[i].todo[0].abi, s.loaders[i].todo[0].relevance);
  }

  ghost predicate Initial(s: Database) {
    s.table == EMPTY_TABLE && s.loaders == []
  }

  /** No Safe contract ABI is downloaded before it is stored. */
  ghost predicate LeavesSafe(s: Database, step: Step) {
    step.Download? && step.abi in s.lists.safeContracts ==> Stored(s.table, step.abi)
  }

  /** However start-ups and downloads interleave, ids ascend, so a row is past every earlier one. */
  lemma RunsKeepNumbers(s: Database, steps: seq<Step>)
    requires Numbered(s.table) && IsRun(Apply, s, steps)
    ensures Numbered(Final(Apply, s, steps).table)
  {
    var inv := (t: Database) => Numbered(t.table);
    forall t, step | inv(t) && Enabled(t, step) ensures inv(Apply(t, step)) {
      match step
      case Create(i) => StoreOneKeepsNumbers(t.table, t.loaders[i].todo[0].abi, t.loaders[i].todo[0].relevance);
      case Download(abi) => StoreOneKeepsNumbers(t.table, abi, 0);
      case _ =>
    }
    EveryRunKeeps(Apply, inv, s, steps);
  }

  /** What a loader has yet to store is the rest of the plan, and what came before is stored. */
  ghost predicate OnPlan(s: Database, todo: seq<Planned>) {
    exists k | 0 <= k <= |Plan(s.lists)| ::
      todo == Plan(s.lists)[k..] && forall j | 0 <= j < k :: Stored(s.table, Plan(s.lists)[j].abi)
  }

  ghost predicate LoadersInv(s: Database) {
    forall i | 0 <= i < |s.loaders| && s.loaders[i].Loading? :: OnPlan(s, s.loaders[i].todo)
  }

  lemma StoredStays(s: Database, step: Step, abi: Abi)
    requires Enabled(s, step) && Stored(s.table, abi)
    ensures Stored(Apply(s, step).table, abi)
  {
  }

  lemma NextOnPlan(s: Database, todo: seq<Planned>)
    requires OnPlan(s, todo) && todo != [] && Stored(s.table, todo[0].abi)
    ensures OnPlan(s, todo[1..])
  {
    var k :| 0 <= k <= |Plan(s.lists)| && todo == Plan(s.lists)[k..]
             && forall j | 0 <= j < k :: Stored(s.table, Plan(s.lists)[j].abi);
    assert todo[1..] == Plan(s.lists)[k + 1..];
  }

  lemma OnPlanStays(s: Database, step: Step, todo: seq<Planned>)
    requires Enabled(s, step) && OnPlan(s, todo)
    ensures OnPlan(Apply(s, step), todo)
  {
    var k :| 0 <= k <= |Plan(s.lists)| && todo == Plan(s.lists)[k..]
             && forall j | 0 <= j < k :: Stored(s.table, Plan(s.lists)[j].abi);
    forall j | 0 <= j < k ensures Stored(Apply(s, step).table, Plan(s.lists)[j].abi) {
      StoredStays(s, step, Plan(s.lists)[j].abi);
    }
  }

  lemma StepKeepsLoaders(s: Database, step: Step)
    requires LoadersInv(s) && Enabled(s, step)
    ensures LoadersInv(Apply(s, step))
  {
    var t := Apply(s, step);
    forall i | 0 <= i < |t.loaders| && t.loaders[i].Loading? ensures OnPlan(t, t.loaders[i].todo) {
      if i < |s.loaders| {
        OnPlanStays(s, step, s.loaders[i].todo);
        if t.loaders[i].todo != s.loaders[i].todo {
          NextOnPlan(t, s.loaders[i].todo);
        }
      } else {
        assert t.loaders[i].todo == Plan(t.lists)[0..];
      }
    }
  }

  /** The plan begins with the Safe contracts, and they alone have the top relevance. */
  lemma PlanBeginsWithSafe(lists: Builtin)
    ensures var plan, safe := Plan(lists), lists.safeContracts;
            && |plan| >= |safe|
            && (forall j | 0 <= j < |safe| :: plan[j] == Planned(safe[j], SAFE_CONTRACTS_RELEVANCE))
            && forall j | |safe| <= j < |plan| :: plan[j].relevance < SAFE_CONTRACTS_RELEVANCE
  {
  }

  /** An ABI that comes up and is missing is in no earlier list. */
  lemma PlannedRank(s: Database, todo: seq<Planned>)
    requires OnPlan(s, todo) && todo != [] && !Stored(s.table, todo[0].abi)
    ensures todo[0].relevance >= SAFE_CONTRACTS_RELEVANCE <==> todo[0].abi in s.lists.safeContracts
  {
    var plan, safe := Plan(s.lists), s.lists.safeContracts;
    var k :| 0 <= k <= |plan| && todo == plan[k..] && forall j | 0 <= j < k :: Stored(s.table, plan[j].abi);
    PlanBeginsWithSafe(s.lists);
    assert todo[0] == plan[k];
    if todo[0].abi in safe {
      var j :| 0 <= j < |safe| && safe[j] == todo[0].abi;
      assert plan[j].abi == safe[j];
    }
  }

  ghost predicate AllRanked(s: Database) {
    forall row | row in s.table.rows :: RankedRow(s.lists, row)
  }

  /** Only a download can misplace a row, and exactly one that takes a missing Safe contract ABI does;
      a misplaced row stays. */
  lemma StaysRankedIff(s: Database, step: Step)
    requires LoadersInv(s) && Enabled(s, step)
    ensures AllRanked(Apply(s, step)) <==> AllRanked(s) && LeavesSafe(s, step)
  {
    var t := Apply(s, step);
    assert forall row | row in s.table.rows :: row in t.table.rows;
    match step
    case Create(i) =>
      if !Stored(s.table, s.loaders[i].todo[0].abi) {
        PlannedRank(s, s.loaders[i].todo);
      }
    case Download(abi) =>
      if !Stored(s.table, abi) {
        assert AbiRow(s.table.nextId, 0, abi) in t.table.rows;
      }
    case _ =>
  }

  /** However start-ups and downloads interleave on a new database: once a start-up has come through,
      the Safe contracts are on top exactly if none of their ABIs was downloaded before its own
      store. */
  lemma SafeOnTopIff(s: Database, steps: seq<Step>)
    requires Initial(s) && IsRun(Apply, s, steps)
    requires SomeStarted(Final(Apply, s, steps))
    ensures SafeOnTop(Final(Apply, s, steps).table, s.lists) <==> Along(Apply, LeavesSafe, s, steps)
  {
    var inv := t => LoadersInv(t) && t.lists == s.lists;
    forall t, step | inv(t) && Enabled(t, step)
      ensures inv(Apply(t, step))
      ensures AllRanked(Apply(t, step)) <==> AllRanked(t) && LeavesSafe(t, step)
    {
      StepKeepsLoaders(t, step);
      StaysRankedIff(t, step);
    }
    HoldsIffAlong(Apply, LeavesSafe, inv, AllRanked, s, steps);
    EveryRunKeeps(Apply, inv, s, steps);
    SafeIsStored(s, steps);
  }

  lemma AllSafeStored(s: Database, i: nat)
    requires LoadersInv(s) && i < |s.loaders| && s.loaders[i] == Loading([], false)
    ensures forall abi | abi in s.lists.safeContracts :: Stored(s.table, abi)
  {
    var plan, safe := Plan(s.lists), s.lists.safeContracts;
    assert OnPlan(s, []);
    PlanBeginsWithSafe(s.lists);
    forall abi | abi in safe ensures Stored(s.table, abi) {
      var j :| 0 <= j < |safe| && safe[j] == abi;
      assert plan[j].abi == safe[j];
    }
  }

  /** A start-up that has come through. */
  ghost predicate SomeStarted(s: Database) {
    exists i :: 0 <= i < |s.loaders| && s.loaders[i] == Loading([], false)
  }

  /** End to end, however start-ups and downloads interleave: once a start-up has come through, the
      Safe contracts win their selectors in the index of every later start exactly if they have no
      rival on top; and if none of their ABIs was downloaded before its own store they do. */
  lemma SafeWinsInRunsIff(s: Database, steps: seq<Step>)
    requires Initial(s) && IsRun(Apply, s, steps) && SomeStarted(Final(Apply, s, steps))
    ensures SafeWins(Final(Apply, s, steps).table, s.lists) <==> NoRivalOnTop(Final(Apply, s, steps).table, s.lists)
    ensures Along(Apply, LeavesSafe, s, steps) ==> SafeWins(Final(Apply, s, steps).table, s.lists)
  {
    var t := Final(Apply, s, steps);
    SafeIsStored(s, steps);
    SafeWinsIff(t.table, s.lists);
    if Along(Apply, LeavesSafe, s, steps) {
      SafeOnTopIff(s, steps);
      forall selector, order |
        SafeDefines(s.lists, selector) && SelectorIndex.IsRelevanceOrder(RowSet(t.table.rows), order)
        ensures ResolvesToSafe(s.lists, selector, SelectorIndex.LastWins(SelectorIndex.AbisOf(order)))
      {
        var safe :| safe in s.lists.safeContracts && Defines(safe, selector);
        SafeSelectorsResolveToSafe(t.table, s.lists, order, selector, safe);
      }
    }
  }

  /** In every run whatsoever, one Safe contract ABI that kept its relevance decides its selectors, taken
      ones beside it or not. */
  lemma KeptSafeDecides(s: Database, steps: seq<Step>, row: AbiRow, selector: Bytes, order: seq<AbiRow>)
    requires Initial(s) && IsRun(Apply, s, steps)
    requires row in Final(Apply, s, steps).table.rows && row.relevance >= SAFE_CONTRACTS_RELEVANCE
    requires Defines(row.abi, selector)
    requires SelectorIndex.IsRelevanceOrder(RowSet(Final(Apply, s, steps).table.rows), order)
    ensures ResolvesToSafe(s.lists, selector, SelectorIndex.LastWins(SelectorIndex.AbisOf(order)))
  {
    var inv := t => LoadersInv(t) && t.lists == s.lists && HighRowsAreSafe(t);
    forall t, step | inv(t) && Enabled(t, step) ensures inv(Apply(t, step)) {
      StepKeepsLoaders(t, step);
      if step.Create? && !Stored(t.table, t.loaders[step.i].todo[0].abi) {
        PlannedRank(t, t.loaders[step.i].todo);
      }
    }
    EveryRunKeeps(Apply, inv, s, steps);
    var table := RowSet(Final(Apply, s, steps).table.rows);
    assert row in table && SelectorIndex.TableDefines(table, selector);
    SelectorIndex.InitPicksMostRelevant(table, order, selector);
  }

  ghost predicate HighRowsAreSafe(s: Database) {
    forall row | row in s.table.rows :: row.relevance >= SAFE_CONTRACTS_RELEVANCE ==> row.abi in s.lists.safeContracts
  }

  /** A download that takes the only built-in ABI costs it nothing. */
  lemma TakenSafeMayWin(safe: Abi) returns (s: Database, steps: seq<Step>)
    ensures Initial(s) && IsRun(Apply, s, steps) && SomeStarted(Final(Apply, s, steps))
    ensures !Along(Apply, LeavesSafe, s, steps) && SafeWins(Final(Apply, s, steps).table, s.lists)
  {
    s := Database(Builtin([safe], [], []), EMPTY_TABLE, []);
    var t := Apply(s, Download(safe));
    var low := AbiRow(1, 0, safe);
    assert t.table == Table([low], 2) && low in t.table.rows && Stored(t.table, safe);
    OneStep(Apply, s, Download(safe));
    var rest := StartUpAlone(t);
    Append(Apply, s, [Download(safe)], rest);
    steps := [Download(safe)] + rest;
    StoringStoredChangesNothing(t.table, [safe], SAFE_CONTRACTS_RELEVANCE);
    var u := Final(Apply, s, steps);
    assert u.table == t.table && u.loaders == [Loading([], false)];
    assert u.loaders[0] == Loading([], false);
    assert RowSet(u.table.rows) == {low};
    SafeWinsIff(u.table, s.lists);
  }

  lemma SafeIsStored(s: Database, steps: seq<Step>)
    requires Initial(s) && IsRun(Apply, s, steps) && SomeStarted(Final(Apply, s, steps))
    ensures forall abi | abi in s.lists.safeContracts :: Stored(Final(Apply, s, steps).table, abi)
  {
    var inv := t => LoadersInv(t) && t.lists == s.lists;
    forall t, step | inv(t) && Enabled(t, step) ensures inv(Apply(t, step)) {
      StepKeepsLoaders(t, step);
    }
    EveryRunKeeps(Apply, inv, s, steps);
    var t := Final(Apply, s, steps);
    var i :| 0 <= i < |t.loaders| && t.loaders[i] == Loading([], false);
    AllSafeStored(t, i);
  }

  /** Once on top they stay there, whatever start-ups and downloads follow. */
  lemma SafeStaysOnTop(s: Database, before: seq<Step>, after: seq<Step>)
    requires Initial(s) && IsRun(Apply, s, before) && SafeOnTop(Final(Apply, s, before).table, s.lists)
    requires IsRun(Apply, Final(Apply, s, before), after)
    ensures SafeOnTop(Final(Apply, Final(Apply, s, before), after).table, s.lists)
  {
    var loaded := t => LoadersInv(t) && t.lists == s.lists;
    forall t, step | loaded(t) && Enabled(t, step) ensures loaded(Apply(t, step)) {
      StepKeepsLoaders(t, step);
    }
    EveryRunKeeps(Apply, loaded, s, before);
    var onTop := t => loaded(t) && SafeOnTop(t.table, s.lists);
    forall t, step | onTop(t) && Enabled(t, step) ensures onTop(Apply(t, step)) {
      StepKeepsLoaders(t, step);
      StaysRankedIff(t, step);
      forall abi | abi in s.lists.safeContracts ensures Stored(Apply(t, step).table, abi) {
        StoredStays(t, step, abi);
      }
    }
    EveryRunKeeps(Apply, onTop, Final(Apply, s, before), after);
  }

  /******* A start-up by itself *******/

  function StorePlan(t: Table, plan: seq<Planned>): Table
    decreases |plan|
  {
    if plan == [] then t else StorePlan(StoreOne(t, plan[0].abi, plan[0].relevance), plan[1..])
  }

  lemma {:induction false} StorePlanAppend(t: Table, abis: seq<Abi>, relevance: int, rest: seq<Planned>)
    ensures StorePlan(t, PlanOf(abis, relevance) + rest) == StorePlan(Store(t, abis, relevance), rest)
    decreases |abis|
  {
    var plan := PlanOf(abis, relevance) + rest;
    if abis == [] {
      assert plan == rest;
    } else {
      assert plan[1..] == PlanOf(abis[1..], relevance) + rest;
      StorePlanAppend(StoreOne(t, abis[0], relevance), abis[1..], relevance, rest);
    }
  }

  lemma StorePlanIsLoadLocal(t: Table, lists: Builtin)
    ensures StorePlan(t, Plan(lists)) == LoadLocal(t, lists)
  {
    var erc, third := PlanOf(lists.ercAndSafe, SAFE_RELEVANCE), PlanOf(lists.thirdParties, THIRD_PARTIES_RELEVANCE);
    var one := Store(t, lists.safeContracts, SAFE_CONTRACTS_RELEVANCE);
    StorePlanAppend(t, lists.safeContracts, SAFE_CONTRACTS_RELEVANCE, erc + third);
    StorePlanAppend(one, lists.ercAndSafe, SAFE_RELEVANCE, third);
    StorePlanAppend(Store(one, lists.ercAndSafe, SAFE_RELEVANCE), lists.thirdParties, THIRD_PARTIES_RELEVANCE, []);
    assert Plan(lists) == PlanOf(lists.safeContracts, SAFE_CONTRACTS_RELEVANCE) + (erc + third);
    assert third + [] == third;
  }

  /** A loader that nobody interrupts stores what it has to do. */
  lemma {:induction false} LoaderAlone(s: Database, i: nat) returns (steps: seq<Step>)
    requires i < |s.loaders| && s.loaders[i].Loading? && !s.loaders[i].missing
    ensures IsRun(Apply, s, steps)
    ensures Final(Apply, s, steps)
            == s.(table := StorePlan(s.table, s.loaders[i].todo), loaders := s.loaders[i := Loading([], false)])
    decreases |s.loaders[i].todo|
  {
    var todo := s.loaders[i].todo;
    if todo == [] {
      steps := [];
    } else {
      var t := Apply(s, Look(i));
      OneStep(Apply, s, Look(i));
      steps := [Look(i)];
      if !Stored(s.table, todo[0].abi) {
        t := Apply(t, Create(i));
        Extend(Apply, s, steps, Create(i));
        steps := steps + [Create(i)];
      }
      var rest := LoaderAlone(t, i);
      Append(Apply, s, steps, rest);
      steps := steps + rest;
    }
  }

  /** Left alone, the steps of a start-up do what the method `LoadLocalAbisInDatabase` promises. */
  lemma StartUpAlone(s: Database) returns (steps: seq<Step>)
    ensures IsRun(Apply, s, steps)
    ensures Final(Apply, s, steps)
            == s.(table := LoadLocal(s.table, s.lists), loaders := s.loaders + [Loading([], false)])
  {
    var t := Apply(s, StartUp);
    OneStep(Apply, s, StartUp);
    steps := LoaderAlone(t, |s.loaders|);
    Append(Apply, s, [StartUp], steps);
    steps := [StartUp] + steps;
    StorePlanIsLoadLocal(s.table, s.lists);
  }

  /******* A Safe contract ABI that was downloaded first *******/

  /** A Safe contract ABI that is downloaded before it is stored leaves the Safe contracts off the top
      for ever, whatever start-ups had come through or follow. */
  lemma TakenSafeStaysLow(s: Database, abi: Abi, steps: seq<Step>)
    requires LoadersInv(s) && !LeavesSafe(s, Download(abi)) && IsRun(Apply, Apply(s, Download(abi)), steps)
    ensures !SafeOnTop(Final(Apply, Apply(s, Download(abi)), steps).table, s.lists)
  {
    var low := AbiRow(s.table.nextId, 0, abi);
    var inv := (t: Database) => low in t.table.rows && t.lists == s.lists;
    forall t, step | inv(t) && Enabled(t, step) ensures inv(Apply(t, step)) {
    }
    EveryRunKeeps(Apply, inv, Apply(s, Download(abi)), steps);
    assert !RankedRow(s.lists, low);
  }

  /** A selector that a low row shares with a higher one is resolved to an ABI above the low row. */
  lemma HigherRowWins(rows: seq<AbiRow>, low: AbiRow, high: AbiRow, selector: Bytes, order: seq<AbiRow>)
    requires low in rows && high in rows && low.relevance < high.relevance
    requires Defines(low.abi, selector) && Defines(high.abi, selector)
    requires SelectorIndex.IsRelevanceOrder(RowSet(rows), order)
    ensures var index := SelectorIndex.LastWins(SelectorIndex.AbisOf(order));
            selector in index && exists row | row in rows && row.relevance > low.relevance ::
              Defines(row.abi, selector) && index[selector] == SelectorMap(row.abi)[selector]
  {
    var table := RowSet(rows);
    assert high in table;
    assert SelectorIndex.TableDefines(table, selector);
    SelectorIndex.InitPicksMostRelevant(table, order, selector);
    var abis := SelectorIndex.AbisOf(order);
    var i :| SelectorIndex.ResolvesTo(SelectorIndex.LastWins(abis), selector, abis, i)
             && SelectorIndex.IsMostRelevantDefiner(table, order[i], selector);
    assert order[i] in rows;
  }

  /** A Safe contract ABI downloaded before the first start-up: another built-in ABI takes the selectors
      they share. */
  lemma DownloadBeforeStartupLosesPrecedence(safe: Abi, other: Abi, selector: Bytes, order: seq<AbiRow>)
    requires safe != other && Defines(safe, selector) && Defines(other, selector)
    requires SelectorIndex.IsRelevanceOrder(
               RowSet(LoadLocal(StoreOne(EMPTY_TABLE, safe, 0), Builtin([safe], [other], [])).rows), order)
    ensures var lists := Builtin([safe], [other], []);
            !SafeOnTop(LoadLocal(StoreOne(EMPTY_TABLE, safe, 0), lists), lists)
    ensures var index := SelectorIndex.LastWins(SelectorIndex.AbisOf(order));
            selector in index && index[selector] == SelectorMap(other)[selector]
  {
    var t := StoreOne(EMPTY_TABLE, safe, 0);
    assert t == Table([AbiRow(1, 0, safe)], 2);
    assert t.rows[0] in t.rows;
    assert Store(t, [safe], SAFE_CONTRACTS_RELEVANCE) == Store(t, [], SAFE_CONTRACTS_RELEVANCE) == t;
    assert !Stored(t, other);
    var low, high := AbiRow(1, 0, safe), AbiRow(2, 90, other);
    var both := Table([low, high], 3);
    assert Store(t, [other], SAFE_RELEVANCE) == Store(both, [], SAFE_RELEVANCE) == both;
    assert low in [low, high] && !RankedRow(Builtin([safe], [other], []), low);
    HigherRowWins([low, high], low, high, selector, order);
  }

  /** Between two stores of the first start-up is early enough. */
  lemma DownloadDuringStartupLosesPrecedence(first: Abi, safe: Abi, other: Abi, selector: Bytes, order: seq<AbiRow>)
    returns (s: Database, steps: seq<Step>)
    requires first != safe && first != other && safe != other
    requires !Defines(first, selector) && Defines(safe, selector) && Defines(other, selector)
    ensures Initial(s) && IsRun(Apply, s, steps) && steps != [] && steps[0] == StartUp
    ensures s.lists == Builtin([first, safe], [other], [])
    ensures Final(Apply, s, steps).loaders == [Loading([], false)]
    ensures SelectorIndex.IsRelevanceOrder(RowSet(Final(Apply, s, steps).table.rows), order) ==>
              var index := SelectorIndex.LastWins(SelectorIndex.AbisOf(order));
              selector in index && index[selector] == SelectorMap(other)[selector]
  {
    s := Database(Builtin([first, safe], [other], []), EMPTY_TABLE, []);
    steps := InterruptedStartUp(first, safe, other);
    var rows := AfterInterruption(first, safe, other).rows;
    assert Final(Apply, s, steps).table.rows == rows;
    if SelectorIndex.IsRelevanceOrder(RowSet(rows), order) {
      HigherRowWins(rows, rows[1], rows[2], selector, order);
    }
  }

  function AfterInterruption(first: Abi, safe: Abi, other: Abi): Table {
    Table([AbiRow(1, 100, first), AbiRow(2, 0, safe), AbiRow(3, 90, other)], 4)
  }

  lemma InterruptedStartUp(first: Abi, safe: Abi, other: Abi) returns (steps: seq<Step>)
    requires first != safe && first != other && safe != other
    ensures var s := Database(Builtin([first, safe], [other], []), EMPTY_TABLE, []);
            && IsRun(Apply, s, steps) && steps != [] && steps[0] == StartUp
            && Final(Apply, s, steps)
               == s.(table := AfterInterruption(first, safe, other), loaders := [Loading([], false)])
  {
    var s := Database(Builtin([first, safe], [other], []), EMPTY_TABLE, []);
    var plan := [Planned(first, 100), Planned(safe, 100), Planned(other, 90)];
    assert Plan(s.lists) == plan;
    var taken := Table([AbiRow(1, 100, first), AbiRow(2, 0, safe)], 3);
    var s1 := s.(loaders := [Loading(plan, false)]);
    var s2 := s.(loaders := [Loading(plan, true)]);
    var s3 := s.(table := Table([AbiRow(1, 100, first)], 2), loaders := [Loading(plan[1..], false)]);
    var s4 := s3.(table := taken);
    assert s1 == Apply(s, StartUp) && s2 == Apply(s1, Look(0)) && s3 == Apply(s2, Create(0));
    assert s4 == Apply(s3, Download(safe));
    steps := [StartUp, Look(0), Create(0), Download(safe)];
    Unfold(Apply, [s, s1, s2, s3, s4], steps);
    var rest := LoaderAlone(s4, 0);
    Append(Apply, s, steps, rest);
    steps := steps + rest;
    StoreRemaining(first, safe, other);
    assert plan[1..] == [Planned(safe, 100), Planned(other, 90)];
  }

  lemma StoreRemaining(first: Abi, safe: Abi, other: Abi)
    requires first != safe && first != other && safe != other
    ensures StorePlan(Table([AbiRow(1, 100, first), AbiRow(2, 0, safe)], 3), [Planned(safe, 100), Planned(other, 90)])
            == AfterInterruption(first, safe, other)
  {
    var taken := Table([AbiRow(1, 100, first), AbiRow(2, 0, safe)], 3);
    assert taken.rows[1] in taken.rows && !Stored(taken, other);
    assert [Planned(safe, 100), Planned(other, 90)][1..] == [Planned(other, 90)];
    assert StorePlan(taken, [Planned(other, 90)]) == StorePlan(AfterInterruption(first, safe, other), []);
  }
}
