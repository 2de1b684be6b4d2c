/**
 The index over every ABI of the database: built with the last ABI winning, then extended with
 the first ABI winning. The two merges are specified here and related to each other.
 */
module SelectorIndex {
  import opened Encoding
  import opened Abis

  /** The index `init` builds from a stream of ABIs: a later ABI overwrites. */
  function LastWins(abis: seq<Abi>): Index {
    if abis == [] then map[]
    else LastWins(abis[..|abis| - 1]) + SelectorMap(abis[|abis| - 1])
  }

  /** `add_abi`: only selectors that are not yet keys are added. */
  function AddAbi(index: Index, abi: Abi): Index {
    SelectorMap(abi) + index
  }

  predicate AddsKey(index: Index, abi: Abi) {
    exists selector | selector in SelectorMap(abi) :: selector !in index
  }

  function LoadAll(index: Index, abis: seq<Abi>): Index {
    if abis == [] then index
    else AddAbi(LoadAll(index, abis[..|abis| - 1]), abis[|abis| - 1])
  }

  /** How many of the loaded ABIs added at least one key. */
  function LoadCount(index: Index, abis: seq<Abi>): nat {
    if abis == [] then 0
    else
      var n := |abis| - 1;
      LoadCount(index, abis[..n]) + if AddsKey(LoadAll(index, abis[..n]), abis[n]) then 1 else 0
  }

  ghost predicate IsFirstDefiner(abis: seq<Abi>, i: int, selector: Bytes) {
    0 <= i < |abis| && Defines(abis[i], selector) && forall j | 0 <= j < i :: !Defines(abis[j], selector)
  }

  ghost predicate IsLastDefiner(abis: seq<Abi>, i: int, selector: Bytes) {
    0 <= i < |abis| && Defines(abis[i], selector) && forall j | i < j < |abis| :: !Defines(abis[j], selector)
  }

  ghost predicate SomeDefines(abis: seq<Abi>, selector: Bytes) {
    exists abi | abi in abis :: Defines(abi, selector)
  }

  /******* What the two merges contain *******/

  /** `index` maps the selector to what the `i`-th ABI defines for it. */
  ghost predicate ResolvesTo(index: Index, selector: Bytes, abis: seq<Abi>, i: int) {
    && 0 <= i < |abis| && selector in index && Defines(abis[i], selector)
    && index[selector] == SelectorMap(abis[i])[selector]
  }

  lemma {:induction false} LastWinsContent(abis: seq<Abi>, selector: Bytes)
    ensures selector in LastWins(abis) <==> exists i :: IsLastDefiner(abis, i, selector)
    ensures forall i | IsLastDefiner(abis, i, selector) :: ResolvesTo(LastWins(abis), selector, abis, i)
  {
    if abis == [] {
    } else {
      var n := |abis| - 1;
      var init := abis[..n];
      LastWinsContent(init, selector);
      if Defines(abis[n], selector) {
        assert IsLastDefiner(abis, n, selector);
      } else {
        forall i ensures IsLastDefiner(abis, i, selector) <==> IsLastDefiner(init, i, selector) {
        }
      }
    }
  }

  lemma {:induction false} LoadAllContent(index: Index, abis: seq<Abi>, selector: Bytes)
    ensures selector in LoadAll(index, abis) <==>
            selector in index || exists i :: IsFirstDefiner(abis, i, selector)
    ensures selector in index ==> LoadAll(index, abis)[selector] == index[selector]
    ensures selector !in index ==>
              forall i | IsFirstDefiner(abis, i, selector) ::
                ResolvesTo(LoadAll(index, abis), selector, abis, i)
  {
    if abis == [] {
    } else {
      var n := |abis| - 1;
      var init := abis[..n];
      LoadAllContent(index, init, selector);
      forall i | i != n ensures IsFirstDefiner(abis, i, selector) <==> IsFirstDefiner(init, i, selector) {
      }
      if Defines(abis[n], selector) && !IsFirstDefiner(abis, n, selector) {
        SomeDefinerIsFirst(init, selector);
      }
    }
  }

  lemma {:induction false} SomeDefinerIsFirst(abis: seq<Abi>, selector: Bytes)
    ensures SomeDefines(abis, selector) <==> exists i :: IsFirstDefiner(abis, i, selector)
  {
    if abis == [] {
    } else {
      var n := |abis| - 1;
      SomeDefinerIsFirst(abis[..n], selector);
      assert abis == abis[..n] + [abis[n]];
      if i :| IsFirstDefiner(abis[..n], i, selector) {
        assert IsFirstDefiner(abis, i, selector);
      } else if Defines(abis[n], selector) {
        assert forall j | 0 <= j < n :: abis[j] in abis[..n];
        assert IsFirstDefiner(abis, n, selector);
      }
    }
  }

  lemma {:induction false} SomeDefinerIsLast(abis: seq<Abi>, selector: Bytes)
    ensures SomeDefines(abis, selector) <==> exists i :: IsLastDefiner(abis, i, selector)
  {
    if abis == [] {
    } else {
      var n := |abis| - 1;
      SomeDefinerIsLast(abis[..n], selector);
      assert abis == abis[..n] + [abis[n]];
      if Defines(abis[n], selector) {
        assert IsLastDefiner(abis, n, selector);
      } else if i :| IsLastDefiner(abis[..n], i, selector) {
        assert IsLastDefiner(abis, i, selector);
      }
    }
  }

  /** `after` holds the entries of `before`, and for each selector that only the ABIs define what the
      first of them defines. */
  ghost predicate ExtendsFirstWins(before: Index, abis: seq<Abi>, after: Index) {
    forall selector ::
      && (selector in after <==> selector in before || SomeDefines(abis, selector))
      && (selector in before ==> after[selector] == before[selector])
      && (selector !in before ==> forall i | IsFirstDefiner(abis, i, selector) :: ResolvesTo(after, selector, abis, i))
  }

  lemma LoadAllExtends(index: Index, abis: seq<Abi>)
    ensures ExtendsFirstWins(index, abis, LoadAll(index, abis))
  {
    forall selector
      ensures var after := LoadAll(index, abis);
              && (selector in after <==> selector in index || SomeDefines(abis, selector))
              && (selector in index ==> after[selector] == index[selector])
              && (selector !in index ==>
                    forall i | IsFirstDefiner(abis, i, selector) :: ResolvesTo(after, selector, abis, i))
    {
      LoadAllContent(index, abis, selector);
      SomeDefinerIsFirst(abis, selector);
    }
  }

  /** No load ever changes or removes an existing entry. */
  lemma LoadKeepsEntries(index: Index, abis: seq<Abi>)
    ensures index.Keys <= LoadAll(index, abis).Keys
    ensures forall selector | selector in index :: LoadAll(index, abis)[selector] == index[selector]
  {
  }

  /** The count is zero exactly when the load changed nothing. */
  lemma {:induction false} LoadCountZeroIff(index: Index, abis: seq<Abi>)
    ensures LoadCount(index, abis) == 0 <==> LoadAll(index, abis) == index
  {
    if abis == [] {
    } else {
      var n := |abis| - 1;
      var before := LoadAll(index, abis[..n]);
      LoadCountZeroIff(index, abis[..n]);
      LoadKeepsEntries(index, abis[..n]);
      if AddsKey(before, abis[n]) {
        var selector :| selector in SelectorMap(abis[n]) && selector !in before;
        assert selector in LoadAll(index, abis) && selector !in index;
      } else {
        assert AddAbi(before, abis[n]) == before;
      }
    }
  }

  /** The ABI is the first of the load to define some selector that was missing before. */
  ghost predicate AddsAt(index: Index, abis: seq<Abi>, i: int) {
    exists selector :: selector !in index && IsFirstDefiner(abis, i, selector)
  }

  ghost function Adders(index: Index, abis: seq<Abi>): set<int> {
    set i | 0 <= i < |abis| && AddsAt(index, abis, i)
  }

  lemma LastAddsIff(index: Index, abis: seq<Abi>)
    requires abis != []
    ensures var n := |abis| - 1;
            AddsKey(LoadAll(index, abis[..n]), abis[n]) <==> AddsAt(index, abis, n)
  {
    var n := |abis| - 1;
    var init := abis[..n];
    forall selector | Defines(abis[n], selector)
      ensures selector !in LoadAll(index, init) <==> selector !in index && IsFirstDefiner(abis, n, selector)
    {
      LoadAllContent(index, init, selector);
      SomeDefinerIsFirst(init, selector);
      assert forall j | 0 <= j < n :: abis[j] in init;
    }
  }

  lemma EarlierAdder(index: Index, abis: seq<Abi>, i: nat)
    requires abis != [] && i < |abis| - 1
    ensures AddsAt(index, abis, i) <==> AddsAt(index, abis[..|abis| - 1], i)
  {
    forall selector ensures IsFirstDefiner(abis, i, selector) <==> IsFirstDefiner(abis[..|abis| - 1], i, selector) {
    }
  }

  lemma AddersStep(index: Index, abis: seq<Abi>)
    requires abis != []
    ensures var n := |abis| - 1;
            Adders(index, abis) ==
            Adders(index, abis[..n]) + if AddsAt(index, abis, n) then {n} else {}
  {
    forall i: nat | i < |abis| - 1 ensures AddsAt(index, abis, i) <==> AddsAt(index, abis[..|abis| - 1], i) {
      EarlierAdder(index, abis, i);
    }
  }

  /** The count is the number of ABIs that define a selector neither the index nor an earlier ABI of
      the load defines. */
  lemma {:induction false} LoadCountIsAdders(index: Index, abis: seq<Abi>)
    ensures LoadCount(index, abis) == |Adders(index, abis)|
  {
    if abis == [] {
    } else {
      LoadCountIsAdders(index, abis[..|abis| - 1]);
      LastAddsIff(index, abis);
      AddersStep(index, abis);
    }
  }

  /******* Relevance *******/

  function AbisOf(rows: seq<AbiRow>): (abis: seq<Abi>)
    ensures |abis| == |rows| && forall i | 0 <= i < |rows| :: abis[i] == rows[i].abi
  {
    seq(|rows|, i requires 0 <= i < |rows| => rows[i].abi)
  }

  /** `ORDER BY relevance` leaves ties in any order. */
  ghost predicate IsRelevanceOrder(table: set<AbiRow>, order: seq<AbiRow>) {
    && (forall row :: row in order <==> row in table)
    && forall i, j | 0 <= i < j < |order| :: order[i].relevance <= order[j].relevance
  }

  ghost predicate IsMostRelevantDefiner(table: set<AbiRow>, row: AbiRow, selector: Bytes) {
    && row in table && Defines(row.abi, selector)
    && forall other | other in table && Defines(other.abi, selector) :: other.relevance <= row.relevance
  }

  ghost predicate IsLeastRelevantDefiner(table: set<AbiRow>, row: AbiRow, selector: Bytes) {
    && row in table && Defines(row.abi, selector)
    && forall other | other in table && Defines(other.abi, selector) :: row.relevance <= other.relevance
  }

  ghost predicate TableDefines(table: set<AbiRow>, selector: Bytes) {
    exists row | row in table :: Defines(row.abi, selector)
  }

  lemma OrderDefinesWhatTableDefines(table: set<AbiRow>, order: seq<AbiRow>, selector: Bytes)
    requires forall row :: row in order <==> row in table
    ensures SomeDefines(AbisOf(order), selector) <==> TableDefines(table, selector)
  {
  }

  /** Whatever the order of ties, the built index holds exactly the selectors of the table, each
      resolved to an ABI of the greatest relevance among those that define it. */
  lemma InitPicksMostRelevant(table: set<AbiRow>, order: seq<AbiRow>, selector: Bytes)
    requires IsRelevanceOrder(table, order)
    ensures selector in LastWins(AbisOf(order)) <==> TableDefines(table, selector)
    ensures selector in LastWins(AbisOf(order)) ==>
              exists i :: ResolvesTo(LastWins(AbisOf(order)), selector, AbisOf(order), i)
                          && IsMostRelevantDefiner(table, order[i], selector)
  {
    var abis := AbisOf(order);
    LastWinsContent(abis, selector);
    SomeDefinerIsLast(abis, selector);
    OrderDefinesWhatTableDefines(table, order, selector);
    if selector in LastWins(abis) {
      var i :| IsLastDefiner(abis, i, selector);
      assert ResolvesTo(LastWins(abis), selector, abis, i);
      forall other | other in table && Defines(other.abi, selector)
        ensures other.relevance <= order[i].relevance
      {
        var j :| 0 <= j < |order| && order[j] == other;
        assert Defines(abis[j], selector);
      }
    }
  }

  /** Every row comes last among its ties in some order the query may give. */
  ghost predicate ComesLastAt(order: seq<AbiRow>, i: int, row: AbiRow) {
    0 <= i < |order| && order[i] == row && forall j | i < j < |order| :: order[j].relevance > row.relevance
  }

  lemma {:induction false} MostRelevantRow(table: set<AbiRow>) returns (top: AbiRow)
    requires table != {}
    ensures top in table && forall row | row in table :: row.relevance <= top.relevance
    decreases table
  {
    top :| top in table;
    if table != {top} {
      var other := MostRelevantRow(table - {top});
      if other.relevance > top.relevance {
        top := other;
      }
    }
  }

  lemma {:induction false} OrderWithRowLast(table: set<AbiRow>, row: AbiRow) returns (order: seq<AbiRow>, i: nat)
    requires row in table
    ensures IsRelevanceOrder(table, order) && |order| == |table| && ComesLastAt(order, i, row)
    decreases table
  {
    if table == {row} {
      order, i := [row], 0;
    } else {
      var top := MostRelevantRow(table - {row});
      if top.relevance > row.relevance {
        var rest;
        rest, i := OrderWithRowLast(table - {top}, row);
        order := rest + [top];
      } else {
        var rest, k := OrderWithRowLast(table - {row}, top);
        order, i := rest + [row], |rest|;
      }
    }
  }

  /** A most relevant definer decides the selector in some order. */
  lemma SomeOrderPicks(table: set<AbiRow>, row: AbiRow, selector: Bytes) returns (order: seq<AbiRow>)
    requires IsMostRelevantDefiner(table, row, selector)
    ensures IsRelevanceOrder(table, order) && |order| == |table|
    ensures selector in LastWins(AbisOf(order)) && LastWins(AbisOf(order))[selector] == SelectorMap(row.abi)[selector]
  {
    var i;
    order, i := OrderWithRowLast(table, row);
    var abis := AbisOf(order);
    LastWinsContent(abis, selector);
    assert IsLastDefiner(abis, i, selector) by {
      forall j | i < j < |abis| ensures !Defines(abis[j], selector) {
        assert order[j] in order && abis[j] == order[j].abi;
      }
    }
    assert ResolvesTo(LastWins(abis), selector, abis, i);
  }

  /** The function a built index gives a selector, whatever the order of ties, meets a property exactly
      if the definitions of all most relevant rows do. */
  lemma EveryOrderMeetsIff(table: set<AbiRow>, selector: Bytes, good: AbiFunction -> bool)
    requires TableDefines(table, selector)
    ensures (forall order | IsRelevanceOrder(table, order) ::
               selector in LastWins(AbisOf(order)) && good(LastWins(AbisOf(order))[selector]))
            <==> forall row | IsMostRelevantDefiner(table, row, selector) :: good(SelectorMap(row.abi)[selector])
  {
    if forall row | IsMostRelevantDefiner(table, row, selector) :: good(SelectorMap(row.abi)[selector]) {
      forall order | IsRelevanceOrder(table, order)
        ensures selector in LastWins(AbisOf(order)) && good(LastWins(AbisOf(order))[selector])
      {
        InitPicksMostRelevant(table, order, selector);
      }
    } else {
      var row :| IsMostRelevantDefiner(table, row, selector) && !good(SelectorMap(row.abi)[selector]);
      var order := SomeOrderPicks(table, row, selector);
    }
  }

  /** A load from an empty cursor streams the same order but keeps the first definition, so it
      resolves a new selector to an ABI of the least relevance. */
  lemma LoadFromEmptyPicksLeastRelevant(table: set<AbiRow>, order: seq<AbiRow>, index: Index, selector: Bytes)
    requires IsRelevanceOrder(table, order)
    requires selector !in index
    ensures selector in LoadAll(index, AbisOf(order)) <==> TableDefines(table, selector)
    ensures selector in LoadAll(index, AbisOf(order)) ==>
              exists i :: ResolvesTo(LoadAll(index, AbisOf(order)), selector, AbisOf(order), i)
                          && IsLeastRelevantDefiner(table, order[i], selector)
  {
    var abis := AbisOf(order);
    LoadAllContent(index, abis, selector);
    SomeDefinerIsFirst(abis, selector);
    OrderDefinesWhatTableDefines(table, order, selector);
    if selector in LoadAll(index, abis) {
      var i :| IsFirstDefiner(abis, i, selector);
      assert ResolvesTo(LoadAll(index, abis), selector, abis, i);
      forall other | other in table && Defines(other.abi, selector)
        ensures order[i].relevance <= other.relevance
      {
        var j :| 0 <= j < |order| && order[j] == other;
        assert Defines(abis[j], selector);
      }
    }
  }

  /******* Incremental loading against rebuilding *******/

  function LoadBatches(index: Index, batches: seq<seq<Abi>>): Index {
    if batches == [] then index
    else LoadAll(LoadBatches(index, batches[..|batches| - 1]), batches[|batches| - 1])
  }

  ghost predicate InBatches(batches: seq<seq<Abi>>, abi: Abi) {
    exists batch | batch in batches :: abi in batch
  }

  /** `rebuilt` lists, in any order and any number of times, the ABIs that the first build and the
      batches had between them. */
  ghost predicate SameAbis(initial: seq<Abi>, batches: seq<seq<Abi>>, rebuilt: seq<Abi>) {
    forall abi :: abi in rebuilt <==> abi in initial || InBatches(batches, abi)
  }

  /** Any two ABIs that define a selector define the same function for it. */
  ghost predicate Consistent(abis: set<Abi>) {
    forall x, y, selector | x in abis && y in abis && Defines(x, selector) && Defines(y, selector) ::
      SelectorMap(x)[selector] == SelectorMap(y)[selector]
  }

  ghost predicate BatchesDefine(batches: seq<seq<Abi>>, selector: Bytes) {
    exists batch | batch in batches :: SomeDefines(batch, selector)
  }

  /** The function comes from the definition some loaded ABI gives. */
  ghost predicate FromBatches(fn: AbiFunction, batches: seq<seq<Abi>>, selector: Bytes) {
    exists abi :: InBatches(batches, abi) && Defines(abi, selector) && SelectorMap(abi)[selector] == fn
  }

  lemma {:induction false} LoadBatchesContent(index: Index, batches: seq<seq<Abi>>, selector: Bytes)
    ensures selector in LoadBatches(index, batches) <==> selector in index || BatchesDefine(batches, selector)
    ensures selector in index ==> LoadBatches(index, batches)[selector] == index[selector]
    ensures selector !in index && selector in LoadBatches(index, batches) ==>
              FromBatches(LoadBatches(index, batches)[selector], batches, selector)
  {
    if batches == [] {
    } else {
      var n := |batches| - 1;
      var init := batches[..n];
      var before := LoadBatches(index, init);
      LoadBatchesContent(index, init, selector);
      LoadAllContent(before, batches[n], selector);
      SomeDefinerIsFirst(batches[n], selector);
      assert batches == init + [batches[n]];
      if selector !in index && selector in LoadBatches(index, batches) {
        if selector in before {
          var abi :| InBatches(init, abi) && Defines(abi, selector) && SelectorMap(abi)[selector] == before[selector];
          assert InBatches(batches, abi);
        } else {
          var i :| IsFirstDefiner(batches[n], i, selector);
          assert ResolvesTo(LoadBatches(index, batches), selector, batches[n], i);
          assert batches[n] in batches && batches[n][i] in batches[n];
        }
      }
    }
  }

  /** However the ABIs are split into a first build and later loads, the keys are those of one build
      over all of them; and if the ABIs agree on shared selectors so are the entries. */
  lemma IncrementalRefinesRebuild(initial: seq<Abi>, batches: seq<seq<Abi>>, rebuilt: seq<Abi>)
    requires SameAbis(initial, batches, rebuilt)
    ensures LoadBatches(LastWins(initial), batches).Keys == LastWins(rebuilt).Keys
    ensures Consistent(set abi | abi in rebuilt) ==>
              LoadBatches(LastWins(initial), batches) == LastWins(rebuilt)
  {
    var loaded, whole := LoadBatches(LastWins(initial), batches), LastWins(rebuilt);
    forall selector
      ensures selector in loaded <==> selector in whole
    {
      SameKey(initial, batches, rebuilt, selector);
    }
    if Consistent(set abi | abi in rebuilt) {
      forall selector | selector in whole
        ensures loaded[selector] == whole[selector]
      {
        SameKey(initial, batches, rebuilt, selector);
        var x := LoadedSource(initial, batches, selector);
        LastWinsContent(rebuilt, selector);
        var i :| IsLastDefiner(rebuilt, i, selector);
        assert ResolvesTo(whole, selector, rebuilt, i);
      }
    }
  }

  lemma SameKey(initial: seq<Abi>, batches: seq<seq<Abi>>, rebuilt: seq<Abi>, selector: Bytes)
    requires SameAbis(initial, batches, rebuilt)
    ensures selector in LoadBatches(LastWins(initial), batches) <==> selector in LastWins(rebuilt)
  {
    LoadBatchesContent(LastWins(initial), batches, selector);
    LastWinsContent(initial, selector);
    LastWinsContent(rebuilt, selector);
    SomeDefinerIsLast(initial, selector);
    SomeDefinerIsLast(rebuilt, selector);
    if abi :| abi in rebuilt && Defines(abi, selector) {
      if abi !in initial {
        var batch :| batch in batches && abi in batch;
        assert SomeDefines(batch, selector);
      }
    }
    if batch :| batch in batches && SomeDefines(batch, selector) {
      var abi :| abi in batch && Defines(abi, selector);
      assert InBatches(batches, abi);
    }
  }

  lemma LoadedSource(initial: seq<Abi>, batches: seq<seq<Abi>>, selector: Bytes) returns (abi: Abi)
    requires selector in LoadBatches(LastWins(initial), batches)
    ensures abi in initial || InBatches(batches, abi)
    ensures Defines(abi, selector)
    ensures LoadBatches(LastWins(initial), batches)[selector] == SelectorMap(abi)[selector]
  {
    LoadBatchesContent(LastWins(initial), batches, selector);
    if selector in LastWins(initial) {
      LastWinsContent(initial, selector);
      var i :| IsLastDefiner(initial, i, selector);
      assert ResolvesTo(LastWins(initial), selector, initial, i);
      abi := initial[i];
    } else {
      var loaded := LoadBatches(LastWins(initial), batches)[selector];
      abi :| InBatches(batches, abi) && Defines(abi, selector) && SelectorMap(abi)[selector] == loaded;
    }
  }

  lemma {:induction false} ListEndingWith(abis: set<Abi>, last: Abi) returns (list: seq<Abi>)
    requires last in abis
    ensures list != [] && list[|list| - 1] == last
    ensures forall abi :: abi in list <==> abi in abis
    decreases abis
  {
    if abis == {last} {
      list := [last];
    } else {
      var other :| other in abis && other != last;
      var rest := ListEndingWith(abis - {other}, last);
      list := [other] + rest;
      assert forall abi :: abi in list <==> abi == other || abi in rest;
    }
  }

  ghost predicate SplitsAgree(abis: set<Abi>) {
    forall initial, batches, rebuilt |
      SameAbis(initial, batches, rebuilt) && (set abi | abi in rebuilt) == abis ::
      LoadBatches(LastWins(initial), batches) == LastWins(rebuilt)
  }

  /** The result is independent of splits and orders exactly for consistent sets of ABIs. */
  lemma RebuildIndependentIff(abis: set<Abi>)
    ensures Consistent(abis) <==> SplitsAgree(abis)
  {
    if Consistent(abis) {
      forall initial, batches, rebuilt |
        SameAbis(initial, batches, rebuilt) && (set abi | abi in rebuilt) == abis
        ensures LoadBatches(LastWins(initial), batches) == LastWins(rebuilt)
      {
        IncrementalRefinesRebuild(initial, batches, rebuilt);
      }
    } else {
      var x, y, selector :| x in abis && y in abis && Defines(x, selector) && Defines(y, selector)
                            && SelectorMap(x)[selector] != SelectorMap(y)[selector];
      var endsWithX := ListEndingWith(abis, x);
      var endsWithY := ListEndingWith(abis, y);
      assert SameAbis(endsWithX, [], endsWithY);
      assert (set abi | abi in endsWithY) == abis;
      assert LoadBatches(LastWins(endsWithX), []) == LastWins(endsWithX);
      assert LastWins(endsWithX)[selector] == SelectorMap(x)[selector];
      assert LastWins(endsWithY)[selector] == SelectorMap(y)[selector];
    }
  }
}
