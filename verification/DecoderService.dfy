/** The service object: its index, its cursor, and the methods that change them. */
module DecoderService {
  import opened Wrappers
  import opened Encoding
  import opened Abis
  import opened AbiTable
  import SelectorIndex
  import IndexLoader

  /** How many rows of the stream arrive: all, or fewer when a timeout cuts it. */
  function Arriving(stream: seq<AbiRow>, cut: Option<nat>): (n: nat)
    ensures n <= |stream|
    ensures n < |stream| <==> cut.Some? && cut.value < |stream|
    ensures n < |stream| ==> n == cut.value
  {
    if cut.Some? && cut.value < |stream| then cut.value else |stream|
  }

  /** The rows that arrive are merged, the first definition winning; the count is the number of ABIs that
      bring a selector, or 0 after a timeout. */
  ghost predicate Loads(before: Index, stream: seq<AbiRow>, cut: Option<nat>, after: Index, loaded: nat) {
    var arrived := SelectorIndex.AbisOf(stream)[..Arriving(stream, cut)];
    && SelectorIndex.ExtendsFirstWins(before, arrived, after)
    && loaded == if |arrived| < |stream| then 0 else |SelectorIndex.Adders(before, arrived)|
  }

  lemma LoadAllLoads(before: Index, stream: seq<AbiRow>, cut: Option<nat>)
    ensures var arrived := SelectorIndex.AbisOf(stream)[..Arriving(stream, cut)];
            Loads(before, stream, cut, SelectorIndex.LoadAll(before, arrived),
                  if |arrived| < |stream| then 0 else SelectorIndex.LoadCount(before, arrived))
  {
    var arrived := SelectorIndex.AbisOf(stream)[..Arriving(stream, cut)];
    SelectorIndex.LoadAllExtends(before, arrived);
    SelectorIndex.LoadCountIsAdders(before, arrived);
  }

  /** An uncut load leaves every selector of every row of the stream in the index. */
  lemma LoadsCoversStream(before: Index, stream: seq<AbiRow>, after: Index, loaded: nat)
    requires Loads(before, stream, None, after, loaded)
    ensures forall row | row in stream :: IndexLoader.AllKeys(after, row.abi)
  {
    var abis := SelectorIndex.AbisOf(stream);
    assert abis[..|stream|] == abis;
    forall row, selector | row in stream && Defines(row.abi, selector) ensures selector in after {
      var i :| 0 <= i < |stream| && stream[i] == row;
      assert abis[i] in abis;
    }
  }

  /** The call as a run of the loader on one table, from the index and cursor before to those after. */
  ghost predicate IsCallOf(
    table: seq<AbiRow>, before: Index, previous: Option<nat>, after: Index, last: Option<nat>,
    cut: Option<nat>, loaded: nat)
  {
    var s, t := IndexLoader.State(table, before, previous, IndexLoader.Idle),
                IndexLoader.State(table, after, last, IndexLoader.Idle);
    || IndexLoader.CallLeads(s, t, IndexLoader.Completed(loaded))
    || (loaded == 0 && IndexLoader.CallLeads(s, t, IndexLoader.FoundNothingNew))
    || (loaded == 0 && cut.Some? && IndexLoader.CallLeads(s, t, IndexLoader.Interrupted(cut.value)))
  }

  lemma NothingNewIsACall(table: seq<AbiRow>, index: Index, previous: Option<nat>, cut: Option<nat>)
    requires !IndexLoader.HasNews(previous, LastInsertedId(table))
    ensures IsCallOf(table, index, previous, index, LastInsertedId(table), cut, 0)
  {
    IndexLoader.NothingNewLeads(IndexLoader.State(table, index, previous, IndexLoader.Idle));
  }

  lemma LoadIsACall(
    table: seq<AbiRow>, index: Index, previous: Option<nat>, stream: seq<AbiRow>, cut: Option<nat>)
    requires IndexLoader.HasNews(previous, LastInsertedId(table)) && IndexLoader.IsLoadStream(table, previous, stream)
    ensures var n := Arriving(stream, cut);
            var arrived := SelectorIndex.AbisOf(stream)[..n];
            IsCallOf(table, index, previous, SelectorIndex.LoadAll(index, arrived), LastInsertedId(table), cut,
                     if n < |stream| then 0 else SelectorIndex.LoadCount(index, arrived))
  {
    var s := IndexLoader.State(table, index, previous, IndexLoader.Idle);
    IndexLoader.LoadLeads(s, stream, Arriving(stream, cut));
  }

  /** `add_abi` part-way: every definition outside `remaining` has had its turn. */
  ghost predicate PartlyAdded(before: Index, definitions: Index, remaining: set<Bytes>, now: Index) {
    && (forall s :: s in now <==> s in before || (s in definitions && s !in remaining))
    && forall s | s in now :: now[s] == if s in before then before[s] else definitions[s]
  }

  lemma NextAdded(before: Index, definitions: Index, remaining: set<Bytes>, now: Index, selector: Bytes)
    requires PartlyAdded(before, definitions, remaining, now) && selector in remaining && selector in definitions
    ensures PartlyAdded(
              before, definitions, remaining - {selector},
              if selector in now then now else now[selector := definitions[selector]])
    ensures selector !in now ==> selector !in before
  {
  }

  lemma AllAdded(before: Index, abi: Abi, now: Index)
    requires PartlyAdded(before, SelectorMap(abi), {}, now)
    ensures now == SelectorIndex.AddAbi(before, abi)
  {
  }

  class DataDecoderService {
    var fnSelectors: Index
    var multisendSelectors: Index
    var lastAbiId: Option<nat>
    var loading: bool

    /** An empty service; `Init` fills it. */
    constructor ()
      ensures fnSelectors == map[] && multisendSelectors == map[] && lastAbiId == None && !loading
    {
      fnSelectors, multisendSelectors, lastAbiId, loading := map[], map[], None, false;
    }

    method GenerateSelectorsFromAbis(abis: seq<Abi>) returns (index: Index)
      ensures index == SelectorIndex.LastWins(abis)
    {
      index := map[];
      for i := 0 to |abis|
        invariant index == SelectorIndex.LastWins(abis[..i])
      {
        assert abis[..i + 1][..i] == abis[..i];
        index := index + SelectorMap(abis[i]);
      }
      assert abis[..|abis|] == abis;
    }

    /** The last id is read before the table is streamed, so `stream` may hold later rows. */
    method Init(table: seq<AbiRow>, stream: seq<AbiRow>, multisendAbis: seq<Abi>)
      modifies this
      ensures lastAbiId == LastInsertedId(table)
      ensures fnSelectors == SelectorIndex.LastWins(SelectorIndex.AbisOf(stream))
      ensures multisendSelectors == SelectorIndex.LastWins(multisendAbis)
      ensures !loading
    {
      lastAbiId := LastInsertedId(table);
      fnSelectors := GenerateSelectorsFromAbis(SelectorIndex.AbisOf(stream));
      multisendSelectors := GenerateSelectorsFromAbis(multisendAbis);
      loading := false;
    }

    method AddAbi(abi: Abi) returns (updated: bool)
      modifies this`fnSelectors
      ensures fnSelectors == SelectorIndex.AddAbi(old(fnSelectors), abi)
      ensures updated == SelectorIndex.AddsKey(old(fnSelectors), abi)
    {
      ghost var before := fnSelectors;
      var definitions := SelectorMap(abi);
      var remaining := definitions.Keys;
      updated := false;
      while remaining != {}
        invariant remaining <= definitions.Keys
        invariant PartlyAdded(before, definitions, remaining, fnSelectors)
        invariant updated ==> exists s | s in definitions :: s !in before
        invariant !updated ==> definitions.Keys - remaining <= before.Keys
        decreases |remaining|
      {
        var selector :| selector in remaining;
        NextAdded(before, definitions, remaining, fnSelectors, selector);
        if selector !in fnSelectors {
          fnSelectors := fnSelectors[selector := definitions[selector]];
          updated := true;
        }
        remaining := remaining - {selector};
      }
      AllAdded(before, abi, fnSelectors);
    }

    /** `tableAtRead` is what the query for the last id sees, `tableAtStream` what the stream sees,
        and `cut` says whether a timeout interrupts the stream. Under a held lock nothing happens. Else
        the cursor moves; without new ids nothing else does; otherwise the rows past the old cursor
        are merged in the order of their ids, or without an old cursor all rows by relevance. An uncut
        call covers the rows up to the new cursor, and on one table the call is a run of the loader. */
    method LoadNewAbis(
      tableAtRead: seq<AbiRow>, tableAtStream: seq<AbiRow>, byRelevance: seq<AbiRow>, cut: Option<nat>)
      returns (loaded: nat)
      modifies this
      ensures loading == old(loading) && multisendSelectors == old(multisendSelectors)
      ensures old(loading) ==> loaded == 0 && fnSelectors == old(fnSelectors) && lastAbiId == old(lastAbiId)
      ensures !old(loading) ==> lastAbiId == LastInsertedId(tableAtRead)
      ensures !old(loading) && old(lastAbiId).None? ==> Loads(old(fnSelectors), byRelevance, cut, fnSelectors, loaded)
      ensures !old(loading) && old(lastAbiId).Some? && (lastAbiId.None? || lastAbiId.value <= old(lastAbiId).value) ==>
                loaded == 0 && fnSelectors == old(fnSelectors)
      ensures !old(loading) && old(lastAbiId).Some? && lastAbiId.Some? && lastAbiId.value > old(lastAbiId).value ==>
                var stream := IdGreaterThan(tableAtStream, old(lastAbiId).value);
                Loads(old(fnSelectors), stream, cut, fnSelectors, loaded)
      ensures !old(loading) && cut.None? ==>
                forall row | row in (if old(lastAbiId).Some? then tableAtStream else byRelevance)
                             && IdWithin(row, lastAbiId) && !IdWithin(row, old(lastAbiId)) ::
                  IndexLoader.AllKeys(fnSelectors, row.abi)
      ensures !old(loading) && tableAtStream == tableAtRead
              && SelectorIndex.IsRelevanceOrder(RowSet(tableAtRead), byRelevance) ==>
                IsCallOf(tableAtRead, old(fnSelectors), old(lastAbiId), fnSelectors, lastAbiId, cut, loaded)
    {
      if loading {
        return 0;
      }
      loading := true;
      var previous := lastAbiId;
      lastAbiId := LastInsertedId(tableAtRead);
      var stream := byRelevance;
      if previous.Some? {
        if lastAbiId.Some? && lastAbiId.value > previous.value {
          stream := IdGreaterThan(tableAtStream, previous.value);
        } else {
          loading := false;
          NothingNewIsACall(tableAtRead, fnSelectors, previous, cut);
          return 0;
        }
      }
      var n := Arriving(stream, cut);
      ghost var abis := SelectorIndex.AbisOf(stream);
      loaded := 0;
      for i := 0 to n
        invariant fnSelectors == SelectorIndex.LoadAll(old(fnSelectors), abis[..i])
        invariant loaded == SelectorIndex.LoadCount(old(fnSelectors), abis[..i])
        invariant lastAbiId == LastInsertedId(tableAtRead) && multisendSelectors == old(multisendSelectors)
      {
        assert abis[..i + 1][..i] == abis[..i];
        var updated := AddAbi(stream[i].abi);
        if updated {
          loaded := loaded + 1;
        }
      }
      loading := false;
      if n < |stream| {
        loaded := 0;
      }
      LoadAllLoads(old(fnSelectors), stream, cut);
      if tableAtStream == tableAtRead && SelectorIndex.IsRelevanceOrder(RowSet(tableAtRead), byRelevance) {
        LoadIsACall(tableAtRead, old(fnSelectors), previous, stream, cut);
      }
      if cut.None? {
        LoadsCoversStream(old(fnSelectors), stream, fnSelectors, loaded);
        if previous.Some? {
          IdGreaterThanContent(tableAtStream, previous.value);
        }
      }
    }
  }
}
