/**
 Resolving calldata to a function: the contract's own ABI behind the gate of the global index, and
 the accuracy reported for the same call. Lookups are stated on one snapshot of the database.
 */
module FunctionLookup {
  import opened Wrappers
  import opened Encoding
  import opened Abis
  import opened AbiTable
  import opened Runs
  import IndexLoader

  datatype ContractRow = ContractRow(address: Bytes, chainId: int, abiId: Option<nat>)

  datatype Snapshot = Snapshot(abis: seq<AbiRow>, contracts: set<ContractRow>)

  /** The unique constraint on address and chain. */
  ghost predicate UniqueContracts(contracts: set<ContractRow>) {
    forall c, d | c in contracts && d in contracts && c.address == d.address && c.chainId == d.chainId :: c == d
  }

  /** The joined row of the `abi` table. */
  ghost predicate Joins(db: Snapshot, c: ContractRow, row: AbiRow) {
    row in db.abis && c.abiId == Some(row.id)
  }

  ghost predicate Matches(db: Snapshot, address: Bytes, chain: Option<int>, c: ContractRow) {
    && c in db.contracts && c.address == address && (chain.Some? ==> c.chainId == chain.value)
    && exists row :: Joins(db, c, row)
  }

  /** `ORDER BY chain_id`, first row. */
  ghost predicate IsFirstMatch(db: Snapshot, address: Bytes, chain: Option<int>, c: ContractRow) {
    Matches(db, address, chain, c) && forall d | Matches(db, address, chain, d) :: c.chainId <= d.chainId
  }

  ghost predicate IsSelected(db: Snapshot, address: Bytes, chain: Option<int>, row: AbiRow) {
    exists c :: IsFirstMatch(db, address, chain, c) && Joins(db, c, row)
  }

  /** `get_contract_abi`: an empty ABI reads as none. */
  ghost function ContractAbi(db: Snapshot, address: Bytes, chain: Option<int>): Option<Abi> {
    if row :| IsSelected(db, address, chain, row) && row.abi != [] then
      var row :| IsSelected(db, address, chain, row) && row.abi != [];
      Some(row.abi)
    else None
  }

  /** The ABI consulted for a contract: that of the chain, else the first of any chain. */
  ghost function OwnAbi(db: Snapshot, address: Bytes, chain: Option<int>): Option<Abi> {
    var abi := ContractAbi(db, address, chain);
    if abi.None? && chain.Some? then ContractAbi(db, address, None) else abi
  }

  function SelectorOf(data: Bytes): Bytes {
    if |data| < 4 then data else data[..4]
  }

  /** `get_abi_function`. An empty address counts as no address. */
  ghost function GetAbiFunction(index: Index, db: Snapshot, data: Bytes, address: Option<Bytes>, chain: Option<int>):
    Option<AbiFunction>
  {
    var selector := SelectorOf(data);
    if selector !in index then None
    else
      var own := if address.Some? && address.value != [] then OwnAbi(db, address.value, chain) else None;
      if own.Some? && Defines(own.value, selector) then Some(SelectorMap(own.value)[selector])
      else Some(index[selector])
  }

  datatype Accuracy = FullMatch | PartialMatch | OnlyFunctionMatch | NoMatch

  /** `get_decoding_accuracy`. */
  ghost function GetDecodingAccuracy(
    index: Index, db: Snapshot, data: Bytes, address: Option<Bytes>, chain: Option<int>):
    Accuracy
  {
    if SelectorOf(data) !in index then NoMatch
    else if address.None? then OnlyFunctionMatch
    else if chain.Some? && ContractAbi(db, address.value, chain).Some? then FullMatch
    else if ContractAbi(db, address.value, None).Some? then PartialMatch
    else OnlyFunctionMatch
  }

  ghost predicate ValidSnapshot(db: Snapshot) {
    Ascending(db.abis) && UniqueContracts(db.contracts)
  }

  lemma {:induction false} FirstByChain(rows: set<ContractRow>) returns (first: ContractRow)
    requires rows != {}
    ensures first in rows && forall c | c in rows :: first.chainId <= c.chainId
    decreases rows
  {
    first :| first in rows;
    if rows != {first} {
      var rest := FirstByChain(rows - {first});
      if rest.chainId < first.chainId {
        first := rest;
      }
    }
  }

  /** The query returns a row whenever one matches. */
  lemma SomeRowIsSelectedIff(db: Snapshot, address: Bytes, chain: Option<int>)
    ensures (exists row :: IsSelected(db, address, chain, row)) <==> exists c :: Matches(db, address, chain, c)
  {
    if c :| Matches(db, address, chain, c) {
      var matching := set d | d in db.contracts && Matches(db, address, chain, d);
      assert c in matching;
      var first := FirstByChain(matching);
      assert IsFirstMatch(db, address, chain, first);
      var row :| Joins(db, first, row);
      assert IsSelected(db, address, chain, row);
    }
  }

  /** The constraints leave one selected row at most. */
  lemma SelectedRowIsUnique(db: Snapshot, address: Bytes, chain: Option<int>, x: AbiRow, y: AbiRow)
    requires ValidSnapshot(db) && IsSelected(db, address, chain, x) && IsSelected(db, address, chain, y)
    ensures x == y
  {
  }

  /** A contract with a non-empty ABI on the chain is resolved with that ABI, whatever other chains
      hold. */
  lemma OwnChainHasPriority(db: Snapshot, c: ContractRow, row: AbiRow)
    requires ValidSnapshot(db) && c in db.contracts && Joins(db, c, row) && row.abi != []
    ensures OwnAbi(db, c.address, Some(c.chainId)) == Some(row.abi)
  {
  }

  /** A contract without a usable ABI on the chain is resolved as on its lowest chain with an ABI. */
  lemma OtherChainsAreTheFallback(db: Snapshot, address: Bytes, chain: int, c: ContractRow, row: AbiRow)
    requires ValidSnapshot(db) && IsFirstMatch(db, address, None, c) && Joins(db, c, row)
    requires ContractAbi(db, address, Some(chain)) == None
    ensures OwnAbi(db, address, Some(chain)) == if row.abi == [] then None else Some(row.abi)
  {
  }

  /******* Lookup and accuracy, on the rows *******/

  /** A contract of the address on the chain has a non-empty ABI. */
  ghost predicate HasRowOnChain(db: Snapshot, address: Bytes, chain: int, row: AbiRow) {
    row.abi != []
    && exists c | c in db.contracts && Joins(db, c, row) :: c.address == address && c.chainId == chain
  }

  /** The contract has an ABI, and no contract of its address on a lower chain has one. */
  ghost predicate IsLowest(db: Snapshot, c: ContractRow) {
    && c in db.contracts && (exists row :: Joins(db, c, row))
    && forall d, row | d in db.contracts && d.address == c.address && Joins(db, d, row) :: c.chainId <= d.chainId
  }

  /** The ABI of the address on its lowest chain with an ABI is this one, and is not empty. */
  ghost predicate HasLowestRow(db: Snapshot, address: Bytes, row: AbiRow) {
    row.abi != [] && exists c :: IsLowest(db, c) && c.address == address && Joins(db, c, row)
  }

  lemma OnChainIff(db: Snapshot, address: Bytes, chain: int, row: AbiRow)
    requires ValidSnapshot(db)
    ensures HasRowOnChain(db, address, chain, row) ==> ContractAbi(db, address, Some(chain)) == Some(row.abi)
    ensures ContractAbi(db, address, Some(chain)).Some? ==>
              exists r :: HasRowOnChain(db, address, chain, r) && r.abi == ContractAbi(db, address, Some(chain)).value
  {
    if c :| c in db.contracts && Joins(db, c, row) && c.address == address && c.chainId == chain && row.abi != [] {
      assert IsFirstMatch(db, address, Some(chain), c) && IsSelected(db, address, Some(chain), row);
    }
  }

  lemma LowestIff(db: Snapshot, address: Bytes, row: AbiRow)
    requires ValidSnapshot(db)
    ensures HasLowestRow(db, address, row) ==> ContractAbi(db, address, None) == Some(row.abi)
    ensures ContractAbi(db, address, None).Some? ==>
              exists r :: HasLowestRow(db, address, r) && r.abi == ContractAbi(db, address, None).value
  {
    if c :| IsLowest(db, c) && c.address == address && Joins(db, c, row) && row.abi != [] {
      assert IsFirstMatch(db, address, None, c) && IsSelected(db, address, None, row);
    }
    if r :| IsSelected(db, address, None, r) && r.abi != [] {
      var c :| IsFirstMatch(db, address, None, c) && Joins(db, c, r);
      assert IsLowest(db, c) && HasLowestRow(db, address, r);
    }
  }

  /** The row whose ABI the lookup consults: that of the chain, and only without one that of the lowest
      chain. An empty address is not looked up. */
  ghost predicate IsConsultedRow(db: Snapshot, address: Option<Bytes>, chain: Option<int>, row: AbiRow) {
    && address.Some? && address.value != []
    && ((chain.Some? && HasRowOnChain(db, address.value, chain.value, row))
        || ((chain.Some? ==> forall r :: !HasRowOnChain(db, address.value, chain.value, r))
            && HasLowestRow(db, address.value, row)))
  }

  /** A selector that is no key has no function. Else a consulted row that defines it decides, and the
      global entry if there is none. */
  lemma LookupOnRows(index: Index, db: Snapshot, data: Bytes, address: Option<Bytes>, chain: Option<int>)
    requires ValidSnapshot(db)
    ensures var selector := if |data| < 4 then data else data[..4];
            var found := GetAbiFunction(index, db, data, address, chain);
            if selector !in index then found == None
            else
              && (forall row | IsConsultedRow(db, address, chain, row) ::
                    found == Some((if Defines(row.abi, selector) then SelectorMap(row.abi) else index)[selector]))
              && ((forall row :: !IsConsultedRow(db, address, chain, row)) ==> found == Some(index[selector]))
  {
    forall row | IsConsultedRow(db, address, chain, row) ensures OwnAbi(db, address.value, chain) == Some(row.abi) {
      ConsultedIsOwn(db, address.value, chain, row);
    }
    if address.Some? && address.value != [] && OwnAbi(db, address.value, chain).Some? {
      var row := OwnIsConsulted(db, address.value, chain);
    }
  }

  lemma ConsultedIsOwn(db: Snapshot, address: Bytes, chain: Option<int>, row: AbiRow)
    requires ValidSnapshot(db) && IsConsultedRow(db, Some(address), chain, row)
    ensures OwnAbi(db, address, chain) == Some(row.abi)
  {
    LowestIff(db, address, row);
    if chain.Some? {
      OnChainIff(db, address, chain.value, row);
    }
  }

  lemma OwnIsConsulted(db: Snapshot, address: Bytes, chain: Option<int>) returns (row: AbiRow)
    requires ValidSnapshot(db) && address != [] && OwnAbi(db, address, chain).Some?
    ensures IsConsultedRow(db, Some(address), chain, row)
  {
    if chain.Some? && ContractAbi(db, address, chain).Some? {
      OnChainIff(db, address, chain.value, AbiRow(0, 0, []));
      row :| HasRowOnChain(db, address, chain.value, row);
    } else {
      LowestIff(db, address, AbiRow(0, 0, []));
      row :| HasLowestRow(db, address, row);
      if chain.Some? {
        forall r ensures !HasRowOnChain(db, address, chain.value, r) {
          OnChainIff(db, address, chain.value, r);
        }
      }
    }
  }

  /** Which accuracy is given, exactly: no match without a key; a full match if the address has an ABI on
      the chain given; a partial match if not that and its lowest chain with an ABI has a non-empty one;
      a function-only match otherwise. */
  lemma AccuracyOnRows(index: Index, db: Snapshot, data: Bytes, address: Option<Bytes>, chain: Option<int>)
    requires ValidSnapshot(db)
    ensures var isKey := (if |data| < 4 then data else data[..4]) in index;
            var onChain := address.Some? && chain.Some?
                           && exists row :: HasRowOnChain(db, address.value, chain.value, row);
            var elsewhere := address.Some? && exists row :: HasLowestRow(db, address.value, row);
            && (GetDecodingAccuracy(index, db, data, address, chain) == NoMatch <==> !isKey)
            && (GetDecodingAccuracy(index, db, data, address, chain) == FullMatch <==> isKey && onChain)
            && (GetDecodingAccuracy(index, db, data, address, chain) == PartialMatch
                <==> isKey && !onChain && elsewhere)
            && (GetDecodingAccuracy(index, db, data, address, chain) == OnlyFunctionMatch
                <==> isKey && !onChain && !elsewhere)
  {
    if address.Some? {
      forall row
        ensures HasLowestRow(db, address.value, row) ==> ContractAbi(db, address.value, None).Some?
        ensures chain.Some? && HasRowOnChain(db, address.value, chain.value, row) ==>
                  ContractAbi(db, address.value, chain).Some?
      {
        LowestIff(db, address.value, row);
        if chain.Some? {
          OnChainIff(db, address.value, chain.value, row);
        }
      }
      var any := AbiRow(0, 0, []);
      LowestIff(db, address.value, any);
      if chain.Some? {
        OnChainIff(db, address.value, chain.value, any);
      }
    }
  }

  /******* Accuracy against lookup *******/

  predicate AddressMatched(accuracy: Accuracy) {
    accuracy.FullMatch? || accuracy.PartialMatch?
  }

  /** The lookup has an own ABI at hand when it picks the function. */
  ghost predicate LookupConsultsOwnAbi(
    index: Index, db: Snapshot, data: Bytes, address: Option<Bytes>, chain: Option<int>)
  {
    && SelectorOf(data) in index
    && address.Some? && address.value != [] && OwnAbi(db, address.value, chain).Some?
  }

  /** On one snapshot: no match means no function; a function-only match means the global entry was
      used; a full match means the chain's own ABI was consulted. An address match and a consulted
      ABI go together except for the empty address, which only the accuracy looks up. */
  lemma AccuracyAgreesWithLookup(index: Index, db: Snapshot, data: Bytes, address: Option<Bytes>, chain: Option<int>)
    ensures var accuracy, found := GetDecodingAccuracy(index, db, data, address, chain),
                                   GetAbiFunction(index, db, data, address, chain);
            && (accuracy == NoMatch <==> found == None)
            && (accuracy == OnlyFunctionMatch ==> found == Some(index[SelectorOf(data)]))
            && (accuracy == FullMatch ==>
                  chain.Some? && OwnAbi(db, address.value, chain) == ContractAbi(db, address.value, chain))
            && (accuracy == PartialMatch ==>
                  OwnAbi(db, address.value, chain) == ContractAbi(db, address.value, None))
    ensures (AddressMatched(GetDecodingAccuracy(index, db, data, address, chain))
             <==> LookupConsultsOwnAbi(index, db, data, address, chain))
            <==> !(SelectorOf(data) in index && address == Some([]) && OwnAbi(db, [], chain).Some?)
  {
  }

  /******* The gate *******/

  /** If the index covers the table up to the cursor, a contract whose ABI is within the cursor gets
      its own function whenever its ABI has one, and the global entry otherwise. */
  lemma GateNeverHidesOwnFunction(
    index: Index, db: Snapshot, cursor: Option<nat>, row: AbiRow, data: Bytes, address: Bytes, chain: Option<int>)
    requires IndexLoader.Covers(db.abis, cursor, index, [])
    requires row in db.abis && IdWithin(row, cursor)
    requires address != [] && OwnAbi(db, address, chain) == Some(row.abi)
    ensures var found := GetAbiFunction(index, db, data, Some(address), chain);
            if Defines(row.abi, SelectorOf(data)) then found == Some(SelectorMap(row.abi)[SelectorOf(data)])
            else if SelectorOf(data) in index then found == Some(index[SelectorOf(data)])
            else found == None
  {
  }

  /** In every run of the loader that overlooks nothing, with the lock free, lookup finds a function for a selector
      that some row up to the cursor defines, and never one that no row of the table defines. */
  lemma LookupFindsLoadedSelectors(
    s: IndexLoader.State, steps: seq<IndexLoader.Step>, contracts: set<ContractRow>,
    data: Bytes, address: Option<Bytes>, chain: Option<int>)
    requires IndexLoader.Initial(s) && IsRun(IndexLoader.Apply, s, steps)
    requires Along(IndexLoader.Apply, IndexLoader.OverlooksNothing, s, steps)
    requires Final(IndexLoader.Apply, s, steps).loader.Idle?
    ensures var t := Final(IndexLoader.Apply, s, steps);
            var found := GetAbiFunction(t.index, Snapshot(t.table, contracts), data, address, chain);
            && (found == None ==>
                  forall row | row in t.table && IdWithin(row, t.cursor) :: !Defines(row.abi, SelectorOf(data)))
            && (found.Some? ==> IndexLoader.DefinedAs(t.table, SelectorOf(data), found.value))
  {
    var t := Final(IndexLoader.Apply, s, steps);
    var db := Snapshot(t.table, contracts);
    IndexLoader.IndexCoverage(s, steps);
    var selector := SelectorOf(data);
    forall row | row in t.table && IdWithin(row, t.cursor) && Defines(row.abi, selector) ensures selector in t.index {
      assert IndexLoader.AllKeys(t.index, row.abi);
    }
    if selector in t.index {
      assert IndexLoader.DefinedAs(t.table, selector, t.index[selector]);
      if address.Some? && address.value != [] && OwnAbi(db, address.value, chain).Some? {
        OwnAbiIsARow(db, address.value, chain);
      }
    }
  }

  /** A run of the loader that ends with the lock free. */
  ghost predicate RunToIdle(s: IndexLoader.State, steps: seq<IndexLoader.Step>) {
    IndexLoader.Initial(s) && IsRun(IndexLoader.Apply, s, steps) && Final(IndexLoader.Apply, s, steps).loader.Idle?
  }

  /** The database at its end, with these contracts. */
  ghost function SnapshotAfter(
    s: IndexLoader.State, steps: seq<IndexLoader.Step>, contracts: set<ContractRow>): Snapshot
    requires RunToIdle(s, steps)
  {
    Snapshot(Final(IndexLoader.Apply, s, steps).table, contracts)
  }

  /** The row is within the cursor, and its ABI is what the lookup for the contract consults: the ABI of
      the chain, or that of the lowest other chain. */
  ghost predicate IsConsulted(
    s: IndexLoader.State, steps: seq<IndexLoader.Step>, contracts: set<ContractRow>,
    row: AbiRow, address: Bytes, chain: Option<int>)
    requires RunToIdle(s, steps)
  {
    var db := SnapshotAfter(s, steps, contracts);
    && row in db.abis && IdWithin(row, Final(IndexLoader.Apply, s, steps).cursor)
    && address != [] && OwnAbi(db, address, chain) == Some(row.abi)
  }

  /** In every run of the loader whatsoever, with the lock free, a contract whose consulted ABI is within
      the cursor gets the function that this ABI defines, exactly if the selector is a key; if it is
      none the run overlooked the ABI. */
  lemma OwnFunctionIsFound(
    s: IndexLoader.State, steps: seq<IndexLoader.Step>, contracts: set<ContractRow>,
    row: AbiRow, data: Bytes, address: Bytes, chain: Option<int>)
    requires RunToIdle(s, steps) && IsConsulted(s, steps, contracts, row, address, chain)
    requires Defines(row.abi, SelectorOf(data))
    ensures var index := Final(IndexLoader.Apply, s, steps).index;
            var found := GetAbiFunction(index, SnapshotAfter(s, steps, contracts), data, Some(address), chain);
            && (found == Some(SelectorMap(row.abi)[SelectorOf(data)]) <==> SelectorOf(data) in index)
            && (SelectorOf(data) !in index ==> found == None && row in IndexLoader.OverlookedIn(s, steps))
  {
    var index := Final(IndexLoader.Apply, s, steps).index;
    IndexLoader.CoverageIff(s, steps);
    assert IndexLoader.AllKeys(index, row.abi) || row in IndexLoader.OverlookedIn(s, steps);
  }

  /** A run that overlooks nothing hides no such function. */
  lemma OwnFunctionIsNeverHidden(
    s: IndexLoader.State, steps: seq<IndexLoader.Step>, contracts: set<ContractRow>,
    row: AbiRow, data: Bytes, address: Bytes, chain: Option<int>)
    requires RunToIdle(s, steps) && IsConsulted(s, steps, contracts, row, address, chain)
    requires Along(IndexLoader.Apply, IndexLoader.OverlooksNothing, s, steps)
    requires Defines(row.abi, SelectorOf(data))
    ensures var index := Final(IndexLoader.Apply, s, steps).index;
            GetAbiFunction(index, SnapshotAfter(s, steps, contracts), data, Some(address), chain)
            == Some(SelectorMap(row.abi)[SelectorOf(data)])
  {
    OwnFunctionIsFound(s, steps, contracts, row, data, address, chain);
    IndexLoader.NothingOverlookedIn(s, steps);
  }

  lemma SnapshotIsValid(s: IndexLoader.State, steps: seq<IndexLoader.Step>, contracts: set<ContractRow>)
    requires RunToIdle(s, steps) && UniqueContracts(contracts)
    ensures ValidSnapshot(SnapshotAfter(s, steps, contracts))
  {
    IndexLoader.RunKeepsInv(s, steps);
  }

  /** A contract with a non-empty ABI on the chain consults it. */
  lemma OwnChainIsConsulted(
    s: IndexLoader.State, steps: seq<IndexLoader.Step>, contracts: set<ContractRow>, c: ContractRow, row: AbiRow)
    requires RunToIdle(s, steps) && UniqueContracts(contracts)
    requires c in contracts && c.address != [] && Joins(SnapshotAfter(s, steps, contracts), c, row) && row.abi != []
    requires IdWithin(row, Final(IndexLoader.Apply, s, steps).cursor)
    ensures IsConsulted(s, steps, contracts, row, c.address, Some(c.chainId))
  {
    SnapshotIsValid(s, steps, contracts);
    OwnChainHasPriority(SnapshotAfter(s, steps, contracts), c, row);
  }

  /** A contract without a usable ABI on the chain consults that of its lowest chain with an ABI. */
  lemma LowestChainIsConsulted(
    s: IndexLoader.State, steps: seq<IndexLoader.Step>, contracts: set<ContractRow>,
    c: ContractRow, row: AbiRow, chain: int)
    requires RunToIdle(s, steps) && UniqueContracts(contracts)
    requires IsFirstMatch(SnapshotAfter(s, steps, contracts), c.address, None, c)
    requires c.address != [] && Joins(SnapshotAfter(s, steps, contracts), c, row) && row.abi != []
    requires ContractAbi(SnapshotAfter(s, steps, contracts), c.address, Some(chain)) == None
    requires IdWithin(row, Final(IndexLoader.Apply, s, steps).cursor)
    ensures IsConsulted(s, steps, contracts, row, c.address, Some(chain))
  {
    SnapshotIsValid(s, steps, contracts);
    OtherChainsAreTheFallback(SnapshotAfter(s, steps, contracts), c.address, chain, c, row);
  }

  lemma OwnAbiIsARow(db: Snapshot, address: Bytes, chain: Option<int>)
    requires OwnAbi(db, address, chain).Some?
    ensures exists row | row in db.abis :: OwnAbi(db, address, chain) == Some(row.abi)
  {
  }
}
