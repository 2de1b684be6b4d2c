/**
 The rows of the Safe contracts: their idempotent creation by any number of tasks, the test that
 they all exist, and the refresh of their names. Address and chain are unique in the table.
 */
module SafeContracts {
  import opened Encoding
  import opened ContractRows
  import opened Sets
  import opened Runs

  datatype Info = Info(name: string, displayName: string, trusted: bool)

  datatype Deployment = Deployment(address: Bytes, info: Info)

  datatype Contract = Contract(key: Key, info: Info)

  /******* Rows *******/

  predicate HasKey(rows: seq<Contract>, key: Key) {
    exists row | row in rows :: row.key == key
  }

  ghost predicate UniqueKeys(rows: seq<Contract>) {
    forall i, j | 0 <= i < j < |rows| :: rows[i].key != rows[j].key
  }

  /** `get_or_create`: the unique constraint turns a second insert into a read. */
  function GetOrCreate(rows: seq<Contract>, key: Key, info: Info): seq<Contract> {
    if HasKey(rows, key) then rows else rows + [Contract(key, info)]
  }

  function CreateAll(rows: seq<Contract>, chain: int, deployments: seq<Deployment>): seq<Contract> {
    if deployments == [] then rows
    else
      var n := |deployments| - 1;
      GetOrCreate(CreateAll(rows, chain, deployments[..n]), Key(deployments[n].address, chain), deployments[n].info)
  }

  /** Every deployment has its row on the chain. */
  ghost predicate Complete(rows: seq<Contract>, chain: int, deployments: seq<Deployment>) {
    forall d | d in deployments :: HasKey(rows, Key(d.address, chain))
  }

  lemma GetOrCreateKeepsRows(rows: seq<Contract>, key: Key, info: Info)
    ensures rows <= GetOrCreate(rows, key, info)
    ensures UniqueKeys(rows) ==> UniqueKeys(GetOrCreate(rows, key, info))
    ensures HasKey(GetOrCreate(rows, key, info), key)
    ensures forall k | HasKey(rows, k) :: HasKey(GetOrCreate(rows, key, info), k)
  {
  }

  /** Creation keeps the rows and the constraint, and leaves the chain complete. */
  lemma {:induction false} CreateAllCompletes(rows: seq<Contract>, chain: int, deployments: seq<Deployment>)
    ensures rows <= CreateAll(rows, chain, deployments)
    ensures UniqueKeys(rows) ==> UniqueKeys(CreateAll(rows, chain, deployments))
    ensures Complete(CreateAll(rows, chain, deployments), chain, deployments)
  {
    if deployments == [] {
    } else {
      var n := |deployments| - 1;
      var before := CreateAll(rows, chain, deployments[..n]);
      CreateAllCompletes(rows, chain, deployments[..n]);
      GetOrCreateKeepsRows(before, Key(deployments[n].address, chain), deployments[n].info);
      assert deployments == deployments[..n] + [deployments[n]];
    }
  }

  ghost predicate IsFirstFor(deployments: seq<Deployment>, i: int, address: Bytes) {
    && 0 <= i < |deployments| && deployments[i].address == address
    && forall j | 0 <= j < i :: deployments[j].address != address
  }

  /** The row is what the first deployment listed for its address says, on the chain. */
  ghost predicate IsDeploymentRow(row: Contract, chain: int, deployments: seq<Deployment>) {
    row.key.chain == chain
    && exists i :: IsFirstFor(deployments, i, row.key.address) && row.info == deployments[i].info
  }

  /** The rows that creation adds: each for a deployment that had none, with the info of the first
      deployment listed for its address. */
  lemma {:induction false} CreateAllContent(rows: seq<Contract>, chain: int, deployments: seq<Deployment>)
    ensures var after := CreateAll(rows, chain, deployments);
            && rows <= after
            && forall r | |rows| <= r < |after| ::
                 !HasKey(rows, after[r].key) && IsDeploymentRow(after[r], chain, deployments)
  {
    if deployments == [] {
    } else {
      var n := |deployments| - 1;
      var before, after := CreateAll(rows, chain, deployments[..n]), CreateAll(rows, chain, deployments);
      var key := Key(deployments[n].address, chain);
      CreateAllContent(rows, chain, deployments[..n]);
      CreateAllCompletes(rows, chain, deployments[..n]);
      forall r | |rows| <= r < |before| ensures IsDeploymentRow(before[r], chain, deployments) {
        EarlierDeploymentRow(before[r], chain, deployments);
      }
      if !HasKey(before, key) {
        CreatedFirst(before, chain, deployments, n);
        forall row | row in rows ensures row in before {
        }
      }
    }
  }

  lemma EarlierDeploymentRow(row: Contract, chain: int, deployments: seq<Deployment>)
    requires deployments != [] && IsDeploymentRow(row, chain, deployments[..|deployments| - 1])
    ensures IsDeploymentRow(row, chain, deployments)
  {
    var init := deployments[..|deployments| - 1];
    var i :| IsFirstFor(init, i, row.key.address) && row.info == init[i].info;
    assert IsFirstFor(deployments, i, row.key.address);
  }

  /** A deployment that comes up without a row is the first for its address. */
  lemma CreatedFirst(rows: seq<Contract>, chain: int, deployments: seq<Deployment>, n: nat)
    requires n < |deployments| && Complete(rows, chain, deployments[..n])
    requires !HasKey(rows, Key(deployments[n].address, chain))
    ensures IsDeploymentRow(Contract(Key(deployments[n].address, chain), deployments[n].info), chain, deployments)
  {
    forall j | 0 <= j < n ensures deployments[j].address != deployments[n].address {
      assert deployments[..n][j] in deployments[..n];
    }
    assert IsFirstFor(deployments, n, deployments[n].address);
  }

  /** Creating again adds nothing, exactly when the chain was complete. */
  lemma {:induction false} CreateAllIdleIff(rows: seq<Contract>, chain: int, deployments: seq<Deployment>)
    ensures CreateAll(rows, chain, deployments) == rows <==> Complete(rows, chain, deployments)
  {
    if deployments == [] {
    } else {
      var n := |deployments| - 1;
      CreateAllIdleIff(rows, chain, deployments[..n]);
      CreateAllCompletes(rows, chain, deployments[..n]);
      CreateAllCompletes(rows, chain, deployments);
      assert deployments == deployments[..n] + [deployments[n]];
    }
  }

  /******* The test by counting *******/

  function CountMatching(rows: seq<Contract>, chain: int, addresses: set<Bytes>): nat {
    if rows == [] then 0
    else
      var n := |rows| - 1;
      CountMatching(rows[..n], chain, addresses)
      + if rows[n].key.chain == chain && rows[n].key.address in addresses then 1 else 0
  }

  function AddressesOf(deployments: seq<Deployment>): set<Bytes> {
    set d | d in deployments :: d.address
  }

  /** `exists_safe_contracts`. */
  predicate ExistsSafeContracts(rows: seq<Contract>, chain: int, addresses: set<Bytes>) {
    addresses != {} && CountMatching(rows, chain, addresses) == |addresses|
  }

  function Present(rows: seq<Contract>, chain: int, addresses: set<Bytes>): set<Bytes> {
    set a | a in addresses && HasKey(rows, Key(a, chain))
  }

  /** By uniqueness the count of rows is the count of addresses that have one. */
  lemma {:induction false} CountIsPresent(rows: seq<Contract>, chain: int, addresses: set<Bytes>)
    requires UniqueKeys(rows)
    ensures CountMatching(rows, chain, addresses) == |Present(rows, chain, addresses)|
  {
    if rows == [] {
    } else {
      var n := |rows| - 1;
      var init, last := rows[..n], rows[n].key;
      CountIsPresent(init, chain, addresses);
      assert rows == init + [rows[n]];
      assert !HasKey(init, last);
      forall key ensures HasKey(rows, key) <==> HasKey(init, key) || key == last {
        if HasKey(init, key) {
          var row :| row in init && row.key == key;
          assert row in rows;
        }
        assert rows[n] in rows;
      }
      var before, after := Present(init, chain, addresses), Present(rows, chain, addresses);
      if last.chain == chain && last.address in addresses {
        assert after == before + {last.address} && last.address !in before by {
          assert last == Key(last.address, chain);
        }
      } else {
        assert after == before;
      }
    }
  }

  /** The count reaches the number of addresses exactly when every address is present. */
  lemma CountIsExact(rows: seq<Contract>, chain: int, deployments: seq<Deployment>)
    requires UniqueKeys(rows)
    ensures ExistsSafeContracts(rows, chain, AddressesOf(deployments)) <==>
            deployments != [] && Complete(rows, chain, deployments)
  {
    var addresses := AddressesOf(deployments);
    CountIsPresent(rows, chain, addresses);
    var present := Present(rows, chain, addresses);
    if |present| == |addresses| && present != addresses {
      var missing :| missing in addresses && missing !in present;
      SubsetIsSmaller(present, addresses - {missing});
    }
    if deployments != [] {
      assert deployments[0] in deployments && deployments[0].address in addresses;
    }
    if Complete(rows, chain, deployments) {
      assert present == addresses;
    }
    if present == addresses {
      forall d | d in deployments ensures HasKey(rows, Key(d.address, chain)) {
        assert d.address in addresses;
      }
    }
  }

  /** The constraint is needed: with a duplicate row the count is right and an address missing. */
  lemma DuplicatesDeceiveTheCount(info: Info, chain: int)
    ensures exists rows, deployments ::
              !UniqueKeys(rows) && ExistsSafeContracts(rows, chain, AddressesOf(deployments))
              && !Complete(rows, chain, deployments)
  {
    var one, two := Deployment([1], info), Deployment([2], info);
    var row := Contract(Key([1], chain), info);
    var rows, deployments := [row, row], [one, two];
    assert AddressesOf(deployments) == {[1], [2]} by {
      assert one in deployments && two in deployments;
    }
    assert rows[..1] == [row] && rows[..1][..0] == [];
    assert CountMatching(rows[..1], chain, {[1], [2]}) == 1;
    assert !HasKey(rows, Key(two.address, chain)) && two in deployments;
    assert rows[0].key == rows[1].key;
    assert ExistsSafeContracts(rows, chain, AddressesOf(deployments)) && !Complete(rows, chain, deployments);
  }

  /******* Names *******/

  /** `UPDATE ... WHERE address`, on every chain. */
  function UpdateInfo(rows: seq<Contract>, address: Bytes, info: Info): (rows': seq<Contract>)
    ensures |rows'| == |rows|
    ensures forall i | 0 <= i < |rows| ::
              rows'[i] == if rows[i].key.address == address then rows[i].(info := info) else rows[i]
  {
    seq(|rows|, i requires 0 <= i < |rows| =>
      if rows[i].key.address == address then rows[i].(info := info) else rows[i])
  }

  function UpdateAll(rows: seq<Contract>, deployments: seq<Deployment>): (rows': seq<Contract>)
    ensures |rows'| == |rows|
  {
    if deployments == [] then rows
    else
      var n := |deployments| - 1;
      UpdateInfo(UpdateAll(rows, deployments[..n]), deployments[n].address, deployments[n].info)
  }

  ghost predicate IsLastFor(deployments: seq<Deployment>, i: int, address: Bytes) {
    && 0 <= i < |deployments| && deployments[i].address == address
    && forall j | i < j < |deployments| :: deployments[j].address != address
  }

  /** After the refresh a row carries the info of the last deployment listed for its address, on
      every chain; rows of other addresses and all keys are untouched. */
  lemma {:induction false} UpdateAllContent(rows: seq<Contract>, deployments: seq<Deployment>, r: nat)
    requires r < |rows|
    ensures UpdateAll(rows, deployments)[r].key == rows[r].key
    ensures forall i | IsLastFor(deployments, i, rows[r].key.address) ::
              UpdateAll(rows, deployments)[r].info == deployments[i].info
    ensures (forall d | d in deployments :: d.address != rows[r].key.address) ==>
              UpdateAll(rows, deployments)[r] == rows[r]
  {
    if deployments == [] {
    } else {
      var n := |deployments| - 1;
      var init := deployments[..n];
      UpdateAllContent(rows, init, r);
      assert deployments == init + [deployments[n]];
      forall i | IsLastFor(deployments, i, rows[r].key.address) && i != n
        ensures IsLastFor(init, i, rows[r].key.address)
      {
      }
    }
  }

  /******* Creators running together *******/

  /** A task part-way through its loop, with the rows it created so far. */
  datatype Creator = Creator(chain: int, next: nat, created: nat)

  /** All tasks create the same deployments. `others` counts the rows that other tasks inserted. */
  datatype State = State(deployments: seq<Deployment>, rows: seq<Contract>, creators: seq<Creator>, others: nat)

  datatype Step = Start(chain: int) | Create(i: nat) | OtherInsert(row: Contract) | Refresh(address: Bytes, info: Info)

  predicate Enabled(s: State, step: Step) {
    match step
    case Create(i) => i < |s.creators| && s.creators[i].next < |s.deployments|
    case OtherInsert(row) => !HasKey(s.rows, row.key)
    case _ => true
  }

  function Apply(s: State, step: Step): State
    requires Enabled(s, step)
  {
    match step
    case Start(chain) => s.(creators := s.creators + [Creator(chain, 0, 0)])
    case Create(i) =>
      var c := s.creators[i];
      var d := s.deployments[c.next];
      var rows' := GetOrCreate(s.rows, Key(d.address, c.chain), d.info);
      var created := if rows' == s.rows then c.created else c.created + 1;
      s.(rows := rows', creators := s.creators[i := Creator(c.chain, c.next + 1, created)])
    case OtherInsert(row) => s.(rows := s.rows + [row], others := s.others + 1)
    case Refresh(address, info) => s.(rows := UpdateInfo(s.rows, address, info))
  }

  function TotalCreated(creators: seq<Creator>): nat {
    if creators == [] then 0 else TotalCreated(creators[..|creators| - 1]) + creators[|creators| - 1].created
  }

  lemma {:induction false} TotalAfterUpdate(creators: seq<Creator>, i: nat, c: Creator)
    requires i < |creators|
    ensures TotalCreated(creators[i := c]) == TotalCreated(creators) - creators[i].created + c.created
  {
    var n := |creators| - 1;
    if i == n {
      assert creators[i := c][..n] == creators[..n];
    } else {
      assert creators[i := c][..n] == creators[..n][i := c];
      TotalAfterUpdate(creators[..n], i, c);
    }
  }

  ghost predicate KeysKept(before: seq<Contract>, after: seq<Contract>) {
    |before| <= |after| && forall i | 0 <= i < |before| :: after[i].key == before[i].key
  }

  /** `initial` is the number of rows before the run. */
  ghost predicate Inv(initial: nat, s: State) {
    && UniqueKeys(s.rows)
    && |s.rows| == initial + TotalCreated(s.creators) + s.others
    && forall c | c in s.creators :: c.next <= |s.deployments| && Complete(s.rows, c.chain, s.deployments[..c.next])
  }

  lemma StepKeepsKeys(s: State, step: Step)
    requires UniqueKeys(s.rows) && Enabled(s, step)
    ensures UniqueKeys(Apply(s, step).rows)
    ensures KeysKept(s.rows, Apply(s, step).rows)
  {
  }

  lemma CreatorStaysComplete(deployments: seq<Deployment>, before: seq<Contract>, after: seq<Contract>, c: Creator)
    requires KeysKept(before, after) && c.next <= |deployments| && Complete(before, c.chain, deployments[..c.next])
    ensures Complete(after, c.chain, deployments[..c.next])
  {
  }

  lemma StepKeepsInv(initial: nat, s: State, step: Step)
    requires Inv(initial, s) && Enabled(s, step)
    ensures Inv(initial, Apply(s, step))
  {
    var s', deployments := Apply(s, step), s.deployments;
    StepKeepsKeys(s, step);
    if step.Create? {
      TotalAfterUpdate(s.creators, step.i, s'.creators[step.i]);
      var c := s.creators[step.i];
      assert c in s.creators;
      CreatorStaysComplete(deployments, s.rows, s'.rows, c);
      assert deployments[..c.next + 1] == deployments[..c.next] + [deployments[c.next]];
      GetOrCreateKeepsRows(s.rows, Key(deployments[c.next].address, c.chain), deployments[c.next].info);
    }
    forall c | c in s'.creators ensures c.next <= |deployments| && Complete(s'.rows, c.chain, deployments[..c.next]) {
      if c in s.creators {
        CreatorStaysComplete(deployments, s.rows, s'.rows, c);
      }
    }
  }

  lemma RunKeepsInv(initial: nat, s: State, steps: seq<Step>)
    requires Inv(initial, s) && IsRun(Apply, s, steps)
    ensures var t := Final(Apply, s, steps);
            Inv(initial, t) && KeysKept(s.rows, t.rows) && t.deployments == s.deployments
  {
    var inv := t => Inv(initial, t) && KeysKept(s.rows, t.rows) && t.deployments == s.deployments;
    forall t, step | inv(t) && Enabled(t, step) ensures inv(Apply(t, step)) {
      StepKeepsInv(initial, t, step);
      StepKeepsKeys(t, step);
    }
    EveryRunKeeps(Apply, inv, s, steps);
  }

  /** However creators interleave, with each other and with other inserts: one row per address and
      chain, the created counts add up to the rows added, and a creator that is through has left
      its chain complete. */
  lemma CreationIsConserving(s: State, steps: seq<Step>)
    requires UniqueKeys(s.rows) && s.creators == [] && s.others == 0 && IsRun(Apply, s, steps)
    ensures var t := Final(Apply, s, steps);
            && UniqueKeys(t.rows)
            && |t.rows| - |s.rows| == TotalCreated(t.creators) + t.others
            && (forall c | c in t.creators && c.next == |s.deployments| :: Complete(t.rows, c.chain, s.deployments))
  {
    RunKeepsInv(|s.rows|, s, steps);
    assert s.deployments[..|s.deployments|] == s.deployments;
  }

  /** A creation on the chain that has come to the `k`-th deployment. */
  ghost function Halfway(s: State, chain: int, k: nat): State
    requires k <= |s.deployments|
  {
    var rows := CreateAll(s.rows, chain, s.deployments[..k]);
    CreateAllCompletes(s.rows, chain, s.deployments[..k]);
    s.(rows := rows, creators := s.creators + [Creator(chain, k, |rows| - |s.rows|)])
  }

  lemma NextCreate(s: State, chain: int, k: nat)
    requires k < |s.deployments|
    ensures Enabled(Halfway(s, chain, k), Create(|s.creators|))
    ensures Apply(Halfway(s, chain, k), Create(|s.creators|)) == Halfway(s, chain, k + 1)
  {
    var t, u := Halfway(s, chain, k), Halfway(s, chain, k + 1);
    assert s.deployments[..k + 1][..k] == s.deployments[..k];
    CreateAllCompletes(s.rows, chain, s.deployments[..k + 1]);
    assert t.creators[|s.creators| := u.creators[|s.creators|]] == u.creators;
  }

  /** Left alone, the steps of a creation do what the method `CreateSafeContracts` promises: the rows, and
      in `created` their number. */
  lemma CreatorAlone(s: State, chain: int) returns (steps: seq<Step>)
    ensures IsRun(Apply, s, steps)
    ensures var rows := CreateAll(s.rows, chain, s.deployments);
            |rows| >= |s.rows|
            && Final(Apply, s, steps)
               == s.(rows := rows, creators := s.creators + [Creator(chain, |s.deployments|, |rows| - |s.rows|)])
  {
    var n, deployments := |s.creators|, s.deployments;
    steps := [Start(chain)];
    assert deployments[..0] == [] && Apply(s, Start(chain)) == Halfway(s, chain, 0);
    OneStep(Apply, s, Start(chain));
    for k := 0 to |deployments|
      invariant IsRun(Apply, s, steps) && Final(Apply, s, steps) == Halfway(s, chain, k)
    {
      NextCreate(s, chain, k);
      Extend(Apply, s, steps, Create(n));
      steps := steps + [Create(n)];
    }
    assert deployments[..|deployments|] == deployments;
  }

  /** And those of a refresh what `UpdateSafeContractsInfo` does. */
  lemma RefreshAlone(s: State) returns (steps: seq<Step>)
    ensures IsRun(Apply, s, steps)
    ensures Final(Apply, s, steps) == s.(rows := UpdateAll(s.rows, s.deployments))
  {
    var deployments := s.deployments;
    steps := [];
    for k := 0 to |deployments|
      invariant IsRun(Apply, s, steps) && Final(Apply, s, steps) == s.(rows := UpdateAll(s.rows, deployments[..k]))
    {
      var t, d := Final(Apply, s, steps), deployments[k];
      assert deployments[..k + 1][..k] == deployments[..k];
      assert Apply(t, Refresh(d.address, d.info)).rows == UpdateAll(s.rows, deployments[..k + 1]);
      Extend(Apply, s, steps, Refresh(d.address, d.info));
      steps := steps + [Refresh(d.address, d.info)];
    }
    assert deployments[..|deployments|] == deployments;
  }

  /** Only creators write the row: no other insert and no refresh. */
  ghost function LeavesToCreators(key: Key): (State, Step) -> bool {
    (_: State, step: Step) =>
      !(step.OtherInsert? && step.row.key == key) && !(step.Refresh? && step.address == key.address)
  }

  /** A row of the key that the run added is a deployment's, and a creator works on its chain. */
  ghost predicate AddedByCreators(initial: nat, key: Key, s: State) {
    forall r | initial <= r < |s.rows| && s.rows[r].key == key ::
      IsDeploymentRow(s.rows[r], key.chain, s.deployments) && exists c | c in s.creators :: c.chain == key.chain
  }

  lemma StepKeepsAdded(initial: nat, key: Key, s: State, step: Step)
    requires Inv(initial, s) && AddedByCreators(initial, key, s) && Enabled(s, step) && LeavesToCreators(key)(s, step)
    ensures AddedByCreators(initial, key, Apply(s, step))
  {
    var t := Apply(s, step);
    if step.Create? {
      var c := s.creators[step.i];
      assert c in s.creators && t.creators[step.i] in t.creators && t.creators[step.i].chain == c.chain;
      if !HasKey(s.rows, Key(s.deployments[c.next].address, c.chain)) {
        CreatedFirst(s.rows, c.chain, s.deployments, c.next);
      }
    }
    forall d | d in s.creators ensures exists c | c in t.creators :: c.chain == d.chain {
      var i :| 0 <= i < |s.creators| && s.creators[i] == d;
      assert t.creators[i] in t.creators && t.creators[i].chain == d.chain;
    }
  }

  /** However creators interleave: a row that a run added, and that no other insert or refresh wrote,
      is what the first deployment listed for its address says, on the chain of a creator. */
  lemma CreatedRowsAreDeployments(s: State, steps: seq<Step>, r: nat)
    requires UniqueKeys(s.rows) && s.creators == [] && s.others == 0 && IsRun(Apply, s, steps)
    requires |s.rows| <= r < |Final(Apply, s, steps).rows|
    requires Along(Apply, LeavesToCreators(Final(Apply, s, steps).rows[r].key), s, steps)
    ensures var t := Final(Apply, s, steps);
            && IsDeploymentRow(t.rows[r], t.rows[r].key.chain, s.deployments)
            && exists c | c in t.creators :: c.chain == t.rows[r].key.chain
  {
    var key, initial := Final(Apply, s, steps).rows[r].key, |s.rows|;
    var inv := t => Inv(initial, t) && AddedByCreators(initial, key, t) && t.deployments == s.deployments;
    var ok := LeavesToCreators(key);
    forall t, step | inv(t) && Enabled(t, step) && ok(t, step) ensures inv(Apply(t, step)) {
      StepKeepsInv(initial, t, step);
      StepKeepsAdded(initial, key, t, step);
    }
    RunKeeps(Apply, ok, inv, s, steps);
  }

  /** A chain found complete stays complete, so remembering it is safe in every later state. */
  lemma CompleteForGood(initial: nat, s: State, steps: seq<Step>, chain: int)
    requires Inv(initial, s) && IsRun(Apply, s, steps) && Complete(s.rows, chain, s.deployments)
    ensures Complete(Final(Apply, s, steps).rows, chain, s.deployments)
  {
    RunKeepsInv(initial, s, steps);
    var creator := Creator(chain, |s.deployments|, 0);
    CreatorStaysComplete(s.deployments, s.rows, Final(Apply, s, steps).rows, creator);
    assert s.deployments[..|s.deployments|] == s.deployments;
  }

  /******* The service *******/

  class SafeContractsService {
    const deployments: seq<Deployment>
    var table: seq<Contract>
    var safeContractsCache: set<int>

    /** Remembered chains are complete. */
    ghost predicate Valid()
      reads this
    {
      && UniqueKeys(table)
      && forall chain | chain in safeContractsCache :: deployments != [] && Complete(table, chain, deployments)
    }

    constructor (deployments: seq<Deployment>, table: seq<Contract>)
      requires UniqueKeys(table)
      ensures Valid() && this.deployments == deployments && this.table == table && safeContractsCache == {}
    {
      this.deployments := deployments;
      this.table := table;
      safeContractsCache := {};
    }

    method SafeContractsExist(chain: int) returns (exist: bool)
      requires Valid()
      modifies this`safeContractsCache
      ensures Valid()
      ensures exist <==> deployments != [] && Complete(table, chain, deployments)
      ensures safeContractsCache == if exist then old(safeContractsCache) + {chain} else old(safeContractsCache)
    {
      if chain in safeContractsCache {
        return true;
      }
      CountIsExact(table, chain, deployments);
      exist := ExistsSafeContracts(table, chain, AddressesOf(deployments));
      if exist {
        safeContractsCache := safeContractsCache + {chain};
      }
    }

    method CreateSafeContracts(chain: int) returns (createdCount: nat)
      requires Valid()
      modifies this`table
      ensures Valid()
      ensures table == CreateAll(old(table), chain, deployments)
      ensures createdCount == |table| - |old(table)|
      ensures createdCount == 0 <==> Complete(old(table), chain, deployments)
      ensures old(table) <= table && Complete(table, chain, deployments)
      ensures forall r | |old(table)| <= r < |table| ::
                !HasKey(old(table), table[r].key) && IsDeploymentRow(table[r], chain, deployments)
    {
      ghost var before := table;
      createdCount := 0;
      for i := 0 to |deployments|
        invariant table == CreateAll(before, chain, deployments[..i])
        invariant createdCount == |table| - |before|
      {
        assert deployments[..i + 1][..i] == deployments[..i];
        var key := Key(deployments[i].address, chain);
        if !HasKey(table, key) {
          table := table + [Contract(key, deployments[i].info)];
          createdCount := createdCount + 1;
        }
      }
      assert deployments[..|deployments|] == deployments;
      CreateAllCompletes(before, chain, deployments);
      CreateAllIdleIff(before, chain, deployments);
      CreateAllContent(before, chain, deployments);
      forall remembered | remembered in safeContractsCache ensures Complete(table, remembered, deployments) {
        CreatorStaysComplete(deployments, before, table, Creator(remembered, |deployments|, 0));
      }
    }

    method UpdateSafeContractsInfo()
      requires Valid()
      modifies this`table
      ensures Valid()
      ensures table == UpdateAll(old(table), deployments)
    {
      ghost var before := table;
      for i := 0 to |deployments|
        invariant table == UpdateAll(before, deployments[..i])
        invariant KeysKept(before, table) && |table| == |before|
      {
        assert deployments[..i + 1][..i] == deployments[..i];
        table := UpdateInfo(table, deployments[i].address, deployments[i].info);
      }
      assert deployments[..|deployments|] == deployments;
      forall remembered | remembered in safeContractsCache ensures Complete(table, remembered, deployments) {
        CreatorStaysComplete(deployments, before, table, Creator(remembered, |deployments|, 0));
      }
    }
  }
}
