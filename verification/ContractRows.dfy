/** A row of the `contract` table, the outcome of a download, and what the one does to the other. */
module ContractRows {
  import opened Wrappers
  import opened Encoding

  datatype Key = Key(address: Bytes, chain: int)

  /** Identifiers come from a sequence that starts at 1, so a set `abi_id` is a true value. */
  type AbiId = n: nat | n > 0 witness 1

  datatype Row = Row(abiId: Option<AbiId>, fetchRetries: nat, implementation: Option<Bytes>, name: Option<string>)

  const NEW_ROW := Row(None, 0, None, None)

  /** What becomes of downloaded metadata: the reasons not to keep it, or its stored ABI. */
  datatype Usable = SourceMissing | SourceUnknown | AbiEmpty | Stored(abiId: AbiId)

  datatype Fetched = NoMetadata | Metadata(name: Option<string>, usable: Usable, implementation: Option<Bytes>)

  const NULL_ADDRESS: Bytes := [0, 0, 0, 0, 0, 0, 0, 0, 0, 0, 0, 0, 0, 0, 0, 0, 0, 0, 0, 0]

  /** `get_proxy_implementation_address`. */
  function ProxyImplementation(f: Fetched): Option<Bytes> {
    if f.Metadata? && f.implementation.Some? && f.implementation.value != [] && f.implementation.value != NULL_ADDRESS
    then f.implementation
    else None
  }

  /** Metadata names an implementation exactly if it has an address that is not empty and not twenty zero
      bytes, and names that address. */
  lemma ProxyImplementationIff(f: Fetched, address: Bytes)
    ensures ProxyImplementation(f) == Some(address) <==>
            && f.Metadata? && f.implementation == Some(address) && address != []
            && !(|address| == 20 && forall i | 0 <= i < |address| :: address[i] == 0)
  {
    if |address| == 20 && forall i | 0 <= i < |address| :: address[i] == 0 {
      assert address == NULL_ADDRESS;
    }
  }

  predicate Succeeds(f: Fetched) {
    f.Metadata? && f.usable.Stored?
  }

  /** A column is written only if its value changed since the row was read. */
  function WriteColumn<T(==)>(current: T, read: T, value: T): T {
    if value == read then current else value
  }

  /** The row after a task that read `read` writes its outcome to `current`. */
  function WriteOutcome(current: Row, read: Row, f: Fetched): Row {
    if Succeeds(f) then
      Row(
        WriteColumn(current.abiId, read.abiId, Some(f.usable.abiId)),
        current.fetchRetries,
        if ProxyImplementation(f).None? then current.implementation
        else WriteColumn(current.implementation, read.implementation, ProxyImplementation(f)),
        WriteColumn(current.name, read.name, f.name))
    else current.(fetchRetries := read.fetchRetries + 1)
  }

  /** Why `should_attempt_download` refuses. */
  predicate Exhausted(rows: map<Key, Row>, key: Key, maxRetries: nat) {
    key in rows && (rows[key].fetchRetries > maxRetries || rows[key].abiId.Some?)
  }

  /** Nothing more to download for the row on a first try. */
  predicate Settled(row: Row) {
    row.abiId.Some? || row.fetchRetries > 0
  }

  predicate SettledAt(rows: map<Key, Row>, key: Key) {
    key in rows && Settled(rows[key])
  }

  /** Success and failure alike settle the row, and never unsettle or unlink it: this for every row
      as it stands at the time of the write, however stale the row that was read. */
  lemma WriteSettles(current: Row, read: Row, f: Fetched)
    requires Settled(read) ==> Settled(current)
    requires read.abiId.Some? ==> current.abiId.Some?
    ensures Settled(WriteOutcome(current, read, f))
    ensures current.abiId.Some? ==> WriteOutcome(current, read, f).abiId.Some?
    ensures current.implementation.Some? ==> WriteOutcome(current, read, f).implementation.Some?
  {
  }

  /** A written column: it ends with the new value, unless that was what the worker had read and the
      column has changed since. */
  ghost predicate ColumnWritten<T>(current: T, read: T, value: T, after: T) {
    && (after == value <==> value != read || current == value)
    && (after != value ==> after == current)
  }

  /** What a task leaves in each column of a row, however stale the row it read. */
  lemma OutcomeColumns(current: Row, read: Row, f: Fetched)
    ensures var after := WriteOutcome(current, read, f);
            match f
            case Metadata(name, Stored(id), _) =>
              && ColumnWritten(current.abiId, read.abiId, Some(id), after.abiId)
              && ColumnWritten(current.name, read.name, name, after.name)
              && after.fetchRetries == current.fetchRetries
              && (match ProxyImplementation(f)
                  case Some(address) =>
                    ColumnWritten(current.implementation, read.implementation, Some(address), after.implementation)
                  case None => after.implementation == current.implementation)
            case _ =>
              && after.fetchRetries == read.fetchRetries + 1
              && after.abiId == current.abiId && after.name == current.name
              && after.implementation == current.implementation
  {
  }

  /** A row that nobody wrote in between ends with exactly what was fetched. */
  lemma FreshOutcome(row: Row, f: Fetched)
    ensures var after := WriteOutcome(row, row, f);
            match f
            case Metadata(name, Stored(id), implementation) =>
              && after.abiId == Some(id) && after.name == name && after.fetchRetries == row.fetchRetries
              && after.implementation
                 == (if NamesImplementation(implementation) then implementation else row.implementation)
            case _ => after == Row(row.abiId, row.fetchRetries + 1, row.implementation, row.name)
  {
    if f.Metadata? && f.implementation.Some? {
      ProxyImplementationIff(f, f.implementation.value);
    }
  }

  /** An address that is neither empty nor null. */
  predicate NamesImplementation(implementation: Option<Bytes>) {
    && implementation.Some? && implementation.value != []
    && !(|implementation.value| == 20 && forall i | 0 <= i < 20 :: implementation.value[i] == 0)
  }
}
