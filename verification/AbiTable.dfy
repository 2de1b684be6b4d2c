/** The queries on the `abi` table that the index is loaded with. Rows are listed by id. */
module AbiTable {
  import opened Wrappers
  import opened Abis

  ghost predicate Ascending(table: seq<AbiRow>) {
    forall i, j | 0 <= i < j < |table| :: table[i].id < table[j].id
  }

  function RowSet(table: seq<AbiRow>): set<AbiRow> {
    set row | row in table
  }

  /** `ORDER BY id DESC LIMIT 1`. */
  function LastInsertedId(table: seq<AbiRow>): Option<nat> {
    if table == [] then None
    else
      match LastInsertedId(table[..|table| - 1])
      case None => Some(table[|table| - 1].id)
      case Some(id) => Some(if table[|table| - 1].id > id then table[|table| - 1].id else id)
  }

  /** `WHERE id > last ORDER BY id`. */
  function IdGreaterThan(table: seq<AbiRow>, last: nat): seq<AbiRow> {
    if table == [] then []
    else
      IdGreaterThan(table[..|table| - 1], last)
      + if table[|table| - 1].id > last then [table[|table| - 1]] else []
  }

  predicate IdWithin(row: AbiRow, cursor: Option<nat>) {
    cursor.Some? && row.id <= cursor.value
  }

  lemma {:induction false} LastInsertedIdIsGreatest(table: seq<AbiRow>)
    ensures LastInsertedId(table) == None <==> table == []
    ensures forall row | row in table :: IdWithin(row, LastInsertedId(table))
    ensures table != [] ==> exists row :: row in table && LastInsertedId(table) == Some(row.id)
  {
    if table == [] {
    } else {
      var n := |table| - 1;
      LastInsertedIdIsGreatest(table[..n]);
      assert table == table[..n] + [table[n]];
      assert table[n] in table;
    }
  }

  lemma {:induction false} IdGreaterThanRows(table: seq<AbiRow>, last: nat)
    ensures forall row :: row in IdGreaterThan(table, last) <==> row in table && row.id > last
  {
    if table == [] {
    } else {
      var n := |table| - 1;
      IdGreaterThanRows(table[..n], last);
      assert table == table[..n] + [table[n]];
    }
  }

  lemma {:induction false} IdGreaterThanContent(table: seq<AbiRow>, last: nat)
    ensures forall row :: row in IdGreaterThan(table, last) <==> row in table && row.id > last
    ensures Ascending(table) ==> Ascending(IdGreaterThan(table, last))
  {
    IdGreaterThanRows(table, last);
    if table != [] && Ascending(table) {
      var n := |table| - 1;
      IdGreaterThanContent(table[..n], last);
      IdGreaterThanRows(table[..n], last);
      var earlier := IdGreaterThan(table[..n], last);
      forall i | 0 <= i < |earlier| ensures earlier[i].id < table[n].id {
        assert earlier[i] in table[..n];
      }
    }
  }
}
