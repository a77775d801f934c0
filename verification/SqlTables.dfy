/** Tables and the two ways to store a record in one: update it or insert it where there is none,
    or delete it and insert it anew. */
module SqlTables {
  import opened Wrappers

  type Value = Option<string>   // None is NULL
  type Row = seq<Value>

  /** A column as the file describes it. `fallback` is what the database puts where an insert
      names no value. */
  datatype Column = Column(readOnly: bool, inKey: bool, fallback: Value)

  type Columns = seq<Column>
  type Table = map<Row, Row>

  /** The key of a row, as a row that is NULL outside the key columns. */
  function KeyOf(cols: Columns, row: Row): (key: Row)
    requires |row| == |cols|
    ensures |key| == |cols|
  {
    seq(|cols|, i requires 0 <= i < |cols| => if cols[i].inKey then row[i] else None)
  }

  ghost predicate IsTable(cols: Columns, t: Table) {
    forall k :: k in t ==> |t[k]| == |cols| && KeyOf(cols, t[k]) == k
  }

  predicate KeyComplete(cols: Columns, row: Row)
    requires |row| == |cols|
  {
    forall i :: 0 <= i < |cols| && cols[i].inKey ==> row[i].Some?
  }

  /** The key columns can be written; otherwise an inserted row could not carry its key. */
  predicate KeysWritable(cols: Columns) {
    forall i :: 0 <= i < |cols| && cols[i].inKey ==> !cols[i].readOnly
  }

  // ----- statements

  /** A column and the value a statement gives it. */
  datatype Assignment = Assignment(column: nat, value: Value)

  datatype Statement =
    | Delete(key: Row)
    | Update(sets: seq<Assignment>, key: Row)
    | Insert(values: seq<Assignment>)

  function Assigned(row: Row, sets: seq<Assignment>): (r: Row)
    ensures |r| == |row|
  {
    if sets == [] then row
    else
      var a, rest := sets[|sets| - 1], Assigned(row, sets[..|sets| - 1]);
      if a.column < |row| then rest[a.column := a.value] else rest
  }

  function Fallbacks(cols: Columns): (row: Row)
    ensures |row| == |cols|
  {
    seq(|cols|, i requires 0 <= i < |cols| => cols[i].fallback)
  }

  /** The table after a statement, and how many rows it met; None if the key is there already. */
  function Executed(cols: Columns, t: Table, s: Statement): Option<(Table, nat)> {
    match s
    case Delete(key) => Some((t - {key}, if key in t then 1 else 0))
    case Update(sets, key) => if key in t then Some((t[key := Assigned(t[key], sets)], 1)) else Some((t, 0))
    case Insert(values) =>
      var row := Assigned(Fallbacks(cols), values);
      if KeyOf(cols, row) in t then None else Some((t[KeyOf(cols, row) := row], 1))
  }

  /** All columns that may be written, up to the `n`-th. */
  function SetsOf(cols: Columns, record: Row, n: nat): seq<Assignment>
    requires n <= |cols| == |record|
  {
    if n == 0 then []
    else SetsOf(cols, record, n - 1) + (if cols[n - 1].readOnly then [] else [Assignment(n - 1, record[n - 1])])
  }

  /** The same without those that are NULL. */
  function ValuesOf(cols: Columns, record: Row, n: nat): seq<Assignment>
    requires n <= |cols| == |record|
  {
    if n == 0 then []
    else
      ValuesOf(cols, record, n - 1) +
      (if cols[n - 1].readOnly || record[n - 1].None? then [] else [Assignment(n - 1, record[n - 1])])
  }

  /** A row after an update, and a row after an insert. */
  function Merged(cols: Columns, row: Row, record: Row): (r: Row)
    requires |row| == |cols| == |record|
    ensures |r| == |cols|
  {
    seq(|cols|, i requires 0 <= i < |cols| => if cols[i].readOnly then row[i] else record[i])
  }

  function Inserted(cols: Columns, record: Row): (r: Row)
    requires |record| == |cols|
    ensures |r| == |cols|
  {
    seq(|cols|, i requires 0 <= i < |cols| => if cols[i].readOnly || record[i].None? then cols[i].fallback else record[i])
  }

  lemma {:induction false} AssignedSets(cols: Columns, row: Row, record: Row, n: nat)
    requires n <= |cols| == |record| == |row|
    ensures forall i :: 0 <= i < |cols| ==>
                          Assigned(row, SetsOf(cols, record, n))[i] == if i < n then Merged(cols, row, record)[i] else row[i]
  {
    if n > 0 {
      AssignedSets(cols, row, record, n - 1);
      var sets, init := SetsOf(cols, record, n), SetsOf(cols, record, n - 1);
      if !cols[n - 1].readOnly { assert sets[..|sets| - 1] == init; } else { assert sets == init; }
    }
  }

  lemma {:induction false} AssignedValues(cols: Columns, record: Row, n: nat)
    requires n <= |cols| == |record|
    ensures forall i :: 0 <= i < |cols| ==>
                          Assigned(Fallbacks(cols), ValuesOf(cols, record, n))[i] ==
                          if i < n then Inserted(cols, record)[i] else cols[i].fallback
  {
    if n > 0 {
      AssignedValues(cols, record, n - 1);
      var values, init := ValuesOf(cols, record, n), ValuesOf(cols, record, n - 1);
      if !cols[n - 1].readOnly && record[n - 1].Some? { assert values[..|values| - 1] == init; } else { assert values == init; }
    }
  }

  // ----- storing

  /** The table with a new row, if its key is free. */
  function InsertedInto(cols: Columns, t: Table, record: Row): Option<Table>
    requires |record| == |cols|
  {
    var row := Inserted(cols, record);
    if KeyOf(cols, row) in t then None else Some(t[KeyOf(cols, row) := row])
  }

  /** A row that is there takes the record's values; otherwise nothing happens. */
  function UpdatedIn(cols: Columns, t: Table, record: Row): Table
    requires |record| == |cols| && forall k :: k in t ==> |t[k]| == |cols|
  {
    var key := KeyOf(cols, record);
    if key in t then t[key := Merged(cols, t[key], record)] else t
  }

  function StoredByUpdate(cols: Columns, t: Table, record: Row): Table
    requires |record| == |cols| && forall k :: k in t ==> |t[k]| == |cols|
  {
    var key := KeyOf(cols, record);
    t[key := if key in t then Merged(cols, t[key], record) else Inserted(cols, record)]
  }

  function StoredByDelete(cols: Columns, t: Table, record: Row): Table
    requires |record| == |cols|
  {
    t[KeyOf(cols, record) := Inserted(cols, record)]
  }

  function Stored(byDelete: bool, cols: Columns, t: Table, record: Row): Table
    requires |record| == |cols| && forall k :: k in t ==> |t[k]| == |cols|
  {
    if byDelete then StoredByDelete(cols, t, record) else StoredByUpdate(cols, t, record)
  }

  /** Storing leaves every other row alone, and the key's row holds what was stored. */
  lemma StoreReplacesOneRow(byDelete: bool, cols: Columns, t: Table, record: Row)
    requires IsTable(cols, t) && |record| == |cols| && KeysWritable(cols) && KeyComplete(cols, record)
    ensures var key, t' := KeyOf(cols, record), Stored(byDelete, cols, t, record);
            && IsTable(cols, t') && t'.Keys == t.Keys + {key} && t' - {key} == t - {key}
            && forall i :: 0 <= i < |cols| && !cols[i].readOnly && record[i].Some? ==> t'[key][i] == record[i]
  {
    var key, t' := KeyOf(cols, record), Stored(byDelete, cols, t, record);
    assert KeyOf(cols, t'[key]) == key;
  }

  /** The two ways of storing agree exactly when the key is new, or the old row has the database's
      fallback in every read-only column and no NULL is stored where that is not the fallback. */
  lemma StrategiesAgreeIff(cols: Columns, t: Table, record: Row)
    requires IsTable(cols, t) && |record| == |cols|
    ensures var key := KeyOf(cols, record);
            StoredByUpdate(cols, t, record) == StoredByDelete(cols, t, record) <==>
            (key in t ==> forall i :: 0 <= i < |cols| ==>
                                        if cols[i].readOnly then t[key][i] == cols[i].fallback
                                        else record[i].Some? || cols[i].fallback.None?)
  {
    var key := KeyOf(cols, record);
    var u, d := StoredByUpdate(cols, t, record), StoredByDelete(cols, t, record);
    var inserted := Inserted(cols, record);
    assert d == t[key := inserted] && d[key] == inserted;
    if key in t {
      var merged := Merged(cols, t[key], record);
      assert u == t[key := merged] && u[key] == merged;
      MergedIsInsertedIff(cols, t[key], record);
    }
  }

  lemma MergedIsInsertedIff(cols: Columns, row: Row, record: Row)
    requires |row| == |cols| == |record|
    ensures Merged(cols, row, record) == Inserted(cols, record) <==>
            forall i :: 0 <= i < |cols| ==>
                          if cols[i].readOnly then row[i] == cols[i].fallback
                          else record[i].Some? || cols[i].fallback.None?
  {
    var merged, inserted := Merged(cols, row, record), Inserted(cols, record);
    forall i | 0 <= i < |cols|
      ensures merged[i] == inserted[i] <==>
              if cols[i].readOnly then row[i] == cols[i].fallback else record[i].Some? || cols[i].fallback.None?
    {
    }
    assert merged == inserted <==> forall i :: 0 <= i < |cols| ==> merged[i] == inserted[i];
  }
}
