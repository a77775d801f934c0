/** Storing records in a database table whose statements may fail at any time. */
module SqlFile {
  import opened SqlTables
  import opened Wrappers

  datatype Reply = Done(rows: nat) | NoRows | Failed

  /** The database: what is committed, and what the open transaction sees. A statement that fails
      changes nothing; a commit that fails may have taken place all the same. */
  class Database {
    const cols: Columns
    const signalsNoRows: bool     // a statement that meets no row is an error of its own
    var committed: Table
    var working: Table

    ghost predicate Valid()
      reads this
    {
      IsTable(cols, committed) && IsTable(cols, working)
    }

    constructor (cols: Columns, signalsNoRows: bool, t: Table)
      requires IsTable(cols, t)
      ensures Valid() && this.cols == cols && this.signalsNoRows == signalsNoRows && committed == working == t
    {
      this.cols, this.signalsNoRows, committed, working := cols, signalsNoRows, t, t;
    }

    method Put(s: Statement) returns (reply: Reply)
      requires Valid() && (Executed(cols, working, s).Some? ==> IsTable(cols, Executed(cols, working, s).value.0))
      modifies this`working
      ensures Valid()
      ensures reply.Done? ==> Executed(cols, old(working), s) == Some((working, reply.rows))
      ensures !reply.Done? ==> working == old(working)
      ensures !reply.Failed? ==> Executed(cols, old(working), s).Some?
      ensures !reply.Failed? ==> (reply.NoRows? <==> signalsNoRows && Executed(cols, old(working), s).value.1 == 0)
    {
      match Executed(cols, working, s)
      case None => reply := Failed;
      case Some((t, rows)) =>
        if
        case true => reply := Failed;
        case rows == 0 && signalsNoRows => reply := NoRows;
        case rows != 0 || !signalsNoRows =>
          working := t;
          reply := Done(rows);
    }

    method Commit() returns (ok: bool)
      requires Valid()
      modifies this`committed
      ensures Valid() && (committed == old(committed) || committed == working)
      ensures ok ==> committed == working
    {
      if
      case true => committed := working; ok := true;
      case true => committed := working; ok := false;
      case true => ok := false;
    }

    method Rollback() returns (ok: bool)
      requires Valid()
      modifies this`working
      ensures Valid()
      ensures working == if ok then committed else old(working)
    {
      if
      case true => working := committed; ok := true;
      case true => ok := false;
    }
  }

  datatype Reason = NoKeyDescription | NotWritable | NullInKey

  datatype Error = Refused(reason: Reason) | NotFound | StatementFailed | RollbackFailed

  datatype Outcome = Ok | Err(error: Error)

  class SqlFile {
    const db: Database
    const autoCommit: bool
    const storeByDelete: bool
    const writable: bool
    const hasKey: bool
    var storing: nat      // a counter, so that statements inside a store do not commit
    var recordCount: int  // of the last statement; unknown after a commit

    ghost predicate Valid()
      reads this, db
    {
      db.Valid() && KeysWritable(db.cols)
    }

    constructor (db: Database, autoCommit: bool, storeByDelete: bool, writable: bool, hasKey: bool)
      requires db.Valid() && KeysWritable(db.cols)
      ensures Valid() && storing == 0 && this.db == db && this.autoCommit == autoCommit
      ensures this.storeByDelete == storeByDelete && this.writable == writable && this.hasKey == hasKey
    {
      this.db, this.autoCommit, this.storeByDelete, this.writable, this.hasKey := db, autoCommit, storeByDelete, writable, hasKey;
      storing, recordCount := 0, 0;
    }

    ghost predicate Fits(record: Row) {
      |record| == |db.cols|
    }

    /** The statement would leave the database a table. */
    ghost predicate Sensible(s: Statement)
      reads this, db
    {
      Executed(db.cols, db.working, s).Some? ==> IsTable(db.cols, Executed(db.cols, db.working, s).value.0)
    }

    /** Statements are left to a later commit. */
    predicate Deferred()
      reads this
    {
      !autoCommit || storing > 0
    }

    method Put(s: Statement) returns (r: Outcome)
      requires Valid() && Sensible(s)
      modifies this`recordCount, db`working
      ensures Valid()
      ensures r == Ok ==> recordCount >= 0 && Executed(db.cols, old(db.working), s) == Some((db.working, recordCount))
      ensures r != Ok ==> db.working == old(db.working)
      ensures r == Ok || r == Err(StatementFailed) || r == Err(NotFound)
      ensures r != Err(StatementFailed) ==>
                && Executed(db.cols, old(db.working), s).Some?
                && (r == Err(NotFound) <==> db.signalsNoRows && Executed(db.cols, old(db.working), s).value.1 == 0)
    {
      var reply := db.Put(s);
      match reply
      case Done(rows) => recordCount := rows; r := Ok;
      case NoRows => r := Err(NotFound);
      case Failed => r := Err(StatementFailed);
    }

    /** `commit`: a statement of its own, and nobody counts its rows. */
    method Commit() returns (ok: bool)
      requires Valid()
      modifies this`recordCount, db`committed
      ensures Valid() && (db.committed == old(db.committed) || db.committed == db.working)
      ensures ok ==> db.committed == db.working && recordCount == -1
    {
      ok := db.Commit();
      recordCount := -1;
    }

    /** What a statement that would make `after` of the working table may have done. It is a
        transaction of its own unless that is deferred: then the committed table takes the whole
        effect or none, and on success it has it. */
    twostate predicate Ended(r: Outcome, new after: Option<Table>)
      reads this, db
    {
      if Deferred() then
        && db.committed == old(db.committed) && r != Err(RollbackFailed)
        && (if r == Ok then after == Some(db.working) else db.working == old(db.working))
      else if r == Ok then
        db.committed == db.working && after == Some(db.working)
      else
        && (db.committed == old(db.committed) || after == Some(db.committed))
        && (r != Err(RollbackFailed) ==> db.working == db.committed)
    }

    twostate predicate Untouched()
      reads db
    {
      db.working == old(db.working) && db.committed == old(db.committed)
    }

    /** `execute_stmt`: outside a store, auto-commit ends the transaction with the statement. */
    method ExecuteStmt(s: Statement) returns (r: Outcome)
      requires Valid() && Sensible(s)
      modifies this`recordCount, db
      ensures Valid()
      ensures var executed := Executed(db.cols, old(db.working), s);
              && Ended(r, if executed.Some? then Some(executed.value.0) else None)
              && (r == Ok ==> recordCount == if Deferred() then executed.value.1 else -1)
              && (r == Ok || r == Err(NotFound) ==>
                    executed.Some? && (r == Err(NotFound) <==> db.signalsNoRows && executed.value.1 == 0))
      ensures r == Ok || r == Err(StatementFailed) || r == Err(NotFound) || r == Err(RollbackFailed)
    {
      r := Put(s);
      if autoCommit && storing == 0 {
        if r == Ok {
          var ok := Commit();
          if !ok { r := Err(StatementFailed); }
        }
        if r != Ok {
          var ok := db.Rollback();
          if !ok { r := Err(RollbackFailed); }
        }
      }
    }

    /** `del` */
    method Del(record: Row) returns (r: Outcome)
      requires Valid() && Fits(record)
      modifies this`recordCount, db
      ensures Valid()
      ensures writable && hasKey && KeyComplete(db.cols, record) ==>
                Ended(r, Some(old(db.working) - {KeyOf(db.cols, record)}))
      ensures !(writable && hasKey && KeyComplete(db.cols, record)) ==> r.Err? && r.error.Refused? && Untouched()
      ensures r == Err(NotFound) ==> KeyOf(db.cols, record) !in old(db.working)
      ensures r == Ok ==> KeyOf(db.cols, record) in old(db.working) || !db.signalsNoRows
    {
      if !writable { return Err(Refused(NotWritable)); }
      if !hasKey { return Err(Refused(NoKeyDescription)); }
      if !KeyComplete(db.cols, record) { return Err(Refused(NullInKey)); }
      r := ExecuteStmt(Delete(KeyOf(db.cols, record)));
    }

    /** `update_direct`: whether a row was changed is asked of the last statement. With auto-commit
        outside a store that is the commit, so that a missing row goes unnoticed exactly there, unless
        the database itself reports it. */
    method UpdateDirect(record: Row) returns (r: Outcome)
      requires Valid() && Fits(record)
      modifies this`recordCount, db
      ensures Valid()
      ensures writable && hasKey && KeyComplete(db.cols, record) ==>
                Ended(r, Some(UpdatedIn(db.cols, old(db.working), record)))
      ensures !(writable && hasKey && KeyComplete(db.cols, record)) ==> r.Err? && r.error.Refused? && Untouched()
      ensures r == Ok || r == Err(NotFound) ==>
                (r == Err(NotFound) <==> KeyOf(db.cols, record) !in old(db.working) && (db.signalsNoRows || Deferred()))
    {
      if !writable { return Err(Refused(NotWritable)); }
      if !hasKey { return Err(Refused(NoKeyDescription)); }
      var sets: seq<Assignment> := [];
      for i := 0 to |db.cols|
        invariant sets == SetsOf(db.cols, record, i)
      {
        if !db.cols[i].readOnly { sets := sets + [Assignment(i, record[i])]; }
      }
      if !KeyComplete(db.cols, record) { return Err(Refused(NullInKey)); }
      var key := KeyOf(db.cols, record);
      UpdateMerges(record, sets);
      r := ExecuteStmt(Update(sets, key));
      if r == Ok && recordCount == 0 {
        r := Err(NotFound);
      }
    }

    lemma UpdateMerges(record: Row, sets: seq<Assignment>)
      requires Valid() && Fits(record) && sets == SetsOf(db.cols, record, |db.cols|)
      ensures var key := KeyOf(db.cols, record);
              key in db.working ==> Assigned(db.working[key], sets) == Merged(db.cols, db.working[key], record)
                                    && KeyOf(db.cols, Merged(db.cols, db.working[key], record)) == key
    {
      var key := KeyOf(db.cols, record);
      if key in db.working {
        var row := db.working[key];
        AssignedSets(db.cols, row, record, |db.cols|);
        assert Assigned(row, sets) == Merged(db.cols, row, record);
        assert KeyOf(db.cols, row) == key;
      }
    }

    /** `insert`: columns that are read-only or NULL are left to the database. */
    method InsertRecord(record: Row) returns (r: Outcome)
      requires Valid() && Fits(record)
      modifies this`recordCount, db
      ensures Valid()
      ensures writable ==> Ended(r, InsertedInto(db.cols, old(db.working), record)) && r != Err(NotFound)
      ensures !writable ==> r == Err(Refused(NotWritable)) && Untouched()
    {
      if !writable { return Err(Refused(NotWritable)); }
      var values: seq<Assignment> := [];
      for i := 0 to |db.cols|
        invariant values == ValuesOf(db.cols, record, i)
      {
        if !db.cols[i].readOnly && record[i].Some? { values := values + [Assignment(i, record[i])]; }
      }
      AssignedValues(db.cols, record, |db.cols|);
      assert Assigned(Fallbacks(db.cols), values) == Inserted(db.cols, record);
      r := ExecuteStmt(Insert(values));
    }

    lemma InsertOfKey(t: Table, record: Row)
      requires KeysWritable(db.cols) && Fits(record) && KeyComplete(db.cols, record)
      requires KeyOf(db.cols, record) !in t
      ensures InsertedInto(db.cols, t, record) == Some(StoredByDelete(db.cols, t, record))
    {
      assert KeyOf(db.cols, Inserted(db.cols, record)) == KeyOf(db.cols, record);
    }

    /** The inner half of `store`. */
    method DeleteOrUpdateThenInsert(record: Row) returns (r: Outcome)
      requires Valid() && Fits(record) && storing > 0 && hasKey
      modifies this`recordCount, db
      ensures Valid() && db.committed == old(db.committed) && r != Err(RollbackFailed)
      ensures r == Ok ==> KeyComplete(db.cols, record) && db.working == Stored(storeByDelete, db.cols, old(db.working), record)
      ensures r != Ok ==> db.working == old(db.working)
                          || (storeByDelete && db.working == old(db.working) - {KeyOf(db.cols, record)})
    {
      ghost var was, key := db.working, KeyOf(db.cols, record);
      if storeByDelete {
        r := Del(record);
        if r != Ok && r != Err(NotFound) { return; }
        assert db.working == was - {key};
        r := InsertRecord(record);
        InsertOfKey(was - {key}, record);
        assert StoredByDelete(db.cols, was - {key}, record) == StoredByDelete(db.cols, was, record);
      } else {
        r := UpdateDirect(record);
        if r == Err(NotFound) {
          InsertOfKey(was, record);
          r := InsertRecord(record);
        }
      }
    }

    /** `store`: with auto-commit all or nothing, unless the rollback fails as well. */
    method Store(record: Row) returns (r: Outcome)
      requires Valid() && Fits(record)
      modifies this`recordCount, this`storing, db
      ensures Valid() && storing == old(storing)
      ensures !autoCommit ==> db.committed == old(db.committed)
      ensures r == Ok ==> db.working == Stored(storeByDelete, db.cols, old(db.working), record)
      ensures r == Ok && autoCommit ==> db.committed == db.working
      ensures r == Ok || db.committed != old(db.committed) ==> KeyComplete(db.cols, record)
      ensures r != Ok ==> db.committed == old(db.committed)
                          || (autoCommit && db.committed == Stored(storeByDelete, db.cols, old(db.working), record))
      ensures r != Ok && autoCommit && hasKey && r != Err(RollbackFailed) ==> db.working == db.committed
      ensures r != Ok && !autoCommit ==>
                db.working == old(db.working) || (storeByDelete && db.working == old(db.working) - {KeyOf(db.cols, record)})
      ensures !hasKey ==> r == Err(Refused(NoKeyDescription)) && db.working == old(db.working) && db.committed == old(db.committed)
    {
      if !hasKey { return Err(Refused(NoKeyDescription)); }
      storing := storing + 1;
      r := DeleteOrUpdateThenInsert(record);
      if r == Ok && autoCommit {
        var ok := Commit();
        if !ok { r := Err(StatementFailed); }
      }
      if r != Ok && autoCommit {
        var ok := db.Rollback();
        if !ok { r := Err(RollbackFailed); }
      }
      storing := storing - 1;
    }
  }

  /** The table after storing the chosen ones of some records in turn. */
  ghost function AfterStores(byDelete: bool, cols: Columns, t: Table, records: seq<Row>, chosen: seq<bool>): (t': Table)
    requires IsTable(cols, t) && KeysWritable(cols) && |chosen| == |records|
    requires forall i :: 0 <= i < |records| ==> |records[i]| == |cols|
    ensures IsTable(cols, t')
  {
    if records == [] then t
    else
      var n := |records| - 1;
      var before := AfterStores(byDelete, cols, t, records[..n], chosen[..n]);
      if chosen[n] && KeyComplete(cols, records[n]) then
        StoreReplacesOneRow(byDelete, cols, before, records[n]);
        Stored(byDelete, cols, before, records[n])
      else before
  }

  lemma AfterOneMore(byDelete: bool, cols: Columns, t: Table, records: seq<Row>, chosen: seq<bool>, c: bool)
    requires IsTable(cols, t) && KeysWritable(cols) && |chosen| < |records|
    requires forall i :: 0 <= i < |records| ==> |records[i]| == |cols|
    ensures var n := |chosen|;
            var before := AfterStores(byDelete, cols, t, records[..n], chosen);
            AfterStores(byDelete, cols, t, records[..n + 1], chosen + [c])
            == if c && KeyComplete(cols, records[n]) then Stored(byDelete, cols, before, records[n]) else before
  {
    var n := |chosen|;
    assert records[..n + 1][..n] == records[..n] && (chosen + [c])[..n] == chosen;
  }

  /** A run of stores with auto-commit. Whatever fails, the committed table is always what some of
      the records, stored whole and in order, make of it: all that were acknowledged, and perhaps
      some whose commit failed. The run ends if a rollback fails. */
  method StoreAll(f: SqlFile, records: seq<Row>) returns (results: seq<Outcome>, ghost chosen: seq<bool>)
    requires f.Valid() && f.autoCommit && f.hasKey && f.db.working == f.db.committed
    requires forall i :: 0 <= i < |records| ==> |records[i]| == |f.db.cols|
    modifies f, f.db
    ensures f.Valid() && |results| == |chosen| <= |records|
    ensures forall i :: 0 <= i < |results| && results[i] == Ok ==> chosen[i] && KeyComplete(f.db.cols, records[i])
    ensures f.db.committed == AfterStores(f.storeByDelete, f.db.cols, old(f.db.committed), records[..|results|], chosen)
    ensures |results| < |records| ==> results != [] && results[|results| - 1] == Err(RollbackFailed)
  {
    results, chosen := [], [];
    ghost var was := f.db.committed;
    for i := 0 to |records|
      invariant f.Valid() && |results| == |chosen| == i && f.db.working == f.db.committed
      invariant forall k :: 0 <= k < i && results[k] == Ok ==> chosen[k] && KeyComplete(f.db.cols, records[k])
      invariant f.db.committed == AfterStores(f.storeByDelete, f.db.cols, was, records[..i], chosen)
    {
      ghost var before := f.db.committed;
      var r := f.Store(records[i]);
      AfterOneMore(f.storeByDelete, f.db.cols, was, records, chosen, r == Ok || f.db.committed != before);
      results := results + [r];
      chosen := chosen + [r == Ok || f.db.committed != before];
      if r == Err(RollbackFailed) { return; }
    }
    assert records[..|records|] == records;
  }
}
