/** The file a `Com_main` shares: records under fixed-length keys, one cursor. Its type is
    chosen at run time by the program, so only its contract is modelled here; where a call
    leaves the cursor in a place the contract does not fix, the choice is arbitrary. */
module KeyedFile {
  import opened KeyBytes

  type Key = seq<byte>
  type Record = seq<byte>

  /** Where the key lies in a record. */
  datatype Layout = Layout(keyPos: nat, keyLen: nat) {
    predicate Holds(r: Record) {
      |r| >= keyPos + keyLen
    }

    function KeyOf(r: Record): Key
      requires Holds(r)
    {
      r[keyPos..keyPos + keyLen]
    }

    ghost predicate Stores(m: map<Key, Record>) {
      forall k :: k in m ==> |k| == keyLen && Holds(m[k]) && KeyOf(m[k]) == k
    }
  }

  datatype Position = At(key: Key) | After(key: Key)

  datatype Outcome =
    | Got(record: Record)
    | Eof
    | NotFound
    | KeyChanged
    | Duplicate
    | Done

  predicate Reaches(p: Position, k: Key)
    requires |k| == |p.key|
  {
    if p.At? then !Less(k, p.key) else Less(p.key, k)
  }

  /** `k` is the first key of `m` that position `p` reaches. */
  predicate IsNext(m: map<Key, Record>, p: Position, k: Key)
    requires forall j :: j in m.Keys ==> |j| == |p.key|
  {
    k in m && Reaches(p, k) && forall j :: j in m.Keys && Reaches(p, j) ==> !Less(j, k)
  }

  /** What a sequential read from `p` yields. */
  ghost function Read(m: map<Key, Record>, p: Position): (o: Outcome)
    requires forall j :: j in m.Keys ==> |j| == |p.key|
    ensures o == Eof <==> forall j :: j in m.Keys ==> !Reaches(p, j)
    ensures o != Eof ==> o.Got? && exists k :: k in m.Keys && IsNext(m, p, k) && o.record == m[k]
  {
    if exists j :: j in m.Keys && Reaches(p, j) then
      LeastExists(m, p, m.Keys);
      assert exists k :: k in m.Keys && IsNext(m, p, k);
      var k :| k in m.Keys && IsNext(m, p, k);
      Got(m[k])
    else Eof
  }

  lemma {:induction false} LeastExists(m: map<Key, Record>, p: Position, s: set<Key>)
    requires forall j :: j in m.Keys ==> |j| == |p.key|
    requires s <= m.Keys && exists j :: j in s && Reaches(p, j)
    ensures exists k :: k in s && Reaches(p, k) && forall j :: j in s && Reaches(p, j) ==> !Less(j, k)
    decreases |s|
  {
    var k :| k in s && Reaches(p, k);
    var rest := s - {k};
    if exists j :: j in rest && Reaches(p, j) {
      LeastExists(m, p, rest);
      var l :| l in rest && Reaches(p, l) && forall j :: j in rest && Reaches(p, j) ==> !Less(j, l);
      LessTrichotomy(k, l);
      if Less(k, l) {
        forall j | j in s && Reaches(p, j) ensures !Less(j, k) {
          LessTrichotomy(k, k);
          if j != k && Less(j, k) { LessTransitive(j, k, l); }
        }
      } else {
        assert forall j :: j in s && Reaches(p, j) ==> !Less(j, l);
      }
    } else {
      LessTrichotomy(k, k);
      assert forall j :: j in s && Reaches(p, j) ==> !Less(j, k);
    }
  }

  /** The next key is unique, so `Read` is what any reader that finds a next key yields. */
  lemma ReadIsNext(m: map<Key, Record>, p: Position, k: Key)
    requires forall j :: j in m.Keys ==> |j| == |p.key|
    requires IsNext(m, p, k)
    ensures Read(m, p) == Got(m[k])
  {
    var l :| l in m.Keys && IsNext(m, p, l) && Read(m, p).record == m[l];
    LessTrichotomy(k, l);
  }

  /** Reading on after key `k` is reading from key `k + 1`. */
  lemma ReadAfterIsReadAtPlus1(m: map<Key, Record>, k: Key)
    requires forall j :: j in m.Keys ==> |j| == |k|
    ensures Plus1(k).overflow ==> Read(m, After(k)) == Eof
    ensures !Plus1(k).overflow ==> Read(m, After(k)) == Read(m, At(Plus1(k).bytes))
  {
    var s := Plus1(k);
    forall j | j in m.Keys
      ensures if s.overflow then !Reaches(After(k), j) else Reaches(After(k), j) <==> Reaches(At(s.bytes), j)
    {
      if s.overflow { OverflowMeansGreatest(k, j); } else { AfterIsAtOrAfterPlus1(k, j); }
    }
    if Read(m, After(k)) != Eof {
      var l :| l in m.Keys && IsNext(m, After(k), l) && Read(m, After(k)).record == m[l];
      assert IsNext(m, At(s.bytes), l);
      ReadIsNext(m, At(s.bytes), l);
    }
  }

  class KeyedFile {
    const layout: Layout
    var records: map<Key, Record>
    var cursor: Position

    ghost predicate Valid()
      reads this
    {
      && layout.Stores(records)
      && |cursor.key| == layout.keyLen
      && (cursor.After? ==> cursor.key in records)
    }

    constructor (layout: Layout, records: map<Key, Record>)
      requires layout.Stores(records)
      ensures Valid() && this.layout == layout && this.records == records
      ensures cursor == At(Zeros(layout.keyLen))
    {
      this.layout := layout;
      this.records := records;
      cursor := At(Zeros(layout.keyLen));
    }

    method Rewind()
      requires Valid()
      modifies this`cursor
      ensures Valid() && cursor == At(Zeros(layout.keyLen))
    {
      cursor := At(Zeros(layout.keyLen));
    }

    method Set(key: Key)
      requires Valid() && |key| == layout.keyLen
      modifies this`cursor
      ensures Valid() && cursor == At(key)
    {
      cursor := At(key);
    }

    method Get() returns (r: Outcome)
      requires Valid()
      modifies this`cursor
      ensures Valid() && r == Read(records, old(cursor))
      ensures r.Got? || r == Eof
      ensures r == Eof ==> cursor == old(cursor)
      ensures r.Got? ==> layout.Holds(r.record)
      ensures r.Got? ==> layout.KeyOf(r.record) in records && records[layout.KeyOf(r.record)] == r.record
      ensures r.Got? ==> cursor == After(layout.KeyOf(r.record))
    {
      if k :| k in records.Keys && IsNext(records, cursor, k) {
        ReadIsNext(records, cursor, k);
        r := Got(records[k]);
        cursor := After(k);
      } else {
        assert Read(records, cursor) == Eof;
        r := Eof;
      }
    }

    method GetKey(key: Key) returns (r: Outcome)
      requires Valid() && |key| == layout.keyLen
      modifies this`cursor
      ensures Valid()
      ensures r == if key in records then Got(records[key]) else NotFound
      ensures key in records ==> cursor == After(key)
    {
      if key in records {
        cursor := After(key);
        r := Got(records[key]);
      } else {
        Wander();
        r := NotFound;
      }
    }

    /** Replaces the record read last. */
    method Update(record: Record)
      requires Valid() && layout.Holds(record) && cursor == After(layout.KeyOf(record))
      modifies this`records
      ensures Valid() && records == old(records)[layout.KeyOf(record) := record]
    {
      records := records[layout.KeyOf(record) := record];
    }

    method Insert(record: Record) returns (r: Outcome)
      requires Valid() && layout.Holds(record)
      modifies this
      ensures Valid()
      ensures r == if layout.KeyOf(record) in old(records) then Duplicate else Done
      ensures records == if r == Duplicate then old(records) else old(records)[layout.KeyOf(record) := record]
    {
      var k := layout.KeyOf(record);
      if k in records {
        r := Duplicate;
      } else {
        records := records[k := record];
        r := Done;
      }
      Wander();
    }

    /** `Abs_file::store`: update the record with this key, or insert it where there is none. */
    method Store(record: Record)
      requires Valid() && layout.Holds(record)
      modifies this
      ensures Valid() && records == old(records)[layout.KeyOf(record) := record]
      ensures layout.KeyOf(record) in old(records) ==> cursor == After(layout.KeyOf(record))
    {
      var r := GetKey(layout.KeyOf(record));
      if r.Got? {
        Update(record);
      } else {
        r := Insert(record);
      }
    }

    method Delete(key: Key) returns (r: Outcome)
      requires Valid() && |key| == layout.keyLen
      modifies this
      ensures Valid()
      ensures records == old(records) - {key}
      ensures r == if key in old(records) then Done else NotFound
    {
      r := if key in records then Done else NotFound;
      records := records - {key};
      Wander();
    }

    /** Deletes the record read last. */
    method DeleteCurrent()
      requires Valid() && cursor.After?
      modifies this
      ensures Valid() && records == old(records) - {old(cursor.key)}
    {
      records := records - {cursor.key};
      Wander();
    }

    /** The cursor moves to a place the contract does not name. */
    method Wander()
      requires layout.Stores(records)
      modifies this`cursor
      ensures Valid()
    {
      var next: Position := *;
      cursor := if |next.key| == layout.keyLen && (next.After? ==> next.key in records)
      then next else At(Zeros(layout.keyLen));
    }
  }
}
