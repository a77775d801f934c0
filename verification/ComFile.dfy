/** Many users on one keyed file with one cursor. Each user remembers the key it read or set
    last; whoever finds the cursor moved by somebody else repositions it first.

    The abstract machine gives every user a private place in one shared table. `Valid` is the
    simulation relation between the two, and every method's contract is one abstract step. */
module ComFile {
  import opened KeyBytes
  import opened KeyedFile
  import opened Wrappers

  /** Where a user stands. `Poised`: a read from there found the end, so that there is no record to
      change. `Lost`: the last call left the user's position undefined, until a set, a rewind or a
      read that succeeds. */
  datatype Place = Known(p: Position) | Poised(p: Position) | Lost

  datatype Op =
    | Get
    | GetKey(key: Key)
    | Set(key: Key)
    | Rewind
    | Update(record: Record)
    | Insert(record: Record)
    | Store(record: Record)
    | Delete(key: Key)
    | DeleteCurrent
  {
    predicate ReadOnly() {
      Get? || GetKey? || Set? || Rewind?
    }

    /** What callers owe: full-length keys, whole records to insert, and to change or delete the
        current record a record read last or a key set last. */
    predicate Permitted(layout: Layout, place: Place) {
      match this
      case Get | Rewind => true
      case GetKey(k) => |k| == layout.keyLen
      case Set(k) => |k| == layout.keyLen
      case Delete(k) => |k| == layout.keyLen
      case Insert(r) => layout.Holds(r)
      case Store(r) => layout.Holds(r)
      case Update(_) => place.Known?
      case DeleteCurrent => place.Known?
    }
  }

  ghost predicate PlaceFits(layout: Layout, place: Place) {
    (!place.Lost? ==> |place.p.key| == layout.keyLen) && (place.Poised? ==> place.p.At?)
  }

  /** The outcomes one user may see, given the table and its own place only. */
  ghost predicate Allowed(layout: Layout, m: map<Key, Record>, place: Place, op: Op, out: Outcome)
    requires layout.Stores(m) && PlaceFits(layout, place) && op.Permitted(layout, place)
  {
    match op
    case Get =>
      if !place.Lost? then out == Read(m, place.p)
      else out == Eof || (out.Got? && layout.Holds(out.record)
                          && layout.KeyOf(out.record) in m && m[layout.KeyOf(out.record)] == out.record)
    case GetKey(k) => out == if k in m then Got(m[k]) else NotFound
    case Set(_) => out == Done
    case Rewind => out == Done
    case Update(r) => out == if layout.Holds(r) && layout.KeyOf(r) == place.p.key then Done else KeyChanged
    case Insert(r) => out == if layout.KeyOf(r) in m then Duplicate else Done
    case Store(_) => out == Done
    case Delete(k) => out == if k in m then Done else NotFound
    case DeleteCurrent => out == if place.p.key in m then Done else NotFound
  }

  ghost function RecordsAfter(layout: Layout, m: map<Key, Record>, place: Place, op: Op, out: Outcome): (m': map<Key, Record>)
    requires layout.Stores(m) && PlaceFits(layout, place) && op.Permitted(layout, place)
    requires Allowed(layout, m, place, op, out)
    ensures layout.Stores(m')
    ensures op.ReadOnly() ==> m' == m
  {
    match op
    case Update(r) => if out == Done then m[layout.KeyOf(r) := r] else m
    case Insert(r) => if out == Done then m[layout.KeyOf(r) := r] else m
    case Store(r) => m[layout.KeyOf(r) := r]
    case Delete(k) => m - {k}
    case DeleteCurrent => m - {place.p.key}
    case _ => m
  }

  ghost function PlaceAfter(layout: Layout, m: map<Key, Record>, place: Place, op: Op, out: Outcome): (place': Place)
    requires layout.Stores(m) && PlaceFits(layout, place) && op.Permitted(layout, place)
    requires Allowed(layout, m, place, op, out)
    ensures PlaceFits(layout, place')
  {
    match op
    case Get =>
      if out.Got? then Known(After(layout.KeyOf(out.record)))
      else if !place.Lost? && place.p.At? then Poised(place.p)
      else Lost
    case GetKey(k) => if k in m then Known(After(k)) else Lost
    case Set(k) => Known(At(k))
    case Rewind => Known(At(Zeros(layout.keyLen)))
    case Update(_) => if out == KeyChanged || (place.p.After? && place.p.key in m) then place else Lost
    case _ => Lost
  }

  /** The owner of the cursor stands where the cursor does; having set a key, it has not moved it yet. */
  ghost predicate OwnsCursor(place: Place, cursor: Position) {
    (!place.Lost? ==> cursor == place.p) && (place.Known? ==> place.p.After?)
  }

  /** The shared half: the file, and the user its cursor belongs to. `users` and `places` exist
      for the proof only. */
  class ComMain {
    const file: KeyedFile
    var lastUser: ComFile?
    ghost var users: set<ComFile>
    ghost var places: map<ComFile, Place>

    ghost predicate Valid()
      reads this, file, users, set u <- users :: u.key
    {
      && file.Valid()
      && places.Keys == users
      && (lastUser != null ==> lastUser in users)
      && (forall u <- users :: u.main == this && u.key.Length == file.layout.keyLen && u.Remembers(places[u]))
      && (forall u <- users, v <- users :: u != v ==> u.key != v.key)
      && (lastUser != null ==> OwnsCursor(places[lastUser], file.cursor))
    }

    constructor (file: KeyedFile)
      requires file.Valid()
      ensures Valid() && this.file == file && users == {} && lastUser == null
    {
      this.file := file;
      lastUser := null;
      users := {};
      places := map[];
    }
  }

  /** One user's half: the key to go on from, and how it got there. */
  class ComFile {
    const main: ComMain
    const key: array<byte>
    var setKey: bool
    var rewindPending: bool

    /** The private fields say where the user stands, should it have to reposition. */
    ghost predicate Remembers(place: Place)
      reads this, key
    {
      && (rewindPending ==> setKey)
      && (place.Poised? ==> place.p.At?)
      && (!place.Lost? ==>
            match place.p
            case At(k) => setKey && key[..] == k && (rewindPending ==> k == Zeros(key.Length))
            case After(k) => !setKey && key[..] == k)
    }

    ghost predicate Valid()
      reads this, main, main.file, main.users, set u <- main.users :: u.key
    {
      main.Valid() && this in main.users
    }

    ghost function MyPlace(): Place
      reads main
      requires this in main.places
    {
      main.places[this]
    }

    /** `open`: a new user joins at the start of the file. */
    constructor (main: ComMain)
      requires main.Valid()
      modifies main
      ensures Valid() && this.main == main && fresh(key)
      ensures main.users == old(main.users) + {this}
      ensures main.places == old(main.places)[this := Known(At(Zeros(main.file.layout.keyLen)))]
    {
      this.main := main;
      key := new byte[main.file.layout.keyLen](_ => 0);
      setKey := true;
      rewindPending := true;
      new;
      assert key[..] == Zeros(key.Length);
      main.users := main.users + {this};
      main.places := main.places[this := Known(At(Zeros(main.file.layout.keyLen)))];
    }

    method SetKeyBytes(k: Key)
      requires |k| == key.Length
      modifies key
      ensures key[..] == k
    {
      forall i | 0 <= i < key.Length { key[i] := k[i]; }
    }

    /** One step of the abstract machine, by this user. */
    twostate predicate Steps(op: Op, out: Outcome)
      requires old(Valid())
      reads main, main.file
    {
      var layout, m, place := main.file.layout, old(main.file.records), old(MyPlace());
      && op.Permitted(layout, place)
      && Allowed(layout, m, place, op, out)
      && main.file.records == RecordsAfter(layout, m, place, op, out)
      && main.users == old(main.users)
      && main.places == old(main.places)[this := PlaceAfter(layout, m, place, op, out)]
    }

    /** Where the next sequential read starts. None: the key cannot be incremented. */
    ghost function ResumesAt(): (p: Option<Position>)
      requires Valid()
      reads this, key, main, main.file, main.users, set u <- main.users :: u.key
    {
      if main.lastUser == this then Some(main.file.cursor)
      else if setKey then Some(At(if rewindPending then Zeros(key.Length) else key[..]))
      else if Plus1(key[..]).overflow then None
      else Some(At(Plus1(key[..]).bytes))
    }

    method Rewind() returns (r: Outcome)
      requires Valid()
      modifies this, key, main
      ensures Valid() && Steps(Op.Rewind, r) && main.lastUser != this
    {
      if main.lastUser == this { main.lastUser := null; }
      SetKeyBytes(Zeros(key.Length));
      setKey := true;
      rewindPending := true;
      main.places := main.places[this := Known(At(Zeros(key.Length)))];
      StaysValid();
      r := Done;
    }

    method Set(k: Key) returns (r: Outcome)
      requires Valid() && |k| == main.file.layout.keyLen
      modifies this, key, main
      ensures Valid() && Steps(Op.Set(k), r)
    {
      if main.lastUser == this { main.lastUser := null; }
      SetKeyBytes(k);
      rewindPending := false;
      setKey := true;
      main.places := main.places[this := Known(At(k))];
      StaysValid();
      r := Done;
    }

    /** A step that leaves the other users alone keeps the simulation, if it keeps it for this
        user and for the owner of the cursor. */
    twostate lemma StaysValid()
      requires old(Valid())
      requires main.file.Valid() && main.users == old(main.users) && main.places.Keys == main.users
      requires forall v <- main.users :: v != this ==>
                 unchanged(v) && unchanged(v.key) && main.places[v] == old(main.places[v])
      requires Remembers(main.places[this])
      requires main.lastUser == this || main.lastUser == null || (main.lastUser == old(main.lastUser) && main.file.cursor == old(main.file.cursor))
      requires main.lastUser == this ==> OwnsCursor(main.places[this], main.file.cursor)
      ensures Valid()
    {
      forall v <- main.users
        ensures v.main == main && v.key.Length == main.file.layout.keyLen && v.Remembers(main.places[v])
      {
        assert v in old(main.users);
        if v != this { assert v.key[..] == old(v.key[..]); }
      }
    }

    /** A user whose place is known reads what its place says, whoever moved the cursor since. */
    lemma ResumesAtPlace()
      requires Valid() && !MyPlace().Lost?
      ensures Read(main.file.records, MyPlace().p) ==
              match ResumesAt()
              case None => Eof
              case Some(p) => Read(main.file.records, p)
    {
      var p := MyPlace().p;
      if p.After? { ReadAfterIsReadAtPlus1(main.file.records, p.key); }
    }

    /** Brings the cursor to where this user reads on, unless the key cannot be incremented.
        Between this call and the read that follows, the user's place is out of date. */
    method Reposition() returns (ok: bool)
      requires Valid()
      modifies this, key, main`lastUser, main.file`cursor
      ensures ok <==> old(ResumesAt()).Some?
      ensures main.file.Valid()
      ensures ok ==> main.lastUser == this && main.file.cursor == old(ResumesAt()).value
      ensures !ok ==> main.lastUser == old(main.lastUser) && main.file.cursor == old(main.file.cursor)
      ensures !ok ==> !setKey && key[..] == Zeros(key.Length)
      ensures setKey == old(setKey)
      ensures key[..] == if old(setKey || main.lastUser == this) then old(key[..]) else Plus1(old(key[..])).bytes
      ensures rewindPending ==> old(rewindPending) && main.lastUser == old(main.lastUser)
    {
      ok := true;
      if main.lastUser != this {
        if !setKey {
          OverflowMeansGreatest(key[..], key[..]);
          var overflow := Incr(key);
          if overflow { return false; }
        }
        main.lastUser := this;
        if rewindPending {
          rewindPending := false;
          main.file.Rewind();
        } else {
          main.file.Set(key[..]);
        }
      }
    }

    /** Reads at the cursor and remembers the key that was read. */
    method ReadOn() returns (r: Outcome)
      requires main.file.Valid() && key.Length == main.file.layout.keyLen
      requires rewindPending ==> setKey
      modifies this, key, main.file`cursor
      ensures main.file.Valid() && (rewindPending ==> setKey)
      ensures r == Read(main.file.records, old(main.file.cursor))
      ensures r.Got? || r == Eof
      ensures r == Eof ==> unchanged(this) && unchanged(key) && unchanged(main.file)
      ensures r.Got? ==> main.file.layout.Holds(r.record) && key[..] == main.file.layout.KeyOf(r.record) && !setKey
      ensures r.Got? ==> main.file.cursor == After(key[..])
      ensures r.Got? ==> key[..] in main.file.records && main.file.records[key[..]] == r.record
    {
      var layout := main.file.layout;
      r := main.file.Get();
      if r.Got? {
        if |r.record| >= layout.keyPos + layout.keyLen {
          SetKeyBytes(r.record[layout.keyPos..layout.keyPos + layout.keyLen]);
          setKey := false;
          rewindPending := false;
        }
      }
    }

    /** `_get_record`, before the proof has brought this user's place up to date. */
    method ReadNext() returns (r: Outcome)
      requires Valid()
      modifies this, key, main`lastUser, main.file`cursor
      ensures main.file.Valid() && (rewindPending ==> setKey)
      ensures old(ResumesAt()) == None ==>
                && r == Eof && key[..] == Zeros(key.Length) && !setKey
                && main.lastUser == old(main.lastUser) && main.file.cursor == old(main.file.cursor)
      ensures old(ResumesAt()).Some? ==> r == Read(main.file.records, old(ResumesAt()).value) && main.lastUser == this
      ensures r == Eof && old(ResumesAt()).Some? ==> main.file.cursor == old(ResumesAt()).value
      ensures r == Eof ==>
                && setKey == old(setKey)
                && key[..] == if old(setKey || main.lastUser == this) then old(key[..]) else Plus1(old(key[..])).bytes
      ensures r == Eof && rewindPending ==> old(rewindPending) && main.lastUser == old(main.lastUser)
      ensures r.Got? || r == Eof
      ensures r.Got? ==> main.file.layout.Holds(r.record) && key[..] == main.file.layout.KeyOf(r.record) && !setKey
      ensures r.Got? ==> main.file.cursor == After(key[..])
      ensures r.Got? ==> key[..] in main.file.records && main.file.records[key[..]] == r.record
    {
      var ok := Reposition();
      r := Eof;
      if ok { r := ReadOn(); }
    }

    method GetRecord() returns (r: Outcome)
      requires Valid()
      modifies this, key, main, main.file
      ensures Valid() && Steps(Get, r)
      ensures old(ResumesAt()) == None ==>
                r == Eof && key[..] == Zeros(key.Length) && !setKey && main.lastUser == old(main.lastUser)
      ensures old(ResumesAt()).Some? ==>
                && r == Read(main.file.records, old(ResumesAt()).value) && main.lastUser == this
                && (r == Eof ==> main.file.cursor == old(ResumesAt()).value)
      ensures r == Eof ==>
                && setKey == old(setKey)
                && key[..] == if old(setKey || main.lastUser == this) then old(key[..]) else Plus1(old(key[..])).bytes
    {
      ghost var place, m := MyPlace(), main.file.records;
      if !place.Lost? { ResumesAtPlace(); }
      r := ReadNext();
      main.places := main.places[this := PlaceAfter(main.file.layout, m, place, Get, r)];
      StaysValid();
    }

    method GetRecordKey(k: Key) returns (r: Outcome)
      requires Valid() && |k| == main.file.layout.keyLen
      modifies this, key, main, main.file
      ensures Valid() && Steps(GetKey(k), r)
    {
      main.lastUser := this;
      r := main.file.GetKey(k);
      if r.Got? {
        SetKeyBytes(k);
        setKey := false;
        rewindPending := false;
      }
      main.places := main.places[this := if r.Got? then Known(After(k)) else Lost];
      StaysValid();
    }

    method Update(record: Record) returns (r: Outcome)
      requires Valid() && Op.Update(record).Permitted(main.file.layout, MyPlace())
      modifies this, main, main.file
      ensures Valid() && Steps(Op.Update(record), r)
    {
      var layout := main.file.layout;
      if |record| < layout.keyPos + layout.keyLen || record[layout.keyPos..layout.keyPos + layout.keyLen] != key[..] {
        return KeyChanged;
      }
      ghost var place, m := MyPlace(), main.file.records;
      Replace(record);
      r := Done;
      main.places := main.places[this := PlaceAfter(layout, m, place, Op.Update(record), r)];
      StaysValid();
    }

    /** Through the cursor if it stands there, else by key, whether that was read or set. */
    method Replace(record: Record)
      requires Valid() && main.file.layout.Holds(record) && main.file.layout.KeyOf(record) == key[..]
      requires main.lastUser == this ==> main.file.cursor == After(key[..])
      modifies main`lastUser, main.file
      ensures main.file.Valid() && main.lastUser == this
      ensures main.file.records == old(main.file.records)[key[..] := record]
      ensures key[..] in old(main.file.records) ==> main.file.cursor == After(key[..])
    {
      if main.lastUser == this {
        main.file.Update(record);
      } else {
        main.lastUser := this;
        main.file.Store(record);
      }
    }

    method Insert(record: Record) returns (r: Outcome)
      requires Valid() && main.file.layout.Holds(record)
      modifies this, main, main.file
      ensures Valid() && Steps(Op.Insert(record), r)
    {
      main.lastUser := this;
      r := main.file.Insert(record);
      main.places := main.places[this := Lost];
    }

    method Store(record: Record) returns (r: Outcome)
      requires Valid() && main.file.layout.Holds(record)
      modifies this, main, main.file
      ensures Valid() && Steps(Op.Store(record), r)
    {
      main.lastUser := this;
      main.file.Store(record);
      r := Done;
      main.places := main.places[this := Lost];
    }

    method Delete(k: Key) returns (r: Outcome)
      requires Valid() && |k| == main.file.layout.keyLen
      modifies this, main, main.file
      ensures Valid() && Steps(Op.Delete(k), r)
    {
      main.lastUser := this;
      r := main.file.Delete(k);
      main.places := main.places[this := Lost];
    }

    method DeleteCurrent() returns (r: Outcome)
      requires Valid() && Op.DeleteCurrent.Permitted(main.file.layout, MyPlace())
      modifies this, main, main.file
      ensures Valid() && Steps(Op.DeleteCurrent, r)
    {
      if main.lastUser == this {
        main.file.DeleteCurrent();
        r := Done;
      } else {
        main.lastUser := this;
        r := main.file.Delete(key[..]);
      }
      main.places := main.places[this := Lost];
    }

    /** Opening again. The user starts over, except that the file is not rewound when the cursor
        is its own: then it goes on from wherever the cursor stands. */
    method Reopen()
      requires Valid()
      modifies this, key, main
      ensures Valid() && main.users == old(main.users)
      ensures main.places == old(main.places)[this :=
                if main.lastUser != this then Known(At(Zeros(key.Length)))
                else if main.file.cursor == At(Zeros(key.Length)) then Poised(At(Zeros(key.Length)))
                else Lost]
      ensures main.lastUser == old(main.lastUser)
    {
      SetKeyBytes(Zeros(key.Length));
      setKey := true;
      rewindPending := true;
      main.places := main.places[this :=
        if main.lastUser != this then Known(At(Zeros(key.Length)))
        else if main.file.cursor == At(Zeros(key.Length)) then Poised(At(Zeros(key.Length)))
        else Lost];
    }
  }
}
