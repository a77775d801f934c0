/** Whole runs of any number of users, their calls interleaved in any order. */
module ComFileRuns {
  import opened KeyBytes
  import opened KeyedFile
  import opened Wrappers
  import opened ComFile

  datatype Call = Call(user: nat, op: Op)

  /** The abstract machine: one table, and a private place per user. No cursor is shared. */
  datatype World = World(records: map<Key, Record>, places: seq<Place>)

  ghost predicate Fits(layout: Layout, w: World) {
    layout.Stores(w.records) && forall p <- w.places :: PlaceFits(layout, p)
  }

  ghost predicate MayCall(layout: Layout, w: World, c: Call) {
    c.user < |w.places| && c.op.Permitted(layout, w.places[c.user])
  }

  ghost predicate Legal(layout: Layout, w: World, c: Call, out: Outcome) {
    Fits(layout, w) && MayCall(layout, w, c) && Allowed(layout, w.records, w.places[c.user], c.op, out)
  }

  ghost function Next(layout: Layout, w: World, c: Call, out: Outcome): (w': World)
    requires Legal(layout, w, c, out)
    ensures Fits(layout, w')
  {
    var p := w.places[c.user];
    World(RecordsAfter(layout, w.records, p, c.op, out),
          w.places[c.user := PlaceAfter(layout, w.records, p, c.op, out)])
  }

  /** The machine, started in `w`, may answer `calls` with `outs`. */
  ghost predicate Explains(layout: Layout, w: World, calls: seq<Call>, outs: seq<Outcome>)
    requires Fits(layout, w)
    decreases |calls|, 0
  {
    && |calls| == |outs|
    && (calls == [] || var n := |calls| - 1;
                       && Explains(layout, w, calls[..n], outs[..n])
                       && Legal(layout, WorldAfter(layout, w, calls[..n], outs[..n]), calls[n], outs[n]))
  }

  ghost function WorldAfter(layout: Layout, w: World, calls: seq<Call>, outs: seq<Outcome>): (w': World)
    requires Fits(layout, w) && Explains(layout, w, calls, outs)
    ensures Fits(layout, w')
    decreases |calls|, 1
  {
    if calls == [] then w
    else
      var n := |calls| - 1;
      Next(layout, WorldAfter(layout, w, calls[..n], outs[..n]), calls[n], outs[n])
  }

  ghost function PlacesOf(places: map<ComFile, Place>, users: seq<ComFile>): seq<Place>
    requires forall u <- users :: u in places
  {
    seq(|users|, i requires 0 <= i < |users| => places[users[i]])
  }

  ghost predicate Ready(main: ComMain, users: seq<ComFile>)
    reads main, main.file, main.users, set u <- main.users :: u.key
  {
    && main.Valid()
    && (forall u <- users :: u in main.users)
    && (forall i, j :: 0 <= i < j < |users| ==> users[i] != users[j])
  }

  ghost function Shown(main: ComMain, users: seq<ComFile>): (w: World)
    reads main, main.file, main.users, set u <- main.users :: u.key
    requires Ready(main, users)
    ensures Fits(main.file.layout, w) && |w.places| == |users|
  {
    World(main.file.records, PlacesOf(main.places, users))
  }

  method Perform(user: ComFile, op: Op) returns (out: Outcome)
    requires user.Valid() && op.Permitted(user.main.file.layout, user.MyPlace())
    modifies user, user.key, user.main, user.main.file
    ensures user.Valid() && user.Steps(op, out)
  {
    match op
    case Get => out := user.GetRecord();
    case GetKey(k) => out := user.GetRecordKey(k);
    case Set(k) => out := user.Set(k);
    case Rewind => out := user.Rewind();
    case Update(r) => out := user.Update(r);
    case Insert(r) => out := user.Insert(r);
    case Store(r) => out := user.Store(r);
    case Delete(k) => out := user.Delete(k);
    case DeleteCurrent => out := user.DeleteCurrent();
  }

  /** Executes one call. */
  method Execute(main: ComMain, users: seq<ComFile>, c: Call) returns (out: Outcome)
    requires Ready(main, users) && MayCall(main.file.layout, Shown(main, users), c)
    modifies main, main.file, main.users, set u <- main.users :: u.key
    ensures Ready(main, users) && main.users == old(main.users)
    ensures Legal(main.file.layout, old(Shown(main, users)), c, out)
    ensures Shown(main, users) == Next(main.file.layout, old(Shown(main, users)), c, out)
  {
    out := Perform(users[c.user], c.op);
  }

  lemma ExplainsOneMore(layout: Layout, w: World, calls: seq<Call>, i: nat, outs: seq<Outcome>, out: Outcome)
    requires Fits(layout, w) && i < |calls| && Explains(layout, w, calls[..i], outs)
    requires var before := WorldAfter(layout, w, calls[..i], outs);
             MayCall(layout, before, calls[i]) && Legal(layout, before, calls[i], out)
    ensures Explains(layout, w, calls[..i + 1], outs + [out])
    ensures WorldAfter(layout, w, calls[..i + 1], outs + [out])
            == Next(layout, WorldAfter(layout, w, calls[..i], outs), calls[i], out)
  {
    assert calls[..i + 1][..i] == calls[..i] && (outs + [out])[..i] == outs;
  }

  /** Every interleaved run is a run of the abstract machine: each outcome is one the caller may
      see with a cursor of its own. */
  method Run(main: ComMain, users: seq<ComFile>, calls: seq<Call>) returns (outs: seq<Outcome>)
    requires Ready(main, users)
    requires forall i, o :: 0 <= i < |calls| && Explains(main.file.layout, Shown(main, users), calls[..i], o) ==>
                              MayCall(main.file.layout, WorldAfter(main.file.layout, Shown(main, users), calls[..i], o), calls[i])
    modifies main, main.file, main.users, set u <- main.users :: u.key
    ensures Ready(main, users)
    ensures Explains(main.file.layout, old(Shown(main, users)), calls, outs)
    ensures Shown(main, users) == WorldAfter(main.file.layout, old(Shown(main, users)), calls, outs)
  {
    ghost var w, layout := Shown(main, users), main.file.layout;
    outs := [];
    for i := 0 to |calls|
      invariant main.users == old(main.users)
      invariant Ready(main, users)
      invariant Explains(layout, w, calls[..i], outs)
      invariant Shown(main, users) == WorldAfter(layout, w, calls[..i], outs)
    {
      var out := Execute(main, users, calls[i]);
      ExplainsOneMore(layout, w, calls, i, outs, out);
      outs := outs + [out];
    }
    assert calls[..|calls|] == calls;
  }

  /** The calls of one user, and the outcomes they had. */
  function CallsOf(calls: seq<Call>, u: nat): seq<Call> {
    if calls == [] then []
    else
      var n := |calls| - 1;
      CallsOf(calls[..n], u) + (if calls[n].user == u then [calls[n]] else [])
  }

  function OutsOf(calls: seq<Call>, outs: seq<Outcome>, u: nat): seq<Outcome>
    requires |calls| == |outs|
  {
    if calls == [] then []
    else
      var n := |calls| - 1;
      OutsOf(calls[..n], outs[..n], u) + (if calls[n].user == u then [outs[n]] else [])
  }

  /** While the others only read, a user sees exactly what it would see without them. */
  lemma {:induction false} ReadsAsIfAlone(layout: Layout, w: World, calls: seq<Call>, outs: seq<Outcome>, u: nat)
    requires Fits(layout, w) && u < |w.places| && Explains(layout, w, calls, outs)
    requires forall c <- calls :: c.user != u ==> c.op.ReadOnly()
    ensures Explains(layout, w, CallsOf(calls, u), OutsOf(calls, outs, u))
    ensures var together := WorldAfter(layout, w, calls, outs);
            var alone := WorldAfter(layout, w, CallsOf(calls, u), OutsOf(calls, outs, u));
            && together.records == alone.records
            && |together.places| == |alone.places| == |w.places|
            && together.places[u] == alone.places[u]
  {
    if calls != [] {
      var n := |calls| - 1;
      var cs, os := CallsOf(calls[..n], u), OutsOf(calls[..n], outs[..n], u);
      ReadsAsIfAlone(layout, w, calls[..n], outs[..n], u);
      if calls[n].user == u {
        assert (cs + [calls[n]])[..|cs|] == cs && (os + [outs[n]])[..|cs|] == os;
        assert calls[n] in calls;
      } else {
        assert calls[n] in calls;
        assert cs + [] == cs && os + [] == os;
      }
    }
  }

  /** Nobody reads on from an undefined position. */
  ghost predicate Positioned(layout: Layout, w: World, calls: seq<Call>, outs: seq<Outcome>)
    requires Fits(layout, w) && Explains(layout, w, calls, outs)
  {
    calls == [] ||
    var n := |calls| - 1;
    && Positioned(layout, w, calls[..n], outs[..n])
    && (calls[n].op.Get? ==> WorldAfter(layout, w, calls[..n], outs[..n]).places[calls[n].user] != Lost)
  }

  lemma LastIsDetermined(layout: Layout, w: World, c: Call, out: Outcome, out': Outcome)
    requires Fits(layout, w) && MayCall(layout, w, c) && Legal(layout, w, c, out) && Legal(layout, w, c, out')
    requires c.op.Get? ==> w.places[c.user] != Lost
    ensures out == out'
  {
  }

  /** The machine leaves no choice as long as readers are positioned. */
  lemma {:induction false} OutcomesAreDetermined(layout: Layout, w: World, calls: seq<Call>, outs: seq<Outcome>, outs': seq<Outcome>)
    requires Fits(layout, w) && Explains(layout, w, calls, outs) && Explains(layout, w, calls, outs')
    requires Positioned(layout, w, calls, outs)
    ensures outs == outs'
  {
    if calls != [] {
      var n := |calls| - 1;
      OutcomesAreDetermined(layout, w, calls[..n], outs[..n], outs'[..n]);
      LastIsDetermined(layout, WorldAfter(layout, w, calls[..n], outs[..n]), calls[n], outs[n], outs'[n]);
      assert outs == outs[..n] + [outs[n]] && outs' == outs'[..n] + [outs'[n]];
    }
  }

  /** The same for one user only. */
  ghost predicate UserPositioned(layout: Layout, w: World, calls: seq<Call>, outs: seq<Outcome>, u: nat)
    requires Fits(layout, w) && u < |w.places| && Explains(layout, w, calls, outs)
  {
    calls == [] ||
    var n := |calls| - 1;
    && UserPositioned(layout, w, calls[..n], outs[..n], u)
    && (calls[n].user == u && calls[n].op.Get? ==> WorldAfter(layout, w, calls[..n], outs[..n]).places[u] != Lost)
  }

  lemma {:induction false} PositionedAlone(layout: Layout, w: World, calls: seq<Call>, outs: seq<Outcome>, u: nat)
    requires Fits(layout, w) && u < |w.places| && Explains(layout, w, calls, outs)
    requires forall c <- calls :: c.user != u ==> c.op.ReadOnly()
    requires UserPositioned(layout, w, calls, outs, u)
    ensures Explains(layout, w, CallsOf(calls, u), OutsOf(calls, outs, u))
    ensures Positioned(layout, w, CallsOf(calls, u), OutsOf(calls, outs, u))
  {
    ReadsAsIfAlone(layout, w, calls, outs, u);
    if calls != [] {
      var n := |calls| - 1;
      var cs, os := CallsOf(calls[..n], u), OutsOf(calls[..n], outs[..n], u);
      assert forall c <- calls[..n] :: c in calls;
      PositionedAlone(layout, w, calls[..n], outs[..n], u);
      if calls[n].user == u {
        ReadsAsIfAlone(layout, w, calls[..n], outs[..n], u);
        assert (cs + [calls[n]])[..|cs|] == cs && (os + [outs[n]])[..|cs|] == os;
      } else {
        assert cs + [] == cs && os + [] == os;
      }
    }
  }

  /** While the others only read, a user who never reads on from an undefined position has, call for
      call, the outcomes of any run of these calls with nobody else. */
  lemma SeesWhatItWouldAlone(layout: Layout, w: World, calls: seq<Call>, outs: seq<Outcome>, u: nat, alone: seq<Outcome>)
    requires Fits(layout, w) && u < |w.places| && Explains(layout, w, calls, outs)
    requires forall c <- calls :: c.user != u ==> c.op.ReadOnly()
    requires UserPositioned(layout, w, calls, outs, u)
    requires Explains(layout, w, CallsOf(calls, u), alone)
    ensures OutsOf(calls, outs, u) == alone
  {
    PositionedAlone(layout, w, calls, outs, u);
    OutcomesAreDetermined(layout, w, CallsOf(calls, u), OutsOf(calls, outs, u), alone);
  }

  /** Reading again at the end of the file. The increment that finds no later key leaves its
      wrapped result behind, so a second read starts over near the front of the file: exactly
      when the key read last was the greatest there is and a record follows key zero. */
  method GetTwiceAtEnd(user: ComFile, k: Key) returns (first: Outcome, second: Outcome)
    requires user.Valid() && user.MyPlace() == Known(After(k)) && user.main.lastUser != user
    requires |k| == user.main.file.layout.keyLen > 0
    requires Read(user.main.file.records, After(k)) == Eof
    modifies user, user.key, user.main, user.main.file
    ensures first == Eof
    ensures second == Eof <==>
            (exists i :: 0 <= i < |k| && k[i] != 255) ||
            Read(old(user.main.file.records), At(Plus1(Zeros(|k|)).bytes)) == Eof
  {
    ghost var m, wrapped := user.main.file.records, Plus1(Zeros(|k|));
    assert user.key[..] == k;
    assert Plus1(k).overflow <==> forall i :: 0 <= i < |k| ==> k[i] == 255 by { OverflowMeansGreatest(k, k); }
    assert !wrapped.overflow by { OverflowMeansGreatest(Zeros(|k|), k); assert Zeros(|k|)[0] == 0; }
    first := user.GetRecord();
    assert Read(m, After(k)) == first && user.main.file.records == m;
    assert !Plus1(k).overflow ==> user.ResumesAt() == Some(user.main.file.cursor) && Read(m, user.main.file.cursor) == Eof;
    assert Plus1(k).overflow ==> user.ResumesAt() == Some(At(wrapped.bytes));
    second := user.GetRecord();
  }

  /** What a user reads whose key is `key`, when the cursor has been moved by others. */
  ghost function ReadNext(m: map<Key, Record>, key: Key): Outcome
    requires forall j :: j in m.Keys ==> |j| == |key|
  {
    if Plus1(key).overflow then Eof else Read(m, At(Plus1(key).bytes))
  }

  /** How often the key can be incremented before it is zero again. */
  function Wrap(k: Key): (n: nat)
    ensures n > 0
  {
    ValueFits(k);
    Power(|k|) - Value(k)
  }

  ghost predicate NothingFromOne(m: map<Key, Record>, len: nat)
    requires forall j :: j in m.Keys ==> |j| == len
  {
    Read(m, At(Plus1(Zeros(len)).bytes)) == Eof
  }

  /** The key after `i` reads that found the end, where the first started after `k`. */
  ghost predicate Incremented(m: map<Key, Record>, k: Key, key: Key, i: nat)
    requires forall j :: j in m.Keys ==> |j| == |k|
  {
    && |key| == |k|
    && (i < Wrap(k) ==> Value(key) == Value(k) + i)
    && (i == Wrap(k) ==> Value(key) == 0)
    && (i > Wrap(k) ==> NothingFromOne(m, |k|))
  }

  /** Nothing is found from a key on if nothing is found from a smaller one. */
  lemma NothingFromGreater(m: map<Key, Record>, a: Key, b: Key)
    requires |a| == |b| && (forall j :: j in m.Keys ==> |j| == |a|)
    requires Value(a) <= Value(b) && Read(m, At(a)) == Eof
    ensures Read(m, At(b)) == Eof
  {
    forall j | j in m.Keys ensures !Reaches(At(b), j) {
      assert !Reaches(At(a), j);
      LessIsSmaller(j, a);
      LessIsSmaller(j, b);
    }
  }

  lemma NothingBehind(m: map<Key, Record>, k: Key, b: Key)
    requires |k| == |b| && (forall j :: j in m.Keys ==> |j| == |k|)
    requires Value(k) < Value(b) && Read(m, After(k)) == Eof
    ensures Read(m, At(b)) == Eof
  {
    forall j | j in m.Keys ensures !Reaches(At(b), j) {
      assert !Reaches(After(k), j);
      LessIsSmaller(k, j);
      LessIsSmaller(j, b);
    }
  }

  lemma OneIsOne(len: nat)
    requires len > 0
    ensures var s := Plus1(Zeros(len)); !s.overflow && |s.bytes| == len && Value(s.bytes) == 1
  {
    ZeroIsZeros(Zeros(len));
    Plus1Adds(Zeros(len));
    ValueFits(Plus1(Zeros(len)).bytes);
    OverflowMeansGreatest(Zeros(len), Zeros(len));
    assert Zeros(len)[0] == 0;
  }

  lemma IncrementedOn(m: map<Key, Record>, k: Key, key: Key, i: nat)
    requires |k| > 0 && (forall j :: j in m.Keys ==> |j| == |k|)
    requires Read(m, After(k)) == Eof && Incremented(m, k, key, i)
    ensures ReadNext(m, key) == Eof ==> Incremented(m, k, Plus1(key).bytes, i + 1)
    ensures ReadNext(m, key) != Eof <==> i == Wrap(k) && !NothingFromOne(m, |k|)
  {
    var s := Plus1(key);
    Plus1Adds(key);
    ValueFits(s.bytes);
    ValueFits(k);
    OneIsOne(|k|);
    ZeroIsZeros(key);
    if i < Wrap(k) {
      if !s.overflow { NothingBehind(m, k, s.bytes); }
    } else if i == Wrap(k) {
      assert key == Zeros(|k|);
    } else if !s.overflow {
      NothingFromGreater(m, Plus1(Zeros(|k|)).bytes, s.bytes);
    }
  }

  /** Reading on and on at the end of the file, while another user takes the cursor away each time.
      The key counts up until it wraps around; then the user starts over at the front, unless nothing
      is there from key one on. */
  method ReadOnAndOn(user: ComFile, other: ComFile, k: Key, n: nat) returns (count: nat, r: Outcome)
    requires user.Valid() && other.Valid() && user.main == other.main && user != other
    requires user.MyPlace() == Known(After(k)) && user.main.lastUser != user
    requires |k| == user.main.file.layout.keyLen > 0 && Read(user.main.file.records, After(k)) == Eof
    modifies user, user.key, other, other.key, user.main, user.main.file
    ensures user.main.file.records == old(user.main.file.records)
    ensures if n > Wrap(k) && !NothingFromOne(old(user.main.file.records), |k|)
            then r.Got? && count == Wrap(k) + 1
            else r == Eof && count == n
  {
    ghost var main, m := user.main, user.main.file.records;
    assert user.key[..] == k;
    count, r := 0, Eof;
    while count < n && r == Eof
      invariant user.Valid() && other.Valid() && main.file.records == m
      invariant r == Eof || r.Got?
      invariant r == Eof ==> main.lastUser != user && !user.setKey && Incremented(m, k, user.key[..], count) && count <= n
      invariant r == Eof && count > Wrap(k) ==> NothingFromOne(m, |k|)
      invariant r.Got? ==> count == Wrap(k) + 1 <= n && !NothingFromOne(m, |k|)
    {
      IncrementedOn(m, k, user.key[..], count);
      r := user.GetRecord();
      count := count + 1;
      if r == Eof { TakeCursor(user, other); }
    }
  }

  /** Another user reads the first record. */
  method TakeCursor(user: ComFile, other: ComFile)
    requires user.Valid() && other.Valid() && user.main == other.main && user != other
    modifies other, other.key, user.main, user.main.file
    ensures user.Valid() && other.Valid() && user.main.lastUser == other
    ensures user.main.file.records == old(user.main.file.records)
    ensures user.setKey == old(user.setKey) && user.key[..] == old(user.key[..])
  {
    var r := other.Rewind();
    r := other.GetRecord();
  }
}
