/** Database sessions shared by files: who holds which, which are registered with the client, and
    when a registered one is used again. */
module Sessions {
  import opened Wrappers

  /** What makes two connections the same. `kind` stands for the type of database. */
  datatype Target = Target(kind: nat, id: string, db: string, qualifier: string, user: string)

  class Session {
    var refCount: nat
    var arrayIndex: Option<nat>
    var target: Target
    var writable: bool

    constructor ()
      ensures refCount == 0 && arrayIndex == None
    {
      refCount := 0;
      arrayIndex := None;
      target := Target(0, "", "", "", "");
      writable := false;
    }
  }

  class DatabaseFile {
    const target: Target
    const reads_: bool
    const writes: bool
    const keepSession: bool
    var session: Session?

    constructor (target: Target, reads_: bool, writes: bool, keepSession: bool)
      ensures session == null && this.target == target && this.reads_ == reads_
      ensures this.writes == writes && this.keepSession == keepSession
    {
      this.target, this.reads_, this.writes, this.keepSession := target, reads_, writes, keepSession;
      session := null;
    }

    /** A session opened for a file that names neither direction is opened for both. */
    predicate OpensWritable() {
      writes || !reads_
    }
  }

  /** The client with its array of sessions. The profile may replace qualifier and user of a
      connection to a named database. `files` and `sessions` exist for the proof only. */
  class Client {
    const profile: Target -> (string, string)
    const keepSessionsOpen: bool
    var slots: seq<Session?>
    ghost var files: set<DatabaseFile>
    ghost var sessions: set<Session>

    function Profiled(t: Target): Target {
      if t.db == "" then t else t.(qualifier := profile(t).0, user := profile(t).1)
    }

    ghost function Holders(s: Session): set<DatabaseFile>
      reads this`files, files`session
    {
      set f <- files | f.session == s
    }

    /** Every session counts the files that hold it. */
    ghost predicate Counted()
      reads this`files, this`sessions, files`session, sessions`refCount
    {
      && (forall f <- files :: f.session != null ==> f.session in sessions)
      && (forall s <- sessions :: s.refCount == |Holders(s)|)
    }

    /** A registered session sits in the slot it names, and nowhere else. */
    ghost predicate Registered()
      reads this`slots, this`sessions, sessions`arrayIndex
    {
      && (forall s <- sessions :: s.arrayIndex.Some? ==> s.arrayIndex.value < |slots| && slots[s.arrayIndex.value] == s)
      && (forall i :: 0 <= i < |slots| && slots[i] != null ==> slots[i] in sessions && slots[i].arrayIndex == Some(i))
    }

    ghost predicate Valid()
      reads this, files, sessions
    {
      Counted() && Registered()
    }

    constructor (profile: Target -> (string, string), keepSessionsOpen: bool)
      ensures Valid() && slots == [] && files == {} && sessions == {}
      ensures this.profile == profile && this.keepSessionsOpen == keepSessionsOpen
    {
      this.profile, this.keepSessionsOpen := profile, keepSessionsOpen;
      slots, files, sessions := [], {}, {};
    }

    /** No two registered sessions to a named database serve the same target in the same way. */
    ghost predicate Unique()
      reads this`slots, slots
    {
      forall i, j :: 0 <= i < j < |slots| && slots[i] != null && slots[j] != null
                     && slots[i].target == slots[j].target && slots[i].target.db != "" ==>
                       slots[i].writable != slots[j].writable
    }

    predicate Serves(i: nat, f: DatabaseFile)
      requires i < |slots|
      reads this`slots, slots[i]
    {
      var s := slots[i];
      s != null && s.target == f.target && s.target.db != "" && (f.writes ==> s.writable)
    }

    method AddFile(f: DatabaseFile)
      requires Valid() && f !in files && f.session == null
      modifies this`files
      ensures Valid() && files == old(files) + {f}
    {
      files := files + {f};
      assert forall s <- sessions :: Holders(s) == old(Holders(s));
    }

    /** `Sos_database_session::close` */
    method Close(s: Session)
      requires Valid() && s in sessions
      modifies this`slots, s`arrayIndex
      ensures Valid() && s.arrayIndex == None
      ensures |slots| == |old(slots)|
      ensures forall i :: 0 <= i < |slots| ==> slots[i] == if old(slots[i]) == s then null else old(slots[i])
    {
      if s.arrayIndex.Some? {
        var index := s.arrayIndex.value;
        s.arrayIndex := None;
        slots := slots[index := null];
      }
    }

    /** `session_disconnect`: the last holder closes the session, unless it is to be kept. */
    method Disconnect(f: DatabaseFile)
      requires Valid() && f in files
      modifies this`slots, f`session, sessions`refCount, sessions`arrayIndex
      ensures Valid() && f.session == null && |slots| == |old(slots)|
      ensures forall s <- sessions :: s != old(f.session) ==> s.arrayIndex == old(s.arrayIndex)
      ensures forall s <- sessions :: s.refCount == old(s.refCount) - if s == old(f.session) then 1 else 0
      ensures var s := old(f.session);
              forall i :: 0 <= i < |slots| ==>
                            slots[i] == if s != null && old(slots[i]) == s && s.refCount == 0 && !f.keepSession && !keepSessionsOpen
                                        then null else old(slots[i])
    {
      if f.session == null { return; }
      var s := f.session;
      Release(f);
      if s.refCount == 0 && !f.keepSession && !keepSessionsOpen {
        Close(s);
      }
    }

    method Release(f: DatabaseFile)
      requires Counted() && f in files && f.session != null
      modifies f`session, f.session`refCount
      ensures Counted() && f.session == null && old(f.session).refCount == old(f.session.refCount) - 1
    {
      var s := f.session;
      ghost var before := map t <- sessions :: Holders(t);
      assert f in before[s] && |before[s]| > 0;
      f.session := null;
      s.refCount := s.refCount - 1;
      assert forall t <- sessions :: Holders(t) == before[t] - (if t == s then {f} else {});
    }

    /** The first registered session that serves the file. */
    method Find(f: DatabaseFile) returns (i: nat)
      requires Valid()
      ensures i <= |slots| && (i < |slots| ==> Serves(i, f))
      ensures forall k :: 0 <= k < i ==> !Serves(k, f)
    {
      i := 0;
      while i < |slots| && !Serves(i, f)
        invariant i <= |slots| && forall k :: 0 <= k < i ==> !Serves(k, f)
      {
        i := i + 1;
      }
    }

    /** The first free slot; a new one if all are taken. */
    method FreeSlot() returns (i: nat)
      requires Registered()
      modifies this`slots
      ensures Registered() && i < |slots| && slots[i] == null
      ensures slots == old(slots) || slots == old(slots) + [null]
    {
      i := 0;
      while i < |slots| && slots[i] != null
        invariant i <= |slots|
      {
        i := i + 1;
      }
      if i == |slots| { slots := slots + [null]; }
    }

    /** Registers a new holder. */
    method Attach(f: DatabaseFile, s: Session)
      requires Counted() && f in files && f.session == null && s in sessions
      modifies f`session, s`refCount
      ensures Counted() && f.session == s && s.refCount == old(s.refCount) + 1
    {
      ghost var before := map t <- sessions :: Holders(t);
      f.session := s;
      s.refCount := s.refCount + 1;
      forall t <- sessions ensures |Holders(t)| == t.refCount {
        assert f !in before[t];
        assert Holders(t) == before[t] + (if t == s then {f} else {});
        assert |before[t]| == old(t.refCount);
      }
    }

    /** `get_session`. `connects` says whether the database lets the new session in. If it does not,
        the file holds a session that is registered nowhere. */
    method GetSession(f: DatabaseFile, connects: bool) returns (reused: bool)
      requires Valid() && f in files
      modifies this`slots, this`sessions, f`session, sessions`refCount, sessions`arrayIndex
      ensures Valid() && f.session != null && old(sessions) <= sessions && fresh(sessions - old(sessions))
      ensures forall s <- old(sessions) :: s != old(f.session) ==> s.arrayIndex == old(s.arrayIndex)
      ensures forall i :: 0 <= i < |slots| ==>
                            slots[i] == null || slots[i] == f.session || (i < |old(slots)| && slots[i] == old(slots)[i])
      ensures reused ==> sessions == old(sessions) && f.session.arrayIndex.Some? && Serves(f.session.arrayIndex.value, f)
      ensures reused ==> |slots| == |old(slots)| && forall i :: 0 <= i < |slots| ==> slots[i] == null || slots[i] == old(slots)[i]
      ensures !reused ==> fresh(f.session) && f.session.refCount == 1 && (f.session.arrayIndex.Some? <==> connects)
      ensures !reused ==> f.session.target == Profiled(f.target) && f.session.writable == f.OpensWritable()
      ensures !reused ==> forall i :: 0 <= i < |slots| ==> slots[i] == f.session || !Serves(i, f)
    {
      Disconnect(f);
      var i := Find(f);
      reused := i < |slots|;
      if reused {
        Attach(f, slots[i]);
      } else {
        label before:
        CreateSession(f, connects);
        forall k | 0 <= k < |slots| && slots[k] != f.session ensures !Serves(k, f) {
          assert slots[k] != null ==> k < old@before(|slots|) && slots[k] == old@before(slots[k]) && !old@before(Serves(k, f));
        }
      }
    }

    /** Opens a session in a free slot. */
    method CreateSession(f: DatabaseFile, connects: bool)
      requires Valid() && f in files && f.session == null
      modifies this`slots, this`sessions, f`session
      ensures Valid() && f.session != null && fresh(f.session) && sessions == old(sessions) + {f.session}
      ensures f.session.refCount == 1 && (f.session.arrayIndex.Some? <==> connects)
      ensures f.session.target == Profiled(f.target) && f.session.writable == f.OpensWritable()
      ensures |old(slots)| <= |slots| <= |old(slots)| + 1
      ensures forall i :: 0 <= i < |slots| ==>
                            slots[i] == if f.session.arrayIndex == Some(i) then f.session
                                        else if i < |old(slots)| then old(slots)[i] else null
    {
      var i := FreeSlot();
      var s := NewSession(f);
      Attach(f, s);
      if connects { Enter(s, i); }
    }

    /** Puts a new session into its slot. */
    method Enter(s: Session, i: nat)
      requires Registered() && s in sessions && s.arrayIndex == None && i < |slots| && slots[i] == null
      modifies this`slots, s`arrayIndex
      ensures Registered() && slots == old(slots)[i := s] && s.arrayIndex == Some(i)
    {
      slots := slots[i := s];
      s.arrayIndex := Some(i);
    }

    method NewSession(f: DatabaseFile) returns (s: Session)
      requires Counted() && Registered()
      modifies this`sessions
      ensures Counted() && Registered() && fresh(s) && sessions == old(sessions) + {s}
      ensures s.refCount == 0 && s.arrayIndex == None
      ensures s.target == Profiled(f.target) && s.writable == f.OpensWritable()
    {
      s := new Session();
      s.target := Profiled(f.target);
      s.writable := f.OpensWritable();
      sessions := sessions + {s};
      assert Holders(s) == {};
    }

    /** The same, and what it makes of the uniqueness of registered sessions. */
    method Connect(f: DatabaseFile, connects: bool) returns (reused: bool)
      requires Valid() && f in files
      modifies this`slots, this`sessions, f`session, sessions`refCount, sessions`arrayIndex
      ensures Valid() && f.session != null && old(sessions) <= sessions && fresh(sessions - old(sessions))
      ensures forall s <- old(sessions) :: s != old(f.session) ==> s.arrayIndex == old(s.arrayIndex)
      ensures old(Unique()) && Profiled(f.target) == f.target ==> Unique()
      ensures !reused ==> f.session.target == Profiled(f.target) && f.session.writable == f.OpensWritable()
      ensures !reused ==> fresh(f.session) && (f.session.arrayIndex.Some? <==> connects)
      ensures forall i :: 0 <= i < |slots| ==>
                            slots[i] == null || slots[i] == f.session || (i < |old(slots)| && slots[i] == old(slots)[i])
      ensures (forall i :: 0 <= i < |old(slots)| ==> !old(Serves(i, f))) ==> !reused
    {
      reused := GetSession(f, connects);
      if reused {
        var i := f.session.arrayIndex.value;
        assert slots[i] == old(slots)[i] && old(Serves(i, f));
      }
      if old(Unique()) && Profiled(f.target) == f.target {
        forall i, j | 0 <= i < j < |slots| && slots[i] != null && slots[j] != null
                      && slots[i].target == slots[j].target && slots[i].target.db != ""
          ensures slots[i].writable != slots[j].writable
        {
          if slots[i] != f.session && slots[j] != f.session {
            assert slots[i] == old(slots)[i] && slots[j] == old(slots)[j];
          } else if reused {
            assert slots[i] == old(slots)[i] && slots[j] == old(slots)[j];
          } else if slots[i] == f.session {
            assert slots[j] == old(slots)[j] && !Serves(j, f);
          } else {
            assert slots[i] == old(slots)[i] && !Serves(i, f);
          }
        }
      }
    }
  }

  datatype Event = Connects(file: nat, admitted: bool) | Disconnects(file: nat)

  /** Any run of connects and disconnects. Counts and slots are right throughout, and if the
      profile replaces nothing no target is served twice in the same way. */
  method Run(c: Client, files: seq<DatabaseFile>, events: seq<Event>)
    requires c.Valid() && forall f <- files :: f in c.files
    requires forall e <- events :: e.file < |files|
    modifies c`slots, c`sessions, c.files`session, c.sessions`refCount, c.sessions`arrayIndex
    ensures c.Valid()
    ensures old(c.Unique()) && (forall f <- files :: c.Profiled(f.target) == f.target) ==> c.Unique()
  {
    ghost var unreplaced := c.Unique() && forall f <- files :: c.Profiled(f.target) == f.target;
    for k := 0 to |events|
      invariant c.files == old(c.files) && c.Valid() && (unreplaced ==> c.Unique())
      invariant forall s <- c.sessions :: s in old(c.sessions) || fresh(s)
    {
      assert events[k] in events;
      match events[k]
      case Connects(i, admitted) =>
        var reused := c.Connect(files[i], admitted);
      case Disconnects(i) =>
        c.Disconnect(files[i]);
    }
  }

  /** A profile that replaces the user or the qualifier of some target defeats that: two files that
      name the target get a session each, both for the replaced target. */
  method TwoSessionsForOneTarget(profile: Target -> (string, string), t: Target) returns (c: Client)
    requires t.db != "" && t.(qualifier := profile(t).0, user := profile(t).1) != t
    ensures c.Valid() && !c.Unique()
  {
    c := new Client(profile, false);
    var f := new DatabaseFile(t, true, true, false);
    var g := new DatabaseFile(t, true, true, false);
    c.AddFile(f);
    c.AddFile(g);
    var reused := c.Connect(f, true);
    var s := f.session;
    assert forall i :: 0 <= i < |c.slots| ==> !c.Serves(i, g);
    reused := c.Connect(g, true);
    ghost var i, j := s.arrayIndex.value, g.session.arrayIndex.value;
    assert c.slots[i] == s != g.session == c.slots[j] && i != j;
    assert s.target == g.session.target && s.target.db != "" && s.writable == g.session.writable;
    ghost var low, high := if i < j then i else j, if i < j then j else i;
    assert c.slots[low].target == c.slots[high].target && c.slots[low].writable == c.slots[high].writable;
  }
}
