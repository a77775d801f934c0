/** Whole runs on an ascending record file: reads, lookups and positionings by key, in any order. */
module KeyedRuns {
  import opened KeyBytes
  import opened Wrappers
  import opened RecordFormat
  import opened SortedRecords
  import opened StdFile

  datatype Move = Next | Lookup(key: seq<byte>) | Position(key: seq<byte>)

  /** The record that comes next, the one read last, whether the last read ran into the end, whether
      the last move was a positioning, and the outcomes so far. */
  datatype Log = Log(next: nat, last: Option<nat>, ended: bool, positioned: bool, outs: seq<Outcome>)

  const NEW := Log(0, None, false, false, [])

  ghost predicate Fits(spec: KeySpec, es: seq<Entry>, log: Log) {
    && Ascending(spec, es)
    && log.next <= |es| && (log.last.Some? ==> log.last.value < |es|) && (log.positioned ==> log.last.Some?)
  }

  /** What a run may do. Keys have their full length. A key beyond the last record is looked up but
      not positioned on; and nobody asks for the current key after running into the end, or goes
      back right after a positioning. */
  ghost predicate Admitted(spec: KeySpec, es: seq<Entry>, log: Log, move: Move)
    requires Fits(spec, es, log)
  {
    move.Next? ||
    (&& |move.key| == spec.len
     && (log.last.Some? ==>
           var current := KeyOf(spec, es[log.last.value]);
           (log.ended ==> move.key != current) && (log.positioned ==> Less(current, move.key)))
     && (move.Position? ==> Rank(spec, es, move.key) < |es|))
  }

  /** The record with a key, if there is one. */
  ghost function Found(spec: KeySpec, es: seq<Entry>, k: seq<byte>): Outcome
    requires Ascending(spec, es) && |k| == spec.len
  {
    var n := Rank(spec, es, k);
    if n < |es| && KeyOf(spec, es[n]) == k then Got(es[n].record) else NotFound
  }

  /** What one move does, as far as the records alone can tell. */
  ghost function Moved(spec: KeySpec, es: seq<Entry>, log: Log, move: Move): (log': Log)
    requires Fits(spec, es, log) && Admitted(spec, es, log, move)
    ensures Fits(spec, es, log')
  {
    match move
    case Next =>
      if log.next < |es| then Log(log.next + 1, Some(log.next), false, false, log.outs + [Got(es[log.next].record)])
      else log.(ended := true, positioned := false, outs := log.outs + [Eof])
    case Lookup(k) =>
      var n, outs := Rank(spec, es, k), log.outs + [Found(spec, es, k)];
      if n < |es| then Log(n + 1, Some(n), false, false, outs)
      else Log(n, if n == 0 then None else Some(n - 1), true, false, outs)
    case Position(k) =>
      var n := Rank(spec, es, k);
      Log(n, Some(n), false, true, log.outs)
  }

  ghost predicate AllAdmitted(spec: KeySpec, es: seq<Entry>, moves: seq<Move>)
    requires Ascending(spec, es)
    decreases |moves|, 0
  {
    moves == [] ||
    var n := |moves| - 1;
    AllAdmitted(spec, es, moves[..n]) && Admitted(spec, es, After(spec, es, moves[..n]), moves[n])
  }

  ghost function After(spec: KeySpec, es: seq<Entry>, moves: seq<Move>): (log: Log)
    requires Ascending(spec, es) && AllAdmitted(spec, es, moves)
    ensures Fits(spec, es, log)
    decreases |moves|, 1
  {
    if moves == [] then NEW else Moved(spec, es, After(spec, es, moves[..|moves| - 1]), moves[|moves| - 1])
  }

  // ----- the buffered reader follows

  /** The reader stands where the log says. */
  ghost predicate Stands(f: StdFile, log: Log)
    reads f, f.os
  {
    && f.key.Some? && Fits(f.key.value, f.File(), log)
    && f.Orderly() && f.Here(log.next)
    && (if log.last.None? then f.currentKey == []
        else f.currentKey == KeyOf(f.key.value, f.File()[log.last.value]) && f.currentKey != [])
    && (log.last.Some? && !log.ended ==> ScanAt(f.format, f.os.bytes, f.recordPos).Rec?)
    && (!log.positioned ==> f.SeeksInside())
  }

  lemma EntryIsRecord(format: Format, disk: seq<byte>, i: nat)
    requires i < |Entries(format, disk, 0)|
    ensures ScanAt(format, disk, Entries(format, disk, 0)[i].at).Rec?
  {
    BeforeEntry(format, disk, 0, i);
  }

  /** After a read the reader stands behind the record, or at the end. */
  lemma StandsBehind(f: StdFile, i: nat, r: Outcome, log: Log)
    requires f.key.Some? && f.Orderly() && f.SeeksInside() && i <= |f.File()| && f.JustRead(i, r)
    requires log.next == (if i < |f.File()| then i + 1 else i) && log.ended == (i == |f.File()|)
    requires log.last == if i < |f.File()| then Some(i) else if i == 0 then None else Some(i - 1)
    requires f.File() != [] ==> f.currentKey != []
    requires !log.positioned
    ensures Stands(f, log)
  {
    var es := f.File();
    if i < |es| {
      EntryIsRecord(f.format, f.os.bytes, i);
    } else if es != [] {
      var t: nat :| Tracks(f.key.value, f.format, f.os.bytes, f.Now(), t);
      assert |es[t..]| <= 1;
    }
  }

  /** Looking for an admitted key needs no seek that goes wrong. */
  lemma MaySeek(f: StdFile, log: Log, move: Move)
    requires Stands(f, log) && Admitted(f.key.value, f.File(), log, move) && !move.Next?
    ensures f.SeeksFor(move.key) && |move.key| == f.key.value.len
    ensures f.currentKey != [] && move.key == f.currentKey ==> ScanAt(f.format, f.os.bytes, f.recordPos).Rec?
  {
    var es := f.File();
    if log.last.Some? { assert es[log.last.value] in es; }
  }

  method Read(f: StdFile, ghost log: Log) returns (r: Outcome)
    requires Stands(f, log)
    modifies f, f.os`offset
    ensures Stands(f, Moved(f.key.value, f.File(), log, Next))
    ensures r == if log.next < |f.File()| then Got(f.File()[log.next].record) else Eof
  {
    ghost var es, moved := f.File(), Moved(f.key.value, f.File(), log, Next);
    r := f.GetNext(log.next);
    if log.next < |es| { StandsBehind(f, log.next, r, moved); }
  }

  method Find(f: StdFile, k: seq<byte>, ghost log: Log) returns (r: Outcome)
    requires Stands(f, log) && Admitted(f.key.value, f.File(), log, Lookup(k))
    modifies f, f.os`offset
    ensures Stands(f, Moved(f.key.value, f.File(), log, Lookup(k)))
    ensures r == Found(f.key.value, f.File(), k)
  {
    MaySeek(f, log, Lookup(k));
    r := f.GetRecordKey(k);
    StandsFound(f, k, r, log);
  }

  lemma StandsFound(f: StdFile, k: seq<byte>, r: Outcome, log: Log)
    requires f.key.Some? && f.Orderly() && f.SeeksInside() && |k| == f.key.value.len && f.LookedUp(k, r)
    requires f.File() != [] ==> f.currentKey != []
    requires Fits(f.key.value, f.File(), log) && Admitted(f.key.value, f.File(), log, Lookup(k))
    ensures Stands(f, Moved(f.key.value, f.File(), log, Lookup(k))) && r == Found(f.key.value, f.File(), k)
  {
    var es, n := f.File(), Rank(f.key.value, f.File(), k);
    f.StoppedAtRank(k, r);
    LookupMoves(f.key.value, es, log, k, n);
    StandsBehind(f, n, if n < |es| then Got(es[n].record) else Eof, Moved(f.key.value, es, log, Lookup(k)));
  }

  lemma LookupMoves(spec: KeySpec, es: seq<Entry>, log: Log, k: seq<byte>, n: nat)
    requires Fits(spec, es, log) && Admitted(spec, es, log, Lookup(k)) && n == Rank(spec, es, k)
    ensures var log' := Moved(spec, es, log, Lookup(k));
            && n <= |es| && log'.next == (if n < |es| then n + 1 else n) && log'.ended == (n == |es|)
            && log'.last == (if n < |es| then Some(n) else if n == 0 then None else Some(n - 1)) && !log'.positioned
  {
  }

  method Place(f: StdFile, k: seq<byte>, ghost log: Log)
    requires Stands(f, log) && Admitted(f.key.value, f.File(), log, Position(k))
    modifies f, f.os`offset
    ensures Stands(f, Moved(f.key.value, f.File(), log, Position(k)))
  {
    MaySeek(f, log, Position(k));
    ghost var es, n := f.File(), Rank(f.key.value, f.File(), k);
    f.Set(k);
    EntryIsRecord(f.format, f.os.bytes, n);
    assert es[n] in es;
  }

  method MakeMove(f: StdFile, move: Move, outs: seq<Outcome>, ghost log: Log) returns (outs': seq<Outcome>)
    requires Stands(f, log) && Admitted(f.key.value, f.File(), log, move) && outs == log.outs
    modifies f, f.os`offset
    ensures Stands(f, Moved(f.key.value, f.File(), log, move))
    ensures outs' == Moved(f.key.value, f.File(), log, move).outs
  {
    outs' := outs;
    match move
    case Next =>
      var r := Read(f, log);
      outs' := outs + [r];
    case Lookup(k) =>
      var r := Find(f, k, log);
      outs' := outs + [r];
    case Position(k) =>
      Place(f, k, log);
  }

  lemma StandsNew(f: StdFile)
    requires f.Sound() && f.LogicalPos() == 0 && f.buffer == [] && f.currentKey == []
    requires f.key.Some? && Ascending(f.key.value, f.File())
    ensures Stands(f, NEW)
  {
    assert Before(f.format, f.os.bytes, 0, 0);
  }

  /** Every admitted run gives the outcomes that the records and the ranks of the keys determine,
      however the file is cut into chunks. */
  method Run(f: StdFile, moves: seq<Move>) returns (outs: seq<Outcome>)
    requires f.Sound() && f.LogicalPos() == 0 && f.buffer == [] && f.currentKey == []
    requires f.key.Some? && Ascending(f.key.value, f.File()) && AllAdmitted(f.key.value, f.File(), moves)
    modifies f, f.os`offset
    ensures outs == After(f.key.value, f.File(), moves).outs
    ensures Stands(f, After(f.key.value, f.File(), moves))
  {
    ghost var spec, es, log := f.key.value, f.File(), NEW;
    outs := [];
    StandsNew(f);
    assert moves[..0] == [];
    for i := 0 to |moves|
      invariant f.File() == es && Stands(f, log) && outs == log.outs
      invariant AllAdmitted(spec, es, moves[..i]) && log == After(spec, es, moves[..i])
    {
      AdmittedUpTo(spec, es, moves, i);
      outs := MakeMove(f, moves[i], outs, log);
      log := Moved(spec, es, log, moves[i]);
    }
    assert moves[..|moves|] == moves;
  }

  lemma {:induction false} AdmittedUpTo(spec: KeySpec, es: seq<Entry>, moves: seq<Move>, i: nat)
    requires Ascending(spec, es) && AllAdmitted(spec, es, moves) && i < |moves|
    ensures AllAdmitted(spec, es, moves[..i]) && AllAdmitted(spec, es, moves[..i + 1])
    ensures Admitted(spec, es, After(spec, es, moves[..i]), moves[i])
    ensures After(spec, es, moves[..i + 1]) == Moved(spec, es, After(spec, es, moves[..i]), moves[i])
  {
    if i < |moves| - 1 {
      var init := moves[..|moves| - 1];
      AdmittedUpTo(spec, es, init, i);
      assert init[..i] == moves[..i] && init[..i + 1] == moves[..i + 1];
    } else {
      assert moves[..i + 1] == moves;
    }
    assert moves[..i + 1][..i] == moves[..i];
  }

  /** After any run, a lookup finds a record if and only if one has the key, and positioning on a key
      makes the next read deliver the first record at or after it. */
  lemma LookupAndPosition(spec: KeySpec, es: seq<Entry>, moves: seq<Move>, k: seq<byte>)
    requires Ascending(spec, es) && AllAdmitted(spec, es, moves) && |k| == spec.len
    ensures Admitted(spec, es, After(spec, es, moves), Lookup(k)) ==>
              var found := Moved(spec, es, After(spec, es, moves), Lookup(k)).outs[|After(spec, es, moves).outs|];
              if exists e :: e in es && KeyOf(spec, e) == k
              then exists e :: e in es && KeyOf(spec, e) == k && found == Got(e.record)
              else found == NotFound
    ensures Admitted(spec, es, After(spec, es, moves), Position(k)) ==>
              var n := Rank(spec, es, k);
              Moved(spec, es, Moved(spec, es, After(spec, es, moves), Position(k)), Next).outs
              == After(spec, es, moves).outs + [Got(es[n].record)]
  {
    PresentIffAtRank(spec, es, k);
    var n := Rank(spec, es, k);
    if n < |es| { assert es[n] in es; }
  }
}
