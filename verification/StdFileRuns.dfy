/** Whole runs of the record reader: reading to the end, returning to bookmarks, and reading back
    what was written. */
module StdFileRuns {
  import opened KeyBytes
  import opened Wrappers
  import opened RecordFormat
  import opened RecordFrames
  import opened StdFile

  /** Reads to the end. The result depends on the bytes alone, not on how they arrive. */
  method ReadAll(f: StdFile) returns (records: seq<seq<byte>>)
    requires f.Sound() && f.LogicalPos() <= |f.os.bytes|
    modifies f, f.os`offset
    ensures f.Sound()
    ensures records == Records(f.format, f.os.bytes, old(f.LogicalPos()))
  {
    ghost var all := Records(f.format, f.os.bytes, f.LogicalPos());
    records := [];
    while true
      invariant f.Sound() && f.LogicalPos() <= |f.os.bytes|
      invariant all == records + Records(f.format, f.os.bytes, f.LogicalPos())
      decreases |f.os.bytes| - f.LogicalPos()
    {
      ghost var rest := Records(f.format, f.os.bytes, f.LogicalPos());
      var r := f.GetRecord();
      if r.Eof? { break; }
      records := records + [r.record];
      assert rest == [r.record] + Records(f.format, f.os.bytes, f.LogicalPos());
    }
  }

  method WriteAll(f: StdFile, records: seq<seq<byte>>)
    requires f.EndKnown() && !f.noLineFeeds
    modifies f, f.os
    ensures f.os.bytes == old(f.os.bytes) + FrameAll(f.format, f.crlf, records)
  {
    ghost var was := f.os.bytes;
    assert records[..0] == [] && was + [] == was;
    for i := 0 to |records|
      invariant f.EndKnown() && f.os.bytes == was + FrameAll(f.format, f.crlf, records[..i])
    {
      FrameAllNext(was, f.format, f.crlf, records, i);
      var ok := f.PutRecord(records[i]);
    }
    assert records[..|records|] == records;
  }

  lemma FrameAllNext(was: seq<byte>, format: Format, crlf: bool, records: seq<seq<byte>>, i: nat)
    requires i < |records|
    ensures was + FrameAll(format, crlf, records[..i + 1])
            == was + FrameAll(format, crlf, records[..i]) + Frame(format, crlf, records[i])
  {
    FrameAllSnoc(format, crlf, records[..i], records[i]);
    assert records[..i + 1] == records[..i] + [records[i]];
    var before, frame := FrameAll(format, crlf, records[..i]), Frame(format, crlf, records[i]);
    assert was + (before + frame) == was + before + frame;
  }

  lemma {:induction false} FrameAllSnoc(format: Format, crlf: bool, records: seq<seq<byte>>, r: seq<byte>)
    ensures FrameAll(format, crlf, records + [r]) == FrameAll(format, crlf, records) + Frame(format, crlf, r)
  {
    if records == [] {
      assert records + [r] == [r];
    } else {
      var all := records + [r];
      assert all[0] == records[0] && all[1..] == records[1..] + [r];
      var first, middle, last := Frame(format, crlf, records[0]), FrameAll(format, crlf, records[1..]), Frame(format, crlf, r);
      calc {
        FrameAll(format, crlf, all);
        first + FrameAll(format, crlf, records[1..] + [r]);
        { FrameAllSnoc(format, crlf, records[1..], r); }
        first + (middle + last);
        first + middle + last;
      }
    }
  }

  /** Writes a new file, opens it again, and reads it. */
  method WriteThenRead(format: Format, crlf: bool, records: seq<seq<byte>>) returns (again: seq<seq<byte>>)
    ensures format.Lines? ==>
              (again == records <==> forall r <- records :: LF !in r && Survives(r, crlf, format.expandTabs))
    ensures format.Sam3? ==> (again == records <==> forall r <- records :: |r| < 0x1000000)
  {
    var os := new OsFile([], false);
    var writer := new StdFile(os, format, None, 0x4000, crlf, false);
    WriteAll(writer, records);
    os.Seek(0);
    var reader := new StdFile(os, format, None, 0x4000, crlf, false);
    again := ReadAll(reader);
    assert os.bytes == FrameAll(format, crlf, records);
    if format.Lines? {
      LinesRoundTrip(records, crlf, format.expandTabs);
    } else {
      FrameAllSam3(crlf, records);
      Sam3RoundTrip(records);
    }
  }

  lemma {:induction false} FrameAllSam3(crlf: bool, records: seq<seq<byte>>)
    ensures FrameAll(Sam3, crlf, records) == FrameAll(Sam3, false, records)
  {
    if records != [] { FrameAllSam3(crlf, records[1..]); }
  }

  /** Read the next record, or go back to the position key the n-th successful read left. */
  datatype Move = Next | BackTo(n: nat)

  /** Position, records delivered, and the bookmarks with the records they were left by. */
  datatype Log = Log(pos: nat, outs: seq<Outcome>, marks: seq<Entry>)

  function Moved(format: Format, disk: seq<byte>, log: Log, move: Move): Log {
    match move
    case BackTo(n) => if n < |log.marks| then log.(pos := log.marks[n].at) else log
    case Next =>
      match ScanAt(format, disk, log.pos)
      case End => log.(pos := |disk|, outs := log.outs + [Eof])
      case Rec(record, next) => Log(next, log.outs + [Got(record)], log.marks + [Entry(log.pos, record)])
  }

  function Replayed(format: Format, disk: seq<byte>, moves: seq<Move>): Log {
    if moves == [] then Log(0, [], [])
    else Moved(format, disk, Replayed(format, disk, moves[..|moves| - 1]), moves[|moves| - 1])
  }

  /** Between two seeks there is a read. */
  predicate SeeksApart(moves: seq<Move>) {
    forall i :: 0 <= i < |moves| - 1 ==> moves[i].Next? || moves[i + 1].Next?
  }

  ghost predicate Follows(f: StdFile, log: Log, outs: seq<Outcome>, marks: seq<nat>)
    reads f, f.os
  {
    && f.Sound() && f.LogicalPos() == log.pos <= |f.os.bytes|
    && outs == log.outs
    && |marks| == |log.marks|
    && forall i :: 0 <= i < |marks| ==> marks[i] == log.marks[i].at < |f.os.bytes|
  }

  method MakeMove(f: StdFile, move: Move, outs: seq<Outcome>, marks: seq<nat>, ghost log: Log)
    returns (outs': seq<Outcome>, marks': seq<nat>)
    requires Follows(f, log, outs, marks) && f.key.None? && (move.BackTo? ==> f.SeeksInside())
    modifies f, f.os`offset
    ensures Follows(f, Moved(f.format, f.os.bytes, log, move), outs', marks')
    ensures move.Next? ==> f.SeeksInside()
  {
    outs', marks' := outs, marks;
    match move
    case BackTo(n) =>
      if n < |marks| { f.SetPosition(marks[n]); }
    case Next =>
      var r := f.GetRecord();
      outs' := outs + [r];
      if r.Got? { marks' := marks + [f.currentPos]; }
  }

  /** The buffered reader does what one would do who reads every record straight from the file. */
  method Replay(f: StdFile, moves: seq<Move>) returns (outs: seq<Outcome>, marks: seq<nat>)
    requires f.Sound() && f.LogicalPos() == 0 && f.buffer == [] && f.key.None? && SeeksApart(moves)
    modifies f, f.os`offset
    ensures Follows(f, Replayed(f.format, f.os.bytes, moves), outs, marks)
  {
    outs, marks := [], [];
    for i := 0 to |moves|
      invariant i == 0 || moves[i - 1].Next? ==> f.SeeksInside()
      invariant Follows(f, Replayed(f.format, f.os.bytes, moves[..i]), outs, marks)
    {
      assert moves[..i + 1][..i] == moves[..i];
      outs, marks := MakeMove(f, moves[i], outs, marks, Replayed(f.format, f.os.bytes, moves[..i]));
    }
    assert moves[..|moves|] == moves;
  }

  /** A position key is a bookmark: going back to it and reading on yields the record it came with. */
  lemma {:induction false} BookmarkReturnsItsRecord(format: Format, disk: seq<byte>, moves: seq<Move>, n: nat)
    requires n < |Replayed(format, disk, moves).marks|
    ensures var log := Replayed(format, disk, moves);
            && ScanAt(format, disk, log.marks[n].at).Rec?
            && ScanAt(format, disk, log.marks[n].at).record == log.marks[n].record
            && Replayed(format, disk, moves + [BackTo(n), Next]).outs == log.outs + [Got(log.marks[n].record)]
  {
    MarksAreTrue(format, disk, moves, n);
    var m1, m2 := moves + [BackTo(n)], moves + [BackTo(n), Next];
    assert m1[..|m1| - 1] == moves && m2[..|m2| - 1] == m1;
  }

  lemma {:induction false} MarksAreTrue(format: Format, disk: seq<byte>, moves: seq<Move>, n: nat)
    requires n < |Replayed(format, disk, moves).marks|
    ensures var mark := Replayed(format, disk, moves).marks[n];
            ScanAt(format, disk, mark.at).Rec? && ScanAt(format, disk, mark.at).record == mark.record
  {
    if moves != [] {
      var init := moves[..|moves| - 1];
      if n < |Replayed(format, disk, init).marks| { MarksAreTrue(format, disk, init, n); }
    }
  }
}
