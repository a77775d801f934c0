/** The record reader over a file that is read in chunks of any size. */
module StdFile {
  import opened KeyBytes
  import opened Wrappers
  import opened RecordFormat
  import opened SortedRecords
  import opened RecordFrames

  /** An open file. A read returns as many bytes as it likes, but none only at the end. */
  class OsFile {
    const appending: bool
    var bytes: seq<byte>
    var offset: nat

    constructor (bytes: seq<byte>, appending: bool)
      ensures this.bytes == bytes && offset == 0 && this.appending == appending
    {
      this.bytes := bytes;
      this.appending := appending;
      offset := 0;
    }

    method Read(size: nat) returns (chunk: seq<byte>)
      requires size > 0
      modifies this`offset
      ensures |chunk| <= size && offset == old(offset) + |chunk|
      ensures chunk == [] <==> old(offset) >= |bytes|
      ensures chunk != [] ==> offset <= |bytes| && chunk == bytes[old(offset)..offset]
    {
      if offset >= |bytes| {
        chunk := [];
      } else {
        var n :| 0 < n <= size && n <= |bytes| - offset;
        chunk := bytes[offset..offset + n];
        offset := offset + n;
      }
    }

    method Seek(pos: nat)
      modifies this`offset
      ensures offset == pos
    {
      offset := pos;
    }

    method SeekEnd()
      modifies this`offset
      ensures offset == |bytes|
    {
      offset := |bytes|;
    }

    /** Overwrites and extends from the offset, or at the end of a file opened for appending. */
    method Write(data: seq<byte>)
      requires appending || offset <= |bytes|
      modifies this
      ensures var at := if appending then |old(bytes)| else old(offset);
              && offset == at + |data|
              && bytes == old(bytes)[..at] + data + (if offset <= |old(bytes)| then old(bytes)[offset..] else [])
    {
      var at := if appending then |bytes| else offset;
      bytes := bytes[..at] + data + (if at + |data| <= |bytes| then bytes[at + |data|..] else []);
      offset := at + |data|;
    }
  }

  datatype Outcome = Got(record: seq<byte>) | Eof | NotFound

  /** `memchr` from `from` on. */
  method Find(s: seq<byte>, from: nat, b: byte) returns (i: nat)
    requires from <= |s|
    ensures from <= i <= |s| && b !in s[from..i] && (i < |s| ==> s[i] == b)
  {
    i := from;
    while i < |s| && s[i] != b
      invariant from <= i <= |s| && b !in s[from..i]
    {
      assert s[from..i + 1] == s[from..i] + [s[i]];
      i := i + 1;
    }
  }

  /** What has been appended, and a stretch without tabs. */
  lemma ExpandOn(raw: seq<byte>, s: seq<byte>, i: nat, j: nat, expandTabs: bool)
    requires i <= j <= |s| && (expandTabs ==> TAB !in s[i..j])
    ensures Expand(raw + s[..j], expandTabs) == Expand(raw + s[..i], expandTabs) + s[i..j]
  {
    ExpandPlain(raw + s[..i], s[i..j], expandTabs);
    TakeOn(raw, s, i, j);
  }

  lemma ExpandTabOn(raw: seq<byte>, s: seq<byte>, j: nat)
    requires j < |s| && s[j] == TAB
    ensures var r := Expand(raw + s[..j], true);
            Expand(raw + s[..j + 1], true) == r + Spaces((|r| / 8 + 1) * 8 - |r|)
  {
    var before := raw + s[..j];
    ExpandToTab(before, []);
    assert before + [] == before && Expand(before, true) + [] == Expand(before, true);
    assert s[j..j + 1] == [TAB];
    TakeOn(raw, s, j, j + 1);
  }

  lemma TakeOn(raw: seq<byte>, s: seq<byte>, i: nat, j: nat)
    requires i <= j <= |s|
    ensures raw + s[..i] + s[i..j] == raw + s[..j]
  {
    assert s[..i] + s[i..j] == s[..j];
  }

  /** Appends `s` to a record, expanding its tabs. */
  method AppendExpanded(area: seq<byte>, s: seq<byte>, expandTabs: bool, ghost raw: seq<byte>) returns (r: seq<byte>)
    requires area == Expand(raw, expandTabs)
    ensures r == Expand(raw + s, expandTabs)
  {
    r := area;
    var p := 0;
    assert raw + s[..0] == raw;
    assert s[..|s|] == s;
    while true
      invariant p <= |s| && r == Expand(raw + s[..p], expandTabs)
      decreases |s| - p
    {
      var p2 := |s|;
      if expandTabs { p2 := Find(s, p, TAB); }
      ExpandOn(raw, s, p, p2, expandTabs);
      r := r + s[p..p2];
      if p2 == |s| { break; }
      ExpandTabOn(raw, s, p2);
      r := r + Spaces((|r| / 8 + 1) * 8 - |r|);
      p := p2 + 1;
      if p == |s| { break; }
    }
  }

  /** A search for `k` stops at the first record whose key is not below it, or at the end. */
  method HasReached(spec: KeySpec, k: seq<byte>, r: Outcome, ghost es: seq<Entry>, ghost j: nat) returns (stop: bool)
    requires Ascending(spec, es) && |k| == spec.len && j <= Rank(spec, es, k)
    requires if j < |es| then r == Got(es[j].record) else r == Eof
    ensures stop <==> j == Rank(spec, es, k)
    ensures !stop ==> j < |es|
  {
    stop := r.Eof? || (|r.record| >= spec.pos + |k| && !Less(KeyField(spec, r.record, []), k));
    if j < |es| { RankAbove(spec, es, k, j); }
  }

  /** The rest of a file without a line feed is its last line. */
  lemma ScanOfRest(disk: seq<byte>, start: nat, area: seq<byte>, expandTabs: bool)
    requires start < |disk| && LF !in disk[start..|disk|] && area == Expand(disk[start..|disk|], expandTabs)
    ensures ScanAt(Lines(expandTabs), disk, start) == Rec(area, |disk|) && area != []
  {
    LineEndIs(disk, start, |disk|);
    ScanOfLine(disk, start, area, |disk|, expandTabs);
  }

  /** Bytes `i..j` of the window `from..to` continue what starts at `start`. */
  lemma WindowContinues(s: seq<byte>, start: nat, from: nat, to: nat, i: nat, j: nat)
    requires from <= to <= |s| && i <= j <= to - from && start <= from + i
    ensures s[start..from + i] + s[from..to][i..j] == s[start..from + j]
  {
    var window, part := s[from..to], s[from + i..from + j];
    assert window[i..j] == part by {
      assert forall k :: 0 <= k < j - i ==> window[i..j][k] == window[i + k] == part[k];
    }
  }

  /** After the bytes from `start` to `at`: the record so far, the length bytes still missing, and
      the bytes still missing as far as the length is known. */
  ghost predicate Sam3Progress(disk: seq<byte>, start: nat, at: nat, area: seq<byte>, lenCount: nat, rest: nat) {
    && start <= at <= |disk|
    && if at - start >= 3 then
      lenCount == 0 && area == disk[start + 3..at] && rest == LengthPart(disk, start, 3) - |area|
    else
      lenCount == 3 - (at - start) && area == [] && rest == LengthPart(disk, start, at - start)
  }

  class StdFile {
    const os: OsFile
    const format: Format
    const key: Option<KeySpec>
    const maxBufferSize: nat
    const crlf: bool          // whether lines are written with CR LF
    const noLineFeeds: bool   // whether records may hold no line feed

    var pos: nat              // where the program thinks the OS offset is
    var recordPos: nat        // position of the record read last
    var eof: bool
    var currentKey: seq<byte> // the emulated key of that record
    var currentPos: nat       // its position key, where no key is emulated
    var buffer: seq<byte>
    var bufferPos: nat        // position of the buffer in the file
    var bufferSize: nat
    var minBufferSize: nat
    var readPtr: Option<nat>  // index into the buffer; None is NULL
    var readEnd: Option<nat>
    var atEnd: bool           // whether the OS offset is known to be at the end

    /** The buffer shows the file from bufferPos to pos, whenever there is a read pointer. */
    ghost predicate Sound()
      reads this, os
    {
      && pos == os.offset
      && minBufferSize > 0
      && (readPtr.None? <==> readEnd.None?)
      && (readPtr.Some? ==>
            && readPtr.value <= readEnd.value == |buffer|
            && bufferPos + |buffer| == pos <= |os.bytes|
            && buffer == os.bytes[bufferPos..pos])
      && |buffer| <= |os.bytes|
      && (eof ==> readPtr.None? && bufferPos == pos >= |os.bytes|)
    }

    /** Where the next byte comes from. */
    function LogicalPos(): nat
      reads this
    {
      if readPtr.Some? then bufferPos + readPtr.value else pos
    }

    predicate InWindow(p: nat)
      reads this
    {
      bufferPos <= p < bufferPos + |buffer|
    }

    /** A seek is safe while the buffer is in use, or to a place outside the bytes it last held. */
    predicate CanSeek(p: nat)
      reads this
    {
      readPtr.Some? || !InWindow(p)
    }

    constructor (os: OsFile, format: Format, key: Option<KeySpec>, maxBufferSize: nat, crlf: bool, noLineFeeds: bool)
      requires os.offset == 0
      ensures Sound() && EndKnown() && LogicalPos() == 0 && currentKey == [] && buffer == []
      ensures this.os == os && this.format == format && this.key == key
      ensures this.crlf == crlf && this.noLineFeeds == noLineFeeds
    {
      this.os, this.format, this.key, this.maxBufferSize := os, format, key, maxBufferSize;
      this.crlf, this.noLineFeeds := crlf, noLineFeeds;
      pos, recordPos, eof, currentKey, currentPos := 0, 0, false, [], 0;
      buffer, bufferPos, bufferSize, minBufferSize := [], 0, 0, 256;
      readPtr, readEnd := None, None;
      atEnd := os.appending;
    }

    method FlushReadBuffer()
      modifies this`bufferSize, this`readPtr, this`readEnd, this`bufferPos
      ensures readPtr == None && readEnd == None && bufferPos == 0
    {
      bufferSize := 0;
      readPtr := None;
      readEnd := None;
      bufferPos := 0;
    }

    method BufferSeek(p: nat)
      requires Sound()
      modifies this`bufferSize, this`readPtr, this`readEnd, this`bufferPos, this`pos, this`eof, this`atEnd, os`offset
      ensures Sound() <==> old(CanSeek(p))
      ensures LogicalPos() == p
      ensures old(InWindow(p)) ==> readPtr == Some(p - old(bufferPos))
    {
      if InWindow(p) {
        readPtr := Some(p - bufferPos);
      } else {
        FlushReadBuffer();
        atEnd := false;
        os.Seek(p);
        pos := p;
        eof := false;
      }
    }

    /** Reads the next chunk when the buffer is used up. */
    method Refill() returns (more: bool)
      requires Sound() && readPtr == readEnd
      modifies this`bufferSize, this`readPtr, this`readEnd, this`bufferPos, this`buffer, this`pos, this`eof, os`offset
      ensures Sound() && LogicalPos() == old(LogicalPos())
      ensures more ==> readPtr == Some(0) && buffer != []
      ensures !more ==> readPtr == None && eof && buffer == old(buffer)
      ensures more <==> LogicalPos() < |os.bytes|
    {
      if eof { return false; }
      GrowBuffer();
      readPtr := None;
      readEnd := None;
      bufferPos := pos;
      var chunk := os.Read(bufferSize);
      pos := pos + |chunk|;
      if chunk == [] {
        eof := true;
        return false;
      }
      buffer := chunk;
      readPtr := Some(0);
      readEnd := Some(|chunk|);
      more := true;
    }

    /** Makes sure that there are bytes in the buffer, if any are left. */
    method HasBytes() returns (more: bool)
      requires Sound()
      modifies this`bufferSize, this`readPtr, this`readEnd, this`bufferPos, this`buffer, this`pos, this`eof, os`offset
      ensures Sound() && LogicalPos() == old(LogicalPos())
      ensures more ==> readPtr.Some? && readPtr != readEnd && buffer != [] && LogicalPos() < |os.bytes|
      ensures !more ==> readPtr == None && eof && buffer == old(buffer) && LogicalPos() >= |os.bytes|
    {
      more := true;
      if readPtr == readEnd { more := Refill(); }
    }

    /** The next chunk may be larger. */
    method GrowBuffer()
      requires minBufferSize > 0
      modifies this`bufferSize
      ensures bufferSize > 0
    {
      if bufferSize == 0 {
        bufferSize := minBufferSize;
      } else if bufferSize <= maxBufferSize / 2 && bufferSize != pos {
        bufferSize := 2 * bufferSize;
      }
    }

    /** The buffered bytes up to the line end, or to the end of the buffer. */
    method NextPiece(ghost start: nat) returns (piece: seq<byte>, z: nat)
      requires Sound() && readPtr.Some? && start <= LogicalPos() && LF !in os.bytes[start..LogicalPos()]
      ensures readPtr.value <= z <= |buffer| && (z < |buffer| ==> os.bytes[bufferPos + z] == LF)
      ensures os.bytes[start..LogicalPos()] + piece == os.bytes[start..bufferPos + z]
      ensures LF !in os.bytes[start..bufferPos + z]
      ensures z < |buffer| ==> LineEnd(os.bytes, start) == bufferPos + z
    {
      ghost var disk := os.bytes;
      var p := readPtr.value;
      z := Find(buffer, p, LF);
      piece := buffer[p..z];
      WindowContinues(disk, start, bufferPos, pos, p, z);
      assert z < |buffer| ==> buffer[z] == disk[bufferPos + z];
      if z < |buffer| { LineEndIs(disk, start, bufferPos + z); }
    }

    /** Moves the buffered bytes up to the line end, or to the end of the buffer, into the record. */
    method TakeToLineEnd(area: seq<byte>, ghost start: nat) returns (r: seq<byte>, found: bool)
      requires Sound() && readPtr.Some? && readPtr != readEnd && format.Lines?
      requires start <= LogicalPos() && LF !in os.bytes[start..LogicalPos()]
      requires area == Expand(os.bytes[start..LogicalPos()], format.expandTabs)
      modifies this`readPtr
      ensures Sound() && readPtr.Some? && LogicalPos() <= |os.bytes| && old(LogicalPos()) <= LogicalPos()
      ensures LF !in os.bytes[start..LogicalPos()]
      ensures r == Expand(os.bytes[start..LogicalPos()], format.expandTabs)
      ensures found <==> readPtr != readEnd
      ensures found ==> LogicalPos() == LineEnd(os.bytes, start) < |os.bytes|
      ensures !found ==> LogicalPos() > old(LogicalPos())
    {
      var piece, z := NextPiece(start);
      r := AppendExpanded(area, piece, format.expandTabs, os.bytes[start..LogicalPos()]);
      found := z < |buffer|;
      MovePointer(z);
    }

    method MovePointer(z: nat)
      requires Sound() && readPtr.Some? && readPtr.value <= z <= |buffer|
      modifies this`readPtr
      ensures Sound() && readPtr == Some(z) && LogicalPos() == bufferPos + z
    {
      readPtr := Some(z);
    }

    /** Collects the bytes up to the line end, chunk by chunk. */
    method GatherLine(ghost start: nat) returns (area: seq<byte>, found: bool)
      requires Sound() && format.Lines? && start == LogicalPos()
      modifies this`bufferSize, this`readPtr, this`readEnd, this`bufferPos, this`buffer, this`pos, this`eof, os`offset
      ensures Sound()
      ensures found ==> readPtr.Some? && readPtr != readEnd
      ensures !found ==> readPtr.None? && eof
      ensures start <= |os.bytes| ==> LogicalPos() <= |os.bytes|
      ensures found || area != [] ==> buffer != []
      ensures old(buffer) != [] ==> buffer != []
      ensures ScanAt(format, os.bytes, start) ==
              if found then Rec(WithoutCR(area), LogicalPos() + 1)
              else if area == [] then End
              else Rec(area, LogicalPos())
    {
      area := [];
      found := false;
      while !found
        invariant Sound() && start <= LogicalPos()
        invariant found || area != [] || old(buffer) != [] ==> buffer != []
        invariant start >= |os.bytes| ==> LogicalPos() == start && area == [] && !found
        invariant start < |os.bytes| ==> LogicalPos() <= |os.bytes| && LF !in os.bytes[start..LogicalPos()]
        invariant start < |os.bytes| ==> area == Expand(os.bytes[start..LogicalPos()], format.expandTabs)
        invariant found ==> readPtr.Some? && readPtr != readEnd && LogicalPos() == LineEnd(os.bytes, start) < |os.bytes|
        decreases |os.bytes| - LogicalPos(), !found
      {
        var more := HasBytes();
        if !more {
          if start < |os.bytes| { ScanOfRest(os.bytes, start, area, format.expandTabs); }
          return;
        }
        area, found := TakeToLineEnd(area, start);
      }
      ScanOfLine(os.bytes, start, area, LogicalPos(), format.expandTabs);
    }

    method GetLine(ghost start: nat) returns (r: Outcome)
      requires Sound() && format.Lines? && start == LogicalPos()
      modifies this`bufferSize, this`readPtr, this`readEnd, this`bufferPos, this`buffer, this`pos, this`eof, os`offset
      ensures Sound()
      ensures match ScanAt(format, os.bytes, start)
              case End => r == Eof && LogicalPos() >= |os.bytes|
              case Rec(record, next) => r == Got(record) && LogicalPos() == next
      ensures start <= |os.bytes| ==> LogicalPos() <= |os.bytes|
      ensures readPtr.None? || r == Eof ==> eof
      ensures r.Got? || old(buffer) != [] ==> buffer != []
    {
      var area, found := GatherLine(start);
      if !found {
        return if |area| > 0 then Got(area) else Eof;
      }
      readPtr := Some(readPtr.value + 1);
      if |area| > 0 && area[|area| - 1] == CR { area := area[..|area| - 1]; }
      r := Got(area);
    }

    /** Takes length bytes that are still missing. */
    method TakeLength(lenCount: nat, rest: nat, ghost start: nat) returns (lenCount': nat, rest': nat)
      requires Sound() && readPtr.Some? && lenCount > 0
      requires Sam3Progress(os.bytes, start, LogicalPos(), [], lenCount, rest)
      modifies this`readPtr
      ensures Sound() && readPtr.Some? && LogicalPos() >= old(LogicalPos())
      ensures Sam3Progress(os.bytes, start, LogicalPos(), [], lenCount', rest')
      ensures lenCount' == 0 || readPtr == readEnd
      ensures lenCount' < lenCount || readPtr == old(readPtr)
      ensures lenCount' == 0 ==> LogicalPos() == start + 3
    {
      lenCount', rest' := lenCount, rest;
      var p := readPtr.value;
      while lenCount' > 0 && p < |buffer|
        invariant readPtr.value <= p <= |buffer|
        invariant lenCount' < lenCount || p == readPtr.value
        invariant Sam3Progress(os.bytes, start, bufferPos + p, [], lenCount', rest')
        invariant lenCount' == 0 ==> bufferPos + p == start + 3
      {
        lenCount' := lenCount' - 1;
        assert buffer[p] == os.bytes[bufferPos + p];
        rest' := rest' + Weighed(buffer[p], 2 - lenCount');
        p := p + 1;
      }
      readPtr := Some(p);
    }

    /** Takes the record bytes that are buffered. */
    method TakeBody(area: seq<byte>, rest: nat, ghost start: nat) returns (area': seq<byte>, rest': nat)
      requires Sound() && readPtr.Some? && Sam3Progress(os.bytes, start, LogicalPos(), area, 0, rest)
      modifies this`readPtr
      ensures Sound() && readPtr.Some? && LogicalPos() >= old(LogicalPos())
      ensures Sam3Progress(os.bytes, start, LogicalPos(), area', 0, rest')
      ensures rest' < rest || readPtr == old(readPtr)
      ensures rest' == 0 || readPtr == readEnd
    {
      var p := readPtr.value;
      var l := |buffer| - p;
      if l > rest { l := rest; }
      WindowContinues(os.bytes, start + 3, bufferPos, pos, p, p + l);
      area' := area + buffer[p..p + l];
      readPtr := Some(p + l);
      rest' := rest - l;
    }

    /** Takes what is buffered of one record. */
    method TakeSam3(area: seq<byte>, lenCount: nat, rest: nat, ghost start: nat)
      returns (area': seq<byte>, lenCount': nat, rest': nat)
      requires Sound() && readPtr.Some? && readPtr != readEnd && (lenCount > 0 || rest > 0)
      requires Sam3Progress(os.bytes, start, LogicalPos(), area, lenCount, rest)
      modifies this`readPtr
      ensures Sound() && readPtr.Some? && LogicalPos() > old(LogicalPos())
      ensures Sam3Progress(os.bytes, start, LogicalPos(), area', lenCount', rest')
    {
      area', lenCount', rest' := area, lenCount, rest;
      if lenCount' > 0 { lenCount', rest' := TakeLength(lenCount', rest', start); }
      if lenCount' == 0 { area', rest' := TakeBody(area', rest', start); }
    }

    /** Collects a record behind its length bytes, chunk by chunk. */
    method GatherSam3(ghost start: nat) returns (area: seq<byte>, found: bool)
      requires Sound() && format.Sam3? && start == LogicalPos()
      modifies this`bufferSize, this`readPtr, this`readEnd, this`bufferPos, this`buffer, this`pos, this`eof, os`offset
      ensures Sound()
      ensures found ==> readPtr.Some? && Sam3Progress(os.bytes, start, LogicalPos(), area, 0, 0)
      ensures !found ==> readPtr.None? && eof
      ensures !found && start > |os.bytes| ==> area == []
      ensures start <= |os.bytes| ==> LogicalPos() <= |os.bytes|
      ensures found || area != [] ==> buffer != []
      ensures old(buffer) != [] ==> buffer != []
      ensures !found && start <= |os.bytes| ==>
                LogicalPos() == |os.bytes| && exists lenCount: nat, rest: nat ::
                  (lenCount > 0 || rest > 0) && Sam3Progress(os.bytes, start, |os.bytes|, area, lenCount, rest)
    {
      var lenCount: nat, rest: nat := 3, 0;
      area := [];
      while lenCount > 0 || rest > 0
        invariant Sound() && start <= LogicalPos()
        invariant lenCount < 3 || area != [] || old(buffer) != [] ==> buffer != []
        invariant start > |os.bytes| ==> LogicalPos() == start && area == [] && lenCount > 0
        invariant start <= |os.bytes| ==> Sam3Progress(os.bytes, start, LogicalPos(), area, lenCount, rest)
        invariant lenCount == 3 || readPtr.Some?
        decreases |os.bytes| - LogicalPos()
      {
        if readPtr == readEnd {
          var more := Refill();
          if !more {
            assert start <= |os.bytes| ==> LogicalPos() == |os.bytes|;
            assert start <= |os.bytes| ==> Sam3Progress(os.bytes, start, |os.bytes|, area, lenCount, rest);
            return area, false;
          }
        }
        // A length of three missing bytes with nothing taken would be an error here, but at
        // least one byte has been buffered.
        area, lenCount, rest := TakeSam3(area, lenCount, rest, start);
      }
      found := true;
    }

    method GetSam3(ghost start: nat) returns (r: Outcome)
      requires Sound() && format.Sam3? && start == LogicalPos()
      modifies this`bufferSize, this`readPtr, this`readEnd, this`bufferPos, this`buffer, this`pos, this`eof, os`offset
      ensures Sound()
      ensures match ScanAt(format, os.bytes, start)
              case End => r == Eof && LogicalPos() >= |os.bytes|
              case Rec(record, next) => r == Got(record) && LogicalPos() == next
      ensures start <= |os.bytes| ==> LogicalPos() <= |os.bytes|
      ensures readPtr.None? || r == Eof ==> eof
      ensures r.Got? || old(buffer) != [] ==> buffer != []
    {
      var area, found := GatherSam3(start);
      if !found && start <= |os.bytes| { assert os.bytes[..|os.bytes|] == os.bytes; }
      r := if found || |area| > 0 then Got(area) else Eof;
    }

    method ReadRecord(start: nat) returns (r: Outcome)
      requires Sound() && start == LogicalPos()
      modifies this`bufferSize, this`readPtr, this`readEnd, this`bufferPos, this`buffer, this`pos, this`eof, os`offset
      ensures Sound()
      ensures match ScanAt(format, os.bytes, start)
              case End => r == Eof && LogicalPos() >= |os.bytes|
              case Rec(record, next) => r == Got(record) && LogicalPos() == next
      ensures start <= |os.bytes| ==> LogicalPos() <= |os.bytes|
      ensures readPtr.None? || r == Eof ==> eof
      ensures r.Got? || old(buffer) != [] ==> buffer != []
    {
      if format.Sam3? { r := GetSam3(start); } else { r := GetLine(start); }
    }

    /** Reads the record at the logical position, however the file is cut into chunks. */
    method GetRecord() returns (r: Outcome)
      requires Sound()
      modifies this, os`offset
      ensures Sound() && recordPos == old(LogicalPos())
      ensures match ScanAt(format, os.bytes, recordPos)
              case End => r == Eof && LogicalPos() >= |os.bytes|
              case Rec(record, next) => r == Got(record) && LogicalPos() == next
      ensures recordPos <= |os.bytes| ==> LogicalPos() <= |os.bytes|
      ensures readPtr.None? || r == Eof ==> eof
      ensures r.Got? || old(buffer) != [] ==> buffer != []
      ensures currentKey == if key.Some? && r.Got? then KeyField(key.value, r.record, old(currentKey)) else old(currentKey)
      ensures currentPos == if key.None? && r.Got? then recordPos else old(currentPos)
    {
      recordPos := if readPtr.Some? then bufferPos + readPtr.value else pos;
      r := ReadRecord(recordPos);
      if r.Got? { NoteRecord(r.record); }
    }

    /** Remembers the key of a record that was read, and how long records get. */
    method NoteRecord(record: seq<byte>)
      requires minBufferSize > 0
      modifies this`currentKey, this`currentPos, this`minBufferSize
      ensures minBufferSize > 0
      ensures currentKey == if key.Some? then KeyField(key.value, record, old(currentKey)) else old(currentKey)
      ensures currentPos == if key.None? then recordPos else old(currentPos)
    {
      if key.Some? {
        currentKey := KeyField(key.value, record, currentKey);
      } else {
        currentPos := recordPos;
      }
      if bufferPos > 0 { GrowMinBuffer(|record|); }
    }

    /** Lets the buffer hold the longest record so far. */
    method GrowMinBuffer(length: nat)
      requires minBufferSize > 0
      modifies this`minBufferSize
      ensures minBufferSize > 0
    {
      while minBufferSize < length && minBufferSize < 0x7FFF_FFFF / 2
        invariant minBufferSize > 0
      {
        minBufferSize := minBufferSize * 2;
      }
    }

    /** `set` with a position key. */
    method SetPosition(p: nat)
      requires Sound()
      modifies this, os`offset
      ensures Sound() <==> old(CanSeek(p))
      ensures LogicalPos() == p && currentKey == old(currentKey) && currentPos == old(currentPos)
    {
      BufferSeek(p);
    }

    /** All records of the file. */
    ghost function File(): seq<Entry>
      reads os`bytes
    {
      Entries(format, os.bytes, 0)
    }

    /** No seek into the file goes wrong. */
    ghost predicate SeeksInside()
      reads this
    {
      readPtr.None? ==> eof || buffer == []
    }

    function Now(): Spot
      reads this
    {
      Spot(LogicalPos(), recordPos, currentKey)
    }

    ghost predicate Here(i: nat)
      reads this, os
    {
      Before(format, os.bytes, LogicalPos(), i)
    }

    /** The state between calls on an ascending file with an emulated key. */
    ghost predicate Orderly()
      reads this, os
    {
      && Sound() && key.Some? && OnTrack(key.value, format, os.bytes, Now())
      && (currentKey != [] ==> buffer != [])
    }

    /** The last read was that of the `i`-th record, or ran into the end of the file behind all. */
    ghost predicate JustRead(i: nat, r: Outcome)
      requires key.Some?
      reads this, os
    {
      if i < |File()| then
        && r == Got(File()[i].record)
        && Here(i + 1) && Tracks(key.value, format, os.bytes, Now(), i) && recordPos == File()[i].at
      else r == Eof && Here(i) && eof && ScanAt(format, os.bytes, recordPos).End? && recordPos <= |os.bytes|
    }

    /** Ready to read the `i`-th record next. */
    ghost predicate Approaching(i: nat)
      reads this, os
    {
      && Sound() && key.Some? && Ascending(key.value, File())
      && Here(i) && LogicalPos() <= |os.bytes|
      && (i == |File()| ==> Orderly())
      && (currentKey != [] ==> buffer != [])
    }

    /** The next record of an ascending file. */
    method GetNext(ghost i: nat) returns (r: Outcome)
      requires Approaching(i)
      modifies this, os`offset
      ensures Orderly() && SeeksInside()
      ensures recordPos == old(LogicalPos()) && JustRead(i, r)
      ensures i < |File()| || old(currentKey) != [] ==> currentKey != []
      ensures i == |File()| ==> currentKey == old(currentKey)
      ensures i < |File()| ==> Approaching(i + 1)
    {
      ghost var before := Now();
      r := GetRecord();
      ReadStaysOnTrack(key.value, format, os.bytes, before, Now(), i);
    }

    /** No seek on the way to `k` goes wrong: there is none, or it may go anywhere in the file. */
    ghost predicate SeeksFor(k: seq<byte>)
      reads this
    {
      SeeksInside() || (currentKey != [] && |currentKey| == |k| && Less(currentKey, k))
    }

    /** Brings the file to a place from which the record at the rank of `k` still follows. */
    method SeekBelow(k: seq<byte>) returns (ghost i: nat)
      requires Orderly() && SeeksFor(k) && |k| == key.value.len && (currentKey == [] || k != currentKey)
      modifies this`bufferSize, this`readPtr, this`readEnd, this`bufferPos, this`pos, this`eof, this`atEnd, os`offset
      ensures Approaching(i) && i <= Rank(key.value, File(), k)
      ensures i > 0 ==> currentKey != []
    {
      var firstCmp := if currentKey != [] && !Less(k, currentKey) then 1 else -1;
      if firstCmp < 0 {
        if currentKey != [] && |currentKey| == |k| { LessTrichotomy(k, currentKey); }
        ghost var before := Now();
        BufferSeek(0);
        i := 0;
        if File() == [] {
          assert forall t: nat :: !Tracks(key.value, format, os.bytes, before, t);
          assert Before(format, os.bytes, Now().pos, 0);
        }
      } else {
        ghost var t: nat :| Tracks(key.value, format, os.bytes, Now(), t);
        LessTrichotomy(k, currentKey);
        i := if Here(t) then t else t + 1;
        RankAbove(key.value, File(), k, t);
      }
    }

    /** What a lookup of `k` must have done: stopped behind the first record at or after `k`, and
        delivered it if it has that very key. */
    ghost predicate LookedUp(k: seq<byte>, r: Outcome)
      requires Orderly() && |k| == key.value.len
      reads this, os
    {
      var n := Rank(key.value, File(), k);
      if n < |File()| && KeyOf(key.value, File()[n]) == k then JustRead(n, r)
      else r == NotFound && JustRead(n, if n < |File()| then Got(File()[n].record) else Eof)
    }

    /** The record read last, if the last read did not run into the end. */
    lemma CurrentRecord() returns (t: nat)
      requires Orderly() && SeeksInside() && currentKey != []
      requires ScanAt(format, os.bytes, recordPos).Rec?
      ensures Ascending(key.value, File()) && t < |File()| && currentKey == KeyOf(key.value, File()[t])
      ensures |currentKey| == key.value.len && Rank(key.value, File(), currentKey) == t
      ensures Before(format, os.bytes, recordPos, t) && recordPos < |os.bytes| && CanSeek(recordPos)
    {
      t :| Tracks(key.value, format, os.bytes, Now(), t);
      RankOfEntry(key.value, File(), t);
      BeforeEntry(format, os.bytes, 0, t);
    }

    method ReadAgain() returns (r: Outcome)
      requires Orderly() && SeeksInside() && currentKey != []
      requires ScanAt(format, os.bytes, recordPos).Rec?
      modifies this, os`offset
      ensures Orderly() && SeeksInside() && currentKey == old(currentKey)
      ensures |currentKey| == key.value.len && LookedUp(currentKey, r)
    {
      ghost var t := CurrentRecord();
      BufferSeek(recordPos);
      r := GetNext(t);
    }

    /** Reads on to the first record at or after `k`. */
    method ScanFor(k: seq<byte>, ghost from: nat) returns (r: Outcome)
      requires Approaching(from) && |k| == key.value.len && from <= Rank(key.value, File(), k)
      requires from > 0 ==> currentKey != []
      modifies this, os`offset
      ensures Orderly() && SeeksInside() && JustRead(Rank(key.value, File(), k), r)
      ensures File() != [] ==> currentKey != []
    {
      ghost var j, n, es := from, Rank(key.value, File(), k), File();
      while true
        invariant File() == es && Approaching(j) && j <= n && (j > 0 ==> currentKey != [])
        decreases n - j
      {
        r := GetNext(j);
        var reached := HasReached(key.value, k, r, es, j);
        if reached { break; }
        j := j + 1;
      }
      assert j == n;
    }

    /** The record with key `k`, read again, or searched from here or from the front. */
    method GetRecordKey(k: seq<byte>) returns (r: Outcome)
      requires Orderly() && SeeksFor(k) && |k| == key.value.len
      requires currentKey != [] && k == currentKey ==> ScanAt(format, os.bytes, recordPos).Rec?
      modifies this, os`offset
      ensures Orderly() && SeeksInside() && LookedUp(k, r)
      ensures r.Got? <==> exists e :: e in File() && KeyOf(key.value, e) == k
      ensures File() != [] ==> currentKey != []
    {
      PresentIffAtRank(key.value, File(), k);
      if currentKey != [] && k == currentKey {
        LessTrichotomy(k, k);
        r := ReadAgain();
      } else {
        ghost var j := SeekBelow(k);
        r := ScanFor(k, j);
        if r.Eof? || KeyField(key.value, r.record, []) != k { r := NotFound; }
      }
    }

    /** Behind the last record, seeking to the place of the read that failed is safe if bytes were left
        there that are no record, or if nothing was ever read; in a file of lines, only then. */
    lemma SeekToEnd()
      requires Orderly() && eof && ScanAt(format, os.bytes, recordPos).End? && recordPos <= |os.bytes|
      requires File() != [] ==> currentKey != []
      ensures CanSeek(recordPos) <==> recordPos < |os.bytes| || buffer == []
      ensures format.Lines? ==> (CanSeek(recordPos) <==> os.bytes == [])
    {
      assert format.Lines? ==> recordPos == |os.bytes| == bufferPos;
      assert os.bytes != [] && format.Lines? ==> ScanAt(format, os.bytes, 0).Rec?;
    }

    /** The first branch of a lookup after a read that ran into the end: the place of that read has
        replaced the place of the record. If it is the end of the file, the pointer goes to the front
        of the bytes that were read last, which are not the bytes that follow. */
    method SeekToCurrent()
      requires Orderly() && eof && currentKey != []
      requires ScanAt(format, os.bytes, recordPos).End? && recordPos <= |os.bytes|
      modifies this`bufferSize, this`readPtr, this`readEnd, this`bufferPos, this`pos, this`eof, this`atEnd, os`offset
      ensures Sound() <==> recordPos < |os.bytes|
      ensures recordPos == |os.bytes| ==> readPtr == Some(0) && buffer != []
    {
      BufferSeek(recordPos);
    }

    /** The reader stands before the `n`-th record, which it read last. */
    ghost predicate BackAt(n: nat)
      reads this, os
    {
      && Sound() && Orderly() && Here(n)
      && n < |File()| && recordPos == File()[n].at && currentKey == KeyOf(key.value, File()[n])
    }

    /** Back to where the read before started: in an ascending file, to the record it delivered. */
    method SeekBack(ghost n: nat)
      requires Orderly() && SeeksInside()
      modifies this`bufferSize, this`readPtr, this`readEnd, this`bufferPos, this`pos, this`eof, this`atEnd, os`offset
      ensures Sound() <==> old(CanSeek(recordPos))
      ensures old(n < |File()| && JustRead(n, Got(File()[n].record))) ==> BackAt(n)
    {
      ghost var s := Now();
      if n < |File()| && JustRead(n, Got(File()[n].record)) { BackToRecord(key.value, format, os.bytes, s, n); }
      BufferSeek(recordPos);
      assert Now() == Spot(s.recordPos, s.recordPos, s.key);
    }

    /** Where a lookup stops. */
    lemma StoppedAtRank(k: seq<byte>, r: Outcome)
      requires Orderly() && |k| == key.value.len && LookedUp(k, r)
      ensures var n := Rank(key.value, File(), k);
              JustRead(n, if n < |File()| then Got(File()[n].record) else Eof)
    {
    }

    /** `set` with a key: a lookup whose failure is ignored, then back to the record it stopped at.
        A key beyond the last line leaves the position at the end of the file; seeking there
        points into the bytes the buffer last held, unless the file is empty. */
    method Set(k: seq<byte>)
      requires Orderly() && SeeksFor(k) && |k| == key.value.len
      requires currentKey != [] && k == currentKey ==> ScanAt(format, os.bytes, recordPos).Rec?
      modifies this, os`offset
      ensures Rank(key.value, File(), k) < |File()| ==> BackAt(Rank(key.value, File(), k))
      ensures Rank(key.value, File(), k) == |File()| ==> (Sound() <==> recordPos < |os.bytes| || buffer == [])
      ensures format.Lines? ==> (Sound() <==> Rank(key.value, File(), k) < |File()| || os.bytes == [])
    {
      var r := GetRecordKey(k);
      ghost var n := Rank(key.value, File(), k);
      StoppedAtRank(k, r);
      if n == |File()| { SeekToEnd(); }
      SeekBack(n);
    }

    ghost predicate EndKnown()
      reads this, os
    {
      os.appending || (os.offset <= |os.bytes| && (atEnd ==> os.offset == |os.bytes|))
    }

    /** Appends a record with its framing. The record is refused if it holds a line feed although
        none are allowed. */
    method PutRecord(record: seq<byte>) returns (ok: bool)
      requires EndKnown()
      modifies this, os
      ensures EndKnown() && (ok <==> !(noLineFeeds && LF in record))
      ensures os.bytes == if ok then old(os.bytes) + Frame(format, crlf, record) else old(os.bytes)
    {
      currentKey := [];
      FlushReadBuffer();
      if noLineFeeds && LF in record { return false; }
      if !atEnd {
        os.SeekEnd();
        atEnd := true;
      }
      eof := false;
      WriteRecord(record);
      ok := true;
    }

    method WriteRecord(record: seq<byte>)
      requires os.appending || os.offset == |os.bytes|
      modifies os
      ensures os.offset == |os.bytes|
      ensures os.bytes == old(os.bytes) + Frame(format, crlf, record)
    {
      ghost var was := os.bytes;
      if format.Sam3? { os.Write(LengthBytes(|record|)); }
      os.Write(record);
      if format.Lines? { os.Write(LineFeed(crlf)); }
      assert format.Lines? ==> os.bytes == was + record + LineFeed(crlf) == was + (record + LineFeed(crlf));
      assert format.Sam3? ==> os.bytes == was + LengthBytes(|record|) + record == was + (LengthBytes(|record|) + record);
    }
  }
}
