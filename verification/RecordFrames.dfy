/** How records are written, and exactly which lists of records come back when they are read. */
module RecordFrames {
  import opened KeyBytes
  import opened RecordFormat

  function LineFeed(crlf: bool): seq<byte> {
    if crlf then [CR, LF] else [LF]
  }

  function LengthBytes(n: nat): (b: seq<byte>)
    ensures |b| == 3
  {
    [n / 0x10000 % 0x100, n / 0x100 % 0x100, n % 0x100]
  }

  function Frame(format: Format, crlf: bool, record: seq<byte>): seq<byte> {
    match format
    case Sam3 => LengthBytes(|record|) + record
    case Lines(_) => record + LineFeed(crlf)
  }

  function FrameAll(format: Format, crlf: bool, records: seq<seq<byte>>): seq<byte> {
    if records == [] then [] else Frame(format, crlf, records[0]) + FrameAll(format, crlf, records[1..])
  }

  /** What reading makes of a line that was written. */
  function ReadBack(record: seq<byte>, crlf: bool, expandTabs: bool): seq<byte> {
    WithoutCR(Expand(record + (if crlf then [CR] else []), expandTabs))
  }

  function ReadBackAll(records: seq<seq<byte>>, crlf: bool, expandTabs: bool): seq<seq<byte>> {
    if records == [] then [] else [ReadBack(records[0], crlf, expandTabs)] + ReadBackAll(records[1..], crlf, expandTabs)
  }

  // ----- lines

  lemma ScanWrittenLine(pre: seq<byte>, record: seq<byte>, rest: seq<byte>, crlf: bool, expandTabs: bool)
    requires LF !in record
    ensures ScanAt(Lines(expandTabs), pre + (record + LineFeed(crlf)) + rest, |pre|) ==
            Rec(ReadBack(record, crlf, expandTabs), |pre + (record + LineFeed(crlf))|)
  {
    var disk := pre + (record + LineFeed(crlf)) + rest;
    var raw := record + (if crlf then [CR] else []);
    var e := |pre| + |raw|;
    assert disk[|pre|..e] == raw;
    assert disk[e] == LF;
    LineEndIs(disk, |pre|, e);
  }

  lemma {:induction false} LinesReadBack(pre: seq<byte>, records: seq<seq<byte>>, crlf: bool, expandTabs: bool)
    requires forall r <- records :: LF !in r
    ensures Records(Lines(expandTabs), pre + FrameAll(Lines(expandTabs), crlf, records), |pre|)
            == ReadBackAll(records, crlf, expandTabs)
    decreases |records|
  {
    var format := Lines(expandTabs);
    if records != [] {
      var frame, rest := Frame(format, crlf, records[0]), FrameAll(format, crlf, records[1..]);
      assert pre + FrameAll(format, crlf, records) == pre + frame + rest;
      ScanWrittenLine(pre, records[0], rest, crlf, expandTabs);
      LinesReadBack(pre + frame, records[1..], crlf, expandTabs);
    }
  }

  function CountLF(s: seq<byte>): nat {
    if s == [] then 0 else (if s[0] == LF then 1 else 0) + CountLF(s[1..])
  }

  lemma {:induction false} CountLFConcat(a: seq<byte>, b: seq<byte>)
    ensures CountLF(a + b) == CountLF(a) + CountLF(b)
  {
    if a == [] {
      assert a + b == b;
    } else {
      CountLFConcat(a[1..], b);
      assert (a + b)[1..] == a[1..] + b;
    }
  }

  lemma {:induction false} CountLFNone(a: seq<byte>)
    ensures CountLF(a) == 0 <==> LF !in a
  {
    if a != [] {
      CountLFNone(a[1..]);
      assert a == [a[0]] + a[1..];
    }
  }

  lemma {:induction false} LineEndBy(disk: seq<byte>, pos: nat, q: nat)
    requires pos <= q < |disk| && disk[q] == LF
    ensures LineEnd(disk, pos) <= q
    decreases q - pos
  {
    if disk[pos] != LF { LineEndBy(disk, pos + 1, q); }
  }

  lemma CountLFOfLine(disk: seq<byte>, pos: nat, e: nat)
    requires pos <= e < |disk| && disk[e] == LF && LF !in disk[pos..e]
    ensures CountLF(disk[pos..]) == 1 + CountLF(disk[e + 1..])
  {
    assert disk[pos..] == disk[pos..e] + disk[e..];
    CountLFConcat(disk[pos..e], disk[e..]);
    CountLFNone(disk[pos..e]);
    assert disk[e..][1..] == disk[e + 1..];
  }

  /** A file whose lines are all terminated has as many records as line feeds. */
  lemma {:induction false} CountRecords(disk: seq<byte>, pos: nat, expandTabs: bool)
    requires pos <= |disk| && (pos < |disk| ==> disk[|disk| - 1] == LF)
    ensures |Records(Lines(expandTabs), disk, pos)| == CountLF(disk[pos..])
    decreases |disk| - pos
  {
    if pos < |disk| {
      var e := LineEnd(disk, pos);
      LineEndBy(disk, pos, |disk| - 1);
      CountLFOfLine(disk, pos, e);
      CountRecords(disk, e + 1, expandTabs);
    }
  }

  lemma {:induction false} CountFrames(records: seq<seq<byte>>, crlf: bool, expandTabs: bool)
    ensures var disk := FrameAll(Lines(expandTabs), crlf, records);
            && CountLF(disk) >= |records|
            && (CountLF(disk) == |records| <==> forall r <- records :: LF !in r)
            && (records != [] ==> disk != [] && disk[|disk| - 1] == LF)
  {
    if records != [] {
      var rest := FrameAll(Lines(expandTabs), crlf, records[1..]);
      CountFrames(records[1..], crlf, expandTabs);
      CountLFConcat(records[0] + LineFeed(crlf), rest);
      CountLFConcat(records[0], LineFeed(crlf));
      CountLFNone(records[0]);
      assert CountLF(LineFeed(crlf)) == 1 by { assert LineFeed(true)[1..] == LineFeed(false); }
      assert records == [records[0]] + records[1..];
      if records[1..] == [] { assert rest == []; }
    }
  }

  /** A record that comes back from a line as it was. */
  predicate Survives(record: seq<byte>, crlf: bool, expandTabs: bool) {
    && (crlf || record == [] || record[|record| - 1] != CR)
    && (expandTabs ==> TAB !in record)
  }

  lemma {:induction false} NoTabExpanded(raw: seq<byte>)
    ensures TAB !in Expand(raw, true)
  {
    if raw != [] { NoTabExpanded(raw[..|raw| - 1]); }
  }

  lemma ReadBackIsSame(record: seq<byte>, crlf: bool, expandTabs: bool)
    ensures ReadBack(record, crlf, expandTabs) == record <==> Survives(record, crlf, expandTabs)
  {
    var raw := record + (if crlf then [CR] else []);
    if expandTabs && TAB in record {
      NoTabExpanded(raw);
    } else {
      ExpandPlain([], raw, expandTabs);
      assert [] + raw == raw;
    }
  }

  lemma {:induction false} ReadBackAllIsSame(records: seq<seq<byte>>, crlf: bool, expandTabs: bool)
    ensures ReadBackAll(records, crlf, expandTabs) == records <==> forall r <- records :: Survives(r, crlf, expandTabs)
  {
    if records != [] {
      ReadBackAllIsSame(records[1..], crlf, expandTabs);
      ReadBackIsSame(records[0], crlf, expandTabs);
      assert records == [records[0]] + records[1..];
    }
  }

  /** Lines come back as written exactly when none holds a line feed, none ends in CR (or CR LF is
      written), and none holds a tab (or tabs are kept). */
  lemma LinesRoundTrip(records: seq<seq<byte>>, crlf: bool, expandTabs: bool)
    ensures var format := Lines(expandTabs);
            Records(format, FrameAll(format, crlf, records), 0) == records <==>
            forall r <- records :: LF !in r && Survives(r, crlf, expandTabs)
  {
    var disk := FrameAll(Lines(expandTabs), crlf, records);
    CountFrames(records, crlf, expandTabs);
    CountRecords(disk, 0, expandTabs);
    assert disk[0..] == disk && [] + disk == disk;
    if forall r <- records :: LF !in r {
      LinesReadBack([], records, crlf, expandTabs);
      ReadBackAllIsSame(records, crlf, expandTabs);
    }
  }

  // ----- records behind their length

  lemma BytesOfNumber(n: nat)
    ensures n / 0x10000 % 0x100 * 0x10000 + n / 0x100 % 0x100 * 0x100 + n % 0x100 == n % 0x1000000
  {
    var high, low := n / 0x10000, n % 0x10000;
    assert n / 0x100 == high * 0x100 + low / 0x100;
    assert n % 0x1000000 == high % 0x100 * 0x10000 + low;
  }

  lemma LengthOfBytes(disk: seq<byte>, pos: nat, n: nat)
    requires pos + 3 <= |disk|
    requires disk[pos] == LengthBytes(n)[0] && disk[pos + 1] == LengthBytes(n)[1] && disk[pos + 2] == LengthBytes(n)[2]
    ensures LengthPart(disk, pos, 3) == n % 0x1000000
  {
    BytesOfNumber(n);
    assert LengthPart(disk, pos, 1) == disk[pos] as int * 0x10000;
    assert LengthPart(disk, pos, 2) == LengthPart(disk, pos, 1) + disk[pos + 1] as int * 0x100;
    assert LengthPart(disk, pos, 3) == LengthPart(disk, pos, 2) + disk[pos + 2] as int;
  }

  lemma ScanWrittenRecord(pre: seq<byte>, record: seq<byte>, rest: seq<byte>)
    ensures var disk := pre + Frame(Sam3, false, record) + rest;
            if |record| < 0x1000000 then ScanAt(Sam3, disk, |pre|) == Rec(record, |pre + Frame(Sam3, false, record)|)
            else ScanAt(Sam3, disk, |pre|).End? || |ScanAt(Sam3, disk, |pre|).record| < |record|
  {
    var disk := pre + Frame(Sam3, false, record) + rest;
    var p := |pre|;
    assert disk[p] == LengthBytes(|record|)[0] && disk[p + 1] == LengthBytes(|record|)[1] && disk[p + 2] == LengthBytes(|record|)[2];
    LengthOfBytes(disk, p, |record|);
    if |record| < 0x1000000 {
      assert disk[p + 3..p + 3 + |record|] == record;
    } else {
      assert |record| % 0x1000000 < |record|;
    }
  }

  lemma ReadWrittenRecord(pre: seq<byte>, frame: seq<byte>, record: seq<byte>, rest: seq<byte>)
    requires frame == Frame(Sam3, false, record)
    ensures var rs := Records(Sam3, pre + frame + rest, |pre|);
            if |record| < 0x1000000 then rs == [record] + Records(Sam3, pre + frame + rest, |pre + frame|)
            else rs == [] || rs[0] != record
  {
    ScanWrittenRecord(pre, record, rest);
  }

  lemma {:induction false} Sam3RoundTripFrom(pre: seq<byte>, records: seq<seq<byte>>)
    ensures Records(Sam3, pre + FrameAll(Sam3, false, records), |pre|) == records <==>
            forall r <- records :: |r| < 0x1000000
    decreases |records|
  {
    if records != [] {
      var r, rest := records[0], FrameAll(Sam3, false, records[1..]);
      var frame := Frame(Sam3, false, r);
      assert pre + FrameAll(Sam3, false, records) == pre + frame + rest;
      ReadWrittenRecord(pre, frame, r, rest);
      Sam3RoundTripFrom(pre + frame, records[1..]);
      assert records == [r] + records[1..];
    }
  }

  /** Records behind a length come back exactly when each length fits into three bytes. */
  lemma Sam3RoundTrip(records: seq<seq<byte>>)
    ensures Records(Sam3, FrameAll(Sam3, false, records), 0) == records <==> forall r <- records :: |r| < 0x1000000
  {
    Sam3RoundTripFrom([], records);
    assert [] + FrameAll(Sam3, false, records) == FrameAll(Sam3, false, records);
  }
}
