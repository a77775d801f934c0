/** What the bytes of a record file mean: lines, or records behind a three-byte length. */
module RecordFormat {
  import opened KeyBytes

  const TAB: byte := 9
  const LF: byte := 10
  const CR: byte := 13
  const SPACE: byte := 32

  datatype Format =
    | Lines(expandTabs: bool)
    | Sam3

  /** One record of a file, and where the next one starts. */
  datatype Scan = End | Rec(record: seq<byte>, next: nat)

  function Spaces(n: nat): (s: seq<byte>)
    ensures |s| == n
  {
    seq(n, _ => SPACE)
  }

  /** A tab fills up to the next multiple of 8 of the record's column. */
  function AppendByte(area: seq<byte>, b: byte, expandTabs: bool): seq<byte> {
    if expandTabs && b == TAB then area + Spaces(8 - |area| % 8) else area + [b]
  }

  function Expand(raw: seq<byte>, expandTabs: bool): (area: seq<byte>)
    ensures area == [] <==> raw == []
  {
    if raw == [] then [] else AppendByte(Expand(raw[..|raw| - 1], expandTabs), raw[|raw| - 1], expandTabs)
  }

  function WithoutCR(area: seq<byte>): seq<byte> {
    if area != [] && area[|area| - 1] == CR then area[..|area| - 1] else area
  }

  /** The first line feed at or after `pos`, or the end of the file. */
  function LineEnd(disk: seq<byte>, pos: nat): (e: nat)
    requires pos <= |disk|
    ensures pos <= e <= |disk| && LF !in disk[pos..e]
    ensures e < |disk| ==> disk[e] == LF
    decreases |disk| - pos
  {
    if pos == |disk| || disk[pos] == LF then pos
    else
      var e := LineEnd(disk, pos + 1);
      assert disk[pos..e] == [disk[pos]] + disk[pos + 1..e];
      e
  }

  /** What the first `n` of the three length bytes at `pos` contribute, most significant first. */
  function LengthPart(disk: seq<byte>, pos: nat, n: nat): nat
    requires n <= 3 && pos + n <= |disk|
  {
    if n == 0 then 0 else LengthPart(disk, pos, n - 1) + Weighed(disk[pos + n - 1], n - 1)
  }

  /** What the `i`-th length byte stands for. */
  function Weighed(b: byte, i: nat): nat {
    if i == 0 then 0x10000 * (b as int) else if i == 1 then 0x100 * (b as int) else b
  }

  function ScanAt(format: Format, disk: seq<byte>, pos: nat): (s: Scan)
    ensures s.Rec? ==> pos < s.next <= |disk|
  {
    match format
    case Lines(tabs) =>
      if pos >= |disk| then End
      else
        var e := LineEnd(disk, pos);
        var area := Expand(disk[pos..e], tabs);
        if e < |disk| then Rec(WithoutCR(area), e + 1) else Rec(area, e)
    case Sam3 =>
      if pos + 3 > |disk| then End
      else
        var end := pos + 3 + LengthPart(disk, pos, 3);
        if end <= |disk| then Rec(disk[pos + 3..end], end)
        else if pos + 3 < |disk| then Rec(disk[pos + 3..], |disk|)
        else End
  }

  datatype Entry = Entry(at: nat, record: seq<byte>)

  /** All records from `pos` on, each with its position. */
  function Entries(format: Format, disk: seq<byte>, pos: nat): seq<Entry>
    decreases |disk| - pos
  {
    match ScanAt(format, disk, pos)
    case End => []
    case Rec(record, next) => [Entry(pos, record)] + Entries(format, disk, next)
  }

  function Records(format: Format, disk: seq<byte>, pos: nat): seq<seq<byte>>
    decreases |disk| - pos
  {
    match ScanAt(format, disk, pos)
    case End => []
    case Rec(record, next) => [record] + Records(format, disk, next)
  }

  lemma {:induction false} ExpandPlain(raw: seq<byte>, more: seq<byte>, expandTabs: bool)
    requires expandTabs ==> TAB !in more
    ensures Expand(raw + more, expandTabs) == Expand(raw, expandTabs) + more
  {
    if more == [] {
      assert raw + more == raw;
    } else {
      var n := |more| - 1;
      ExpandPlain(raw, more[..n], expandTabs);
      assert (raw + more)[..|raw| + n] == raw + more[..n];
      assert more == more[..n] + [more[n]];
    }
  }

  lemma {:induction false} LineEndIs(disk: seq<byte>, pos: nat, e: nat)
    requires pos <= e <= |disk| && LF !in disk[pos..e] && (e < |disk| ==> disk[e] == LF)
    ensures LineEnd(disk, pos) == e
    decreases e - pos
  {
    if pos < e {
      assert disk[pos] in disk[pos..e];
      assert disk[pos + 1..e] == disk[pos..e][1..];
      LineEndIs(disk, pos + 1, e);
    }
  }

  /** Expanding a stretch without tabs and the tab after it. */
  lemma ExpandToTab(raw: seq<byte>, more: seq<byte>)
    requires TAB !in more
    ensures var r := Expand(raw, true) + more;
            Expand(raw + more + [TAB], true) == r + Spaces((|r| / 8 + 1) * 8 - |r|)
  {
    ExpandPlain(raw, more, true);
    assert (raw + more + [TAB])[..|raw + more|] == raw + more;
  }

  /** What a line reader has to know to name the record it gathered. */
  lemma ScanOfLine(disk: seq<byte>, start: nat, area: seq<byte>, e: nat, expandTabs: bool)
    requires start < |disk| && e == LineEnd(disk, start)
    requires area == Expand(disk[start..e], expandTabs)
    ensures ScanAt(Lines(expandTabs), disk, start) == if e < |disk| then Rec(WithoutCR(area), e + 1) else Rec(area, e)
    ensures e == |disk| ==> area != []
  {
  }
}
