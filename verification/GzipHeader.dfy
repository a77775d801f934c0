/** The header of a gzip member, section 2.3 of RFC 1952. */
module GzipHeader {
  import opened Wrappers
  import opened KeyBytes

  const ASCII := 0x01
  const HEAD_CRC := 0x02
  const EXTRA_FIELD := 0x04
  const ORIG_NAME := 0x08
  const COMMENT := 0x10
  const RESERVED := 0x20      // and all above
  const DEFLATED: byte := 8
  const ID1: byte := 0x1f
  const ID2: byte := 0x8b
  const UNIX: byte := 3

  predicate HasFlag(flags: byte, bit: int)
    requires bit > 0
  {
    flags / bit % 2 == 1
  }

  // ----- the format

  datatype Header = Header(
    text: bool,
    time: seq<byte>,
    xflags: byte,
    os: byte,
    extra: Option<seq<byte>>,
    name: Option<seq<byte>>,
    comment: Option<seq<byte>>,
    crc: Option<seq<byte>>)
  {
    predicate Valid() {
      && |time| == 4
      && (extra.Some? ==> |extra.value| < 0x1_0000)
      && (name.Some? ==> 0 !in name.value)
      && (comment.Some? ==> 0 !in comment.value)
      && (crc.Some? ==> |crc.value| == 2)
    }

    function Flags(): byte {
      ((if text then ASCII else 0) + (if crc.Some? then HEAD_CRC else 0) + (if extra.Some? then EXTRA_FIELD else 0)
       + (if name.Some? then ORIG_NAME else 0) + if comment.Some? then COMMENT else 0)
    }
  }

  function Start(h: Header): seq<byte> {
    [ID1, ID2, DEFLATED, h.Flags()] + h.time + [h.xflags, h.os]
  }

  function ExtraBytes(extra: Option<seq<byte>>): seq<byte>
    requires extra.Some? ==> |extra.value| < 0x1_0000
  {
    if extra.None? then [] else [(|extra.value| % 256), (|extra.value| / 256)] + extra.value
  }

  function StringBytes(s: Option<seq<byte>>): seq<byte> {
    if s.None? then [] else s.value + [0]
  }

  function CrcBytes(crc: Option<seq<byte>>): seq<byte> {
    if crc.None? then [] else crc.value
  }

  function Encode(h: Header): seq<byte>
    requires h.Valid()
  {
    Start(h) + ExtraBytes(h.extra) + StringBytes(h.name) + StringBytes(h.comment) + CrcBytes(h.crc)
  }

  // ----- what the reader accepts

  /** A place in the buffer; or the header is refused; or a read has left the buffer's memory. */
  datatype Step = At(p: nat) | Bad | Lost

  /** The first zero byte from `p` on. */
  function ZeroFrom(m: seq<byte>, p: nat): (i: Option<nat>)
    ensures i.Some? ==> p <= i.value < |m| && m[i.value] == 0 && 0 !in m[p..i.value]
    ensures i.None? ==> forall k :: p <= k < |m| ==> m[k] != 0
    decreases |m| - p
  {
    if p >= |m| then None
    else if m[p] == 0 then Some(p)
    else
      var i := ZeroFrom(m, p + 1);
      assert i.Some? ==> m[p..i.value] == [m[p]] + m[p + 1..i.value];
      i
  }

  function AfterExtra(m: seq<byte>, length: nat, present: bool, p: nat): Step {
    if !present then At(p)
    else if p + 2 > |m| then Lost
    else
      var q := p + 2 + m[p] + 256 * (m[p + 1] as int);
      if q >= length then Bad else At(q)
  }

  function AfterString(m: seq<byte>, length: nat, present: bool, p: nat): Step {
    if !present then At(p)
    else
      var i := ZeroFrom(m, p);
      if i.None? then Lost else if i.value + 1 >= length then Bad else At(i.value + 1)
  }

  function AfterCrc(length: nat, present: bool, p: nat): Step {
    var q := if present then p + 2 else p;
    if q >= length then Bad else At(q)
  }

  /** What follows the two magic bytes. */
  function HeaderEnd(m: seq<byte>, length: nat): Step
    requires 3 <= length <= |m|
  {
    if |m| < 4 then Lost
    else if m[2] != DEFLATED || m[3] >= RESERVED then Bad
    else OptionalEnd(m, length, m[3])
  }

  function OptionalEnd(m: seq<byte>, length: nat, flags: byte): Step {
    var extra := AfterExtra(m, length, HasFlag(flags, EXTRA_FIELD), 10);
    if !extra.At? then extra
    else
      var name := AfterString(m, length, HasFlag(flags, ORIG_NAME), extra.p);
      if !name.At? then name
      else
        var comment := AfterString(m, length, HasFlag(flags, COMMENT), name.p);
        if !comment.At? then comment else AfterCrc(length, HasFlag(flags, HEAD_CRC), comment.p)
  }

  predicate HasMagic(m: seq<byte>, length: nat)
    requires length <= |m|
  {
    length > 2 && m[0] == ID1 && m[1] == ID2
  }

  // ----- the reader and the writer

  datatype Outcome = Found(length: nat) | NoHeader | NotGzip | DataError | Overrun

  function OutcomeOf(m: seq<byte>, length: nat, auto: bool): Outcome
    requires length <= |m|
  {
    if !HasMagic(m, length) then (if auto then NoHeader else NotGzip)
    else
      match HeaderEnd(m, length)
      case At(n) => Found(n)
      case Bad => DataError
      case Lost => Overrun
  }

  class ZlibFile {
    const auto: bool
    const buffer: array<byte>
    var length: nat
    var doNothing: bool
    var compression: int

    ghost predicate Valid()
      reads this
    {
      length <= buffer.Length
    }

    constructor (auto: bool, buffer: array<byte>, length: nat)
      requires length <= buffer.Length
      ensures Valid() && this.auto == auto && this.buffer == buffer && this.length == length && !doNothing
    {
      this.auto, this.buffer, this.length, doNothing, compression := auto, buffer, length, false, -1;
    }

    method StringLength(p: nat) returns (n: Option<nat>)
      requires p <= buffer.Length
      ensures n == match ZeroFrom(buffer[..], p) case None => None case Some(i) => Some(i - p)
    {
      var i := p;
      while i < buffer.Length && buffer[i] != 0
        invariant p <= i <= buffer.Length && ZeroFrom(buffer[..], p) == ZeroFrom(buffer[..], i)
      {
        i := i + 1;
      }
      n := if i < buffer.Length then Some(i - p) else None;
    }

    method SkipString(present: bool, p: nat) returns (r: Step)
      requires Valid()
      ensures r == AfterString(buffer[..], length, present, p)
    {
      if !present { return At(p); }
      if p > buffer.Length { return Lost; }
      var n := StringLength(p);
      if n.None? { return Lost; }
      var q := p + n.value + 1;
      r := if q >= length then Bad else At(q);
    }

    method SkipExtra(present: bool, p: nat) returns (r: Step)
      requires Valid()
      ensures r == AfterExtra(buffer[..], length, present, p)
    {
      if !present { return At(p); }
      if p + 2 > buffer.Length { return Lost; }
      var len := buffer[p] + 256 * (buffer[p + 1] as int);
      var q := p + 2 + len;
      r := if q >= length then Bad else At(q);
    }

    /** `read_header` */
    method ReadHeader() returns (r: Outcome)
      requires Valid()
      modifies this`doNothing, this`compression
      ensures r == OutcomeOf(buffer[..], length, auto)
      ensures doNothing == (old(doNothing) || r.NoHeader?)
      ensures r.Found? ==> compression == DEFLATED
      ensures r.NoHeader? || r.NotGzip? ==> compression == old(compression)
    {
      if 2 >= length || buffer[0] != ID1 || buffer[1] != ID2 {
        if !auto { return NotGzip; }
        doNothing := true;
        return NoHeader;
      }
      compression := buffer[2];
      if buffer.Length < 4 { return Overrun; }
      var flags := buffer[3];
      if compression != DEFLATED || flags >= RESERVED { return DataError; }
      var s := SkipExtra(HasFlag(flags, EXTRA_FIELD), 10);
      if s.At? { s := SkipString(HasFlag(flags, ORIG_NAME), s.p); }
      if s.At? { s := SkipString(HasFlag(flags, COMMENT), s.p); }
      if s.At? {
        var p := s.p;
        if HasFlag(flags, HEAD_CRC) { p := p + 2; }
        s := if p >= length then Bad else At(p);
      }
      r := match s case At(n) => Found(n) case Bad => DataError case Lost => Overrun;
    }

    /** `write_header` */
    method WriteHeader()
      requires Valid() && buffer.Length >= 10
      modifies this`length, buffer
      ensures Valid() && length == 10
      ensures buffer[..length] == Encode(PlainHeader())
      ensures buffer[10..] == old(buffer[10..])
    {
      buffer[0], buffer[1], buffer[2] := ID1, ID2, DEFLATED;
      buffer[3], buffer[4], buffer[5], buffer[6], buffer[7], buffer[8] := 0, 0, 0, 0, 0, 0;
      buffer[9] := UNIX;
      length := 10;
    }
  }

  /** No name, no comment, no time. */
  function PlainHeader(): (h: Header)
    ensures h.Valid()
  {
    Header(false, [0, 0, 0, 0], 0, UNIX, None, None, None, None)
  }

  // ----- the reader accepts the headers of the format, and nothing else

  lemma {:induction false} ZeroFromIs(m: seq<byte>, p: nat, i: nat)
    requires p <= i < |m| && m[i] == 0 && 0 !in m[p..i]
    ensures ZeroFrom(m, p) == Some(i)
    decreases i - p
  {
    if p < i {
      assert m[p] in m[p..i];
      assert m[p + 1..i] == m[p..i][1..];
      ZeroFromIs(m, p + 1, i);
    }
  }

  /** The header's parts stand one after the other from place 0, 10, p1, p2, p3 to n. */
  ghost predicate PartsAt(m: seq<byte>, h: Header, p1: nat, p2: nat, p3: nat, n: nat)
    requires h.Valid()
  {
    && 10 <= p1 <= p2 <= p3 <= n <= |m|
    && m[..10] == Start(h)
    && m[10..p1] == ExtraBytes(h.extra)
    && m[p1..p2] == StringBytes(h.name)
    && m[p2..p3] == StringBytes(h.comment)
    && m[p3..n] == CrcBytes(h.crc)
  }

  lemma EncodedParts(m: seq<byte>, h: Header, n: nat) returns (p1: nat, p2: nat, p3: nat)
    requires h.Valid() && n <= |m| && m[..n] == Encode(h)
    ensures PartsAt(m, h, p1, p2, p3, n)
  {
    var a, b, c, d, e := Start(h), ExtraBytes(h.extra), StringBytes(h.name), StringBytes(h.comment), CrcBytes(h.crc);
    p1 := 10 + |b|;
    p2 := p1 + |c|;
    p3 := p2 + |d|;
    Pieces(m[..n], a, b, c, d, e);
    SliceOfFront(m, n, 0, 10);
    SliceOfFront(m, n, 10, p1);
    SliceOfFront(m, n, p1, p2);
    SliceOfFront(m, n, p2, p3);
    SliceOfFront(m, n, p3, n);
  }

  lemma SliceOfFront(m: seq<byte>, n: nat, from: nat, to: nat)
    requires from <= to <= n <= |m|
    ensures m[..n][from..to] == m[from..to]
  {
  }

  lemma FrontAndSlice(m: seq<byte>, from: nat, to: nat)
    requires from <= to <= |m|
    ensures m[..from] + m[from..to] == m[..to]
  {
  }

  lemma Pieces(s: seq<byte>, a: seq<byte>, b: seq<byte>, c: seq<byte>, d: seq<byte>, e: seq<byte>)
    requires s == a + b + c + d + e
    ensures var p := |a| + |b|;
            && s[..|a|] == a && s[|a|..p] == b && s[p..p + |c|] == c
            && s[p + |c|..p + |c| + |d|] == d && s[p + |c| + |d|..] == e
  {
  }

  lemma PartsEncode(m: seq<byte>, h: Header, p1: nat, p2: nat, p3: nat, n: nat)
    requires h.Valid() && PartsAt(m, h, p1, p2, p3, n)
    ensures m[..n] == Encode(h)
  {
    FrontAndSlice(m, 10, p1);
    FrontAndSlice(m, p1, p2);
    FrontAndSlice(m, p2, p3);
    FrontAndSlice(m, p3, n);
  }

  lemma FlagsOf(h: Header)
    ensures h.Flags() < RESERVED
    ensures HasFlag(h.Flags(), HEAD_CRC) == h.crc.Some? && HasFlag(h.Flags(), EXTRA_FIELD) == h.extra.Some?
    ensures HasFlag(h.Flags(), ORIG_NAME) == h.name.Some? && HasFlag(h.Flags(), COMMENT) == h.comment.Some?
  {
  }

  lemma ExtraIs(m: seq<byte>, length: nat, extra: Option<seq<byte>>, p: nat, q: nat)
    requires (extra.Some? ==> |extra.value| < 0x1_0000) && p <= q < length <= |m| && m[p..q] == ExtraBytes(extra)
    ensures AfterExtra(m, length, extra.Some?, p) == At(q)
  {
    if extra.Some? {
      var bytes := ExtraBytes(extra);
      assert m[p] == m[p..q][0] == bytes[0] && m[p + 1] == m[p..q][1] == bytes[1];
    }
  }

  lemma StringIs(m: seq<byte>, length: nat, s: Option<seq<byte>>, p: nat, q: nat)
    requires (s.Some? ==> 0 !in s.value) && p <= q < length <= |m| && m[p..q] == StringBytes(s)
    ensures AfterString(m, length, s.Some?, p) == At(q)
  {
    if s.Some? {
      assert m[q - 1] == m[p..q][q - 1 - p];
      assert m[p..q - 1] == m[p..q][..q - 1 - p] == s.value;
      ZeroFromIs(m, p, q - 1);
    }
  }

  /** A header with at least one byte behind it is read to its end. */
  lemma ReadsEveryHeader(m: seq<byte>, length: nat, h: Header, auto: bool)
    requires h.Valid() && length <= |m| && |Encode(h)| < length && m[..|Encode(h)|] == Encode(h)
    ensures OutcomeOf(m, length, auto) == Found(|Encode(h)|)
  {
    var n := |Encode(h)|;
    var p1, p2, p3 := EncodedParts(m, h, n);
    assert m[0] == m[..10][0] && m[1] == m[..10][1] && m[2] == m[..10][2] && m[3] == m[..10][3];
    FlagsOf(h);
    ExtraIs(m, length, h.extra, 10, p1);
    StringIs(m, length, h.name, p1, p2);
    StringIs(m, length, h.comment, p2, p3);
  }

  lemma ExtraWas(m: seq<byte>, length: nat, present: bool, p: nat) returns (extra: Option<seq<byte>>)
    requires length <= |m| && AfterExtra(m, length, present, p).At? && AfterExtra(m, length, present, p).p < length
    ensures extra.Some? == present && (extra.Some? ==> |extra.value| < 0x1_0000)
    ensures var q := AfterExtra(m, length, present, p).p; p <= q && m[p..q] == ExtraBytes(extra)
  {
    var q := AfterExtra(m, length, present, p).p;
    extra := if present then Some(m[p + 2..q]) else None;
  }

  lemma StringWas(m: seq<byte>, length: nat, present: bool, p: nat) returns (s: Option<seq<byte>>)
    requires length <= |m| && AfterString(m, length, present, p).At? && AfterString(m, length, present, p).p < length
    ensures s.Some? == present && (s.Some? ==> 0 !in s.value)
    ensures var q := AfterString(m, length, present, p).p; p <= q && m[p..q] == StringBytes(s)
  {
    var q := AfterString(m, length, present, p).p;
    s := if present then Some(m[p..q - 1]) else None;
  }

  /** What is read as a header of `n` bytes is one. */
  lemma ReadsOnlyHeaders(m: seq<byte>, length: nat, auto: bool) returns (h: Header)
    requires length <= |m| && OutcomeOf(m, length, auto).Found?
    ensures h.Valid()
    ensures var n := OutcomeOf(m, length, auto).length; n < length && m[..n] == Encode(h)
  {
    var n, flags := OutcomeOf(m, length, auto).length, m[3];
    var p1 := AfterExtra(m, length, HasFlag(flags, EXTRA_FIELD), 10).p;
    var p2 := AfterString(m, length, HasFlag(flags, ORIG_NAME), p1).p;
    var p3 := AfterString(m, length, HasFlag(flags, COMMENT), p2).p;
    var extra := ExtraWas(m, length, HasFlag(flags, EXTRA_FIELD), 10);
    var name := StringWas(m, length, HasFlag(flags, ORIG_NAME), p1);
    var comment := StringWas(m, length, HasFlag(flags, COMMENT), p2);
    var crc := if HasFlag(flags, HEAD_CRC) then Some(m[p3..n]) else None;
    h := Header(HasFlag(flags, ASCII), m[4..8], m[8], m[9], extra, name, comment, crc);
    StartWas(m, h);
    PartsEncode(m, h, p1, p2, p3, n);
  }

  lemma StartWas(m: seq<byte>, h: Header)
    requires |m| >= 10 && m[0] == ID1 && m[1] == ID2 && m[2] == DEFLATED && m[3] < RESERVED
    requires h.time == m[4..8] && h.xflags == m[8] && h.os == m[9]
    requires h.text == HasFlag(m[3], ASCII) && h.crc.Some? == HasFlag(m[3], HEAD_CRC)
    requires h.extra.Some? == HasFlag(m[3], EXTRA_FIELD) && h.name.Some? == HasFlag(m[3], ORIG_NAME)
    requires h.comment.Some? == HasFlag(m[3], COMMENT)
    ensures Start(h) == m[..10]
  {
    FlagsWere(m[3], h);
    assert m[..10] == [m[0], m[1], m[2], m[3]] + m[4..8] + [m[8], m[9]];
  }

  lemma FlagsWere(flags: byte, h: Header)
    requires flags < RESERVED
    requires h.text == HasFlag(flags, ASCII) && h.crc.Some? == HasFlag(flags, HEAD_CRC)
    requires h.extra.Some? == HasFlag(flags, EXTRA_FIELD) && h.name.Some? == HasFlag(flags, ORIG_NAME)
    requires h.comment.Some? == HasFlag(flags, COMMENT)
    ensures h.Flags() == flags
  {
  }

  /** The reader finds a header of `n` bytes exactly when the buffer starts with one and goes on. */
  lemma FindsExactlyTheHeaders(m: seq<byte>, length: nat, auto: bool, n: nat)
    requires length <= |m|
    ensures OutcomeOf(m, length, auto) == Found(n)
            <==> n < length && exists h: Header :: h.Valid() && Encode(h) == m[..n]
  {
    if OutcomeOf(m, length, auto) == Found(n) {
      var h := ReadsOnlyHeaders(m, length, auto);
    }
    forall h: Header | h.Valid() && n < length && Encode(h) == m[..n] ensures OutcomeOf(m, length, auto) == Found(n) {
      ReadsEveryHeader(m, length, h, auto);
    }
  }

  /** The header that is written is found again in what a reader gets, if data follow it. */
  method WriteThenRead(buffer: array<byte>, auto: bool, more: seq<byte>) returns (r: Outcome)
    requires buffer.Length >= 10 + |more| > 10
    modifies buffer
    ensures r == Found(10)
  {
    var writer := new ZlibFile(false, buffer, 0);
    writer.WriteHeader();
    ghost var header := buffer[..10];
    forall i | 0 <= i < |more| { buffer[10 + i] := more[i]; }
    assert buffer[..10] == header;
    var reader := new ZlibFile(auto, buffer, 10 + |more|);
    ReadsEveryHeader(buffer[..], reader.length, PlainHeader(), auto);
    assert buffer[..][..10] == header;
    r := reader.ReadHeader();
  }
}
