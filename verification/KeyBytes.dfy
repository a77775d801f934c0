/** Byte strings read as unsigned big-endian numbers: the order `memcmp` gives to keys of one
    length, and the increment that turns "strictly after k" into "at or after k + 1". */
module KeyBytes {
  import opened Sequences

  type byte = x: int | 0 <= x < 256

  /** The incremented bytes, and whether a carry ran out of the front. */
  datatype Sum = Sum(bytes: seq<byte>, overflow: bool)

  function Plus1(k: seq<byte>): (s: Sum)
    ensures |s.bytes| == |k|
  {
    if k == [] then Sum([], true)
    else
      var t := Plus1(k[1..]);
      if !t.overflow then Sum([k[0]] + t.bytes, false)
      else if k[0] == 255 then Sum([0] + t.bytes, true)
      else Sum([k[0] + 1] + t.bytes, false)
  }

  function Zeros(n: nat): (z: seq<byte>)
    ensures |z| == n && forall i :: 0 <= i < n ==> z[i] == 0
  {
    seq(n, _ => 0)
  }

  /** `memcmp(a, b, |a|) < 0` on byte strings of one length. */
  predicate Less(a: seq<byte>, b: seq<byte>)
    requires |a| == |b|
  {
    |a| > 0 && (a[0] < b[0] || (a[0] == b[0] && Less(a[1..], b[1..])))
  }

  lemma {:induction false} LessTrichotomy(a: seq<byte>, b: seq<byte>)
    requires |a| == |b|
    ensures Less(a, b) || a == b || Less(b, a)
    ensures !(Less(a, b) && Less(b, a))
    ensures a == b ==> !Less(a, b)
  {
    if |a| > 0 {
      LessTrichotomy(a[1..], b[1..]);
      assert a == [a[0]] + a[1..] && b == [b[0]] + b[1..];
    }
  }

  lemma {:induction false} LessTransitive(a: seq<byte>, b: seq<byte>, c: seq<byte>)
    requires |a| == |b| == |c|
    requires Less(a, b) && Less(b, c)
    ensures Less(a, c)
  {
    if a[0] == b[0] == c[0] {
      LessTransitive(a[1..], b[1..], c[1..]);
    }
  }

  lemma {:induction false} ZerosIsLeast(k: seq<byte>)
    ensures !Less(k, Zeros(|k|))
  {
    if |k| > 0 {
      ZerosIsLeast(k[1..]);
      assert Zeros(|k|)[1..] == Zeros(|k[1..]|);
    }
  }

  /** When the increment overflows, every byte was 0xFF: the result wraps to zero and no key of
      that length is greater. */
  lemma {:induction false} OverflowMeansGreatest(k: seq<byte>, x: seq<byte>)
    requires |k| == |x|
    ensures Plus1(k).overflow <==> forall i :: 0 <= i < |k| ==> k[i] == 255
    ensures Plus1(k).overflow ==> !Less(k, x) && Plus1(k).bytes == Zeros(|k|)
  {
    if |k| > 0 {
      OverflowMeansGreatest(k[1..], x[1..]);
      assert forall i :: 1 <= i < |k| ==> k[i] == k[1..][i - 1];
      assert forall i :: 0 <= i < |k| - 1 ==> k[1..][i] == k[i + 1];
      assert Zeros(|k|) == [0] + Zeros(|k[1..]|);
    }
  }

  /** The key lemma: without overflow, the keys strictly after `k` are exactly the keys at or
      after `k + 1`. */
  lemma {:induction false} AfterIsAtOrAfterPlus1(k: seq<byte>, x: seq<byte>)
    requires |k| == |x| && !Plus1(k).overflow
    ensures Less(k, x) <==> !Less(x, Plus1(k).bytes)
  {
    var s := Plus1(k).bytes;
    var t := Plus1(k[1..]);
    assert s[1..] == t.bytes;
    if !t.overflow {
      AfterIsAtOrAfterPlus1(k[1..], x[1..]);
    } else {
      OverflowMeansGreatest(k[1..], x[1..]);
      ZerosIsLeast(x[1..]);
    }
  }

  /** An increment of a suffix is an increment of the whole, as long as no carry leaves it. */
  lemma {:induction false} Plus1OfSuffix(pre: seq<byte>, suf: seq<byte>)
    ensures var s := Plus1(suf);
            Plus1(pre + suf) ==
            if !s.overflow then Sum(pre + s.bytes, false)
            else Sum(Plus1(pre).bytes + s.bytes, Plus1(pre).overflow)
  {
    var s := Plus1(suf);
    if pre == [] {
      assert pre + suf == suf && pre + s.bytes == s.bytes && Plus1(pre) == Sum([], true);
    } else {
      var front, after := [pre[0]], pre[1..];
      assert (pre + suf)[0] == pre[0] && (pre + suf)[1..] == after + suf;
      Plus1OfSuffix(after, suf);
      assert pre == front + after;
      Regroup(front, after, s.bytes);
      Regroup([if pre[0] == 255 then 0 else pre[0] + 1], Plus1(after).bytes, s.bytes);
    }
  }

  // ----- the numbers

  function Power(n: nat): (p: nat)
    ensures p > 0
  {
    if n == 0 then 1 else 0x100 * Power(n - 1)
  }

  function Value(k: seq<byte>): nat {
    if k == [] then 0 else k[0] * Power(|k| - 1) + Value(k[1..])
  }

  lemma {:induction false} ValueFits(k: seq<byte>)
    ensures Value(k) < Power(|k|)
  {
    if k != [] {
      ValueFits(k[1..]);
      Scaled(k[0], 255, Power(|k| - 1));
    }
  }

  lemma Scaled(a: int, b: int, p: nat)
    requires a <= b
    ensures a * p <= b * p && (a + 1) * p == a * p + p
  {
  }

  /** The increment adds one, modulo the power of 256. */
  lemma {:induction false} Plus1Adds(k: seq<byte>)
    ensures var s := Plus1(k); Value(s.bytes) + (if s.overflow then Power(|k|) else 0) == Value(k) + 1
  {
    if k != [] {
      var t, p := Plus1(k[1..]), Power(|k| - 1);
      Plus1Adds(k[1..]);
      Scaled(k[0], 255, p);
      var s := Plus1(k);
      assert s.bytes == [if !t.overflow then k[0] else if k[0] == 255 then 0 else k[0] + 1] + t.bytes;
      assert s.bytes[1..] == t.bytes;
    }
  }

  /** The order of the bytes is the order of the numbers. */
  lemma {:induction false} LessIsSmaller(a: seq<byte>, b: seq<byte>)
    requires |a| == |b|
    ensures Less(a, b) <==> Value(a) < Value(b)
  {
    if a != [] {
      var p := Power(|a| - 1);
      LessIsSmaller(a[1..], b[1..]);
      ValueFits(a[1..]);
      ValueFits(b[1..]);
      if a[0] < b[0] { Scaled(a[0] + 1, b[0], p); Scaled(a[0], b[0], p); }
      if b[0] < a[0] { Scaled(b[0] + 1, a[0], p); Scaled(b[0], a[0], p); }
    }
  }

  lemma {:induction false} ZeroIsZeros(k: seq<byte>)
    ensures Value(k) == 0 <==> k == Zeros(|k|)
  {
    if k != [] {
      ZeroIsZeros(k[1..]);
      if k[0] > 0 { Scaled(1, k[0], Power(|k| - 1)); }
      assert k[1..] == Zeros(|k| - 1) && k[0] == 0 ==> k == [0] + Zeros(|k| - 1) == Zeros(|k|);
      assert k == Zeros(|k|) ==> k[1..] == Zeros(|k| - 1);
    }
  }

  /** `incr`: carries from the last byte to the first, in place. */
  method Incr(a: array<byte>) returns (overflow: bool)
    modifies a
    ensures Sum(a[..], overflow) == Plus1(old(a[..]))
  {
    ghost var was := a[..];
    var p := a.Length;
    var carry := 1;
    while carry != 0 && p > 0
      invariant 0 <= p <= a.Length
      invariant carry == 0 || carry == 1
      invariant a[..p] == was[..p]
      invariant Sum(a[p..], carry == 1) == Plus1(was[p..])
    {
      p := p - 1;
      var m := (a[p] as int) + carry;
      ghost var tail := a[p + 1..];
      assert was[p..] == [was[p]] + was[p + 1..] && was[p] == was[..p + 1][p] == a[..p + 1][p];
      carry := if m >= 0x100 then 1 else 0;
      a[p] := m % 0x100;
      assert a[p..] == [a[p]] + tail;
    }
    Plus1OfSuffix(was[..p], was[p..]);
    assert was == was[..p] + was[p..];
    assert a[..] == a[..p] + a[p..];
    assert p == 0 ==> Plus1(was[..p]).bytes + a[p..] == a[..];
    overflow := carry != 0;
  }
}
