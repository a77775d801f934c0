/** Characters and scanning of statement text. Reading one past the end yields NUL. */
module SqlChars {

  predicate IsSpace(c: char) {
    c == ' ' || '\t' <= c <= '\r'
  }

  predicate IsDigit(c: char) {
    '0' <= c <= '9'
  }

  predicate IsAlpha(c: char) {
    'a' <= c <= 'z' || 'A' <= c <= 'Z'
  }

  /** The classes of characters the scanners step over. */
  datatype Class = Space | Blank | Digit | Alpha | AlphaNum | Letters | Word | Precision {
    predicate Has(c: char) {
      match this
      case Space => IsSpace(c)
      case Blank => c == ' '
      case Digit => IsDigit(c)
      case Alpha => IsAlpha(c)
      case AlphaNum => IsAlpha(c) || IsDigit(c)
      case Letters => IsAlpha(c) || c == '_'
      case Word => IsAlpha(c) || IsDigit(c) || c == '_'
      case Precision => IsSpace(c) || IsDigit(c) || c == ','
    }
  }

  function At(text: string, p: nat): char {
    if p < |text| then text[p] else '\0'
  }

  /** The end of the run of such characters at `p`. */
  function Skip(cls: Class, text: string, p: nat): (e: nat)
    requires p <= |text|
    ensures p <= e <= |text|
    decreases |text| - p
  {
    if p < |text| && cls.Has(text[p]) then Skip(cls, text, p + 1) else p
  }

  lemma {:induction false} SkipsTo(cls: Class, text: string, p: nat, e: nat)
    requires p <= e <= |text| && (forall i :: p <= i < e ==> cls.Has(text[i])) && (e < |text| ==> !cls.Has(text[e]))
    ensures Skip(cls, text, p) == e
    decreases e - p
  {
    if p < e { SkipsTo(cls, text, p + 1, e); }
  }

  lemma {:induction false} SkipIsRun(cls: Class, text: string, p: nat)
    requires p <= |text|
    ensures var e := Skip(cls, text, p);
            (e < |text| ==> !cls.Has(text[e])) && forall i :: p <= i < e ==> cls.Has(text[i])
    decreases |text| - p
  {
    if p < |text| && cls.Has(text[p]) { SkipIsRun(cls, text, p + 1); }
  }

  method SkipRun(cls: Class, text: string, p: nat) returns (e: nat)
    requires p <= |text|
    ensures e == Skip(cls, text, p)
  {
    e := p;
    while e < |text| && cls.Has(text[e])
      invariant p <= e <= |text| && Skip(cls, text, p) == Skip(cls, text, e)
    {
      e := e + 1;
    }
  }

  function UpperChar(c: char): (u: char)
    ensures IsAlpha(c) <==> IsAlpha(u)
    ensures !IsAlpha(c) ==> u == c
    ensures !('a' <= u <= 'z')
  {
    if 'a' <= c <= 'z' then 'A' + (c - 'a') else c
  }

  function Upper(s: string): (u: string)
    ensures |u| == |s|
  {
    if s == [] then [] else Upper(s[..|s| - 1]) + [UpperChar(s[|s| - 1])]
  }

  /** Does `text` go on with `word`, which is in capitals, at `p`, whatever the case? */
  predicate StartsWith(text: string, p: nat, word: string) {
    p + |word| <= |text| && Upper(text[p..p + |word|]) == word
  }

  function TrimLeft(s: string): string {
    s[Skip(Space, s, 0)..]
  }

  function TrimRight(s: string): string {
    if s != [] && IsSpace(s[|s| - 1]) then TrimRight(s[..|s| - 1]) else s
  }

  function Trim(s: string): string {
    TrimLeft(TrimRight(s))
  }

  function Decimal(n: nat): string {
    if n < 10 then ['0' + n as char] else Decimal(n / 10) + ['0' + (n % 10) as char]
  }

  function DigitValue(c: char): nat {
    if IsDigit(c) then c as int - '0' as int else 0
  }

  function Number(digits: string): nat {
    if digits == [] then 0 else Number(digits[..|digits| - 1]) * 10 + DigitValue(digits[|digits| - 1])
  }

  /** The first occurrence of `word` at or after `from`, in upper case. */
  function FindWord(text: string, from: nat, word: string): (i: nat)
    requires from <= |text|
    ensures from <= i <= |text| && (i < |text| ==> StartsWith(text, i, word))
    decreases |text| - from
  {
    if from == |text| || StartsWith(text, from, word) then from else FindWord(text, from + 1, word)
  }
}
