/** Brackets that nest, in the source of a translation and in its output. */
module Brackets {
  import opened SqlChars
  import opened SqlDialect
  import opened StmtSpec
  import opened Wrappers

  /** Brackets open so far, outside literals and quoted identifiers. Once wrong, always wrong. In a
      source, nothing counts before the place where the program resumes. */
  datatype Nest = Nest(inString: bool, inIdentifier: bool, stack: string, ok: bool, resume: nat) {
    predicate InCode() {
      !inString && !inIdentifier
    }

    function Push(c: char): Nest {
      this.(stack := stack + [c])
    }

    function Pop(c: char): Nest {
      if stack != [] && stack[|stack| - 1] == c then this.(stack := stack[..|stack| - 1]) else this.(ok := false)
    }

    predicate Closed() {
      ok && stack == [] && InCode()
    }
  }

  function Code(stack: string): Nest {
    Nest(false, false, stack, true, 0)
  }

  const EMPTY := Code("")

  /** Double quotes and back-ticks quote identifiers. */
  predicate IsIdentifierQuote(c: char) {
    c == '"' || c == '`'
  }

  function Scan(n: Nest, c: char): Nest {
    if !n.ok then n
    else if c == '\'' then n.(inString := !n.inString)
    else if n.inString then n
    else if IsIdentifierQuote(c) then n.(inIdentifier := !n.inIdentifier)
    else if n.inIdentifier then n
    else if c == '(' || c == '{' then n.Push(c)
    else if c == ')' then n.Pop('(')
    else if c == '}' then n.Pop('{')
    else n
  }

  function ScanAll(n: Nest, s: string): Nest {
    if s == [] then n else Scan(ScanAll(n, s[..|s| - 1]), s[|s| - 1])
  }

  predicate Nested(s: string) {
    ScanAll(EMPTY, s).Closed()
  }

  lemma {:induction false} ScanKeepsResume(n: Nest, s: string)
    ensures ScanAll(n, s).resume == n.resume
  {
    if s != [] { ScanKeepsResume(n, s[..|s| - 1]); }
  }

  lemma {:induction false} ScanConcat(n: Nest, a: string, b: string)
    ensures ScanAll(n, a + b) == ScanAll(ScanAll(n, a), b)
  {
    if b == [] {
      assert a + b == a;
    } else {
      ScanConcat(n, a, b[..|b| - 1]);
      assert (a + b)[..|a + b| - 1] == a + b[..|b| - 1];
    }
  }

  /** Characters that neither open nor close anything. */
  predicate Inert(c: char) {
    c !in "'\"`(){}%"
  }

  lemma {:induction false} ScanInert(n: Nest, s: string)
    requires forall c <- s :: Inert(c)
    ensures ScanAll(n, s) == n
  {
    if s != [] {
      assert s[|s| - 1] in s;
      ScanInert(n, s[..|s| - 1]);
    }
  }

  lemma {:induction false} ScanInString(n: Nest, s: string)
    requires n.inString && '\'' !in s
    ensures ScanAll(n, s) == n
  {
    if s != [] { ScanInString(n, s[..|s| - 1]); }
  }

  ghost predicate Neutral(s: string) {
    forall stack: string :: ScanAll(Code(stack), s) == Code(stack)
  }

  lemma ScanNeutral(n: Nest, s: string)
    requires Neutral(s) && (n.ok ==> n.InCode() && n.resume == 0)
    ensures ScanAll(n, s) == n
  {
    if n.ok { assert n == Code(n.stack); } else { ScanWrong(n, s); }
  }

  lemma {:induction false} ScanWrong(n: Nest, s: string)
    requires !n.ok
    ensures ScanAll(n, s) == n
  {
    if s != [] { ScanWrong(n, s[..|s| - 1]); }
  }

  predicate Ready(n: Nest) {
    n.ok && n.InCode()
  }

  lemma ScanOne(n: Nest, c: char)
    ensures ScanAll(n, [c]) == Scan(n, c)
  {
    assert [c][..0] == [];
  }

  lemma ScanQuoted(out: Nest, date: string)
    requires Ready(out) && '\'' !in date
    ensures ScanAll(out, "'" + date + "'") == out
  {
    var quoted := out.(inString := true);
    ScanOne(out, '\'');
    ScanConcat(out, "'", date);
    ScanInString(quoted, date);
    ScanConcat(out, "'" + date, "'");
    ScanOne(quoted, '\'');
  }

  // ----- the source

  /** A percent name that becomes a brace without parentheses. */
  predicate IsBare(d: Dialect, text: string, i: nat)
    requires i < |text| && text[i] == '%'
  {
    var word := PercentWord(text, i);
    && d.isOdbc
    && d.Translate(word) == word && SpecialOf(word) == Other
    && LiteralKindAt(text, i).NoLiteral?
    && At(text, Skip(Alpha, text, i + 1)) != '('
  }

  function BracketAt(d: Dialect, text: string, i: nat, n: Nest): Nest
    requires i < |text|
  {
    if n.ok && n.InCode() && text[i] == '%' && IsBare(d, text, i) then n.Push('{') else Scan(n, text[i])
  }

  /** Every bracket of the text counts. */
  function BracketRange(d: Dialect, text: string, p: nat, e: nat, n: Nest): Nest
    requires p <= e <= |text|
    decreases e
  {
    if p == e then n else BracketAt(d, text, e - 1, BracketRange(d, text, p, e - 1, n))
  }

  predicate BracketNested(d: Dialect, text: string) {
    BracketRange(d, text, 0, |text|, EMPTY).Closed()
  }

  /** How many arguments the word at `i` has that is rewritten with them; 0 if it is not. */
  function Arity(d: Dialect, text: string, i: nat): nat
    requires i < |text| && text[i] == '%'
  {
    match SpecialOf(d.Translate(PercentWord(text, i)))
    case TextTimestamp => 1
    case SecondsDiff => 2
    case _ => 0
  }

  /** Behind `n` arguments from `p` on, or behind the parenthesis that closes fewer. */
  function ArgumentsEnd(text: string, p: nat, n: nat): (e: Option<nat>)
    requires p <= |text|
    ensures e.Some? ==> p <= e.value <= |text|
    decreases n
  {
    if n == 0 then Some(p)
    else
      var e := ArgumentEnd(text, p, 0);
      if At(text, e) == ')' then Some(e + 1)
      else if At(text, e) == ',' then ArgumentsEnd(text, e + 1, n - 1)
      else None
  }

  /** Where the program looks for the arguments of the word at `i`. */
  function ListAt(text: string, i: nat): (r: nat)
    requires i < |text|
    ensures i < r <= |text|
  {
    Skip(Blank, text, AfterPercentWord(text, i))
  }

  /** Where the program goes on behind a word that is rewritten with its arguments. */
  function ResumesAt(d: Dialect, text: string, i: nat): (e: Option<nat>)
    requires i < |text| && text[i] == '%'
    ensures e.Some? ==> i < e.value <= |text|
  {
    var r := ListAt(text, i);
    if Arity(d, text, i) == 0 || At(text, r) != '(' then None else ArgumentsEnd(text, r + 1, Arity(d, text, i))
  }

  function SourceAt(d: Dialect, text: string, i: nat, n: Nest): Nest
    requires i < |text|
  {
    if i < n.resume then n
    else if n.ok && n.InCode() && text[i] == '%' && ResumesAt(d, text, i).Some? then
      n.(resume := ResumesAt(d, text, i).value)
    else BracketAt(d, text, i, n)
  }

  /** A word that is rewritten counts as nothing, together with the arguments that the program takes
      for it: these are looked at on their own. */
  function SourceRange(d: Dialect, text: string, p: nat, e: nat, n: Nest): Nest
    requires p <= e <= |text|
    decreases e
  {
    if p == e then n else SourceAt(d, text, e - 1, SourceRange(d, text, p, e - 1, n))
  }

  predicate SourceNested(d: Dialect, text: string) {
    SourceRange(d, text, 0, |text|, EMPTY).Closed()
  }

  lemma {:induction false} SourceSplit(d: Dialect, text: string, p: nat, m: nat, e: nat, n: Nest)
    requires p <= m <= e <= |text|
    ensures SourceRange(d, text, p, e, n) == SourceRange(d, text, m, e, SourceRange(d, text, p, m, n))
    decreases e
  {
    if m < e { SourceSplit(d, text, p, m, e - 1, n); }
  }

  lemma {:induction false} SourceInert(d: Dialect, text: string, p: nat, e: nat, n: Nest)
    requires p <= e <= |text| && forall i :: p <= i < e ==> Inert(text[i])
    ensures SourceRange(d, text, p, e, n) == n
    decreases e
  {
    if p < e {
      SourceInert(d, text, p, e - 1, n);
      assert Inert(text[e - 1]);
    }
  }

  lemma {:induction false} SourceInString(d: Dialect, text: string, p: nat, e: nat, n: Nest)
    requires p <= e <= |text| && n.inString && '\'' !in text[p..e]
    ensures SourceRange(d, text, p, e, n) == n
    decreases e
  {
    if p < e {
      assert text[e - 1] in text[p..e] && text[p..e - 1] == text[p..e][..e - 1 - p];
      SourceInString(d, text, p, e - 1, n);
    }
  }

  lemma {:induction false} SourceWrong(d: Dialect, text: string, p: nat, e: nat, n: Nest)
    requires p <= e <= |text| && !n.ok
    ensures SourceRange(d, text, p, e, n) == n
    decreases e
  {
    if p < e { SourceWrong(d, text, p, e - 1, n); }
  }

  /** A run of characters of a class without brackets or quotes. */
  lemma SourceSkip(d: Dialect, text: string, cls: Class, p: nat, n: Nest)
    requires p <= |text|
    ensures SourceRange(d, text, p, Skip(cls, text, p), n) == n
  {
    SkipIsRun(cls, text, p);
    assert forall i :: p <= i < Skip(cls, text, p) ==> cls.Has(text[i]) && Inert(text[i]);
    SourceInert(d, text, p, Skip(cls, text, p), n);
  }

  lemma SourceOne(d: Dialect, text: string, p: nat, n: Nest)
    requires p < |text|
    ensures SourceRange(d, text, p, p + 1, n) == SourceAt(d, text, p, n)
  {
    assert SourceRange(d, text, p, p, n) == n;
  }
}
