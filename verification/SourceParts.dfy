/** What the translator consumes of a statement, and what that does to the brackets of the source. */
module SourceParts {
  import opened Brackets
  import opened DateCalls
  import opened SqlChars
  import opened SqlDialect
  import opened StmtSpec
  import opened Wrappers

  /** The program comes to place `p` outside literals and identifiers, with all brackets right. */
  predicate Meets(n: Nest, p: nat) {
    Ready(n) && n.resume <= p
  }

  lemma SourceJoin(d: Dialect, text: string, p: nat, m: nat, e: nat, n: Nest)
    requires p <= m <= e <= |text| && SourceRange(d, text, p, m, n) == n && SourceRange(d, text, m, e, n) == n
    ensures SourceRange(d, text, p, e, n) == n
  {
    SourceSplit(d, text, p, m, e, n);
  }

  /** A percent sign that is neither a bare name nor a word with arguments. */
  lemma NotBare(d: Dialect, text: string, p: nat, n: Nest)
    requires p < |text| && text[p] == '%' && !IsBare(d, text, p) && ResumesAt(d, text, p).None?
    ensures SourceRange(d, text, p, p + 1, n) == n
  {
    SourceOne(d, text, p, n);
  }

  /** A bare name opens a brace. */
  lemma BarePlace(d: Dialect, text: string, p: nat, n: Nest)
    requires p < |text| && text[p] == '%' && IsBare(d, text, p) && Meets(n, p)
    ensures SourceRange(d, text, p, p + 1, n) == n.Push('{')
  {
    SourceOne(d, text, p, n);
  }

  lemma {:induction false} SourceSkipped(d: Dialect, text: string, p: nat, e: nat, n: Nest)
    requires p <= e <= |text| && e <= n.resume
    ensures SourceRange(d, text, p, e, n) == n
    decreases e
  {
    if p < e { SourceSkipped(d, text, p, e - 1, n); }
  }

  /** A word that is rewritten, and its arguments. */
  lemma SourceOfRewritten(d: Dialect, text: string, p: nat, n: Nest)
    requires p < |text| && text[p] == '%' && Meets(n, p) && ResumesAt(d, text, p).Some?
    ensures var e := ResumesAt(d, text, p).value; SourceRange(d, text, p, e, n) == n.(resume := e)
  {
    var e := ResumesAt(d, text, p).value;
    SourceOne(d, text, p, n);
    SourceSkipped(d, text, p + 1, e, n.(resume := e));
    SourceSplit(d, text, p, p + 1, e, n);
  }

  /** A percent word and the parenthesis behind it open that parenthesis only. */
  lemma SourceOfCall(d: Dialect, text: string, p: nat, e: nat, n: Nest)
    requires Meets(n, p) && p < e < |text| && e == Skip(Alpha, text, p + 1) && text[e] == '('
    requires SourceRange(d, text, p, p + 1, n) == n
    ensures SourceRange(d, text, p, e + 1, n) == n.Push('(')
  {
    SourceSkip(d, text, Alpha, p + 1, n);
    SourceJoin(d, text, p, p + 1, e, n);
    SourceSplit(d, text, p, e, e + 1, n);
    SourceOne(d, text, e, n);
  }

  lemma SourceOfBare(d: Dialect, text: string, p: nat, e: nat, n: Nest)
    requires Meets(n, p) && p < e <= |text| && e == Skip(Alpha, text, p + 1)
    requires SourceRange(d, text, p, p + 1, n) == n.Push('{')
    ensures SourceRange(d, text, p, e, n) == n.Push('{')
  {
    SourceSkip(d, text, Alpha, p + 1, n.Push('{'));
    SourceSplit(d, text, p, p + 1, e, n);
  }

  /** Parentheses with nothing between them but what leaves the brackets alone. */
  lemma SourcePair(d: Dialect, text: string, p: nat, e: nat, n: Nest)
    requires Meets(n, p) && p < e < |text| && text[p] == '(' && text[e] == ')'
    requires SourceRange(d, text, p + 1, e, n.Push('(')) == n.Push('(')
    ensures SourceRange(d, text, p, e + 1, n) == n
  {
    SourceOne(d, text, p, n);
    SourceSplit(d, text, p, p + 1, e, n);
    SourceSplit(d, text, p, e, e + 1, n);
    SourceOne(d, text, e, n.Push('('));
    assert (n.stack + ['('])[..|n.stack|] == n.stack;
  }

  lemma SourceWordAndBlanks(d: Dialect, text: string, p: nat, n: Nest)
    requires Meets(n, p) && p < |text| && SourceRange(d, text, p, p + 1, n) == n
    ensures SourceRange(d, text, p, Skip(Space, text, Skip(Letters, text, p + 1)), n) == n
  {
    var e := Skip(Letters, text, p + 1);
    SourceSkip(d, text, Letters, p + 1, n);
    SourceSkip(d, text, Space, e, n);
    SourceJoin(d, text, p, p + 1, e, n);
    SourceJoin(d, text, p, e, Skip(Space, text, e), n);
  }

  lemma SourceEmptyPair(d: Dialect, text: string, q: nat, n: Nest)
    requires Meets(n, q) && q < |text| && text[q] == '(' && At(text, Skip(Space, text, q + 1)) == ')'
    ensures SourceRange(d, text, q, Skip(Space, text, q + 1) + 1, n) == n
  {
    SourceSkip(d, text, Space, q + 1, n.Push('('));
    SourcePair(d, text, q, Skip(Space, text, q + 1), n);
  }

  lemma AfterWordCases(text: string, p: nat)
    requires p < |text|
    ensures var q := Skip(Space, text, Skip(Letters, text, p + 1));
            || AfterPercentWord(text, p) == q
            || (&& q < |text| && text[q] == '(' && At(text, Skip(Space, text, q + 1)) == ')'
                && AfterPercentWord(text, p) == Skip(Space, text, q + 1) + 1)
  {
  }

  lemma SourceAfterWord(d: Dialect, text: string, p: nat, n: Nest)
    requires Meets(n, p) && p < |text| && SourceRange(d, text, p, p + 1, n) == n
    ensures SourceRange(d, text, p, AfterPercentWord(text, p), n) == n
  {
    var q, e := Skip(Space, text, Skip(Letters, text, p + 1)), AfterPercentWord(text, p);
    SourceWordAndBlanks(d, text, p, n);
    AfterWordCases(text, p);
    if e != q {
      SourceEmptyPair(d, text, q, n);
      SourceJoin(d, text, p, q, e, n);
    }
  }

  lemma SourceRun(d: Dialect, text: string, cls: Class, p: nat, e: nat, n: Nest)
    requires Run(cls, text, p, e)
    ensures SourceRange(d, text, p, e, n) == n
  {
    assert forall i :: p <= i < e ==> cls.Has(text[i]) && Inert(text[i]);
    SourceInert(d, text, p, e, n);
  }

  /** A quoted text. */
  lemma SourceQuoted(d: Dialect, text: string, r: nat, e: nat, n: Nest)
    requires Meets(n, r) && r < e < |text| && text[r] == '\'' && text[e] == '\''
    requires forall i :: r < i < e ==> text[i] != '\''
    ensures SourceRange(d, text, r, e + 1, n) == n
  {
    var quoted := n.(inString := true);
    SourceOne(d, text, r, n);
    SourceInString(d, text, r + 1, e, quoted);
    SourceSplit(d, text, r, r + 1, e, n);
    SourceOne(d, text, e, quoted);
    SourceSplit(d, text, r, e, e + 1, n);
  }

  lemma SourceOfDateList(d: Dialect, text: string, p: nat, a: nat, q: nat, r: nat, e: nat, t: nat, n: Nest)
    requires IsDateCall(text, p, a, q, r, e, t) && Meets(n, q)
    ensures SourceRange(d, text, q, t + 1, n) == n
  {
    SourceOfDate(d, text, p, a, q, r, e, t, n.Push('('));
    SourcePair(d, text, q, t, n);
  }

  lemma SourceOfDate(d: Dialect, text: string, p: nat, a: nat, q: nat, r: nat, e: nat, t: nat, open: Nest)
    requires IsDateCall(text, p, a, q, r, e, t) && Meets(open, q)
    ensures SourceRange(d, text, q + 1, t, open) == open
  {
    SourceRun(d, text, Space, q + 1, r, open);
    SourceQuoted(d, text, r, e, open);
    SourceJoin(d, text, q + 1, r, e + 1, open);
    SourceRun(d, text, Space, e + 1, t, open);
    SourceJoin(d, text, q + 1, e + 1, t, open);
  }

  lemma SourceOfDateCall(d: Dialect, text: string, p: nat, a: nat, q: nat, r: nat, e: nat, t: nat, n: Nest)
    requires IsDateCall(text, p, a, q, r, e, t) && Meets(n, p) && SourceRange(d, text, p, p + 1, n) == n
    ensures SourceRange(d, text, p, t + 1, n) == n
  {
    SourceRun(d, text, Alpha, p + 1, a, n);
    SourceJoin(d, text, p, p + 1, a, n);
    SourceRun(d, text, Space, a, q, n);
    SourceJoin(d, text, p, a, q, n);
    SourceOfDateList(d, text, p, a, q, r, e, t, n);
    SourceJoin(d, text, p, q, t + 1, n);
  }

  lemma SourceDate(d: Dialect, text: string, p: nat, isDate: bool, n: Nest, piece: Piece)
    requires Meets(n, p) && p < |text| && SourceRange(d, text, p, p + 1, n) == n && Yields(d, text, p, isDate, piece)
    ensures piece.next <= |text| && SourceRange(d, text, p, piece.next, n) == n
  {
    var a: nat, q: nat, r: nat, e: nat, t: nat :|
      IsDateCall(text, p, a, q, r, e, t) && IsTranslated(d, text, isDate, r, e, t, piece);
    SourceOfDateCall(d, text, p, a, q, r, e, t, n);
  }

  /** `(5)` with blanks */
  lemma SourceOfLimit(d: Dialect, text: string, q: nat, n: Nest)
    requires Meets(n, q) && q <= |text| && LimitAt(text, q).Ok?
    ensures SourceRange(d, text, q, LimitAt(text, q).value.1, n) == n
  {
    var b := Skip(Space, text, q + 1);
    var e := Skip(Digit, text, b);
    var t := Skip(Space, text, e);
    var open := n.Push('(');
    SourceSkip(d, text, Space, q + 1, open);
    SourceSkip(d, text, Digit, b, open);
    SourceSkip(d, text, Space, e, open);
    SourceJoin(d, text, q + 1, b, e, open);
    SourceJoin(d, text, q + 1, e, t, open);
    SourcePair(d, text, q, t, n);
  }

  /** The precision behind a type, if it is closed. */
  lemma SourceOfPrecision(d: Dialect, text: string, q: nat, n: Nest)
    requires Meets(n, q) && q <= |text|
    requires At(text, q) == '(' ==> At(text, Skip(Precision, text, q + 1)) == ')'
    ensures SourceRange(d, text, q, AfterPrecision(text, q), n) == n
  {
    if At(text, q) == '(' {
      var e := Skip(Precision, text, q + 1);
      SkipIsRun(Precision, text, q + 1);
      assert forall i :: q + 1 <= i < e ==> Precision.Has(text[i]) && Inert(text[i]);
      SourceInert(d, text, q + 1, e, n.Push('('));
      SourcePair(d, text, q, e, n);
    }
  }

  // ----- behind an open parenthesis

  function Behind(n: Nest): Nest {
    n.(stack := "(" + n.stack)
  }

  lemma SourceAtBehind(d: Dialect, text: string, i: nat, n: Nest)
    requires i < |text| && SourceAt(d, text, i, n).ok
    ensures SourceAt(d, text, i, Behind(n)) == Behind(SourceAt(d, text, i, n))
  {
    if n.stack != [] {
      var k := |n.stack| - 1;
      assert ("(" + n.stack)[..k + 1] == "(" + n.stack[..k];
    }
    forall c: char ensures "(" + n.stack + [c] == "(" + (n.stack + [c]) {}
  }

  /** As long as the brackets are right, what is open further out does not matter. */
  lemma {:induction false} SourceBehind(d: Dialect, text: string, p: nat, e: nat, n: Nest)
    requires p <= e <= |text| && SourceRange(d, text, p, e, n).ok
    ensures SourceRange(d, text, p, e, Behind(n)) == Behind(SourceRange(d, text, p, e, n))
    decreases e
  {
    if p < e {
      SourceBehind(d, text, p, e - 1, n);
      SourceAtBehind(d, text, e - 1, SourceRange(d, text, p, e - 1, n));
    }
  }
}
