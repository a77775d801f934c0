/** When every bracket of the source counts, and the statements for which it is not so simple. */
module OdbcCases {
  import opened BracketParts
  import opened Brackets
  import opened LimitParts
  import opened OdbcNesting
  import opened OdbcStatements
  import opened SourceParts
  import opened SqlChars
  import opened SqlDialect
  import opened StmtSpec
  import opened Wrappers

  // ----- statements without surplus arguments

  /** No word has more arguments than it takes, and each argument nests by itself. */
  ghost predicate Exact(d: Dialect, text: string, p: nat, n: Nest)
    requires p <= |text|
    decreases |text| - p
  {
    p == |text| ||
    if Ready(n) && text[p] == '%' && ResumesAt(d, text, p).Some? then
      && ListExact(d, text, ListAt(text, p) + 1, Arity(d, text, p))
      && Exact(d, text, ResumesAt(d, text, p).value, n)
    else Exact(d, text, p + 1, BracketAt(d, text, p, n))
  }

  predicate ListExact(d: Dialect, text: string, p: nat, count: nat)
    decreases count
  {
    && p <= |text| && count > 0
    && var e := ArgumentEnd(text, p, 0);
       && EndsAt(text, e) && BracketNested(d, text[p..e])
       && (text[e] == ')' || ListExact(d, text, e + 1, count - 1))
  }

  predicate Same(a: Nest, b: Nest) {
    a.(resume := 0) == b.(resume := 0)
  }

  lemma {:induction false} BracketSplit(d: Dialect, text: string, p: nat, m: nat, e: nat, n: Nest)
    requires p <= m <= e <= |text|
    ensures BracketRange(d, text, p, e, n) == BracketRange(d, text, m, e, BracketRange(d, text, p, m, n))
    decreases e
  {
    if m < e { BracketSplit(d, text, p, m, e - 1, n); }
  }

  lemma BracketJoin(d: Dialect, text: string, p: nat, m: nat, e: nat, n: Nest)
    requires p <= m <= e <= |text| && BracketRange(d, text, p, m, n) == n && BracketRange(d, text, m, e, n) == n
    ensures BracketRange(d, text, p, e, n) == n
  {
    BracketSplit(d, text, p, m, e, n);
  }

  lemma BracketOne(d: Dialect, text: string, p: nat, n: Nest)
    requires p < |text|
    ensures BracketRange(d, text, p, p + 1, n) == BracketAt(d, text, p, n)
  {
    assert BracketRange(d, text, p, p, n) == n;
  }

  lemma {:induction false} WithoutPercent(d: Dialect, text: string, p: nat, e: nat, n: Nest)
    requires p <= e <= |text| && n.resume <= p && forall i :: p <= i < e ==> text[i] != '%'
    ensures BracketRange(d, text, p, e, n) == SourceRange(d, text, p, e, n) && SourceRange(d, text, p, e, n).resume <= p
    decreases e
  {
    if p < e {
      WithoutPercent(d, text, p, e - 1, n);
      PlainAgrees(d, text, e - 1, SourceRange(d, text, p, e - 1, n));
    }
  }

  lemma PlainAgrees(d: Dialect, text: string, i: nat, n: Nest)
    requires i < |text| && text[i] != '%' && n.resume <= i
    ensures SourceAt(d, text, i, n) == BracketAt(d, text, i, n) && SourceAt(d, text, i, n).resume == n.resume
  {
  }

  lemma RunBrackets(d: Dialect, text: string, cls: Class, p: nat, n: Nest)
    requires p <= |text| && n.resume <= p
    ensures BracketRange(d, text, p, Skip(cls, text, p), n) == n
  {
    SkipIsRun(cls, text, p);
    assert forall i :: p <= i < Skip(cls, text, p) ==> cls.Has(text[i]) && text[i] != '%';
    WithoutPercent(d, text, p, Skip(cls, text, p), n);
    SourceSkip(d, text, cls, p, n);
  }

  lemma PairBrackets(d: Dialect, text: string, q: nat, n: Nest)
    requires Meets(n, q) && q < |text| && text[q] == '(' && At(text, Skip(Space, text, q + 1)) == ')'
    ensures BracketRange(d, text, q, Skip(Space, text, q + 1) + 1, n) == n
  {
    var e := Skip(Space, text, q + 1);
    SkipIsRun(Space, text, q + 1);
    assert forall i :: q + 1 <= i < e ==> Space.Has(text[i]) && text[i] != '%';
    WithoutPercent(d, text, q, e + 1, n);
    SourceEmptyPair(d, text, q, n);
  }

  lemma LettersBrackets(d: Dialect, text: string, p: nat, n: Nest)
    requires p <= |text| && n.resume <= p
    ensures BracketRange(d, text, p, Skip(Space, text, Skip(Letters, text, p)), n) == n
  {
    var e := Skip(Letters, text, p);
    RunBrackets(d, text, Letters, p, n);
    RunBrackets(d, text, Space, e, n);
    BracketJoin(d, text, p, e, Skip(Space, text, e), n);
  }

  /** The letters of a word, blanks, and empty parentheses. */
  lemma WordBrackets(d: Dialect, text: string, p: nat, n: Nest)
    requires p < |text| && Meets(n, p)
    ensures BracketRange(d, text, p + 1, AfterPercentWord(text, p), n) == n
  {
    var q, e := Skip(Space, text, Skip(Letters, text, p + 1)), AfterPercentWord(text, p);
    LettersBrackets(d, text, p + 1, n);
    AfterWordCases(text, p);
    if e != q {
      PairBrackets(d, text, q, n);
      BracketJoin(d, text, p + 1, q, e, n);
    }
  }

  lemma ArgumentBrackets(d: Dialect, text: string, p: nat, e: nat, n: Nest)
    requires p <= e && EndsAt(text, e) && BracketNested(d, text[p..e]) && Ready(n) && n.resume == 0
    ensures BracketRange(d, text, p, e + 1, n.Push('(')) == if text[e] == ')' then n else n.Push('(')
  {
    var inside := n.Push('(');
    NestedSlice(d, text, p, e, inside);
    BracketOne(d, text, e, inside);
    BracketSplit(d, text, p, e, e + 1, inside);
    assert (n.stack + ['('])[..|n.stack|] == n.stack;
  }

  lemma {:induction false} ListBrackets(d: Dialect, text: string, p: nat, count: nat, n: Nest)
    requires ListExact(d, text, p, count) && Ready(n) && n.resume == 0
    ensures ArgumentsEnd(text, p, count).Some?
    ensures BracketRange(d, text, p, ArgumentsEnd(text, p, count).value, n.Push('(')) == n
    decreases count
  {
    var e := ArgumentEnd(text, p, 0);
    ArgumentBrackets(d, text, p, e, n);
    if text[e] == ',' {
      ListBrackets(d, text, e + 1, count - 1, n);
      BracketSplit(d, text, p, e + 1, ArgumentsEnd(text, p, count).value, n.Push('('));
    }
  }

  lemma ParenthesisedBrackets(d: Dialect, text: string, r: nat, count: nat, n: Nest)
    requires r < |text| && text[r] == '(' && ListExact(d, text, r + 1, count) && Ready(n) && n.resume == 0
    ensures ArgumentsEnd(text, r + 1, count).Some?
    ensures BracketRange(d, text, r, ArgumentsEnd(text, r + 1, count).value, n) == n
  {
    ListBrackets(d, text, r + 1, count, n);
    BracketOne(d, text, r, n);
    BracketSplit(d, text, r, r + 1, ArgumentsEnd(text, r + 1, count).value, n);
  }

  lemma WordAndBlanksBrackets(d: Dialect, text: string, p: nat, n: Nest)
    requires p < |text| && Ready(n) && n.resume == 0 && text[p] == '%' && !IsBare(d, text, p)
    ensures BracketRange(d, text, p, ListAt(text, p), n) == n
  {
    var q := AfterPercentWord(text, p);
    BracketOne(d, text, p, n);
    WordBrackets(d, text, p, n);
    BracketJoin(d, text, p, p + 1, q, n);
    RunBrackets(d, text, Blank, q, n);
    BracketJoin(d, text, p, q, Skip(Blank, text, q), n);
  }

  lemma ResumesBehindList(d: Dialect, text: string, p: nat)
    requires p < |text| && text[p] == '%' && ResumesAt(d, text, p).Some?
    ensures var r := ListAt(text, p);
            && r < |text| && text[r] == '('
            && ResumesAt(d, text, p) == ArgumentsEnd(text, r + 1, Arity(d, text, p))
    ensures !IsBare(d, text, p)
  {
  }

  lemma WordAndListBrackets(d: Dialect, text: string, p: nat, r: nat, count: nat, n: Nest)
    requires p < |text| && Ready(n) && n.resume == 0 && text[p] == '%' && !IsBare(d, text, p)
    requires r == ListAt(text, p) < |text| && text[r] == '(' && ListExact(d, text, r + 1, count)
    ensures var e := ArgumentsEnd(text, r + 1, count); e.Some? && BracketRange(d, text, p, e.value, n) == n
  {
    WordAndBlanksBrackets(d, text, p, n);
    ParenthesisedBrackets(d, text, r, count, n);
    BracketJoin(d, text, p, r, ArgumentsEnd(text, r + 1, count).value, n);
  }

  /** A word with all its arguments leaves no trace among the brackets. */
  lemma RewrittenBrackets(d: Dialect, text: string, p: nat, n: Nest)
    requires p < |text| && Ready(n) && n.resume == 0 && text[p] == '%' && ResumesAt(d, text, p).Some?
    requires ListExact(d, text, ListAt(text, p) + 1, Arity(d, text, p))
    ensures BracketRange(d, text, p, ResumesAt(d, text, p).value, n) == n
  {
    ResumesBehindList(d, text, p);
    WordAndListBrackets(d, text, p, ListAt(text, p), Arity(d, text, p), n);
  }

  lemma {:induction false} ScansAgree(d: Dialect, text: string, p: nat, n: Nest, m: Nest)
    requires p <= |text| && Exact(d, text, p, n) && n.resume == 0 && Same(m, n) && m.resume <= p
    ensures Same(SourceRange(d, text, p, |text|, m), BracketRange(d, text, p, |text|, n))
    decreases |text| - p
  {
    if p < |text| {
      if Ready(n) && text[p] == '%' && ResumesAt(d, text, p).Some? {
        var e := ResumesAt(d, text, p).value;
        SourceOfRewritten(d, text, p, m);
        RewrittenBrackets(d, text, p, n);
        ScansAgree(d, text, e, n, m.(resume := e));
        SourceSplit(d, text, p, e, |text|, m);
        BracketSplit(d, text, p, e, |text|, n);
      } else {
        SourceOne(d, text, p, m);
        BracketOne(d, text, p, n);
        BracketsKeepResume(d, text, p, p + 1, n);
        ScansAgree(d, text, p + 1, BracketAt(d, text, p, n), SourceAt(d, text, p, m));
        SourceSplit(d, text, p, p + 1, |text|, m);
        BracketSplit(d, text, p, p + 1, |text|, n);
      }
    }
  }

  /** Without surplus arguments, it is all the brackets of the source that count. */
  lemma TranslationNestsIffBracketsDo(d: Dialect, text: string)
    requires Clean(d) && Fits(d, text) && Convert(d, text).Ok? && Exact(d, text, 0, EMPTY)
    ensures !Wraps(d) ==> (Nested(Convert(d, text).value) <==> BracketNested(d, text))
    ensures Wraps(d) && (BracketRange(d, text, 0, |text|, EMPTY).ok || !LimitAtEnd(d, text)) ==>
              (Nested(Convert(d, text).value) <==> BracketNested(d, text) && NoBraceAcross(d, text))
    ensures BracketNested(d, text) && NoBraceAcross(d, text) ==> Nested(Convert(d, text).value)
  {
    ScansAgree(d, text, 0, EMPTY, EMPTY);
    TranslationNestsIffSourceDoes(d, text);
  }

  // ----- statements whose brackets nest, but not those of their translation

  lemma UpperIs(s: string, capitals: string)
    requires |s| == |capitals| && forall i :: 0 <= i < |s| ==> UpperChar(s[i]) == capitals[i]
    ensures Upper(s) == capitals
  {
    forall i | 0 <= i < |s| ensures Upper(s)[i] == capitals[i] { UpperAt(s, i); }
  }

  /** The word between a percent sign and a parenthesis. */
  lemma WordIs(text: string, p: nat, e: nat, capitals: string)
    requires p < e < |text| && text[e] == '(' && |capitals| == e - p - 1
    requires forall i :: p < i < e ==> IsAlpha(text[i]) && UpperChar(text[i]) == capitals[i - p - 1]
    ensures PercentWord(text, p) == "%" + capitals && Skip(Letters, text, p + 1) == e && Skip(Space, text, e) == e
  {
    SkipsTo(Letters, text, p + 1, e);
    UpperIs(text[p + 1..e], capitals);
  }

  lemma NoCommand(text: string)
    requires text != [] && !IsSpace(text[0]) && !IsAlpha(text[0]) && !IsDigit(text[0]) && !("%native " <= text)
    ensures Skip(Space, text, 0) == 0 && !ChangesWords(text, 0) && text[0..] == text
  {
    assert Skip(AlphaNum, text, 0) == 0 && text[0..0] == "" && Upper("") == "";
  }

  /** A name without parentheses: its brace is never closed. */
  lemma BareNameStaysOpen(d: Dialect)
    requires d.isOdbc && "%F" !in d.words
    ensures Convert(d, "%f") == Ok("{fn f") && !Nested("{fn f") && !BracketNested(d, "%f")
  {
    BareConvert(d);
    BareOutput();
    BareStep(d);
    BracketOne(d, "%f", 0, EMPTY);
    BracketOne(d, "%f", 1, EMPTY.Push('{'));
    BracketSplit(d, "%f", 0, 1, 2, EMPTY);
  }

  lemma BareConvert(d: Dialect)
    requires d.isOdbc && "%F" !in d.words
    ensures Convert(d, "%f") == Ok("{fn f")
  {
    var text, st := "%f", Start(0);
    var after := State(2, "", "{fn f", false, false, 0, [], None, false);
    NoCommand(text);
    BareStep(d);
    assert Step(d, text, false, st) == Ok(after);
    assert Steps(d, text, false, after) == Ok(after);
    assert "" + "{fn f" + "" == "{fn f";
  }

  lemma BareOutput()
    ensures !Nested("{fn f")
  {
    assert forall c <- "f" :: Inert(c);
    ScanFunctionName(EMPTY, "", "f", EMPTY);
    assert "" + "{fn " + "f" == "{fn f";
  }

  lemma BareWord(d: Dialect, text: string)
    requires text == "%f" && d.isOdbc && "%F" !in d.words
    ensures PercentWord(text, 0) == "%F" && d.Translate("%F") == "%F" && SpecialOf("%F") == Other
    ensures AfterPercentWord(text, 0) == 2 && Skip(Alpha, text, 1) == 2 && LiteralKindAt(text, 0).NoLiteral?
  {
    assert Skip(Letters, text, 1) == 2 && Skip(Alpha, text, 1) == 2 && Skip(Space, text, 2) == 2;
    UpperIs(text[1..2], "F");
    assert "%" + "F" == "%F";
    UpperIs("%F", "%F");
    assert |"%F"| == 2;
  }

  lemma BareStep(d: Dialect)
    requires d.isOdbc && "%F" !in d.words
    ensures PercentStep(d, "%f", Start(0)) == Ok(State(2, "", "{fn f", false, false, 0, [], None, false))
    ensures IsBare(d, "%f", 0)
  {
    var text, st := "%f", Start(0);
    BareWord(d, text);
    SpecialCases(d, text, st, "%F", Other, 2);
    assert "" + "{fn " + "f" == "{fn f" && text[1..2] == "f";
    DateStep(d, text, st);
  }

  /** More arguments than the word takes: the program goes on behind the comma, and the parenthesis
      of the source closes a second time. */
  lemma TooManyArguments(d: Dialect, text: string)
    requires text == "%texttimestamp(,)" && "%TEXTTIMESTAMP" !in d.words
    ensures BracketNested(d, text) && !SourceNested(d, text)
    ensures Convert(d, text) == Ok(d.TextTimestamp("") + ")") && !Nested(d.TextTimestamp("") + ")")
  {
    SurplusWord(d, text);
    SurplusSource(d, text);
    SurplusStep(d, text);
    NoCommand(text);
    SurplusConvert(d, text, d.TextTimestamp(""));
    SurplusOutput(d);
  }

  lemma SurplusConvert(d: Dialect, text: string, t: string)
    requires Surplus(text) && PercentStep(d, text, Start(0)) == Ok(Start(0).(p := 16, result := t))
    requires Skip(Space, text, 0) == 0 && !ChangesWords(text, 0) && text[0..] == text && !("%native " <= text)
    ensures Convert(d, text) == Ok(t + ")")
  {
    var st := Start(0).(p := 16, result := t);
    var last := st.(p := 17, result := t + ")");
    assert Step(d, text, false, Start(0)) == Ok(st);
    assert Step(d, text, false, st) == Ok(last);
    assert Steps(d, text, false, last) == Ok(last);
    assert Steps(d, text, false, st) == Ok(last);
    assert "" + (t + ")") + "" == t + ")";
  }

  lemma SurplusOutput(d: Dialect)
    ensures !Nested(d.TextTimestamp("") + ")")
  {
    var t := d.TextTimestamp("");
    NeutralInert("");
    TextTimestampNeutral(d, "");
    ScanNeutral(EMPTY, t);
    ScanConcat(EMPTY, t, ")");
    ScanOne(EMPTY, ')');
  }

  /** A percent word of 13 letters with `(,)` behind it. */
  predicate Surplus(text: string) {
    && |text| == 17 && text[0] == '%' && (forall i :: 1 <= i < 14 ==> IsAlpha(text[i]))
    && text[14] == '(' && text[15] == ',' && text[16] == ')'
  }

  lemma SurplusWord(d: Dialect, text: string)
    requires text == "%texttimestamp(,)" && "%TEXTTIMESTAMP" !in d.words
    ensures PercentWord(text, 0) == "%TEXTTIMESTAMP" && AfterPercentWord(text, 0) == 14 && ListAt(text, 0) == 14
    ensures d.Translate("%TEXTTIMESTAMP") == "%TEXTTIMESTAMP" && Arity(d, text, 0) == 1
    ensures !("%native " <= text) && !IsBare(d, text, 0)
  {
    SurplusWordIs(d, text);
    assert "%native "[1] == 'n';
  }

  lemma SurplusWordIs(d: Dialect, text: string)
    requires Surplus(text) && text[1..14] == "texttimestamp" && "%TEXTTIMESTAMP" !in d.words
    ensures PercentWord(text, 0) == "%TEXTTIMESTAMP" && AfterPercentWord(text, 0) == 14 && ListAt(text, 0) == 14
    ensures d.Translate("%TEXTTIMESTAMP") == "%TEXTTIMESTAMP" && Arity(d, text, 0) == 1 && !IsBare(d, text, 0)
  {
    SurplusCapitals(text);
    WordIs(text, 0, 14, "TEXTTIMESTAMP");
    assert "%" + "TEXTTIMESTAMP" == "%TEXTTIMESTAMP";
    UpperIs("%TEXTTIMESTAMP", "%TEXTTIMESTAMP");
    SurplusPlace(text);
  }

  lemma SurplusCapitals(text: string)
    requires Surplus(text) && text[1..14] == "texttimestamp"
    ensures forall i :: 0 < i < 14 ==> UpperChar(text[i]) == "TEXTTIMESTAMP"[i - 1]
  {
    assert forall i :: 0 < i < 14 ==> text[i] == text[1..14][i - 1];
  }

  lemma SurplusPlace(text: string)
    requires Surplus(text) && Skip(Letters, text, 1) == 14 && Skip(Space, text, 14) == 14
    ensures AfterPercentWord(text, 0) == 14 && ListAt(text, 0) == 14
  {
    assert Skip(Space, text, 15) == 15 && Skip(Blank, text, 14) == 14;
  }

  lemma SurplusResumes(d: Dialect, text: string)
    requires Surplus(text) && ListAt(text, 0) == 14 && Arity(d, text, 0) == 1
    ensures ResumesAt(d, text, 0) == Some(16)
  {
    assert ArgumentEnd(text, 15, 0) == 15;
    assert ArgumentsEnd(text, 16, 0) == Some(16);
    assert ArgumentsEnd(text, 15, 1) == Some(16);
  }

  lemma SurplusSource(d: Dialect, text: string)
    requires Surplus(text) && ListAt(text, 0) == 14 && Arity(d, text, 0) == 1 && !IsBare(d, text, 0)
    ensures BracketNested(d, text) && !SourceNested(d, text)
  {
    SurplusResumes(d, text);
    SourceOfRewritten(d, text, 0, EMPTY);
    SourceCloses(d, text, 16, EMPTY.(resume := 16));
    SourceSplit(d, text, 0, 16, 17, EMPTY);
    SurplusBrackets(d, text);
  }

  lemma SurplusBrackets(d: Dialect, text: string)
    requires Surplus(text) && !IsBare(d, text, 0)
    ensures BracketNested(d, text)
  {
    BracketOne(d, text, 0, EMPTY);
    assert forall i :: 1 <= i < 14 ==> IsAlpha(text[i]) && Inert(text[i]) && text[i] != '%';
    SourceInert(d, text, 1, 14, EMPTY);
    WithoutPercent(d, text, 1, 14, EMPTY);
    BracketJoin(d, text, 0, 1, 14, EMPTY);
    SurplusList(d, text);
    BracketJoin(d, text, 0, 14, 17, EMPTY);
  }

  lemma SurplusList(d: Dialect, text: string)
    requires Surplus(text)
    ensures BracketRange(d, text, 14, 17, EMPTY) == EMPTY
  {
    SourceInert(d, text, 15, 16, EMPTY.Push('('));
    SourcePair(d, text, 14, 16, EMPTY);
    WithoutPercent(d, text, 14, 17, EMPTY);
  }

  lemma SurplusStep(d: Dialect, text: string)
    requires text == "%texttimestamp(,)" && PercentWord(text, 0) == "%TEXTTIMESTAMP" && AfterPercentWord(text, 0) == 14
    requires d.Translate("%TEXTTIMESTAMP") == "%TEXTTIMESTAMP"
    ensures PercentStep(d, text, Start(0)) == Ok(Start(0).(p := 16, result := d.TextTimestamp("")))
  {
    assert ArgumentEnd(text, 15, 0) == 15 && text[15..15] == "";
    assert Convert(d, "") == Ok("") && Trim("") == "";
    assert Argument(d, text, 15) == Ok(Piece("", 15));
    assert Arguments(d, text, 16, 0) == Ok(([], 16));
    assert [""] + [] == [""];
    assert Arguments(d, text, 15, 1) == Ok(([""], 16));
    assert Skip(Blank, text, 14) == 14;
    assert ArgumentList(d, text, 14, 1) == Ok(([""], 16));
    SpecialCases(d, text, Start(0), "%TEXTTIMESTAMP", TextTimestamp, 14);
    assert "" + d.TextTimestamp("") == d.TextTimestamp("");
  }

  /** A brace that is open where a limited statement ends: the program's parentheses cross it. */
  lemma BraceAcrossLimit(d: Dialect, text: string)
    requires text == "{%limit(1)union}" && d.dbms.Oracle? && "%LIMIT" !in d.words
    ensures Fits(d, text) && SourceNested(d, text) && !NoBraceAcross(d, text)
    ensures Convert(d, text).Ok? && !Nested(Convert(d, text).value)
  {
    LimitWord(d, text);
    NoCommand(text);
    LimitSource(d, text);
    LimitedSteps(d, text);
    LimitedOutput(d, "union", d.Limited("{", 1).value);
  }

  /** A percent word of five letters and `(1)` after the first character. */
  predicate HasLimit(text: string) {
    && |text| >= 10 && text[1] == '%' && (forall i :: 2 <= i < 7 ==> IsAlpha(text[i]))
    && text[7] == '(' && text[8] == '1' && text[9] == ')'
  }

  /** That in braces, with a word of five letters behind it. */
  predicate BracedUnion(text: string) {
    && HasLimit(text) && |text| == 16 && text[0] == '{' && (forall i :: 10 <= i < 15 ==> IsAlpha(text[i])) && text[15] == '}'
    && text[10..15] == "union"
  }

  lemma LimitWord(d: Dialect, text: string)
    requires text == "{%limit(1)union}" && "%LIMIT" !in d.words
    ensures BracedUnion(text) && PercentWord(text, 1) == "%LIMIT" && AfterPercentWord(text, 1) == 7
    ensures d.Translate("%LIMIT") == "%LIMIT" && SpecialOf("%LIMIT") == Limit && !IsBare(d, text, 1) && Arity(d, text, 1) == 0
    ensures IsSetOperator(text[10..15]) && !("%native " <= text)
  {
    LimitWordIs(d, text);
    UpperIs(text[10..15], "UNION");
  }

  lemma LimitWordIs(d: Dialect, text: string)
    requires HasLimit(text) && text[2..7] == "limit" && "%LIMIT" !in d.words
    ensures PercentWord(text, 1) == "%LIMIT" && AfterPercentWord(text, 1) == 7
    ensures d.Translate("%LIMIT") == "%LIMIT" && SpecialOf("%LIMIT") == Limit && !IsBare(d, text, 1) && Arity(d, text, 1) == 0
  {
    assert forall i :: 1 < i < 7 ==> text[i] == text[2..7][i - 2];
    WordIs(text, 1, 7, "LIMIT");
    assert "%" + "LIMIT" == "%LIMIT";
    UpperIs("%LIMIT", "%LIMIT");
    assert Skip(Space, text, 8) == 8;
  }

  lemma NumberBrackets(d: Dialect, text: string, open: Nest)
    requires HasLimit(text) && Meets(open, 7)
    ensures SourceRange(d, text, 7, 10, open) == open
  {
    SourceInert(d, text, 8, 9, open.Push('('));
    SourcePair(d, text, 7, 9, open);
  }

  lemma LimitBrackets(d: Dialect, text: string, open: Nest)
    requires BracedUnion(text) && !IsBare(d, text, 1) && Arity(d, text, 1) == 0 && AfterPercentWord(text, 1) == 7
    requires Meets(open, 1)
    ensures SourceRange(d, text, 1, 10, open) == open
  {
    NotBare(d, text, 1, open);
    SourceAfterWord(d, text, 1, open);
    NumberBrackets(d, text, open);
    SourceJoin(d, text, 1, 7, 10, open);
  }

  lemma UnionBrackets(d: Dialect, text: string, open: Nest)
    requires BracedUnion(text) && open == EMPTY.Push('{')
    ensures SourceRange(d, text, 10, 16, open) == EMPTY
  {
    assert forall i :: 10 <= i < 15 ==> IsAlpha(text[i]) && Inert(text[i]);
    SourceInert(d, text, 10, 15, open);
    SourceOne(d, text, 15, open);
    SourceSplit(d, text, 10, 15, 16, open);
  }

  lemma LimitSource(d: Dialect, text: string)
    requires BracedUnion(text) && !IsBare(d, text, 1) && Arity(d, text, 1) == 0 && AfterPercentWord(text, 1) == 7
    ensures SourceNested(d, text) && SourceRange(d, text, 0, 10, EMPTY) == EMPTY.Push('{')
  {
    var open := EMPTY.Push('{');
    SourceOne(d, text, 0, EMPTY);
    LimitBrackets(d, text, open);
    SourceSplit(d, text, 0, 1, 10, EMPTY);
    UnionBrackets(d, text, open);
    SourceSplit(d, text, 0, 10, 16, EMPTY);
  }

  lemma LimitedSteps(d: Dialect, text: string)
    requires d.dbms.Oracle? && BracedUnion(text) && PercentWord(text, 1) == "%LIMIT" && AfterPercentWord(text, 1) == 7
    requires d.Translate("%LIMIT") == "%LIMIT" && SpecialOf("%LIMIT") == Limit && IsSetOperator(text[10..15])
    requires Skip(Space, text, 0) == 0 && !ChangesWords(text, 0) && text[0..] == text && !("%native " <= text)
    requires Arity(d, text, 1) == 0 && SourceRange(d, text, 0, 10, EMPTY) == EMPTY.Push('{')
    ensures Convert(d, text) == Ok(d.Limited("{", 1).value + " " + "union" + " " + "}")
    ensures Fits(d, text) && !NoBraceAcross(d, text)
  {
    var first := Start(0).(p := 1, result := "{");
    var limited := first.(p := 10, limit := Some(1));
    assert "" + ['{'] == "{";
    assert Step(d, text, false, Start(0)) == Ok(first);
    LimitStep(d, text, first);
    assert Step(d, text, false, first) == Ok(limited);
    LimitedFinish(d, text, limited);
    assert Steps(d, text, false, first) == Steps(d, text, false, limited);
    assert Steps(d, text, false, Start(0)) == Steps(d, text, false, limited);
    UnionStep(d, text, limited);
    BraceFits(d, text, first, limited);
    BraceCrosses(d, text, first, limited);
  }

  lemma LimitedFinish(d: Dialect, text: string, limited: State)
    requires d.dbms.Oracle? && BracedUnion(text) && IsSetOperator(text[10..15])
    requires limited == Start(0).(p := 10, result := "{", limit := Some(1))
    ensures var end := Steps(d, text, false, limited);
            end.Ok? && Finish(d, end.value) == Ok(d.Limited("{", 1).value + " " + "union" + " " + "}")
  {
    var joined := d.Limited("{", 1).value + " " + "union" + " ";
    var second := Start(15).(done := joined);
    var last := second.(p := 16, result := "}");
    UnionStep(d, text, limited);
    assert Step(d, text, false, limited) == Ok(second);
    assert "" + ['}'] == "}";
    assert Step(d, text, false, second) == Ok(last);
    assert Steps(d, text, false, last) == Ok(last);
    assert Steps(d, text, false, second) == Ok(last);
    assert joined + "}" + "" == joined + "}";
  }

  lemma LimitStep(d: Dialect, text: string, first: State)
    requires HasLimit(text) && PercentWord(text, 1) == "%LIMIT" && AfterPercentWord(text, 1) == 7
    requires d.Translate("%LIMIT") == "%LIMIT" && SpecialOf("%LIMIT") == Limit && first.p == 1 && first.Stacked()
    ensures PercentStep(d, text, first) == Ok(first.(p := 10, limit := Some(1)))
  {
    assert Skip(Space, text, 8) == 8 && Skip(Digit, text, 8) == 9 && Skip(Space, text, 9) == 9;
    assert text[8..9] == "1" && Number("1") == 1 by { assert "1"[..0] == "" && DigitValue('1') == 1; }
    assert LimitAt(text, 7) == Ok((1, 10));
    SpecialCases(d, text, first, "%LIMIT", Limit, 7);
  }

  lemma UnionStep(d: Dialect, text: string, limited: State)
    requires BracedUnion(text) && IsSetOperator(text[10..15]) && d.dbms.Oracle?
    requires limited == Start(0).(p := 10, result := "{", limit := Some(1))
    ensures Skip(Word, text, 10) == 15
    ensures WordStep(d, text, false, limited) == Ok(Start(15).(done := d.Limited("{", 1).value + " " + "union" + " "))
  {
    SkipsTo(Word, text, 10, 15);
    var done := d.Limited("{", 1).value + " " + "union" + " ";
    assert "" + d.Limited("{", 1).value == d.Limited("{", 1).value;
  }

  /** One step along a statement without arguments and type names. */
  lemma WalkStep(d: Dialect, text: string, st: State, st': State)
    requires st.p < |text| && st.Stacked() && Step(d, text, false, st) == Ok(st') && Walkable(d, text, false, st')
    requires text[st.p] == '%' ==> Arity(d, text, st.p) == 0
    ensures Walkable(d, text, false, st)
  {
    if text[st.p] == '%' { NoArguments(d, text, st.p); }
    assert PlaceFits(d, text, false, st);
  }

  lemma NoArguments(d: Dialect, text: string, i: nat)
    requires i < |text| && text[i] == '%' && Arity(d, text, i) == 0
    ensures ArgumentsFit(d, text, i)
  {
    var r := ListAt(text, i);
    if r < |text| { assert ArgumentsNest(d, text, r + 1, 0); }
  }

  lemma EndFits(d: Dialect, text: string, second: State)
    requires |text| == 16 && text[15] == '}' && second == Start(15).(done := second.done)
    ensures Walkable(d, text, false, second)
  {
    var last := second.(p := 16, result := "}");
    assert "" + ['}'] == "}";
    assert Step(d, text, false, second) == Ok(last);
    WalkStep(d, text, second, last);
  }

  lemma BraceFits(d: Dialect, text: string, first: State, limited: State)
    requires d.dbms.Oracle? && BracedUnion(text) && IsSetOperator(text[10..15]) && Arity(d, text, 1) == 0
    requires first == Start(0).(p := 1, result := "{") && limited == first.(p := 10, limit := Some(1))
    requires Step(d, text, false, Start(0)) == Ok(first) && Step(d, text, false, first) == Ok(limited)
    requires Skip(Space, text, 0) == 0 && !ChangesWords(text, 0) && text[0..] == text && !("%native " <= text)
    ensures Fits(d, text)
  {
    var second := Start(15).(done := d.Limited("{", 1).value + " " + "union" + " ");
    UnionStep(d, text, limited);
    assert Step(d, text, false, limited) == Ok(second);
    EndFits(d, text, second);
    WalkStep(d, text, limited, second);
    WalkStep(d, text, first, limited);
    WalkStep(d, text, Start(0), first);
  }

  lemma BraceCrosses(d: Dialect, text: string, first: State, limited: State)
    requires d.dbms.Oracle? && BracedUnion(text) && IsSetOperator(text[10..15]) && Skip(Word, text, 10) == 15
    requires first == Start(0).(p := 1, result := "{") && limited == first.(p := 10, limit := Some(1))
    requires Step(d, text, false, Start(0)) == Ok(first) && Step(d, text, false, first) == Ok(limited)
    requires Skip(Space, text, 0) == 0 && !ChangesWords(text, 0)
    requires SourceRange(d, text, 0, 10, EMPTY) == EMPTY.Push('{')
    ensures !NoBraceAcross(d, text)
  {
    var one := SourceRange(d, text, 0, 1, EMPTY);
    SourceSplit(d, text, 0, 1, 10, EMPTY);
    var n := SourceRange(d, text, 1, 10, one);
    UnionStep(d, text, limited);
    assert n == EMPTY.Push('{') && n.stack != [];
    OpenHere(d, text, limited, n);
    OpenLater(d, text, first, limited, one);
    OpenLater(d, text, Start(0), first, EMPTY);
  }

  lemma OpenHere(d: Dialect, text: string, st: State, n: Nest)
    requires st.p < |text| && st.Stacked() && AtLimitedEnd(text, st) && n.stack != [] && WordStep(d, text, false, st).Ok?
    ensures !NoneOpenAtLimits(d, text, false, st, n)
  {
    assert Step(d, text, false, st) == WordStep(d, text, false, st);
  }

  lemma OpenLater(d: Dialect, text: string, st: State, st': State, n: Nest)
    requires st.p < |text| && st.Stacked() && Step(d, text, false, st) == Ok(st')
    requires !NoneOpenAtLimits(d, text, false, st', SourceRange(d, text, st.p, st'.p, n))
    ensures !NoneOpenAtLimits(d, text, false, st, n)
  {
  }

  lemma LimitedOutput(d: Dialect, word: string, limited: string)
    requires d.dbms.Oracle? && limited == d.Limited("{", 1).value
    ensures !Nested(limited + " " + word + " " + "}")
  {
    var more := " " + word + " " + "}";
    WrappedScan(d, "{", 1);
    ScanOne(Code("("), '{');
    ScanConcat(EMPTY, limited, more);
    ScanWrong(ScanAll(EMPTY, limited), more);
    assert limited + more == limited + " " + word + " " + "}";
  }

  /** Brackets that are wrong, until the program's parentheses make them right: here the translation
      nests although the source does not. */
  lemma WrappedRight(d: Dialect, text: string)
    requires text == ")%limit(1)(" && d.dbms.Oracle? && "%LIMIT" !in d.words
    ensures Fits(d, text) && !BracketsRight(d, text) && LimitAtEnd(d, text)
    ensures Convert(d, text).Ok? && Nested(Convert(d, text).value)
  {
    LimitWordIs(d, text);
    NoCommand(text);
    SourceCloses(d, text, 0, EMPTY);
    SourceWrong(d, text, 1, |text|, EMPTY.Pop('('));
    SourceSplit(d, text, 0, 1, |text|, EMPTY);
    WrappedConvert(d, text);
    WrappedOutput(d, d.Limited(")(", 1).value);
  }

  lemma WrappedConvert(d: Dialect, text: string)
    requires d.dbms.Oracle? && HasLimit(text) && |text| == 11 && text[0] == ')' && text[10] == '('
    requires PercentWord(text, 1) == "%LIMIT" && AfterPercentWord(text, 1) == 7
    requires d.Translate("%LIMIT") == "%LIMIT" && SpecialOf("%LIMIT") == Limit
    requires Skip(Space, text, 0) == 0 && !ChangesWords(text, 0) && text[0..] == text && !("%native " <= text)
    requires Arity(d, text, 1) == 0
    ensures Convert(d, text) == Ok(d.Limited(")(", 1).value) && LimitAtEnd(d, text) && Fits(d, text)
  {
    var first := Start(0).(p := 1, result := ")");
    var limited := first.(p := 10, limit := Some(1));
    var last := limited.(p := 11, result := ")(", klammern := 1, fns := [false]);
    assert "" + [')'] == ")" && ")" + ['('] == ")(" && [] + [false] == [false];
    assert Step(d, text, false, Start(0)) == Ok(first);
    LimitStep(d, text, first);
    assert Step(d, text, false, first) == Ok(limited);
    assert Step(d, text, false, limited) == Ok(last);
    assert Steps(d, text, false, last) == Ok(last);
    assert Steps(d, text, false, limited) == Ok(last);
    assert Steps(d, text, false, first) == Ok(last);
    assert Steps(d, text, false, Start(0)) == Ok(last);
    assert "" + d.Limited(")(", 1).value + "" == d.Limited(")(", 1).value;
    WalkStep(d, text, limited, last);
    WalkStep(d, text, first, limited);
    WalkStep(d, text, Start(0), first);
  }

  lemma WrappedOutput(d: Dialect, limited: string)
    requires d.dbms.Oracle? && limited == d.Limited(")(", 1).value
    ensures Nested(limited)
  {
    WrappedScan(d, ")(", 1);
    assert ")(" == ")" + "(";
    ScanConcat(Code("("), ")", "(");
    ScanOne(Code("("), ')');
    ScanOne(EMPTY, '(');
  }
}
