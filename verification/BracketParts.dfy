/** Text whose brackets nest by themselves, inside other text: in the output it leaves no trace, and
    in the source it may be looked at on its own. */
module BracketParts {
  import opened Brackets
  import opened SqlChars
  import opened SqlDialect
  import opened StmtSpec

  // ----- in the output

  /** What is open further out does not matter. */
  lemma {:induction false} ScanInside(stack: string, s: string)
    requires ScanAll(EMPTY, s).ok
    ensures var inner := ScanAll(EMPTY, s);
            ScanAll(Code(stack), s) == inner.(stack := stack + inner.stack)
  {
    if s == [] {
      assert stack + [] == stack;
    } else {
      var before := ScanAll(EMPTY, s[..|s| - 1]);
      ScanInside(stack, s[..|s| - 1]);
      InsideOne(stack, before, s[|s| - 1]);
    }
  }

  lemma InsideOne(stack: string, n: Nest, c: char)
    requires n.ok && Scan(n, c).ok
    ensures Scan(n.(stack := stack + n.stack), c) == Scan(n, c).(stack := stack + Scan(n, c).stack)
  {
    if n.stack != [] {
      var m := |n.stack| - 1;
      assert (stack + n.stack)[..|stack + n.stack| - 1] == stack + n.stack[..m];
    }
    assert stack + (n.stack + [c]) == stack + n.stack + [c];
  }

  lemma NestedIsNeutral(s: string)
    requires Nested(s)
    ensures Neutral(s)
  {
    forall stack: string ensures ScanAll(Code(stack), s) == Code(stack) {
      ScanInside(stack, s);
      ScanKeepsResume(EMPTY, s);
      assert stack + [] == stack;
    }
  }

  lemma NeutralInert(s: string)
    requires forall c <- s :: Inert(c)
    ensures Neutral(s)
  {
    forall stack: string ensures ScanAll(Code(stack), s) == Code(stack) {
      ScanInert(Code(stack), s);
    }
  }

  lemma NeutralQuoted(s: string)
    requires '\'' !in s
    ensures Neutral("'" + s + "'")
  {
    forall stack: string
      ensures ScanAll(Code(stack), "'" + s + "'") == Code(stack)
    {
      ScanQuoted(Code(stack), s);
    }
  }

  lemma NeutralBoth(a: string, b: string)
    requires Neutral(a) && Neutral(b)
    ensures Neutral(a + b)
  {
    forall stack: string ensures ScanAll(Code(stack), a + b) == Code(stack) {
      ScanConcat(Code(stack), a, b);
    }
  }

  lemma NeutralPair(s: string)
    requires Neutral(s)
    ensures Neutral("(" + s + ")")
  {
    forall stack: string
      ensures ScanAll(Code(stack), "(" + s + ")") == Code(stack)
    {
      var n, inner := Code(stack), Code(stack + ['(']);
      ScanOne(n, '(');
      ScanConcat(n, "(", s);
      assert ScanAll(inner, s) == inner;
      ScanConcat(n, "(" + s, ")");
      ScanOne(inner, ')');
      assert (stack + ['('])[..|stack|] == stack;
    }
  }

  lemma NeutralCall(name: string, s: string)
    requires (forall c <- name :: Inert(c)) && Neutral(s)
    ensures Neutral(Call(name, s))
  {
    NeutralInert(name);
    NeutralPair(s);
    NeutralBoth(name, "(" + s + ")");
  }

  lemma NeutralThen(s: string, after: string)
    requires Neutral(s) && forall c <- after :: Inert(c)
    ensures Neutral(s + after)
  {
    NeutralInert(after);
    NeutralBoth(s, after);
  }

  lemma NeutralBetween(a: string, between: string, b: string)
    requires Neutral(a) && Neutral(b) && forall c <- between :: Inert(c)
    ensures Neutral(a + between + b)
  {
    NeutralThen(a, between);
    NeutralBoth(a + between, b);
  }

  lemma NeutralThenQuoted(a: string, between: string, s: string)
    requires Neutral(a) && '\'' !in s && forall c <- between :: Inert(c)
    ensures Neutral(a + between + Quoted(s))
  {
    NeutralQuoted(s);
    NeutralBetween(a, between, Quoted(s));
  }

  // ----- what dialects write around arguments nests if the arguments do

  lemma Db2Neutral(arg: string)
    requires Neutral(arg)
    ensures Neutral(Call("", Call("char", Call("date", arg) + ",iso") + "||" + Quoted(" ") + "||"
                             + Call("char", Call("time", arg) + ",jis")))
  {
    NeutralCall("date", arg);
    NeutralThen(Call("date", arg), ",iso");
    var date := Call("char", Call("date", arg) + ",iso");
    NeutralCall("char", Call("date", arg) + ",iso");
    NeutralCall("time", arg);
    NeutralThen(Call("time", arg), ",jis");
    var time := Call("char", Call("time", arg) + ",jis");
    NeutralCall("char", Call("time", arg) + ",jis");
    NeutralThenQuoted(date, "||", " ");
    NeutralBetween(date + "||" + Quoted(" "), "||", time);
    NeutralCall("", date + "||" + Quoted(" ") + "||" + time);
  }

  lemma FirebirdNeutral(arg: string)
    requires Neutral(arg)
    ensures Neutral(Call("substring", Call("Cast", arg + " as " + Call("varchar", "24")) + " from 1 for 19"))
  {
    NeutralInert("24");
    NeutralCall("varchar", "24");
    NeutralBetween(arg, " as ", Call("varchar", "24"));
    var cast := Call("Cast", arg + " as " + Call("varchar", "24"));
    NeutralCall("Cast", arg + " as " + Call("varchar", "24"));
    NeutralThen(cast, " from 1 for 19");
    NeutralCall("substring", cast + " from 1 for 19");
  }

  lemma ConvertNeutral(arg: string, style: string)
    requires Neutral(arg) && forall c <- style :: Inert(c)
    ensures Neutral(Call("CONVERT", Call("VARCHAR", "19") + "," + arg + style))
  {
    NeutralInert("19");
    NeutralCall("VARCHAR", "19");
    NeutralBetween(Call("VARCHAR", "19"), ",", arg);
    NeutralThen(Call("VARCHAR", "19") + "," + arg, style);
    NeutralCall("CONVERT", Call("VARCHAR", "19") + "," + arg + style);
  }

  lemma SybaseNeutral(arg: string)
    requires Neutral(arg)
    ensures Neutral(Call("str_replace", Call("CONVERT", Call("VARCHAR", "19") + "," + arg + ",23") + "," + Quoted("T") + "," + Quoted(" ")))
  {
    ConvertNeutral(arg, ",23");
    var text := Call("CONVERT", Call("VARCHAR", "19") + "," + arg + ",23");
    NeutralThenQuoted(text, ",", "T");
    NeutralThenQuoted(text + "," + Quoted("T"), ",", " ");
    NeutralCall("str_replace", text + "," + Quoted("T") + "," + Quoted(" "));
  }

  lemma H2Neutral(arg: string)
    requires Neutral(arg)
    ensures Neutral(Call("regexp_replace", Call("", arg) + "||" + Quoted("") + "," + Quoted("\\.0+$") + "," + Quoted("")))
  {
    NeutralCall("", arg);
    var text := Call("", arg) + "||" + Quoted("");
    NeutralThenQuoted(Call("", arg), "||", "");
    NeutralThenQuoted(text, ",", "\\.0+$");
    NeutralThenQuoted(text + "," + Quoted("\\.0+$"), ",", "");
    NeutralCall("regexp_replace", text + "," + Quoted("\\.0+$") + "," + Quoted(""));
  }

  lemma FormatNeutral(name: string, arg: string, format: string)
    requires Neutral(arg) && '\'' !in format && forall c <- name :: Inert(c)
    ensures Neutral(Call(name, arg + "," + Quoted(format)))
  {
    NeutralThenQuoted(arg, ",", format);
    NeutralCall(name, arg + "," + Quoted(format));
  }

  lemma TextTimestampNeutral(d: Dialect, arg: string)
    requires Neutral(arg)
    ensures Neutral(d.TextTimestamp(arg))
  {
    match d.dbms
    case Db2 => Db2Neutral(arg);
    case Firebird => FirebirdNeutral(arg);
    case MySql => FormatNeutral("date_format", arg, "%Y-%m-%d %H:%i:%s");
    case Oracle | OracleThin | PostgreSql => FormatNeutral("to_char", arg, "YYYY-MM-DD HH24:MI:SS");
    case SqlServer => ConvertNeutral(arg, ",121");
    case Sybase => SybaseNeutral(arg);
    case H2 => H2Neutral(arg);
    case _ =>
      NeutralCall("", arg);
      NeutralThenQuoted(Call("", arg), "&", "");
      NeutralCall("", Call("", arg) + "&" + Quoted(""));
  }

  lemma DifferenceNeutral(a: string, b: string)
    requires Neutral(a) && Neutral(b)
    ensures Neutral(Difference(a, b))
  {
    NeutralCall("", a);
    NeutralCall("", b);
    NeutralBetween(Call("", a), "-", Call("", b));
    NeutralCall("", Call("", a) + "-" + Call("", b));
  }

  lemma SecondsNeutral(a: string, b: string)
    requires Neutral(a) && Neutral(b)
    ensures Neutral(Call("datediff", "ss," + a + "," + b))
  {
    NeutralInert("ss,");
    NeutralBoth("ss,", a);
    NeutralBetween("ss," + a, ",", b);
    NeutralCall("datediff", "ss," + a + "," + b);
  }

  lemma EpochNeutral(a: string, b: string)
    requires Neutral(a) && Neutral(b)
    ensures Neutral(Call("extract", " epoch from " + Difference(a, b) + " "))
  {
    DifferenceNeutral(a, b);
    NeutralInert(" epoch from ");
    NeutralBoth(" epoch from ", Difference(a, b));
    NeutralThen(" epoch from " + Difference(a, b), " ");
    NeutralCall("extract", " epoch from " + Difference(a, b) + " ");
  }

  lemma SecondsDiffNeutral(d: Dialect, a: string, b: string)
    requires Neutral(a) && Neutral(b)
    ensures Neutral(d.SecondsDiff(a, b))
  {
    match d.dbms
    case PostgreSql => EpochNeutral(a, b);
    case Sybase => SecondsNeutral(a, b);
    case H2 => SecondsNeutral(b, a);
    case _ => DifferenceNeutral(a, b);
  }

  lemma {:induction false} TrimRightKeeps(s: string)
    requires Neutral(s)
    ensures Neutral(TrimRight(s))
  {
    if s != [] && IsSpace(s[|s| - 1]) {
      var init := s[..|s| - 1];
      forall stack: string
        ensures ScanAll(Code(stack), init) == Code(stack)
      {
        assert ScanAll(Code(stack), s) == Scan(ScanAll(Code(stack), init), s[|s| - 1]);
      }
      TrimRightKeeps(init);
    }
  }

  lemma TrimKeeps(s: string)
    requires Neutral(s)
    ensures Neutral(Trim(s))
  {
    TrimRightKeeps(s);
    var t := TrimRight(s);
    var e := Skip(Space, t, 0);
    SkipIsRun(Space, t, 0);
    var blanks, rest := t[..e], t[e..];
    forall i | 0 <= i < |blanks| ensures Inert(blanks[i]) { assert Space.Has(t[i]); }
    assert t == blanks + rest;
    forall stack: string ensures ScanAll(Code(stack), rest) == Code(stack) {
      ScanConcat(Code(stack), blanks, rest);
      ScanInert(Code(stack), blanks);
    }
  }

  // ----- in the source

  /** What is open further out does not matter. */
  lemma {:induction false} BracketsInside(d: Dialect, text: string, p: nat, e: nat, stack: string)
    requires p <= e <= |text| && BracketRange(d, text, p, e, EMPTY).ok
    ensures var inner := BracketRange(d, text, p, e, EMPTY);
            BracketRange(d, text, p, e, Code(stack)) == inner.(stack := stack + inner.stack)
    decreases e
  {
    if p == e {
      assert stack + [] == stack;
    } else {
      var before := BracketRange(d, text, p, e - 1, EMPTY);
      BracketsInside(d, text, p, e - 1, stack);
      if before.ok && before.InCode() && text[e - 1] == '%' && IsBare(d, text, e - 1) {
        assert stack + (before.stack + ['{']) == stack + before.stack + ['{'];
      } else {
        InsideOne(stack, before, text[e - 1]);
      }
    }
  }

  /** An argument ends before a comma or a parenthesis, so nothing in it reads on beyond that. */
  predicate EndsAt(text: string, e: nat) {
    e < |text| && (text[e] == ',' || text[e] == ')')
  }

  lemma {:induction false} SkipInSlice(cls: Class, text: string, p: nat, e: nat, i: nat)
    requires EndsAt(text, e) && p <= i <= e && !cls.Has(text[e])
    ensures Skip(cls, text, i) <= e && Skip(cls, text[p..e], i - p) == Skip(cls, text, i) - p
    decreases e - i
  {
    if i < e && cls.Has(text[i]) { SkipInSlice(cls, text, p, e, i + 1); }
  }

  lemma {:induction false} UpperAt(s: string, i: nat)
    requires i < |s|
    ensures Upper(s)[i] == UpperChar(s[i])
  {
    if i < |s| - 1 { UpperAt(s[..|s| - 1], i); }
  }

  lemma SliceOfSlice(text: string, p: nat, e: nat, i: nat, j: nat)
    requires p <= i <= j <= e <= |text|
    ensures text[p..e][i - p..j - p] == text[i..j]
  {
    var slice := text[p..e];
    assert forall k :: 0 <= k < j - i ==> slice[i - p..j - p][k] == slice[i - p + k] == text[i..j][k];
  }

  lemma StartsWithChar(text: string, p: nat, word: string, k: nat)
    requires StartsWith(text, p, word) && k < |word|
    ensures UpperChar(text[p + k]) in word
  {
    var found := text[p..p + |word|];
    UpperAt(found, k);
    assert found[k] == text[p + k] && word[k] in word;
  }

  lemma StartsWithinSlice(text: string, p: nat, e: nat, i: nat, word: string)
    requires EndsAt(text, e) && p <= i < e && ',' !in word && ')' !in word
    ensures StartsWith(text[p..e], i - p, word) == StartsWith(text, i, word)
  {
    if i + |word| <= e {
      SliceOfSlice(text, p, e, i, i + |word|);
    } else if StartsWith(text, i, word) {
      StartsWithChar(text, i, word, e - i);
    }
  }

  lemma WordInSlice(text: string, p: nat, e: nat, i: nat)
    requires EndsAt(text, e) && p <= i < e
    ensures PercentWord(text[p..e], i - p) == PercentWord(text, i)
  {
    SkipInSlice(Letters, text, p, e, i + 1);
    SliceOfSlice(text, p, e, i + 1, Skip(Letters, text, i + 1));
  }

  lemma KindInSlice(text: string, p: nat, e: nat, i: nat)
    requires EndsAt(text, e) && p <= i < e
    ensures LiteralKindAt(text[p..e], i - p) == LiteralKindAt(text, i)
  {
    StartsWithinSlice(text, p, e, i, "%DATE");
    StartsWithinSlice(text, p, e, i, "%TIMESTAMP");
  }

  lemma BareInSlice(d: Dialect, text: string, p: nat, e: nat, i: nat)
    requires EndsAt(text, e) && p <= i < e && text[i] == '%'
    ensures IsBare(d, text[p..e], i - p) == IsBare(d, text, i)
  {
    WordInSlice(text, p, e, i);
    KindInSlice(text, p, e, i);
    NextInSlice(text, p, e, i + 1);
  }

  lemma NextInSlice(text: string, p: nat, e: nat, i: nat)
    requires EndsAt(text, e) && p <= i <= e
    ensures At(text[p..e], Skip(Alpha, text[p..e], i - p)) == '(' <==> At(text, Skip(Alpha, text, i)) == '('
  {
    SkipInSlice(Alpha, text, p, e, i);
    var a := Skip(Alpha, text, i);
    assert a < e ==> text[p..e][a - p] == text[a];
  }

  lemma BracketAtInSlice(d: Dialect, text: string, p: nat, e: nat, i: nat, n: Nest)
    requires EndsAt(text, e) && p <= i < e
    ensures BracketAt(d, text[p..e], i - p, n) == BracketAt(d, text, i, n)
  {
    assert text[p..e][i - p] == text[i];
    if text[i] == '%' { BareInSlice(d, text, p, e, i); }
  }

  lemma BracketLast(d: Dialect, text: string, p: nat, k: nat, n: Nest)
    requires p + k < |text|
    ensures BracketRange(d, text, p, p + k + 1, n) == BracketAt(d, text, p + k, BracketRange(d, text, p, p + k, n))
  {
  }

  lemma {:induction false} BracketsInSlice(d: Dialect, text: string, p: nat, e: nat, k: nat, n: Nest)
    requires EndsAt(text, e) && p + k <= e
    ensures BracketRange(d, text[p..e], 0, k, n) == BracketRange(d, text, p, p + k, n)
    decreases k
  {
    if k > 0 {
      var m := k - 1;
      BracketsInSlice(d, text, p, e, m, n);
      BracketAtInSlice(d, text, p, e, p + m, BracketRange(d, text, p, p + m, n));
      BracketLast(d, text[p..e], 0, m, n);
      BracketLast(d, text, p, m, n);
    }
  }

  lemma {:induction false} BracketsKeepResume(d: Dialect, text: string, p: nat, e: nat, n: Nest)
    requires p <= e <= |text|
    ensures BracketRange(d, text, p, e, n).resume == n.resume
    decreases e
  {
    if p < e { BracketsKeepResume(d, text, p, e - 1, n); }
  }

  /** An argument that nests by itself leaves no trace in the text around it. */
  lemma NestedSlice(d: Dialect, text: string, p: nat, e: nat, n: Nest)
    requires EndsAt(text, e) && p <= e && BracketNested(d, text[p..e]) && Ready(n) && n.resume == 0
    ensures BracketRange(d, text, p, e, n) == n
  {
    BracketsInSlice(d, text, p, e, e - p, EMPTY);
    BracketsInside(d, text, p, e, n.stack);
    BracketsKeepResume(d, text, p, e, EMPTY);
    assert n == Code(n.stack) && n.stack + [] == n.stack;
  }
}
