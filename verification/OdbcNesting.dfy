/** ODBC function calls become `{fn name(...)}`. The brackets of the translation nest properly
    exactly when those of the source do, a percent name without parentheses counting as an open
    brace, and a word that is rewritten counting as nothing, together with the arguments the program
    takes for it. Where the program puts parentheses of its own around parts with a row limit, each
    part has to nest between them. */
module OdbcNesting {
  import opened BracketParts
  import opened Brackets
  import opened DateCalls
  import opened LimitParts
  import opened OdbcStatements
  import opened SourceParts
  import opened SqlChars
  import opened SqlDialect
  import opened StmtSpec
  import opened Wrappers

  // ----- the simulation

  function Parens(stack: string): nat {
    if stack == [] then 0
    else Parens(stack[..|stack| - 1]) + (if stack[|stack| - 1] == '(' then 1 else 0)
  }

  /** The brackets of the output, given those of the source and which parentheses are functions'. */
  function Flatten(stack: string, fns: seq<bool>): string
    requires Parens(stack) == |fns|
  {
    if stack == [] then []
    else
      var n, m := |stack| - 1, |fns| - 1;
      if stack[n] == '(' then Flatten(stack[..n], fns[..m]) + (if fns[m] then "{(" else "(")
      else Flatten(stack[..n], fns) + [stack[n]]
  }

  ghost predicate Simulates(out: Nest, n: Nest, st: State) {
    && st.Stacked()
    && out.ok == n.ok && out.resume == 0 && n.resume <= st.p
    && (n.ok ==>
          && out.inString == n.inString == st.inString
          && out.inIdentifier == n.inIdentifier == st.inIdentifier
          && Parens(n.stack) == |st.fns|
          && out.stack == Flatten(n.stack, st.fns)
          && forall i :: 0 <= i < |n.stack| ==> n.stack[i] == '(' || n.stack[i] == '{')
  }

  /** That, with the brackets of the source right so far; the output stands behind those of `b`. */
  ghost predicate Advances(b: Nest, n: Nest, st: State) {
    n.ok && Simulates(ScanAll(b, st.result), n, st)
  }

  /** What the session must not bring in: other quotes, or words that open without closing. */
  ghost predicate Clean(d: Dialect) {
    && IsIdentifierQuote(d.QuoteBegin()) && IsIdentifierQuote(d.QuoteEnd())
    && Neutral(d.concatOperator)
    && (forall w <- d.words.Values :: Neutral(w))
    && (forall t: string, isDate: bool :: d.dateText(t, isDate).Some? ==> '\'' !in d.dateText(t, isDate).value)
  }

  lemma FlattenPush(stack: string, fns: seq<bool>, c: char, fn: bool)
    requires Parens(stack) == |fns|
    ensures Parens(stack + [c]) == |fns| + if c == '(' then 1 else 0
    ensures c == '(' ==> Flatten(stack + [c], fns + [fn]) == Flatten(stack, fns) + if fn then "{(" else "("
    ensures c != '(' ==> Flatten(stack + [c], fns) == Flatten(stack, fns) + [c]
  {
    assert (stack + [c])[..|stack|] == stack && (fns + [fn])[..|fns|] == fns;
  }

  /** A quote, or a character in a literal or a quoted identifier. */
  lemma SimulateQuoted(d: Dialect, text: string, out: Nest, n: Nest, st: State, st': State, c: char)
    requires Simulates(out, n, st) && st.p < |text| && n.ok
    requires !n.InCode() || text[st.p] == '\'' || IsIdentifierQuote(text[st.p])
    requires var t := text[st.p];
             if t == '\'' || st.inString then c == t
             else if IsIdentifierQuote(t) then IsIdentifierQuote(c)
             else c == UpperChar(t)
    requires st'.p == st.p + 1
    requires st'.inString == (if text[st.p] == '\'' then !st.inString else st.inString)
    requires st'.inIdentifier == (if !st.inString && IsIdentifierQuote(text[st.p]) then !st.inIdentifier else st.inIdentifier)
    requires st'.klammern == st.klammern && st'.fns == st.fns
    ensures Simulates(ScanAll(out, [c]), SourceRange(d, text, st.p, st'.p, n), st')
    ensures SourceRange(d, text, st.p, st'.p, n).ok
  {
    ScanOne(out, c);
    SourceOne(d, text, st.p, n);
  }

  /** A brace, or a character that is neither bracket nor quote. */
  lemma SimulateChar(d: Dialect, text: string, out: Nest, n: Nest, st: State, st': State, c: char)
    requires Simulates(out, n, st) && st.p < |text| && Ready(n) && c == text[st.p]
    requires c != '\'' && !IsIdentifierQuote(c) && c != '%' && c != '(' && c != ')'
    requires st' == st.(p := st.p + 1, result := st'.result)
    ensures Simulates(ScanAll(out, [c]), SourceRange(d, text, st.p, st'.p, n), st')
    ensures c != '}' ==> SourceRange(d, text, st.p, st'.p, n).ok
  {
    ScanOne(out, c);
    SourceOne(d, text, st.p, n);
    if c == '{' {
      FlattenPush(n.stack, st.fns, c, false);
    } else if c == '}' {
      BraceCloses(n.stack, st.fns);
    }
  }

  /** The brackets of the output end with a brace exactly when those of the source do. */
  lemma BraceCloses(stack: string, fns: seq<bool>)
    requires Parens(stack) == |fns| && forall i :: 0 <= i < |stack| ==> stack[i] == '(' || stack[i] == '{'
    ensures var f := Flatten(stack, fns);
            if stack != [] && stack[|stack| - 1] == '{' then
              && f != [] && f[|f| - 1] == '{' && Parens(stack[..|stack| - 1]) == |fns|
              && f[..|f| - 1] == Flatten(stack[..|stack| - 1], fns)
            else f == [] || f[|f| - 1] != '{'
  {
  }

  lemma SimulateOpen(d: Dialect, text: string, out: Nest, n: Nest, st: State, st': State)
    requires Simulates(out, n, st) && st.p < |text| && n.ok && n.InCode() && text[st.p] == '('
    requires st' == st.(p := st.p + 1, result := st.result + "(", klammern := st.klammern + 1, fns := st.fns + [false])
    ensures Simulates(ScanAll(out, "("), SourceRange(d, text, st.p, st'.p, n), st')
    ensures SourceRange(d, text, st.p, st'.p, n).ok
  {
    ScanOne(out, '(');
    SourceOne(d, text, st.p, n);
    FlattenPush(n.stack, st.fns, '(', false);
  }

  lemma FlattenPop(stack: string, fns: seq<bool>)
    requires Parens(stack) == |fns| && stack != [] && stack[|stack| - 1] == '('
    ensures fns != [] && Parens(stack[..|stack| - 1]) == |fns| - 1
    ensures Flatten(stack, fns) == Flatten(stack[..|stack| - 1], fns[..|fns| - 1]) + if fns[|fns| - 1] then "{(" else "("
  {
  }

  lemma ScanClose(out: Nest, rest: string, fn: bool)
    requires Ready(out) && out.stack == rest + if fn then "{(" else "("
    ensures ScanAll(out, Closing(fn)) == out.(stack := rest)
  {
    ScanOne(out, ')');
    if fn {
      var popped := out.(stack := rest + "{");
      assert out.stack[..|out.stack| - 1] == rest + "{";
      assert Scan(out, ')') == popped;
      assert ")}"[..1] == ")";
      assert Scan(popped, '}').stack == rest;
    } else {
      assert out.stack[..|out.stack| - 1] == rest;
    }
  }

  lemma SourceCloses(d: Dialect, text: string, p: nat, n: Nest)
    requires p < |text| && Meets(n, p) && text[p] == ')'
    ensures SourceRange(d, text, p, p + 1, n) == n.Pop('(')
  {
    SourceOne(d, text, p, n);
  }

  /** A parenthesis that closes one, and the brace of its function with it. */
  lemma CloseRight(d: Dialect, text: string, out: Nest, n: Nest, st: State)
    requires Simulates(out, n, st) && st.p < |text| && Ready(n) && text[st.p] == ')'
    requires n.stack != [] && n.stack[|n.stack| - 1] == '('
    ensures Simulates(ScanAll(out, Closing(ClosesFunction(st))), SourceRange(d, text, st.p, st.p + 1, n), AfterClose(st))
  {
    var rest, fns := n.stack[..|n.stack| - 1], st.fns[..|st.fns| - 1];
    FlattenPop(n.stack, st.fns);
    ScanClose(out, Flatten(rest, fns), ClosesFunction(st));
    SourceCloses(d, text, st.p, n);
    Popped(out, n, st, rest, fns);
  }

  lemma Popped(out: Nest, n: Nest, st: State, rest: string, fns: seq<bool>)
    requires Simulates(out, n, st) && n.ok && n.stack != [] && st.fns != []
    requires rest == n.stack[..|n.stack| - 1] && fns == st.fns[..|st.fns| - 1] && Parens(rest) == |fns|
    ensures Simulates(out.(stack := Flatten(rest, fns)), n.(stack := rest), AfterClose(st))
  {
  }

  lemma FlattenTop(stack: string, fns: seq<bool>)
    requires Parens(stack) == |fns|
    ensures stack == [] ==> Flatten(stack, fns) == []
    ensures stack != [] && stack[|stack| - 1] != '(' ==>
              var f := Flatten(stack, fns); f != [] && f[|f| - 1] == stack[|stack| - 1]
  {
  }

  /** One that closes nothing. */
  lemma CloseWrong(d: Dialect, text: string, out: Nest, n: Nest, st: State)
    requires Simulates(out, n, st) && st.p < |text| && Ready(n) && text[st.p] == ')'
    requires !(n.stack != [] && n.stack[|n.stack| - 1] == '(')
    ensures Simulates(ScanAll(out, Closing(ClosesFunction(st))), SourceRange(d, text, st.p, st.p + 1, n), AfterClose(st))
  {
    SourceCloses(d, text, st.p, n);
    FlattenTop(n.stack, st.fns);
    ScanOne(out, ')');
    assert !Scan(out, ')').ok;
    if ClosesFunction(st) {
      assert ")}" == ")" + "}";
      ScanConcat(out, ")", "}");
      ScanWrong(Scan(out, ')'), "}");
    }
    ScanKeepsResume(out, Closing(ClosesFunction(st)));
  }

  lemma SimulateClose(d: Dialect, text: string, out: Nest, n: Nest, st: State)
    requires Simulates(out, n, st) && st.p < |text| && Ready(n) && text[st.p] == ')'
    ensures Simulates(ScanAll(out, Closing(ClosesFunction(st))), SourceRange(d, text, st.p, st.p + 1, n), AfterClose(st))
  {
    if n.stack != [] && n.stack[|n.stack| - 1] == '(' {
      CloseRight(d, text, out, n, st);
    } else {
      CloseWrong(d, text, out, n, st);
    }
  }

  lemma ScanFunctionName(b: Nest, result: string, name: string, out: Nest)
    requires ScanAll(b, result) == out && Ready(out) && forall c <- name :: Inert(c)
    ensures ScanAll(b, result + "{fn " + name) == out.Push('{')
    ensures ScanAll(b, result + "{fn " + name + "(") == out.Push('{').Push('(')
  {
    var braced := out.Push('{');
    ScanConcat(b, result, "{fn ");
    assert "{fn " == "{" + "fn ";
    ScanConcat(out, "{", "fn ");
    ScanOne(out, '{');
    ScanInert(braced, "fn ");
    ScanConcat(b, result + "{fn ", name);
    ScanInert(braced, name);
    ScanConcat(b, result + "{fn " + name, "(");
    ScanOne(braced, '(');
  }

  lemma NameIsInert(text: string, p: nat)
    requires p <= |text|
    ensures forall c <- text[p..Skip(Alpha, text, p)] :: Inert(c)
  {
    var name := text[p..Skip(Alpha, text, p)];
    SkipIsRun(Alpha, text, p);
    forall i | 0 <= i < |name| ensures Inert(name[i]) { assert Alpha.Has(text[p + i]); }
  }

  /** An untranslated name with parentheses becomes a function call. */
  lemma SimulateCall(d: Dialect, text: string, b: Nest, n: Nest, st: State, st': State, e: nat)
    requires Advances(b, n, st) && st.p < e < |text| && Meets(n, st.p) && text[st.p] == '%'
    requires e == Skip(Alpha, text, st.p + 1) && text[e] == '('
    requires SourceRange(d, text, st.p, st.p + 1, n) == n
    requires st' == st.(p := e + 1, result := st.result + "{fn " + text[st.p + 1..e] + "(",
                        klammern := st.klammern + 1, fns := st.fns + [true])
    ensures Advances(b, SourceRange(d, text, st.p, st'.p, n), st')
  {
    var out := ScanAll(b, st.result);
    NameIsInert(text, st.p + 1);
    ScanFunctionName(b, st.result, text[st.p + 1..e], out);
    SourceOfCall(d, text, st.p, e, n);
    FlattenPush(n.stack, st.fns, '(', true);
    assert out.stack + ['{'] + ['('] == out.stack + "{(";
  }

  /** An untranslated name without parentheses becomes a brace that stays open. */
  lemma SimulateBare(d: Dialect, text: string, b: Nest, n: Nest, st: State, st': State, e: nat)
    requires Advances(b, n, st) && st.p < e <= |text| && Meets(n, st.p) && text[st.p] == '%'
    requires e == Skip(Alpha, text, st.p + 1) && SourceRange(d, text, st.p, st.p + 1, n) == n.Push('{')
    requires st' == st.(p := e, result := st.result + "{fn " + text[st.p + 1..e])
    ensures Advances(b, SourceRange(d, text, st.p, st'.p, n), st')
  {
    NameIsInert(text, st.p + 1);
    ScanFunctionName(b, st.result, text[st.p + 1..e], ScanAll(b, st.result));
    SourceOfBare(d, text, st.p, e, n);
    FlattenPush(n.stack, st.fns, '{', false);
  }

  lemma ScanBraced(out: Nest, head: string, inner: string)
    requires Ready(out) && (forall c <- head :: Inert(c)) && ScanAll(out.Push('{'), inner) == out.Push('{')
    ensures ScanAll(out, "{" + head + inner + "}") == out
  {
    var braced := out.Push('{');
    ScanOne(out, '{');
    ScanConcat(out, "{", head);
    ScanInert(braced, head);
    ScanConcat(out, "{" + head, inner);
    ScanConcat(out, "{" + head + inner, "}");
    ScanOne(braced, '}');
    assert (out.stack + ['{'])[..|out.stack|] == out.stack;
  }

  lemma ScanDateLiteral(d: Dialect, isDate: bool, date: string, out: Nest)
    requires Ready(out) && '\'' !in date
    ensures ScanAll(out, DateLiteral(d, isDate, date)) == out
  {
    ScanQuoted(out, date);
    ScanQuoted(out.Push('{'), date);
    ScanBraced(out, if isDate then "d" else "ts", "'" + date + "'");
  }

  // ----- steps

  lemma {:induction false} ArgumentsEndIs(d: Dialect, text: string, p: nat, n: nat)
    requires 0 < p <= |text| && Arguments(d, text, p, n).Ok?
    ensures ArgumentsEnd(text, p, n) == Some(Arguments(d, text, p, n).value.1)
    decreases n
  {
    var e := ArgumentEnd(text, p, 0);
    if n > 0 && At(text, e) == ',' { ArgumentsEndIs(d, text, e + 1, n - 1); }
  }

  lemma FirstArgument(d: Dialect, text: string, p: nat, n: nat)
    requires 0 < p <= |text| && n > 0 && Arguments(d, text, p, n).Ok?
    ensures var e, arg, args := ArgumentEnd(text, p, 0), Argument(d, text, p), Arguments(d, text, p, n).value.0;
            && arg.Ok? && EndsAt(text, e)
            && if text[e] == ')' then args == [arg.value.text] + Missing(n - 1)
               else Arguments(d, text, e + 1, n - 1).Ok? && args == [arg.value.text] + Arguments(d, text, e + 1, n - 1).value.0
  {
  }

  lemma FirstNests(d: Dialect, text: string, p: nat, n: nat)
    requires 0 < p <= |text| && n > 0 && ArgumentsNest(d, text, p, n) && EndsAt(text, ArgumentEnd(text, p, 0))
    ensures var e := ArgumentEnd(text, p, 0);
            NestsAsSent(d, text[p..e]) && Fits(d, text[p..e])
  {
  }

  lemma RestNests(d: Dialect, text: string, p: nat, n: nat)
    requires 0 < p <= |text| && n > 0 && ArgumentsNest(d, text, p, n) && EndsAt(text, ArgumentEnd(text, p, 0))
    ensures var e := ArgumentEnd(text, p, 0); text[e] == ',' ==> ArgumentsNest(d, text, e + 1, n - 1)
  {
  }

  ghost predicate AllNeutral(args: seq<string>) {
    forall k :: 0 <= k < |args| ==> Neutral(args[k])
  }

  lemma NeutralCons(first: string, rest: seq<string>)
    requires Neutral(first) && AllNeutral(rest)
    ensures AllNeutral([first] + rest)
  {
  }

  /** Translated arguments nest. */
  lemma {:induction false} ArgumentsNeutral(d: Dialect, text: string, p: nat, n: nat)
    requires Clean(d) && 0 < p <= |text| && ArgumentsNest(d, text, p, n) && Arguments(d, text, p, n).Ok?
    ensures AllNeutral(Arguments(d, text, p, n).value.0)
    decreases |text|, 0, n
  {
    if n > 0 {
      var e, argument := ArgumentEnd(text, p, 0), Argument(d, text, p);
      FirstArgument(d, text, p, n);
      RestNests(d, text, p, n);
      SimulateArgument(d, text, p, n, e);
      if text[e] == ')' {
        NeutralInert("");
        NeutralCons(argument.value.text, Missing(n - 1));
      } else {
        ArgumentsNeutral(d, text, e + 1, n - 1);
        NeutralCons(argument.value.text, Arguments(d, text, e + 1, n - 1).value.0);
      }
    }
  }

  lemma {:induction false} SimulateArgument(d: Dialect, text: string, p: nat, n: nat, e: nat)
    requires Clean(d) && 0 < p <= e <= |text| && e == ArgumentEnd(text, p, 0) && Argument(d, text, p).Ok?
    requires n > 0 && ArgumentsNest(d, text, p, n) && EndsAt(text, e)
    ensures Neutral(Argument(d, text, p).value.text)
    decreases |text|, 0, 0
  {
    FirstNests(d, text, p, n);
    TranslationNestsIff(d, text[p..e]);
    NestedIsNeutral(Convert(d, text[p..e]).value);
    TrimKeeps(Convert(d, text[p..e]).value);
  }

  /** A list of arguments is translated to text that nests, and read to where it ends. */
  lemma {:induction false} ListNests(d: Dialect, text: string, q: nat, r: nat, count: nat, list: Result<(seq<string>, nat)>)
    requires Clean(d) && q <= |text| && r == Skip(Blank, text, q) && list == ArgumentList(d, text, q, count) && list.Ok?
    requires r < |text| ==> ArgumentsNest(d, text, r + 1, count)
    ensures r < |text| && text[r] == '(' && AllNeutral(list.value.0) && ArgumentsEnd(text, r + 1, count) == Some(list.value.1)
    decreases |text|, 0, count + 1
  {
    assert r < |text| && text[r] == '(' && list == Arguments(d, text, r + 1, count);
    ArgumentsEndIs(d, text, r + 1, count);
    ArgumentsNeutral(d, text, r + 1, count);
  }

  lemma ListPlace(text: string, i: nat)
    requires i < |text|
    ensures ListAt(text, i) == Skip(Blank, text, AfterPercentWord(text, i))
  {
  }

  lemma ResumesBehind(d: Dialect, text: string, i: nat)
    requires i < |text| && text[i] == '%' && Arity(d, text, i) > 0 && At(text, ListAt(text, i)) == '('
    ensures ResumesAt(d, text, i) == ArgumentsEnd(text, ListAt(text, i) + 1, Arity(d, text, i))
  {
  }

  lemma FitMeansNest(d: Dialect, text: string, i: nat, r: nat, count: nat)
    requires i < |text| && text[i] == '%' && ArgumentsFit(d, text, i) && r == ListAt(text, i) && count == Arity(d, text, i)
    ensures r < |text| ==> ArgumentsNest(d, text, r + 1, count)
  {
  }

  /** A word that is rewritten appends text that nests, and counts as nothing in the source. */
  lemma {:induction false} SimulateRewritten(d: Dialect, text: string, b: Nest, n: Nest, st: State, st': State, piece: string)
    requires Meets(n, st.p) && Advances(b, n, st) && st.p < |text| && text[st.p] == '%'
    requires ResumesAt(d, text, st.p).Some? && st' == Append(st, ResumesAt(d, text, st.p).value, piece) && Neutral(piece)
    ensures Advances(b, SourceRange(d, text, st.p, st'.p, n), st')
  {
    SourceOfRewritten(d, text, st.p, n);
    ScanNeutral(ScanAll(b, st.result), piece);
    ScanConcat(b, st.result, piece);
  }

  lemma {:induction false} ListNeutral(d: Dialect, text: string, i: nat, r: nat, count: nat, list: Result<(seq<string>, nat)>)
    requires Clean(d) && i < |text| && text[i] == '%' && count == Arity(d, text, i) > 0 && ArgumentsFit(d, text, i)
    requires r == ListAt(text, i)
    requires list == ArgumentList(d, text, AfterPercentWord(text, i), count) && list.Ok?
    ensures AllNeutral(list.value.0) && r < |text| && text[r] == '(' && ArgumentsEnd(text, r + 1, count) == Some(list.value.1)
    decreases |text|, 1, 0
  {
    ListPlace(text, i);
    FitMeansNest(d, text, i, r, count);
    ListNests(d, text, AfterPercentWord(text, i), r, count, list);
  }

  lemma {:induction false} SimulateArguments(d: Dialect, text: string, b: Nest, n: Nest, st: State, st': State, special: Special, q: nat)
    requires Clean(d) && Meets(n, st.p) && Advances(b, n, st)
    requires st.p < |text| && text[st.p] == '%' && q == AfterPercentWord(text, st.p)
    requires special == SpecialOf(d.Translate(PercentWord(text, st.p))) && (special.TextTimestamp? || special.SecondsDiff?)
    requires ArgumentsFit(d, text, st.p)
    requires SpecialStep(d, text, st, PercentWord(text, st.p), d.Translate(PercentWord(text, st.p)), special, q) == Ok(st')
    ensures Advances(b, SourceRange(d, text, st.p, st'.p, n), st')
    decreases |text|, 1, 1
  {
    SpecialCases(d, text, st, PercentWord(text, st.p), special, q);
    var list := ArgumentList(d, text, q, Arity(d, text, st.p));
    ListNeutral(d, text, st.p, ListAt(text, st.p), Arity(d, text, st.p), list);
    ResumesBehind(d, text, st.p);
    var args := list.value.0;
    if special.TextTimestamp? {
      TextTimestampNeutral(d, args[0]);
      SimulateRewritten(d, text, b, n, st, st', d.TextTimestamp(args[0]));
    } else {
      SecondsDiffNeutral(d, args[0], args[1]);
      SimulateRewritten(d, text, b, n, st, st', d.SecondsDiff(args[0], args[1]));
    }
  }

  lemma TranslateNeutral(d: Dialect, word: string, out: Nest)
    requires Clean(d) && Ready(out) && out.resume == 0 && d.Translate(word) != word
    ensures ScanAll(out, d.Translate(word)) == out
  {
    assert d.Translate(word) in d.words.Values;
    ScanNeutral(out, d.Translate(word));
  }

  lemma ScanWithBlank(out: Nest, piece: string)
    requires ScanAll(out, piece) == out
    ensures ScanAll(out, piece + " ") == out
  {
    ScanConcat(out, piece, " ");
    ScanInert(out, " ");
  }

  lemma SimulateDate(d: Dialect, text: string, b: Nest, n: Nest, st: State, st': State)
    requires Clean(d) && Meets(n, st.p) && Advances(b, n, st)
    requires st.p < |text| && SourceRange(d, text, st.p, st.p + 1, n) == n
    requires var date := DateOrTimestamp(d, text, st.p);
             date.Ok? && date.value.Some? && st' == Append(st, date.value.value.next, date.value.value.text)
    ensures Advances(b, SourceRange(d, text, st.p, st'.p, n), st')
  {
    var piece, isDate := DateOrTimestamp(d, text, st.p).value.value, LiteralKindAt(text, st.p).DateKind?;
    DateTranslatedIff(d, text, st.p, piece);
    SourceDate(d, text, st.p, isDate, n, piece);
    DateText(d, text, st.p, isDate, ScanAll(b, st.result), piece);
    SimulateAppend(d, text, b, n, st, st', st'.p, piece.text);
  }

  lemma SimulateFunction(d: Dialect, text: string, b: Nest, n: Nest, st: State)
    requires Meets(n, st.p) && Advances(b, n, st)
    requires st.p < |text| && text[st.p] == '%'
    requires SourceRange(d, text, st.p, st.p + 1, n)
             == if At(text, Skip(Alpha, text, st.p + 1)) == '(' then n else n.Push('{')
    ensures var st' := FunctionStart(text, st);
            Advances(b, SourceRange(d, text, st.p, st'.p, n), st')
  {
    var e := Skip(Alpha, text, st.p + 1);
    if At(text, e) == '(' {
      SimulateCall(d, text, b, n, st, FunctionStart(text, st), e);
    } else {
      SimulateBare(d, text, b, n, st, FunctionStart(text, st), e);
    }
  }

  lemma SimulateStray(d: Dialect, text: string, b: Nest, n: Nest, st: State, st': State)
    requires Advances(b, n, st) && !d.isOdbc
    requires st.p < |text| && UntranslatedStep(d, text, st) == Ok(st') && DateOrTimestamp(d, text, st.p) == Ok(None)
    requires SourceRange(d, text, st.p, st.p + 1, n) == n
    ensures Advances(b, SourceRange(d, text, st.p, st'.p, n), st')
  {
  }

  lemma DateStep(d: Dialect, text: string, st: State)
    requires st.p < |text| && st.Stacked() && UntranslatedStep(d, text, st).Ok?
    ensures var date := DateOrTimestamp(d, text, st.p);
            && date.Ok?
            && (date == Ok(None) <==> LiteralKindAt(text, st.p).NoLiteral?)
            && (date != Ok(None) ==>
                  UntranslatedStep(d, text, st) == Ok(Append(st, date.value.value.next, date.value.value.text)))
            && (date == Ok(None) && d.isOdbc ==> UntranslatedStep(d, text, st) == Ok(FunctionStart(text, st)))
  {
  }

  /** A percent word the program does not know: a date, a function, or a stray sign. */
  lemma SimulateUntranslated(d: Dialect, text: string, b: Nest, n: Nest, st: State, st': State)
    requires Clean(d) && Meets(n, st.p) && Advances(b, n, st)
    requires st.p < |text| && text[st.p] == '%' && UntranslatedStep(d, text, st) == Ok(st')
    requires d.Translate(PercentWord(text, st.p)) == PercentWord(text, st.p) && SpecialOf(PercentWord(text, st.p)) == Other
    ensures Advances(b, SourceRange(d, text, st.p, st'.p, n), st')
  {
    DateStep(d, text, st);
    UnknownPlace(d, text, st.p, n);
    if DateOrTimestamp(d, text, st.p) != Ok(None) {
      SimulateDate(d, text, b, n, st, st');
    } else if d.isOdbc {
      SimulateFunction(d, text, b, n, st);
    } else {
      SimulateStray(d, text, b, n, st, st');
    }
  }

  /** Its percent sign opens a brace if it is a bare name, and counts as nothing else. */
  lemma UnknownPlace(d: Dialect, text: string, p: nat, n: Nest)
    requires p < |text| && text[p] == '%' && Meets(n, p)
    requires d.Translate(PercentWord(text, p)) == PercentWord(text, p) && SpecialOf(PercentWord(text, p)) == Other
    ensures SourceRange(d, text, p, p + 1, n)
            == if d.isOdbc && LiteralKindAt(text, p).NoLiteral? && At(text, Skip(Alpha, text, p + 1)) != '(' then n.Push('{') else n
  {
    if IsBare(d, text, p) { BarePlace(d, text, p, n); } else { NotBare(d, text, p, n); }
  }

  lemma DateText(d: Dialect, text: string, p: nat, isDate: bool, out: Nest, piece: Piece)
    requires Clean(d) && Ready(out) && Yields(d, text, p, isDate, piece)
    ensures ScanAll(out, piece.text) == out
  {
    var a: nat, q: nat, r: nat, e: nat, t: nat :|
      IsDateCall(text, p, a, q, r, e, t) && IsTranslated(d, text, isDate, r, e, t, piece);
    ScanDateLiteral(d, isDate, d.dateText(text[r + 1..e], isDate).value, out);
  }

  /** A percent word other than an untranslated one appends what the brackets do not see. */
  lemma SpecialCases(d: Dialect, text: string, st: State, word: string, special: Special, q: nat)
    requires st.p < q <= |text| && st.Stacked()
    ensures special.Now? ==> SpecialStep(d, text, st, word, d.Translate(word), special, q) == NowStep(d, st, q)
    ensures special.TextTimestamp? ==>
              SpecialStep(d, text, st, word, d.Translate(word), special, q) ==
              match ArgumentList(d, text, q, 1)
              case Err(code) => Err(code)
              case Ok(args) => Ok(Append(st, args.1, d.TextTimestamp(args.0[0])))
    ensures special.SecondsDiff? ==>
              SpecialStep(d, text, st, word, d.Translate(word), special, q) ==
              match ArgumentList(d, text, q, 2)
              case Err(code) => Err(code)
              case Ok(args) => Ok(Append(st, args.1, d.SecondsDiff(args.0[0], args.0[1])))
    ensures special.Limit? && LimitAt(text, q).Err? ==>
              SpecialStep(d, text, st, word, d.Translate(word), special, q).Err?
    ensures special.Limit? && LimitAt(text, q).Ok? ==>
              SpecialStep(d, text, st, word, d.Translate(word), special, q) ==
              Ok(st.(p := LimitAt(text, q).value.1, limit := Some(LimitAt(text, q).value.0)))
    ensures special.UpdateLock? ==>
              SpecialStep(d, text, st, word, d.Translate(word), special, q) == Ok(st.(p := q, forUpdate := true))
    ensures special.Other? && d.Translate(word) != word ==>
              SpecialStep(d, text, st, word, d.Translate(word), special, q) == Ok(Append(st, q, d.Translate(word) + " "))
    ensures special.Other? && d.Translate(word) == word ==>
              SpecialStep(d, text, st, word, d.Translate(word), special, q) == UntranslatedStep(d, text, st)
  {
  }

  lemma SimulateAppend(d: Dialect, text: string, b: Nest, n: Nest, st: State, st': State, q: nat, piece: string)
    requires Advances(b, n, st) && st.p < q <= |text|
    requires st' == Append(st, q, piece) && ScanAll(ScanAll(b, st.result), piece) == ScanAll(b, st.result)
    requires SourceRange(d, text, st.p, q, n) == n
    ensures Advances(b, SourceRange(d, text, st.p, st'.p, n), st')
  {
    ScanConcat(b, st.result, piece);
  }

  lemma SimulateNow(d: Dialect, text: string, b: Nest, n: Nest, st: State, st': State, q: nat)
    requires Clean(d) && Ready(n) && Advances(b, n, st) && st.p < q <= |text|
    requires NowStep(d, st, q) == Ok(st') && SourceRange(d, text, st.p, q, n) == n
    ensures Advances(b, SourceRange(d, text, st.p, st'.p, n), st')
  {
    var out, date := ScanAll(b, st.result), d.dateText(d.now, false).value;
    ScanDateLiteral(d, false, date, out);
    ScanWithBlank(out, DateLiteral(d, false, date));
    SimulateAppend(d, text, b, n, st, st', q, DateLiteral(d, false, date) + " ");
  }

  lemma SimulateTranslated(d: Dialect, text: string, b: Nest, n: Nest, st: State, st': State, q: nat, word: string)
    requires Clean(d) && Ready(n) && Advances(b, n, st) && st.p < q <= |text|
    requires d.Translate(word) != word && st' == Append(st, q, d.Translate(word) + " ")
    requires SourceRange(d, text, st.p, q, n) == n
    ensures Advances(b, SourceRange(d, text, st.p, st'.p, n), st')
  {
    var out := ScanAll(b, st.result);
    TranslateNeutral(d, word, out);
    ScanWithBlank(out, d.Translate(word));
    SimulateAppend(d, text, b, n, st, st', q, d.Translate(word) + " ");
  }

  /** A row limit is remembered, and leaves no trace so far. */
  lemma SimulateLimit(d: Dialect, text: string, b: Nest, n: Nest, st: State, st': State, q: nat)
    requires Meets(n, q) && Advances(b, n, st) && st.p < q <= |text|
    requires SourceRange(d, text, st.p, q, n) == n && LimitAt(text, q).Ok?
    requires st' == st.(p := LimitAt(text, q).value.1, limit := Some(LimitAt(text, q).value.0))
    ensures Advances(b, SourceRange(d, text, st.p, st'.p, n), st')
  {
    SourceOfLimit(d, text, q, n);
    SourceJoin(d, text, st.p, q, st'.p, n);
  }

  /** A percent word the translator knows, without arguments. */
  lemma SimulateKnown(d: Dialect, text: string, b: Nest, n: Nest, st: State, st': State, special: Special, q: nat)
    requires Clean(d) && Meets(n, st.p) && Advances(b, n, st)
    requires st.p < |text| && text[st.p] == '%' && q == AfterPercentWord(text, st.p)
    requires var word := PercentWord(text, st.p);
             && special == SpecialOf(d.Translate(word)) && !special.TextTimestamp? && !special.SecondsDiff?
             && !(special.Other? && d.Translate(word) == word)
             && SpecialStep(d, text, st, word, d.Translate(word), special, q) == Ok(st')
    ensures Advances(b, SourceRange(d, text, st.p, st'.p, n), st')
  {
    var word := PercentWord(text, st.p);
    SpecialCases(d, text, st, word, special, q);
    NotBare(d, text, st.p, n);
    SourceAfterWord(d, text, st.p, n);
    match special
    case Now => SimulateNow(d, text, b, n, st, st', q);
    case Limit => SimulateLimit(d, text, b, n, st, st', q);
    case UpdateLock =>
    case Other => SimulateTranslated(d, text, b, n, st, st', q, word);
  }

  lemma {:induction false} SimulatePercent(d: Dialect, text: string, b: Nest, n: Nest, st: State, st': State)
    requires Clean(d) && Meets(n, st.p) && Advances(b, n, st)
    requires st.p < |text| && text[st.p] == '%' && ArgumentsFit(d, text, st.p) && PercentStep(d, text, st) == Ok(st')
    ensures Advances(b, SourceRange(d, text, st.p, st'.p, n), st')
    decreases |text|, 2
  {
    var word, q := PercentWord(text, st.p), AfterPercentWord(text, st.p);
    var special := SpecialOf(d.Translate(word));
    if special.Other? && d.Translate(word) == word {
      SpecialCases(d, text, st, word, Other, q);
      SimulateUntranslated(d, text, b, n, st, st');
    } else if special.TextTimestamp? || special.SecondsDiff? {
      SimulateArguments(d, text, b, n, st, st', special, q);
    } else {
      SimulateKnown(d, text, b, n, st, st', special, q);
    }
  }

  lemma WordInert(text: string, p: nat)
    requires p <= |text|
    ensures forall c <- text[p..Skip(Word, text, p)] :: Inert(c)
  {
    var word := text[p..Skip(Word, text, p)];
    SkipIsRun(Word, text, p);
    forall i | 0 <= i < |word| ensures Inert(word[i]) { assert Word.Has(text[p + i]); }
  }

  /** What a word writes that ends no limited statement, and up to where it is read. */
  lemma WordPiece(d: Dialect, text: string, changeWords: bool, st: State)
    requires st.p < |text| && IsAlpha(text[st.p]) && st.Stacked() && !EndsLimited(text, st, Skip(Word, text, st.p))
    ensures var e := Skip(Word, text, st.p);
            var word := text[st.p..e];
            WordStep(d, text, changeWords, st) ==
            Ok(if !changeWords || d.Translate(word) == word then Append(st, e, word)
               else if d.Translate(word) != "[double]" then Append(st, e, d.Translate(word))
               else Append(st, AfterPrecision(text, e), "DOUBLE"))
  {
    WordInert(text, st.p);
    var word := text[st.p..Skip(Word, text, st.p)];
    assert word != "[double]" by { assert |"[double]"| == 8 && "[double]"[0] == '['; assert |word| > 0 ==> Word.Has(text[st.p]); }
  }

  /** A word that ends no limited statement. */
  lemma SimulateWord(d: Dialect, text: string, changeWords: bool, b: Nest, n: Nest, st: State, st': State)
    requires Clean(d) && Meets(n, st.p) && Advances(b, n, st)
    requires st.p < |text| && IsAlpha(text[st.p]) && !st.inString && !st.inIdentifier && PlaceFits(d, text, changeWords, st)
    requires !EndsLimited(text, st, Skip(Word, text, st.p)) && WordStep(d, text, changeWords, st) == Ok(st')
    ensures Advances(b, SourceRange(d, text, st.p, st'.p, n), st')
  {
    var e, out := Skip(Word, text, st.p), ScanAll(b, st.result);
    var word := text[st.p..e];
    WordPiece(d, text, changeWords, st);
    SourceSkip(d, text, Word, st.p, n);
    if !changeWords || d.Translate(word) == word {
      WordInert(text, st.p);
      ScanInert(out, word);
      SimulateAppend(d, text, b, n, st, st', e, word);
    } else if d.Translate(word) != "[double]" {
      TranslateNeutral(d, word, out);
      SimulateAppend(d, text, b, n, st, st', e, d.Translate(word));
    } else {
      SimulateDouble(d, text, b, n, st, st', e);
    }
  }

  lemma SimulateDouble(d: Dialect, text: string, b: Nest, n: Nest, st: State, st': State, e: nat)
    requires Meets(n, st.p) && Advances(b, n, st) && st.p < e <= |text|
    requires SourceRange(d, text, st.p, e, n) == n && st' == Append(st, AfterPrecision(text, e), "DOUBLE")
    requires At(text, e) == '(' ==> At(text, Skip(Precision, text, e + 1)) == ')'
    ensures Advances(b, SourceRange(d, text, st.p, st'.p, n), st')
  {
    ScanInert(ScanAll(b, st.result), "DOUBLE");
    SourceOfPrecision(d, text, e, n);
    SourceJoin(d, text, st.p, e, st'.p, n);
    SimulateAppend(d, text, b, n, st, st', st'.p, "DOUBLE");
  }

  /** A step within one statement of a chain of set operations only adds to the result. */
  predicate Extends(st: State, r: Result<State>) {
    r.Ok? ==> st.result <= r.value.result && r.value.done == st.done && (st.limit.Some? ==> r.value.limit.Some?)
  }

  lemma SpecialExtends(d: Dialect, text: string, st: State, word: string, newWord: string, special: Special, q: nat)
    requires st.p < q <= |text| && st.Stacked()
    ensures Extends(st, SpecialStep(d, text, st, word, newWord, special, q))
  {
  }

  lemma PercentExtends(d: Dialect, text: string, st: State)
    requires st.Stacked() && st.p < |text| && text[st.p] == '%'
    ensures Extends(st, PercentStep(d, text, st))
  {
    var word := PercentWord(text, st.p);
    SpecialExtends(d, text, st, word, d.Translate(word), SpecialOf(d.Translate(word)), AfterPercentWord(text, st.p));
  }

  lemma StepExtends(d: Dialect, text: string, changeWords: bool, st: State)
    requires st.Stacked() && st.p < |text| && !AtLimitedEnd(text, st)
    ensures Extends(st, Step(d, text, changeWords, st))
  {
    if text[st.p] == '%' { PercentExtends(d, text, st); }
  }

  lemma NoQuoteInEscapeChar(c: char)
    requires c != '\''
    ensures '\'' !in EscapeChar(c)
  {
  }

  lemma {:induction false} NoQuoteInEscape(s: string)
    requires forall i :: 0 <= i < |s| ==> s[i] != '\''
    ensures '\'' !in Escape(s)
  {
    if s != [] {
      var front, last := Escape(s[..|s| - 1]), EscapeChar(s[|s| - 1]);
      NoQuoteInEscape(s[..|s| - 1]);
      NoQuoteInEscapeChar(s[|s| - 1]);
      assert Escape(s) == front + last;
    }
  }

  lemma SimulateEscape(d: Dialect, text: string, b: Nest, n: Nest, st: State, st': State)
    requires n.ok && n.inString && Advances(b, n, st) && st.p < |text| && text[st.p] != '\''
    requires st' == Append(st, QuoteAt(text, st.p), Escape(text[st.p..QuoteAt(text, st.p)]))
    ensures Advances(b, SourceRange(d, text, st.p, st'.p, n), st')
  {
    var e, out := QuoteAt(text, st.p), ScanAll(b, st.result);
    QuoteAtIsFirst(text, st.p);
    SourceInString(d, text, st.p, e, n);
    forall i | 0 <= i < e - st.p ensures text[st.p..e][i] != '\'' { assert text[st.p..e][i] in text[st.p..e]; }
    NoQuoteInEscape(text[st.p..e]);
    ScanInString(out, Escape(text[st.p..e]));
    ScanConcat(b, st.result, Escape(text[st.p..e]));
  }

  /** A bracket, an operator, or any other character. */
  lemma SimulateOther(d: Dialect, text: string, changeWords: bool, b: Nest, n: Nest, st: State, st': State)
    requires Clean(d) && st.p < |text| && Meets(n, st.p) && Advances(b, n, st)
    requires text[st.p] != '\'' && !IsIdentifierQuote(text[st.p]) && text[st.p] != '%' && !IsAlpha(text[st.p])
    requires Step(d, text, changeWords, st) == Ok(st')
    ensures Simulates(ScanAll(b, st'.result), SourceRange(d, text, st.p, st'.p, n), st')
    ensures text[st.p] != ')' && text[st.p] != '}' ==> SourceRange(d, text, st.p, st'.p, n).ok
  {
    var c, out := text[st.p], ScanAll(b, st.result);
    if c != ')' { OtherStep(d, text, changeWords, st); }
    if c == '|' && At(text, st.p + 1) == '|' {
      SourceInert(d, text, st.p, st.p + 2, n);
      ScanNeutral(out, d.concatOperator);
      SimulateAppend(d, text, b, n, st, st', st.p + 2, d.concatOperator);
    } else if c == '(' {
      ScanConcat(b, st.result, "(");
      SimulateOpen(d, text, out, n, st, st');
    } else if c == ')' {
      CloseStep(d, text, changeWords, st);
      ScanConcat(b, st.result, Closing(ClosesFunction(st)));
      SimulateClose(d, text, out, n, st);
    } else {
      ScanConcat(b, st.result, [c]);
      SimulateChar(d, text, out, n, st, st', c);
    }
  }

  lemma OtherStep(d: Dialect, text: string, changeWords: bool, st: State)
    requires st.p < |text| && st.Stacked() && !st.inString && !st.inIdentifier
    requires text[st.p] != '\'' && !IsIdentifierQuote(text[st.p]) && text[st.p] != '%' && !IsAlpha(text[st.p]) && text[st.p] != ')'
    ensures var c, step := text[st.p], Step(d, text, changeWords, st);
            step == if c == '|' && At(text, st.p + 1) == '|' then Ok(Append(st, st.p + 2, d.concatOperator))
                    else if c == '(' then Ok(Append(st, st.p + 1, "(").(klammern := st.klammern + 1, fns := st.fns + [false]))
                    else Ok(Append(st, st.p + 1, [c]))
  {
  }

  /** One step outside literals and quoted identifiers. */
  lemma {:induction false} SimulateCode(d: Dialect, text: string, changeWords: bool, b: Nest, n: Nest, st: State, st': State)
    requires Clean(d) && st.p < |text| && PlaceFits(d, text, changeWords, st)
    requires Meets(n, st.p) && Advances(b, n, st) && !AtLimitedEnd(text, st)
    requires text[st.p] != '\'' && !IsIdentifierQuote(text[st.p])
    requires Step(d, text, changeWords, st) == Ok(st')
    ensures Simulates(ScanAll(b, st'.result), SourceRange(d, text, st.p, st'.p, n), st')
    ensures text[st.p] != ')' && text[st.p] != '}' ==> SourceRange(d, text, st.p, st'.p, n).ok
    decreases |text|, 3
  {
    if text[st.p] == '%' {
      SimulatePercent(d, text, b, n, st, st');
    } else if IsAlpha(text[st.p]) {
      SimulateWord(d, text, changeWords, b, n, st, st');
    } else {
      SimulateOther(d, text, changeWords, b, n, st, st');
    }
  }

  lemma {:induction false} SimulateStep(d: Dialect, text: string, changeWords: bool, b: Nest, n: Nest, st: State, st': State)
    requires Clean(d) && st.p < |text| && PlaceFits(d, text, changeWords, st)
    requires n.ok && Advances(b, n, st) && !AtLimitedEnd(text, st)
    requires Step(d, text, changeWords, st) == Ok(st')
    ensures Simulates(ScanAll(b, st'.result), SourceRange(d, text, st.p, st'.p, n), st')
    ensures !n.InCode() || (text[st.p] != ')' && text[st.p] != '}') ==> SourceRange(d, text, st.p, st'.p, n).ok
    decreases |text|, 4
  {
    var c := text[st.p];
    if c != '\'' && st.inString && d.dbms.MySql? {
      SimulateEscape(d, text, b, n, st, st');
    } else if c == '\'' || !n.InCode() || IsIdentifierQuote(c) {
      var w := st'.result[|st.result|];
      assert st'.result == st.result + [w];
      ScanConcat(b, st.result, [w]);
      SimulateQuoted(d, text, ScanAll(b, st.result), n, st, st', w);
    } else {
      SimulateCode(d, text, changeWords, b, n, st, st');
    }
  }

  // ----- between set operators behind row limits

  /** What has been written behind `b` has the brackets of what has been read; if those are wrong,
      so are these. */
  ghost predicate Follows(b: Nest, n: Nest, st: State) {
    && st.Stacked() && n.resume <= st.p
    && (n.ok ==> Simulates(ScanAll(b, st.result), n, st))
    && (!n.ok ==> !ScanAll(b, st.result).ok)
  }

  lemma {:induction false} FollowStep(d: Dialect, text: string, changeWords: bool, b: Nest, n: Nest, st: State, st': State)
    requires Clean(d) && st.p < |text| && PlaceFits(d, text, changeWords, st) && Follows(b, n, st)
    requires !AtLimitedEnd(text, st) && Step(d, text, changeWords, st) == Ok(st')
    ensures Follows(b, SourceRange(d, text, st.p, st'.p, n), st')
    decreases |text|, 5
  {
    if n.ok {
      SimulateStep(d, text, changeWords, b, n, st, st');
    } else {
      StepExtends(d, text, changeWords, st);
      SourceWrong(d, text, st.p, st'.p, n);
      var piece := st'.result[|st.result|..];
      assert st'.result == st.result + piece;
      ScanConcat(b, st.result, piece);
      ScanWrong(ScanAll(b, st.result), piece);
    }
  }

  lemma ScanChain(b: Nest, limited: string, word: string)
    requires forall c <- word :: Inert(c)
    ensures ScanAll(b, limited + " " + word + " ") == ScanAll(b, limited)
  {
    var out := ScanAll(b, limited);
    ScanConcat(b, limited, " ");
    ScanInert(out, " ");
    ScanConcat(b, limited + " ", word);
    ScanInert(out, word);
    ScanConcat(b, limited + " " + word, " ");
  }

  lemma LimitedStep(d: Dialect, text: string, changeWords: bool, st: State, st': State)
    requires st.p < |text| && st.Stacked() && AtLimitedEnd(text, st) && Step(d, text, changeWords, st) == Ok(st')
    ensures WordStep(d, text, changeWords, st) == Ok(st')
  {
  }

  lemma LimitedWord(d: Dialect, text: string, changeWords: bool, st: State, st': State)
    requires st.p < |text| && st.Stacked() && AtLimitedEnd(text, st) && WordStep(d, text, changeWords, st) == Ok(st')
    ensures d.Limited(st.result, st.limit.value).Some?
    ensures var e := Skip(Word, text, st.p);
            st' == st.(p := e, done := st.done + d.Limited(st.result, st.limit.value).value + " " + text[st.p..e] + " ",
                       result := "", limit := None)
  {
  }

  lemma ScanDone(done: string, limited: string, word: string)
    requires forall c <- word :: Inert(c)
    ensures ScanAll(EMPTY, done + limited + " " + word + " ") == ScanAll(ScanAll(EMPTY, done), limited)
  {
    ScanChain(ScanAll(EMPTY, done), limited, word);
    ScanConcat(EMPTY, done, limited + " " + word + " ");
    assert done + limited + " " + word + " " == done + (limited + " " + word + " ");
  }

  /** What is done behind a set operator ends with the limited statement, as far as brackets go. */
  lemma LimitedEnd(d: Dialect, text: string, changeWords: bool, st: State, st': State)
    requires st.p < |text| && st.Stacked() && AtLimitedEnd(text, st) && Step(d, text, changeWords, st) == Ok(st')
    ensures d.Limited(st.result, st.limit.value).Some?
    ensures st' == st.(p := Skip(Word, text, st.p), done := st'.done, result := "", limit := None)
    ensures ScanAll(EMPTY, st'.done) == ScanAll(ScanAll(EMPTY, st.done), d.Limited(st.result, st.limit.value).value)
  {
    LimitedStep(d, text, changeWords, st, st');
    LimitedWord(d, text, changeWords, st, st');
    WordInert(text, st.p);
    ScanDone(st.done, d.Limited(st.result, st.limit.value).value, text[st.p..Skip(Word, text, st.p)]);
  }

  lemma ScanFinished(done: string, piece: string, forUpdate: bool)
    ensures var suffix := if forUpdate then "  FOR UPDATE" else "";
            ScanAll(EMPTY, done + piece + suffix) == ScanAll(ScanAll(EMPTY, done), piece)
  {
    var suffix := if forUpdate then "  FOR UPDATE" else "";
    ScanConcat(EMPTY, done, piece);
    ScanConcat(EMPTY, done + piece, suffix);
    ScanInert(ScanAll(EMPTY, done + piece), suffix);
  }

  lemma ClosedAlike(out: Nest, n: Nest, st: State)
    requires Simulates(out, n, st)
    ensures out.Closed() <==> n.Closed()
  {
    if n.ok && n.stack != [] {
      var c := n.stack[|n.stack| - 1];
      assert c == '(' || c == '{';
    }
  }

  // ----- databases that write limits into the statement

  lemma LimitedKeepsBrackets(d: Dialect, b: Nest, s: string, limit: nat)
    requires !Wraps(d) && d.Limited(s, limit).Some?
    ensures ScanAll(b, d.Limited(s, limit).value) == ScanAll(b, s)
  {
    LimitInserts(d, s, limit);
    InsertsKeepBrackets(b, s, d.Limited(s, limit).value);
  }

  /** A set operator behind a limit changes nothing in what has been written so far. */
  lemma FollowLimitedEnd(d: Dialect, text: string, changeWords: bool, n: Nest, st: State, st': State)
    requires !Wraps(d) && st.p < |text| && Follows(ScanAll(EMPTY, st.done), n, st)
    requires AtLimitedEnd(text, st) && Step(d, text, changeWords, st) == Ok(st')
    ensures Follows(ScanAll(EMPTY, st'.done), SourceRange(d, text, st.p, st'.p, n), st')
  {
    LimitedEnd(d, text, changeWords, st, st');
    LimitedKeepsBrackets(d, ScanAll(EMPTY, st.done), st.result, st.limit.value);
    SourceSkip(d, text, Word, st.p, n);
  }

  lemma {:induction false} FollowSteps(d: Dialect, text: string, changeWords: bool, n: Nest, st: State)
    requires Clean(d) && !Wraps(d) && st.p <= |text| && st.Stacked() && Walkable(d, text, changeWords, st)
    requires Follows(ScanAll(EMPTY, st.done), n, st) && Steps(d, text, changeWords, st).Ok?
    ensures var end := Steps(d, text, changeWords, st).value;
            Follows(ScanAll(EMPTY, end.done), SourceRange(d, text, st.p, |text|, n), end)
    decreases |text|, 6, |text| - st.p
  {
    if st.p < |text| {
      var st' := Step(d, text, changeWords, st).value;
      if AtLimitedEnd(text, st) {
        FollowLimitedEnd(d, text, changeWords, n, st, st');
      } else {
        StepExtends(d, text, changeWords, st);
        FollowStep(d, text, changeWords, ScanAll(EMPTY, st.done), n, st, st');
      }
      FollowSteps(d, text, changeWords, SourceRange(d, text, st.p, st'.p, n), st');
      SourceSplit(d, text, st.p, st'.p, |text|, n);
    }
  }

  lemma FinishFollows(d: Dialect, st: State, n: Nest)
    requires !Wraps(d) && Follows(ScanAll(EMPTY, st.done), n, st) && Finish(d, st).Ok?
    ensures Nested(Finish(d, st).value) <==> n.Closed()
  {
    var b := ScanAll(EMPTY, st.done);
    ScanFinished(st.done, st.result, st.forUpdate);
    if n.ok { ClosedAlike(ScanAll(b, st.result), n, st); }
    if st.limit.Some? {
      LimitedKeepsBrackets(d, b, st.result, st.limit.value);
      ScanFinished(st.done, d.Limited(st.result, st.limit.value).value, st.forUpdate);
    }
  }

  // ----- databases that put limited statements into parentheses

  /** In every part, the output follows the source, and, between parentheses, it follows the source
      between parentheses; `inner` is the state as it were there. It is the state itself once that
      parenthesis has been closed, which only a statement with a wrong bracket does. */
  ghost predicate Parted(n: Nest, m: Nest, st: State, inner: State) {
    && ScanAll(EMPTY, st.done) == EMPTY
    && Follows(EMPTY, n, st) && Follows(Code("("), m, inner)
    && (inner == st || inner == Inner(st))
    && (n.ok ==> inner == Inner(st) && m == Behind(n))
    && (m.ok && inner == Inner(st) ==> n.ok)
  }

  lemma FreshPart(n: Nest, st: State)
    requires ScanAll(EMPTY, st.done) == EMPTY && st.Stacked() && st.fns == [] && st.result == ""
    requires !st.inString && !st.inIdentifier && n.Closed() && n.resume <= st.p
    ensures Parted(n, n.Push('('), st, Inner(st))
  {
    assert ScanAll(EMPTY, "") == EMPTY && ScanAll(Code("("), "") == Code("(");
    assert "(" + n.stack == n.stack + ['('];
    assert [false] + st.fns == [false];
    FlattenPush([], [], '(', false);
    assert [] + ['('] == "(" && [] + [false] == [false];
  }

  /** A bracket that is wrong is so between parentheses too, unless it closes the first of them. */
  lemma WrongBehind(d: Dialect, text: string, n: Nest, st: State)
    requires n.ok && st.p < |text| && Meets(n, st.p) && (text[st.p] == ')' || text[st.p] == '}')
    requires !SourceRange(d, text, st.p, st.p + 1, n).ok && (text[st.p] == ')' ==> n.stack != [])
    ensures !SourceRange(d, text, st.p, st.p + 1, Behind(n)).ok
  {
    SourceOne(d, text, st.p, n);
    SourceOne(d, text, st.p, Behind(n));
  }

  lemma SingleStep(d: Dialect, text: string, changeWords: bool, st: State)
    requires st.p < |text| && st.Stacked() && !st.inString && !st.inIdentifier && (text[st.p] == ')' || text[st.p] == '}')
    ensures Step(d, text, changeWords, st).Ok? && Step(d, text, changeWords, st).value.p == st.p + 1
  {
    if text[st.p] == ')' { CloseStep(d, text, changeWords, st); }
  }

  lemma NoParens(stack: string, fns: seq<bool>)
    requires Parens(stack) == |fns|
    ensures fns == [] && stack != [] ==> stack[|stack| - 1] != '('
    ensures stack == [] ==> fns == []
  {
  }

  /** The state between parentheses after the next step. */
  function InnerAfter(text: string, st: State, st': State, inner: State): State
    requires st.p < |text|
  {
    if inner == st || (AtClose(text, st) && st.fns == []) then st' else Inner(st')
  }

  lemma InnerSteps(d: Dialect, text: string, changeWords: bool, n: Nest, m: Nest, st: State, st': State, inner: State)
    requires st.p < |text| && Parted(n, m, st, inner) && !AtLimitedEnd(text, st) && Step(d, text, changeWords, st) == Ok(st')
    ensures !AtLimitedEnd(text, inner) && Step(d, text, changeWords, inner) == Ok(InnerAfter(text, st, st', inner))
  {
    StepInside(d, text, changeWords, st);
  }

  lemma {:induction false} PartStep(d: Dialect, text: string, changeWords: bool, n: Nest, m: Nest, st: State, st': State, inner: State)
    requires Clean(d) && st.p < |text| && PlaceFits(d, text, changeWords, st) && Parted(n, m, st, inner)
    requires !AtLimitedEnd(text, st) && Step(d, text, changeWords, st) == Ok(st')
    ensures Parted(SourceRange(d, text, st.p, st'.p, n), SourceRange(d, text, st.p, st'.p, m), st', InnerAfter(text, st, st', inner))
    decreases |text|, 6
  {
    var inner' := InnerAfter(text, st, st', inner);
    StepExtends(d, text, changeWords, st);
    InnerSteps(d, text, changeWords, n, m, st, st', inner);
    FollowStep(d, text, changeWords, EMPTY, n, st, st');
    FollowStep(d, text, changeWords, Code("("), m, inner, inner');
    if n.ok {
      StepBehind(d, text, changeWords, n, st, st');
    } else {
      SourceWrong(d, text, st.p, st'.p, n);
      if !m.ok { SourceWrong(d, text, st.p, st'.p, m); }
    }
  }

  /** From right brackets on, those behind a parenthesis are right as well, or wrong as well, or that
      parenthesis is the one that closes. */
  lemma {:induction false} StepBehind(d: Dialect, text: string, changeWords: bool, n: Nest, st: State, st': State)
    requires Clean(d) && st.p < |text| && PlaceFits(d, text, changeWords, st) && n.ok && Follows(EMPTY, n, st)
    requires !AtLimitedEnd(text, st) && Step(d, text, changeWords, st) == Ok(st')
    ensures var n', m' := SourceRange(d, text, st.p, st'.p, n), SourceRange(d, text, st.p, st'.p, Behind(n));
            && (n'.ok ==> m' == Behind(n') && !(AtClose(text, st) && st.fns == []))
            && (!n'.ok ==> !m'.ok || (AtClose(text, st) && st.fns == []))
    decreases |text|, 5
  {
    SimulateStep(d, text, changeWords, EMPTY, n, st, st');
    if SourceRange(d, text, st.p, st'.p, n).ok {
      SourceBehind(d, text, st.p, st'.p, n);
      if AtClose(text, st) && st.fns == [] {
        CloseStep(d, text, changeWords, st);
        SourceCloses(d, text, st.p, n);
        NoParens(n.stack, st.fns);
        assert false;
      }
    } else {
      SingleStep(d, text, changeWords, st);
      NoParens(n.stack, st.fns);
      if !(AtClose(text, st) && st.fns == []) { WrongBehind(d, text, n, st); }
    }
  }

  lemma FlattenIsOne(stack: string, fns: seq<bool>)
    requires Parens(stack) == |fns| && forall i :: 0 <= i < |stack| ==> stack[i] == '(' || stack[i] == '{'
    ensures Flatten(stack, fns) == "(" <==> stack == "(" && fns == [false]
  {
    if stack != [] {
      var n := |stack| - 1;
      if n > 0 { FlattenTop(stack[..n], if stack[n] == '(' then fns[..|fns| - 1] else fns); }
      assert stack == stack[..n] + [stack[n]];
    }
  }

  lemma ClosesOne(out: Nest)
    ensures Scan(out, ')').Closed() <==> Ready(out) && out.stack == "("
  {
    if out.stack != [] && out.stack[|out.stack| - 1] == '(' {
      var rest := out.stack[..|out.stack| - 1];
      assert out.stack == rest + "(";
      assert rest == [] <==> out.stack == "(";
    }
  }

  /** The one parenthesis that is open is no function's. */
  lemma OneIsPlain(st: State, inner: State)
    requires st.Stacked() && (inner == st || inner == Inner(st)) && |inner.fns| == 1
    ensures true !in st.fns <==> inner.fns == [false]
  {
    assert inner.fns == [inner.fns[0]];
    if inner == Inner(st) {
      assert |inner.fns| == |st.fns| + 1 && st.fns == [];
      assert inner.fns[0] == false;
    } else if true !in st.fns {
      assert st.fns[0] in st.fns;
      assert !st.fns[0];
    }
  }

  /** The parenthesis that closes finds the one that opened on top. */
  lemma ParenthesesClose(m: Nest, st: State, inner: State)
    requires Follows(Code("("), m, inner) && st.Stacked() && (inner == st || inner == Inner(st))
    ensures Scan(ScanAll(Code("("), st.result), ')').Closed() <==> InParentheses(m, st)
  {
    ClosesOne(ScanAll(Code("("), st.result));
    assert inner.result == st.result;
    if m.ok {
      FlattenIsOne(m.stack, inner.fns);
      if m.stack == "(" {
        assert Parens("(") == 1 by { assert "("[..0] == []; }
        OneIsPlain(st, inner);
      }
    }
  }

  /** At a set operator, the program's parentheses close exactly if nothing is open and nothing was
      wrong; else they make a wrong bracket. */
  lemma PartCloses(n: Nest, m: Nest, st: State, inner: State)
    requires Parted(n, m, st, inner) && st.fns == [] && !st.inString && !st.inIdentifier
    ensures var wrapped := Scan(ScanAll(Code("("), st.result), ')');
            if n.ok && n.stack == [] then n.Closed() && wrapped == EMPTY else !wrapped.ok
  {
    var out := ScanAll(Code("("), inner.result);
    ScanKeepsResume(Code("("), inner.result);
    if m.ok {
      if n.ok { NoParens(n.stack, st.fns); }
      NoParens(m.stack, inner.fns);
      FlattenTop(m.stack, inner.fns);
      if inner == Inner(st) {
        assert Flatten("(", [false]) == "(" by { assert "("[..0] == [] && [false][..0] == []; }
        if n.stack != [] { assert m.stack[|m.stack| - 1] == n.stack[|n.stack| - 1]; }
      }
    }
  }

  lemma {:induction false} DoneStaysWrong(d: Dialect, text: string, changeWords: bool, st: State)
    requires st.p <= |text| && st.Stacked() && !ScanAll(EMPTY, st.done).ok && Steps(d, text, changeWords, st).Ok?
    ensures var end := Steps(d, text, changeWords, st).value;
            Finish(d, end).Ok? ==> !Nested(Finish(d, end).value)
    decreases |text| - st.p
  {
    var b := ScanAll(EMPTY, st.done);
    if st.p == |text| {
      ScanFinished(st.done, st.result, st.forUpdate);
      ScanWrong(b, st.result);
      if st.limit.Some? && Finish(d, st).Ok? {
        ScanFinished(st.done, d.Limited(st.result, st.limit.value).value, st.forUpdate);
        ScanWrong(b, d.Limited(st.result, st.limit.value).value);
      }
    } else {
      var st' := Step(d, text, changeWords, st).value;
      if AtLimitedEnd(text, st) {
        LimitedEnd(d, text, changeWords, st, st');
        ScanWrong(b, d.Limited(st.result, st.limit.value).value);
      } else {
        StepExtends(d, text, changeWords, st);
      }
      DoneStaysWrong(d, text, changeWords, st');
    }
  }

  lemma FinishParted(d: Dialect, n: Nest, m: Nest, st: State, inner: State)
    requires Wraps(d) && Parted(n, m, st, inner)
    ensures Finish(d, st).Ok?
    ensures Nested(Finish(d, st).value) <==> if st.limit.Some? then InParentheses(m, st) else n.Closed()
  {
    if st.limit.None? {
      ScanFinished(st.done, st.result, st.forUpdate);
      if n.ok { ClosedAlike(ScanAll(EMPTY, st.result), n, st); }
    } else {
      ScanFinished(st.done, d.Limited(st.result, st.limit.value).value, st.forUpdate);
      WrappedScan(d, st.result, st.limit.value);
      ParenthesesClose(m, st, inner);
    }
  }

  /** A set operator behind a limit starts a new part, if the one before it nests; else nothing makes
      the output right again. */
  lemma PartLimitedEnd(d: Dialect, text: string, changeWords: bool, n: Nest, m: Nest, st: State, st': State, inner: State)
    requires Wraps(d) && st.p < |text| && Parted(n, m, st, inner)
    requires AtLimitedEnd(text, st) && Step(d, text, changeWords, st) == Ok(st')
    ensures var n' := SourceRange(d, text, st.p, st'.p, n);
            && n' == n
            && if n.ok && n.stack == [] then Parted(n', n'.Push('('), st', Inner(st')) else !ScanAll(EMPTY, st'.done).ok
  {
    LimitedEnd(d, text, changeWords, st, st');
    WrappedScan(d, st.result, st.limit.value);
    SourceSkip(d, text, Word, st.p, n);
    PartCloses(n, m, st, inner);
    if n.ok && n.stack == [] { FreshPart(n, st'); }
  }

  lemma {:induction false} PartSteps(d: Dialect, text: string, changeWords: bool, n: Nest, m: Nest, st: State, inner: State)
    requires Clean(d) && Wraps(d) && st.p <= |text| && st.Stacked() && Walkable(d, text, changeWords, st)
    requires Parted(n, m, st, inner) && Steps(d, text, changeWords, st).Ok?
    ensures var end := Steps(d, text, changeWords, st).value;
            Finish(d, end).Ok? ==> (Nested(Finish(d, end).value) <==> PartsNest(d, text, changeWords, st, n, m))
    decreases |text|, 7, |text| - st.p
  {
    if st.p == |text| {
      FinishParted(d, n, m, st, inner);
    } else {
      var st' := Step(d, text, changeWords, st).value;
      var n' := SourceRange(d, text, st.p, st'.p, n);
      if AtLimitedEnd(text, st) {
        PartLimitedEnd(d, text, changeWords, n, m, st, st', inner);
        if n.ok && n.stack == [] {
          PartSteps(d, text, changeWords, n', n'.Push('('), st', Inner(st'));
        } else {
          DoneStaysWrong(d, text, changeWords, st');
        }
      } else {
        PartStep(d, text, changeWords, n, m, st, st', inner);
        PartSteps(d, text, changeWords, n', SourceRange(d, text, st.p, st'.p, m), st', InnerAfter(text, st, st', inner));
      }
    }
  }

  // ----- whole statements

  /** The brackets of a translation nest if and only if those of the source do, as it is sent. */
  lemma {:induction false} TranslationNestsIff(d: Dialect, text: string)
    requires Clean(d) && Fits(d, text) && Convert(d, text).Ok?
    ensures Nested(Convert(d, text).value) <==> NestsAsSent(d, text)
    decreases |text|, 8
  {
    var p := Skip(Space, text, 0);
    var changeWords, start := ChangesWords(text, p), Start(p);
    SourceSkip(d, text, Space, 0, EMPTY);
    SourceSplit(d, text, 0, p, |text|, EMPTY);
    FreshPart(EMPTY, start);
    assert [] + ['('] == "(";
    if p < |text| {
      if Wraps(d) {
        PartSteps(d, text, changeWords, EMPTY, Code("("), start, Inner(start));
      } else {
        FollowSteps(d, text, changeWords, EMPTY, start);
        FinishFollows(d, Steps(d, text, changeWords, start).value, SourceRange(d, text, p, |text|, EMPTY));
      }
    }
  }

  /** If the brackets of the source are right, or no limit is pending at the end, the parts nest if and
      only if the whole does and none is open at a set operator behind a limit. */
  lemma {:induction false} RightPartsNest(d: Dialect, text: string, changeWords: bool, n: Nest, m: Nest, st: State, inner: State)
    requires Clean(d) && Wraps(d) && st.p <= |text| && st.Stacked() && Walkable(d, text, changeWords, st)
    requires Parted(n, m, st, inner) && Steps(d, text, changeWords, st).Ok?
    requires SourceRange(d, text, st.p, |text|, n).ok || Steps(d, text, changeWords, st).value.limit.None?
    ensures PartsNest(d, text, changeWords, st, n, m) <==>
            SourceRange(d, text, st.p, |text|, n).Closed() && NoneOpenAtLimits(d, text, changeWords, st, n)
    decreases |text| - st.p
  {
    if st.p == |text| {
      if st.limit.Some? { EndsBehind(n, m, st, inner); }
    } else {
      var st' := Step(d, text, changeWords, st).value;
      var n' := SourceRange(d, text, st.p, st'.p, n);
      SourceSplit(d, text, st.p, st'.p, |text|, n);
      if AtLimitedEnd(text, st) {
        PartLimitedEnd(d, text, changeWords, n, m, st, st', inner);
        if n.ok && n.stack == [] {
          RightPartsNest(d, text, changeWords, n', n'.Push('('), st', Inner(st'));
        } else if !n.ok {
          SourceWrong(d, text, st.p, |text|, n);
        }
      } else {
        PartStep(d, text, changeWords, n, m, st, st', inner);
        RightPartsNest(d, text, changeWords, n', SourceRange(d, text, st.p, st'.p, m), st', InnerAfter(text, st, st', inner));
      }
    }
  }

  lemma EndsBehind(n: Nest, m: Nest, st: State, inner: State)
    requires Parted(n, m, st, inner) && n.ok
    ensures InParentheses(m, st) <==> n.Closed()
  {
    assert "(" + n.stack == "(" ==> n.stack == [];
    if n.stack == [] { NoParens(n.stack, st.fns); }
  }

  /** What that means for the source as a whole. Only a statement with a wrong bracket, in whose last
      part a limit is pending, may nest as it is sent and not in the source. */
  lemma TranslationNestsIffSourceDoes(d: Dialect, text: string)
    requires Clean(d) && Fits(d, text) && Convert(d, text).Ok?
    ensures !Wraps(d) ==> (Nested(Convert(d, text).value) <==> SourceNested(d, text))
    ensures Wraps(d) && (BracketsRight(d, text) || !LimitAtEnd(d, text)) ==>
              (Nested(Convert(d, text).value) <==> SourceNested(d, text) && NoBraceAcross(d, text))
    ensures SourceNested(d, text) && NoBraceAcross(d, text) ==> Nested(Convert(d, text).value)
  {
    TranslationNestsIff(d, text);
    if Wraps(d) && (BracketsRight(d, text) || !LimitAtEnd(d, text)) {
      var p := Skip(Space, text, 0);
      var changeWords, start := ChangesWords(text, p), Start(p);
      SourceSkip(d, text, Space, 0, EMPTY);
      SourceSplit(d, text, 0, p, |text|, EMPTY);
      FreshPart(EMPTY, start);
      assert [] + ['('] == "(";
      RightPartsNest(d, text, changeWords, EMPTY, Code("("), start, Inner(start));
    }
  }
}
