/** Which statements the nesting of brackets is looked at for, along the program's own steps, and
    what row limits make of it. */
module OdbcStatements {
  import opened BracketParts
  import opened Brackets
  import opened LimitParts
  import opened SqlChars
  import opened SqlDialect
  import opened StmtSpec

  /** A set operator ends a statement with a row limit. */
  predicate EndsLimited(text: string, st: State, e: nat)
    requires st.p <= e <= |text|
  {
    st.limit.Some? && st.klammern == 0 && IsSetOperator(text[st.p..e])
  }

  /** The step at a set operator behind a row limit. */
  predicate AtLimitedEnd(text: string, st: State)
    requires st.p < |text|
  {
    !st.inString && !st.inIdentifier && IsAlpha(text[st.p]) && EndsLimited(text, st, Skip(Word, text, st.p))
  }

  // ----- when the brackets nest

  /** A part of a statement that is put into the program's parentheses. `m` is its scan behind the
      one that opens; the one that closes must find that, and no function's, on top. */
  predicate InParentheses(m: Nest, st: State) {
    Ready(m) && m.stack == "(" && true !in st.fns
  }

  /** Every part of the statement with a row limit nests: by itself in front of a set operator,
      between the program's parentheses at the end. `n` is the scan of the source so far, `m` that of
      its last part behind a parenthesis. */
  predicate PartsNest(d: Dialect, text: string, changeWords: bool, st: State, n: Nest, m: Nest)
    requires st.p <= |text| && st.Stacked()
    decreases |text| - st.p
  {
    if st.p == |text| then if st.limit.Some? then InParentheses(m, st) else n.Closed()
    else
      match Step(d, text, changeWords, st)
      case Err(_) => false
      case Ok(next) =>
        var n' := SourceRange(d, text, st.p, next.p, n);
        if AtLimitedEnd(text, st) then n.ok && n.stack == [] && PartsNest(d, text, changeWords, next, n', n'.Push('('))
        else PartsNest(d, text, changeWords, next, n', SourceRange(d, text, st.p, next.p, m))
  }

  /** The source nests, where a database that wants limited statements in parentheses has them. */
  predicate NestsAsSent(d: Dialect, text: string) {
    if Wraps(d) then
      var p := Skip(Space, text, 0);
      PartsNest(d, text, ChangesWords(text, p), Start(p), EMPTY, Code("("))
    else SourceNested(d, text)
  }

  /** No bracket is open at any set operator behind a row limit. */
  predicate NoneOpenAtLimits(d: Dialect, text: string, changeWords: bool, st: State, n: Nest)
    requires st.p <= |text| && st.Stacked()
    decreases |text| - st.p
  {
    st.p < |text| && Step(d, text, changeWords, st).Ok? ==>
      var next := Step(d, text, changeWords, st).value;
      && (AtLimitedEnd(text, st) ==> n.stack == [])
      && NoneOpenAtLimits(d, text, changeWords, next, SourceRange(d, text, st.p, next.p, n))
  }

  /** Parentheses are never open there, so it is braces that may be. */
  predicate NoBraceAcross(d: Dialect, text: string) {
    var p := Skip(Space, text, 0);
    NoneOpenAtLimits(d, text, ChangesWords(text, p), Start(p), EMPTY)
  }

  predicate BracketsRight(d: Dialect, text: string) {
    SourceRange(d, text, 0, |text|, EMPTY).ok
  }

  /** A row limit applies to the last part of the statement. */
  predicate LimitAtEnd(d: Dialect, text: string) {
    var p := Skip(Space, text, 0);
    var r := Steps(d, text, ChangesWords(text, p), Start(p));
    r.Ok? && r.value.limit.Some?
  }

  // ----- which statements

  /** The program never takes a text for what it is not: every argument of a word that is rewritten
      nests as it is sent, as the program cuts it, and a dropped precision is closed. All this is
      asked only where the program comes to such a word. */
  ghost predicate Fits(d: Dialect, text: string)
    decreases |text|, 4
  {
    var p := Skip(Space, text, 0);
    !("%native " <= text[p..]) && Walkable(d, text, ChangesWords(text, p), Start(p))
  }

  ghost predicate Walkable(d: Dialect, text: string, changeWords: bool, st: State)
    requires st.p <= |text| && st.Stacked()
    decreases |text|, 3, |text| - st.p
  {
    st.p == |text| ||
    (&& PlaceFits(d, text, changeWords, st)
     && (Step(d, text, changeWords, st).Ok? ==> Walkable(d, text, changeWords, Step(d, text, changeWords, st).value)))
  }

  ghost predicate PlaceFits(d: Dialect, text: string, changeWords: bool, st: State)
    requires st.p < |text|
    decreases |text|, 2
  {
    !st.inString && !st.inIdentifier ==>
      && (text[st.p] == '%' ==> ArgumentsFit(d, text, st.p))
      && (IsAlpha(text[st.p]) && changeWords ==> PrecisionFits(d, text, st.p, Skip(Word, text, st.p)))
  }

  /** The precision behind a type that takes none is closed. */
  predicate PrecisionFits(d: Dialect, text: string, p: nat, e: nat)
    requires p <= e <= |text|
  {
    d.Translate(text[p..e]) == "[double]" && At(text, e) == '(' ==> At(text, Skip(Precision, text, e + 1)) == ')'
  }

  ghost predicate ArgumentsFit(d: Dialect, text: string, i: nat)
    requires i < |text| && text[i] == '%'
    decreases |text|, 1
  {
    var r := ListAt(text, i);
    r < |text| ==> ArgumentsNest(d, text, r + 1, Arity(d, text, i))
  }

  /** Each of up to `n` arguments nests by itself. */
  ghost predicate ArgumentsNest(d: Dialect, text: string, p: nat, n: nat)
    requires 0 < p <= |text|
    decreases |text|, 0, n
  {
    var e := ArgumentEnd(text, p, 0);
    n > 0 && EndsAt(text, e) ==>
      && (forall argument :: argument == text[p..e] ==> NestsAsSent(d, argument) && Fits(d, argument))
      && (text[e] == ')' || ArgumentsNest(d, text, e + 1, n - 1))
  }

  // ----- steps on closing parentheses

  /** What is written where a parenthesis closes, that of a function or another. */
  function Closing(fn: bool): string {
    if fn then ")}" else ")"
  }

  /** Whether the parenthesis that closes next is that of a function. */
  predicate ClosesFunction(st: State) {
    st.fns != [] && st.fns[|st.fns| - 1]
  }

  /** What a closing parenthesis does to the state. */
  function AfterClose(st: State): State
    requires st.Stacked()
  {
    var m := |st.fns| - 1;
    st.(p := st.p + 1, result := st.result + Closing(ClosesFunction(st)),
        klammern := if m >= 0 then m else 0, fns := if m >= 0 then st.fns[..m] else [])
  }

  /** A closing parenthesis in code. */
  predicate AtClose(text: string, st: State)
    requires st.p < |text|
  {
    text[st.p] == ')' && !st.inString && !st.inIdentifier
  }

  lemma CloseStep(d: Dialect, text: string, changeWords: bool, st: State)
    requires st.p < |text| && st.Stacked() && AtClose(text, st)
    ensures Step(d, text, changeWords, st) == Ok(AfterClose(st))
  {
    assert st.result + [')'] + "}" == st.result + ")}";
  }

  // ----- steps inside one more parenthesis

  /** The state, had a parenthesis been opened before. */
  function Inner(st: State): State {
    st.(klammern := st.klammern + 1, fns := [false] + st.fns)
  }

  function Within(r: Result<State>): Result<State> {
    match r
    case Ok(st) => Ok(Inner(st))
    case Err(code) => Err(code)
  }

  lemma FunctionInside(text: string, st: State)
    requires st.p < |text| && st.Stacked()
    ensures FunctionStart(text, Inner(st)) == Inner(FunctionStart(text, st))
  {
    assert [false] + st.fns + [true] == [false] + (st.fns + [true]);
  }

  lemma UntranslatedInside(d: Dialect, text: string, st: State)
    requires st.p < |text| && st.Stacked()
    ensures UntranslatedStep(d, text, Inner(st)) == Within(UntranslatedStep(d, text, st))
  {
    FunctionInside(text, st);
  }

  lemma SpecialInside(d: Dialect, text: string, st: State, word: string, newWord: string, special: Special, q: nat)
    requires st.p < q <= |text| && st.Stacked()
    ensures SpecialStep(d, text, Inner(st), word, newWord, special, q) == Within(SpecialStep(d, text, st, word, newWord, special, q))
  {
    if special.Other? { UntranslatedInside(d, text, st); }
  }

  lemma PercentInside(d: Dialect, text: string, st: State)
    requires st.p < |text| && text[st.p] == '%' && st.Stacked()
    ensures PercentStep(d, text, Inner(st)) == Within(PercentStep(d, text, st))
  {
    var word := PercentWord(text, st.p);
    SpecialInside(d, text, st, word, d.Translate(word), SpecialOf(d.Translate(word)), AfterPercentWord(text, st.p));
  }

  lemma WordInside(d: Dialect, text: string, changeWords: bool, st: State)
    requires st.p < |text| && IsAlpha(text[st.p]) && st.Stacked() && !EndsLimited(text, st, Skip(Word, text, st.p))
    ensures WordStep(d, text, changeWords, Inner(st)) == Within(WordStep(d, text, changeWords, st))
  {
  }

  lemma CloseInside(d: Dialect, text: string, changeWords: bool, st: State)
    requires st.p < |text| && st.Stacked() && AtClose(text, st)
    ensures Step(d, text, changeWords, Inner(st)) ==
            if st.fns == [] then Step(d, text, changeWords, st) else Within(Step(d, text, changeWords, st))
  {
    CloseStep(d, text, changeWords, st);
    CloseStep(d, text, changeWords, Inner(st));
    AfterCloseInside(st);
  }

  lemma AfterCloseInside(st: State)
    requires st.Stacked()
    ensures AfterClose(Inner(st)) == if st.fns == [] then AfterClose(st) else Inner(AfterClose(st))
  {
    var m := |st.fns|;
    assert ([false] + st.fns)[..m] == if m == 0 then [] else [false] + st.fns[..m - 1];
  }

  lemma QuotedInside(d: Dialect, text: string, changeWords: bool, st: State)
    requires st.p < |text| && st.Stacked()
    requires st.inString || st.inIdentifier || text[st.p] == '\'' || IsIdentifierQuote(text[st.p])
    ensures Step(d, text, changeWords, Inner(st)) == Within(Step(d, text, changeWords, st))
  {
  }

  lemma CharInside(d: Dialect, text: string, changeWords: bool, st: State)
    requires st.p < |text| && st.Stacked() && text[st.p] != '%' && text[st.p] != ')' && !IsAlpha(text[st.p])
    ensures Step(d, text, changeWords, Inner(st)) == Within(Step(d, text, changeWords, st))
  {
    assert [false] + st.fns + [false] == [false] + (st.fns + [false]);
  }

  /** A step does the same there, except for the parenthesis that closes this one. */
  lemma StepInside(d: Dialect, text: string, changeWords: bool, st: State)
    requires st.p < |text| && st.Stacked() && !AtLimitedEnd(text, st)
    ensures Step(d, text, changeWords, Inner(st)) ==
            if AtClose(text, st) && st.fns == [] then Step(d, text, changeWords, st)
            else Within(Step(d, text, changeWords, st))
  {
    var c := text[st.p];
    if AtClose(text, st) {
      CloseInside(d, text, changeWords, st);
    } else if st.inString || st.inIdentifier || c == '\'' || IsIdentifierQuote(c) {
      QuotedInside(d, text, changeWords, st);
    } else if c == '%' {
      PercentInside(d, text, st);
    } else if IsAlpha(c) {
      WordInside(d, text, changeWords, st);
    } else {
      CharInside(d, text, changeWords, st);
    }
  }
}
