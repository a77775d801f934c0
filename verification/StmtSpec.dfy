/** The dialect translation as a function: one step of the scanner at a time. */
module StmtSpec {
  import opened SqlChars
  import opened SqlDialect
  import opened Wrappers

  datatype Result<+T> = Ok(value: T) | Err(code: string) {
    predicate IsFailure() { Err? }
    function PropagateFailure<U>(): Result<U>
      requires Err?
    {
      Err(code)
    }
    function Extract(): T
      requires Ok?
    {
      value
    }
  }

  /** Text that was made, and where the scanner goes on. */
  datatype Piece = Piece(text: string, next: nat)

  /** `klammern` counts the open parentheses; `fns` says of each whether it belongs to an ODBC
      function, so that closing it closes a brace as well. */
  datatype State = State(
    p: nat,
    done: string,       // already finished, before a set operator
    result: string,
    inString: bool,
    inIdentifier: bool,
    klammern: nat,
    fns: seq<bool>,
    limit: Option<nat>,
    forUpdate: bool)
  {
    predicate Stacked() {
      klammern == |fns|
    }
  }

  // ----- arguments

  /** The end of the argument at `p`: the first comma or closing parenthesis at depth 0. */
  function ArgumentEnd(text: string, p: nat, depth: nat): (e: nat)
    requires p <= |text|
    ensures p <= e <= |text|
    decreases |text| - p
  {
    if p == |text| || (depth == 0 && text[p] in ",)") then p
    else ArgumentEnd(text, p + 1, if text[p] == '(' then depth + 1 else if text[p] == ')' then depth - 1 else depth)
  }

  /** The parentheses open at `i`, counted from `p`, `depth` of them before. */
  function DepthAt(text: string, p: nat, depth: nat, i: nat): nat
    requires p <= i <= |text|
    decreases i
  {
    if i == p then depth
    else
      var before := DepthAt(text, p, depth, i - 1);
      if text[i - 1] == '(' then before + 1 else if text[i - 1] == ')' && before > 0 then before - 1 else before
  }

  lemma {:induction false} DepthShift(text: string, p: nat, depth: nat, i: nat)
    requires p < i <= |text|
    ensures DepthAt(text, p, depth, i) == DepthAt(text, p + 1, DepthAt(text, p, depth, p + 1), i)
    decreases i
  {
    if i > p + 1 { DepthShift(text, p, depth, i - 1); }
  }

  predicate EndsArgument(text: string, p: nat, depth: nat, i: nat)
    requires p <= i < |text|
  {
    DepthAt(text, p, depth, i) == 0 && (text[i] == ',' || text[i] == ')')
  }

  /** An argument ends at the first comma or closing parenthesis at depth 0, or with the text. */
  lemma {:induction false} ArgumentEndsAtFirst(text: string, p: nat, depth: nat)
    requires p <= |text|
    ensures var e := ArgumentEnd(text, p, depth);
            && (forall i :: p <= i < e ==> !EndsArgument(text, p, depth, i))
            && (e < |text| ==> EndsArgument(text, p, depth, e))
    decreases |text| - p
  {
    if p < |text| && !EndsArgument(text, p, depth, p) {
      var depth' := DepthAt(text, p, depth, p + 1);
      assert DepthAt(text, p, depth, p) == depth;
      ArgumentEndsAtFirst(text, p + 1, depth');
      forall i | p < i < |text| ensures EndsArgument(text, p, depth, i) == EndsArgument(text, p + 1, depth', i) {
        DepthShift(text, p, depth, i);
      }
    }
  }

  function Argument(d: Dialect, text: string, p: nat): (r: Result<Piece>)
    requires 0 < p <= |text|
    ensures r.Ok? ==> p <= r.value.next <= |text|
    decreases |text|, 0, 1
  {
    var e := ArgumentEnd(text, p, 0);
    var arg :- Convert(d, text[p..e]);
    Ok(Piece(Trim(arg), e))
  }

  function Missing(n: nat): (args: seq<string>)
    ensures |args| == n
  {
    seq(n, _ => "")
  }

  /** `n` arguments at most, missing ones empty. */
  function Arguments(d: Dialect, text: string, p: nat, n: nat): (r: Result<(seq<string>, nat)>)
    requires 0 < p <= |text|
    ensures r.Ok? ==> |r.value.0| == n && p <= r.value.1 <= |text|
    decreases |text|, 0, 2, n
  {
    if n == 0 then Ok(([], p))
    else
      var arg :- Argument(d, text, p);
      if At(text, arg.next) == ')' then Ok(([arg.text] + Missing(n - 1), arg.next + 1))
      else if At(text, arg.next) == ',' then
        var rest :- Arguments(d, text, arg.next + 1, n - 1);
        Ok(([arg.text] + rest.0, rest.1))
      else Err("SOS-1413")
  }

  function ArgumentList(d: Dialect, text: string, p: nat, n: nat): (r: Result<(seq<string>, nat)>)
    requires p <= |text|
    ensures r.Ok? ==> |r.value.0| == n && p < r.value.1 <= |text|
    decreases |text|, 0, 3
  {
    var q := Skip(Blank, text, p);
    if At(text, q) != '(' then Err("SOS-1413") else Arguments(d, text, q + 1, n)
  }

  // ----- date and time literals

  datatype LiteralKind = NoLiteral | DateKind | TimestampKind

  function LiteralKindAt(text: string, p: nat): LiteralKind {
    if StartsWith(text, p, "%DATE") then DateKind
    else if StartsWith(text, p, "%TIMESTAMP") then TimestampKind
    else NoLiteral
  }

  /** A date or timestamp literal at `p`, if one starts there. */
  function DateOrTimestamp(d: Dialect, text: string, p: nat): (r: Result<Option<Piece>>)
    requires p < |text|
    ensures r.Ok? && r.value.Some? ==> p < r.value.value.next <= |text|
  {
    var kind := LiteralKindAt(text, p);
    if kind.NoLiteral? then Ok(None)
    else
      var piece :- DateCall(d, text, p, kind.DateKind?);
      Ok(Some(piece))
  }

  function DateCall(d: Dialect, text: string, p: nat, isDate: bool): (r: Result<Piece>)
    requires p < |text|
    ensures r.Ok? ==> p < r.value.next <= |text|
  {
    var q := Skip(Space, text, Skip(Alpha, text, p + 1));
    if At(text, q) != '(' then Err("SOS-1413")
    else
      var r := Skip(Space, text, q + 1);
      if At(text, r) != '\'' then Err("SOS-1413") else DateBody(d, text, r + 1, isDate)
  }

  /** The quoted date at `p` and the closing parenthesis. */
  function DateBody(d: Dialect, text: string, p: nat, isDate: bool): (r: Result<Piece>)
    requires p <= |text|
    ensures r.Ok? ==> p < r.value.next <= |text|
  {
    var e := QuoteAt(text, p);
    if e == |text| then Err("SOS-1413")
    else
      var date := d.dateText(text[p..e], isDate);
      var t := Skip(Space, text, e + 1);
      if date.None? then Err("date")
      else if At(text, t) != ')' then Err("SOS-1413")
      else Ok(Piece(DateLiteral(d, isDate, date.value), t + 1))
  }

  function DateLiteral(d: Dialect, isDate: bool, date: string): string {
    var quoted := "'" + date + "'";
    if d.UsesEscapes() then "{" + (if isDate then "d" else "ts") + quoted + "}" else quoted
  }

  function QuoteAt(text: string, p: nat): (e: nat)
    requires p <= |text|
    ensures p <= e <= |text| && (e < |text| ==> text[e] == '\'')
    decreases |text| - p
  {
    if p == |text| || text[p] == '\'' then p else QuoteAt(text, p + 1)
  }

  lemma {:induction false} QuoteAtIsFirst(text: string, p: nat)
    requires p <= |text|
    ensures '\'' !in text[p..QuoteAt(text, p)]
    decreases |text| - p
  {
    if p < |text| && text[p] != '\'' {
      QuoteAtIsFirst(text, p + 1);
      assert text[p..QuoteAt(text, p)] == [text[p]] + text[p + 1..QuoteAt(text, p + 1)];
    }
  }

  // ----- the words that start with a percent sign

  datatype Special = Now | TextTimestamp | SecondsDiff | Limit | UpdateLock | Other

  const SPECIALS: map<string, Special> :=
    map["%NOW" := Now, "%TEXTTIMESTAMP" := TextTimestamp, "%SECONDSDIFF" := SecondsDiff, "%LIMIT" := Limit,
        "%UPDATE_LOCK" := UpdateLock]

  function SpecialOf(word: string): Special {
    if word in SPECIALS then SPECIALS[word] else Other
  }

  /** The end of the word at `p`, of the blanks after it, and of an empty pair of parentheses. */
  function PercentWord(text: string, p: nat): string
    requires p < |text|
  {
    "%" + Upper(text[p + 1..Skip(Letters, text, p + 1)])
  }

  function AfterPercentWord(text: string, p: nat): (q: nat)
    requires p < |text|
    ensures p < q <= |text|
  {
    var q := Skip(Space, text, Skip(Letters, text, p + 1));
    if At(text, q) != '(' then q
    else
      var r := Skip(Space, text, q + 1);
      if At(text, r) == ')' then r + 1 else q
  }

  function LimitAt(text: string, q: nat): Result<(nat, nat)>
    requires q <= |text|
  {
    if At(text, q) != '(' then Err("SOS-1459")
    else
      var b := Skip(Space, text, q + 1);
      var e := Skip(Digit, text, b);
      var t := Skip(Space, text, e);
      if At(text, t) != ')' then Err("SOS-1459") else Ok((Number(text[b..e]), t + 1))
  }

  function PercentStep(d: Dialect, text: string, st: State): (r: Result<State>)
    requires st.p < |text| && text[st.p] == '%' && st.Stacked()
    ensures r.Ok? ==> st.p < r.value.p <= |text| && r.value.Stacked()
    decreases |text|, 0, 5
  {
    var word := PercentWord(text, st.p);
    SpecialStep(d, text, st, word, d.Translate(word), SpecialOf(d.Translate(word)), AfterPercentWord(text, st.p))
  }

  function SpecialStep(d: Dialect, text: string, st: State, word: string, newWord: string, special: Special, q: nat): (r: Result<State>)
    requires st.p < q <= |text| && st.Stacked()
    ensures r.Ok? ==> st.p < r.value.p <= |text| && r.value.Stacked()
    decreases |text|, 0, 4
  {
    match special
    case Now => NowStep(d, st, q)
    case TextTimestamp =>
      var args :- ArgumentList(d, text, q, 1);
      Ok(st.(p := args.1, result := st.result + d.TextTimestamp(args.0[0])))
    case SecondsDiff =>
      var args :- ArgumentList(d, text, q, 2);
      Ok(st.(p := args.1, result := st.result + d.SecondsDiff(args.0[0], args.0[1])))
    case Limit =>
      var lim :- LimitAt(text, q);
      Ok(st.(p := lim.1, limit := Some(lim.0)))
    case UpdateLock =>
      Ok(st.(p := q, forUpdate := true))
    case Other =>
      if newWord != word then Ok(Append(st, q, newWord + " "))
      else UntranslatedStep(d, text, st)
  }

  function Append(st: State, q: nat, piece: string): State {
    st.(p := q, result := st.result + piece)
  }

  function NowStep(d: Dialect, st: State, q: nat): Result<State> {
    var date := d.dateText(d.now, false);
    if date.None? then Err("date") else Ok(Append(st, q, DateLiteral(d, false, date.value) + " "))
  }

  function UntranslatedStep(d: Dialect, text: string, st: State): (r: Result<State>)
    requires st.p < |text| && st.Stacked()
    ensures r.Ok? ==> st.p < r.value.p <= |text| && r.value.Stacked()
  {
    var date :- DateOrTimestamp(d, text, st.p);
    if date.Some? then Ok(st.(p := date.value.next, result := st.result + date.value.text))
    else if d.isOdbc then Ok(FunctionStart(text, st))
    else Ok(st.(p := st.p + 1))
  }

  /** The name of an ODBC function, and its parenthesis if it follows. */
  function FunctionStart(text: string, st: State): (st': State)
    requires st.p < |text| && st.Stacked()
    ensures st.p < st'.p <= |text| && st'.Stacked()
  {
    var e := Skip(Alpha, text, st.p + 1);
    var named := st.(p := e, result := st.result + "{fn " + text[st.p + 1..e]);
    if At(text, e) == '(' then
      named.(p := e + 1, result := named.result + "(", klammern := st.klammern + 1, fns := st.fns + [true])
    else named
  }

  // ----- everything else

  function EscapeChar(c: char): string {
    if c == '\0' then "\\0"
    else if c == 8 as char then "\\b"
    else if c == '\t' then "\\t"
    else if c == '\r' then "\\r"
    else if c == '\n' then "\\n"
    else if c == '\\' then "\\\\"
    else [c]
  }

  function Escape(s: string): string {
    if s == [] then [] else Escape(s[..|s| - 1]) + EscapeChar(s[|s| - 1])
  }

  /** The end of the numeric precision that follows a type which takes none. */
  function AfterPrecision(text: string, p: nat): (q: nat)
    requires p <= |text|
    ensures p <= q <= |text|
  {
    if At(text, p) != '(' then p
    else
      var q := Skip(Precision, text, p + 1);
      if At(text, q) == ')' then q + 1 else q
  }

  predicate IsSetOperator(word: string) {
    Upper(word) in ["UNION", "INTERSECT", "EXCEPT"]
  }

  function WordStep(d: Dialect, text: string, changeWords: bool, st: State): (r: Result<State>)
    requires st.p < |text| && IsAlpha(text[st.p]) && st.Stacked()
    ensures r.Ok? ==> st.p < r.value.p <= |text| && r.value.Stacked()
  {
    var e := Skip(Word, text, st.p);
    var word := text[st.p..e];
    if st.limit.Some? && st.klammern == 0 && IsSetOperator(word) then
      match d.Limited(st.result, st.limit.value)
      case None => Err(d.LimitError())
      case Some(limited) => Ok(st.(p := e, done := st.done + limited + " " + word + " ", result := "", limit := None))
    else if changeWords then
      var newWord := d.Translate(word);
      if newWord == "[double]" then Ok(st.(p := AfterPrecision(text, e), result := st.result + "DOUBLE"))
      else Ok(st.(p := e, result := st.result + newWord))
    else Ok(st.(p := e, result := st.result + word))
  }

  /** One round of the main loop. It moves on and stays inside the text, and the count of open
      parentheses stays the size of the stack, so that the stack never underflows. */
  function Step(d: Dialect, text: string, changeWords: bool, st: State): (r: Result<State>)
    requires st.p < |text| && st.Stacked()
    ensures r.Ok? ==> st.p < r.value.p <= |text| && r.value.Stacked()
    decreases |text|, 0, 6
  {
    var c := text[st.p];
    if c == '\'' then Ok(st.(p := st.p + 1, result := st.result + [c], inString := !st.inString))
    else if st.inString then
      if d.dbms.MySql? then
        var e := QuoteAt(text, st.p);
        Ok(st.(p := e, result := st.result + Escape(text[st.p..e])))
      else Ok(st.(p := st.p + 1, result := st.result + [c]))
    else if c == '"' || c == '`' then
      Ok(st.(p := st.p + 1, inIdentifier := !st.inIdentifier,
             result := st.result + [if st.inIdentifier then d.QuoteEnd() else d.QuoteBegin()]))
    else if st.inIdentifier then Ok(st.(p := st.p + 1, result := st.result + [UpperChar(c)]))
    else if c == '|' && At(text, st.p + 1) == '|' then Ok(st.(p := st.p + 2, result := st.result + d.concatOperator))
    else if c == '%' then PercentStep(d, text, st)
    else if c == '(' then Ok(st.(p := st.p + 1, result := st.result + [c], klammern := st.klammern + 1, fns := st.fns + [false]))
    else if c == ')' then
      var closed := st.(p := st.p + 1, result := st.result + [c]);
      if st.klammern == 0 then Ok(closed)
      else
        var n := |st.fns| - 1;
        Ok(closed.(klammern := st.klammern - 1, fns := st.fns[..n],
                   result := if st.fns[n] then closed.result + "}" else closed.result))
    else if IsAlpha(c) then WordStep(d, text, changeWords, st)
    else Ok(st.(p := st.p + 1, result := st.result + [c]))
  }

  function Steps(d: Dialect, text: string, changeWords: bool, st: State): Result<State>
    requires st.p <= |text| && st.Stacked()
    decreases |text|, 1, |text| - st.p
  {
    if st.p == |text| then Ok(st)
    else
      var next :- Step(d, text, changeWords, st);
      Steps(d, text, changeWords, next)
  }

  predicate ChangesWords(text: string, p: nat)
    requires p <= |text|
  {
    Upper(text[p..Skip(AlphaNum, text, p)]) in ["CREATE", "ALTER"]
  }

  function Start(p: nat): State {
    State(p, "", "", false, false, 0, [], None, false)
  }

  function Finish(d: Dialect, st: State): Result<string> {
    var suffix := if st.forUpdate then "  FOR UPDATE" else "";
    if st.limit.None? then Ok(st.done + st.result + suffix)
    else
      match d.Limited(st.result, st.limit.value)
      case None => Err(d.LimitError())
      case Some(limited) => Ok(st.done + limited + suffix)
  }

  function Convert(d: Dialect, text: string): Result<string>
    decreases |text|, 2
  {
    var p := Skip(Space, text, 0);
    if p == |text| then Ok("")
    else if "%native " <= text[p..] then Ok(text[p + 8..])
    else
      var st :- Steps(d, text, ChangesWords(text, p), Start(p));
      Finish(d, st)
  }
}
