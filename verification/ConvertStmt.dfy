/** The dialect translator as it runs: loops over the statement text, a stack of open parentheses,
    and recursion into the arguments of the functions that are rewritten. Every call ends, and
    every branch of the main loop moves on without leaving the text. */
module ConvertStmt {
  import opened SqlChars
  import opened SqlDialect
  import opened StmtSpec
  import opened Wrappers

  /** `parse_argument`: up to the first comma or closing parenthesis outside inner parentheses. */
  method ParseArgument(d: Dialect, text: string, p0: nat) returns (r: Result<Piece>)
    requires 0 < p0 <= |text|
    ensures r == Argument(d, text, p0)
    decreases |text|, 1
  {
    var p := p0;
    var klammern := 0;
    var end := false;
    while p < |text| && !end
      invariant p0 <= p <= |text|
      invariant end ==> ArgumentEnd(text, p0, 0) == p
      invariant !end ==> klammern >= 0 && ArgumentEnd(text, p0, 0) == ArgumentEnd(text, p, klammern)
      decreases |text| - p, !end
    {
      match text[p]
      case '(' =>
        p := p + 1;
        klammern := klammern + 1;
      case ')' =>
        if klammern == 0 { end := true; } else { p := p + 1; }
        klammern := klammern - 1;
      case ',' =>
        if klammern == 0 { end := true; } else { p := p + 1; }
      case _ =>
        p := p + 1;
    }
    var arg := ConvertStmt(d, text[p0..p]);
    r := if arg.Err? then Err(arg.code) else Ok(Piece(Trim(arg.value), p));
  }

  /** `parse_argumentlist` */
  method ParseArgumentList(d: Dialect, text: string, p0: nat, n: nat) returns (r: Result<(seq<string>, nat)>)
    requires p0 <= |text|
    ensures r == ArgumentList(d, text, p0, n)
    decreases |text|, 4
  {
    var p := SkipRun(Blank, text, p0);
    if At(text, p) != '(' { return Err("SOS-1413"); }
    r := ParseArguments(d, text, p + 1, n);
  }

  method ParseArguments(d: Dialect, text: string, p0: nat, n: nat) returns (r: Result<(seq<string>, nat)>)
    requires 0 < p0 <= |text|
    ensures r == Arguments(d, text, p0, n)
    decreases |text|, 3
  {
    var p := p0;
    var args: seq<string> := [];
    var i := 0;
    ghost var rest := Arguments(d, text, p, n);
    PrependNone(rest);
    while i < n
      invariant i <= n && |args| == i && p0 <= p <= |text|
      invariant rest == Arguments(d, text, p, n - i)
      invariant Arguments(d, text, p0, n) == Prepend(args, rest)
    {
      var arg, more := ParseNext(d, text, p, n - i);
      if arg.Err? { return Err(arg.code); }
      p := arg.value.next;
      if !more {
        var found := [arg.value.text] + Missing(n - i - 1);
        return Ok((args + found, p));
      }
      rest := Arguments(d, text, p, n - i - 1);
      PrependOne(args, arg.value.text, rest);
      args := args + [arg.value.text];
      i := i + 1;
    }
    assert args + [] == args;
    r := Ok((args, p));
  }

  /** One argument and the comma or parenthesis behind it. */
  method ParseNext(d: Dialect, text: string, p: nat, n: nat) returns (arg: Result<Piece>, more: bool)
    requires 0 < p <= |text| && n > 0
    ensures arg.Err? ==> Arguments(d, text, p, n) == Err(arg.code)
    ensures arg.Ok? ==> p < arg.value.next <= |text|
    ensures arg.Ok? ==>
              Arguments(d, text, p, n) ==
              if more then Prepend([arg.value.text], Arguments(d, text, arg.value.next, n - 1))
              else Ok(([arg.value.text] + Missing(n - 1), arg.value.next))
    decreases |text|, 2
  {
    ArgumentsAt(d, text, p, n);
    arg := ParseArgument(d, text, p);
    more := false;
    if arg.Err? { return; }
    var e := arg.value.next;
    if At(text, e) == ')' || At(text, e) == ',' {
      more := At(text, e) == ',';
      arg := Ok(Piece(arg.value.text, e + 1));
    } else {
      arg := Err("SOS-1413");
    }
  }

  /** The first argument and the rest. */
  lemma ArgumentsAt(d: Dialect, text: string, p: nat, n: nat)
    requires 0 < p <= |text| && n > 0
    ensures Arguments(d, text, p, n) ==
            match Argument(d, text, p)
            case Err(code) => Err(code)
            case Ok(arg) =>
              if At(text, arg.next) == ')' then Ok(([arg.text] + Missing(n - 1), arg.next + 1))
              else if At(text, arg.next) == ',' then Prepend([arg.text], Arguments(d, text, arg.next + 1, n - 1))
              else Err("SOS-1413")
  {
  }

  lemma PrependNone(r: Result<(seq<string>, nat)>)
    ensures Prepend([], r) == r
  {
    if r.Ok? { assert [] + r.value.0 == r.value.0; }
  }

  ghost function Prepend(args: seq<string>, r: Result<(seq<string>, nat)>): Result<(seq<string>, nat)> {
    match r
    case Err(code) => Err(code)
    case Ok(rest) => Ok((args + rest.0, rest.1))
  }

  lemma PrependOne(args: seq<string>, arg: string, r: Result<(seq<string>, nat)>)
    ensures Prepend(args + [arg], r) == Prepend(args, Prepend([arg], r))
  {
    if r.Ok? { assert args + [arg] + r.value.0 == args + ([arg] + r.value.0); }
  }

  /** `convert_date_or_timestamp` */
  method ConvertDateOrTimestamp(d: Dialect, text: string, p0: nat) returns (r: Result<Option<Piece>>)
    requires p0 < |text|
    ensures r == DateOrTimestamp(d, text, p0)
  {
    var kind := LiteralKindAt(text, p0);
    if kind.NoLiteral? { return Ok(None); }
    var piece := ConvertDateCall(d, text, p0, kind.DateKind?);
    r := if piece.Err? then Err(piece.code) else Ok(Some(piece.value));
  }

  method ConvertDateCall(d: Dialect, text: string, p0: nat, isDate: bool) returns (r: Result<Piece>)
    requires p0 < |text|
    ensures r == DateCall(d, text, p0, isDate)
  {
    var p := SkipRun(Alpha, text, p0 + 1);
    p := SkipRun(Space, text, p);
    if At(text, p) != '(' { return Err("SOS-1413"); }
    p := SkipRun(Space, text, p + 1);
    if At(text, p) != '\'' { return Err("SOS-1413"); }
    r := ConvertDateBody(d, text, p + 1, isDate);
  }

  /** Collects the text up to the next quote. */
  method ReadDate(text: string, p0: nat) returns (date: string, p: nat)
    requires p0 <= |text|
    ensures p == QuoteAt(text, p0) && date == text[p0..p]
  {
    p := p0;
    date := "";
    while p < |text| && text[p] != '\''
      invariant p0 <= p <= |text| && date == text[p0..p] && QuoteAt(text, p0) == QuoteAt(text, p)
    {
      date := date + [text[p]];
      p := p + 1;
    }
  }

  method ConvertDateBody(d: Dialect, text: string, p0: nat, isDate: bool) returns (r: Result<Piece>)
    requires p0 <= |text|
    ensures r == DateBody(d, text, p0, isDate)
  {
    var date, p := ReadDate(text, p0);
    if p == |text| { return Err("SOS-1413"); }
    var iso := d.dateText(date, isDate);
    if iso.None? { return Err("date"); }
    p := SkipRun(Space, text, p + 1);
    if At(text, p) != ')' { return Err("SOS-1413"); }
    r := Ok(Piece(DateLiteral(d, isDate, iso.value), p + 1));
  }

  /** The word after a percent sign, and where it ends with its optional empty parentheses. */
  method ReadPercentWord(text: string, p0: nat) returns (word: string, p: nat)
    requires p0 < |text|
    ensures word == PercentWord(text, p0) && p == AfterPercentWord(text, p0)
  {
    var e := SkipRun(Letters, text, p0 + 1);
    word := "%" + Upper(text[p0 + 1..e]);
    p := SkipRun(Space, text, e);
    if At(text, p) == '(' {
      var q := SkipRun(Space, text, p + 1);
      if At(text, q) == ')' { p := q + 1; }
    }
  }

  /** The branch for words that start with a percent sign. */
  method ConvertPercentWord(d: Dialect, text: string, st: State) returns (r: Result<State>)
    requires st.p < |text| && text[st.p] == '%' && st.Stacked()
    ensures r == PercentStep(d, text, st)
    decreases |text|, 5
  {
    var word, p := ReadPercentWord(text, st.p);
    var newWord := d.Translate(word);
    match SpecialOf(newWord)
    case Now =>
      var date := d.dateText(d.now, false);
      if date.None? { return Err("date"); }
      r := Ok(st.(p := p, result := st.result + (DateLiteral(d, false, date.value) + " ")));
    case TextTimestamp =>
      var args := ParseArgumentList(d, text, p, 1);
      if args.Err? { return Err(args.code); }
      r := Ok(st.(p := args.value.1, result := st.result + d.TextTimestamp(args.value.0[0])));
    case SecondsDiff =>
      var args := ParseArgumentList(d, text, p, 2);
      if args.Err? { return Err(args.code); }
      r := Ok(st.(p := args.value.1, result := st.result + d.SecondsDiff(args.value.0[0], args.value.0[1])));
    case Limit =>
      r := ReadLimit(text, p, st);
    case UpdateLock =>
      r := Ok(st.(p := p, forUpdate := true));
    case Other =>
      if newWord != word {
        r := Ok(st.(p := p, result := st.result + (newWord + " ")));
      } else {
        r := ConvertUntranslated(d, text, st);
      }
  }

  method ReadLimit(text: string, p0: nat, st: State) returns (r: Result<State>)
    requires p0 <= |text|
    ensures r == match LimitAt(text, p0)
                 case Err(code) => Err(code)
                 case Ok(lim) => Ok(st.(p := lim.1, limit := Some(lim.0)))
  {
    if At(text, p0) != '(' { return Err("SOS-1459"); }
    var p := SkipRun(Space, text, p0 + 1);
    ghost var begin := p;
    var lim := 0;
    while IsDigit(At(text, p))
      invariant begin <= p <= |text|
      invariant Skip(Digit, text, begin) == Skip(Digit, text, p)
      invariant lim == Number(text[begin..p])
      decreases |text| - p
    {
      assert text[begin..p + 1][..p - begin] == text[begin..p];
      lim := lim * 10 + DigitValue(text[p]);
      p := p + 1;
    }
    p := SkipRun(Space, text, p);
    if At(text, p) != ')' { return Err("SOS-1459"); }
    r := Ok(st.(p := p + 1, limit := Some(lim)));
  }

  /** A percent word the dialect does not know: a date, an ODBC function, or a stray sign. */
  method ConvertUntranslated(d: Dialect, text: string, st: State) returns (r: Result<State>)
    requires st.p < |text| && st.Stacked()
    ensures r == UntranslatedStep(d, text, st)
  {
    var date := ConvertDateOrTimestamp(d, text, st.p);
    if date.Err? { return Err(date.code); }
    if date.value.Some? {
      var piece := date.value.value;
      return Ok(st.(p := piece.next, result := st.result + piece.text));
    }
    if !d.isOdbc { return Ok(st.(p := st.p + 1)); }
    var p := SkipRun(Alpha, text, st.p + 1);
    var result := st.result + "{fn " + text[st.p + 1..p];
    var klammern, fns := st.klammern, st.fns;
    if At(text, p) == '(' {
      klammern := klammern + 1;
      fns := fns + [true];
      result := result + "(";
      p := p + 1;
    }
    r := Ok(st.(p := p, result := result, klammern := klammern, fns := fns));
  }

  lemma EscapeOn(text: string, p0: nat, p: nat)
    requires p0 <= p < |text|
    ensures Escape(text[p0..p + 1]) == Escape(text[p0..p]) + EscapeChar(text[p])
  {
    assert text[p0..p + 1][..p - p0] == text[p0..p];
  }

  /** Escapes the body of a literal up to the next quote. */
  method EscapeRun(text: string, p0: nat) returns (escaped: string, p: nat)
    requires p0 < |text| && text[p0] != '\''
    ensures p == QuoteAt(text, p0) && escaped == Escape(text[p0..p])
  {
    escaped := EscapeChar(text[p0]);
    p := p0 + 1;
    assert text[p0..p0] == [];
    EscapeOn(text, p0, p0);
    while p < |text| && text[p] != '\''
      invariant p0 < p <= |text|
      invariant QuoteAt(text, p0) == QuoteAt(text, p) && escaped == Escape(text[p0..p])
    {
      EscapeOn(text, p0, p);
      escaped := escaped + EscapeChar(text[p]);
      p := p + 1;
    }
  }

  /** The branch for words. */
  method ConvertWord(d: Dialect, text: string, changeWords: bool, st: State) returns (r: Result<State>)
    requires st.p < |text| && IsAlpha(text[st.p]) && st.Stacked()
    ensures r == WordStep(d, text, changeWords, st)
  {
    var p2 := SkipRun(Word, text, st.p);
    var word := text[st.p..p2];
    if st.limit.Some? && st.klammern == 0 && IsSetOperator(word) {
      var limited := d.Limited(st.result, st.limit.value);
      if limited.None? { return Err(d.LimitError()); }
      return Ok(st.(p := p2, done := st.done + limited.value + " " + word + " ", result := "", limit := None));
    }
    if !changeWords { return Ok(st.(p := p2, result := st.result + word)); }
    var newWord := d.Translate(word);
    if newWord != "[double]" { return Ok(st.(p := p2, result := st.result + newWord)); }
    if At(text, p2) == '(' {
      p2 := SkipRun(Precision, text, p2 + 1);
      if At(text, p2) == ')' { p2 := p2 + 1; }
    }
    r := Ok(st.(p := p2, result := st.result + "DOUBLE"));
  }

  /** One round of the main loop, on the scanner's variables. */
  method ConvertNext(d: Dialect, text: string, changeWords: bool, st: State) returns (r: Result<State>)
    requires st.p < |text| && st.Stacked()
    ensures r == Step(d, text, changeWords, st)
    decreases |text|, 6
  {
    var c := text[st.p];
    var p, result := st.p + 1, st.result + [c];
    if c == '\'' {
      return Ok(st.(p := p, result := result, inString := !st.inString));
    }
    if st.inString {
      if d.dbms.MySql? {
        var escaped: string;
        escaped, p := EscapeRun(text, st.p);
        result := st.result + escaped;
      }
      return Ok(st.(p := p, result := result));
    }
    if c == '"' || c == '`' {
      result := st.result + [if st.inIdentifier then d.QuoteEnd() else d.QuoteBegin()];
      return Ok(st.(p := p, result := result, inIdentifier := !st.inIdentifier));
    }
    if st.inIdentifier {
      return Ok(st.(p := p, result := st.result + [UpperChar(c)]));
    }
    if c == '|' && At(text, p) == '|' {
      return Ok(st.(p := p + 1, result := st.result + d.concatOperator));
    }
    if c == '%' {
      r := ConvertPercentWord(d, text, st);
    } else if c == '(' {
      r := Ok(st.(p := p, result := result, klammern := st.klammern + 1, fns := st.fns + [false]));
    } else if c == ')' {
      var klammern, fns := st.klammern, st.fns;
      if klammern > 0 {
        if fns[|fns| - 1] { result := result + "}"; }
        klammern := klammern - 1;
        fns := fns[..|fns| - 1];
      }
      r := Ok(st.(p := p, result := result, klammern := klammern, fns := fns));
    } else if IsAlpha(c) {
      r := ConvertWord(d, text, changeWords, st);
    } else {
      r := Ok(st.(p := p, result := result));
    }
  }

  /** `convert_stmt` */
  method ConvertStmt(d: Dialect, text: string) returns (r: Result<string>)
    ensures r == Convert(d, text)
    decreases |text|, 7
  {
    var p := SkipRun(Space, text, 0);
    if p == |text| { return Ok(""); }
    if "%native " <= text[p..] { return Ok(text[p + 8..]); }
    var p2 := SkipRun(AlphaNum, text, p);
    var cmd := Upper(text[p..p2]);
    var changeWords := cmd == "CREATE" || cmd == "ALTER";

    ghost var all := Steps(d, text, changeWords, Start(p));
    var st := Start(p);
    while st.p < |text|
      invariant st.p <= |text| && st.Stacked()
      invariant all == Steps(d, text, changeWords, st)
      decreases |text| - st.p
    {
      var next := ConvertNext(d, text, changeWords, st);
      if next.Err? { return Err(next.code); }
      st := next.value;
    }

    var result := st.result;
    if st.limit.Some? {
      var limited := d.Limited(result, st.limit.value);
      if limited.None? { return Err(d.LimitError()); }
      result := limited.value;
    }
    r := Ok(st.done + result + if st.forUpdate then "  FOR UPDATE" else "");
  }
}
