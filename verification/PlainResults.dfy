/** What the translation of statements without percent words keeps: for dialects that quote like
    the source, everything but the spelling of identifiers; for MySQL, the value of every literal. */
module PlainResults {
  import opened SqlChars
  import opened SqlDialect
  import opened StmtSpec
  import opened PlainStmts
  import opened Wrappers

  /** Double quotes around identifiers, two bars for concatenation, no escapes in literals. */
  predicate QuotesAnsi(d: Dialect) {
    !d.dbms.MySql? && d.QuoteBegin() == '"' && d.QuoteEnd() == '"' && d.concatOperator == "||"
  }

  function AnsiChar(c: char, mode: Mode): char {
    if c == '\'' || mode.inString then c
    else if c == '`' then '"'
    else if mode.inIdentifier then UpperChar(c)
    else c
  }

  /** For such dialects the image is character by character. */
  lemma {:induction false} ImageIsCharwise(d: Dialect, text: string, mode: Mode)
    requires QuotesAnsi(d) && text != []
    ensures Image(d, text, mode) == [AnsiChar(text[0], mode)] + Image(d, text[1..], Turn(mode, text[0]))
    decreases |text|
  {
    if IsConcat(text, 0, mode) {
      ImageIsCharwise(d, text[1..], mode);
      assert text[1..][1..] == text[2..];
      assert "||" + Image(d, text[2..], mode) == ['|'] + (['|'] + Image(d, text[2..], mode));
    }
  }

  lemma {:induction false} ImageSize(d: Dialect, text: string, mode: Mode)
    requires QuotesAnsi(d)
    ensures |Image(d, text, mode)| == |text|
  {
    if text != [] {
      ImageIsCharwise(d, text, mode);
      ImageSize(d, text[1..], Turn(mode, text[0]));
    }
  }

  /** Translating what was translated changes nothing more. */
  lemma {:induction false} ImageTwice(d: Dialect, text: string, mode: Mode)
    requires QuotesAnsi(d)
    ensures Image(d, Image(d, text, mode), mode) == Image(d, text, mode)
    decreases |text|
  {
    if text != [] {
      var image := Image(d, text, mode);
      var turned := Turn(mode, text[0]);
      ImageIsCharwise(d, text, mode);
      ImageIsCharwise(d, image, mode);
      assert image[1..] == Image(d, text[1..], turned);
      ImageTwice(d, text[1..], turned);
    }
  }

  lemma {:induction false} ImageFrom(d: Dialect, text: string, p: nat, i: nat)
    requires QuotesAnsi(d) && p <= i < |text|
    ensures |Image(d, text[p..], ModeAt(text, p))| == |text| - p
    ensures Image(d, text[p..], ModeAt(text, p))[i - p] == AnsiChar(text[i], ModeAt(text, i))
    decreases i - p
  {
    ImageSize(d, text[p..], ModeAt(text, p));
    ImageIsCharwise(d, text[p..], ModeAt(text, p));
    assert text[p..][1..] == text[p + 1..];
    if p < i { ImageFrom(d, text, p + 1, i); }
  }

  lemma ImageCharAt(d: Dialect, text: string, i: nat)
    requires QuotesAnsi(d) && i < |text|
    ensures |Image(d, text, CODE)| == |text| && Image(d, text, CODE)[i] == AnsiChar(text[i], ModeAt(text, i))
  {
    ImageFrom(d, text, 0, i);
    assert text[0..] == text;
  }

  /** The translation changes back-ticks outside literals and small letters inside quoted
      identifiers, and nothing else: it is the identity, after blanks on the left are dropped,
      exactly on statements without those. */
  lemma UnchangedIff(d: Dialect, text: string)
    requires QuotesAnsi(d) && IsPlain(text)
    ensures var t := TrimLeft(text);
            Convert(d, text) == Ok(t) <==>
            forall i :: 0 <= i < |t| ==>
                          && (t[i] == '`' ==> ModeAt(t, i).inString)
                          && ('a' <= t[i] <= 'z' && ModeAt(t, i).inIdentifier ==> ModeAt(t, i).inString)
  {
    var t := TrimLeft(text);
    var image := Image(d, t, CODE);
    PlainConvert(d, text);
    ImageSize(d, t, CODE);
    forall i | 0 <= i < |t| ensures image[i] == AnsiChar(t[i], ModeAt(t, i)) { ImageCharAt(d, t, i); }
    forall i | 0 <= i < |t|
      ensures AnsiChar(t[i], ModeAt(t, i)) == t[i] <==>
              (t[i] == '`' ==> ModeAt(t, i).inString)
              && ('a' <= t[i] <= 'z' && ModeAt(t, i).inIdentifier ==> ModeAt(t, i).inString)
    {
    }
    if forall i :: 0 <= i < |t| ==> AnsiChar(t[i], ModeAt(t, i)) == t[i] {
      assert forall i :: 0 <= i < |t| ==> image[i] == t[i];
      assert image == t;
    }
  }

  lemma {:induction false} CodeRun(text: string, e: nat)
    requires e <= |text| && forall i :: 0 <= i < e ==> AlphaNum.Has(text[i])
    ensures ModeAt(text, e) == CODE
  {
    if e > 0 {
      CodeRun(text, e - 1);
      assert AlphaNum.Has(text[e - 1]);
    }
  }

  /** The command word survives. */
  lemma CommandKept(d: Dialect, text: string)
    requires QuotesAnsi(d)
    ensures |Image(d, text, CODE)| == |text|
    ensures ChangesWords(Image(d, text, CODE), 0) == ChangesWords(text, 0)
  {
    var image, e := Image(d, text, CODE), Skip(AlphaNum, text, 0);
    ImageSize(d, text, CODE);
    SkipIsRun(AlphaNum, text, 0);
    forall i | 0 <= i < e ensures image[i] == text[i] && AlphaNum.Has(image[i]) {
      CodeRun(text, i);
      assert AlphaNum.Has(text[i]);
      ImageCharAt(d, text, i);
    }
    if e < |text| {
      CodeRun(text, e);
      ImageCharAt(d, text, e);
    }
    SkipsTo(AlphaNum, image, 0, e);
    assert image[0..e] == text[0..e];
  }

  /** The scanner meets the image in the modes of the source. */
  lemma {:induction false} ModeInImage(d: Dialect, text: string, i: nat)
    requires QuotesAnsi(d) && i <= |text| == |Image(d, text, CODE)|
    ensures ModeAt(Image(d, text, CODE), i) == ModeAt(text, i)
  {
    if i > 0 {
      ModeInImage(d, text, i - 1);
      ImageCharAt(d, text, i - 1);
    }
  }

  lemma ImagePlain(d: Dialect, text: string)
    requires QuotesAnsi(d) && NoPercentWords(text)
    ensures NoPercentWords(Image(d, text, CODE))
  {
    var image := Image(d, text, CODE);
    ImageSize(d, text, CODE);
    forall i | 0 <= i < |image| ensures ModeAt(image, i) == CODE ==> image[i] != '%' {
      ModeInImage(d, text, i);
      ImageCharAt(d, text, i);
    }
  }

  /** The translation is idempotent. */
  lemma ConvertTwice(d: Dialect, text: string)
    requires QuotesAnsi(d) && IsPlain(text)
    ensures Convert(d, text).Ok? && Convert(d, Convert(d, text).value) == Convert(d, text)
  {
    var t := TrimLeft(text);
    var image := Image(d, t, CODE);
    PlainConvert(d, text);
    CommandKept(d, t);
    ImageTwice(d, t, CODE);
    SkipIsRun(Space, text, 0);
    TrimLeftPlain(text);
    ImagePlain(d, t);
    if t != [] {
      ImageCharAt(d, t, 0);
      assert Skip(Space, image, 0) == 0;
      TrimLeftCommand(text);
    }
    assert image[0..] == image;
    PlainConvert(d, image);
  }

  lemma TrimLeftCommand(text: string)
    ensures ChangesWords(TrimLeft(text), 0) == ChangesWords(text, Skip(Space, text, 0))
  {
    var p := Skip(Space, text, 0);
    var t := text[p..];
    var e := Skip(AlphaNum, text, p);
    SkipIsRun(AlphaNum, text, p);
    assert forall i :: 0 <= i < e - p ==> t[i] == text[p + i];
    SkipsTo(AlphaNum, t, 0, e - p);
    assert t[0..e - p] == text[p..e];
  }

  // ----- literals

  /** The bodies of the literals, as single quotes delimit them; the last may be unterminated. */
  function Literals(text: string, body: Option<string>): seq<string> {
    if text == [] then (if body.Some? then [body.value] else [])
    else if text[0] == '\'' then
      if body.Some? then [body.value] + Literals(text[1..], None) else Literals(text[1..], Some(""))
    else Literals(text[1..], if body.Some? then Some(body.value + [text[0]]) else None)
  }

  /** The same as MySQL reads them: a backslash escapes the character after it. */
  function MySqlLiterals(text: string, body: Option<string>): seq<string> {
    if text == [] then (if body.Some? then [body.value] else [])
    else if body.Some? && text[0] == '\\' && |text| > 1 then
      MySqlLiterals(text[2..], Some(body.value + [Unescape(text[1])]))
    else if text[0] == '\'' then
      if body.Some? then [body.value] + MySqlLiterals(text[1..], None) else MySqlLiterals(text[1..], Some(""))
    else MySqlLiterals(text[1..], if body.Some? then Some(body.value + [text[0]]) else None)
  }

  function Unescape(c: char): char {
    if c == '0' then '\0'
    else if c == 'b' then 8 as char
    else if c == 't' then '\t'
    else if c == 'r' then '\r'
    else if c == 'n' then '\n'
    else c
  }

  /** Literals are copied verbatim. */
  lemma {:induction false} LiteralsVerbatim(d: Dialect, text: string, mode: Mode, body: Option<string>)
    requires QuotesAnsi(d) && (body.Some? <==> mode.inString)
    ensures Literals(Image(d, text, mode), body) == Literals(text, body)
  {
    if text != [] {
      ImageIsCharwise(d, text, mode);
      var turned := Turn(mode, text[0]);
      var body' := if text[0] == '\'' then (if body.Some? then None else Some(""))
                   else if body.Some? then Some(body.value + [text[0]]) else None;
      LiteralsVerbatim(d, text[1..], turned, body');
      assert Image(d, text, mode)[1..] == Image(d, text[1..], turned);
    }
  }

  /** No quote of a literal among the things the dialect puts outside literals. */
  predicate KeepsQuotes(d: Dialect) {
    '\'' !in d.concatOperator && d.QuoteBegin() != '\'' && d.QuoteEnd() != '\''
  }

  lemma {:induction false} MySqlCode(code: string, rest: string)
    requires '\'' !in code
    ensures MySqlLiterals(code + rest, None) == MySqlLiterals(rest, None)
  {
    if code == [] {
      assert code + rest == rest;
    } else {
      assert code[0] in code && (code + rest)[1..] == code[1..] + rest;
      MySqlCode(code[1..], rest);
    }
  }

  lemma MySqlBodyChar(c: char, rest: string, body: string)
    requires c != '\''
    ensures MySqlLiterals(EscapeChar(c) + rest, Some(body)) == MySqlLiterals(rest, Some(body + [c]))
  {
    var e := EscapeChar(c);
    assert (e + rest)[|e|..] == rest;
  }

  /** MySQL reads from the translation exactly the literals of the source: every body comes back
      from its escapes, and no body swallows its closing quote. */
  lemma {:induction false} MySqlReadsTheLiterals(d: Dialect, text: string, mode: Mode, body: Option<string>)
    requires d.dbms.MySql? && KeepsQuotes(d) && (body.Some? <==> mode.inString)
    ensures MySqlLiterals(Image(d, text, mode), body) == Literals(text, body)
    decreases |text|
  {
    if text != [] {
      var c, rest := text[0], text[1..];
      if IsConcat(text, 0, mode) {
        MySqlCode(d.concatOperator, Image(d, text[2..], mode));
        MySqlReadsTheLiterals(d, text[2..], mode, body);
        assert Literals(text, None) == Literals(rest, None) == Literals(rest[1..], None);
        assert rest[1..] == text[2..];
      } else {
        var turned, out := Turn(mode, c), OutChar(d, c, mode);
        var image := Image(d, rest, turned);
        if c == '\'' {
          assert (out + image)[1..] == image;
          MySqlReadsTheLiterals(d, rest, turned, if body.Some? then None else Some(""));
        } else if mode.inString {
          MySqlBodyChar(c, image, body.value);
          MySqlReadsTheLiterals(d, rest, turned, Some(body.value + [c]));
        } else {
          MySqlCode(out, image);
          MySqlReadsTheLiterals(d, rest, turned, None);
        }
      }
    }
  }

  /** For whole statements. */
  lemma LiteralsSurvive(d: Dialect, text: string)
    requires IsPlain(text)
    ensures Convert(d, text).Ok?
    ensures QuotesAnsi(d) ==> Literals(Convert(d, text).value, None) == Literals(TrimLeft(text), None)
    ensures d.dbms.MySql? && KeepsQuotes(d) ==>
              MySqlLiterals(Convert(d, text).value, None) == Literals(TrimLeft(text), None)
  {
    PlainConvert(d, text);
    if QuotesAnsi(d) { LiteralsVerbatim(d, TrimLeft(text), CODE, None); }
    if d.dbms.MySql? && KeepsQuotes(d) { MySqlReadsTheLiterals(d, TrimLeft(text), CODE, None); }
  }
}
