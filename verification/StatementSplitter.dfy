/** Cutting a text into statements at the semicolons outside quotes. */
module StatementSplitter {
  import opened Wrappers

  // ----- what a cut is: a quote opens until the same quote comes again

  function Toggle(quote: Option<char>, c: char): Option<char> {
    if quote.None? then (if c == '\'' || c == '"' then Some(c) else None)
    else if c == quote.value then None
    else quote
  }

  /** The length of the first statement. */
  function CutAt(text: string, quote: Option<char>): (e: nat)
    ensures e <= |text| && (e < |text| ==> text[e] == ';')
  {
    if text == [] || (quote.None? && text[0] == ';') then 0 else 1 + CutAt(text[1..], Toggle(quote, text[0]))
  }

  function Split(text: string): seq<string>
    decreases |text|
  {
    if text == [] then [] else [FirstPiece(text)] + Split(AfterFirst(text))
  }

  function FirstPiece(text: string): string {
    text[..CutAt(text, None)]
  }

  /** What follows the first cut. */
  function AfterFirst(text: string): (rest: string)
    ensures text != [] ==> |rest| < |text|
    ensures text == FirstPiece(text) + ";" + rest || (rest == [] && text == FirstPiece(text))
    ensures FirstPiece(text) == [] && text != [] ==> text == ";" + rest
  {
    var e := CutAt(text, None);
    if e < |text| then
      assert text == text[..e] + ";" + text[e + 1..];
      text[e + 1..]
    else []
  }

  function Join(pieces: seq<string>): string {
    if pieces == [] then ""
    else if |pieces| == 1 then pieces[0]
    else pieces[0] + ";" + Join(pieces[1..])
  }

  function QuoteAfter(text: string, quote: Option<char>): Option<char> {
    if text == [] then quote else QuoteAfter(text[1..], Toggle(quote, text[0]))
  }

  predicate NoCut(piece: string) {
    CutAt(piece, None) == |piece|
  }

  predicate Closed(piece: string) {
    QuoteAfter(piece, None).None?
  }

  // ----- the scanner

  method FindChar(text: string, from: nat, c: char) returns (i: nat)
    requires from <= |text|
    ensures from <= i <= |text| && (i < |text| ==> text[i] == c)
    ensures forall k :: from <= k < i ==> text[k] != c
  {
    i := from;
    while i < |text| && text[i] != c
      invariant from <= i <= |text| && forall k :: from <= k < i ==> text[k] != c
    {
      i := i + 1;
    }
  }

  /** The same cut, in positions. */
  function CutFrom(text: string, p: nat, quote: Option<char>): (e: nat)
    requires p <= |text|
    ensures p <= e <= |text|
    decreases |text| - p
  {
    if p == |text| || (quote.None? && text[p] == ';') then p else CutFrom(text, p + 1, Toggle(quote, text[p]))
  }

  lemma {:induction false} CutFromIsCutAt(text: string, p: nat, quote: Option<char>)
    requires p <= |text|
    ensures CutFrom(text, p, quote) == p + CutAt(text[p..], quote)
    decreases |text| - p
  {
    if p < |text| {
      assert text[p..][1..] == text[p + 1..];
      CutFromIsCutAt(text, p + 1, Toggle(quote, text[p]));
    }
  }

  lemma {:induction false} CutInQuote(text: string, p: nat, q: nat, quote: char)
    requires p <= q <= |text| && forall k :: p <= k < q ==> text[k] != quote
    ensures CutFrom(text, p, Some(quote)) == CutFrom(text, q, Some(quote))
    decreases q - p
  {
    if p < q { CutInQuote(text, p + 1, q, quote); }
  }

  /** Steps over a quoted stretch, doubled quotes and a missing closing quote included. */
  method SkipQuoted(text: string, p0: nat) returns (p: nat)
    requires p0 < |text| && (text[p0] == '\'' || text[p0] == '"')
    ensures p0 < p <= |text|
    ensures CutFrom(text, p0, None) == CutFrom(text, p, None)
  {
    var quote := text[p0];
    p := p0 + 1;
    if p == |text| { return; }
    while true
      invariant p0 < p < |text| && CutFrom(text, p0, None) == CutFrom(text, p, Some(quote))
      decreases |text| - p
    {
      var q := FindChar(text, p, quote);
      CutInQuote(text, p, q, quote);
      if q == |text| { p := |text|; break; }
      p := q + 1;
      if p == |text| || text[p] != quote { break; }
      p := p + 1;
      if p == |text| { break; }
    }
  }

  /** The end of the statement at `p0`. */
  method StatementEnd(text: string, p0: nat) returns (p: nat)
    requires p0 <= |text|
    ensures p == CutFrom(text, p0, None)
  {
    p := p0;
    while p < |text| && text[p] != ';'
      invariant p0 <= p <= |text| && CutFrom(text, p0, None) == CutFrom(text, p, None)
    {
      if text[p] == '\'' || text[p] == '"' {
        p := SkipQuoted(text, p);
      } else {
        p := p + 1;
      }
    }
  }

  lemma SplitAt(text: string, p0: nat)
    requires p0 < |text|
    ensures var p := CutFrom(text, p0, None);
            FirstPiece(text[p0..]) == text[p0..p] && AfterFirst(text[p0..]) == (if p < |text| then text[p + 1..] else [])
  {
    var p := CutFrom(text, p0, None);
    CutFromIsCutAt(text, p0, None);
    assert text[p0..][..p - p0] == text[p0..p];
    if p < |text| { assert text[p0..][p - p0 + 1..] == text[p + 1..]; }
  }

  method SplitStatements(text: string) returns (pieces: seq<string>)
    ensures pieces == Split(text)
  {
    pieces := [];
    var p := 0;
    assert text[0..] == text;
    while p < |text|
      invariant p <= |text| && Split(text) == pieces + Split(text[p..])
    {
      SplitAt(text, p);
      ghost var before, rest := pieces, text[p..];
      var p0 := p;
      p := StatementEnd(text, p0);
      pieces := pieces + [text[p0..p]];
      if p < |text| { p := p + 1; }
      assert text[p..] == AfterFirst(rest);
      assert before + ([FirstPiece(rest)] + Split(text[p..])) == pieces + Split(text[p..]);
    }
  }

  /** `execute_direct`: the statements it executes one by one. */
  method ExecuteDirect(text: string) returns (pieces: seq<string>)
    ensures pieces == if "-split- " <= text then [text[8..]] else Split(text)
  {
    if "-split- " <= text {
      pieces := [text[8..]];
    } else {
      pieces := SplitStatements(text);
    }
  }

  // ----- cutting and joining

  lemma JoinCons(first: string, rest: seq<string>)
    ensures Join([first] + rest) == if rest == [] then first else first + ";" + Join(rest)
  {
    assert ([first] + rest)[1..] == rest;
  }

  /** The text is the pieces, but for a semicolon at its end. */
  predicate JoinsTo(pieces: seq<string>, text: string) {
    var joined := Join(pieces);
    && (joined == text || joined + ";" == text)
    && (pieces != [] && pieces[|pieces| - 1] == "" ==> joined + ";" == text)
  }

  lemma JoinsToCons(first: string, rest: seq<string>, after: string)
    requires rest != [] && JoinsTo(rest, after)
    ensures JoinsTo([first] + rest, first + ";" + after)
  {
    JoinCons(first, rest);
    var joined, start := Join(rest), first + ";";
    assert start + (joined + ";") == start + joined + ";";
    var all := [first] + rest;
    assert all[|all| - 1] == rest[|rest| - 1];
  }

  /** The pieces, joined, give back the text, but for a semicolon at its end. */
  lemma {:induction false} SplitThenJoin(text: string)
    ensures JoinsTo(Split(text), text)
    decreases |text|
  {
    if text != [] {
      var first, after := FirstPiece(text), AfterFirst(text);
      if after == [] {
        assert Split(text) == [first];
        assert first + ";" + [] == first + ";";
      } else {
        SplitThenJoin(after);
        JoinsToCons(first, Split(after), after);
      }
    }
  }

  lemma {:induction false} CutPrefix(a: string, b: string, quote: Option<char>)
    requires CutAt(a, quote) == |a|
    ensures CutAt(a + b, quote) == |a| + CutAt(b, QuoteAfter(a, quote))
  {
    if a == [] {
      assert a + b == b;
    } else {
      assert (a + b)[1..] == a[1..] + b;
      CutPrefix(a[1..], b, Toggle(quote, a[0]));
    }
  }

  /** What precedes a cut holds none, and its quotes are closed. */
  lemma {:induction false} BeforeCut(text: string, quote: Option<char>)
    ensures var e := CutAt(text, quote);
            CutAt(text[..e], quote) == e && (e < |text| ==> QuoteAfter(text[..e], quote).None?)
  {
    var e := CutAt(text, quote);
    if e > 0 {
      BeforeCut(text[1..], Toggle(quote, text[0]));
      assert text[..e][1..] == text[1..][..e - 1];
    } else {
      assert text[..0] == [];
    }
  }

  predicate Cuttable(pieces: seq<string>) {
    && (forall i :: 0 <= i < |pieces| - 1 ==> NoCut(pieces[i]) && Closed(pieces[i]))
    && (pieces != [] ==> NoCut(pieces[|pieces| - 1]))
  }

  lemma CuttableCons(first: string, rest: seq<string>)
    requires NoCut(first) && (rest != [] ==> Closed(first)) && Cuttable(rest)
    ensures Cuttable([first] + rest)
  {
    var all := [first] + rest;
    assert forall i :: 0 <= i < |rest| ==> all[i + 1] == rest[i];
    forall i | 0 <= i < |all| - 1 ensures NoCut(all[i]) && Closed(all[i]) {
      assert all[i] == if i == 0 then first else rest[i - 1];
    }
  }

  lemma {:induction false} SplitIsCuttable(text: string)
    ensures Cuttable(Split(text))
    decreases |text|
  {
    if text != [] {
      BeforeCut(text, None);
      SplitIsCuttable(AfterFirst(text));
      CuttableCons(FirstPiece(text), Split(AfterFirst(text)));
    }
  }

  lemma {:induction false} JoinThenSplitBack(pieces: seq<string>)
    requires Cuttable(pieces) && pieces != [] && pieces[|pieces| - 1] != ""
    ensures Split(Join(pieces)) == pieces && Join(pieces) != ""
  {
    var first := pieces[0];
    if |pieces| == 1 {
      assert first[..|first|] == first;
      assert FirstPiece(first) == first && AfterFirst(first) == [];
      assert pieces == [first];
    } else {
      var rest := pieces[1..];
      assert forall i :: 0 <= i < |rest| ==> rest[i] == pieces[i + 1];
      JoinThenSplitBack(rest);
      FirstOfJoined(first, Join(rest));
      assert pieces == [first] + rest;
    }
  }

  lemma FirstOfJoined(first: string, rest: string)
    requires NoCut(first) && Closed(first)
    ensures FirstPiece(first + ";" + rest) == first && AfterFirst(first + ";" + rest) == rest
  {
    var text := first + ";" + rest;
    assert text == first + (";" + rest);
    CutPrefix(first, ";" + rest, None);
    assert text[..|first|] == first && text[|first| + 1..] == rest;
  }

  /** Joined pieces are cut back into the same pieces exactly when none holds a semicolon outside
      quotes, all but the last have their quotes closed, and the last is not empty. */
  lemma JoinThenSplit(pieces: seq<string>)
    ensures Split(Join(pieces)) == pieces <==>
            Cuttable(pieces) && (pieces != [] ==> pieces[|pieces| - 1] != "")
  {
    if Split(Join(pieces)) == pieces {
      SplitIsCuttable(Join(pieces));
      SplitThenJoin(Join(pieces));
    } else if Cuttable(pieces) && pieces != [] && pieces[|pieces| - 1] != "" {
      JoinThenSplitBack(pieces);
    }
  }
}
