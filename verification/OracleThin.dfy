/** Timestamps for Oracle's thin driver: `{ts'X'}` becomes a call of to_date. */
module OracleThin {

  const ORACLE_FORMAT := "','YYYY-MM-DD HH24:MI:SS')"

  /** The loop of the program ends, or it comes round to the same state for ever. */
  datatype Outcome = Done(text: string) | Diverges

  predicate IsQuote(c: char) {
    c == '\'' || c == '"'
  }

  /** A C string ends at its first NUL. */
  function CString(s: string): string {
    if s == [] || s[0] == '\0' then [] else [s[0]] + CString(s[1..])
  }

  predicate Contains(s: string, t: string) {
    t <= s || (s != [] && Contains(s[1..], t))
  }

  /** The first `c` at or after `p`, or the end. */
  function CharAt(s: string, p: nat, c: char): (q: nat)
    requires p <= |s|
    ensures p <= q <= |s| && (q < |s| ==> s[q] == c)
    ensures forall k :: p <= k < q ==> s[k] != c
    decreases |s| - p
  {
    if p == |s| || s[p] == c then p else CharAt(s, p + 1, c)
  }

  /** What follows the timestamp at the front: its quote and its brace are optional. */
  function AfterTimestamp(s: string): (rest: string)
    requires |s| >= 4
    ensures |rest| <= |s| - 4
  {
    var body := s[4..];
    var i := CharAt(body, 0, '\'');
    var rest := if i < |body| then body[i + 1..] else [];
    if rest != [] && rest[0] == '}' then rest[1..] else rest
  }

  function AfterQuoted(s: string): (rest: string)
    requires s != []
    ensures |rest| < |s|
  {
    var i := CharAt(s[1..], 0, s[0]);
    if i < |s| - 1 then s[i + 2..] else []
  }

  function Prefixed(piece: string, rest: Outcome): Outcome {
    if rest.Done? then Done(piece + rest.text) else Diverges
  }

  /** The rewriting, piece by piece from the left. */
  function Rewritten(s: string): Outcome
    decreases |s|
  {
    if s == [] then Done([])
    else if s[0] == '{' then
      if "{ts'" <= s then
        Prefixed(ToDate(s[4..][..CharAt(s[4..], 0, '\'')]), Rewritten(AfterTimestamp(s)))
      else Diverges
    else if IsQuote(s[0]) then
      Prefixed(s[..|s| - |AfterQuoted(s)|], Rewritten(AfterQuoted(s)))
    else Prefixed([s[0]], Rewritten(s[1..]))
  }

  // ----- the program

  /** The index of the first character from `p` on that `stop` names; NUL is no part of `s`. */
  method Scan(s: string, p0: nat, stop: set<char>) returns (p: nat)
    requires p0 <= |s|
    ensures p0 <= p <= |s| && (p < |s| ==> s[p] in stop)
    ensures forall k :: p0 <= k < p ==> s[k] !in stop
  {
    p := p0;
    while p < |s| && s[p] !in stop
      invariant p0 <= p <= |s| && forall k :: p0 <= k < p ==> s[k] !in stop
    {
      p := p + 1;
    }
  }

  lemma {:induction false} CharAtIs(s: string, p: nat, q: nat, c: char)
    requires p <= q <= |s| && (forall k :: p <= k < q ==> s[k] != c) && (q < |s| ==> s[q] == c)
    ensures CharAt(s, p, c) == q
    decreases q - p
  {
    if p < q { CharAtIs(s, p + 1, q, c); }
  }

  lemma CharAtBehind(s: string, p: nat, q: nat, c: char)
    requires p <= q <= |s| && (forall k :: p <= k < q ==> s[k] != c) && (q < |s| ==> s[q] == c)
    ensures CharAt(s[p..], 0, c) == q - p
  {
    CharAtIs(s[p..], 0, q - p, c);
  }

  lemma PrefixedTwice(a: string, b: string, r: Outcome)
    ensures Prefixed(a, Prefixed(b, r)) == Prefixed(a + b, r)
  {
    if r.Done? { assert a + (b + r.text) == a + b + r.text; }
  }

  /** The stretch from `p` to `q` becomes the piece. */
  predicate Becomes(s: string, p: nat, q: nat, piece: string)
    requires p <= q <= |s|
  {
    Rewritten(s[p..]) == Prefixed(piece, Rewritten(s[q..]))
  }

  /** The stretch is copied as it is. */
  predicate Copied(s: string, p: nat, q: nat)
    requires p <= q <= |s|
  {
    Becomes(s, p, q, s[p..q])
  }

  lemma BecomesOn(s: string, p: nat, q: nat, e: nat, a: string, b: string)
    requires p <= q <= e <= |s| && Becomes(s, p, q, a) && Becomes(s, q, e, b)
    ensures Becomes(s, p, e, a + b)
  {
    PrefixedTwice(a, b, Rewritten(s[e..]));
  }

  lemma CopiedOn(s: string, p: nat, q: nat, e: nat)
    requires p <= q <= e <= |s| && Copied(s, p, q) && Copied(s, q, e)
    ensures Copied(s, p, e)
  {
    BecomesOn(s, p, q, e, s[p..q], s[q..e]);
    assert s[p..q] + s[q..e] == s[p..e];
  }

  /** Nothing is behind the last character, and nothing before the first. */
  lemma BecomesAll(s: string, piece: string)
    requires Becomes(s, 0, |s|, piece)
    ensures Rewritten(s) == Done(piece)
  {
    assert s[0..] == s && s[|s|..] == [] && piece + [] == piece;
  }

  lemma BecomesNothing(s: string)
    ensures Becomes(s, 0, 0, "")
  {
    RewrittenPlain(s, 0, 0);
  }

  /** At another brace the program stays for ever. */
  lemma StaysAt(s: string, p: nat, piece: string)
    requires p < |s| && Becomes(s, 0, p, piece) && s[p] == '{' && !("{ts'" <= s[p..])
    ensures Rewritten(s) == Diverges
  {
    assert s[0..] == s && s[p..][0] == '{';
  }

  lemma {:induction false} RewrittenPlain(s: string, p: nat, q: nat)
    requires p <= q <= |s| && forall k :: p <= k < q ==> s[k] != '{' && !IsQuote(s[k])
    ensures Copied(s, p, q)
    decreases q - p
  {
    if p < q {
      RewrittenPlain(s, p + 1, q);
      assert s[p..][1..] == s[p + 1..];
      PrefixedTwice([s[p]], s[p + 1..q], Rewritten(s[q..]));
      assert s[p..q] == [s[p]] + s[p + 1..q];
    } else if Rewritten(s[p..]).Done? {
      assert [] + Rewritten(s[p..]).text == Rewritten(s[p..]).text;
    }
  }

  lemma AfterQuotedIs(s: string, p: nat, q: nat, e: nat)
    requires p < q <= |s|
    requires (forall k :: p < k < q ==> s[k] != s[p]) && (q < |s| ==> s[q] == s[p])
    requires e == if q < |s| then q + 1 else q
    ensures AfterQuoted(s[p..]) == s[e..]
  {
    CharAtBehind(s, p + 1, q, s[p]);
    assert s[p..][1..] == s[p + 1..];
  }

  lemma RewrittenQuoted(s: string, p: nat, q: nat, e: nat)
    requires p < q <= |s| && IsQuote(s[p])
    requires (forall k :: p < k < q ==> s[k] != s[p]) && (q < |s| ==> s[q] == s[p])
    requires e == if q < |s| then q + 1 else q
    ensures Copied(s, p, e)
  {
    AfterQuotedIs(s, p, q, e);
    var tail := s[p..];
    assert tail[0] == s[p];
    assert tail[..|tail| - |s[e..]|] == s[p..e];
  }

  /** Behind the literal at `p`, which may be unterminated. */
  function LiteralEnd(s: string, p: nat): (q: nat)
    requires p < |s|
    ensures p < q <= |s|
  {
    var q := CharAt(s, p + 1, s[p]);
    if q < |s| then q + 1 else q
  }

  /** Behind a character, or behind a literal. */
  function Behind(s: string, p: nat): (q: nat)
    requires p < |s|
    ensures p < q <= |s|
  {
    if IsQuote(s[p]) then LiteralEnd(s, p) else p + 1
  }

  /** The first brace outside literals at or after `p`, or the end. */
  function BraceAt(s: string, p: nat): (q: nat)
    requires p <= |s|
    ensures p <= q <= |s| && (q < |s| ==> s[q] == '{')
    decreases |s| - p
  {
    if p == |s| || s[p] == '{' then p
    else BraceAt(s, Behind(s, p))
  }

  lemma CopiedBehind(s: string, p: nat)
    requires p < |s| && s[p] != '{'
    ensures Copied(s, p, Behind(s, p))
  {
    if IsQuote(s[p]) { RewrittenQuoted(s, p, CharAt(s, p + 1, s[p]), Behind(s, p)); } else { RewrittenPlain(s, p, p + 1); }
  }

  lemma {:induction false} CopiedToBrace(s: string, p: nat)
    requires p <= |s|
    ensures Copied(s, p, BraceAt(s, p))
    decreases |s| - p
  {
    if p == |s| || s[p] == '{' {
      RewrittenPlain(s, p, p);
    } else {
      CopiedToBrace(s, Behind(s, p));
      CopiedBehind(s, p);
      CopiedOn(s, p, Behind(s, p), BraceAt(s, p));
    }
  }

  lemma {:induction false} BraceBehind(s: string, p: nat, q: nat)
    requires p <= q <= |s| && forall k :: p <= k < q ==> s[k] != '{' && !IsQuote(s[k])
    ensures BraceAt(s, p) == BraceAt(s, q)
    decreases q - p
  {
    if p < q { BraceBehind(s, p + 1, q); }
  }

  /** Steps over text up to a brace or a quote, and over the literal that starts with that quote. */
  method SkipStretch(s: string, p0: nat) returns (p: nat)
    requires p0 < |s| && s[p0] != '{'
    ensures p0 < p <= |s| && BraceAt(s, p0) == BraceAt(s, p)
  {
    p := Scan(s, p0, {'{', '\'', '"'});
    BraceBehind(s, p0, p);
    if p < |s| && IsQuote(s[p]) {
      var end := Scan(s, p + 1, {s[p]});
      CharAtIs(s, p + 1, end, s[p]);
      p := if end < |s| then end + 1 else end;
    }
  }

  /** The two inner loops: up to the next brace outside literals. */
  method SkipToBrace(s: string, p0: nat) returns (p: nat)
    requires p0 <= |s|
    ensures p == BraceAt(s, p0)
  {
    p := p0;
    while p < |s| && s[p] != '{'
      invariant p0 <= p <= |s| && BraceAt(s, p0) == BraceAt(s, p)
    {
      p := SkipStretch(s, p);
    }
  }

  /** Behind the quote at `q` and a brace, both of which may be missing. */
  function TimestampEnd(s: string, q: nat): (e: nat)
    requires q <= |s|
    ensures q <= e <= |s|
  {
    var e := if q < |s| then q + 1 else q;
    if e < |s| && s[e] == '}' then e + 1 else e
  }

  function ToDate(body: string): string {
    "to_date('" + body + ORACLE_FORMAT
  }

  lemma AfterTimestampIs(s: string, p: nat, q: nat)
    requires p + 4 <= q <= |s|
    requires (forall k :: p + 4 <= k < q ==> s[k] != '\'') && (q < |s| ==> s[q] == '\'')
    ensures AfterTimestamp(s[p..]) == s[TimestampEnd(s, q)..]
    ensures s[p..][4..][..CharAt(s[p..][4..], 0, '\'')] == s[p + 4..q]
  {
    var body := s[p + 4..];
    CharAtBehind(s, p + 4, q, '\'');
    assert s[p..][4..] == body && CharAt(body, 0, '\'') == q - p - 4;
    assert body[..q - p - 4] == s[p + 4..q];
    if q < |s| {
      assert body[q - p - 4 + 1..] == s[q + 1..];
      if q + 1 < |s| && s[q + 1] == '}' { assert s[q + 1..][1..] == s[q + 2..]; }
    }
  }

  lemma RewrittenTimestamp(s: string, p: nat, q: nat)
    requires p + 4 <= q <= |s| && "{ts'" <= s[p..]
    requires (forall k :: p + 4 <= k < q ==> s[k] != '\'') && (q < |s| ==> s[q] == '\'')
    ensures Becomes(s, p, TimestampEnd(s, q), ToDate(s[p + 4..q]))
  {
    AfterTimestampIs(s, p, q);
    assert s[p..][0] == '{';
  }

  // ----- the outer loop

  /** The pointer, and what has been written. */
  datatype State = State(p: nat, modified: string)

  /** One round of the outer loop. */
  function Round(s: string, st: State): (st': State)
    requires st.p <= |s|
    ensures st.p <= st'.p <= |s|
  {
    var q := BraceAt(s, st.p);
    var copied := st.modified + s[st.p..q];
    if "{ts'" <= s[q..] then
      var e := CharAt(s, q + 4, '\'');
      State(TimestampEnd(s, e), copied + ToDate(s[q + 4..e]))
    else State(q, copied)
  }

  function Iterated<T>(f: T -> T, x: T, n: nat): T {
    if n == 0 then x else f(Iterated(f, x, n - 1))
  }

  lemma {:induction false} StaysFixed<T>(f: T -> T, x: T, n: nat, m: nat)
    requires n <= m && f(Iterated(f, x, n)) == Iterated(f, x, n)
    ensures Iterated(f, x, m) == Iterated(f, x, n)
    decreases m
  {
    if n < m { StaysFixed(f, x, n, m - 1); }
  }

  /** The loop ends with the text. */
  function Loop(s: string): State -> State {
    (st: State) => if st.p < |s| then Round(s, st) else st
  }

  /** The state after `n` rounds. */
  function Rounds(s: string, n: nat): State {
    Iterated(Loop(s), State(0, ""), n)
  }

  /** However many rounds the loop has made, there is another. */
  ghost predicate NeverEnds(s: string) {
    forall n: nat :: Rounds(s, n).p < |s|
  }

  /** What has been written is what the text before the pointer becomes. */
  lemma RoundBecomes(s: string, st: State)
    requires st.p <= |s| && Becomes(s, 0, st.p, st.modified)
    ensures Becomes(s, 0, Round(s, st).p, Round(s, st).modified)
  {
    var q := BraceAt(s, st.p);
    CopiedToBrace(s, st.p);
    BecomesOn(s, 0, st.p, q, st.modified, s[st.p..q]);
    if "{ts'" <= s[q..] {
      var e := CharAt(s, q + 4, '\'');
      RewrittenTimestamp(s, q, e);
      BecomesOn(s, 0, q, TimestampEnd(s, e), st.modified + s[st.p..q], ToDate(s[q + 4..e]));
    }
  }

  ghost predicate Faithful(s: string, st: State) {
    st.p <= |s| && Becomes(s, 0, st.p, st.modified)
  }

  lemma LoopKeepsFaithful(s: string, st: State)
    requires Faithful(s, st)
    ensures Faithful(s, Loop(s)(st))
  {
    if st.p < |s| { RoundBecomes(s, st); }
  }

  lemma {:induction false} RoundsBecome(s: string, n: nat)
    ensures Faithful(s, Rounds(s, n))
  {
    if n == 0 {
      BecomesNothing(s);
    } else {
      RoundsBecome(s, n - 1);
      LoopKeepsFaithful(s, Rounds(s, n - 1));
    }
  }

  /** A round that does not move the pointer changes nothing, and it stands at a brace that opens
      something else than a timestamp. */
  lemma RoundStands(s: string, st: State)
    requires st.p < |s|
    ensures Round(s, st).p == st.p <==> s[st.p] == '{' && !("{ts'" <= s[st.p..])
    ensures Round(s, st).p == st.p ==> Round(s, st) == st
  {
    assert s[st.p..st.p] == "" && st.modified + "" == st.modified;
    assert s[st.p..][0] == s[st.p];
  }

  lemma EndsOrStands(s: string, n: nat)
    requires Rounds(s, n).p < |s| && Loop(s)(Rounds(s, n)) == Rounds(s, n)
    ensures NeverEnds(s)
  {
    forall m: nat ensures Rounds(s, m).p < |s| {
      RoundsBecome(s, m);
      if n <= m {
        StaysFixed(Loop(s), State(0, ""), n, m);
      } else if Rounds(s, m).p == |s| {
        StaysFixed(Loop(s), State(0, ""), m, n);
      }
    }
  }

  ghost predicate EndsWith(s: string, text: string) {
    exists n: nat :: Rounds(s, n) == State(|s|, text)
  }

  ghost predicate LoopAgrees(s: string, r: Outcome) {
    if r.Done? then EndsWith(s, r.text) && !NeverEnds(s) else NeverEnds(s)
  }

  lemma LoopEnds(s: string, n: nat)
    requires Rounds(s, n).p == |s|
    ensures LoopAgrees(s, Rewritten(s))
  {
    var st := Rounds(s, n);
    RoundsBecome(s, n);
    BecomesAll(s, st.modified);
    assert st == State(|s|, st.modified);
  }

  lemma LoopStands(s: string, n: nat)
    requires Rounds(s, n).p < |s| && Round(s, Rounds(s, n)).p == Rounds(s, n).p
    ensures LoopAgrees(s, Rewritten(s))
  {
    var st := Rounds(s, n);
    RoundsBecome(s, n);
    RoundStands(s, st);
    StaysAt(s, st.p, st.modified);
    EndsOrStands(s, n);
  }

  lemma {:induction false} LoopFrom(s: string, n: nat)
    requires Rounds(s, n).p <= |s|
    ensures LoopAgrees(s, Rewritten(s))
    decreases |s| - Rounds(s, n).p
  {
    var st := Rounds(s, n);
    if st.p == |s| {
      LoopEnds(s, n);
    } else if Round(s, st).p == st.p {
      LoopStands(s, n);
    } else {
      assert Rounds(s, n + 1) == Loop(s)(st);
      LoopFrom(s, n + 1);
    }
  }

  /** The loop ends with a text exactly when that is the rewriting, and never ends exactly when
      there is none. */
  lemma LoopRewrites(s: string)
    ensures LoopAgrees(s, Rewritten(s))
  {
    LoopFrom(s, 0);
  }

  method MakeRound(s: string, st: State) returns (st': State)
    requires st.p <= |s|
    ensures st' == Round(s, st)
  {
    var p := SkipToBrace(s, st.p);
    var modified := st.modified + s[st.p..p];
    if "{ts'" <= s[p..] {
      var e, next := ScanTimestamp(s, p);
      modified := modified + ToDate(s[p + 4..e]);
      p := next;
    }
    st' := State(p, modified);
  }

  method ScanTimestamp(s: string, p: nat) returns (e: nat, next: nat)
    requires p + 4 <= |s|
    ensures e == CharAt(s, p + 4, '\'') && next == TimestampEnd(s, e)
  {
    e := Scan(s, p + 4, {'\''});
    CharAtIs(s, p + 4, e, '\'');
    next := if e < |s| then e + 1 else e;
    if next < |s| && s[next] == '}' { next := next + 1; }
  }

  /** The outer loop. A round that moves nothing is met again by the next, and so for ever. */
  method Modify(s: string) returns (r: Outcome)
    ensures r == Rewritten(s) && (r.Diverges? <==> NeverEnds(s))
  {
    LoopRewrites(s);
    var st := State(0, "");
    ghost var n: nat := 0;
    while st.p < |s|
      invariant st == Rounds(s, n)
      decreases |s| - st.p
    {
      var next := MakeRound(s, st);
      if next.p == st.p {
        RoundStands(s, st);
        RoundsBecome(s, n);
        StaysAt(s, st.p, st.modified);
        return Diverges;
      }
      st := next;
      n := n + 1;
    }
    RoundsBecome(s, n);
    BecomesAll(s, st.modified);
    r := Done(st.modified);
  }

  /** The statement as the program returns it. Text without the opening of a timestamp is not even
      looked through. */
  function Modified(stmt: string): Outcome {
    if Contains(stmt, "{ts'") then Rewritten(CString(stmt)) else Done(stmt)
  }

  ghost predicate RunsForEver(stmt: string) {
    Contains(stmt, "{ts'") && NeverEnds(CString(stmt))
  }

  /** `modify_oracle_thin_stmt` */
  method ModifyOracleThinStmt(stmt: string) returns (r: Outcome)
    ensures r == Modified(stmt)
    ensures r.Diverges? <==> RunsForEver(stmt)
  {
    if !Contains(stmt, "{ts'") { return Done(stmt); }
    r := Modify(CString(stmt));
  }

  // ----- what it means

  /** Pieces of a statement: text without quotes and braces, a literal, and a timestamp, whose
      closing brace may be missing. */
  datatype Segment = Text(text: string) | Literal(quote: char, body: string) | Timestamp(body: string, closed: bool) {
    predicate Fits(rest: string) {
      match this
      case Text(s) => '{' !in s && '\'' !in s && '"' !in s
      case Literal(q, s) => IsQuote(q) && q !in s
      case Timestamp(s, closed) => '\'' !in s && (closed || rest == [] || rest[0] != '}')
    }

    function Source(): string {
      match this
      case Text(s) => s
      case Literal(q, s) => [q] + s + [q]
      case Timestamp(s, closed) => "{ts'" + s + "'" + if closed then "}" else ""
    }

    function Oracle(): string {
      match this
      case Text(s) => s
      case Literal(q, s) => [q] + s + [q]
      case Timestamp(s, _) => ToDate(s)
    }
  }

  function Source(segments: seq<Segment>): string {
    if segments == [] then [] else segments[0].Source() + Source(segments[1..])
  }

  function Oracle(segments: seq<Segment>): string {
    if segments == [] then [] else segments[0].Oracle() + Oracle(segments[1..])
  }

  predicate AllFit(segments: seq<Segment>, rest: string) {
    segments == [] || (segments[0].Fits(Source(segments[1..]) + rest) && AllFit(segments[1..], rest))
  }

  lemma RewrittenSegment(segment: Segment, rest: string)
    requires segment.Fits(rest)
    ensures Rewritten(segment.Source() + rest) == Prefixed(segment.Oracle(), Rewritten(rest))
  {
    var s := segment.Source() + rest;
    assert s[0..] == s && s[|segment.Source()|..] == rest;
    match segment
    case Text(t) =>
      assert forall k :: 0 <= k < |t| ==> s[k] == t[k] && t[k] in t;
      RewrittenPlain(s, 0, |t|);
      assert s[0..|t|] == t;
    case Literal(q, b) =>
      assert forall k :: 0 < k < |b| + 1 ==> s[k] == b[k - 1] && b[k - 1] in b;
      RewrittenQuoted(s, 0, |b| + 1, |b| + 2);
      assert s[0..|b| + 2] == [q] + b + [q];
    case Timestamp(b, closed) =>
      TimestampSegment(b, closed, rest);
  }

  lemma TimestampShape(b: string, closed: bool, rest: string)
    requires '\'' !in b && (closed || rest == [] || rest[0] != '}')
    ensures var source := Timestamp(b, closed).Source();
            var s := source + rest;
            && "{ts'" <= s && s[4..|b| + 4] == b && s[|b| + 4] == '\''
            && (forall k :: 4 <= k < |b| + 4 ==> s[k] != '\'')
            && TimestampEnd(s, |b| + 4) == |source|
  {
    var s := Timestamp(b, closed).Source() + rest;
    var tail := "'" + (if closed then "}" else "") + rest;
    assert s == "{ts'" + b + tail;
    forall k | 4 <= k < |b| + 4 ensures s[k] != '\'' { assert s[k] == b[k - 4] && b[k - 4] in b; }
  }

  lemma TimestampSegment(b: string, closed: bool, rest: string)
    requires '\'' !in b && (closed || rest == [] || rest[0] != '}')
    ensures Rewritten(Timestamp(b, closed).Source() + rest) == Prefixed(Timestamp(b, closed).Oracle(), Rewritten(rest))
  {
    var source := Timestamp(b, closed).Source();
    var s := source + rest;
    TimestampShape(b, closed, rest);
    assert s[0..] == s && s[|source|..] == rest;
    RewrittenTimestamp(s, 0, |b| + 4);
  }

  /** Timestamps outside literals are replaced; all other text, and every literal, is kept. What
      follows the segments is rewritten on its own. */
  lemma {:induction false} RewritesOnlyTimestamps(segments: seq<Segment>, rest: string)
    requires AllFit(segments, rest)
    ensures Rewritten(Source(segments) + rest) == Prefixed(Oracle(segments), Rewritten(rest))
    decreases |segments|
  {
    if segments == [] {
      assert [] + rest == rest;
      assert Rewritten(rest).Done? ==> [] + Rewritten(rest).text == Rewritten(rest).text;
    } else {
      var after := Source(segments[1..]) + rest;
      assert Source(segments) + rest == segments[0].Source() + after;
      RewrittenSegment(segments[0], after);
      RewritesOnlyTimestamps(segments[1..], rest);
      PrefixedTwice(segments[0].Oracle(), Oracle(segments[1..]), Rewritten(rest));
    }
  }

  predicate StartsOtherBrace(s: string) {
    s != [] && s[0] == '{' && !("{ts'" <= s)
  }

  lemma LeadingTimestamp(s: string) returns (first: Segment, after: string)
    requires "{ts'" <= s
    ensures after == AfterTimestamp(s) && (after == [] || (s == first.Source() + after && first.Fits(after)))
  {
    var body := s[4..];
    var i := CharAt(body, 0, '\'');
    after := AfterTimestamp(s);
    first := Timestamp(body[..i], i + 1 < |body| && body[i + 1] == '}');
    if i < |body| {
      var brace := if first.closed then "}" else "";
      assert body[i + 1..] == brace + after;
      TimestampParts(s, i, brace, after);
    }
  }

  lemma TimestampParts(s: string, i: nat, brace: string, after: string)
    requires "{ts'" <= s && i + 4 < |s| && s[i + 4] == '\'' && s[4..][i + 1..] == brace + after
    ensures s == "{ts'" + s[4..][..i] + "'" + brace + after
  {
    var body := s[4..];
    assert body == body[..i] + "'" + body[i + 1..];
    assert s == s[..4] + body;
    var start, x := "{ts'", body[..i];
    assert start + (x + "'" + (brace + after)) == start + x + "'" + brace + after;
  }

  lemma LeadingLiteral(s: string) returns (first: Segment, after: string)
    requires s != [] && IsQuote(s[0])
    ensures after == AfterQuoted(s) && (after == [] || (s == first.Source() + after && first.Fits(after)))
  {
    var i := CharAt(s[1..], 0, s[0]);
    after := AfterQuoted(s);
    first := Literal(s[0], s[1..][..i]);
    if i < |s| - 1 {
      assert s == [s[0]] + s[1..][..i] + [s[0]] + s[i + 2..];
    }
  }

  /** Behind well-formed segments, a brace opens something else than a timestamp. */
  predicate StuckBehind(s: string, segments: seq<Segment>, rest: string) {
    AllFit(segments, rest) && StartsOtherBrace(rest) && s == Source(segments) + rest
  }

  lemma StuckOneMore(first: Segment, after: string, more: seq<Segment>, rest: string)
    requires first.Fits(after) && StuckBehind(after, more, rest)
    ensures StuckBehind(first.Source() + after, [first] + more, rest)
  {
    var segments := [first] + more;
    assert segments[0] == first && segments[1..] == more;
    assert first.Source() + (Source(more) + rest) == first.Source() + Source(more) + rest;
  }

  lemma LeadingSegment(s: string) returns (first: Segment, after: string)
    requires Rewritten(s).Diverges? && !StartsOtherBrace(s)
    ensures |after| < |s| && Rewritten(after).Diverges? && s == first.Source() + after && first.Fits(after)
  {
    assert Rewritten([]) == Done([]);
    if s[0] == '{' {
      first, after := LeadingTimestamp(s);
    } else if IsQuote(s[0]) {
      first, after := LeadingLiteral(s);
    } else {
      first, after := Text([s[0]]), s[1..];
    }
  }

  /** The segments in front of the brace that stops the program. */
  lemma {:induction false} StuckBehindSegments(s: string) returns (segments: seq<Segment>, rest: string)
    requires Rewritten(s).Diverges?
    ensures StuckBehind(s, segments, rest)
    decreases |s|
  {
    if StartsOtherBrace(s) {
      segments, rest := [], s;
      assert [] + s == s;
    } else {
      var first, after := LeadingSegment(s);
      var more: seq<Segment>;
      more, rest := StuckBehindSegments(after);
      StuckOneMore(first, after, more, rest);
      segments := [first] + more;
    }
  }

  lemma StuckDiverges(s: string, segments: seq<Segment>, rest: string)
    requires StuckBehind(s, segments, rest)
    ensures Rewritten(s).Diverges?
  {
    RewritesOnlyTimestamps(segments, rest);
  }

  ghost predicate BracesAstray(s: string) {
    exists segments, rest :: StuckBehind(s, segments, rest)
  }

  lemma StuckIff(s: string)
    ensures NeverEnds(s) <==> BracesAstray(s)
  {
    LoopRewrites(s);
    if Rewritten(s).Diverges? {
      var segments, rest := StuckBehindSegments(s);
      assert StuckBehind(s, segments, rest);
    } else if BracesAstray(s) {
      var segments, rest :| StuckBehind(s, segments, rest);
      StuckDiverges(s, segments, rest);
    }
  }

  /** The program runs for ever exactly on statements that hold the opening of a timestamp somewhere,
      and in which, behind well-formed segments, a brace opens something else. */
  lemma DivergesIff(stmt: string)
    ensures RunsForEver(stmt) <==>
            Contains(stmt, "{ts'") && BracesAstray(CString(stmt))
  {
    StuckIff(CString(stmt));
  }
}
