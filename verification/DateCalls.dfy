/** Dates and timestamps in a statement: which text is one, and what becomes of it. */
module DateCalls {
  import opened SqlChars
  import opened SqlDialect
  import opened StmtSpec
  import opened Wrappers

  predicate Run(cls: Class, text: string, p: nat, e: nat) {
    p <= e <= |text| && forall i :: p <= i < e ==> cls.Has(text[i])
  }

  /** The text from `p` is `%letters ( 'date' )` with blanks where these are: the letters end at `a`,
      the parenthesis is at `q`, the quotes at `r` and `e`, the closing parenthesis at `t`. */
  predicate IsDateCall(text: string, p: nat, a: nat, q: nat, r: nat, e: nat, t: nat) {
    && p < a <= q < r < e < t < |text|
    && Run(Alpha, text, p + 1, a) && Run(Space, text, a, q) && text[q] == '('
    && Run(Space, text, q + 1, r) && text[r] == '\''
    && (forall i :: r < i < e ==> text[i] != '\'') && text[e] == '\''
    && Run(Space, text, e + 1, t) && text[t] == ')'
  }

  /** The dialect's literal for the date between the quotes, and the place behind `t`. */
  predicate IsTranslated(d: Dialect, text: string, isDate: bool, r: nat, e: nat, t: nat, piece: Piece)
    requires r < e <= |text|
  {
    var date := d.dateText(text[r + 1..e], isDate);
    date.Some? && piece == Piece(DateLiteral(d, isDate, date.value), t + 1)
  }

  /** What is made of it: the literal for the same date, and the whole call is consumed. */
  ghost predicate Yields(d: Dialect, text: string, p: nat, isDate: bool, piece: Piece) {
    exists a: nat, q: nat, r: nat, e: nat, t: nat ::
      IsDateCall(text, p, a, q, r, e, t) && IsTranslated(d, text, isDate, r, e, t, piece)
  }

  lemma {:induction false} QuoteIs(text: string, p: nat, e: nat)
    requires p <= e < |text| && (forall i :: p <= i < e ==> text[i] != '\'') && text[e] == '\''
    ensures QuoteAt(text, p) == e
    decreases e - p
  {
    if p < e { QuoteIs(text, p + 1, e); }
  }

  /** The places in a call are the only ones. */
  lemma CallPlaces(text: string, p: nat, a: nat, q: nat, r: nat, e: nat, t: nat)
    requires IsDateCall(text, p, a, q, r, e, t)
    ensures Skip(Space, text, Skip(Alpha, text, p + 1)) == q && Skip(Space, text, q + 1) == r
    ensures QuoteAt(text, r + 1) == e && Skip(Space, text, e + 1) == t
  {
    SkipsTo(Alpha, text, p + 1, a);
    SkipsTo(Space, text, a, q);
    SkipsTo(Space, text, q + 1, r);
    QuoteIs(text, r + 1, e);
    SkipsTo(Space, text, e + 1, t);
  }

  lemma BodyIff(d: Dialect, text: string, r: nat, isDate: bool, piece: Piece)
    requires r < |text|
    ensures DateBody(d, text, r + 1, isDate) == Ok(piece) <==>
            var e := QuoteAt(text, r + 1);
            && e < |text|
            && var t := Skip(Space, text, e + 1);
               At(text, t) == ')' && IsTranslated(d, text, isDate, r, e, t, piece)
  {
  }

  lemma CallIff(d: Dialect, text: string, p: nat, isDate: bool, piece: Piece)
    requires p < |text|
    ensures DateCall(d, text, p, isDate) == Ok(piece) <==>
            var q := Skip(Space, text, Skip(Alpha, text, p + 1));
            && At(text, q) == '('
            && var r := Skip(Space, text, q + 1);
               At(text, r) == '\'' && DateBody(d, text, r + 1, isDate) == Ok(piece)
  {
  }

  /** The scanners stop at such places. */
  lemma ScannedPlaces(text: string, p: nat, a: nat, q: nat, r: nat, e: nat, t: nat)
    requires p < |text| && a == Skip(Alpha, text, p + 1) && q == Skip(Space, text, a) && At(text, q) == '('
    requires r == Skip(Space, text, q + 1) && At(text, r) == '\''
    requires e == QuoteAt(text, r + 1) < |text| && t == Skip(Space, text, e + 1) && At(text, t) == ')'
    ensures IsDateCall(text, p, a, q, r, e, t)
  {
    SkipIsRun(Alpha, text, p + 1);
    SkipIsRun(Space, text, a);
    SkipIsRun(Space, text, q + 1);
    SkipIsRun(Space, text, e + 1);
    QuoteAtSkips(text, r + 1);
  }

  lemma QuoteAtSkips(text: string, p: nat)
    requires p <= |text|
    ensures forall i :: p <= i < QuoteAt(text, p) ==> text[i] != '\''
  {
    var e := QuoteAt(text, p);
    QuoteAtIsFirst(text, p);
    forall i | p <= i < e ensures text[i] != '\'' { assert text[p..e][i - p] == text[i]; }
  }

  lemma PlacesOfCall(d: Dialect, text: string, p: nat, isDate: bool, piece: Piece)
    requires p < |text| && DateCall(d, text, p, isDate) == Ok(piece)
    ensures Yields(d, text, p, isDate, piece)
  {
    CallIff(d, text, p, isDate, piece);
    var a := Skip(Alpha, text, p + 1);
    var q := Skip(Space, text, a);
    var r := Skip(Space, text, q + 1);
    BodyIff(d, text, r, isDate, piece);
    var e := QuoteAt(text, r + 1);
    var t := Skip(Space, text, e + 1);
    ScannedPlaces(text, p, a, q, r, e, t);
    Yield(d, text, p, isDate, piece, a, q, r, e, t);
  }

  lemma Yield(d: Dialect, text: string, p: nat, isDate: bool, piece: Piece, a: nat, q: nat, r: nat, e: nat, t: nat)
    requires IsDateCall(text, p, a, q, r, e, t) && IsTranslated(d, text, isDate, r, e, t, piece)
    ensures Yields(d, text, p, isDate, piece)
  {
  }

  lemma CallOfPlaces(d: Dialect, text: string, p: nat, isDate: bool, piece: Piece)
    requires p < |text| && Yields(d, text, p, isDate, piece)
    ensures DateCall(d, text, p, isDate) == Ok(piece)
  {
    var a: nat, q: nat, r: nat, e: nat, t: nat :|
      IsDateCall(text, p, a, q, r, e, t) && IsTranslated(d, text, isDate, r, e, t, piece);
    BodyOfPlaces(d, text, p, isDate, piece, a, q, r, e, t);
    CallPlaces(text, p, a, q, r, e, t);
    CallOfBody(d, text, p, isDate, piece, q, r);
  }

  lemma CallOfBody(d: Dialect, text: string, p: nat, isDate: bool, piece: Piece, q: nat, r: nat)
    requires p < |text| && q == Skip(Space, text, Skip(Alpha, text, p + 1)) < |text| && text[q] == '('
    requires r == Skip(Space, text, q + 1) < |text| && text[r] == '\''
    requires DateBody(d, text, r + 1, isDate) == Ok(piece)
    ensures DateCall(d, text, p, isDate) == Ok(piece)
  {
  }

  lemma BodyOfPlaces(d: Dialect, text: string, p: nat, isDate: bool, piece: Piece, a: nat, q: nat, r: nat, e: nat, t: nat)
    requires IsDateCall(text, p, a, q, r, e, t) && IsTranslated(d, text, isDate, r, e, t, piece)
    ensures DateBody(d, text, r + 1, isDate) == Ok(piece)
  {
    CallPlaces(text, p, a, q, r, e, t);
    BodyIff(d, text, r, isDate, piece);
  }

  /** A date is translated exactly where one is written in full, to the literal of the same date, and
      its call is consumed to the last parenthesis. A word that only starts like one is an error. */
  lemma DateTranslatedIff(d: Dialect, text: string, p: nat, piece: Piece)
    requires p < |text|
    ensures DateOrTimestamp(d, text, p) == Ok(Some(piece)) <==>
            var kind := LiteralKindAt(text, p);
            !kind.NoLiteral? && Yields(d, text, p, kind.DateKind?, piece)
    ensures DateOrTimestamp(d, text, p) == Ok(None) <==> LiteralKindAt(text, p).NoLiteral?
  {
    var isDate := LiteralKindAt(text, p).DateKind?;
    if DateCall(d, text, p, isDate) == Ok(piece) { PlacesOfCall(d, text, p, isDate, piece); }
    if Yields(d, text, p, isDate, piece) { CallOfPlaces(d, text, p, isDate, piece); }
  }
}
