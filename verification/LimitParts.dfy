/** Row limits: what they write into a statement, and what that does to its brackets. */
module LimitParts {
  import opened BracketParts
  import opened Brackets
  import opened SqlChars
  import opened SqlDialect
  import opened Wrappers

  /** The databases that put the limited statement into parentheses. */
  predicate Wraps(d: Dialect) {
    d.dbms.Oracle? || d.dbms.OracleThin?
  }

  /** The others write plain text into the statement. */
  ghost predicate Inserts(s: string, limited: string) {
    exists i: nat, plain: string :: InsertedAt(s, i, plain, limited)
  }

  predicate InsertedAt(s: string, i: nat, plain: string, limited: string) {
    i <= |s| && (forall c <- plain :: Inert(c)) && limited == s[..i] + plain + s[i..]
  }

  lemma {:induction false} DecimalInert(n: nat)
    ensures forall c <- Decimal(n) :: Inert(c)
  {
    if n >= 10 { DecimalInert(n / 10); }
  }

  lemma AllInert(a: string, b: string)
    requires (forall c <- a :: Inert(c)) && (forall c <- b :: Inert(c))
    ensures forall c <- a + b :: Inert(c)
  {
  }

  lemma InsertsPlain(s: string, i: nat, before: string, number: string, after: string, limited: string)
    requires i <= |s| && (forall c <- before :: Inert(c)) && (forall c <- number :: Inert(c)) && (forall c <- after :: Inert(c))
    requires limited == s[..i] + (before + number + after) + s[i..]
    ensures Inserts(s, limited)
  {
    AllInert(before, number);
    AllInert(before + number, after);
    assert InsertedAt(s, i, before + number + after, limited);
  }

  lemma TopInserts(s: string, number: string, i: nat)
    requires (forall c <- number :: Inert(c)) && i + 6 <= |s|
    ensures Inserts(s, s[..i] + s[i..i + 6] + "  TOP " + number + " " + s[i + 6..])
  {
    var limited := s[..i] + s[i..i + 6] + "  TOP " + number + " " + s[i + 6..];
    assert s[..i] + s[i..i + 6] == s[..i + 6];
    var front, top, rest := s[..i + 6], "  TOP ", s[i + 6..];
    assert front + top + number + " " + rest == front + (top + number + " ") + rest;
    InsertsPlain(s, i + 6, top, number, " ", limited);
  }

  lemma FirstInserts(s: string, number: string)
    requires (forall c <- number :: Inert(c)) && |s| >= 7 && s[6] == ' '
    ensures Inserts(s, s[..7] + "FIRST " + number + s[6..])
  {
    var limited := s[..7] + "FIRST " + number + s[6..];
    assert s[6..] == " " + s[7..];
    var front, first, rest := s[..7], "FIRST ", s[7..];
    assert front + first + number + (" " + rest) == front + (first + number + " ") + rest;
    InsertsPlain(s, 7, first, number, " ", limited);
  }

  lemma EndInserts(s: string, before: string, number: string, after: string)
    requires (forall c <- before :: Inert(c)) && (forall c <- number :: Inert(c)) && (forall c <- after :: Inert(c))
    ensures Inserts(s, s + before + number + after)
  {
    assert s[..|s|] == s && s[|s|..] == "";
    assert s + before + number + after == s + (before + number + after) + "";
    InsertsPlain(s, |s|, before, number, after, s + before + number + after);
  }

  lemma FrontInserts(s: string, before: string, number: string)
    requires (forall c <- before :: Inert(c)) && (forall c <- number :: Inert(c))
    ensures Inserts(s, before + number + " " + s)
  {
    assert s[..0] == "" && s[0..] == s;
    assert before + number + " " + s == "" + (before + number + " ") + s;
    InsertsPlain(s, 0, before, number, " ", before + number + " " + s);
  }

  lemma LimitInserts(d: Dialect, s: string, limit: nat)
    requires !Wraps(d) && d.Limited(s, limit).Some?
    ensures Inserts(s, d.Limited(s, limit).value)
  {
    var number := Decimal(limit);
    DecimalInert(limit);
    match d.dbms
    case MySql | PostgreSql | H2 =>
      EndInserts(s, "  limit ", number, "");
      assert s + "  limit " + number + "" == s + "  limit " + number;
    case Access | SqlServer | Sybase => TopInserts(s, number, FindWord(s, 0, "SELECT"));
    case SosSql => FrontInserts(s, "-limit=", number);
    case Db2 => EndInserts(s, "  fetch first ", number, " rows only");
    case Firebird =>
      UpperAt(s[0..7], 6);
      FirstInserts(s, number);
  }

  /** Plain text may be written anywhere. */
  lemma InsertsKeepBrackets(n: Nest, s: string, limited: string)
    requires Inserts(s, limited)
    ensures ScanAll(n, limited) == ScanAll(n, s)
  {
    var i: nat, plain: string :| InsertedAt(s, i, plain, limited);
    ScanConcat(n, s[..i], plain);
    ScanConcat(n, s[..i] + plain, s[i..]);
    ScanConcat(n, s[..i], s[i..]);
    ScanInert(ScanAll(n, s[..i]), plain);
    assert s[..i] + s[i..] == s;
  }

  lemma WrappedShape(d: Dialect, s: string, limit: nat)
    requires Wraps(d)
    ensures d.Limited(s, limit) == Some(Call("select * from ", " " + s + " ") + " where rownum <= " + Decimal(limit))
  {
    assert "select * from ( " == "select * from " + "(" + " ";
    var front := "select * from ";
    assert "select * from ( " + s + " ) where rownum <= " == front + ("(" + (" " + s + " ") + ")") + " where rownum <= ";
  }

  lemma ScanParenthesised(s: string)
    ensures ScanAll(EMPTY, "(" + (" " + s + " ") + ")") == Scan(ScanAll(Code("("), s), ')')
  {
    var open, inner := Code("("), " " + s + " ";
    ScanOne(EMPTY, '(');
    assert "" + ['('] == "(";
    ScanConcat(EMPTY, "(", inner);
    ScanConcat(open, " " + s, " ");
    ScanConcat(open, " ", s);
    ScanInert(open, " ");
    ScanInert(ScanAll(open, s), " ");
    ScanConcat(EMPTY, "(" + inner, ")");
    ScanOne(ScanAll(open, s), ')');
  }

  /** A limited statement in parentheses has the brackets of the statement between them. */
  lemma WrappedScan(d: Dialect, s: string, limit: nat)
    requires Wraps(d)
    ensures ScanAll(EMPTY, d.Limited(s, limit).value) == Scan(ScanAll(Code("("), s), ')')
  {
    var pair := "(" + (" " + s + " ") + ")";
    WrappedShape(d, s, limit);
    ScanParenthesised(s);
    DecimalInert(limit);
    ScanBetween("select * from ", pair, " where rownum <= ", Decimal(limit));
  }

  lemma ScanBetween(front: string, s: string, back: string, number: string)
    requires (forall c <- front :: Inert(c)) && (forall c <- back :: Inert(c)) && (forall c <- number :: Inert(c))
    ensures ScanAll(EMPTY, front + s + back + number) == ScanAll(EMPTY, s)
  {
    ScanInert(EMPTY, front);
    ScanConcat(EMPTY, front, s);
    ScanConcat(EMPTY, front + s, back);
    ScanInert(ScanAll(EMPTY, s), back);
    ScanConcat(EMPTY, front + s + back, number);
    ScanInert(ScanAll(EMPTY, s), number);
  }
}
