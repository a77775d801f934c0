/** What a session knows of its database: quotes, operators, and the words and clauses that differ
    from one database to the next. */
module SqlDialect {
  import opened SqlChars
  import opened Wrappers

  datatype Dbms = Oracle | OracleThin | Access | SqlServer | MySql | PostgreSql | Db2 | Firebird | Sybase | SosSql | H2 | Unknown

  function Call(name: string, arguments: string): string {
    name + ("(" + arguments + ")")
  }

  function Quoted(s: string): string {
    "'" + s + "'"
  }

  function Difference(a: string, b: string): string {
    Call("", Call("", a) + "-" + Call("", b))
  }

  /** `words` maps upper-case words to what the database calls them. `dateText` parses a date, or a
      date and time, and prints it in ISO form; None if it cannot be parsed. */
  datatype Dialect = Dialect(
    dbms: Dbms,
    isOdbc: bool,
    identifierQuoteBegin: Option<char>,
    identifierQuoteEnd: Option<char>,
    concatOperator: string,
    words: map<string, string>,
    now: string,
    dateText: (string, bool) -> Option<string>)
  {
    function QuoteBegin(): char {
      if identifierQuoteBegin.None? then '"' else identifierQuoteBegin.value
    }

    function QuoteEnd(): char {
      if identifierQuoteEnd.None? then QuoteBegin() else identifierQuoteEnd.value
    }

    function Translate(word: string): string {
      if Upper(word) in words then words[Upper(word)] else word
    }

    predicate UsesEscapes() {
      isOdbc && dbms != Sybase
    }

    function TextTimestamp(arg: string): string {
      match dbms
      case Db2 =>
        Call("", Call("char", Call("date", arg) + ",iso") + "||" + Quoted(" ") + "||" + Call("char", Call("time", arg) + ",jis"))
      case Firebird => Call("substring", Call("Cast", arg + " as " + Call("varchar", "24")) + " from 1 for 19")
      case MySql => Call("date_format", arg + "," + Quoted("%Y-%m-%d %H:%i:%s"))
      case Oracle | OracleThin | PostgreSql => Call("to_char", arg + "," + Quoted("YYYY-MM-DD HH24:MI:SS"))
      case SqlServer => Call("CONVERT", Call("VARCHAR", "19") + "," + arg + ",121")
      case Sybase =>
        Call("str_replace", Call("CONVERT", Call("VARCHAR", "19") + "," + arg + ",23") + "," + Quoted("T") + "," + Quoted(" "))
      case H2 => Call("regexp_replace", Call("", arg) + "||" + Quoted("") + "," + Quoted("\\.0+$") + "," + Quoted(""))
      case _ => Call("", Call("", arg) + "&" + Quoted(""))
    }

    function SecondsDiff(a: string, b: string): string {
      match dbms
      case PostgreSql => Call("extract", " epoch from " + Difference(a, b) + " ")
      case Sybase => Call("datediff", "ss," + a + "," + b)
      case H2 => Call("datediff", "ss," + b + "," + a)
      case _ => Difference(a, b)
    }

    /** The statement with a limit on the number of rows; None if the dialect cannot say that. */
    function Limited(stmt: string, limit: nat): Option<string> {
      match dbms
      case Oracle | OracleThin => Some("select * from ( " + stmt + " ) where rownum <= " + Decimal(limit))
      case MySql | PostgreSql | H2 => Some(stmt + "  limit " + Decimal(limit))
      case Access | SqlServer | Sybase =>
        var i := FindWord(stmt, 0, "SELECT");
        if i == |stmt| then None
        else Some(stmt[..i] + stmt[i..i + 6] + "  TOP " + Decimal(limit) + " " + stmt[i + 6..])
      case SosSql => Some("-limit=" + Decimal(limit) + " " + stmt)
      case Db2 => Some(stmt + "  fetch first " + Decimal(limit) + " rows only")
      case Firebird => if StartsWith(stmt, 0, "SELECT ") then Some(stmt[..7] + "FIRST " + Decimal(limit) + stmt[6..]) else None
      case Unknown => None
    }

    function LimitError(): string {
      if dbms.Access? || dbms.SqlServer? || dbms.Sybase? then "SOS-1458" else "SOS-1457"
    }
  }
}
