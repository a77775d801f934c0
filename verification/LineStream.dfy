/** A character stream on a record file: what is written is cut into records at line feeds, and
    records are read back as lines. */
module LineStream {
  import opened Sequences
  import opened Wrappers

  // ----- lines

  /** The lines of a text that are ended by a line feed, and what follows the last of them. */
  function Complete(text: string): seq<string>
    decreases |text|
  {
    if '\n' in text then [FirstLine(text)] + Complete(AfterLine(text)) else []
  }

  function Rest(text: string): (rest: string)
    ensures '\n' !in rest
    decreases |text|
  {
    if '\n' in text then Rest(AfterLine(text)) else text
  }

  function FirstFeed(text: string): (i: nat)
    requires '\n' in text
    ensures i < |text| && text[i] == '\n' && '\n' !in text[..i]
  {
    if text[0] == '\n' then 0
    else
      var i := FirstFeed(text[1..]);
      assert text[..i + 1] == [text[0]] + text[1..][..i];
      i + 1
  }

  function FirstLine(text: string): (line: string)
    requires '\n' in text
    ensures '\n' !in line
  {
    text[..FirstFeed(text)]
  }

  function AfterLine(text: string): (after: string)
    requires '\n' in text
    ensures |after| < |text| && text == FirstLine(text) + "\n" + after
  {
    text[FirstFeed(text) + 1..]
  }

  /** All lines; the last needs no line feed unless it is empty. */
  function Lines(text: string): seq<string> {
    Complete(text) + if Rest(text) == "" then [] else [Rest(text)]
  }

  function Unlines(lines: seq<string>): string {
    if lines == [] then "" else lines[0] + "\n" + Unlines(lines[1..])
  }

  lemma {:induction false} FirstFeedIs(text: string, i: nat)
    requires i < |text| && text[i] == '\n' && '\n' !in text[..i]
    ensures FirstFeed(text) == i
  {
    if i > 0 {
      assert text[0] in text[..i];
      assert text[1..][..i - 1] == text[..i][1..];
      FirstFeedIs(text[1..], i - 1);
    }
  }

  lemma FirstLineIs(line: string, after: string)
    requires '\n' !in line
    ensures var text := line + "\n" + after;
            '\n' in text && FirstLine(text) == line && AfterLine(text) == after
  {
    var text := line + "\n" + after;
    assert text[..|line|] == line && text[|line|] == '\n' && text[|line| + 1..] == after;
    FirstFeedIs(text, |line|);
  }

  lemma CutLine(line: string, after: string)
    requires '\n' !in line
    ensures Complete(line + "\n" + after) == [line] + Complete(after)
    ensures Rest(line + "\n" + after) == Rest(after)
  {
    FirstLineIs(line, after);
  }

  /** Cutting may be done bit by bit. */
  lemma {:induction false} CutOn(a: string, b: string)
    ensures Complete(a + b) == Complete(a) + Complete(Rest(a) + b)
    ensures Rest(a + b) == Rest(Rest(a) + b)
    decreases |a|
  {
    if '\n' in a {
      var line, after := FirstLine(a), AfterLine(a);
      CutOn(after, b);
      CutLineOn(line, after, b);
      Regroup([line], Complete(after), Complete(Rest(after) + b));
    }
  }

  lemma CutLineOn(line: string, after: string, b: string)
    requires '\n' !in line
    ensures Complete(line + "\n" + after + b) == [line] + Complete(after + b)
    ensures Rest(line + "\n" + after + b) == Rest(after + b)
  {
    CutLine(line, after + b);
    Regroup(line + "\n", after, b);
  }

  lemma LinesCons(text: string)
    requires '\n' in text
    ensures Lines(text) == [FirstLine(text)] + Lines(AfterLine(text))
  {
  }

  lemma {:induction false} LinesHoldNoFeed(text: string)
    ensures forall line <- Lines(text) :: '\n' !in line
    decreases |text|
  {
    if '\n' in text {
      var line, after := FirstLine(text), AfterLine(text);
      LinesHoldNoFeed(after);
      LinesCons(text);
      assert forall l <- [line] + Lines(after) :: l == line || l in Lines(after);
    }
  }

  lemma UnlinesCons(line: string, rest: seq<string>)
    ensures Unlines([line] + rest) == line + "\n" + Unlines(rest)
  {
    assert ([line] + rest)[1..] == rest;
  }

  /** No character is lost or added by cutting. */
  lemma {:induction false} CutKeepsText(text: string)
    ensures Unlines(Complete(text)) + Rest(text) == text
    decreases |text|
  {
    if '\n' in text {
      var line, after := FirstLine(text), AfterLine(text);
      CutKeepsText(after);
      UnlinesCons(line, Complete(after));
      Regroup(line + "\n", Unlines(Complete(after)), Rest(after));
    }
  }

  lemma {:induction false} UnlinesSnoc(lines: seq<string>, last: string)
    ensures Unlines(lines + [last]) == Unlines(lines) + last + "\n"
  {
    if lines == [] {
      assert lines + [last] == [last];
    } else {
      UnlinesSnoc(lines[1..], last);
      var all, first := lines + [last], lines[0] + "\n";
      assert all[0] == lines[0] && all[1..] == lines[1..] + [last];
      assert first + (Unlines(lines[1..]) + last + "\n") == first + Unlines(lines[1..]) + last + "\n";
    }
  }

  /** Read back, the stream is the same, up to one line feed at its end. */
  lemma LinesReadBack(text: string)
    ensures Unlines(Lines(text)) == if Rest(text) == "" then text else text + "\n"
  {
    CutKeepsText(text);
    if Rest(text) != "" {
      UnlinesSnoc(Complete(text), Rest(text));
    } else {
      assert Complete(text) + [] == Complete(text) && Unlines(Complete(text)) + "" == Unlines(Complete(text));
    }
  }

  /** Text passed on: the same lines were given away or are still to come. */
  ghost predicate Kept(given0: seq<string>, text0: string, given: seq<string>, text: string) {
    given0 + Complete(text0) == given + Complete(text) && Rest(text0) == Rest(text)
  }

  lemma KeptOn(given0: seq<string>, text0: string, given: seq<string>, text: string, more: string)
    requires Kept(given0, text0, given, text)
    ensures Kept(given0, text0 + more, given, text + more)
  {
    CutOn(text0, more);
    CutOn(text, more);
    var after := Complete(Rest(text) + more);
    Regroup(given0, Complete(text0), after);
    Regroup(given, Complete(text), after);
  }

  /** Once all is given away, the lines are those of the text. */
  lemma AllGiven(given0: seq<string>, text0: string, given: seq<string>, text: string)
    requires Kept(given0, text0, given, text)
    ensures given + Lines(text) == given0 + Lines(text0)
  {
    var last := if Rest(text) == "" then [] else [Rest(text)];
    Regroup(given0, Complete(text0), last);
    Regroup(given, Complete(text), last);
  }

  // ----- writing

  class Writer {
    var records: seq<string>    // what the file has been given
    var buffer: array<char>
    var length: nat
    var pptr: nat               // the next place of the put area, which ends with the buffer

    ghost predicate Valid()
      reads this
    {
      length <= pptr <= buffer.Length
    }

    /** What has been written and not yet been given to the file. */
    ghost function Pending(): string
      requires Valid()
      reads this, buffer
    {
      buffer[..pptr]
    }

    /** The text in the buffer while it is being emptied. */
    ghost predicate Holds(text: string)
      reads this, buffer
    {
      length <= buffer.Length && buffer[..length] == text
    }

    constructor ()
      ensures Valid() && records == [] && Pending() == "" && fresh(buffer)
    {
      records := [];
      buffer := new char[0];
      length, pptr := 0, 0;
    }

    /** A larger buffer with the same text. */
    method Resize(size: nat, ghost text: string)
      requires Holds(text) && size >= buffer.Length
      modifies this`buffer
      ensures Holds(text) && fresh(buffer) && buffer.Length == size
    {
      var bigger := new char[size];
      forall i | 0 <= i < length { bigger[i] := buffer[i]; }
      assert bigger[..length] == text;
      buffer := bigger;
    }

    method Append(c: char, ghost text: string)
      requires Holds(text)
      modifies this`buffer, this`length, buffer
      ensures Holds(text + [c]) && (buffer == old(buffer) || fresh(buffer))
    {
      if buffer.Length == 0 { Resize(128 + 1, text); }
      if length == buffer.Length { Resize(length + 1, text); }
      buffer[length] := c;
      length := length + 1;
      assert buffer[..length] == buffer[..length - 1] + [c];
    }

    /** `sputc` */
    method Put(c: char)
      requires Valid()
      modifies this, buffer
      ensures Valid() && (buffer == old(buffer) || fresh(buffer))
      ensures Kept(old(records), old(Pending()) + [c], records, Pending())
    {
      if pptr < buffer.Length {
        ghost var text := Pending();
        buffer[pptr] := c;
        pptr := pptr + 1;
        assert Pending() == text + [c];
      } else {
        Overflow(Some(c));
      }
    }

    /** `overflow`: gives every complete line to the file; without a character, the rest as well. */
    method Overflow(b: Option<char>)
      requires Valid()
      modifies this, buffer
      ensures Valid() && (buffer == old(buffer) || fresh(buffer))
      ensures b.None? ==> records == old(records) + Lines(old(Pending())) && Pending() == ""
      ensures b.Some? ==> '\n' !in Pending()
                          && Kept(old(records), old(Pending()) + [b.value], records, Pending())
    {
      ghost var text := Pending();
      length := pptr;
      if b.Some? {
        Append(b.value, text);
        text := text + [b.value];
      }
      CutLines(text);
      if b.None? {
        TakeRest(Rest(text));
        Regroup(old(records), Complete(text), if Rest(text) == "" then [] else [Rest(text)]);
      }
      ghost var left := buffer[..length];
      if length == buffer.Length { Resize(buffer.Length + 128, left); }
      pptr := length;
    }

    /** Gives the complete lines at the front of the buffer to the file, one by one. */
    method CutLines(ghost text: string)
      requires Holds(text)
      modifies this`records, this`length, buffer
      ensures records == old(records) + Complete(text) && Holds(Rest(text))
    {
      ghost var left := text;
      while length > 0
        invariant Holds(left) && Kept(old(records), text, records, left)
        decreases length
      {
        var nl := FindFeed(left);
        if nl == length { break; }
        ghost var line, after := left[..nl], left[nl + 1..];
        assert left == line + "\n" + after;
        CutLine(line, after);
        Regroup(records, [line], Complete(after));
        records := records + [buffer[..nl]];
        assert buffer[..nl] == line;
        DropFront(nl + 1, left);
        left := after;
      }
      assert left == [] || '\n' !in left;
    }

    method FindFeed(ghost text: string) returns (nl: nat)
      requires Holds(text)
      ensures nl <= length && '\n' !in text[..nl] && (nl < length ==> text[nl] == '\n')
    {
      nl := 0;
      while nl < length && buffer[nl] != '\n'
        invariant nl <= length && '\n' !in text[..nl]
      {
        assert buffer[nl] == text[nl];
        assert text[..nl + 1] == text[..nl] + [text[nl]];
        nl := nl + 1;
      }
      assert nl < length ==> buffer[nl] == text[nl];
    }

    /** Moves the rest of the text to the front. */
    method DropFront(n: nat, ghost text: string)
      requires Holds(text) && n <= length
      modifies this`length, buffer
      ensures Holds(text[n..]) && length == old(length) - n
    {
      var len := length - n;
      assert forall i :: 0 <= i < length ==> buffer[i] == text[i];
      forall i | 0 <= i < len { buffer[i] := buffer[n + i]; }
      length := len;
      assert forall i :: 0 <= i < len ==> buffer[i] == text[n + i];
      assert buffer[..length] == text[n..];
    }

    method TakeRest(ghost text: string)
      requires Holds(text)
      modifies this`records, this`length
      ensures records == old(records) + (if text == "" then [] else [text]) && length == 0
    {
      if length > 0 {
        records := records + [buffer[..length]];
        length := 0;
      }
    }

    /** `sync` */
    method Flush()
      requires Valid()
      modifies this, buffer
      ensures Valid() && (buffer == old(buffer) || fresh(buffer))
      ensures records == old(records) + Lines(old(Pending())) && Pending() == ""
    {
      Overflow(None);
    }
  }

  // ----- runs

  /** A character comes through the put area or through `overflow` itself. */
  datatype Event = Put(c: char) | Overflow(c: char) | Flush

  /** The records of a run: the lines of each text between two flushes, the last ending with the run. */
  function Written(events: seq<Event>, text: string): seq<string> {
    if events == [] then Lines(text)
    else
      match events[0]
      case Flush => Lines(text) + Written(events[1..], "")
      case _ => Written(events[1..], text + [events[0].c])
  }

  method Do(w: Writer, event: Event, ghost given: seq<string>, ghost text: string)
    requires w.Valid() && Kept(given, text, w.records, w.Pending())
    modifies w, w.buffer
    ensures w.Valid() && (w.buffer == old(w.buffer) || fresh(w.buffer))
    ensures event.Flush? ==> Kept(given + Lines(text), "", w.records, w.Pending())
    ensures !event.Flush? ==> Kept(given, text + [event.c], w.records, w.Pending())
  {
    if event.Flush? {
      AllGiven(given, text, w.records, w.Pending());
      w.Flush();
    } else {
      KeptOn(given, text, w.records, w.Pending(), [event.c]);
      if event.Put? { w.Put(event.c); } else { w.Overflow(Some(event.c)); }
    }
  }

  /** However the characters come, the file gets the lines. */
  method Run(events: seq<Event>) returns (records: seq<string>)
    ensures records == Written(events, "")
  {
    var w := new Writer();
    ghost var given: seq<string>, text := [], "";
    var i := 0;
    while i < |events|
      invariant i <= |events| && w.Valid() && fresh(w) && fresh(w.buffer)
      invariant Kept(given, text, w.records, w.Pending())
      invariant Written(events, "") == given + Written(events[i..], text)
    {
      var event := events[i];
      assert events[i..][0] == event && events[i..][1..] == events[i + 1..];
      Do(w, event, given, text);
      if event.Flush? {
        Regroup(given, Lines(text), Written(events[i + 1..], ""));
        given, text := given + Lines(text), "";
      } else {
        text := text + [event.c];
      }
      i := i + 1;
    }
    AllGiven(given, text, w.records, w.Pending());
    w.Flush();
    records := w.records;
  }

  // ----- reading

  class Reader {
    const records: seq<string>
    var at: nat                 // records read
    var buffer: string
    var gptr: nat

    ghost predicate Valid()
      reads this
    {
      at <= |records| && gptr <= |buffer|
    }

    /** What a reader has still before it. */
    ghost function Ahead(): string
      requires Valid()
      reads this
    {
      buffer[gptr..] + Unlines(records[at..])
    }

    constructor (records: seq<string>)
      ensures Valid() && this.records == records && Ahead() == Unlines(records)
    {
      this.records, at, buffer, gptr := records, 0, "", 0;
      new;
      assert records[0..] == records && buffer[gptr..] == "";
    }

    /** `underflow`: the next character, which is not taken; none at the end. */
    method Underflow() returns (c: Option<char>)
      requires Valid()
      modifies this
      ensures Valid() && Ahead() == old(Ahead())
      ensures c == if Ahead() == "" then None else Some(Ahead()[0])
      ensures c.Some? ==> gptr < |buffer| && buffer[gptr] == c.value
    {
      if gptr < |buffer| { return Some(buffer[gptr]); }
      if at == |records| { return None; }
      ghost var left := records[at..];
      assert left[1..] == records[at + 1..];
      buffer, gptr := records[at] + "\n", 0;
      at := at + 1;
      assert buffer[0..] == buffer;
      c := Some(buffer[0]);
    }

    /** `sbumpc` */
    method Next() returns (c: Option<char>)
      requires Valid()
      modifies this
      ensures Valid()
      ensures old(Ahead()) == if c.Some? then [c.value] + Ahead() else ""
      ensures c.None? ==> Ahead() == ""
    {
      c := Underflow();
      if c.Some? {
        assert buffer[gptr..] == [c.value] + buffer[gptr + 1..];
        gptr := gptr + 1;
      }
    }
  }

  method ReadAll(records: seq<string>) returns (text: string)
    ensures text == Unlines(records)
  {
    var r := new Reader(records);
    text := "";
    ghost var ahead := r.Ahead();
    var c := r.Next();
    while c.Some?
      invariant r.Valid() && fresh(r)
      invariant ahead == if c.Some? then [c.value] + r.Ahead() else ""
      invariant text + ahead == Unlines(records)
      decreases |ahead|
    {
      text := text + [c.value];
      ahead := r.Ahead();
      c := r.Next();
    }
  }

  function Chars(text: string, direct: seq<bool>): seq<Event>
    requires |text| == |direct|
  {
    seq(|text|, i requires 0 <= i < |text| => if direct[i] then Overflow(text[i]) else Put(text[i]))
  }

  lemma {:induction false} WrittenAtOnce(text: string, direct: seq<bool>, before: string)
    requires |text| == |direct|
    ensures Written(Chars(text, direct), before) == Lines(before + text)
  {
    if text == [] {
      assert before + text == before;
    } else {
      assert Chars(text, direct)[1..] == Chars(text[1..], direct[1..]);
      WrittenAtOnce(text[1..], direct[1..], before + [text[0]]);
      assert before + [text[0]] + text[1..] == before + text;
    }
  }

  /** What is written and flushed once is read back, up to one line feed at its end. */
  method WriteThenRead(text: string, direct: seq<bool>) returns (records: seq<string>, back: string)
    requires |text| == |direct|
    ensures records == Lines(text) && forall line <- records :: '\n' !in line
    ensures back == if Rest(text) == "" then text else text + "\n"
  {
    records := Run(Chars(text, direct));
    WrittenAtOnce(text, direct, "");
    assert "" + text == text;
    LinesHoldNoFeed(text);
    back := ReadAll(records);
    LinesReadBack(text);
  }
}
