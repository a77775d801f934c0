/** Statements without percent words, whatever their literals and quoted identifiers hold: what the
    translator changes in them, and what it keeps. */
module PlainStmts {
  import opened Sequences
  import opened SqlChars
  import opened SqlDialect
  import opened StmtSpec
  import opened Wrappers

  datatype Mode = Mode(inString: bool, inIdentifier: bool)

  const CODE := Mode(false, false)

  function Turn(mode: Mode, c: char): Mode {
    if c == '\'' then mode.(inString := !mode.inString)
    else if !mode.inString && (c == '"' || c == '`') then mode.(inIdentifier := !mode.inIdentifier)
    else mode
  }

  /** Character by character, what a statement becomes. */
  function Image(d: Dialect, text: string, mode: Mode): string {
    if text == [] then []
    else
      if IsConcat(text, 0, mode) then d.concatOperator + Image(d, text[2..], mode)
      else OutChar(d, text[0], mode) + Image(d, text[1..], Turn(mode, text[0]))
  }

  predicate IsConcat(text: string, p: nat, mode: Mode) {
    mode == CODE && At(text, p) == '|' == At(text, p + 1)
  }

  function OutChar(d: Dialect, c: char, mode: Mode): string {
    if c == '\'' then [c]
    else if mode.inString then (if d.dbms.MySql? then EscapeChar(c) else [c])
    else if c == '"' || c == '`' then [if mode.inIdentifier then d.QuoteEnd() else d.QuoteBegin()]
    else if mode.inIdentifier then [UpperChar(c)]
    else [c]
  }

  /** The mode in which the scanner meets the `i`-th character. */
  function ModeAt(text: string, i: nat): Mode
    requires i <= |text|
  {
    if i == 0 then CODE else Turn(ModeAt(text, i - 1), text[i - 1])
  }

  /** Percent signs stand in literals and quoted identifiers only. */
  predicate NoPercentWords(text: string) {
    forall i :: 0 <= i < |text| && ModeAt(text, i) == CODE ==> text[i] != '%'
  }

  predicate IsPlain(text: string) {
    NoPercentWords(text) && !ChangesWords(text, Skip(Space, text, 0))
  }

  /** Characters that are no quotes leave the mode as it is. */
  lemma {:induction false} ModeStays(text: string, p: nat, e: nat)
    requires p <= e <= |text| && forall i :: p <= i < e ==> Turn(ModeAt(text, p), text[i]) == ModeAt(text, p)
    ensures ModeAt(text, e) == ModeAt(text, p)
    decreases e
  {
    if p < e { ModeStays(text, p, e - 1); }
  }

  /** The mode in a text is that in what is left of it after `p`. */
  lemma {:induction false} ModeShift(text: string, p: nat, i: nat)
    requires p + i <= |text| && ModeAt(text, p) == CODE
    ensures ModeAt(text[p..], i) == ModeAt(text, p + i)
  {
    if i > 0 {
      ModeShift(text, p, i - 1);
      assert text[p..][i - 1] == text[p + (i - 1)];
    }
  }

  lemma SkipKeepsCode(text: string, cls: Class, p: nat)
    requires p <= |text| && ModeAt(text, p) == CODE
    ensures ModeAt(text, Skip(cls, text, p)) == CODE
  {
    var e := Skip(cls, text, p);
    SkipIsRun(cls, text, p);
    forall i | p <= i < e ensures Turn(CODE, text[i]) == CODE { assert cls.Has(text[i]); }
    ModeStays(text, p, e);
  }

  /** Blanks on the left may be dropped. */
  lemma TrimLeftPlain(text: string)
    requires NoPercentWords(text)
    ensures NoPercentWords(TrimLeft(text)) && ModeAt(text, Skip(Space, text, 0)) == CODE
  {
    var p := Skip(Space, text, 0);
    SkipKeepsCode(text, Space, 0);
    forall i | 0 <= i < |text| - p ensures ModeAt(text[p..], i) == ModeAt(text, p + i) { ModeShift(text, p, i); }
  }

  lemma ImageAt(d: Dialect, text: string, p: nat, mode: Mode)
    requires p < |text|
    ensures Image(d, text[p..], mode) ==
            if IsConcat(text, p, mode) then d.concatOperator + Image(d, text[p + 2..], mode)
            else OutChar(d, text[p], mode) + Image(d, text[p + 1..], Turn(mode, text[p]))
  {
    assert text[p..][1..] == text[p + 1..];
    if p + 1 < |text| { assert text[p..][2..] == text[p + 2..]; }
  }

  lemma {:induction false} ImageOfWord(d: Dialect, text: string, p: nat, e: nat)
    requires p <= e <= |text| && forall i :: p <= i < e ==> Word.Has(text[i])
    ensures Image(d, text[p..], CODE) == text[p..e] + Image(d, text[e..], CODE)
    decreases e - p
  {
    if p < e {
      ImageAt(d, text, p, CODE);
      ImageOfWord(d, text, p + 1, e);
      var c, word, rest := text[p], text[p + 1..e], Image(d, text[e..], CODE);
      assert Word.Has(c);
      assert OutChar(d, c, CODE) == [c] && Turn(CODE, c) == CODE;
      assert text[p..e] == [c] + word;
      Regroup([c], word, rest);
    }
  }

  lemma BodyChar(d: Dialect, text: string, e: nat, mode: Mode)
    requires e < |text| && d.dbms.MySql? && mode.inString && text[e] != '\''
    ensures Image(d, text[e..], mode) == EscapeChar(text[e]) + Image(d, text[e + 1..], mode)
  {
    ImageAt(d, text, e, mode);
  }

  lemma EscapeSnoc(text: string, p: nat, e: nat)
    requires p < e <= |text|
    ensures Escape(text[p..e]) == Escape(text[p..e - 1]) + EscapeChar(text[e - 1])
  {
    assert text[p..e][..e - 1 - p] == text[p..e - 1];
  }

  lemma {:induction false} ImageOfBody(d: Dialect, text: string, p: nat, e: nat, mode: Mode)
    requires p <= e <= |text| && d.dbms.MySql? && mode.inString && forall i :: p <= i < e ==> text[i] != '\''
    ensures Image(d, text[p..], mode) == Escape(text[p..e]) + Image(d, text[e..], mode)
    decreases e
  {
    if p < e {
      ImageOfBody(d, text, p, e - 1, mode);
      BodyChar(d, text, e - 1, mode);
      EscapeSnoc(text, p, e);
      Regroup(Escape(text[p..e - 1]), EscapeChar(text[e - 1]), Image(d, text[e..], mode));
    } else {
      assert text[p..e] == [];
    }
  }

  predicate PlainState(st: State) {
    st.Stacked() && st.limit.None? && forall i :: 0 <= i < |st.fns| ==> !st.fns[i]
  }

  /** The program's flags say what the text before says. */
  predicate InMode(text: string, st: State) {
    st.p <= |text| && ModeAt(text, st.p) == Mode(st.inString, st.inIdentifier)
  }

  /** The result of a state with the image of what is still to be read. */
  function Whole(d: Dialect, text: string, st: State): string
    requires st.p <= |text|
  {
    st.result + Image(d, text[st.p..], Mode(st.inString, st.inIdentifier))
  }

  predicate PlainlyStepped(d: Dialect, text: string, st: State)
    requires st.p < |text| && PlainState(st)
  {
    var r := Step(d, text, false, st);
    && r.Ok? && InMode(text, r.value)
    && PlainState(r.value) && r.value.done == st.done && r.value.forUpdate == st.forUpdate
    && Whole(d, text, st) == Whole(d, text, r.value)
  }

  lemma PlainBody(d: Dialect, text: string, st: State)
    requires st.p < |text| && PlainState(st) && InMode(text, st) && text[st.p] != '\'' && st.inString && d.dbms.MySql?
    ensures PlainlyStepped(d, text, st)
  {
    var e, mode := QuoteAt(text, st.p), Mode(st.inString, st.inIdentifier);
    QuoteAtIsFirst(text, st.p);
    forall i | st.p <= i < e ensures text[i] != '\'' { assert text[i] in text[st.p..e]; }
    ModeStays(text, st.p, e);
    ImageOfBody(d, text, st.p, e, mode);
    Regroup(st.result, Escape(text[st.p..e]), Image(d, text[e..], mode));
  }

  lemma PlainWord(d: Dialect, text: string, st: State)
    requires st.p < |text| && PlainState(st) && InMode(text, st) && !st.inString && !st.inIdentifier && IsAlpha(text[st.p])
    ensures PlainlyStepped(d, text, st)
  {
    var e := Skip(Word, text, st.p);
    SkipIsRun(Word, text, st.p);
    SkipKeepsCode(text, Word, st.p);
    ImageOfWord(d, text, st.p, e);
    Regroup(st.result, text[st.p..e], Image(d, text[e..], CODE));
  }

  /** A character that stands for itself. */
  predicate Single(d: Dialect, text: string, st: State)
    requires st.p < |text|
  {
    && (text[st.p] == '%' ==> st.inString || st.inIdentifier)
    && !(text[st.p] != '\'' && st.inString && d.dbms.MySql?)
    && !(!st.inString && !st.inIdentifier && IsAlpha(text[st.p]))
  }

  lemma StepOfChar(d: Dialect, text: string, st: State)
    requires st.p < |text| && PlainState(st) && Single(d, text, st)
    ensures var r := Step(d, text, false, st);
            var mode := Mode(st.inString, st.inIdentifier);
            var concat := IsConcat(text, st.p, mode);
            && r.Ok? && PlainState(r.value) && r.value.done == st.done && r.value.forUpdate == st.forUpdate
            && r.value.p == (if concat then st.p + 2 else st.p + 1)
            && r.value.result == st.result + (if concat then d.concatOperator else OutChar(d, text[st.p], mode))
            && Mode(r.value.inString, r.value.inIdentifier) == if concat then mode else Turn(mode, text[st.p])
  {
  }

  lemma PlainChar(d: Dialect, text: string, st: State)
    requires st.p < |text| && PlainState(st) && InMode(text, st) && Single(d, text, st)
    ensures PlainlyStepped(d, text, st)
  {
    var mode := Mode(st.inString, st.inIdentifier);
    StepOfChar(d, text, st);
    ImageAt(d, text, st.p, mode);
    var concat := IsConcat(text, st.p, mode);
    var next := Step(d, text, false, st).value;
    Regroup(st.result, if concat then d.concatOperator else OutChar(d, text[st.p], mode),
                Image(d, text[next.p..], Mode(next.inString, next.inIdentifier)));
  }

  /** One step on a statement without percent words appends the image of what it consumed. */
  lemma PlainStep(d: Dialect, text: string, st: State)
    requires NoPercentWords(text) && st.p < |text| && PlainState(st) && InMode(text, st)
    ensures PlainlyStepped(d, text, st)
  {
    var c := text[st.p];
    if c != '\'' && st.inString && d.dbms.MySql? {
      PlainBody(d, text, st);
    } else if !st.inString && !st.inIdentifier && IsAlpha(c) {
      PlainWord(d, text, st);
    } else {
      PlainChar(d, text, st);
    }
  }

  lemma {:induction false} PlainSteps(d: Dialect, text: string, st: State)
    requires NoPercentWords(text) && PlainState(st) && InMode(text, st)
    ensures var r := Steps(d, text, false, st);
            && r.Ok? && r.value.limit.None? && r.value.done == st.done && r.value.forUpdate == st.forUpdate
            && r.value.result == Whole(d, text, st)
    decreases |text| - st.p
  {
    if st.p < |text| {
      PlainStep(d, text, st);
      PlainSteps(d, text, Step(d, text, false, st).value);
    }
  }

  lemma NotNative(s: string)
    requires s != [] && s[0] != '%'
    ensures !("%native " <= s)
  {
  }

  /** A statement without percent words never fails and becomes its image. */
  lemma PlainConvert(d: Dialect, text: string)
    requires IsPlain(text)
    ensures Convert(d, text) == Ok(Image(d, TrimLeft(text), CODE))
  {
    var p := Skip(Space, text, 0);
    if p < |text| {
      TrimLeftPlain(text);
      NotNative(text[p..]);
      PlainSteps(d, text, Start(p));
      var image := Image(d, text[p..], CODE);
      assert "" + image == image && "" + image + "" == image;
    }
  }
}
