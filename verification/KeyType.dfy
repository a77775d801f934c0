/** The fields of a record type that make up its key. */
module KeyType {
  import opened Sequences
  import opened Wrappers

  // ----- record types

  /** A nested record starts at its own base: the offsets of its fields are not below it. */
  datatype FieldType =
    | Leaf(size: nat)
    | Record(base: nat, size: nat, fields: seq<Option<Field>>)
  {
    function Count(): nat {
      if Record? then |fields| else 0
    }

    predicate HasField(i: nat) {
      Record? && i < |fields| && fields[i].Some?
    }

    function FieldAt(i: nat): Field
      requires HasField(i)
    {
      fields[i].value
    }
  }

  datatype Field = Field(name: string, offset: nat, fieldType: FieldType)

  /** The bytes of the record that are the key. */
  datatype Window = Window(pos: nat, len: nat) {
    predicate Holds(at: int, size: nat) {
      pos <= at && at + size <= pos + len
    }
  }

  const WORD := 0x1_0000_0000

  /** 32-bit unsigned arithmetic. */
  function Uint(x: int): nat {
    x % WORD
  }

  /** Sums that fit are not changed by it. */
  lemma Unwrapped(shift: int, x: int)
    requires 0 <= shift + x < WORD
    ensures Uint(Uint(shift) + x) == shift + x
  {
  }

  // ----- what is added

  predicate Chosen(off: nat, size: nat, w: Window) {
    off >= w.pos && Uint(off + size) <= Uint(w.pos + w.len)
  }

  function KeyFieldsOf(f: Field, shift: nat, w: Window): seq<Field>
    decreases f.fieldType, 1 + f.fieldType.Count()
  {
    var off := Uint(shift + f.offset);
    if Chosen(off, f.fieldType.size, w) then [Field(f.name, off - w.pos, f.fieldType)]
    else if f.fieldType.Record? then KeyFields(f.fieldType, 0, Uint(off - f.fieldType.base), w)
    else []
  }

  /** What the fields of a record from the i-th on add. */
  function KeyFields(t: FieldType, i: nat, shift: nat, w: Window): seq<Field>
    decreases t, t.Count() - i
  {
    if i >= t.Count() then []
    else if t.HasField(i) then KeyFieldsOf(t.FieldAt(i), shift, w) + KeyFields(t, i + 1, shift, w)
    else KeyFields(t, i + 1, shift, w)
  }

  class KeyRecord {
    var fields: seq<Field>
    var size: nat

    constructor ()
      ensures fields == [] && size == 0
    {
      fields, size := [], 0;
    }

    method AddField(f: Field)
      modifies this
      ensures fields == old(fields) + [f]
      ensures size == Max(old(size), f.offset + f.fieldType.size)
    {
      fields := fields + [f];
      size := Max(size, f.offset + f.fieldType.size);
    }
  }

  function Max(a: nat, b: nat): nat {
    if a < b then b else a
  }

  /** The size of a record with these fields. */
  function Extent(fields: seq<Field>): nat {
    if fields == [] then 0
    else
      var last := fields[|fields| - 1];
      Max(Extent(fields[..|fields| - 1]), last.offset + last.fieldType.size)
  }

  /** `build_key_type` */
  method BuildKeyType(key: KeyRecord, t: FieldType, offset: nat, w: Window)
    requires t.Record? && key.size == Extent(key.fields)
    modifies key
    ensures key.fields == old(key.fields) + KeyFields(t, 0, offset, w)
    ensures key.size == Extent(key.fields)
    decreases t, t.Count() + 2
  {
    var i := 0;
    while i < |t.fields|
      invariant i <= |t.fields| && key.size == Extent(key.fields)
      invariant old(key.fields) + KeyFields(t, 0, offset, w) == key.fields + KeyFields(t, i, offset, w)
    {
      if t.fields[i].Some? {
        var f := t.fields[i].value;
        assert t.HasField(i) && t.FieldAt(i) == f;
        Regroup(key.fields, KeyFieldsOf(f, offset, w), KeyFields(t, i + 1, offset, w));
        BuildFromField(key, f, offset, w);
      }
      i := i + 1;
    }
  }

  method BuildFromField(key: KeyRecord, f: Field, offset: nat, w: Window)
    requires key.size == Extent(key.fields)
    modifies key
    ensures key.fields == old(key.fields) + KeyFieldsOf(f, offset, w)
    ensures key.size == Extent(key.fields)
    decreases f.fieldType, f.fieldType.Count() + 3
  {
    var off := Uint(offset + f.offset);
    if off >= w.pos && Uint(off + f.fieldType.size) <= Uint(w.pos + w.len) {
      ghost var before := key.fields;
      key.AddField(Field(f.name, off - w.pos, f.fieldType));
      assert key.fields[..|before|] == before;
    } else if f.fieldType.Record? {
      BuildKeyType(key, f.fieldType, Uint(off - f.fieldType.base), w);
    }
  }

  /** The key type of a record type. */
  method KeyTypeOf(t: FieldType, w: Window) returns (fields: seq<Field>, size: nat)
    requires t.Record?
    ensures fields == KeyFields(t, 0, 0, w) && size == Extent(fields)
  {
    var key := new KeyRecord();
    BuildKeyType(key, t, 0, w);
    fields, size := key.fields, key.size;
  }

  // ----- the bytes a type describes

  /** A leaf by its name and its place in the outermost record. */
  datatype Part = Part(name: string, at: int, size: nat)

  function PartsOf(f: Field, shift: int): seq<Part>
    decreases f.fieldType, 1 + f.fieldType.Count()
  {
    if f.fieldType.Leaf? then [Part(f.name, shift + f.offset, f.fieldType.size)]
    else Parts(f.fieldType, 0, shift + f.offset - f.fieldType.base)
  }

  function Parts(t: FieldType, i: nat, shift: int): seq<Part>
    decreases t, t.Count() - i
  {
    if i >= t.Count() then []
    else if t.HasField(i) then PartsOf(t.FieldAt(i), shift) + Parts(t, i + 1, shift)
    else Parts(t, i + 1, shift)
  }

  function PartsOfAll(fields: seq<Field>, shift: int): seq<Part> {
    if fields == [] then [] else PartsOf(fields[0], shift) + PartsOfAll(fields[1..], shift)
  }

  /** The parts that lie wholly in the window. */
  function Within(parts: seq<Part>, w: Window): seq<Part> {
    if parts == [] then []
    else if w.Holds(parts[0].at, parts[0].size) then [parts[0]] + Within(parts[1..], w)
    else Within(parts[1..], w)
  }

  /** Every field lies in its record, at any depth. */
  ghost predicate Fits(t: FieldType)
    decreases t
  {
    forall i: nat | t.HasField(i) :: FieldFits(t, t.FieldAt(i)) && Fits(t.FieldAt(i).fieldType)
  }

  predicate FieldFits(t: FieldType, f: Field) {
    t.Record? && t.base <= f.offset && f.offset + f.fieldType.size <= t.base + t.size
  }

  /** The record that starts at `shift + base` has addresses without wrap-around. */
  predicate Addressable(t: FieldType, shift: int) {
    t.Record? && 0 <= shift + t.base && shift + t.base + t.size < WORD
  }

  predicate InWord(w: Window) {
    w.pos + w.len < WORD
  }

  lemma {:induction false} PartsOfBoth(a: seq<Field>, b: seq<Field>, shift: int)
    ensures PartsOfAll(a + b, shift) == PartsOfAll(a, shift) + PartsOfAll(b, shift)
  {
    if a == [] {
      assert a + b == b;
    } else {
      assert (a + b)[1..] == a[1..] + b;
      PartsOfBoth(a[1..], b, shift);
      Regroup(PartsOf(a[0], shift), PartsOfAll(a[1..], shift), PartsOfAll(b, shift));
    }
  }

  lemma {:induction false} WithinBoth(a: seq<Part>, b: seq<Part>, w: Window)
    ensures Within(a + b, w) == Within(a, w) + Within(b, w)
  {
    if a == [] {
      assert a + b == b;
    } else {
      assert (a + b)[1..] == a[1..] + b;
      WithinBoth(a[1..], b, w);
    }
  }

  /** All parts of a record in the window are in the window. */
  lemma {:induction false} AllWithin(t: FieldType, i: nat, shift: int, w: Window)
    requires Fits(t) && t.Record? && w.Holds(shift + t.base, t.size)
    ensures Within(Parts(t, i, shift), w) == Parts(t, i, shift)
    decreases t, t.Count() - i
  {
    if i < t.Count() {
      AllWithin(t, i + 1, shift, w);
      if t.HasField(i) {
        var f := t.FieldAt(i);
        assert FieldFits(t, f);
        FieldWithin(f, shift, w);
        WithinBoth(PartsOf(f, shift), Parts(t, i + 1, shift), w);
      }
    }
  }

  lemma {:induction false} FieldWithin(f: Field, shift: int, w: Window)
    requires Fits(f.fieldType) && w.Holds(shift + f.offset, f.fieldType.size)
    ensures Within(PartsOf(f, shift), w) == PartsOf(f, shift)
    decreases f.fieldType, f.fieldType.Count() + 1
  {
    if f.fieldType.Record? { AllWithin(f.fieldType, 0, shift + f.offset - f.fieldType.base, w); }
  }

  /** The key type describes exactly the leaves in the window, each once and in its place. */
  lemma {:induction false} KeyHoldsTheLeaves(t: FieldType, i: nat, shift: int, w: Window)
    requires Fits(t) && Addressable(t, shift) && InWord(w)
    ensures PartsOfAll(KeyFields(t, i, Uint(shift), w), w.pos) == Within(Parts(t, i, shift), w)
    decreases t, t.Count() - i
  {
    if i < t.Count() {
      KeyHoldsTheLeaves(t, i + 1, shift, w);
      if t.HasField(i) {
        var f := t.FieldAt(i);
        assert FieldFits(t, f);
        Addresses(f, shift, w);
        if !Chosen(shift + f.offset, f.fieldType.size, w) && f.fieldType.Record? {
          KeyHoldsTheLeaves(f.fieldType, 0, shift + f.offset - f.fieldType.base, w);
        }
        FieldHoldsTheLeaves(f, shift, w);
        PartsOfBoth(KeyFieldsOf(f, Uint(shift), w), KeyFields(t, i + 1, Uint(shift), w), w.pos);
        WithinBoth(PartsOf(f, shift), Parts(t, i + 1, shift), w);
      }
    }
  }

  /** The addresses of a field as computed are the real ones. */
  lemma Addresses(f: Field, shift: int, w: Window)
    requires 0 <= shift + f.offset && shift + f.offset + f.fieldType.size < WORD && InWord(w)
    ensures var at := shift + f.offset;
            && Uint(Uint(shift) + f.offset) == at
            && (f.fieldType.Record? ==> Uint(at - f.fieldType.base) == Uint(shift + f.offset - f.fieldType.base))
            && Chosen(at, f.fieldType.size, w) == w.Holds(at, f.fieldType.size)
  {
    Unwrapped(shift, f.offset);
  }

  /** A field that is added describes what it did. */
  lemma ChosenHoldsTheLeaves(f: Field, shift: int, w: Window)
    requires Fits(f.fieldType) && w.Holds(shift + f.offset, f.fieldType.size)
    ensures var added := Field(f.name, shift + f.offset - w.pos, f.fieldType);
            PartsOfAll([added], w.pos) == Within(PartsOf(f, shift), w)
  {
    var added := Field(f.name, shift + f.offset - w.pos, f.fieldType);
    assert PartsOfAll([added], w.pos) == PartsOf(added, w.pos) + PartsOfAll([], w.pos);
    assert PartsOf(added, w.pos) == PartsOf(f, shift);
    FieldWithin(f, shift, w);
  }

  lemma FieldHoldsTheLeaves(f: Field, shift: int, w: Window)
    requires Fits(f.fieldType) && 0 <= shift + f.offset && shift + f.offset + f.fieldType.size < WORD && InWord(w)
    requires f.fieldType.Record? && !w.Holds(shift + f.offset, f.fieldType.size) ==>
               var inner := shift + f.offset - f.fieldType.base;
               PartsOfAll(KeyFields(f.fieldType, 0, Uint(inner), w), w.pos) == Within(Parts(f.fieldType, 0, inner), w)
    ensures PartsOfAll(KeyFieldsOf(f, Uint(shift), w), w.pos) == Within(PartsOf(f, shift), w)
  {
    Addresses(f, shift, w);
    if w.Holds(shift + f.offset, f.fieldType.size) { ChosenHoldsTheLeaves(f, shift, w); }
  }

  // ----- the outermost record

  /** The parts, with the outermost record's first byte at place 0. */
  function TrueParts(t: FieldType): seq<Part>
    requires t.Record?
  {
    Parts(t, 0, 0 - t.base)
  }

  /** The key type of a record describes the leaves in the window at their true places. */
  ghost predicate TrueToPlaces(t: FieldType, w: Window)
    requires t.Record?
  {
    PartsOfAll(KeyFields(t, 0, 0, w), w.pos) == Within(TrueParts(t), w)
  }

  lemma {:induction false} PartsShift(t: FieldType, i: nat, shift: int, d: int)
    ensures |Parts(t, i, shift + d)| == |Parts(t, i, shift)|
    ensures forall k :: 0 <= k < |Parts(t, i, shift)| ==> Parts(t, i, shift + d)[k].at == Parts(t, i, shift)[k].at + d
    decreases t, t.Count() - i
  {
    if i < t.Count() {
      PartsShift(t, i + 1, shift, d);
      if t.HasField(i) {
        var f := t.FieldAt(i);
        if f.fieldType.Record? { PartsShift(f.fieldType, 0, shift + f.offset - f.fieldType.base, d); }
      }
    }
  }

  /** The program never subtracts the base of the outermost record. Its keys are true to the places
      of the leaves for every window exactly when that base is zero or there are no leaves. */
  lemma TrueToPlacesIff(t: FieldType)
    requires Fits(t) && Addressable(t, 0)
    ensures (forall w: Window :: InWord(w) ==> TrueToPlaces(t, w)) <==> t.base == 0 || TrueParts(t) == []
  {
    var whole := Window(0, t.base + t.size);
    PartsShift(t, 0, 0, 0 - t.base);
    if t.base == 0 || TrueParts(t) == [] {
      forall w: Window | InWord(w) ensures TrueToPlaces(t, w) { KeyHoldsTheLeaves(t, 0, 0, w); }
    } else {
      KeyHoldsTheLeaves(t, 0, 0, whole);
      AllWithin(t, 0, 0, whole);
      AllWithin(t, 0, 0 - t.base, whole);
      assert InWord(whole) && TrueParts(t)[0].at != Parts(t, 0, 0)[0].at;
    }
  }

  /** A record of one leaf whose base is 1: the key at its first byte gets no field. */
  lemma BaseIsIgnored()
    ensures var t := Record(1, 1, [Some(Field("f", 1, Leaf(1)))]);
            && Fits(t) && TrueParts(t) == [Part("f", 0, 1)]
            && KeyFields(t, 0, 0, Window(0, 1)) == [] && !TrueToPlaces(t, Window(0, 1))
  {
    var f := Field("f", 1, Leaf(1));
    var t := Record(1, 1, [Some(f)]);
    assert t.HasField(0) && t.FieldAt(0) == f && t.Count() == 1;
    assert PartsOf(f, -1) == [Part("f", 0, 1)];
    assert Parts(t, 1, -1) == [] && KeyFields(t, 1, 0, Window(0, 1)) == [];
    assert KeyFieldsOf(f, 0, Window(0, 1)) == [];
    assert Within([Part("f", 0, 1)], Window(0, 1)) == [Part("f", 0, 1)];
  }

  // ----- the fields at every depth

  /** The field `g` lies at this place: it is `f` itself or lies somewhere in it. */
  predicate Reaches(f: Field, shift: int, g: Field, at: int)
    decreases f.fieldType, 1 + f.fieldType.Count()
  {
    || (f.name == g.name && f.fieldType == g.fieldType && at == shift + f.offset)
    || (f.fieldType.Record? && Occurs(f.fieldType, 0, shift + f.offset - f.fieldType.base, g, at))
  }

  predicate Occurs(t: FieldType, i: nat, shift: int, g: Field, at: int)
    decreases t, t.Count() - i
  {
    i < t.Count() && ((t.HasField(i) && Reaches(t.FieldAt(i), shift, g, at)) || Occurs(t, i + 1, shift, g, at))
  }

  predicate OccursIn(fields: seq<Field>, shift: int, g: Field, at: int) {
    fields != [] && (Reaches(fields[0], shift, g, at) || OccursIn(fields[1..], shift, g, at))
  }

  predicate LiesIn(at: int, size: nat, outer: int, outerSize: nat) {
    outer <= at && at + size <= outer + outerSize
  }

  lemma {:induction false} OccursInBoth(a: seq<Field>, b: seq<Field>, shift: int, g: Field, at: int)
    ensures OccursIn(a + b, shift, g, at) == (OccursIn(a, shift, g, at) || OccursIn(b, shift, g, at))
  {
    if a == [] {
      assert a + b == b;
    } else {
      assert (a + b)[1..] == a[1..] + b;
      OccursInBoth(a[1..], b, shift, g, at);
    }
  }

  lemma {:induction false} OccursInside(t: FieldType, i: nat, shift: int, g: Field, at: int)
    requires Fits(t) && Occurs(t, i, shift, g, at)
    ensures LiesIn(at, g.fieldType.size, shift + t.base, t.size)
    decreases t, t.Count() - i
  {
    if Occurs(t, i + 1, shift, g, at) {
      OccursInside(t, i + 1, shift, g, at);
    } else {
      var f := t.FieldAt(i);
      assert FieldFits(t, f);
      ReachesInside(f, shift, g, at);
    }
  }

  lemma {:induction false} ReachesInside(f: Field, shift: int, g: Field, at: int)
    requires Fits(f.fieldType) && Reaches(f, shift, g, at)
    ensures LiesIn(at, g.fieldType.size, shift + f.offset, f.fieldType.size)
    decreases f.fieldType, 1 + f.fieldType.Count()
  {
    if f.fieldType.Record? && Occurs(f.fieldType, 0, shift + f.offset - f.fieldType.base, g, at) {
      OccursInside(f.fieldType, 0, shift + f.offset - f.fieldType.base, g, at);
    }
  }

  /** A field is in the key type, at any depth, exactly when it is in the record at that place and
      lies in the window. */
  lemma {:induction false} KeyHoldsTheFields(t: FieldType, i: nat, shift: int, w: Window, g: Field, at: int)
    requires Fits(t) && Addressable(t, shift) && InWord(w)
    ensures OccursIn(KeyFields(t, i, Uint(shift), w), w.pos, g, at)
            <==> Occurs(t, i, shift, g, at) && w.Holds(at, g.fieldType.size)
    decreases t, t.Count() - i
  {
    if i < t.Count() {
      KeyHoldsTheFields(t, i + 1, shift, w, g, at);
      if t.HasField(i) {
        var f := t.FieldAt(i);
        assert FieldFits(t, f);
        Addresses(f, shift, w);
        if f.fieldType.Record? {
          KeyHoldsTheFields(f.fieldType, 0, shift + f.offset - f.fieldType.base, w, g, at);
        }
        FieldHoldsTheFields(f, shift, w, g, at);
        OccursInBoth(KeyFieldsOf(f, Uint(shift), w), KeyFields(t, i + 1, Uint(shift), w), w.pos, g, at);
      }
    }
  }

  lemma FieldHoldsTheFields(f: Field, shift: int, w: Window, g: Field, at: int)
    requires Fits(f.fieldType) && 0 <= shift + f.offset && shift + f.offset + f.fieldType.size < WORD && InWord(w)
    requires f.fieldType.Record? ==>
               var inner := shift + f.offset - f.fieldType.base;
               OccursIn(KeyFields(f.fieldType, 0, Uint(inner), w), w.pos, g, at)
               <==> Occurs(f.fieldType, 0, inner, g, at) && w.Holds(at, g.fieldType.size)
    ensures OccursIn(KeyFieldsOf(f, Uint(shift), w), w.pos, g, at)
            <==> Reaches(f, shift, g, at) && w.Holds(at, g.fieldType.size)
  {
    Addresses(f, shift, w);
    if Reaches(f, shift, g, at) { ReachesInside(f, shift, g, at); }
    if w.Holds(shift + f.offset, f.fieldType.size) {
      var added := Field(f.name, shift + f.offset - w.pos, f.fieldType);
      assert OccursIn([added], w.pos, g, at) == Reaches(added, w.pos, g, at);
    }
  }

  // ----- no two added fields overlap

  predicate Apart(f: Field, g: Field) {
    f.offset + f.fieldType.size <= g.offset || g.offset + g.fieldType.size <= f.offset
  }

  /** No two fields of a record overlap, at any depth. */
  ghost predicate Spread(t: FieldType)
    decreases t
  {
    && (forall i: nat, j: nat | i < j && t.HasField(i) && t.HasField(j) :: Apart(t.FieldAt(i), t.FieldAt(j)))
    && (forall i: nat | t.HasField(i) :: Spread(t.FieldAt(i).fieldType))
  }

  predicate AllApart(fields: seq<Field>) {
    forall i, j :: 0 <= i < j < |fields| ==> Apart(fields[i], fields[j])
  }

  /** All of these lie where the field does. */
  predicate AllIn(added: seq<Field>, f: Field, shift: int, w: Window) {
    forall g <- added :: LiesIn(w.pos + g.offset, g.fieldType.size, shift + f.offset, f.fieldType.size)
  }

  /** This place is in one of the fields from the i-th on. */
  ghost predicate LiesInField(at: int, size: nat, t: FieldType, i: nat, shift: int) {
    exists j: nat ::
      i <= j && t.HasField(j) && LiesIn(at, size, shift + t.FieldAt(j).offset, t.FieldAt(j).fieldType.size)
  }

  lemma {:induction false} AddedLieInField(f: Field, shift: int, w: Window)
    requires Fits(f.fieldType) && 0 <= shift + f.offset && shift + f.offset + f.fieldType.size < WORD && InWord(w)
    ensures AllIn(KeyFieldsOf(f, Uint(shift), w), f, shift, w)
    ensures forall g <- KeyFieldsOf(f, Uint(shift), w) :: w.Holds(w.pos + g.offset, g.fieldType.size)
    decreases f.fieldType, 1 + f.fieldType.Count()
  {
    Addresses(f, shift, w);
    if !w.Holds(shift + f.offset, f.fieldType.size) && f.fieldType.Record? {
      AddedLieInARecord(f.fieldType, 0, shift + f.offset - f.fieldType.base, w);
    }
  }

  /** Every added field lies in the window and in one of the record's fields. */
  lemma {:induction false} AddedLieInARecord(t: FieldType, i: nat, shift: int, w: Window)
    requires Fits(t) && Addressable(t, shift) && InWord(w)
    ensures forall g <- KeyFields(t, i, Uint(shift), w) ::
              w.Holds(w.pos + g.offset, g.fieldType.size) && LiesInField(w.pos + g.offset, g.fieldType.size, t, i, shift)
    decreases t, t.Count() - i
  {
    if i < t.Count() {
      AddedLieInARecord(t, i + 1, shift, w);
      if t.HasField(i) {
        assert FieldFits(t, t.FieldAt(i));
        AddedLieInField(t.FieldAt(i), shift, w);
      }
    }
  }

  /** If the record's fields do not overlap, those of its key do not, and they lie in the key. */
  lemma {:induction false} KeyFieldsApart(t: FieldType, i: nat, shift: int, w: Window)
    requires Fits(t) && Addressable(t, shift) && InWord(w) && Spread(t)
    ensures AllApart(KeyFields(t, i, Uint(shift), w))
    ensures forall g <- KeyFields(t, i, Uint(shift), w) :: w.Holds(w.pos + g.offset, g.fieldType.size)
    decreases t, t.Count() - i
  {
    AddedLieInARecord(t, i, shift, w);
    if i < t.Count() {
      KeyFieldsApart(t, i + 1, shift, w);
      if t.HasField(i) {
        var f := t.FieldAt(i);
        assert FieldFits(t, f);
        Addresses(f, shift, w);
        AddedLieInField(f, shift, w);
        AddedLieInARecord(t, i + 1, shift, w);
        if f.fieldType.Record? { KeyFieldsApart(f.fieldType, 0, shift + f.offset - f.fieldType.base, w); }
        ApartFromLater(KeyFieldsOf(f, Uint(shift), w), t, i, shift, w);
      }
    }
  }

  lemma ApartFromLater(first: seq<Field>, t: FieldType, i: nat, shift: int, w: Window)
    requires Spread(t) && t.HasField(i) && AllApart(first) && AllIn(first, t.FieldAt(i), shift, w)
    requires AllApart(KeyFields(t, i + 1, Uint(shift), w))
    requires forall g <- KeyFields(t, i + 1, Uint(shift), w) ::
               LiesInField(w.pos + g.offset, g.fieldType.size, t, i + 1, shift)
    ensures AllApart(first + KeyFields(t, i + 1, Uint(shift), w))
  {
    var later := KeyFields(t, i + 1, Uint(shift), w);
    forall g, h | g in first && h in later ensures Apart(g, h) {
      var j: nat :| i + 1 <= j && t.HasField(j)
                    && LiesIn(w.pos + h.offset, h.fieldType.size, shift + t.FieldAt(j).offset, t.FieldAt(j).fieldType.size);
      assert Apart(t.FieldAt(i), t.FieldAt(j));
    }
    var all := first + later;
    forall m, n | 0 <= m < n < |all| ensures Apart(all[m], all[n]) {
      assert m < |first| ==> all[m] in first;
      assert n >= |first| ==> all[n] in later;
    }
  }
}
