/** Record files in ascending order of a fixed-length key field. */
module SortedRecords {
  import opened KeyBytes
  import opened RecordFormat

  /** Where the emulated key lies in each record. */
  datatype KeySpec = KeySpec(pos: nat, len: nat)

  /** The key field of a record, as far as the record reaches; the old value if it has none. */
  function KeyField(spec: KeySpec, record: seq<byte>, previous: seq<byte>): seq<byte> {
    if |record| <= spec.pos then previous
    else if |record| < spec.pos + spec.len then record[spec.pos..]
    else record[spec.pos..spec.pos + spec.len]
  }

  function KeyOf(spec: KeySpec, e: Entry): (k: seq<byte>)
    ensures |e.record| >= spec.pos + spec.len ==> |k| == spec.len
  {
    KeyField(spec, e.record, [])
  }

  /** Every record holds a whole key. */
  predicate Keyed(spec: KeySpec, es: seq<Entry>) {
    forall e <- es :: |e.record| >= spec.pos + spec.len
  }

  predicate KeyBelow(spec: KeySpec, es: seq<Entry>, i: nat, key: seq<byte>)
    requires Keyed(spec, es) && i < |es| && |key| == spec.len
  {
    Less(KeyOf(spec, es[i]), key)
  }

  ghost predicate Ascending(spec: KeySpec, es: seq<Entry>) {
    && spec.len > 0
    && Keyed(spec, es)
    && forall i, j {:trigger KeyBelow(spec, es, i, KeyOf(spec, es[j]))} ::
         0 <= i < j < |es| ==> KeyBelow(spec, es, i, KeyOf(spec, es[j]))
  }

  /** How many records have a smaller key; the index of the first record at or after `key`. */
  ghost function Rank(spec: KeySpec, es: seq<Entry>, key: seq<byte>): (n: nat)
    requires |key| == spec.len && Keyed(spec, es)
    ensures n <= |es|
    ensures forall i {:trigger KeyBelow(spec, es, i, key)} :: 0 <= i < n ==> KeyBelow(spec, es, i, key)
    ensures n < |es| ==> !KeyBelow(spec, es, n, key)
  {
    if es == [] || !KeyBelow(spec, es, 0, key) then 0
    else
      var n := Rank(spec, es[1..], key);
      assert forall i {:trigger KeyBelow(spec, es, i, key)} :: 1 <= i < |es| ==>
               KeyBelow(spec, es, i, key) == KeyBelow(spec, es[1..], i - 1, key);
      1 + n
  }

  lemma BelowIsTransitive(spec: KeySpec, es: seq<Entry>, key: seq<byte>, i: nat, j: nat)
    requires Ascending(spec, es) && |key| == spec.len && i < j < |es| && KeyBelow(spec, es, j, key)
    ensures KeyBelow(spec, es, i, key)
  {
    assert KeyBelow(spec, es, i, KeyOf(spec, es[j]));
    LessTransitive(KeyOf(spec, es[i]), KeyOf(spec, es[j]), key);
  }

  lemma RankIs(spec: KeySpec, es: seq<Entry>, key: seq<byte>, n: nat)
    requires Ascending(spec, es) && |key| == spec.len && n <= |es|
    requires n > 0 ==> KeyBelow(spec, es, n - 1, key)
    requires n < |es| ==> !KeyBelow(spec, es, n, key)
    ensures Rank(spec, es, key) == n
  {
    var r := Rank(spec, es, key);
    if r < n - 1 { BelowIsTransitive(spec, es, key, r, n - 1); }
  }

  lemma NotAboveRank(spec: KeySpec, es: seq<Entry>, key: seq<byte>, i: nat)
    requires Ascending(spec, es) && |key| == spec.len && Rank(spec, es, key) <= i < |es|
    ensures !KeyBelow(spec, es, i, key)
  {
    var r := Rank(spec, es, key);
    if r < i && KeyBelow(spec, es, i, key) { BelowIsTransitive(spec, es, key, r, i); }
  }

  lemma RankAbove(spec: KeySpec, es: seq<Entry>, key: seq<byte>, i: nat)
    requires Ascending(spec, es) && |key| == spec.len && i < |es|
    ensures Rank(spec, es, key) > i <==> KeyBelow(spec, es, i, key)
  {
    if Rank(spec, es, key) <= i { NotAboveRank(spec, es, key, i); }
  }

  lemma RankOfEntry(spec: KeySpec, es: seq<Entry>, i: nat)
    requires Ascending(spec, es) && i < |es|
    ensures Rank(spec, es, KeyOf(spec, es[i])) == i
  {
    var key := KeyOf(spec, es[i]);
    LessTrichotomy(key, key);
    assert i > 0 ==> KeyBelow(spec, es, i - 1, key);
    RankIs(spec, es, key, i);
  }

  /** In an ascending file only the record at the rank of a key can have that key. */
  lemma PresentIffAtRank(spec: KeySpec, es: seq<Entry>, key: seq<byte>)
    requires Ascending(spec, es) && |key| == spec.len
    ensures var n := Rank(spec, es, key);
            (exists e :: e in es && KeyOf(spec, e) == key) <==> n < |es| && KeyOf(spec, es[n]) == key
  {
    if e :| e in es && KeyOf(spec, e) == key {
      var i: nat :| i < |es| && es[i] == e;
      RankOfEntry(spec, es, i);
    }
  }

  /** `p` is a place from which exactly the records from the `i`-th on follow. */
  ghost predicate Before(format: Format, disk: seq<byte>, p: nat, i: nat) {
    i <= |Entries(format, disk, 0)| && Entries(format, disk, p) == Entries(format, disk, 0)[i..]
  }

  lemma ScanBefore(format: Format, disk: seq<byte>, p: nat, i: nat)
    requires Before(format, disk, p, i)
    ensures var es := Entries(format, disk, 0);
            if i < |es| then
              && p == es[i].at && ScanAt(format, disk, p).Rec?
              && ScanAt(format, disk, p).record == es[i].record
              && Before(format, disk, ScanAt(format, disk, p).next, i + 1)
            else ScanAt(format, disk, p) == End
  {
    var es := Entries(format, disk, 0);
    if i < |es| {
      assert es[i..][0] == es[i];
      assert es[i..][1..] == es[i + 1..];
    }
  }

  lemma BeforeEnd(format: Format, disk: seq<byte>, p: nat)
    requires p >= |disk|
    ensures Before(format, disk, p, |Entries(format, disk, 0)|)
  {
    assert ScanAt(format, disk, p) == End;
  }

  /** The place of an entry is a place before it. */
  lemma {:induction false} BeforeEntry(format: Format, disk: seq<byte>, p: nat, i: nat)
    requires i < |Entries(format, disk, p)|
    ensures Entries(format, disk, Entries(format, disk, p)[i].at) == Entries(format, disk, p)[i..]
    decreases i
  {
    if i > 0 {
      var next := ScanAt(format, disk, p).next;
      BeforeEntry(format, disk, next, i - 1);
      assert Entries(format, disk, p)[i..] == Entries(format, disk, next)[i - 1..];
    }
  }

  /** What a reader knows between two calls: its position, and position and key of the record it
      read last. */
  datatype Spot = Spot(pos: nat, recordPos: nat, key: seq<byte>)

  /** The reader's key is that of the `i`-th record, and it stands before or behind it. */
  ghost predicate Tracks(spec: KeySpec, format: Format, disk: seq<byte>, s: Spot, i: nat) {
    var es := Entries(format, disk, 0);
    && i < |es|
    && s.key == KeyOf(spec, es[i])
    && (Before(format, disk, s.pos, i) || Before(format, disk, s.pos, i + 1))
    && (ScanAt(format, disk, s.recordPos).Rec? ==> s.recordPos == es[i].at)
  }

  ghost predicate OnTrack(spec: KeySpec, format: Format, disk: seq<byte>, s: Spot) {
    && Ascending(spec, Entries(format, disk, 0))
    && s.pos <= |disk|
    && ((s.key == [] && exists i :: Before(format, disk, s.pos, i)) || exists i :: Tracks(spec, format, disk, s, i))
  }

  /** What a sequential read makes of a spot. */
  ghost predicate ReadsTo(spec: KeySpec, format: Format, disk: seq<byte>, s: Spot, s': Spot) {
    && s'.recordPos == s.pos
    && s'.pos <= |disk|
    && match ScanAt(format, disk, s.pos)
       case End => s'.pos >= |disk| && s'.key == s.key
       case Rec(record, next) => s'.pos == next && s'.key == KeyField(spec, record, s.key)
  }

  lemma ReadStaysOnTrack(spec: KeySpec, format: Format, disk: seq<byte>, s: Spot, s': Spot, i: nat)
    requires Ascending(spec, Entries(format, disk, 0)) && ReadsTo(spec, format, disk, s, s')
    requires Before(format, disk, s.pos, i)
    requires i == |Entries(format, disk, 0)| ==> OnTrack(spec, format, disk, s)
    ensures OnTrack(spec, format, disk, s')
    ensures var es := Entries(format, disk, 0);
            if i < |es| then
              && ScanAt(format, disk, s.pos).Rec? && ScanAt(format, disk, s.pos).record == es[i].record
              && Tracks(spec, format, disk, s', i) && s'.recordPos == es[i].at
              && Before(format, disk, s'.pos, i + 1)
            else ScanAt(format, disk, s.pos).End? && Before(format, disk, s'.pos, i)
  {
    var es := Entries(format, disk, 0);
    ScanBefore(format, disk, s.pos, i);
    if i < |es| {
      assert Tracks(spec, format, disk, s', i);
    } else {
      BeforeEnd(format, disk, s'.pos);
      if k: nat :| Tracks(spec, format, disk, s, k) {
        assert |es[k..]| <= 1 && k + 1 == |es|;
        assert Before(format, disk, s'.pos, k + 1);
        assert Tracks(spec, format, disk, s', k);
      }
    }
  }

  /** Going back to the record read last, the reader is before it again. */
  lemma BackToRecord(spec: KeySpec, format: Format, disk: seq<byte>, s: Spot, i: nat)
    requires OnTrack(spec, format, disk, s) && Tracks(spec, format, disk, s, i)
    requires s.recordPos == Entries(format, disk, 0)[i].at
    ensures OnTrack(spec, format, disk, Spot(s.recordPos, s.recordPos, s.key))
    ensures Before(format, disk, s.recordPos, i) && s.recordPos < |disk|
  {
    BeforeEntry(format, disk, 0, i);
    assert Tracks(spec, format, disk, Spot(s.recordPos, s.recordPos, s.key), i);
  }
}
