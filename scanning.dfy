/**
 * The per-entry half of `_LocalBum.scan` (the nested `scan_value` and
 * `scan_field`): walking an entry's field tree and recording, for every
 * asset string, its canonical key, whether that key is among the source
 * files, and the string as written. The walk threads the entry's record map
 * through the tree exactly as the nested functions update
 * `scanned_tree[entry_hash]` in place.
 */
module Scanning {
  import opened Text
  import opened Hashing
  import opened BinTree

  /** A `scanned_tree` record: `(existed, original string)`. */
  datatype Rec = Rec(existed: bool, original: string)

  type Records = map<string, Rec>

  /** A `scanned_tree` key: the `'All_BINs'` pseudo-entry, or an entry hash. */
  datatype EntryKey = AllBins | Named(hash: nat)

  /** The asset-path test of scan, bum and the auditor: `assets/` or `data/`, case-insensitively. */
  predicate HasMarker(s: string) {
    Contains(Lower(s), "assets/") || Contains(Lower(s), "data/")
  }

  /** What `scan_value` does with one STRING. */
  function Note(h: Hasher, src: set<string>, s: string, acc: Records): Records {
    if HasMarker(s) then
      var k := Unify(h, s);
      acc[k := Rec(k in src, s)]
    else acc
  }

  function ScanValue(h: Hasher, src: set<string>, v: Value, acc: Records): Records
    decreases v, 1
  {
    match v
    case Scalar(_, _) => acc
    case Str(s) => Note(h, src, s, acc)
    case Struct(_, _, body) => ScanBody(h, src, body, acc)
  }

  function ScanBody(h: Hasher, src: set<string>, body: Body, acc: Records): Records
    decreases body, 1
  {
    match body
    case Null => acc
    case Fields(fs) => ScanFields(h, src, fs, acc)
  }

  function ScanValues(h: Hasher, src: set<string>, vs: seq<Value>, acc: Records): Records
    decreases vs, 0
  {
    if vs == [] then acc else ScanValues(h, src, vs[1..], ScanValue(h, src, vs[0], acc))
  }

  function ScanPair(h: Hasher, src: set<string>, p: (Value, Value), acc: Records): Records
    decreases p, 1
  {
    ScanValue(h, src, p.1, ScanValue(h, src, p.0, acc))
  }

  function ScanPairs(h: Hasher, src: set<string>, ps: seq<(Value, Value)>, acc: Records): Records
    decreases ps, 0
  {
    if ps == [] then acc else ScanPairs(h, src, ps[1..], ScanPair(h, src, ps[0], acc))
  }

  /** `scan_field`. */
  function ScanField(h: Hasher, src: set<string>, f: Field, acc: Records): Records
    decreases f, 2
  {
    match f.payload
    case Single(v) => ScanValue(h, src, v, acc)
    case Items(_, vs) => ScanValues(h, src, vs, acc)
    case Dict(ps) => ScanPairs(h, src, ps, acc)
    case Opt(Some(Str(s))) => Note(h, src, s, acc)
    case Opt(_) => acc
  }

  function ScanFields(h: Hasher, src: set<string>, fs: seq<Field>, acc: Records): Records
    decreases fs, 0
  {
    if fs == [] then acc else ScanFields(h, src, fs[1..], ScanField(h, src, fs[0], acc))
  }

  /** The records one entry yields: `scanned_tree[entry_hash]` after its fields are scanned. */
  function ScanEntry(h: Hasher, src: set<string>, e: Entry): Records {
    ScanFields(h, src, e.fields, map[])
  }

  /*
   * Reference definition: recording a list of strings one after another.
   */

  function Record(h: Hasher, src: set<string>, ss: seq<string>, acc: Records): Records
    decreases |ss|
  {
    if ss == [] then acc else Record(h, src, ss[1..], Note(h, src, ss[0], acc))
  }

  lemma {:induction false} RecordAppend(h: Hasher, src: set<string>, a: seq<string>, b: seq<string>, acc: Records)
    ensures Record(h, src, a + b, acc) == Record(h, src, b, Record(h, src, a, acc))
    decreases |a|
  {
    if a == [] {
      assert a + b == b;
    } else {
      assert (a + b)[1..] == a[1..] + b;
      RecordAppend(h, src, a[1..], b, Note(h, src, a[0], acc));
    }
  }

  lemma RecordSnoc(h: Hasher, src: set<string>, a: seq<string>, s: string, acc: Records)
    ensures Record(h, src, a + [s], acc) == Note(h, src, s, Record(h, src, a, acc))
  {
    RecordAppend(h, src, a, [s], acc);
  }

  /** Some string of `ss` carries an asset marker and unifies to `k`. */
  predicate Marks(h: Hasher, ss: seq<string>, k: string) {
    exists i :: 0 <= i < |ss| && HasMarker(ss[i]) && Unify(h, ss[i]) == k
  }

  /** Position `i` holds the last marked string of `ss` that unifies to `k`. */
  predicate LastMark(h: Hasher, ss: seq<string>, k: string, i: int) {
    0 <= i < |ss| && HasMarker(ss[i]) && Unify(h, ss[i]) == k
    && forall j :: i < j < |ss| ==> !(HasMarker(ss[j]) && Unify(h, ss[j]) == k)
  }

  /**
   * What recording a run of strings produces: a key is present exactly when
   * it was present before or some marked string unifies to it; a key some
   * string unifies to holds the flag "is a source file" and the LAST such
   * string; every other key keeps its old record.
   */
  lemma {:induction false} RecordSpec(h: Hasher, src: set<string>, ss: seq<string>, acc: Records, k: string)
    ensures k in Record(h, src, ss, acc) <==> k in acc || Marks(h, ss, k)
    ensures Marks(h, ss, k) ==>
      (exists i :: LastMark(h, ss, k, i) && Record(h, src, ss, acc)[k] == Rec(k in src, ss[i]))
    ensures !Marks(h, ss, k) && k in acc ==> Record(h, src, ss, acc)[k] == acc[k]
    decreases |ss|
  {
    if ss == [] {
      assert !Marks(h, ss, k);
    } else {
      var a, s := ss[..|ss| - 1], ss[|ss| - 1];
      assert ss == a + [s];
      RecordSnoc(h, src, a, s, acc);
      RecordSpec(h, src, a, acc, k);
      MarksSnoc(h, a, s, k);
      if HasMarker(s) && Unify(h, s) == k {
        LastMarkEnd(h, a, s, k);
      } else if Marks(h, a, k) {
        var i :| LastMark(h, a, k, i) && Record(h, src, a, acc)[k] == Rec(k in src, a[i]);
        LastMarkSnoc(h, a, s, k, i);
      }
    }
  }

  /** A key is marked by `a + [s]` when `a` marks it or `s` does. */
  lemma MarksSnoc(h: Hasher, a: seq<string>, s: string, k: string)
    ensures Marks(h, a + [s], k) <==> Marks(h, a, k) || (HasMarker(s) && Unify(h, s) == k)
  {
    var ss := a + [s];
    if Marks(h, ss, k) && !(HasMarker(s) && Unify(h, s) == k) {
      var i :| 0 <= i < |ss| && HasMarker(ss[i]) && Unify(h, ss[i]) == k;
      assert i < |a| && a[i] == ss[i];
    }
    if Marks(h, a, k) {
      var i :| 0 <= i < |a| && HasMarker(a[i]) && Unify(h, a[i]) == k;
      assert ss[i] == a[i];
    }
    if HasMarker(s) && Unify(h, s) == k {
      assert ss[|a|] == s;
    }
  }

  /** A marked string appended last is the last mark of its key. */
  lemma LastMarkEnd(h: Hasher, a: seq<string>, s: string, k: string)
    requires HasMarker(s) && Unify(h, s) == k
    ensures LastMark(h, a + [s], k, |a|)
  {
    assert (a + [s])[|a|] == s;
  }

  /** The last mark of a key stays last when a string that does not mark it is appended. */
  lemma LastMarkSnoc(h: Hasher, a: seq<string>, s: string, k: string, i: int)
    requires LastMark(h, a, k, i) && !(HasMarker(s) && Unify(h, s) == k)
    ensures LastMark(h, a + [s], k, i)
  {
    var ss := a + [s];
    assert ss[i] == a[i];
    forall j | i < j < |ss| ensures !(HasMarker(ss[j]) && Unify(h, ss[j]) == k) {
      if j < |a| {
        assert ss[j] == a[j];
      } else {
        assert ss[j] == s;
      }
    }
  }

  /*
   * The tree walk records exactly what recording its reached strings does.
   */

  lemma {:induction false} ScanValueIsRecord(h: Hasher, src: set<string>, v: Value, acc: Records)
    ensures ScanValue(h, src, v, acc) == Record(h, src, ValueStrings(v), acc)
    decreases v, 1
  {
    match v
    case Scalar(_, _) =>
    case Str(s) =>
    case Struct(_, _, body) => ScanBodyIsRecord(h, src, body, acc);
  }

  lemma {:induction false} ScanBodyIsRecord(h: Hasher, src: set<string>, body: Body, acc: Records)
    ensures ScanBody(h, src, body, acc) == Record(h, src, BodyStrings(body), acc)
    decreases body, 1
  {
    match body
    case Null =>
    case Fields(fs) => ScanFieldsIsRecord(h, src, fs, acc);
  }

  lemma {:induction false} ScanValuesIsRecord(h: Hasher, src: set<string>, vs: seq<Value>, acc: Records)
    ensures ScanValues(h, src, vs, acc) == Record(h, src, ValuesStrings(vs), acc)
    decreases vs, 0
  {
    if vs != [] {
      ScanValueIsRecord(h, src, vs[0], acc);
      ScanValuesIsRecord(h, src, vs[1..], ScanValue(h, src, vs[0], acc));
      RecordAppend(h, src, ValueStrings(vs[0]), ValuesStrings(vs[1..]), acc);
    }
  }

  lemma {:induction false} ScanPairIsRecord(h: Hasher, src: set<string>, p: (Value, Value), acc: Records)
    ensures ScanPair(h, src, p, acc) == Record(h, src, PairStrings(p), acc)
    decreases p, 1
  {
    ScanValueIsRecord(h, src, p.0, acc);
    ScanValueIsRecord(h, src, p.1, ScanValue(h, src, p.0, acc));
    RecordAppend(h, src, ValueStrings(p.0), ValueStrings(p.1), acc);
  }

  lemma {:induction false} ScanPairsIsRecord(h: Hasher, src: set<string>, ps: seq<(Value, Value)>, acc: Records)
    ensures ScanPairs(h, src, ps, acc) == Record(h, src, PairsStrings(ps), acc)
    decreases ps, 0
  {
    if ps != [] {
      ScanPairIsRecord(h, src, ps[0], acc);
      ScanPairsIsRecord(h, src, ps[1..], ScanPair(h, src, ps[0], acc));
      RecordAppend(h, src, PairStrings(ps[0]), PairsStrings(ps[1..]), acc);
    }
  }

  lemma {:induction false} ScanFieldIsRecord(h: Hasher, src: set<string>, f: Field, acc: Records)
    ensures ScanField(h, src, f, acc) == Record(h, src, FieldStrings(f), acc)
    decreases f, 2
  {
    match f.payload
    case Single(v) => ScanValueIsRecord(h, src, v, acc);
    case Items(_, vs) => ScanValuesIsRecord(h, src, vs, acc);
    case Dict(ps) => ScanPairsIsRecord(h, src, ps, acc);
    case Opt(_) =>
  }

  lemma {:induction false} ScanFieldsIsRecord(h: Hasher, src: set<string>, fs: seq<Field>, acc: Records)
    ensures ScanFields(h, src, fs, acc) == Record(h, src, FieldsStrings(fs), acc)
    decreases fs, 0
  {
    if fs != [] {
      ScanFieldIsRecord(h, src, fs[0], acc);
      ScanFieldsIsRecord(h, src, fs[1..], ScanField(h, src, fs[0], acc));
      RecordAppend(h, src, FieldStrings(fs[0]), FieldsStrings(fs[1..]), acc);
    }
  }

  /**
   * Scan recording: an entry's records hold a key exactly when some string
   * the walk reaches carries an asset marker and unifies to that key; the
   * record says whether the key is a source file and keeps the last such
   * string as written.
   */
  lemma ScanEntryRecords(h: Hasher, src: set<string>, e: Entry, k: string)
    ensures k in ScanEntry(h, src, e) <==> Marks(h, EntryStrings(e), k)
    ensures k in ScanEntry(h, src, e) ==>
      (exists i :: LastMark(h, EntryStrings(e), k, i)
        && ScanEntry(h, src, e)[k] == Rec(k in src, EntryStrings(e)[i]))
  {
    ScanFieldsIsRecord(h, src, e.fields, map[]);
    RecordSpec(h, src, EntryStrings(e), map[], k);
  }
}
