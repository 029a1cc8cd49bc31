/**
 * The rewriting half of `_LocalBum.bum` (the nested `bum_value`,
 * `bum_field` and `bum_bin`, with the inlined `bum_path`): every asset string
 * whose canonical key the scan recorded as an existing source file gets the
 * entry's prefix inserted as a new directory after its first path segment.
 * Nothing else in the tree changes, except that a MAP is rebuilt by a dict
 * comprehension, so two keys that become equal collapse into one.
 */
module Repathing {
  import opened Wrappers
  import opened Text
  import opened Hashing
  import opened BinTree
  import opened Scanning

  predicate NoSlash(s: string) {
    forall j :: 0 <= j < |s| ==> s[j] != '/'
  }

  /** `bum_path`: `prefix` becomes a directory after the first segment, or in front of a bare name. */
  function InsertPrefix(prefix: string, s: string): string {
    match IndexOf(s, "/")
    case Some(i) => s[..i] + "/" + prefix + s[i..]
    case None => prefix + "/" + s
  }

  /**
   * The path segments of the result are those of the input with `prefix`
   * inserted as the second one (or, for a bare name, as the first).
   */
  lemma InsertPrefixSegments(prefix: string, s: string)
    requires NoSlash(prefix)
    ensures |InsertPrefix(prefix, s)| == |s| + |prefix| + 1
    ensures Contains(s, "/") ==>
      SplitOn(InsertPrefix(prefix, s), "/") == [SplitOn(s, "/")[0], prefix] + SplitOn(s, "/")[1..]
    ensures !Contains(s, "/") ==> SplitOn(InsertPrefix(prefix, s), "/") == [prefix, s]
  {
    match IndexOf(s, "/")
    case None =>
      SplitAfterHead(prefix, '/', s);
    case Some(i) =>
      InsertPrefixSegmentsAt(prefix, s, i);
  }

  lemma InsertPrefixSegmentsAt(prefix: string, s: string, i: nat)
    requires NoSlash(prefix)
    requires IndexOf(s, "/") == Some(i)
    ensures |InsertPrefix(prefix, s)| == |s| + |prefix| + 1
    ensures SplitOn(InsertPrefix(prefix, s), "/") == [s[..i], prefix] + SplitOn(s[i + 1..], "/")
    ensures SplitOn(s, "/") == [s[..i]] + SplitOn(s[i + 1..], "/")
  {
    SplitAtSlash(s, i);
    var head, rest := s[..i], s[i + 1..];
    var tail := prefix + "/" + rest;
    assert InsertPrefix(prefix, s) == head + "/" + tail;
    SplitAfterHead(head, '/', tail);
    SplitAfterHead(prefix, '/', rest);
  }

  /** A path cut at its first `/`. */
  lemma SplitAtSlash(s: string, i: nat)
    requires IndexOf(s, "/") == Some(i)
    ensures i < |s| && s[i..] == "/" + s[i + 1..]
    ensures forall j :: 0 <= j < |s[..i]| ==> s[..i][j] != '/'
    ensures SplitOn(s, "/") == [s[..i]] + SplitOn(s[i + 1..], "/")
  {
    IndexOfChar(s, '/');
    DropHead(s, i);
  }

  lemma DropHead(s: string, i: nat)
    requires i < |s|
    ensures s[i..] == [s[i]] + s[i + 1..]
  {
  }

  /** Distinct paths stay distinct once prefixed: `bum_path` loses no information. */
  lemma InsertPrefixInjective(prefix: string, s1: string, s2: string)
    requires NoSlash(prefix)
    requires InsertPrefix(prefix, s1) == InsertPrefix(prefix, s2)
    ensures s1 == s2
  {
    InsertPrefixSegments(prefix, s1);
    InsertPrefixSegments(prefix, s2);
    var segs := SplitOn(InsertPrefix(prefix, s1), "/");
    if Contains(s1, "/") && Contains(s2, "/") {
      assert SplitOn(s1, "/") == [segs[0]] + segs[2..];
      assert SplitOn(s2, "/") == [segs[0]] + segs[2..];
      JoinSplit(s1, "/");
      JoinSplit(s2, "/");
    } else if Contains(s1, "/") {
      SplitTwoParts(s1, "/");
    } else if Contains(s2, "/") {
      SplitTwoParts(s2, "/");
    }
  }

  /** What `bum_value` consults for one entry: its scan records and its prefix. */
  datatype Scope = Scope(h: Hasher, recs: Records, prefix: string)

  /** A string `bum_value` rewrites: marked, and its key recorded as an existing source file. */
  predicate Eligible(sc: Scope, s: string) {
    var k := Unify(sc.h, Lower(s));
    HasMarker(s) && k in sc.recs && sc.recs[k].existed
  }

  /** `bum_value` on a STRING. */
  function BumString(sc: Scope, s: string): string {
    if Eligible(sc, s) then InsertPrefix(sc.prefix, s) else s
  }

  function Rewriter(sc: Scope): string -> string {
    s => BumString(sc, s)
  }

  /*
   * The rewrite as the source performs it.
   */

  /** Python `d[k] = v` on a dict kept as its list of items in insertion order. */
  function DictPut(ps: seq<(Value, Value)>, k: Value, v: Value): seq<(Value, Value)> {
    if ps == [] then [(k, v)]
    else if ps[0].0 == k then [(k, v)] + ps[1..]
    else [ps[0]] + DictPut(ps[1..], k, v)
  }

  function BumValue(sc: Scope, v: Value): Value
    decreases v, 1
  {
    match v
    case Scalar(_, _) => v
    case Str(s) => Str(BumString(sc, s))
    case Struct(k, c, body) => Struct(k, c, BumBody(sc, body))
  }

  function BumBody(sc: Scope, body: Body): Body
    decreases body, 1
  {
    match body
    case Null => Null
    case Fields(fs) => Fields(BumFields(sc, fs))
  }

  function BumValues(sc: Scope, vs: seq<Value>): seq<Value>
    decreases vs, 0
  {
    if vs == [] then [] else [BumValue(sc, vs[0])] + BumValues(sc, vs[1..])
  }

  function BumPair(sc: Scope, p: (Value, Value)): (Value, Value)
    decreases p, 1
  {
    (BumValue(sc, p.0), BumValue(sc, p.1))
  }

  /** The MAP dict comprehension: each rewritten pair is stored into the dict built so far. */
  function BumPairs(sc: Scope, ps: seq<(Value, Value)>, acc: seq<(Value, Value)>): seq<(Value, Value)>
    decreases ps, 0
  {
    if ps == [] then acc
    else
      var q := BumPair(sc, ps[0]);
      BumPairs(sc, ps[1..], DictPut(acc, q.0, q.1))
  }

  /** `bum_field`. */
  function BumField(sc: Scope, f: Field): Field
    decreases f, 2
  {
    match f.payload
    case Single(v) => Field(f.name, Single(BumValue(sc, v)))
    case Items(l2, vs) => Field(f.name, Items(l2, BumValues(sc, vs)))
    case Dict(ps) => Field(f.name, Dict(BumPairs(sc, ps, [])))
    case Opt(Some(Str(s))) => Field(f.name, Opt(Some(Str(BumString(sc, s)))))
    case Opt(_) => f
  }

  function BumFields(sc: Scope, fs: seq<Field>): seq<Field>
    decreases fs, 0
  {
    if fs == [] then [] else [BumField(sc, fs[0])] + BumFields(sc, fs[1..])
  }

  /*
   * Reference definition: replacing every reached string through `g`,
   * position by position, and touching nothing else.
   */

  function SubstValue(g: string -> string, v: Value): Value
    decreases v, 1
  {
    match v
    case Scalar(_, _) => v
    case Str(s) => Str(g(s))
    case Struct(k, c, body) => Struct(k, c, SubstBody(g, body))
  }

  function SubstBody(g: string -> string, body: Body): Body
    decreases body, 1
  {
    match body
    case Null => Null
    case Fields(fs) => Fields(SubstFields(g, fs))
  }

  function SubstValues(g: string -> string, vs: seq<Value>): seq<Value>
    decreases vs, 0
  {
    if vs == [] then [] else [SubstValue(g, vs[0])] + SubstValues(g, vs[1..])
  }

  function SubstPair(g: string -> string, p: (Value, Value)): (Value, Value)
    decreases p, 1
  {
    (SubstValue(g, p.0), SubstValue(g, p.1))
  }

  function SubstPairs(g: string -> string, ps: seq<(Value, Value)>): seq<(Value, Value)>
    decreases ps, 0
  {
    if ps == [] then [] else [SubstPair(g, ps[0])] + SubstPairs(g, ps[1..])
  }

  function SubstField(g: string -> string, f: Field): Field
    decreases f, 2
  {
    match f.payload
    case Single(v) => Field(f.name, Single(SubstValue(g, v)))
    case Items(l2, vs) => Field(f.name, Items(l2, SubstValues(g, vs)))
    case Dict(ps) => Field(f.name, Dict(SubstPairs(g, ps)))
    case Opt(Some(Str(s))) => Field(f.name, Opt(Some(Str(g(s)))))
    case Opt(_) => f
  }

  function SubstFields(g: string -> string, fs: seq<Field>): seq<Field>
    decreases fs, 0
  {
    if fs == [] then [] else [SubstField(g, fs[0])] + SubstFields(g, fs[1..])
  }

  predicate DistinctKeys(ps: seq<(Value, Value)>) {
    forall i, j :: 0 <= i < j < |ps| ==> ps[i].0 != ps[j].0
  }

  /*
   * No MAP anywhere in the tree has two keys that `g` makes equal.
   */

  predicate NoMergeValue(g: string -> string, v: Value)
    decreases v, 1
  {
    match v
    case Scalar(_, _) => true
    case Str(_) => true
    case Struct(_, _, body) => NoMergeBody(g, body)
  }

  predicate NoMergeBody(g: string -> string, body: Body)
    decreases body, 1
  {
    match body
    case Null => true
    case Fields(fs) => NoMergeFields(g, fs)
  }

  predicate NoMergeValues(g: string -> string, vs: seq<Value>)
    decreases vs, 0
  {
    vs == [] || (NoMergeValue(g, vs[0]) && NoMergeValues(g, vs[1..]))
  }

  predicate NoMergePair(g: string -> string, p: (Value, Value))
    decreases p, 1
  {
    NoMergeValue(g, p.0) && NoMergeValue(g, p.1)
  }

  predicate NoMergePairs(g: string -> string, ps: seq<(Value, Value)>)
    decreases ps, 0
  {
    ps == [] || (NoMergePair(g, ps[0]) && NoMergePairs(g, ps[1..]))
  }

  predicate NoMergeField(g: string -> string, f: Field)
    decreases f, 2
  {
    match f.payload
    case Single(v) => NoMergeValue(g, v)
    case Items(_, vs) => NoMergeValues(g, vs)
    case Dict(ps) => DistinctKeys(SubstPairs(g, ps)) && NoMergePairs(g, ps)
    case Opt(_) => true
  }

  predicate NoMergeFields(g: string -> string, fs: seq<Field>)
    decreases fs, 0
  {
    fs == [] || (NoMergeField(g, fs[0]) && NoMergeFields(g, fs[1..]))
  }

  /** Storing a key the dict does not hold yet appends the pair. */
  lemma {:induction false} DictPutFresh(ps: seq<(Value, Value)>, k: Value, v: Value)
    requires forall i :: 0 <= i < |ps| ==> ps[i].0 != k
    ensures DictPut(ps, k, v) == ps + [(k, v)]
  {
    if ps != [] {
      DictPutFresh(ps[1..], k, v);
    }
  }

  /** Storing a key the dict holds (first at `i`) keeps its position and replaces its value. */
  lemma {:induction false} DictPutExisting(ps: seq<(Value, Value)>, k: Value, v: Value, i: int)
    requires 0 <= i < |ps| && ps[i].0 == k
    requires forall j :: 0 <= j < i ==> ps[j].0 != k
    ensures DictPut(ps, k, v) == ps[..i] + [(k, v)] + ps[i + 1..]
    ensures |DictPut(ps, k, v)| == |ps|
  {
    if ps[0].0 != k {
      DictPutExisting(ps[1..], k, v, i - 1);
      assert ps[1..][..i - 1] == ps[1..i];
      assert ps[1..][i - 1 + 1..] == ps[i + 1..];
      assert [ps[0]] + ps[1..i] == ps[..i];
    } else {
      assert i == 0;
    }
  }

  /** Storing a key adds at most one pair. */
  lemma {:induction false} DictPutBound(ps: seq<(Value, Value)>, k: Value, v: Value)
    ensures |DictPut(ps, k, v)| <= |ps| + 1
  {
    if ps != [] && ps[0].0 != k {
      DictPutBound(ps[1..], k, v);
    }
  }

  /*
   * When no MAP collapses, the source's rewrite is exactly the position by
   * position replacement of every reached string by `BumString`.
   */

  lemma {:induction false} BumValueIsSubst(sc: Scope, v: Value)
    requires NoMergeValue(Rewriter(sc), v)
    ensures BumValue(sc, v) == SubstValue(Rewriter(sc), v)
    decreases v, 1
  {
    match v
    case Scalar(_, _) =>
    case Str(s) =>
    case Struct(_, _, body) => BumBodyIsSubst(sc, body);
  }

  lemma {:induction false} BumBodyIsSubst(sc: Scope, body: Body)
    requires NoMergeBody(Rewriter(sc), body)
    ensures BumBody(sc, body) == SubstBody(Rewriter(sc), body)
    decreases body, 1
  {
    match body
    case Null =>
    case Fields(fs) => BumFieldsIsSubst(sc, fs);
  }

  lemma {:induction false} BumValuesIsSubst(sc: Scope, vs: seq<Value>)
    requires NoMergeValues(Rewriter(sc), vs)
    ensures BumValues(sc, vs) == SubstValues(Rewriter(sc), vs)
    decreases vs, 0
  {
    if vs != [] {
      BumValueIsSubst(sc, vs[0]);
      BumValuesIsSubst(sc, vs[1..]);
    }
  }

  lemma {:induction false} BumPairIsSubst(sc: Scope, p: (Value, Value))
    requires NoMergePair(Rewriter(sc), p)
    ensures BumPair(sc, p) == SubstPair(Rewriter(sc), p)
    decreases p, 1
  {
    BumValueIsSubst(sc, p.0);
    BumValueIsSubst(sc, p.1);
  }

  lemma {:induction false} BumPairsIsSubst(sc: Scope, ps: seq<(Value, Value)>, acc: seq<(Value, Value)>)
    requires NoMergePairs(Rewriter(sc), ps)
    requires DistinctKeys(acc + SubstPairs(Rewriter(sc), ps))
    ensures BumPairs(sc, ps, acc) == acc + SubstPairs(Rewriter(sc), ps)
    decreases ps, 0
  {
    var g := Rewriter(sc);
    if ps == [] {
      assert acc + SubstPairs(g, ps) == acc;
    } else {
      BumPairIsSubst(sc, ps[0]);
      var q := SubstPair(g, ps[0]);
      var all := acc + SubstPairs(g, ps);
      assert all == (acc + [q]) + SubstPairs(g, ps[1..]);
      forall i | 0 <= i < |acc| ensures acc[i].0 != q.0 {
        assert all[i] == acc[i] && all[|acc|] == q;
      }
      DictPutFresh(acc, q.0, q.1);
      BumPairsIsSubst(sc, ps[1..], acc + [q]);
    }
  }

  lemma {:induction false} BumFieldIsSubst(sc: Scope, f: Field)
    requires NoMergeField(Rewriter(sc), f)
    ensures BumField(sc, f) == SubstField(Rewriter(sc), f)
    decreases f, 2
  {
    match f.payload
    case Single(v) => BumValueIsSubst(sc, v);
    case Items(_, vs) => BumValuesIsSubst(sc, vs);
    case Dict(ps) =>
      assert [] + SubstPairs(Rewriter(sc), ps) == SubstPairs(Rewriter(sc), ps);
      BumPairsIsSubst(sc, ps, []);
    case Opt(_) =>
  }

  lemma {:induction false} BumFieldsIsSubst(sc: Scope, fs: seq<Field>)
    requires NoMergeFields(Rewriter(sc), fs)
    ensures BumFields(sc, fs) == SubstFields(Rewriter(sc), fs)
    decreases fs, 0
  {
    if fs != [] {
      BumFieldIsSubst(sc, fs[0]);
      BumFieldsIsSubst(sc, fs[1..]);
    }
  }

  /*
   * The replacement changes the reached strings through `g`, in place and in
   * order.
   */

  function MapStrings(g: string -> string, ss: seq<string>): (r: seq<string>)
    ensures |r| == |ss|
    ensures forall i :: 0 <= i < |ss| ==> r[i] == g(ss[i])
  {
    seq(|ss|, i requires 0 <= i < |ss| => g(ss[i]))
  }

  lemma MapStringsAppend(g: string -> string, a: seq<string>, b: seq<string>)
    ensures MapStrings(g, a + b) == MapStrings(g, a) + MapStrings(g, b)
  {
  }

  lemma {:induction false} SubstValueStrings(g: string -> string, v: Value)
    ensures ValueStrings(SubstValue(g, v)) == MapStrings(g, ValueStrings(v))
    decreases v, 1
  {
    match v
    case Scalar(_, _) =>
    case Str(s) =>
    case Struct(_, _, body) => SubstBodyStrings(g, body);
  }

  lemma {:induction false} SubstBodyStrings(g: string -> string, body: Body)
    ensures BodyStrings(SubstBody(g, body)) == MapStrings(g, BodyStrings(body))
    decreases body, 1
  {
    match body
    case Null =>
    case Fields(fs) => SubstFieldsStrings(g, fs);
  }

  lemma {:induction false} SubstValuesStrings(g: string -> string, vs: seq<Value>)
    ensures ValuesStrings(SubstValues(g, vs)) == MapStrings(g, ValuesStrings(vs))
    decreases vs, 0
  {
    if vs != [] {
      SubstValueStrings(g, vs[0]);
      SubstValuesStrings(g, vs[1..]);
      MapStringsAppend(g, ValueStrings(vs[0]), ValuesStrings(vs[1..]));
    }
  }

  lemma {:induction false} SubstPairStrings(g: string -> string, p: (Value, Value))
    ensures PairStrings(SubstPair(g, p)) == MapStrings(g, PairStrings(p))
    decreases p, 1
  {
    SubstValueStrings(g, p.0);
    SubstValueStrings(g, p.1);
    MapStringsAppend(g, ValueStrings(p.0), ValueStrings(p.1));
  }

  lemma {:induction false} SubstPairsStrings(g: string -> string, ps: seq<(Value, Value)>)
    ensures PairsStrings(SubstPairs(g, ps)) == MapStrings(g, PairsStrings(ps))
    decreases ps, 0
  {
    if ps != [] {
      SubstPairStrings(g, ps[0]);
      SubstPairsStrings(g, ps[1..]);
      MapStringsAppend(g, PairStrings(ps[0]), PairsStrings(ps[1..]));
    }
  }

  lemma {:induction false} SubstFieldStrings(g: string -> string, f: Field)
    ensures FieldStrings(SubstField(g, f)) == MapStrings(g, FieldStrings(f))
    decreases f, 2
  {
    match f.payload
    case Single(v) => SubstValueStrings(g, v);
    case Items(_, vs) => SubstValuesStrings(g, vs);
    case Dict(ps) => SubstPairsStrings(g, ps);
    case Opt(_) =>
  }

  lemma {:induction false} SubstFieldsStrings(g: string -> string, fs: seq<Field>)
    ensures FieldsStrings(SubstFields(g, fs)) == MapStrings(g, FieldsStrings(fs))
    decreases fs, 0
  {
    if fs != [] {
      SubstFieldStrings(g, fs[0]);
      SubstFieldsStrings(g, fs[1..]);
      MapStringsAppend(g, FieldStrings(fs[0]), FieldsStrings(fs[1..]));
    }
  }

  /** A LIST keeps its length: the comprehension rewrites element by element. */
  lemma {:induction false} BumValuesLength(sc: Scope, vs: seq<Value>)
    ensures |BumValues(sc, vs)| == |vs|
    decreases |vs|
  {
    if vs != [] {
      BumValuesLength(sc, vs[1..]);
    }
  }

  /** A MAP never grows, and keeps its size when its rewritten keys are distinct. */
  lemma {:induction false} BumPairsSize(sc: Scope, ps: seq<(Value, Value)>, acc: seq<(Value, Value)>)
    ensures |BumPairs(sc, ps, acc)| <= |acc| + |ps|
    decreases |ps|
  {
    if ps != [] {
      var q := BumPair(sc, ps[0]);
      DictPutBound(acc, q.0, q.1);
      BumPairsSize(sc, ps[1..], DictPut(acc, q.0, q.1));
    }
  }

  /**
   * Two different strings end up equal only when one is eligible and the
   * other is exactly its prefixed form, which is not eligible: this is the
   * only way a MAP can lose a key in the rewrite.
   */
  lemma BumStringCollision(sc: Scope, s1: string, s2: string)
    requires NoSlash(sc.prefix)
    requires s1 != s2 && BumString(sc, s1) == BumString(sc, s2)
    ensures (Eligible(sc, s1) && !Eligible(sc, s2) && s2 == InsertPrefix(sc.prefix, s1))
         || (Eligible(sc, s2) && !Eligible(sc, s1) && s1 == InsertPrefix(sc.prefix, s2))
  {
    if Eligible(sc, s1) && Eligible(sc, s2) {
      InsertPrefixInjective(sc.prefix, s1, s2);
    }
  }

  /**
   * Right after a scan of the same entry, a reached string is rewritten
   * exactly when it carries an asset marker and its key is a source file.
   */
  lemma EligibleAfterScan(h: Hasher, src: set<string>, e: Entry, prefix: string, i: int)
    requires 0 <= i < |EntryStrings(e)|
    ensures Eligible(Scope(h, ScanEntry(h, src, e), prefix), EntryStrings(e)[i])
        <==> HasMarker(EntryStrings(e)[i]) && Unify(h, EntryStrings(e)[i]) in src
  {
    var s := EntryStrings(e)[i];
    UnifyLower(h, s);
    var k := Unify(h, s);
    ScanEntryRecords(h, src, e, k);
    if HasMarker(s) {
      assert Marks(h, EntryStrings(e), k);
    }
  }

  /** Python's rewrite of a path with no scan consulted: prefix a source file, keep the rest. */
  function RelocateIfSource(h: Hasher, src: set<string>, prefix: string): string -> string {
    s => if HasMarker(s) && Unify(h, s) in src then InsertPrefix(prefix, s) else s
  }

  /**
   * Scan then rewrite, for one entry: the strings of the rewritten fields are
   * the original strings, in the same order, each prefixed exactly when it
   * is a marked path to a source file (no MAP key collapsing).
   */
  lemma BumEntryAfterScan(h: Hasher, src: set<string>, e: Entry, prefix: string)
    requires NoMergeFields(Rewriter(Scope(h, ScanEntry(h, src, e), prefix)), e.fields)
    ensures FieldsStrings(BumFields(Scope(h, ScanEntry(h, src, e), prefix), e.fields))
         == MapStrings(RelocateIfSource(h, src, prefix), EntryStrings(e))
  {
    var sc := Scope(h, ScanEntry(h, src, e), prefix);
    BumFieldsIsSubst(sc, e.fields);
    SubstFieldsStrings(Rewriter(sc), e.fields);
    forall i | 0 <= i < |EntryStrings(e)|
      ensures Rewriter(sc)(EntryStrings(e)[i]) == RelocateIfSource(h, src, prefix)(EntryStrings(e)[i])
    {
      EligibleAfterScan(h, src, e, prefix, i);
    }
  }
}
