/**
 * Canonical asset keys. The archive-path hasher of pyRitoFile (`WADHasher`)
 * is not part of this model: its two operations, `is_hash` and `raw_to_hex`,
 * are supplied by the caller as a `Hasher` value. `Sound` says what the real
 * hasher guarantees: `raw_to_hex` yields sixteen lower-case hexadecimal
 * digits, which `is_hash` recognises.
 */
module Hashing {
  import opened Wrappers
  import opened Text

  datatype Hasher = Hasher(isHash: string -> bool, rawToHex: string -> string)

  predicate IsHexDigit(c: char) { '0' <= c <= '9' || 'a' <= c <= 'f' }

  predicate IsHexKey(s: string) {
    |s| == 16 && forall i :: 0 <= i < |s| ==> IsHexDigit(s[i])
  }

  ghost predicate Sound(h: Hasher) {
    forall x :: IsHexKey(h.rawToHex(x)) && h.isHash(h.rawToHex(x))
  }

  /** Separators made forward slashes, then ASCII lower-cased. */
  function Normalize(path: string): string {
    Lower(ReplaceChar(path, '\\', '/'))
  }

  /** A string `Normalize` leaves as it is. */
  predicate IsNormal(s: string) {
    forall i :: 0 <= i < |s| ==> s[i] != '\\' && !IsUpper(s[i])
  }

  /** Python `p.split('.')[0]`: the text before the first dot. */
  function Stem(p: string): string {
    SplitOn(p, ".")[0]
  }

  /** `_LocalBum.unify_path`: the key a path is indexed and looked up under. */
  function Unify(h: Hasher, path: string): string {
    var p := Normalize(path);
    if h.isHash(p) then p
    else if h.isHash(Stem(p)) then Stem(p)
    else h.rawToHex(p)
  }

  /** `_pyntex_unify_path`: the auditor's key, which does no normalising of its own. */
  function PyntexUnify(h: Hasher, path: string): string {
    if h.isHash(path) then path
    else if h.isHash(Stem(path)) then Stem(path)
    else h.rawToHex(path)
  }

  /** The character a path character becomes once normalised. */
  function FoldChar(c: char): char {
    LowerChar(if c == '\\' then '/' else c)
  }

  lemma StemIsPrefix(p: string)
    ensures |Stem(p)| <= |p| && Stem(p) == p[..|Stem(p)|]
    ensures !Contains(Stem(p), ".")
  {
    match IndexOf(p, ".")
    case None =>
      assert Stem(p) == p;
    case Some(i) =>
      assert Stem(p) == p[..i];
      forall j | 0 <= j
        ensures !OccursAt(p[..i], ".", j)
      {
        if OccursAt(p[..i], ".", j) {
          assert p[..i][j..j + 1] == p[j..j + 1];
          assert OccursAt(p, ".", j);
        }
      }
  }

  lemma NormalizeIsNormal(p: string)
    ensures IsNormal(Normalize(p))
    ensures |Normalize(p)| == |p|
    ensures forall i :: 0 <= i < |p| ==> Normalize(p)[i] == FoldChar(p[i])
  {
  }

  lemma NormalizeKeepsNormal(s: string)
    requires IsNormal(s)
    ensures Normalize(s) == s
  {
  }

  lemma HexKeyIsNormal(s: string)
    requires IsHexKey(s)
    ensures IsNormal(s)
    ensures !Contains(s, ".") && !Contains(s, "/")
  {
    if Contains(s, ".") {
      FirstCharAt(s, '.');
    }
    if Contains(s, "/") {
      FirstCharAt(s, '/');
    }
  }

  /**
   * Canonical keys are fixed points: unifying a key again gives the same key,
   * provided the hasher behaves as the real one does.
   */
  lemma {:induction false} UnifyIdempotent(h: Hasher, path: string)
    requires Sound(h)
    ensures Unify(h, Unify(h, path)) == Unify(h, path)
  {
    var p := Normalize(path);
    NormalizeIsNormal(path);
    if h.isHash(p) {
      NormalizeKeepsNormal(p);
    } else if h.isHash(Stem(p)) {
      StemIsPrefix(p);
      assert IsNormal(Stem(p));
      NormalizeKeepsNormal(Stem(p));
    } else {
      var r := h.rawToHex(p);
      assert IsHexKey(r) && h.isHash(r);
      HexKeyIsNormal(r);
      NormalizeKeepsNormal(r);
    }
  }

  /**
   * Two paths that differ only in ASCII letter case and in the choice of
   * separator (`\` or `/`) unify to the same key.
   */
  lemma {:induction false} UnifyFoldsCaseAndSeparators(h: Hasher, p: string, q: string)
    requires |p| == |q|
    requires forall i :: 0 <= i < |p| ==> FoldChar(p[i]) == FoldChar(q[i])
    ensures Unify(h, p) == Unify(h, q)
  {
    NormalizeIsNormal(p);
    NormalizeIsNormal(q);
    assert Normalize(p) == Normalize(q);
  }

  lemma UnifyIgnoresCase(h: Hasher, p: string)
    ensures Unify(h, Upper(p)) == Unify(h, p)
  {
    forall i | 0 <= i < |p| ensures FoldChar(Upper(p)[i]) == FoldChar(p[i]) {
    }
    UnifyFoldsCaseAndSeparators(h, Upper(p), p);
  }

  lemma UnifyLower(h: Hasher, p: string)
    ensures Unify(h, Lower(p)) == Unify(h, p)
  {
    UnifyFoldsCaseAndSeparators(h, Lower(p), p);
  }

  lemma UnifyIgnoresSeparators(h: Hasher, p: string)
    ensures Unify(h, ReplaceChar(p, '/', '\\')) == Unify(h, p)
  {
    UnifyFoldsCaseAndSeparators(h, ReplaceChar(p, '/', '\\'), p);
  }

  /**
   * A file kept under its hashed name (sixteen hex digits, a dot, an
   * extension) unifies to the same key as the raw path it was hashed from,
   * so a string in a document finds the file under either representation.
   */
  lemma {:induction false} UnifyHashedName(h: Hasher, raw: string, ext: string)
    requires Sound(h)
    requires IsNormal(raw) && !h.isHash(raw) && !h.isHash(Stem(raw))
    requires !h.isHash(Normalize(h.rawToHex(raw) + "." + ext))
    ensures Unify(h, h.rawToHex(raw) + "." + ext) == Unify(h, raw)
  {
    var x := h.rawToHex(raw);
    var n := Normalize(x + "." + ext);
    HexKeyIsNormal(x);
    NormalizeIsNormal(x + "." + ext);
    assert n[..16] == x;
    assert OccursAt(n, ".", 16);
    assert forall j :: 0 <= j < 16 ==> !OccursAt(n, ".", j);
    assert IndexOf(n, ".") == Some(16);
    assert Stem(n) == x;
    NormalizeKeepsNormal(raw);
  }

  /**
   * On a path that is already lower-case with forward slashes, as the
   * auditor's inputs are, the auditor's key and the repather's key agree.
   */
  lemma PyntexUnifyAgrees(h: Hasher, path: string)
    ensures PyntexUnify(h, Normalize(path)) == Unify(h, path)
  {
  }
}
