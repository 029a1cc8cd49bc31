/**
 * File names on the way out of and back into a WAD archive: the name an
 * extracted chunk is written under (`_try_extract_wad`) and the chunk name
 * `_pack_wad` gives each file of a directory. The archive codec itself is
 * not part of this model; the files of a directory are given as their
 * relative `/`-separated paths in walk order.
 */
module Packing {
  import opened Wrappers
  import opened Text
  import opened Hashing

  /*
   * Extraction.
   */

  /**
   * The file an extracted chunk is written to: its name, given its extension
   * when the name has no dot and the chunk has one (`ext` is empty for none),
   * with backslashes made forward slashes.
   */
  function ExtractedName(name: string, ext: string): string {
    var f := if !Contains(name, ".") && ext != [] then name + "." + ext else name;
    ReplaceChar(f, '\\', '/')
  }

  predicate Lacks(s: string, c: char) {
    forall i :: 0 <= i < |s| ==> s[i] != c
  }

  /** A path without backslashes is what the replacement leaves it. */
  lemma ReplaceAbsent(s: string)
    requires Lacks(s, '\\')
    ensures ReplaceChar(s, '\\', '/') == s
  {
  }

  /**
   * The extracted name has no backslash; a name that already has a dot
   * keeps it as it is (separators aside), and one without gets the
   * extension after a single dot.
   */
  lemma ExtractedNameSpec(name: string, ext: string)
    ensures Lacks(ExtractedName(name, ext), '\\')
    ensures Contains(name, ".") || ext == [] ==> ExtractedName(name, ext) == ReplaceChar(name, '\\', '/')
    ensures !Contains(name, ".") && ext != [] ==>
      ExtractedName(name, ext) == ReplaceChar(name, '\\', '/') + "." + ReplaceChar(ext, '\\', '/')
  {
    if !Contains(name, ".") && ext != [] {
      var f := name + "." + ext;
      assert ReplaceChar(f, '\\', '/') == ReplaceChar(name, '\\', '/') + "." + ReplaceChar(ext, '\\', '/');
    }
  }

  /*
   * Packing.
   */

  /**
   * The chunk name of the file at `rel`: a file at the top level whose
   * basename before its first dot is a hash is packed under that hash;
   * every other file under its relative path.
   */
  function ChunkName(h: Hasher, rel: string): string {
    var base := Basename(rel);
    var stem := Stem(base);
    if h.isHash(stem) && rel == base then stem else rel
  }

  /** A path is its own basename exactly when it has no `/`. */
  lemma BasenameSelf(rel: string)
    ensures rel == Basename(rel) <==> Lacks(rel, '/')
  {
    if Lacks(rel, '/') {
      SegmentStartUnique(rel, 0);
    } else {
      var i :| 0 <= i < |rel| && rel[i] == '/';
      assert SegmentStart(rel) > i;
    }
  }

  /** The chunk name in terms of the path alone. */
  lemma ChunkNameSpec(h: Hasher, rel: string)
    ensures ChunkName(h, rel) == if Lacks(rel, '/') && h.isHash(Stem(rel)) then Stem(rel) else rel
  {
    BasenameSelf(rel);
  }

  /** The text before the first dot of a hash followed by a dot and an extension is the hash. */
  lemma StemOfDotted(x: string, ext: string)
    requires Lacks(x, '.')
    ensures Stem(x + "." + ext) == x
    ensures Stem(x) == x
  {
    var f := x + "." + ext;
    FirstCharIndex(f, '.', |x|);
    assert f[..|x|] == x;
    NoCharNoIndex(x, '.');
  }

  /**
   * A chunk extracted under its bare hash at the top level, with or without
   * an extension, is packed again under that hash.
   */
  lemma PackAfterExtract(h: Hasher, x: string, ext: string)
    requires h.isHash(x) && x != []
    requires Lacks(x, '.') && Lacks(x, '/') && Lacks(x, '\\')
    requires Lacks(ext, '/') && Lacks(ext, '\\')
    ensures ChunkName(h, ExtractedName(x, ext)) == x
  {
    NoCharNoIndex(x, '.');
    assert !Contains(x, ".");
    StemOfDotted(x, ext);
    var f := if ext != [] then x + "." + ext else x;
    assert Lacks(f, '\\') && Lacks(f, '/');
    ReplaceAbsent(f);
    ChunkNameSpec(h, f);
  }

  /** The files `_pack_wad` packs, in walk order: all but those named `hashed_files.json`. */
  function Packed(files: seq<string>): seq<string> {
    if files == [] then []
    else (if Basename(files[0]) == "hashed_files.json" then [] else [files[0]]) + Packed(files[1..])
  }

  /** Exactly the files not named `hashed_files.json` are packed. */
  lemma {:induction false} PackedSpec(files: seq<string>)
    ensures forall x :: x in Packed(files) <==> x in files && Basename(x) != "hashed_files.json"
  {
    if files != [] {
      PackedSpec(files[1..]);
      assert files == [files[0]] + files[1..];
    }
  }

  /**
   * The walk loop of `_pack_wad`: the files to pack, in order, and the chunk
   * name of each.
   */
  method PackNames(h: Hasher, files: seq<string>) returns (datas: seq<string>, names: seq<string>)
    ensures datas == Packed(files)
    ensures |names| == |datas| && forall i :: 0 <= i < |datas| ==> names[i] == ChunkName(h, datas[i])
  {
    datas, names := [], [];
    var i := 0;
    assert files[0..] == files;
    while i < |files|
      invariant 0 <= i <= |files|
      invariant Packed(files) == datas + Packed(files[i..])
      invariant |names| == |datas| && forall j :: 0 <= j < |datas| ==> names[j] == ChunkName(h, datas[j])
    {
      var f := files[i];
      assert files[i..][1..] == files[i + 1..];
      if Basename(f) != "hashed_files.json" {
        assert datas + ([f] + Packed(files[i + 1..])) == (datas + [f]) + Packed(files[i + 1..]);
        datas := datas + [f];
        names := names + [ChunkName(h, f)];
      }
      i := i + 1;
    }
    assert files[i..] == [];
  }
}
