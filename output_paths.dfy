/**
 * Where `_LocalBum.bum` writes each file: the short path (prefixed unless it
 * is a BIN), lower-cased and joined under the output directory, or, when
 * that name's last component is longer than 255 characters, a hashed name
 * directly in the output directory. The POSIX behaviour of `os.path.join`,
 * `os.path.basename` and `os.path.splitext` is written out, where only `/`
 * separates path components; the Windows variant, which also splits on `\`
 * and joins with `\`, is not.
 */
module OutputPaths {
  import opened Wrappers
  import opened Text
  import opened Hashing
  import opened Repathing

  /** Python `s.rfind(c)`, as an Option. */
  function LastIndexOf(s: string, c: char): (r: Option<nat>)
    ensures r.Some? ==> r.value < |s| && s[r.value] == c
    ensures r.Some? ==> forall j :: r.value < j < |s| ==> s[j] != c
    ensures r.None? ==> forall j :: 0 <= j < |s| ==> s[j] != c
    decreases |s|
  {
    if s == [] then None
    else if s[|s| - 1] == c then Some(|s| - 1)
    else LastIndexOf(s[..|s| - 1], c)
  }

  /** `os.path.join(a, b)`: an absolute `b` replaces `a`; otherwise one `/` separates them. */
  function Join(a: string, b: string): string {
    if StartsWith(b, "/") then b
    else if a == [] || EndsWith(a, "/") then a + b
    else a + "/" + b
  }

  /**
   * `os.path.splitext(p)[1]`: from the last dot of the last component, unless
   * every character before that dot in the component is a dot too.
   */
  function Ext(p: string): string {
    var start := SegmentStart(p);
    match LastIndexOf(p, '.')
    case Some(d) => if start <= d && !OnlyDots(p[start..d]) then p[d..] else ""
    case None => ""
  }

  /** Every character of `s` is a dot. */
  predicate OnlyDots(s: string)
    decreases |s|
  {
    s == [] || (s[0] == '.' && OnlyDots(s[1..]))
  }

  /** The short path of a copied file: a BIN keeps its path, anything else gets the prefix. */
  function ShortFile(prefix: string, short: string): string {
    if EndsWith(short, ".bin") then short else InsertPrefix(prefix, short)
  }

  /** The file name `bum` copies a record's source file to. */
  function OutputFile(h: Hasher, outDir: string, short: string): string {
    var out := Join(outDir, Lower(short));
    if |Basename(out)| > 255 then Join(outDir, h.rawToHex(short) + Ext(short)) else out
  }

  /** A name without `/` after a `/` is the base name. */
  lemma BasenameAfterSlash(a: string, x: string)
    requires forall j :: 0 <= j < |x| ==> x[j] != '/'
    ensures Basename(a + "/" + x) == x
  {
    var s := a + "/" + x;
    SegmentStartAfter(s, |a|);
    assert s[|a| + 1..] == x;
    SegmentStartUnique(x, 0);
  }

  /** The base name has no `/` and is what the path ends with. */
  lemma BasenameShape(p: string)
    ensures forall j :: 0 <= j < |Basename(p)| ==> Basename(p)[j] != '/'
    ensures EndsWith(p, Basename(p))
  {
  }

  /** An extension is empty or a dot followed by no `/` and no further dot, ending the path. */
  lemma ExtShape(p: string)
    ensures Ext(p) == [] || (Ext(p)[0] == '.' && EndsWith(p, Ext(p)))
    ensures forall j :: 0 <= j < |Ext(p)| ==> Ext(p)[j] != '/'
    ensures forall j :: 0 < j < |Ext(p)| ==> Ext(p)[j] != '.'
  {
    match LastIndexOf(p, '.')
    case None =>
    case Some(d) =>
      if Ext(p) != [] {
        assert Ext(p) == p[d..];
        forall j | 0 <= j < |Ext(p)| ensures Ext(p)[j] != '/' {
          assert Ext(p)[j] == p[d + j];
        }
      }
  }

  /** A file name without `/` joined to a directory is found as that directory's entry. */
  lemma JoinName(dir: string, x: string)
    requires x != [] && forall j :: 0 <= j < |x| ==> x[j] != '/'
    ensures Basename(Join(dir, x)) == x
    ensures StartsWith(Join(dir, x), dir)
  {
    assert x[..1] == [x[0]];
    assert !StartsWith(x, "/");
    if dir == [] {
      assert Join(dir, x) == x;
      SegmentStartUnique(x, 0);
    } else if EndsWith(dir, "/") {
      var a := dir[..|dir| - 1];
      assert dir[|dir| - 1..] == "/";
      assert dir == a + "/";
      assert Join(dir, x) == a + "/" + x;
      BasenameAfterSlash(a, x);
    } else {
      assert Join(dir, x) == dir + "/" + x;
      BasenameAfterSlash(dir, x);
    }
  }

  /**
   * A name too long for the file system is replaced by the sixteen-digit hash
   * of the short path plus its extension, placed directly in the output
   * directory, so its last component is at most 16 characters plus the
   * extension.
   */
  lemma OutputFileFallback(h: Hasher, outDir: string, short: string)
    requires Sound(h)
    requires |Basename(Join(outDir, Lower(short)))| > 255
    ensures Basename(OutputFile(h, outDir, short)) == h.rawToHex(short) + Ext(short)
    ensures |Basename(OutputFile(h, outDir, short))| == 16 + |Ext(short)|
    ensures StartsWith(OutputFile(h, outDir, short), outDir)
  {
    var x := h.rawToHex(short) + Ext(short);
    HexKeyIsNormal(h.rawToHex(short));
    ExtShape(short);
    if Contains(h.rawToHex(short), "/") {
      FirstCharAt(h.rawToHex(short), '/');
    }
    forall j | 0 <= j < |x| ensures x[j] != '/' {
      if j < 16 {
        assert x[j] == h.rawToHex(short)[j];
        assert IsHexDigit(h.rawToHex(short)[j]);
      } else {
        assert x[j] == Ext(short)[j - 16];
      }
    }
    JoinName(outDir, x);
  }

  /** Lower-casing keeps a leading `/`. */
  lemma LowerStartsWithSlash(s: string)
    ensures StartsWith(Lower(s), "/") <==> StartsWith(s, "/")
  {
    if |s| > 0 {
      assert Lower(s)[..1] == [LowerChar(s[0])];
      assert s[..1] == [s[0]];
    }
  }

  /** The text every path inside directory `dir` starts with. */
  function DirPrefix(dir: string): string {
    if EndsWith(dir, "/") then dir else dir + "/"
  }

  /** `p` lies somewhere inside directory `dir`. */
  predicate Inside(p: string, dir: string) {
    StartsWith(p, DirPrefix(dir))
  }

  lemma JoinInside(dir: string, x: string)
    requires dir != [] && !StartsWith(x, "/")
    ensures Inside(Join(dir, x), dir)
  {
    if EndsWith(dir, "/") {
      assert Join(dir, x) == dir + x;
      assert (dir + x)[..|dir|] == dir;
    } else {
      assert Join(dir, x) == (dir + "/") + x;
      assert ((dir + "/") + x)[..|dir| + 1] == dir + "/";
    }
  }

  /** A relative short path is always written inside a named output directory. */
  lemma OutputFileInside(h: Hasher, outDir: string, short: string)
    requires Sound(h)
    requires outDir != [] && !StartsWith(short, "/")
    ensures Inside(OutputFile(h, outDir, short), outDir)
  {
    LowerStartsWithSlash(short);
    if |Basename(Join(outDir, Lower(short)))| > 255 {
      var x := h.rawToHex(short) + Ext(short);
      assert x[..1] == [x[0]];
      assert x[0] == h.rawToHex(short)[0];
      assert IsHexDigit(h.rawToHex(short)[0]);
      JoinInside(outDir, x);
    } else {
      JoinInside(outDir, Lower(short));
    }
  }

  /** With a named prefix, a relative path stays relative once prefixed. */
  lemma ShortFileRelative(prefix: string, short: string)
    requires prefix != [] && !StartsWith(prefix, "/") && !StartsWith(short, "/")
    ensures !StartsWith(ShortFile(prefix, short), "/")
  {
    var r := ShortFile(prefix, short);
    if !EndsWith(short, ".bin") {
      if short != [] {
        assert short[..1] == [short[0]];
      }
      match IndexOf(short, "/")
      case Some(i) =>
        OccursHead(short, "/", i);
        assert r[0] == short[0];
        assert short[..1] == [short[0]];
        assert r[..1] == [r[0]];
      case None =>
        assert r[0] == prefix[0];
        assert prefix[..1] == [prefix[0]];
        assert r[..1] == [r[0]];
    }
  }
}
