/**
 * `_LocalBum._is_character_bin`: the test that stops the scan from following
 * a link to a champion's own root BIN (`characters/<name>/<name>.bin`).
 * The source indexes the second path segment after `characters/` without a
 * length check, so a link with a single segment there raises `IndexError`;
 * that outcome is the `Err` case here.
 */
module CharacterBin {
  import opened Wrappers
  import opened Text

  datatype LinkError = SegmentIndexError

  function IsCharacterBin(path: string): Result<bool, LinkError> {
    var p := Lower(path);
    if Contains(p, "characters/") && EndsWith(p, ".bin") then
      var parts := SplitOn(p, "characters/");
      if |parts| < 2 then Ok(false)  // unreachable: `p` contains the separator
      else
        var segs := SplitOn(ReplaceAll(parts[1], ".bin", ""), "/");
        if |segs| < 2 then Err(SegmentIndexError) else Ok(segs[0] == segs[1])
    else Ok(false)
  }

  predicate NoChar(s: string, c: char) {
    forall j :: 0 <= j < |s| ==> s[j] != c
  }

  predicate NoUpper(s: string) {
    forall j :: 0 <= j < |s| ==> !IsUpper(s[j])
  }

  lemma LowerOfLower(s: string)
    requires NoUpper(s)
    ensures Lower(s) == s
  {
  }

  /** `"characters/"` is found right after a head that has no `c` in it. */
  lemma SplitAfterMarker(d: string, rest: string)
    requires NoChar(d, 'c') && !Contains(rest, "characters/")
    ensures SplitOn(d + "characters/" + rest, "characters/") == [d, rest]
  {
    var s := d + "characters/" + rest;
    var m := "characters/";
    assert OccursAt(s, m, |d|);
    forall j | 0 <= j < |d| ensures !OccursAt(s, m, j) {
      OccursHead(s, m, j);
      assert s[j] == d[j];
    }
    assert IndexOf(s, m) == Some(|d|);
    assert s[..|d|] == d;
    assert s[|d| + |m|..] == rest;
    assert SplitOn(rest, m) == [rest];
  }

  /** Removing `.bin` from a name whose only dot starts the final `.bin`. */
  lemma RemoveFinalBin(x: string)
    requires NoChar(x, '.')
    ensures ReplaceAll(x + ".bin", ".bin", "") == x
  {
    var s := x + ".bin";
    assert OccursAt(s, ".bin", |x|);
    forall j | 0 <= j < |x| ensures !OccursAt(s, ".bin", j) {
      OccursHead(s, ".bin", j);
      assert s[j] == x[j];
    }
    assert IndexOf(s, ".bin") == Some(|x|);
    assert s[|x| + 4..] == [];
    assert ReplaceAll([], ".bin", "") == [];
  }

  /** A lower-case path `<d>characters/<rest>` ending in `.bin`, split at its only marker. */
  lemma MarkedPath(d: string, rest: string)
    requires NoChar(d, 'c') && NoUpper(d) && NoUpper(rest)
    requires !Contains(rest, "characters/") && EndsWith(rest, ".bin")
    ensures var p := d + "characters/" + rest;
      Lower(p) == p && Contains(p, "characters/") && EndsWith(p, ".bin")
      && SplitOn(p, "characters/") == [d, rest]
  {
    var p := d + "characters/" + rest;
    assert NoUpper(p) by {
      forall j | 0 <= j < |p| ensures !IsUpper(p[j]) {
        if j < |d| {
          assert p[j] == d[j];
        } else if j >= |d| + 11 {
          assert p[j] == rest[j - |d| - 11];
        }
      }
    }
    LowerOfLower(p);
    SplitAfterMarker(d, rest);
    assert OccursAt(p, "characters/", |d|);
    assert p[|p| - 4..] == rest[|rest| - 4..];
  }

  /** The test on a lower-case `.bin` path under `characters/`, in terms of what follows the marker. */
  lemma CharacterBinAfter(d: string, rest: string)
    requires NoChar(d, 'c') && NoUpper(d) && NoUpper(rest)
    requires !Contains(rest, "characters/") && EndsWith(rest, ".bin")
    ensures var segs := SplitOn(ReplaceAll(rest, ".bin", ""), "/");
      IsCharacterBin(d + "characters/" + rest) == if |segs| < 2 then Err(SegmentIndexError) else Ok(segs[0] == segs[1])
  {
    MarkedPath(d, rest);
  }

  /** `CharacterBinByName` for a link already in lower case. */
  lemma CharacterBinByLowerName(d: string, x: string, y: string)
    requires NoChar(d, 'c') && NoUpper(d)
    requires NoChar(x, '/') && NoChar(x, '.') && NoUpper(x)
    requires NoChar(y, '/') && NoChar(y, '.') && NoUpper(y)
    requires !Contains(x + "/" + y + ".bin", "characters/")
    ensures IsCharacterBin(d + "characters/" + x + "/" + y + ".bin") == Ok(x == y)
  {
    var xy := x + "/" + y;
    var rest := xy + ".bin";
    assert d + "characters/" + x + "/" + y + ".bin" == d + "characters/" + rest;
    assert NoUpper(rest) by {
      forall j | 0 <= j < |rest| ensures !IsUpper(rest[j]) {
        if j < |x| {
          assert rest[j] == x[j];
        } else if |x| < j < |x| + 1 + |y| {
          assert rest[j] == y[j - |x| - 1];
        }
      }
    }
    assert EndsWith(rest, ".bin") by {
      assert rest[|rest| - 4..] == ".bin";
    }
    CharacterBinAfter(d, rest);
    TwoSegments(x, y);
  }

  /** The test lower-cases the link first, so a link and its lower-cased form get the same answer. */
  lemma CharacterBinIgnoresCase(path: string)
    ensures IsCharacterBin(path) == IsCharacterBin(Lower(path))
  {
    assert Lower(Lower(path)) == Lower(path);
  }

  /** Lower-casing a name keeps it free of a character that is not a letter. */
  lemma LowerKeepsNoChar(s: string, c: char)
    requires NoChar(s, c) && !IsUpper(c) && !('a' <= c <= 'z')
    ensures NoChar(Lower(s), c) && NoUpper(Lower(s))
  {
  }

  /**
   * For a link `<d>characters/<x>/<y>.bin` with plain names `x` and `y`, in
   * any letter case, the test says "self link" exactly when the two names
   * are equal once lower-cased. So `characters/teemo/teemo.bin` and
   * `DATA/Characters/Ahri/AHRI.bin` are skipped, while a skin BIN such as
   * `characters/teemo/skins/skin0.bin` or `characters/teemo/teemo_skin0.bin`
   * is followed.
   */
  lemma CharacterBinByName(d: string, x: string, y: string)
    requires NoChar(Lower(d), 'c')
    requires NoChar(x, '/') && NoChar(x, '.') && NoChar(y, '/') && NoChar(y, '.')
    requires !Contains(Lower(x + "/" + y + ".bin"), "characters/")
    ensures IsCharacterBin(d + "characters/" + x + "/" + y + ".bin") == Ok(Lower(x) == Lower(y))
  {
    var p := d + "characters/" + x + "/" + y + ".bin";
    var d', x', y' := Lower(d), Lower(x), Lower(y);
    assert Lower(p) == d' + "characters/" + x' + "/" + y' + ".bin";
    assert Lower(x + "/" + y + ".bin") == x' + "/" + y' + ".bin";
    LowerKeepsNoChar(x, '/');
    LowerKeepsNoChar(x, '.');
    LowerKeepsNoChar(y, '/');
    LowerKeepsNoChar(y, '.');
    assert NoUpper(d') by {
      forall j | 0 <= j < |d'| ensures !IsUpper(d'[j]) {
        assert d'[j] == LowerChar(d[j]);
      }
    }
    CharacterBinByLowerName(d', x', y');
    CharacterBinIgnoresCase(p);
  }

  /** `<x>/<y>.bin` without its `.bin`, split at `/`, is `x` and `y`. */
  lemma TwoSegments(x: string, y: string)
    requires NoChar(x, '/') && NoChar(x, '.') && NoChar(y, '/') && NoChar(y, '.')
    ensures SplitOn(ReplaceAll(x + "/" + y + ".bin", ".bin", ""), "/") == [x, y]
  {
    var xy := x + "/" + y;
    assert xy + ".bin" == x + "/" + y + ".bin";
    assert NoChar(xy, '.');
    RemoveFinalBin(xy);
    SplitAfterHead(x, '/', y);
    NoCharNoIndex(y, '/');
  }

  /** `CharacterBinOneSegment` for a link already in lower case. */
  lemma CharacterBinOneLowerSegment(d: string, x: string)
    requires NoChar(d, 'c') && NoUpper(d)
    requires NoChar(x, '/') && NoChar(x, '.') && NoUpper(x)
    requires !Contains(x + ".bin", "characters/")
    ensures IsCharacterBin(d + "characters/" + x + ".bin") == Err(SegmentIndexError)
  {
    var rest := x + ".bin";
    assert d + "characters/" + x + ".bin" == d + "characters/" + rest;
    assert NoUpper(rest) by {
      forall j | 0 <= j < |rest| ensures !IsUpper(rest[j]) {
        if j < |x| {
          assert rest[j] == x[j];
        }
      }
    }
    assert EndsWith(rest, ".bin") by {
      assert rest[|rest| - 4..] == ".bin";
    }
    CharacterBinAfter(d, rest);
    RemoveFinalBin(x);
    NoCharNoIndex(x, '/');
  }

  /**
   * A link whose part after `characters/` has a single segment makes the
   * source's test fail with an index error, as `characters/teemo.bin` and
   * `Characters/Teemo.BIN` do.
   */
  lemma CharacterBinOneSegment(d: string, x: string)
    requires NoChar(Lower(d), 'c')
    requires NoChar(x, '/') && NoChar(x, '.')
    requires !Contains(Lower(x + ".bin"), "characters/")
    ensures IsCharacterBin(d + "characters/" + x + ".bin") == Err(SegmentIndexError)
  {
    var p := d + "characters/" + x + ".bin";
    var d', x' := Lower(d), Lower(x);
    assert Lower(p) == d' + "characters/" + x' + ".bin";
    assert Lower(x + ".bin") == x' + ".bin";
    LowerKeepsNoChar(x, '/');
    LowerKeepsNoChar(x, '.');
    assert NoUpper(d') by {
      forall j | 0 <= j < |d'| ensures !IsUpper(d'[j]) {
        assert d'[j] == LowerChar(d[j]);
      }
    }
    CharacterBinOneLowerSegment(d', x');
    CharacterBinIgnoresCase(p);
  }

  /** Only a lower-cased path that names a `.bin` under `characters/` can be a self link or an error. */
  lemma CharacterBinNeedsMarker(path: string)
    requires IsCharacterBin(path) != Ok(false)
    ensures Contains(Lower(path), "characters/") && EndsWith(Lower(path), ".bin")
  {
  }
}
