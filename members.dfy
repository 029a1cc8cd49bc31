/**
 * Choosing archive members and placing placeholder textures: which
 * `.wad.client` members of a fantome archive are champion WAD candidates
 * (`_detect_wad_member_in_fantome`) and where a placeholder texture for a
 * missing file goes (`_create_placeholder_textures`). The archive listing
 * and the Champions folder lookup are inputs: the member names in archive
 * order and a predicate saying whether a WAD file name is found there.
 */
module Members {
  import opened Wrappers
  import opened Text

  /*
   * WAD members.
   */

  /** The locale markers that make a WAD a voice or language WAD. */
  const LanguageCodes: seq<string> := [
    ".en_us.", ".ja_jp.", ".ko_kr.", ".zh_cn.", ".zh_tw.",
    ".de_de.", ".es_es.", ".es_mx.", ".fr_fr.", ".it_it.",
    ".pl_pl.", ".pt_br.", ".ro_ro.", ".ru_ru.", ".tr_tr."
  ]

  /** A member under a top folder named `wad` in any casing whose name ends with `.wad.client`. */
  predicate IsWadMember(name: string) {
    var parts := SplitOn(name, "/");
    |parts| >= 2 && Lower(parts[0]) == "wad" && EndsWith(Lower(name), ".wad.client")
  }

  /** `t` occurs somewhere in `s`. */
  ghost predicate Occurs(s: string, t: string) {
    exists j :: OccursAt(s, t, j)
  }

  /** Python `any(code in s for code in codes)`. */
  ghost predicate AnyIn(s: string, codes: seq<string>) {
    codes != [] && (Occurs(s, codes[0]) || AnyIn(s, codes[1..]))
  }

  /** `AnyIn` holds exactly when some code occurs in the string. */
  lemma {:induction false} AnyInSpec(s: string, codes: seq<string>)
    ensures AnyIn(s, codes) <==> exists k :: 0 <= k < |codes| && Occurs(s, codes[k])
  {
    if codes != [] {
      AnyInSpec(s, codes[1..]);
      if AnyIn(s, codes[1..]) {
        var k :| 0 <= k < |codes| - 1 && Occurs(s, codes[1..][k]);
        assert Occurs(s, codes[k + 1]);
      }
      if exists k :: 0 <= k < |codes| && Occurs(s, codes[k]) {
        var k :| 0 <= k < |codes| && Occurs(s, codes[k]);
        if k > 0 {
          assert Occurs(s, codes[1..][k - 1]);
        }
      }
    }
  }

  /** `Contains` is occurrence at some position. */
  lemma ContainsOccurs(s: string, t: string)
    ensures Contains(s, t) <==> Occurs(s, t)
  {
    if Contains(s, t) {
      assert OccursAt(s, t, IndexOf(s, t).value);
    }
  }

  /** One step of the `any(...)` loop: the code at `i` is tried first. */
  lemma AnyInStep(s: string, codes: seq<string>, i: int, found: bool)
    requires 0 <= i < |codes| && found == Contains(s, codes[i])
    ensures AnyIn(s, codes[i..]) == (found || AnyIn(s, codes[i + 1..]))
  {
    assert codes[i..][1..] == codes[i + 1..];
    ContainsOccurs(s, codes[i]);
  }

  /** A WAD whose lowercased name carries one of the locale markers. */
  ghost predicate IsLanguageWad(name: string) {
    AnyIn(Lower(name), LanguageCodes)
  }

  /** A language WAD is one whose lowercased name contains some locale marker. */
  lemma LanguageWadSpec(name: string)
    ensures IsLanguageWad(name) <==> exists k :: 0 <= k < |LanguageCodes| && Contains(Lower(name), LanguageCodes[k])
  {
    AnyInSpec(Lower(name), LanguageCodes);
  }

  ghost predicate Neutral(name: string) {
    !IsLanguageWad(name)
  }

  /** The elements of `xs` that satisfy `p`, in order. */
  function Filter<T>(xs: seq<T>, p: T -> bool): seq<T> {
    if xs == [] then []
    else (if p(xs[0]) then [xs[0]] else []) + Filter(xs[1..], p)
  }

  lemma {:induction false} FilterSpec<T>(xs: seq<T>, p: T -> bool)
    ensures forall x :: x in Filter(xs, p) <==> x in xs && p(x)
    ensures |Filter(xs, p)| <= |xs|
  {
    if xs != [] {
      FilterSpec(xs[1..], p);
      assert xs == [xs[0]] + xs[1..];
    }
  }

  /** One step of a loop that builds `Filter(xs, p)` from the front. */
  lemma FilterStep<T>(xs: seq<T>, i: int, p: T -> bool, keep: bool, acc: seq<T>)
    requires 0 <= i < |xs| && keep == p(xs[i])
    requires Filter(xs, p) == acc + Filter(xs[i..], p)
    ensures Filter(xs, p) == (acc + (if keep then [xs[i]] else [])) + Filter(xs[i + 1..], p)
  {
    assert xs[i..][1..] == xs[i + 1..];
  }

  /** The non-language WADs of an archive listing, in archive order. */
  ghost function Candidates(names: seq<string>): seq<string> {
    Filter(Filter(names, IsWadMember), Neutral)
  }

  /** A candidate is a listed WAD member with no locale marker, and every such member is one. */
  lemma CandidatesSpec(names: seq<string>)
    ensures forall x :: x in Candidates(names) <==> x in names && IsWadMember(x) && !IsLanguageWad(x)
  {
    FilterSpec(names, IsWadMember);
    FilterSpec(Filter(names, IsWadMember), Neutral);
  }

  /** `LowerChar` only changes letters, so it keeps and never makes a `/`. */
  lemma LowerSlash(c: char)
    ensures LowerChar(c) == '/' <==> c == '/'
  {
  }

  /**
   * The split-based test is a prefix test: a WAD member is a name whose
   * lowercased form starts with `wad/` and ends with `.wad.client`.
   */
  lemma WadMemberSpec(name: string)
    ensures IsWadMember(name) <==> StartsWith(Lower(name), "wad/") && EndsWith(Lower(name), ".wad.client")
  {
    var ln := Lower(name);
    if IsWadMember(name) {
      match IndexOf(name, "/")
      case Some(i) =>
        IndexOfChar(name, '/');
        assert SplitOn(name, "/")[0] == name[..i];
        assert |Lower(name[..i])| == 3;
        forall k | 0 <= k < 3 ensures ln[k] == "wad"[k] {
          assert ln[k] == LowerChar(name[k]) == Lower(name[..i])[k];
        }
        assert ln[3] == LowerChar(name[3]) == '/';
        assert ln[..4] == "wad/";
    }
    if StartsWith(ln, "wad/") && EndsWith(ln, ".wad.client") {
      assert ln[3] == "wad/"[3];
      LowerSlash(name[3]);
      forall j | 0 <= j < 3 ensures name[j] != '/' {
        assert ln[j] == "wad/"[j];
        LowerSlash(name[j]);
      }
      FirstCharIndex(name, '/', 3);
      assert Lower(name[..3]) == ln[..3];
    }
  }

  /** Python's `s.split('/')[-1]`. */
  function LastPart(s: string): string {
    var parts := SplitOn(s, "/");
    parts[|parts| - 1]
  }

  /** A path without `/` is one part, and its own basename. */
  lemma LastPartWhole(s: string)
    requires IndexOf(s, "/") == None
    ensures LastPart(s) == Basename(s)
  {
    forall k | 0 <= k < |s| ensures s[k] != '/' {
      assert !OccursAt(s, "/", k);
      assert s[k..k + 1] == [s[k]];
    }
    SegmentStartUnique(s, 0);
  }

  /** Past the first `/`, the last part and the basename are those of the rest. */
  lemma LastPartRest(s: string, i: nat)
    requires IndexOf(s, "/") == Some(i)
    ensures i < |s| && LastPart(s) == LastPart(s[i + 1..]) && Basename(s) == Basename(s[i + 1..])
  {
    IndexOfChar(s, '/');
    var rest := s[i + 1..];
    assert SplitOn(s, "/") == [s[..i]] + SplitOn(rest, "/");
    SegmentStartAfter(s, i);
  }

  /** The last `/`-separated part of a path is its basename. */
  lemma {:induction false} LastPartBasename(s: string)
    ensures LastPart(s) == Basename(s)
    decreases |s|
  {
    match IndexOf(s, "/")
    case None =>
      LastPartWhole(s);
    case Some(i) =>
      LastPartRest(s, i);
      LastPartBasename(s[i + 1..]);
  }

  /** Where the first WAD whose file name the Champions folder holds sits, if any. */
  function FirstKnown(wads: seq<string>, known: string -> bool): (r: Option<nat>)
    ensures r.Some? ==> r.value < |wads| && known(LastPart(wads[r.value]))
    ensures r.Some? ==> forall j :: 0 <= j < r.value ==> !known(LastPart(wads[j]))
    ensures r.None? ==> forall j :: 0 <= j < |wads| ==> !known(LastPart(wads[j]))
  {
    if wads == [] then None
    else if known(LastPart(wads[0])) then Some(0)
    else match FirstKnown(wads[1..], known)
      case None => None
      case Some(k) => Some(k + 1)
  }

  /**
   * The member the detection returns: the first candidate whose file name
   * the Champions folder holds, or the empty string when there is none.
   */
  function Detected(wads: seq<string>, known: string -> bool): string {
    match FirstKnown(wads, known)
    case Some(k) => wads[k]
    case None => ""
  }

  /**
   * `_detect_wad_member_in_fantome` over the archive listing: the
   * candidate WADs, kept for the final archive, and the detected member.
   */
  method DetectChampionWad(names: seq<string>, known: string -> bool) returns (member: string, wads: seq<string>)
    ensures wads == Candidates(names)
    ensures member == Detected(wads, known)
  {
    var all := WadMembers(names);
    wads := NonLanguage(all);
    member := FirstKnownWad(wads, known);
  }

  /** The third pass: the first candidate found in the Champions folder, or `""`. */
  method FirstKnownWad(wads: seq<string>, known: string -> bool) returns (member: string)
    ensures member == Detected(wads, known)
  {
    var matched: seq<string> := [];
    var i := 0;
    while i < |wads|
      invariant 0 <= i <= |wads|
      invariant matched == [] ==> forall j :: 0 <= j < i ==> !known(LastPart(wads[j]))
      invariant matched != [] ==> Detected(wads, known) == matched[0]
    {
      if known(LastPart(wads[i])) {
        matched := matched + [wads[i]];
      }
      i := i + 1;
    }
    member := if matched != [] then matched[0] else "";
  }

  /** The first pass: every WAD member, in archive order. */
  method WadMembers(names: seq<string>) returns (all: seq<string>)
    ensures all == Filter(names, IsWadMember)
  {
    all := [];
    var i := 0;
    assert names[0..] == names;
    while i < |names|
      invariant 0 <= i <= |names|
      invariant Filter(names, IsWadMember) == all + Filter(names[i..], IsWadMember)
    {
      var name := names[i];
      var keep := IsWadMember(name);
      FilterStep(names, i, IsWadMember, keep, all);
      if keep {
        all := all + [name];
      }
      i := i + 1;
    }
    assert names[i..] == [];
  }

  /** The second pass: the WADs with no locale marker, in order. */
  method NonLanguage(all: seq<string>) returns (wads: seq<string>)
    ensures wads == Filter(all, Neutral)
  {
    wads := [];
    var i := 0;
    assert all[0..] == all;
    while i < |all|
      invariant 0 <= i <= |all|
      invariant Filter(all, Neutral) == wads + Filter(all[i..], Neutral)
    {
      var w := all[i];
      var isLanguage := HasLanguageCode(w);
      FilterStep(all, i, Neutral, !isLanguage, wads);
      if !isLanguage {
        wads := wads + [w];
      }
      i := i + 1;
    }
    assert all[i..] == [];
  }

  /** The `any(...)` over the locale markers, on the lowercased name. */
  method HasLanguageCode(w: string) returns (found: bool)
    ensures found == IsLanguageWad(w)
  {
    var lw := Lower(w);
    found := false;
    var i := 0;
    while i < |LanguageCodes| && !found
      invariant 0 <= i <= |LanguageCodes|
      invariant AnyIn(lw, LanguageCodes) == (found || AnyIn(lw, LanguageCodes[i..]))
    {
      found := Contains(lw, LanguageCodes[i]);
      AnyInStep(lw, LanguageCodes, i, found);
      i := i + 1;
    }
  }

  /*
   * Placeholder textures.
   */

  /** The two bundled placeholder files. */
  datatype Placeholder = InvisDds | InvisTex

  /** The placeholder a missing file gets, by its extension in any casing, if any. */
  function PlaceholderFor(missing: string): Option<Placeholder> {
    if EndsWith(Lower(missing), ".dds") then Some(InvisDds)
    else if EndsWith(Lower(missing), ".tex") then Some(InvisTex)
    else None
  }

  /** The path under the repathed folder: `assets/bum/` or else `bum/` taken off the front. */
  function StripPlaceholder(p: string): string {
    if StartsWith(p, "assets/bum/") then p[|"assets/bum/"|..]
    else if StartsWith(p, "bum/") then p[|"bum/"|..]
    else p
  }

  /** Either prefix comes off exactly, once; anything else is left alone; the result ends the path. */
  lemma StripPlaceholderSpec(p: string, q: string)
    ensures StripPlaceholder("assets/bum/" + q) == q
    ensures StripPlaceholder("bum/" + q) == q
    ensures !StartsWith(p, "assets/bum/") && !StartsWith(p, "bum/") ==> StripPlaceholder(p) == p
    ensures EndsWith(p, StripPlaceholder(p))
  {
    var a := "assets/bum/" + q;
    assert a[..|"assets/bum/"|] == "assets/bum/";
    var b := "bum/" + q;
    assert b[..|"bum/"|] == "bum/";
    assert b[0] != "assets/bum/"[0];
  }

  /** The copy one missing file calls for: none unless it is a texture. */
  function PlanOne(m: string): seq<(string, Placeholder)> {
    match PlaceholderFor(m)
    case Some(t) => [(StripPlaceholder(m), t)]
    case None => []
  }

  /** The copies the loop makes: target path and placeholder, for each texture in order. */
  function Planned(missing: seq<string>): seq<(string, Placeholder)> {
    if missing == [] then [] else PlanOne(missing[0]) + Planned(missing[1..])
  }

  /** A copy is planned for exactly the missing textures, at their stripped paths. */
  lemma {:induction false} PlannedSpec(missing: seq<string>)
    ensures forall c :: c in Planned(missing) <==>
      exists m :: m in missing && PlaceholderFor(m) == Some(c.1) && c.0 == StripPlaceholder(m)
    ensures |Planned(missing)| <= |missing|
  {
    if missing != [] {
      PlannedSpec(missing[1..]);
      assert missing == [missing[0]] + missing[1..];
    }
  }

  /**
   * `_create_placeholder_textures`: nothing when a bundled placeholder is
   * missing, otherwise one copy per missing texture; the count is how many
   * copies were made.
   */
  method CreatePlaceholders(bundled: bool, missing: seq<string>) returns (copies: seq<(string, Placeholder)>, created: nat)
    ensures copies == (if bundled then Planned(missing) else [])
    ensures created == |copies|
  {
    copies, created := [], 0;
    if !bundled {
      return;
    }
    var i := 0;
    assert missing[0..] == missing;
    while i < |missing|
      invariant 0 <= i <= |missing|
      invariant Planned(missing) == copies + Planned(missing[i..])
      invariant created == |copies|
    {
      var m := missing[i];
      assert missing[i..][1..] == missing[i + 1..];
      assert Planned(missing[i..]) == PlanOne(m) + Planned(missing[i + 1..]);
      ghost var before := copies;
      assert before + (PlanOne(m) + Planned(missing[i + 1..])) == (before + PlanOne(m)) + Planned(missing[i + 1..]);
      var clean := StripPlaceholder(m);
      match PlaceholderFor(m) {
        case Some(t) =>
          copies := copies + [(clean, t)];
          created := created + 1;
        case None =>
      }
      assert copies == before + PlanOne(m);
      i := i + 1;
    }
    assert missing[i..] == [];
  }
}
