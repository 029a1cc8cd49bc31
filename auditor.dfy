/**
 * The missing-file auditor (`_pyntex_check_dir`, `_pyntex_parse_bin`): every
 * BIN in a directory is walked for the asset paths it mentions; each
 * mentioned path is matched against the files present by their auditor
 * keys, and a match clears the file (and, for a `.dds`, its `2x_`/`4x_`
 * siblings) from the junk list. The files present are a dictionary from
 * relative path to "still unreferenced", which the matching updates in
 * place; it is the field `existing` of class `Auditor`.
 */
module Auditor {
  import opened Wrappers
  import opened Text
  import opened Hashing
  import opened BinTree
  import opened Scanning
  import opened LinkClosure
  import opened ScanRun

  /*
   * The mentioned files of one entry.
   */

  /** `parse_value` on the strings of a walk: each lower-cased marked string, once, in first-seen order. */
  function MentionedFrom(ss: seq<string>, acc: seq<string>): seq<string>
    decreases |ss|
  {
    if ss == [] then acc
    else
      var v := Lower(ss[0]);
      MentionedFrom(ss[1..], if HasMarker(ss[0]) && v !in acc then acc + [v] else acc)
  }

  /** The `mentioned_files` of an entry. */
  function Mentioned(e: Entry): seq<string> {
    MentionedFrom(EntryStrings(e), [])
  }

  /** A string the walk reaches that carries a marker, lower-cased. */
  ghost predicate MarkedIn(ss: seq<string>, x: string) {
    exists i :: 0 <= i < |ss| && HasMarker(ss[i]) && x == Lower(ss[i])
  }

  /**
   * The mentioned files are duplicate-free and are exactly the lower-cased
   * marked strings of the walk, after those already collected.
   */
  lemma {:induction false} MentionedFromSpec(ss: seq<string>, acc: seq<string>)
    requires Distinct(acc)
    ensures Distinct(MentionedFrom(ss, acc))
    ensures |acc| <= |MentionedFrom(ss, acc)| && MentionedFrom(ss, acc)[..|acc|] == acc
    ensures forall x :: x in MentionedFrom(ss, acc) <==> x in acc || MarkedIn(ss, x)
    decreases |ss|
  {
    if ss != [] {
      var v := Lower(ss[0]);
      var acc1 := if HasMarker(ss[0]) && v !in acc then acc + [v] else acc;
      MentionedFromSpec(ss[1..], acc1);
      var r := MentionedFrom(ss, acc);
      assert r == MentionedFrom(ss[1..], acc1);
      assert r[..|acc|] == r[..|acc1|][..|acc|];
      forall x
        ensures x in r <==> x in acc || MarkedIn(ss, x)
      {
        if MarkedIn(ss[1..], x) {
          var i :| 0 <= i < |ss[1..]| && HasMarker(ss[1..][i]) && x == Lower(ss[1..][i]);
          assert HasMarker(ss[i + 1]) && x == Lower(ss[i + 1]);
        }
        if MarkedIn(ss, x) && x != v {
          var i :| 0 <= i < |ss| && HasMarker(ss[i]) && x == Lower(ss[i]);
          assert i != 0;
          assert HasMarker(ss[1..][i - 1]) && x == Lower(ss[1..][i - 1]);
        }
      }
    }
  }

  /** An entry's mentioned files: no repeats, and exactly its marked strings lower-cased. */
  lemma MentionedSpec(e: Entry)
    ensures Distinct(Mentioned(e))
    ensures forall x :: x in Mentioned(e) <==> MarkedIn(EntryStrings(e), x)
  {
    MentionedFromSpec(EntryStrings(e), []);
  }

  /*
   * Matching a mentioned file.
   */

  /** The first file present, from position `from`, whose auditor key is `u`. */
  function FirstMatch(h: Hasher, keys: seq<string>, u: string, from: nat): (r: Option<nat>)
    requires from <= |keys|
    ensures r.Some? ==> from <= r.value < |keys| && PyntexUnify(h, keys[r.value]) == u
    ensures r.Some? ==> forall j :: from <= j < r.value ==> PyntexUnify(h, keys[j]) != u
    ensures r.None? ==> forall j :: from <= j < |keys| ==> PyntexUnify(h, keys[j]) != u
    decreases |keys| - from
  {
    if from == |keys| then None
    else if PyntexUnify(h, keys[from]) == u then Some(from)
    else FirstMatch(h, keys, u, from + 1)
  }

  /** Python `'/'.join(splits[:-1] + [pre + splits[-1]])` with `splits = file.split('/')`. */
  function DdsVariant(file: string, pre: string): string {
    var parts := SplitOn(file, "/");
    JoinWith(parts[..|parts| - 1] + [pre + parts[|parts| - 1]], "/")
  }

  /** Without a `/`, the sibling is the prefix and the name. */
  lemma DdsVariantNoSlash(file: string, pre: string)
    requires IndexOf(file, "/").None?
    ensures DdsVariant(file, pre) == pre + file
  {
    assert SplitOn(file, "/") == [file];
    assert DdsVariant(file, pre) == JoinWith([pre + file], "/");
  }

  /** Past the first `/`, the sibling is the head, the `/`, and the sibling of the rest. */
  lemma DdsVariantStep(file: string, pre: string, i: nat)
    requires IndexOf(file, "/") == Some(i)
    ensures DdsVariant(file, pre) == file[..i] + "/" + DdsVariant(file[i + 1..], pre)
  {
    var rest := file[i + 1..];
    var p := SplitOn(rest, "/");
    var q := p[..|p| - 1] + [pre + p[|p| - 1]];
    assert JoinWith(q, "/") == DdsVariant(rest, pre);
    var parts := SplitOn(file, "/");
    assert parts == [file[..i]] + p;
    var all := parts[..|parts| - 1] + [pre + parts[|parts| - 1]];
    assert all == [file[..i]] + q;
    assert all[1..] == q;
  }

  /** The `2x_`/`4x_` sibling of a texture: the prefix put in front of its last path segment. */
  lemma {:induction false} DdsVariantSplice(file: string, pre: string)
    ensures DdsVariant(file, pre) == file[..SegmentStart(file)] + pre + file[SegmentStart(file)..]
    decreases |file|
  {
    match IndexOf(file, "/")
    case None =>
      forall k | 0 <= k < |file| ensures file[k] != '/' {
        assert !OccursAt(file, "/", k);
        assert file[k..k + 1] == [file[k]];
      }
      SegmentStartUnique(file, 0);
      DdsVariantNoSlash(file, pre);
      assert file[..0] + pre + file[0..] == pre + file;
    case Some(i) =>
      DdsVariantSplice(file[i + 1..], pre);
      SpliceStep(file, pre, i);
  }

  /** The splice of the rest after the first `/` gives the splice of the whole path. */
  lemma SpliceStep(file: string, pre: string, i: nat)
    requires IndexOf(file, "/") == Some(i)
    requires var rest := file[i + 1..];
      DdsVariant(rest, pre) == rest[..SegmentStart(rest)] + pre + rest[SegmentStart(rest)..]
    ensures DdsVariant(file, pre) == file[..SegmentStart(file)] + pre + file[SegmentStart(file)..]
  {
    DdsVariantStep(file, pre, i);
    IndexOfChar(file, '/');
    SegmentStartAfter(file, i);
    var rest := file[i + 1..];
    var j := SegmentStart(rest);
    SlashSplit(file, i, j);
    Reassoc(file[..i], rest[..j], pre, rest[j..]);
  }

  lemma Reassoc(a: string, b: string, c: string, d: string)
    ensures a + "/" + (b + c + d) == (a + "/" + b) + c + d
  {
  }

  /** Cutting the path `j` characters past its `/` at `i`. */
  lemma SlashSplit(file: string, i: nat, j: nat)
    requires i < |file| && file[i] == '/' && j <= |file| - i - 1
    ensures file[..i + 1 + j] == file[..i] + "/" + file[i + 1..][..j]
    ensures file[i + 1 + j..] == file[i + 1..][j..]
  {
    assert file[..i + 1 + j] == file[..i] + [file[i]] + file[i + 1..][..j];
  }

  /** `Clear`: a present key set to False; an absent one left absent. */
  function Clear(ex: map<string, bool>, k: string): map<string, bool> {
    if k in ex then ex[k := false] else ex
  }

  /** The inner loop for one mentioned file: the first match cleared, with a texture's siblings; then `break`. */
  function MatchOne(h: Hasher, keys: seq<string>, ex: map<string, bool>, file: string): (map<string, bool>, bool) {
    match FirstMatch(h, keys, PyntexUnify(h, file), 0)
    case None => (ex, false)
    case Some(j) =>
      var ex1 := ex[keys[j] := false];
      if EndsWith(file, ".dds") then
        (Clear(Clear(ex1, DdsVariant(file, "2x_")), DdsVariant(file, "4x_")), true)
      else (ex1, true)
  }

  /** The loop over `mentioned_files`: each matched in turn, the unmatched ones collected. */
  function MatchAll(h: Hasher, keys: seq<string>, ex: map<string, bool>, files: seq<string>, missing: seq<string>)
    : (map<string, bool>, seq<string>)
    decreases |files|
  {
    if files == [] then (ex, missing)
    else
      var m := MatchOne(h, keys, ex, files[0]);
      MatchAll(h, keys, m.0, files[1..], if m.1 then missing else missing + [files[0]])
  }

  /** The files present: every position of `keys` is a key of `ex`, and nothing else is. */
  ghost predicate Covers(keys: seq<string>, ex: map<string, bool>) {
    forall k :: k in ex <==> k in keys
  }

  /** `ex'` has the same keys as `ex` and only turns flags off. */
  ghost predicate Narrows(ex: map<string, bool>, ex': map<string, bool>) {
    ex'.Keys == ex.Keys && forall k :: k in ex' && ex'[k] ==> ex[k]
  }

  /**
   * One mentioned file: it is found exactly when some file present has the
   * same auditor key; then the first such file is cleared, and so is each
   * `2x_`/`4x_` sibling of a `.dds` that is present.
   */
  lemma MatchOneClears(h: Hasher, keys: seq<string>, ex: map<string, bool>, file: string)
    ensures MatchOne(h, keys, ex, file).1 <==> exists j :: 0 <= j < |keys| && PyntexUnify(h, keys[j]) == PyntexUnify(h, file)
    ensures forall j :: FirstMatch(h, keys, PyntexUnify(h, file), 0) == Some(j) ==>
      !MatchOne(h, keys, ex, file).0[keys[j]]
    ensures MatchOne(h, keys, ex, file).1 && EndsWith(file, ".dds") ==>
      forall pre :: pre in ["2x_", "4x_"] && DdsVariant(file, pre) in ex ==>
        !MatchOne(h, keys, ex, file).0[DdsVariant(file, pre)]
  {
    match FirstMatch(h, keys, PyntexUnify(h, file), 0)
    case None =>
    case Some(j) =>
  }

  /**
   * Matching one file keeps the files present and only turns flags off: the
   * first match's and, for a `.dds`, the siblings' and no others.
   */
  lemma MatchOneNarrows(h: Hasher, keys: seq<string>, ex: map<string, bool>, file: string)
    requires Covers(keys, ex)
    ensures Narrows(ex, MatchOne(h, keys, ex, file).0)
    ensures forall k :: k in ex && MatchOne(h, keys, ex, file).0[k] != ex[k] ==>
      MatchOne(h, keys, ex, file).1 && (k == keys[FirstMatch(h, keys, PyntexUnify(h, file), 0).value]
        || (EndsWith(file, ".dds") && (k == DdsVariant(file, "2x_") || k == DdsVariant(file, "4x_"))))
  {
    match FirstMatch(h, keys, PyntexUnify(h, file), 0)
    case None =>
    case Some(j) =>
      ClearThree(ex, keys[j], DdsVariant(file, "2x_"), DdsVariant(file, "4x_"));
  }

  /**
   * Matching mentioned file `m` turns off the flag of `k`: `k` is the first
   * file present with `m`'s auditor key or, when `m` is a `.dds` with such a
   * match, one of its `2x_`/`4x_` siblings.
   */
  ghost predicate Hits(h: Hasher, keys: seq<string>, m: string, k: string) {
    match FirstMatch(h, keys, PyntexUnify(h, m), 0)
    case None => false
    case Some(j) => k == keys[j] || (EndsWith(m, ".dds") && (k == DdsVariant(m, "2x_") || k == DdsVariant(m, "4x_")))
  }

  /** Some file of `files` hits `k`. */
  ghost predicate HitsAny(h: Hasher, keys: seq<string>, files: seq<string>, k: string) {
    exists m :: m in files && Hits(h, keys, m, k)
  }

  /** Matching one file turns off exactly the flags it hits. */
  lemma MatchOneExact(h: Hasher, keys: seq<string>, ex: map<string, bool>, file: string)
    requires Covers(keys, ex)
    ensures MatchOne(h, keys, ex, file).0.Keys == ex.Keys
    ensures forall k :: k in ex ==> MatchOne(h, keys, ex, file).0[k] == (ex[k] && !Hits(h, keys, file, k))
  {
    match FirstMatch(h, keys, PyntexUnify(h, file), 0)
    case None =>
    case Some(j) =>
      assert keys[j] in ex;
      var d2, d4 := DdsVariant(file, "2x_"), DdsVariant(file, "4x_");
      var out := MatchOne(h, keys, ex, file).0;
      assert out == if EndsWith(file, ".dds") then Clear(Clear(ex[keys[j] := false], d2), d4) else ex[keys[j] := false];
      forall k | k in ex
        ensures out[k] == (ex[k] && !Hits(h, keys, file, k))
      {
        assert Hits(h, keys, file, k) == (k == keys[j] || (EndsWith(file, ".dds") && (k == d2 || k == d4)));
      }
  }

  /** Turning one present flag off and clearing two more keys keeps the keys and changes only those three. */
  lemma ClearThree(ex: map<string, bool>, k0: string, a: string, b: string)
    requires k0 in ex
    ensures Narrows(ex, ex[k0 := false]) && Narrows(ex, Clear(Clear(ex[k0 := false], a), b))
    ensures forall k :: k in ex && ex[k0 := false][k] != ex[k] ==> k == k0
    ensures forall k :: k in ex && Clear(Clear(ex[k0 := false], a), b)[k] != ex[k] ==> k == k0 || k == a || k == b
  {
  }

  /** What clearing does is never undone by a later narrowing. */
  lemma NarrowsTrans(a: map<string, bool>, b: map<string, bool>, c: map<string, bool>)
    requires Narrows(a, b) && Narrows(b, c)
    ensures Narrows(a, c)
  {
  }

  /**
   * The whole match loop: a file is reported missing exactly when no file
   * present shares its auditor key, in the order mentioned; the first match
   * of every other one is cleared, and flags only turn off.
   */
  lemma {:induction false} MatchAllSpec(h: Hasher, keys: seq<string>, ex: map<string, bool>, files: seq<string>, missing: seq<string>)
    requires Covers(keys, ex)
    ensures Narrows(ex, MatchAll(h, keys, ex, files, missing).0)
    ensures forall x :: x in MatchAll(h, keys, ex, files, missing).1 <==>
      x in missing || (x in files && forall j :: 0 <= j < |keys| ==> PyntexUnify(h, keys[j]) != PyntexUnify(h, x))
    ensures forall m, j :: m in files && FirstMatch(h, keys, PyntexUnify(h, m), 0) == Some(j) ==>
      !MatchAll(h, keys, ex, files, missing).0[keys[j]]
    ensures forall k :: k in ex ==> MatchAll(h, keys, ex, files, missing).0[k] == (ex[k] && !HitsAny(h, keys, files, k))
    decreases |files|
  {
    if files != [] {
      var m := MatchOne(h, keys, ex, files[0]);
      var missing1 := if m.1 then missing else missing + [files[0]];
      MatchOneClears(h, keys, ex, files[0]);
      MatchOneNarrows(h, keys, ex, files[0]);
      MatchOneExact(h, keys, ex, files[0]);
      MatchAllSpec(h, keys, m.0, files[1..], missing1);
      var r := MatchAll(h, keys, ex, files, missing);
      assert r == MatchAll(h, keys, m.0, files[1..], missing1);
      forall x
        ensures x in r.1 <==> x in missing || (x in files && forall j :: 0 <= j < |keys| ==> PyntexUnify(h, keys[j]) != PyntexUnify(h, x))
      {
        assert x in files <==> x == files[0] || x in files[1..];
      }
      forall m', j | m' in files && FirstMatch(h, keys, PyntexUnify(h, m'), 0) == Some(j)
        ensures !r.0[keys[j]]
      {
        if m' != files[0] {
          assert m' in files[1..];
        }
      }
      forall k | k in ex
        ensures r.0[k] == (ex[k] && !HitsAny(h, keys, files, k))
      {
        assert k in m.0;
        if HitsAny(h, keys, files, k) && !Hits(h, keys, files[0], k) {
          var x :| x in files && Hits(h, keys, x, k);
          assert x in files[1..];
        }
        if HitsAny(h, keys, files[1..], k) {
          var x :| x in files[1..] && Hits(h, keys, x, k);
          assert x in files;
        }
        if Hits(h, keys, files[0], k) {
          assert files[0] in files;
        }
      }
    }
  }

  /*
   * Entries and documents.
   */

  /** The `dic` of one entry: its hashes, mentioned files and missing files (an empty list for none). */
  datatype Report = Report(hash: nat, typeHash: nat, mentioned: seq<string>, missing: seq<string>)

  /** `parse_entry`: nothing is matched, and nothing is missing, while no file is present. */
  function ParseEntry(h: Hasher, keys: seq<string>, ex: map<string, bool>, e: Entry): (map<string, bool>, Report) {
    var m := Mentioned(e);
    if |ex| > 0 then
      var r := MatchAll(h, keys, ex, m, []);
      (r.0, Report(e.hash, e.typeHash, m, r.1))
    else (ex, Report(e.hash, e.typeHash, m, []))
  }

  /** The entry loop of `_pyntex_parse_bin`: a report kept for each entry that mentions something. */
  function ParseEntries(h: Hasher, keys: seq<string>, ex: map<string, bool>, es: seq<Entry>, reps: seq<Report>)
    : (map<string, bool>, seq<Report>)
    decreases |es|
  {
    if es == [] then (ex, reps)
    else
      var p := ParseEntry(h, keys, ex, es[0]);
      ParseEntries(h, keys, p.0, es[1..], if |p.1.mentioned| > 0 then reps + [p.1] else reps)
  }

  /**
   * Parsing a document only turns flags off; for every entry, the first
   * file matching each mentioned file is cleared.
   */
  lemma {:induction false} ParseEntriesSpec(h: Hasher, keys: seq<string>, ex: map<string, bool>, es: seq<Entry>, reps: seq<Report>)
    requires Covers(keys, ex)
    ensures Narrows(ex, ParseEntries(h, keys, ex, es, reps).0)
    ensures forall e, m, j :: e in es && m in Mentioned(e) && FirstMatch(h, keys, PyntexUnify(h, m), 0) == Some(j) ==>
      !ParseEntries(h, keys, ex, es, reps).0[keys[j]]
    ensures forall k :: k in ex ==> ParseEntries(h, keys, ex, es, reps).0[k] == (ex[k] && !HitsEntries(h, keys, es, k))
    decreases |es|
  {
    if es != [] {
      var p := ParseEntry(h, keys, ex, es[0]);
      var reps1 := if |p.1.mentioned| > 0 then reps + [p.1] else reps;
      if |ex| > 0 {
        MatchAllSpec(h, keys, ex, Mentioned(es[0]), []);
      }
      ParseEntriesSpec(h, keys, p.0, es[1..], reps1);
      var r := ParseEntries(h, keys, ex, es, reps);
      assert r == ParseEntries(h, keys, p.0, es[1..], reps1);
      forall k | k in ex
        ensures r.0[k] == (ex[k] && !HitsEntries(h, keys, es, k))
      {
        assert |ex| > 0 && k in p.0;
        HitsEntriesStep(h, keys, es, k);
      }
      forall e, m, j | e in es && m in Mentioned(e) && FirstMatch(h, keys, PyntexUnify(h, m), 0) == Some(j)
        ensures !r.0[keys[j]]
      {
        if e == es[0] {
          assert keys[j] in ex;
          assert !p.0[keys[j]];
        } else {
          assert e in es[1..];
        }
      }
    }
  }

  /** Some mentioned file of some entry of `es` hits `k`. */
  ghost predicate HitsEntries(h: Hasher, keys: seq<string>, es: seq<Entry>, k: string) {
    exists e, m :: e in es && m in Mentioned(e) && Hits(h, keys, m, k)
  }

  /** The entries hit `k` exactly when the first one does or the rest do. */
  lemma HitsEntriesStep(h: Hasher, keys: seq<string>, es: seq<Entry>, k: string)
    requires es != []
    ensures HitsEntries(h, keys, es, k) <==> HitsAny(h, keys, Mentioned(es[0]), k) || HitsEntries(h, keys, es[1..], k)
  {
    if HitsEntries(h, keys, es, k) && !HitsAny(h, keys, Mentioned(es[0]), k) {
      var e, m :| e in es && m in Mentioned(e) && Hits(h, keys, m, k);
      assert e != es[0];
      assert e in es[1..];
    }
    if HitsAny(h, keys, Mentioned(es[0]), k) {
      var m :| m in Mentioned(es[0]) && Hits(h, keys, m, k);
      assert es[0] in es;
    }
    if HitsEntries(h, keys, es[1..], k) {
      var e, m :| e in es[1..] && m in Mentioned(e) && Hits(h, keys, m, k);
      assert e in es;
    }
  }

  /*
   * The directory.
   */

  /** The report of `_pyntex_check_dir`: per BIN, its entry reports; and the junk files. */
  datatype Audit = Audit(reports: map<string, seq<Report>>, junk: seq<string>)

  /** `existing_files` as built: every file present, unreferenced so far. */
  function AllPresent(files: seq<string>): (ex: map<string, bool>)
    ensures Covers(files, ex)
  {
    map k | k in files :: true
  }

  /** The BIN loop: each readable `.bin` parsed, its report kept if any, then itself cleared. */
  function CheckFiles(h: Hasher, keys: seq<string>, disk: Disk, fs: seq<string>,
                      ex: map<string, bool>, res: map<string, seq<Report>>)
    : (map<string, bool>, map<string, seq<Report>>)
    decreases |fs|
  {
    if fs == [] then (ex, res)
    else
      var f := fs[0];
      if EndsWith(f, ".bin") && ReadBin(disk, f).Some? then
        var p := ParseEntries(h, keys, ex, ReadBin(disk, f).value.entries, []);
        CheckFiles(h, keys, disk, fs[1..], p.0[f := false], if |p.1| > 0 then res[f := p.1] else res)
      else CheckFiles(h, keys, disk, fs[1..], ex, res)
  }

  /** The keys still flagged, in order: `junk_files`. */
  function Flagged(keys: seq<string>, ex: map<string, bool>): seq<string> {
    if keys == [] then []
    else (if keys[0] in ex && ex[keys[0]] then [keys[0]] else []) + Flagged(keys[1..], ex)
  }

  /** The junk files are exactly the keys still flagged, and no more of them than there are keys. */
  lemma {:induction false} FlaggedSpec(keys: seq<string>, ex: map<string, bool>)
    ensures forall x :: x in Flagged(keys, ex) <==> x in keys && x in ex && ex[x]
    ensures |Flagged(keys, ex)| <= |keys|
  {
    if keys != [] {
      FlaggedSpec(keys[1..], ex);
      assert keys == [keys[0]] + keys[1..];
    }
  }

  /** One step of a loop that collects `Flagged(keys, ex)` from the front. */
  lemma FlaggedStep(keys: seq<string>, k: int, ex: map<string, bool>, junk: seq<string>)
    requires 0 <= k < |keys| && Flagged(keys, ex) == junk + Flagged(keys[k..], ex)
    ensures Flagged(keys, ex)
         == (junk + if keys[k] in ex && ex[keys[k]] then [keys[k]] else []) + Flagged(keys[k + 1..], ex)
  {
    assert keys[k..][1..] == keys[k + 1..];
    var head: seq<string> := if keys[k] in ex && ex[keys[k]] then [keys[k]] else [];
    assert Flagged(keys[k..], ex) == head + Flagged(keys[k + 1..], ex);
    assert junk + (head + Flagged(keys[k + 1..], ex)) == (junk + head) + Flagged(keys[k + 1..], ex);
  }

  /** `_pyntex_check_dir` over the relative paths present, lower-cased and in sorted order. */
  function CheckDir(h: Hasher, files: seq<string>, disk: Disk): Audit {
    var c := CheckFiles(h, files, disk, files, AllPresent(files), map[]);
    Audit(c.1, Flagged(files, Clear(c.0, "hashed_files.json")))
  }

  /** A `.bin` file that reads as a BIN document. */
  ghost predicate Readable(disk: Disk, f: string) {
    EndsWith(f, ".bin") && ReadBin(disk, f).Some?
  }

  /** A BIN whose entry `e` mentions `m`, read from `disk`. */
  ghost predicate MentionedBy(disk: Disk, f: string, m: string) {
    Readable(disk, f) && exists e :: e in ReadBin(disk, f).value.entries && m in Mentioned(e)
  }

  /**
   * The BIN loop over `fs` clears `k`: `k` is one of those readable BINs, or
   * a mention of one of them hits it.
   */
  ghost predicate ClearedBy(h: Hasher, keys: seq<string>, disk: Disk, fs: seq<string>, k: string) {
    (k in fs && Readable(disk, k)) || exists f, m :: f in fs && MentionedBy(disk, f, m) && Hits(h, keys, m, k)
  }

  /**
   * What the BIN loop over `fs` leaves in `out`, starting from `ex`: the same
   * files, and a file is still flagged exactly when it was and the loop did
   * not clear it.
   */
  ghost predicate Audited(h: Hasher, keys: seq<string>, disk: Disk, fs: seq<string>,
                          ex: map<string, bool>, out: map<string, bool>)
  {
    && out.Keys == ex.Keys
    && forall k :: k in ex ==> out[k] == (ex[k] && !ClearedBy(h, keys, disk, fs, k))
  }

  /** The BIN loop does what `Audited` says. */
  lemma {:induction false} CheckFilesSpec(h: Hasher, keys: seq<string>, disk: Disk, fs: seq<string>,
                                          ex: map<string, bool>, res: map<string, seq<Report>>)
    requires Covers(keys, ex) && forall f :: f in fs ==> f in keys
    ensures Audited(h, keys, disk, fs, ex, CheckFiles(h, keys, disk, fs, ex, res).0)
    decreases |fs|
  {
    if fs == [] {
      assert forall k :: !ClearedBy(h, keys, disk, fs, k);
    } else {
      var f := fs[0];
      if Readable(disk, f) {
        var es := ReadBin(disk, f).value.entries;
        var p := ParseEntries(h, keys, ex, es, []);
        var res1 := if |p.1| > 0 then res[f := p.1] else res;
        ParseEntriesSpec(h, keys, ex, es, []);
        CheckFilesSpec(h, keys, disk, fs[1..], p.0[f := false], res1);
        AuditedBin(h, keys, disk, fs, ex, CheckFiles(h, keys, disk, fs[1..], p.0[f := false], res1).0);
      } else {
        CheckFilesSpec(h, keys, disk, fs[1..], ex, res);
        AuditedSkip(h, keys, disk, fs, ex, CheckFiles(h, keys, disk, fs[1..], ex, res).0);
      }
    }
  }

  /** A readable BIN at the front: parsed, then cleared, then the rest. */
  lemma AuditedBin(h: Hasher, keys: seq<string>, disk: Disk, fs: seq<string>, ex: map<string, bool>, out: map<string, bool>)
    requires Covers(keys, ex) && fs != [] && fs[0] in keys && Readable(disk, fs[0])
    requires Audited(h, keys, disk, fs[1..], ParseEntries(h, keys, ex, ReadBin(disk, fs[0]).value.entries, []).0[fs[0] := false], out)
    ensures Audited(h, keys, disk, fs, ex, out)
  {
    var f := fs[0];
    var es := ReadBin(disk, f).value.entries;
    var p := ParseEntries(h, keys, ex, es, []);
    ParseEntriesSpec(h, keys, ex, es, []);
    assert f in ex;
    forall k | k in ex
      ensures out[k] == (ex[k] && !ClearedBy(h, keys, disk, fs, k))
    {
      assert k in p.0[f := false];
      ClearedByBin(h, keys, disk, fs, k);
    }
  }

  /** With a readable BIN at the front, the loop clears `k` when that BIN is `k`, or its entries hit `k`, or the rest clears it. */
  lemma ClearedByBin(h: Hasher, keys: seq<string>, disk: Disk, fs: seq<string>, k: string)
    requires fs != [] && Readable(disk, fs[0])
    ensures ClearedBy(h, keys, disk, fs, k) <==>
      k == fs[0] || HitsEntries(h, keys, ReadBin(disk, fs[0]).value.entries, k) || ClearedBy(h, keys, disk, fs[1..], k)
  {
    var f := fs[0];
    var es := ReadBin(disk, f).value.entries;
    if k == f {
      assert k in fs;
    }
    if HitsEntries(h, keys, es, k) {
      var e, m :| e in es && m in Mentioned(e) && Hits(h, keys, m, k);
      assert f in fs && MentionedBy(disk, f, m);
    }
    if ClearedBy(h, keys, disk, fs[1..], k) {
      if k in fs[1..] && Readable(disk, k) {
        assert k in fs;
      } else {
        var g, m :| g in fs[1..] && MentionedBy(disk, g, m) && Hits(h, keys, m, k);
        assert g in fs;
      }
    }
    if ClearedBy(h, keys, disk, fs, k) && k != f {
      if k in fs && Readable(disk, k) {
        assert k in fs[1..];
      } else {
        var g, m :| g in fs && MentionedBy(disk, g, m) && Hits(h, keys, m, k);
        if g == f {
          var e :| e in es && m in Mentioned(e);
        } else {
          assert g in fs[1..];
        }
      }
    }
  }

  /** Any other file at the front: skipped. */
  lemma AuditedSkip(h: Hasher, keys: seq<string>, disk: Disk, fs: seq<string>, ex: map<string, bool>, out: map<string, bool>)
    requires fs != [] && !Readable(disk, fs[0])
    requires Audited(h, keys, disk, fs[1..], ex, out)
    ensures Audited(h, keys, disk, fs, ex, out)
  {
    forall k
      ensures ClearedBy(h, keys, disk, fs, k) == ClearedBy(h, keys, disk, fs[1..], k)
    {
      if k in fs && Readable(disk, k) {
        assert k in fs[1..];
      }
      if exists f, m :: f in fs && MentionedBy(disk, f, m) && Hits(h, keys, m, k) {
        var g, m :| g in fs && MentionedBy(disk, g, m) && Hits(h, keys, m, k);
        assert g != fs[0];
      }
      if ClearedBy(h, keys, disk, fs[1..], k) {
        if k in fs[1..] && Readable(disk, k) {
          assert k in fs;
        } else {
          var g, m :| g in fs[1..] && MentionedBy(disk, g, m) && Hits(h, keys, m, k);
          assert g in fs;
        }
      }
    }
  }

  /**
   * The junk files are exactly the files present that are not
   * `hashed_files.json` and that the BIN loop did not clear: no readable BIN,
   * no first match of anything a readable BIN mentions, and no `2x_`/`4x_`
   * sibling of such a matched `.dds`.
   */
  lemma CheckDirJunk(h: Hasher, files: seq<string>, disk: Disk)
    ensures forall x :: x in CheckDir(h, files, disk).junk <==>
      x in files && x != "hashed_files.json" && !ClearedBy(h, files, disk, files, x)
    ensures forall x :: x in CheckDir(h, files, disk).junk ==> x in files && x != "hashed_files.json"
    ensures forall f :: f in files && Readable(disk, f) ==> f !in CheckDir(h, files, disk).junk
    ensures forall f, m, j :: f in files && MentionedBy(disk, f, m) && FirstMatch(h, files, PyntexUnify(h, m), 0) == Some(j) ==>
      files[j] !in CheckDir(h, files, disk).junk
    ensures forall f, m, pre ::
      (f in files && MentionedBy(disk, f, m) && FirstMatch(h, files, PyntexUnify(h, m), 0).Some?
       && EndsWith(m, ".dds") && pre in ["2x_", "4x_"]) ==> DdsVariant(m, pre) !in CheckDir(h, files, disk).junk
  {
    var ex := AllPresent(files);
    var c := CheckFiles(h, files, disk, files, ex, map[]);
    CheckFilesSpec(h, files, disk, files, ex, map[]);
    FlaggedSpec(files, Clear(c.0, "hashed_files.json"));
    forall f, m, j | f in files && MentionedBy(disk, f, m) && FirstMatch(h, files, PyntexUnify(h, m), 0) == Some(j)
      ensures files[j] !in CheckDir(h, files, disk).junk
    {
      assert Hits(h, files, m, files[j]);
    }
    forall f, m, pre | f in files && MentionedBy(disk, f, m) && FirstMatch(h, files, PyntexUnify(h, m), 0).Some?
      && EndsWith(m, ".dds") && pre in ["2x_", "4x_"]
      ensures DdsVariant(m, pre) !in CheckDir(h, files, disk).junk
    {
      assert Hits(h, files, m, DdsVariant(m, pre));
    }
  }

  /**
   * `existing_files` and its key order, updated in place by the matching.
   * `keys` is the dictionary's key order, which never changes.
   */
  class Auditor {
    const h: Hasher
    const keys: seq<string>
    var existing: map<string, bool>

    constructor(h: Hasher, files: seq<string>)
      ensures this.h == h && keys == files && existing == AllPresent(files)
    {
      this.h := h;
      keys := files;
      existing := AllPresent(files);
    }

    /** The search for one mentioned file, stopping at its first match. */
    method MatchFile(file: string) returns (found: bool)
      modifies this
      ensures (existing, found) == MatchOne(h, keys, old(existing), file)
    {
      var u := PyntexUnify(h, file);
      var j := 0;
      while j < |keys|
        invariant 0 <= j <= |keys| && existing == old(existing)
        invariant FirstMatch(h, keys, u, 0) == FirstMatch(h, keys, u, j)
      {
        if PyntexUnify(h, keys[j]) == u {
          existing := existing[keys[j] := false];
          if EndsWith(file, ".dds") {
            var dds2x := DdsVariant(file, "2x_");
            var dds4x := DdsVariant(file, "4x_");
            if dds2x in existing {
              existing := existing[dds2x := false];
            }
            if dds4x in existing {
              existing := existing[dds4x := false];
            }
          }
          return true;
        }
        j := j + 1;
      }
      found := false;
    }

    /** `[file for file in existing_files if existing_files[file]]`. */
    method Junk() returns (junk: seq<string>)
      ensures junk == Flagged(keys, existing)
    {
      var ex := existing;
      junk := [];
      var k := 0;
      assert keys[0..] == keys;
      while k < |keys|
        invariant 0 <= k <= |keys|
        invariant Flagged(keys, ex) == junk + Flagged(keys[k..], ex)
      {
        var x := keys[k];
        FlaggedStep(keys, k, ex, junk);
        if x in ex && ex[x] {
          junk := junk + [x];
        }
        k := k + 1;
      }
      assert keys[k..] == [];
    }

    /** The tail of `parse_entry`: each mentioned file matched, the unmatched ones returned. */
    method MatchFiles(files: seq<string>) returns (missing: seq<string>)
      modifies this
      ensures (existing, missing) == MatchAll(h, keys, old(existing), files, [])
    {
      missing := [];
      var i := 0;
      while i < |files|
        invariant 0 <= i <= |files|
        invariant MatchAll(h, keys, old(existing), files, []) == MatchAll(h, keys, existing, files[i..], missing)
      {
        assert files[i..][1..] == files[i + 1..];
        var found := MatchFile(files[i]);
        if !found {
          missing := missing + [files[i]];
        }
        i := i + 1;
      }
    }

    /** `parse_entry`. */
    method ParseEntryOf(e: Entry) returns (rep: Report)
      modifies this
      ensures (existing, rep) == ParseEntry(h, keys, old(existing), e)
    {
      var m := Mentioned(e);
      var missing: seq<string> := [];
      if |existing| > 0 {
        missing := MatchFiles(m);
      }
      rep := Report(e.hash, e.typeHash, m, missing);
    }

    /** `_pyntex_parse_bin`: the reports of the entries that mention something. */
    method ParseBin(doc: Document) returns (reps: seq<Report>)
      modifies this
      ensures (existing, reps) == ParseEntries(h, keys, old(existing), doc.entries, [])
    {
      reps := [];
      var i := 0;
      while i < |doc.entries|
        invariant 0 <= i <= |doc.entries|
        invariant ParseEntries(h, keys, old(existing), doc.entries, []) == ParseEntries(h, keys, existing, doc.entries[i..], reps)
      {
        assert doc.entries[i..][1..] == doc.entries[i + 1..];
        var rep := ParseEntryOf(doc.entries[i]);
        if |rep.mentioned| > 0 {
          reps := reps + [rep];
        }
        i := i + 1;
      }
    }
  }

  /** `_pyntex_check_dir` over the relative paths present, lower-cased and sorted; `disk` holds their contents. */
  method CheckDirectory(h: Hasher, files: seq<string>, disk: Disk) returns (audit: Audit)
    ensures audit == CheckDir(h, files, disk)
  {
    var a := new Auditor(h, files);
    var res: map<string, seq<Report>> := map[];
    var i := 0;
    assert files[0..] == files;
    while i < |files|
      invariant 0 <= i <= |files| && a.h == h && a.keys == files
      invariant CheckFiles(h, files, disk, files, AllPresent(files), map[])
             == CheckFiles(h, files, disk, files[i..], a.existing, res)
    {
      var f := files[i];
      assert files[i..][1..] == files[i + 1..];
      if EndsWith(f, ".bin") {
        var read := ReadBin(disk, f);
        if read.Some? {
          var reps := a.ParseBin(read.value);
          if |reps| > 0 {
            res := res[f := reps];
          }
          a.existing := a.existing[f := false];
        }
      }
      i := i + 1;
    }
    assert files[i..] == [];
    if "hashed_files.json" in a.existing {
      a.existing := a.existing["hashed_files.json" := false];
    }
    var junk := a.Junk();
    audit := Audit(res, junk);
  }
}
