/**
 * `_LocalBum.bum` as a function of the engine's state and the disk: the two
 * refusals, the clean-up of the output directory, the copy of every scanned
 * source file to its output name (rewriting the BINs among them), and the
 * optional combination of each selected BIN with the BINs it links to.
 *
 * The order in which `bum` walks `scanned_tree` (sorted by entry name, then
 * in record insertion order) is a parameter: the list of (entry, key) pairs
 * it visits.
 */
module BumRun {
  import opened Wrappers
  import opened Text
  import opened Hashing
  import opened BinTree
  import opened Scanning
  import opened Repathing
  import opened LinkClosure
  import opened OutputPaths
  import opened ScanRun

  datatype BumError =
    | NoEntryScanned
    | MissingSource
    | NotSource(key: string)
    | CopyFailed(path: string)
    | BinReadFailed(path: string)
    | EntryNotScanned(hash: nat)
    | NotCopied(key: string)
    | NoLinkList(key: string)

  /** A refusal `bum` raises before it touches the disk. */
  predicate Refusal(e: BumError) {
    e.NoEntryScanned? || e.MissingSource?
  }

  /** The part of the engine's state `bum` reads. */
  datatype Snapshot = Snapshot(
    h: Hasher,
    files: map<string, SourceFile>,
    flags: map<string, bool>,
    order: seq<string>,
    tree: map<EntryKey, Records>,
    prefix: map<EntryKey, string>,
    linked: Links)

  /** `entry_prefix[ek]`; every scanned entry has one, so the default is never used for one. */
  function PrefixOf(s: Snapshot, ek: EntryKey): string {
    if ek in s.prefix then s.prefix[ek] else ""
  }

  /** The records `bum_value` consults for an entry; an unscanned entry has none. */
  function RecordsOf(s: Snapshot, ek: EntryKey): Records {
    if ek in s.tree then s.tree[ek] else map[]
  }

  /** Some string the rewrite reaches in `e` carries an asset marker. */
  predicate MarkedString(e: Entry) {
    exists i :: 0 <= i < |EntryStrings(e)| && HasMarker(EntryStrings(e)[i])
  }

  /*
   * `bum_bin`: the rewrite of one copied BIN.
   */

  /**
   * One entry of a copied BIN. An entry the scan never saw fails, as the
   * lookup `scanned_tree[entry_hash]` does, as soon as a marked string is
   * reached; without one it is rebuilt unchanged.
   */
  function BumEntry(s: Snapshot, e: Entry): Result<Entry, BumError> {
    if Named(e.hash) !in s.tree && MarkedString(e) then Err(EntryNotScanned(e.hash))
    else Ok(Entry(e.hash, e.typeHash, BumFields(ScopeOf(s, e), e.fields)))
  }

  /** What `bum_value` consults for the strings of entry `e`. */
  function ScopeOf(s: Snapshot, e: Entry): Scope {
    Scope(s.h, RecordsOf(s, Named(e.hash)), PrefixOf(s, Named(e.hash)))
  }

  function BumEntries(s: Snapshot, es: seq<Entry>): (r: Result<seq<Entry>, BumError>)
    ensures r.Err? ==> r.error.EntryNotScanned?
    decreases |es|
  {
    if es == [] then Ok([])
    else
      match BumEntry(s, es[0])
      case Err(e) => Err(e)
      case Ok(e0) =>
        match BumEntries(s, es[1..])
        case Err(e) => Err(e)
        case Ok(rest) => Ok([e0] + rest)
  }

  /** `bum_bin`: every entry rewritten, the links left as they are. */
  function BumDoc(s: Snapshot, doc: Document): (r: Result<Document, BumError>)
    ensures r.Err? ==> r.error.EntryNotScanned?
  {
    match BumEntries(s, doc.entries)
    case Err(e) => Err(e)
    case Ok(es) => Ok(Document(doc.links, es))
  }

  /** What a copy to `out` leaves there: the source's data, rewritten when `out` names a BIN. */
  function Converted(s: Snapshot, out: string, data: FileData): (r: Result<FileData, BumError>)
    ensures r.Err? ==> r.error.BinReadFailed? || r.error.EntryNotScanned?
  {
    if !EndsWith(out, ".bin") then Ok(data)
    else
      match data
      case Blob(_) => Err(BinReadFailed(out))
      case Bin(doc) =>
        match BumDoc(s, doc)
        case Err(e) => Err(e)
        case Ok(d) => Ok(Bin(d))
  }

  /*
   * Clean-up and copy.
   */

  /** `shutil.rmtree(outDir, ignore_errors=True)`: every file inside the directory goes. */
  function RemoveTree(disk: Disk, outDir: string): Disk {
    if outDir == [] then disk
    else map p | p in disk && !Inside(p, outDir) :: disk[p]
  }

  /** Some record was not found among the source files. */
  predicate HasMissing(s: Snapshot) {
    exists ek, k :: ek in s.tree && k in s.tree[ek] && !s.tree[ek][k].existed
  }

  /** A copy the loop performs: the key copied and the file it is copied to. */
  datatype Copy = Copy(key: string, out: string)

  /**
   * The copy a visited pair calls for: one for a record found among the
   * source files, to the output name of its short path (prefixed unless it
   * is a BIN); none for a missing record.
   */
  function Target(s: Snapshot, outDir: string, p: (EntryKey, string)): Option<Copy> {
    var (ek, k) := p;
    if ek in s.tree && k in s.tree[ek] && s.tree[ek][k].existed then
      Some(Copy(k, OutputFile(s.h, outDir, ShortFile(PrefixOf(s, ek), s.tree[ek][k].original))))
    else None
  }

  /** The copies of a whole walk, in order. */
  function Plan(s: Snapshot, outDir: string, ps: seq<(EntryKey, string)>): (r: seq<Option<Copy>>)
    ensures |r| == |ps| && forall i :: 0 <= i < |ps| ==> r[i] == Target(s, outDir, ps[i])
  {
    seq(|ps|, i requires 0 <= i < |ps| => Target(s, outDir, ps[i]))
  }

  /**
   * `ps` is a walk of the nested loop over `scanned_tree`: it visits every
   * record of the tree exactly once and nothing else, and the records of
   * one entry one after the other.
   */
  predicate Visits(s: Snapshot, ps: seq<(EntryKey, string)>) {
    (forall i, j :: 0 <= i < j < |ps| ==> ps[i] != ps[j])
    && (forall i :: 0 <= i < |ps| ==> ps[i].0 in s.tree && ps[i].1 in s.tree[ps[i].0])
    && (forall ek, k :: ek in s.tree && k in s.tree[ek] ==> (ek, k) in ps)
    && (forall i, j, l :: 0 <= i < j < l < |ps| && ps[i].0 == ps[l].0 ==> ps[j].0 == ps[i].0)
  }

  /** The disk being written and `bum_files`, the output of each copied key. */
  datatype Out = Out(disk: Disk, bumFiles: map<string, string>)

  /**
   * One pass of the copy loop: copy the source file, rewrite it if it is a
   * BIN, note it in `bum_files`. The result is the state the pass leaves and
   * its failure, if any: a BIN that `bum_bin` cannot rewrite has already been
   * copied unchanged.
   */
  function CopyOne(s: Snapshot, c: Option<Copy>, o: Out): (r: (Out, Option<BumError>))
    ensures r.1.Some? ==> !Refusal(r.1.value)
  {
    match c
    case None => (o, None)
    case Some(Copy(k, out)) =>
      if k !in s.files then (o, Some(NotSource(k)))
      else
        var src := s.files[k].full;
        if src !in o.disk then (o, Some(CopyFailed(src)))
        else
          match Converted(s, out, o.disk[src])
          case Err(e) => (Out(o.disk[out := o.disk[src]], o.bumFiles), Some(e))
          case Ok(data) => (Out(o.disk[out := data], o.bumFiles[k := out]), None)
  }

  /** The copy loop: the state it leaves, stopping at the first failure, and that failure. */
  function CopyAll(s: Snapshot, cs: seq<Option<Copy>>, o: Out): (r: (Out, Option<BumError>))
    ensures r.1.Some? ==> !Refusal(r.1.value)
    decreases |cs|
  {
    if cs == [] then (o, None)
    else
      var (o1, e) := CopyOne(s, cs[0], o);
      if e.Some? then (o1, e) else CopyAll(s, cs[1..], o1)
  }

  /*
   * Combining, as written: each linked BIN's file is removed as soon as it
   * is merged.
   */

  /** The links of the combined BIN: those that do not lead to a merged BIN. */
  function KeepLinks(h: Hasher, links: seq<string>, flat: seq<string>): (r: seq<string>)
    ensures forall l :: l in r <==> l in links && Unify(h, l) !in flat
    decreases |links|
  {
    if links == [] then []
    else if Unify(h, links[0]) in flat then KeepLinks(h, links[1..], flat)
    else [links[0]] + KeepLinks(h, links[1..], flat)
  }

  /** The merge loop as written: read each linked file, append its entries, remove it. */
  function MergeRemoving(flat: seq<string>, bumFiles: map<string, string>, disk: Disk, es: seq<Entry>)
    : (r: Result<(Disk, seq<Entry>), BumError>)
    ensures r.Err? ==> !Refusal(r.error)
    decreases |flat|
  {
    if flat == [] then Ok((disk, es))
    else
      var v := flat[0];
      if v !in bumFiles then Err(NotCopied(v))
      else
        match ReadBin(disk, bumFiles[v])
        case None => Err(BinReadFailed(bumFiles[v]))
        case Some(d) => MergeRemoving(flat[1..], bumFiles, disk - {bumFiles[v]}, es + d.entries)
  }

  /** The combine step for one selected BIN `u`, as written. */
  function CombineOneRemoving(s: Snapshot, u: string, bumFiles: map<string, string>, disk: Disk)
    : (r: Result<Disk, BumError>)
    requires LinksClosed(s.linked)
    ensures r.Err? ==> !Refusal(r.error)
  {
    if u !in bumFiles then Err(NotCopied(u))
    else
      match ReadBin(disk, bumFiles[u])
      case None => Err(BinReadFailed(bumFiles[u]))
      case Some(doc) =>
        if u !in s.linked then Err(NoLinkList(u))
        else
          var flat := FlatList(s.linked, u);
          match MergeRemoving(flat, bumFiles, disk, doc.entries)
          case Err(e) => Err(e)
          case Ok((d, es)) => Ok(d[bumFiles[u] := Bin(Document(KeepLinks(s.h, doc.links, flat), es))])
  }

  /** The combine loop as written, over `source_bins` in insertion order. */
  function CombineRemoving(s: Snapshot, us: seq<string>, bumFiles: map<string, string>, disk: Disk)
    : (r: Result<Disk, BumError>)
    requires LinksClosed(s.linked)
    ensures r.Err? ==> !Refusal(r.error)
    decreases |us|
  {
    if us == [] then Ok(disk)
    else if us[0] in s.flags && s.flags[us[0]] then
      match CombineOneRemoving(s, us[0], bumFiles, disk)
      case Err(e) => Err(e)
      case Ok(d) => CombineRemoving(s, us[1..], bumFiles, d)
    else CombineRemoving(s, us[1..], bumFiles, disk)
  }

  /*
   * Combining, corrected: the linked files are read while they are all
   * still there, and removed once every selected BIN has been combined.
   */

  /** Append the entries of every linked file, reading without removing. */
  function MergeKeeping(flat: seq<string>, bumFiles: map<string, string>, disk: Disk, es: seq<Entry>)
    : (r: Result<seq<Entry>, BumError>)
    ensures r.Err? ==> !Refusal(r.error)
    decreases |flat|
  {
    if flat == [] then Ok(es)
    else
      var v := flat[0];
      if v !in bumFiles then Err(NotCopied(v))
      else
        match ReadBin(disk, bumFiles[v])
        case None => Err(BinReadFailed(bumFiles[v]))
        case Some(d) => MergeKeeping(flat[1..], bumFiles, disk, es + d.entries)
  }

  /** The output files of the BINs in `flat`. */
  function FilesOf(flat: seq<string>, bumFiles: map<string, string>): set<string> {
    set v | v in flat && v in bumFiles :: bumFiles[v]
  }

  /** The combine step for one selected BIN, leaving the linked files in place. */
  function CombineOneKeeping(s: Snapshot, u: string, bumFiles: map<string, string>, disk: Disk)
    : (r: Result<Disk, BumError>)
    requires LinksClosed(s.linked)
    ensures r.Err? ==> !Refusal(r.error)
  {
    if u !in bumFiles then Err(NotCopied(u))
    else
      match ReadBin(disk, bumFiles[u])
      case None => Err(BinReadFailed(bumFiles[u]))
      case Some(doc) =>
        if u !in s.linked then Err(NoLinkList(u))
        else
          var flat := FlatList(s.linked, u);
          match MergeKeeping(flat, bumFiles, disk, doc.entries)
          case Err(e) => Err(e)
          case Ok(es) => Ok(disk[bumFiles[u] := Bin(Document(KeepLinks(s.h, doc.links, flat), es))])
  }

  /** The selected BINs among `us`. */
  predicate Selected(s: Snapshot, u: string) {
    u in s.flags && s.flags[u]
  }

  /** The output files of every BIN linked from a selected BIN in `us`. */
  function LinkedFiles(s: Snapshot, us: seq<string>, bumFiles: map<string, string>): set<string>
    requires LinksClosed(s.linked)
  {
    set u, v | u in us && Selected(s, u) && u in s.linked && v in FlatList(s.linked, u) && v in bumFiles
      :: bumFiles[v]
  }

  /** The corrected combine loop: the disk it leaves, stopping at the first failure, and that failure. */
  function CombineKeeping(s: Snapshot, us: seq<string>, bumFiles: map<string, string>, disk: Disk)
    : (r: (Disk, Option<BumError>))
    requires LinksClosed(s.linked)
    ensures r.1.Some? ==> !Refusal(r.1.value)
    decreases |us|
  {
    if us == [] then (disk, None)
    else if Selected(s, us[0]) then
      match CombineOneKeeping(s, us[0], bumFiles, disk)
      case Err(e) => (disk, Some(e))
      case Ok(d) => CombineKeeping(s, us[1..], bumFiles, d)
    else CombineKeeping(s, us[1..], bumFiles, disk)
  }

  /**
   * The corrected combine: every selected BIN combined, then the linked files
   * removed; a failure leaves the BINs combined so far and removes nothing.
   */
  function Combine(s: Snapshot, bumFiles: map<string, string>, disk: Disk): (r: (Disk, Option<BumError>))
    requires LinksClosed(s.linked)
    ensures r.1.Some? ==> !Refusal(r.1.value)
  {
    var (d, e) := CombineKeeping(s, s.order, bumFiles, disk);
    if e.Some? then (d, e) else (d - LinkedFiles(s, s.order, bumFiles), None)
  }

  /*
   * The whole run.
   */

  /**
   * `bum(outDir, ignoreMissing, combine)`, visiting the records in the order
   * `ps`: the disk the run leaves behind, and the error it raised, if any.
   */
  function Bum(s: Snapshot, outDir: string, ignoreMissing: bool, combine: bool,
               ps: seq<(EntryKey, string)>, disk: Disk): (Disk, Option<BumError>)
    requires LinksClosed(s.linked)
  {
    if |s.tree| == 0 then (disk, Some(NoEntryScanned))
    else if !ignoreMissing && HasMissing(s) then (disk, Some(MissingSource))
    else
      var (o, e) := CopyAll(s, Plan(s, outDir, ps), Out(RemoveTree(disk, outDir), map[]));
      if e.Some? then (o.disk, e)
      else if combine then Combine(s, o.bumFiles, o.disk) else (o.disk, None)
  }

  /*
   * What the run promises.
   */

  /**
   * `bum` refuses exactly when nothing was scanned, or a record is missing
   * and that is not ignored; a refusal comes before `rmtree`, so it leaves
   * the disk as it was.
   */
  lemma BumRefusals(s: Snapshot, outDir: string, ignoreMissing: bool, combine: bool,
                    ps: seq<(EntryKey, string)>, disk: Disk)
    requires LinksClosed(s.linked)
    ensures Bum(s, outDir, ignoreMissing, combine, ps, disk).1 == Some(NoEntryScanned) <==> |s.tree| == 0
    ensures Bum(s, outDir, ignoreMissing, combine, ps, disk).1 == Some(MissingSource)
        <==> |s.tree| != 0 && !ignoreMissing && HasMissing(s)
    ensures var r := Bum(s, outDir, ignoreMissing, combine, ps, disk);
      r.1.Some? && Refusal(r.1.value) ==> r.0 == disk
  {
  }

  /** `q` has the same presence and content on both disks. */
  predicate Agree(d: Disk, d': Disk, q: string) {
    (q in d <==> q in d') && (q in d ==> d[q] == d'[q])
  }

  /** Some copy of `cs` writes `q`. */
  predicate Targeted(cs: seq<Option<Copy>>, q: string) {
    exists i :: 0 <= i < |cs| && cs[i].Some? && cs[i].value.out == q
  }

  predicate TargetsInside(cs: seq<Option<Copy>>, outDir: string) {
    forall i :: 0 <= i < |cs| && cs[i].Some? ==> Inside(cs[i].value.out, outDir)
  }

  /** Every record names a relative path and every scanned entry a named, relative prefix. */
  predicate RelativeRecords(s: Snapshot) {
    s.tree.Keys <= s.prefix.Keys
    && (forall ek :: ek in s.tree ==> s.prefix[ek] != [] && !StartsWith(s.prefix[ek], "/"))
    && (forall ek, k :: ek in s.tree && k in s.tree[ek] ==> !StartsWith(s.tree[ek][k].original, "/"))
  }

  /** With relative records, every copy lands inside a named output directory. */
  lemma RelativeTargetsInside(s: Snapshot, outDir: string, ps: seq<(EntryKey, string)>)
    requires Sound(s.h) && outDir != [] && RelativeRecords(s)
    ensures TargetsInside(Plan(s, outDir, ps), outDir)
  {
    var cs := Plan(s, outDir, ps);
    forall i | 0 <= i < |cs| && cs[i].Some? ensures Inside(cs[i].value.out, outDir) {
      var (ek, k) := ps[i];
      ShortFileRelative(s.prefix[ek], s.tree[ek][k].original);
      OutputFileInside(s.h, outDir, ShortFile(s.prefix[ek], s.tree[ek][k].original));
    }
  }

  lemma CopyOneFacts(s: Snapshot, c: Option<Copy>, o: Out)
    requires CopyOne(s, c, o).1.None?
    ensures c.None? ==> CopyOne(s, c, o).0 == o
    ensures c.Some? ==>
      var (k, out) := (c.value.key, c.value.out);
      k in s.files && s.files[k].full in o.disk
      && Converted(s, out, o.disk[s.files[k].full]).Ok?
      && CopyOne(s, c, o).0.disk == o.disk[out := Converted(s, out, o.disk[s.files[k].full]).value]
      && CopyOne(s, c, o).0.bumFiles == o.bumFiles[k := out]
  {
  }

  /** Whether it fails or not, one pass writes at most its own target and notes at most its own key. */
  lemma CopyOneOnly(s: Snapshot, c: Option<Copy>, o: Out)
    ensures forall q :: !(c.Some? && c.value.out == q) ==> Agree(o.disk, CopyOne(s, c, o).0.disk, q)
    ensures forall k :: k in CopyOne(s, c, o).0.bumFiles ==>
      (k in o.bumFiles && CopyOne(s, c, o).0.bumFiles[k] == o.bumFiles[k])
      || (c.Some? && CopyOne(s, c, o).0.bumFiles[k] == c.value.out)
  {
  }

  lemma TargetedTail(cs: seq<Option<Copy>>, q: string)
    requires cs != []
    ensures Targeted(cs, q) <==> (cs[0].Some? && cs[0].value.out == q) || Targeted(cs[1..], q)
  {
    if Targeted(cs[1..], q) {
      var j :| 0 <= j < |cs[1..]| && cs[1..][j].Some? && cs[1..][j].value.out == q;
      assert cs[j + 1] == cs[1..][j];
    }
    if Targeted(cs, q) && !(cs[0].Some? && cs[0].value.out == q) {
      var j :| 0 <= j < |cs| && cs[j].Some? && cs[j].value.out == q;
      assert cs[1..][j - 1] == cs[j];
    }
  }

  /** The copy keeps every file and writes every target; each copied key is a source file. */
  lemma {:induction false} CopyAllWrites(s: Snapshot, cs: seq<Option<Copy>>, o: Out)
    requires CopyAll(s, cs, o).1.None?
    ensures o.disk.Keys <= CopyAll(s, cs, o).0.disk.Keys
    ensures forall i :: 0 <= i < |cs| && cs[i].Some? ==>
      cs[i].value.key in s.files && cs[i].value.out in CopyAll(s, cs, o).0.disk
    decreases |cs|
  {
    if cs != [] {
      CopyOneFacts(s, cs[0], o);
      var o1 := CopyOne(s, cs[0], o).0;
      CopyAllWrites(s, cs[1..], o1);
      forall i | 1 <= i < |cs| && cs[i].Some?
        ensures cs[i].value.key in s.files && cs[i].value.out in CopyAll(s, cs, o).0.disk
      {
        assert cs[i] == cs[1..][i - 1];
      }
    }
  }

  /**
   * Whether it finishes or stops at a failure, the copy changes nothing but
   * its targets, and records only targets in `bum_files`.
   */
  lemma {:induction false} CopyAllOnly(s: Snapshot, cs: seq<Option<Copy>>, o: Out)
    ensures forall q :: !Targeted(cs, q) ==> Agree(o.disk, CopyAll(s, cs, o).0.disk, q)
    ensures forall k :: k in CopyAll(s, cs, o).0.bumFiles ==>
      (k in o.bumFiles && CopyAll(s, cs, o).0.bumFiles[k] == o.bumFiles[k])
      || Targeted(cs, CopyAll(s, cs, o).0.bumFiles[k])
    decreases |cs|
  {
    if cs != [] {
      CopyOneOnly(s, cs[0], o);
      var o1 := CopyOne(s, cs[0], o).0;
      CopyAllOnly(s, cs[1..], o1);
      forall q ensures Targeted(cs, q) <==> (cs[0].Some? && cs[0].value.out == q) || Targeted(cs[1..], q) {
        TargetedTail(cs, q);
      }
    }
  }

  /**
   * A target no other copy shares, copied from a source file the copy
   * never writes, ends up holding that source's data, rewritten when the
   * target names a BIN.
   */
  lemma {:induction false} CopyAllContent(s: Snapshot, cs: seq<Option<Copy>>, o: Out, r: Out,
                                          i: int, out: string, src: string)
    requires CopyAll(s, cs, o) == (r, None)
    requires 0 <= i < |cs| && cs[i].Some? && cs[i].value.out == out
    requires forall j :: 0 <= j < |cs| && j != i && cs[j].Some? ==> cs[j].value.out != out
    requires cs[i].value.key in s.files && s.files[cs[i].value.key].full == src && !Targeted(cs, src)
    ensures src in o.disk && Converted(s, out, o.disk[src]).Ok?
    ensures out in r.disk && r.disk[out] == Converted(s, out, o.disk[src]).value
    decreases |cs|
  {
    CopyAllWrites(s, cs, o);
    CopyOneFacts(s, cs[0], o);
    var o1 := CopyOne(s, cs[0], o).0;
    assert CopyAll(s, cs[1..], o1) == (r, None);
    TargetedTail(cs, src);
    if i == 0 {
      assert !Targeted(cs[1..], out) by {
        forall j | 0 <= j < |cs[1..]| && cs[1..][j].Some? ensures cs[1..][j].value.out != out {
          assert cs[1..][j] == cs[j + 1];
        }
      }
      CopyAllOnly(s, cs[1..], o1);
      assert Agree(o1.disk, r.disk, out);
    } else {
      assert cs[1..][i - 1] == cs[i];
      forall j | 0 <= j < |cs[1..]| && j != i - 1 && cs[1..][j].Some? ensures cs[1..][j].value.out != out {
        assert cs[1..][j] == cs[j + 1];
      }
      CopyAllContent(s, cs[1..], o1, r, i - 1, out, src);
      assert Agree(o.disk, o1.disk, src);
    }
  }

  /** `rmtree` leaves everything outside the directory and nothing inside it. */
  lemma RemoveTreeFacts(disk: Disk, outDir: string)
    requires outDir != []
    ensures forall q :: !Inside(q, outDir) ==> Agree(disk, RemoveTree(disk, outDir), q)
    ensures forall q :: q in RemoveTree(disk, outDir) ==> !Inside(q, outDir)
  {
  }

  /**
   * A run without combining writes the output of every record it visits
   * that was found among the source files, and nothing else inside the
   * output directory.
   */
  lemma BumWritesOutputs(s: Snapshot, outDir: string, ignoreMissing: bool, ps: seq<(EntryKey, string)>, disk: Disk)
    requires LinksClosed(s.linked) && outDir != []
    requires Bum(s, outDir, ignoreMissing, false, ps, disk).1.None?
    ensures forall i :: 0 <= i < |ps| && Target(s, outDir, ps[i]).Some? ==>
      Target(s, outDir, ps[i]).value.out in Bum(s, outDir, ignoreMissing, false, ps, disk).0
    ensures forall q :: q in Bum(s, outDir, ignoreMissing, false, ps, disk).0 && Inside(q, outDir) ==>
      Targeted(Plan(s, outDir, ps), q)
  {
    var cs := Plan(s, outDir, ps);
    var o0 := Out(RemoveTree(disk, outDir), map[]);
    RemoveTreeFacts(disk, outDir);
    CopyAllWrites(s, cs, o0);
    CopyAllOnly(s, cs, o0);
    var d := CopyAll(s, cs, o0).0.disk;
    forall q | q in d && !Targeted(cs, q) ensures q in o0.disk {
      assert Agree(o0.disk, d, q);
    }
  }

  /**
   * A run without combining that walks the tree as `bum` does and succeeds
   * has written the output of every record found among the source files.
   */
  lemma BumWritesEveryRecord(s: Snapshot, outDir: string, ignoreMissing: bool,
                             ps: seq<(EntryKey, string)>, disk: Disk, ek: EntryKey, k: string)
    requires LinksClosed(s.linked) && outDir != [] && Visits(s, ps)
    requires Bum(s, outDir, ignoreMissing, false, ps, disk).1.None?
    requires ek in s.tree && k in s.tree[ek] && s.tree[ek][k].existed
    ensures Target(s, outDir, (ek, k)).Some?
    ensures Target(s, outDir, (ek, k)).value.out in Bum(s, outDir, ignoreMissing, false, ps, disk).0
  {
    var i :| 0 <= i < |ps| && ps[i] == (ek, k);
    BumWritesOutputs(s, outDir, ignoreMissing, ps, disk);
  }

  /** Without combining, a run that gets past its refusals is the copy loop. */
  lemma BumIsCopy(s: Snapshot, outDir: string, ignoreMissing: bool, ps: seq<(EntryKey, string)>, disk: Disk)
    requires LinksClosed(s.linked)
    requires Bum(s, outDir, ignoreMissing, false, ps, disk).1.None?
    ensures CopyAll(s, Plan(s, outDir, ps), Out(RemoveTree(disk, outDir), map[])).1.None?
    ensures Bum(s, outDir, ignoreMissing, false, ps, disk).0
         == CopyAll(s, Plan(s, outDir, ps), Out(RemoveTree(disk, outDir), map[])).0.disk
  {
  }

  lemma PlanUnique(s: Snapshot, outDir: string, ps: seq<(EntryKey, string)>, i: int, k: string, out: string)
    requires 0 <= i < |ps| && Target(s, outDir, ps[i]) == Some(Copy(k, out))
    requires forall j :: 0 <= j < |ps| && j != i && Target(s, outDir, ps[j]).Some? ==>
      Target(s, outDir, ps[j]).value.out != out
    ensures Plan(s, outDir, ps)[i] == Some(Copy(k, out))
    ensures forall j :: 0 <= j < |ps| && j != i && Plan(s, outDir, ps)[j].Some? ==> Plan(s, outDir, ps)[j].value.out != out
  {
  }

  /**
   * A record whose output no other record shares, copied from a source file
   * outside the output directory, ends up holding that file's data, passed
   * through `bum_bin` when its name ends in `.bin`.
   */
  lemma BumContent(s: Snapshot, outDir: string, ignoreMissing: bool, ps: seq<(EntryKey, string)>, disk: Disk,
                   i: int, k: string, out: string)
    requires LinksClosed(s.linked) && outDir != [] && TargetsInside(Plan(s, outDir, ps), outDir)
    requires forall k :: k in s.files ==> !Inside(s.files[k].full, outDir)
    requires Bum(s, outDir, ignoreMissing, false, ps, disk).1.None?
    requires 0 <= i < |ps| && Target(s, outDir, ps[i]) == Some(Copy(k, out))
    requires forall j :: 0 <= j < |ps| && j != i && Target(s, outDir, ps[j]).Some? ==>
      Target(s, outDir, ps[j]).value.out != out
    ensures k in s.files && s.files[k].full in disk
    ensures Converted(s, out, disk[s.files[k].full]).Ok?
    ensures out in Bum(s, outDir, ignoreMissing, false, ps, disk).0
    ensures Bum(s, outDir, ignoreMissing, false, ps, disk).0[out] == Converted(s, out, disk[s.files[k].full]).value
  {
    var cs := Plan(s, outDir, ps);
    var o0 := Out(RemoveTree(disk, outDir), map[]);
    BumIsCopy(s, outDir, ignoreMissing, ps, disk);
    PlanUnique(s, outDir, ps, i, k, out);
    RemoveTreeFacts(disk, outDir);
    CopyAllWrites(s, cs, o0);
    var src := s.files[k].full;
    assert !Targeted(cs, src);
    CopyAllContent(s, cs, o0, CopyAll(s, cs, o0).0, i, out, src);
    assert Agree(disk, o0.disk, src);
  }

  /*
   * `bum_bin`.
   */

  /** An entry `bum_bin` can rewrite: scanned, or reaching no marked string. */
  predicate Rewritable(s: Snapshot, e: Entry) {
    Named(e.hash) in s.tree || !MarkedString(e)
  }

  /**
   * `bum_bin` succeeds exactly when every entry is rewritable; it then keeps
   * the links, the number and order of the entries and each entry's hash and
   * type, and replaces each reached string in place by its rewrite whenever
   * no MAP has two keys the rewrite makes equal.
   */
  lemma {:induction false} BumEntriesSpec(s: Snapshot, es: seq<Entry>)
    ensures BumEntries(s, es).Ok? <==> forall i :: 0 <= i < |es| ==> Rewritable(s, es[i])
    ensures BumEntries(s, es).Ok? ==>
      var r := BumEntries(s, es).value;
      |r| == |es|
      && forall i :: 0 <= i < |es| ==>
        r[i].hash == es[i].hash && r[i].typeHash == es[i].typeHash
        && (NoMergeFields(Rewriter(ScopeOf(s, es[i])), es[i].fields) ==>
              EntryStrings(r[i]) == MapStrings(Rewriter(ScopeOf(s, es[i])), EntryStrings(es[i])))
    decreases |es|
  {
    if es != [] {
      BumEntriesSpec(s, es[1..]);
      if !Rewritable(s, es[0]) {
        assert BumEntries(s, es).Err?;
      } else if BumEntries(s, es[1..]).Err? {
        var j :| 0 <= j < |es[1..]| && !Rewritable(s, es[1..][j]);
        assert es[j + 1] == es[1..][j];
      } else {
        var r := BumEntries(s, es).value;
        var rest := BumEntries(s, es[1..]).value;
        assert r == [BumEntry(s, es[0]).value] + rest;
        forall i | 0 <= i < |es| ensures Rewritable(s, es[i]) {
          if i > 0 {
            assert es[i] == es[1..][i - 1];
          }
        }
        forall i | 0 <= i < |es| && NoMergeFields(Rewriter(ScopeOf(s, es[i])), es[i].fields)
          ensures EntryStrings(r[i]) == MapStrings(Rewriter(ScopeOf(s, es[i])), EntryStrings(es[i]))
        {
          if i == 0 {
            BumFieldsIsSubst(ScopeOf(s, es[0]), es[0].fields);
            SubstFieldsStrings(Rewriter(ScopeOf(s, es[0])), es[0].fields);
          } else {
            assert es[i] == es[1..][i - 1];
            assert r[i] == rest[i - 1];
          }
        }
      }
    }
  }

  /*
   * Combining.
   */

  lemma ReadAfterWrite(d: Disk, p: string, doc: Document, q: string)
    requires ReadBin(d, q).Some?
    ensures ReadBin(d[p := Bin(doc)], q).Some?
  {
  }

  /** Every file the combine step of a selected BIN in `us` reads is there and holds a BIN. */
  predicate Ready(s: Snapshot, us: seq<string>, bumFiles: map<string, string>, disk: Disk)
    requires LinksClosed(s.linked)
  {
    forall u :: u in us && Selected(s, u) ==>
      u in bumFiles && ReadBin(disk, bumFiles[u]).Some? && u in s.linked
      && forall v :: v in FlatList(s.linked, u) ==> v in bumFiles && ReadBin(disk, bumFiles[v]).Some?
  }

  lemma {:induction false} MergeKeepingOk(flat: seq<string>, bumFiles: map<string, string>, disk: Disk, es: seq<Entry>)
    requires forall v :: v in flat ==> v in bumFiles && ReadBin(disk, bumFiles[v]).Some?
    ensures MergeKeeping(flat, bumFiles, disk, es).Ok?
    decreases |flat|
  {
    if flat != [] {
      MergeKeepingOk(flat[1..], bumFiles, disk, es + ReadBin(disk, bumFiles[flat[0]]).value.entries);
    }
  }

  lemma ReadyAfterWrite(s: Snapshot, us: seq<string>, bumFiles: map<string, string>, disk: Disk, p: string, doc: Document)
    requires LinksClosed(s.linked) && Ready(s, us, bumFiles, disk)
    ensures Ready(s, us, bumFiles, disk[p := Bin(doc)])
  {
    forall q | ReadBin(disk, q).Some? ensures ReadBin(disk[p := Bin(doc)], q).Some? {
      ReadAfterWrite(disk, p, doc, q);
    }
  }

  /**
   * The corrected combine loop succeeds whenever every file it reads is
   * there at the start, and it changes no file but the selected BINs' own.
   */
  lemma {:induction false} CombineKeepingOk(s: Snapshot, us: seq<string>, bumFiles: map<string, string>, disk: Disk)
    requires LinksClosed(s.linked) && Ready(s, us, bumFiles, disk)
    ensures CombineKeeping(s, us, bumFiles, disk).1.None?
    ensures forall q :: q !in bumFiles.Values ==> Agree(disk, CombineKeeping(s, us, bumFiles, disk).0, q)
    decreases |us|
  {
    if us != [] {
      var u := us[0];
      assert Ready(s, us[1..], bumFiles, disk);
      if Selected(s, u) {
        var doc := ReadBin(disk, bumFiles[u]).value;
        var flat := FlatList(s.linked, u);
        MergeKeepingOk(flat, bumFiles, disk, doc.entries);
        var es := MergeKeeping(flat, bumFiles, disk, doc.entries).value;
        var d := Document(KeepLinks(s.h, doc.links, flat), es);
        ReadyAfterWrite(s, us[1..], bumFiles, disk, bumFiles[u], d);
        CombineKeepingOk(s, us[1..], bumFiles, disk[bumFiles[u] := Bin(d)]);
      } else {
        CombineKeepingOk(s, us[1..], bumFiles, disk);
      }
    }
  }

  /**
   * The corrected combine succeeds whenever every file it reads is there at
   * the start; afterwards no file of a merged BIN is left, and every other
   * file not written for a selected BIN is as it was.
   */
  lemma CombineOk(s: Snapshot, bumFiles: map<string, string>, disk: Disk)
    requires LinksClosed(s.linked) && Ready(s, s.order, bumFiles, disk)
    ensures Combine(s, bumFiles, disk).1.None?
    ensures forall q :: q in LinkedFiles(s, s.order, bumFiles) ==> q !in Combine(s, bumFiles, disk).0
    ensures forall q :: q !in bumFiles.Values ==> Agree(disk, Combine(s, bumFiles, disk).0, q)
  {
    CombineKeepingOk(s, s.order, bumFiles, disk);
  }

  /*
   * What the combine writes.
   */

  /** Every linked BIN in `flat` was copied, and its copy reads as a BIN. */
  predicate Readable(flat: seq<string>, bumFiles: map<string, string>, disk: Disk) {
    forall v :: v in flat ==> v in bumFiles && ReadBin(disk, bumFiles[v]).Some?
  }

  /** The entries of the BINs in `flat`, one BIN after the other, each in full. */
  function LinkedEntries(flat: seq<string>, bumFiles: map<string, string>, disk: Disk): seq<Entry>
    requires Readable(flat, bumFiles, disk)
    decreases |flat|
  {
    if flat == [] then []
    else ReadBin(disk, bumFiles[flat[0]]).value.entries + LinkedEntries(flat[1..], bumFiles, disk)
  }

  /**
   * Nothing is dropped or de-duplicated: the entries of the `i`-th linked
   * BIN sit whole between those of the BINs before it and after it.
   */
  lemma {:induction false} LinkedEntriesSplit(flat: seq<string>, bumFiles: map<string, string>, disk: Disk, i: int)
    requires Readable(flat, bumFiles, disk) && 0 <= i < |flat|
    ensures Readable(flat[..i], bumFiles, disk) && Readable(flat[i + 1..], bumFiles, disk)
    ensures LinkedEntries(flat, bumFiles, disk)
         == LinkedEntries(flat[..i], bumFiles, disk)
          + ReadBin(disk, bumFiles[flat[i]]).value.entries
          + LinkedEntries(flat[i + 1..], bumFiles, disk)
    decreases i
  {
    if i == 0 {
      assert flat[..0] == [];
      assert flat[1..] == flat[i + 1..];
    } else {
      LinkedEntriesSplit(flat[1..], bumFiles, disk, i - 1);
      assert flat[1..][..i - 1] == flat[1..i];
      assert flat[1..][i - 1] == flat[i];
      assert flat[1..][i..] == flat[i + 1..];
      assert flat[..i][1..] == flat[1..i];
      assert flat[..i][0] == flat[0];
    }
  }

  /** The linked entries depend only on the files of the linked BINs. */
  lemma {:induction false} LinkedEntriesFrame(flat: seq<string>, bumFiles: map<string, string>, disk: Disk, disk': Disk)
    requires Readable(flat, bumFiles, disk)
    requires forall v :: v in flat ==> ReadBin(disk', bumFiles[v]) == ReadBin(disk, bumFiles[v])
    ensures Readable(flat, bumFiles, disk')
    ensures LinkedEntries(flat, bumFiles, disk') == LinkedEntries(flat, bumFiles, disk)
    decreases |flat|
  {
    if flat != [] {
      LinkedEntriesFrame(flat[1..], bumFiles, disk, disk');
    }
  }

  /** The corrected merge appends the linked BINs' entries, in `flat` order, to those of the selected BIN. */
  lemma {:induction false} MergeKeepingClosed(flat: seq<string>, bumFiles: map<string, string>, disk: Disk, es: seq<Entry>)
    requires Readable(flat, bumFiles, disk)
    ensures MergeKeeping(flat, bumFiles, disk, es) == Ok(es + LinkedEntries(flat, bumFiles, disk))
    decreases |flat|
  {
    if flat != [] {
      var d := ReadBin(disk, bumFiles[flat[0]]).value;
      MergeKeepingClosed(flat[1..], bumFiles, disk, es + d.entries);
      var rest := LinkedEntries(flat[1..], bumFiles, disk);
      assert LinkedEntries(flat, bumFiles, disk) == d.entries + rest;
      assert es + d.entries + rest == es + (d.entries + rest);
    } else {
      assert es + [] == es;
    }
  }

  /**
   * When the linked BINs have distinct files, the merge as written appends
   * the same entries as the corrected one, and removes exactly those files.
   */
  lemma {:induction false} MergeRemovingClosed(flat: seq<string>, bumFiles: map<string, string>, disk: Disk, es: seq<Entry>)
    requires Readable(flat, bumFiles, disk)
    requires forall i, j :: 0 <= i < j < |flat| ==> bumFiles[flat[i]] != bumFiles[flat[j]]
    ensures MergeRemoving(flat, bumFiles, disk, es)
         == Ok((disk - FilesOf(flat, bumFiles), es + LinkedEntries(flat, bumFiles, disk)))
    decreases |flat|
  {
    if flat != [] {
      var v := flat[0];
      var d := ReadBin(disk, bumFiles[v]).value;
      var disk' := disk - {bumFiles[v]};
      forall w | w in flat[1..] ensures ReadBin(disk', bumFiles[w]) == ReadBin(disk, bumFiles[w]) {
        var j :| 0 <= j < |flat[1..]| && flat[1..][j] == w;
        assert flat[j + 1] == w;
      }
      LinkedEntriesFrame(flat[1..], bumFiles, disk, disk');
      forall i, j | 0 <= i < j < |flat[1..]| ensures bumFiles[flat[1..][i]] != bumFiles[flat[1..][j]] {
        assert flat[1..][i] == flat[i + 1] && flat[1..][j] == flat[j + 1];
      }
      MergeRemovingClosed(flat[1..], bumFiles, disk', es + d.entries);
      assert FilesOf(flat, bumFiles) == {bumFiles[v]} + FilesOf(flat[1..], bumFiles) by {
        forall x | x in FilesOf(flat, bumFiles) ensures x in {bumFiles[v]} + FilesOf(flat[1..], bumFiles) {
          var w :| w in flat && w in bumFiles && bumFiles[w] == x;
          if w != v {
            var j :| 0 <= j < |flat| && flat[j] == w;
            assert flat[1..][j - 1] == w;
          }
        }
      }
      assert disk' - FilesOf(flat[1..], bumFiles) == disk - FilesOf(flat, bumFiles);
      var rest := LinkedEntries(flat[1..], bumFiles, disk);
      assert LinkedEntries(flat, bumFiles, disk) == d.entries + rest;
      assert es + d.entries + rest == es + (d.entries + rest);
    } else {
      assert es + [] == es;
      assert FilesOf(flat, bumFiles) == {};
      assert disk - {} == disk;
    }
  }

  /** Everything the combine step of `u` reads is there. */
  predicate ReadyFor(s: Snapshot, u: string, bumFiles: map<string, string>, disk: Disk)
    requires LinksClosed(s.linked)
  {
    u in bumFiles && ReadBin(disk, bumFiles[u]).Some? && u in s.linked
    && Readable(FlatList(s.linked, u), bumFiles, disk)
  }

  /**
   * The combined BIN of `u`: its own links minus those to merged BINs, and
   * its own entries followed by every linked BIN's entries.
   */
  function Combined(s: Snapshot, u: string, bumFiles: map<string, string>, disk: Disk): Document
    requires LinksClosed(s.linked) && ReadyFor(s, u, bumFiles, disk)
  {
    var doc := ReadBin(disk, bumFiles[u]).value;
    var flat := FlatList(s.linked, u);
    Document(KeepLinks(s.h, doc.links, flat), doc.entries + LinkedEntries(flat, bumFiles, disk))
  }

  /** One corrected combine step writes the combined BIN over the selected BIN's copy. */
  lemma CombineOneKeepingContent(s: Snapshot, u: string, bumFiles: map<string, string>, disk: Disk)
    requires LinksClosed(s.linked) && ReadyFor(s, u, bumFiles, disk)
    ensures CombineOneKeeping(s, u, bumFiles, disk) == Ok(disk[bumFiles[u] := Bin(Combined(s, u, bumFiles, disk))])
  {
    MergeKeepingClosed(FlatList(s.linked, u), bumFiles, disk, ReadBin(disk, bumFiles[u]).value.entries);
  }

  /**
   * The combine step as written, when the linked BINs have distinct files,
   * writes the same combined BIN and removes every linked BIN's file.
   */
  lemma CombineOneRemovingContent(s: Snapshot, u: string, bumFiles: map<string, string>, disk: Disk)
    requires LinksClosed(s.linked) && ReadyFor(s, u, bumFiles, disk)
    requires var flat := FlatList(s.linked, u);
      forall i, j :: 0 <= i < j < |flat| ==> bumFiles[flat[i]] != bumFiles[flat[j]]
    ensures CombineOneRemoving(s, u, bumFiles, disk)
         == Ok((disk - FilesOf(FlatList(s.linked, u), bumFiles))[bumFiles[u] := Bin(Combined(s, u, bumFiles, disk))])
  {
    MergeRemovingClosed(FlatList(s.linked, u), bumFiles, disk, ReadBin(disk, bumFiles[u]).value.entries);
  }

  /** No selected BIN of `us` but `u` writes the file of `u` or of a BIN `u` links to. */
  predicate Untouched(s: Snapshot, us: seq<string>, bumFiles: map<string, string>, u: string)
    requires LinksClosed(s.linked) && u in bumFiles && u in s.linked
  {
    forall w :: w in us && Selected(s, w) && w != u && w in bumFiles ==>
      bumFiles[w] != bumFiles[u] && bumFiles[w] !in FilesOf(FlatList(s.linked, u), bumFiles)
  }

  /** Wherever it stops, the corrected combine loop leaves a file no selected BIN of `us` writes as it was. */
  lemma {:induction false} CombineKeepingFrame(s: Snapshot, us: seq<string>, bumFiles: map<string, string>, disk: Disk, q: string)
    requires LinksClosed(s.linked)
    requires forall w :: w in us && Selected(s, w) && w in bumFiles ==> bumFiles[w] != q
    ensures Agree(disk, CombineKeeping(s, us, bumFiles, disk).0, q)
    decreases |us|
  {
    if us != [] {
      if Selected(s, us[0]) && CombineOneKeeping(s, us[0], bumFiles, disk).Ok? {
        CombineKeepingFrame(s, us[1..], bumFiles, CombineOneKeeping(s, us[0], bumFiles, disk).value, q);
      } else if !Selected(s, us[0]) {
        CombineKeepingFrame(s, us[1..], bumFiles, disk, q);
      }
    }
  }

  /**
   * A selected BIN `u` visited once by the corrected combine loop, whose own
   * file and linked files no other selected BIN writes, ends up holding its
   * combination as read from the starting disk.
   */
  lemma {:induction false} CombineKeepingContent(s: Snapshot, us: seq<string>, bumFiles: map<string, string>, disk: Disk, u: string)
    requires LinksClosed(s.linked) && Ready(s, us, bumFiles, disk) && Distinct(us)
    requires u in us && Selected(s, u) && ReadyFor(s, u, bumFiles, disk) && Untouched(s, us, bumFiles, u)
    ensures CombineKeeping(s, us, bumFiles, disk).1.None?
    ensures bumFiles[u] in CombineKeeping(s, us, bumFiles, disk).0
    ensures CombineKeeping(s, us, bumFiles, disk).0[bumFiles[u]] == Bin(Combined(s, u, bumFiles, disk))
    decreases |us|
  {
    CombineKeepingOk(s, us, bumFiles, disk);
    assert Distinct(us[1..]) by {
      forall i, j | 0 <= i < j < |us[1..]| ensures us[1..][i] != us[1..][j] {
        assert us[1..][i] == us[i + 1] && us[1..][j] == us[j + 1];
      }
    }
    var w := us[0];
    if w == u {
      CombineOneKeepingContent(s, u, bumFiles, disk);
      var d := disk[bumFiles[u] := Bin(Combined(s, u, bumFiles, disk))];
      forall w' | w' in us[1..] && Selected(s, w') && w' in bumFiles ensures bumFiles[w'] != bumFiles[u] {
        var j :| 0 <= j < |us[1..]| && us[1..][j] == w';
        assert us[j + 1] == w' && us[0] == u;
      }
      CombineKeepingFrame(s, us[1..], bumFiles, d, bumFiles[u]);
    } else {
      assert u in us[1..] by {
        var j :| 0 <= j < |us| && us[j] == u;
        assert us[1..][j - 1] == u;
      }
      assert Ready(s, us[1..], bumFiles, disk);
      assert Untouched(s, us[1..], bumFiles, u);
      if Selected(s, w) {
        CombineOneKeepingContent(s, w, bumFiles, disk);
        var c := Combined(s, w, bumFiles, disk);
        var d := disk[bumFiles[w] := Bin(c)];
        ReadyAfterWrite(s, us[1..], bumFiles, disk, bumFiles[w], c);
        var flat := FlatList(s.linked, u);
        forall v | v in flat ensures ReadBin(d, bumFiles[v]) == ReadBin(disk, bumFiles[v]) {
          assert bumFiles[v] in FilesOf(flat, bumFiles);
        }
        LinkedEntriesFrame(flat, bumFiles, disk, d);
        assert Combined(s, u, bumFiles, d) == Combined(s, u, bumFiles, disk);
        CombineKeepingContent(s, us[1..], bumFiles, d, u);
      } else {
        CombineKeepingContent(s, us[1..], bumFiles, disk, u);
      }
    }
  }

  /**
   * After the corrected combine, a selected BIN listed once in `source_bins`
   * whose own file and linked files no other selected BIN writes, and whose
   * file is not itself merged away, holds its own entries followed by every
   * linked BIN's entries, and its links minus those to the merged BINs.
   */
  lemma CombineContent(s: Snapshot, bumFiles: map<string, string>, disk: Disk, u: string)
    requires LinksClosed(s.linked) && Ready(s, s.order, bumFiles, disk) && Distinct(s.order)
    requires u in s.order && Selected(s, u) && ReadyFor(s, u, bumFiles, disk) && Untouched(s, s.order, bumFiles, u)
    requires bumFiles[u] !in LinkedFiles(s, s.order, bumFiles)
    ensures Combine(s, bumFiles, disk).1.None?
    ensures bumFiles[u] in Combine(s, bumFiles, disk).0
    ensures Combine(s, bumFiles, disk).0[bumFiles[u]] == Bin(Combined(s, u, bumFiles, disk))
  {
    CombineKeepingContent(s, s.order, bumFiles, disk, u);
  }

  /** The files of the BINs merged into one more selected BIN join those already collected. */
  lemma LinkedFilesSnoc(s: Snapshot, us: seq<string>, u: string, bumFiles: map<string, string>)
    requires LinksClosed(s.linked)
    ensures LinkedFiles(s, us + [u], bumFiles)
         == LinkedFiles(s, us, bumFiles)
          + (if Selected(s, u) && u in s.linked then FilesOf(FlatList(s.linked, u), bumFiles) else {})
  {
  }

  /** One pass of the corrected combine loop over `us`, at position `j`. */
  lemma CombineLoopStep(s: Snapshot, us: seq<string>, j: int, bumFiles: map<string, string>, disk: Disk, d: Disk,
                        removed: set<string>, step: Result<Disk, BumError>)
    requires LinksClosed(s.linked) && 0 <= j < |us|
    requires CombineKeeping(s, us, bumFiles, disk) == CombineKeeping(s, us[j..], bumFiles, d)
    requires removed == LinkedFiles(s, us[..j], bumFiles)
    requires step == if Selected(s, us[j]) then CombineOneKeeping(s, us[j], bumFiles, d) else Ok(d)
    ensures step.Err? ==> CombineKeeping(s, us, bumFiles, disk) == (d, Some(step.error))
    ensures step.Ok? ==> CombineKeeping(s, us, bumFiles, disk) == CombineKeeping(s, us[j + 1..], bumFiles, step.value)
    ensures LinkedFiles(s, us[..j + 1], bumFiles)
         == removed + if Selected(s, us[j]) && us[j] in s.linked then FilesOf(FlatList(s.linked, us[j]), bumFiles) else {}
  {
    assert us[j..][1..] == us[j + 1..];
    assert us[..j + 1] == us[..j] + [us[j]];
    LinkedFilesSnoc(s, us[..j], us[j], bumFiles);
  }

  /**
   * Whatever the run does, and wherever it stops, it leaves every file
   * outside the output directory as it was, provided every copy lands
   * inside it.
   */
  lemma BumKeepsOutside(s: Snapshot, outDir: string, ignoreMissing: bool, combine: bool,
                        ps: seq<(EntryKey, string)>, disk: Disk, q: string)
    requires LinksClosed(s.linked) && outDir != [] && TargetsInside(Plan(s, outDir, ps), outDir)
    requires !Inside(q, outDir)
    ensures Agree(disk, Bum(s, outDir, ignoreMissing, combine, ps, disk).0, q)
  {
    if |s.tree| != 0 && (ignoreMissing || !HasMissing(s)) {
      var cs := Plan(s, outDir, ps);
      var o0 := Out(RemoveTree(disk, outDir), map[]);
      RemoveTreeFacts(disk, outDir);
      var o := CopyAll(s, cs, o0).0;
      CopyAllOnly(s, cs, o0);
      assert !Targeted(cs, q);
      assert Agree(o0.disk, o.disk, q);
      assert Agree(disk, o0.disk, q);
      if combine && CopyAll(s, cs, o0).1.None? {
        assert q !in o.bumFiles.Values;
        CombineKeepingAgrees(s, s.order, o.bumFiles, o.disk, q);
        LinkedFilesAreCopies(s, s.order, o.bumFiles);
      }
    }
  }

  /** The files the combine removes are among the copies it combined. */
  lemma LinkedFilesAreCopies(s: Snapshot, us: seq<string>, bumFiles: map<string, string>)
    requires LinksClosed(s.linked)
    ensures LinkedFiles(s, us, bumFiles) <= bumFiles.Values
  {
  }

  /** Wherever the corrected combine loop stops, it has changed only the selected BINs' own files. */
  lemma {:induction false} CombineKeepingAgrees(s: Snapshot, us: seq<string>, bumFiles: map<string, string>, disk: Disk, q: string)
    requires LinksClosed(s.linked) && q !in bumFiles.Values
    ensures Agree(disk, CombineKeeping(s, us, bumFiles, disk).0, q)
    decreases |us|
  {
    if us != [] {
      if Selected(s, us[0]) && CombineOneKeeping(s, us[0], bumFiles, disk).Ok? {
        var d := CombineOneKeeping(s, us[0], bumFiles, disk).value;
        CombineKeepingAgrees(s, us[1..], bumFiles, d, q);
      } else if !Selected(s, us[0]) {
        CombineKeepingAgrees(s, us[1..], bumFiles, disk, q);
      }
    }
  }

  /*
   * Two selected BINs that link to the same BIN.
   */

  function SharedLinkState(): Snapshot {
    Snapshot(Hasher(p => false, p => "0000000000000000"), map[],
             map["a" := true, "b" := true, "c" := false], ["a", "b", "c"], map[], map[],
             map["a" := ["c"], "b" := ["c"], "c" := []])
  }

  function SharedLinkFiles(): map<string, string> {
    map["a" := "out/a.bin", "b" := "out/b.bin", "c" := "out/c.bin"]
  }

  function SharedLinkDisk(): Disk {
    map["out/a.bin" := Bin(Document([], [])), "out/b.bin" := Bin(Document([], [])),
        "out/c.bin" := Bin(Document([], []))]
  }

  lemma SharedLinkFlat()
    ensures LinksClosed(SharedLinkState().linked)
    ensures FlatList(SharedLinkState().linked, "a") == ["c"]
    ensures FlatList(SharedLinkState().linked, "b") == ["c"]
  {
    var linked := SharedLinkState().linked;
    assert LinksClosed(linked);
    assert Visit(linked, "a", [], ["c"]) == ["c"];
    assert Visit(linked, "a", ["c"], []) == ["c"];
    assert Visit(linked, "b", [], ["c"]) == ["c"];
    assert Visit(linked, "b", ["c"], []) == ["c"];
  }

  lemma SharedLinkReady()
    ensures LinksClosed(SharedLinkState().linked)
    ensures Ready(SharedLinkState(), SharedLinkState().order, SharedLinkFiles(), SharedLinkDisk())
  {
    SharedLinkFlat();
    var s, bf, disk := SharedLinkState(), SharedLinkFiles(), SharedLinkDisk();
    forall u | u in s.order && Selected(s, u)
      ensures u in bf && ReadBin(disk, bf[u]).Some? && u in s.linked
      ensures forall v :: v in FlatList(s.linked, u) ==> v in bf && ReadBin(disk, bf[v]).Some?
    {
      SharedLinkReadyAt(u);
    }
  }

  /** Every BIN of the fixture and the one it links to are readable. */
  lemma SharedLinkReadyAt(u: string)
    requires u in ["a", "b", "c"]
    ensures LinksClosed(SharedLinkState().linked)
    ensures u in SharedLinkFiles() && ReadBin(SharedLinkDisk(), SharedLinkFiles()[u]).Some? && u in SharedLinkState().linked
    ensures forall v :: v in FlatList(SharedLinkState().linked, u) ==>
      v in SharedLinkFiles() && ReadBin(SharedLinkDisk(), SharedLinkFiles()[v]).Some?
  {
    SharedLinkFlat();
    var linked := SharedLinkState().linked;
    if u == "c" {
      assert Visit(linked, "c", [], []) == [];
    }
  }

  /** Combining `a` merges `c` and removes its file. */
  lemma SharedLinkFirst()
    ensures LinksClosed(SharedLinkState().linked)
    ensures CombineOneRemoving(SharedLinkState(), "a", SharedLinkFiles(), SharedLinkDisk()).Ok?
    ensures "out/c.bin" !in CombineOneRemoving(SharedLinkState(), "a", SharedLinkFiles(), SharedLinkDisk()).value
    ensures "out/b.bin" in CombineOneRemoving(SharedLinkState(), "a", SharedLinkFiles(), SharedLinkDisk()).value
    ensures CombineOneRemoving(SharedLinkState(), "a", SharedLinkFiles(), SharedLinkDisk()).value["out/b.bin"].Bin?
  {
    SharedLinkFlat();
    var s, bf, disk := SharedLinkState(), SharedLinkFiles(), SharedLinkDisk();
    assert ReadBin(disk, "out/a.bin") == Some(Document([], []));
    assert ReadBin(disk, "out/c.bin") == Some(Document([], []));
    var m := MergeRemoving(["c"], bf, disk, []);
    assert bf["c"] == "out/c.bin";
    assert ["c"][1..] == [];
    var none: seq<Entry> := [];
    assert none + Document([], []).entries == none;
    assert MergeRemoving([], bf, disk - {"out/c.bin"}, []) == Ok((disk - {"out/c.bin"}, []));
    assert m == Ok((disk - {"out/c.bin"}, []));
  }

  /** Combining `b` next finds the file of `c` gone. */
  lemma SharedLinkSecond(d1: Disk)
    requires LinksClosed(SharedLinkState().linked)
    requires "out/c.bin" !in d1 && "out/b.bin" in d1 && d1["out/b.bin"].Bin?
    ensures CombineOneRemoving(SharedLinkState(), "b", SharedLinkFiles(), d1) == Err(BinReadFailed("out/c.bin"))
  {
    SharedLinkFlat();
    var bf := SharedLinkFiles();
    assert ReadBin(d1, "out/c.bin") == None;
    assert MergeRemoving(["c"], bf, d1, d1["out/b.bin"].doc.entries) == Err(BinReadFailed("out/c.bin"));
  }

  /**
   * Selected BINs `a` and `b` both link to `c`. The combine loop as written
   * merges `c` into `a` and removes its file, then fails reading that file
   * for `b`, although every file it needs was there when it started; the
   * corrected combine finishes on the same inputs.
   */
  lemma SharedLinkBreaksCombine()
    ensures LinksClosed(SharedLinkState().linked)
    ensures Ready(SharedLinkState(), SharedLinkState().order, SharedLinkFiles(), SharedLinkDisk())
    ensures CombineRemoving(SharedLinkState(), SharedLinkState().order, SharedLinkFiles(), SharedLinkDisk())
         == Err(BinReadFailed("out/c.bin"))
    ensures Combine(SharedLinkState(), SharedLinkFiles(), SharedLinkDisk()).1.None?
  {
    SharedLinkReady();
    SharedLinkRemovingFails();
    CombineOk(SharedLinkState(), SharedLinkFiles(), SharedLinkDisk());
  }

  /** The combine loop as written stops at `b`, the file of `c` gone. */
  lemma SharedLinkRemovingFails()
    ensures LinksClosed(SharedLinkState().linked)
    ensures CombineRemoving(SharedLinkState(), SharedLinkState().order, SharedLinkFiles(), SharedLinkDisk())
         == Err(BinReadFailed("out/c.bin"))
  {
    var s, bf, disk := SharedLinkState(), SharedLinkFiles(), SharedLinkDisk();
    SharedLinkFirst();
    var d1 := CombineOneRemoving(s, "a", bf, disk).value;
    SharedLinkSecond(d1);
    assert s.order[1..] == ["b", "c"];
    assert CombineRemoving(s, ["b", "c"], bf, d1) == Err(BinReadFailed("out/c.bin"));
  }
}
