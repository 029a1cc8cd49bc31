/**
 * `_LocalBum`, the repathing engine, as a class whose methods update its
 * dictionaries in place: indexing the source folders, marking BINs
 * selected, scanning, and the `bum` run. Each method is proved against the
 * function of the same behaviour in `SourceIndex`, `ScanRun` and `BumRun`.
 * The hashers are fixed when the engine is made; the disk is a value the
 * methods read (and `Bum` returns the disk it leaves).
 */
module Engine {
  import opened Wrappers
  import opened Text
  import opened Hashing
  import opened BinTree
  import opened Scanning
  import opened CharacterBin
  import opened LinkClosure
  import opened OutputPaths
  import opened ScanRun
  import opened SourceIndex
  import opened BumRun

  class LocalBum {
    const h: Hasher
    /** `source_files`: canonical key to full and relative path. */
    var sourceFiles: map<string, SourceFile>
    /** `source_bins`: BIN key to "selected", with `binOrder` its insertion order. */
    var sourceBins: map<string, bool>
    var binOrder: seq<string>
    /** `scanned_tree`: entry to its records, with `All_BINs` for the BINs themselves. */
    var scannedTree: map<EntryKey, Records>
    var entryPrefix: map<EntryKey, string>
    var linkedBins: Links

    ghost predicate Valid()
      reads this
    {
      OrderMatches(Index(sourceFiles, sourceBins, binOrder))
      && scannedTree.Keys <= entryPrefix.Keys
      && LinksClosed(linkedBins)
    }

    function Idx(): Index
      reads this
    {
      Index(sourceFiles, sourceBins, binOrder)
    }

    function State(): St
      reads this
    {
      St(scannedTree, entryPrefix, linkedBins)
    }

    function Snap(): Snapshot
      reads this
    {
      Snapshot(h, sourceFiles, sourceBins, binOrder, scannedTree, entryPrefix, linkedBins)
    }

    constructor(h: Hasher)
      ensures Valid() && this.h == h
      ensures sourceFiles == map[] && sourceBins == map[] && binOrder == []
      ensures scannedTree == map[] && entryPrefix == map[] && linkedBins == map[]
    {
      this.h := h;
      sourceFiles, sourceBins, binOrder := map[], map[], [];
      scannedTree, entryPrefix, linkedBins := map[], map[], map[];
    }

    /** `add_source_dirs`, given the files the walk yields, in walk order. */
    method AddSourceDirs(fs: seq<SourceFile>)
      requires Valid()
      modifies this
      ensures Valid()
      ensures Idx() == AddAll(h, old(Idx()), fs)
      ensures State() == old(State())
    {
      var i := 0;
      while i < |fs|
        invariant 0 <= i <= |fs|
        invariant Valid() && State() == old(State())
        invariant Idx() == AddAll(h, old(Idx()), fs[..i])
      {
        var f := fs[i];
        assert fs[..i + 1][..i] == fs[..i];
        var u := Unify(h, f.rel);
        if u !in sourceFiles {
          sourceFiles := sourceFiles[u := f];
          if EndsWith(Lower(f.rel), ".bin") {
            if u !in sourceBins {
              binOrder := binOrder + [u];
            }
            sourceBins := sourceBins[u := false];
          }
        }
        i := i + 1;
      }
      assert fs[..|fs|] == fs;
    }

    /** The caller's `source_bins[u] = True`. */
    method SelectBin(u: string)
      requires Valid()
      modifies this
      ensures Valid()
      ensures Idx() == Select(old(Idx()), u) && State() == old(State())
    {
      if u !in sourceBins {
        binOrder := binOrder + [u];
      }
      sourceBins := sourceBins[u := true];
    }

    /** `scan()`, reading BINs from `disk`, with `fuel` standing for the recursion limit. */
    method Scan(disk: Disk, fuel: nat) returns (err: Option<ScanError>)
      requires Valid()
      modifies this
      ensures Valid()
      ensures Idx() == old(Idx())
      ensures Scanned(State(), err) == ScanRun.Scan(Env(h, sourceFiles, disk), binOrder, sourceBins, old(State()), fuel)
    {
      var env := Env(h, sourceFiles, disk);
      ghost var st0 := old(State());
      ScanKeeps(env, binOrder, sourceBins, st0, fuel);
      scannedTree := map[AllBins := map[]];
      entryPrefix := entryPrefix[AllBins := "Uneditable"];
      var i := 0;
      while i < |binOrder|
        invariant 0 <= i <= |binOrder|
        invariant Idx() == old(Idx()) && env.files == sourceFiles
        invariant ScanRun.Scan(env, binOrder, sourceBins, st0, fuel)
               == ScanSelected(env, binOrder[i..], sourceBins, State(), fuel)
      {
        var u := binOrder[i];
        assert binOrder[i..][1..] == binOrder[i + 1..];
        if u in sourceBins && sourceBins[u] {
          if u !in sourceFiles {
            return Some(SelectedNotSource(u));
          }
          scannedTree := scannedTree[AllBins := AllBinsOf(State())[u := Rec(true, sourceFiles[u].rel)]];
          err := ScanBin(env, sourceFiles[u].full, u, fuel);
          if err.Some? {
            return;
          }
        }
        i := i + 1;
      }
      err := None;
    }

    /** `scan_bin(full, u)`: its links, descending into each source BIN, then its entries. */
    method ScanBin(env: Env, full: string, u: string, fuel: nat) returns (err: Option<ScanError>)
      requires env.h == h && env.files == sourceFiles
      modifies this
      ensures Idx() == old(Idx())
      ensures Scanned(State(), err) == ScanRun.ScanBin(env, full, u, old(State()), fuel)
      decreases fuel, 0
    {
      if fuel == 0 {
        return Some(RecursionLimit);
      }
      var read := ReadBin(env.disk, full);
      if read.None? {
        return Some(ReadFailed(full));
      }
      var doc := read.value;
      linkedBins := linkedBins[u := []];
      err := ScanLinksOf(env, doc.links, u, fuel - 1);
      if err.None? {
        ScanEntriesOf(env, doc.entries);
      }
    }

    /** The link loop of `scan_bin(…, u)`. */
    method ScanLinksOf(env: Env, links: seq<string>, u: string, fuel: nat) returns (err: Option<ScanError>)
      requires env.h == h && env.files == sourceFiles
      modifies this
      ensures Idx() == old(Idx())
      ensures Scanned(State(), err) == ScanLinks(env, links, u, old(State()), fuel)
      decreases fuel, 1
    {
      var j := 0;
      while j < |links|
        invariant 0 <= j <= |links|
        invariant Idx() == old(Idx())
        invariant ScanLinks(env, links, u, old(State()), fuel) == ScanLinks(env, links[j..], u, State(), fuel)
      {
        var link := links[j];
        assert links[j..][1..] == links[j + 1..];
        ScanLinksStep(env, links[j..], u, State(), fuel);
        match IsCharacterBin(link) {
          case Err(_) =>
            return Some(LinkIndexError(link));
          case Ok(true) =>
          case Ok(false) =>
            var ul := Unify(h, link);
            if ul in sourceFiles {
              scannedTree := scannedTree[AllBins := AllBinsOf(State())[ul := Rec(true, link)]];
              err := ScanBin(env, sourceFiles[ul].full, ul, fuel);
              if err.Some? {
                return;
              }
              var prev := if u in linkedBins then linkedBins[u] else [];
              linkedBins := linkedBins[u := prev + [ul]];
            } else {
              scannedTree := scannedTree[AllBins := AllBinsOf(State())[ul := Rec(false, link)]];
            }
        }
        j := j + 1;
      }
      err := None;
    }

    /** The entry loop of `scan_bin`: each entry's records rebuilt and its prefix set to `bum`. */
    method ScanEntriesOf(env: Env, es: seq<Entry>)
      requires env.h == h && env.files == sourceFiles
      modifies this
      ensures Idx() == old(Idx())
      ensures State() == ScanEntries(env, es, old(State()))
    {
      var k := 0;
      while k < |es|
        invariant 0 <= k <= |es|
        invariant Idx() == old(Idx())
        invariant ScanEntries(env, es, old(State())) == ScanEntries(env, es[k..], State())
      {
        var e := es[k];
        assert es[k..][1..] == es[k + 1..];
        scannedTree := scannedTree[Named(e.hash) := ScanEntry(h, sourceFiles.Keys, e)];
        entryPrefix := entryPrefix[Named(e.hash) := "bum"];
        k := k + 1;
      }
    }

    /**
     * `bum(outDir, ignoreMissing, combine)` on `disk`, the records visited in
     * the order `ps`: the disk the run leaves behind and the error it raised,
     * if any. The combine step is the corrected one, which removes the merged
     * files only at the end.
     */
    method Bum(outDir: string, ignoreMissing: bool, combine: bool, ps: seq<(EntryKey, string)>, disk: Disk)
      returns (d: Disk, err: Option<BumError>)
      requires Valid() && Visits(Snap(), ps)
      ensures (d, err) == BumRun.Bum(Snap(), outDir, ignoreMissing, combine, ps, disk)
    {
      var s := Snap();
      if |scannedTree| == 0 {
        return disk, Some(NoEntryScanned);
      }
      if !ignoreMissing && HasMissing(s) {
        return disk, Some(MissingSource);
      }
      var o, e := CopyLoop(outDir, ps, Out(RemoveTree(disk, outDir), map[]));
      if e.Some? || !combine {
        return o.disk, e;
      }
      d, err := CombineLinked(o.bumFiles, o.disk);
    }

    /** The copy loop of `bum`: each visited record copied in turn, stopping at the first failure. */
    method CopyLoop(outDir: string, ps: seq<(EntryKey, string)>, o0: Out) returns (o: Out, err: Option<BumError>)
      ensures (o, err) == CopyAll(Snap(), Plan(Snap(), outDir, ps), o0)
    {
      ghost var cs := Plan(Snap(), outDir, ps);
      o := o0;
      var i := 0;
      while i < |ps|
        invariant 0 <= i <= |ps|
        invariant CopyAll(Snap(), cs, o0) == CopyAll(Snap(), cs[i..], o)
      {
        assert cs[i..][1..] == cs[i + 1..];
        o, err := CopyStep(Target(Snap(), outDir, ps[i]), o);
        if err.Some? {
          return;
        }
        i := i + 1;
      }
      err := None;
    }

    /**
     * One pass of the copy loop: copy, rewrite a BIN, note the output in
     * `bum_files`; a BIN that cannot be rewritten stays copied as it was.
     */
    method CopyStep(c: Option<Copy>, o: Out) returns (o': Out, err: Option<BumError>)
      ensures (o', err) == CopyOne(Snap(), c, o)
    {
      match c {
        case None =>
          return o, None;
        case Some(Copy(k, out)) =>
          if k !in sourceFiles {
            return o, Some(NotSource(k));
          }
          var src := sourceFiles[k].full;
          if src !in o.disk {
            return o, Some(CopyFailed(src));
          }
          var data := o.disk[src];
          if EndsWith(out, ".bin") {
            match data {
              case Blob(_) =>
                return Out(o.disk[out := data], o.bumFiles), Some(BinReadFailed(out));
              case Bin(doc) =>
                var rewritten := BumBin(doc);
                if rewritten.Err? {
                  return Out(o.disk[out := data], o.bumFiles), Some(rewritten.error);
                }
                data := Bin(rewritten.value);
            }
          }
          o', err := Out(o.disk[out := data], o.bumFiles[k := out]), None;
      }
    }

    /** `bum_bin`: every entry of a copied BIN rewritten, in order; the links kept. */
    method BumBin(doc: Document) returns (r: Result<Document, BumError>)
      ensures r == BumDoc(Snap(), doc)
    {
      var s := Snap();
      var es: seq<Entry> := [];
      var i := 0;
      assert doc.entries[0..] == doc.entries;
      ghost var all := BumEntries(s, doc.entries);
      if all.Ok? {
        assert es + all.value == all.value;
      }
      while i < |doc.entries|
        invariant 0 <= i <= |doc.entries|
        invariant var rest := BumEntries(s, doc.entries[i..]);
                  BumEntries(s, doc.entries) == if rest.Err? then rest else Ok(es + rest.value)
      {
        assert doc.entries[i..][1..] == doc.entries[i + 1..];
        var e := BumEntry(s, doc.entries[i]);
        if e.Err? {
          return Err(e.error);
        }
        ghost var rest := BumEntries(s, doc.entries[i + 1..]);
        if rest.Ok? {
          assert es + ([e.value] + rest.value) == (es + [e.value]) + rest.value;
        }
        es := es + [e.value];
        i := i + 1;
      }
      assert doc.entries[i..] == [];
      assert es + [] == es;
      r := Ok(Document(doc.links, es));
    }

    /** The combine step over the selected BINs in insertion order, the merged files removed at the end. */
    method CombineLinked(bumFiles: map<string, string>, disk: Disk) returns (d: Disk, err: Option<BumError>)
      requires Valid()
      ensures (d, err) == Combine(Snap(), bumFiles, disk)
    {
      ghost var s := Snap();
      d := disk;
      var removed: set<string> := {};
      var j := 0;
      while j < |binOrder|
        invariant 0 <= j <= |binOrder| && s == Snap()
        invariant CombineKeeping(s, binOrder, bumFiles, disk) == CombineKeeping(s, binOrder[j..], bumFiles, d)
        invariant removed == LinkedFiles(s, binOrder[..j], bumFiles)
      {
        var u := binOrder[j];
        var step := CombineAt(u, bumFiles, d);
        var more := LinkedOutputs(u, bumFiles);
        CombineLoopStep(s, binOrder, j, bumFiles, disk, d, removed, step);
        if step.Err? {
          return d, Some(step.error);
        }
        d := step.value;
        removed := removed + more;
        j := j + 1;
      }
      assert binOrder[..j] == binOrder;
      d, err := d - removed, None;
    }

    /** One pass of the combine loop: a selected BIN is combined, any other left as it is. */
    method CombineAt(u: string, bumFiles: map<string, string>, disk: Disk) returns (r: Result<Disk, BumError>)
      requires Valid()
      ensures r == if Selected(Snap(), u) then CombineOneKeeping(Snap(), u, bumFiles, disk) else Ok(disk)
    {
      if u in sourceBins && sourceBins[u] {
        r := CombineOne(u, bumFiles, disk);
      } else {
        r := Ok(disk);
      }
    }

    /** The output files of the BINs merged into `u`, when `u` is selected and has a link list. */
    method LinkedOutputs(u: string, bumFiles: map<string, string>) returns (fs: set<string>)
      requires Valid()
      ensures fs == if Selected(Snap(), u) && u in linkedBins then FilesOf(FlatList(linkedBins, u), bumFiles) else {}
    {
      fs := {};
      if u in sourceBins && sourceBins[u] && u in linkedBins {
        fs := FilesOf(FlatList(linkedBins, u), bumFiles);
      }
    }

    /** One selected BIN `u`: its links to merged BINs dropped, the merged BINs' entries appended. */
    method CombineOne(u: string, bumFiles: map<string, string>, disk: Disk) returns (r: Result<Disk, BumError>)
      requires Valid()
      ensures r == CombineOneKeeping(Snap(), u, bumFiles, disk)
    {
      if u !in bumFiles {
        return Err(NotCopied(u));
      }
      var read := ReadBin(disk, bumFiles[u]);
      if read.None? {
        return Err(BinReadFailed(bumFiles[u]));
      }
      var doc := read.value;
      if u !in linkedBins {
        return Err(NoLinkList(u));
      }
      var flat := FlatListLinkedBins(u, linkedBins);
      var links := KeptLinks(doc.links, flat);
      var merged := MergeLinked(flat, bumFiles, disk, doc.entries);
      if merged.Err? {
        return Err(merged.error);
      }
      r := Ok(disk[bumFiles[u] := Bin(Document(links, merged.value))]);
    }

    /** The links of the combined BIN: those whose canonical key is not among the merged BINs. */
    method KeptLinks(all: seq<string>, flat: seq<string>) returns (links: seq<string>)
      ensures links == KeepLinks(h, all, flat)
    {
      links := [];
      var m := 0;
      assert all[0..] == all;
      while m < |all|
        invariant 0 <= m <= |all|
        invariant KeepLinks(h, all, flat) == links + KeepLinks(h, all[m..], flat)
      {
        assert all[m..][1..] == all[m + 1..];
        if Unify(h, all[m]) !in flat {
          links := links + [all[m]];
        }
        m := m + 1;
      }
      assert all[m..] == [];
    }

    /** The merge loop: the entries of each merged BIN's output file appended in turn. */
    method MergeLinked(flat: seq<string>, bumFiles: map<string, string>, disk: Disk, es0: seq<Entry>)
      returns (r: Result<seq<Entry>, BumError>)
      ensures r == MergeKeeping(flat, bumFiles, disk, es0)
    {
      var es := es0;
      var n := 0;
      assert flat[0..] == flat;
      while n < |flat|
        invariant 0 <= n <= |flat|
        invariant MergeKeeping(flat, bumFiles, disk, es0) == MergeKeeping(flat[n..], bumFiles, disk, es)
      {
        assert flat[n..][1..] == flat[n + 1..];
        var v := flat[n];
        if v !in bumFiles {
          return Err(NotCopied(v));
        }
        var linked := ReadBin(disk, bumFiles[v]);
        if linked.None? {
          return Err(BinReadFailed(bumFiles[v]));
        }
        es := es + linked.value.entries;
        n := n + 1;
      }
      assert flat[n..] == [];
      r := Ok(es);
    }
  }
}
