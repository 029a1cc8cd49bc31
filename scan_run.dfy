/**
 * `_LocalBum.scan` and its nested `scan_bin`, as functions of the engine's
 * state. BIN files are read from a `Disk` value; a path that is absent or
 * does not hold a BIN document is a read failure. Python's unbounded
 * recursion through links becomes recursion on `fuel`: running out of fuel
 * stands for the interpreter's recursion limit. A link cycle never lets a
 * scan finish: it raises at that limit or at an earlier failing link.
 */
module ScanRun {
  import opened Wrappers
  import opened Text
  import opened Hashing
  import opened BinTree
  import opened Scanning
  import opened CharacterBin
  import opened LinkClosure

  /** A `source_files` value: the file's full path and its path relative to its source folder. */
  datatype SourceFile = SourceFile(full: string, rel: string)

  /** What a file holds: a BIN document, or contents the engine only copies. */
  datatype FileData = Blob(id: nat) | Bin(doc: Document)

  type Disk = map<string, FileData>

  function ReadBin(disk: Disk, path: string): Option<Document> {
    if path in disk && disk[path].Bin? then Some(disk[path].doc) else None
  }

  datatype ScanError =
    | RecursionLimit
    | ReadFailed(path: string)
    | LinkIndexError(link: string)
    | SelectedNotSource(key: string)

  /** The part of the engine's state a scan writes. */
  datatype St = St(tree: map<EntryKey, Records>, prefix: map<EntryKey, string>, linked: Links)

  /** The state a scan leaves behind, and the exception it raised, if any. */
  datatype Scanned = Scanned(st: St, err: Option<ScanError>)

  /** What a scan reads and never writes. */
  datatype Env = Env(h: Hasher, files: map<string, SourceFile>, disk: Disk)

  function AllBinsOf(st: St): Records {
    if AllBins in st.tree then st.tree[AllBins] else map[]
  }

  /** `scanned_tree['All_BINs'][k] = r`. */
  function NoteAllBins(st: St, k: string, r: Rec): St {
    st.(tree := st.tree[AllBins := AllBinsOf(st)[k := r]])
  }

  /** `linked_bins[u].append(v)`. */
  function AppendLink(st: St, u: string, v: string): St {
    var prev := if u in st.linked then st.linked[u] else [];
    st.(linked := st.linked[u := prev + [v]])
  }

  /** One entry of a BIN: its records replaced by a fresh scan, its prefix set to `bum`. */
  function ScanOneEntry(env: Env, e: Entry, st: St): St {
    st.(tree := st.tree[Named(e.hash) := ScanEntry(env.h, env.files.Keys, e)],
        prefix := st.prefix[Named(e.hash) := "bum"])
  }

  function ScanEntries(env: Env, es: seq<Entry>, st: St): St
    decreases |es|
  {
    if es == [] then st else ScanEntries(env, es[1..], ScanOneEntry(env, es[0], st))
  }

  /** `scan_bin(full, u)`. */
  function ScanBin(env: Env, full: string, u: string, st: St, fuel: nat): Scanned
    decreases fuel, 0, 0
  {
    if fuel == 0 then Scanned(st, Some(RecursionLimit))
    else
      match ReadBin(env.disk, full)
      case None => Scanned(st, Some(ReadFailed(full)))
      case Some(doc) =>
        var r := ScanLinks(env, doc.links, u, st.(linked := st.linked[u := []]), fuel - 1);
        if r.err.Some? then r else Scanned(ScanEntries(env, doc.entries, r.st), None)
  }

  /** The link loop of `scan_bin(…, u)`. */
  function ScanLinks(env: Env, links: seq<string>, u: string, st: St, fuel: nat): Scanned
    decreases fuel, |links|, 1
  {
    if links == [] then Scanned(st, None) else ScanLink(env, links, u, st, fuel)
  }

  /** One pass of the link loop: the first link followed, recorded or skipped, then the rest. */
  function ScanLink(env: Env, links: seq<string>, u: string, st: St, fuel: nat): Scanned
    requires links != []
    decreases fuel, |links|, 0
  {
    var link := links[0];
    match IsCharacterBin(link)
    case Err(_) => Scanned(st, Some(LinkIndexError(link)))
    case Ok(true) => ScanLinks(env, links[1..], u, st, fuel)
    case Ok(false) =>
      var ul := Unify(env.h, link);
      if ul in env.files then
        var r := ScanBin(env, env.files[ul].full, ul, NoteAllBins(st, ul, Rec(true, link)), fuel);
        if r.err.Some? then r
        else ScanLinks(env, links[1..], u, AppendLink(r.st, u, ul), fuel)
      else ScanLinks(env, links[1..], u, NoteAllBins(st, ul, Rec(false, link)), fuel)
  }

  /** The loop of `scan` over `source_bins`, in insertion order, scanning the selected ones. */
  function ScanSelected(env: Env, order: seq<string>, flags: map<string, bool>, st: St, fuel: nat): Scanned
    decreases |order|
  {
    if order == [] then Scanned(st, None)
    else
      var u := order[0];
      if u in flags && flags[u] then
        if u !in env.files then Scanned(st, Some(SelectedNotSource(u)))
        else
          var r := ScanBin(env, env.files[u].full, u, NoteAllBins(st, u, Rec(true, env.files[u].rel)), fuel);
          if r.err.Some? then r else ScanSelected(env, order[1..], flags, r.st, fuel)
      else ScanSelected(env, order[1..], flags, st, fuel)
  }

  /** The state `scan` starts its loop from: an empty tree except `All_BINs`, prefixes and links kept. */
  function ScanStart(st: St): St {
    St(map[AllBins := map[]], st.prefix[AllBins := "Uneditable"], st.linked)
  }

  /** `scan()`. */
  function Scan(env: Env, order: seq<string>, flags: map<string, bool>, st: St, fuel: nat): Scanned {
    ScanSelected(env, order, flags, ScanStart(st), fuel)
  }

  /** One step of the link loop, for a link the loop follows or records as missing. */
  lemma ScanLinksStep(env: Env, links: seq<string>, u: string, st: St, fuel: nat)
    requires links != []
    ensures IsCharacterBin(links[0]).Err? ==>
      ScanLinks(env, links, u, st, fuel) == Scanned(st, Some(LinkIndexError(links[0])))
    ensures IsCharacterBin(links[0]) == Ok(true) ==>
      ScanLinks(env, links, u, st, fuel) == ScanLinks(env, links[1..], u, st, fuel)
    ensures IsCharacterBin(links[0]) == Ok(false) && Unify(env.h, links[0]) !in env.files ==>
      ScanLinks(env, links, u, st, fuel)
      == ScanLinks(env, links[1..], u, NoteAllBins(st, Unify(env.h, links[0]), Rec(false, links[0])), fuel)
    ensures IsCharacterBin(links[0]) == Ok(false) && Unify(env.h, links[0]) in env.files ==>
      var ul := Unify(env.h, links[0]);
      var r := ScanBin(env, env.files[ul].full, ul, NoteAllBins(st, ul, Rec(true, links[0])), fuel);
      ScanLinks(env, links, u, st, fuel)
      == if r.err.Some? then r else ScanLinks(env, links[1..], u, AppendLink(r.st, u, ul), fuel)
  {
  }

  /*
   * What a scan keeps true of the state, whether it finishes or raises.
   */

  /** Each record's flag says whether its key is a source file. */
  predicate FlagsExact(env: Env, tree: map<EntryKey, Records>) {
    forall ek, k :: ek in tree && k in tree[ek] ==> (tree[ek][k].existed <==> k in env.files)
  }

  predicate Inv(env: Env, st: St) {
    AllBins in st.tree
    && st.tree.Keys <= st.prefix.Keys
    && LinksClosed(st.linked)
    && FlagsExact(env, st.tree)
  }

  /** `st'` has every `All_BINs` record and every link list `st` has. */
  predicate Grows(st: St, st': St) {
    AllBinsOf(st).Keys <= AllBinsOf(st').Keys && st.linked.Keys <= st'.linked.Keys
  }

  lemma ScanEntryFlags(env: Env, e: Entry)
    ensures forall k :: k in ScanEntry(env.h, env.files.Keys, e) ==>
      (ScanEntry(env.h, env.files.Keys, e)[k].existed <==> k in env.files)
  {
    forall k | k in ScanEntry(env.h, env.files.Keys, e)
      ensures ScanEntry(env.h, env.files.Keys, e)[k].existed <==> k in env.files
    {
      ScanEntryRecords(env.h, env.files.Keys, e, k);
    }
  }

  lemma {:induction false} ScanEntriesKeeps(env: Env, es: seq<Entry>, st: St)
    requires Inv(env, st)
    ensures Inv(env, ScanEntries(env, es, st))
    ensures Grows(st, ScanEntries(env, es, st))
    ensures ScanEntries(env, es, st).linked == st.linked
    ensures AllBinsOf(ScanEntries(env, es, st)) == AllBinsOf(st)
    decreases |es|
  {
    if es != [] {
      ScanEntryFlags(env, es[0]);
      ScanEntriesKeeps(env, es[1..], ScanOneEntry(env, es[0], st));
    }
  }

  lemma NoteKeeps(env: Env, st: St, k: string, link: string)
    requires Inv(env, st)
    ensures Inv(env, NoteAllBins(st, k, Rec(k in env.files, link)))
    ensures Grows(st, NoteAllBins(st, k, Rec(k in env.files, link)))
    ensures k in AllBinsOf(NoteAllBins(st, k, Rec(k in env.files, link)))
  {
  }

  lemma {:induction false} ScanBinKeeps(env: Env, full: string, u: string, st: St, fuel: nat)
    requires Inv(env, st)
    ensures Inv(env, ScanBin(env, full, u, st, fuel).st)
    ensures Grows(st, ScanBin(env, full, u, st, fuel).st)
    ensures ScanBin(env, full, u, st, fuel).err.None? ==> u in ScanBin(env, full, u, st, fuel).st.linked
    decreases fuel, 0, 0
  {
    if fuel > 0 {
      match ReadBin(env.disk, full)
      case None =>
      case Some(doc) =>
        var st1 := st.(linked := st.linked[u := []]);
        ScanLinksKeeps(env, doc.links, u, st1, fuel - 1);
        var r := ScanLinks(env, doc.links, u, st1, fuel - 1);
        if r.err.None? {
          ScanEntriesKeeps(env, doc.entries, r.st);
        }
    }
  }

  lemma {:induction false} ScanLinksKeeps(env: Env, links: seq<string>, u: string, st: St, fuel: nat)
    requires Inv(env, st)
    ensures Inv(env, ScanLinks(env, links, u, st, fuel).st)
    ensures Grows(st, ScanLinks(env, links, u, st, fuel).st)
    decreases fuel, |links|, 1
  {
    if links != [] {
      ScanLinkKeeps(env, links, u, st, fuel);
    }
  }

  lemma {:induction false} ScanLinkKeeps(env: Env, links: seq<string>, u: string, st: St, fuel: nat)
    requires Inv(env, st) && links != []
    ensures Inv(env, ScanLink(env, links, u, st, fuel).st)
    ensures Grows(st, ScanLink(env, links, u, st, fuel).st)
    decreases fuel, |links|, 0
  {
    var link := links[0];
    match IsCharacterBin(link)
    case Err(_) =>
    case Ok(true) => ScanLinksKeeps(env, links[1..], u, st, fuel);
    case Ok(false) =>
      var ul := Unify(env.h, link);
      NoteKeeps(env, st, ul, link);
      var st1 := NoteAllBins(st, ul, Rec(ul in env.files, link));
      if ul in env.files {
        ScanBinKeeps(env, env.files[ul].full, ul, st1, fuel);
        var r := ScanBin(env, env.files[ul].full, ul, st1, fuel);
        if r.err.None? {
          var st2 := AppendLink(r.st, u, ul);
          assert Inv(env, st2);
          ScanLinksKeeps(env, links[1..], u, st2, fuel);
        }
      } else {
        ScanLinksKeeps(env, links[1..], u, st1, fuel);
      }
  }

  /**
   * A scan, finished or not, leaves a consistent state: every record's flag
   * says whether its key is a source file, every scanned entry has a prefix,
   * and every BIN a link list names has a link list of its own. After a
   * scan that finishes, each selected BIN is recorded under `All_BINs` as an
   * existing file and has a link list.
   */
  lemma {:induction false} ScanSelectedKeeps(env: Env, order: seq<string>, flags: map<string, bool>, st: St, fuel: nat)
    requires Inv(env, st)
    ensures Inv(env, ScanSelected(env, order, flags, st, fuel).st)
    ensures Grows(st, ScanSelected(env, order, flags, st, fuel).st)
    ensures ScanSelected(env, order, flags, st, fuel).err.None? ==>
      forall u :: u in order && u in flags && flags[u] ==>
        u in AllBinsOf(ScanSelected(env, order, flags, st, fuel).st)
        && AllBinsOf(ScanSelected(env, order, flags, st, fuel).st)[u].existed
        && u in ScanSelected(env, order, flags, st, fuel).st.linked
    decreases |order|
  {
    if order != [] {
      var u := order[0];
      if u in flags && flags[u] {
        if u in env.files {
          var st1 := NoteAllBins(st, u, Rec(true, env.files[u].rel));
          NoteKeeps(env, st, u, env.files[u].rel);
          ScanBinKeeps(env, env.files[u].full, u, st1, fuel);
          var r := ScanBin(env, env.files[u].full, u, st1, fuel);
          if r.err.None? {
            ScanSelectedKeeps(env, order[1..], flags, r.st, fuel);
            var fin := ScanSelected(env, order[1..], flags, r.st, fuel).st;
            assert u in AllBinsOf(fin) && u in fin.linked;
            assert fin.tree[AllBins] == AllBinsOf(fin);
            forall v | v in order ensures v == u || v in order[1..] {
            }
          }
        }
      } else {
        ScanSelectedKeeps(env, order[1..], flags, st, fuel);
        forall v | v in order && v in flags && flags[v] ensures v in order[1..] {
        }
      }
    }
  }

  lemma ScanKeeps(env: Env, order: seq<string>, flags: map<string, bool>, st: St, fuel: nat)
    requires LinksClosed(st.linked)
    ensures Inv(env, Scan(env, order, flags, st, fuel).st)
    ensures Scan(env, order, flags, st, fuel).err.None? ==>
      forall u :: u in order && u in flags && flags[u] ==>
        u in AllBinsOf(Scan(env, order, flags, st, fuel).st)
        && AllBinsOf(Scan(env, order, flags, st, fuel).st)[u].existed
        && u in Scan(env, order, flags, st, fuel).st.linked
  {
    ScanSelectedKeeps(env, order, flags, ScanStart(st), fuel);
  }

  /**
   * The smallest cycle, exactly: two BINs whose only link is to each other
   * and that hold no entries (or one such BIN linking to itself) make
   * `scan_bin` recurse until the recursion limit, whatever that limit is.
   */
  lemma {:induction false} LinkCycleExhausts(env: Env, a: string, b: string, la: string, lb: string, st: St, fuel: nat)
    requires a in env.files && b in env.files
    requires ReadBin(env.disk, env.files[a].full) == Some(Document([la], []))
    requires ReadBin(env.disk, env.files[b].full) == Some(Document([lb], []))
    requires IsCharacterBin(la) == Ok(false) && Unify(env.h, la) == b
    requires IsCharacterBin(lb) == Ok(false) && Unify(env.h, lb) == a
    ensures ScanBin(env, env.files[a].full, a, st, fuel).err == Some(RecursionLimit)
    decreases fuel
  {
    if fuel > 0 {
      var st1 := st.(linked := st.linked[a := []]);
      var st2 := NoteAllBins(st1, b, Rec(true, la));
      var rb := ScanBin(env, env.files[b].full, b, st2, fuel - 1);
      if fuel > 1 {
        var st3 := st2.(linked := st2.linked[b := []]);
        var st4 := NoteAllBins(st3, a, Rec(true, lb));
        LinkCycleExhausts(env, a, b, la, lb, st4, fuel - 2);
        var ra := ScanBin(env, env.files[a].full, a, st4, fuel - 2);
        assert ScanLinks(env, [lb], b, st3, fuel - 2) == ra;
      }
      assert rb.err == Some(RecursionLimit);
      assert ScanLinks(env, [la], a, st1, fuel - 1) == rb;
    }
  }

  /**
   * A link loop that reaches a followed link whose `scan_bin` raises from
   * every state raises too: either at that link or at an earlier one.
   */
  lemma {:induction false} ScanLinksRaises(env: Env, links: seq<string>, u: string, st: St, fuel: nat, link: string)
    requires link in links && IsCharacterBin(link) == Ok(false) && Unify(env.h, link) in env.files
    requires forall st' :: ScanBin(env, env.files[Unify(env.h, link)].full, Unify(env.h, link), st', fuel).err.Some?
    ensures ScanLinks(env, links, u, st, fuel).err.Some?
    decreases |links|
  {
    var l := links[0];
    if l != link {
      assert link in links[1..];
      match IsCharacterBin(l)
      case Err(_) =>
      case Ok(true) => ScanLinksRaises(env, links[1..], u, st, fuel, link);
      case Ok(false) =>
        var ul := Unify(env.h, l);
        if ul in env.files {
          var r := ScanBin(env, env.files[ul].full, ul, NoteAllBins(st, ul, Rec(true, l)), fuel);
          if r.err.None? {
            ScanLinksRaises(env, links[1..], u, AppendLink(r.st, u, ul), fuel, link);
          }
        } else {
          ScanLinksRaises(env, links[1..], u, NoteAllBins(st, ul, Rec(false, l)), fuel, link);
        }
    } else {
      var ul := Unify(env.h, l);
      assert ScanBin(env, env.files[ul].full, ul, NoteAllBins(st, ul, Rec(true, l)), fuel).err.Some?;
    }
  }

  /**
   * `scan_bin` keeps no set of visited BINs, so two readable BINs whose
   * link lists name each other (or one whose list names itself) never let
   * a scan finish: from any state and with any recursion limit, scanning
   * either one raises, at the limit or at an earlier link that fails.
   */
  lemma {:induction false} LinkCycleNeverFinishes(env: Env, a: string, b: string, la: string, lb: string, fuel: nat)
    requires a in env.files && b in env.files
    requires ReadBin(env.disk, env.files[a].full).Some? && la in ReadBin(env.disk, env.files[a].full).value.links
    requires ReadBin(env.disk, env.files[b].full).Some? && lb in ReadBin(env.disk, env.files[b].full).value.links
    requires IsCharacterBin(la) == Ok(false) && Unify(env.h, la) == b
    requires IsCharacterBin(lb) == Ok(false) && Unify(env.h, lb) == a
    ensures forall st :: ScanBin(env, env.files[a].full, a, st, fuel).err.Some?
    decreases fuel
  {
    if fuel > 0 {
      LinkCycleNeverFinishes(env, b, a, lb, la, fuel - 1);
      var doc := ReadBin(env.disk, env.files[a].full).value;
      forall st ensures ScanBin(env, env.files[a].full, a, st, fuel).err.Some? {
        ScanLinksRaises(env, doc.links, a, st.(linked := st.linked[a := []]), fuel - 1, la);
      }
    }
  }
}
