/**
 * The source index of `_LocalBum`: `source_files` (canonical key to full and
 * relative path) and `source_bins` (key to "selected" flag, in insertion
 * order), as `add_source_dirs` fills them and as the caller marks BINs
 * selected. The directory walk itself is an input: the files it yields, in
 * walk order.
 */
module SourceIndex {
  import opened Wrappers
  import opened Text
  import opened Hashing
  import opened LinkClosure
  import opened ScanRun

  datatype Index = Index(files: map<string, SourceFile>, flags: map<string, bool>, order: seq<string>)

  /** `order` lists the keys of `flags` once each, as a Python dict's iteration does. */
  predicate OrderMatches(idx: Index) {
    Distinct(idx.order)
    && (forall u :: u in idx.order ==> u in idx.flags)
    && (forall u :: u in idx.flags ==> u in idx.order)
  }

  /** Python `flags[u] = b`: a new key goes to the end, an existing one keeps its place. */
  function SetFlag(idx: Index, u: string, b: bool): Index {
    idx.(flags := idx.flags[u := b], order := if u in idx.flags then idx.order else idx.order + [u])
  }

  /** The body of the walk loop of `add_source_dirs` for one file. */
  function AddFile(h: Hasher, idx: Index, f: SourceFile): Index {
    var u := Unify(h, f.rel);
    if u in idx.files then idx
    else
      var idx' := idx.(files := idx.files[u := f]);
      if EndsWith(Lower(f.rel), ".bin") then SetFlag(idx', u, false) else idx'
  }

  /** `add_source_dirs`: every walked file, in walk order. */
  function AddAll(h: Hasher, idx: Index, fs: seq<SourceFile>): Index
    decreases |fs|
  {
    if fs == [] then idx else AddFile(h, AddAll(h, idx, fs[..|fs| - 1]), fs[|fs| - 1])
  }

  /** The caller's `source_bins[u] = True`. */
  function Select(idx: Index, u: string): Index {
    SetFlag(idx, u, true)
  }

  /** Position `i` holds the first walked file whose relative path unifies to `u`. */
  predicate FirstFor(h: Hasher, fs: seq<SourceFile>, u: string, i: int) {
    0 <= i < |fs| && Unify(h, fs[i].rel) == u
    && forall j :: 0 <= j < i ==> Unify(h, fs[j].rel) != u
  }

  predicate Walked(h: Hasher, fs: seq<SourceFile>, u: string) {
    exists i :: 0 <= i < |fs| && Unify(h, fs[i].rel) == u
  }

  lemma SetFlagKeepsOrder(idx: Index, u: string, b: bool)
    requires OrderMatches(idx)
    ensures OrderMatches(SetFlag(idx, u, b))
  {
  }

  predicate Consistent(idx: Index) {
    OrderMatches(idx) && idx.flags.Keys <= idx.files.Keys
  }

  lemma {:induction false} AddAllConsistent(h: Hasher, idx: Index, fs: seq<SourceFile>)
    requires Consistent(idx)
    ensures Consistent(AddAll(h, idx, fs))
    decreases |fs|
  {
    if fs != [] {
      var f := fs[|fs| - 1];
      AddAllConsistent(h, idx, fs[..|fs| - 1]);
      var mid := AddAll(h, idx, fs[..|fs| - 1]);
      SetFlagKeepsOrder(mid.(files := mid.files[Unify(h, f.rel) := f]), Unify(h, f.rel), false);
    }
  }

  /** One walked file, seen from key `u`. */
  lemma AddFileAt(h: Hasher, idx: Index, f: SourceFile, u: string)
    requires Consistent(idx)
    ensures u in AddFile(h, idx, f).files <==> u in idx.files || Unify(h, f.rel) == u
    ensures u in idx.files || Unify(h, f.rel) != u ==>
      (u in idx.files ==> AddFile(h, idx, f).files[u] == idx.files[u])
      && (u in AddFile(h, idx, f).flags <==> u in idx.flags)
      && (u in idx.flags ==> AddFile(h, idx, f).flags[u] == idx.flags[u])
    ensures u !in idx.files && Unify(h, f.rel) == u ==>
      AddFile(h, idx, f).files[u] == f
      && (u in AddFile(h, idx, f).flags <==> EndsWith(Lower(f.rel), ".bin"))
      && (u in AddFile(h, idx, f).flags ==> !AddFile(h, idx, f).flags[u])
  {
  }

  lemma WalkedSnoc(h: Hasher, fs: seq<SourceFile>, u: string)
    requires fs != []
    ensures Walked(h, fs, u) <==> Walked(h, fs[..|fs| - 1], u) || Unify(h, fs[|fs| - 1].rel) == u
  {
    var pre := fs[..|fs| - 1];
    if Walked(h, fs, u) {
      var i :| 0 <= i < |fs| && Unify(h, fs[i].rel) == u;
      if i < |pre| {
        assert pre[i] == fs[i];
      }
    }
    if Walked(h, pre, u) {
      var i :| 0 <= i < |pre| && Unify(h, pre[i].rel) == u;
      assert fs[i] == pre[i];
    }
  }

  /** A key already indexed keeps its file and its flag. */
  lemma {:induction false} AddAllKeepsOld(h: Hasher, idx: Index, fs: seq<SourceFile>, u: string)
    requires Consistent(idx) && u in idx.files
    ensures u in AddAll(h, idx, fs).files && AddAll(h, idx, fs).files[u] == idx.files[u]
    ensures u in AddAll(h, idx, fs).flags <==> u in idx.flags
    ensures u in idx.flags ==> AddAll(h, idx, fs).flags[u] == idx.flags[u]
    decreases |fs|
  {
    if fs != [] {
      AddAllKeepsOld(h, idx, fs[..|fs| - 1], u);
      AddAllConsistent(h, idx, fs[..|fs| - 1]);
      AddFileAt(h, AddAll(h, idx, fs[..|fs| - 1]), fs[|fs| - 1], u);
    }
  }

  /** A key not indexed before is indexed exactly when some walked file unifies to it. */
  lemma {:induction false} AddAllIndexes(h: Hasher, idx: Index, fs: seq<SourceFile>, u: string)
    requires Consistent(idx)
    ensures u in AddAll(h, idx, fs).files <==> u in idx.files || Walked(h, fs, u)
    decreases |fs|
  {
    if fs != [] {
      AddAllIndexes(h, idx, fs[..|fs| - 1], u);
      AddAllConsistent(h, idx, fs[..|fs| - 1]);
      AddFileAt(h, AddAll(h, idx, fs[..|fs| - 1]), fs[|fs| - 1], u);
      WalkedSnoc(h, fs, u);
    }
  }

  /**
   * The first file wins: a key not indexed before gets the FIRST walked file
   * that unifies to it, and is a BIN key, with flag false, exactly when that
   * file's name ends in `.bin` in any letter case.
   */
  lemma {:induction false} AddAllFirstWins(h: Hasher, idx: Index, fs: seq<SourceFile>, u: string, i: int)
    requires Consistent(idx) && u !in idx.files
    requires FirstFor(h, fs, u, i)
    ensures u in AddAll(h, idx, fs).files && AddAll(h, idx, fs).files[u] == fs[i]
    ensures u in AddAll(h, idx, fs).flags <==> EndsWith(Lower(fs[i].rel), ".bin")
    ensures u in AddAll(h, idx, fs).flags ==> !AddAll(h, idx, fs).flags[u]
    decreases |fs|
  {
    var pre, f := fs[..|fs| - 1], fs[|fs| - 1];
    AddAllConsistent(h, idx, pre);
    var mid := AddAll(h, idx, pre);
    if i < |pre| {
      assert FirstFor(h, pre, u, i) by {
        forall j | 0 <= j < i ensures Unify(h, pre[j].rel) != u {
          assert pre[j] == fs[j];
        }
      }
      AddAllFirstWins(h, idx, pre, u, i);
      assert pre[i] == fs[i];
      AddFileAt(h, mid, f, u);
    } else {
      assert !Walked(h, pre, u) by {
        forall j | 0 <= j < |pre| ensures Unify(h, pre[j].rel) != u {
          assert pre[j] == fs[j];
        }
      }
      AddAllIndexes(h, idx, pre, u);
      AddFileAt(h, mid, f, u);
    }
  }

  /** Selecting a BIN marks it, and only it, keeping the index consistent. */
  lemma SelectSpec(idx: Index, u: string)
    requires OrderMatches(idx)
    ensures OrderMatches(Select(idx, u))
    ensures Select(idx, u).flags[u]
    ensures forall v :: v != u ==> (v in Select(idx, u).flags <==> v in idx.flags)
    ensures forall v :: v != u && v in idx.flags ==> Select(idx, u).flags[v] == idx.flags[v]
    ensures Select(idx, u).files == idx.files
  {
  }
}
