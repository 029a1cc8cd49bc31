/**
 * The two readers of the text hash tables (`hashes.game.txt` and the like):
 * `_load_wad_hashtables`, which strips each line and splits it at the first
 * space, and `_HashStorage.read_all_hashes`, which cuts each line at a fixed
 * width (16 characters for the archive tables, 8 for the BIN tables). The
 * files themselves are inputs: a file's text, or its lines, keyed by name.
 */
module HashTables {
  import opened Wrappers
  import opened Text

  /*
   * `_load_wad_hashtables`.
   */

  /** One line: `None` for a blank line, a comment, or a line without a non-blank key and value. */
  function ParseWadLine(line: string): Option<(string, string)> {
    var l := Strip(line);
    if l == [] || StartsWith(l, "#") then None
    else
      match IndexOf(l, " ")
      case None => None
      case Some(i) =>
        var key := Strip(l[..i]);
        var val := Strip(l[i + 1..]);
        if key != [] && val != [] then Some((key, val)) else None
  }

  /** The lines of one file, each as `ParseWadLine` reads it. */
  function ParsedWad(lines: seq<string>): (r: seq<Option<(string, string)>>)
    ensures |r| == |lines| && forall i :: 0 <= i < |lines| ==> r[i] == ParseWadLine(lines[i])
  {
    seq(|lines|, i requires 0 <= i < |lines| => ParseWadLine(lines[i]))
  }

  /** A line loop of either reader: each parsed line stored in turn, so a later one overwrites an earlier one with the same key. */
  function StoreAll(os: seq<Option<(string, string)>>, table: map<string, string>): map<string, string>
    decreases |os|
  {
    if os == [] then table
    else
      match os[0]
      case None => StoreAll(os[1..], table)
      case Some((k, v)) => StoreAll(os[1..], table[k := v])
  }

  /** Storing from position `i` on: the line there, then the rest. */
  lemma StoreStep(os: seq<Option<(string, string)>>, i: int, table: map<string, string>)
    requires 0 <= i < |os|
    ensures StoreAll(os[i..], table)
         == StoreAll(os[i + 1..], if os[i].Some? then table[os[i].value.0 := os[i].value.1] else table)
  {
    assert os[i..][1..] == os[i + 1..];
  }

  /** The table one archive hash file gives `_load_wad_hashtables`. */
  function LoadTable(lines: seq<string>): map<string, string> {
    StoreAll(ParsedWad(lines), map[])
  }

  predicate NoSpace(s: string) {
    forall i :: 0 <= i < |s| ==> !IsSpace(s[i])
  }

  /** A string without surrounding whitespace is what `strip` leaves it. */
  lemma StripKeeps(s: string)
    requires s == [] || (!IsSpace(s[0]) && !IsSpace(s[|s| - 1]))
    ensures Strip(s) == s
  {
  }

  /**
   * A line written as key, one space, value is read back as that pair,
   * provided the key is a whitespace-free non-comment and the value is
   * non-empty without surrounding whitespace.
   */
  lemma WadLineRoundTrip(k: string, v: string)
    requires k != [] && NoSpace(k) && k[0] != '#'
    requires v != [] && !IsSpace(v[0]) && !IsSpace(v[|v| - 1])
    ensures ParseWadLine(k + " " + v) == Some((k, v))
  {
    var l := k + " " + v;
    StripKeeps(l);
    assert l[0] == k[0];
    FirstCharIndex(l, ' ', |k|);
    assert l[..|k|] == k;
    assert l[|k| + 1..] == v;
    StripKeeps(k);
    StripKeeps(v);
  }

  /** The line at `i` is the last one that stores key `k`. */
  predicate LastFor(os: seq<Option<(string, string)>>, k: string, i: int) {
    0 <= i < |os| && os[i].Some? && os[i].value.0 == k
    && forall j :: i < j < |os| && os[j].Some? ==> os[j].value.0 != k
  }

  /** Some line stores key `k`. */
  predicate Stores(os: seq<Option<(string, string)>>, k: string) {
    exists i :: 0 <= i < |os| && os[i].Some? && os[i].value.0 == k
  }

  /**
   * The table holds exactly the keys some line stores (besides those it
   * started with), each with the value of the last line that stores it.
   */
  lemma {:induction false} StoreAllSpec(os: seq<Option<(string, string)>>, table: map<string, string>)
    ensures forall k :: k in StoreAll(os, table) <==> k in table || Stores(os, k)
    ensures forall k, i :: LastFor(os, k, i) ==> k in StoreAll(os, table) && StoreAll(os, table)[k] == os[i].value.1
    ensures forall k :: k in table && !Stores(os, k) ==> StoreAll(os, table)[k] == table[k]
    decreases |os|
  {
    if os != [] {
      var t1 := match os[0] case None => table case Some((k, v)) => table[k := v];
      StoreAllSpec(os[1..], t1);
      var r := StoreAll(os, table);
      assert r == StoreAll(os[1..], t1);
      forall k
        ensures k in r <==> k in table || Stores(os, k)
        ensures k in table && !Stores(os, k) ==> r[k] == table[k]
      {
        if Stores(os[1..], k) {
          var i :| 0 <= i < |os[1..]| && os[1..][i].Some? && os[1..][i].value.0 == k;
          assert os[1..][i] == os[i + 1];
        }
        if Stores(os, k) {
          var i :| 0 <= i < |os| && os[i].Some? && os[i].value.0 == k;
          if i > 0 {
            assert os[1..][i - 1] == os[i];
          }
        }
      }
      forall k, i | LastFor(os, k, i)
        ensures k in r && r[k] == os[i].value.1
      {
        assert Stores(os, k);
        if i > 0 {
          assert LastFor(os[1..], k, i - 1) by {
            forall j | i - 1 < j < |os[1..]| && os[1..][j].Some?
              ensures os[1..][j].value.0 != k
            {
              assert os[1..][j] == os[j + 1];
            }
          }
        } else {
          assert !Stores(os[1..], k) by {
            forall j | 0 <= j < |os[1..]| && os[1..][j].Some?
              ensures os[1..][j].value.0 != k
            {
              assert os[1..][j] == os[j + 1];
            }
          }
        }
      }
    }
  }

  /** `_load_wad_hashtables` on one file: its keys are those of the parsed lines, each with its last value. */
  lemma LoadTableSpec(lines: seq<string>)
    ensures forall k :: k in LoadTable(lines) <==> Stores(ParsedWad(lines), k)
    ensures forall k, i :: LastFor(ParsedWad(lines), k, i) ==> k in LoadTable(lines) && LoadTable(lines)[k] == ParseWadLine(lines[i]).value.1
  {
    StoreAllSpec(ParsedWad(lines), map[]);
  }

  /** The line loop for one file of `_load_wad_hashtables`. */
  method LoadWadTable(lines: seq<string>) returns (table: map<string, string>)
    ensures table == LoadTable(lines)
  {
    table := map[];
    var i := 0;
    ghost var os := ParsedWad(lines);
    assert os[0..] == os;
    while i < |lines|
      invariant 0 <= i <= |lines|
      invariant LoadTable(lines) == StoreAll(os[i..], table)
    {
      assert os[i..][1..] == os[i + 1..];
      match ParseWadLine(lines[i]) {
        case None =>
        case Some((k, v)) =>
          table := table[k := v];
      }
      i := i + 1;
    }
  }

  const WadNames: seq<string> := ["hashes.game.txt", "hashes.lcu.txt"]

  /**
   * `_load_wad_hashtables`: a table per archive hash file, empty for a file
   * that is not there. `files` holds the lines of each file present.
   */
  method LoadWadHashtables(files: map<string, seq<string>>) returns (tables: map<string, map<string, string>>)
    ensures tables.Keys == set n | n in WadNames
    ensures forall n :: n in WadNames ==> tables[n] == if n in files then LoadTable(files[n]) else map[]
  {
    tables := map["hashes.game.txt" := map[], "hashes.lcu.txt" := map[]];
    var i := 0;
    while i < |WadNames|
      invariant 0 <= i <= |WadNames|
      invariant tables.Keys == set n | n in WadNames
      invariant forall j :: 0 <= j < i ==> tables[WadNames[j]] == if WadNames[j] in files then LoadTable(files[WadNames[j]]) else map[]
      invariant forall j :: i <= j < |WadNames| ==> tables[WadNames[j]] == map[]
    {
      var n := WadNames[i];
      if n in files {
        var t := LoadWadTable(files[n]);
        tables := tables[n := t];
      }
      i := i + 1;
    }
  }

  /*
   * `_HashStorage.read_all_hashes`.
   */

  /** Python's `for line in f`: each line with its `\n`, the last one possibly without. */
  function Lines(text: string): seq<string>
    decreases |text|
  {
    if text == [] then []
    else
      match IndexOf(text, "\n")
      case None => [text]
      case Some(i) => [text[..i + 1]] + Lines(text[i + 1..])
  }

  predicate NoNewline(s: string) {
    forall i :: 0 <= i < |s| ==> s[i] != '\n'
  }

  /** A line ended by its only `\n` splits off as the first line. */
  lemma LinesCons(line: string, rest: string)
    requires |line| >= 1 && line[|line| - 1] == '\n' && NoNewline(line[..|line| - 1])
    ensures Lines(line + rest) == [line] + Lines(rest)
  {
    var t := line + rest;
    FirstCharIndex(t, '\n', |line| - 1);
    assert t[..|line|] == line;
    assert t[|line|..] == rest;
  }

  /** Text without a `\n` is a single line. */
  lemma LinesLast(line: string)
    requires line != [] && NoNewline(line)
    ensures Lines(line) == [line]
  {
    NoCharNoIndex(line, '\n');
  }

  /** One line as the code reads it: the first `sep` characters, then from `sep + 1` up to but not including the last character. */
  function HashLineAsWritten(line: string, sep: nat): Option<(string, string)> {
    if |line| <= sep then None
    else Some((line[..sep], if sep + 1 <= |line| - 1 then line[sep + 1..|line| - 1] else []))
  }

  /** One line as intended: the same key, and the value with only a trailing `\n` removed. */
  function HashLine(line: string, sep: nat): Option<(string, string)> {
    if |line| <= sep then None
    else
      var body := if line[|line| - 1] == '\n' then line[..|line| - 1] else line;
      Some((line[..sep], if sep + 1 <= |body| then body[sep + 1..] else []))
  }

  /** The lines of a file as the code reads them. */
  function HashLinesAsWritten(lines: seq<string>, sep: nat): (r: seq<Option<(string, string)>>)
    ensures |r| == |lines| && forall i :: 0 <= i < |lines| ==> r[i] == HashLineAsWritten(lines[i], sep)
  {
    seq(|lines|, i requires 0 <= i < |lines| => HashLineAsWritten(lines[i], sep))
  }

  /** The lines of a file as intended. */
  function HashLines(lines: seq<string>, sep: nat): (r: seq<Option<(string, string)>>)
    ensures |r| == |lines| && forall i :: 0 <= i < |lines| ==> r[i] == HashLine(lines[i], sep)
  {
    seq(|lines|, i requires 0 <= i < |lines| => HashLine(lines[i], sep))
  }

  /** The table one file gives `read_all_hashes` as written. */
  function ReadTableAsWritten(text: string, sep: nat): map<string, string> {
    StoreAll(HashLinesAsWritten(Lines(text), sep), map[])
  }

  /** The table one file gives `read_all_hashes` with the intended value. */
  function ReadTable(text: string, sep: nat): map<string, string> {
    StoreAll(HashLines(Lines(text), sep), map[])
  }

  /** A table file line: key, one separator character, value, newline. */
  function Line(p: (string, string)): string {
    p.0 + " " + p.1 + "\n"
  }

  /** A table file in which every line, the last one included, ends with `\n`. */
  function Render(ps: seq<(string, string)>): string
    decreases |ps|
  {
    if ps == [] then [] else Line(ps[0]) + Render(ps[1..])
  }

  /** A table file whose last line has no `\n`. */
  function RenderOpen(ps: seq<(string, string)>): string
    requires |ps| >= 1
    decreases |ps|
  {
    if |ps| == 1 then ps[0].0 + " " + ps[0].1 else Line(ps[0]) + RenderOpen(ps[1..])
  }

  /** What storing the pairs in turn leaves in a table, the last of equal keys winning. */
  function Table(ps: seq<(string, string)>, table: map<string, string>): map<string, string>
    decreases |ps|
  {
    if ps == [] then table else Table(ps[1..], table[ps[0].0 := ps[0].1])
  }

  /** A pair that can be written as a line of a table with key width `sep`. */
  predicate Writable(p: (string, string), sep: nat) {
    |p.0| == sep && NoNewline(p.0) && NoNewline(p.1)
  }

  lemma LineShape(p: (string, string), sep: nat)
    requires Writable(p, sep)
    ensures |Line(p)| >= 1 && Line(p)[|Line(p)| - 1] == '\n' && NoNewline(Line(p)[..|Line(p)| - 1])
    ensures HashLine(Line(p), sep) == Some(p) && HashLineAsWritten(Line(p), sep) == Some(p)
  {
    var l := Line(p);
    assert l[..|l| - 1] == p.0 + " " + p.1;
    assert l[..sep] == p.0;
    assert l[sep + 1..|l| - 1] == p.1;
  }

  /** A table file whose lines all end with `\n` reads back, as written and as intended, to its pairs. */
  lemma {:induction false} ReadBackLines(ps: seq<(string, string)>, sep: nat, table: map<string, string>)
    requires forall i :: 0 <= i < |ps| ==> Writable(ps[i], sep)
    ensures StoreAll(HashLines(Lines(Render(ps)), sep), table) == Table(ps, table)
    ensures StoreAll(HashLinesAsWritten(Lines(Render(ps)), sep), table) == Table(ps, table)
    decreases |ps|
  {
    if ps != [] {
      LineShape(ps[0], sep);
      LinesCons(Line(ps[0]), Render(ps[1..]));
      var ls := Lines(Render(ps));
      assert ls[0] == Line(ps[0]) && ls[1..] == Lines(Render(ps[1..]));
      assert HashLines(ls, sep)[1..] == HashLines(ls[1..], sep);
      assert HashLinesAsWritten(ls, sep)[1..] == HashLinesAsWritten(ls[1..], sep);
      ReadBackLines(ps[1..], sep, table[ps[0].0 := ps[0].1]);
    }
  }

  /** A last line without `\n` is read as intended. */
  lemma OpenLine(p: (string, string), sep: nat)
    requires Writable(p, sep)
    ensures Lines(p.0 + " " + p.1) == [p.0 + " " + p.1]
    ensures HashLine(p.0 + " " + p.1, sep) == Some(p)
  {
    var l := p.0 + " " + p.1;
    assert NoNewline(l);
    LinesLast(l);
    assert l[..sep] == p.0 && l[sep + 1..] == p.1;
  }

  /** A table file whose last line lacks its `\n` reads back to its pairs when read as intended. */
  lemma {:induction false} ReadBackOpenLines(ps: seq<(string, string)>, sep: nat, table: map<string, string>)
    requires |ps| >= 1 && forall i :: 0 <= i < |ps| ==> Writable(ps[i], sep)
    ensures StoreAll(HashLines(Lines(RenderOpen(ps)), sep), table) == Table(ps, table)
    decreases |ps|
  {
    var p := ps[0];
    if |ps| == 1 {
      OpenLine(p, sep);
      var c := HashLines(Lines(RenderOpen(ps)), sep);
      assert c == [Some(p)];
      assert c[1..] == [];
      assert ps[1..] == [];
    } else {
      LineShape(p, sep);
      LinesCons(Line(p), RenderOpen(ps[1..]));
      var ls := Lines(RenderOpen(ps));
      assert ls[0] == Line(p) && ls[1..] == Lines(RenderOpen(ps[1..]));
      assert HashLines(ls, sep)[1..] == HashLines(ls[1..], sep);
      ReadBackOpenLines(ps[1..], sep, table[p.0 := p.1]);
    }
  }

  /** A value with its last character dropped, as the slice `[...:-1]` leaves it; empty stays empty. */
  function DropLast(v: string): string {
    if v == [] then [] else v[..|v| - 1]
  }

  /** The last of the pairs written wins its key. */
  lemma {:induction false} TableLast(ps: seq<(string, string)>, table: map<string, string>)
    requires |ps| >= 1
    ensures Table(ps, table) == Table(ps[..|ps| - 1], table)[ps[|ps| - 1].0 := ps[|ps| - 1].1]
    decreases |ps|
  {
    if |ps| > 1 {
      TableLast(ps[1..], table[ps[0].0 := ps[0].1]);
      assert ps[1..][..|ps| - 2] == ps[..|ps| - 1][1..];
    }
  }

  /**
   * Read as written, a file whose last line lacks its `\n` gives every pair
   * but the last as written, and the last with its value cut by one
   * character.
   */
  lemma {:induction false} ReadOpenAsWritten(ps: seq<(string, string)>, sep: nat, table: map<string, string>)
    requires |ps| >= 1 && forall i :: 0 <= i < |ps| ==> Writable(ps[i], sep)
    ensures StoreAll(HashLinesAsWritten(Lines(RenderOpen(ps)), sep), table)
         == Table(ps[..|ps| - 1], table)[ps[|ps| - 1].0 := DropLast(ps[|ps| - 1].1)]
    decreases |ps|
  {
    var p := ps[0];
    if |ps| == 1 {
      assert ps == [p] && ps[..0] == [];
      OpenLineAsWritten(p, sep, table);
    } else {
      ReadOpenAsWritten(ps[1..], sep, table[p.0 := p.1]);
      ReadOpenStep(ps, sep, table);
    }
  }

  /** A closed first line stored, then the rest read as written. */
  lemma ReadOpenStep(ps: seq<(string, string)>, sep: nat, table: map<string, string>)
    requires |ps| >= 2 && forall i :: 0 <= i < |ps| ==> Writable(ps[i], sep)
    requires var t1 := table[ps[0].0 := ps[0].1];
      StoreAll(HashLinesAsWritten(Lines(RenderOpen(ps[1..])), sep), t1)
      == Table(ps[1..][..|ps| - 2], t1)[ps[|ps| - 1].0 := DropLast(ps[|ps| - 1].1)]
    ensures StoreAll(HashLinesAsWritten(Lines(RenderOpen(ps)), sep), table)
         == Table(ps[..|ps| - 1], table)[ps[|ps| - 1].0 := DropLast(ps[|ps| - 1].1)]
  {
    var p := ps[0];
    LineShape(p, sep);
    assert RenderOpen(ps) == Line(p) + RenderOpen(ps[1..]);
    LinesCons(Line(p), RenderOpen(ps[1..]));
    var ls := Lines(RenderOpen(ps));
    assert ls[0] == Line(p) && ls[1..] == Lines(RenderOpen(ps[1..]));
    var w := HashLinesAsWritten(ls, sep);
    assert w[1..] == HashLinesAsWritten(ls[1..], sep);
    var t1 := table[p.0 := p.1];
    assert w[0] == Some(p);
    assert StoreAll(w, table) == StoreAll(w[1..], t1);
    var init := ps[..|ps| - 1];
    assert init[0] == p && init[1..] == ps[1..][..|ps| - 2];
    assert Table(init, table) == Table(init[1..], t1);
  }

  /** Read as written, a last line without `\n` keeps its key and loses the last character of its value. */
  lemma OpenLineAsWritten(p: (string, string), sep: nat, table: map<string, string>)
    requires Writable(p, sep)
    ensures StoreAll(HashLinesAsWritten(Lines(RenderOpen([p])), sep), table) == table[p.0 := DropLast(p.1)]
  {
    assert RenderOpen([p]) == p.0 + " " + p.1;
    var l := p.0 + " " + p.1;
    assert NoNewline(l);
    LinesLast(l);
    assert l[..sep] == p.0;
    if p.1 != [] {
      assert l[sep + 1..|l| - 1] == p.1[..|p.1| - 1];
    }
    var w := HashLinesAsWritten(Lines(l), sep);
    assert w == [Some((p.0, DropLast(p.1)))] && w[1..] == [];
  }

  /**
   * The intended reader gives back the pairs a table file was written from,
   * whether or not its last line ends with `\n`. The reader as written does
   * so for a file whose last line ends with `\n`; on a file whose last line
   * lacks it, it does so exactly when that line's value is empty.
   */
  lemma ReadBack(ps: seq<(string, string)>, sep: nat)
    requires forall i :: 0 <= i < |ps| ==> Writable(ps[i], sep)
    ensures ReadTable(Render(ps), sep) == Table(ps, map[])
    ensures ReadTableAsWritten(Render(ps), sep) == Table(ps, map[])
    ensures |ps| >= 1 ==> ReadTable(RenderOpen(ps), sep) == Table(ps, map[])
    ensures |ps| >= 1 ==> (ReadTableAsWritten(RenderOpen(ps), sep) == Table(ps, map[]) <==> ps[|ps| - 1].1 == [])
  {
    ReadBackLines(ps, sep, map[]);
    if |ps| >= 1 {
      ReadBackOpenLines(ps, sep, map[]);
      ReadOpenAsWritten(ps, sep, map[]);
      TableLast(ps, map[]);
      var last := ps[|ps| - 1];
      var w := ReadTableAsWritten(RenderOpen(ps), sep);
      var t := Table(ps, map[]);
      if last.1 != [] {
        assert w[last.0] == DropLast(last.1) != last.1 == t[last.0];
      }
    }
  }

  /** The key of a single archive hash line written without a final newline; read as written, that line loses its last character. */
  const OpenKey: string := "0123456789abcdef"

  /** Read as written, the value of a last line without `\n` loses its last character. */
  lemma OpenLineLosesLastChar()
    ensures ReadTableAsWritten(RenderOpen([(OpenKey, "ab")]), 16) == map[OpenKey := "a"]
    ensures ReadTable(RenderOpen([(OpenKey, "ab")]), 16) == map[OpenKey := "ab"]
  {
    var l := OpenKey + " ab";
    assert RenderOpen([(OpenKey, "ab")]) == l;
    assert NoNewline(l);
    LinesLast(l);
    assert Lines(l) == [l];
    assert l[..16] == OpenKey;
    assert l[17..|l| - 1] == "a";
    assert l[17..] == "ab";
    assert l[|l| - 1] != '\n';
    assert HashLineAsWritten(l, 16) == Some((OpenKey, "a"));
    assert HashLine(l, 16) == Some((OpenKey, "ab"));
    var w := HashLinesAsWritten([l], 16);
    assert w == [Some((OpenKey, "a"))];
    assert w[1..] == [];
    assert StoreAll(w, map[]) == map[OpenKey := "a"];
    var c := HashLines([l], 16);
    assert c == [Some((OpenKey, "ab"))];
    assert c[1..] == [];
    assert StoreAll(c, map[]) == map[OpenKey := "ab"];
  }

  const BinNames: seq<string> := ["hashes.binentries.txt", "hashes.binhashes.txt", "hashes.bintypes.txt", "hashes.binfields.txt"]
  const AllNames: seq<string> := BinNames + WadNames

  /** The key width of a table file: 16 for an archive table, 8 for a BIN table. */
  function Width(name: string): nat {
    if name in WadNames then 16 else 8
  }

  /** One table file read line by line, with the intended value. */
  method ReadHashFile(text: string, sep: nat) returns (table: map<string, string>)
    ensures table == ReadTable(text, sep)
  {
    var lines := Lines(text);
    table := map[];
    var i := 0;
    ghost var os := HashLines(lines, sep);
    assert os[0..] == os;
    while i < |lines|
      invariant 0 <= i <= |lines|
      invariant ReadTable(text, sep) == StoreAll(os[i..], table)
    {
      StoreStep(os, i, table);
      var line := lines[i];
      if |line| > sep {
        var body := if line[|line| - 1] == '\n' then line[..|line| - 1] else line;
        table := table[line[..sep] := if sep + 1 <= |body| then body[sep + 1..] else []];
      }
      i := i + 1;
    }
  }

  /** `read_all_hashes`: a table per name, empty for a file that is not there. `files` holds each file's text. */
  method ReadAllHashes(files: map<string, string>) returns (tables: map<string, map<string, string>>)
    ensures tables.Keys == set n | n in AllNames
    ensures forall n :: n in AllNames ==> tables[n] == if n in files then ReadTable(files[n], Width(n)) else map[]
  {
    tables := map[];
    var i := 0;
    while i < |AllNames|
      invariant 0 <= i <= |AllNames|
      invariant tables.Keys == set j | 0 <= j < i :: AllNames[j]
      invariant forall j :: 0 <= j < i ==> tables[AllNames[j]] == if AllNames[j] in files then ReadTable(files[AllNames[j]], Width(AllNames[j])) else map[]
    {
      var n := AllNames[i];
      var t: map<string, string> := map[];
      if n in files {
        t := ReadHashFile(files[n], Width(n));
      }
      tables := tables[n := t];
      i := i + 1;
    }
  }
}
