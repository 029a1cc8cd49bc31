/**
 * The handful of Python `str` operations the repathing code relies on, over
 * Dafny strings (`seq<char>`). Case mapping is ASCII only: `Lower` folds
 * 'A'..'Z' and leaves every other character alone.
 */
module Text {
  import opened Wrappers

  predicate IsUpper(c: char) { 'A' <= c <= 'Z' }

  function LowerChar(c: char): char {
    if IsUpper(c) then (c as int + 32) as char else c
  }

  function UpperChar(c: char): char {
    if 'a' <= c <= 'z' then (c as int - 32) as char else c
  }

  /** Python `s.lower()` restricted to ASCII letters. */
  function Lower(s: string): (r: string)
    ensures |r| == |s|
    ensures forall i :: 0 <= i < |s| ==> r[i] == LowerChar(s[i])
  {
    seq(|s|, i requires 0 <= i < |s| => LowerChar(s[i]))
  }

  /** Python `s.upper()` restricted to ASCII letters. */
  function Upper(s: string): (r: string)
    ensures |r| == |s|
    ensures forall i :: 0 <= i < |s| ==> r[i] == UpperChar(s[i])
  {
    seq(|s|, i requires 0 <= i < |s| => UpperChar(s[i]))
  }

  /** Python `s.replace(a, b)` for single characters `a` and `b`. */
  function ReplaceChar(s: string, a: char, b: char): (r: string)
    ensures |r| == |s|
    ensures forall i :: 0 <= i < |s| ==> r[i] == (if s[i] == a then b else s[i])
  {
    seq(|s|, i requires 0 <= i < |s| => if s[i] == a then b else s[i])
  }

  predicate StartsWith(s: string, t: string) {
    |t| <= |s| && s[..|t|] == t
  }

  predicate EndsWith(s: string, t: string) {
    |t| <= |s| && s[|s| - |t|..] == t
  }

  /** True when `t` occurs in `s` at position `i`. */
  predicate OccursAt(s: string, t: string, i: int) {
    0 <= i && i + |t| <= |s| && s[i..i + |t|] == t
  }

  /** The first position at or after `from` where `t` occurs in `s`. */
  function IndexFrom(s: string, t: string, from: nat): (r: Option<nat>)
    requires from <= |s|
    ensures r.Some? ==> from <= r.value && OccursAt(s, t, r.value)
    ensures r.Some? ==> forall j :: from <= j < r.value ==> !OccursAt(s, t, j)
    ensures r.None? ==> forall j :: from <= j ==> !OccursAt(s, t, j)
    decreases |s| - from
  {
    if from + |t| > |s| then None
    else if s[from..from + |t|] == t then Some(from)
    else if from == |s| then None
    else IndexFrom(s, t, from + 1)
  }

  /** Python `s.find(t)`, as an Option: the first occurrence of `t` in `s`. */
  function IndexOf(s: string, t: string): (r: Option<nat>)
    ensures r.Some? ==> OccursAt(s, t, r.value)
    ensures r.Some? ==> forall j :: 0 <= j < r.value ==> !OccursAt(s, t, j)
    ensures r.None? ==> forall j :: !OccursAt(s, t, j)
  {
    IndexFrom(s, t, 0)
  }

  /** Python `t in s`. */
  predicate Contains(s: string, t: string) {
    IndexOf(s, t).Some?
  }

  lemma ContainsAt(s: string, t: string, i: int)
    requires OccursAt(s, t, i)
    ensures Contains(s, t)
  {
  }

  /** An occurrence starts with the first character of what occurs. */
  lemma OccursHead(s: string, t: string, j: int)
    requires t != []
    ensures OccursAt(s, t, j) ==> j < |s| && s[j] == t[0]
  {
    if OccursAt(s, t, j) {
      calc {
        s[j];
        s[j..j + |t|][0];
        t[0];
      }
    }
  }

  /** Where a one-character string occurs, that character is found. */
  lemma FirstCharAt(s: string, c: char)
    requires Contains(s, [c])
    ensures IndexOf(s, [c]).value < |s| && s[IndexOf(s, [c]).value] == c
  {
    var j := IndexOf(s, [c]).value;
    assert s[j..j + 1][0] == s[j];
  }

  /** The first occurrence of a character is where it appears with none before it. */
  lemma FirstCharIndex(s: string, c: char, i: int)
    requires 0 <= i < |s| && s[i] == c
    requires forall j :: 0 <= j < i ==> s[j] != c
    ensures IndexOf(s, [c]) == Some(i)
  {
    assert OccursAt(s, [c], i);
    match IndexOf(s, [c])
    case None =>
    case Some(k) =>
      FirstCharAt(s, c);
  }

  /** A string without the character `c` does not contain `[c]`. */
  lemma NoCharNoIndex(s: string, c: char)
    requires forall j :: 0 <= j < |s| ==> s[j] != c
    ensures IndexOf(s, [c]) == None
  {
    if IndexOf(s, [c]).Some? {
      FirstCharAt(s, c);
    }
  }

  /** What `IndexOf` says about the characters before a found character. */
  lemma IndexOfChar(s: string, c: char)
    requires IndexOf(s, [c]).Some?
    ensures IndexOf(s, [c]).value < |s| && s[IndexOf(s, [c]).value] == c
    ensures forall j :: 0 <= j < IndexOf(s, [c]).value ==> s[j] != c
  {
    FirstCharAt(s, c);
    var i := IndexOf(s, [c]).value;
    forall j | 0 <= j < i ensures s[j] != c {
      assert !OccursAt(s, [c], j);
      assert s[j..j + 1] == [s[j]];
    }
  }

  /** Python `s.split(sep)` for a non-empty separator. */
  function SplitOn(s: string, sep: string): (r: seq<string>)
    requires sep != []
    ensures |r| >= 1
    decreases |s|
  {
    match IndexOf(s, sep)
    case None => [s]
    case Some(i) => [s[..i]] + SplitOn(s[i + |sep|..], sep)
  }

  /** Python `sep.join(parts)` for a non-empty list of parts. */
  function JoinWith(parts: seq<string>, sep: string): string
    requires |parts| >= 1
    decreases |parts|
  {
    if |parts| == 1 then parts[0] else parts[0] + sep + JoinWith(parts[1..], sep)
  }

  /** Splitting and joining again on the same separator gives back the string. */
  lemma {:induction false} JoinSplit(s: string, sep: string)
    requires sep != []
    ensures JoinWith(SplitOn(s, sep), sep) == s
    decreases |s|
  {
    match IndexOf(s, sep)
    case None =>
    case Some(i) =>
      JoinSplit(s[i + |sep|..], sep);
      assert SplitOn(s, sep)[1..] == SplitOn(s[i + |sep|..], sep);
      assert s == s[..i] + sep + s[i + |sep|..];
  }

  /** A separator-free head splits off as the first part. */
  lemma SplitAfterHead(a: string, c: char, b: string)
    requires forall j :: 0 <= j < |a| ==> a[j] != c
    ensures SplitOn(a + [c] + b, [c]) == [a] + SplitOn(b, [c])
  {
    var t := a + [c] + b;
    FirstCharIndex(t, c, |a|);
    assert t[..|a|] == a;
    assert t[|a| + 1..] == b;
  }

  /** A string holding the separator splits into at least two parts. */
  lemma SplitTwoParts(s: string, sep: string)
    requires sep != [] && Contains(s, sep)
    ensures |SplitOn(s, sep)| >= 2
  {
  }

  /** Python `s.replace(pat, rep)` for a non-empty pattern: every occurrence, left to right. */
  function ReplaceAll(s: string, pat: string, rep: string): (r: string)
    requires pat != []
    decreases |s|
  {
    match IndexOf(s, pat)
    case None => s
    case Some(i) => s[..i] + rep + ReplaceAll(s[i + |pat|..], pat, rep)
  }

  /** The characters Python's `str.isspace()` accepts. */
  predicate IsSpace(c: char) {
    c == ' ' || ('\t' <= c <= '\r') || ('\U{1c}' <= c <= '\U{1f}') || c == '\U{85}' || c == '\U{a0}'
    || c == '\U{1680}' || ('\U{2000}' <= c <= '\U{200a}') || c == '\U{2028}' || c == '\U{2029}'
    || c == '\U{202f}' || c == '\U{205f}' || c == '\U{3000}'
  }

  function StripLeft(s: string): (r: string)
    ensures |r| <= |s| && r == s[|s| - |r|..]
    ensures r != [] ==> !IsSpace(r[0])
    ensures forall i :: 0 <= i < |s| - |r| ==> IsSpace(s[i])
  {
    if s != [] && IsSpace(s[0]) then StripLeft(s[1..]) else s
  }

  function StripRight(s: string): (r: string)
    ensures |r| <= |s| && r == s[..|r|]
    ensures r != [] ==> !IsSpace(r[|r| - 1])
    ensures forall i :: |r| <= i < |s| ==> IsSpace(s[i])
  {
    if s != [] && IsSpace(s[|s| - 1]) then StripRight(s[..|s| - 1]) else s
  }

  /** Python `s.strip()`: whitespace removed from both ends. */
  function Strip(s: string): string {
    StripRight(StripLeft(s))
  }

  /** Where the last path segment of `s` starts: just after its last `/`, or 0. */
  function SegmentStart(s: string): (j: nat)
    ensures j <= |s| && (j == 0 || s[j - 1] == '/')
    ensures forall k :: j <= k < |s| ==> s[k] != '/'
  {
    if s == [] then 0
    else if s[|s| - 1] == '/' then |s|
    else SegmentStart(s[..|s| - 1])
  }

  /** Only one position is just after the last `/`. */
  lemma SegmentStartUnique(s: string, j: nat)
    requires j <= |s| && (j == 0 || s[j - 1] == '/')
    requires forall k :: j <= k < |s| ==> s[k] != '/'
    ensures j == SegmentStart(s)
  {
    var j0 := SegmentStart(s);
    if j0 > 0 {
      assert s[j0 - 1] == '/';
    }
    if j > 0 {
      assert s[j - 1] == '/';
    }
  }

  /** Past any `/`, the last segment starts where it starts in the part after that `/`. */
  lemma SegmentStartAfter(file: string, i: nat)
    requires i < |file| && file[i] == '/'
    ensures SegmentStart(file) == i + 1 + SegmentStart(file[i + 1..])
  {
    var rest := file[i + 1..];
    var j := SegmentStart(rest);
    if j > 0 {
      assert file[i + j] == rest[j - 1];
    }
    assert file[i + j] == '/';
    forall k | i + 1 + j <= k < |file| ensures file[k] != '/' {
      assert file[k] == rest[k - i - 1];
    }
    SegmentStartUnique(file, i + 1 + j);
  }

  /** The last path segment: Python's `Path(p).name` for a `/`-separated path. */
  function Basename(p: string): string {
    p[SegmentStart(p)..]
  }
}
