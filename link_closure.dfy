/**
 * `_LocalBum._flat_list_linked_bins`: the BINs a source BIN pulls in through
 * `linked_bins`, directly or transitively, listed once each in depth-first
 * pre-order, never including the source itself.
 */
module LinkClosure {

  /** `linked_bins`: for each scanned BIN key, the keys of the BINs it links to, in link order. */
  type Links = map<string, seq<string>>

  /** Every BIN a list mentions has a list of its own, as the scan guarantees. */
  predicate LinksClosed(linked: Links) {
    forall u, v :: u in linked && v in linked[u] ==> v in linked
  }

  predicate Distinct(s: seq<string>) {
    forall i, j :: 0 <= i < j < |s| ==> s[i] != s[j]
  }

  /** Consecutive elements of `p` are linked. */
  predicate IsPath(linked: Links, p: seq<string>) {
    forall i :: 0 <= i < |p| - 1 ==> p[i] in linked && p[i + 1] in linked[p[i]]
  }

  ghost predicate Reachable(linked: Links, source: string, x: string) {
    exists p :: |p| >= 1 && p[0] == source && p[|p| - 1] == x && IsPath(linked, p)
  }

  /** All of `x`'s links are listed in `res` or are the source. */
  predicate Covered(linked: Links, source: string, res: seq<string>, x: string) {
    x in linked && forall v :: v in linked[x] ==> v in res || v == source
  }

  lemma ReachStep(linked: Links, source: string, u: string, v: string)
    requires Reachable(linked, source, u) && u in linked && v in linked[u]
    ensures Reachable(linked, source, v)
  {
    var p :| |p| >= 1 && p[0] == source && p[|p| - 1] == u && IsPath(linked, p);
    var q := p + [v];
    assert q[|q| - 1] == v;
    assert IsPath(linked, q);
  }

  lemma ReachSelf(linked: Links, source: string)
    ensures Reachable(linked, source, source)
  {
    assert IsPath(linked, [source]);
  }

  lemma {:induction false} DistinctCard(s: seq<string>)
    requires Distinct(s)
    ensures |set x | x in s| == |s|
  {
    if s != [] {
      var t := s[..|s| - 1];
      DistinctCard(t);
      assert (set x | x in s) == (set x | x in t) + {s[|s| - 1]};
      assert s[|s| - 1] !in t;
    }
  }

  lemma {:induction false} SubsetCard(a: set<string>, b: set<string>)
    requires a <= b
    ensures |a| <= |b|
    decreases |a|
  {
    if a != {} {
      var x :| x in a;
      SubsetCard(a - {x}, b - {x});
    }
  }

  lemma DistinctBound(s: seq<string>, keys: set<string>)
    requires Distinct(s) && forall x :: x in s ==> x in keys
    ensures |s| <= |keys|
  {
    DistinctCard(s);
    SubsetCard((set x | x in s), keys);
  }

  lemma CoveredGrows(linked: Links, source: string, res: seq<string>, res': seq<string>, x: string)
    requires Covered(linked, source, res, x)
    requires |res| <= |res'| && res'[..|res|] == res
    ensures Covered(linked, source, res', x)
  {
    forall v | v in linked[x] ensures v in res' || v == source {
      if v in res {
        var k :| 0 <= k < |res| && res[k] == v;
        assert res'[k] == v;
      }
    }
  }

  /**
   * The listing the nested `list_linked_bins` builds, as a function: walk
   * `vs` in order, and for each BIN not yet listed and not the source, list
   * it and walk its own links before going on.
   */
  function Visit(linked: Links, source: string, vs: seq<string>, res: seq<string>): (r: seq<string>)
    requires LinksClosed(linked) && forall v :: v in vs ==> v in linked
    requires Distinct(res) && forall x :: x in res ==> x in linked
    ensures |res| <= |r| && r[..|res|] == res
    ensures Distinct(r) && forall x :: x in r ==> x in linked
    decreases |linked.Keys| - |res|, |vs|
  {
    DistinctBound(res, linked.Keys);
    if vs == [] then res
    else
      var v := vs[0];
      if v in res || v == source then Visit(linked, source, vs[1..], res)
      else
        DistinctBound(res + [v], linked.Keys);
        var inner := Visit(linked, source, linked[v], res + [v]);
        assert inner[..|res|] == res by {
          assert inner[..|res + [v]|][..|res|] == res;
        }
        var r := Visit(linked, source, vs[1..], inner);
        assert r[..|res|] == res by {
          assert r[..|inner|][..|res|] == inner[..|res|];
        }
        r
  }

  /** `_flat_list_linked_bins` as a function. */
  function FlatList(linked: Links, source: string): seq<string>
    requires LinksClosed(linked) && source in linked
  {
    Visit(linked, source, linked[source], [])
  }

  /** The nested `list_linked_bins`: visit `u`'s links, descending into each new one. */
  method ListLinked(source: string, linked: Links, u: string, res0: seq<string>) returns (res: seq<string>)
    requires LinksClosed(linked) && source in linked && u in linked
    requires Distinct(res0) && source !in res0
    requires forall x :: x in res0 ==> x in linked && Reachable(linked, source, x)
    requires Reachable(linked, source, u)
    ensures res == Visit(linked, source, linked[u], res0)
    ensures |res0| <= |res| && res[..|res0|] == res0
    ensures Distinct(res) && source !in res
    ensures forall x :: x in res ==> x in linked && Reachable(linked, source, x)
    ensures Covered(linked, source, res, u)
    ensures forall k :: |res0| <= k < |res| ==> Covered(linked, source, res, res[k])
    decreases |linked.Keys| - |res0|
  {
    DistinctBound(res0, linked.Keys);
    res := res0;
    var i := 0;
    while i < |linked[u]|
      invariant 0 <= i <= |linked[u]|
      invariant WalkUpTo(linked, source, u, i, res0, res)
    {
      var v := linked[u][i];
      var next := res;
      if v !in res && v != source {
        ReachStep(linked, source, u, v);
        next := ListLinked(source, linked, v, res + [v]);
      }
      WalkStep(linked, source, u, i, res0, res, next);
      res := next;
      i := i + 1;
    }
  }

  /** The loop invariant of `ListLinked` over `u`'s links, after the first `i` of them. */
  ghost predicate WalkUpTo(linked: Links, source: string, u: string, i: int, res0: seq<string>, res: seq<string>) {
    && LinksClosed(linked) && u in linked && 0 <= i <= |linked[u]|
    && Distinct(res0) && (forall x :: x in res0 ==> x in linked)
    && |res0| <= |res| && res[..|res0|] == res0
    && Distinct(res) && source !in res
    && (forall x :: x in res ==> x in linked && Reachable(linked, source, x))
    && (forall j :: 0 <= j < i ==> linked[u][j] in res || linked[u][j] == source)
    && (forall k :: |res0| <= k < |res| ==> Covered(linked, source, res, res[k]))
    && Visit(linked, source, linked[u], res0) == Visit(linked, source, linked[u][i..], res)
  }

  /** One link of `u` handled, skipped or descended into: the invariant holds one further. */
  lemma WalkStep(linked: Links, source: string, u: string, i: int, res0: seq<string>, res: seq<string>, next: seq<string>)
    requires LinksClosed(linked) && u in linked && 0 <= i < |linked[u]|
    requires Distinct(res0) && forall x :: x in res0 ==> x in linked
    requires WalkUpTo(linked, source, u, i, res0, res)
    requires linked[u][i] in res || linked[u][i] == source ==> next == res
    requires !(linked[u][i] in res || linked[u][i] == source) ==>
      && next == Visit(linked, source, linked[linked[u][i]], res + [linked[u][i]])
      && |res| + 1 <= |next| && next[..|res| + 1] == res + [linked[u][i]]
      && source !in next && (forall x :: x in next ==> Reachable(linked, source, x))
      && Covered(linked, source, next, linked[u][i])
      && (forall k :: |res| + 1 <= k < |next| ==> Covered(linked, source, next, next[k]))
    ensures WalkUpTo(linked, source, u, i + 1, res0, next)
  {
    if !(linked[u][i] in res || linked[u][i] == source) {
      DescendKeeps(linked, source, u, i, res0, res, next);
    }
    VisitStep(linked, source, u, i, res, next);
  }

  /** The walk over `vs` is the walk over its tail, after the first link is handled. */
  lemma VisitStep(linked: Links, source: string, u: string, i: int, res: seq<string>, next: seq<string>)
    requires LinksClosed(linked) && u in linked && 0 <= i < |linked[u]|
    requires Distinct(res) && forall x :: x in res ==> x in linked
    requires next == if linked[u][i] in res || linked[u][i] == source then res
                     else Visit(linked, source, linked[linked[u][i]], res + [linked[u][i]])
    ensures Distinct(next) && forall x :: x in next ==> x in linked
    ensures Visit(linked, source, linked[u][i..], res) == Visit(linked, source, linked[u][i + 1..], next)
  {
    assert linked[u][i..][1..] == linked[u][i + 1..];
  }

  /** What a descent into `linked[u][i]` keeps of the walk's loop invariant. */
  lemma DescendKeeps(linked: Links, source: string, u: string, i: int, res0: seq<string>, res: seq<string>, next: seq<string>)
    requires u in linked && 0 <= i < |linked[u]|
    requires |res0| <= |res| && res[..|res0|] == res0
    requires forall j :: 0 <= j < i ==> linked[u][j] in res || linked[u][j] == source
    requires forall k :: |res0| <= k < |res| ==> Covered(linked, source, res, res[k])
    requires |res + [linked[u][i]]| <= |next| && next[..|res| + 1] == res + [linked[u][i]]
    requires Covered(linked, source, next, linked[u][i])
    requires forall k :: |res| + 1 <= k < |next| ==> Covered(linked, source, next, next[k])
    ensures |res0| <= |next| && next[..|res0|] == res0
    ensures forall j :: 0 <= j < i + 1 ==> linked[u][j] in next || linked[u][j] == source
    ensures forall k :: |res0| <= k < |next| ==> Covered(linked, source, next, next[k])
  {
    assert next[..|res|] == res by {
      assert next[..|res| + 1][..|res|] == (res + [linked[u][i]])[..|res|];
    }
    assert next[..|res0|] == res[..|res0|];
    forall k | |res0| <= k < |next| ensures Covered(linked, source, next, next[k]) {
      if k < |res| {
        assert next[k] == res[k];
        CoveredGrows(linked, source, res, next, res[k]);
      } else if k == |res| {
        assert next[k] == linked[u][i];
      }
    }
    forall j | 0 <= j < i + 1 ensures linked[u][j] in next || linked[u][j] == source {
      if j == i {
        assert next[|res|] == linked[u][i];
      } else if linked[u][j] in res {
        var m :| 0 <= m < |res| && res[m] == linked[u][j];
        assert next[m] == res[m];
      }
    }
  }

  lemma {:induction false} PathInside(linked: Links, source: string, res: seq<string>, p: seq<string>)
    requires |p| >= 1 && p[0] == source && IsPath(linked, p)
    requires Covered(linked, source, res, source)
    requires forall x :: x in res ==> Covered(linked, source, res, x)
    ensures p[|p| - 1] in res || p[|p| - 1] == source
    decreases |p|
  {
    if |p| > 1 {
      var q := p[..|p| - 1];
      assert IsPath(linked, q);
      PathInside(linked, source, res, q);
      assert p[|p| - 1] in linked[q[|q| - 1]];
    }
  }

  /**
   * `_flat_list_linked_bins`: a BIN other than the source is listed exactly
   * when the source reaches it through links, and no BIN is listed twice.
   */
  method FlatListLinkedBins(source: string, linked: Links) returns (res: seq<string>)
    requires LinksClosed(linked) && source in linked
    ensures res == FlatList(linked, source)
    ensures Distinct(res) && source !in res
    ensures forall x :: x in res <==> x != source && Reachable(linked, source, x)
  {
    ReachSelf(linked, source);
    res := ListLinked(source, linked, source, []);
    forall x | x in res ensures Covered(linked, source, res, x) {
      var k :| 0 <= k < |res| && res[k] == x;
    }
    forall x | x != source && Reachable(linked, source, x) ensures x in res {
      var p :| |p| >= 1 && p[0] == source && p[|p| - 1] == x && IsPath(linked, p);
      PathInside(linked, source, res, p);
    }
  }
}
