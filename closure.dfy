/**
 * createTransClosure (cityLink.c): grows the pair list in place until it is
 * closed under composition.
 *
 * Each pass of `while(changed)` fixes the current length as a snapshot,
 * composes every snapshot pair (u, v) with every snapshot pair (v, w) where
 * u != w, and appends (u, w) unless a scan of the whole current list finds it.
 * The scan is skipped when u == v or v == w, i.e. when one operand is a
 * self-loop; `ClosurePass` models one pass for any list and exposes that case,
 * `CreateTransClosure` models the whole loop for lists without self-loops.
 */
module TransClosure {
  import opened Graph

  /** `e` is the composition of two pairs of `E` (so its ends differ). */
  ghost predicate Derivable(E: seq<Edge>, e: Edge)
  {
    e.src != e.dst && exists m :: Edge(e.src, m) in E && Edge(m, e.dst) in E
  }

  /** The operands for which the routine appends without scanning for a duplicate. */
  predicate Unchecked(e1: Edge, e2: Edge)
  {
    e1.src == e2.src || e1.dst == e2.dst
  }

  /** From position `n` on, no pair of `E` occurs earlier in `E`. */
  ghost predicate FreshFrom(E: seq<Edge>, n: nat)
  {
    forall k :: n <= k < |E| ==> E[k] !in E[..k]
  }

  /** `r` is `R` with pairs appended: `R` stays in place as a prefix. */
  ghost predicate Grows(R: seq<int>, r: seq<int>)
  {
    |R| % 2 == 0 && |r| % 2 == 0 && |R| <= |r| && r[..|R|] == R
  }

  /**
   * What one pass appends to `R`: only compositions of pairs of `R`, and,
   * when `R` has no self-loop, only pairs that were not yet in the list.
   */
  ghost predicate PassAppends(R: seq<int>, r: seq<int>)
    requires Grows(R, r)
  {
    && (forall e :: e in Pairs(r)[|R| / 2..] ==> Derivable(Pairs(R), e))
    && (NoSelfLoops(Pairs(R)) ==> FreshFrom(Pairs(r), |R| / 2))
  }

  /** Every composition of two pairs of `R` is a pair of `r`. */
  ghost predicate CompositionsIn(R: seq<int>, r: seq<int>)
  {
    forall e1, e2 :: e1 in Pairs(R) && e2 in Pairs(R) && Composable(e1, e2) ==> Edge(e1.src, e2.dst) in Pairs(r)
  }

  /**
   * The pairs (a, b) of snapshot positions handled so far, in the order of the
   * two nested loops (a before `ia`, or a == `ia` and b before `jb`), have
   * their composition in `r`, and set `changed` when the duplicate scan was
   * skipped for them.
   */
  ghost predicate PassProgress(E: seq<Edge>, r: seq<int>, changed: bool, ia: int, jb: int)
  {
    forall a, b :: 0 <= a < |E| && 0 <= b < |E| && (a < ia || (a == ia && b < jb)) && Composable(E[a], E[b]) ==>
      Edge(E[a].src, E[b].dst) in Pairs(r) && (Unchecked(E[a], E[b]) ==> changed)
  }

  /**
   * One pass of the `while(changed)` loop, on any list of even length.
   * `changed` says whether the pass appended; every composition of two
   * pairs of `R` is in the result; and a composition whose duplicate scan is
   * skipped (an operand is a self-loop) always sets `changed`.
   */
  method ClosurePass(R: seq<int>) returns (r: seq<int>, changed: bool)
    requires |R| % 2 == 0
    ensures Grows(R, r) && PassAppends(R, r)
    ensures changed <==> |r| > |R|
    ensures CompositionsIn(R, r)
    ensures forall e1, e2 :: e1 in Pairs(R) && e2 in Pairs(R) && Composable(e1, e2) && Unchecked(e1, e2) ==> changed
  {
    ghost var E := Pairs(R);
    r := R;
    changed := false;
    var initialSize := |r|;
    var i := 0;
    ghost var a := 0;
    while i < initialSize
      invariant i == 2 * a && 0 <= a <= |E| && initialSize == 2 * |E|
      invariant Grows(R, r) && PassAppends(R, r)
      invariant changed <==> |r| > |R|
      invariant PassProgress(E, r, changed, a, 0)
    {
      assert r[i] == E[a].src && r[i + 1] == E[a].dst;
      var u := r[i];
      var v := r[i + 1];
      var j := 0;
      ghost var b := 0;
      while j < initialSize
        invariant j == 2 * b && 0 <= b <= |E|
        invariant Grows(R, r) && PassAppends(R, r)
        invariant changed <==> |r| > |R|
        invariant PassProgress(E, r, changed, a, b)
      {
        assert r[j] == E[b].src && r[j + 1] == E[b].dst;
        var y := r[j];
        var w := r[j + 1];
        var alreadyExists := false;
        if y == v && u != w {
          if u != y && v != w {
            alreadyExists := ScanForPair(r, u, w);
          }
          if !alreadyExists {
            AppendDerived(R, r, E[a], E[b]);
            ProgressAppend(E, r, changed, a, b, u, w);
            r := r + [u, w];
            changed := true;
          }
        }
        ProgressNext(E, r, changed, a, b);
        j, b := j + 2, b + 1;
      }
      i, a := i + 2, a + 1;
    }
    ProgressDone(E, r, changed);
  }

  lemma ProgressAppend(E: seq<Edge>, r: seq<int>, changed: bool, ia: int, jb: int, u: int, w: int)
    requires |r| % 2 == 0 && PassProgress(E, r, changed, ia, jb)
    ensures PassProgress(E, r + [u, w], true, ia, jb)
  {
    PairsAppend(r, u, w);
  }

  lemma ProgressNext(E: seq<Edge>, r: seq<int>, changed: bool, ia: int, jb: int)
    requires PassProgress(E, r, changed, ia, jb)
    requires 0 <= ia < |E| && 0 <= jb < |E|
    requires Composable(E[ia], E[jb]) ==>
      Edge(E[ia].src, E[jb].dst) in Pairs(r) && (Unchecked(E[ia], E[jb]) ==> changed)
    ensures PassProgress(E, r, changed, ia, jb + 1)
  {
  }

  lemma ProgressDone(E: seq<Edge>, r: seq<int>, changed: bool)
    requires PassProgress(E, r, changed, |E|, 0)
    ensures forall e1, e2 :: e1 in E && e2 in E && Composable(e1, e2) ==> Edge(e1.src, e2.dst) in Pairs(r)
    ensures forall e1, e2 :: e1 in E && e2 in E && Composable(e1, e2) && Unchecked(e1, e2) ==> changed
  {
    forall e1, e2 | e1 in E && e2 in E && Composable(e1, e2)
      ensures Edge(e1.src, e2.dst) in Pairs(r) && (Unchecked(e1, e2) ==> changed)
    {
      var a :| 0 <= a < |E| && E[a] == e1;
      var b :| 0 <= b < |E| && E[b] == e2;
    }
  }

  /**
   * Appending the composition of snapshot pairs `e1` and `e2` keeps
   * `PassAppends`, provided the duplicate scan ran whenever the list has no
   * self-loop; pairs already present stay present.
   */
  lemma AppendDerived(R: seq<int>, r: seq<int>, e1: Edge, e2: Edge)
    requires Grows(R, r) && PassAppends(R, r)
    requires e1 in Pairs(R) && e2 in Pairs(R) && Composable(e1, e2)
    requires NoSelfLoops(Pairs(R)) ==> Edge(e1.src, e2.dst) !in Pairs(r)
    ensures Grows(R, r + [e1.src, e2.dst]) && PassAppends(R, r + [e1.src, e2.dst])
    ensures Pairs(r + [e1.src, e2.dst]) == Pairs(r) + [Edge(e1.src, e2.dst)]
  {
    var e := Edge(e1.src, e2.dst);
    var s := r + [e1.src, e2.dst];
    PairsAppend(r, e1.src, e2.dst);
    assert s[..|R|] == r[..|R|];
    assert Pairs(s)[|R| / 2..] == Pairs(r)[|R| / 2..] + [e];
    assert Derivable(Pairs(R), e);
    if NoSelfLoops(Pairs(R)) {
      forall k | |R| / 2 <= k < |Pairs(s)|
        ensures Pairs(s)[k] !in Pairs(s)[..k]
      {
        if k < |Pairs(r)| {
          assert Pairs(s)[..k] == Pairs(r)[..k];
        } else {
          assert Pairs(s)[..k] == Pairs(r);
        }
      }
    }
  }

  /**
   * The self-loop hazard: when the list holds a self-loop (x, x) and another
   * pair at x, (x, y) or (y, x) with y != x, every pass composes the two
   * without the duplicate scan and appends that pair once more. However many
   * passes run, `changed` stays set and the list grows by at least one pair
   * per pass, so the `while(changed)` loop would end only when `realloc`
   * fails.
   */
  method SelfLoopPasses(R: seq<int>, x: int, y: int, passes: nat) returns (r: seq<int>, changed: bool)
    requires |R| % 2 == 0
    requires Edge(x, x) in Pairs(R) && x != y
    requires Edge(x, y) in Pairs(R) || Edge(y, x) in Pairs(R)
    ensures changed
    ensures Grows(R, r) && |r| >= |R| + 2 * passes
  {
    r, changed := R, true;
    var n := 0;
    while n < passes
      invariant 0 <= n <= passes
      invariant Grows(R, r) && |r| >= |R| + 2 * n
      invariant changed
    {
      ghost var before := r;
      KeptPairs(R, before, Edge(x, x));
      if Edge(x, y) in Pairs(R) {
        KeptPairs(R, before, Edge(x, y));
        assert Composable(Edge(x, x), Edge(x, y)) && Unchecked(Edge(x, x), Edge(x, y));
      } else {
        KeptPairs(R, before, Edge(y, x));
        assert Composable(Edge(y, x), Edge(x, x)) && Unchecked(Edge(y, x), Edge(x, x));
      }
      r, changed := ClosurePass(r);
      assert r[..|R|] == r[..|before|][..|R|];
      n := n + 1;
    }
  }

  /** The pairs of a list stay in every list that keeps it as a prefix. */
  lemma KeptPairs(R: seq<int>, r: seq<int>, e: Edge)
    requires Grows(R, r) && e in Pairs(R)
    ensures e in Pairs(r)
  {
    PairsPrefix(r, |R|);
  }

  /**
   * A self-loop alone at its city is harmless: in the list (0,0), (1,2) the
   * only composition is (0,0) with itself, which `u != w` rejects, so a pass
   * appends nothing and the `while(changed)` loop ends.
   */
  method IsolatedSelfLoopPass() returns (r: seq<int>, changed: bool)
    ensures !changed && r == [0, 0, 1, 2]
  {
    var R := [0, 0, 1, 2];
    assert Pairs(R) == [Edge(0, 0), Edge(1, 2)];
    assert forall e :: !Derivable(Pairs(R), e);
    r, changed := ClosurePass(R);
    FirstAppended(R, r);
  }

  /** A pass that appends has, as its first appended pair, a composition of two snapshot pairs. */
  lemma FirstAppended(R: seq<int>, r: seq<int>)
    requires Grows(R, r) && PassAppends(R, r)
    ensures |r| > |R| ==> Derivable(Pairs(R), Pairs(r)[|R| / 2])
  {
    if |r| > |R| {
      assert Pairs(r)[|R| / 2] in Pairs(r)[|R| / 2..];
    }
  }

  /** All pairs over the cities that occur in `E`. */
  ghost function Universe(E: seq<Edge>): set<Edge>
  {
    set a, b | a in Nodes(E) && b in Nodes(E) :: Edge(a, b)
  }

  /**
   * The `while(changed)` loop: on a list with no self-loop it terminates with
   * the input as a prefix, appends only pairs not yet present, never appends a
   * self-loop, and yields exactly the pairs (u, w), u != w, with w reachable
   * from u over the input. A list that is already closed comes back unchanged.
   */
  method CreateTransClosure(R: seq<int>) returns (r: seq<int>)
    requires |R| % 2 == 0
    requires NoSelfLoops(Pairs(R))
    ensures Grows(R, r) && FreshFrom(Pairs(r), |R| / 2)
    ensures NoSelfLoops(Pairs(r))
    ensures Closed(Pairs(r))
    ensures forall u, w :: Edge(u, w) in Pairs(r) <==> u != w && Reach(Pairs(R), u, w)
    ensures Closed(Pairs(R)) ==> r == R
    ensures NoDup(Pairs(R)) ==> NoDup(Pairs(r))
    ensures Nodes(Pairs(r)) <= Nodes(Pairs(R))
  {
    r := R;
    forall e | e in Pairs(r)
      ensures Reach(Pairs(R), e.src, e.dst)
    {
      ReachEdge(Pairs(R), e);
    }
    forall e | e in Elems(Pairs(r))
      ensures e in Universe(Pairs(R))
    {
      ReachEdge(Pairs(R), e);
      ReachNodes(Pairs(R), e.src, e.dst);
    }
    var changed := true;
    while changed
      invariant Grows(R, r) && FreshFrom(Pairs(r), |R| / 2)
      invariant NoSelfLoops(Pairs(r))
      invariant forall e :: e in Pairs(r) ==> Reach(Pairs(R), e.src, e.dst)
      invariant Elems(Pairs(r)) <= Universe(Pairs(R))
      invariant !changed ==> Closed(Pairs(r))
      invariant Closed(Pairs(R)) ==> r == R
      decreases |Universe(Pairs(R))| - |Elems(Pairs(r))|, if changed then 1 else 0
    {
      ghost var before := r;
      SubsetCard(Elems(Pairs(r)), Universe(Pairs(R)));
      r, changed := ClosurePass(r);
      PassKeepsInvariant(R, before, r, changed);
      SubsetCard(Elems(Pairs(r)), Universe(Pairs(R)));
    }
    PairsPrefix(r, |R|);
    assert Elems(Pairs(R)) <= Elems(Pairs(r));
    ClosedCoversReach(Pairs(R), Pairs(r));
    if NoDup(Pairs(R)) {
      NoDupFresh(Pairs(r), |R| / 2);
    }
    ReachableNodes(Pairs(R), Pairs(r));
  }

  /** A list of pairs reachable over `E0` uses only cities of `E0`. */
  lemma ReachableNodes(E0: seq<Edge>, E: seq<Edge>)
    requires forall e :: e in E ==> Reach(E0, e.src, e.dst)
    ensures Nodes(E) <= Nodes(E0)
  {
    forall x | x in Nodes(E)
      ensures x in Nodes(E0)
    {
      var e :| e in E && (x == e.src || x == e.dst);
      ReachNodes(E0, e.src, e.dst);
    }
  }

  /** A list whose first `n` pairs are distinct and whose later pairs are each new is duplicate-free. */
  lemma NoDupFresh(E: seq<Edge>, n: nat)
    requires n <= |E| && NoDup(E[..n]) && FreshFrom(E, n)
    ensures NoDup(E)
  {
    forall a, b | 0 <= a < b < |E|
      ensures E[a] != E[b]
    {
      if b < n {
        assert E[..n][a] == E[a] && E[..n][b] == E[b];
      } else {
        assert E[a] in E[..b];
      }
    }
  }

  /**
   * The closure of a duplicate-free, self-loop-free list over the cities
   * 0..N-1 is again such a list, so it holds at most N*N - N pairs: it never
   * outgrows the buffer createRList allocates.
   */
  lemma ClosureFits(r: seq<int>, N: nat)
    requires |r| % 2 == 0 && NoDup(Pairs(r)) && NoSelfLoops(Pairs(r))
    requires forall x :: x in Nodes(Pairs(r)) ==> 0 <= x < N
    ensures |r| <= 2 * (N * N - N)
  {
    var E := Pairs(r);
    forall e | e in Elems(E)
      ensures e in OffDiagonal(N)
    {
      assert e.src in Nodes(E) && e.dst in Nodes(E);
    }
    NoDupBound(E, OffDiagonal(N));
    OffDiagonalCard(N);
  }

  /** One pass preserves the loop invariant of `CreateTransClosure` and makes progress. */
  lemma PassKeepsInvariant(R: seq<int>, r: seq<int>, s: seq<int>, changed: bool)
    requires NoSelfLoops(Pairs(R))
    requires Grows(R, r) && FreshFrom(Pairs(r), |R| / 2)
    requires NoSelfLoops(Pairs(r))
    requires forall e :: e in Pairs(r) ==> Reach(Pairs(R), e.src, e.dst)
    requires Closed(Pairs(R)) ==> r == R
    requires Grows(r, s) && PassAppends(r, s)
    requires changed <==> |s| > |r|
    requires CompositionsIn(r, s)
    ensures Grows(R, s) && FreshFrom(Pairs(s), |R| / 2)
    ensures NoSelfLoops(Pairs(s))
    ensures forall e :: e in Pairs(s) ==> Reach(Pairs(R), e.src, e.dst)
    ensures Elems(Pairs(s)) <= Universe(Pairs(R))
    ensures !changed ==> Closed(Pairs(s))
    ensures Closed(Pairs(R)) ==> s == R
    ensures changed ==> |Elems(Pairs(r))| < |Elems(Pairs(s))|
    ensures !changed ==> s == r
  {
    var E, F := Pairs(r), Pairs(s);
    assert s[..|R|] == r[..|R|];
    PairsPrefix(s, |r|);
    assert F[..|E|] == E;
    forall k | |R| / 2 <= k < |F|
      ensures F[k] !in F[..k]
    {
      if k < |E| {
        assert F[..k] == E[..k];
      }
    }
    forall e | e in F
      ensures e.src != e.dst && Reach(Pairs(R), e.src, e.dst)
    {
      var k :| 0 <= k < |F| && F[k] == e;
      if k < |E| {
        assert e in E;
      } else {
        assert e in F[|E|..];
        var m :| Edge(e.src, m) in E && Edge(m, e.dst) in E;
        ReachTrans(Pairs(R), e.src, m, e.dst);
      }
    }
    forall e | e in Elems(F)
      ensures e in Universe(Pairs(R))
    {
      ReachNodes(Pairs(R), e.src, e.dst);
    }
    if !changed {
      assert s == r;
    }
    if Closed(Pairs(R)) {
      AppendedAreOld(r, s);
      AppendedAreNew(r, s);
      assert |s| == |r|;
    }
    if changed {
      assert F[|E|] !in Elems(E);
      StrictSubsetCard(Elems(E), Elems(F), F[|E|]);
    }
  }

  /** On a closed list, whatever a pass appends is already in the list. */
  lemma AppendedAreOld(r: seq<int>, s: seq<int>)
    requires Closed(Pairs(r)) && Grows(r, s) && PassAppends(r, s)
    ensures forall k :: |r| / 2 <= k < |Pairs(s)| ==> Pairs(s)[k] in Pairs(r)
  {
    forall k | |r| / 2 <= k < |Pairs(s)|
      ensures Pairs(s)[k] in Pairs(r)
    {
      var e := Pairs(s)[k];
      assert e in Pairs(s)[|r| / 2..];
      var m :| Edge(e.src, m) in Pairs(r) && Edge(m, e.dst) in Pairs(r);
      assert Composable(Edge(e.src, m), Edge(m, e.dst));
    }
  }

  /** On a list without self-loops, whatever a pass appends was not in the list. */
  lemma AppendedAreNew(r: seq<int>, s: seq<int>)
    requires NoSelfLoops(Pairs(r)) && Grows(r, s) && PassAppends(r, s)
    ensures forall k :: |r| / 2 <= k < |Pairs(s)| ==> Pairs(s)[k] !in Pairs(r)
  {
    PairsPrefix(s, |r|);
    forall k | |r| / 2 <= k < |Pairs(s)|
      ensures Pairs(s)[k] !in Pairs(r)
    {
      assert Pairs(s)[..k][..|r| / 2] == Pairs(r);
    }
  }

  lemma StrictSubsetCard<T>(A: set<T>, B: set<T>, x: T)
    requires A <= B && x in B && x !in A
    ensures |A| < |B|
  {
    assert B == A + (B - A);
    assert A * (B - A) == {};
    assert |B - A| >= |{x}| by {
      SubsetCard({x}, B - A);
    }
  }

  /**
   * A walk over `E0` between two distinct cities is short-cut by a single
   * pair of any closed list that contains all pairs of `E0`.
   */
  lemma {:induction false} WalkCovered(E0: seq<Edge>, E: seq<Edge>, p: seq<int>)
    requires Elems(E0) <= Elems(E) && Closed(E)
    requires IsWalk(E0, p) && p[0] != p[|p| - 1]
    ensures Edge(p[0], p[|p| - 1]) in E
    decreases |p|
  {
    var n := |p|;
    var last := Edge(p[n - 2], p[n - 1]);
    assert last in Elems(E0);
    if n > 2 && p[0] != p[n - 2] {
      var q := p[..n - 1];
      assert IsWalk(E0, q);
      WalkCovered(E0, E, q);
      assert Composable(Edge(p[0], p[n - 2]), last);
    } else {
      assert p[0] == p[n - 2];
    }
  }

  /** A closed superset of `E0` contains every pair (u, w), u != w, reachable over `E0`. */
  lemma ClosedCoversReach(E0: seq<Edge>, E: seq<Edge>)
    requires Elems(E0) <= Elems(E) && Closed(E)
    ensures forall u, w :: u != w && Reach(E0, u, w) ==> Edge(u, w) in E
  {
    forall u, w | u != w && Reach(E0, u, w)
      ensures Edge(u, w) in E
    {
      var p :| IsWalk(E0, p) && p[0] == u && p[|p| - 1] == w;
      WalkCovered(E0, E, p);
    }
  }
}
