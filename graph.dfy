/**
 * The pair list shared by the three algorithms of cityLink.c.
 *
 * The program keeps a relation between cities as one flat `int` buffer:
 * pair number k has its source at index 2k and its destination at index 2k+1,
 * and `sizeOfR` counts ints, not pairs. The model keeps that buffer as a
 * `seq<int>` and reads it through `Pairs`, which views it as a sequence of
 * `Edge` values. Reachability (`Reach`) is defined independently of the
 * algorithms, as the existence of a walk of at least one step.
 */
module Graph {

  /** A directed pair (source city, destination city). */
  datatype Edge = Edge(src: int, dst: int)

  /** The pairs stored in a flat buffer, in buffer order. */
  function Pairs(r: seq<int>): (E: seq<Edge>)
    ensures |E| == |r| / 2
  {
    seq(|r| / 2, k requires 0 <= k < |r| / 2 => Edge(r[2 * k], r[2 * k + 1]))
  }

  /** Appending the two ints `u, w` appends the pair `(u, w)`. */
  lemma PairsAppend(r: seq<int>, u: int, w: int)
    requires |r| % 2 == 0
    ensures Pairs(r + [u, w]) == Pairs(r) + [Edge(u, w)]
  {
    var s := r + [u, w];
    assert s[|r|] == u && s[|r| + 1] == w;
  }

  /** The pairs of a prefix of even length are a prefix of the pairs. */
  lemma PairsPrefix(r: seq<int>, n: nat)
    requires n % 2 == 0 && n <= |r|
    ensures Pairs(r[..n]) == Pairs(r)[..n / 2]
  {
  }

  /**
   * A full scan of the flat list for the pair (u, w), as done by the
   * duplicate check of createTransClosure and the reachability check of
   * findPath.
   */
  method ScanForPair(r: seq<int>, u: int, w: int) returns (found: bool)
    requires |r| % 2 == 0
    ensures found <==> Edge(u, w) in Pairs(r)
  {
    found := false;
    var k := 0;
    while k < |r|
      invariant 0 <= k <= |r| && k % 2 == 0
      invariant found <==> Edge(u, w) in Pairs(r)[..k / 2]
    {
      assert Pairs(r)[..k / 2 + 1] == Pairs(r)[..k / 2] + [Edge(r[k], r[k + 1])];
      if r[k] == u && r[k + 1] == w {
        found := true;
      }
      k := k + 2;
    }
    assert Pairs(r)[..k / 2] == Pairs(r);
  }

  ghost predicate NoSelfLoops(E: seq<Edge>)
  {
    forall e :: e in E ==> e.src != e.dst
  }

  ghost predicate NoDup<T>(s: seq<T>)
  {
    forall a, b :: 0 <= a < b < |s| ==> s[a] != s[b]
  }

  /** The set of elements of a sequence. */
  ghost function Elems<T>(s: seq<T>): set<T>
  {
    set x | x in s
  }

  /** Every city that occurs in some pair, as source or destination. */
  ghost function Nodes(E: seq<Edge>): set<int>
  {
    (set e | e in E :: e.src) + (set e | e in E :: e.dst)
  }

  /**
   * `(u, v)` followed by `(v, w)` yields `(u, w)`; the closure never
   * derives a pair whose ends coincide.
   */
  ghost predicate Composable(e1: Edge, e2: Edge)
  {
    e1.dst == e2.src && e1.src != e2.dst
  }

  /** Closed under composition, self-loops excepted. */
  ghost predicate Closed(E: seq<Edge>)
  {
    forall e1, e2 :: e1 in E && e2 in E && Composable(e1, e2) ==> Edge(e1.src, e2.dst) in E
  }

  /** `p` visits at least two cities and each step is a pair of `E`. */
  ghost predicate IsWalk(E: seq<Edge>, p: seq<int>)
  {
    |p| >= 2 && forall k :: 0 <= k < |p| - 1 ==> Edge(p[k], p[k + 1]) in E
  }

  /** `w` can be reached from `u` in one or more steps over `E`. */
  ghost predicate Reach(E: seq<Edge>, u: int, w: int)
  {
    exists p :: IsWalk(E, p) && p[0] == u && p[|p| - 1] == w
  }

  /** A walk ending in `v` followed by a walk starting in `v` is a walk. */
  lemma WalkConcat(E: seq<Edge>, p: seq<int>, q: seq<int>)
    requires IsWalk(E, p) && IsWalk(E, q) && p[|p| - 1] == q[0]
    ensures IsWalk(E, p + q[1..])
    ensures (p + q[1..])[0] == p[0] && (p + q[1..])[|p| + |q| - 2] == q[|q| - 1]
  {
    var s := p + q[1..];
    forall k | 0 <= k < |s| - 1
      ensures Edge(s[k], s[k + 1]) in E
    {
      if k < |p| - 1 {
        assert s[k] == p[k] && s[k + 1] == p[k + 1];
      } else {
        var m := k - (|p| - 1);
        assert s[k] == q[m] && s[k + 1] == q[m + 1];
      }
    }
  }

  /** Reachability is transitive. */
  lemma ReachTrans(E: seq<Edge>, u: int, v: int, w: int)
    requires Reach(E, u, v) && Reach(E, v, w)
    ensures Reach(E, u, w)
  {
    var p :| IsWalk(E, p) && p[0] == u && p[|p| - 1] == v;
    var q :| IsWalk(E, q) && q[0] == v && q[|q| - 1] == w;
    WalkConcat(E, p, q);
    var s := p + q[1..];
    assert IsWalk(E, s) && s[0] == u && s[|s| - 1] == w;
  }

  /** A pair is a walk of one step. */
  lemma ReachEdge(E: seq<Edge>, e: Edge)
    requires e in E
    ensures Reach(E, e.src, e.dst)
  {
    var p := [e.src, e.dst];
    assert IsWalk(E, p);
  }

  /** Both ends of a walk are cities that occur in `E`. */
  lemma ReachNodes(E: seq<Edge>, u: int, w: int)
    requires Reach(E, u, w)
    ensures u in Nodes(E) && w in Nodes(E)
  {
    var p :| IsWalk(E, p) && p[0] == u && p[|p| - 1] == w;
    var first := Edge(p[0], p[1]);
    var last := Edge(p[|p| - 2], p[|p| - 1]);
    assert first in E && last in E;
  }

  // ---------------------------------------------------------------------
  // Counting: a list without duplicates has as many entries as elements,
  // and there are N*N - N off-diagonal pairs over the cities 0..N-1.
  // ---------------------------------------------------------------------

  lemma {:induction false} NoDupCard<T>(s: seq<T>)
    requires NoDup(s)
    ensures |Elems(s)| == |s|
  {
    if s != [] {
      var t := s[..|s| - 1];
      var x := s[|s| - 1];
      assert NoDup(t);
      NoDupCard(t);
      assert Elems(s) == Elems(t) + {x};
      assert forall a :: 0 <= a < |t| ==> t[a] == s[a] != s[|s| - 1];
      assert x !in Elems(t);
    }
  }

  /** A duplicate-free list whose entries lie in `S` has at most `|S|` entries. */
  lemma NoDupBound<T>(s: seq<T>, S: set<T>)
    requires NoDup(s) && Elems(s) <= S
    ensures |s| <= |S|
  {
    NoDupCard(s);
    SubsetCard(Elems(s), S);
  }

  lemma {:induction false} SubsetCard<T>(A: set<T>, B: set<T>)
    requires A <= B
    ensures |A| <= |B|
  {
    assert B == A + (B - A);
    assert A * (B - A) == {};
  }

  /** Pairs whose source is below `m` and destination below `n`. */
  ghost function Rect(m: nat, n: nat): set<Edge>
  {
    set i, j | 0 <= i < m && 0 <= j < n :: Edge(i, j)
  }

  /** The self-loops over the cities 0..n-1. */
  ghost function Diagonal(n: nat): set<Edge>
  {
    set i | 0 <= i < n :: Edge(i, i)
  }

  /** The pairs of distinct cities over 0..n-1. */
  ghost function OffDiagonal(n: nat): set<Edge>
  {
    set i, j | 0 <= i < n && 0 <= j < n && i != j :: Edge(i, j)
  }

  /** The pairs leaving city `i` towards 0..n-1. */
  ghost function Row(i: int, n: nat): set<Edge>
  {
    set j | 0 <= j < n :: Edge(i, j)
  }

  lemma {:induction false} RowCard(i: int, n: nat)
    ensures |Row(i, n)| == n
  {
    if n > 0 {
      RowCard(i, n - 1);
      assert Row(i, n) == Row(i, n - 1) + {Edge(i, n - 1)};
      assert Edge(i, n - 1) !in Row(i, n - 1);
    }
  }

  lemma {:induction false} RectCard(m: nat, n: nat)
    ensures |Rect(m, n)| == m * n
  {
    if m > 0 {
      RectCard(m - 1, n);
      RowCard(m - 1, n);
      RectSplit(m - 1, n);
      assert (m - 1) * n + n == m * n;
    }
  }

  /** Adding row `m` to the first `m` rows adds `n` pairs none of which was there. */
  lemma RectSplit(m: nat, n: nat)
    ensures |Rect(m + 1, n)| == |Rect(m, n)| + |Row(m, n)|
  {
    var row := Row(m, n);
    forall e | e in Rect(m + 1, n)
      ensures e in Rect(m, n) + row
    {
      if e.src < m {
        assert e in Rect(m, n);
      } else {
        assert e in row;
      }
    }
    assert Rect(m + 1, n) == Rect(m, n) + row;
    assert Rect(m, n) * row == {};
  }

  lemma {:induction false} DiagonalCard(n: nat)
    ensures |Diagonal(n)| == n
  {
    if n > 0 {
      DiagonalCard(n - 1);
      assert Diagonal(n) == Diagonal(n - 1) + {Edge(n - 1, n - 1)};
      assert Edge(n - 1, n - 1) !in Diagonal(n - 1);
    }
  }

  /** There are exactly `n*n - n` pairs of distinct cities among `n` cities. */
  lemma OffDiagonalCard(n: nat)
    ensures |OffDiagonal(n)| == n * n - n
  {
    RectCard(n, n);
    DiagonalCard(n);
    assert OffDiagonal(n) == Rect(n, n) - Diagonal(n);
    assert Diagonal(n) <= Rect(n, n);
    assert Rect(n, n) == OffDiagonal(n) + Diagonal(n);
    assert OffDiagonal(n) * Diagonal(n) == {};
  }
}
