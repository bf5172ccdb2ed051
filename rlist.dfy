/**
 * createRList (cityLink.c): from the N-by-N neighbour table to the flat
 * list of neighbour pairs.
 *
 * The table is read only; it is a value here, so it cannot be changed. The
 * routine allocates a buffer of 2*(N*N - N) ints, writes each pair through a
 * moving position, and finally shrinks the buffer to the ints written. The
 * model keeps that fixed-size buffer as an `array<int>`, so that the buffer's
 * capacity becomes a precondition: at most N*N - N cells may hold a 1.
 */
module RList {
  import opened Graph

  /**
   * How many pairs the buffer allocated by `createRList` holds: one per
   * off-diagonal cell of an N-by-N table.
   */
  function BufferPairs(N: nat): (n: int)
  {
    N * N - N
  }

  /** `A` is an N-by-N table. */
  predicate IsMatrix(A: seq<seq<int>>, N: nat)
  {
    |A| == N && forall i :: 0 <= i < N ==> |A[i]| == N
  }

  /** The cell of `A` named by `e` lies inside the table and holds 1. */
  ghost predicate IsOneCell(A: seq<seq<int>>, N: nat, e: Edge)
    requires IsMatrix(A, N)
  {
    0 <= e.src < N && 0 <= e.dst < N && A[e.src][e.dst] == 1
  }

  /** All cells of `A` that hold 1, as pairs (row, column). */
  ghost function OneCells(A: seq<seq<int>>, N: nat): set<Edge>
    requires IsMatrix(A, N)
  {
    set i, j | 0 <= i < N && 0 <= j < N && A[i][j] == 1 :: Edge(i, j)
  }

  /** Row-major order of the cells of a table. */
  predicate RowMajorBefore(e1: Edge, e2: Edge)
  {
    e1.src < e2.src || (e1.src == e2.src && e1.dst < e2.dst)
  }

  ghost predicate RowMajorSorted(E: seq<Edge>)
  {
    forall a, b :: 0 <= a < b < |E| ==> RowMajorBefore(E[a], E[b])
  }

  /**
   * The pair list of `A`: exactly the cells holding 1, each once, in
   * row-major order, with `|r|` (the routine's `*sizeOfR`) twice their number.
   */
  method CreateRList(A: seq<seq<int>>, N: nat) returns (r: seq<int>)
    requires IsMatrix(A, N)
    requires |OneCells(A, N)| <= BufferPairs(N)
    ensures |r| % 2 == 0
    ensures forall e :: e in Pairs(r) <==> IsOneCell(A, N, e)
    ensures RowMajorSorted(Pairs(r))
    ensures |r| == 2 * |OneCells(A, N)|
  {
    var list := new int[2 * BufferPairs(N)];
    var p := 0;
    var neighbourCount := 0;
    ghost var seen: seq<Edge> := [];
    for i := 0 to N
      invariant p == 2 * neighbourCount == 2 * |seen| <= list.Length
      invariant Holds(list, seen)
      invariant WrittenUpTo(A, N, seen, Edge(i, 0))
    {
      for j := 0 to N
        invariant p == 2 * neighbourCount == 2 * |seen| <= list.Length
        invariant Holds(list, seen)
        invariant WrittenUpTo(A, N, seen, Edge(i, j))
      {
        NextCell(A, N, seen, i, j);
        if A[i][j] == 1 {
          CapacitySuffices(A, N, seen, Edge(i, j));
          neighbourCount := neighbourCount + 1;
          Emit(list, p, i, j, seen);
          p := p + 2;
          seen := seen + [Edge(i, j)];
        }
      }
      NextRow(A, N, seen, i);
    }
    var sizeOfR := 2 * neighbourCount;
    r := list[..sizeOfR];
    assert Pairs(r) == seen;
    AllWritten(A, N, seen);
  }

  /** The buffer starts with the pairs of `seen`, source at even and destination at odd index. */
  ghost predicate Holds(list: array<int>, seen: seq<Edge>)
    reads list
  {
    2 * |seen| <= list.Length &&
    forall k :: 0 <= k < |seen| ==> list[2 * k] == seen[k].src && list[2 * k + 1] == seen[k].dst
  }

  /** Writes the pair (i, j) at position `p`, just after the pairs of `seen`. */
  method Emit(list: array<int>, p: nat, i: int, j: int, ghost seen: seq<Edge>)
    requires Holds(list, seen) && p == 2 * |seen| && p + 2 <= list.Length
    modifies list
    ensures Holds(list, seen + [Edge(i, j)])
  {
    list[p] := i;
    list[p + 1] := j;
  }

  /**
   * `seen` holds, sorted, exactly the cells holding 1 that come before
   * `next` in row-major order.
   */
  ghost predicate WrittenUpTo(A: seq<seq<int>>, N: nat, seen: seq<Edge>, next: Edge)
    requires IsMatrix(A, N)
  {
    && RowMajorSorted(seen)
    && forall e :: e in seen <==> IsOneCell(A, N, e) && RowMajorBefore(e, next)
  }

  lemma NextRow(A: seq<seq<int>>, N: nat, seen: seq<Edge>, i: nat)
    requires IsMatrix(A, N) && WrittenUpTo(A, N, seen, Edge(i, N))
    ensures WrittenUpTo(A, N, seen, Edge(i + 1, 0))
  {
  }

  /** After the last row every cell holding 1 has been written, once each. */
  lemma AllWritten(A: seq<seq<int>>, N: nat, seen: seq<Edge>)
    requires IsMatrix(A, N) && WrittenUpTo(A, N, seen, Edge(N, 0))
    ensures RowMajorSorted(seen)
    ensures forall e :: e in seen <==> IsOneCell(A, N, e)
    ensures |seen| == |OneCells(A, N)|
  {
    assert Elems(seen) == OneCells(A, N);
    NoDupCard(seen);
  }

  /** Visiting cell (i, j) in row-major order keeps the written pairs exact and sorted. */
  lemma NextCell(A: seq<seq<int>>, N: nat, seen: seq<Edge>, i: nat, j: nat)
    requires IsMatrix(A, N) && i < N && j < N
    requires WrittenUpTo(A, N, seen, Edge(i, j))
    ensures WrittenUpTo(A, N, if A[i][j] == 1 then seen + [Edge(i, j)] else seen, Edge(i, j + 1))
  {
  }

  /**
   * Before a 1 at `next` is written, the cells already written plus `next`
   * are distinct cells holding 1, so they fit in the buffer.
   */
  lemma CapacitySuffices(A: seq<seq<int>>, N: nat, seen: seq<Edge>, next: Edge)
    requires IsMatrix(A, N) && |OneCells(A, N)| <= BufferPairs(N)
    requires WrittenUpTo(A, N, seen, next)
    requires IsOneCell(A, N, next)
    ensures |seen| + 1 <= BufferPairs(N)
  {
    var s := seen + [next];
    assert RowMajorSorted(s);
    assert Elems(s) <= OneCells(A, N);
    NoDupBound(s, OneCells(A, N));
  }

  /** A table with no 1 on its diagonal fits the buffer `createRList` allocates. */
  lemma ZeroDiagonalFits(A: seq<seq<int>>, N: nat)
    requires IsMatrix(A, N)
    requires forall i :: 0 <= i < N ==> A[i][i] != 1
    ensures |OneCells(A, N)| <= BufferPairs(N)
  {
    assert OneCells(A, N) <= OffDiagonal(N);
    OffDiagonalCard(N);
    SubsetCard(OneCells(A, N), OffDiagonal(N));
  }

  /**
   * The pair list of a table with no 1 on its diagonal is what the closure
   * routine expects: no pair repeats and no pair is a self-loop.
   */
  lemma RListFeedsClosure(A: seq<seq<int>>, N: nat, r: seq<int>)
    requires IsMatrix(A, N)
    requires forall i :: 0 <= i < N ==> A[i][i] != 1
    requires |r| % 2 == 0
    requires forall e :: e in Pairs(r) <==> IsOneCell(A, N, e)
    requires RowMajorSorted(Pairs(r))
    ensures NoDup(Pairs(r)) && NoSelfLoops(Pairs(r))
    ensures forall x :: x in Nodes(Pairs(r)) ==> 0 <= x < N
  {
    var E := Pairs(r);
    forall a, b | 0 <= a < b < |E|
      ensures E[a] != E[b]
    {
      assert RowMajorBefore(E[a], E[b]);
    }
    forall e | e in E
      ensures e.src != e.dst && 0 <= e.src < N && 0 <= e.dst < N
    {
      assert IsOneCell(A, N, e);
    }
  }
}
