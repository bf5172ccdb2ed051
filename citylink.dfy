/**
 * The chain `main` (cityLink.c) runs on a neighbour table: the pair list,
 * its transitive closure, and a query on the closure.
 */
module CityLink {
  import opened Graph
  import opened RList
  import opened TransClosure
  import opened PathFinder

  /**
   * A query on a table with no 1 on its diagonal. `base` is the pair list of
   * the table and `R` its closure, which fits the buffer createRList sized.
   * The answer is "no path" exactly when the target cannot be reached from a
   * different start city over the table's pairs; a path found is a walk over
   * the closure visiting no city twice.
   */
  method Query(A: seq<seq<int>>, N: nat, startCity: int, targetCity: int)
    returns (base: seq<int>, R: seq<int>, out: Outcome)
    requires IsMatrix(A, N)
    requires forall i :: 0 <= i < N ==> A[i][i] != 1
    ensures forall e :: e in Pairs(base) <==> IsOneCell(A, N, e)
    ensures Grows(base, R) && |R| <= 2 * BufferPairs(N)
    ensures out.NotFound? <==> !(startCity != targetCity && Reach(Pairs(base), startCity, targetCity))
    ensures out.Found? ==> Arrived(Pairs(R), startCity, targetCity, out.path) && NoDup(out.path)
  {
    ZeroDiagonalFits(A, N);
    base := CreateRList(A, N);
    RListFeedsClosure(A, N, base);
    R := CreateTransClosure(base);
    ClosureFits(R, N);
    out := FindPath(R, startCity, targetCity);
  }
}
