/**
 * findPath (cityLink.c): answers a query "is there a connection from
 * `startCity` to `targetCity`, and along which cities?".
 *
 * The routine first scans the list for the pair (start, target); without it
 * the answer is "no path". It then builds the path over the same list: the
 * first pair leaving `start` gives the first step, and repeated sweeps over
 * the list follow, from the current city, any pair whose destination is not
 * yet on the path, until the target is reached. A sweep that finds no such
 * pair leaves the state unchanged, so the routine repeats it forever; the
 * model returns `Stuck` at that point instead.
 */
module PathFinder {
  import opened Graph

  /**
   * The answer to a query: no pair (start, target); a completed path; or the
   * path built so far and the current city when a whole sweep found no step,
   * where the routine would sweep forever.
   */
  datatype Outcome = NotFound | Found(path: seq<int>) | Stuck(visited: seq<int>, at: int)

  /** Some pair of `E` leaves `s`. */
  ghost predicate HasOut(E: seq<Edge>, s: int)
  {
    exists k :: 0 <= k < |E| && E[k].src == s
  }

  /** The position of the first pair of `E` that leaves `s`. */
  ghost function FirstOut(E: seq<Edge>, s: int): (k: nat)
    requires HasOut(E, s)
    ensures k < |E| && E[k].src == s
    ensures forall k' :: 0 <= k' < k ==> E[k'].src != s
    decreases |E|
  {
    if E[0].src == s then 0
    else
      assert HasOut(E[1..], s) by {
        var k :| 0 <= k < |E| && E[k].src == s;
        assert E[1..][k - 1].src == s;
      }
      1 + FirstOut(E[1..], s)
  }

  /** The walk `w` makes its first step along the first pair leaving `start`. */
  ghost predicate FirstStep(E: seq<Edge>, start: int, w: seq<int>)
  {
    |w| >= 2 && HasOut(E, start) && w[1] == E[FirstOut(E, start)].dst
  }

  /**
   * An unfinished path: `path` followed by the current city `cur` is a walk
   * over `E` from `start` that has not reached `target`, whose cities occur in
   * `E`, and which visits no city twice when `E` has no self-loop.
   */
  ghost predicate Walking(E: seq<Edge>, start: int, target: int, path: seq<int>, cur: int)
  {
    && |path| >= 1 && path[0] == start && cur != target
    && IsWalk(E, path + [cur])
    && Elems(path + [cur]) <= Nodes(E)
    && (NoSelfLoops(E) ==> NoDup(path + [cur]))
  }

  /**
   * A completed path: a walk over `E` from `start` to `target`, visiting no
   * city twice when `E` has no self-loop.
   */
  ghost predicate Arrived(E: seq<Edge>, start: int, target: int, p: seq<int>)
  {
    && IsWalk(E, p) && p[0] == start && p[|p| - 1] == target
    && (NoSelfLoops(E) ==> NoDup(p))
  }

  /**
   * Decreases with every step of the walk: either a new city joins the path,
   * or the current city, already on the path, is left for one that is not.
   */
  ghost function Measure(E: seq<Edge>, path: seq<int>, cur: int): int
  {
    2 * (|Nodes(E)| - |Elems(path)|) + (if cur in path then 1 else 0)
  }

  /** The current city has no pair to a city off the path among the first `n` pairs. */
  ghost predicate Blocked(E: seq<Edge>, path: seq<int>, cur: int, n: int)
  {
    forall k :: 0 <= k < n && k < |E| && E[k].src == cur ==> E[k].dst in path
  }

  /** Whether `x` occurs in `s`: the scan of `Path` before a step. */
  method Contains(s: seq<int>, x: int) returns (present: bool)
    ensures present <==> x in s
  {
    present := false;
    var j := 0;
    while j < |s|
      invariant 0 <= j <= |s|
      invariant present <==> x in s[..j]
    {
      assert s[..j + 1] == s[..j] + [s[j]];
      if x == s[j] {
        present := true;
      }
      j := j + 1;
    }
    assert s[..j] == s;
  }

  /**
   * The query as the routine answers it. `NotFound` exactly when (start,
   * target) is not a pair of `R`. A `Found` path is a walk from start to
   * target whose first step is the first pair leaving start, with no city
   * twice when `R` has no self-loop. `Stuck` reports a walk from start that
   * has not reached the target and whose last city has no pair to a city off
   * the walk: the routine's next sweep would change nothing, forever.
   */
  method FindPath(R: seq<int>, startCity: int, targetCity: int) returns (out: Outcome)
    requires |R| % 2 == 0
    ensures out.NotFound? <==> Edge(startCity, targetCity) !in Pairs(R)
    ensures NoSelfLoops(Pairs(R)) && startCity == targetCity ==> out.NotFound?
    ensures out.Found? ==> Arrived(Pairs(R), startCity, targetCity, out.path)
    ensures out.Found? ==> FirstStep(Pairs(R), startCity, out.path)
    ensures out.Stuck? ==> Walking(Pairs(R), startCity, targetCity, out.visited, out.at)
    ensures out.Stuck? ==> FirstStep(Pairs(R), startCity, out.visited + [out.at])
    ensures out.Stuck? ==> forall e :: e in Pairs(R) && e.src == out.at ==> e.dst in out.visited
    ensures out == Answer(Pairs(R), startCity, targetCity)
  {
    var found := ScanForPair(R, startCity, targetCity);
    if !found {
      return NotFound;
    }
    ghost var E := Pairs(R);
    // `cur` is the current city, which the routine keeps in `startCity`.
    var path, cur, pathComplete := TakeFirstStep(R, startCity, targetCity);
    ghost var d1 := cur;
    Start(E, startCity, targetCity, d1);

    // The sweeps, each over the whole list from the start.
    while !pathComplete
      invariant WalkState(E, startCity, targetCity, d1, path, cur, pathComplete)
      invariant if pathComplete then Found(path) == Answer(E, startCity, targetCity)
                else Run(E, targetCity, path, cur) == Answer(E, startCity, targetCity)
      decreases if pathComplete then 0 else 1, Measure(E, path, cur)
    {
      ghost var w := path + [cur];
      var progressed;
      path, cur, pathComplete, progressed := Sweep(R, startCity, targetCity, path, cur);
      if !pathComplete && !progressed {
        BlockedAll(E, path, cur);
        return Stuck(path, cur);
      }
      assert w[1] == d1;
    }
    out := Found(path);
  }

  /**
   * The state between two sweeps: a completed path, or an unfinished walk
   * with a measure that has not run out; either way its second city is `d1`.
   */
  ghost predicate WalkState(E: seq<Edge>, start: int, target: int, d1: int, path: seq<int>, cur: int, complete: bool)
  {
    if complete then Arrived(E, start, target, path) && path[1] == d1
    else Walking(E, start, target, path, cur) && (path + [cur])[1] == d1 && 0 <= Measure(E, path, cur)
  }

  /**
   * The first step of the walk: along the first pair leaving the start city,
   * with no check against the path; it completes the path when that pair
   * goes to the target.
   */
  method TakeFirstStep(R: seq<int>, startCity: int, targetCity: int) returns (path: seq<int>, cur: int, pathComplete: bool)
    requires |R| % 2 == 0 && Edge(startCity, targetCity) in Pairs(R)
    ensures HasOut(Pairs(R), startCity) && cur == Pairs(R)[FirstOut(Pairs(R), startCity)].dst
    ensures pathComplete <==> cur == targetCity
    ensures path == if pathComplete then [startCity, targetCity] else [startCity]
  {
    ghost var E := Pairs(R);
    assert HasOut(E, startCity) by {
      var k :| 0 <= k < |E| && E[k] == Edge(startCity, targetCity);
    }
    ghost var first := FirstOut(E, startCity);
    path, cur, pathComplete := [], startCity, false;
    var i := 0;
    ghost var a := 0;
    while i < |R|
      invariant i == 2 * a && 0 <= a <= first
      decreases |R| - i
    {
      assert R[i] == E[a].src && R[i + 1] == E[a].dst;
      if R[i] == startCity {
        path := [startCity];
        cur := R[i + 1];
        if cur == targetCity {
          path := path + [targetCity];
          pathComplete := true;
        }
        break;
      }
      i, a := i + 2, a + 1;
    }
  }

  /** Where a sweep ends: the path, the current city, whether the target was reached, whether it moved. */
  datatype SweepEnd = SweepEnd(path: seq<int>, cur: int, complete: bool, progressed: bool)

  /**
   * The rest of a sweep from position `k` of `E`: the pair at `k` is followed
   * when it leaves the current city for a city off the path, and the sweep
   * goes on from position `k + 1` with the city reached; a step onto the
   * target ends it.
   */
  ghost function SweepFrom(E: seq<Edge>, target: int, k: nat, path: seq<int>, cur: int, progressed: bool): (s: SweepEnd)
    decreases |E| - k
  {
    if k >= |E| then SweepEnd(path, cur, false, progressed)
    else if E[k].src == cur && E[k].dst !in path then
      if E[k].dst == target then SweepEnd(path + [cur, target], target, true, true)
      else SweepFrom(E, target, k + 1, path + [cur], E[k].dst, true)
    else SweepFrom(E, target, k + 1, path, cur, progressed)
  }

  /**
   * The sweeps from an unfinished walk until one completes the path or one
   * finds no step.
   */
  ghost function Run(E: seq<Edge>, target: int, path: seq<int>, cur: int): (out: Outcome)
    requires Elems(path + [cur]) <= Nodes(E)
    decreases Measure(E, path, cur)
  {
    MeasureBounded(E, path, cur);
    SweepFromMeasure(E, target, 0, path, cur, false);
    var s := SweepFrom(E, target, 0, path, cur, false);
    if s.complete then Found(s.path)
    else if !s.progressed then Stuck(path, cur)
    else Run(E, target, s.path, s.cur)
  }

  /**
   * The answer findPath gives, step for step: no pair (start, target) gives
   * `NotFound`; otherwise the first pair leaving start is taken, then the
   * sweeps run.
   */
  ghost function Answer(E: seq<Edge>, start: int, target: int): (out: Outcome)
  {
    if Edge(start, target) !in E then NotFound
    else
      assert HasOut(E, start) by {
        var k :| 0 <= k < |E| && E[k] == Edge(start, target);
      }
      var d := E[FirstOut(E, start)].dst;
      if d == target then Found([start, target])
      else
        assert Elems([start] + [d]) <= Nodes(E) by {
          assert E[FirstOut(E, start)] in E;
        }
        Run(E, target, [start], d)
  }

  /** The measure of a walk whose cities occur in `E` is not negative. */
  lemma MeasureBounded(E: seq<Edge>, path: seq<int>, cur: int)
    requires Elems(path + [cur]) <= Nodes(E)
    ensures 0 <= Measure(E, path, cur)
  {
    assert Elems(path + [cur]) == Elems(path) + {cur};
    SubsetCard(Elems(path), Nodes(E));
  }

  /**
   * A sweep keeps the walk's cities in `E`, and either leaves the state as
   * it was or lowers the measure.
   */
  lemma {:induction false} SweepFromMeasure(E: seq<Edge>, target: int, k: nat, path: seq<int>, cur: int, progressed: bool)
    requires Elems(path + [cur]) <= Nodes(E)
    ensures var s := SweepFrom(E, target, k, path, cur, progressed);
      !s.complete ==>
        && Elems(s.path + [s.cur]) <= Nodes(E)
        && ((s.path == path && s.cur == cur && s.progressed == progressed)
            || Measure(E, s.path, s.cur) < Measure(E, path, cur))
    decreases |E| - k
  {
    if k < |E| {
      if E[k].src == cur && E[k].dst !in path {
        if E[k].dst != target {
          var y := E[k].dst;
          assert E[k] in E;
          assert Elems(path + [cur] + [y]) == Elems(path + [cur]) + {y};
          MeasureDrops(E, path, cur, y);
          SweepFromMeasure(E, target, k + 1, path + [cur], y, true);
        }
      } else {
        SweepFromMeasure(E, target, k + 1, path, cur, progressed);
      }
    }
  }

  /**
   * One sweep of the `while(!pathComplete)` loop: a pass over the whole list
   * that follows every pair leaving the current city towards a city off the
   * path, moving the current city along as it goes, until the target is
   * reached. It ends exactly where `SweepFrom` from position 0 ends. The walk
   * only grows; a sweep that moves shrinks the measure, and one that does not
   * leaves the current city with no pair off the path.
   */
  method Sweep(R: seq<int>, startCity: int, targetCity: int, path: seq<int>, cur: int)
    returns (path': seq<int>, cur': int, pathComplete: bool, progressed: bool)
    requires |R| % 2 == 0
    requires Walking(Pairs(R), startCity, targetCity, path, cur)
    ensures pathComplete ==> Arrived(Pairs(R), startCity, targetCity, path') && path + [cur] <= path'
    ensures !pathComplete ==> Walking(Pairs(R), startCity, targetCity, path', cur') && path + [cur] <= path' + [cur']
    ensures progressed && !pathComplete ==> 0 <= Measure(Pairs(R), path', cur') < Measure(Pairs(R), path, cur)
    ensures !progressed ==> !pathComplete && path' == path && cur' == cur && Blocked(Pairs(R), path, cur, |R| / 2)
    ensures SweepEnd(path', cur', pathComplete, progressed) == SweepFrom(Pairs(R), targetCity, 0, path, cur, false)
  {
    ghost var E := Pairs(R);
    path', cur', pathComplete, progressed := path, cur, false, false;
    var i := 0;
    ghost var a := 0;
    while i < |R|
      invariant i == 2 * a && 0 <= a <= |E|
      invariant !pathComplete
      invariant SweepFrom(E, targetCity, a, path', cur', progressed) == SweepFrom(E, targetCity, 0, path, cur, false)
    {
      assert R[i] == E[a].src && R[i + 1] == E[a].dst;
      if R[i] == cur' {
        var nextTargetAlreadyInPath := Contains(path', R[i + 1]);
        if !nextTargetAlreadyInPath {
          assert path' + [cur', R[i + 1]] == path' + [cur'] + [R[i + 1]];
          path' := path' + [cur'];
          cur' := R[i + 1];
          progressed := true;
          if cur' == targetCity {
            path' := path' + [targetCity];
            pathComplete := true;
            break;
          }
        }
      }
      i, a := i + 2, a + 1;
    }
    SweepFromWalk(E, startCity, targetCity, 0, path, cur, false);
    SweepFromMeasure(E, targetCity, 0, path, cur, false);
    if !pathComplete {
      MeasureBounded(E, path', cur');
    }
  }

  /**
   * What a sweep from position `k` keeps: a completed path is a walk to the
   * target, an unfinished one is still a walk, and either extends the walk it
   * started from; a sweep that never moves leaves the state as it was, with
   * every pair leaving the current city going back onto the path.
   */
  lemma {:induction false} SweepFromWalk(E: seq<Edge>, start: int, target: int, k: nat, path: seq<int>, cur: int, progressed: bool)
    requires Walking(E, start, target, path, cur)
    requires !progressed ==> Blocked(E, path, cur, k)
    ensures var s := SweepFrom(E, target, k, path, cur, progressed);
      && (s.complete ==> Arrived(E, start, target, s.path) && path + [cur] <= s.path)
      && (!s.complete ==> Walking(E, start, target, s.path, s.cur) && path + [cur] <= s.path + [s.cur])
      && (progressed ==> s.progressed)
      && (!s.progressed ==> !s.complete && s.path == path && s.cur == cur && Blocked(E, path, cur, |E|))
    decreases |E| - k
  {
    if k < |E| {
      if E[k].src == cur && E[k].dst !in path {
        var y := E[k].dst;
        assert E[k] in E;
        Step(E, start, target, path, cur, y);
        if y == target {
          assert path + [cur, target] == path + [cur] + [y];
        } else {
          SweepFromWalk(E, start, target, k + 1, path + [cur], y, true);
        }
      } else {
        SweepFromWalk(E, start, target, k + 1, path, cur, progressed);
      }
    }
  }

  /** The state after the first step along the pair (start, d). */
  lemma Start(E: seq<Edge>, start: int, target: int, d: int)
    requires Edge(start, d) in E
    ensures d == target ==> Arrived(E, start, target, [start, d])
    ensures d != target ==> Walking(E, start, target, [start], d) && 0 <= Measure(E, [start], d)
  {
    var w := [start, d];
    assert IsWalk(E, w);
    assert Elems(w) <= Nodes(E);
    assert [start] + [d] == w;
    NoDupCard(w[..1]);
    SubsetCard(Elems([start]), Nodes(E));
  }

  /**
   * One step of a sweep along the pair (cur, y), y off the path: the walk
   * either reaches the target or goes on from y, and the measure drops.
   */
  lemma Step(E: seq<Edge>, start: int, target: int, path: seq<int>, cur: int, y: int)
    requires Walking(E, start, target, path, cur)
    requires Edge(cur, y) in E && y !in path
    ensures y == target ==> Arrived(E, start, target, path + [cur] + [y])
    ensures y != target ==> Walking(E, start, target, path + [cur], y)
    ensures 0 <= Measure(E, path + [cur], y) < Measure(E, path, cur)
    ensures path + [cur] <= path + [cur] + [y]
  {
    var w := path + [cur];
    WalkExtend(E, w, y);
    assert Elems(w + [y]) == Elems(w) + {y};
    if NoSelfLoops(E) {
      NoDupExtend(w, y);
    }
    MeasureDrops(E, path, cur, y);
  }

  /** A walk extended by a pair leaving its last city is a walk. */
  lemma WalkExtend(E: seq<Edge>, w: seq<int>, y: int)
    requires IsWalk(E, w) && Edge(w[|w| - 1], y) in E
    ensures IsWalk(E, w + [y])
  {
    var w' := w + [y];
    forall k | 0 <= k < |w'| - 1
      ensures Edge(w'[k], w'[k + 1]) in E
    {
      if k < |w| - 1 {
        assert w'[k] == w[k] && w'[k + 1] == w[k + 1];
      }
    }
  }

  lemma NoDupExtend(w: seq<int>, y: int)
    requires NoDup(w) && y !in w
    ensures NoDup(w + [y])
  {
    var w' := w + [y];
    forall a, b | 0 <= a < b < |w'|
      ensures w'[a] != w'[b]
    {
      if b < |w| {
        assert w'[a] == w[a] && w'[b] == w[b];
      }
    }
  }

  lemma MeasureDrops(E: seq<Edge>, path: seq<int>, cur: int, y: int)
    requires Elems(path + [cur]) <= Nodes(E) && y !in path
    ensures 0 <= Measure(E, path + [cur], y) < Measure(E, path, cur)
  {
    var w := path + [cur];
    assert Elems(w) == Elems(path) + {cur};
    SubsetCard(Elems(w), Nodes(E));
    if cur !in path {
      assert Elems(path) * {cur} == {};
    }
  }

  /** A sweep that found no step leaves a city whose every pair leads back onto the path. */
  lemma BlockedAll(E: seq<Edge>, path: seq<int>, cur: int)
    requires Blocked(E, path, cur, |E|)
    ensures forall e :: e in E && e.src == cur ==> e.dst in path
  {
    forall e | e in E && e.src == cur
      ensures e.dst in path
    {
      var k :| 0 <= k < |E| && E[k] == e;
    }
  }

  // -----------------------------------------------------------------------
  // The dead end, and a walk that cannot run into one.
  // -----------------------------------------------------------------------

  /**
   * A query on the given list (0,1), (0,2), (2,3), (0,3): the pairs (0,1),
   * (0,2), (2,3) followed by their one composition (0,3), the shape the
   * closure of that neighbour table takes. For the query 0 -> 3 the
   * reachability scan succeeds, the first step goes to 1, and 1 has no pair
   * at all: every later sweep changes nothing, so the routine never returns.
   */
  method DeadEndQuery() returns (out: Outcome)
    ensures out == Stuck([0], 1)
  {
    var R := [0, 1, 0, 2, 2, 3, 0, 3];
    DeadEndList(R);
    out := FindPath(R, 0, 3);
    var w := match out
      case NotFound => [0, 1]
      case Found(p) => p
      case Stuck(v, c) => v + [c];
    WalkLeavesSecond(Pairs(R), w);
  }

  /** The list of `DeadEndQuery`: 3 is a neighbour of 0, 1 comes first, and nothing leaves 1. */
  lemma DeadEndList(R: seq<int>)
    requires R == [0, 1, 0, 2, 2, 3, 0, 3]
    ensures Edge(0, 3) in Pairs(R) && Edge(0, 1) in Pairs(R)
    ensures HasOut(Pairs(R), 0) && Pairs(R)[FirstOut(Pairs(R), 0)].dst == 1
    ensures forall x :: Edge(1, x) !in Pairs(R)
  {
    var E := Pairs(R);
    assert E == [Edge(0, 1), Edge(0, 2), Edge(2, 3), Edge(0, 3)];
    assert E[0].src == 0;
  }

  /**
   * The sweep order decides the outcome. In the list (0,1), (1,2), (1,3),
   * (0,2), (0,3), which holds every composition of its pairs, the query
   * 0 -> 3 steps to 1, then takes (1,2) because it comes before (1,3), and 2
   * has no pair: the path [0, 1, 3] exists but the routine never finds it.
   */
  method SweepOrderQuery() returns (out: Outcome)
    ensures out == Stuck([0, 1], 2)
  {
    var R := [0, 1, 1, 2, 1, 3, 0, 2, 0, 3];
    out := FindPath(R, 0, 3);
    SweepOrderAnswer(R);
  }

  /** The answer for `SweepOrderQuery`, sweep by sweep. */
  lemma SweepOrderAnswer(R: seq<int>)
    requires R == [0, 1, 1, 2, 1, 3, 0, 2, 0, 3]
    ensures Answer(Pairs(R), 0, 3) == Stuck([0, 1], 2)
  {
    var E := Pairs(R);
    assert E == [Edge(0, 1), Edge(1, 2), Edge(1, 3), Edge(0, 2), Edge(0, 3)];
    assert E[0].src == 0 && E[4] == Edge(0, 3);
    assert [0] + [1] == [0, 1];
    // First sweep, from 1: (1,2) is followed, (1,3) then no longer leaves the current city.
    calc {
      SweepFrom(E, 3, 0, [0], 1, false);
      SweepFrom(E, 3, 1, [0], 1, false);
      SweepFrom(E, 3, 2, [0, 1], 2, true);
      SweepFrom(E, 3, 3, [0, 1], 2, true);
      SweepFrom(E, 3, 4, [0, 1], 2, true);
      SweepFrom(E, 3, 5, [0, 1], 2, true);
    }
    // Second sweep, from 2: no pair leaves 2.
    calc {
      SweepFrom(E, 3, 0, [0, 1], 2, false);
      SweepFrom(E, 3, 1, [0, 1], 2, false);
      SweepFrom(E, 3, 2, [0, 1], 2, false);
      SweepFrom(E, 3, 3, [0, 1], 2, false);
      SweepFrom(E, 3, 4, [0, 1], 2, false);
      SweepFrom(E, 3, 5, [0, 1], 2, false);
    }
    assert Run(E, 3, [0, 1], 2) == Stuck([0, 1], 2);
    assert Run(E, 3, [0], 1) == Run(E, 3, [0, 1], 2);
  }

  /** A walk of more than one step leaves its second city along some pair. */
  lemma WalkLeavesSecond(E: seq<Edge>, w: seq<int>)
    requires IsWalk(E, w)
    ensures |w| > 2 ==> Edge(w[1], w[2]) in E
  {
  }

  /** `d` is the target, or a pair leads from `d` to the target. */
  ghost predicate LeadsTo(E: seq<Edge>, d: int, target: int)
  {
    d == target || Edge(d, target) in E
  }

  /** The check the corrected walk makes before a step to `d`. */
  method CheckLeadsTo(R: seq<int>, d: int, targetCity: int) returns (leads: bool)
    requires |R| % 2 == 0
    ensures leads <==> LeadsTo(Pairs(R), d, targetCity)
  {
    leads := d == targetCity;
    if !leads {
      leads := ScanForPair(R, d, targetCity);
    }
  }

  /** No pair among the first `n` leaves `cur` towards a city off the path that leads to the target. */
  ghost predicate BlockedTowards(E: seq<Edge>, path: seq<int>, cur: int, target: int, n: int)
  {
    forall k :: 0 <= k < n && k < |E| && E[k].src == cur && LeadsTo(E, E[k].dst, target) ==> E[k].dst in path
  }

  /**
   * findPath with each step, the first included, restricted to cities that
   * are the target or have a pair to it. On a list without self-loops it
   * answers every query whose pair (start, target) is present with a path,
   * and never gets stuck: the pair (current city, target) is always a step.
   */
  method FindPathGuided(R: seq<int>, startCity: int, targetCity: int) returns (out: Outcome)
    requires |R| % 2 == 0
    requires NoSelfLoops(Pairs(R))
    ensures !out.Stuck?
    ensures out.NotFound? <==> Edge(startCity, targetCity) !in Pairs(R)
    ensures out.Found? ==> Arrived(Pairs(R), startCity, targetCity, out.path)
  {
    var found := ScanForPair(R, startCity, targetCity);
    if !found {
      return NotFound;
    }
    ghost var E := Pairs(R);
    ghost var k0 :| 0 <= k0 < |E| && E[k0] == Edge(startCity, targetCity);
    var path: seq<int> := [];
    var cur := startCity;
    var pathComplete := false;
    var i := 0;
    ghost var a := 0;
    while i < |R|
      invariant i == 2 * a && 0 <= a <= k0
      decreases |R| - i
    {
      assert R[i] == E[a].src && R[i + 1] == E[a].dst;
      if R[i] == startCity {
        var leads := CheckLeadsTo(R, R[i + 1], targetCity);
        if leads {
          path := [startCity];
          cur := R[i + 1];
          if cur == targetCity {
            path := path + [targetCity];
            pathComplete := true;
          }
          break;
        }
      }
      i, a := i + 2, a + 1;
    }
    assert Edge(startCity, R[i + 1]) in E && LeadsTo(E, R[i + 1], targetCity);
    Start(E, startCity, targetCity, R[i + 1]);
    while !pathComplete
      invariant if pathComplete then Arrived(E, startCity, targetCity, path)
                else Walking(E, startCity, targetCity, path, cur) && Edge(cur, targetCity) in E && targetCity !in path
      invariant !pathComplete ==> 0 <= Measure(E, path, cur)
      decreases if pathComplete then 0 else 1, Measure(E, path, cur)
    {
      path, cur, pathComplete := GuidedSweep(R, startCity, targetCity, path, cur);
    }
    out := Found(path);
  }

  /**
   * One sweep of the corrected walk: like `Sweep`, but a step goes only to a
   * city that leads to the target, and a sweep always moves.
   */
  method GuidedSweep(R: seq<int>, startCity: int, targetCity: int, path: seq<int>, cur: int)
    returns (path': seq<int>, cur': int, pathComplete: bool)
    requires |R| % 2 == 0
    requires NoSelfLoops(Pairs(R))
    requires Walking(Pairs(R), startCity, targetCity, path, cur)
    requires Edge(cur, targetCity) in Pairs(R) && targetCity !in path
    ensures pathComplete ==> Arrived(Pairs(R), startCity, targetCity, path')
    ensures !pathComplete ==> Walking(Pairs(R), startCity, targetCity, path', cur')
    ensures !pathComplete ==> Edge(cur', targetCity) in Pairs(R) && targetCity !in path'
    ensures !pathComplete ==> 0 <= Measure(Pairs(R), path', cur') < Measure(Pairs(R), path, cur)
  {
    ghost var E := Pairs(R);
    path', cur', pathComplete := path, cur, false;
    var progressed := false;
    var i := 0;
    ghost var a := 0;
    while i < |R|
      invariant i == 2 * a && 0 <= a <= |E|
      invariant !pathComplete
      invariant Walking(E, startCity, targetCity, path', cur')
      invariant Edge(cur', targetCity) in E && targetCity !in path'
      invariant progressed ==> 0 <= Measure(E, path', cur') < Measure(E, path, cur)
      invariant !progressed ==> path' == path && cur' == cur && BlockedTowards(E, path, cur, targetCity, a)
    {
      assert R[i] == E[a].src && R[i + 1] == E[a].dst;
      if R[i] == cur' {
        var nextTargetAlreadyInPath := Contains(path', R[i + 1]);
        var leads := CheckLeadsTo(R, R[i + 1], targetCity);
        if !nextTargetAlreadyInPath && leads {
          GuidedStep(E, startCity, targetCity, path', cur', R[i + 1]);
          path' := path' + [cur'];
          cur' := R[i + 1];
          progressed := true;
          if cur' == targetCity {
            path' := path' + [targetCity];
            pathComplete := true;
            break;
          }
        }
      }
      i, a := i + 2, a + 1;
    }
    if !pathComplete {
      TargetStepOpen(E, path, cur, targetCity);
    }
  }

  /** A step of the corrected walk keeps the pair (current city, target) at hand. */
  lemma GuidedStep(E: seq<Edge>, start: int, target: int, path: seq<int>, cur: int, y: int)
    requires Walking(E, start, target, path, cur) && target !in path
    requires Edge(cur, y) in E && y !in path && LeadsTo(E, y, target)
    ensures y == target ==> Arrived(E, start, target, path + [cur] + [y])
    ensures y != target ==> Walking(E, start, target, path + [cur], y)
    ensures y != target ==> Edge(y, target) in E && target !in path + [cur]
    ensures 0 <= Measure(E, path + [cur], y) < Measure(E, path, cur)
  {
    Step(E, start, target, path, cur, y);
  }

  /** The pair (cur, target) is a step no sweep of the corrected walk can miss. */
  lemma TargetStepOpen(E: seq<Edge>, path: seq<int>, cur: int, target: int)
    requires Edge(cur, target) in E && target !in path
    ensures !BlockedTowards(E, path, cur, target, |E|)
  {
    var k :| 0 <= k < |E| && E[k] == Edge(cur, target);
    assert E[k].src == cur && LeadsTo(E, E[k].dst, target);
  }
}
