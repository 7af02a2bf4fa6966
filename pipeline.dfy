/** The notebook pipeline: the loop that computes a path for every pair of points of
    interest, and the older walker defined in the notebook itself. That walker reads its
    sniffing map with Python indexing, so a negative index wraps to the far edge of the map;
    its pathway is a class attribute, one list shared by every walker. */
module Pipeline {
  import opened Base
  import opened Selection
  import opened ShopObjects
  import Walker
  import Blueprint

  // ---------------------------------------------------------------------------
  // All pairs of points of interest
  // ---------------------------------------------------------------------------

  /** The id under which the pipeline stores the path from one point to another. */
  function PairId(from: string, to: string): (id: string)
    ensures |id| == |from| + 1 + |to|
  {
    from + "-" + to
  }

  /** The ids of the paths from keys[i] to keys[b] for i < b < j, in the order the inner loop
      computes them. */
  function RowIds(keys: seq<string>, i: nat, j: nat): seq<string>
    requires i < |keys| && j <= |keys|
  {
    if j <= i + 1 then [] else RowIds(keys, i, j - 1) + [PairId(keys[i], keys[j - 1])]
  }



  /** The ids of the paths computed by the first i rounds of the outer loop, in order. */
  function PairIds(keys: seq<string>, i: nat): seq<string>
    requires i <= |keys|
  {
    if i == 0 then [] else PairIds(keys, i - 1) + RowIds(keys, i - 1, |keys|)
  }

  /** The pairs of keys (from, to) whose paths round i computes up to j, one per id of
      RowIds and in the same order. */
  function RowPairs(keys: seq<string>, i: nat, j: nat): (r: seq<(string, string)>)
    requires i < |keys| && j <= |keys|
    ensures |r| == |RowIds(keys, i, j)|
  {
    if j <= i + 1 then [] else RowPairs(keys, i, j - 1) + [(keys[i], keys[j - 1])]
  }

  /** The pairs of keys whose paths the first i rounds compute, one per id of PairIds and in
      the same order. */
  function AllPairs(keys: seq<string>, i: nat): (r: seq<(string, string)>)
    requires i <= |keys|
    ensures |r| == |PairIds(keys, i)|
  {
    if i == 0 then [] else AllPairs(keys, i - 1) + RowPairs(keys, i - 1, |keys|)
  }

  /** The inner loop's next pass appends the id of the pair (keys[i], keys[j]). */
  lemma RowIdsNext(keys: seq<string>, i: nat, j: nat)
    requires i < j < |keys|
    ensures RowIds(keys, i, j + 1) == RowIds(keys, i, j) + [PairId(keys[i], keys[j])]
    ensures RowPairs(keys, i, j + 1) == RowPairs(keys, i, j) + [(keys[i], keys[j])]
  {
  }

  /** The outer loop's next round appends the ids and pairs of round i. */
  lemma PairIdsNext(keys: seq<string>, i: nat)
    requires i < |keys|
    ensures PairIds(keys, i + 1) == PairIds(keys, i) + RowIds(keys, i, |keys|)
    ensures AllPairs(keys, i + 1) == AllPairs(keys, i) + RowPairs(keys, i, |keys|)
  {
  }

  /** Round i of the outer loop computes n - i - 1 paths for n keys. */
  lemma {:induction false} RowIdsLength(keys: seq<string>, i: nat, j: nat)
    requires i < |keys| && j <= |keys|
    ensures |RowIds(keys, i, j)| == if j <= i + 1 then 0 else j - i - 1
  {
    if j > i + 1 {
      RowIdsLength(keys, i, j - 1);
    }
  }

  /** The first i rounds compute i (2n - i - 1) / 2 paths for n keys. */
  lemma {:induction false} PairIdsLength(keys: seq<string>, i: nat)
    requires i <= |keys|
    ensures 2 * |PairIds(keys, i)| == i * (2 * |keys| - i - 1)
  {
    if i > 0 {
      PairIdsLength(keys, i - 1);
      RowIdsLength(keys, i - 1, |keys|);
      NextRoundCount(|keys|, i);
    }
  }

  /** Round i adds n - i calls to the (i - 1) (2n - i) / 2 made before it. */
  lemma NextRoundCount(n: int, i: int)
    ensures i * (2 * n - i - 1) == (i - 1) * (2 * n - (i - 1) - 1) + 2 * (n - i)
  {
    assert i * (2 * n - i - 1) == 2 * n * i - i * i - i;
    assert (i - 1) * (2 * n - i) == 2 * n * i - i * i - 2 * n + i;
  }

  /** All the rounds compute n (n - 1) / 2 paths for n keys. */
  lemma PairCount(keys: seq<string>)
    ensures 2 * |PairIds(keys, |keys|)| == |keys| * (|keys| - 1)
  {
    PairIdsLength(keys, |keys|);
    assert |keys| * (2 * |keys| - |keys| - 1) == |keys| * (|keys| - 1);
  }

  /** Every id of round i pairs keys[i] with a later key ... */
  lemma {:induction false} RowIdsSound(keys: seq<string>, i: nat, j: nat, id: string)
    requires i < |keys| && j <= |keys| && id in RowIds(keys, i, j)
    ensures exists b :: i < b < j && id == PairId(keys[i], keys[b])
  {
    if id != PairId(keys[i], keys[j - 1]) {
      RowIdsSound(keys, i, j - 1, id);
    }
  }

  /** ... and round i computes the path to every key before j that comes after keys[i]. */
  lemma {:induction false} RowIdsComplete(keys: seq<string>, i: nat, j: nat, b: nat)
    requires i < b < j <= |keys|
    ensures PairId(keys[i], keys[b]) in RowIds(keys, i, j)
  {
    if b < j - 1 {
      RowIdsComplete(keys, i, j - 1, b);
    }
  }

  /** Every id computed by the first i rounds pairs a key of those rounds with a later key ... */
  lemma {:induction false} PairIdsSound(keys: seq<string>, i: nat, id: string)
    requires i <= |keys| && id in PairIds(keys, i)
    ensures exists a, b :: 0 <= a < i && a < b < |keys| && id == PairId(keys[a], keys[b])
  {
    var row := RowIds(keys, i - 1, |keys|);
    if id in row {
      RowIdsSound(keys, i - 1, |keys|, id);
      var b :| i - 1 < b < |keys| && id == PairId(keys[i - 1], keys[b]);
      assert 0 <= i - 1 < i && i - 1 < b < |keys|;
    } else {
      PairIdsSound(keys, i - 1, id);
      var a, b :| 0 <= a < i - 1 && a < b < |keys| && id == PairId(keys[a], keys[b]);
      assert 0 <= a < i;
    }
  }

  /** ... and they compute the path for every pair of a key of those rounds and a later key. */
  lemma {:induction false} PairIdsComplete(keys: seq<string>, i: nat, a: nat, b: nat)
    requires a < i <= |keys| && a < b < |keys|
    ensures PairId(keys[a], keys[b]) in PairIds(keys, i)
  {
    if a == i - 1 {
      RowIdsComplete(keys, a, |keys|, b);
    } else {
      PairIdsComplete(keys, i - 1, a, b);
    }
  }

  /** Round i computes the path from keys[i] to keys[b] at position b - i - 1 ... */
  lemma {:induction false} RowIndex(keys: seq<string>, i: nat, j: nat, b: nat) returns (k: nat)
    requires i < b < j <= |keys|
    ensures k < |RowIds(keys, i, j)|
    ensures RowIds(keys, i, j)[k] == PairId(keys[i], keys[b]) && RowPairs(keys, i, j)[k] == (keys[i], keys[b])
  {
    if b == j - 1 {
      k := |RowIds(keys, i, j - 1)|;
    } else {
      k := RowIndex(keys, i, j - 1, b);
    }
  }

  /** ... so the pair of keys[a] and a later keys[b] has a position in the order of
      computation, where its id and its pair of keys stand. */
  lemma {:induction false} PairIndex(keys: seq<string>, i: nat, a: nat, b: nat) returns (k: nat)
    requires a < i <= |keys| && a < b < |keys|
    ensures k < |PairIds(keys, i)|
    ensures PairIds(keys, i)[k] == PairId(keys[a], keys[b]) && AllPairs(keys, i)[k] == (keys[a], keys[b])
  {
    if a == i - 1 {
      var r := RowIndex(keys, a, |keys|, b);
      k := |PairIds(keys, i - 1)| + r;
    } else {
      k := PairIndex(keys, i - 1, a, b);
    }
  }

  /** after is before with a path stored under every id in ids (new or replaced) and every
      other entry kept. */
  ghost predicate Stores(before: map<string, Blueprint.Path>, after: map<string, Blueprint.Path>, ids: seq<string>)
  {
    (forall id :: id in after <==> id in before || id in ids) &&
    forall id :: id in before && id !in ids ==> after[id] == before[id]
  }

  /** Storing ids and then more is storing ids + more. */
  lemma StoresThen(a: map<string, Blueprint.Path>, b: map<string, Blueprint.Path>, c: map<string, Blueprint.Path>,
                   ids: seq<string>, more: seq<string>)
    requires Stores(a, b, ids) && Stores(b, c, more)
    ensures Stores(a, c, ids + more)
  {
  }

  /** No later position of ids repeats the id at position k: the path computed there is
      the one left stored under that id. */
  predicate LastWrite(ids: seq<string>, k: nat)
    requires k < |ids|
  {
    forall k' :: k < k' < |ids| ==> ids[k'] != ids[k]
  }

  /** The id occurs at exactly one position of ids. */
  predicate Once(ids: seq<string>, id: string)
  {
    forall k1, k2 :: 0 <= k1 < |ids| && 0 <= k2 < |ids| && ids[k1] == id && ids[k2] == id ==> k1 == k2
  }

  /** An id that occurs once is not overwritten. */
  lemma OnceIsLastWrite(ids: seq<string>, k: nat)
    requires k < |ids| && Once(ids, ids[k])
    ensures LastWrite(ids, k)
  {
  }

  /** For every position k of ids that no later position overwrites, after holds under
      ids[k] a path from the cell of the point of pairs[k].0 to the cell of the point of
      pairs[k].1, for cell size c and y translation yT. */
  ghost predicate Written(after: map<string, Blueprint.Path>, ids: seq<string>, pairs: seq<(string, string)>,
                          points: map<string, Point>, c: real, yT: real)
  {
    && |pairs| == |ids| && c != 0.0
    && forall k {:trigger LastWrite(ids, k)} :: 0 <= k < |ids| && LastWrite(ids, k) ==>
      && ids[k] in after && pairs[k].0 in points && pairs[k].1 in points
      && after[ids[k]].start == Blueprint.CellOf(points[pairs[k].0], c, yT)
      && after[ids[k]].end == Blueprint.CellOf(points[pairs[k].1], c, yT)
  }

  /** Writing ids and then more, where the second batch keeps every entry it does not
      write, leaves the last write of every id in place. */
  lemma WrittenThen(b: map<string, Blueprint.Path>, c: map<string, Blueprint.Path>,
                    ids: seq<string>, pairs: seq<(string, string)>, more: seq<string>, morePairs: seq<(string, string)>,
                    points: map<string, Point>, cd: real, yT: real)
    requires Written(b, ids, pairs, points, cd, yT) && Stores(b, c, more)
    requires Written(c, more, morePairs, points, cd, yT)
    ensures Written(c, ids + more, pairs + morePairs, points, cd, yT)
  {
    var all, allPairs := ids + more, pairs + morePairs;
    forall k | 0 <= k < |all| && LastWrite(all, k)
      ensures all[k] in c && allPairs[k].0 in points && allPairs[k].1 in points
      ensures c[all[k]].start == Blueprint.CellOf(points[allPairs[k].0], cd, yT)
      ensures c[all[k]].end == Blueprint.CellOf(points[allPairs[k].1], cd, yT)
    {
      if k < |ids| {
        assert LastWrite(ids, k) by {
          forall k' | k < k' < |ids| ensures ids[k'] != ids[k] {
            assert all[k'] == ids[k'];
          }
        }
        forall m | 0 <= m < |more| ensures more[m] != ids[k] {
          assert all[|ids| + m] == more[m];
        }
      } else {
        assert LastWrite(more, k - |ids|) by {
          forall k' | k - |ids| < k' < |more| ensures more[k'] != more[k - |ids|] {
            assert all[|ids| + k'] == more[k'];
          }
        }
      }
    }
  }

  /** One pass of the inner loop body: computes the path from the point of from to the point
      of to and stores it under the id from + "-" + to, replacing a path stored there. */
  method CalcPairPath(bp: Blueprint.Blueprint, from: string, to: string, points: map<string, Point>,
                      astar: Blueprint.Planner, smooth: Blueprint.Smoother) returns (id: string)
    requires bp.ReadyForPaths() && Blueprint.StaysInMaze(astar)
    requires from in points && to in points
    modifies bp.maze.value, bp`paths
    ensures bp.ReadyForPaths()
    ensures id == PairId(from, to) && id in bp.paths
    ensures bp.paths[id].start == Blueprint.CellOf(points[from], bp.cellDimension, bp.translation.value.1)
    ensures bp.paths[id].end == Blueprint.CellOf(points[to], bp.cellDimension, bp.translation.value.1)
    ensures Stores(old(bp.paths), bp.paths, [id])
    ensures Written(bp.paths, [id], [(from, to)], points, bp.cellDimension, bp.translation.value.1)
  {
    id := PairId(from, to);
    var p := bp.CalcPath(points[from], points[to], astar, smooth, Some(id));
    assert p.id == id;
  }

  /** One round of the outer loop: computes the path from the point of keys[i] to the point
      of every later key, in order, and stores each under its pair id; ids lists them. */
  method CalcPathsFrom(bp: Blueprint.Blueprint, keys: seq<string>, i: nat, points: map<string, Point>,
                       astar: Blueprint.Planner, smooth: Blueprint.Smoother) returns (ids: seq<string>)
    requires bp.ReadyForPaths() && Blueprint.StaysInMaze(astar)
    requires i < |keys| && forall k :: 0 <= k < |keys| ==> keys[k] in points
    modifies bp.maze.value, bp`paths
    ensures bp.ReadyForPaths()
    ensures ids == RowIds(keys, i, |keys|)
    ensures Stores(old(bp.paths), bp.paths, ids)
    ensures Written(bp.paths, ids, RowPairs(keys, i, |keys|), points, bp.cellDimension, bp.translation.value.1)
  {
    var idStart := keys[i];
    ghost var paths0, c, yT := bp.paths, bp.cellDimension, bp.translation.value.1;
    ids := [];
    var j := i + 1;
    while j < |keys|
      invariant i + 1 <= j <= |keys|
      invariant ids == RowIds(keys, i, j)
      invariant bp.ReadyForPaths() && c == bp.cellDimension && yT == bp.translation.value.1
      invariant Stores(paths0, bp.paths, ids)
      invariant Written(bp.paths, ids, RowPairs(keys, i, j), points, c, yT)
    {
      var idEnd := keys[j];
      ghost var mid := bp.paths;
      var idPath := CalcPairPath(bp, idStart, idEnd, points, astar, smooth);
      StoresThen(paths0, mid, bp.paths, ids, [idPath]);
      WrittenThen(mid, bp.paths, ids, RowPairs(keys, i, j), [idPath], [(idStart, idEnd)], points, c, yT);
      RowIdsNext(keys, i, j);
      ids := ids + [idPath];
      j := j + 1;
    }
  }

  /** For every key and every later key, in order, computes the path between their points
      under the id key + "-" + later key; ids lists them in the order they are computed. Paths
      stored under other ids are kept. */
  method AllPairPaths(bp: Blueprint.Blueprint, keys: seq<string>, points: map<string, Point>,
                      astar: Blueprint.Planner, smooth: Blueprint.Smoother) returns (ids: seq<string>)
    requires bp.ReadyForPaths() && Blueprint.StaysInMaze(astar)
    requires forall k :: 0 <= k < |keys| ==> keys[k] in points
    modifies bp.maze.value, bp`paths
    ensures ids == PairIds(keys, |keys|)
    ensures Stores(old(bp.paths), bp.paths, ids)
    ensures Written(bp.paths, ids, AllPairs(keys, |keys|), points, bp.cellDimension, bp.translation.value.1)
  {
    ghost var paths0, c, yT := bp.paths, bp.cellDimension, bp.translation.value.1;
    ids := [];
    var i := 0;
    while i < |keys|
      invariant 0 <= i <= |keys|
      invariant ids == PairIds(keys, i)
      invariant bp.ReadyForPaths() && c == bp.cellDimension && yT == bp.translation.value.1
      invariant Stores(paths0, bp.paths, ids)
      invariant Written(bp.paths, ids, AllPairs(keys, i), points, c, yT)
    {
      ghost var mid := bp.paths;
      var row := CalcPathsFrom(bp, keys, i, points, astar, smooth);
      StoresThen(paths0, mid, bp.paths, ids, row);
      WrittenThen(mid, bp.paths, ids, AllPairs(keys, i), row, RowPairs(keys, i, |keys|), points, c, yT);
      PairIdsNext(keys, i);
      ids := ids + row;
      i := i + 1;
    }
  }

  /** The path stored under an id that occurs once joins the cells of its pair's points. */
  lemma WrittenAt(after: map<string, Blueprint.Path>, ids: seq<string>, pairs: seq<(string, string)>,
                  points: map<string, Point>, c: real, yT: real, k: nat)
    requires Written(after, ids, pairs, points, c, yT) && k < |ids| && Once(ids, ids[k])
    ensures ids[k] in after && pairs[k].0 in points && pairs[k].1 in points && c != 0.0
    ensures after[ids[k]].start == Blueprint.CellOf(points[pairs[k].0], c, yT)
    ensures after[ids[k]].end == Blueprint.CellOf(points[pairs[k].1], c, yT)
  {
    OnceIsLastWrite(ids, k);
  }

  /** After all the rounds (ids and pairs as AllPairPaths leaves them), the id of the pair of
      keys[a] and a later keys[b], when no other pair shares it, holds the path from the cell
      of the point of keys[a] to the cell of the point of keys[b]. */
  lemma PairPathStored(after: map<string, Blueprint.Path>, keys: seq<string>, ids: seq<string>,
                       pairs: seq<(string, string)>, points: map<string, Point>, c: real, yT: real, a: nat, b: nat)
    requires ids == PairIds(keys, |keys|) && pairs == AllPairs(keys, |keys|)
    requires Written(after, ids, pairs, points, c, yT)
    requires a < b < |keys| && Once(ids, PairId(keys[a], keys[b]))
    ensures PairId(keys[a], keys[b]) in after && keys[a] in points && keys[b] in points
    ensures after[PairId(keys[a], keys[b])].start == Blueprint.CellOf(points[keys[a]], c, yT)
    ensures after[PairId(keys[a], keys[b])].end == Blueprint.CellOf(points[keys[b]], c, yT)
  {
    var k := PairIndex(keys, |keys|, a, b);
    WrittenAt(after, ids, pairs, points, c, yT, k);
  }

  // ---------------------------------------------------------------------------
  // The notebook's walker
  // ---------------------------------------------------------------------------

  /** Python's index rule on a list of length len: k itself, or k + len for -len <= k < 0;
      None where the access raises IndexError. */
  function PyIndex(len: nat, k: int): (r: Option<nat>)
    ensures r.Some? ==> r.value < len && (r.value == k || r.value == k + len)
    ensures r.None? <==> (k >= len || k < -(len as int))
  {
    if 0 <= k < len then Some(k)
    else if -(len as int) <= k < 0 then Some(k + len)
    else None
  }

  /** Neighbourhood entry (i, j) of the notebook's walker: -1 at the centre, -10 where the
      map access raises IndexError, otherwise the value Python indexing reads, wrapping
      negative indices. */
  function LegacyEntry(m: Grid, pos: Cell, i: int, j: int): real
  {
    if i == 1 && j == 1 then -1.0
    else
      var c := Move(pos, (i, j));
      match PyIndex(|m|, c.0)
      case None => -10.0
      case Some(x) =>
        match PyIndex(|m[x]|, c.1)
        case None => -10.0
        case Some(y) => m[x][y]
  }

  function LegacyNeighbours(m: Grid, pos: Cell): (v: seq<real>)
    ensures |v| == 9
  {
    seq(9, k requires 0 <= k < 9 => LegacyEntry(m, pos, k / 3, k % 3))
  }

  /** The 3x3 neighbourhood array of the notebook's walker. */
  method LegacyFillNeighbourhood(m: Grid, pos: Cell) returns (a: array2<real>)
    ensures fresh(a) && a.Length0 == 3 && a.Length1 == 3
    ensures forall r, c :: 0 <= r < 3 && 0 <= c < 3 ==> a[r, c] == LegacyEntry(m, pos, r, c)
  {
    a := new real[3, 3]((_, _) => -1.0);
    var i := 0;
    while i < 3
      invariant 0 <= i <= 3
      invariant forall r, c :: 0 <= r < 3 && 0 <= c < 3 ==>
        a[r, c] == if r < i then LegacyEntry(m, pos, r, c) else -1.0
    {
      var j := 0;
      while j < 3
        invariant 0 <= j <= 3
        invariant forall r, c :: 0 <= r < 3 && 0 <= c < 3 ==>
          a[r, c] == if r < i || (r == i && c < j) then LegacyEntry(m, pos, r, c) else -1.0
      {
        var value := -1.0;
        if !(i == 1 && j == 1) {
          var toMapX := -1 + j + pos.0;
          var toMapY := 1 - i + pos.1;
          var x := PyIndex(|m|, toMapX);
          if x.None? {
            value := -10.0;
          } else {
            var y := PyIndex(|m[x.value]|, toMapY);
            value := if y.None? then -10.0 else m[x.value][y.value];
          }
        }
        assert value == LegacyEntry(m, pos, i, j);
        a[i, j] := value;
        j := j + 1;
      }
      i := i + 1;
    }
  }

  /** The neighbourhood array, flattened row-major. */
  method LegacyNeighbourhood(m: Grid, pos: Cell) returns (v: seq<real>)
    ensures v == LegacyNeighbours(m, pos)
  {
    var a := LegacyFillNeighbourhood(m, pos);
    v := [a[0, 0], a[0, 1], a[0, 2], a[1, 0], a[1, 1], a[1, 2], a[2, 0], a[2, 1], a[2, 2]];
    assert forall k :: 0 <= k < 9 ==> v[k] == LegacyEntry(m, pos, k / 3, k % 3);
  }

  /** Where no index wraps, the notebook's walker reads what the package walker reads. */
  lemma LegacyEntryAgreesWithoutWrap(m: Grid, pos: Cell, i: int, j: int)
    requires 0 <= i < 3 && 0 <= j < 3
    requires Move(pos, (i, j)).0 >= 0 && Move(pos, (i, j)).1 >= 0
    ensures LegacyEntry(m, pos, i, j) == Walker.Entry(m, pos, i, j)
  {
  }

  /** One step of the notebook's walker: the cell moved to, or None where random.randint
      raises. */
  function LegacyStep(m: Grid, pos: Cell, d: StepDraw): Option<Cell>
    requires IsDrawShape(d)
  {
    match Choose(LegacyNeighbours(m, pos), d)
    case None => None
    case Some(dir) => Some(Move(pos, dir))
  }

  /** LegacyStep as a function of the position and the tick. */
  function LegacyStepOn(m: Grid): (Cell, Walker.Tick) -> Option<Cell>
  {
    (pos: Cell, tick: Walker.Tick) => if IsDrawShape(tick.draw) then LegacyStep(m, pos, tick.draw) else None
  }

  /** LegacyStepOn at one position and tick is the step the tick's draws give there. */
  lemma LegacyStepOnAt(m: Grid, pos: Cell, tick: Walker.Tick)
    ensures IsDrawShape(tick.draw) ==> LegacyStepOn(m)(pos, tick) == LegacyStep(m, pos, tick.draw)
    ensures !IsDrawShape(tick.draw) ==> LegacyStepOn(m)(pos, tick) == None
  {
  }

  /** On a 3x3 map whose only positive value sits in the far corner, the walker at (0, 0)
      drawing n = 1 reads that corner through the wrapped indices (-1, -1) and steps off
      the map to (-1, -1). */
  lemma LegacyStepLeavesMap(d: StepDraw)
    requires IsDrawShape(d) && d.n == 1
    ensures var m := [[0.0, 0.0, 0.0], [0.0, 0.0, 0.0], [0.0, 0.0, 9.0]];
      LegacyStep(m, (0, 0), d) == Some((-1, -1)) && !InGrid(m, (-1, -1))
  {
    var m := [[0.0, 0.0, 0.0], [0.0, 0.0, 0.0], [0.0, 0.0, 9.0]];
    var v := LegacyNeighbours(m, (0, 0));
    assert v == [0.0, 0.0, 0.0, 0.0, -1.0, 0.0, 9.0, 0.0, 0.0];
    ChooseUniqueBest(v, d, 6);
  }

  /** The package walker on the same map and draws stays on the map. */
  lemma PackageStepStaysOnSameMap(d: StepDraw)
    requires IsDrawShape(d)
    ensures var m := [[0.0, 0.0, 0.0], [0.0, 0.0, 0.0], [0.0, 0.0, 9.0]];
      Walker.Step(m, (0, 0), d).Some? && InGrid(m, Walker.Step(m, (0, 0), d).value)
  {
    var m := [[0.0, 0.0, 0.0], [0.0, 0.0, 0.0], [0.0, 0.0, 9.0]];
    assert Move((0, 0), (0, 2)) == (1, 1);
    Walker.NotStuckWhenNeighbourNonNegative(m, (0, 0), d, (1, 1));
    Walker.StepStaysOnMap(m, (0, 0), d);
  }

  /** A path as the notebook's walker reads it. */
  datatype LegacyPath = LegacyPath(start: Cell, end: Cell, sniffingMap: Grid)

  /** The walk theory's view of a path: its end and its sniffing map. The notebook's
      walker has no lingering, so every path behaves as the last one. */
  function AsTarget(p: LegacyPath): Walker.Target
  {
    Walker.Target(p.end, p.sniffingMap)
  }

  /** Walker.pathway of the notebook: a class attribute, so one list that every walker
      appends to. */
  class PathwayLog {
    var entries: seq<Cell>

    constructor ()
      ensures entries == []
    {
      entries := [];
    }
  }

  /** The walk from walk[0] along a path within the step budget, ended as the outcome says. */
  ghost predicate LegacyFollowed(p: LegacyPath, ticks: seq<Walker.Tick>, budget: nat, walk: seq<Cell>, steps: nat, outcome: Walker.Outcome)
  {
    && |walk| == steps + 1 && steps <= budget + 1 && steps < |ticks|
    && Walker.Walks(AsTarget(p), true, LegacyStepOn(p.sniffingMap), walk, ticks, steps)
    && Walker.Ends(AsTarget(p), true, LegacyStepOn(p.sniffingMap), budget, ticks, steps, walk[steps], outcome)
  }

  /** One recorded approach of a path: the walk from the path's start within the step
      budget, ended as the outcome says. */
  ghost predicate LegacyApproach(p: LegacyPath, ticks: seq<Walker.Tick>, budget: nat, walk: seq<Cell>, steps: nat, outcome: Walker.Outcome)
  {
    LegacyFollowed(p, ticks, budget, walk, steps, outcome) && walk[0] == p.start
  }

  /** walks[q] is the recorded approach of paths[q], with stepsPerPath[q] steps and outcome
      outcomes[q], for every path walked so far. */
  ghost predicate Approaches(paths: seq<LegacyPath>, ticks: seq<seq<Walker.Tick>>, budget: nat, walks: seq<seq<Cell>>,
                             stepsPerPath: seq<nat>, outcomes: seq<Walker.Outcome>)
  {
    && |walks| == |stepsPerPath| == |outcomes| <= |paths| && |walks| <= |ticks|
    && forall q {:trigger walks[q]} :: 0 <= q < |walks| ==>
      LegacyApproach(paths[q], ticks[q], budget, walks[q], stepsPerPath[q], outcomes[q])
  }

  /** Recording the approach of the next path. */
  lemma ApproachesGrow(paths: seq<LegacyPath>, ticks: seq<seq<Walker.Tick>>, budget: nat, walks: seq<seq<Cell>>,
                       stepsPerPath: seq<nat>, outcomes: seq<Walker.Outcome>, walk: seq<Cell>, steps: nat, outcome: Walker.Outcome)
    requires Approaches(paths, ticks, budget, walks, stepsPerPath, outcomes)
    requires |walks| < |paths| && |walks| < |ticks|
    requires LegacyApproach(paths[|walks|], ticks[|walks|], budget, walk, steps, outcome)
    ensures Approaches(paths, ticks, budget, walks + [walk], stepsPerPath + [steps], outcomes + [outcome])
  {
  }

  /** Where the legacy walker stands, what the shared pathway holds and which path the
      walker is on after the walks, given where it stood, what the pathway held and which
      path it was on before them. */
  ghost predicate LegacyProgress(paths: seq<LegacyPath>, ticks: seq<seq<Walker.Tick>>, budget: nat,
                                 pos0: Cell, log0: seq<Cell>, path0: Option<LegacyPath>,
                                 walks: seq<seq<Cell>>, stepsPerPath: seq<nat>, outcomes: seq<Walker.Outcome>,
                                 pos: Cell, entries: seq<Cell>, path: Option<LegacyPath>)
  {
    && Approaches(paths, ticks, budget, walks, stepsPerPath, outcomes)
    && entries == log0 + Walker.Flatten(walks)
    && pos == Walker.Position(pos0, walks)
    && path == Walker.Current(path0, paths, |walks|)
  }

  /** Walking the next path extends the progress, wherever the walker stood. */
  lemma LegacyProgressGrow(paths: seq<LegacyPath>, ticks: seq<seq<Walker.Tick>>, budget: nat,
                           pos0: Cell, log0: seq<Cell>, path0: Option<LegacyPath>,
                           walks: seq<seq<Cell>>, stepsPerPath: seq<nat>, outcomes: seq<Walker.Outcome>,
                           pos: Cell, entries: seq<Cell>, path: Option<LegacyPath>,
                           walk: seq<Cell>, steps: nat, outcome: Walker.Outcome,
                           pos': Cell, entries': seq<Cell>, path': Option<LegacyPath>)
    requires LegacyProgress(paths, ticks, budget, pos0, log0, path0, walks, stepsPerPath, outcomes, pos, entries, path)
    requires |walks| < |paths| && |walks| < |ticks|
    requires LegacyApproach(paths[|walks|], ticks[|walks|], budget, walk, steps, outcome)
    requires entries' == entries + walk && pos' == walk[steps] && path' == Some(paths[|walks|])
    ensures LegacyProgress(paths, ticks, budget, pos0, log0, path0, walks + [walk], stepsPerPath + [steps],
                           outcomes + [outcome], pos', entries', path')
  {
    Walker.FlattenAppend(log0, walks, walk);
    ApproachesGrow(paths, ticks, budget, walks, stepsPerPath, outcomes, walk, steps, outcome);
    assert (walks + [walk])[|walks|] == walk;
  }

  /** The predictability getRandomDirection passes to probDistr for its draw of n. */
  const DrawPredictability: real := 0.1

  class LegacyWalker {
    const id: string
    const paths: seq<LegacyPath>
    /** The shared class attribute pathway. */
    const log: PathwayLog
    /** Class attributes, set to 0.45 and 10000 by the constructor; getRandomDirection
        draws with predictability 0.1 whatever this one says. */
    const predictability: real
    const maxSteps: nat
    /** Set by startWalking before it is read. */
    var currentPosition: Cell
    var currentPath: Option<LegacyPath>

    constructor (paths: seq<LegacyPath>, name: string, log: PathwayLog)
      ensures id == name && this.paths == paths && this.log == log
      ensures currentPath == None && predictability == 0.45 && maxSteps == 10000
    {
      id := name;
      this.paths := paths;
      this.log := log;
      currentPath := None;
      predictability := 0.45;
      maxSteps := 10000;
    }

    /** Moves by a 3x3 direction and appends the new position to the shared pathway. */
    method UpdatePosition(direction: Direction := (1, 1))
      modifies this`currentPosition, log`entries
      ensures currentPosition == Move(old(currentPosition), direction)
      ensures log.entries == old(log.entries) + [currentPosition]
    {
      currentPosition := (currentPosition.0 - 1 + direction.1, currentPosition.1 + 1 - direction.0);
      log.entries := log.entries + [currentPosition];
    }

    /** Fills the 3x3 neighbourhood, catching IndexError as -10, and picks a direction
        as the package walker does. */
    method GetRandomDirection(draw: StepDraw) returns (dir: Option<Direction>)
      requires currentPath.Some? && ValidDraw(draw, DrawPredictability)
      ensures dir == Choose(LegacyNeighbours(currentPath.value.sniffingMap, currentPosition), draw)
    {
      var v := LegacyNeighbourhood(currentPath.value.sniffingMap, currentPosition);
      var largest := Rank(v, draw.order)[..draw.n];
      var iNeg := CutAtNegative(v, largest);
      var possibleDirections := largest[..iNeg];
      if |possibleDirections| == 0 {
        return None;
      }
      var selectedDirection := possibleDirections[draw.pick % |possibleDirections|];
      dir := Some((selectedDirection / 3, selectedDirection % 3));
    }

    /** Steps until the position is within distance 5 of the path's end or the counter
        passes maxSteps; None from getRandomDirection is the ValueError that ends the walk.
        trail lists the starting position and the positions appended. */
    method FollowSniffingPath(ticks: seq<Walker.Tick>) returns (steps: nat, outcome: Walker.Outcome, ghost trail: seq<Cell>)
      requires currentPath.Some? && |ticks| >= maxSteps + 2 && Walker.ValidTicks(ticks, DrawPredictability)
      modifies this`currentPosition, log`entries
      ensures |trail| == steps + 1 && trail[0] == old(currentPosition)
      ensures log.entries == old(log.entries) + trail[1..] && currentPosition == trail[steps]
      ensures LegacyFollowed(currentPath.value, ticks, maxSteps, trail, steps, outcome)
    {
      var path := currentPath.value;
      ghost var t := AsTarget(path);
      ghost var step := LegacyStepOn(path.sniffingMap);
      ghost var log0 := log.entries;
      trail := [currentPosition];
      outcome := Walker.Reached;
      var i := 0;
      while !Arrived(currentPosition, path.end)
        invariant 0 <= i <= maxSteps + 1
        invariant |trail| == i + 1 && trail[0] == old(currentPosition) && trail[i] == currentPosition
        invariant log.entries == log0 + trail[1..]
        invariant Walker.Walks(t, true, step, trail, ticks, i)
        invariant outcome == Walker.Reached
        decreases maxSteps + 1 - i
      {
        if i > maxSteps {
          outcome := Walker.StepBudgetSpent;
          break;
        }
        var direction := GetRandomDirection(ticks[i].draw);
        LegacyStepOnAt(path.sniffingMap, currentPosition, ticks[i]);
        if direction.None? {
          outcome := Walker.Stuck;
          break;
        }
        UpdatePosition(direction.value);
        Walker.WalksExtend(t, true, step, trail, ticks, i, currentPosition);
        trail := trail + [currentPosition];
        i := i + 1;
      }
      steps := i;
    }

    /** One round of startWalking: puts the walker on the path's start, appends that
        position, and follows the path. walk lists what was appended. */
    method WalkPath(path: LegacyPath, ticks: seq<Walker.Tick>) returns (steps: nat, outcome: Walker.Outcome, ghost walk: seq<Cell>)
      requires |ticks| >= maxSteps + 2 && Walker.ValidTicks(ticks, DrawPredictability)
      modifies this`currentPosition, this`currentPath, log`entries
      ensures currentPath == Some(path)
      ensures log.entries == old(log.entries) + walk
      ensures LegacyApproach(path, ticks, maxSteps, walk, steps, outcome)
      ensures currentPosition == walk[steps]
    {
      currentPosition := path.start;
      UpdatePosition();
      currentPath := Some(path);
      steps, outcome, walk := FollowSniffingPath(ticks);
      ghost var followed := LegacyFollowed(path, ticks, maxSteps, walk, steps, outcome);
      assert followed;
      assert walk == [walk[0]] + walk[1..];
    }

    /** For each path in order: puts the walker on the path's start, appends that position,
        and follows the path; a ValueError (Stuck) ends the walk. walks[p] lists what was
        appended for path p. */
    method StartWalking(ticks: seq<seq<Walker.Tick>>) returns (stepsPerPath: seq<nat>, outcomes: seq<Walker.Outcome>, ghost walks: seq<seq<Cell>>)
      requires |ticks| >= |paths|
      requires forall p :: 0 <= p < |ticks| ==> |ticks[p]| >= maxSteps + 2 && Walker.ValidTicks(ticks[p], DrawPredictability)
      modifies this`currentPosition, this`currentPath, log`entries
      ensures LegacyProgress(paths, ticks, maxSteps, old(currentPosition), old(log.entries), old(currentPath),
                             walks, stepsPerPath, outcomes, currentPosition, log.entries, currentPath)
      ensures forall p :: 0 <= p < |outcomes| - 1 ==> outcomes[p] != Walker.Stuck
      ensures |outcomes| < |paths| ==> |outcomes| > 0 && outcomes[|outcomes| - 1] == Walker.Stuck
    {
      stepsPerPath, outcomes, walks := [], [], [];
      ghost var pos0, log0, path0 := currentPosition, log.entries, currentPath;
      var p := 0;
      while p < |paths|
        invariant 0 <= p <= |paths| && |walks| == p
        invariant LegacyProgress(paths, ticks, maxSteps, pos0, log0, path0, walks, stepsPerPath, outcomes,
                                 currentPosition, log.entries, currentPath)
        invariant forall q :: 0 <= q < p ==> outcomes[q] != Walker.Stuck
      {
        var steps, outcome;
        ghost var walk;
        ghost var pos, entries, path := currentPosition, log.entries, currentPath;
        steps, outcome, walk := WalkPath(paths[p], ticks[p]);
        LegacyProgressGrow(paths, ticks, maxSteps, pos0, log0, path0, walks, stepsPerPath, outcomes, pos, entries, path,
                           walk, steps, outcome, currentPosition, log.entries, currentPath);
        walks := walks + [walk];
        stepsPerPath := stepsPerPath + [steps];
        outcomes := outcomes + [outcome];
        if outcome == Walker.Stuck {
          return;
        }
        p := p + 1;
      }
    }
  }
}
