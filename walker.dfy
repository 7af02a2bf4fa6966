/** The walker of the blueprint package: an agent that visits an ordered list of targets,
    each carrying a smoothed sniffing map, by repeated biased random steps on the grid. */
module Walker {
  import opened Base
  import opened Selection

  /** A target as the walker reads it: its location and its sniffing map. */
  datatype Target = Target(location: Cell, sniffingMap: Grid)

  /** Why the approach of one target ended. Stuck is the ValueError random.randint(0, -1)
      raises when every neighbour is negative; it ends the whole walk. */
  datatype Outcome = Reached | StepBudgetSpent | Stuck

  /** The random inputs of one tick of the step loop: random.random() for the arrival test,
      then the draws of the step. */
  datatype Tick = Tick(linger: real, draw: StepDraw)

  /** Neighbourhood entry (i, j): -1 at the centre and where a map index would be negative,
      -10 past the end of the map, otherwise the map value at the cell the direction (i, j)
      leads to. */
  function Entry(m: Grid, pos: Cell, i: int, j: int): real
  {
    if i == 1 && j == 1 then -1.0
    else
      var c := Move(pos, (i, j));
      if c.0 < 0 || c.1 < 0 then -1.0
      else if c.0 < |m| && c.1 < |m[c.0]| then m[c.0][c.1]
      else -10.0
  }

  /** The 3x3 neighbourhood, flattened row-major. */
  function Neighbours(m: Grid, pos: Cell): (v: seq<real>)
    ensures |v| == 9
  {
    seq(9, k requires 0 <= k < 9 => Entry(m, pos, k / 3, k % 3))
  }

  /** Fills a fresh 3x3 array, starting from -1 everywhere, with the neighbour values. */
  method FillNeighbourhood(m: Grid, pos: Cell) returns (a: array2<real>)
    ensures fresh(a) && a.Length0 == 3 && a.Length1 == 3
    ensures forall r, c :: 0 <= r < 3 && 0 <= c < 3 ==> a[r, c] == Entry(m, pos, r, c)
  {
    a := new real[3, 3]((_, _) => -1.0);
    var i := 0;
    while i < 3
      invariant 0 <= i <= 3
      invariant forall r, c :: 0 <= r < 3 && 0 <= c < 3 ==>
        a[r, c] == if r < i then Entry(m, pos, r, c) else -1.0
    {
      var j := 0;
      while j < 3
        invariant 0 <= j <= 3
        invariant forall r, c :: 0 <= r < 3 && 0 <= c < 3 ==>
          a[r, c] == if r < i || (r == i && c < j) then Entry(m, pos, r, c) else -1.0
      {
        var value := -1.0;
        if !(i == 1 && j == 1) {
          var toMapX := -1 + j + pos.0;
          var toMapY := 1 - i + pos.1;
          if !(toMapX < 0 || toMapY < 0) {
            if toMapX < |m| && toMapY < |m[toMapX]| {
              value := m[toMapX][toMapY];
            } else {
              value := -10.0;
            }
          }
        }
        assert value == Entry(m, pos, i, j);
        a[i, j] := value;
        j := j + 1;
      }
      i := i + 1;
    }
  }

  /** The neighbourhood array, flattened row-major. */
  method Neighbourhood(m: Grid, pos: Cell) returns (v: seq<real>)
    ensures v == Neighbours(m, pos)
  {
    var a := FillNeighbourhood(m, pos);
    v := [a[0, 0], a[0, 1], a[0, 2], a[1, 0], a[1, 1], a[1, 2], a[2, 0], a[2, 1], a[2, 2]];
    assert forall k :: 0 <= k < 9 ==> v[k] == Entry(m, pos, k / 3, k % 3);
  }

  /** One step from pos with the given draws: the cell moved to, or None when stuck. */
  function Step(m: Grid, pos: Cell, d: StepDraw): Option<Cell>
    requires IsDrawShape(d)
  {
    match Choose(Neighbours(m, pos), d)
    case None => None
    case Some(dir) => Some(Move(pos, dir))
  }

  /** A neighbourhood entry is either negative or the value of the in-map neighbour its
      direction leads to; every in-map neighbour appears this way. */
  lemma EntryIsNeighbourValue(m: Grid, pos: Cell, i: int, j: int)
    requires 0 <= i < 3 && 0 <= j < 3
    ensures var q := Move(pos, (i, j));
      Entry(m, pos, i, j) >= 0.0 ==> IsNeighbour(pos, q) && InGrid(m, q) && m[q.0][q.1] == Entry(m, pos, i, j)
    ensures var q := Move(pos, (i, j));
      (i, j) != (1, 1) && InGrid(m, q) ==> m[q.0][q.1] == Entry(m, pos, i, j)
  {
    MoveReachesNeighbours(pos, (i, j));
  }

  lemma NeighboursAt(m: Grid, pos: Cell, i: int, j: int)
    requires 0 <= i < 3 && 0 <= j < 3
    ensures Neighbours(m, pos)[3 * i + j] == Entry(m, pos, i, j)
  {
    assert (3 * i + j) / 3 == i && (3 * i + j) % 3 == j;
  }

  /** A step always lands on one of the eight neighbours, on a cell inside the sniffing map
      whose value is non-negative. */
  lemma StepStaysOnMap(m: Grid, pos: Cell, d: StepDraw)
    requires IsDrawShape(d) && Step(m, pos, d).Some?
    ensures var q := Step(m, pos, d).value;
      IsNeighbour(pos, q) && InGrid(m, q) && m[q.0][q.1] >= 0.0
  {
    var v := Neighbours(m, pos);
    ChooseIsAmongBest(v, d);
    var dir := Choose(v, d).value;
    NeighboursAt(m, pos, dir.0, dir.1);
    EntryIsNeighbourValue(m, pos, dir.0, dir.1);
  }

  /** With every in-map neighbour negative the walker is stuck. */
  lemma StuckWhenNeighboursNegative(m: Grid, pos: Cell, d: StepDraw)
    requires IsDrawShape(d)
    requires forall q :: IsNeighbour(pos, q) && InGrid(m, q) ==> m[q.0][q.1] < 0.0
    ensures Step(m, pos, d).None?
  {
    var v := Neighbours(m, pos);
    forall k | 0 <= k < 9
      ensures v[k] < 0.0
    {
      NeighboursAt(m, pos, k / 3, k % 3);
      EntryIsNeighbourValue(m, pos, k / 3, k % 3);
    }
    ChooseNoneIffAllNegative(v, d);
  }

  /** With some in-map neighbour non-negative the walker can step. */
  lemma NotStuckWhenNeighbourNonNegative(m: Grid, pos: Cell, d: StepDraw, q: Cell)
    requires IsDrawShape(d)
    requires IsNeighbour(pos, q) && InGrid(m, q) && m[q.0][q.1] >= 0.0
    ensures Step(m, pos, d).Some?
  {
    var v := Neighbours(m, pos);
    var dir := (1 - (q.1 - pos.1), q.0 - pos.0 + 1);
    assert Move(pos, dir) == q;
    NeighboursAt(m, pos, dir.0, dir.1);
    EntryIsNeighbourValue(m, pos, dir.0, dir.1);
    ChooseNoneIffAllNegative(v, d);
  }

  /** The walker is stuck exactly when no neighbour inside the map has a non-negative value. */
  lemma StepStuckIff(m: Grid, pos: Cell, d: StepDraw)
    requires IsDrawShape(d)
    ensures Step(m, pos, d).None? <==>
      forall q :: IsNeighbour(pos, q) && InGrid(m, q) ==> m[q.0][q.1] < 0.0
  {
    if forall q :: IsNeighbour(pos, q) && InGrid(m, q) ==> m[q.0][q.1] < 0.0 {
      StuckWhenNeighboursNegative(m, pos, d);
    } else {
      var q :| IsNeighbour(pos, q) && InGrid(m, q) && m[q.0][q.1] >= 0.0;
      NotStuckWhenNeighbourNonNegative(m, pos, d, q);
    }
  }

  /** Every tick's draws are ones the step distribution with this predictability can produce. */
  predicate ValidTicks(ticks: seq<Tick>, pred: real)
  {
    forall k :: 0 <= k < |ticks| ==> ValidDraw(ticks[k].draw, pred)
  }

  /** The step a tick's draws give on map m, as a total function of the position and the
      tick (draws of the wrong shape give no step). */
  function StepOn(m: Grid): (Cell, Tick) -> Option<Cell>
  {
    (pos: Cell, tick: Tick) => if IsDrawShape(tick.draw) then Step(m, pos, tick.draw) else None
  }

  /** StepOn at one position and tick is the step the tick's draws give there. */
  lemma StepOnAt(m: Grid, pos: Cell, tick: Tick)
    ensures IsDrawShape(tick.draw) ==> StepOn(m)(pos, tick) == Step(m, pos, tick.draw)
    ensures !IsDrawShape(tick.draw) ==> StepOn(m)(pos, tick) == None
  {
  }

  /** The approach of target t ends at pos: arrived, and either t is the last target or the
      draw lets the walker move on (random() * 100 > 80). */
  predicate StopsAt(t: Target, lastTarget: bool, pos: Cell, linger: real)
  {
    Arrived(pos, t.location) && (lastTarget || linger * 100.0 > 80.0)
  }

  /** The rest of followSniffingPath's loop as a value: standing on pos with budget more
      rounds allowed before the counter passes maxSteps, ticks[0] holding the draws of the
      current round and step giving the moves, the positions from pos on and the reason the
      loop ends. */
  function WalkFrom(t: Target, lastTarget: bool, step: (Cell, Tick) -> Option<Cell>, budget: int, ticks: seq<Tick>, pos: Cell): (r: (seq<Cell>, Outcome))
    requires -1 <= budget < |ticks| - 1
    ensures 1 <= |r.0| <= budget + 2 && r.0[0] == pos
    decreases |ticks|
  {
    if StopsAt(t, lastTarget, pos, ticks[0].linger) then ([pos], Reached)
    else if budget < 0 then ([pos], StepBudgetSpent)
    else
      match step(pos, ticks[0])
      case None => ([pos], Stuck)
      case Some(next) =>
        var rest := WalkFrom(t, lastTarget, step, budget - 1, ticks[1..], next);
        ([pos] + rest.0, rest.1)
  }

  /** trail[0..n] is a walk of n steps towards t: no position before the last ends the
      approach, and each step is the one its tick gives. */
  predicate Walks(t: Target, lastTarget: bool, step: (Cell, Tick) -> Option<Cell>, trail: seq<Cell>, ticks: seq<Tick>, n: nat)
    requires n < |trail| && n <= |ticks|
  {
    forall k {:trigger trail[k], ticks[k]} :: 0 <= k < n ==>
      !StopsAt(t, lastTarget, trail[k], ticks[k].linger) && step(trail[k], ticks[k]) == Some(trail[k + 1])
  }

  /** Round j, standing on pos, ends the approach with this outcome: arrived (StopsAt), the
      counter past the budget, or no step possible. */
  predicate Ends(t: Target, lastTarget: bool, step: (Cell, Tick) -> Option<Cell>, budget: int, ticks: seq<Tick>, j: nat, pos: Cell, outcome: Outcome)
    requires j < |ticks|
  {
    match outcome
    case Reached => StopsAt(t, lastTarget, pos, ticks[j].linger)
    case StepBudgetSpent => !StopsAt(t, lastTarget, pos, ticks[j].linger) && j == budget + 1
    case Stuck => !StopsAt(t, lastTarget, pos, ticks[j].linger) && j <= budget && step(pos, ticks[j]).None?
  }

  /** Ending in round j is ending in round j - 1 of the rounds that start one tick later,
      with one round less of budget. */
  lemma EndsOneTickLater(t: Target, lastTarget: bool, step: (Cell, Tick) -> Option<Cell>, budget: int, ticks: seq<Tick>, j: nat, pos: Cell, outcome: Outcome)
    requires 1 <= j < |ticks|
    ensures Ends(t, lastTarget, step, budget - 1, ticks[1..], j - 1, pos, outcome) == Ends(t, lastTarget, step, budget, ticks, j, pos, outcome)
  {
    assert ticks[1..][j - 1] == ticks[j];
  }

  /** A step in front of a walk that starts one tick later is a walk. */
  lemma WalksPrepend(t: Target, lastTarget: bool, step: (Cell, Tick) -> Option<Cell>, pos: Cell, rest: seq<Cell>, ticks: seq<Tick>)
    requires 1 <= |rest| <= |ticks|
    requires Walks(t, lastTarget, step, rest, ticks[1..], |rest| - 1)
    requires !StopsAt(t, lastTarget, pos, ticks[0].linger) && step(pos, ticks[0]) == Some(rest[0])
    ensures Walks(t, lastTarget, step, [pos] + rest, ticks, |rest|)
  {
    var trail := [pos] + rest;
    forall k | 0 <= k < |rest|
      ensures !StopsAt(t, lastTarget, trail[k], ticks[k].linger) && step(trail[k], ticks[k]) == Some(trail[k + 1])
    {
      if k > 0 {
        assert trail[k] == rest[k - 1] && trail[k + 1] == rest[k];
        assert ticks[k] == ticks[1..][k - 1];
      }
    }
  }

  /** Conversely, a walk without its first step is a walk that starts one tick later. */
  lemma WalksDropFirst(t: Target, lastTarget: bool, step: (Cell, Tick) -> Option<Cell>, pos: Cell, rest: seq<Cell>, ticks: seq<Tick>)
    requires 1 <= |rest| <= |ticks|
    requires Walks(t, lastTarget, step, [pos] + rest, ticks, |rest|)
    ensures Walks(t, lastTarget, step, rest, ticks[1..], |rest| - 1)
    ensures !StopsAt(t, lastTarget, pos, ticks[0].linger) && step(pos, ticks[0]) == Some(rest[0])
  {
    var trail := [pos] + rest;
    assert trail[0] == pos && trail[1] == rest[0];
    forall k {:trigger rest[k]} | 0 <= k < |rest| - 1
      ensures !StopsAt(t, lastTarget, rest[k], ticks[1..][k].linger) && step(rest[k], ticks[1..][k]) == Some(rest[k + 1])
    {
      assert rest[k] == trail[k + 1] && rest[k + 1] == trail[k + 2];
      assert ticks[1..][k] == ticks[k + 1];
    }
  }

  /** What the loop's result means: its positions form a walk within the budget, and the
      last one ends it as the outcome says. */
  lemma {:induction false} WalkFromIsApproach(t: Target, lastTarget: bool, step: (Cell, Tick) -> Option<Cell>, budget: int, ticks: seq<Tick>, pos: Cell)
    requires -1 <= budget < |ticks| - 1
    ensures var r := WalkFrom(t, lastTarget, step, budget, ticks, pos);
      && |r.0| <= budget + 2
      && Walks(t, lastTarget, step, r.0, ticks, |r.0| - 1)
      && Ends(t, lastTarget, step, budget, ticks, |r.0| - 1, r.0[|r.0| - 1], r.1)
    decreases |ticks|
  {
    var r := WalkFrom(t, lastTarget, step, budget, ticks, pos);
    if !StopsAt(t, lastTarget, pos, ticks[0].linger) && budget >= 0 && step(pos, ticks[0]).Some? {
      var next := step(pos, ticks[0]).value;
      var rest := WalkFrom(t, lastTarget, step, budget - 1, ticks[1..], next);
      assert r == ([pos] + rest.0, rest.1);
      WalkFromIsApproach(t, lastTarget, step, budget - 1, ticks[1..], next);
      WalksPrepend(t, lastTarget, step, pos, rest.0, ticks);
      var n := |r.0| - 1;
      assert r.0[n] == rest.0[n - 1];
      EndsOneTickLater(t, lastTarget, step, budget, ticks, n, r.0[n], r.1);
    }
  }

  /** Conversely, a walk within the budget that ends as its outcome says is the loop's
      result: for given draws the loop has exactly one run. */
  lemma {:induction false} ApproachIsWalkFrom(t: Target, lastTarget: bool, step: (Cell, Tick) -> Option<Cell>, budget: int, ticks: seq<Tick>, trail: seq<Cell>, outcome: Outcome)
    requires 1 <= |trail| <= budget + 2 && budget + 1 < |ticks|
    requires Walks(t, lastTarget, step, trail, ticks, |trail| - 1)
    requires Ends(t, lastTarget, step, budget, ticks, |trail| - 1, trail[|trail| - 1], outcome)
    ensures WalkFrom(t, lastTarget, step, budget, ticks, trail[0]) == (trail, outcome)
    decreases |trail|
  {
    var pos := trail[0];
    if |trail| == 1 {
      assert trail == [pos];
    } else {
      var rest := trail[1..];
      assert trail == [pos] + rest;
      WalksDropFirst(t, lastTarget, step, pos, rest, ticks);
      var n := |trail| - 1;
      assert rest[n - 1] == trail[n];
      EndsOneTickLater(t, lastTarget, step, budget, ticks, n, trail[n], outcome);
      ApproachIsWalkFrom(t, lastTarget, step, budget - 1, ticks[1..], rest, outcome);
    }
  }

  lemma WalksExtend(t: Target, lastTarget: bool, step: (Cell, Tick) -> Option<Cell>, trail: seq<Cell>, ticks: seq<Tick>, n: nat, next: Cell)
    requires n < |trail| == n + 1 && n < |ticks| && Walks(t, lastTarget, step, trail, ticks, n)
    requires !StopsAt(t, lastTarget, trail[n], ticks[n].linger) && step(trail[n], ticks[n]) == Some(next)
    ensures Walks(t, lastTarget, step, trail + [next], ticks, n + 1)
  {
    var trail' := trail + [next];
    forall k | 0 <= k < n + 1
      ensures !StopsAt(t, lastTarget, trail'[k], ticks[k].linger) && step(trail'[k], ticks[k]) == Some(trail'[k + 1])
    {
      assert trail'[k] == trail[k];
      if k < n {
        assert trail'[k + 1] == trail[k + 1];
      }
    }
  }

  /** Every position of a walk on map m after the first is an in-map neighbour of the one
      before it, with a non-negative value on the map. */
  lemma {:induction false} WalkStaysOnMap(t: Target, lastTarget: bool, trail: seq<Cell>, ticks: seq<Tick>, n: nat)
    requires n < |trail| && n <= |ticks| && Walks(t, lastTarget, StepOn(t.sniffingMap), trail, ticks, n)
    ensures forall k :: 0 < k <= n ==>
      IsNeighbour(trail[k - 1], trail[k]) && InGrid(t.sniffingMap, trail[k])
      && t.sniffingMap[trail[k].0][trail[k].1] >= 0.0
  {
    forall k | 0 < k <= n
      ensures IsNeighbour(trail[k - 1], trail[k]) && InGrid(t.sniffingMap, trail[k])
        && t.sniffingMap[trail[k].0][trail[k].1] >= 0.0
    {
      assert StepOn(t.sniffingMap)(trail[k - 1], ticks[k - 1]) == Some(trail[k]);
      StepStaysOnMap(t.sniffingMap, trail[k - 1], ticks[k - 1].draw);
    }
  }

  class Walker {
    const id: string
    const start: Cell
    const end: Cell
    const paths: seq<Target>
    /** Class attributes in the Python program; the constructor sets them to 0.05 and 10000. */
    const predictability: real
    const maxSteps: nat
    var currentPosition: Cell
    var pathway: seq<Cell>
    var currentI: int
    var currentPath: Option<Target>

    constructor (start: Cell, paths: seq<Target>, name: string)
      requires |paths| > 0
      ensures id == name && this.start == start && currentPosition == start
      ensures end == paths[|paths| - 1].location && this.paths == paths
      ensures pathway == [] && currentI == 1 && currentPath == None
      ensures predictability == 0.05 && maxSteps == 10000
    {
      id := name;
      currentPosition := start;
      this.start := start;
      end := paths[|paths| - 1].location;
      this.paths := paths;
      pathway := [];
      currentI := 1;
      currentPath := None;
      predictability := 0.05;
      maxSteps := 10000;
    }

    /** Moves by a 3x3 direction and records the new position; (1, 1) stays put and still
        records it. */
    method UpdatePosition(direction: Direction := (1, 1))
      modifies this`currentPosition, this`pathway
      ensures currentPosition == Move(old(currentPosition), direction)
      ensures pathway == old(pathway) + [currentPosition]
    {
      currentPosition := (currentPosition.0 - 1 + direction.1, currentPosition.1 + 1 - direction.0);
      pathway := pathway + [currentPosition];
    }

    /** Ranks the neighbourhood, keeps the top n up to the first negative value and picks one;
        None when nothing is left. */
    method GetRandomDirection(draw: StepDraw) returns (dir: Option<Direction>)
      requires currentPath.Some? && ValidDraw(draw, predictability)
      ensures dir == Choose(Neighbours(currentPath.value.sniffingMap, currentPosition), draw)
    {
      var path := currentPath.value;
      var a := Neighbourhood(path.sniffingMap, currentPosition);
      var n := draw.n;
      var largest := Rank(a, draw.order)[..n];
      var iNeg := CutAtNegative(a, largest);
      var possibleDirections := largest[..iNeg];
      if |possibleDirections| == 0 {
        return None;
      }
      var selectedDirection := possibleDirections[draw.pick % |possibleDirections|];
      dir := Some((selectedDirection / 3, selectedDirection % 3));
    }

    /** Steps until the approach ends (StopsAt), the counter passes maxSteps, or no step is
        possible. Tick k supplies the draws of round k; trail lists the starting position and
        the positions recorded. By ApproachIsWalkFrom, (trail, outcome) is the value of
        WalkFrom(t, lastTarget, StepOn(t.sniffingMap), maxSteps, ticks, trail[0]). */
    method FollowSniffingPath(ticks: seq<Tick>) returns (steps: nat, outcome: Outcome, ghost trail: seq<Cell>)
      requires currentPath.Some?
      requires |ticks| >= maxSteps + 2
      requires ValidTicks(ticks, predictability)
      modifies this`currentPosition, this`pathway
      ensures steps <= maxSteps + 1 && |trail| == steps + 1 && trail[0] == old(currentPosition)
      ensures pathway == old(pathway) + trail[1..] && currentPosition == trail[steps]
      ensures Walks(currentPath.value, currentI >= |paths|, StepOn(currentPath.value.sniffingMap), trail, ticks, steps)
      ensures Ends(currentPath.value, currentI >= |paths|, StepOn(currentPath.value.sniffingMap), maxSteps, ticks, steps, trail[steps], outcome)
    {
      var t := currentPath.value;
      var last := currentI >= |paths|;
      ghost var step := StepOn(t.sniffingMap);
      ghost var pw0 := pathway;
      trail := [currentPosition];
      var i := 0;
      while true
        invariant 0 <= i <= maxSteps + 1
        invariant |trail| == i + 1 && trail[0] == old(currentPosition) && trail[i] == currentPosition
        invariant pathway == pw0 + trail[1..]
        invariant Walks(t, last, step, trail, ticks, i)
        decreases maxSteps + 1 - i
      {
        var arrived := Arrived(currentPosition, t.location);
        if arrived {
          if currentI >= |paths| {
            outcome := Reached;
            break;
          }
          if ticks[i].linger * 100.0 > 80.0 {
            outcome := Reached;
            break;
          }
        }
        if i > maxSteps {
          outcome := StepBudgetSpent;
          break;
        }
        var direction := GetRandomDirection(ticks[i].draw);
        StepOnAt(t.sniffingMap, currentPosition, ticks[i]);
        if direction.None? {
          outcome := Stuck;
          break;
        }
        UpdatePosition(direction.value);
        WalksExtend(t, last, step, trail, ticks, i, currentPosition);
        trail := trail + [currentPosition];
        i := i + 1;
      }
      steps := i;
    }

    /** One round of startWalking's loop: records the current position again, makes target
        p current, approaches it and, unless stuck, counts it. walk lists the positions
        recorded, the repeated one first. */
    method VisitTarget(p: int, ticks: seq<Tick>) returns (steps: nat, outcome: Outcome, ghost walk: seq<Cell>)
      requires 0 <= p < |paths| && |ticks| >= maxSteps + 2 && ValidTicks(ticks, predictability)
      modifies this`currentPosition, this`pathway, this`currentPath, this`currentI
      ensures currentPath == Some(paths[p])
      ensures currentI == old(currentI) + (if outcome == Stuck then 0 else 1)
      ensures steps <= maxSteps + 1 && |walk| == steps + 1 && walk[0] == old(currentPosition)
      ensures pathway == old(pathway) + walk && currentPosition == walk[steps]
      ensures Approach(paths[p], old(currentI) >= |paths|, maxSteps, ticks, walk, steps, outcome)
    {
      UpdatePosition();
      currentPath := Some(paths[p]);
      ghost var pw1 := pathway;
      steps, outcome, walk := FollowSniffingPath(ticks);
      assert walk == [walk[0]] + walk[1..];
      if outcome != Stuck {
        currentI := currentI + 1;
      }
    }

    /** Visits the targets in order, stopping after the approach that got stuck, if any.
        walks[p] lists the positions recorded for target p, the repeated one first. */
    method StartWalking(ticks: seq<seq<Tick>>) returns (stepsPerPath: seq<nat>, outcomes: seq<Outcome>, ghost walks: seq<seq<Cell>>)
      requires |ticks| >= |paths|
      requires forall p :: 0 <= p < |ticks| ==> |ticks[p]| >= maxSteps + 2 && ValidTicks(ticks[p], predictability)
      modifies this`currentPosition, this`pathway, this`currentPath, this`currentI
      ensures Progress(paths, old(currentI), maxSteps, ticks, old(currentPosition), old(pathway), old(currentPath),
                       walks, stepsPerPath, outcomes, currentPosition, pathway, currentPath)
      ensures forall p :: 0 <= p < |outcomes| - 1 ==> outcomes[p] != Stuck
      ensures |outcomes| < |paths| ==> |outcomes| > 0 && outcomes[|outcomes| - 1] == Stuck
      ensures currentI == old(currentI) + |outcomes|
        - (if |outcomes| > 0 && outcomes[|outcomes| - 1] == Stuck then 1 else 0)
    {
      stepsPerPath, outcomes, walks := [], [], [];
      ghost var i0, pos0, pathway0, path0 := currentI, currentPosition, pathway, currentPath;
      var p := 0;
      while p < |paths|
        invariant 0 <= p <= |paths| && |walks| == p
        invariant currentI == i0 + p
        invariant Progress(paths, i0, maxSteps, ticks, pos0, pathway0, path0, walks, stepsPerPath, outcomes,
                           currentPosition, pathway, currentPath)
        invariant forall q :: 0 <= q < p ==> outcomes[q] != Stuck
      {
        var steps, outcome;
        ghost var walk;
        ghost var last := currentI >= |paths|;
        ghost var pos, pw, path := currentPosition, pathway, currentPath;
        steps, outcome, walk := VisitTarget(p, ticks[p]);
        ProgressGrow(paths, i0, maxSteps, ticks, pos0, pathway0, path0, walks, stepsPerPath, outcomes, pos, pw, path,
                     last, walk, steps, outcome, currentPosition, pathway, currentPath);
        walks := walks + [walk];
        stepsPerPath := stepsPerPath + [steps];
        outcomes := outcomes + [outcome];
        if outcome == Stuck {
          return;
        }
        p := p + 1;
      }
    }
  }

  /** One approach: walk goes from walk[0] to walk[steps] within the step budget, each step
      the one its tick gives, and ends as the outcome says. */
  ghost predicate Approach(t: Target, lastTarget: bool, budget: nat, ticks: seq<Tick>, walk: seq<Cell>, steps: nat, outcome: Outcome)
  {
    && |walk| == steps + 1 && steps <= budget + 1 && steps < |ticks|
    && Walks(t, lastTarget, StepOn(t.sniffingMap), walk, ticks, steps)
    && Ends(t, lastTarget, StepOn(t.sniffingMap), budget, ticks, steps, walk[steps], outcome)
  }

  /** walks[q] is the approach of target q, with draws ticks[q]; target q is the last one
      once currentI, firstI at the start and one more per target, reaches the number of
      targets. */
  ghost predicate Visited(paths: seq<Target>, firstI: int, budget: nat, ticks: seq<seq<Tick>>, walks: seq<seq<Cell>>,
                          steps: seq<nat>, outcomes: seq<Outcome>)
  {
    && |walks| == |steps| == |outcomes| <= |paths| && |walks| <= |ticks|
    && forall q {:trigger walks[q]} :: 0 <= q < |walks| ==>
      Approach(paths[q], firstI + q >= |paths|, budget, ticks[q], walks[q], steps[q], outcomes[q])
  }

  /** Recording the approach of the next target. */
  lemma VisitedGrow(paths: seq<Target>, firstI: int, budget: nat, ticks: seq<seq<Tick>>, walks: seq<seq<Cell>>,
                    steps: seq<nat>, outcomes: seq<Outcome>, last: bool, walk: seq<Cell>, n: nat, outcome: Outcome)
    requires Visited(paths, firstI, budget, ticks, walks, steps, outcomes)
    requires |walks| < |paths| && |walks| < |ticks| && last == (firstI + |walks| >= |paths|)
    requires Approach(paths[|walks|], last, budget, ticks[|walks|], walk, n, outcome)
    ensures Visited(paths, firstI, budget, ticks, walks + [walk], steps + [n], outcomes + [outcome])
  {
  }

  /** The path a walker is on after visiting the first n of paths: the last one visited,
      or the one it was on before if it visited none. */
  function Current<T>(before: Option<T>, paths: seq<T>, n: nat): Option<T>
    requires n <= |paths|
  {
    if n == 0 then before else Some(paths[n - 1])
  }

  /** Where a walker stands, what it has recorded and which path it is on after the walks,
      given where it stood, what it had recorded and which path it was on before them. */
  ghost predicate Progress(paths: seq<Target>, firstI: int, budget: nat, ticks: seq<seq<Tick>>,
                           pos0: Cell, pathway0: seq<Cell>, path0: Option<Target>,
                           walks: seq<seq<Cell>>, steps: seq<nat>, outcomes: seq<Outcome>,
                           pos: Cell, pathway: seq<Cell>, path: Option<Target>)
  {
    && Visited(paths, firstI, budget, ticks, walks, steps, outcomes)
    && Chained(pos0, walks) && pos == Position(pos0, walks)
    && pathway == pathway0 + Flatten(walks)
    && path == Current(path0, paths, |walks|)
  }

  /** Visiting the next target from where the walker stands extends the progress. */
  lemma ProgressGrow(paths: seq<Target>, firstI: int, budget: nat, ticks: seq<seq<Tick>>,
                     pos0: Cell, pathway0: seq<Cell>, path0: Option<Target>,
                     walks: seq<seq<Cell>>, steps: seq<nat>, outcomes: seq<Outcome>,
                     pos: Cell, pathway: seq<Cell>, path: Option<Target>, last: bool, walk: seq<Cell>, n: nat, outcome: Outcome,
                     pos': Cell, pathway': seq<Cell>, path': Option<Target>)
    requires Progress(paths, firstI, budget, ticks, pos0, pathway0, path0, walks, steps, outcomes, pos, pathway, path)
    requires |walks| < |paths| && |walks| < |ticks| && last == (firstI + |walks| >= |paths|)
    requires Approach(paths[|walks|], last, budget, ticks[|walks|], walk, n, outcome)
    requires walk[0] == pos && pathway' == pathway + walk && pos' == walk[n] && path' == Some(paths[|walks|])
    ensures Progress(paths, firstI, budget, ticks, pos0, pathway0, path0, walks + [walk], steps + [n],
                     outcomes + [outcome], pos', pathway', path')
  {
    FlattenAppend(pathway0, walks, walk);
    VisitedGrow(paths, firstI, budget, ticks, walks, steps, outcomes, last, walk, n, outcome);
    ChainedGrow(pos0, walks, walk);
  }

  /** Where a walker that started on start stands after the walks: the end of the last
      one. */
  function Position(start: Cell, walks: seq<seq<Cell>>): Cell
  {
    if walks == [] || walks[|walks| - 1] == [] then start
    else walks[|walks| - 1][|walks[|walks| - 1]| - 1]
  }

  /** Each walk starts where the walker stood before it: on start, then on the end of the
      walk before. */
  ghost predicate Chained(start: Cell, walks: seq<seq<Cell>>)
  {
    walks == [] ||
      (Chained(start, walks[..|walks| - 1]) && walks[|walks| - 1] != []
       && walks[|walks| - 1][0] == Position(start, walks[..|walks| - 1]))
  }

  /** Appending a walk that starts where the walker stands keeps the walks chained. */
  lemma ChainedGrow(start: Cell, walks: seq<seq<Cell>>, walk: seq<Cell>)
    requires Chained(start, walks) && walk != [] && walk[0] == Position(start, walks)
    ensures Chained(start, walks + [walk]) && Position(start, walks + [walk]) == walk[|walk| - 1]
  {
    assert (walks + [walk])[..|walks|] == walks;
  }

  /** The walks one after another. */
  function Flatten(walks: seq<seq<Cell>>): seq<Cell>
  {
    if walks == [] then [] else Flatten(walks[..|walks| - 1]) + walks[|walks| - 1]
  }

  /** Appending one more walk to a log that ends with the flattened walks. */
  lemma FlattenAppend(log: seq<Cell>, walks: seq<seq<Cell>>, walk: seq<Cell>)
    ensures (log + Flatten(walks)) + walk == log + Flatten(walks + [walk])
  {
    assert (walks + [walk])[..|walks|] == walks;
  }
}
