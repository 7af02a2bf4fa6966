/** The floor plan as an occupancy grid, and the paths between its points of interest.
    A cell of cellDimension units is occupied (1) when its centre lies inside a wall. A path
    runs from one cell to another along an A* route; its pre-gradient map holds the route,
    with growing values towards its end, over the negated walls, and its sniffing map is
    that map smoothed by a gaussian filter. */
module Blueprint {
  import opened Base
  import opened ShopObjects

  /** Path.preGradientF: the factor applied to the maze before the route is painted. */
  const PreGradientF: real := -100.0

  /** A route planner (astar over a maze from a start cell to an end cell). */
  type Planner = (Grid, Cell, Cell) -> seq<Cell>

  /** A smoothing filter with a standard deviation per axis (gaussian_filter, mode 'nearest'). */
  type Smoother = (Grid, real, real) -> Grid

  /** A containment test of a point against a polygon (shapely's within). */
  type Within = (Point, seq<Point>) -> bool

  // ---------------------------------------------------------------------------
  // Cells and coordinates
  // ---------------------------------------------------------------------------

  /** The number of whole cells of size c across a length (math.floor). */
  function CellCount(length: real, c: real): int
    requires c != 0.0
  {
    (length / c).Floor
  }

  lemma MulLe(a: real, b: real, c: real)
    requires a <= b && c > 0.0
    ensures a * c <= b * c
  {
  }

  lemma MulLt(a: real, b: real, c: real)
    requires a < b && c > 0.0
    ensures a * c < b * c
  {
  }

  lemma DivMul(a: real, c: real)
    requires c != 0.0
    ensures a / c * c == a && a * c / c == a
  {
  }

  lemma DivLe(a: real, b: real, d: real)
    requires a <= b && d > 0.0
    ensures a / d <= b / d
  {
    DivMul(a, d);
    DivMul(b, d);
    if a / d > b / d {
      MulLt(b / d, a / d, d);
    }
  }

  /** A quotient between t and t + 1 puts the dividend between t c and (t + 1) c. */
  lemma Bracket(v: real, c: real, t: int)
    requires c > 0.0 && t as real <= v / c < (t + 1) as real
    ensures t as real * c <= v < (t + 1) as real * c
  {
    DivMul(v, c);
    MulLe(t as real, v / c, c);
    MulLt(v / c, (t + 1) as real, c);
  }

  /** The cells along a length fill it up to a strip narrower than one cell. */
  lemma CellCountCovers(length: real, c: real)
    requires c > 0.0 && length >= 0.0
    ensures var n := CellCount(length, c);
      n >= 0 && n as real * c <= length < (n + 1) as real * c
  {
    Bracket(length, c, CellCount(length, c));
  }

  /** The cell of a point of interest (int() on both axes): x is divided by c as it is,
      y after adding the vertical translation. */
  function CellOf(p: Point, c: real, yT: real): Cell
    requires c != 0.0
  {
    (Trunc(p.x / c), Trunc((p.y + yT) / c))
  }

  /** For non-negative coordinates the cell found contains the point. */
  lemma CellOfContains(p: Point, c: real, yT: real)
    requires c > 0.0 && p.x >= 0.0 && p.y + yT >= 0.0
    ensures var cell := CellOf(p, c, yT);
      && cell.0 >= 0 && cell.1 >= 0
      && cell.0 as real * c <= p.x < (cell.0 + 1) as real * c
      && cell.1 as real * c <= p.y + yT < (cell.1 + 1) as real * c
  {
    var cell := CellOf(p, c, yT);
    Bracket(p.x, c, cell.0);
    Bracket(p.y + yT, c, cell.1);
  }

  /** int() truncates: a point just left of the origin falls in cell 0, not in cell -1 as
      a floor would place it. */
  lemma CellOfTruncatesTowardZero()
    ensures CellOf(Point(-5.0, 0.0), 20.0, 0.0) == (0, 0)
    ensures (-5.0 / 20.0).Floor == -1
  {
    TruncIsFloorUnlessNegativeFraction(-5.0 / 20.0);
  }

  /** The point defineMaze tests for cell (i, j): the cell's centre, moved back by the
      translation into the coordinates of the walls. */
  function Probe(i: int, j: int, c: real, xT: real, yT: real): Point
  {
    Point((i + 1) as real * c - c / 2.0 - xT, (j + 1) as real * c - c / 2.0 - yT)
  }

  /** The probe of a cell lies half a cell in from its corner. */
  lemma ProbeIsCellCentre(i: int, j: int, c: real, xT: real, yT: real)
    ensures Probe(i, j, c, xT, yT).x + xT == i as real * c + c / 2.0
    ensures Probe(i, j, c, xT, yT).y + yT == j as real * c + c / 2.0
  {
  }

  lemma TruncOfHalf(k: nat)
    ensures Trunc(k as real + 0.5) == k
  {
  }

  /** A cell's probe point, mapped back as a point of interest, gives the cell's row j
      again; its column i comes back only without a horizontal translation, since the
      mapping of points of interest leaves x untranslated. */
  lemma ProbeMapsBackToCell(i: nat, j: nat, c: real, xT: real, yT: real)
    requires c > 0.0
    ensures CellOf(Probe(i, j, c, xT, yT), c, yT).1 == j
    ensures xT == 0.0 ==> CellOf(Probe(i, j, c, xT, yT), c, yT).0 == i
  {
    var p := Probe(i, j, c, xT, yT);
    var qy := j as real + 0.5;
    assert p.y + yT == qy * c;
    DivMul(qy, c);
    assert (p.y + yT) / c == qy;
    TruncOfHalf(j);
    if xT == 0.0 {
      var qx := i as real + 0.5;
      assert p.x == qx * c;
      DivMul(qx, c);
      assert p.x / c == qx;
      TruncOfHalf(i);
    }
  }

  /** With a horizontal translation of one cell, the probe of cell (1, 0) maps back to
      column 0. */
  lemma ProbeMapsBackShiftedByTranslation()
    ensures CellOf(Probe(1, 0, 20.0, 20.0, 0.0), 20.0, 0.0) == (0, 0)
  {
    assert Probe(1, 0, 20.0, 20.0, 0.0) == Point(10.0, 10.0);
  }

  // ---------------------------------------------------------------------------
  // The occupancy grid
  // ---------------------------------------------------------------------------

  /** Some wall outline contains point p. */
  predicate Covered(p: Point, polys: seq<seq<Point>>, within: Within)
  {
    exists k :: 0 <= k < |polys| && within(p, polys[k])
  }

  /** defineMaze as a value: every cell whose probe some wall contains becomes 1. */
  function MarkWalls(g: Grid, polys: seq<seq<Point>>, c: real, xT: real, yT: real, within: Within): (r: Grid)
    ensures |r| == |g| && forall i :: 0 <= i < |g| ==> |r[i]| == |g[i]|
  {
    seq(|g|, i requires 0 <= i < |g| =>
      seq(|g[i]|, j requires 0 <= j < |g[i]| =>
        if Covered(Probe(i, j, c, xT, yT), polys, within) then 1.0 else g[i][j]))
  }

  /** Starting from the zero maze initMaze builds, a cell is 1 exactly when its probe lies
      inside a wall, and 0 otherwise. */
  lemma MarkWallsOnZeros(g: Grid, polys: seq<seq<Point>>, c: real, xT: real, yT: real, within: Within, i: int, j: int)
    requires forall a, b :: 0 <= a < |g| && 0 <= b < |g[a]| ==> g[a][b] == 0.0
    requires 0 <= i < |g| && 0 <= j < |g[i]|
    ensures var r := MarkWalls(g, polys, c, xT, yT, within);
      (r[i][j] == 1.0 <==> Covered(Probe(i, j, c, xT, yT), polys, within))
      && (r[i][j] == 0.0 <==> !Covered(Probe(i, j, c, xT, yT), polys, within))
  {
  }

  /** Marking the same walls again changes nothing. */
  lemma MarkWallsIdempotent(g: Grid, polys: seq<seq<Point>>, c: real, xT: real, yT: real, within: Within)
    ensures var r := MarkWalls(g, polys, c, xT, yT, within);
      MarkWalls(r, polys, c, xT, yT, within) == r
  {
    var r := MarkWalls(g, polys, c, xT, yT, within);
    var r2 := MarkWalls(r, polys, c, xT, yT, within);
    forall i | 0 <= i < |g|
      ensures r2[i] == r[i]
    {
    }
  }

  /** The outline polygons of a list of walls. */
  function Polys(walls: seq<Wall>): (ps: seq<seq<Point>>)
    reads walls
    ensures |ps| == |walls| && forall k :: 0 <= k < |walls| ==> ps[k] == walls[k].poly
  {
    seq(|walls|, k requires 0 <= k < |walls| reads walls => walls[k].poly)
  }

  /** An array whose entries are those of grid g has g as its snapshot. */
  lemma SnapshotEquals(a: array2<real>, g: Grid)
    requires |g| == a.Length0 && forall i :: 0 <= i < |g| ==> |g[i]| == a.Length1
    requires forall i, j :: 0 <= i < a.Length0 && 0 <= j < a.Length1 ==> a[i, j] == g[i][j]
    ensures Snapshot(a) == g
  {
    var s := Snapshot(a);
    forall i | 0 <= i < |g|
      ensures s[i] == g[i]
    {
    }
  }

  // ---------------------------------------------------------------------------
  // Normalisation
  // ---------------------------------------------------------------------------

  /** numpy's max is defined (non-empty rows) and division by it is defined (non-zero). */
  predicate CanNormalize(g: Grid)
  {
    |g| > 0 && (forall i :: 0 <= i < |g| ==> |g[i]| > 0) && GridMax(g) != 0.0
  }

  /** maze / maze.max() */
  function Normalized(g: Grid): (r: Grid)
    requires CanNormalize(g)
    ensures |r| == |g| && forall i :: 0 <= i < |g| ==> |r[i]| == |g[i]|
  {
    var d := GridMax(g);
    seq(|g|, i requires 0 <= i < |g| => seq(|g[i]|, j requires 0 <= j < |g[i]| => g[i][j] / d))
  }

  /** The cell holding the maximum holds 1 after normalising. */
  lemma NormalizedHitsOne(g: Grid) returns (i0: int, j0: int)
    requires CanNormalize(g)
    ensures 0 <= i0 < |g| && 0 <= j0 < |g[i0]| && Normalized(g)[i0][j0] == 1.0
  {
    GridMaxIsMax(g);
    i0, j0 :| 0 <= i0 < |g| && 0 <= j0 < |g[i0]| && g[i0][j0] == GridMax(g);
    assert Normalized(g)[i0][j0] == GridMax(g) / GridMax(g);
  }

  /** No entry exceeds 1 after normalising by a positive maximum. */
  lemma NormalizedAtMostOne(g: Grid)
    requires CanNormalize(g) && GridMax(g) > 0.0
    ensures forall i, j :: 0 <= i < |g| && 0 <= j < |g[i]| ==> Normalized(g)[i][j] <= 1.0
  {
    var d := GridMax(g);
    GridMaxIsMax(g);
    forall i, j | 0 <= i < |g| && 0 <= j < |g[i]|
      ensures Normalized(g)[i][j] <= 1.0
    {
      DivLe(g[i][j], d, d);
    }
  }

  /** The normalised maze can be normalised again, and when its maximum was positive it is
      1 afterwards. */
  lemma NormalizedMax(g: Grid)
    requires CanNormalize(g)
    ensures CanNormalize(Normalized(g))
    ensures GridMax(g) > 0.0 ==> GridMax(Normalized(g)) == 1.0
  {
    var r := Normalized(g);
    var i0, j0 := NormalizedHitsOne(g);
    GridMaxIsMax(r);
    if GridMax(g) > 0.0 {
      NormalizedAtMostOne(g);
      MaxIsUnique(r, 1.0, i0, j0);
    }
  }

  /** Normalising twice is normalising once, when the maximum was positive. */
  lemma NormalizedIdempotent(g: Grid)
    requires CanNormalize(g) && GridMax(g) > 0.0
    ensures CanNormalize(Normalized(g)) && Normalized(Normalized(g)) == Normalized(g)
  {
    NormalizedMax(g);
    var r := Normalized(g);
    var r2 := Normalized(r);
    forall i | 0 <= i < |r|
      ensures r2[i] == r[i]
    {
    }
  }

  /** maze /= maze.max(), in place. */
  method NormalizeInPlace(maze: array2<real>)
    requires CanNormalize(Snapshot(maze))
    modifies maze
    ensures Snapshot(maze) == Normalized(old(Snapshot(maze)))
  {
    var g := Snapshot(maze);
    var d := GridMax(g);
    var i := 0;
    while i < maze.Length0
      invariant 0 <= i <= maze.Length0
      invariant forall a, b :: 0 <= a < maze.Length0 && 0 <= b < maze.Length1 ==>
        maze[a, b] == if a < i then g[a][b] / d else g[a][b]
    {
      var j := 0;
      while j < maze.Length1
        invariant 0 <= j <= maze.Length1
        invariant forall a, b :: 0 <= a < maze.Length0 && 0 <= b < maze.Length1 ==>
          maze[a, b] == if a < i || (a == i && b < j) then g[a][b] / d else g[a][b]
      {
        maze[i, j] := maze[i, j] / d;
        j := j + 1;
      }
      i := i + 1;
    }
    SnapshotEquals(maze, Normalized(g));
  }

  // ---------------------------------------------------------------------------
  // The pre-gradient map
  // ---------------------------------------------------------------------------

  /** Path.gradPathF: the value painted on the i-th cell of the route. */
  function GradPathF(i: int): int
  {
    i * i
  }

  /** Along the route the painted values grow strictly towards its end. */
  lemma GradPathIncreasing(a: int, b: int)
    requires 0 <= a < b
    ensures 0 <= GradPathF(a) < GradPathF(b)
  {
    assert a * a <= a * b;
    assert a * b < b * b;
  }

  /** Every cell of the route is a cell of grid g. */
  predicate PathInside(route: seq<Cell>, g: Grid)
  {
    forall k :: 0 <= k < |route| ==> InGrid(g, route[k])
  }

  /** The planner only returns cells of the maze it is given. */
  ghost predicate StaysInMaze(astar: Planner)
  {
    forall g, s, e :: PathInside(astar(g, s, e), g)
  }

  /** The last position before n at which the route visits cell c. */
  function LastIndexOf(route: seq<Cell>, c: Cell, n: nat): (r: Option<nat>)
    requires n <= |route|
    ensures r.Some? ==> r.value < n && route[r.value] == c && forall k :: r.value < k < n ==> route[k] != c
    ensures r.None? ==> forall k :: 0 <= k < n ==> route[k] != c
  {
    if n == 0 then None
    else if route[n - 1] == c then Some(n - 1)
    else LastIndexOf(route, c, n - 1)
  }

  /** Grid g with cell c set to v. */
  function Update(g: Grid, c: Cell, v: real): Grid
    requires InGrid(g, c)
  {
    g[c.0 := g[c.0][c.1 := v]]
  }

  /** The first n cells of the route painted onto g in order, cell k with GradPathF(k). */
  function Paint(g: Grid, route: seq<Cell>, n: nat): (r: Grid)
    requires n <= |route| && PathInside(route, g)
    ensures |r| == |g| && forall i :: 0 <= i < |g| ==> |r[i]| == |g[i]|
  {
    if n == 0 then g
    else
      var before := Paint(g, route, n - 1);
      assert InGrid(before, route[n - 1]);
      Update(before, route[n - 1], GradPathF(n - 1) as real)
  }

  /** A painted cell holds the value of the last time the route visits it; the other cells
      keep theirs. */
  lemma {:induction false} PaintAt(g: Grid, route: seq<Cell>, n: nat, x: int, y: int)
    requires n <= |route| && PathInside(route, g) && InGrid(g, (x, y))
    ensures Paint(g, route, n)[x][y] ==
      match LastIndexOf(route, (x, y), n)
      case None => g[x][y]
      case Some(k) => GradPathF(k) as real
  {
    if n > 0 {
      PaintAt(g, route, n - 1, x, y);
    }
  }

  /** The loop of getPreGradientMap: writes GradPathF(i) into the cell of route index i,
      in order. */
  method PaintRoute(a: array2<real>, g: Grid, route: seq<Cell>)
    requires Snapshot(a) == g && PathInside(route, g)
    modifies a
    ensures Snapshot(a) == Paint(g, route, |route|)
  {
    var i := 0;
    while i < |route|
      invariant 0 <= i <= |route|
      invariant forall x, y :: 0 <= x < a.Length0 && 0 <= y < a.Length1 ==>
        a[x, y] == Paint(g, route, i)[x][y]
    {
      var (x, y) := route[i];
      a[x, y] := GradPathF(i) as real;
      i := i + 1;
    }
    SnapshotEquals(a, Paint(g, route, |route|));
  }

  /** The divisor of getPreGradientMap: the maximum when normalising, else 1. */
  function Divisor(g: Grid, toNormalize: bool): real
    requires toNormalize ==> CanNormalize(g)
  {
    if toNormalize then GridMax(g) else 1.0
  }

  /** The maze divided by the divisor and multiplied by preGradientF. */
  function Scaled(g: Grid, d: real): (r: Grid)
    requires d != 0.0
    ensures |r| == |g| && forall i :: 0 <= i < |g| ==> |r[i]| == |g[i]|
  {
    seq(|g|, i requires 0 <= i < |g| =>
      seq(|g[i]|, j requires 0 <= j < |g[i]| => g[i][j] / d * PreGradientF))
  }

  /** getPreGradientMap as a value: the scaled maze with the route painted on it. */
  function PreGradient(g: Grid, route: seq<Cell>, toNormalize: bool): (r: Grid)
    requires PathInside(route, g) && (toNormalize ==> CanNormalize(g))
    ensures |r| == |g| && forall i :: 0 <= i < |g| ==> |r[i]| == |g[i]|
  {
    Paint(Scaled(g, Divisor(g, toNormalize)), route, |route|)
  }

  /** A cell of the pre-gradient map holds GradPathF of the last route index that visits
      it, and the maze value divided and multiplied by preGradientF when the route does not
      visit it. */
  lemma PreGradientAt(g: Grid, route: seq<Cell>, toNormalize: bool, x: int, y: int)
    requires PathInside(route, g) && (toNormalize ==> CanNormalize(g)) && InGrid(g, (x, y))
    ensures PreGradient(g, route, toNormalize)[x][y] ==
      match LastIndexOf(route, (x, y), |route|)
      case None => g[x][y] / Divisor(g, toNormalize) * PreGradientF
      case Some(k) => GradPathF(k) as real
  {
    var d := Divisor(g, toNormalize);
    var scaled := Scaled(g, d);
    assert scaled[x][y] == g[x][y] / d * PreGradientF;
    PaintAt(scaled, route, |route|, x, y);
  }

  /** On a maze without negative values whose divisor is positive, no cell off the route
      is above any cell on it: walls sink to at most 0, the route is at least 0. */
  lemma PreGradientRouteOnTop(g: Grid, route: seq<Cell>, toNormalize: bool, x: int, y: int, k: nat)
    requires PathInside(route, g) && (toNormalize ==> CanNormalize(g)) && InGrid(g, (x, y))
    requires forall a, b :: 0 <= a < |g| && 0 <= b < |g[a]| ==> g[a][b] >= 0.0
    requires Divisor(g, toNormalize) > 0.0
    requires k < |route| && (x, y) !in route
    ensures var r := PreGradient(g, route, toNormalize);
      r[x][y] <= 0.0 <= r[route[k].0][route[k].1]
  {
    PreGradientAt(g, route, toNormalize, x, y);
    var c := route[k];
    PreGradientAt(g, route, toNormalize, c.0, c.1);
    var last := LastIndexOf(route, c, |route|);
    GradPathIncreasing(0, last.value + 1);
    assert g[x][y] / Divisor(g, toNormalize) >= 0.0;
  }

  /** After the maze was normalised by a positive maximum, normalising it again for the
      pre-gradient map gives the map it gives without normalising. */
  lemma RenormalizingIsHarmless(g: Grid, route: seq<Cell>)
    requires CanNormalize(g) && GridMax(g) > 0.0 && PathInside(route, g)
    ensures CanNormalize(Normalized(g)) && PathInside(route, Normalized(g))
    ensures PreGradient(Normalized(g), route, true) == PreGradient(Normalized(g), route, false)
  {
    NormalizedMax(g);
  }

  // ---------------------------------------------------------------------------
  // Path ids and sigmas
  // ---------------------------------------------------------------------------

  /** Path.calcSigma on one axis: m_sigma * n + b_sigma. */
  function Sigma(n: int): real
  {
    0.035 * n as real - 0.1
  }

  /** A wider maze gets a wider filter. */
  lemma SigmaMonotone(n1: int, n2: int)
    requires n1 <= n2
    ensures Sigma(n1) <= Sigma(n2)
  {
  }

  /** The filter width is positive only from three cells on. */
  lemma SigmaPositiveIff(n: int)
    ensures Sigma(n) > 0.0 <==> n >= 3
  {
  }

  /** The id a path gets when none is given: "p-" + str(start) + "-" + str(end). */
  function DefaultId(start: Cell, end: Cell): (r: string)
    ensures |r| > 2 && r[..2] == "p-"
  {
    "p-" + CellToString(start) + "-" + CellToString(end)
  }

  /** A given non-empty id wins; None and "" fall back to the default. */
  function PathId(id: Option<string>, start: Cell, end: Cell): (r: string)
    ensures |r| > 0
  {
    if id.Some? && id.value != "" then id.value else DefaultId(start, end)
  }

  predicate NoChar(s: string, m: char)
  {
    forall k :: 0 <= k < |s| ==> s[k] != m
  }

  /** Splitting before the first occurrence of a marker is unique. */
  lemma SplitBeforeMarker(x: string, y: string, x2: string, y2: string, m: char)
    requires x + y == x2 + y2
    requires NoChar(x, m) && NoChar(x2, m)
    requires |y| > 0 && y[0] == m && |y2| > 0 && y2[0] == m
    ensures x == x2 && y == y2
  {
    assert x == (x + y)[..|x|];
    assert x2 == (x2 + y2)[..|x2|];
  }

  /** Splitting after the first occurrence of a marker is unique. */
  lemma SplitAfterMarker(x: string, y: string, x2: string, y2: string, m: char)
    requires x + y == x2 + y2
    requires |x| > 0 && x[|x| - 1] == m && NoChar(x[..|x| - 1], m)
    requires |x2| > 0 && x2[|x2| - 1] == m && NoChar(x2[..|x2| - 1], m)
    ensures x == x2 && y == y2
  {
    assert x == (x + y)[..|x|];
    assert x2 == (x2 + y2)[..|x2|];
  }

  /** str() of an integer holds no comma and no closing parenthesis. */
  lemma IntToStringHasNoSeparators(i: int)
    ensures NoChar(IntToString(i), ',') && NoChar(IntToString(i), ')')
  {
    if i < 0 {
      var digits := NatToString(-i);
      assert forall k :: 1 <= k < |IntToString(i)| ==> IntToString(i)[k] == digits[k - 1];
    }
  }

  /** The text of an integer as str() writes it: an optional minus sign, then digits. */
  predicate IsIntText(s: string)
  {
    (|s| > 0 && s[0] == '-' && IsDigits(s[1..])) || IsDigits(s)
  }

  /** Reads the text of an integer back (int() on a string). */
  function ParseInt(s: string): int
    requires IsIntText(s)
  {
    if |s| > 0 && s[0] == '-' then -(ParseDigits(s[1..]) as int) else ParseDigits(s)
  }

  /** int(str(i)) == i */
  lemma ParseIntToString(i: int)
    ensures IsIntText(IntToString(i)) && ParseInt(IntToString(i)) == i
  {
    if i < 0 {
      var digits := NatToString(-i);
      ParseNatToString(-i);
      var s := IntToString(i);
      assert s == "-" + digits;
      assert s[1..] == digits;
      assert ParseInt(s) == -(ParseDigits(digits) as int);
    } else {
      var digits := NatToString(i);
      ParseNatToString(i);
      assert IntToString(i) == digits;
      assert '0' <= digits[0] <= '9';
      assert ParseInt(digits) == ParseDigits(digits);
    }
  }

  /** str() on integers is injective. */
  lemma IntToStringInjective(i: int, i2: int)
    requires IntToString(i) == IntToString(i2)
    ensures i == i2
  {
    ParseIntToString(i);
    ParseIntToString(i2);
  }

  lemma CellToStringAfterParenthesis(c: Cell)
    ensures CellToString(c)[1..] == IntToString(c.0) + (", " + IntToString(c.1) + ")")
  {
    AfterPrefix("(", IntToString(c.0), ", ", IntToString(c.1) + ")");
    assert CellToString(c) == "(" + IntToString(c.0) + ", " + (IntToString(c.1) + ")");
  }

  /** str() on pairs of integers is injective. */
  lemma CellToStringInjective(c: Cell, c2: Cell)
    requires CellToString(c) == CellToString(c2)
    ensures c == c2
  {
    var a, b := IntToString(c.0), IntToString(c.1);
    var a2, b2 := IntToString(c2.0), IntToString(c2.1);
    IntToStringHasNoSeparators(c.0);
    IntToStringHasNoSeparators(c2.0);
    var rest, rest2 := ", " + b + ")", ", " + b2 + ")";
    CellToStringAfterParenthesis(c);
    CellToStringAfterParenthesis(c2);
    SplitBeforeMarker(a, rest, a2, rest2, ',');
    assert b == rest[2..|rest| - 1] && b2 == rest2[2..|rest2| - 1];
    IntToStringInjective(c.0, c2.0);
    IntToStringInjective(c.1, c2.1);
  }

  /** str() of a pair closes its only parenthesis at its end. */
  lemma CellToStringClosesAtEnd(c: Cell)
    ensures var s := CellToString(c); |s| > 0 && s[|s| - 1] == ')' && NoChar(s[..|s| - 1], ')')
  {
    var a, b := IntToString(c.0), IntToString(c.1);
    IntToStringHasNoSeparators(c.0);
    IntToStringHasNoSeparators(c.1);
    var s := CellToString(c);
    assert s[..|s| - 1] == "(" + a + ", " + b;
  }

  lemma DefaultIdAfterPrefix(s: Cell, e: Cell)
    ensures DefaultId(s, e)[2..] == CellToString(s) + ("-" + CellToString(e))
  {
    AfterPrefix("p-", CellToString(s), "-", CellToString(e));
  }

  lemma AfterPrefix(p: string, x: string, m: string, y: string)
    ensures (p + x + m + y)[|p|..] == x + (m + y)
  {
    assert p + x + m + y == p + (x + (m + y));
  }

  /** Distinct endpoints give distinct default ids, so paths added under default ids only
      overwrite paths between the same two cells. */
  lemma DefaultIdInjective(s: Cell, e: Cell, s2: Cell, e2: Cell)
    requires DefaultId(s, e) == DefaultId(s2, e2)
    ensures s == s2 && e == e2
  {
    var x, y := CellToString(s), CellToString(e);
    var x2, y2 := CellToString(s2), CellToString(e2);
    DefaultIdAfterPrefix(s, e);
    DefaultIdAfterPrefix(s2, e2);
    CellToStringClosesAtEnd(s);
    CellToStringClosesAtEnd(s2);
    SplitAfterMarker(x, "-" + y, x2, "-" + y2, ')');
    assert y == ("-" + y)[1..] && y2 == ("-" + y2)[1..];
    CellToStringInjective(s, s2);
    CellToStringInjective(e, e2);
  }

  // ---------------------------------------------------------------------------
  // Path
  // ---------------------------------------------------------------------------

  class Path {
    const start: Cell
    const end: Cell
    const id: string
    /** The route, None until findBestPath. */
    var path: Option<seq<Cell>>
    var sigmaX: real
    var sigmaY: real
    var sniffingMap: Grid

    /** The sigmas and the sniffing map exist only once calcSigma and createSniffingMap
        ran; they start as 0 and the empty grid. */
    constructor (start: Cell, end: Cell, id: Option<string> := None)
      ensures this.start == start && this.end == end && this.id == PathId(id, start, end)
      ensures path == None && sigmaX == 0.0 && sigmaY == 0.0 && sniffingMap == []
    {
      this.start := start;
      this.end := end;
      path := None;
      if id.Some? && id.value != "" {
        this.id := id.value;
      } else {
        this.id := "p-" + CellToString(start) + "-" + CellToString(end);
      }
      sigmaX, sigmaY := 0.0, 0.0;
      sniffingMap := [];
    }

    method CalcSigma(xSigma: int, ySigma: int)
      modifies this`sigmaX, this`sigmaY
      ensures sigmaX == Sigma(xSigma) && sigmaY == Sigma(ySigma)
    {
      sigmaX := 0.035 * xSigma as real + -0.1;
      sigmaY := 0.035 * ySigma as real + -0.1;
    }

    /** A fresh copy of the maze, divided by its maximum when normalising, multiplied by
        preGradientF, with the route painted on it. */
    method GetPreGradientMap(maze: array2<real>, toNormalize: bool := true) returns (a: array2<real>)
      requires path.Some? && PathInside(path.value, Snapshot(maze))
      requires toNormalize ==> CanNormalize(Snapshot(maze))
      ensures fresh(a) && Snapshot(a) == PreGradient(Snapshot(maze), path.value, toNormalize)
    {
      var g := Snapshot(maze);
      var d := Divisor(g, toNormalize);
      var scaled := Scaled(g, d);
      a := new real[maze.Length0, maze.Length1]((x, y) =>
        if 0 <= x < |scaled| && 0 <= y < |scaled[x]| then scaled[x][y] else 0.0);
      SnapshotEquals(a, scaled);
      PaintRoute(a, scaled, path.value);
    }

    /** The sniffing map: the pre-gradient map, smoothed with the path's sigmas. */
    method CreateSniffingMap(maze: array2<real>, smooth: Smoother, toNormalize: bool := true)
      requires path.Some? && PathInside(path.value, Snapshot(maze))
      requires toNormalize ==> CanNormalize(Snapshot(maze))
      modifies this`sniffingMap
      ensures sniffingMap == smooth(PreGradient(Snapshot(maze), path.value, toNormalize), sigmaX, sigmaY)
    {
      var mazePathMap := GetPreGradientMap(maze, toNormalize);
      sniffingMap := smooth(Snapshot(mazePathMap), sigmaX, sigmaY);
    }

    /** Normalises the caller's maze in place, plans the route on it and builds the
        sniffing map without normalising again. */
    method FindBestPath(maze: array2<real>, astar: Planner, smooth: Smoother)
      requires CanNormalize(Snapshot(maze)) && StaysInMaze(astar)
      modifies maze, this`path, this`sniffingMap
      ensures Snapshot(maze) == Normalized(old(Snapshot(maze)))
      ensures path == Some(astar(Snapshot(maze), start, end)) && PathInside(path.value, Snapshot(maze))
      ensures sniffingMap == smooth(PreGradient(Snapshot(maze), path.value, false), sigmaX, sigmaY)
    {
      NormalizeInPlace(maze);
      path := Some(astar(Snapshot(maze), start, end));
      CreateSniffingMap(maze, smooth, false);
    }
  }

  // ---------------------------------------------------------------------------
  // Blueprint
  // ---------------------------------------------------------------------------

  /** initMaze can build the maze: the cell size is not zero and neither count is negative. */
  predicate CanInitMaze(width: real, height: real, c: real)
  {
    c != 0.0 && CellCount(width, c) >= 0 && CellCount(height, c) >= 0
  }

  class Blueprint {
    const x1: real
    const y1: real
    const x2: real
    const y2: real
    const width: real
    const height: real
    /** (xTranslation, yTranslation), None until setTranslation. */
    var translation: Option<(real, real)>
    var cellDimension: real
    /** None until initMaze. */
    var maze: Option<array2<real>>
    var paths: map<string, Path>

    constructor (x1: real, y1: real, x2: real, y2: real)
      ensures this.x1 == x1 && this.y1 == y1 && this.x2 == x2 && this.y2 == y2
      ensures width == x2 - x1 && height == y2 - y1
      ensures translation == None && cellDimension == 15.0 && maze == None && paths == map[]
    {
      this.x1, this.x2, this.y1, this.y2 := x1, x2, y1, y2;
      width := x2 - x1;
      height := y2 - y1;
      translation := None;
      cellDimension := 15.0;
      maze := None;
      paths := map[];
    }

    method SetTranslation(x: real, y: real)
      modifies this`translation
      ensures translation == Some((x, y))
    {
      translation := Some((x, y));
    }

    /** A fresh all-zero maze of floor(width / c) by floor(height / c) cells. */
    method InitMaze()
      requires CanInitMaze(width, height, cellDimension)
      modifies this`maze
      ensures maze.Some? && fresh(maze.value)
      ensures maze.value.Length0 == CellCount(width, cellDimension)
      ensures maze.value.Length1 == CellCount(height, cellDimension)
      ensures forall i, j :: 0 <= i < maze.value.Length0 && 0 <= j < maze.value.Length1 ==> maze.value[i, j] == 0.0
    {
      var mazeX := (width / cellDimension).Floor;
      var mazeY := (height / cellDimension).Floor;
      var zeros := new real[mazeX, mazeY]((_, _) => 0.0);
      maze := Some(zeros);
    }

    /** Sets the cell size and, when asked, rebuilds the maze for it. */
    method SetCellDimension(dim: real, initMaze: bool := true)
      requires initMaze ==> CanInitMaze(width, height, dim)
      modifies this`cellDimension, this`maze
      ensures cellDimension == dim
      ensures !initMaze ==> maze == old(maze)
      ensures initMaze ==> (maze.Some? && fresh(maze.value)
        && maze.value.Length0 == CellCount(width, dim) && maze.value.Length1 == CellCount(height, dim)
        && forall i, j :: 0 <= i < maze.value.Length0 && 0 <= j < maze.value.Length1 ==> maze.value[i, j] == 0.0)
    {
      cellDimension := dim;
      if initMaze {
        InitMaze();
      }
    }

    /** Marks with 1 every cell whose probe some wall contains; other cells keep their
        value. */
    method DefineMaze(walls: seq<Wall>, within: Within)
      requires maze.Some? && translation.Some?
      modifies maze.value
      ensures Snapshot(maze.value) == MarkWalls(old(Snapshot(maze.value)), Polys(walls),
        cellDimension, translation.value.0, translation.value.1, within)
    {
      var m := maze.value;
      var c := cellDimension;
      var (xT, yT) := translation.value;
      ghost var g := Snapshot(m);
      ghost var polys := Polys(walls);
      var i := 0;
      while i < m.Length0
        invariant 0 <= i <= m.Length0
        invariant forall a, b :: 0 <= a < m.Length0 && 0 <= b < m.Length1 ==>
          m[a, b] == if a < i then MarkWalls(g, polys, c, xT, yT, within)[a][b] else g[a][b]
      {
        var j := 0;
        while j < m.Length1
          invariant 0 <= j <= m.Length1
          invariant forall a, b :: 0 <= a < m.Length0 && 0 <= b < m.Length1 ==>
            m[a, b] == if a < i || (a == i && b < j) then MarkWalls(g, polys, c, xT, yT, within)[a][b] else g[a][b]
        {
          var pCheck := Probe(i, j, c, xT, yT);
          var k := 0;
          while k < |walls|
            invariant 0 <= k <= |walls|
            invariant m[i, j] == g[i][j]
            invariant forall q :: 0 <= q < k ==> !within(pCheck, polys[q])
          {
            if within(pCheck, walls[k].poly) {
              m[i, j] := 1.0;
              break;
            }
            k := k + 1;
          }
          j := j + 1;
        }
        i := i + 1;
      }
      SnapshotEquals(m, MarkWalls(g, polys, c, xT, yT, within));
    }

    /** The route between the cells of two points of interest. */
    method GetAstar(entrance: Point, exit: Point, astar: Planner) returns (route: seq<Cell>)
      requires maze.Some? && translation.Some? && cellDimension != 0.0
      ensures route == astar(Snapshot(maze.value),
        CellOf(entrance, cellDimension, translation.value.1), CellOf(exit, cellDimension, translation.value.1))
    {
      var c := cellDimension;
      var yT := translation.value.1;
      var start := (Trunc(entrance.x / c), Trunc((entrance.y + yT) / c));
      var end := (Trunc(exit.x / c), Trunc((exit.y + yT) / c));
      route := astar(Snapshot(maze.value), start, end);
    }

    /** calcPath can run: the maze exists, the translation is set, the cell size is not zero
        and the maze's maximum is not zero. */
    predicate ReadyForPaths()
      reads this, if maze.Some? then {maze.value} else {}
    {
      maze.Some? && translation.Some? && cellDimension != 0.0 && CanNormalize(Snapshot(maze.value))
    }

    /** Builds the path between two points of interest and stores it under its id. The
        maze is normalised in place on the way. */
    method CalcPath(start: Point, end: Point, astar: Planner, smooth: Smoother, id: Option<string> := None) returns (p: Path)
      requires maze.Some? && translation.Some? && cellDimension != 0.0
      requires CanNormalize(Snapshot(maze.value)) && StaysInMaze(astar)
      modifies maze.value, this`paths
      ensures fresh(p)
      ensures p.start == CellOf(start, cellDimension, translation.value.1)
      ensures p.end == CellOf(end, cellDimension, translation.value.1)
      ensures p.id == PathId(id, p.start, p.end)
      ensures p.sigmaX == Sigma(Trunc(width / cellDimension)) && p.sigmaY == Sigma(Trunc(height / cellDimension))
      ensures Snapshot(maze.value) == Normalized(old(Snapshot(maze.value))) && CanNormalize(Snapshot(maze.value))
      ensures p.path == Some(astar(Snapshot(maze.value), p.start, p.end)) && PathInside(p.path.value, Snapshot(maze.value))
      ensures p.sniffingMap == smooth(PreGradient(Snapshot(maze.value), p.path.value, true), p.sigmaX, p.sigmaY)
      ensures paths == old(paths)[p.id := p]
    {
      var c := cellDimension;
      var yT := translation.value.1;
      var s := CellOf(start, c, yT);
      var e := CellOf(end, c, yT);
      p := new Path(s, e, id);
      var xSigma := Trunc(width / c);
      var ySigma := Trunc(height / c);
      p.CalcSigma(xSigma, ySigma);
      ghost var g := Snapshot(maze.value);
      p.FindBestPath(maze.value, astar, smooth);
      NormalizedMax(g);
      p.CreateSniffingMap(maze.value, smooth);
      paths := paths[p.id := p];
    }
  }
}
