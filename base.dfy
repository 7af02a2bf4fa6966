/** Shared vocabulary: optional values, grid cells, dense real grids (the numpy arrays
    of the simulator), Python's int() truncation and str() on integers. */
module Base {

  datatype Option<T> = None | Some(value: T)

  /** A grid cell (x, y); the first coordinate indexes the outer array. */
  type Cell = (int, int)

  /** A dense 2-D array of reals indexed [x][y], as numpy holds mazes and sniffing maps. */
  type Grid = seq<seq<real>>

  /** Every row is non-empty and as long as the first one. */
  predicate IsRectangular(g: Grid)
  {
    |g| > 0 && |g[0]| > 0 && forall i :: 0 <= i < |g| ==> |g[i]| == |g[0]|
  }

  /** Cell c is a valid (non-wrapping) index of g. */
  predicate InGrid(g: Grid, c: Cell)
  {
    0 <= c.0 < |g| && 0 <= c.1 < |g[c.0]|
  }

  /** The current contents of a 2-D array as a value. */
  function Snapshot(a: array2<real>): (g: Grid)
    reads a
    ensures |g| == a.Length0
    ensures forall i :: 0 <= i < a.Length0 ==> |g[i]| == a.Length1
    ensures forall i, j :: 0 <= i < a.Length0 && 0 <= j < a.Length1 ==> g[i][j] == a[i, j]
  {
    seq(a.Length0, i requires 0 <= i < a.Length0 reads a =>
      seq(a.Length1, j requires 0 <= j < a.Length1 reads a => a[i, j]))
  }

  /** The largest entry of a non-empty row (numpy's max). */
  function RowMax(row: seq<real>): real
    requires |row| > 0
  {
    if |row| == 1 then row[0]
    else
      var rest := RowMax(row[1..]);
      if row[0] >= rest then row[0] else rest
  }

  /** RowMax bounds every entry of the row and is one of them. */
  lemma {:induction false} RowMaxIsMax(row: seq<real>)
    requires |row| > 0
    ensures forall j :: 0 <= j < |row| ==> row[j] <= RowMax(row)
    ensures exists j :: 0 <= j < |row| && row[j] == RowMax(row)
  {
    if |row| > 1 {
      RowMaxIsMax(row[1..]);
      assert forall j :: 1 <= j < |row| ==> row[j] == row[1..][j - 1];
      var k :| 0 <= k < |row[1..]| && row[1..][k] == RowMax(row[1..]);
      if row[0] < RowMax(row[1..]) {
        assert row[k + 1] == RowMax(row);
      } else {
        assert row[0] == RowMax(row);
      }
    } else {
      assert row[0] == RowMax(row);
    }
  }

  /** The largest entry of a grid whose rows are all non-empty (numpy's max on a 2-D array). */
  function GridMax(g: Grid): real
    requires |g| > 0 && forall i :: 0 <= i < |g| ==> |g[i]| > 0
  {
    if |g| == 1 then RowMax(g[0])
    else
      var rest := GridMax(g[1..]);
      var here := RowMax(g[0]);
      if here >= rest then here else rest
  }

  /** GridMax bounds every entry of the grid and is one of them. */
  lemma {:induction false} GridMaxIsMax(g: Grid)
    requires |g| > 0 && forall i :: 0 <= i < |g| ==> |g[i]| > 0
    ensures forall i, j :: 0 <= i < |g| && 0 <= j < |g[i]| ==> g[i][j] <= GridMax(g)
    ensures exists i, j :: 0 <= i < |g| && 0 <= j < |g[i]| && g[i][j] == GridMax(g)
  {
    RowMaxIsMax(g[0]);
    if |g| > 1 {
      GridMaxIsMax(g[1..]);
      assert forall i :: 1 <= i < |g| ==> g[i] == g[1..][i - 1];
      var i1, j1 :| 0 <= i1 < |g[1..]| && 0 <= j1 < |g[1..][i1]| && g[1..][i1][j1] == GridMax(g[1..]);
      if RowMax(g[0]) < GridMax(g[1..]) {
        assert g[i1 + 1][j1] == GridMax(g);
      } else {
        var j0 :| 0 <= j0 < |g[0]| && g[0][j0] == RowMax(g[0]);
        assert g[0][j0] == GridMax(g);
      }
    }
  }

  /** A value that bounds every entry and is attained is the maximum. */
  lemma MaxIsUnique(g: Grid, v: real, i0: int, j0: int)
    requires |g| > 0 && forall i :: 0 <= i < |g| ==> |g[i]| > 0
    requires forall i, j :: 0 <= i < |g| && 0 <= j < |g[i]| ==> g[i][j] <= v
    requires 0 <= i0 < |g| && 0 <= j0 < |g[i0]| && g[i0][j0] == v
    ensures GridMax(g) == v
  {
    GridMaxIsMax(g);
  }

  /** Python's int() on a float: truncation toward zero. */
  function Trunc(r: real): (t: int)
    ensures 0.0 <= r ==> t as real <= r < t as real + 1.0
    ensures r < 0.0 ==> t as real - 1.0 < r <= t as real
  {
    if r >= 0.0 then r.Floor else -((-r).Floor)
  }

  /** Truncation and floor agree exactly on non-negative values and on integers. */
  lemma TruncIsFloorUnlessNegativeFraction(r: real)
    ensures Trunc(r) == r.Floor <==> (r >= 0.0 || r == r.Floor as real)
  {
  }

  function DigitChar(d: int): (c: char)
    requires 0 <= d < 10
    ensures '0' <= c <= '9'
  {
    "0123456789"[d]
  }

  function DigitValue(c: char): (d: int)
    requires '0' <= c <= '9'
    ensures 0 <= d < 10
  {
    c as int - '0' as int
  }

  predicate IsDigits(s: string)
  {
    forall k :: 0 <= k < |s| ==> '0' <= s[k] <= '9'
  }

  /** Python's str() on a non-negative integer: decimal digits without leading zeros. */
  function NatToString(n: nat): (s: string)
    ensures |s| >= 1 && IsDigits(s)
    ensures |s| > 1 ==> s[0] != '0'
  {
    if n < 10 then [DigitChar(n)] else NatToString(n / 10) + [DigitChar(n % 10)]
  }

  /** Reads a string of decimal digits back as a number. */
  function ParseDigits(s: string): (n: nat)
    requires IsDigits(s)
  {
    if s == [] then 0 else ParseDigits(s[..|s| - 1]) * 10 + DigitValue(s[|s| - 1])
  }

  /** str() on naturals is inverted by reading the digits back, so it is injective. */
  lemma {:induction false} ParseNatToString(n: nat)
    ensures ParseDigits(NatToString(n)) == n
  {
    var s := NatToString(n);
    if n < 10 {
      assert s[..|s| - 1] == [];
    } else {
      var prefix := NatToString(n / 10);
      assert s[..|s| - 1] == prefix;
      ParseNatToString(n / 10);
    }
  }

  /** Dropping the sign written before some digits gives the digits back. */
  lemma SignDropped(digits: string)
    ensures ("-" + digits)[1..] == digits
  {
  }

  /** Python's str() on an integer: a minus sign before the digits of a negative value. */
  function IntToString(i: int): (s: string)
    ensures |s| > 0 && (s[0] == '-' <==> i < 0)
    ensures i >= 0 ==> IsDigits(s) && ParseDigits(s) == i
    ensures i < 0 ==> |s| > 1 && IsDigits(s[1..]) && ParseDigits(s[1..]) == -i
  {
    if i < 0 then
      ParseNatToString(-i);
      SignDropped(NatToString(-i));
      "-" + NatToString(-i)
    else
      ParseNatToString(i);
      NatToString(i)
  }

  /** Python's str() on a pair of integers, e.g. "(3, -4)". */
  function CellToString(c: Cell): string
  {
    "(" + IntToString(c.0) + ", " + IntToString(c.1) + ")"
  }
}
