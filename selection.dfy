/** The direction-selection rule both walkers share: the weights of the number of candidates,
    the descending ranking of a 3x3 neighbourhood (flattened row-major, index 3 i + j),
    the candidate pool (the top n, cut at the first negative value), the uniform choice
    from the pool and the move it causes. Random draws are inputs (StepDraw). */
module Selection {
  import opened Base

  // ---------------------------------------------------------------- probDistr

  /** (2.5 p)^3, the slope by which the raw weight falls per extra candidate. */
  function Steepness(pred: real): real
  {
    (2.5 * pred) * (2.5 * pred) * (2.5 * pred)
  }

  function Clamp(p: real): real
  {
    if p < 0.0 then 0.0 else p
  }

  /** 10 - k (x - 1), clamped at 0. */
  function SlopedWeight(k: real, x: real): real
  {
    Clamp(-k * (x - 1.0) + 10.0)
  }

  /** Raw weight of drawing x candidates: 10 - (2.5 p)^3 (x - 1), clamped at 0. */
  function RawWeight(pred: real, x: int): real
  {
    SlopedWeight(Steepness(pred), x as real)
  }

  function RawWeights(n: nat, pred: real): (ws: seq<real>)
    ensures |ws| == n
    ensures forall i :: 0 <= i < n ==> ws[i] >= 0.0
    ensures n > 0 ==> ws[0] == 10.0
  {
    seq(n, i => RawWeight(pred, i + 1))
  }

  function Sum(s: seq<real>): real
  {
    if s == [] then 0.0 else s[0] + Sum(s[1..])
  }

  lemma {:induction false} SumNonNegative(s: seq<real>)
    requires forall i :: 0 <= i < |s| ==> s[i] >= 0.0
    ensures Sum(s) >= 0.0
  {
    if s != [] {
      SumNonNegative(s[1..]);
    }
  }

  /** The first raw weight is 10 and none is negative, so the normaliser is at least 10. */
  lemma RawTotalAtLeastTen(n: nat, pred: real)
    requires n >= 1
    ensures Sum(RawWeights(n, pred)) >= 10.0
  {
    var ws := RawWeights(n, pred);
    SumNonNegative(ws[1..]);
  }

  /** probDistr(n, p): the raw weights divided by their sum. */
  function ProbDistr(n: nat, pred: real): (r: seq<real>)
    ensures |r| == n
    ensures forall i :: 0 <= i < n ==> r[i] >= 0.0
  {
    if n == 0 then []
    else
      var ws := RawWeights(n, pred);
      RawTotalAtLeastTen(n, pred);
      var total := Sum(ws);
      seq(n, i requires 0 <= i < n => ws[i] / total)
  }

  lemma {:induction false} SumDivided(s: seq<real>, t: real)
    requires t != 0.0
    ensures Sum(seq(|s|, i requires 0 <= i < |s| => s[i] / t)) == Sum(s) / t
  {
    var d := seq(|s|, i requires 0 <= i < |s| => s[i] / t);
    if s != [] {
      var tail := s[1..];
      assert d[1..] == seq(|tail|, i requires 0 <= i < |tail| => tail[i] / t);
      SumDivided(tail, t);
      assert Sum(d) == s[0] / t + Sum(tail) / t;
      assert s[0] / t + Sum(tail) / t == (s[0] + Sum(tail)) / t;
    }
  }

  /** The weights of a non-empty distribution sum to one. */
  lemma ProbDistrSumsToOne(n: nat, pred: real)
    requires n >= 1
    ensures Sum(ProbDistr(n, pred)) == 1.0
  {
    var ws := RawWeights(n, pred);
    RawTotalAtLeastTen(n, pred);
    var total := Sum(ws);
    SumDivided(ws, total);
    assert ProbDistr(n, pred) == seq(|ws|, i requires 0 <= i < |ws| => ws[i] / total);
  }

  lemma SteepnessNonNegative(pred: real)
    requires pred >= 0.0
    ensures Steepness(pred) >= 0.0
  {
    var a := 2.5 * pred;
    assert a * a >= 0.0;
    assert a * a * a >= 0.0;
  }

  lemma ClampKeepsOrder(p: real, q: real)
    requires p >= q
    ensures Clamp(p) >= Clamp(q)
  {
  }

  lemma SlopedWeightNonIncreasing(k: real, x: real, y: real)
    requires k >= 0.0 && x <= y
    ensures SlopedWeight(k, x) >= SlopedWeight(k, y)
  {
    var d := y - x;
    assert k * d >= 0.0;
    assert k * (y - 1.0) == k * (x - 1.0) + k * d;
    ClampKeepsOrder(-k * (x - 1.0) + 10.0, -k * (y - 1.0) + 10.0);
  }

  lemma RawWeightNonIncreasing(pred: real, x: int, y: int)
    requires pred >= 0.0 && x <= y
    ensures RawWeight(pred, x) >= RawWeight(pred, y)
  {
    SteepnessNonNegative(pred);
    SlopedWeightNonIncreasing(Steepness(pred), x as real, y as real);
  }

  lemma DivideKeepsOrder(a: real, b: real, t: real)
    requires a >= b && t > 0.0
    ensures a / t >= b / t
  {
    assert a / t - b / t == (a - b) / t;
    assert (a - b) / t >= 0.0;
  }

  /** For a non-negative predictability, more candidates never weigh more than fewer. */
  lemma ProbDistrNonIncreasing(n: nat, pred: real, i: int, j: int)
    requires pred >= 0.0 && 0 <= i < j < n
    ensures ProbDistr(n, pred)[i] >= ProbDistr(n, pred)[j]
  {
    var ws := RawWeights(n, pred);
    RawWeightNonIncreasing(pred, i + 1, j + 1);
    RawTotalAtLeastTen(n, pred);
    var total := Sum(ws);
    DivideKeepsOrder(ws[i], ws[j], total);
    assert ProbDistr(n, pred)[i] == ws[i] / total;
    assert ProbDistr(n, pred)[j] == ws[j] / total;
  }

  lemma {:induction false} SumOfConstant(s: seq<real>, c: real)
    requires forall i :: 0 <= i < |s| ==> s[i] == c
    ensures Sum(s) == |s| as real * c
  {
    if s != [] {
      SumOfConstant(s[1..], c);
    }
  }

  /** Predictability 0 gives the uniform distribution. */
  lemma ProbDistrUniformAtZero(n: nat, i: int)
    requires 0 <= i < n
    ensures ProbDistr(n, 0.0)[i] == 1.0 / n as real
  {
    var ws := RawWeights(n, 0.0);
    SumOfConstant(ws, 10.0);
    assert ProbDistr(n, 0.0)[i] == 10.0 / (n as real * 10.0);
  }

  lemma {:induction false} SumOfZeros(s: seq<real>)
    requires forall i :: 0 <= i < |s| ==> s[i] == 0.0
    ensures Sum(s) == 0.0
  {
    if s != [] {
      SumOfZeros(s[1..]);
    }
  }

  /** A predictability whose slope reaches 10 (p >= 0.862; 1.0 among them) puts all weight on
      a single candidate, so the walk follows the best neighbour. */
  lemma SteepDistributionPicksOne(n: nat, pred: real)
    requires n >= 1 && Steepness(pred) >= 10.0
    ensures ProbDistr(n, pred)[0] == 1.0
    ensures forall i :: 1 <= i < n ==> ProbDistr(n, pred)[i] == 0.0
  {
    var ws := RawWeights(n, pred);
    forall i | 1 <= i < n
      ensures ws[i] == 0.0
    {
      SteepSlopeReachesZero(Steepness(pred), (i + 1) as real);
    }
    SumOfZeros(ws[1..]);
    assert Sum(ws) == 10.0;
  }

  /** From the second candidate on, a slope of at least 10 drives the weight to 0. */
  lemma SteepSlopeReachesZero(k: real, x: real)
    requires k >= 10.0 && x >= 2.0
    ensures SlopedWeight(k, x) == 0.0
  {
    assert (k - 10.0) * (x - 1.0) >= 0.0;
    assert k * (x - 1.0) == (k - 10.0) * (x - 1.0) + 10.0 * (x - 1.0);
  }

  lemma FullPredictabilityIsSteep()
    ensures Steepness(1.0) >= 10.0
  {
  }

  /** A slope below 10/7 (p below about 0.4505) gives every count from 1 to 8 a positive
      weight. */
  lemma GentleDistributionAllowsEveryCount(pred: real, i: int)
    requires pred >= 0.0 && 7.0 * Steepness(pred) < 10.0 && 0 <= i < 8
    ensures ProbDistr(8, pred)[i] > 0.0
  {
    var k := Steepness(pred);
    assert 2.5 * pred >= 0.0;
    assert (2.5 * pred) * (2.5 * pred) >= 0.0;
    assert k >= 0.0;
    assert k * (i as real) <= k * 7.0;
    var ws := RawWeights(8, pred);
    assert -k * (((i + 1) - 1) as real) + 10.0 == 10.0 - k * (i as real);
    assert 10.0 - k * (i as real) > 0.0;
    assert RawWeight(pred, i + 1) == 10.0 - k * (i as real);
    assert ws[i] > 0.0;
    RawTotalAtLeastTen(8, pred);
  }

  /** The predictabilities the walkers use (0.05 for the package walker's draws, 0.1 for
      the notebook walker's draws, 0.45 its unused class attribute) all leave every count
      from 1 to 8 possible. */
  lemma UsedPredictabilitiesAllowEveryCount(i: int)
    requires 0 <= i < 8
    ensures ProbDistr(8, 0.05)[i] > 0.0 && ProbDistr(8, 0.1)[i] > 0.0 && ProbDistr(8, 0.45)[i] > 0.0
  {
    GentleDistributionAllowsEveryCount(0.05, i);
    GentleDistributionAllowsEveryCount(0.1, i);
    assert Steepness(0.45) == 1.423828125;
    GentleDistributionAllowsEveryCount(0.45, i);
  }

  // ---------------------------------------------------------------- ranking (argsort)

  /** Every index of r addresses an entry of v. */
  predicate InRange(v: seq<real>, r: seq<int>)
  {
    forall a :: 0 <= a < |r| ==> 0 <= r[a] < |v|
  }

  /** r lists indices of v in non-increasing order of value. */
  predicate Descending(v: seq<real>, r: seq<int>)
    requires InRange(v, r)
  {
    forall a, b :: 0 <= a < b < |r| ==> v[r[a]] >= v[r[b]]
  }

  /** Places k after every entry whose value is at least v[k]. */
  function Insert(v: seq<real>, k: int, s: seq<int>): (r: seq<int>)
    requires 0 <= k < |v| && InRange(v, s)
    ensures InRange(v, r) && |r| == |s| + 1
  {
    if s == [] then [k]
    else if v[s[0]] >= v[k] then
      assert s == [s[0]] + s[1..];
      [s[0]] + Insert(v, k, s[1..])
    else
      [k] + s
  }

  /** Insertion adds k and loses nothing. */
  lemma {:induction false} InsertIsPermutation(v: seq<real>, k: int, s: seq<int>)
    requires 0 <= k < |v| && InRange(v, s)
    ensures multiset(Insert(v, k, s)) == multiset(s) + multiset{k}
  {
    if s != [] && v[s[0]] >= v[k] {
      InsertIsPermutation(v, k, s[1..]);
      assert s == [s[0]] + s[1..];
    }
  }

  lemma {:induction false} InsertKeepsDescending(v: seq<real>, k: int, s: seq<int>)
    requires 0 <= k < |v| && InRange(v, s) && Descending(v, s)
    ensures Descending(v, Insert(v, k, s))
  {
    if s != [] && v[s[0]] >= v[k] {
      var tail := s[1..];
      var rest := Insert(v, k, tail);
      InsertKeepsDescending(v, k, tail);
      InsertIsPermutation(v, k, tail);
      forall a | 0 <= a < |rest|
        ensures v[s[0]] >= v[rest[a]]
      {
        assert rest[a] in multiset(rest);
        if rest[a] != k {
          assert rest[a] in multiset(tail);
          var b :| 0 <= b < |tail| && tail[b] == rest[a];
          assert s[b + 1] == rest[a];
        }
      }
    }
  }

  /** A stable descending sort of `order`: argsort with its ties broken as `order` lists them. */
  function Rank(v: seq<real>, order: seq<int>): (r: seq<int>)
    requires InRange(v, order)
    ensures InRange(v, r) && |r| == |order|
  {
    if order == [] then []
    else
      var init := order[..|order| - 1];
      Insert(v, order[|order| - 1], Rank(v, init))
  }

  /** The ranking lists values from largest to smallest. */
  lemma {:induction false} RankIsDescending(v: seq<real>, order: seq<int>)
    requires InRange(v, order)
    ensures Descending(v, Rank(v, order))
  {
    if order != [] {
      var init := order[..|order| - 1];
      RankIsDescending(v, init);
      InsertKeepsDescending(v, order[|order| - 1], Rank(v, init));
    }
  }

  /** The ranking is a permutation of the order it sorts. */
  lemma {:induction false} RankIsPermutation(v: seq<real>, order: seq<int>)
    requires InRange(v, order)
    ensures multiset(Rank(v, order)) == multiset(order)
  {
    if order != [] {
      var init := order[..|order| - 1];
      RankIsPermutation(v, init);
      InsertIsPermutation(v, order[|order| - 1], Rank(v, init));
      assert order == init + [order[|order| - 1]];
    }
  }

  lemma {:induction false} InsertAfterLarger(v: seq<real>, k: int, s: seq<int>)
    requires 0 <= k < |v| && InRange(v, s)
    requires forall a :: 0 <= a < |s| ==> v[s[a]] >= v[k]
    ensures Insert(v, k, s) == s + [k]
  {
    if s != [] {
      InsertAfterLarger(v, k, s[1..]);
    }
  }

  /** Every descending ordering is a ranking: sorting it leaves it as it is. So the model
      admits exactly the orders argsort may produce under any tie-breaking. */
  lemma {:induction false} RankKeepsDescendingOrder(v: seq<real>, order: seq<int>)
    requires InRange(v, order) && Descending(v, order)
    ensures Rank(v, order) == order
  {
    if order != [] {
      var init := order[..|order| - 1];
      RankKeepsDescendingOrder(v, init);
      InsertAfterLarger(v, order[|order| - 1], init);
      assert init + [order[|order| - 1]] == order;
    }
  }

  // ---------------------------------------------------------------- candidate pool

  /** Position of the first entry with a negative value, or |top| when there is none. */
  function FirstNegative(v: seq<real>, top: seq<int>): (c: nat)
    requires InRange(v, top)
    ensures c <= |top|
    ensures forall a :: 0 <= a < c ==> v[top[a]] >= 0.0
    ensures c < |top| ==> v[top[c]] < 0.0
  {
    if top == [] then 0
    else if v[top[0]] < 0.0 then 0
    else 1 + FirstNegative(v, top[1..])
  }

  lemma FirstNegativeIsUnique(v: seq<real>, top: seq<int>, c: nat)
    requires InRange(v, top) && c <= |top|
    requires forall a :: 0 <= a < c ==> v[top[a]] >= 0.0
    requires c < |top| ==> v[top[c]] < 0.0
    ensures FirstNegative(v, top) == c
  {
  }

  /** The loop that finds where the candidate list is cut. */
  method CutAtNegative(v: seq<real>, largest: seq<int>) returns (iNeg: nat)
    requires InRange(v, largest)
    ensures iNeg == FirstNegative(v, largest)
  {
    iNeg := |largest|;
    var ix := 0;
    while ix < |largest|
      invariant 0 <= ix <= |largest| && iNeg == |largest|
      invariant forall a :: 0 <= a < ix ==> v[largest[a]] >= 0.0
    {
      var i := largest[ix];
      var rowI := i / 3;
      var colI := i % 3;
      var val := v[3 * rowI + colI];
      if val < 0.0 {
        iNeg := ix;
        break;
      }
      ix := ix + 1;
    }
    FirstNegativeIsUnique(v, largest, iNeg);
  }

  /** The candidates: the top n of the ranking, cut at the first negative value. */
  function Pool(v: seq<real>, ranked: seq<int>, n: int): seq<int>
    requires InRange(v, ranked) && 0 <= n <= |ranked|
  {
    var top := ranked[..n];
    top[..FirstNegative(v, top)]
  }

  // ---------------------------------------------------------------- choice and move

  /** The random inputs of one step: the drawn count n, a tie-breaking order of the nine
      indices, and the draw that picks one candidate (randint(0, k - 1) is pick mod k). */
  datatype StepDraw = StepDraw(n: int, order: seq<int>, pick: nat)

  /** `order` lists each of the nine neighbourhood indices. */
  predicate IsCellOrder(order: seq<int>)
  {
    |order| == 9 && (forall a :: 0 <= a < 9 ==> 0 <= order[a] < 9) && forall k :: 0 <= k < 9 ==> k in order
  }

  predicate IsDrawShape(d: StepDraw)
  {
    1 <= d.n <= 8 && IsCellOrder(d.order)
  }

  /** A draw np.random.choice(arange(1, 9), p=probDistr(8, pred)) can produce. */
  predicate ValidDraw(d: StepDraw, pred: real)
  {
    IsDrawShape(d) && ProbDistr(8, pred)[d.n - 1] > 0.0
  }

  /** A direction (row, column) of the 3x3 neighbourhood. */
  type Direction = (int, int)

  /** The direction chosen from neighbourhood values v, or None when the pool is empty
      (random.randint(0, -1) raises). */
  function Choose(v: seq<real>, d: StepDraw): Option<Direction>
    requires |v| == 9 && IsDrawShape(d)
  {
    var pool := Pool(v, Rank(v, d.order), d.n);
    if |pool| == 0 then None
    else
      var k := pool[d.pick % |pool|];
      Some((k / 3, k % 3))
  }

  lemma RankListsEveryIndex(v: seq<real>, order: seq<int>, k: int)
    requires |v| == 9 && IsCellOrder(order) && 0 <= k < 9
    ensures exists b :: 0 <= b < 9 && Rank(v, order)[b] == k
  {
    var r := Rank(v, order);
    RankIsPermutation(v, order);
    assert k in order;
    assert k in multiset(order);
    assert k in multiset(r);
    assert k in r;
  }

  /** No step is possible exactly when every neighbourhood entry is negative. */
  lemma ChooseNoneIffAllNegative(v: seq<real>, d: StepDraw)
    requires |v| == 9 && IsDrawShape(d)
    ensures Choose(v, d) == None <==> forall k :: 0 <= k < 9 ==> v[k] < 0.0
  {
    var r := Rank(v, d.order);
    var top := r[..d.n];
    assert top[0] == r[0];
    RankIsDescending(v, d.order);
    if v[r[0]] < 0.0 {
      forall k | 0 <= k < 9
        ensures v[k] < 0.0
      {
        RankListsEveryIndex(v, d.order, k);
      }
    }
  }

  lemma {:induction false} ImageSize(r: seq<int>, p: nat)
    requires p <= |r|
    ensures |set b | 0 <= b < p :: r[b]| <= p
  {
    if p > 0 {
      ImageSize(r, p - 1);
      assert (set b | 0 <= b < p :: r[b]) == (set b | 0 <= b < p - 1 :: r[b]) + {r[p - 1]};
    }
  }

  lemma {:induction false} SubsetSize<T>(a: set<T>, b: set<T>)
    requires a <= b
    ensures |a| <= |b|
  {
    if a != {} {
      var x :| x in a;
      SubsetSize(a - {x}, b - {x});
    }
  }

  /** The indices of v whose value is strictly greater than x. */
  function Better(v: seq<real>, x: real): set<int>
  {
    set k | 0 <= k < |v| && v[k] > x
  }

  /** Index k of the flattened 3x3 block is direction (k / 3, k % 3). */
  lemma DirectionOfIndex(k: int)
    requires 0 <= k < 9
    ensures 0 <= k / 3 < 3 && 0 <= k % 3 < 3 && 3 * (k / 3) + k % 3 == k
  {
  }

  /** Fewer than p + 1 indices beat the entry ranked at position p. */
  lemma BetterThanRankedAt(v: seq<real>, order: seq<int>, p: nat)
    requires |v| == 9 && IsCellOrder(order) && p < 9
    ensures |Better(v, v[Rank(v, order)[p]])| <= p
  {
    var r := Rank(v, order);
    var better := Better(v, v[r[p]]);
    var front := set b | 0 <= b < p :: r[b];
    RankIsDescending(v, order);
    forall k | k in better
      ensures k in front
    {
      RankListsEveryIndex(v, order, k);
      var b :| 0 <= b < 9 && r[b] == k;
      assert b < p;
    }
    ImageSize(r, p);
    SubsetSize(better, front);
  }

  /** The pool is a prefix of the ranking no longer than n, of non-negative entries only. */
  lemma PoolIsNonNegativePrefix(v: seq<real>, ranked: seq<int>, n: int)
    requires InRange(v, ranked) && 0 <= n <= |ranked|
    ensures |Pool(v, ranked, n)| <= n
    ensures forall a :: 0 <= a < |Pool(v, ranked, n)| ==> Pool(v, ranked, n)[a] == ranked[a] && v[ranked[a]] >= 0.0
  {
  }

  /** A choice is made from the pool: the entry at position pick mod |pool|, which is also
      position pick mod |pool| < n of the ranking, and has a non-negative value. */
  lemma ChoosePicksFromPool(v: seq<real>, d: StepDraw)
    requires |v| == 9 && IsDrawShape(d) && Choose(v, d).Some?
    ensures var r := Rank(v, d.order);
      var pool := Pool(v, r, d.n);
      && |pool| > 0 && d.pick % |pool| < d.n
      && v[r[d.pick % |pool|]] >= 0.0
      && Choose(v, d) == Some((r[d.pick % |pool|] / 3, r[d.pick % |pool|] % 3))
  {
    PoolIsNonNegativePrefix(v, Rank(v, d.order), d.n);
  }

  /** The chosen direction lies in the 3x3 block, has a non-negative value (so it is never
      the centre while the centre holds -1), and lies among the n best: fewer than n
      entries are strictly better. */
  lemma ChooseIsAmongBest(v: seq<real>, d: StepDraw)
    requires |v| == 9 && IsDrawShape(d) && Choose(v, d).Some?
    ensures var dir := Choose(v, d).value;
      && 0 <= dir.0 < 3 && 0 <= dir.1 < 3
      && v[3 * dir.0 + dir.1] >= 0.0
      && (v[4] < 0.0 ==> dir != (1, 1))
      && |Better(v, v[3 * dir.0 + dir.1])| < d.n
  {
    ChoosePicksFromPool(v, d);
    var r := Rank(v, d.order);
    var p := d.pick % |Pool(v, r, d.n)|;
    DirectionOfIndex(r[p]);
    BetterThanRankedAt(v, d.order, p);
  }

  lemma RankHeadIsUniqueBest(v: seq<real>, order: seq<int>, m: int)
    requires |v| == 9 && IsCellOrder(order) && 0 <= m < 9
    requires forall k :: 0 <= k < 9 && k != m ==> v[k] < v[m]
    ensures Rank(v, order)[0] == m
  {
    var r := Rank(v, order);
    RankListsEveryIndex(v, order, m);
    var b :| 0 <= b < 9 && r[b] == m;
    RankIsDescending(v, order);
    if b > 0 {
      assert v[r[0]] >= v[r[b]];
    }
    assert v[r[0]] >= v[m];
  }

  /** With a single candidate drawn, a unique best non-negative neighbour is always chosen,
      whatever the tie order and the pick. */
  lemma ChooseUniqueBest(v: seq<real>, d: StepDraw, m: int)
    requires |v| == 9 && IsDrawShape(d) && d.n == 1
    requires 0 <= m < 9 && v[m] >= 0.0
    requires forall k :: 0 <= k < 9 && k != m ==> v[k] < v[m]
    ensures Choose(v, d) == Some((m / 3, m % 3))
  {
    var r := Rank(v, d.order);
    RankHeadIsUniqueBest(v, d.order, m);
    var top := r[..1];
    assert top == [m];
    FirstNegativeIsUnique(v, top, 1);
    assert Pool(v, r, 1) == [m];
  }

  /** updatePosition: direction (i, j) moves cell (x, y) to (x - 1 + j, y + 1 - i), the cell
      the neighbourhood entry (i, j) was read from. */
  function Move(pos: Cell, dir: Direction): (r: Cell)
    ensures r == pos <==> dir == (1, 1)
  {
    (pos.0 - 1 + dir.1, pos.1 + 1 - dir.0)
  }

  /** q is one of the eight cells around p. */
  predicate IsNeighbour(p: Cell, q: Cell)
  {
    p != q && -1 <= q.0 - p.0 <= 1 && -1 <= q.1 - p.1 <= 1
  }

  /** A direction in the 3x3 block moves to a neighbour, except the centre, which stays put. */
  lemma MoveReachesNeighbours(pos: Cell, dir: Direction)
    requires 0 <= dir.0 < 3 && 0 <= dir.1 < 3
    ensures dir == (1, 1) ==> Move(pos, dir) == pos
    ensures dir != (1, 1) ==> IsNeighbour(pos, Move(pos, dir))
  {
  }

  /** Arrival: strictly inside the radius-5 disc around the target (integer cells). */
  predicate Arrived(pos: Cell, target: Cell)
  {
    var dx := pos.0 - target.0;
    var dy := pos.1 - target.1;
    dx * dx + dy * dy < 25
  }

  /** The target's own cell counts as arrived; an arrived cell is at most 4 cells away along
      each axis; a cell at distance exactly 5, such as (3, 4) away, does not count. */
  lemma ArrivedIsInsideDisc(pos: Cell, target: Cell)
    ensures Arrived(target, target)
    ensures Arrived(pos, target) ==> -4 <= pos.0 - target.0 <= 4 && -4 <= pos.1 - target.1 <= 4
    ensures !Arrived((target.0 + 3, target.1 + 4), target)
  {
    var dx, dy := pos.0 - target.0, pos.1 - target.1;
    SmallSquare(dx, dy);
    SmallSquare(dy, dx);
  }

  /** A square that stays below 25 even with another square added has a root within 4 of 0. */
  lemma SmallSquare(d: int, e: int)
    ensures d * d + e * e < 25 ==> -4 <= d <= 4
  {
    assert e * e >= 0;
    if d > 4 { assert d * d >= 5 * d >= 25; }
    if d < -4 { assert d * d >= -5 * d >= 25; }
  }
}
