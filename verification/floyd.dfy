/** The Floyd–Warshall triple loop of `floyd_shortest_paths` (busapp.py, busapptest.py),
    over vertex indices `0 .. n-1`.

    `Best(W, i, j, k)` is the classic recurrence: the least cost of a walk from `i` to `j`
    with at least one edge and every intermediate vertex below `k`. `BestIsLowerBound` and
    `BestIsAchieved` prove that reading; `FloydWarshall` is the in-place loop and computes
    `Best(W, i, j, n)` for every entry. */
module Floyd {
  import opened Distances

  type Matrix = seq<seq<Dist>>

  predicate IsSquare(m: Matrix, n: nat) {
    |m| == n && forall i :: 0 <= i < n ==> |m[i]| == n
  }

  /** The entry `(i, j)` once the pivots `0 .. k-1` have been processed. */
  function Best(W: Matrix, i: nat, j: nat, k: nat): Dist
    requires IsSquare(W, |W|) && i < |W| && j < |W| && k <= |W|
    decreases k
  {
    if k == 0 then W[i][j]
    else Relax(Best(W, i, j, k - 1), Add(Best(W, i, k - 1, k - 1), Best(W, k - 1, j, k - 1)))
  }

  /** Entries only ever decrease from one pivot to the next. */
  lemma BestDecreases(W: Matrix, i: nat, j: nat, k: nat)
    requires IsSquare(W, |W|) && i < |W| && j < |W| && k < |W|
    ensures Le(Best(W, i, j, k + 1), Best(W, i, j, k))
  {
  }

  lemma {:induction false} BestBelowWeight(W: Matrix, i: nat, j: nat, k: nat)
    requires IsSquare(W, |W|) && i < |W| && j < |W| && k <= |W|
    ensures Le(Best(W, i, j, k), W[i][j])
  {
    if k > 0 {
      BestBelowWeight(W, i, j, k - 1);
      LeTotalOrder(Best(W, i, j, k), Best(W, i, j, k - 1), W[i][j]);
    }
  }

  /** Row and column `k` do not change while `k` is the pivot: going through `k` once more
      only adds a non-negative detour. This is what makes the in-place update sound. */
  lemma PivotStable(W: Matrix, i: nat, k: nat)
    requires IsSquare(W, |W|) && i < |W| && k < |W|
    ensures Best(W, i, k, k + 1) == Best(W, i, k, k)
    ensures Best(W, k, i, k + 1) == Best(W, k, i, k)
  {
    AddGrows(Best(W, i, k, k), Best(W, k, k, k));
    AddGrows(Best(W, k, k, k), Best(W, k, i, k));
  }

  // ---------------------------------------------------------------- walks

  /** A walk through vertex indices from `i` to `j`, with at least one edge and every
      intermediate vertex below `k`. */
  predicate IsRoute(n: nat, p: seq<nat>, i: nat, j: nat, k: nat) {
    && |p| >= 2 && p[0] == i && p[|p| - 1] == j
    && (forall t :: 0 <= t < |p| ==> p[t] < n)
    && (forall t :: 0 < t < |p| - 1 ==> p[t] < k)
  }

  /** The total weight of a walk: the sum of its steps' entries of `W`. */
  function Cost(W: Matrix, p: seq<nat>): Dist
    requires IsSquare(W, |W|) && forall t :: 0 <= t < |p| ==> p[t] < |W|
  {
    if |p| < 2 then Fin(0) else Add(W[p[0]][p[1]], Cost(W, p[1..]))
  }

  /** The cost of two walks joined end to start is the sum of their costs. */
  lemma {:induction false} CostConcat(W: Matrix, p: seq<nat>, q: seq<nat>)
    requires IsSquare(W, |W|) && |p| >= 1 && |q| >= 1 && p[|p| - 1] == q[0]
    requires forall t :: 0 <= t < |p| ==> p[t] < |W|
    requires forall t :: 0 <= t < |q| ==> q[t] < |W|
    ensures forall t :: 0 <= t < |p + q[1..]| ==> (p + q[1..])[t] < |W|
    ensures Cost(W, p + q[1..]) == Add(Cost(W, p), Cost(W, q))
  {
    var r := p + q[1..];
    assert forall t :: 0 <= t < |r| ==> r[t] == if t < |p| then p[t] else q[t - |p| + 1];
    if |p| == 1 {
      assert r == q;
    } else {
      assert r[1..] == p[1..] + q[1..];
      CostConcat(W, p[1..], q);
      AddAssoc(W[p[0]][p[1]], Cost(W, p[1..]), Cost(W, q));
    }
  }

  /** No walk from `i` to `j` through vertices below `k` costs less than `Best(W, i, j, k)`. */
  lemma {:induction false} BestIsLowerBound(W: Matrix, p: seq<nat>, i: nat, j: nat, k: nat)
    requires IsSquare(W, |W|) && k <= |W| && IsRoute(|W|, p, i, j, k)
    ensures Le(Best(W, i, j, k), Cost(W, p))
    decreases k, |p|
  {
    if k == 0 {
      DirectRouteCost(W, p, i, j);
    } else {
      var m := k - 1;
      if forall t :: 0 < t < |p| - 1 ==> p[t] != m {
        assert IsRoute(|W|, p, i, j, m);
        BestIsLowerBound(W, p, i, j, m);
        LeTotalOrder(Best(W, i, j, k), Best(W, i, j, m), Cost(W, p));
      } else {
        var p1, p2 := SplitAtPivot(W, p, i, j, k);
        BestIsLowerBound(W, p1, i, m, m);
        BestIsLowerBound(W, p2, m, j, k);
        PivotStable(W, j, m);
        AddMonotone(Best(W, i, m, m), Best(W, m, j, m), Cost(W, p1), Cost(W, p2));
        LeTotalOrder(Best(W, i, j, k), Add(Best(W, i, m, m), Best(W, m, j, m)), Cost(W, p));
      }
    }
  }

  /** A walk with no intermediate vertex is a single step. */
  lemma DirectRouteCost(W: Matrix, p: seq<nat>, i: nat, j: nat)
    requires IsSquare(W, |W|) && IsRoute(|W|, p, i, j, 0)
    ensures Cost(W, p) == W[i][j]
  {
    assert p[1] < |W|;
    assert |p| == 2;
    assert p[1..][1..] == [];
  }

  /** A walk through the pivot `k - 1` splits at its first visit into a walk to the pivot
      avoiding it and a shorter walk on from it. */
  lemma {:induction false} SplitAtPivot(W: Matrix, p: seq<nat>, i: nat, j: nat, k: nat) returns (p1: seq<nat>, p2: seq<nat>)
    requires IsSquare(W, |W|) && 0 < k <= |W| && IsRoute(|W|, p, i, j, k)
    requires !forall t :: 0 < t < |p| - 1 ==> p[t] != k - 1
    ensures IsRoute(|W|, p1, i, k - 1, k - 1) && IsRoute(|W|, p2, k - 1, j, k) && |p2| < |p|
    ensures Cost(W, p) == Add(Cost(W, p1), Cost(W, p2))
  {
    var m := k - 1;
    var t := FirstAt(p, m);
    p1, p2 := p[..t + 1], p[t..];
    assert p1 + p2[1..] == p;
    assert IsRoute(|W|, p1, i, m, m) by {
      forall s | 0 < s < |p1| - 1 ensures p1[s] < m {
        assert p1[s] == p[s] && p[s] != m;
      }
    }
    assert IsRoute(|W|, p2, m, j, k) by {
      forall s | 0 < s < |p2| - 1 ensures p2[s] < k {
        assert p2[s] == p[t + s];
      }
    }
    CostConcat(W, p1, p2);
  }

  /** The first position among the intermediate vertices of `p` that holds `m`. */
  function FirstAt(p: seq<nat>, m: nat): (t: nat)
    requires exists t :: 0 < t < |p| - 1 && p[t] == m
    ensures 0 < t < |p| - 1 && p[t] == m
    ensures forall s :: 0 < s < t ==> p[s] != m
  {
    FirstAtFrom(p, m, 1)
  }

  function FirstAtFrom(p: seq<nat>, m: nat, from: nat): (t: nat)
    requires 0 < from && exists t :: from <= t < |p| - 1 && p[t] == m
    ensures from <= t < |p| - 1 && p[t] == m
    ensures forall s :: from <= s < t ==> p[s] != m
    decreases |p| - from
  {
    if p[from] == m then from else FirstAtFrom(p, m, from + 1)
  }

  /** A finite `Best(W, i, j, k)` is the cost of some walk from `i` to `j` through vertices
      below `k`. */
  lemma {:induction false} BestIsAchieved(W: Matrix, i: nat, j: nat, k: nat) returns (p: seq<nat>)
    requires IsSquare(W, |W|) && i < |W| && j < |W| && k <= |W|
    requires Best(W, i, j, k).Fin?
    ensures IsRoute(|W|, p, i, j, k) && Cost(W, p) == Best(W, i, j, k)
    decreases k
  {
    var n := |W|;
    if k == 0 {
      p := [i, j];
      assert p[1..][1..] == [];
    } else {
      var m := k - 1;
      var via := Add(Best(W, i, m, m), Best(W, m, j, m));
      if !Less(via, Best(W, i, j, m)) {
        p := BestIsAchieved(W, i, j, m);
      } else {
        var p1 := BestIsAchieved(W, i, m, m);
        var p2 := BestIsAchieved(W, m, j, m);
        p := p1 + p2[1..];
        CostConcat(W, p1, p2);
        forall s | 0 < s < |p| - 1 ensures p[s] < k {
          if s < |p1| { assert p[s] == p1[s]; } else { assert p[s] == p2[s - |p1| + 1]; }
        }
      }
    }
  }

  /** `Best(W, i, j, n)` is the least cost of a walk from `i` to `j`, and `Inf` exactly when
      every walk costs `Inf`. */
  lemma BestIsShortest(W: Matrix, i: nat, j: nat)
    requires IsSquare(W, |W|) && i < |W| && j < |W|
    ensures forall p :: IsRoute(|W|, p, i, j, |W|) ==> Le(Best(W, i, j, |W|), Cost(W, p))
    ensures Best(W, i, j, |W|).Fin? ==>
              exists p :: IsRoute(|W|, p, i, j, |W|) && Cost(W, p) == Best(W, i, j, |W|)
  {
    forall p | IsRoute(|W|, p, i, j, |W|) ensures Le(Best(W, i, j, |W|), Cost(W, p)) {
      BestIsLowerBound(W, p, i, j, |W|);
    }
    if Best(W, i, j, |W|).Fin? {
      var p := BestIsAchieved(W, i, j, |W|);
    }
  }

  // ---------------------------------------------------------------- the loop

  /** A fresh array holding `W`. */
  method Load(W: Matrix) returns (a: array2<Dist>)
    requires IsSquare(W, |W|)
    ensures fresh(a) && a.Length0 == |W| && a.Length1 == |W|
    ensures forall x, y :: 0 <= x < |W| && 0 <= y < |W| ==> a[x, y] == W[x][y]
  {
    var n := |W|;
    a := new Dist[n, n];
    var r := 0;
    while r < n
      invariant 0 <= r <= n
      invariant forall x, y :: 0 <= x < r && 0 <= y < n ==> a[x, y] == W[x][y]
    {
      var c := 0;
      while c < n
        invariant 0 <= c <= n
        invariant forall x, y :: 0 <= x < r && 0 <= y < n ==> a[x, y] == W[x][y]
        invariant forall y :: 0 <= y < c ==> a[r, y] == W[r][y]
      {
        a[r, c] := W[r][c];
        c := c + 1;
      }
      r := r + 1;
    }
  }

  /** The entries of the array processed for pivots below `k`, plus pivot `k` on the rows
      before `i` and the first `j` entries of row `i`. */
  ghost predicate Processed(a: array2<Dist>, W: Matrix, k: nat, i: nat, j: nat)
    reads a
    requires IsSquare(W, |W|) && k < |W|
  {
    && a.Length0 == |W| && a.Length1 == |W|
    && forall x, y :: 0 <= x < |W| && 0 <= y < |W| ==>
         a[x, y] == if x < i || (x == i && y < j) then Best(W, x, y, k + 1) else Best(W, x, y, k)
  }

  /** The inner loop over `j` for one row `i` and pivot `k`. */
  method RelaxRow(a: array2<Dist>, W: Matrix, k: nat, i: nat)
    requires IsSquare(W, |W|) && k < |W| && i < |W|
    requires Processed(a, W, k, i, 0)
    modifies a
    ensures Processed(a, W, k, i + 1, 0)
  {
    var n := |W|;
    var j := 0;
    while j < n
      invariant 0 <= j <= n
      invariant Processed(a, W, k, i, j)
    {
      PivotStable(W, i, k);
      PivotStable(W, j, k);
      if Less(Add(a[i, k], a[k, j]), a[i, j]) {
        a[i, j] := Add(a[i, k], a[k, j]);
      }
      j := j + 1;
    }
  }

  /** The middle loop over `i` for one pivot `k`. */
  method RelaxAll(a: array2<Dist>, W: Matrix, k: nat)
    requires IsSquare(W, |W|) && k < |W|
    requires Processed(a, W, k, 0, 0)
    modifies a
    ensures Processed(a, W, k, |W|, 0)
  {
    var i := 0;
    while i < |W|
      invariant 0 <= i <= |W|
      invariant Processed(a, W, k, i, 0)
    {
      RelaxRow(a, W, k, i);
      i := i + 1;
    }
  }

  /** `for k: for i: for j: if d[i][k] + d[k][j] < d[i][j]: d[i][j] = d[i][k] + d[k][j]`,
      in place on a copy of `W`. Every entry ends as `Best(W, i, j, n)`, never above its
      starting weight. */
  method FloydWarshall(W: Matrix) returns (D: Matrix)
    requires IsSquare(W, |W|)
    ensures IsSquare(D, |W|)
    ensures forall i, j :: 0 <= i < |W| && 0 <= j < |W| ==> D[i][j] == Best(W, i, j, |W|)
    ensures forall i, j :: 0 <= i < |W| && 0 <= j < |W| ==> Le(D[i][j], W[i][j])
  {
    var n := |W|;
    var a := Load(W);
    var k := 0;
    while k < n
      invariant 0 <= k <= n
      invariant forall x, y :: 0 <= x < n && 0 <= y < n ==> a[x, y] == Best(W, x, y, k)
    {
      RelaxAll(a, W, k);
      k := k + 1;
    }
    D := seq(n, x requires 0 <= x < n reads a => seq(n, y requires 0 <= y < n reads a => a[x, y]));
    forall x, y | 0 <= x < n && 0 <= y < n ensures Le(D[x][y], W[x][y]) {
      BestBelowWeight(W, x, y, n);
    }
  }
}
