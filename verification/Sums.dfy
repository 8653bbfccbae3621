/** Finite sums of reals, and what pairwise exchange through a matrix of couplings amounts to. */
module Sums {
  import opened Common

  function Sum(s: seq<real>): real {
    if s == [] then 0.0 else Sum(s[..|s| - 1]) + s[|s| - 1]
  }

  lemma {:induction false} SumPush(s: seq<real>, x: real)
    ensures Sum(s + [x]) == Sum(s) + x
  {
    assert (s + [x])[..|s|] == s;
  }

  lemma {:induction false} SumPrefix(s: seq<real>, n: nat)
    requires n < |s|
    ensures Sum(s[..n + 1]) == Sum(s[..n]) + s[n]
  {
    assert s[..n + 1] == s[..n] + [s[n]];
    SumPush(s[..n], s[n]);
  }

  lemma {:induction false} SumUpdate(s: seq<real>, j: nat, v: real)
    requires j < |s|
    ensures Sum(s[j := v]) == Sum(s) - s[j] + v
    decreases |s|
  {
    var n := |s| - 1;
    if j == n {
      assert s[j := v][..n] == s[..n];
    } else {
      SumUpdate(s[..n], j, v);
      assert s[j := v][..n] == s[..n][j := v];
    }
  }

  lemma {:induction false} SumZero(s: seq<real>)
    requires forall j :: 0 <= j < |s| ==> s[j] == 0.0
    ensures Sum(s) == 0.0
    decreases |s|
  {
    if s != [] {
      SumZero(s[..|s| - 1]);
    }
  }

  ghost predicate Between(sum: real, n: real, below: real, above: real) {
    below * n <= sum <= above * n
  }

  /** A sum of terms between two bounds. */
  lemma {:induction false} SumBounded(s: seq<real>, below: real, above: real)
    requires forall j :: 0 <= j < |s| ==> below <= s[j] <= above
    ensures Between(Sum(s), |s| as real, below, above)
    decreases |s|
  {
    if s != [] {
      var n := |s| - 1;
      SumBounded(s[..n], below, above);
      OneMore(below, n);
      OneMore(above, n);
    }
  }

  lemma {:induction false} OneMore(x: real, n: nat)
    ensures x * ((n + 1) as real) == x * (n as real) + x
  {
    var r := n as real;
    assert (n + 1) as real == r + 1.0;
    assert x * (r + 1.0) == x * r + x;
  }

  /** A difference scaled by a factor in [0, 1] stays between bounds on either side of zero. */
  lemma {:induction false} ScaledTerm(c: real, d: real, below: real, above: real)
    requires 0.0 <= c <= 1.0 && below <= d <= above && below <= 0.0 <= above
    ensures below <= c * d <= above
  {
    if d >= 0.0 {
      ScaledDown(c, d, above);
    } else {
      ScaledUp(c, d, below);
    }
  }

  lemma {:induction false} ScaledDown(c: real, d: real, above: real)
    requires 0.0 <= c <= 1.0 && 0.0 <= d <= above
    ensures 0.0 <= c * d <= above
  {
    ScaledDownOnly(c, d);
  }

  lemma {:induction false} ScaledDownOnly(c: real, d: real)
    requires 0.0 <= c <= 1.0 && 0.0 <= d
    ensures 0.0 <= c * d <= d
  {
  }

  lemma {:induction false} ScaledUp(c: real, d: real, below: real)
    requires 0.0 <= c <= 1.0 && below <= d <= 0.0
    ensures below <= c * d <= 0.0
  {
    ScaledUpOnly(c, d);
  }

  lemma {:induction false} ScaledUpOnly(c: real, d: real)
    requires 0.0 <= c <= 1.0 && d <= 0.0
    ensures d <= c * d <= 0.0
  {
  }

  lemma {:induction false} ScaledSum(alpha: real, n: real, sum: real, below: real, above: real)
    requires 0.0 <= alpha && 0.0 <= n && alpha * n <= 1.0
    requires below <= 0.0 <= above
    requires Between(sum, n, below, above)
    ensures below <= alpha * sum <= above
  {
    ScaledUnder(alpha, n, sum, above);
    ScaledOver(alpha, n, sum, below);
  }

  lemma {:induction false} ScaledUnder(alpha: real, n: real, sum: real, above: real)
    requires 0.0 <= alpha && alpha * n <= 1.0 && 0.0 <= above && sum <= above * n
    ensures alpha * sum <= above
  {
    MulMonotone(sum, above * n, alpha);
    MulMonotone(alpha * n, 1.0, above);
    Regroup(above, n, alpha, sum);
  }

  lemma {:induction false} ScaledOver(alpha: real, n: real, sum: real, below: real)
    requires 0.0 <= alpha && alpha * n <= 1.0 && below <= 0.0 && below * n <= sum
    ensures below <= alpha * sum
  {
    MulMonotone(below * n, sum, alpha);
    MulMonotone(alpha * n, 1.0, -below);
    Regroup(below, n, alpha, sum);
  }

  lemma {:induction false} Regroup(x: real, n: real, alpha: real, sum: real)
    ensures (x * n) * alpha == (alpha * n) * x
    ensures sum * alpha == alpha * sum
  {
  }

  lemma {:induction false} ScaledTerms(alpha: real, terms: seq<real>, below: real, above: real)
    requires 0.0 <= alpha && alpha * (|terms| as real) <= 1.0 && below <= 0.0 <= above
    requires forall k :: 0 <= k < |terms| ==> below <= terms[k] <= above
    ensures below <= alpha * Sum(terms) <= above
  {
    hide Between;
    SumBounded(terms, below, above);
    ScaledSum(alpha, |terms| as real, Sum(terms), below, above);
  }

  /** Adding a small enough multiple of bounded terms to s leaves s between its bounds. */
  lemma {:induction false} StaysBetween(s: real, alpha: real, terms: seq<real>, lo: real, hi: real)
    requires lo <= s <= hi && 0.0 <= alpha && alpha * (|terms| as real) <= 1.0
    requires forall k :: 0 <= k < |terms| ==> lo - s <= terms[k] <= hi - s
    ensures lo <= s + alpha * Sum(terms) <= hi
  {
    ScaledTerms(alpha, terms, lo - s, hi - s);
  }

  // ---------------------------------------------------------------- filing

  /** The terms filed under their targets in a row of n places. */
  function Filed(targets: seq<int>, terms: seq<real>, n: nat): (row: seq<real>)
    requires |targets| == |terms|
    requires forall k :: 0 <= k < |targets| ==> 0 <= targets[k] < n
    ensures |row| == n
    decreases |targets|
  {
    if targets == [] then seq(n, j => 0.0)
    else
      var k := |targets| - 1;
      Filed(targets[..k], terms[..k], n)[targets[k] := terms[k]]
  }

  lemma {:induction false} FiledAt(targets: seq<int>, terms: seq<real>, n: nat, j: nat)
    requires |targets| == |terms| && j < n
    requires forall k :: 0 <= k < |targets| ==> 0 <= targets[k] < n
    requires forall k, l :: 0 <= k < l < |targets| ==> targets[k] != targets[l]
    ensures (forall k :: 0 <= k < |targets| ==> targets[k] != j) ==> Filed(targets, terms, n)[j] == 0.0
    ensures forall k :: 0 <= k < |targets| && targets[k] == j ==> Filed(targets, terms, n)[j] == terms[k]
    decreases |targets|
  {
    if targets != [] {
      var k := |targets| - 1;
      FiledAt(targets[..k], terms[..k], n, j);
      assert forall l :: 0 <= l < k ==> targets[..k][l] == targets[l] && terms[..k][l] == terms[l];
    }
  }

  lemma {:induction false} FiledSum(targets: seq<int>, terms: seq<real>, n: nat)
    requires |targets| == |terms|
    requires forall k :: 0 <= k < |targets| ==> 0 <= targets[k] < n
    requires forall k, l :: 0 <= k < l < |targets| ==> targets[k] != targets[l]
    ensures Sum(Filed(targets, terms, n)) == Sum(terms)
    decreases |targets|
  {
    if targets == [] {
      SumZero(Filed(targets, terms, n));
    } else {
      var k := |targets| - 1;
      FiledSum(targets[..k], terms[..k], n);
      FiledAt(targets[..k], terms[..k], n, targets[k]);
      SumUpdate(Filed(targets[..k], terms[..k], n), targets[k], terms[k]);
    }
  }

  // ---------------------------------------------------------------- exchange

  /** Couplings c[i][j] and values s. */
  datatype Exchange = Exchange(c: seq<seq<real>>, s: seq<real>)
  {
    ghost predicate Valid() {
      |c| == |s| && forall i :: 0 <= i < |c| ==> |c[i]| == |s|
    }

    /** What i receives from j. */
    function Flow(i: nat, j: nat): real
      requires Valid() && i < |s| && j < |s|
    {
      c[i][j] * (s[j] - s[i])
    }

    function RowSum(i: nat, n: nat): real
      requires Valid() && i < |s| && n <= |s|
    {
      if n == 0 then 0.0 else RowSum(i, n - 1) + Flow(i, n - 1)
    }

    function ColumnSum(m: nat, j: nat): real
      requires Valid() && m <= |s| && j < |s|
    {
      if m == 0 then 0.0 else ColumnSum(m - 1, j) + Flow(m - 1, j)
    }

    /** What the first m receive from the first n. */
    function Rectangle(m: nat, n: nat): real
      requires Valid() && m <= |s| && n <= |s|
    {
      if m == 0 then 0.0 else Rectangle(m - 1, n) + RowSum(m - 1, n)
    }

    function Asymmetry(i: nat, j: nat): real
      requires Valid() && i < |s| && j < |s|
    {
      (c[i][j] - c[j][i]) * (s[j] - s[i])
    }

    function NetWith(m: nat, j: nat): real
      requires Valid() && m <= |s| && j < |s|
    {
      if m == 0 then 0.0 else NetWith(m - 1, j) + Asymmetry(m - 1, j)
    }

    /** The sum over unordered pairs i < j < n of (c[i][j] - c[j][i]) * (s[j] - s[i]). */
    function Imbalance(n: nat): real
      requires Valid() && n <= |s|
    {
      if n == 0 then 0.0 else Imbalance(n - 1) + NetWith(n - 1, n - 1)
    }
  }

  lemma {:induction false} AddColumn(x: Exchange, m: nat, n: nat)
    requires x.Valid() && m <= |x.s| && n < |x.s|
    ensures x.Rectangle(m, n + 1) == x.Rectangle(m, n) + x.ColumnSum(m, n)
  {
    if m > 0 {
      AddColumn(x, m - 1, n);
    }
  }

  lemma {:induction false} PairExchange(c: real, d: real, s: real, t: real)
    ensures c * (t - s) + d * (s - t) == (c - d) * (t - s)
  {
  }

  lemma {:induction false} CrossIsNet(x: Exchange, m: nat, j: nat)
    requires x.Valid() && m <= |x.s| && j < |x.s|
    ensures x.ColumnSum(m, j) + x.RowSum(j, m) == x.NetWith(m, j)
  {
    if m > 0 {
      CrossIsNet(x, m - 1, j);
      PairExchange(x.c[m - 1][j], x.c[j][m - 1], x.s[m - 1], x.s[j]);
    }
  }

  /** Everything everyone receives is the imbalance: symmetric couplings cancel pair by pair. */
  lemma {:induction false} SquareIsImbalance(x: Exchange, n: nat)
    requires x.Valid() && n <= |x.s|
    ensures x.Rectangle(n, n) == x.Imbalance(n)
  {
    if n > 0 {
      SquareIsImbalance(x, n - 1);
      AddColumn(x, n - 1, n - 1);
      CrossIsNet(x, n - 1, n - 1);
      assert x.Flow(n - 1, n - 1) == 0.0;
    }
  }

  lemma {:induction false} BalancedNet(x: Exchange, m: nat, j: nat)
    requires x.Valid() && m <= j < |x.s|
    requires forall i: nat :: i < j ==> x.Asymmetry(i, j) == 0.0
    ensures x.NetWith(m, j) == 0.0
  {
    if m > 0 {
      BalancedNet(x, m - 1, j);
    }
  }

  /** Pairs that are balanced one by one are balanced together. */
  lemma {:induction false} BalancedImbalance(x: Exchange, n: nat)
    requires x.Valid() && n <= |x.s|
    requires forall i: nat, j: nat :: i < j < n ==> x.Asymmetry(i, j) == 0.0
    ensures x.Imbalance(n) == 0.0
  {
    if n > 0 {
      BalancedImbalance(x, n - 1);
      BalancedNet(x, n - 1, n - 1);
    }
  }

  lemma {:induction false} OneNet(x: Exchange, a: nat, m: nat, j: nat)
    requires x.Valid() && m <= j < |x.s| && a < j
    requires forall i: nat :: i < j && i != a ==> x.Asymmetry(i, j) == 0.0
    ensures x.NetWith(m, j) == if a < m then x.Asymmetry(a, j) else 0.0
  {
    if m > 0 {
      OneNet(x, a, m - 1, j);
    }
  }

  /** If all pairs but one are balanced, that one is the imbalance. */
  lemma {:induction false} OneImbalance(x: Exchange, a: nat, b: nat, n: nat)
    requires x.Valid() && a < b < |x.s| && n <= |x.s|
    requires forall i: nat, j: nat :: i < j < |x.s| && (i, j) != (a, b) ==> x.Asymmetry(i, j) == 0.0
    ensures x.Imbalance(n) == if b < n then x.Asymmetry(a, b) else 0.0
  {
    if n > 0 {
      OneImbalance(x, a, b, n - 1);
      if n - 1 == b {
        OneNet(x, a, b, b);
      } else {
        BalancedNet(x, n - 1, n - 1);
      }
    }
  }

  lemma {:induction false} SymmetricImbalance(x: Exchange, n: nat)
    requires x.Valid() && n <= |x.s|
    requires forall i, j :: 0 <= i < j < n ==> x.c[i][j] == x.c[j][i]
    ensures x.Imbalance(n) == 0.0
  {
    forall i: nat, j: nat | i < j < n ensures x.Asymmetry(i, j) == 0.0 {
      var d := x.s[j] - x.s[i];
      assert x.Asymmetry(i, j) == 0.0 * d;
    }
    BalancedImbalance(x, n);
  }

  /** after is x.s moved by alpha times what each place receives. */
  ghost predicate Moved(x: Exchange, alpha: real, after: seq<real>)
    requires x.Valid()
  {
    |after| == |x.s| && forall i :: 0 <= i < |x.s| ==> after[i] == x.s[i] + alpha * x.RowSum(i, |x.s|)
  }

  lemma {:induction false} MoveOneMore(alpha: real, before: real, total: real, value: real, received: real)
    ensures (before + alpha * total) + (value + alpha * received) == (before + value) + alpha * (total + received)
  {
  }

  lemma {:induction false} MovedPrefix(x: Exchange, alpha: real, after: seq<real>, n: nat)
    requires x.Valid() && Moved(x, alpha, after) && n <= |x.s|
    ensures Sum(after[..n]) == Sum(x.s[..n]) + alpha * x.Rectangle(n, |x.s|)
  {
    if n > 0 {
      var k := n - 1;
      MovedPrefix(x, alpha, after, k);
      SumPrefix(x.s, k);
      SumPrefix(after, k);
      MoveOneMore(alpha, Sum(x.s[..k]), x.Rectangle(k, |x.s|), x.s[k], x.RowSum(k, |x.s|));
    } else {
      assert alpha * 0.0 == 0.0;
    }
  }

  lemma {:induction false} MovedTotal(x: Exchange, alpha: real, after: seq<real>)
    requires x.Valid() && Moved(x, alpha, after)
    ensures Sum(after) == Sum(x.s) + alpha * x.Imbalance(|x.s|)
  {
    MovedPrefix(x, alpha, after, |x.s|);
    SquareIsImbalance(x, |x.s|);
    assert x.s[..|x.s|] == x.s && after[..|x.s|] == after;
  }
}
