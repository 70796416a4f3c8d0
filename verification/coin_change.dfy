/** Coin change: the number of ways to make a target `n` from an unlimited
    supply of coins of the denominations `ds` (dynamic-programming.js:58-128). */
module CoinChange {
  import opened Wrappers

  /** The recurrences only terminate on positive denominations. */
  ghost predicate PositiveCoins(ds: seq<int>)
  {
    forall k :: 0 <= k < |ds| ==> ds[k] > 0
  }

  /** changeNonDP: ways without the first denomination plus ways that spend
      one more coin of it. */
  function ChangeNonDP(ds: seq<int>, n: int): (r: nat)
    requires PositiveCoins(ds)
    ensures n == 0 ==> r == 1
    ensures n < 0 ==> r == 0
    decreases |ds|, n
  {
    if n == 0 then 1
    else if n < 0 then 0
    else if |ds| == 0 && n >= 1 then 0
    else ChangeNonDP(ds[1..], n) + ChangeNonDP(ds, n - ds[0])
  }

  /** With a single denomination `d` there is one way exactly when `d`
      divides the target. */
  lemma {:induction false} ChangeSingleCoin(d: int, n: int)
    requires d > 0
    ensures ChangeNonDP([d], n) == if n >= 0 && n % d == 0 then 1 else 0
    decreases if n < 0 then 0 else n + 1
  {
    if n > 0 {
      assert [d][1..] == [];
      ChangeSingleCoin(d, n - d);
      if n - d >= 0 {
        ModSub(n, d);
      } else {
        assert n % d == n;
      }
    }
  }

  /** Removing one `d` leaves the remainder modulo `d` unchanged. */
  lemma ModSub(n: int, d: int)
    requires d > 0
    ensures (n - d) % d == n % d
  {
    var q, r := n / d, n % d;
    var q', r' := (n - d) / d, (n - d) % d;
    var k := q' - q + 1;
    assert d * q' + r' == d * q + r - d;
    assert d * k == r - r' by {
      assert d * k == d * q' - d * q + d;
    }
    MulAwayFromZero(d, k);
  }

  /** A non-zero multiple of a positive `d` is at least `d` away from zero. */
  lemma MulAwayFromZero(d: int, k: int)
    requires d > 0
    ensures k >= 1 ==> d * k >= d
    ensures k <= -1 ==> d * k <= -d
  {
    if k >= 1 {
      assert d * (k - 1) >= 0;
    } else if k <= -1 {
      assert d * (-k - 1) >= 0;
    }
  }

  /** The recurrence may equally split off the LAST denomination: ways
      without it plus ways that spend one more coin of it. Together with the
      definition this says that the count does not depend on which end of the
      denomination list is peeled off, the fact the table-based count rests on. */
  lemma {:induction false} ChangeSplitLast(xs: seq<int>, d: int, n: int)
    requires PositiveCoins(xs) && d > 0 && n >= 1
    ensures PositiveCoins(xs + [d])
    ensures ChangeNonDP(xs + [d], n) == ChangeNonDP(xs, n) + ChangeNonDP(xs + [d], n - d)
    decreases |xs|, n
  {
    var ys := xs + [d];
    assert PositiveCoins(ys);
    if |xs| == 0 {
      assert ys == [d] && ys[1..] == [];
    } else {
      var a := xs[0];
      var rest := xs[1..];
      assert ys[1..] == rest + [d];
      assert PositiveCoins(rest);
      // ys = [a] + rest + [d], split on its first coin a
      ChangeSplitLast(rest, d, n);
      if n - a >= 1 {
        ChangeSplitLast(xs, d, n - a);
      }
      if n - d >= 1 {
        assert ChangeNonDP(ys, n - d) == ChangeNonDP(rest + [d], n - d) + ChangeNonDP(ys, n - d - a);
      }
    }
  }

  /** The memo of topDownChange, keyed by (denominations, target). */
  ghost predicate ChangeMemoSound(memo: map<(seq<int>, int), int>)
  {
    forall key :: key in memo ==> PositiveCoins(key.0) && memo[key] == ChangeNonDP(key.0, key.1)
  }

  /** topDownChange: the same recurrence with the memo `coinMemo`; only the
      recursive case stores its result, and a cached 0 counts as a miss.
      Entries already present never change. */
  method TopDownChange(ds: seq<int>, n: int, memo: map<(seq<int>, int), int>)
    returns (r: int, memo': map<(seq<int>, int), int>)
    requires PositiveCoins(ds)
    requires ChangeMemoSound(memo)
    ensures r == ChangeNonDP(ds, n)
    ensures ChangeMemoSound(memo')
    ensures forall key :: key in memo ==> key in memo' && memo'[key] == memo[key]
    ensures n > 0 && |ds| > 0 ==> (ds, n) in memo' && memo'[(ds, n)] == r
    decreases |ds|, n
  {
    var key := (ds, n);
    if key in memo && memo[key] != 0 {
      return memo[key], memo;
    }
    if n == 0 {
      return 1, memo;
    }
    if n < 0 {
      return 0, memo;
    }
    if |ds| == 0 && n >= 1 {
      return 0, memo;
    }
    var without, m1 := TopDownChange(ds[1..], n, memo);
    var with, m2 := TopDownChange(ds, n - ds[0], m1);
    r := without + with;
    memo' := m2[key := r];
  }

  /** The table of bottomUpChange: row i, column j holds the number of ways to
      make i from the prefix ds[..j+1]. Row 0 is all ones. */
  method ChangeTable(ds: seq<int>, n: int) returns (table: array2<int>)
    requires PositiveCoins(ds) && |ds| > 0 && n >= 0
    ensures table.Length0 == n + 1 && table.Length1 == |ds|
    ensures forall j :: 0 <= j < |ds| ==> table[0, j] == 1
    ensures forall i, j :: 0 <= i <= n && 0 <= j < |ds| ==> table[i, j] == ChangeNonDP(ds[..j + 1], i)
  {
    var m := |ds|;
    table := new int[n + 1, m];
    for j := 0 to m
      invariant forall j' :: 0 <= j' < j ==> table[0, j'] == 1
    {
      table[0, j] := 1;
    }
    for i := 1 to n + 1
      invariant forall i', j' :: 0 <= i' < i && 0 <= j' < m ==> table[i', j'] == ChangeNonDP(ds[..j' + 1], i')
    {
      for j := 0 to m
        invariant forall i', j' :: 0 <= i' < i && 0 <= j' < m ==> table[i', j'] == ChangeNonDP(ds[..j' + 1], i')
        invariant forall j' :: 0 <= j' < j ==> table[i, j'] == ChangeNonDP(ds[..j' + 1], i)
      {
        var w := if i - ds[j] >= 0 then table[i - ds[j], j] else 0;
        var wo := if j >= 1 then table[i, j - 1] else 0;
        CellRecurrence(ds, i, j);
        table[i, j] := w + wo;
      }
    }
  }

  /** The step of the table: a cell is the cell `ds[j]` rows up in the same
      column plus the cell to its left. */
  lemma CellRecurrence(ds: seq<int>, i: int, j: int)
    requires PositiveCoins(ds) && 0 <= j < |ds| && i >= 1
    ensures PositiveCoins(ds[..j + 1]) && PositiveCoins(ds[..j])
    ensures ChangeNonDP(ds[..j + 1], i)
         == (if j >= 1 then ChangeNonDP(ds[..j], i) else 0) + ChangeNonDP(ds[..j + 1], i - ds[j])
  {
    assert ds[..j + 1] == ds[..j] + [ds[j]];
    ChangeSplitLast(ds[..j], ds[j], i);
  }

  /** bottomUpChange: the last cell of the table. With no denominations the
      source reads past the end of an empty row and returns `undefined`. */
  method BottomUpChange(ds: seq<int>, n: int) returns (r: Option<int>)
    requires PositiveCoins(ds) && n >= 0
    ensures |ds| == 0 ==> r == None
    ensures |ds| > 0 ==> r == Some(ChangeNonDP(ds, n))
  {
    if |ds| == 0 {
      return None;
    }
    var table := ChangeTable(ds, n);
    assert ds[..|ds|] == ds;
    r := Some(table[n, |ds| - 1]);
  }
}
