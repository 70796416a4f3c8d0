/** Fibonacci, in the three styles of dynamic-programming.js:22-53.
    The sequence is shifted: fib0(0) == fib0(1) == 1. */
module Fibonacci {

  /** fib0: the naive recurrence. Every input below 2, negative ones
      included, is a base case. */
  function Fib0(n: int): (r: int)
    ensures r >= 1
    ensures n >= 2 ==> r >= n
    decreases n
  {
    if n < 2 then 1 else Fib0(n - 1) + Fib0(n - 2)
  }

  /** Every entry of the memo is the Fibonacci number of its key. */
  ghost predicate FibMemoSound(memo: map<int, int>)
  {
    forall k :: k in memo ==> memo[k] == Fib0(k)
  }

  /** topDownFib: the same recurrence, reading and writing the memo `fibMemo`.
      A cached value counts as a hit only when it is non-zero (JavaScript
      `if (fibMemo[n])`). Entries already present never change. */
  method TopDownFib(n: int, memo: map<int, int>) returns (f: int, memo': map<int, int>)
    requires FibMemoSound(memo)
    ensures f == Fib0(n)
    ensures FibMemoSound(memo')
    ensures n in memo' && memo'[n] == f
    ensures forall k :: k in memo ==> k in memo' && memo'[k] == memo[k]
    decreases n
  {
    if n in memo && memo[n] != 0 {
      return memo[n], memo;
    }
    if n < 2 {
      f := 1;
      memo' := memo;
    } else {
      var a, m1 := TopDownFib(n - 1, memo);
      var b, m2 := TopDownFib(n - 2, m1);
      f := a + b;
      memo' := m2;
    }
    memo' := memo'[n := f];
  }

  /** A JavaScript value as read from the table of bottomUpFib: a number,
      NaN, or `undefined` (an index never written). */
  datatype JsValue = Num(n: int) | NaN | Undefined

  /** JavaScript `+` on the values above: only two numbers add to a number. */
  function JsAdd(a: JsValue, b: JsValue): (r: JsValue)
    ensures r.Num? <==> a.Num? && b.Num?
  {
    if a.Num? && b.Num? then Num(a.n + b.n) else NaN
  }

  /** Reading index `i` of a JavaScript array held as a map. */
  function JsGet(table: map<int, JsValue>, i: int): JsValue
  {
    if i in table then table[i] else Undefined
  }

  /** bottomUpFib as written, starting from an empty `fibTable`. The guard
      tests `n` where `i` was meant, the loop reads indices -1 and -2, and the
      result is read from index n - 1: only n == 1 yields a number. */
  method BottomUpFibAsWritten(n: int) returns (r: JsValue)
    ensures n == 1 ==> r == Num(1)
    ensures n <= 0 ==> r == Undefined
    ensures n >= 2 ==> r == NaN
  {
    var table: map<int, JsValue> := map[];
    var i := 0;
    while i < n
      invariant 0 <= i
      invariant n > 0 ==> i <= n
      invariant forall k :: k in table ==> 0 <= k < i
      invariant forall k :: 0 <= k < i ==> k in table && table[k] == (if n < 2 then Num(1) else NaN)
    {
      var f;
      if n < 2 {
        f := Num(1);
      } else {
        f := JsAdd(JsGet(table, i - 1), JsGet(table, i - 2));
      }
      table := table[i := f];
      i := i + 1;
    }
    r := JsGet(table, n - 1);
  }

  /** The table-filling Fibonacci with the guard on the loop index and the
      table indexed 0..n, as the surrounding comment describes. */
  method BottomUpFib(n: nat) returns (f: int)
    ensures f == Fib0(n)
  {
    var table := new int[n + 1];
    for i := 0 to n + 1
      invariant forall k :: 0 <= k < i ==> table[k] == Fib0(k)
    {
      if i < 2 {
        table[i] := 1;
      } else {
        table[i] := table[i - 1] + table[i - 2];
      }
    }
    f := table[n];
  }
}
