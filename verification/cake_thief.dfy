/** The cake thief (dynamic-programming.js:130-212): cakes of given weight and
    value, a bag of given capacity, and the take-first-or-drop-first recursion,
    naive and memoised. */
module CakeThief {
  import opened Wrappers
  import opened JsMath

  /** A cake. Weight and value never change; `id` is the field that assignIds
      adds to the object, `None` while it is still `undefined`. */
  class Cake {
    const weight: int
    const value: int
    var id: Option<int>

    constructor (weight: int, value: int)
      ensures this.weight == weight && this.value == value && id == None
    {
      this.weight := weight;
      this.value := value;
      id := None;
    }
  }

  /** The recursion terminates only on positive weights. */
  ghost predicate PositiveWeights(cs: seq<Cake>)
  {
    forall i :: 0 <= i < |cs| ==> cs[i].weight > 0
  }

  ghost predicate NonNegativeValues(cs: seq<Cake>)
  {
    forall i :: 0 <= i < |cs| ==> cs[i].value >= 0
  }

  /** The cakes of `cs` that fit in `cap`, in order (`cs.filter(...)`). */
  function Fitting(cs: seq<Cake>, cap: int): (fs: seq<Cake>)
    ensures |fs| <= |cs|
    ensures forall i :: 0 <= i < |fs| ==> fs[i] in cs && fs[i].weight <= cap
    ensures forall i :: 0 <= i < |cs| && cs[i].weight <= cap ==> cs[i] in fs
  {
    if cs == [] then [] else (if cs[0].weight <= cap then [cs[0]] else []) + Fitting(cs[1..], cap)
  }

  /** The cake at index `i` is the only one of `cs` that fits in `cap`. */
  ghost predicate OnlyFitAt(cs: seq<Cake>, cap: int, i: int)
  {
    0 <= i < |cs| && cs[i].weight <= cap &&
    forall j :: 0 <= j < |cs| && j != i ==> cs[j].weight > cap
  }

  /** Nothing fits exactly when the filter is empty. */
  lemma {:induction false} FittingEmpty(cs: seq<Cake>, cap: int)
    ensures Fitting(cs, cap) == [] <==> forall j :: 0 <= j < |cs| ==> cs[j].weight > cap
  {
    if cs != [] {
      FittingEmpty(cs[1..], cap);
      assert forall j :: 1 <= j < |cs| ==> cs[j] == cs[1..][j - 1];
    }
  }

  /** The filter holds one cake exactly when exactly one cake fits, and then
      it holds that cake. */
  lemma {:induction false} FittingSingle(cs: seq<Cake>, cap: int)
    ensures |Fitting(cs, cap)| == 1 <==> exists i :: OnlyFitAt(cs, cap, i)
    ensures forall i :: OnlyFitAt(cs, cap, i) ==> Fitting(cs, cap) == [cs[i]]
  {
    if cs != [] {
      var rest := cs[1..];
      FittingSingle(rest, cap);
      FittingEmpty(rest, cap);
      assert forall j :: 1 <= j < |cs| ==> cs[j] == rest[j - 1];
      if cs[0].weight <= cap {
        if |Fitting(cs, cap)| == 1 {
          assert OnlyFitAt(cs, cap, 0);
        }
        assert forall i :: OnlyFitAt(cs, cap, i) ==> i == 0;
      } else {
        forall i | OnlyFitAt(cs, cap, i)
          ensures i >= 1 && OnlyFitAt(rest, cap, i - 1)
        {
          forall j | 0 <= j < |rest| && j != i - 1
            ensures rest[j].weight > cap
          {
            assert rest[j] == cs[j + 1];
          }
        }
        if |Fitting(cs, cap)| == 1 {
          var k :| OnlyFitAt(rest, cap, k);
          forall j | 0 <= j < |cs| && j != k + 1
            ensures cs[j].weight > cap
          {
            if j > 0 {
              assert cs[j] == rest[j - 1];
            }
          }
          assert OnlyFitAt(cs, cap, k + 1);
        }
      }
    }
  }

  /** _onlyOneFits: `None` stands for the `false` returned unless exactly one
      cake fits. The value is scaled by floor(weight / cap), which for a
      fitting cake of positive weight is 1 when it fills the bag exactly and 0
      otherwise. */
  function OnlyOneFits(cs: seq<Cake>, cap: int): (r: Option<int>)
    requires cap > 0
    ensures r.Some? <==> exists i :: OnlyFitAt(cs, cap, i)
    ensures forall i :: OnlyFitAt(cs, cap, i) && cs[i].weight > 0 ==>
      r == Some(if cs[i].weight == cap then cs[i].value else 0)
  {
    FittingSingle(cs, cap);
    var fcs := Fitting(cs, cap);
    if |fcs| == 1 then
      var c := fcs[0];
      assert c.weight > 0 && c.weight <= cap ==> c.weight / cap == (if c.weight == cap then 1 else 0);
      Some(c.value * (c.weight / cap))
    else None
  }

  /** _allCakesLarger: `cs.every(c => c.weight > cap)`. */
  function AllCakesLarger(cs: seq<Cake>, cap: int): (b: bool)
    ensures b <==> forall i :: 0 <= i < |cs| ==> cs[i].weight > cap
  {
    if cs == [] then true
    else if cs[0].weight > cap then
      var rest := AllCakesLarger(cs[1..], cap);
      assert forall i :: 1 <= i < |cs| ==> cs[i] == cs[1..][i - 1];
      rest
    else false
  }

  /** stealCakes: the larger of taking one more of the first cake (without
      checking that it fits) and dropping the first cake, after three early
      exits. Non-negative values give a non-negative result. */
  function StealCakes(cakes: seq<Cake>, capacity: int): (v: int)
    requires PositiveWeights(cakes)
    ensures NonNegativeValues(cakes) ==> v >= 0
    decreases |cakes|, capacity
  {
    if capacity <= 0 then 0
    else if |cakes| == 0 then 0
    else if AllCakesLarger(cakes, capacity) then 0
    else if Truthy(OnlyOneFits(cakes, capacity)) then OnlyOneFits(cakes, capacity).value
    else
      assert PositiveWeights(cakes[1..]) && (NonNegativeValues(cakes) ==> NonNegativeValues(cakes[1..]));
      Max(cakes[0].value + StealCakes(cakes, capacity - cakes[0].weight), StealCakes(cakes[1..], capacity))
  }

  /** Nothing is stolen with no room, no cakes, or no cake that fits. */
  lemma StealCakesNothing(cakes: seq<Cake>, capacity: int)
    requires PositiveWeights(cakes)
    requires capacity <= 0 || forall i :: 0 <= i < |cakes| ==> cakes[i].weight > capacity
    ensures StealCakes(cakes, capacity) == 0
  {
  }

  /** With two cakes that fit, none of the early exits of stealCakes is
      taken. */
  lemma TwoFit(cakes: seq<Cake>, capacity: int, i: int, j: int)
    requires PositiveWeights(cakes) && capacity > 0
    requires 0 <= i < j < |cakes| && cakes[i].weight <= capacity && cakes[j].weight <= capacity
    ensures PositiveWeights(cakes[1..])
    ensures !AllCakesLarger(cakes, capacity) && !Truthy(OnlyOneFits(cakes, capacity))
  {
    assert PositiveWeights(cakes[1..]) by {
      forall k | 0 <= k < |cakes[1..]| ensures cakes[1..][k].weight > 0 {
        assert cakes[1..][k] == cakes[k + 1];
      }
    }
    assert !AllCakesLarger(cakes, capacity);
    forall k | 0 <= k < |cakes|
      ensures !OnlyFitAt(cakes, capacity, k)
    {
      if k == i {
        assert cakes[j].weight <= capacity;
      } else {
        assert cakes[i].weight <= capacity;
      }
    }
  }

  /** One unfolding of stealCakes in its general case, over the values of
      the two recursive calls. */
  lemma StealCakesGeneral(cakes: seq<Cake>, capacity: int, rest: int, withFirst: int, withoutFirst: int)
    requires |cakes| > 0 && PositiveWeights(cakes) && PositiveWeights(cakes[1..]) && capacity > 0
    requires !AllCakesLarger(cakes, capacity) && !Truthy(OnlyOneFits(cakes, capacity))
    requires rest == capacity - cakes[0].weight
    requires withFirst == StealCakes(cakes, rest)
    requires withoutFirst == StealCakes(cakes[1..], capacity)
    ensures StealCakes(cakes, capacity) == Max(cakes[0].value + withFirst, withoutFirst)
  {
  }

  /** The worked example beside the source: cakes of weight 7, 3 and 2 worth
      160, 90 and 15, and a bag of capacity 20, give 555 (six cakes of weight
      3 and one of weight 2). */
  lemma StealCakesExample(big: Cake, mid: Cake, small: Cake)
    requires big.weight == 7 && big.value == 160
    requires mid.weight == 3 && mid.value == 90
    requires small.weight == 2 && small.value == 15
    ensures StealCakes([big, mid, small], 20) == 555
  {
    var cs := [big, mid, small];
    assert cs[1..] == [mid, small];
    StealCakesNothing(cs, -1);
    TwoCakesValue(mid, small, 6);
    TwoFit(cs, 6, 1, 2);
    StealCakesGeneral(cs, 6, 6 - cs[0].weight, StealCakes(cs, 6 - cs[0].weight), StealCakes(cs[1..], 6));
    TwoCakesValue(mid, small, 13);
    TwoFit(cs, 13, 1, 2);
    StealCakesGeneral(cs, 13, 13 - cs[0].weight, StealCakes(cs, 13 - cs[0].weight), StealCakes(cs[1..], 13));
    TwoCakesValue(mid, small, 20);
    TwoFit(cs, 20, 1, 2);
    StealCakesGeneral(cs, 20, 20 - cs[0].weight, StealCakes(cs, 20 - cs[0].weight), StealCakes(cs[1..], 20));
  }

  /** The same cakes in a bag of capacity 3: the first choice spends the
      weight-7 cake although it does not fit, and the result, 160, is more
      than any selection that fits (the weight-3 cake alone, worth 90). */
  lemma StealCakesOverfills(big: Cake, mid: Cake, small: Cake)
    requires big.weight == 7 && big.value == 160
    requires mid.weight == 3 && mid.value == 90
    requires small.weight == 2 && small.value == 15
    ensures StealCakes([big, mid, small], 3) == 160
  {
    var cs := [big, mid, small];
    assert cs[1..] == [mid, small];
    StealCakesNothing(cs, -4);
    TwoCakesValue(mid, small, 3);
    TwoFit(cs, 3, 1, 2);
    StealCakesGeneral(cs, 3, 3 - cs[0].weight, StealCakes(cs, 3 - cs[0].weight), StealCakes(cs[1..], 3));
  }

  /** The weight-2 cake alone fills a bag of capacity k with k / 2 copies. */
  lemma {:induction false} SmallCakeValue(small: Cake, k: int)
    requires small.weight == 2 && small.value == 15 && k >= 0
    ensures StealCakes([small], k) == 15 * (k / 2)
  {
    var cs := [small];
    assert cs[1..] == [];
    if k == 1 {
      assert AllCakesLarger(cs, k);
    } else if k == 2 {
      assert OnlyFitAt(cs, k, 0);
      assert OnlyOneFits(cs, k) == Some(15);
    } else if k >= 3 {
      var rest := k - 2;
      SmallCakeValue(small, rest);
      assert OnlyFitAt(cs, k, 0);
      assert !AllCakesLarger(cs, k);
      assert OnlyOneFits(cs, k) == Some(0);
      StealCakesNothing(cs[1..], k);
      StealCakesGeneral(cs, k, rest, StealCakes(cs, rest), StealCakes(cs[1..], k));
      assert rest / 2 == k / 2 - 1;
    }
  }

  /** The weight-3 and weight-2 cakes of the example: k / 3 cakes of weight 3,
      plus one of weight 2 when the remainder is 2. */
  lemma {:induction false} TwoCakesValue(mid: Cake, small: Cake, k: int)
    requires mid.weight == 3 && mid.value == 90
    requires small.weight == 2 && small.value == 15
    requires k >= 0
    ensures StealCakes([mid, small], k) == 90 * (k / 3) + (if k % 3 == 2 then 15 else 0)
  {
    var cs := [mid, small];
    assert cs[1..] == [small];
    SmallCakeValue(small, k);
    if k == 1 {
      assert AllCakesLarger(cs, k);
    } else if k == 2 {
      assert OnlyFitAt(cs, k, 1);
      assert OnlyOneFits(cs, k) == Some(15);
    } else if k >= 3 {
      var rest := k - 3;
      TwoCakesValue(mid, small, rest);
      TwoFit(cs, k, 0, 1);
      StealCakesGeneral(cs, k, rest, StealCakes(cs, rest), StealCakes(cs[1..], k));
      TwoCakesStep(k);
    }
  }

  /** The arithmetic step of TwoCakesValue: three more units of capacity add
      one weight-3 cake, and that always beats the weight-2 cake alone. */
  lemma TwoCakesStep(k: int)
    requires k >= 3
    ensures 90 + 90 * ((k - 3) / 3) + (if (k - 3) % 3 == 2 then 15 else 0)
         == 90 * (k / 3) + (if k % 3 == 2 then 15 else 0)
    ensures 90 * (k / 3) + (if k % 3 == 2 then 15 else 0) >= 15 * (k / 2)
  {
    assert (k - 3) / 3 == k / 3 - 1 && (k - 3) % 3 == k % 3;
    assert 3 * (k / 3) >= k - 2 && 2 * (k / 2) <= k;
  }

  /** The ids of a list of cakes, in order. */
  function IdsOf(cs: seq<Cake>): (ids: seq<Option<int>>)
    reads cs
    ensures |ids| == |cs|
    ensures forall i :: 0 <= i < |cs| ==> ids[i] == cs[i].id
  {
    if cs == [] then [] else [cs[0].id] + IdsOf(cs[1..])
  }

  /** The last position, below `n`, at which the cake `cs[i]` sits. */
  function LastAt(cs: seq<Cake>, i: int, n: int): (j: int)
    requires 0 <= i < n <= |cs|
    ensures i <= j < n
    decreases n
  {
    if cs[n - 1] == cs[i] then n - 1 else LastAt(cs, i, n - 1)
  }

  /** LastAt finds the cake, and no later copy of it. */
  lemma {:induction false} LastAtFacts(cs: seq<Cake>, i: int, n: int)
    requires 0 <= i < n <= |cs|
    ensures cs[LastAt(cs, i, n)] == cs[i]
    ensures forall k :: LastAt(cs, i, n) < k < n ==> cs[k] != cs[i]
    decreases n
  {
    if cs[n - 1] != cs[i] {
      LastAtFacts(cs, i, n - 1);
    }
  }

  /** The ids assignIds writes into `cs`: each cake carries the last
      position at which it sits. */
  function Positions(cs: seq<Cake>): (ids: seq<Option<int>>)
    ensures |ids| == |cs|
    ensures forall i :: 0 <= i < |cs| ==> ids[i] == Some(LastAt(cs, i, |cs|))
  {
    seq(|cs|, i requires 0 <= i < |cs| => Some(LastAt(cs, i, |cs|)))
  }

  /** The cakes of `cs` are numbered as assignIds numbers them. */
  ghost predicate PositionIds(cs: seq<Cake>)
    reads cs
  {
    IdsOf(cs) == Positions(cs)
  }

  /** assignIds: writes each cake's position into its `id` and returns the
      same cakes in the same order. A cake listed twice keeps the later
      position. */
  method AssignIds(cs: seq<Cake>) returns (r: seq<Cake>)
    modifies cs`id
    ensures r == cs
    ensures PositionIds(cs)
    ensures forall i :: 0 <= i < |cs| && (forall k :: i < k < |cs| ==> cs[k] != cs[i]) ==> cs[i].id == Some(i)
  {
    for i := 0 to |cs|
      invariant forall p :: 0 <= p < i ==> cs[p].id == Some(LastAt(cs, p, i))
    {
      cs[i].id := Some(i);
    }
    assert IdsOf(cs) == Positions(cs);
    PositionIdsDistinct(cs);
    r := cs;
  }

  /** Numbered by position, a cake listed once carries its own position. */
  lemma PositionIdsDistinct(cs: seq<Cake>)
    requires PositionIds(cs)
    ensures forall i :: 0 <= i < |cs| && (forall k :: i < k < |cs| ==> cs[k] != cs[i]) ==> cs[i].id == Some(i)
  {
    forall i | 0 <= i < |cs| && (forall k :: i < k < |cs| ==> cs[k] != cs[i])
      ensures cs[i].id == Some(i)
    {
      LastAtOnce(cs, i);
      assert cs[i].id == IdsOf(cs)[i];
    }
  }

  /** A cake listed once is its own last occurrence. */
  lemma LastAtOnce(cs: seq<Cake>, i: int)
    requires 0 <= i < |cs| && forall k :: i < k < |cs| ==> cs[k] != cs[i]
    ensures Positions(cs)[i] == Some(i)
  {
    LastAtFacts(cs, i, |cs|);
  }

  /** The memo key of hashCakes: the cakes' ids followed by the capacity. An
      empty list hashes to the empty string whatever the capacity. */
  datatype CakeKey = NoCakes | Key(ids: seq<Option<int>>, capacity: int)

  /** The key hashCakes builds from the ids the cakes carry. */
  function HashKey(cakes: seq<Cake>, capacity: int): CakeKey
    reads cakes
  {
    if |cakes| == 0 then NoCakes else Key(IdsOf(cakes), capacity)
  }

  /** hashCakes: numbers the cakes first when the first one has a falsy id
      (none yet, or 0), then builds the key from the ids. Cakes already
      numbered by position keep their ids. */
  method HashCakes(cakes: seq<Cake>, capacity: int) returns (key: CakeKey)
    modifies cakes`id
    ensures |cakes| == 0 ==> key == NoCakes
    ensures |cakes| > 0 ==> key == Key(IdsOf(cakes), capacity)
    ensures |cakes| > 0 && !Truthy(old(cakes[0].id)) ==> PositionIds(cakes)
    ensures |cakes| == 0 || Truthy(old(cakes[0].id)) ==> unchanged(cakes)
    ensures old(PositionIds(cakes)) ==> unchanged(cakes)
  {
    var cs := cakes;
    if |cs| > 0 && !Truthy(cs[0].id) {
      cs := AssignIds(cs);
      if old(PositionIds(cakes)) {
        forall c | c in cakes
          ensures c.id == old(c.id)
        {
          var p :| 0 <= p < |cakes| && cakes[p] == c;
          assert cakes[p].id == IdsOf(cakes)[p] && old(cakes[p].id) == old(IdsOf(cakes))[p];
        }
      }
    }
    if |cs| == 0 {
      key := NoCakes;
    } else {
      key := Key(IdsOf(cs), capacity);
    }
  }

  /** `cs` is the tail of `all` that starts at position |all| - |cs|. */
  ghost predicate SuffixOf(cs: seq<Cake>, all: seq<Cake>)
  {
    |cs| <= |all| && cs == all[|all| - |cs|..]
  }

  /** Every entry of `cakeMemo` during one computation on the cakes `all`: the
      lists that arise are tails of `all`, so the length of the id list names
      the tail. */
  ghost predicate StealMemoSound(all: seq<Cake>, memo: map<CakeKey, int>)
  {
    PositiveWeights(all) && forall key :: key in memo ==> EntrySound(all, key, memo[key])
  }

  /** The entry `key := x` of such a memo: the empty key holds 0, and an id
      list of length k holds stealCakes on the last k cakes of `all`. */
  ghost predicate EntrySound(all: seq<Cake>, key: CakeKey, x: int)
  {
    match key
    case NoCakes => x == 0
    case Key(ids, cap) =>
      |ids| <= |all| && PositiveWeights(all[|all| - |ids|..]) && x == StealCakes(all[|all| - |ids|..], cap)
  }

  /** Entries are never removed, and a stored value is never changed. */
  ghost predicate MemoExtends(memo': map<CakeKey, int>, memo: map<CakeKey, int>)
  {
    forall key :: key in memo ==> key in memo' && memo'[key] == memo[key]
  }

  /** The key of a tail of `all` and the tail's value form a sound entry, and
      a sound entry under that key holds exactly that value. */
  lemma TailEntry(all: seq<Cake>, cakes: seq<Cake>, key: CakeKey, v: int)
    requires SuffixOf(cakes, all) && PositiveWeights(cakes)
    requires |cakes| == 0 ==> key == NoCakes
    requires |cakes| > 0 ==> key.Key? && |key.ids| == |cakes|
    requires v == StealCakes(cakes, if key.Key? then key.capacity else 0)
    ensures EntrySound(all, key, v)
    ensures forall x :: EntrySound(all, key, x) ==> x == v
  {
  }

  /** Storing a sound entry keeps the memo sound and extends it. */
  lemma StealMemoStore(all: seq<Cake>, memo: map<CakeKey, int>, key: CakeKey, v: int)
    requires StealMemoSound(all, memo) && EntrySound(all, key, v)
    requires forall x :: EntrySound(all, key, x) ==> x == v
    ensures StealMemoSound(all, memo[key := v])
    ensures MemoExtends(memo[key := v], memo)
  {
  }

  lemma SuffixPositive(cs: seq<Cake>, all: seq<Cake>)
    requires PositiveWeights(all) && SuffixOf(cs, all)
    ensures PositiveWeights(cs)
    ensures |cs| > 0 ==> SuffixOf(cs[1..], all)
  {
    forall i | 0 <= i < |cs|
      ensures cs[i].weight > 0
    {
      assert cs[i] == all[|all| - |cs| + i];
    }
  }

  /** The ids of a tail are the tail of the ids. */
  lemma IdsOfSuffix(cakes: seq<Cake>, all: seq<Cake>)
    requires SuffixOf(cakes, all)
    ensures IdsOf(cakes) == IdsOf(all)[|all| - |cakes|..]
  {
    assert forall i :: 0 <= i < |cakes| ==> cakes[i] == all[|all| - |cakes| + i];
  }

  /** With the cakes of `all` numbered by position, only `all` itself starts
      with a falsy id: every later cake carries a positive position. */
  lemma FalsyFirstIsAll(cakes: seq<Cake>, all: seq<Cake>)
    requires PositionIds(all) && SuffixOf(cakes, all) && |cakes| > 0
    requires !Truthy(cakes[0].id)
    ensures cakes == all
  {
    var start := |all| - |cakes|;
    assert cakes[0] == all[start];
    assert all[start].id == IdsOf(all)[start] == Positions(all)[start];
  }

  /** The ids a call of topDownSteal may start from: numbered by position
      already, or the first call on the whole list, whose first id is falsy. */
  ghost predicate IdsReady(cakes: seq<Cake>, all: seq<Cake>)
    reads all
  {
    PositionIds(all) || (|cakes| > 0 && cakes == all && !Truthy(cakes[0].id))
  }

  /** topDownSteal: the recursion of stealCakes with the memo `cakeMemo`,
      started on a tail of `all` with a memo of that computation (an empty
      memo to begin with). It agrees with stealCakes and only adds to the
      memo. Started from ids numbered by position, or on the whole list with
      a falsy first id, it leaves the cakes numbered by position and its
      result stored under the key hashCakes gives the cakes. */
  method TopDownSteal(cakes: seq<Cake>, capacity: int, memo: map<CakeKey, int>, ghost all: seq<Cake>)
    returns (v: int, memo': map<CakeKey, int>)
    requires PositiveWeights(all) && SuffixOf(cakes, all) && PositiveWeights(cakes)
    requires StealMemoSound(all, memo)
    modifies cakes`id
    ensures v == StealCakes(cakes, capacity)
    ensures StealMemoSound(all, memo') && MemoExtends(memo', memo)
    ensures old(IdsReady(cakes, all)) ==>
      PositionIds(all) && HashKey(cakes, capacity) in memo' && memo'[HashKey(cakes, capacity)] == v
    ensures old(PositionIds(all)) ==> IdsOf(all) == old(IdsOf(all))
    decreases |cakes|, capacity, 3
  {
    ghost var ready := IdsReady(cakes, all);
    if PositionIds(all) && |cakes| > 0 && !Truthy(cakes[0].id) {
      FalsyFirstIsAll(cakes, all);
    }
    var key := HashCakes(cakes, capacity);
    // Numbered by position, the key of the tail is fixed by `all` alone.
    ghost var tailKey := if |cakes| == 0 then NoCakes else Key(Positions(all)[|all| - |cakes|..], capacity);
    IdsOfSuffix(cakes, all);
    assert ready ==> PositionIds(all) && key == tailKey;
    TailEntry(all, cakes, key, StealCakes(cakes, capacity));
    if key in memo && memo[key] != 0 {
      return memo[key], memo;
    }
    v, memo' := StealUncached(cakes, capacity, memo, all);
    IdsOfSuffix(cakes, all);
    assert ready ==> HashKey(cakes, capacity) == tailKey;
    StealMemoStore(all, memo', key, v);
    memo' := memo'[key := v];
  }

  /** The body of topDownSteal after a memo miss: the early exits of
      stealCakes, or its two recursive calls through topDownSteal. */
  method StealUncached(cakes: seq<Cake>, capacity: int, memo: map<CakeKey, int>, ghost all: seq<Cake>)
    returns (v: int, memo': map<CakeKey, int>)
    requires PositiveWeights(all) && SuffixOf(cakes, all) && PositiveWeights(cakes)
    requires StealMemoSound(all, memo)
    modifies cakes`id
    ensures v == StealCakes(cakes, capacity)
    ensures StealMemoSound(all, memo') && MemoExtends(memo', memo)
    ensures old(PositionIds(all)) ==> PositionIds(all)
    decreases |cakes|, capacity, 2
  {
    v, memo' := 0, memo;
    if capacity <= 0 {
      v := 0;
    } else if |cakes| > 0 {
      var onlyOneFits := OnlyOneFits(cakes, capacity);
      var allCakesLarger := AllCakesLarger(cakes, capacity);
      if allCakesLarger {
        v := 0;
      } else if Truthy(onlyOneFits) {
        v := onlyOneFits.value;
      } else {
        v, memo' := StealEither(cakes, capacity, memo, all);
      }
    }
  }

  /** The general case of topDownSteal: the better of taking the first cake
      once more and dropping it for good. */
  method StealEither(cakes: seq<Cake>, capacity: int, memo: map<CakeKey, int>, ghost all: seq<Cake>)
    returns (v: int, memo': map<CakeKey, int>)
    requires PositiveWeights(all) && SuffixOf(cakes, all) && PositiveWeights(cakes)
    requires StealMemoSound(all, memo)
    requires |cakes| > 0 && capacity > 0
    requires !AllCakesLarger(cakes, capacity) && !Truthy(OnlyOneFits(cakes, capacity))
    modifies cakes`id
    ensures v == StealCakes(cakes, capacity)
    ensures StealMemoSound(all, memo') && MemoExtends(memo', memo)
    ensures old(PositionIds(all)) ==> PositionIds(all)
    decreases |cakes|, capacity, 1
  {
    var rest := capacity - cakes[0].weight;
    var maxWith, m1 := TopDownSteal(cakes, rest, memo, all);
    v, memo' := StealWithout(cakes, capacity, rest, maxWith, m1, all);
  }

  /** The general case once `maxWith` is known: drop the first cake, and
      keep the better of the two. */
  method StealWithout(cakes: seq<Cake>, capacity: int, rest: int, maxWith: int,
                      memo: map<CakeKey, int>, ghost all: seq<Cake>)
    returns (v: int, memo': map<CakeKey, int>)
    requires PositiveWeights(all) && SuffixOf(cakes, all) && PositiveWeights(cakes)
    requires StealMemoSound(all, memo)
    requires |cakes| > 0 && capacity > 0
    requires !AllCakesLarger(cakes, capacity) && !Truthy(OnlyOneFits(cakes, capacity))
    requires rest == capacity - cakes[0].weight && maxWith == StealCakes(cakes, rest)
    modifies cakes`id
    ensures v == StealCakes(cakes, capacity)
    ensures StealMemoSound(all, memo') && MemoExtends(memo', memo)
    ensures old(PositionIds(all)) ==> PositionIds(all)
    decreases |cakes|, capacity, 0
  {
    SuffixPositive(cakes, all);
    SuffixPositive(cakes[1..], all);
    var maxWithout;
    maxWithout, memo' := TopDownSteal(cakes[1..], capacity, memo, all);
    StealCakesGeneral(cakes, capacity, rest, maxWith, maxWithout);
    v := Max(cakes[0].value + maxWith, maxWithout);
  }

}
