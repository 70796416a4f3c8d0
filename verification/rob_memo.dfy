/** robDP of dynamic-programming.js:278-308: `rob` on the heap, with the
    houses numbered by assignHouseIds and the results cached under those
    numbers in `robberMemo`.  The memo is threaded through the calls as a
    map from id to loot. */
module RobberMemo {
  import opened Wrappers
  import opened JsMath
  import opened BinaryTree
  import opened HouseRobber

  // ---------------------------------------------------------------------
  // When robDP finishes

  /** robDP returns on `t` with a memo that has nothing cached: it never
      reaches `null`, since `robDP(null)` throws inside assignHouseIds and
      `h.l.l` throws on a missing `h.l`. */
  predicate DPCompletes(t: Tree)
  {
    match t
    case Nil => false
    case Node(_, l, r, _) =>
      || OneHouse(t)
      || Truthy(ThreeHouses(t))
      || (&& l.Node? && r.Node?
          && DPCompletes(l.l) && DPCompletes(l.r) && DPCompletes(r.l) && DPCompletes(r.r)
          && DPCompletes(l) && DPCompletes(r))
  }

  /** Where robDP finishes, so does rob. */
  lemma {:induction false} DPCompletesIsFull(t: Tree)
    requires DPCompletes(t)
    ensures t.Node? && Full(t)
  {
    match t
    case Node(_, l, r, _) =>
      if !OneHouse(t) && !Truthy(ThreeHouses(t)) {
        DPCompletesIsFull(l);
        DPCompletesIsFull(r);
      }
  }

  /** Some house has two lone houses below it, and neither it nor the pair
      is worth anything: `_threeHouses` returns the falsy 0 there. */
  predicate HasZeroTriple(t: Tree)
  {
    match t
    case Nil => false
    case Node(_, l, r, _) => ThreeHouses(t) == Some(0) || HasZeroTriple(l) || HasZeroTriple(r)
  }

  lemma {:induction false} ZeroTripleBelow(t: Tree)
    requires t.Node? && !HasZeroTriple(t)
    ensures !HasZeroTriple(t.l) && !HasZeroTriple(t.r)
  {
  }

  /** On a perfect tree robDP finishes exactly when no three-house subtree
      is worth 0. */
  lemma {:induction false} PerfectDPCompletes(t: Tree)
    requires Perfect(t) && t.Node?
    ensures DPCompletes(t) <==> !HasZeroTriple(t)
    decreases t
  {
    var l, r := t.l, t.r;
    if l == Nil {
      assert Height(r) == 0;
      assert r == Nil;
    } else if OneHouse(l) {
      assert Height(r) == 1 && r.Node?;
      assert Height(r.l) == 0 && Height(r.r) == 0;
      assert OneHouse(r);
      assert l.l == Nil && l.r == Nil && r.l == Nil && r.r == Nil;
      assert !HasZeroTriple(Nil);
      assert ThreeHouses(l) == None && ThreeHouses(r) == None;
      assert !HasZeroTriple(l);
      assert !HasZeroTriple(r);
      assert !DPCompletes(l.l);
    } else {
      assert Height(l) >= 2;
      assert l.l.Node? && l.r.Node?;
      assert Height(r) >= 2 && r.Node?;
      assert r.l.Node? && r.r.Node?;
      assert !Truthy(ThreeHouses(t)) && ThreeHouses(t) != Some(0);
      PerfectDPCompletes(l);
      PerfectDPCompletes(r);
      PerfectDPCompletes(l.l);
      PerfectDPCompletes(l.r);
      PerfectDPCompletes(r.l);
      PerfectDPCompletes(r.r);
      if !HasZeroTriple(t) {
        ZeroTripleBelow(l);
        ZeroTripleBelow(r);
      }
    }
  }

  // ---------------------------------------------------------------------
  // The memo

  /** Every truthy entry, under the id k + 1 of the k-th house in level
      order, holds what rob returns on that house. */
  ghost predicate MemoSound(t: Tree, memo: map<int, int>)
    requires t.Node?
  {
    var lo := LevelOrder(t);
    forall k :: 0 <= k < |lo| && k + 1 in memo && memo[k + 1] != 0 ==>
      Rob(At(t, lo[k])) == Some(memo[k + 1])
  }

  /** Every truthy entry belongs to a house where robDP finishes. */
  ghost predicate MemoCompleted(t: Tree, memo: map<int, int>)
    requires t.Node?
  {
    var lo := LevelOrder(t);
    forall k :: 0 <= k < |lo| && k + 1 in memo && memo[k + 1] != 0 ==>
      DPCompletes(At(t, lo[k]))
  }

  /** `robberMemo[h.id] = v` keeps the memo sound. */
  lemma MemoStore(t: Tree, memo: map<int, int>, k: int, x: int)
    requires t.Node? && MemoSound(t, memo)
    requires 0 <= k < |LevelOrder(t)| && Rob(At(t, LevelOrder(t)[k])) == Some(x)
    ensures MemoSound(t, memo[k + 1 := x])
  {
  }

  /** ... and keeps it completed. */
  lemma MemoStoreCompleted(t: Tree, memo: map<int, int>, k: int, x: int)
    requires t.Node? && MemoCompleted(t, memo)
    requires 0 <= k < |LevelOrder(t)| && DPCompletes(At(t, LevelOrder(t)[k]))
    ensures MemoCompleted(t, memo[k + 1 := x])
  {
  }

  /** The id of a numbered house is one more than its place in level order. */
  lemma IdOf(root: BTNode, p: Path) returns (k: nat)
    requires root.Valid() && Numbered(root) && root.NodeAt(p) != null
    ensures k < |LevelOrder(root.model)| && LevelOrder(root.model)[k] == p
    ensures root.NodeAt(p).id == k + 1
  {
    LevelOrderFacts(root.model);
    assert p in LevelOrder(root.model);
    k :| k < |LevelOrder(root.model)| && LevelOrder(root.model)[k] == p;
  }

  // ---------------------------------------------------------------------
  // _oneHouse and _threeHouses on the objects

  /** _oneHouse on a house object: it has no house below it. */
  function OneHouseAt(h: BTNode?): (one: bool)
    requires h != null ==> h.Valid()
    reads h, if h != null then h.Repr else {}
    ensures one == OneHouse(ModelOf(h))
  {
    h != null && h.l == null && h.r == null
  }

  /** _threeHouses on a house object. */
  function ThreeHousesAt(h: BTNode?): (best: Option<int>)
    requires h != null ==> h.Valid()
    reads h, if h != null then h.Repr else {}
    ensures best == ThreeHouses(ModelOf(h))
  {
    if h != null && OneHouseAt(h.l) && OneHouseAt(h.r) then Some(Max(h.val, h.r.val + h.l.val)) else None
  }

  /** The children of the node at `p` are the nodes at `p`'s child paths. */
  lemma ChildPathsAt(root: BTNode, p: Path)
    requires root.Valid() && root.NodeAt(p) != null
    ensures root.NodeAt(p + [L]) == root.NodeAt(p).l
    ensures root.NodeAt(p + [R]) == root.NodeAt(p).r
    ensures At(root.model, p + [L]) == At(root.model, p).l
    ensures At(root.model, p + [R]) == At(root.model, p).r
  {
    root.NodeAtSnoc(p, L);
    root.NodeAtSnoc(p, R);
    AtSnoc(root.model, p, L);
    AtSnoc(root.model, p, R);
  }

  /** One step of rob above two full children: its value from the six
      values below. */
  lemma RobSplit(s: Tree, a: int, b: int, c: int, d: int, e: int, f: int, withRoot: int, withoutRoot: int)
    requires s.Node? && s.l.Node? && s.r.Node? && !OneHouse(s) && !Truthy(ThreeHouses(s))
    requires Rob(s.l.l) == Some(a) && Rob(s.l.r) == Some(b)
    requires Rob(s.r.l) == Some(c) && Rob(s.r.r) == Some(d)
    requires Rob(s.l) == Some(e) && Rob(s.r) == Some(f)
    requires withRoot == s.val + a + b + c + d && withoutRoot == e + f
    ensures Rob(s) == Some(Max(withRoot, withoutRoot))
  {
  }

  // ---------------------------------------------------------------------
  // robDP as written

  /** robDP: `h` is the house at path `p` of the tree under `root`.  `None`
      stands for the TypeError the source throws on reaching `null`.  The
      first call numbers the houses; later calls find them numbered and
      change nothing on the heap. */
  method RobDP(h: BTNode?, memo: map<int, int>, ghost root: BTNode, ghost p: Path)
    returns (v: Option<int>, memo': map<int, int>)
    requires root.Valid() && h == root.NodeAt(p)
    requires (p == [] && root.id == 0) || Numbered(root)
    requires MemoSound(root.model, memo) && MemoCompleted(root.model, memo)
    modifies root.Repr`id
    ensures root.Valid() && root.model == old(root.model) && Numbered(root)
    ensures forall q :: root.NodeAt(q) == old(root.NodeAt(q))
    ensures old(Numbered(root)) ==> unchanged(root.Repr)
    ensures MemoSound(root.model, memo') && MemoCompleted(root.model, memo')
    ensures v.Some? <==> DPCompletes(At(root.model, p))
    ensures v.Some? ==> Rob(At(root.model, p)) == v
    decreases Size(At(root.model, p)), 3
  {
    if h == null {
      // assignHouseIds(null) reads `null.id`
      return None, memo;
    }
    if Numbered(root) {
      ghost var k := IdOf(root, p);
    } else {
      assert h == root;
    }
    var house := AssignHouseIds(h);
    v, memo' := RobNumbered(house, memo, root, p);
  }

  /** robDP once assignHouseIds has returned: the memo lookup, the base
      cases, and the store into the memo. */
  method RobNumbered(h: BTNode, memo: map<int, int>, ghost root: BTNode, ghost p: Path)
    returns (v: Option<int>, memo': map<int, int>)
    requires root.Valid() && Numbered(root) && h == root.NodeAt(p)
    requires MemoSound(root.model, memo) && MemoCompleted(root.model, memo)
    modifies root.Repr`id
    ensures unchanged(root.Repr)
    ensures MemoSound(root.model, memo') && MemoCompleted(root.model, memo')
    ensures v.Some? <==> DPCompletes(At(root.model, p))
    ensures v.Some? ==> Rob(At(root.model, p)) == v
    ensures v.Some? ==> h.id in memo' && memo'[h.id] == v.value
    decreases Size(At(root.model, p)), 2
  {
    ghost var t := root.model;
    ghost var k := IdOf(root, p);
    memo' := memo;
    if h.id in memo' && memo'[h.id] != 0 {
      return Some(memo'[h.id]), memo';
    }
    var oneHouse, threeHouses := OneHouseAt(h), ThreeHousesAt(h);
    if oneHouse {
      v := Some(h.val);
    } else if Truthy(threeHouses) {
      v := threeHouses;
    } else if h.l == null || h.r == null {
      // `h.l.l` or `h.r.l` reads a property of null
      return None, memo';
    } else {
      v, memo' := RobBelow(h, memo', root, p);
      if v.None? {
        return;
      }
    }
    MemoStore(t, memo', k, v.value);
    MemoStoreCompleted(t, memo', k, v.value);
    memo' := memo'[h.id := v.value];
  }

  /** The general case of robDP: `h.val + robDP(h.l.l) + robDP(h.l.r) +
      robDP(h.r.l) + robDP(h.r.r)` against `robDP(h.l) + robDP(h.r)`, the
      calls made left to right, each pair by RobPair. */
  method RobBelow(h: BTNode, memo: map<int, int>, ghost root: BTNode, ghost p: Path)
    returns (v: Option<int>, memo': map<int, int>)
    requires root.Valid() && Numbered(root) && h == root.NodeAt(p)
    requires h.l != null && h.r != null
    requires !OneHouse(At(root.model, p)) && !Truthy(ThreeHouses(At(root.model, p)))
    requires MemoSound(root.model, memo) && MemoCompleted(root.model, memo)
    modifies root.Repr`id
    ensures unchanged(root.Repr)
    ensures MemoSound(root.model, memo') && MemoCompleted(root.model, memo')
    ensures var s := At(root.model, p);
      v.Some? <==>
        DPCompletes(s.l.l) && DPCompletes(s.l.r) && DPCompletes(s.r.l) && DPCompletes(s.r.r) &&
        DPCompletes(s.l) && DPCompletes(s.r)
    ensures v.Some? ==> Rob(At(root.model, p)) == v
    decreases Size(At(root.model, p)), 1
  {
    ghost var s := At(root.model, p);
    ChildPathsAt(root, p);
    assert h.model == s && h.val == s.val;
    var ab, cd, ef;
    ab, memo' := RobPair(h.l, memo, root, p + [L]);
    if ab.None? {
      return None, memo';
    }
    cd, memo' := RobPair(h.r, memo', root, p + [R]);
    if cd.None? {
      return None, memo';
    }
    ef, memo' := RobPair(h, memo', root, p);
    if ef.None? {
      return None, memo';
    }
    assert h.val == s.val && At(root.model, p) == s;
    var withRoot := h.val + ab.value.0 + ab.value.1 + cd.value.0 + cd.value.1;
    var withoutRoot := ef.value.0 + ef.value.1;
    RobSplit(s, ab.value.0, ab.value.1, cd.value.0, cd.value.1, ef.value.0, ef.value.1, withRoot, withoutRoot);
    v := Some(Max(withRoot, withoutRoot));
  }

  /** `robDP(x.l)` then `robDP(x.r)`, for the house `x` at path `q`; the
      second call is not made when the first throws. */
  method RobPair(x: BTNode, memo: map<int, int>, ghost root: BTNode, ghost q: Path)
    returns (both: Option<(int, int)>, memo': map<int, int>)
    requires root.Valid() && Numbered(root) && x == root.NodeAt(q)
    requires MemoSound(root.model, memo) && MemoCompleted(root.model, memo)
    modifies root.Repr`id
    ensures unchanged(root.Repr)
    ensures MemoSound(root.model, memo') && MemoCompleted(root.model, memo')
    ensures var s := At(root.model, q);
      both.Some? <==> DPCompletes(s.l) && DPCompletes(s.r)
    ensures var s := At(root.model, q);
      both.Some? ==> Rob(s.l) == Some(both.value.0) && Rob(s.r) == Some(both.value.1)
    decreases Size(At(root.model, q)), 0
  {
    ChildPathsAt(root, q);
    var a, b;
    a, memo' := RobDP(x.l, memo, root, q + [L]);
    if a.None? {
      return None, memo';
    }
    b, memo' := RobDP(x.r, memo', root, q + [R]);
    if b.None? {
      return None, memo';
    }
    both := Some((a.value, b.value));
  }

  // ---------------------------------------------------------------------
  // robDP with robDP(null) = 0

  /** robDP as its dead `h === null` branch intends: `null` is worth 0, and
      is answered before assignHouseIds reads its id.  It then agrees with
      rob on every tree, throwing exactly where rob throws. */
  method RobDPFixed(h: BTNode?, memo: map<int, int>, ghost root: BTNode, ghost p: Path)
    returns (v: Option<int>, memo': map<int, int>)
    requires root.Valid() && h == root.NodeAt(p)
    requires (p == [] && root.id == 0) || Numbered(root)
    requires MemoSound(root.model, memo)
    modifies root.Repr`id
    ensures root.Valid() && root.model == old(root.model)
    ensures h != null ==> Numbered(root)
    ensures forall q :: root.NodeAt(q) == old(root.NodeAt(q))
    ensures old(Numbered(root)) ==> unchanged(root.Repr)
    ensures MemoSound(root.model, memo')
    ensures v.Some? <==> Full(At(root.model, p))
    ensures v.Some? ==> Rob(At(root.model, p)) == v
    decreases Size(At(root.model, p)), 3
  {
    if h == null {
      return Some(0), memo;
    }
    if Numbered(root) {
      ghost var k := IdOf(root, p);
    } else {
      assert h == root;
    }
    var house := AssignHouseIds(h);
    v, memo' := RobNumberedFixed(house, memo, root, p);
  }

  method RobNumberedFixed(h: BTNode, memo: map<int, int>, ghost root: BTNode, ghost p: Path)
    returns (v: Option<int>, memo': map<int, int>)
    requires root.Valid() && Numbered(root) && h == root.NodeAt(p)
    requires MemoSound(root.model, memo)
    modifies root.Repr`id
    ensures unchanged(root.Repr)
    ensures MemoSound(root.model, memo')
    ensures v.Some? <==> Full(At(root.model, p))
    ensures v.Some? ==> Rob(At(root.model, p)) == v
    ensures v.Some? ==> h.id in memo' && memo'[h.id] == v.value
    decreases Size(At(root.model, p)), 2
  {
    ghost var t := root.model;
    ghost var k := IdOf(root, p);
    memo' := memo;
    if h.id in memo' && memo'[h.id] != 0 {
      return Some(memo'[h.id]), memo';
    }
    var oneHouse, threeHouses := OneHouseAt(h), ThreeHousesAt(h);
    if oneHouse {
      v := Some(h.val);
    } else if Truthy(threeHouses) {
      v := threeHouses;
    } else if h.l == null || h.r == null {
      // `h.l.l` or `h.r.l` reads a property of null
      return None, memo';
    } else {
      v, memo' := RobBelowFixed(h, memo', root, p);
      if v.None? {
        return;
      }
    }
    MemoStore(t, memo', k, v.value);
    memo' := memo'[h.id := v.value];
  }

  method RobBelowFixed(h: BTNode, memo: map<int, int>, ghost root: BTNode, ghost p: Path)
    returns (v: Option<int>, memo': map<int, int>)
    requires root.Valid() && Numbered(root) && h == root.NodeAt(p)
    requires h.l != null && h.r != null
    requires !OneHouse(At(root.model, p)) && !Truthy(ThreeHouses(At(root.model, p)))
    requires MemoSound(root.model, memo)
    modifies root.Repr`id
    ensures unchanged(root.Repr)
    ensures MemoSound(root.model, memo')
    ensures v.Some? <==> Full(At(root.model, p))
    ensures v.Some? ==> Rob(At(root.model, p)) == v
    decreases Size(At(root.model, p)), 1
  {
    ghost var s := At(root.model, p);
    ChildPathsAt(root, p);
    assert h.model == s && h.val == s.val;
    var ab, cd, ef;
    ab, memo' := RobPairFixed(h.l, memo, root, p + [L]);
    if ab.None? {
      return None, memo';
    }
    cd, memo' := RobPairFixed(h.r, memo', root, p + [R]);
    if cd.None? {
      return None, memo';
    }
    ef, memo' := RobPairFixed(h, memo', root, p);
    if ef.None? {
      return None, memo';
    }
    var withRoot := h.val + ab.value.0 + ab.value.1 + cd.value.0 + cd.value.1;
    var withoutRoot := ef.value.0 + ef.value.1;
    RobSplit(s, ab.value.0, ab.value.1, cd.value.0, cd.value.1, ef.value.0, ef.value.1, withRoot, withoutRoot);
    v := Some(Max(withRoot, withoutRoot));
  }

  method RobPairFixed(x: BTNode, memo: map<int, int>, ghost root: BTNode, ghost q: Path)
    returns (both: Option<(int, int)>, memo': map<int, int>)
    requires root.Valid() && Numbered(root) && x == root.NodeAt(q)
    requires MemoSound(root.model, memo)
    modifies root.Repr`id
    ensures unchanged(root.Repr)
    ensures MemoSound(root.model, memo')
    ensures var s := At(root.model, q);
      both.Some? <==> Full(s.l) && Full(s.r)
    ensures var s := At(root.model, q);
      both.Some? ==> Rob(s.l) == Some(both.value.0) && Rob(s.r) == Some(both.value.1)
    decreases Size(At(root.model, q)), 0
  {
    ChildPathsAt(root, q);
    var a, b;
    a, memo' := RobDPFixed(x.l, memo, root, q + [L]);
    if a.None? {
      return None, memo';
    }
    b, memo' := RobDPFixed(x.r, memo', root, q + [R]);
    if b.None? {
      return None, memo';
    }
    both := Some((a.value, b.value));
  }

  // ---------------------------------------------------------------------
  // Runs on concrete trees

  /** robDP on the sample `house` of utils.js, with an empty memo, returns
      127: 100 from the left house and 15 + 12 below the right one. */
  method RobSampleHouse(house: BTNode) returns (v: Option<int>)
    requires house.Valid() && house.model == SampleHouse() && house.id == 0
    modifies house.Repr`id
    ensures v == Some(127)
  {
    SampleHouseLoot();
    PerfectDPCompletes(SampleHouse());
    assert At(house.model, []) == SampleHouse();
    var memo;
    v, memo := RobDP(house, map[], house, []);
  }

  /** Three houses worth nothing: rob returns 0 but robDP throws, because
      `_threeHouses` yields the falsy 0 and the general case then calls
      robDP on the missing grandchildren. */
  method ZeroTripleAsWritten() returns (v: Option<int>, ghost loot: Option<int>)
    ensures loot == Some(0) && v == None
  {
    var house := new BTNode(0, null, null);
    ghost var added := house.Insert(0);
    added := house.Insert(0);
    assert house.model == Node(0, Leaf(0), Leaf(0), 'l');
    assert At(house.model, []) == house.model;
    loot := Rob(house.model);
    var memo;
    v, memo := RobDP(house, map[], house, []);
  }

  /** The same three houses with robDP(null) = 0: 0, as rob says. */
  method ZeroTripleFixed() returns (v: Option<int>)
    ensures v == Some(0)
  {
    var house := new BTNode(0, null, null);
    ghost var added := house.Insert(0);
    added := house.Insert(0);
    assert house.model == Node(0, Leaf(0), Leaf(0), 'l');
    assert At(house.model, []) == house.model;
    var memo;
    v, memo := RobDPFixed(house, map[], house, []);
  }
}
