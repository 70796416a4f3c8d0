/** The house robber of dynamic-programming.js:240-308: houses sit on a
    binary tree, and two houses joined by an edge cannot both be robbed. */
module HouseRobber {
  import opened Wrappers
  import opened JsMath
  import opened BinaryTree
  import opened Queue

  /** _oneHouse: a house with no house below it. */
  function OneHouse(t: Tree): (one: bool)
    ensures one <==> t.Node? && Size(t) == 1
  {
    t.Node? && t.l == Nil && t.r == Nil
  }

  /** _threeHouses: for a house whose two houses below are lone houses, the
      better of robbing it alone or both of them; otherwise `false`
      (here `None`). */
  function ThreeHouses(t: Tree): (best: Option<int>)
    ensures best.Some? <==> Full(t) && Size(t) == 3
    ensures best.Some? ==>
              && t.Node? && t.l.Node? && t.r.Node?
              && best.value >= t.val && best.value >= t.l.val + t.r.val
              && (best.value == t.val || best.value == t.l.val + t.r.val)
  {
    ThreeNodeShape(t);
    if t.Node? && OneHouse(t.l) && OneHouse(t.r) then Some(Max(t.val, t.r.val + t.l.val)) else None
  }

  lemma ThreeNodeShape(t: Tree)
    ensures Full(t) && Size(t) == 3 <==> t.Node? && OneHouse(t.l) && OneHouse(t.r)
  {
    if t.Node? && Full(t) && Size(t) == 3 {
      assert t.l != Nil && t.r != Nil;
      assert Size(t.l) == 1 && Size(t.r) == 1;
      assert OneHouse(t.l) && OneHouse(t.r);
    }
    if t.Node? && OneHouse(t.l) && OneHouse(t.r) {
      assert Size(t.l) == 1 && Size(t.r) == 1;
      assert Full(t.l) && Full(t.r);
    }
  }

  /** rob: the most a robber can take from the tree, or `None` where the
      source dereferences a missing child (a house with exactly one house
      below it makes `h.l.l` or `h.r.l` throw a TypeError). */
  function Rob(t: Tree): (loot: Option<int>)
    ensures loot.Some? <==> Full(t)
  {
    match t
    case Nil => Some(0)
    case Node(v, l, r, _) =>
      if OneHouse(t) then Some(v)
      else if Truthy(ThreeHouses(t)) then ThreeHouses(t)
      else if l == Nil || r == Nil then None
      else
        match (Rob(l.l), Rob(l.r), Rob(r.l), Rob(r.r), Rob(l), Rob(r))
        case (Some(a), Some(b), Some(c), Some(d), Some(e), Some(f)) =>
          Some(Max(v + a + b + c + d, e + f))
        case _ => None
  }

  predicate NonNegative(t: Tree)
  {
    match t
    case Nil => true
    case Node(v, l, r, _) => v >= 0 && NonNegative(l) && NonNegative(r)
  }

  /** A robber's choice: for each house of the tree, whether it is robbed.
      `NoPlan` robs nothing in the subtree it stands for. */
  datatype Plan = NoPlan | Plan(take: bool, l: Plan, r: Plan)

  predicate Taken(p: Plan)
  {
    p.Plan? && p.take
  }

  function Left(p: Plan): Plan
  {
    if p.Plan? then p.l else NoPlan
  }

  function Right(p: Plan): Plan
  {
    if p.Plan? then p.r else NoPlan
  }

  /** The total value of the houses `p` robs in `t`. */
  function Loot(t: Tree, p: Plan): int
  {
    match t
    case Nil => 0
    case Node(v, l, r, _) => (if Taken(p) then v else 0) + Loot(l, Left(p)) + Loot(r, Right(p))
  }

  /** `p` never robs two houses joined by an edge. */
  predicate Safe(t: Tree, p: Plan)
  {
    match t
    case Nil => true
    case Node(_, l, r, _) =>
      (Taken(p) && l.Node? ==> !Taken(Left(p))) &&
      (Taken(p) && r.Node? ==> !Taken(Right(p))) &&
      Safe(l, Left(p)) && Safe(r, Right(p))
  }

  lemma {:induction false} LootNoPlan(t: Tree)
    ensures Loot(t, NoPlan) == 0 && Safe(t, NoPlan)
  {
    match t
    case Nil =>
    case Node(_, l, r, _) =>
      LootNoPlan(l);
      LootNoPlan(r);
  }

  /** A safe plan whose loot is exactly what rob returns. */
  function RobPlan(t: Tree): (p: Plan)
    requires Full(t)
    ensures Safe(t, p) && Loot(t, p) == Rob(t).value
  {
    match t
    case Nil => NoPlan
    case Node(v, l, r, _) =>
      LootNoPlan(l);
      LootNoPlan(r);
      if OneHouse(t) then Plan(true, NoPlan, NoPlan)
      else if Truthy(ThreeHouses(t)) then
        if v >= l.val + r.val then Plan(true, NoPlan, NoPlan)
        else Plan(false, Plan(true, NoPlan, NoPlan), Plan(true, NoPlan, NoPlan))
      else
        assert Full(l) && Full(r);
        assert Full(l.l) && Full(l.r) && Full(r.l) && Full(r.r);
        var withRoot := v + Rob(l.l).value + Rob(l.r).value + Rob(r.l).value + Rob(r.r).value;
        var withoutRoot := Rob(l).value + Rob(r).value;
        if withRoot >= withoutRoot then
          Plan(true, Plan(false, RobPlan(l.l), RobPlan(l.r)), Plan(false, RobPlan(r.l), RobPlan(r.r)))
        else
          Plan(false, RobPlan(l), RobPlan(r))
  }

  /** With no negative house values, no safe plan beats rob. */
  lemma {:induction false} RobIsUpperBound(t: Tree, p: Plan)
    requires Full(t) && NonNegative(t) && Safe(t, p)
    ensures Loot(t, p) <= Rob(t).value
  {
    match t
    case Nil =>
    case Node(v, l, r, _) =>
      if OneHouse(t) {
      } else if Truthy(ThreeHouses(t)) {
        assert Loot(l, Left(p)) == if Taken(Left(p)) then l.val else 0;
        assert Loot(r, Right(p)) == if Taken(Right(p)) then r.val else 0;
      } else {
        RobIsUpperBound(l, Left(p));
        RobIsUpperBound(r, Right(p));
        if Taken(p) {
          RobIsUpperBound(l.l, Left(Left(p)));
          RobIsUpperBound(l.r, Right(Left(p)));
          RobIsUpperBound(r.l, Left(Right(p)));
          RobIsUpperBound(r.r, Right(Right(p)));
        }
      }
  }

  /** rob is the best loot over all safe plans (for non-negative values). */
  lemma RobIsOptimal(t: Tree)
    requires Full(t) && NonNegative(t)
    ensures forall p :: Safe(t, p) ==> Loot(t, p) <= Rob(t).value
    ensures exists p :: Safe(t, p) && Loot(t, p) == Rob(t).value
  {
    forall p | Safe(t, p)
      ensures Loot(t, p) <= Rob(t).value
    {
      RobIsUpperBound(t, p);
    }
    var best := RobPlan(t);
  }

  /** The sample house of utils.js:22-28 yields 127. */
  lemma SampleHouseLoot()
    ensures Perfect(SampleHouse()) && NonNegative(SampleHouse())
    ensures Rob(SampleHouse()) == Some(127)
  {
    var t := SampleHouse();
    assert Rob(t.l) == Some(100);
    assert Rob(t.r) == Some(27);
  }

  // ---------------------------------------------------------------------
  // Breadth-first order of the houses (assignHouseIds)

  /** Depth first, then left before right: the order in which a
      breadth-first walk meets the nodes. */
  predicate LevelLess(a: Path, b: Path)
  {
    |a| < |b| || (|a| == |b| && LexLess(a, b))
  }

  /** `a` branches left where `b` branches right, after a common prefix. */
  predicate LexLess(a: Path, b: Path)
    decreases |a|
  {
    a != [] && b != [] &&
    ((a[0] == L && b[0] == R) || (a[0] == b[0] && LexLess(a[1..], b[1..])))
  }

  lemma {:induction false} LexIrreflexive(a: Path)
    ensures !LexLess(a, a)
    decreases |a|
  {
    if a != [] {
      LexIrreflexive(a[1..]);
    }
  }

  lemma {:induction false} LexTransitive(a: Path, b: Path, c: Path)
    requires LexLess(a, b) && LexLess(b, c)
    ensures LexLess(a, c)
    decreases |a|
  {
    if a[0] == b[0] && b[0] == c[0] {
      LexTransitive(a[1..], b[1..], c[1..]);
    }
  }

  lemma {:induction false} LexSnoc(a: Path, b: Path, x: Dir, y: Dir)
    requires LexLess(a, b)
    ensures LexLess(a + [x], b + [y])
    decreases |a|
  {
    assert (a + [x])[0] == a[0] && (b + [y])[0] == b[0];
    if !(a[0] == L && b[0] == R) {
      assert (a + [x])[1..] == a[1..] + [x];
      assert (b + [y])[1..] == b[1..] + [y];
      LexSnoc(a[1..], b[1..], x, y);
    }
  }

  lemma {:induction false} LexSiblings(h: Path)
    ensures LexLess(h + [L], h + [R])
    decreases |h|
  {
    if h == [] {
      assert ([] + [L])[0] == L && ([] + [R])[0] == R;
    } else {
      assert (h + [L])[1..] == h[1..] + [L];
      assert (h + [R])[1..] == h[1..] + [R];
      LexSiblings(h[1..]);
    }
  }

  lemma LevelIrreflexive(a: Path)
    ensures !LevelLess(a, a)
  {
    LexIrreflexive(a);
  }

  lemma LevelTransitive(a: Path, b: Path, c: Path)
    requires LevelLess(a, b) && LevelLess(b, c)
    ensures LevelLess(a, c)
  {
    if |a| == |b| == |c| {
      LexTransitive(a, b, c);
    }
  }

  function Parent(p: Path): Path
    requires p != []
  {
    p[..|p| - 1]
  }

  /** The children of the node at `p`, left first, that enQ puts on the
      queue (missing children are not enQueued). */
  function Children(t: Tree, p: Path): seq<Path>
  {
    (if At(t, p + [L]).Node? then [p + [L]] else []) +
    (if At(t, p + [R]).Node? then [p + [R]] else [])
  }

  predicate AllNodes(t: Tree, q: seq<Path>)
  {
    forall i :: 0 <= i < |q| ==> At(t, q[i]).Node?
  }

  /** The number of nodes below (and at) the queued paths. */
  function QueueWork(t: Tree, q: seq<Path>): nat
  {
    if q == [] then 0 else Size(At(t, q[0])) + QueueWork(t, q[1..])
  }

  lemma {:induction false} QueueWorkAppend(t: Tree, a: seq<Path>, b: seq<Path>)
    ensures QueueWork(t, a + b) == QueueWork(t, a) + QueueWork(t, b)
  {
    if a == [] {
      assert a + b == b;
    } else {
      assert (a + b)[1..] == a[1..] + b;
      QueueWorkAppend(t, a[1..], b);
    }
  }

  lemma ChildrenFacts(t: Tree, p: Path)
    requires At(t, p).Node?
    ensures AllNodes(t, Children(t, p))
    ensures QueueWork(t, Children(t, p)) == Size(At(t, p)) - 1
    ensures forall c :: c in Children(t, p) ==> |c| == |p| + 1 && p <= c && Parent(c) == p
  {
    AtSnoc(t, p, L);
    AtSnoc(t, p, R);
    ChildPaths(p);
    var lp, rp := p + [L], p + [R];
    var ls := if At(t, lp).Node? then [lp] else [];
    var rs := if At(t, rp).Node? then [rp] else [];
    QueueWorkAppend(t, ls, rs);
    assert QueueWork(t, ls) == Size(At(t, lp)) by {
      if ls != [] {
        assert ls[1..] == [];
      }
    }
    assert QueueWork(t, rs) == Size(At(t, rp)) by {
      if rs != [] {
        assert rs[1..] == [];
      }
    }
  }

  lemma ChildPaths(p: Path)
    ensures forall d :: |p + [d]| == |p| + 1 && p <= p + [d] && Parent(p + [d]) == p
  {
    forall d
      ensures |p + [d]| == |p| + 1 && p <= p + [d] && Parent(p + [d]) == p
    {
      assert (p + [d])[..|p|] == p;
    }
  }

  lemma QueueStep(t: Tree, q: seq<Path>)
    requires q != [] && AllNodes(t, q)
    ensures AllNodes(t, q[1..] + Children(t, q[0]))
    ensures QueueWork(t, q[1..] + Children(t, q[0])) == QueueWork(t, q) - 1
  {
    ChildrenFacts(t, q[0]);
    QueueWorkAppend(t, q[1..], Children(t, q[0]));
  }

  /** The paths a breadth-first loop visits, starting from queue `q`. */
  function BfsPaths(t: Tree, q: seq<Path>): seq<Path>
    requires AllNodes(t, q)
    decreases QueueWork(t, q)
  {
    if q == [] then []
    else
      QueueStep(t, q);
      [q[0]] + BfsPaths(t, q[1..] + Children(t, q[0]))
  }

  /** The order in which assignHouseIds numbers the houses. */
  function LevelOrder(t: Tree): seq<Path>
    requires t.Node?
  {
    assert At(t, []) == t;
    BfsPaths(t, [[]])
  }

  /** A queue of a breadth-first walk: in level order, spanning at most two
      depths, and every deeper path hangs below a node already dequeued. */
  predicate QueueOk(q: seq<Path>)
  {
    q != [] ==>
      && (forall i, j :: 0 <= i < j < |q| ==> LevelLess(q[i], q[j]))
      && (forall i :: 0 <= i < |q| ==> |q[i]| <= |q[0]| + 1)
      && (forall i :: 0 <= i < |q| && |q[i]| == |q[0]| + 1 ==> LexLess(Parent(q[i]), q[0]))
  }

  lemma QueueOkStep(t: Tree, q: seq<Path>)
    requires q != [] && AllNodes(t, q) && QueueOk(q)
    ensures QueueOk(q[1..] + Children(t, q[0]))
    ensures q[1..] + Children(t, q[0]) != [] ==> LevelLess(q[0], (q[1..] + Children(t, q[0]))[0])
  {
    var h, rest, cs := q[0], q[1..], Children(t, q[0]);
    var q' := rest + cs;
    ChildrenFacts(t, h);
    if q' != [] {
      assert LevelLess(h, q'[0]) by {
        if rest != [] {
          assert q[1] == q'[0];
        }
      }
      StepSorted(t, q);
      StepSpan(t, q);
      StepParents(t, q);
    }
  }

  lemma StepSorted(t: Tree, q: seq<Path>)
    requires q != [] && AllNodes(t, q) && QueueOk(q)
    ensures var q' := q[1..] + Children(t, q[0]);
      forall i, j :: 0 <= i < j < |q'| ==> LevelLess(q'[i], q'[j])
  {
    var h, rest, cs := q[0], q[1..], Children(t, q[0]);
    var q' := rest + cs;
    ChildrenFacts(t, h);
    LexSiblings(h);
    forall i, j | 0 <= i < j < |q'|
      ensures LevelLess(q'[i], q'[j])
    {
      if j < |rest| {
        assert q'[i] == q[i + 1] && q'[j] == q[j + 1];
      } else if i >= |rest| {
        assert q'[i] == cs[i - |rest|] && q'[j] == cs[j - |rest|];
        assert cs[0] == h + [L] && cs[1] == h + [R];
      } else {
        var e, c := q[i + 1], cs[j - |rest|];
        assert q'[i] == e && q'[j] == c;
        assert c in cs;
        if |e| == |h| + 1 {
          assert LexLess(Parent(e), h);
          LexSnoc(Parent(e), h, e[|e| - 1], c[|c| - 1]);
          assert Parent(e) + [e[|e| - 1]] == e;
          assert h + [c[|c| - 1]] == c;
        } else {
          assert LevelLess(h, e);
        }
      }
    }
  }

  lemma StepSpan(t: Tree, q: seq<Path>)
    requires q != [] && AllNodes(t, q) && QueueOk(q)
    requires q[1..] + Children(t, q[0]) != []
    ensures var q' := q[1..] + Children(t, q[0]);
      forall i :: 0 <= i < |q'| ==> |q'[i]| <= |q'[0]| + 1
  {
    var h, rest, cs := q[0], q[1..], Children(t, q[0]);
    var q' := rest + cs;
    ChildrenFacts(t, h);
    if rest != [] {
      assert q'[0] == q[1] && LevelLess(h, q[1]);
    }
    forall i | 0 <= i < |q'|
      ensures |q'[i]| <= |q'[0]| + 1
    {
      if i < |rest| {
        assert q'[i] == q[i + 1];
      } else {
        assert q'[i] == cs[i - |rest|] && q'[i] in cs;
        if rest == [] {
          assert q'[0] in cs;
        }
      }
    }
  }

  lemma StepParents(t: Tree, q: seq<Path>)
    requires q != [] && AllNodes(t, q) && QueueOk(q)
    requires q[1..] + Children(t, q[0]) != []
    ensures var q' := q[1..] + Children(t, q[0]);
      forall i :: 0 <= i < |q'| && |q'[i]| == |q'[0]| + 1 ==> LexLess(Parent(q'[i]), q'[0])
  {
    var h, rest, cs := q[0], q[1..], Children(t, q[0]);
    var q' := rest + cs;
    ChildrenFacts(t, h);
    if rest == [] {
      assert forall i :: 0 <= i < |q'| ==> q'[i] in cs;
      assert forall i :: 0 <= i < |q'| ==> |q'[i]| == |h| + 1;
    } else {
      var h' := q[1];
      assert q'[0] == h' && LevelLess(h, h');
      forall i | 0 <= i < |q'| && |q'[i]| == |h'| + 1
        ensures LexLess(Parent(q'[i]), h')
      {
        if i < |rest| {
          assert q'[i] == q[i + 1];
          assert |h'| == |h|;
          LexTransitive(Parent(q'[i]), h, h');
        } else {
          assert q'[i] == cs[i - |rest|] && q'[i] in cs;
          assert |h'| == |h|;
        }
      }
    }
  }

  lemma {:induction false} BfsSorted(t: Tree, q: seq<Path>)
    requires AllNodes(t, q) && QueueOk(q)
    ensures forall i, j :: 0 <= i < j < |BfsPaths(t, q)| ==> LevelLess(BfsPaths(t, q)[i], BfsPaths(t, q)[j])
    decreases QueueWork(t, q)
  {
    if q != [] {
      var q' := q[1..] + Children(t, q[0]);
      QueueStep(t, q);
      QueueOkStep(t, q);
      BfsSorted(t, q');
      var b, b' := BfsPaths(t, q), BfsPaths(t, q');
      assert b == [q[0]] + b';
      forall j | 0 < j < |b|
        ensures LevelLess(q[0], b[j])
      {
        assert b[j] == b'[j - 1];
        assert b'[0] == q'[0];
        if j > 1 {
          LevelTransitive(q[0], b'[0], b'[j - 1]);
        }
      }
    }
  }

  /** Some queued path is a prefix of `p`. */
  predicate Covered(q: seq<Path>, p: Path)
  {
    q != [] && (q[0] <= p || Covered(q[1..], p))
  }

  lemma {:induction false} CoveredAppend(a: seq<Path>, b: seq<Path>, p: Path)
    ensures Covered(a + b, p) <==> Covered(a, p) || Covered(b, p)
  {
    if a == [] {
      assert a + b == b;
    } else {
      assert (a + b)[0] == a[0] && (a + b)[1..] == a[1..] + b;
      CoveredAppend(a[1..], b, p);
    }
  }

  lemma CoverChildren(t: Tree, h: Path, p: Path)
    requires At(t, p).Node?
    ensures h <= p <==> p == h || Covered(Children(t, h), p)
  {
    var cs := Children(t, h);
    if h <= p && p != h {
      var d := p[|h|];
      var c := h + [d];
      assert p == c + p[|h| + 1..];
      AtAncestor(t, c, p[|h| + 1..]);
      assert c <= p;
      if d == L {
        assert cs[0] == c;
      } else if At(t, h + [L]).Node? {
        assert cs[1] == c;
        assert Covered(cs[1..], p);
      } else {
        assert cs[0] == c;
      }
    }
    if Covered(cs, p) {
      assert forall c :: c in cs ==> h <= c;
      if !(cs[0] <= p) {
        var more := cs[1..];
        assert Covered(more, p);
        assert |cs| <= 2 && more[1..] == [];
        assert !Covered(more[1..], p);
        assert more[0] <= p;
      }
    }
  }

  lemma {:induction false} BfsCovers(t: Tree, q: seq<Path>)
    requires AllNodes(t, q)
    ensures forall p :: p in BfsPaths(t, q) <==> At(t, p).Node? && Covered(q, p)
    decreases QueueWork(t, q)
  {
    if q != [] {
      var h, cs := q[0], Children(t, q[0]);
      var q' := q[1..] + cs;
      QueueStep(t, q);
      BfsCovers(t, q');
      forall p
        ensures p in BfsPaths(t, q) <==> At(t, p).Node? && Covered(q, p)
      {
        CoveredAppend(q[1..], cs, p);
        if At(t, p).Node? {
          CoverChildren(t, h, p);
        }
      }
    }
  }

  lemma {:induction false} BfsLength(t: Tree, q: seq<Path>)
    requires AllNodes(t, q)
    ensures |BfsPaths(t, q)| == QueueWork(t, q)
    decreases QueueWork(t, q)
  {
    if q != [] {
      QueueStep(t, q);
      BfsLength(t, q[1..] + Children(t, q[0]));
    }
  }

  /** assignHouseIds visits every house exactly once, shallower houses
      first and, within a depth, left before right. */
  lemma LevelOrderFacts(t: Tree)
    requires t.Node?
    ensures forall p :: p in LevelOrder(t) <==> At(t, p).Node?
    ensures forall i, j :: 0 <= i < j < |LevelOrder(t)| ==> LevelLess(LevelOrder(t)[i], LevelOrder(t)[j])
    ensures forall i, j :: 0 <= i < j < |LevelOrder(t)| ==> LevelOrder(t)[i] != LevelOrder(t)[j]
    ensures |LevelOrder(t)| == Size(t) && LevelOrder(t)[0] == []
  {
    var q: seq<Path> := [[]];
    assert At(t, []) == t;
    BfsCovers(t, q);
    forall p
      ensures Covered(q, p)
    {
      assert q[0] <= p;
    }
    BfsSorted(t, q);
    forall i, j | 0 <= i < j < |LevelOrder(t)|
      ensures LevelOrder(t)[i] != LevelOrder(t)[j]
    {
      LevelIrreflexive(LevelOrder(t)[i]);
    }
    BfsLength(t, q);
    assert q[1..] == [];
    assert QueueWork(t, q) == Size(t);
  }

  // ---------------------------------------------------------------------
  // Numbering the houses in the heap

  /** Every house carries its position in the level order, counting from 1. */
  ghost predicate Numbered(root: BTNode)
    requires root.Valid()
    reads root, root.Repr
  {
    var lo := LevelOrder(root.model);
    forall k :: 0 <= k < |lo| ==> root.NodeAt(lo[k]) != null && root.NodeAt(lo[k]).id == k + 1
  }

  /** The object at `p` has as children the objects at `p`'s child paths. */
  ghost predicate Linked(nodeOf: map<Path, BTNode?>, p: Path)
    reads (if p in nodeOf then {nodeOf[p]} else {})`l, (if p in nodeOf then {nodeOf[p]} else {})`r
  {
    p in nodeOf && nodeOf[p] != null ==>
      nodeOf[p].l == (if p + [L] in nodeOf then nodeOf[p + [L]] else null) &&
      nodeOf[p].r == (if p + [R] in nodeOf then nodeOf[p + [R]] else null)
  }

  /** `nodeOf` names one distinct object for each node of `t`. */
  ghost predicate Snapshot(t: Tree, nodeOf: map<Path, BTNode?>)
  {
    && (forall p :: p in nodeOf <==> At(t, p).Node?)
    && (forall p :: p in nodeOf ==> nodeOf[p] != null)
    && (forall p, p' :: p in nodeOf && p' in nodeOf && p != p' ==> nodeOf[p] != nodeOf[p'])
  }

  /** The objects of the tree at the start of the numbering, by path. */
  lemma NodeMapFacts(h: BTNode, nodeOf: map<Path, BTNode?>)
    requires h.Valid()
    requires nodeOf == map p | p in LevelOrder(h.model) :: h.NodeAt(p)
    ensures Snapshot(h.model, nodeOf)
    ensures forall p :: p in nodeOf ==> nodeOf[p] in h.Repr
    ensures forall p :: Linked(nodeOf, p)
  {
    LevelOrderFacts(h.model);
    forall p
      ensures Linked(nodeOf, p)
    {
      h.NodeAtSnoc(p, L);
      h.NodeAtSnoc(p, R);
    }
    forall p, p' | p in nodeOf && p' in nodeOf && p != p'
      ensures nodeOf[p] != nodeOf[p']
    {
      NodeAtInjective(h, p, p');
    }
  }

  /** The queue holds the objects at the queued paths, in order. */
  ghost predicate Tracks(data: seq<BTNode>, nodeOf: map<Path, BTNode?>, pq: seq<Path>)
  {
    |data| == |pq| && forall i :: 0 <= i < |pq| ==> pq[i] in nodeOf && data[i] == nodeOf[pq[i]]
  }

  /** The houses at the first |out| level-order paths carry ids 1, 2, ... */
  ghost predicate IdsUpTo(nodeOf: map<Path, BTNode?>, out: seq<Path>)
    reads nodeOf.Values`id
  {
    forall k :: 0 <= k < |out| ==>
      out[k] in nodeOf && nodeOf[out[k]] != null && nodeOf[out[k]].id == k + 1
  }

  /** What enQ adds for a child link: nothing for null. */
  function Present(n: BTNode?): seq<BTNode>
  {
    if n == null then [] else [n]
  }

  /** One turn of the numbering loop, on the ghost side: the dequeued path
      is the next one in level order, the queue keeps tracking the queued
      paths, and the dequeued object is none of those numbered before. */
  lemma VisitStep(t: Tree, nodeOf: map<Path, BTNode?>, lo: seq<Path>, out: seq<Path>,
                  pq: seq<Path>, data: seq<BTNode>, nl: BTNode?, nr: BTNode?)
    requires t.Node? && Snapshot(t, nodeOf) && lo == LevelOrder(t)
    requires AllNodes(t, pq) && pq != [] && lo == out + BfsPaths(t, pq)
    requires Tracks(data, nodeOf, pq)
    requires nl == (if pq[0] + [L] in nodeOf then nodeOf[pq[0] + [L]] else null)
    requires nr == (if pq[0] + [R] in nodeOf then nodeOf[pq[0] + [R]] else null)
    ensures AllNodes(t, pq[1..] + Children(t, pq[0]))
    ensures lo == (out + [pq[0]]) + BfsPaths(t, pq[1..] + Children(t, pq[0]))
    ensures Tracks(data[1..] + Present(nl) + Present(nr), nodeOf, pq[1..] + Children(t, pq[0]))
    ensures forall k :: 0 <= k < |out| ==> out[k] in nodeOf && nodeOf[out[k]] != nodeOf[pq[0]]
  {
    QueueStep(t, pq);
    VisitOrder(t, nodeOf, lo, out, pq);
    VisitQueue(t, nodeOf, pq, data, nl, nr);
  }

  lemma VisitOrder(t: Tree, nodeOf: map<Path, BTNode?>, lo: seq<Path>, out: seq<Path>, pq: seq<Path>)
    requires t.Node? && Snapshot(t, nodeOf) && lo == LevelOrder(t)
    requires AllNodes(t, pq) && pq != [] && lo == out + BfsPaths(t, pq)
    ensures forall k :: 0 <= k < |out| ==> out[k] in nodeOf && nodeOf[out[k]] != nodeOf[pq[0]]
  {
    var hp := pq[0];
    QueueStep(t, pq);
    var b := BfsPaths(t, pq);
    assert b[0] == hp;
    assert lo[|out|] == hp;
    LevelOrderFacts(t);
    forall k | 0 <= k < |out|
      ensures out[k] in nodeOf && nodeOf[out[k]] != nodeOf[hp]
    {
      assert lo[k] == out[k];
      assert lo[k] != lo[|out|];
    }
  }

  lemma VisitQueue(t: Tree, nodeOf: map<Path, BTNode?>, pq: seq<Path>, data: seq<BTNode>,
                   nl: BTNode?, nr: BTNode?)
    requires Snapshot(t, nodeOf) && AllNodes(t, pq) && pq != []
    requires Tracks(data, nodeOf, pq)
    requires nl == (if pq[0] + [L] in nodeOf then nodeOf[pq[0] + [L]] else null)
    requires nr == (if pq[0] + [R] in nodeOf then nodeOf[pq[0] + [R]] else null)
    ensures Tracks(data[1..] + Present(nl) + Present(nr), nodeOf, pq[1..] + Children(t, pq[0]))
  {
    var hp := pq[0];
    var cs := Children(t, hp);
    var ns := Present(nl) + Present(nr);
    assert |ns| == |cs| && forall i :: 0 <= i < |cs| ==> cs[i] in nodeOf && ns[i] == nodeOf[cs[i]];
    var data', pq' := data[1..] + ns, pq[1..] + cs;
    forall i | 0 <= i < |pq'|
      ensures pq'[i] in nodeOf && data'[i] == nodeOf[pq'[i]]
    {
      if i < |pq| - 1 {
        assert pq'[i] == pq[i + 1] && data'[i] == data[i + 1];
      } else {
        assert pq'[i] == cs[i - |pq| + 1] && data'[i] == ns[i - |pq| + 1];
      }
    }
  }

  /** One turn of the numbering loop after the deQ: the dequeued house
      `node`, at the path `hp` at the head of the queued paths, gets the
      next id and its children join the queue. */
  method VisitHouse(q: Q<BTNode>, node: BTNode, id: int, ghost t: Tree, ghost lo: seq<Path>,
                    ghost nodeOf: map<Path, BTNode?>, ghost out: seq<Path>, ghost pq: seq<Path>,
                    ghost data: seq<BTNode>)
    returns (ghost out': seq<Path>, ghost pq': seq<Path>)
    requires t.Node? && Snapshot(t, nodeOf) && lo == LevelOrder(t)
    requires AllNodes(t, pq) && pq != [] && lo == out + BfsPaths(t, pq)
    requires Tracks(data, nodeOf, pq) && data != [] && node == data[0] && q.data == data[1..]
    requires IdsUpTo(nodeOf, out) && id == |out| + 1
    requires node.l == (if pq[0] + [L] in nodeOf then nodeOf[pq[0] + [L]] else null)
    requires node.r == (if pq[0] + [R] in nodeOf then nodeOf[pq[0] + [R]] else null)
    modifies q, node`id
    ensures AllNodes(t, pq') && lo == out' + BfsPaths(t, pq') && |out'| == |out| + 1
    ensures Tracks(q.data, nodeOf, pq') && IdsUpTo(nodeOf, out')
  {
    ghost var hp := pq[0];
    assert node == nodeOf[hp];
    var nl, nr := node.l, node.r;
    VisitStep(t, nodeOf, lo, out, pq, data, nl, nr);
    node.id := id;
    forall k | 0 <= k < |out| + 1
      ensures (out + [hp])[k] in nodeOf && nodeOf[(out + [hp])[k]] != null
      ensures nodeOf[(out + [hp])[k]].id == k + 1
    {
      if k < |out| {
        assert (out + [hp])[k] == out[k];
      }
    }
    q.EnQ(if nl == null then None else Some(nl));
    q.EnQ(if nr == null then None else Some(nr));
    assert q.data == data[1..] + Present(nl) + Present(nr);
    out', pq' := out + [hp], pq[1..] + Children(t, hp);
  }

  /** The breadth-first loop of assignHouseIds, on the objects `nodeOf`
      names: numbers them 1, 2, ... in level order. */
  method NumberLevels(h: BTNode, ghost t: Tree, ghost lo: seq<Path>, ghost nodeOf: map<Path, BTNode?>)
    requires t.Node? && Snapshot(t, nodeOf) && lo == LevelOrder(t)
    requires [] in nodeOf && nodeOf[[]] == h
    requires forall p :: Linked(nodeOf, p)
    modifies nodeOf.Values`id
    ensures IdsUpTo(nodeOf, lo)
  {
    assert At(t, []) == t;
    var id := 1;
    var q := new Q<BTNode>();
    q.EnQ(Some(h));
    ghost var out: seq<Path> := [];
    ghost var pq: seq<Path> := [[]];
    while q.NotMt()
      invariant fresh(q)
      invariant AllNodes(t, pq) && lo == out + BfsPaths(t, pq)
      invariant id == |out| + 1
      invariant Tracks(q.data, nodeOf, pq)
      invariant IdsUpTo(nodeOf, out)
      decreases |lo| - |out|
    {
      ghost var data := q.data;
      var res := q.DeQ();
      var node := res.value;
      assert node == nodeOf[pq[0]] && old(Linked(nodeOf, pq[0]));
      out, pq := VisitHouse(q, node, id, t, lo, nodeOf, out, pq, data);
      id := id + 1;
    }
    assert pq == [];
  }

  /** assignHouseIds: unless the house already has an id, numbers every
      house of the tree from 1 in breadth-first order, using the queue Q.
      Nothing but the ids changes. */
  method AssignHouseIds(h: BTNode) returns (r: BTNode)
    requires h.Valid()
    modifies h.Repr`id
    ensures r == h && h.Valid() && h.model == old(h.model) && h.Repr == old(h.Repr)
    ensures forall p :: h.NodeAt(p) == old(h.NodeAt(p))
    ensures old(h.id) != 0 ==> unchanged(h.Repr)
    ensures old(h.id) == 0 ==> Numbered(h)
  {
    r := h;
    if h.id != 0 {
      return;
    }
    ghost var t := h.model;
    ghost var lo := LevelOrder(t);
    ghost var nodeOf := map p | p in lo :: h.NodeAt(p);
    NodeMapFacts(h, nodeOf);
    assert At(t, []) == t;
    assert nodeOf[[]] == h;
    NumberLevels(h, t, lo, nodeOf);
    IdWritesKeepShape(h);
  }
}
