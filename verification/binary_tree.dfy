/** The binary tree of utils.js:1-28.  A `BTNode` object is mutated in place
    by `nextDir`, `insert` and (in the house robber) by the id assignment, so
    it is a class; each node keeps a ghost `Tree` value (`model`) that mirrors
    the part of the heap it owns (`Repr`), and the operations are specified
    by pure functions on `Tree`. */
module BinaryTree {

  /** A step from a node to one of its children. */
  datatype Dir = L | R

  /** A node's address: the steps from the root. */
  type Path = seq<Dir>

  /** The value view of a BTNode graph: `Nil` is JavaScript's `null`. */
  datatype Tree = Nil | Node(val: int, l: Tree, r: Tree, lastDir: char)

  /** What `new BTNode(x, null, null)` builds. */
  function Leaf(x: int): Tree
  {
    Node(x, Nil, Nil, 'l')
  }

  function Size(t: Tree): nat
  {
    match t
    case Nil => 0
    case Node(_, l, r, _) => 1 + Size(l) + Size(r)
  }

  function Height(t: Tree): nat
  {
    match t
    case Nil => 0
    case Node(_, l, r, _) => 1 + if Height(l) < Height(r) then Height(r) else Height(l)
  }

  function Values(t: Tree): multiset<int>
  {
    match t
    case Nil => multiset{}
    case Node(v, l, r, _) => multiset{v} + Values(l) + Values(r)
  }

  /** No node has a right child without a left one. */
  predicate LeftFilled(t: Tree)
  {
    match t
    case Nil => true
    case Node(_, l, r, _) => (l == Nil ==> r == Nil) && LeftFilled(l) && LeftFilled(r)
  }

  /** Every node has no child or two children. */
  predicate Full(t: Tree)
  {
    match t
    case Nil => true
    case Node(_, l, r, _) => (l == Nil <==> r == Nil) && Full(l) && Full(r)
  }

  /** All leaves sit at the same depth. */
  predicate Perfect(t: Tree)
  {
    match t
    case Nil => true
    case Node(_, l, r, _) => Height(l) == Height(r) && Perfect(l) && Perfect(r)
  }

  lemma {:induction false} PerfectIsFull(t: Tree)
    requires Perfect(t)
    ensures Full(t)
  {
    match t
    case Nil =>
    case Node(_, l, r, _) =>
      PerfectIsFull(l);
      PerfectIsFull(r);
      assert l == Nil <==> Height(l) == 0;
      assert r == Nil <==> Height(r) == 0;
  }

  function Child(t: Tree, d: Dir): Tree
  {
    match t
    case Nil => Nil
    case Node(_, l, r, _) => if d == L then l else r
  }

  /** The subtree at path `p` (`Nil` when the path leaves the tree). */
  function At(t: Tree, p: Path): Tree
    decreases |p|
  {
    if p == [] then t else At(Child(t, p[0]), p[1..])
  }

  lemma {:induction false} AtSnoc(t: Tree, p: Path, d: Dir)
    ensures At(t, p + [d]) == Child(At(t, p), d)
    decreases |p|
  {
    if p == [] {
      assert ([] + [d])[1..] == [];
    } else {
      assert (p + [d])[1..] == p[1..] + [d];
      AtSnoc(Child(t, p[0]), p[1..], d);
    }
  }

  lemma {:induction false} AtAppend(t: Tree, a: Path, b: Path)
    ensures At(t, a + b) == At(At(t, a), b)
    decreases |a|
  {
    if a == [] {
      assert a + b == b;
    } else {
      assert (a + b)[1..] == a[1..] + b;
      AtAppend(Child(t, a[0]), a[1..], b);
    }
  }

  /** The ancestors of a node are nodes. */
  lemma {:induction false} AtAncestor(t: Tree, a: Path, b: Path)
    requires At(t, a + b).Node?
    ensures At(t, a).Node?
  {
    AtAppend(t, a, b);
    AtOfNil(b);
  }

  lemma {:induction false} AtOfNil(p: Path)
    ensures At(Nil, p) == Nil
    decreases |p|
  {
    if p != [] {
      AtOfNil(p[1..]);
    }
  }

  /** nextDir's flip of `lastDir`. */
  function Flip(d: char): char
  {
    if d == 'l' then 'r' else 'l'
  }

  /** insert: fill the left slot, else the right slot, else flip `lastDir`
      and insert below the child it now names. */
  function Inserted(t: Tree, x: int): (r: Tree)
    requires t.Node?
    ensures r.Node? && r.val == t.val
  {
    if t.l == Nil then t.(l := Leaf(x))
    else if t.r == Nil then t.(r := Leaf(x))
    else if Flip(t.lastDir) == 'l' then t.(l := Inserted(t.l, x), lastDir := 'l')
    else t.(r := Inserted(t.r, x), lastDir := 'r')
  }

  /** insert adds exactly one node... */
  lemma {:induction false} InsertedSize(t: Tree, x: int)
    requires t.Node?
    ensures Size(Inserted(t, x)) == Size(t) + 1
  {
    if t.l != Nil && t.r != Nil {
      if Flip(t.lastDir) == 'l' {
        InsertedSize(t.l, x);
      } else {
        InsertedSize(t.r, x);
      }
    }
  }

  /** ...and that node holds the inserted value. */
  lemma {:induction false} InsertedValues(t: Tree, x: int)
    requires t.Node?
    ensures Values(Inserted(t, x)) == Values(t) + multiset{x}
  {
    var v, l, r := t.val, t.l, t.r;
    var u := Inserted(t, x);
    assert Values(Leaf(x)) == multiset{x};
    if l == Nil {
      assert u == Node(v, Leaf(x), r, t.lastDir);
    } else if r == Nil {
      assert u == Node(v, l, Leaf(x), t.lastDir);
    } else if Flip(t.lastDir) == 'l' {
      InsertedValues(l, x);
      assert u == Node(v, Inserted(l, x), r, 'l');
    } else {
      InsertedValues(r, x);
      assert u == Node(v, l, Inserted(r, x), 'r');
    }
  }

  /** insert never leaves a right child without a left sibling. */
  lemma {:induction false} InsertedLeftFilled(t: Tree, x: int)
    requires t.Node? && LeftFilled(t)
    ensures LeftFilled(Inserted(t, x))
  {
    if t.l != Nil && t.r != Nil {
      if Flip(t.lastDir) == 'l' {
        InsertedLeftFilled(t.l, x);
      } else {
        InsertedLeftFilled(t.r, x);
      }
    }
  }

  /** Every node of the old tree is still there, holding the same value. */
  lemma {:induction false} InsertedKeepsNodes(t: Tree, x: int, p: Path)
    requires t.Node? && At(t, p).Node?
    ensures At(Inserted(t, x), p).Node? && At(Inserted(t, x), p).val == At(t, p).val
    decreases |p|
  {
    if p != [] {
      var c := Child(t, p[0]);
      assert At(t, p) == At(c, p[1..]);
      AtOfNil(p[1..]);
      if c != Nil {
        assert t.l != Nil || p[0] == R;
        if t.l == Nil || t.r == Nil {
          assert Child(Inserted(t, x), p[0]) == c;
        } else if Flip(t.lastDir) == 'l' {
          if p[0] == L {
            InsertedKeepsNodes(t.l, x, p[1..]);
          } else {
            assert Child(Inserted(t, x), p[0]) == c;
          }
        } else {
          if p[0] == R {
            InsertedKeepsNodes(t.r, x, p[1..]);
          } else {
            assert Child(Inserted(t, x), p[0]) == c;
          }
        }
      }
    }
  }

  ghost function ModelOf(n: BTNode?): Tree
    reads n
  {
    if n == null then Nil else n.model
  }

  ghost function ReprOf(n: BTNode?): set<BTNode>
    reads n
  {
    if n == null then {} else n.Repr
  }

  class BTNode {
    var val: int
    var l: BTNode?
    var r: BTNode?
    var lastDir: char
    /** The house number written by the robber's breadth-first numbering;
        0 stands for the absent property (falsy in JavaScript). */
    var id: int
    ghost var Repr: set<BTNode>
    ghost var model: Tree

    /** The nodes reachable from here form a tree (children own disjoint
        parts of the heap) and `model` is its value. */
    ghost predicate Valid()
      reads this, Repr
      ensures Valid() ==> this in Repr && model.Node?
      decreases Repr
    {
      this in Repr &&
      (l != null ==> l in Repr && l.Repr <= Repr && this !in l.Repr && l.Valid()) &&
      (r != null ==> r in Repr && r.Repr <= Repr && this !in r.Repr && r.Valid()) &&
      (l != null && r != null ==> l.Repr !! r.Repr) &&
      model == Node(val, ModelOf(l), ModelOf(r), lastDir)
    }

    constructor (val: int, l: BTNode?, r: BTNode?)
      requires l != null ==> l.Valid()
      requires r != null ==> r.Valid()
      requires l != null && r != null ==> l.Repr !! r.Repr
      ensures Valid()
      ensures this.val == val && this.l == l && this.r == r && lastDir == 'l' && id == 0
      ensures model == Node(val, ModelOf(l), ModelOf(r), 'l')
      ensures Repr == {this} + ReprOf(l) + ReprOf(r)
    {
      this.val := val;
      this.l := l;
      this.r := r;
      lastDir := 'l';
      id := 0;
      Repr := {this} + ReprOf(l) + ReprOf(r);
      model := Node(val, ModelOf(l), ModelOf(r), 'l');
    }

    /** nextDir: flips `lastDir` and returns the new direction. */
    method NextDir() returns (d: char)
      requires Valid()
      modifies this
      ensures d == Flip(old(lastDir)) && lastDir == d
      ensures val == old(val) && l == old(l) && r == old(r) && id == old(id)
      ensures Repr == old(Repr) && model == old(model).(lastDir := d)
      ensures Valid()
    {
      lastDir := if lastDir == 'l' then 'r' else 'l';
      model := model.(lastDir := lastDir);
      d := lastDir;
    }

    /** insert: adds one fresh leaf holding `x` where `Inserted` says, and
        leaves every existing node's value, id and children in place. */
    method Insert(x: int) returns (ghost added: BTNode)
      requires Valid()
      modifies Repr
      ensures Valid() && fresh(added)
      ensures Repr == old(Repr) + {added}
      ensures added.val == x && added.l == null && added.r == null
      ensures model == Inserted(old(model), x)
      ensures forall n :: n in old(Repr) ==> n.val == old(n.val) && n.id == old(n.id)
      ensures forall n :: n in old(Repr) && old(n.l) != null ==> n.l == old(n.l)
      ensures forall n :: n in old(Repr) && old(n.r) != null ==> n.r == old(n.r)
      decreases Repr, 1
    {
      if l == null {
        var n := new BTNode(x, null, null);
        l := n;
        Repr := Repr + {n};
        model := model.(l := n.model);
        added := n;
      } else if r == null {
        var n := new BTNode(x, null, null);
        r := n;
        Repr := Repr + {n};
        model := model.(r := n.model);
        added := n;
      } else {
        var d := NextDir();
        if d == 'l' {
          added := InsertLeft(x);
        } else {
          added := InsertRight(x);
        }
      }
    }

    /** `this.l.insert(x)`, seen from this node. */
    method InsertLeft(x: int) returns (ghost added: BTNode)
      requires Valid() && l != null
      modifies Repr
      ensures Valid() && fresh(added)
      ensures Repr == old(Repr) + {added}
      ensures added.val == x && added.l == null && added.r == null
      ensures model == old(model).(l := Inserted(old(model).l, x))
      ensures forall n :: n in old(Repr) ==> n.val == old(n.val) && n.id == old(n.id)
      ensures forall n :: n in old(Repr) && old(n.l) != null ==> n.l == old(n.l)
      ensures forall n :: n in old(Repr) && old(n.r) != null ==> n.r == old(n.r)
      decreases Repr, 0
    {
      added := l.Insert(x);
      Repr := Repr + {added};
      model := model.(l := l.model);
    }

    /** `this.r.insert(x)`, seen from this node. */
    method InsertRight(x: int) returns (ghost added: BTNode)
      requires Valid() && r != null
      modifies Repr
      ensures Valid() && fresh(added)
      ensures Repr == old(Repr) + {added}
      ensures added.val == x && added.l == null && added.r == null
      ensures model == old(model).(r := Inserted(old(model).r, x))
      ensures forall n :: n in old(Repr) ==> n.val == old(n.val) && n.id == old(n.id)
      ensures forall n :: n in old(Repr) && old(n.l) != null ==> n.l == old(n.l)
      ensures forall n :: n in old(Repr) && old(n.r) != null ==> n.r == old(n.r)
      decreases Repr, 0
    {
      added := r.Insert(x);
      Repr := Repr + {added};
      model := model.(r := r.model);
    }

    /** The node at path `p`, or null when the path leaves the tree. */
    ghost function NodeAt(p: Path): (n: BTNode?)
      requires Valid()
      reads this, Repr
      ensures n != null <==> At(model, p).Node?
      ensures n != null ==> n in Repr && n.Repr <= Repr && n.Valid() && n.model == At(model, p)
      decreases |p|
    {
      if p == [] then this
      else if p[0] == L then (if l == null then AtOfNil(p[1..]); null else l.NodeAt(p[1..]))
      else (if r == null then AtOfNil(p[1..]); null else r.NodeAt(p[1..]))
    }

    lemma {:induction false} NodeAtSnoc(p: Path, d: Dir)
      requires Valid()
      ensures NodeAt(p + [d]) ==
        var n := NodeAt(p);
        if n == null then null else if d == L then n.l else n.r
      decreases |p|
    {
      if p == [] {
        assert ([] + [d])[1..] == [];
      } else {
        assert (p + [d])[1..] == p[1..] + [d];
        assert (p + [d])[0] == p[0];
        if p[0] == L && l != null {
          l.NodeAtSnoc(p[1..], d);
        } else if p[0] == R && r != null {
          r.NodeAtSnoc(p[1..], d);
        }
      }
    }
  }

  /** Different paths of the tree lead to different nodes. */
  lemma {:induction false} NodeAtInjective(n: BTNode, p: Path, p': Path)
    requires n.Valid() && n.NodeAt(p) != null && n.NodeAt(p') != null && p != p'
    ensures n.NodeAt(p) != n.NodeAt(p')
    decreases |p|
  {
    if p != [] && p' != [] && p[0] == p'[0] {
      if p[0] == L {
        NodeAtInjective(n.l, p[1..], p'[1..]);
      } else {
        NodeAtInjective(n.r, p[1..], p'[1..]);
      }
    }
  }

  /** A heap change that touched nothing but `id` fields keeps the tree
      valid and every path naming the same node. */
  twostate lemma IdWritesKeepShape(n: BTNode)
    requires old(n.Valid())
    requires forall m :: m in old(n.Repr) ==>
      m.val == old(m.val) && m.l == old(m.l) && m.r == old(m.r) &&
      m.lastDir == old(m.lastDir) && m.Repr == old(m.Repr) && m.model == old(m.model)
    ensures n.Valid()
    ensures forall p :: n.NodeAt(p) == old(n.NodeAt(p))
    decreases old(n.Repr)
  {
    if n.l != null {
      IdWritesKeepShape(n.l);
    }
    if n.r != null {
      IdWritesKeepShape(n.r);
    }
    forall p
      ensures n.NodeAt(p) == old(n.NodeAt(p))
    {
    }
  }

  /** The tree `house` of utils.js:22-28. */
  function SampleHouse(): Tree
  {
    Node(25, Node(100, Leaf(25), Leaf(25), 'l'), Node(10, Leaf(15), Leaf(12), 'l'), 'l')
  }

  /** The six inserts of utils.js:23-28, starting from a single house. */
  lemma SampleHouseInserts()
    ensures Inserted(Inserted(Inserted(Inserted(Inserted(Inserted(
              Leaf(25), 100), 10), 15), 25), 12), 25) == SampleHouse()
  {
    var t2 := Inserted(Inserted(Leaf(25), 100), 10);
    assert t2 == Node(25, Leaf(100), Leaf(10), 'l');
    var t3 := Inserted(t2, 15);
    assert t3 == Node(25, Leaf(100), Node(10, Leaf(15), Nil, 'l'), 'r');
    var t4 := Inserted(t3, 25);
    assert t4 == Node(25, Node(100, Leaf(25), Nil, 'l'), Node(10, Leaf(15), Nil, 'l'), 'l');
    var t5 := Inserted(t4, 12);
    assert t5 == Node(25, Node(100, Leaf(25), Nil, 'l'), Node(10, Leaf(15), Leaf(12), 'l'), 'r');
  }

  /** Builds `house` by the same six inserts as utils.js:22-28. */
  method BuildHouse() returns (house: BTNode)
    ensures house.Valid() && house.model == SampleHouse()
    ensures house.id == 0
  {
    house := new BTNode(25, null, null);
    ghost var added := house.Insert(100);
    added := house.Insert(10);
    added := house.Insert(15);
    added := house.Insert(25);
    added := house.Insert(12);
    added := house.Insert(25);
    SampleHouseInserts();
  }
}
