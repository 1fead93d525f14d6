/** The in-memory tree of path segments, in which `left` is both the first child and the smaller sibling. */
module PathTree {
  import opened Bytes
  import opened StringOrder

  type Name = seq<byte>

  datatype Tree = Leaf | Node(name: Name, isDirectory: bool, left: Tree, right: Tree)

  datatype Turn = L | R

  /** `find_or_create_node` on segment `k`: the tree afterwards and where in it the node is. */
  function Insert(t: Tree, segments: seq<Name>, k: nat): (Tree, seq<Turn>)
    requires k < |segments|
    decreases |segments| - k, t
  {
    var last := k == |segments| - 1;
    match t
    case Leaf =>
      if last then (Node(segments[k], false, Leaf, Leaf), [])
      else
        var (left, pos) := Insert(Leaf, segments, k + 1);
        (Node(segments[k], true, left, Leaf), [L] + pos)
    case Node(name, isDirectory, left, right) =>
      if segments[k] == name then
        if last then (t, [])
        else
          var (left', pos) := Insert(left, segments, k + 1);
          (Node(name, isDirectory, left', right), [L] + pos)
      else if Less(segments[k], name) then
        var (left', pos) := Insert(left, segments, k);
        (Node(name, isDirectory, left', right), [L] + pos)
      else
        var (right', pos) := Insert(right, segments, k);
        (Node(name, isDirectory, left, right'), [R] + pos)
  }

  function Child(t: Tree, turn: Turn): Tree
    requires t.Node?
  {
    if turn == L then t.left else t.right
  }

  function WithChild(t: Tree, turn: Turn, child: Tree): Tree
    requires t.Node?
  {
    if turn == L then t.(left := child) else t.(right := child)
  }

  /** The subtree at a position. */
  function Subtree(t: Tree, pos: seq<Turn>): Tree
    decreases pos
  {
    if pos == [] || t.Leaf? then t
    else Subtree(if pos[0] == L then t.left else t.right, pos[1..])
  }

  /** `u` is `t` with trees hung on some of its leaves. */
  predicate Extends(t: Tree, u: Tree)
  {
    t.Leaf? || (u.Node? && t.name == u.name && t.isDirectory == u.isDirectory
                && Extends(t.left, u.left) && Extends(t.right, u.right))
  }

  lemma {:induction false} ExtendsItself(t: Tree)
    ensures Extends(t, t)
  {
    if t.Node? {
      ExtendsItself(t.left);
      ExtendsItself(t.right);
    }
  }

  lemma {:induction false} InsertExtends(t: Tree, segments: seq<Name>, k: nat)
    requires k < |segments|
    ensures Extends(t, Insert(t, segments, k).0)
    decreases |segments| - k, t
  {
    if t.Node? {
      ExtendsItself(t.left);
      ExtendsItself(t.right);
      if segments[k] != t.name {
        if Less(segments[k], t.name) {
          InsertExtends(t.left, segments, k);
        } else {
          InsertExtends(t.right, segments, k);
        }
      } else if k < |segments| - 1 {
        InsertExtends(t.left, segments, k + 1);
      }
    }
  }

  /** A path that is in the tree is found at the same place in every extension, and nothing is added. */
  lemma {:induction false} FoundInExtension(t: Tree, u: Tree, segments: seq<Name>, k: nat)
    requires k < |segments| && Extends(Insert(t, segments, k).0, u)
    ensures Insert(u, segments, k) == (u, Insert(t, segments, k).1)
    decreases |segments| - k, t
  {
    match t
    case Leaf =>
      if k < |segments| - 1 {
        FoundInExtension(Leaf, u.left, segments, k + 1);
      }
    case Node(name, isDirectory, left, right) =>
      if segments[k] != name {
        if Less(segments[k], name) {
          FoundInExtension(left, u.left, segments, k);
        } else {
          FoundInExtension(right, u.right, segments, k);
        }
      } else if k < |segments| - 1 {
        FoundInExtension(left, u.left, segments, k + 1);
      }
  }

  /** The node a path leads to carries its last segment. */
  lemma {:induction false} NodeIsNamed(t: Tree, segments: seq<Name>, k: nat)
    requires k < |segments|
    ensures var (u, pos) := Insert(t, segments, k);
      var n := Subtree(u, pos);
      n.Node? && n.name == segments[|segments| - 1]
    decreases |segments| - k, t
  {
    match t
    case Leaf =>
      if k < |segments| - 1 {
        NodeIsNamed(Leaf, segments, k + 1);
      }
    case Node(name, isDirectory, left, right) =>
      if segments[k] != name {
        if Less(segments[k], name) {
          NodeIsNamed(left, segments, k);
        } else {
          NodeIsNamed(right, segments, k);
        }
      } else if k < |segments| - 1 {
        NodeIsNamed(left, segments, k + 1);
      }
  }

  lemma {:induction false} LeafDepth(segments: seq<Name>, k: nat)
    requires k < |segments|
    ensures |Insert(Leaf, segments, k).1| == |segments| - 1 - k
    decreases |segments| - k
  {
    if k < |segments| - 1 {
      LeafDepth(segments, k + 1);
    }
  }

  /**
  The nodes an insertion adds lie on the way to the node it returns; that one is a file, those above it are
  directories, and they carry the last segments of the path in their order.
  */
  lemma {:induction false} NewNodes(t: Tree, segments: seq<Name>, k: nat, pos: seq<Turn>)
    requires k < |segments|
    ensures var (u, end) := Insert(t, segments, k);
      var n := Subtree(u, pos);
      Subtree(t, pos).Leaf? && n.Node? ==>
        && pos <= end && |end| - |pos| < |segments|
        && n.name == segments[|segments| - 1 - (|end| - |pos|)] && n.isDirectory == (pos != end)
    decreases |segments| - k, t
  {
    var (u, end) := Insert(t, segments, k);
    if Subtree(t, pos).Leaf? && Subtree(u, pos).Node? {
      match t
      case Leaf =>
        LeafDepth(segments, k);
        if pos != [] && pos[0] == L && k < |segments| - 1 {
          NewNodes(Leaf, segments, k + 1, pos[1..]);
          assert pos == [L] + pos[1..];
        }
      case Node(name, isDirectory, left, right) =>
        if segments[k] != name {
          if Less(segments[k], name) {
            NewNodes(left, segments, k, pos[1..]);
          } else {
            NewNodes(right, segments, k, pos[1..]);
          }
        } else if k < |segments| - 1 {
          NewNodes(left, segments, k + 1, pos[1..]);
        }
        assert pos == [pos[0]] + pos[1..];
    }
  }

  // ----- any sequence of insertions -----

  predicate Paths(ps: seq<seq<Name>>) { forall i :: 0 <= i < |ps| ==> ps[i] != [] }

  function InsertAll(t: Tree, ps: seq<seq<Name>>): Tree
    requires Paths(ps)
    decreases |ps|
  {
    if ps == [] then t else InsertAll(Insert(t, ps[0], 0).0, ps[1..])
  }

  lemma {:induction false} ExtendsTransitive(t: Tree, u: Tree, v: Tree)
    requires Extends(t, u) && Extends(u, v)
    ensures Extends(t, v)
  {
    if t.Node? {
      ExtendsTransitive(t.left, u.left, v.left);
      ExtendsTransitive(t.right, u.right, v.right);
    }
  }

  lemma {:induction false} InsertAllExtends(t: Tree, ps: seq<seq<Name>>)
    requires Paths(ps)
    ensures Extends(t, InsertAll(t, ps))
    decreases |ps|
  {
    if ps == [] {
      ExtendsItself(t);
    } else {
      var u := Insert(t, ps[0], 0).0;
      InsertExtends(t, ps[0], 0);
      InsertAllExtends(u, ps[1..]);
      ExtendsTransitive(t, u, InsertAll(t, ps));
    }
  }

  /**
  Stability: after a path has been inserted, any later insertions leave its node where it is, and asking
  for the path again returns that node and changes nothing.
  */
  lemma {:induction false} PathsAreStable(t: Tree, path: seq<Name>, later: seq<seq<Name>>)
    requires path != [] && Paths(later)
    ensures var (u, pos) := Insert(t, path, 0);
      var v := InsertAll(u, later);
      Insert(v, path, 0) == (v, pos) && Subtree(v, pos).Node? && Subtree(v, pos).name == path[|path| - 1]
  {
    var u := Insert(t, path, 0).0;
    InsertAllExtends(u, later);
    FoundInExtension(t, InsertAll(u, later), path, 0);
    NodeIsNamed(InsertAll(u, later), path, 0);
  }

  /** Paths with different last segments never share a node. */
  lemma {:induction false} DifferentNamesDifferentNodes(t: Tree, p: seq<Name>, q: seq<Name>)
    requires p != [] && q != [] && p[|p| - 1] != q[|q| - 1]
    ensures Insert(t, p, 0).1 != Insert(Insert(t, p, 0).0, q, 0).1
  {
    PathsAreStable(t, p, [q]);
    var u := Insert(t, p, 0).0;
    assert InsertAll(u, [q]) == InsertAll(Insert(u, q, 0).0, []);
    NodeIsNamed(u, q, 0);
  }

  /**
  Reading `p` as a chain of nodes below each other, `q` runs down that chain to its last node: it passes
  an equal name by taking its next segment, and a greater one without.
  */
  predicate Shadowed(p: seq<Name>, q: seq<Name>)
  {
    && p != [] && q != []
    && if p[0] == q[0] then (|q| == 1 && |p| == 1) || (|q| > 1 && Shadowed(p[1..], q[1..]))
       else Less(q[0], p[0]) && Shadowed(p[1..], q)
  }

  /** What is left of the paths decides where a path goes, not how many segments are used up. */
  lemma {:induction false} InsertRest(t: Tree, segments: seq<Name>, k: nat)
    requires k < |segments|
    ensures Insert(t, segments, k) == Insert(t, segments[k..], 0)
    decreases |segments| - k, t
  {
    var rest := segments[k..];
    if k < |segments| - 1 {
      assert rest[1..] == segments[k + 1..];
      InsertRest(Leaf, segments, k + 1);
      InsertRest(Leaf, rest, 1);
    }
    if t.Node? {
      if segments[k] != t.name {
        InsertRest(t.left, segments, k);
        InsertRest(t.right, segments, k);
      } else if k < |segments| - 1 {
        InsertRest(t.left, segments, k + 1);
        InsertRest(t.left, rest, 1);
      }
    }
  }

  lemma TurnsAgree(a: Turn, x: seq<Turn>, b: Turn, y: seq<Turn>)
    ensures [a] + x == [b] + y <==> a == b && x == y
    ensures [a] + x != []
  {
    if [a] + x == [b] + y {
      assert ([a] + x)[0] == ([b] + y)[0] && ([a] + x)[1..] == ([b] + y)[1..];
    }
  }

  /** Two paths inserted into an empty tree get one node exactly if the second is shadowed by the first. */
  lemma {:induction false} ShadowedIff(p: seq<Name>, q: seq<Name>)
    requires p != [] && q != []
    ensures var (t, pos) := Insert(Leaf, p, 0); Insert(t, q, 0).1 == pos <==> Shadowed(p, q)
    decreases |p|
  {
    var (t, pos) := Insert(Leaf, p, 0);
    var last, here := |p| == 1, Insert(t, q, 0).1;
    if |q| > 1 {
      InsertRest(t.left, q, 1);
    }
    if !last {
      InsertRest(Leaf, p, 1);
      var below := Insert(Leaf, p[1..], 0).1;
      if p[0] != q[0] {
        var less := Less(q[0], p[0]);
        TurnsAgree(if less then L else R, Insert(if less then t.left else t.right, q, 0).1, L, below);
        if less {
          ShadowedIff(p[1..], q);
        }
      } else if |q| > 1 {
        TurnsAgree(L, Insert(t.left, q[1..], 0).1, L, below);
        ShadowedIff(p[1..], q[1..]);
      }
    }
  }

  /** The turn a path takes at a node called `name` that it does not end at, and what is left of it there. */
  function TurnAt(name: Name, p: seq<Name>): Turn
    requires p != []
  {
    if p[0] == name || Less(p[0], name) then L else R
  }

  function RestAt(name: Name, p: seq<Name>): (r: seq<Name>)
    requires p != [] && p != [name]
    ensures r != []
  {
    if p[0] == name then p[1..] else p
  }

  lemma InsertBelow(t: Tree, p: seq<Name>)
    requires t.Node? && p != [] && p != [t.name]
    ensures var turn := TurnAt(t.name, p);
      var (child, pos) := Insert(Child(t, turn), RestAt(t.name, p), 0);
      Insert(t, p, 0) == (WithChild(t, turn, child), [turn] + pos)
  {
    if p[0] == t.name {
      assert |p| > 1;
      InsertRest(t.left, p, 1);
    }
  }

  /**
  Whether two paths lead to one node of a tree that may already hold others: they take the same turns as far
  as there are nodes, and below that the second is shadowed by the first.
  */
  predicate SharedIn(t: Tree, p: seq<Name>, q: seq<Name>)
    requires p != [] && q != []
    decreases t
  {
    match t
    case Leaf => Shadowed(p, q)
    case Node(name, _, _, _) =>
      if p == [name] || q == [name] then p == q
      else
        && TurnAt(name, p) == TurnAt(name, q)
        && SharedIn(Child(t, TurnAt(name, p)), RestAt(name, p), RestAt(name, q))
  }

  /** The tree does not keep all paths apart: for every tree, these are the pairs of paths that get one node. */
  lemma {:induction false} SharedNodeIff(t: Tree, p: seq<Name>, q: seq<Name>)
    requires p != [] && q != []
    ensures var (u, pos) := Insert(t, p, 0); Insert(u, q, 0).1 == pos <==> SharedIn(t, p, q)
    decreases t
  {
    if t.Leaf? {
      ShadowedIff(p, q);
    } else {
      var u := Insert(t, p, 0).0;
      if p != [t.name] {
        InsertBelow(t, p);
      }
      if q != [t.name] {
        InsertBelow(u, q);
      }
      if p != [t.name] && q != [t.name] {
        var tp, tq := TurnAt(t.name, p), TurnAt(t.name, q);
        var (child, pos) := Insert(Child(t, tp), RestAt(t.name, p), 0);
        TurnsAgree(tq, Insert(Child(u, tq), RestAt(t.name, q), 0).1, tp, pos);
        SharedNodeIff(Child(t, tp), RestAt(t.name, p), RestAt(t.name, q));
      }
    }
  }

  /** So in an empty tree, with `a < b` and only then, the path `a` leads to the node of `b/a`. */
  lemma ChildTakenForSiblingIff(a: Name, b: Name)
    ensures var (t, pos) := Insert(Leaf, [b, a], 0);
      Insert(t, [a], 0).1 == pos <==> Less(a, b)
  {
    SharedNodeIff(Leaf, [b, a], [a]);
    assert [b, a][1..] == [a];
    Trichotomy(a, b);
  }

  /** Other paths in the tree matter: below `c`, the path `c/a` leads to the node of `a` if `a < c`. */
  lemma EarlierPathMatters(a: Name, c: Name)
    requires Less(a, c)
    ensures SharedIn(Insert(Leaf, [c], 0).0, [a], [c, a]) && !Shadowed([a], [c, a])
  {
    Trichotomy(a, c);
    assert [c, a][1..] == [a];
  }

  // ----- the linked tree -----

  class TreeNode {
    const name: Name
    const isDirectory: bool
    var left: TreeNode?
    var right: TreeNode?
    ghost var Repr: set<TreeNode>

    constructor (name: Name, isDirectory: bool)
      ensures Valid() && fresh(Repr) && AsTree() == Node(name, isDirectory, Leaf, Leaf)
      ensures Repr == {this} && left == null && right == null && this.name == name && this.isDirectory == isDirectory
    {
      this.name, this.isDirectory, left, right := name, isDirectory, null, null;
      Repr := {this};
    }

    ghost predicate Valid()
      reads this, Repr
      decreases Repr
    {
      && this in Repr
      && (left != null ==> left in Repr && left.Repr <= Repr - {this} && left.Valid())
      && (right != null ==> right in Repr && right.Repr <= Repr - {this} && right.Valid())
      && (left != null && right != null ==> left.Repr !! right.Repr)
    }

    ghost function AsTree(): Tree
      requires Valid()
      reads this, Repr
      decreases Repr
    {
      Node(name, isDirectory, if left == null then Leaf else left.AsTree(),
           if right == null then Leaf else right.AsTree())
    }

    /** The node object at a position. */
    ghost function At(pos: seq<Turn>): TreeNode?
      requires Valid()
      reads this, Repr
      decreases |pos|
    {
      if pos == [] then this
      else
        var next := if pos[0] == L then left else right;
        if next == null then null else next.At(pos[1..])
    }
  }

  ghost function TreeOf(n: TreeNode?): Tree
    requires n != null ==> n.Valid()
    reads n, if n == null then {} else n.Repr
  {
    if n == null then Leaf else n.AsTree()
  }

  ghost function ReprOf(n: TreeNode?): set<TreeNode>
    reads n
  {
    if n == null then {} else n.Repr
  }

  /** `find_or_create_node`; the reference parameter becomes the returned root. */
  method FindOrCreateNode(root: TreeNode?, segments: seq<Name>, k: nat) returns (r: TreeNode, node: TreeNode)
    requires root != null ==> root.Valid()
    requires k < |segments|
    modifies ReprOf(root)
    ensures r.Valid() && (root != null ==> r == root)
    ensures fresh(r.Repr - old(ReprOf(root))) && old(ReprOf(root)) <= r.Repr
    ensures r.AsTree() == old(Insert(TreeOf(root), segments, k).0)
    ensures r.At(old(Insert(TreeOf(root), segments, k).1)) == node
    ensures root != null ==> forall p :: old(root.At(p)) != null ==> r.At(p) == old(root.At(p))
    decreases |segments| - k, ReprOf(root), 1
  {
    var last := k == |segments| - 1;
    if root == null {
      r := new TreeNode(segments[k], !last);
    } else {
      r := root;
    }
    var equal := Equals(segments[k], r.name);
    if equal {
      if last {
        return r, r;
      }
      node := Descend(r, L, segments, k + 1);
    } else {
      var less := LessThan(segments[k], r.name);
      node := Descend(r, if less then L else R, segments, k);
    }
  }

  /** The recursive call through a child pointer, which it may replace. */
  method Descend(r: TreeNode, turn: Turn, segments: seq<Name>, k: nat) returns (node: TreeNode)
    requires r.Valid() && k < |segments|
    modifies r.Repr
    ensures r.Valid() && fresh(r.Repr - old(r.Repr)) && old(r.Repr) <= r.Repr
    ensures var (child, pos) := Insert(Child(old(r.AsTree()), turn), segments, k);
      r.AsTree() == WithChild(old(r.AsTree()), turn, child) && r.At([turn] + pos) == node
    ensures forall p :: old(r.At(p)) != null ==> r.At(p) == old(r.At(p))
    decreases |segments| - k, r.Repr, 0
  {
    hide Insert;
    var child := if turn == L then r.left else r.right;
    ghost var sibling := if turn == L then r.right else r.left;
    ghost var siblingTree := TreeOf(sibling);
    ghost var pos := Insert(TreeOf(child), segments, k).1;
    var c;
    c, node := FindOrCreateNode(child, segments, k);
    assert sibling != null ==> sibling.Valid() && TreeOf(sibling) == siblingTree && sibling.Repr !! c.Repr;
    Link(r, turn, c, sibling);
    assert ([turn] + pos)[1..] == pos;
    forall p | old(r.At(p)) != null ensures r.At(p) == old(r.At(p)) {
      if p != [] {
        var below := p[1..];
        assert if p[0] == turn then old(r.At(p)) == old(child.At(below)) else old(r.At(p)) == old(sibling.At(below));
      }
    }
  }

  /** Writing a child pointer. */
  method Link(r: TreeNode, turn: Turn, c: TreeNode, ghost sibling: TreeNode?)
    requires r in r.Repr && c.Valid() && r !in c.Repr
    requires sibling == if turn == L then r.right else r.left
    requires sibling != null ==>
      sibling.Valid() && sibling in r.Repr && sibling.Repr <= r.Repr - {r} && sibling.Repr !! c.Repr
    modifies r
    ensures r.Valid() && r.Repr == old(r.Repr) + c.Repr
    ensures (if turn == L then r.left else r.right) == c
    ensures c.Valid() && c.Repr == old(c.Repr)
    ensures r.AsTree() == var (one, other) := (old(c.AsTree()), old(TreeOf(sibling)));
      Node(r.name, r.isDirectory, if turn == L then one else other, if turn == L then other else one)
    ensures forall p :: c.At(p) == old(c.At(p))
    ensures sibling != null ==> sibling.Valid() && forall p :: sibling.At(p) == old(sibling.At(p))
    ensures (if turn == L then r.right else r.left) == sibling
  {
    if turn == L {
      r.left := c;
    } else {
      r.right := c;
    }
    r.Repr := r.Repr + c.Repr;
  }

  /**
  Over any sequence of calls the node object of a path stays: asked for again, the same object is returned,
  nothing is added, and every node there was is where it was.
  */
  method AskAgain(root: TreeNode?, path: seq<Name>, later: seq<seq<Name>>)
    returns (r: TreeNode, first: TreeNode, again: TreeNode)
    requires root != null ==> root.Valid()
    requires path != [] && Paths(later)
    modifies ReprOf(root)
    ensures r.Valid() && first == again && (root != null ==> r == root)
    ensures r.AsTree() == InsertAll(old(Insert(TreeOf(root), path, 0).0), later)
    ensures root != null ==> forall p :: old(root.At(p)) != null ==> r.At(p) == old(root.At(p))
  {
    hide Insert;
    ghost var t, pos := TreeOf(root), Insert(TreeOf(root), path, 0).1;
    r, first := FindOrCreateNode(root, path, 0);
    ghost var u := r.AsTree();
    var i := 0;
    assert later[0..] == later;
    while i < |later|
      invariant 0 <= i <= |later| && r.Valid() && fresh(r.Repr - old(ReprOf(root))) && (root != null ==> r == root)
      invariant r.At(pos) == first && InsertAll(r.AsTree(), later[i..]) == InsertAll(u, later)
      invariant root != null ==> forall p :: old(root.At(p)) != null ==> r.At(p) == old(root.At(p))
    {
      assert later[i..][1..] == later[i + 1..];
      var node;
      r, node := FindOrCreateNode(r, later[i], 0);
      i := i + 1;
    }
    assert later[i..] == [];
    InsertAllExtends(u, later);
    FoundInExtension(t, r.AsTree(), path, 0);
    r, again := FindOrCreateNode(r, path, 0);
  }
}
