/** The family tree of family_tree.cc as an immutable value: `FamilyTreeNode`
    and its two owning child pointers become a binary-tree datatype, a pointer
    into the tree becomes a path from the root, and writing a child pointer
    becomes grafting a subtree at a path. */
module FamilyTree {
  import opened Wrappers

  /** The "no parent" sentinel stored for the root. */
  const NoParent: int := -1

  /** What one record describes: `parent_id`, `node_id`, `node_name`. */
  datatype Member = Member(parentId: int, nodeId: int, name: string)

  /** `Nil` is a NULL pointer; a `Node` owns its two children. */
  datatype Tree = Nil | Node(member: Member, left: Tree, right: Tree)

  /** A freshly created node: both child pointers NULL. */
  function Leaf(m: Member): Tree
  {
    Node(m, Nil, Nil)
  }

  datatype Dir = Left | Right

  /** A position in a tree, as the turns taken from the root. */
  type Path = seq<Dir>

  function Child(t: Tree, d: Dir): Tree
    requires t.Node?
  {
    if d == Left then t.left else t.right
  }

  /** The subtree at `p`; `Nil` once the path leaves the tree. */
  function Subtree(t: Tree, p: Path): Tree
    decreases |p|
  {
    if p == [] then t
    else if t.Nil? then Nil
    else Subtree(Child(t, p[0]), p[1..])
  }

  /** Every proper prefix of `p` is a node: `p` names a node or an empty slot. */
  predicate Reach(t: Tree, p: Path)
    decreases |p|
  {
    p == [] || (t.Node? && Reach(Child(t, p[0]), p[1..]))
  }

  /** `t` with the subtree at `p` replaced by `s`. */
  function Graft(t: Tree, p: Path, s: Tree): Tree
    decreases |p|
  {
    if p == [] then s
    else if t.Nil? then Nil
    else if p[0] == Left then t.(left := Graft(t.left, p[1..], s))
    else t.(right := Graft(t.right, p[1..], s))
  }

  /** The member stored at `p`, if a node is there. */
  function LabelAt(t: Tree, p: Path): Option<Member>
  {
    var s := Subtree(t, p);
    if s.Nil? then None else Some(s.member)
  }

  function Size(t: Tree): nat
  {
    if t.Nil? then 0 else 1 + Size(t.left) + Size(t.right)
  }

  /** The nodes, each as the subtree it roots, in pre-order: the node, then its
      left subtree, then its right subtree. */
  function PreOrder(t: Tree): (r: seq<Tree>)
    ensures |r| == Size(t)
    ensures forall i | 0 <= i < |r| :: r[i].Node?
  {
    if t.Nil? then [] else [t] + PreOrder(t.left) + PreOrder(t.right)
  }

  /** The members in pre-order. */
  function Labels(t: Tree): (r: seq<Member>)
    ensures |r| == Size(t)
  {
    if t.Nil? then [] else [t.member] + Labels(t.left) + Labels(t.right)
  }

  /** The node ids in pre-order. */
  function Ids(t: Tree): (r: seq<int>)
    ensures |r| == Size(t)
  {
    if t.Nil? then [] else [t.member.nodeId] + Ids(t.left) + Ids(t.right)
  }

  /** Position of the first `k` in `s`. */
  function IndexOf(s: seq<int>, k: int): (i: nat)
    requires k in s
    ensures i < |s| && s[i] == k
    ensures forall j | 0 <= j < i :: s[j] != k
  {
    if s[0] == k then 0 else 1 + IndexOf(s[1..], k)
  }

  /** `findFamilyMemberParent`: depth-first, the node itself first, then the
      left subtree, then the right one; the first node whose id is `k`. */
  function Find(t: Tree, k: int): (r: Option<Tree>)
    ensures r.None? <==> k !in Ids(t)
    ensures r.Some? ==> r.value.Node? && r.value.member.nodeId == k
  {
    if t.Nil? then None
    else if t.member.nodeId == k then Some(t)
    else
      var found := Find(t.left, k);
      if found.Some? then found else Find(t.right, k)
  }

  /** The same search, answering where the node is instead of what it is:
      the pointer the C++ code goes on to write through. */
  function FindPath(t: Tree, k: int): (r: Option<Path>)
    ensures r.None? <==> k !in Ids(t)
    ensures r.Some? ==> Reach(t, r.value) && Subtree(t, r.value).Node?
                        && Subtree(t, r.value).member.nodeId == k
  {
    if t.Nil? then None
    else if t.member.nodeId == k then Some([])
    else match FindPath(t.left, k)
      case Some(p) =>
        assert Subtree(t, [Left] + p) == Subtree(t.left, p) by { assert ([Left] + p)[1..] == p; }
        Some([Left] + p)
      case None =>
        match FindPath(t.right, k)
        case Some(p) =>
          assert Subtree(t, [Right] + p) == Subtree(t.right, p) by { assert ([Right] + p)[1..] == p; }
          Some([Right] + p)
        case None => None
  }

  lemma {:induction false} IndexOfAppend(a: seq<int>, b: seq<int>, k: int)
    requires k in a + b
    ensures k in a ==> IndexOf(a + b, k) == IndexOf(a, k)
    ensures k !in a ==> IndexOf(a + b, k) == |a| + IndexOf(b, k)
    decreases |a|
  {
    if a != [] && a[0] != k {
      assert (a + b)[1..] == a[1..] + b;
      IndexOfAppend(a[1..], b, k);
    } else if a == [] {
      assert a + b == b;
    }
  }

  /** The node the locator returns is the first node in pre-order carrying
      the id searched for. */
  lemma {:induction false} FindIsFirstInPreOrder(t: Tree, k: int)
    requires k in Ids(t)
    ensures Find(t, k) == Some(PreOrder(t)[IndexOf(Ids(t), k)])
  {
    var id := t.member.nodeId;
    if id == k {
      assert Ids(t)[0] == k;
    } else {
      var li, ri := Ids(t.left), Ids(t.right);
      IdsIndexOf(t, k);
      if k in li {
        FindIsFirstInPreOrder(t.left, k);
        PreOrderInLeft(t, IndexOf(li, k));
      } else {
        FindIsFirstInPreOrder(t.right, k);
        PreOrderInRight(t, IndexOf(ri, k));
      }
    }
  }

  lemma IdsIndexOf(t: Tree, k: int)
    requires t.Node? && t.member.nodeId != k && k in Ids(t)
    ensures k in Ids(t.left) ==> IndexOf(Ids(t), k) == 1 + IndexOf(Ids(t.left), k)
    ensures k !in Ids(t.left) ==>
              k in Ids(t.right) && IndexOf(Ids(t), k) == 1 + Size(t.left) + IndexOf(Ids(t.right), k)
  {
    var li, ri := Ids(t.left), Ids(t.right);
    assert Ids(t) == [t.member.nodeId] + (li + ri);
    IndexOfAppend([t.member.nodeId], li + ri, k);
    IndexOfAppend(li, ri, k);
  }

  lemma PreOrderInLeft(t: Tree, i: nat)
    requires t.Node? && i < Size(t.left)
    ensures PreOrder(t)[1 + i] == PreOrder(t.left)[i]
  {
    assert PreOrder(t) == [t] + PreOrder(t.left) + PreOrder(t.right);
    IndexThree(t, PreOrder(t.left), PreOrder(t.right), i);
  }

  lemma PreOrderInRight(t: Tree, i: nat)
    requires t.Node? && i < Size(t.right)
    ensures PreOrder(t)[1 + Size(t.left) + i] == PreOrder(t.right)[i]
  {
    assert PreOrder(t) == [t] + PreOrder(t.left) + PreOrder(t.right);
    IndexThree(t, PreOrder(t.left), PreOrder(t.right), i);
  }

  /** Where the elements of `[x] + a + b` come from. */
  lemma IndexThree<T>(x: T, a: seq<T>, b: seq<T>, i: nat)
    ensures i < |a| ==> ([x] + a + b)[1 + i] == a[i]
    ensures i < |b| ==> ([x] + a + b)[1 + |a| + i] == b[i]
  {
  }

  /** The two searches agree: the locator's node is the one at the located path. */
  lemma {:induction false} FindAtFindPath(t: Tree, k: int)
    ensures FindPath(t, k).Some? ==> Find(t, k) == Some(Subtree(t, FindPath(t, k).value))
  {
    if t.Node? && t.member.nodeId != k {
      FindAtFindPath(t.left, k);
      FindAtFindPath(t.right, k);
    }
  }

  /** What grafting does, seen from any path `q`: below the graft point the
      new subtree, everywhere else the old members. */
  lemma {:induction false} GraftLabelAt(t: Tree, p: Path, s: Tree, q: Path)
    requires Reach(t, p)
    ensures |p| <= |q| && q[..|p|] == p ==> Subtree(Graft(t, p, s), q) == Subtree(s, q[|p|..])
    ensures !(|p| <= |q| && q[..|p|] == p) ==> LabelAt(Graft(t, p, s), q) == LabelAt(t, q)
    decreases |p|
  {
    if p != [] && q != [] {
      if q[0] == p[0] {
        GraftLabelAt(Child(t, p[0]), p[1..], s, q[1..]);
        if |p| <= |q| {
          assert q[..|p|] == p <==> q[1..][..|p| - 1] == p[1..];
          assert q[|p|..] == q[1..][|p| - 1..];
        }
      }
    } else if p == [] {
      assert q[..0] == p;
    }
  }

  /** Grafting `s` at `p` trades the members under `p` for those of `s`. */
  lemma {:induction false} GraftLabels(t: Tree, p: Path, s: Tree)
    requires Reach(t, p)
    ensures multiset(Labels(Graft(t, p, s))) + multiset(Labels(Subtree(t, p)))
         == multiset(Labels(t)) + multiset(Labels(s))
    decreases |p|
  {
    if p != [] {
      GraftLabels(Child(t, p[0]), p[1..], s);
      var g := Graft(t, p, s);
      assert Subtree(t, p) == Subtree(Child(t, p[0]), p[1..]);
      if p[0] == Left {
        Rebalance(multiset{t.member}, multiset(Labels(g.left)), multiset(Labels(t.right)),
                  multiset(Labels(Subtree(t, p))), multiset(Labels(t.left)), multiset(Labels(s)));
      } else {
        Rebalance(multiset{t.member}, multiset(Labels(g.right)), multiset(Labels(t.left)),
                  multiset(Labels(Subtree(t, p))), multiset(Labels(t.right)), multiset(Labels(s)));
      }
    }
  }

  /** Grafting `s` at `p` trades the nodes under `p` for those of `s`,
      counted. */
  lemma {:induction false} GraftSize(t: Tree, p: Path, s: Tree)
    requires Reach(t, p)
    ensures Size(Graft(t, p, s)) + Size(Subtree(t, p)) == Size(t) + Size(s)
    decreases |p|
  {
    if p != [] {
      GraftSize(Child(t, p[0]), p[1..], s);
      assert Subtree(t, p) == Subtree(Child(t, p[0]), p[1..]);
    }
  }

  /** Writing a single node into an empty slot adds exactly that node. */
  lemma GraftLeaf(t: Tree, p: Path, m: Member)
    requires Reach(t, p) && Subtree(t, p) == Nil
    ensures Size(Graft(t, p, Leaf(m))) == Size(t) + 1
    ensures multiset(Labels(Graft(t, p, Leaf(m)))) == multiset(Labels(t)) + multiset{m}
    ensures multiset(Ids(Graft(t, p, Leaf(m)))) == multiset(Ids(t)) + multiset{m.nodeId}
  {
    GraftSize(t, p, Leaf(m));
    GraftLeafLabels(t, p, m);
    GraftLeafIds(t, p, m);
  }

  lemma GraftLeafLabels(t: Tree, p: Path, m: Member)
    requires Reach(t, p) && Subtree(t, p) == Nil
    ensures multiset(Labels(Graft(t, p, Leaf(m)))) == multiset(Labels(t)) + multiset{m}
  {
    GraftLabels(t, p, Leaf(m));
    LeafLabels(m);
    var before, after := multiset(Labels(t)), multiset(Labels(Graft(t, p, Leaf(m))));
    assert after + multiset{} == before + multiset{m};
  }

  lemma GraftLeafIds(t: Tree, p: Path, m: Member)
    requires Reach(t, p) && Subtree(t, p) == Nil
    ensures multiset(Ids(Graft(t, p, Leaf(m)))) == multiset(Ids(t)) + multiset{m.nodeId}
  {
    GraftIds(t, p, Leaf(m));
    LeafLabels(m);
    var before, after := multiset(Ids(t)), multiset(Ids(Graft(t, p, Leaf(m))));
    assert after + multiset{} == before + multiset{m.nodeId};
  }

  lemma LeafLabels(m: Member)
    ensures multiset(Labels(Nil)) == multiset{} && multiset(Ids(Nil)) == multiset{}
    ensures multiset(Labels(Leaf(m))) == multiset{m} && multiset(Ids(Leaf(m))) == multiset{m.nodeId}
  {
    assert Labels(Leaf(m)) == [m] + [] + [];
    assert Ids(Leaf(m)) == [m.nodeId] + [] + [];
  }

  /** The same exchange, counted in node ids. */
  lemma {:induction false} GraftIds(t: Tree, p: Path, s: Tree)
    requires Reach(t, p)
    ensures multiset(Ids(Graft(t, p, s))) + multiset(Ids(Subtree(t, p)))
         == multiset(Ids(t)) + multiset(Ids(s))
    decreases |p|
  {
    if p != [] {
      GraftIds(Child(t, p[0]), p[1..], s);
      var g := Graft(t, p, s);
      assert Subtree(t, p) == Subtree(Child(t, p[0]), p[1..]);
      if p[0] == Left {
        Rebalance(multiset{t.member.nodeId}, multiset(Ids(g.left)), multiset(Ids(t.right)),
                  multiset(Ids(Subtree(t, p))), multiset(Ids(t.left)), multiset(Ids(s)));
      } else {
        Rebalance(multiset{t.member.nodeId}, multiset(Ids(g.right)), multiset(Ids(t.left)),
                  multiset(Ids(Subtree(t, p))), multiset(Ids(t.right)), multiset(Ids(s)));
      }
    }
  }

  lemma Rebalance<T>(x: multiset<T>, g: multiset<T>, r: multiset<T>, u: multiset<T>, l: multiset<T>, s: multiset<T>)
    requires g + u == l + s
    ensures x + g + r + u == x + l + r + s
    ensures x + r + g + u == x + r + l + s
  {
    calc {
      x + g + r + u;
      x + r + (g + u);
      x + r + (l + s);
      x + l + r + s;
    }
    calc {
      x + r + g + u;
      x + r + (g + u);
      x + r + (l + s);
    }
  }

  /** `c` is empty or records `parent` as its parent. */
  predicate ChildOf(parent: Member, c: Tree)
  {
    c.Nil? || c.member.parentId == parent.nodeId
  }

  /** Every child names its parent: each node's `parent_id` is the `node_id`
      of the node that owns it. */
  predicate Linked(t: Tree)
  {
    t.Nil? || (ChildOf(t.member, t.left) && ChildOf(t.member, t.right) && Linked(t.left) && Linked(t.right))
  }

  /** Grafting a linked subtree under the node at `q`, when the subtree names
      that node as its parent, keeps the whole tree linked. */
  lemma {:induction false} GraftLinked(t: Tree, q: Path, d: Dir, s: Tree)
    requires Reach(t, q) && Subtree(t, q).Node? && Linked(t) && Linked(s)
    requires ChildOf(Subtree(t, q).member, s)
    ensures Linked(Graft(t, q + [d], s))
    decreases |q|
  {
    if q != [] {
      var c := Child(t, q[0]);
      assert (q + [d])[1..] == q[1..] + [d];
      GraftLinked(c, q[1..], d, s);
    }
  }

  /** Following `a` then `b` is following `a + b`. */
  lemma {:induction false} SubtreeAppend(t: Tree, a: Path, b: Path)
    ensures Subtree(t, a + b) == Subtree(Subtree(t, a), b)
    decreases |a|
  {
    if a == [] {
      assert a + b == b;
    } else if t.Nil? {
      assert Subtree(Nil, b) == Nil by { SubtreeOfNil(b); }
    } else {
      assert (a + b)[1..] == a[1..] + b;
      SubtreeAppend(Child(t, a[0]), a[1..], b);
    }
  }

  lemma SubtreeOfNil(p: Path)
    ensures Subtree(Nil, p) == Nil
  {
  }

  /** One step further from a reachable node is still reachable. */
  lemma {:induction false} ReachExtend(t: Tree, p: Path, d: Dir)
    requires Reach(t, p) && Subtree(t, p).Node?
    ensures Reach(t, p + [d])
    ensures Subtree(t, p + [d]) == Child(Subtree(t, p), d)
    decreases |p|
  {
    if p == [] {
      assert ([] + [d])[1..] == [];
    } else {
      assert (p + [d])[1..] == p[1..] + [d];
      ReachExtend(Child(t, p[0]), p[1..], d);
    }
  }
}
