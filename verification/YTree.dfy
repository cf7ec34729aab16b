/** ydb/ytree.c: the balanced binary tree with parent pointers, on the heap. */
module YTree {
  import opened AvlShape
  import opened Common

  class Node<K, V> {
    var parent: Node?<K, V>
    var left: Node?<K, V>
    var right: Node?<K, V>
    var key: K
    var data: V
    var balance: int

    constructor (key: K, data: V, parent: Node?<K, V>)
      ensures this.key == key && this.data == data && this.parent == parent
      ensures left == null && right == null && balance == 0
    {
      this.parent := parent;
      left := null;
      right := null;
      this.key := key;
      this.data := data;
      balance := 0;
    }
  }

  // ---------- keys and their order ----------

  /** What the comparison function handed to ytree_create has to be: the sign of comp(a, b) orders
      the keys; keys that compare as 0 are interchangeable. */
  ghost predicate TotalOrder<K(!new)>(comp: (K, K) -> int) {
    (forall a, b :: comp(a, b) < 0 <==> comp(b, a) > 0) &&
    (forall a, b, c :: comp(a, b) <= 0 && comp(b, c) <= 0 ==> comp(a, c) <= 0)
  }

  ghost predicate Ascending<K, V>(comp: (K, K) -> int, s: seq<Node<K, V>>)
    reads (set n | n in s)`key
  {
    forall i, j :: 0 <= i < j < |s| ==> comp(s[i].key, s[j].key) < 0
  }

  lemma {:induction false} AscendingInsert<K, V>(comp: (K, K) -> int, s: seq<Node<K, V>>, p: nat, n: Node<K, V>)
    requires Ascending(comp, s) && p <= |s|
    requires forall i :: 0 <= i < p ==> comp(s[i].key, n.key) < 0
    requires forall i :: p <= i < |s| ==> comp(n.key, s[i].key) < 0
    ensures Ascending(comp, s[..p] + [n] + s[p..])
  {
  }

  lemma {:induction false} AscendingRemove<K, V>(comp: (K, K) -> int, s: seq<Node<K, V>>, p: nat)
    requires Ascending(comp, s) && p < |s|
    ensures Ascending(comp, s[..p] + s[p + 1..])
  {
  }

  lemma {:induction false} Between<K(!new)>(comp: (K, K) -> int, a: K, b: K, c: K)
    requires TotalOrder(comp) && comp(a, b) <= 0 && comp(b, c) <= 0
    ensures comp(a, c) <= 0
    ensures comp(a, b) < 0 || comp(b, c) < 0 ==> comp(a, c) < 0
  {
    if comp(a, c) == 0 {
      assert comp(c, a) == 0;
      assert comp(b, a) <= 0 && comp(c, b) <= 0;
    }
  }

  /** A key below the one at `p` is below all that follow. */
  lemma {:induction false} BelowFrom<K(!new), V>(comp: (K, K) -> int, s: seq<Node<K, V>>, p: nat, k: K)
    requires TotalOrder(comp) && Ascending(comp, s) && p < |s| && comp(k, s[p].key) <= 0
    ensures forall i :: p < i < |s| ==> comp(k, s[i].key) < 0
  {
    forall i | p < i < |s| ensures comp(k, s[i].key) < 0 {
      Between(comp, k, s[p].key, s[i].key);
    }
  }

  lemma {:induction false} AboveUpTo<K(!new), V>(comp: (K, K) -> int, s: seq<Node<K, V>>, p: nat, k: K)
    requires TotalOrder(comp) && Ascending(comp, s) && p < |s| && comp(s[p].key, k) <= 0
    ensures forall i :: 0 <= i < p ==> comp(s[i].key, k) < 0
  {
    forall i | 0 <= i < p ensures comp(s[i].key, k) < 0 {
      Between(comp, s[i].key, s[p].key, k);
    }
  }

  // ---------- the fields a shape prescribes for its nodes ----------

  /** The four structural fields of a node. */
  datatype Links<K, V> = Links(parent: Node?<K, V>, left: Node?<K, V>, right: Node?<K, V>, balance: int)

  ghost function Root<K, V>(t: Shape<Node<K, V>>): Node?<K, V> {
    if t.Leaf? then null else t.node
  }

  ghost function CtxRoot<K, V>(c: Ctx<Node<K, V>>): Node?<K, V> {
    if c.Top? then null else c.node
  }

  /** What the fields of `n` are when `t` hangs below `p`. */
  ghost function Link<K, V>(t: Shape<Node<K, V>>, p: Node?<K, V>, n: Node<K, V>): Links<K, V> {
    match t
    case Leaf => Links(null, null, null, 0)
    case Branch(l, x, b, r) =>
      if n == x then Links(p, Root(l), Root(r), b)
      else if n in Nodes(l) then Link(l, x, n)
      else Link(r, x, n)
  }

  /** What the fields of `n` are when `hole` is the root of the subtree filling `c`. */
  ghost function CtxLink<K, V>(c: Ctx<Node<K, V>>, hole: Node?<K, V>, n: Node<K, V>): Links<K, V>
    decreases c
  {
    match c
    case Top => Links(null, null, null, 0)
    case InLeft(x, b, s, up) =>
      if n == x then Links(CtxRoot(up), hole, Root(s), b)
      else if n in Nodes(s) then Link(s, x, n)
      else CtxLink(up, x, n)
    case InRight(x, b, s, up) =>
      if n == x then Links(CtxRoot(up), Root(s), hole, b)
      else if n in Nodes(s) then Link(s, x, n)
      else CtxLink(up, x, n)
  }

  lemma {:induction false} PlugLink<K, V>(c: Ctx<Node<K, V>>, t: Shape<Node<K, V>>, n: Node<K, V>)
    requires Distinct(Plug(c, t))
    ensures n in Nodes(t) ==> Link(Plug(c, t), null, n) == Link(t, CtxRoot(c), n)
    ensures n in CtxNodes(c) ==> Link(Plug(c, t), null, n) == CtxLink(c, Root(t), n)
    decreases c
  {
    if !c.Top? {
      var t' := if c.InLeft? then Branch(t, c.node, c.bal, c.sibling) else Branch(c.sibling, c.node, c.bal, t);
      PlugLink(c.up, t', n);
      PlugDistinct(c, t);
      assert Nodes(t') == Nodes(t) + {c.node} + Nodes(c.sibling);
    }
  }

  /** The topmost node: that of the context unless the context is empty. */
  lemma {:induction false} PlugRoot<K, V>(c: Ctx<Node<K, V>>, t: Shape<Node<K, V>>)
    ensures c.Top? ==> Root(Plug(c, t)) == Root(t)
    ensures !c.Top? ==> Root(Plug(c, t)) in CtxNodes(c)
    ensures !c.Top? ==> forall u :: Root(Plug(c, u)) == Root(Plug(c, t))
    decreases c
  {
    if c.InLeft? {
      PlugRoot(c.up, Branch(t, c.node, c.bal, c.sibling));
    } else if c.InRight? {
      PlugRoot(c.up, Branch(c.sibling, c.node, c.bal, t));
    }
  }

  /** Hanging a subtree elsewhere changes the parent of its root and nothing else. */
  lemma {:induction false} Rehung<K, V>(t: Shape<Node<K, V>>, p: Node?<K, V>, q: Node?<K, V>, n: Node<K, V>)
    ensures n != Root(t) ==> Link(t, q, n) == Link(t, p, n)
    ensures n == Root(t) ==> Link(t, q, n) == Link(t, p, n).(parent := q)
  {
  }

  /** Filling a hole with another subtree changes one child pointer above it. */
  lemma {:induction false} Refilled<K, V>(c: Ctx<Node<K, V>>, h: Node?<K, V>, h': Node?<K, V>, n: Node<K, V>)
    ensures n != CtxRoot(c) ==> CtxLink(c, h', n) == CtxLink(c, h, n)
    ensures c.InLeft? ==> CtxLink(c, h', c.node) == CtxLink(c, h, c.node).(left := h')
    ensures c.InRight? ==> CtxLink(c, h', c.node) == CtxLink(c, h, c.node).(right := h')
  {
  }

  ghost predicate Is<K, V>(n: Node<K, V>, f: Links<K, V>)
    reads n
  {
    n.parent == f.parent && n.left == f.left && n.right == f.right && n.balance == f.balance
  }

  /** The heap looks like `t`. */
  ghost predicate Linked<K, V>(t: Shape<Node<K, V>>)
    reads Nodes(t)
  {
    forall n :: n in Nodes(t) ==> Is(n, Link(t, null, n))
  }

  lemma {:induction false} NodesAllocated<K, V>(t: Shape<Node<K, V>>)
    ensures forall n :: n in Nodes(t) ==> allocated(n)
  {
    if t.Branch? {
      NodesAllocated(t.left);
      NodesAllocated(t.right);
    }
  }

  lemma {:induction false} CtxAllocated<K, V>(c: Ctx<Node<K, V>>)
    ensures forall n :: n in CtxNodes(c) ==> allocated(n)
  {
    if !c.Top? {
      NodesAllocated(c.sibling);
      CtxAllocated(c.up);
    }
  }

  /** The root of `t` and the roots below it are different nodes of `t`. */
  ghost predicate Aside<K, V>(t: Shape<Node<K, V>>) {
    t.Branch? && t.node in Nodes(t) && t.node !in Nodes(t.left) && t.node !in Nodes(t.right) &&
    Nodes(t.left) <= Nodes(t) && Nodes(t.right) <= Nodes(t) &&
    (t.left.Branch? ==> Root(t.left) in Nodes(t.left) && Root(t.left) != Root(t.right)) &&
    (t.right.Branch? ==> Root(t.right) in Nodes(t.right))
  }

  /** What a method standing at the root of `t` in the hole of `c` sees around it. */
  lemma {:induction false} AtHole<K, V>(c: Ctx<Node<K, V>>, t: Shape<Node<K, V>>)
    requires Distinct(Plug(c, t)) && t.Branch?
    ensures var s := Plug(c, t);
      && Distinct(t) && Nodes(s) == CtxNodes(c) + Nodes(t) && CtxNodes(c) !! Nodes(t) && t.node in Nodes(t)
      && (Root(s) == t.node <==> c.Top?) && (!c.Top? ==> c.node in CtxNodes(c))
      && (forall n :: n in Nodes(t) ==> Link(s, null, n) == Link(t, CtxRoot(c), n))
      && Link(s, null, t.node) == Links(CtxRoot(c), Root(t.left), Root(t.right), t.bal)
      && (t.left.Branch? ==> t.left.node in Nodes(s) && Link(s, null, t.left.node).balance == t.left.bal)
      && (t.right.Branch? ==> t.right.node in Nodes(s) && Link(s, null, t.right.node).balance == t.right.bal)
      && (c.InLeft? ==> Link(s, null, c.node).left == t.node && Link(s, null, c.node).right != t.node)
      && (c.InRight? ==> Link(s, null, c.node).right == t.node && Link(s, null, c.node).left != t.node)
  {
    PlugFacts(c, t);
    PlugRoot(c, t);
    forall n | n in Nodes(t) ensures Link(Plug(c, t), null, n) == Link(t, CtxRoot(c), n) {
      PlugLink(c, t, n);
    }
    if !c.Top? {
      PlugLink(c, t, c.node);
    }
  }

  /** Refilling a hole with a tree that shares no node with its surroundings. */
  lemma {:induction false} Swapped<K, V>(c: Ctx<Node<K, V>>, t: Shape<Node<K, V>>, t': Shape<Node<K, V>>)
    requires Distinct(Plug(c, t)) && Distinct(t') && CtxNodes(c) !! Nodes(t')
    ensures var s, s' := Plug(c, t), Plug(c, t');
      && Distinct(s') && Nodes(s') == CtxNodes(c) + Nodes(t')
      && Root(s') == (if c.Top? then Root(t') else Root(s))
      && (forall n :: n in Nodes(t') ==> Link(s', null, n) == Link(t', CtxRoot(c), n))
      && (forall n :: n in CtxNodes(c) && n != CtxRoot(c) ==> Link(s', null, n) == Link(s, null, n))
      && (c.InLeft? ==> Link(s', null, c.node) == Link(s, null, c.node).(left := Root(t')))
      && (c.InRight? ==> Link(s', null, c.node) == Link(s, null, c.node).(right := Root(t')))
  {
    PlugFacts(c, t);
    PlugFacts(c, t');
    PlugRoot(c, t);
    PlugRoot(c, t');
    var s, s' := Plug(c, t), Plug(c, t');
    forall n | n in Nodes(t') ensures Link(s', null, n) == Link(t', CtxRoot(c), n) {
      PlugLink(c, t', n);
    }
    forall n | n in CtxNodes(c)
      ensures n != CtxRoot(c) ==> Link(s', null, n) == Link(s, null, n)
      ensures c.InLeft? && n == c.node ==> Link(s', null, n) == Link(s, null, n).(left := Root(t'))
      ensures c.InRight? && n == c.node ==> Link(s', null, n) == Link(s, null, n).(right := Root(t'))
    {
      PlugLink(c, t, n);
      PlugLink(c, t', n);
      Refilled(c, Root(t), Root(t'), n);
    }
  }

  // ---------- what the rotations change ----------

  /** Of all the fields of the nodes of `t`, a right rotation changes those of the two nodes it
      turns and the parent of the subtree that moves across. */
  lemma {:induction false} RightRotatedLinks<K, V>(t: Shape<Node<K, V>>, p: Node?<K, V>)
    requires t.Branch? && t.left.Branch? && Distinct(t)
    ensures var t', l, mid := RotatedRight(t), t.left, t.left.right;
      && Link(t, p, t.node) == Links(p, Root(t.left), Root(t.right), t.bal)
      && SameNodes(t, t') && Aside(t) && Aside(l)
      && Link(t', p, l.node) == Links(p, Root(l.left), t.node, l.bal + 1)
      && Link(t', p, t.node) == Links(l.node, Root(mid), Root(t.right), -(l.bal + 1))
      && Link(t, p, l.node) == Links(t.node, Root(l.left), Root(mid), l.bal)
      && forall n :: n in Nodes(t) && n != t.node && n != l.node ==>
           Link(t', p, n) == if n == Root(mid) then Link(t, p, n).(parent := t.node) else Link(t, p, n)
  {
    RightRotated(t);
    var l, t' := t.left, RotatedRight(t);
    DistinctLeftNested(l.left, l.node, l.right, t.node, t.right, l.bal, t.bal);
    assert Nodes(l) == Nodes(l.left) + {l.node} + Nodes(l.right);
    assert Nodes(t'.right) == Nodes(l.right) + {t.node} + Nodes(t.right);
    forall n | n in Nodes(t) && n != t.node && n != l.node
      ensures Link(t', p, n) == if n == Root(l.right) then Link(t, p, n).(parent := t.node) else Link(t, p, n)
    {
      Rehung(l.right, l.node, t.node, n);
    }
  }

  lemma {:induction false} LeftRotatedLinks<K, V>(t: Shape<Node<K, V>>, p: Node?<K, V>)
    requires t.Branch? && t.right.Branch? && Distinct(t)
    ensures var t', r, mid := RotatedLeft(t), t.right, t.right.left;
      && Link(t, p, t.node) == Links(p, Root(t.left), Root(t.right), t.bal)
      && SameNodes(t, t') && Aside(t) && Aside(r)
      && Link(t', p, r.node) == Links(p, t.node, Root(r.right), r.bal - 1)
      && Link(t', p, t.node) == Links(r.node, Root(t.left), Root(mid), -(r.bal - 1))
      && Link(t, p, r.node) == Links(t.node, Root(mid), Root(r.right), r.bal)
      && forall n :: n in Nodes(t) && n != t.node && n != r.node ==>
           Link(t', p, n) == if n == Root(mid) then Link(t, p, n).(parent := t.node) else Link(t, p, n)
  {
    LeftRotated(t);
    var r, t' := t.right, RotatedLeft(t);
    DistinctRightNested(t.left, t.node, r.left, r.node, r.right, t.bal, r.bal);
    assert Nodes(r) == Nodes(r.left) + {r.node} + Nodes(r.right);
    assert Nodes(t'.left) == Nodes(t.left) + {t.node} + Nodes(r.left);
    forall n | n in Nodes(t) && n != t.node && n != r.node
      ensures Link(t', p, n) == if n == Root(r.left) then Link(t, p, n).(parent := t.node) else Link(t, p, n)
    {
      Rehung(r.left, r.node, t.node, n);
    }
  }

  lemma {:induction false} LeftRightRotatedLinks<K, V>(t: Shape<Node<K, V>>, p: Node?<K, V>)
    requires t.Branch? && t.left.Branch? && t.left.right.Branch? && Distinct(t)
    ensures var t', l, m := RotatedLeftRight(t), t.left, t.left.right;
      && Link(t, p, t.node) == Links(p, Root(t.left), Root(t.right), t.bal)
      && SameNodes(t, t') && Aside(t) && Aside(l) && Aside(m)
      && Link(t', p, m.node) == Links(p, l.node, t.node, 0)
      && Link(t', p, l.node) == Links(m.node, Root(l.left), Root(m.left), t'.left.bal)
      && Link(t', p, t.node) == Links(m.node, Root(m.right), Root(t.right), t'.right.bal)
      && Link(t, p, l.node) == Links(t.node, Root(l.left), m.node, l.bal)
      && Link(t, p, m.node) == Links(l.node, Root(m.left), Root(m.right), m.bal)
      && forall n :: n in Nodes(t) && n != t.node && n != l.node && n != m.node ==>
           Link(t', p, n) == if n == Root(m.left) then Link(t, p, n).(parent := l.node)
                             else if n == Root(m.right) then Link(t, p, n).(parent := t.node) else Link(t, p, n)
  {
    LeftRightRotated(t);
    var l, m, t' := t.left, t.left.right, RotatedLeftRight(t);
    assert Nodes(m) == Nodes(m.left) + {m.node} + Nodes(m.right);
    assert Nodes(l) == Nodes(l.left) + {l.node} + Nodes(m);
    assert Nodes(t'.left) == Nodes(l.left) + {l.node} + Nodes(m.left);
    assert Nodes(t'.right) == Nodes(m.right) + {t.node} + Nodes(t.right);
    assert Link(l, t.node, m.node) == Link(m, l.node, m.node);
    forall n | n in Nodes(t) && n != t.node && n != l.node && n != m.node
      ensures Link(t', p, n) == if n == Root(m.left) then Link(t, p, n).(parent := l.node)
                                else if n == Root(m.right) then Link(t, p, n).(parent := t.node) else Link(t, p, n)
    {
      Rehung(m.left, m.node, l.node, n);
      Rehung(m.right, m.node, t.node, n);
      assert n in Nodes(l) ==> Link(t, p, n) == Link(l, t.node, n);
      assert n in Nodes(m) ==> Link(l, t.node, n) == Link(m, l.node, n);
    }
  }

  lemma {:induction false} RightLeftRotatedLinks<K, V>(t: Shape<Node<K, V>>, p: Node?<K, V>)
    requires t.Branch? && t.right.Branch? && t.right.left.Branch? && Distinct(t)
    ensures var t', r, m := RotatedRightLeft(t), t.right, t.right.left;
      && Link(t, p, t.node) == Links(p, Root(t.left), Root(t.right), t.bal)
      && SameNodes(t, t') && Aside(t) && Aside(r) && Aside(m)
      && Link(t', p, m.node) == Links(p, t.node, r.node, 0)
      && Link(t', p, r.node) == Links(m.node, Root(m.right), Root(r.right), t'.right.bal)
      && Link(t', p, t.node) == Links(m.node, Root(t.left), Root(m.left), t'.left.bal)
      && Link(t, p, r.node) == Links(t.node, m.node, Root(r.right), r.bal)
      && Link(t, p, m.node) == Links(r.node, Root(m.left), Root(m.right), m.bal)
      && forall n :: n in Nodes(t) && n != t.node && n != r.node && n != m.node ==>
           Link(t', p, n) == if n == Root(m.left) then Link(t, p, n).(parent := t.node)
                             else if n == Root(m.right) then Link(t, p, n).(parent := r.node) else Link(t, p, n)
  {
    RightLeftRotated(t);
    var r, m, t' := t.right, t.right.left, RotatedRightLeft(t);
    assert Nodes(m) == Nodes(m.left) + {m.node} + Nodes(m.right);
    assert Nodes(r) == Nodes(m) + {r.node} + Nodes(r.right);
    assert Nodes(t'.right) == Nodes(m.right) + {r.node} + Nodes(r.right);
    assert Nodes(t'.left) == Nodes(t.left) + {t.node} + Nodes(m.left);
    assert Link(r, t.node, m.node) == Link(m, r.node, m.node);
    forall n | n in Nodes(t) && n != t.node && n != r.node && n != m.node
      ensures Link(t', p, n) == if n == Root(m.left) then Link(t, p, n).(parent := t.node)
                                else if n == Root(m.right) then Link(t, p, n).(parent := r.node) else Link(t, p, n)
    {
      Rehung(m.left, m.node, t.node, n);
      Rehung(m.right, m.node, r.node, n);
      assert n in Nodes(r) ==> Link(t, p, n) == Link(r, t.node, n);
      assert n in Nodes(m) ==> Link(r, t.node, n) == Link(m, r.node, n);
    }
  }

  /** The node above a hole, whatever fills it. */
  lemma {:induction false} Above<K, V>(c: Ctx<Node<K, V>>, t: Shape<Node<K, V>>)
    requires Distinct(Plug(c, t)) && !c.Top?
    ensures c.node in Nodes(Plug(c, t))
    ensures c.InLeft? ==> Link(Plug(c, t), null, c.node).left == Root(t)
    ensures c.InRight? ==> Link(Plug(c, t), null, c.node).right == Root(t)
  {
    PlugNodes(c, t);
    PlugLink(c, t, c.node);
  }

  lemma {:induction false} NewLeaf<K, V>(t: Shape<Node<K, V>>)
    requires t.Branch? && t.left.Leaf? && t.right.Leaf? && t.bal == 0
    ensures Avl(t) && Height(t) == 1 && Grown(t) && InOrder(t) == [t.node] && Distinct(t)
  {
  }

  lemma {:induction false} OrderAllocated<K, V>(t: Shape<Node<K, V>>)
    ensures forall i :: 0 <= i < |InOrder(t)| ==> InOrder(t)[i] in Nodes(t) && allocated(InOrder(t)[i])
  {
    InOrderNodes(t);
    NodesAllocated(t);
  }

  lemma {:induction false} SingleNode<K, V>(n: Node<K, V>)
    requires n.parent == null && n.left == null && n.right == null && n.balance == 0
    ensures var t := Branch(Leaf, n, 0, Leaf);
            Linked(t) && Avl(t) && Distinct(t) && InOrder(t) == [n] && Nodes(t) == {n}
  {
  }

  lemma {:induction false} RootlessLeaf<K, V>(t: Shape<Node<K, V>>)
    requires Root(t) == null
    ensures t == Leaf && InOrder(t) == [] && Nodes(t) == {}
  {
  }

  // ---------- what taking a node out changes ----------

  /** The one child of a node comes up. */
  lemma {:induction false} OnlyChildLinks<K, V>(t: Shape<Node<K, V>>, y: Shape<Node<K, V>>, p: Node?<K, V>)
    requires t.Branch? && y.Branch? && Distinct(t)
    requires (t.left.Leaf? && y == t.right) || (t.right.Leaf? && y == t.left)
    ensures Distinct(y) && Nodes(t) == Nodes(y) + {t.node} && t.node !in Nodes(y) && y.node in Nodes(y)
    ensures InOrder(y) == InOrder(t.left) + InOrder(t.right)
    ensures forall n :: n in Nodes(y) ==>
      Link(y, p, n) == if n == y.node then Link(t, p, n).(parent := p) else Link(t, p, n)
  {
    forall n | n in Nodes(y)
      ensures Link(y, p, n) == if n == y.node then Link(t, p, n).(parent := p) else Link(t, p, n)
    {
      Rehung(y, t.node, p, n);
    }
  }

  /** The right child, having no left child, takes the place of its parent. */
  lemma {:induction false} NearLinks<K, V>(t: Shape<Node<K, V>>, p: Node?<K, V>)
    requires t.Branch? && t.left.Branch? && t.right.Branch? && t.right.left.Leaf? && Distinct(t)
    ensures var l, s := t.left, t.right;
      var t' := Branch(l, s.node, t.bal, s.right);
      && Distinct(t') && Nodes(t) == Nodes(t') + {t.node} && t.node !in Nodes(t')
      && s.node in Nodes(t') && l.node in Nodes(t') && s.node != l.node
      && InOrder(t') == InOrder(l) + InOrder(s)
      && Link(t', p, s.node) == Links(p, l.node, Root(s.right), t.bal) && Link(t, p, s.node).right == Root(s.right)
      && forall n :: n in Nodes(t') && n != s.node ==>
           Link(t', p, n) == if n == l.node then Link(t, p, n).(parent := s.node) else Link(t, p, n)
  {
    var l, s := t.left, t.right;
    var t' := Branch(l, s.node, t.bal, s.right);
    assert Nodes(s) == {s.node} + Nodes(s.right);
    assert InOrder(s) == [s.node] + InOrder(s.right);
    forall n | n in Nodes(t') && n != s.node
      ensures Link(t', p, n) == if n == l.node then Link(t, p, n).(parent := s.node) else Link(t, p, n)
    {
      Rehung(l, t.node, s.node, n);
    }
  }

  /** A node from outside takes the place of the root. */
  lemma {:induction false} FarLinks<K, V>(t: Shape<Node<K, V>>, s: Node<K, V>, p: Node?<K, V>)
    requires t.Branch? && t.left.Branch? && t.right.Branch? && Distinct(t) && s !in Nodes(t)
    ensures var t' := t.(node := s);
      && Distinct(t') && Nodes(t') == Nodes(t.left) + {s} + Nodes(t.right)
      && Nodes(t) == Nodes(t.left) + {t.node} + Nodes(t.right)
      && t.node !in Nodes(t') && t.left.node in Nodes(t.left) && t.right.node in Nodes(t.right)
      && t.left.node != t.right.node
      && Link(t', p, s) == Links(p, t.left.node, t.right.node, t.bal)
      && forall n :: n in Nodes(t.left) + Nodes(t.right) ==>
           Link(t', p, n) == if n == t.left.node || n == t.right.node then Link(t, p, n).(parent := s)
             else Link(t, p, n)
  {
    var t' := t.(node := s);
    forall n | n in Nodes(t.left) + Nodes(t.right)
      ensures Link(t', p, n) == if n == t.left.node || n == t.right.node then Link(t, p, n).(parent := s)
        else Link(t, p, n)
    {
      Rehung(t.left, t.node, s, n);
      Rehung(t.right, t.node, s, n);
    }
  }

  lemma {:induction false} OnlyChildShrunk<K, V>(t: Shape<Node<K, V>>, y: Shape<Node<K, V>>)
    requires t.Branch? && y.Branch? && Avl(t)
    requires (t.left.Leaf? && y == t.right) || (t.right.Leaf? && y == t.left)
    ensures Shrunk(y, 0, Height(t))
  {
  }

  lemma {:induction false} NearShrunk<K, V>(t: Shape<Node<K, V>>)
    requires t.Branch? && t.right.Branch? && t.right.left.Leaf? && Avl(t)
    ensures Shrunk(Branch(t.left, t.right.node, t.bal, t.right.right), -1, Height(t))
  {
    assert Height(t.right) == 1 + Height(t.right.right);
  }

  lemma {:induction false} GoLeft<N>(c: Ctx<N>, t: Shape<N>)
    requires t.Branch?
    ensures var c' := InLeft(t.node, t.bal, t.right, c);
            Plug(c', t.left) == Plug(c, t) && Before(c') == Before(c)
  {
  }

  lemma {:induction false} GoRight<N>(c: Ctx<N>, t: Shape<N>)
    requires t.Branch?
    ensures var c' := InRight(t.node, t.bal, t.left, c);
            Plug(c', t.right) == Plug(c, t) && After(c') == After(c) &&
              |Before(c')| == |Before(c)| + |InOrder(t.left)| + 1
  {
  }

  lemma {:induction false} GoUp<N>(c: Ctx<N>, t: Shape<N>)
    ensures !c.Top? ==> Plug(c.up, Climb(c, t)) == Plug(c, t)
    ensures c.InRight? ==> |Before(c)| + |InOrder(t)| == |Before(c.up)| + |InOrder(Climb(c, t))|
    ensures c.InLeft? ==> Before(c.up) == Before(c) && |InOrder(Climb(c, t).left)| == |InOrder(t)|
    ensures c.Top? ==> Plug(c, t) == t && |Before(c)| == |After(c)| == 0
  {
  }

  /** What is left of `s` when the i-th visit, counted from `i0`, drops its element if `drop(i)`. */
  ghost function Kept<N>(s: seq<N>, drop: nat -> bool, i0: nat): seq<N> {
    if s == [] then [] else (if drop(i0) then [] else [s[0]]) + Kept(s[1..], drop, i0 + 1)
  }

  lemma {:induction false} KeptStep<N>(kept: seq<N>, n: N, rest: seq<N>, drop: nat -> bool, i: nat)
    ensures kept + Kept([n] + rest, drop, i) == (if drop(i) then kept else kept + [n]) + Kept(rest, drop, i + 1)
  {
    assert ([n] + rest)[1..] == rest;
    assert kept + ([n] + Kept(rest, drop, i + 1)) == kept + [n] + Kept(rest, drop, i + 1);
  }

  lemma {:induction false} KeptNone<N>(drop: nat -> bool, i: nat)
    ensures Kept<N>([], drop, i) == []
  {
  }

  lemma {:induction false} Shift<N>(a: seq<N>, n: N, s: seq<N>)
    requires s != [] && s[0] == n
    ensures [n] + s[1..] == s && a + [n] + s[1..] == a + s
  {
  }

  lemma {:induction false} SignFlip<K(!new)>(comp: (K, K) -> int, a: K, b: K)
    requires TotalOrder(comp)
    ensures comp(a, b) == 0 <==> comp(b, a) == 0
  {
    assert comp(a, b) < 0 <==> comp(b, a) > 0;
    assert comp(b, a) < 0 <==> comp(a, b) > 0;
  }

  lemma {:induction false} DropMiddle<N>(a: seq<N>, l: seq<N>, n: N, r: seq<N>, b: seq<N>)
    ensures var s, p := a + l + [n] + r + b, |a| + |l|;
            p < |s| && s[p] == n && s[..p] + s[p + 1..] == a + l + r + b
  {
    var s, p := a + l + [n] + r + b, |a| + |l|;
    assert s[..p] == a + l;
    assert s[p + 1..] == r + b;
  }

  /** Going one node down moves that node out of the hole, to its right or to its left. */
  lemma {:induction false} Descent<N>(c: Ctx<N>, t: Shape<N>)
    requires t.Branch?
    ensures var at, s := |Before(c)| + |InOrder(t.left)|, InOrder(Plug(c, t));
      at < |s| && s[at] == t.node
      && Plug(InLeft(t.node, t.bal, t.right, c), t.left) == Plug(InRight(t.node, t.bal, t.left, c), t.right) ==
        Plug(c, t)
      && Before(InLeft(t.node, t.bal, t.right, c)) == Before(c) &&
        |After(InLeft(t.node, t.bal, t.right, c))| == |s| - at
      && |Before(InRight(t.node, t.bal, t.left, c))| == at + 1 && After(InRight(t.node, t.bal, t.left, c)) == After(c)
  {
    PlugInOrder(c, t);
    assert InOrder(t) == InOrder(t.left) + [t.node] + InOrder(t.right);
  }

  lemma {:induction false} LeftmostFirst<N>(c: Ctx<N>, t: Shape<N>)
    requires AllLeft(c) && t.Branch? && t.left.Leaf?
    ensures InOrder(Plug(c, t)) != [] && InOrder(Plug(c, t))[0] == t.node
  {
    PlugInOrder(c, t);
    AllLeftBefore(c);
    LeafOrder(t.left);
  }

  lemma {:induction false} LeafOrder<N>(t: Shape<N>)
    ensures t.Leaf? ==> InOrder(t) == []
  {
  }

  lemma {:induction false} RightDistinct<N>(c: Ctx<N>, t: Shape<N>)
    requires Distinct(Plug(c, t)) && t.Branch?
    ensures Distinct(t.right)
  {
    PlugDistinct(c, t);
  }

  lemma {:induction false} TopIs<N>(c: Ctx<N>, t: Shape<N>)
    ensures c.Top? ==> Plug(c, t) == t
  {
  }

  lemma {:induction false} TopPlug<K, V>(t: Shape<Node<K, V>>)
    ensures Plug(Top, t) == t
  {
  }

  /** Another balance factor at the root of a hole's subtree. */
  lemma {:induction false} Reweighed<K, V>(c: Ctx<Node<K, V>>, t: Shape<Node<K, V>>, b: int)
    requires Distinct(Plug(c, t)) && t.Branch?
    ensures var s, s' := Plug(c, t), Plug(c, t.(bal := b));
      && t.node in Nodes(s) && Link(s, null, t.node).balance == t.bal
      && Distinct(s') && Nodes(s') == Nodes(s) && InOrder(s') == InOrder(s) && Root(s') == Root(s)
      && forall n :: n in Nodes(s) ==>
           Link(s', null, n) == if n == t.node then Link(s, null, n).(balance := b) else Link(s, null, n)
  {
    hide Plug, CtxNodes;
    var t' := t.(bal := b);
    AtHole(c, t);
    Swapped(c, t, t');
    PlugInOrder(c, t);
    PlugInOrder(c, t');
    assert forall n :: n in Nodes(t) ==>
      Link(t', CtxRoot(c), n) == if n == t.node then Link(t, CtxRoot(c), n).(balance := b) else Link(t, CtxRoot(c), n);
  }

  /** After a rotation: what the climbing loops need to know about the whole. */
  lemma {:induction false} Settled<K, V>(c: Ctx<Node<K, V>>, t: Shape<Node<K, V>>, t': Shape<Node<K, V>>)
    requires SameNodes(t, t') && Distinct(Plug(c, t')) && t'.Branch?
    ensures InOrder(Plug(c, t')) == InOrder(Plug(c, t)) && Nodes(Plug(c, t')) == Nodes(Plug(c, t))
    ensures t'.node in Nodes(Plug(c, t')) && Link(Plug(c, t'), null, t'.node).balance == t'.bal
    ensures Avl(Plug(c, t')) <==> Avl(t') && CtxAvl(c, Height(t'))
  {
    PlugFacts(c, t);
    PlugFacts(c, t');
    AtHole(c, t');
  }

  class Tree<K(!new), V> {
    const comp: (K, K) -> int
    var root: Node?<K, V>
    var size: nat
    ghost var shape: Shape<Node<K, V>>

    /** The nodes in key order. */
    ghost var order: seq<Node<K, V>>

    ghost predicate Valid()
      reads this, Nodes(shape), order
    {
      TotalOrder(comp) && Holds(shape) && Avl(shape) && order == InOrder(shape) && Ascending(comp, order) &&
        size == |order|
    }

    constructor (comp: (K, K) -> int)
      requires TotalOrder(comp)
      ensures Valid() && order == [] && this.comp == comp && Nodes(shape) == {}
    {
      this.comp := comp;
      root := null;
      size := 0;
      shape := Leaf;
      order := [];
    }

    /** The heap looks like `s` from the root pointer on. */
    ghost predicate Holds(s: Shape<Node<K, V>>)
      reads this`root, Nodes(s)
    {
      root == Root(s) && Distinct(s) && Linked(s)
    }

    /** Lets the parent (or the root pointer) refer to `x`, the root of `t'`, where it referred to
        `node`, the root of `t`. */
    method ReplaceChild(parent: Node?<K, V>, node: Node<K, V>, x: Node?<K, V>,
                        ghost c: Ctx<Node<K, V>>, ghost t: Shape<Node<K, V>>, ghost t': Shape<Node<K, V>>)
      requires Distinct(Plug(c, t)) && t.Branch? && t.node == node && parent == CtxRoot(c)
      requires Distinct(t') && CtxNodes(c) !! Nodes(t') && Root(t') == x
      requires root == Root(Plug(c, t))
      requires forall n :: n in CtxNodes(c) ==> Is(n, Link(Plug(c, t), null, n))
      requires forall n :: n in Nodes(t') ==> Is(n, Link(t', parent, n))
      modifies this`root, CtxNodes(c)`left, CtxNodes(c)`right
      ensures Holds(Plug(c, t'))
    {
      hide Distinct, Nodes, Plug, Link, CtxNodes, InOrder;
      AtHole(c, t);
      Swapped(c, t, t');
      if node == root {
        root := x;
      } else if parent.left == node {
        parent.left := x;
      } else {
        parent.right := x;
      }
    }

    method RotateLeft(node: Node<K, V>, ghost c: Ctx<Node<K, V>>, ghost t: Shape<Node<K, V>>)
        returns (top: Node<K, V>, ghost t': Shape<Node<K, V>>)
      requires t.Branch? && t.right.Branch? && t.node == node && Holds(Plug(c, t))
      modifies this`root, Nodes(Plug(c, t))`parent, Nodes(Plug(c, t))`left
      modifies Nodes(Plug(c, t))`right, Nodes(Plug(c, t))`balance
      ensures t' == RotatedLeft(t) && top == t'.node && SameNodes(t, t') && Holds(Plug(c, t'))
    {
      hide Distinct, Nodes, Plug, Link, CtxNodes, InOrder;
      t' := RotatedLeft(t);
      AtHole(c, t);
      LeftRotatedLinks(t, CtxRoot(c));

      var right := node.right;
      var rightLeft := right.left;
      var parent := node.parent;

      right.parent := parent;
      right.left := node;
      node.right := rightLeft;
      node.parent := right;

      if rightLeft != null {
        rightLeft.parent := node;
      }

      right.balance := right.balance - 1;
      node.balance := -right.balance;
      ReplaceChild(parent, node, right, c, t, t');
      return right, t';
    }

    method RotateRight(node: Node<K, V>, ghost c: Ctx<Node<K, V>>, ghost t: Shape<Node<K, V>>)
        returns (top: Node<K, V>, ghost t': Shape<Node<K, V>>)
      requires t.Branch? && t.left.Branch? && t.node == node && Holds(Plug(c, t))
      modifies this`root, Nodes(Plug(c, t))`parent, Nodes(Plug(c, t))`left
      modifies Nodes(Plug(c, t))`right, Nodes(Plug(c, t))`balance
      ensures t' == RotatedRight(t) && top == t'.node && SameNodes(t, t') && Holds(Plug(c, t'))
    {
      hide Distinct, Nodes, Plug, Link, CtxNodes, InOrder;
      t' := RotatedRight(t);
      AtHole(c, t);
      RightRotatedLinks(t, CtxRoot(c));

      var left := node.left;
      var leftRight := left.right;
      var parent := node.parent;

      left.parent := parent;
      left.right := node;
      node.left := leftRight;
      node.parent := left;

      if leftRight != null {
        leftRight.parent := node;
      }

      left.balance := left.balance + 1;
      node.balance := -left.balance;
      ReplaceChild(parent, node, left, c, t, t');
      return left, t';
    }

    /** The first half of a left-right rotation: the node in the middle passes its subtrees on,
        and with them what its balance factor says about the other two. */
    method PassDownLeftRight(node: Node<K, V>, ghost p: Node?<K, V>, ghost t: Shape<Node<K, V>>)
      requires t.Branch? && t.left.Branch? && t.left.right.Branch? && t.node == node && Distinct(t)
      requires forall n :: n in Nodes(t) ==> Is(n, Link(t, p, n))
      modifies Nodes(t)`parent, Nodes(t)`left, Nodes(t)`right, Nodes(t)`balance
      ensures forall n :: n in Nodes(t) ==> var l, m, f, u := t.left, t.left.right, Link(t, p, n), RotatedLeftRight(t);
        Is(n, if n == node then f.(left := Root(m.right), balance := u.right.bal)
              else if n == l.node then f.(right := Root(m.left), balance := u.left.bal)
              else if n == Root(m.right) then f.(parent := node) else if n == Root(m.left) then f.(parent := l.node)
              else f)
    {
      hide Distinct, Nodes, Link, InOrder, SameNodes;
      LeftRightRotatedLinks(t, p);
      var left := node.left;
      var leftRight := left.right;
      var leftRightRight := leftRight.right;
      var leftRightLeft := leftRight.left;
      node.left := leftRightRight;
      left.right := leftRightLeft;
      if leftRightRight != null {
        leftRightRight.parent := node;
      }
      if leftRightLeft != null {
        leftRightLeft.parent := left;
      }
      node.balance := if leftRight.balance == 1 || leftRight.balance == 0 then 0 else 1;
      left.balance := if leftRight.balance == 1 then -1 else 0;
    }

    method PassDownRightLeft(node: Node<K, V>, ghost p: Node?<K, V>, ghost t: Shape<Node<K, V>>)
      requires t.Branch? && t.right.Branch? && t.right.left.Branch? && t.node == node && Distinct(t)
      requires forall n :: n in Nodes(t) ==> Is(n, Link(t, p, n))
      modifies Nodes(t)`parent, Nodes(t)`left, Nodes(t)`right, Nodes(t)`balance
      ensures forall n :: n in Nodes(t) ==> var r, m, f, u := t.right, t.right.left, Link(t, p, n), RotatedRightLeft(t);
        Is(n, if n == node then f.(right := Root(m.left), balance := u.left.bal)
              else if n == r.node then f.(left := Root(m.right), balance := u.right.bal)
              else if n == Root(m.left) then f.(parent := node) else if n == Root(m.right) then f.(parent := r.node)
              else f)
    {
      hide Distinct, Nodes, Link, InOrder, SameNodes;
      RightLeftRotatedLinks(t, p);
      var right := node.right;
      var rightLeft := right.left;
      var rightLeftLeft := rightLeft.left;
      var rightLeftRight := rightLeft.right;
      node.right := rightLeftLeft;
      right.left := rightLeftRight;
      if rightLeftLeft != null {
        rightLeftLeft.parent := node;
      }
      if rightLeftRight != null {
        rightLeftRight.parent := right;
      }
      node.balance := if rightLeft.balance == -1 || rightLeft.balance == 0 then 0 else -1;
      right.balance := if rightLeft.balance == -1 then 1 else 0;
    }

    method TurnLeftRight(node: Node<K, V>, ghost p: Node?<K, V>, ghost t: Shape<Node<K, V>>) returns (top: Node<K, V>)
      requires t.Branch? && t.left.Branch? && t.left.right.Branch? && t.node == node && Distinct(t)
      requires forall n :: n in Nodes(t) ==> Is(n, Link(t, p, n))
      modifies Nodes(t)`parent, Nodes(t)`left, Nodes(t)`right, Nodes(t)`balance
      ensures top == RotatedLeftRight(t).node
      ensures forall n :: n in Nodes(t) ==> Is(n, Link(RotatedLeftRight(t), p, n))
    {
      hide Distinct, Nodes, Link, InOrder, SameNodes;
      LeftRightRotatedLinks(t, p);
      var left := node.left;
      var leftRight := left.right;

      PassDownLeftRight(node, p, t);
      leftRight.parent := node.parent;
      leftRight.left := left;
      leftRight.right := node;
      left.parent := leftRight;
      node.parent := leftRight;
      leftRight.balance := 0;
      return leftRight;
    }

    method RotateLeftRight(node: Node<K, V>, ghost c: Ctx<Node<K, V>>, ghost t: Shape<Node<K, V>>)
        returns (top: Node<K, V>, ghost t': Shape<Node<K, V>>)
      requires t.Branch? && t.left.Branch? && t.left.right.Branch? && t.node == node && Holds(Plug(c, t))
      modifies this`root, Nodes(Plug(c, t))`parent, Nodes(Plug(c, t))`left
      modifies Nodes(Plug(c, t))`right, Nodes(Plug(c, t))`balance
      ensures t' == RotatedLeftRight(t) && top == t'.node && SameNodes(t, t') && Holds(Plug(c, t'))
    {
      hide Distinct, Nodes, Plug, Link, CtxNodes, InOrder;
      t' := RotatedLeftRight(t);
      AtHole(c, t);
      CtxAllocated(c);
      LeftRightRotatedLinks(t, CtxRoot(c));
      var parent := node.parent;
      top := TurnLeftRight(node, parent, t);
      ReplaceChild(parent, node, top, c, t, t');
    }

    method TurnRightLeft(node: Node<K, V>, ghost p: Node?<K, V>, ghost t: Shape<Node<K, V>>) returns (top: Node<K, V>)
      requires t.Branch? && t.right.Branch? && t.right.left.Branch? && t.node == node && Distinct(t)
      requires forall n :: n in Nodes(t) ==> Is(n, Link(t, p, n))
      modifies Nodes(t)`parent, Nodes(t)`left, Nodes(t)`right, Nodes(t)`balance
      ensures top == RotatedRightLeft(t).node
      ensures forall n :: n in Nodes(t) ==> Is(n, Link(RotatedRightLeft(t), p, n))
    {
      hide Distinct, Nodes, Link, InOrder, SameNodes;
      RightLeftRotatedLinks(t, p);
      var right := node.right;
      var rightLeft := right.left;

      PassDownRightLeft(node, p, t);
      rightLeft.parent := node.parent;
      rightLeft.right := right;
      rightLeft.left := node;
      right.parent := rightLeft;
      node.parent := rightLeft;
      rightLeft.balance := 0;
      return rightLeft;
    }

    method RotateRightLeft(node: Node<K, V>, ghost c: Ctx<Node<K, V>>, ghost t: Shape<Node<K, V>>)
        returns (top: Node<K, V>, ghost t': Shape<Node<K, V>>)
      requires t.Branch? && t.right.Branch? && t.right.left.Branch? && t.node == node && Holds(Plug(c, t))
      modifies this`root, Nodes(Plug(c, t))`parent, Nodes(Plug(c, t))`left
      modifies Nodes(Plug(c, t))`right, Nodes(Plug(c, t))`balance
      ensures t' == RotatedRightLeft(t) && top == t'.node && SameNodes(t, t') && Holds(Plug(c, t'))
    {
      hide Distinct, Nodes, Plug, Link, CtxNodes, InOrder;
      t' := RotatedRightLeft(t);
      AtHole(c, t);
      CtxAllocated(c);
      RightLeftRotatedLinks(t, CtxRoot(c));
      var parent := node.parent;
      top := TurnRightLeft(node, parent, t);
      ReplaceChild(parent, node, top, c, t, t');
    }

    /** Adds `d` to the balance factor of the root of a hole's subtree. */
    method AddBalance(node: Node<K, V>, d: int, ghost c: Ctx<Node<K, V>>, ghost t: Shape<Node<K, V>>) returns (b: int)
      requires Holds(Plug(c, t)) && t.Branch? && t.node == node
      modifies node`balance
      ensures b == t.bal + d && Holds(Plug(c, t.(bal := b)))
      ensures InOrder(Plug(c, t.(bal := b))) == InOrder(Plug(c, t)) && Nodes(Plug(c, t.(bal := b))) == Nodes(Plug(c, t))
      ensures node in Nodes(Plug(c, t))
    {
      hide Distinct, Nodes, Plug, Link, InOrder;
      Reweighed(c, t, t.bal + d);
      node.balance := node.balance + d;
      return node.balance;
    }

    /** Climbs from `start` after the subtree `t0` below it has grown by one. */
    method InsertBalance(start: Node<K, V>, delta: int, ghost c0: Ctx<Node<K, V>>, ghost t0: Shape<Node<K, V>>)
        returns (ghost s: Shape<Node<K, V>>)
      requires !c0.Top? && c0.node == start && delta == (if c0.InLeft? then -1 else 1)
      requires Holds(Plug(c0, t0)) && Avl(t0) && CtxAvl(c0, Height(t0) - 1) && Grown(t0)
      modifies this`root, Nodes(Plug(c0, t0))`parent, Nodes(Plug(c0, t0))`left
      modifies Nodes(Plug(c0, t0))`right, Nodes(Plug(c0, t0))`balance
      ensures Holds(s) && Avl(s) && InOrder(s) == InOrder(Plug(c0, t0)) && Nodes(s) == Nodes(Plug(c0, t0))
    {
      hide Distinct, Nodes, Plug, Link, CtxNodes, InOrder, Height, Avl, Climb;
      var node: Node?<K, V>, balance := start, delta;
      ghost var c, t := c0, t0;
      while node != null
        invariant node == CtxRoot(c)
        invariant Holds(Plug(c, t)) && Avl(t) && CtxAvl(c, Height(t) - 1) && Grown(t)
        invariant InOrder(Plug(c, t)) == InOrder(Plug(c0, t0)) && Nodes(Plug(c, t)) == Nodes(Plug(c0, t0))
        invariant !c.Top? ==> balance == (if c.InLeft? then -1 else 1)
        decreases c
      {
        ghost var up := c.up;
        ghost var u := Climb(c, t);
        ClimbPlug(c, t);
        AtHole(up, u);
        balance := AddBalance(node, balance, up, u);
        if c.InLeft? {
          InsertStepLeft(c, t);
        } else {
          InsertStepRight(c, t);
        }
        u := u.(bal := balance);
        AtHole(up, u);
        if balance == 0 {
          PlugAvl(up, u);
          return Plug(up, u);
        } else if balance == -2 {
          var top;
          ghost var v;
          if node.left.balance == -1 {
            top, v := RotateRight(node, up, u);
          } else {
            top, v := RotateLeftRight(node, up, u);
          }
          Settled(up, u, v);
          return Plug(up, v);
        } else if balance == 2 {
          var top;
          ghost var v;
          if node.right.balance == 1 {
            top, v := RotateLeft(node, up, u);
          } else {
            top, v := RotateRightLeft(node, up, u);
          }
          Settled(up, u, v);
          return Plug(up, v);
        }
        var parent := node.parent;
        if parent != null {
          balance := if parent.left == node then -1 else 1;
        }
        node := parent;
        c, t := up, u;
      }
      PlugAvl(c, t);
      return Plug(c, t);
    }

    /** The deletion loop at a node whose left side is two higher: `done` when the height is back. */
    method FixLeftHeavy(start: Node<K, V>, ghost c: Ctx<Node<K, V>>, ghost t: Shape<Node<K, V>>, ghost d: int,
                        ghost h: int)
        returns (node: Node<K, V>, done: bool, ghost t': Shape<Node<K, V>>)
      requires t.Branch? && Shrunk(t, d, h) && t.bal + d == -2 && CtxAvl(c, h)
      requires t.node == start && Holds(Plug(c, t.(bal := -2)))
      modifies this`root, Nodes(Plug(c, t.(bal := -2)))`parent, Nodes(Plug(c, t.(bal := -2)))`left
      modifies Nodes(Plug(c, t.(bal := -2)))`right, Nodes(Plug(c, t.(bal := -2)))`balance
      ensures t'.Branch? && t'.node == node && Holds(Plug(c, t')) && SameNodes(t.(bal := -2), t')
      ensures Avl(t') && Height(t') == if done then h else h - 1
    {
      hide Distinct, Nodes, Plug, Link, CtxNodes, InOrder, Height, Avl, Shrunk, CtxAvl;
      ghost var u := t.(bal := -2);
      AtHole(c, u);
      DeleteStep(t, d, h);
      DeleteStepLeft(t, d, h);
      if start.left.balance <= 0 {
        node, t' := RotateRight(start, c, u);
        Settled(c, u, t');
        done := node.balance == 1;
      } else {
        node, t' := RotateLeftRight(start, c, u);
        done := false;
      }
    }

    method FixRightHeavy(start: Node<K, V>, ghost c: Ctx<Node<K, V>>, ghost t: Shape<Node<K, V>>, ghost d: int,
                         ghost h: int)
        returns (node: Node<K, V>, done: bool, ghost t': Shape<Node<K, V>>)
      requires t.Branch? && Shrunk(t, d, h) && t.bal + d == 2 && CtxAvl(c, h)
      requires t.node == start && Holds(Plug(c, t.(bal := 2)))
      modifies this`root, Nodes(Plug(c, t.(bal := 2)))`parent, Nodes(Plug(c, t.(bal := 2)))`left
      modifies Nodes(Plug(c, t.(bal := 2)))`right, Nodes(Plug(c, t.(bal := 2)))`balance
      ensures t'.Branch? && t'.node == node && Holds(Plug(c, t')) && SameNodes(t.(bal := 2), t')
      ensures Avl(t') && Height(t') == if done then h else h - 1
    {
      hide Distinct, Nodes, Plug, Link, CtxNodes, InOrder, Height, Avl, Shrunk, CtxAvl;
      ghost var u := t.(bal := 2);
      AtHole(c, u);
      DeleteStep(t, d, h);
      DeleteStepRight(t, d, h);
      if start.right.balance >= 0 {
        node, t' := RotateLeft(start, c, u);
        Settled(c, u, t');
        done := node.balance == -1;
      } else {
        node, t' := RotateRightLeft(start, c, u);
        done := false;
      }
    }

    /** One round of the deletion loop at `start`. */
    method DeleteRound(start: Node<K, V>, d: int, ghost c: Ctx<Node<K, V>>, ghost t: Shape<Node<K, V>>, ghost h: int)
        returns (node: Node<K, V>, done: bool, ghost t': Shape<Node<K, V>>)
      requires t.Branch? && t.node == start && Holds(Plug(c, t)) && Shrunk(t, d, h) && CtxAvl(c, h)
      modifies this`root, Nodes(Plug(c, t))`parent, Nodes(Plug(c, t))`left
      modifies Nodes(Plug(c, t))`right, Nodes(Plug(c, t))`balance
      ensures t'.Branch? && t'.node == node && Holds(Plug(c, t'))
      ensures InOrder(Plug(c, t')) == InOrder(Plug(c, t)) && Nodes(Plug(c, t')) == Nodes(Plug(c, t))
      ensures Avl(t') && Height(t') == if done then h else h - 1
    {
      hide Distinct, Nodes, Plug, Link, CtxNodes, InOrder, Height, Avl, Shrunk, CtxAvl, SameNodes;
      AtHole(c, t);
      DeleteStep(t, d, h);
      var balance := AddBalance(start, d, c, t);
      ghost var u := t.(bal := balance);
      if balance == -2 {
        node, done, t' := FixLeftHeavy(start, c, t, d, h);
        Settled(c, u, t');
      } else if balance == 2 {
        node, done, t' := FixRightHeavy(start, c, t, d, h);
        Settled(c, u, t');
      } else {
        node, done, t' := start, balance != 0, u;
      }
    }

    /** Climbs from `start`, one side of which is lower than its balance factor says. */
    method DeleteBalance(start: Node<K, V>, delta: int, ghost c0: Ctx<Node<K, V>>, ghost t0: Shape<Node<K, V>>,
                         ghost h0: int)
        returns (ghost s: Shape<Node<K, V>>)
      requires t0.Branch? && t0.node == start && Holds(Plug(c0, t0)) && Shrunk(t0, delta, h0) && CtxAvl(c0, h0)
      modifies this`root, Nodes(Plug(c0, t0))`parent, Nodes(Plug(c0, t0))`left
      modifies Nodes(Plug(c0, t0))`right, Nodes(Plug(c0, t0))`balance
      ensures Holds(s) && Avl(s) && InOrder(s) == InOrder(Plug(c0, t0)) && Nodes(s) == Nodes(Plug(c0, t0))
    {
      hide Distinct, Nodes, Plug, Link, CtxNodes, InOrder, Height, Avl, Climb, Shrunk, CtxAvl;
      var node: Node?<K, V>, balance := start, delta;
      ghost var c, t, h := c0, t0, h0;
      while node != null
        invariant Holds(Plug(c, t))
        invariant InOrder(Plug(c, t)) == InOrder(Plug(c0, t0)) && Nodes(Plug(c, t)) == Nodes(Plug(c0, t0))
        invariant node != null ==> t.Branch? && t.node == node && Shrunk(t, balance, h) && CtxAvl(c, h)
        invariant node == null ==> Avl(Plug(c, t))
        decreases node != null, c
      {
        var done;
        node, done, t := DeleteRound(node, balance, c, t, h);
        if done {
          PlugAvl(c, t);
          return Plug(c, t);
        }
        AtHole(c, t);
        var parent := node.parent;
        if parent != null {
          balance := if parent.left == node then 1 else -1;
          ClimbPlug(c, t);
          if c.InLeft? {
            ShrunkAboveLeft(c, t);
          } else {
            ShrunkAboveRight(c, t);
          }
          h := 1 + Max(Height(t) + 1, Height(c.sibling));
          c, t := c.up, Climb(c, t);
        } else {
          TopAvl(c, t);
        }
        node := parent;
      }
      return Plug(c, t);
    }

    /** What a descent for `k` knows when it stands at the root of `t` in the hole of `c`. */
    ghost predicate Seeking(k: K, c: Ctx<Node<K, V>>, t: Shape<Node<K, V>>)
      reads this`shape, this`order, order
    {
      Plug(c, t) == shape && InOrder(shape) == order && |Before(c)| <= |order| && |After(c)| <= |order| &&
      (forall i :: 0 <= i < |Before(c)| ==> comp(order[i].key, k) < 0) &&
      (forall i :: |order| - |After(c)| <= i < |order| ==> comp(k, order[i].key) < 0)
    }

    lemma {:induction false} SeekLeft(k: K, c: Ctx<Node<K, V>>, t: Shape<Node<K, V>>)
      requires TotalOrder(comp) && Ascending(comp, order)
      requires Seeking(k, c, t) && t.Branch? && comp(k, t.node.key) < 0
      ensures Seeking(k, InLeft(t.node, t.bal, t.right, c), t.left)
    {
      hide TotalOrder, Ascending, Plug, InOrder, Before, After;
      Descent(c, t);
      BelowFrom(comp, order, |Before(c)| + |InOrder(t.left)|, k);
    }

    lemma {:induction false} SeekRight(k: K, c: Ctx<Node<K, V>>, t: Shape<Node<K, V>>)
      requires TotalOrder(comp) && Ascending(comp, order)
      requires Seeking(k, c, t) && t.Branch? && comp(k, t.node.key) > 0
      ensures Seeking(k, InRight(t.node, t.bal, t.left, c), t.right)
    {
      hide TotalOrder, Ascending, Plug, InOrder, Before, After;
      Sign(k, t.node.key);
      Descent(c, t);
      AboveUpTo(comp, order, |Before(c)| + |InOrder(t.left)|, k);
    }

    /** Standing at a node: its children, and where it is in the order. */
    lemma {:induction false} Here(c: Ctx<Node<K, V>>, t: Shape<Node<K, V>>)
      requires Holds(shape) && order == InOrder(shape) && Plug(c, t) == shape && t.Branch?
      ensures t.node in Nodes(shape)
      ensures t.node.left == Root(t.left) && t.node.right == Root(t.right) && t.node.parent == CtxRoot(c)
      ensures c.InLeft? ==> c.node in Nodes(shape) && c.node.left == t.node && c.node.right != t.node
      ensures c.InRight? ==> c.node in Nodes(shape) && c.node.right == t.node && c.node.left != t.node
      ensures order == Before(c) + InOrder(t.left) + [t.node] + InOrder(t.right) + After(c)
      ensures t.node in order
      ensures |Before(c)| + |InOrder(t.left)| < |order| && order[|Before(c)| + |InOrder(t.left)|] == t.node
      ensures |InOrder(t)| == |InOrder(t.left)| + 1 + |InOrder(t.right)|
      ensures t.left.Leaf? ==> InOrder(t.left) == []
      ensures t.right.Leaf? ==> InOrder(t.right) == []
    {
      hide Nodes, Distinct, Link, Plug, CtxNodes, InOrder, Before, After;
      AtHole(c, t);
      PlugInOrder(c, t);
      RootBetween(t);
      DropMiddle(Before(c), InOrder(t.left), t.node, InOrder(t.right), After(c));
      LeafOrder(t.left);
      LeafOrder(t.right);
    }

    lemma {:induction false} SeekRoot(k: K)
      requires Holds(shape) && order == InOrder(shape)
      ensures root == Root(shape) && Seeking(k, Top, shape)
    {
    }

    lemma {:induction false} SeekRootOrder()
      requires Holds(shape) && order == InOrder(shape)
      ensures root == Root(shape) && Plug(Top, shape) == shape && Before<Node<K, V>>(Top) == [] &&
        After<Node<K, V>>(Top) == []
      ensures shape.Leaf? <==> order == []
    {
    }

    /** A descent that falls off the tree has the whole order to its left and right. */
    lemma {:induction false} SeekEnd(k: K, c: Ctx<Node<K, V>>, t: Shape<Node<K, V>>)
      requires Seeking(k, c, t) && t.Leaf?
      ensures order == Before(c) + After(c)
      ensures forall i :: 0 <= i < |order| ==>
        (comp(order[i].key, k) < 0 && i < |Before(c)|) || (comp(k, order[i].key) < 0 && i >= |Before(c)|)
    {
      PlugInOrder(c, t);
    }

    /** Tree_SearchNode */
    method SearchNode(key: K) returns (node: Node?<K, V>)
      requires Valid()
      ensures Valid() && (node != null ==> node in order && comp(key, node.key) == 0)
      ensures node == null ==> forall i :: 0 <= i < |order| ==> comp(key, order[i].key) != 0
    {
      hide Nodes, Distinct, Link, CtxNodes, Avl, InOrder, Plug, Linked, Ascending, Holds, Before, After;
      node := root;
      ghost var c, t := Top, shape;
      SeekRoot(key);
      while node != null
        invariant Valid() && node == Root(t) && Seeking(key, c, t)
        decreases t
      {
        Here(c, t);
        if comp(key, node.key) < 0 {
          SeekLeft(key, c, t);
          node := node.left;
          c, t := InLeft(t.node, t.bal, t.right, c), t.left;
        } else if comp(key, node.key) > 0 {
          SeekRight(key, c, t);
          node := node.right;
          c, t := InRight(t.node, t.bal, t.left, c), t.right;
        } else {
          return;
        }
      }
      SeekEnd(key, c, t);
      assert forall i :: 0 <= i < |order| && comp(order[i].key, key) < 0 ==> comp(key, order[i].key) > 0;
    }

    /** Creates a leaf in the empty hole of `c`. */
    method AttachLeaf(parent: Node<K, V>, onLeft: bool, key: K, data: V, ghost c: Ctx<Node<K, V>>)
      returns (n: Node<K, V>)
      requires Holds(Plug(c, Leaf)) && !c.Top? && c.node == parent && onLeft == c.InLeft?
      modifies parent`left, parent`right
      ensures fresh(n) && n.key == key && n.data == data && n !in Nodes(Plug(c, Leaf))
      ensures Holds(Plug(c, Branch(Leaf, n, 0, Leaf)))
      ensures Nodes(Plug(c, Branch(Leaf, n, 0, Leaf))) == Nodes(Plug(c, Leaf)) + {n}
    {
      hide Plug, CtxNodes, InOrder;
      NodesAllocated(Plug(c, Leaf));
      PlugFacts(c, Leaf);
      n := new Node(key, data, parent);
      Swapped(c, Leaf, Branch(Leaf, n, 0, Leaf));
      Above(c, Leaf);
      if onLeft {
        parent.left := n;
      } else {
        parent.right := n;
      }
    }

    /** Puts a new node into the empty hole below `node` that a descent for `key` has ended at. */
    method InsertAt(node: Node<K, V>, onLeft: bool, key: K, data: V, ghost c: Ctx<Node<K, V>>)
        returns (created: Node<K, V>)
      requires Valid() && !c.Top? && c.node == node && onLeft == c.InLeft? && Seeking(key, c, Leaf)
      modifies this`root, this`size, this`shape, this`order
      modifies Nodes(shape)`parent, Nodes(shape)`left, Nodes(shape)`right, Nodes(shape)`balance
      ensures Valid() && fresh(created) && created.key == key && created.data == data
      ensures |Before(c)| <= |old(order)|
      ensures order == old(order)[..|Before(c)|] + [created] + old(order)[|Before(c)|..]
    {
      hide Nodes, Distinct, Link, CtxNodes, Avl, InOrder, Plug, Linked, Before, After, CtxAvl, Ascending, TotalOrder,
        Holds;
      SeekEnd(key, c, Leaf);
      OrderAllocated(shape);
      assert order[..|Before(c)|] == Before(c) && order[|Before(c)|..] == After(c);
      ghost var s;
      created, s := Graft(node, onLeft, key, data, c);
      NodesAllocated(s);
      shape := s;
      AscendingInsert(comp, order, |Before(c)|, created);
      order := InOrder(shape);
      size := size + 1;
    }

    /** Attaches the new leaf and rebalances. */
    method Graft(node: Node<K, V>, onLeft: bool, key: K, data: V, ghost c: Ctx<Node<K, V>>)
        returns (created: Node<K, V>, ghost s: Shape<Node<K, V>>)
      requires Holds(Plug(c, Leaf)) && Avl(Plug(c, Leaf)) && !c.Top? && c.node == node && onLeft == c.InLeft?
      modifies this`root, Nodes(Plug(c, Leaf))`parent, Nodes(Plug(c, Leaf))`left
      modifies Nodes(Plug(c, Leaf))`right, Nodes(Plug(c, Leaf))`balance
      ensures fresh(created) && created.key == key && created.data == data
      ensures Holds(s) && Avl(s) && InOrder(s) == Before(c) + [created] + After(c)
    {
      hide Nodes, Distinct, Link, CtxNodes, Avl, InOrder, Plug, Linked, Before, After, CtxAvl;
      PlugAvl(c, Leaf);
      Above(c, Leaf);
      created := AttachLeaf(node, onLeft, key, data, c);
      ghost var u := Branch(Leaf, created, 0, Leaf);
      NewLeaf(u);
      PlugInOrder(c, u);
      s := InsertBalance(node, if onLeft then -1 else 1, c, u);
    }

    /** Replaces the entry at place `pos` by one whose key compares equal. */
    method Overwrite(node: Node<K, V>, key: K, data: V, ghost pos: nat)
      requires Valid() && pos < |order| && order[pos] == node && comp(key, node.key) == 0
      modifies node`key, node`data
      ensures Valid() && order == old(order) && node.key == key && node.data == data
      ensures forall i :: 0 <= i < |order| && i != pos ==> order[i] != node
    {
      hide Nodes, Distinct, Link, Avl, InOrder;
      NoneTwice();
      OrderAllocated(shape);
      BelowFrom(comp, order, pos, key);
      AboveUpTo(comp, order, pos, key);
      node.key := key;
      node.data := data;
    }

    lemma {:induction false} NoneTwice()
      requires Holds(shape) && order == InOrder(shape)
      ensures NoRepeats(order)
    {
      DistinctNoRepeats(shape);
    }

    lemma {:induction false} OnlyAt(n: Node<K, V>, pos: nat)
      requires Valid() && pos < |order| && order[pos] == n
      ensures forall i :: 0 <= i < |order| && order[i] == n ==> i == pos
    {
      hide Nodes, InOrder, Distinct, Linked, Avl, Ascending;
      NoneTwice();
    }

    /** The first entry of an empty tree. */
    method InsertRoot(key: K, data: V) returns (created: Node<K, V>)
      requires Valid() && root == null
      modifies this`root, this`size, this`shape, this`order
      ensures Valid() && fresh(created) && created.key == key && created.data == data
      ensures old(order) == [] && order == [created]
    {
      hide Nodes, Distinct, Link, Avl, InOrder, Linked;
      RootlessLeaf(shape);
      root := new Node(key, data, null);
      created := root;
      SingleNode(root);
      shape := Branch(Leaf, root, 0, Leaf);
      order := [root];
      size := size + 1;
    }

    /** The descent of Tree_Insert: ends at the node with an equal key (`dir` 0) or at the node whose
        left (-1) or right (1) hole the key belongs into. */
    method Locate(key: K) returns (node: Node<K, V>, dir: int, ghost c: Ctx<Node<K, V>>, ghost t: Shape<Node<K, V>>)
      requires Valid() && root != null
      ensures Valid() && Seeking(key, c, t) && -1 <= dir <= 1
      ensures dir == 0 ==> t.Branch? && t.node == node && comp(key, node.key) == 0
      ensures dir != 0 ==> t.Leaf? && !c.Top? && c.node == node && (dir == -1 <==> c.InLeft?)
    {
      hide Nodes, Distinct, Link, CtxNodes, Avl, InOrder, Plug, Linked, Ascending, Holds, Before, After;
      node := root;
      c, t := Top, shape;
      SeekRoot(key);
      while true
        invariant Valid() && node == Root(t) && Seeking(key, c, t)
        decreases t
      {
        Here(c, t);
        if comp(key, node.key) < 0 {
          SeekLeft(key, c, t);
          var left := node.left;
          c, t := InLeft(t.node, t.bal, t.right, c), t.left;
          if left == null {
            return node, -1, c, t;
          }
          node := left;
        } else if comp(key, node.key) > 0 {
          SeekRight(key, c, t);
          var right := node.right;
          c, t := InRight(t.node, t.bal, t.left, c), t.right;
          if right == null {
            return node, 1, c, t;
          }
          node := right;
        } else {
          return node, 0, c, t;
        }
      }
    }

    /** Tree_Insert.  An equal key is found (`existing`), or overwritten when `del` is set; otherwise
        a node is `created` at place `pos` of the order. */
    method Insert(key: K, data: V, del: bool) returns (existing: Node?<K, V>, created: Node?<K, V>, ghost pos: nat)
      requires Valid()
      modifies this`root, this`size, this`shape, this`order, Nodes(shape)
      ensures Valid()
      ensures created == null ==>
        && order == old(order) && pos < |order| && comp(key, old(order[pos].key)) == 0
        && existing == (if del then null else order[pos])
        && order[pos].key == (if del then key else old(order[pos].key))
        && order[pos].data == (if del then data else old(order[pos].data))
      ensures created != null ==>
        && existing == null && fresh(created) && created.key == key && created.data == data
        && pos <= |old(order)| && order == old(order)[..pos] + [created] + old(order)[pos..]
      ensures forall i :: 0 <= i < |old(order)| && (created != null || i != pos) ==>
        old(order)[i].key == old(order[i].key) && old(order)[i].data == old(order[i].data)
      ensures forall n :: n in Nodes(shape) ==> n in old(Nodes(shape)) || fresh(n)
    {
      hide Nodes, Distinct, Link, Linked, Avl, InOrder, Plug, Ascending, TotalOrder;
      existing, created := null, null;
      OrderAllocated(shape);
      if root == null {
        created := InsertRoot(key, data);
        InOrderNodes(shape);
        return existing, created, 0;
      }
      var node, dir;
      ghost var c, t;
      node, dir, c, t := Locate(key);
      if dir == 0 {
        Here(c, t);
        pos := |Before(c)| + |InOrder(t.left)|;
        if del {
          Overwrite(node, key, data, pos);
        } else {
          existing := node;
        }
      } else {
        pos := |Before(c)|;
        created := InsertAt(node, dir == -1, key, data, c);
      }
      InOrderNodes(shape);
    }

    /** Tree_Replace: `source`, the root of the only child `y`, takes the place of `target`. */
    method Replace(target: Node<K, V>, source: Node<K, V>,
                   ghost c: Ctx<Node<K, V>>, ghost t: Shape<Node<K, V>>, ghost y: Shape<Node<K, V>>)
      requires t.Branch? && t.node == target && y.Branch? && y.node == source && Holds(Plug(c, t))
      requires (t.left.Leaf? && y == t.right) || (t.right.Leaf? && y == t.left)
      modifies this`root, Nodes(Plug(c, t))`left, Nodes(Plug(c, t))`right, source`parent
      ensures Holds(Plug(c, y))
    {
      hide Nodes, Distinct, Link, Plug, InOrder, CtxNodes;
      AtHole(c, t);
      OnlyChildLinks(t, y, CtxRoot(c));
      Swapped(c, t, y);
      var parent := target.parent;
      if parent != null {
        if parent.left == target {
          parent.left := source;
        } else if parent.right == target {
          parent.right := source;
        }
        source.parent := parent;
      } else {
        root := source;
        source.parent := null;
      }
    }

    /** The successor standing right below takes the place of the node to delete. */
    method TakePlaceNear(node: Node<K, V>, successor: Node<K, V>, ghost c: Ctx<Node<K, V>>, ghost t: Shape<Node<K, V>>)
      requires t.Branch? && t.left.Branch? && t.right.Branch? && t.right.left.Leaf?
      requires t.node == node && t.right.node == successor && Holds(Plug(c, t))
      modifies this`root, Nodes(Plug(c, t))`parent, Nodes(Plug(c, t))`left
      modifies Nodes(Plug(c, t))`right, Nodes(Plug(c, t))`balance
      ensures Holds(Plug(c, Branch(t.left, successor, t.bal, t.right.right)))
    {
      hide Nodes, Distinct, Link, Plug, InOrder, CtxNodes;
      ghost var t' := Branch(t.left, successor, t.bal, t.right.right);
      AtHole(c, t);
      NearLinks(t, CtxRoot(c));
      var left := node.left;
      var parent := node.parent;
      successor.parent := parent;
      successor.left := left;
      successor.balance := node.balance;
      if left != null {
        left.parent := successor;
      }
      ReplaceChild(parent, node, successor, c, t, t');
    }

    /** The successor, already unlinked further down, takes the place of the node to delete. */
    method TakePlaceFar(node: Node<K, V>, successor: Node<K, V>, ghost c: Ctx<Node<K, V>>, ghost t: Shape<Node<K, V>>)
      requires t.Branch? && t.left.Branch? && t.right.Branch? && t.node == node && Holds(Plug(c, t))
      requires successor !in Nodes(Plug(c, t))
      modifies this`root, Nodes(Plug(c, t))`parent, Nodes(Plug(c, t))`left
      modifies Nodes(Plug(c, t))`right, Nodes(Plug(c, t))`balance
      modifies successor`parent, successor`left, successor`right, successor`balance
      ensures Holds(Plug(c, t.(node := successor)))
    {
      hide Nodes, Distinct, Link, Plug, InOrder, CtxNodes;
      ghost var t' := t.(node := successor);
      AtHole(c, t);
      FarLinks(t, successor, CtxRoot(c));
      var left := node.left;
      var right := node.right;
      var parent := node.parent;
      successor.parent := parent;
      successor.left := left;
      successor.balance := node.balance;
      successor.right := right;
      right.parent := successor;
      if left != null {
        left.parent := successor;
      }
      ReplaceChild(parent, node, successor, c, t, t');
    }

    /** The root of `t` is out of the tree and everything else in place. */
    ghost predicate TakenOut(c: Ctx<Node<K, V>>, t: Shape<Node<K, V>>, s: Shape<Node<K, V>>)
      requires t.Branch?
      reads this`root, Nodes(s)
    {
      Holds(s) && Avl(s) && Nodes(s) <= Nodes(Plug(c, t)) &&
      InOrder(s) == Before(c) + InOrder(t.left) + InOrder(t.right) + After(c)
    }

    static lemma NodeAlone(t: Shape<Node<K, V>>)
      requires t.Branch? && t.left.Leaf? && t.right.Leaf?
      ensures var gap := Shape<Node<K, V>>.Leaf;
        InOrder(gap) == InOrder(t.left) == InOrder(t.right) == [] && Avl(gap) && Height(t) == Height(gap) + 1
        && Nodes(gap) == {}
    {
    }

    method DeleteLeaf(node: Node<K, V>, ghost c: Ctx<Node<K, V>>, ghost t: Shape<Node<K, V>>)
      returns (ghost s: Shape<Node<K, V>>)
      requires t.Branch? && t.node == node && t.left.Leaf? && t.right.Leaf? && Holds(Plug(c, t)) && Avl(Plug(c, t))
      modifies this`root, Nodes(Plug(c, t))`parent, Nodes(Plug(c, t))`left
      modifies Nodes(Plug(c, t))`right, Nodes(Plug(c, t))`balance
      ensures TakenOut(c, t, s)
    {
      hide Nodes, Distinct, Link, Plug, CtxNodes, CtxDistinct, CtxAvl, InOrder, Before, After, Avl, Height;
      ghost var gap := Shape<Node<K, V>>.Leaf;
      AtHole(c, t);
      NodeAlone(t);
      Swapped(c, t, gap);
      PlugFacts(c, t);
      PlugFacts(c, gap);
      if node == root {
        root := null;
        s := Plug(c, gap);
      } else {
        var parent := node.parent;
        ghost var h := 1 + Max(Height(gap) + 1, Height(c.sibling));
        ClimbPlug(c, gap);
        if parent.left == node {
          parent.left := null;
          ShrunkAboveLeft(c, gap);
          s := DeleteBalance(parent, 1, c.up, Climb(c, gap), h);
        } else {
          parent.right := null;
          ShrunkAboveRight(c, gap);
          s := DeleteBalance(parent, -1, c.up, Climb(c, gap), h);
        }
      }
    }

    method DeleteAboveOne(node: Node<K, V>, child: Node<K, V>, ghost c: Ctx<Node<K, V>>, ghost t: Shape<Node<K, V>>,
                          ghost y: Shape<Node<K, V>>)
        returns (ghost s: Shape<Node<K, V>>)
      requires t.Branch? && t.node == node && y.Branch? && y.node == child && Holds(Plug(c, t)) && Avl(Plug(c, t))
      requires (t.left.Leaf? && y == t.right) || (t.right.Leaf? && y == t.left)
      modifies this`root, Nodes(Plug(c, t))`parent, Nodes(Plug(c, t))`left
      modifies Nodes(Plug(c, t))`right, Nodes(Plug(c, t))`balance
      ensures TakenOut(c, t, s)
    {
      hide Nodes, Distinct, Link, Plug, CtxNodes, CtxDistinct, CtxAvl, InOrder, Before, After, Avl, Height, Linked;
      PlugFacts(c, t);
      OnlyChildLinks(t, y, CtxRoot(c));
      PlugFacts(c, y);
      Replace(node, child, c, t, y);
      OnlyChildShrunk(t, y);
      s := DeleteBalance(child, 0, c, y, Height(t));
    }

    method DeleteNear(node: Node<K, V>, successor: Node<K, V>, ghost c: Ctx<Node<K, V>>, ghost t: Shape<Node<K, V>>)
        returns (ghost s: Shape<Node<K, V>>)
      requires t.Branch? && t.left.Branch? && t.right.Branch? && t.right.left.Leaf?
      requires t.node == node && t.right.node == successor && Holds(Plug(c, t)) && Avl(Plug(c, t))
      modifies this`root, Nodes(Plug(c, t))`parent, Nodes(Plug(c, t))`left
      modifies Nodes(Plug(c, t))`right, Nodes(Plug(c, t))`balance
      ensures TakenOut(c, t, s)
    {
      hide Nodes, Distinct, Link, Plug, CtxNodes, CtxDistinct, CtxAvl, InOrder, Before, After, Avl, Height, Linked;
      ghost var t' := Branch(t.left, successor, t.bal, t.right.right);
      AtHole(c, t);
      NearLinks(t, CtxRoot(c));
      PlugFacts(c, t);
      PlugFacts(c, t');
      TakePlaceNear(node, successor, c, t);
      NearShrunk(t);
      s := DeleteBalance(successor, -1, c, t', Height(t));
    }

    /** Takes the leftmost node of a subtree out of its place below `successorParent`. */
    method UnlinkSuccessor(successor: Node<K, V>, ghost c: Ctx<Node<K, V>>, ghost t: Shape<Node<K, V>>)
      requires t.Branch? && t.left.Leaf? && t.node == successor && !c.Top? && Holds(Plug(c, t))
      modifies this`root, Nodes(Plug(c, t))`parent, Nodes(Plug(c, t))`left, Nodes(Plug(c, t))`right
      ensures Holds(Plug(c, t.right))
    {
      hide Nodes, Distinct, Link, Plug, CtxNodes, InOrder;
      AtHole(c, t);
      UnlinkedNodes(t);
      Swapped(c, t, t.right);
      if t.right.Branch? {
        OnlyChildLinks(t, t.right, CtxRoot(c));
      }
      var successorParent := successor.parent;
      var successorRight := successor.right;
      if successorParent.left == successor {
        successorParent.left := successorRight;
      } else {
        successorParent.right := successorRight;
      }
      if successorRight != null {
        successorRight.parent := successorParent;
      }
    }

    method DeleteFar(node: Node<K, V>, successor: Node<K, V>, ghost c: Ctx<Node<K, V>>, ghost t: Shape<Node<K, V>>,
                     ghost rc: Ctx<Node<K, V>>, ghost u: Shape<Node<K, V>>)
        returns (ghost s: Shape<Node<K, V>>)
      requires t.Branch? && t.left.Branch? && t.node == node && Holds(Plug(c, t)) && Avl(Plug(c, t))
      requires u.Branch? && u.node == successor && u.left.Leaf? && rc.InLeft? && AllLeft(rc) && t.right == Plug(rc, u)
      modifies this`root, Nodes(Plug(c, t))`parent, Nodes(Plug(c, t))`left
      modifies Nodes(Plug(c, t))`right, Nodes(Plug(c, t))`balance
      ensures TakenOut(c, t, s)
    {
      hide Nodes, Distinct, Link, Plug, CtxNodes, CtxDistinct, CtxAvl, InOrder, Before, After, Avl, Height, Compose;
      ghost var c1 := Compose(rc, InRight(node, t.bal, t.left, c));
      ghost var c2 := Compose(rc, InRight(successor, t.bal, t.left, c));
      ghost var t2 := t.(right := Plug(rc, u.right));
      Hoisted(c, t, rc, u);
      ghost var h := 1 + Max(Height(u.right) + 1, Height(c2.sibling));
      AtHole(c1, u);
      var successorParent := successor.parent;
      UnlinkSuccessor(successor, c1, u);
      TakePlaceFar(node, successor, c, t2);
      ClimbPlug(c2, u.right);
      ShrunkAboveLeft(c2, u.right);
      s := DeleteBalance(successorParent, 1, c2.up, Climb(c2, u.right), h);
    }

    /** The node that follows `node` in its right subtree: as far left as possible. */
    method LeftmostBelow(right: Node<K, V>, ghost c: Ctx<Node<K, V>>, ghost t: Shape<Node<K, V>>)
        returns (successor: Node<K, V>, ghost rc: Ctx<Node<K, V>>, ghost u: Shape<Node<K, V>>)
      requires Valid() && Plug(c, t) == shape && t.Branch? && t.right.Branch? && t.right.node == right
      ensures Valid() && u.Branch? && u.node == successor && u.left.Leaf? && AllLeft(rc) && t.right == Plug(rc, u)
      ensures (successor == right <==> rc.Top?) && (rc.Top? ==> u == t.right)
      ensures InOrder(t.right) != [] && successor == InOrder(t.right)[0]
    {
      hide Nodes, Distinct, Link, Plug, CtxNodes, InOrder, Before, After, Avl, Height, Linked, Compose, Ascending,
        TotalOrder;
      successor := right;
      rc, u := Top, t.right;
      ghost var outer := InRight(t.node, t.bal, t.left, c);
      ClimbPlug(outer, t.right);
      TopPlug(t.right);
      while true
        invariant Valid() && u.Branch? && u.node == successor && AllLeft(rc) && t.right == Plug(rc, u)
        decreases u
      {
        ComposePlug(rc, outer, u);
        Here(Compose(rc, outer), u);
        if successor.left == null {
          RightDistinct(c, t);
          AtHole(rc, u);
          TopIs(rc, u);
          LeftmostFirst(rc, u);
          return;
        }
        successor := successor.left;
        rc, u := InLeft(u.node, u.bal, u.right, rc), u.left;
        ClimbPlug(rc, u);
      }
    }

    /** Tree_DeleteNode: relinks nodes and never moves a key or a datum from one node to another. */
    method DeleteNode(node: Node<K, V>) returns (ghost pos: nat)
      requires Valid() && node in order
      modifies this`root, this`size, this`shape, this`order
      modifies Nodes(shape)`parent, Nodes(shape)`left, Nodes(shape)`right, Nodes(shape)`balance
      ensures Valid() && pos < |old(order)| && old(order)[pos] == node
      ensures order == old(order)[..pos] + old(order)[pos + 1..] && Nodes(shape) <= old(Nodes(shape))
    {
      hide Nodes, Distinct, Link, Plug, CtxNodes, InOrder, Before, After, Avl, Height, Linked, Holds, TotalOrder,
        Ascending;
      OrderAllocated(shape);
      ghost var c, t := Focus(shape, node);
      Here(c, t);
      pos := |Before(c)| + |InOrder(t.left)|;
      DropMiddle(Before(c), InOrder(t.left), node, InOrder(t.right), After(c));
      var left := node.left;
      var right := node.right;
      ghost var s;
      if left == null {
        if right == null {
          s := DeleteLeaf(node, c, t);
        } else {
          s := DeleteAboveOne(node, right, c, t, t.right);
        }
      } else if right == null {
        s := DeleteAboveOne(node, left, c, t, t.left);
      } else {
        ghost var rc, u;
        var successor;
        successor, rc, u := LeftmostBelow(right, c, t);
        if successor == right {
          s := DeleteNear(node, successor, c, t);
        } else {
          s := DeleteFar(node, successor, c, t, rc, u);
        }
      }
      AscendingRemove(comp, order, pos);
      shape := s;
      order := InOrder(s);
      size := size - 1;
    }

    // ---------- iteration ----------

    method FirstNode() returns (node: Node?<K, V>)
      requires Valid()
      ensures Valid() && node == if order == [] then null else order[0]
    {
      hide Nodes, Distinct, Link, Plug, CtxNodes, InOrder, Before, After, Avl, Linked, TotalOrder, Ascending;
      node := root;
      ghost var c, t := Top, shape;
      SeekRootOrder();
      while node != null && node.left != null
        invariant Valid() && Plug(c, t) == shape && node == Root(t) && Before(c) == [] &&
          (node == null <==> order == [])
        decreases t
      {
        Here(c, t);
        GoLeft(c, t);
        node := node.left;
        c, t := InLeft(t.node, t.bal, t.right, c), t.left;
      }
      if node != null {
        Here(c, t);
      }
    }

    method LastNode() returns (node: Node?<K, V>)
      requires Valid()
      ensures Valid() && node == if order == [] then null else order[|order| - 1]
    {
      hide Nodes, Distinct, Link, Plug, CtxNodes, InOrder, Before, After, Avl, Linked, TotalOrder, Ascending;
      node := root;
      ghost var c, t := Top, shape;
      SeekRootOrder();
      while node != null && node.right != null
        invariant Valid() && Plug(c, t) == shape && node == Root(t) && After(c) == [] && (node == null <==> order == [])
        decreases t
      {
        Here(c, t);
        GoRight(c, t);
        node := node.right;
        c, t := InRight(t.node, t.bal, t.left, c), t.right;
      }
      if node != null {
        Here(c, t);
      }
    }

    /** Tree_NextNode: right and then left all the way, or up until coming from the left. */
    method NextNode(start: Node<K, V>) returns (n: Node?<K, V>, ghost pos: nat)
      requires Valid() && start in order
      ensures Valid() && pos < |order| && order[pos] == start
      ensures n == if pos + 1 < |order| then order[pos + 1] else null
      ensures forall i :: 0 <= i < |order| && order[i] == start ==> n == if i + 1 < |order| then order[i + 1] else null
    {
      hide Nodes, Distinct, Link, Plug, CtxNodes, InOrder, Before, After, Avl, Linked, TotalOrder, Ascending;
      OrderAllocated(shape);
      ghost var c, t := Focus(shape, start);
      Here(c, t);
      pos := |Before(c)| + |InOrder(t.left)|;
      OnlyAt(start, pos);
      if start.right != null {
        GoRight(c, t);
        n := start.right;
        c, t := InRight(t.node, t.bal, t.left, c), t.right;
        Here(c, t);
        while n.left != null
          invariant Valid() && Plug(c, t) == shape && n != null && n == Root(t) && |Before(c)| == pos + 1
          decreases t
        {
          Here(c, t);
          GoLeft(c, t);
          n := n.left;
          c, t := InLeft(t.node, t.bal, t.right, c), t.left;
        }
        Here(c, t);
      } else {
        var nTemp := start;
        n := start.parent;
        while n != null && n.right == nTemp
          invariant Valid() && Plug(c, t) == shape && t.Branch? && t.node == nTemp && n == CtxRoot(c)
          invariant |Before(c)| + |InOrder(t)| == pos + 1
          decreases c
        {
          Here(c, t);
          ClimbPlug(c, t);
          GoUp(c, t);
          nTemp := n;
          c, t := c.up, Climb(c, t);
          Here(c, t);
          n := n.parent;
        }
        Here(c, t);
        GoUp(c, t);
        if !c.Top? {
          ClimbPlug(c, t);
          Here(c.up, Climb(c, t));
        }
      }
    }

    /** Tree_PrevNode: left and then right all the way, or up until coming from the right. */
    method PrevNode(start: Node<K, V>) returns (n: Node?<K, V>, ghost pos: nat)
      requires Valid() && start in order
      ensures Valid() && pos < |order| && order[pos] == start
      ensures n == if pos > 0 then order[pos - 1] else null
      ensures forall i :: 0 <= i < |order| && order[i] == start ==> n == if i > 0 then order[i - 1] else null
    {
      hide Nodes, Distinct, Link, Plug, CtxNodes, InOrder, Before, After, Avl, Linked, TotalOrder, Ascending;
      OrderAllocated(shape);
      ghost var c, t := Focus(shape, start);
      Here(c, t);
      pos := |Before(c)| + |InOrder(t.left)|;
      OnlyAt(start, pos);
      if start.left != null {
        GoLeft(c, t);
        n := start.left;
        c, t := InLeft(t.node, t.bal, t.right, c), t.left;
        Here(c, t);
        while n.right != null
          invariant Valid() && Plug(c, t) == shape && n != null && n == Root(t) && |Before(c)| + |InOrder(t)| == pos
          decreases t
        {
          Here(c, t);
          GoRight(c, t);
          n := n.right;
          c, t := InRight(t.node, t.bal, t.left, c), t.right;
        }
        Here(c, t);
      } else {
        var nTemp := start;
        n := start.parent;
        while n != null && n.left == nTemp
          invariant Valid() && Plug(c, t) == shape && t.Branch? && t.node == nTemp && n == CtxRoot(c)
          invariant |Before(c)| == pos
          decreases c
        {
          Here(c, t);
          ClimbPlug(c, t);
          GoUp(c, t);
          nTemp := n;
          c, t := c.up, Climb(c, t);
          Here(c, t);
          n := n.parent;
        }
        Here(c, t);
        GoUp(c, t);
        if !c.Top? {
          ClimbPlug(c, t);
          Here(c.up, Climb(c, t));
        }
      }
    }

    /** ytree_next: from nowhere, the first node. */
    method Next(n: Node?<K, V>) returns (next: Node?<K, V>, ghost pos: int)
      requires Valid() && (n != null ==> n in order)
      ensures Valid() && -1 <= pos < |order| && (n == null <==> pos == -1) && (n != null ==> order[pos] == n)
      ensures next == if pos + 1 < |order| then order[pos + 1] else null
      ensures n == null ==> next == if order == [] then null else order[0]
      ensures n != null ==> forall i :: 0 <= i < |order| && order[i] == n ==>
        next == if i + 1 < |order| then order[i + 1] else null
    {
      if n == null {
        next := FirstNode();
        pos := -1;
      } else {
        next, pos := NextNode(n);
      }
    }

    /** ytree_remove: takes the node out and returns the one before it. */
    method Remove(n: Node<K, V>) returns (prev: Node?<K, V>, data: V, ghost pos: nat)
      requires Valid() && n in order
      modifies this`root, this`size, this`shape, this`order
      modifies Nodes(shape)`parent, Nodes(shape)`left, Nodes(shape)`right, Nodes(shape)`balance
      ensures Valid() && data == n.data && pos < |old(order)| && old(order)[pos] == n
      ensures order == old(order)[..pos] + old(order)[pos + 1..] && Nodes(shape) <= old(Nodes(shape))
      ensures prev == if pos > 0 then old(order)[pos - 1] else null
    {
      hide Nodes, Distinct, Link, InOrder, Avl, Linked, TotalOrder, Ascending;
      data := n.data;
      ghost var at;
      prev, at := PrevNode(n);
      NoneTwice();
      pos := DeleteNode(n);
    }

    /** One turn of an iteration that drops the visited entry or keeps it: the next entry visited is
        the one that followed it. */
    method Advance(iter: Node<K, V>, drop: bool, ghost kept: seq<Node<K, V>>, ghost rest: seq<Node<K, V>>)
        returns (next: Node?<K, V>)
      requires Valid() && order == kept + [iter] + rest
      modifies this`root, this`size, this`shape, this`order
      modifies Nodes(shape)`parent, Nodes(shape)`left, Nodes(shape)`right, Nodes(shape)`balance
      ensures Valid() && Nodes(shape) <= old(Nodes(shape))
      ensures order == (if drop then kept else kept + [iter]) + rest
      ensures next == if rest == [] then null else rest[0]
    {
      hide Nodes, Distinct, Link, InOrder, Avl, Linked, TotalOrder, Ascending;
      assert order[|kept|] == iter;
      NoneTwice();
      ghost var pos;
      var prev: Node?<K, V> := iter;
      if drop {
        var data;
        prev, data, pos := Remove(iter);
        assert pos == |kept|;
        assert order == kept + rest;
        NoneTwice();
      }
      next, pos := Next(prev);
    }

    /** Deletion during iteration: "iter = ytree_remove(iter); iter = ytree_next(iter)".  Every entry
        present at the start is visited exactly once, in key order, whichever of them are dropped. */
    method Sweep(drop: nat -> bool) returns (visited: seq<Node<K, V>>)
      requires Valid()
      modifies this`root, this`size, this`shape, this`order
      modifies Nodes(shape)`parent, Nodes(shape)`left, Nodes(shape)`right, Nodes(shape)`balance
      ensures Valid() && visited == old(order) && order == Kept(old(order), drop, 0)
    {
      hide Nodes, Distinct, Link, InOrder, Avl, Linked, TotalOrder, Ascending, Holds, Kept, Valid;
      visited := [];

      var iter := FirstNode();
      ghost var kept: seq<Node<K, V>>, rest: seq<Node<K, V>> := [], order;
      while iter != null
        invariant Valid() && Nodes(shape) <= old(Nodes(shape))
        invariant visited + rest == old(order) && order == kept + rest
        invariant kept + Kept(rest, drop, |visited|) == Kept(old(order), drop, 0)
        invariant iter == if rest == [] then null else rest[0]
        decreases |rest|
      {
        ghost var it: Node<K, V>, after := iter, rest[1..];
        Shift(visited, it, rest);
        Shift(kept, it, rest);
        KeptStep(kept, it, after, drop, |visited|);
        var dropped := drop(|visited|);
        visited := visited + [iter];
        iter := Advance(iter, dropped, kept, after);
        kept, rest := if dropped then kept else kept + [it], after;
      }
      KeptNone<Node<K, V>>(drop, |visited|);
    }

    // ---------- searching around a key ----------

    /** The node at `p` has key `k`, or no key lies between `k` and it. */
    ghost predicate Nearest(k: K, p: nat)
      requires p < |order|
      reads this`order, order
    {
      comp(order[p].key, k) == 0 ||
      (comp(order[p].key, k) < 0 && (p + 1 < |order| ==> comp(order[p + 1].key, k) > 0)) ||
      (comp(order[p].key, k) > 0 && (p > 0 ==> comp(order[p - 1].key, k) < 0))
    }

    /** Where a descent falls off the tree, the node above the hole is a neighbour of the key. */
    lemma {:induction false} HoleNeighbour(k: K, c: Ctx<Node<K, V>>, t: Shape<Node<K, V>>) returns (p: nat)
      requires Seeking(k, c, t) && t.Leaf? && !c.Top? && TotalOrder(comp)
      ensures p < |order| && order[p] == c.node && Nearest(k, p)
    {
      SeekEnd(k, c, t);
      if c.InLeft? {
        p := |Before(c)|;
        assert After(c)[0] == c.node;
      } else {
        p := |Before(c)| - 1;
        assert Before(c)[p] == c.node;
      }
    }

    /** ytree_find_nearest, and the descent of ytree_find_nearby: the last node looked at. */
    method FindNearest(key: K) returns (nearest: Node?<K, V>, ghost p: nat)
      requires Valid()
      ensures Valid() && (nearest == null <==> order == [])
      ensures nearest != null ==> p < |order| && order[p] == nearest && Nearest(key, p)
    {
      hide Nodes, Distinct, Link, CtxNodes, Avl, InOrder, Plug, Linked, Ascending, Holds, Before, After, Seeking,
        TotalOrder;
      var node := root;
      nearest := node;
      ghost var c, t := Top, shape;
      SeekRoot(key);
      SeekRootOrder();
      p := 0;
      while node != null
        invariant Valid() && node == Root(t) && Seeking(key, c, t)
        invariant nearest == null <==> order == []
        invariant if c.Top? then nearest == node else nearest == c.node
        decreases t
      {
        SeekHere(key, c, t);
        if comp(key, node.key) < 0 {
          SeekLeft(key, c, t);
          nearest := node;
          node := node.left;
          c, t := InLeft(t.node, t.bal, t.right, c), t.left;
        } else if comp(key, node.key) > 0 {
          SeekRight(key, c, t);
          nearest := node;
          node := node.right;
          c, t := InRight(t.node, t.bal, t.left, c), t.right;
        } else {
          SignFlip(comp, key, node.key);
          return node, |Before(c)| + |InOrder(t.left)|;
        }
      }
      if nearest != null {
        p := HoleNeighbour(key, c, t);
      }
    }

    lemma {:induction false} SeekHere(k: K, c: Ctx<Node<K, V>>, t: Shape<Node<K, V>>)
      requires Valid() && Seeking(k, c, t) && t.Branch?
      ensures t.node.left == Root(t.left) && t.node.right == Root(t.right)
      ensures |Before(c)| + |InOrder(t.left)| < |order| && order[|Before(c)| + |InOrder(t.left)|] == t.node
    {
      Here(c, t);
    }

    /** A nearest node splits the other keys into the smaller and the greater ones. */
    lemma {:induction false} NearestSides(k: K, p: nat)
      requires TotalOrder(comp) && Ascending(comp, order) && p < |order| && Nearest(k, p)
      ensures forall i :: 0 <= i < p ==> comp(order[i].key, k) < 0
      ensures forall i :: p < i < |order| ==> comp(order[i].key, k) > 0
    {
    }

    method WalkLower(key: K, nearest: Node<K, V>, ghost at: nat) returns (found: Node<K, V>, ghost p: nat)
      requires Valid() && at < |order| && order[at] == nearest
      requires comp(nearest.key, key) != 0
      requires forall i :: 0 <= i < at ==> comp(order[i].key, key) < 0
      ensures Valid() && p <= at && order[p] == found
      ensures comp(found.key, key) < 0 ==> p == at || (p == at - 1 && comp(nearest.key, key) > 0)
      ensures comp(found.key, key) > 0 ==> p == at == 0
      ensures comp(found.key, key) != 0
    {
      hide Nodes, Distinct, Link, CtxNodes, Avl, InOrder, Plug, Linked, TotalOrder, Ascending;
      var node: Node?<K, V> := nearest;
      p := at;
      while node != null
        invariant Valid() && p <= at
        invariant node != null ==> order[p] == node
        invariant if node == null then at == 0 && comp(nearest.key, key) > 0
                  else p == at || (p == at - 1 && comp(nearest.key, key) > 0)
        decreases if node == null then 0 else p + 1
      {
        var res := comp(node.key, key);
        if res < 0 {
          return node, p;
        }
        ghost var q;
        NoneTwice();
        node, q := PrevNode(node);
        p := if p > 0 then p - 1 else 0;
      }
      return nearest, at;
    }

    /** Despite the comparison with greater keys this walk, too, goes down: it stays where it is. */
    method WalkHigher(key: K, nearest: Node<K, V>, ghost at: nat) returns (found: Node<K, V>)
      requires Valid() && at < |order| && order[at] == nearest
      requires forall i :: 0 <= i < at ==> comp(order[i].key, key) < 0
      ensures Valid() && found == nearest
    {
      hide Nodes, Distinct, Link, CtxNodes, Avl, InOrder, Plug, Linked, TotalOrder, Ascending;
      var node: Node?<K, V> := nearest;
      ghost var p: nat := at;
      while node != null
        invariant Valid() && p <= at < |order| && forall i :: 0 <= i < at ==> comp(order[i].key, key) < 0
        invariant node != null ==> order[p] == node
        decreases if node == null then 0 else p + 1
      {
        var res := comp(node.key, key);
        if res > 0 {
          return node;
        }
        ghost var q;
        NoneTwice();
        node, q := PrevNode(node);
        p := if p > 0 then p - 1 else 0;
      }
      return nearest;
    }

    /** ytree_find_nearby */
    method FindNearby(key: K, lower: bool) returns (found: Node?<K, V>, ghost p: nat)
      requires Valid()
      ensures Valid() && (found == null <==> order == [])
      ensures found != null ==> p < |order| && order[p] == found
      // an equal key is found
      ensures found != null && comp(found.key, key) != 0 ==> forall i :: 0 <= i < |order| ==>
        comp(order[i].key, key) != 0
      // with lower: the greatest smaller key, or the least key when none is smaller
      ensures found != null && lower && comp(found.key, key) < 0 ==>
        forall i :: p < i < |order| ==> comp(order[i].key, key) > 0
      ensures found != null && lower && comp(found.key, key) > 0 ==>
        p == 0 && forall i :: 0 <= i < |order| ==> comp(order[i].key, key) > 0
      // without: a neighbour of the key on either side
      ensures found != null && !lower ==> Nearest(key, p)
    {
      hide Nodes, Distinct, Link, CtxNodes, Avl, InOrder, Plug, Linked, Holds, TotalOrder, Ascending;
      var nearest;
      ghost var at;
      nearest, at := FindNearest(key);
      if nearest == null {
        return null, 0;
      }
      NearestSides(key, at);
      if comp(nearest.key, key) == 0 {
        return nearest, at;
      }
      if lower {
        found, p := WalkLower(key, nearest, at);
      } else {
        found := WalkHigher(key, nearest, at);
        p := at;
      }
    }

    /** The end of the stretch from `p` on whose keys are at most `hi`. */
    ghost function UpTo(hi: K, p: nat): (q: nat)
      requires p <= |order|
      reads this`order, order
      ensures p <= q <= |order|
      ensures forall i :: p <= i < q ==> comp(order[i].key, hi) <= 0
      ensures q < |order| ==> comp(order[q].key, hi) > 0
      decreases |order| - p
    {
      if p == |order| || comp(order[p].key, hi) > 0 then p else UpTo(hi, p + 1)
    }

    /** The entries ytree_traverse_in_range goes through when its search for `lo` ends at `p`. */
    ghost function Reach(lo: K, hi: K, p: nat): seq<Node<K, V>>
      requires p < |order|
      reads this`order, order
    {
      order[(if comp(lo, order[p].key) > 0 then p + 1 else p)..UpTo(hi, p + 1)]
    }

    /** `visited` is as much of `plan` as a callback lets pass that stops the walk by a nonzero result. */
    ghost predicate Called(visited: seq<Node<K, V>>, res: int, plan: seq<Node<K, V>>, cb: (K, V) -> int)
      reads plan
    {
      visited <= plan &&
      (forall i :: 0 <= i < |visited| ==> cb(plan[i].key, plan[i].data) == if i == |visited| - 1 then res else 0) &&
      (res == 0 ==> visited == plan) && (res != 0 ==> visited != [])
    }

    /** The first loop of ytree_traverse_in_range: from the base downwards while not below `lo`. */
    method VisitDown(base: Node<K, V>, lo: K, cb: (K, V) -> int, ghost p: nat) returns (res: int,
                     visited: seq<Node<K, V>>)
      requires Valid() && p < |order| && order[p] == base
      requires forall i :: 0 <= i < p ==> comp(lo, order[i].key) > 0
      ensures Valid() && visited == if comp(lo, base.key) > 0 then [] else [base]
      ensures res == if visited == [] then 0 else cb(base.key, base.data)
    {
      hide Nodes, Distinct, Link, CtxNodes, Avl, InOrder, Plug, Linked, TotalOrder, Ascending;
      visited := [];
      var node: Node?<K, V> := base;
      NoneTwice();
      while node != null
        invariant Valid()
        invariant visited == [] ==> node == base
        invariant visited != [] ==> visited == [base] && comp(lo, base.key) <= 0 && cb(base.key, base.data) == 0
        invariant visited != [] ==> node == if p > 0 then order[p - 1] else null
        decreases |visited| == 0, node != null
      {
        if comp(lo, node.key) > 0 {
          break;
        }
        res := cb(node.key, node.data);
        visited := visited + [node];
        if res != 0 {
          return;
        }
        ghost var q;
        node, q := PrevNode(node);
      }
      res := 0;
    }

    /** The entries from `p` on up to `hi` have been visited up to `node`, which comes next, and their
        callbacks all returned zero. */
    ghost predicate Passed(visited: seq<Node<K, V>>, node: Node?<K, V>, hi: K, p: nat, cb: (K, V) -> int)
      requires p <= |order|
      reads this`order, order, visited
    {
      p + |visited| <= UpTo(hi, p) && visited == order[p..p + |visited|] &&
      node == (if p + |visited| < |order| then order[p + |visited|] else null) &&
      forall i :: 0 <= i < |visited| ==> cb(visited[i].key, visited[i].data) == 0
    }

    lemma {:induction false} PassedNext(visited: seq<Node<K, V>>, node: Node<K, V>, next: Node?<K, V>, hi: K, p: nat,
                                        cb: (K, V) -> int)
      requires p <= |order| && Passed(visited, node, hi, p, cb) && comp(node.key, hi) <= 0
      requires p + |visited| < |order| && next == if p + |visited| + 1 < |order| then order[p + |visited| + 1] else null
      ensures var res := cb(node.key, node.data);
        if res == 0 then Passed(visited + [node], next, hi, p, cb)
        else Called(visited + [node], res, order[p..UpTo(hi, p)], cb)
    {
      assert order[p + |visited|] == node && order[p..UpTo(hi, p)][|visited|] == node;
    }

    lemma {:induction false} PassedAll(visited: seq<Node<K, V>>, node: Node?<K, V>, hi: K, p: nat, cb: (K, V) -> int)
      requires p <= |order| && Passed(visited, node, hi, p, cb) && (node == null || comp(node.key, hi) > 0)
      ensures Called(visited, 0, order[p..UpTo(hi, p)], cb)
    {
    }

    /** The entry after the one at a known place. */
    method EntryAfter(node: Node<K, V>, ghost i: nat) returns (n: Node?<K, V>)
      requires Valid() && i < |order| && order[i] == node
      ensures Valid() && n == if i + 1 < |order| then order[i + 1] else null
    {
      hide Nodes, Distinct, Link, CtxNodes, Avl, InOrder, Plug, Linked, TotalOrder, Ascending, Holds;
      ghost var q;
      n, q := NextNode(node);
    }

    /** The second loop: from the node after the base upwards while not above `hi`. */
    method VisitUp(base: Node<K, V>, hi: K, cb: (K, V) -> int, ghost p: nat) returns (res: int,
                   visited: seq<Node<K, V>>)
      requires Valid() && p < |order| && order[p] == base
      ensures Valid() && Called(visited, res, order[p + 1..UpTo(hi, p + 1)], cb)
    {
      hide Nodes, Distinct, Link, CtxNodes, Avl, InOrder, Plug, Linked, TotalOrder, Ascending, UpTo, Holds, Passed,
        Called;
      res, visited := 0, [];
      var node := EntryAfter(base, p);
      PassedNone(node, hi, p + 1, cb);
      while node != null
        invariant Valid() && Passed(visited, node, hi, p + 1, cb) && res == 0
        decreases |order| - |visited|
      {
        if comp(node.key, hi) > 0 {
          break;
        }
        PassedPlace(visited, node, hi, p + 1, cb);
        ghost var at := p + 1 + |visited|;
        PassedNext(visited, node, if at + 1 < |order| then order[at + 1] else null, hi, p + 1, cb);
        res := cb(node.key, node.data);
        visited := visited + [node];
        if res != 0 {
          return;
        }
        node := EntryAfter(node, at);
      }
      PassedAll(visited, node, hi, p + 1, cb);
    }

    lemma {:induction false} PassedNone(node: Node?<K, V>, hi: K, p: nat, cb: (K, V) -> int)
      requires p <= |order| && node == if p < |order| then order[p] else null
      ensures Passed([], node, hi, p, cb)
    {
    }

    lemma {:induction false} PassedPlace(visited: seq<Node<K, V>>, node: Node<K, V>, hi: K, p: nat, cb: (K, V) -> int)
      requires p <= |order| && Passed(visited, node, hi, p, cb)
      ensures p + |visited| < |order| && order[p + |visited|] == node
    {
    }

    lemma {:induction false} ReachParts(lo: K, hi: K, p: nat)
      requires p < |order|
      ensures Reach(lo, hi, p) == (if comp(lo, order[p].key) > 0 then [] else [order[p]]) +
        order[p + 1..UpTo(hi, p + 1)]
    {
      var q := UpTo(hi, p + 1);
      assert order[p..q] == [order[p]] + order[p + 1..q];
    }

    lemma {:induction false} CalledBoth(first: seq<Node<K, V>>, visited: seq<Node<K, V>>, res: int,
                                        plan: seq<Node<K, V>>, cb: (K, V) -> int)
      requires |first| <= 1 && (first != [] ==> cb(first[0].key, first[0].data) == 0) && Called(visited, res, plan, cb)
      ensures Called(first + visited, res, first + plan, cb)
    {
    }

    lemma {:induction false} CalledFirst(first: seq<Node<K, V>>, res: int, plan: seq<Node<K, V>>, cb: (K, V) -> int)
      requires |first| == 1 && res != 0 && cb(first[0].key, first[0].data) == res
      ensures Called(first, res, first + plan, cb)
    {
    }

    /** ytree_traverse_in_range */
    method TraverseInRange(lo: K, hi: K, cb: (K, V) -> int) returns (res: int, visited: seq<Node<K, V>>, ghost p: nat)
      requires Valid()
      ensures Valid() && (order == [] ==> res == -1 && visited == [])
      ensures order != [] ==> p < |order| && Nearest(lo, p) && Called(visited, res, Reach(lo, hi, p), cb)
    {
      hide Nodes, Distinct, Link, CtxNodes, Avl, InOrder, Plug, Linked, Holds, Ascending, Reach, Called, TotalOrder,
        UpTo;
      visited := [];
      var base;
      base, p := FindNearest(lo);
      if base == null {
        return -1, visited, 0;
      }
      NearestSides(lo, p);
      NearestFlip(lo, p);
      ReachParts(lo, hi, p);
      res, visited := VisitDown(base, lo, cb, p);
      ghost var plan := order[p + 1..UpTo(hi, p + 1)];
      if res != 0 {
        CalledFirst(visited, res, plan, cb);
        return;
      }
      var up;
      res, up := VisitUp(base, hi, cb, p);
      CalledBoth(visited, up, res, plan, cb);
      visited := visited + up;
    }

    lemma {:induction false} NearestFlip(k: K, p: nat)
      requires TotalOrder(comp) && p < |order|
      ensures forall i :: 0 <= i < p && comp(order[i].key, k) < 0 ==> comp(k, order[i].key) > 0
    {
    }

    ghost predicate Within(lo: K, hi: K, k: K) {
      comp(lo, k) <= 0 && comp(k, hi) <= 0
    }

    lemma {:induction false} ReachIndex(lo: K, hi: K, p: nat, i: nat)
      requires Holds(shape) && order == InOrder(shape) && p < |order| && i < |order|
      ensures order[i] in Reach(lo, hi, p) <==> (if comp(lo, order[p].key) > 0 then p + 1 else p) <= i < UpTo(hi, p + 1)
    {
      hide UpTo, InOrder, Linked, Distinct, Nodes;
      NoneTwice();
      var a, b := if comp(lo, order[p].key) > 0 then p + 1 else p, UpTo(hi, p + 1);
      if a <= i < b {
        assert Reach(lo, hi, p)[i - a] == order[i];
      }
    }

    /** Apart from the node the search ended at, the reached entries are those within the bounds. */
    lemma {:induction false} WithinIndex(lo: K, hi: K, p: nat, i: nat)
      requires TotalOrder(comp) && Ascending(comp, order) && p < |order| && Nearest(lo, p) && i < |order| && i != p
      ensures Within(lo, hi, order[i].key) <==> p < i < UpTo(hi, p + 1)
      ensures p < i && comp(order[p].key, hi) > 0 ==> !Within(lo, hi, order[i].key)
    {
      hide UpTo, TotalOrder, Nearest, Ascending;
      NearestSides(lo, p);
      Sign(lo, order[i].key);
      Sign(order[i].key, lo);
      Sign(hi, order[i].key);
      var q := UpTo(hi, p + 1);
      if q <= i {
        Sign(order[i].key, hi);
        Sign(order[q].key, hi);
        BelowFrom(comp, order, q, hi);
      }
      if p < i && comp(order[p].key, hi) > 0 {
        Sign(order[p].key, hi);
        Sign(order[i].key, hi);
        BelowFrom(comp, order, p, hi);
      }
    }

    /** When no callback stops it, ytree_traverse_in_range goes through exactly the entries within the
        bounds if and only if some entry lies within them or the search ended below them: the node the
        search ended at is not compared with the upper bound. */
    lemma {:induction false} RangeIsExact(lo: K, hi: K, p: nat)
      requires Valid() && p < |order| && Nearest(lo, p)
      ensures (forall i :: 0 <= i < |order| ==> (order[i] in Reach(lo, hi, p) <==> Within(lo, hi, order[i].key)))
         <==> (comp(order[p].key, lo) < 0 || exists i :: 0 <= i < |order| && Within(lo, hi, order[i].key))
    {
      hide TotalOrder, Ascending, Holds, InOrder, Avl, UpTo, Reach, Nearest;
      forall i | 0 <= i < |order|
        ensures order[i] in Reach(lo, hi, p) <==>
          (if comp(lo, order[p].key) > 0 then p + 1 else p) <= i < UpTo(hi, p + 1)
        ensures i != p ==> (Within(lo, hi, order[i].key) <==> p < i < UpTo(hi, p + 1))
        ensures p < i && comp(order[p].key, hi) > 0 ==> !Within(lo, hi, order[i].key)
      {
        ReachIndex(lo, hi, p, i);
        if i != p {
          WithinIndex(lo, hi, p, i);
        }
      }
      SignFlip(comp, lo, order[p].key);
      Sign(lo, order[p].key);
      assert order[p] in Reach(lo, hi, p) <==> comp(lo, order[p].key) <= 0;
    }

    /** The tree is as shallow as its size allows: a search looks at no more nodes than its height. */
    lemma {:induction false} Shallow()
      requires Valid()
      ensures size >= Fib(Height(shape) + 2) - 1
    {
      SizeLowerBound(shape);
    }

    lemma {:induction false} Sign(a: K, b: K)
      requires TotalOrder(comp)
      ensures comp(a, b) > 0 <==> comp(b, a) < 0
    {
    }

    // ---------- entries by key ----------

    /** ytree_push; ytree_insert is the same without the iterator. */
    method Push(key: K, data: V) returns (it: Node<K, V>, oldData: Option<V>, ghost pos: nat)
      requires Valid()
      modifies this`root, this`size, this`shape, this`order, Nodes(shape)
      ensures Valid() && pos < |order| && order[pos] == it && it.key == key && it.data == data
      ensures oldData.Some? ==>
        order == old(order) && oldData.value == old(order[pos].data) && comp(key, old(order[pos].key)) == 0
      ensures oldData.None? ==>
        fresh(it) && pos <= |old(order)| && order == old(order)[..pos] + [it] + old(order)[pos..]
      ensures forall i :: 0 <= i < |old(order)| && old(order)[i] != it ==>
        old(order)[i].key == old(order[i].key) && old(order)[i].data == old(order[i].data)
      ensures forall n :: n in Nodes(shape) ==> n in old(Nodes(shape)) || fresh(n)
    {
      hide Nodes, Distinct, Link, Linked, Avl, InOrder, Plug, Ascending, TotalOrder;
      NoneTwice();
      OrderAllocated(shape);
      var node, created;
      node, created, pos := Insert(key, data, false);
      if node != null {
        oldData := Some(node.data);
        Overwrite(node, key, data, pos);
        it := node;
      } else {
        it, oldData := created, None;
      }
    }

    /** ytree_delete */
    method Delete(key: K) returns (data: Option<V>, ghost pos: nat)
      requires Valid()
      modifies this`root, this`size, this`shape, this`order
      modifies Nodes(shape)`parent, Nodes(shape)`left, Nodes(shape)`right, Nodes(shape)`balance
      ensures Valid()
      ensures data.None? ==> order == old(order) && forall i :: 0 <= i < |order| ==> comp(key, order[i].key) != 0
      ensures data.Some? ==>
        && pos < |old(order)| && comp(key, old(order[pos].key)) == 0 && data.value == old(order[pos].data)
        && order == old(order)[..pos] + old(order)[pos + 1..]
      ensures Nodes(shape) <= old(Nodes(shape))
    {
      hide Nodes, Distinct, Link, Linked, Avl, InOrder, Plug, Ascending, TotalOrder;
      var node := SearchNode(key);
      pos := 0;
      if node == null {
        return None, 0;
      }
      data := Some(node.data);
      pos := DeleteNode(node);
    }
  }

  /** The one entry 60 is handed out for the range 20 to 50. */
  lemma {:induction false} RangeOverrun<V>(t: Tree<int, V>)
    requires t.Valid() && |t.order| == 1 && t.order[0].key == 60
    requires forall a, b :: t.comp(a, b) == a - b
    ensures t.Nearest(20, 0) && t.Reach(20, 50, 0) == t.order && !t.Within(20, 50, 60)
  {
  }
}
