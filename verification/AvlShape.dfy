/** The pure side of the balanced tree of ydb/ytree.c.

    A `Shape` is the picture of a linked tree at one moment: which node sits where and which
    balance factor it stores.  A `Ctx` is a tree with one subtree missing, read from the hole
    upwards, which is what a loop climbing parent pointers has in hand.  Nothing here reads the
    heap; module `YTree` says when the heap looks like a shape. */
module AvlShape {
  import opened Common

  datatype Shape<N> =
    | Leaf
    | Branch(left: Shape<N>, node: N, bal: int, right: Shape<N>)

  datatype Ctx<N> =
    | Top
    | InLeft(node: N, bal: int, sibling: Shape<N>, up: Ctx<N>)
    | InRight(node: N, bal: int, sibling: Shape<N>, up: Ctx<N>)

  ghost function Max(a: int, b: int): int {
    if a < b then b else a
  }

  ghost function Height<N>(t: Shape<N>): nat {
    match t
    case Leaf => 0
    case Branch(l, _, _, r) => 1 + Max(Height(l), Height(r))
  }

  /** The nodes from left to right: the order an iterator visits them in. */
  ghost function InOrder<N>(t: Shape<N>): seq<N> {
    match t
    case Leaf => []
    case Branch(l, n, _, r) => InOrder(l) + [n] + InOrder(r)
  }

  ghost function Nodes<N>(t: Shape<N>): set<N> {
    match t
    case Leaf => {}
    case Branch(l, n, _, r) => Nodes(l) + {n} + Nodes(r)
  }

  /** No node occurs twice. */
  ghost predicate Distinct<N>(t: Shape<N>) {
    match t
    case Leaf => true
    case Branch(l, n, _, r) =>
      Distinct(l) && Distinct(r) && Nodes(l) !! Nodes(r) && n !in Nodes(l) && n !in Nodes(r)
  }

  /** Every stored balance factor is the height difference, and lies in -1..1. */
  ghost predicate Avl<N>(t: Shape<N>) {
    match t
    case Leaf => true
    case Branch(l, _, b, r) => Avl(l) && Avl(r) && b == Height(r) - Height(l) && -1 <= b <= 1
  }

  // ---------- contexts ----------

  ghost function Plug<N>(c: Ctx<N>, t: Shape<N>): Shape<N>
    decreases c
  {
    match c
    case Top => t
    case InLeft(n, b, r, up) => Plug(up, Branch(t, n, b, r))
    case InRight(n, b, l, up) => Plug(up, Branch(l, n, b, t))
  }

  ghost function CtxNodes<N>(c: Ctx<N>): set<N> {
    match c
    case Top => {}
    case InLeft(n, _, s, up) => {n} + Nodes(s) + CtxNodes(up)
    case InRight(n, _, s, up) => {n} + Nodes(s) + CtxNodes(up)
  }

  ghost predicate CtxDistinct<N>(c: Ctx<N>) {
    c.Top? ||
    (Distinct(c.sibling) && CtxDistinct(c.up) && c.node !in Nodes(c.sibling) &&
     c.node !in CtxNodes(c.up) && Nodes(c.sibling) !! CtxNodes(c.up))
  }

  /** The nodes left of the hole, in order. */
  ghost function Before<N>(c: Ctx<N>): seq<N> {
    match c
    case Top => []
    case InLeft(_, _, _, up) => Before(up)
    case InRight(n, _, l, up) => Before(up) + InOrder(l) + [n]
  }

  /** The nodes right of the hole, in order. */
  ghost function After<N>(c: Ctx<N>): seq<N> {
    match c
    case Top => []
    case InLeft(n, _, r, up) => [n] + InOrder(r) + After(up)
    case InRight(_, _, _, up) => After(up)
  }

  /** The balance factors are right as long as the hole is filled with a tree of height `h`. */
  ghost predicate CtxAvl<N>(c: Ctx<N>, h: int) {
    match c
    case Top => true
    case InLeft(_, b, r, up) =>
      Avl(r) && b == Height(r) - h && -1 <= b <= 1 && CtxAvl(up, 1 + Max(h, Height(r)))
    case InRight(_, b, l, up) =>
      Avl(l) && b == h - Height(l) && -1 <= b <= 1 && CtxAvl(up, 1 + Max(Height(l), h))
  }

  /** `inner` with its top placed into the hole of `outer`. */
  ghost function Compose<N>(inner: Ctx<N>, outer: Ctx<N>): Ctx<N> {
    match inner
    case Top => outer
    case InLeft(n, b, s, up) => InLeft(n, b, s, Compose(up, outer))
    case InRight(n, b, s, up) => InRight(n, b, s, Compose(up, outer))
  }

  // ---------- what plugging does to each reading of a shape ----------

  lemma {:induction false} PlugInOrder<N>(c: Ctx<N>, t: Shape<N>)
    ensures InOrder(Plug(c, t)) == Before(c) + InOrder(t) + After(c)
    decreases c
  {
    match c
    case Top =>
    case InLeft(n, b, r, up) =>
      PlugInOrder(up, Branch(t, n, b, r));
    case InRight(n, b, l, up) =>
      PlugInOrder(up, Branch(l, n, b, t));
  }

  lemma {:induction false} PlugNodes<N>(c: Ctx<N>, t: Shape<N>)
    ensures Nodes(Plug(c, t)) == CtxNodes(c) + Nodes(t)
    decreases c
  {
    match c
    case Top =>
    case InLeft(n, b, r, up) =>
      PlugNodes(up, Branch(t, n, b, r));
    case InRight(n, b, l, up) =>
      PlugNodes(up, Branch(l, n, b, t));
  }

  lemma {:induction false} PlugDistinct<N>(c: Ctx<N>, t: Shape<N>)
    ensures Distinct(Plug(c, t)) <==> CtxDistinct(c) && Distinct(t) && CtxNodes(c) !! Nodes(t)
    decreases c
  {
    match c
    case Top =>
    case InLeft(n, b, r, up) =>
      PlugDistinct(up, Branch(t, n, b, r));
    case InRight(n, b, l, up) =>
      PlugDistinct(up, Branch(l, n, b, t));
  }

  lemma {:induction false} PlugAvl<N>(c: Ctx<N>, t: Shape<N>)
    ensures Avl(Plug(c, t)) <==> Avl(t) && CtxAvl(c, Height(t))
    decreases c
  {
    match c
    case Top =>
    case InLeft(n, b, r, up) =>
      PlugAvl(up, Branch(t, n, b, r));
    case InRight(n, b, l, up) =>
      PlugAvl(up, Branch(l, n, b, t));
  }

  /** The four facts about plugging, for the callers that need them together. */
  lemma {:induction false} PlugFacts<N>(c: Ctx<N>, t: Shape<N>)
    ensures InOrder(Plug(c, t)) == Before(c) + InOrder(t) + After(c)
    ensures Nodes(Plug(c, t)) == CtxNodes(c) + Nodes(t)
    ensures Distinct(Plug(c, t)) <==> CtxDistinct(c) && Distinct(t) && CtxNodes(c) !! Nodes(t)
    ensures Avl(Plug(c, t)) <==> Avl(t) && CtxAvl(c, Height(t))
  {
    PlugInOrder(c, t);
    PlugNodes(c, t);
    PlugDistinct(c, t);
    PlugAvl(c, t);
  }

  lemma {:induction false} ComposePlug<N>(inner: Ctx<N>, outer: Ctx<N>, t: Shape<N>)
    ensures Plug(Compose(inner, outer), t) == Plug(outer, Plug(inner, t))
    decreases inner
  {
    match inner
    case Top =>
    case InLeft(n, b, r, up) => ComposePlug(up, outer, Branch(t, n, b, r));
    case InRight(n, b, l, up) => ComposePlug(up, outer, Branch(l, n, b, t));
  }

  // ---------- rotations ----------

  ghost function RotatedRight<N>(t: Shape<N>): Shape<N>
    requires t.Branch? && t.left.Branch?
  {
    var l := t.left;
    Branch(l.left, l.node, l.bal + 1, Branch(l.right, t.node, -(l.bal + 1), t.right))
  }

  ghost function RotatedLeft<N>(t: Shape<N>): Shape<N>
    requires t.Branch? && t.right.Branch?
  {
    var r := t.right;
    Branch(Branch(t.left, t.node, -(r.bal - 1), r.left), r.node, r.bal - 1, r.right)
  }

  ghost function RotatedLeftRight<N>(t: Shape<N>): Shape<N>
    requires t.Branch? && t.left.Branch? && t.left.right.Branch?
  {
    var l, m := t.left, t.left.right;
    Branch(Branch(l.left, l.node, if m.bal == 1 then -1 else 0, m.left), m.node, 0,
           Branch(m.right, t.node, if m.bal == 1 || m.bal == 0 then 0 else 1, t.right))
  }

  ghost function RotatedRightLeft<N>(t: Shape<N>): Shape<N>
    requires t.Branch? && t.right.Branch? && t.right.left.Branch?
  {
    var r, m := t.right, t.right.left;
    Branch(Branch(t.left, t.node, if m.bal == -1 || m.bal == 0 then 0 else -1, m.left), m.node, 0,
           Branch(m.right, r.node, if m.bal == -1 then 1 else 0, r.right))
  }

  /** `t` and `u` hold the same nodes in the same order, each once. */
  ghost predicate SameNodes<N>(t: Shape<N>, u: Shape<N>) {
    Nodes(t) == Nodes(u) && InOrder(t) == InOrder(u) && Distinct(t) && Distinct(u)
  }

  lemma {:induction false} ReassociatedNodes<N>(a: Shape<N>, m: N, b: Shape<N>, n: N, c: Shape<N>, i: int, j: int,
                                                k: int, l: int)
    ensures Nodes(Branch(Branch(a, m, i, b), n, j, c)) == Nodes(Branch(a, m, k, Branch(b, n, l, c)))
  {
    assert Nodes(Branch(a, m, i, b)) == Nodes(a) + {m} + Nodes(b);
    assert Nodes(Branch(b, n, l, c)) == Nodes(b) + {n} + Nodes(c);
  }

  lemma {:induction false} ReassociatedInOrder<N>(a: Shape<N>, m: N, b: Shape<N>, n: N, c: Shape<N>, i: int, j: int,
                                                  k: int, l: int)
    ensures InOrder(Branch(Branch(a, m, i, b), n, j, c)) == InOrder(Branch(a, m, k, Branch(b, n, l, c)))
  {
    assert InOrder(Branch(a, m, i, b)) == InOrder(a) + [m] + InOrder(b);
    assert InOrder(Branch(b, n, l, c)) == InOrder(b) + [n] + InOrder(c);
  }

  ghost predicate Pairwise<N>(a: Shape<N>, m: N, b: Shape<N>, n: N, c: Shape<N>) {
    Distinct(a) && Distinct(b) && Distinct(c) && m != n &&
    m !in Nodes(a) && m !in Nodes(b) && m !in Nodes(c) && n !in Nodes(a) && n !in Nodes(b) && n !in Nodes(c) &&
    Nodes(a) !! Nodes(b) && Nodes(a) !! Nodes(c) && Nodes(b) !! Nodes(c)
  }

  lemma {:induction false} DistinctLeftNested<N>(a: Shape<N>, m: N, b: Shape<N>, n: N, c: Shape<N>, i: int, j: int)
    ensures Distinct(Branch(Branch(a, m, i, b), n, j, c)) <==> Pairwise(a, m, b, n, c)
  {
    assert Nodes(Branch(a, m, i, b)) == Nodes(a) + {m} + Nodes(b);
  }

  lemma {:induction false} DistinctRightNested<N>(a: Shape<N>, m: N, b: Shape<N>, n: N, c: Shape<N>, k: int, l: int)
    ensures Distinct(Branch(a, m, k, Branch(b, n, l, c))) <==> Pairwise(a, m, b, n, c)
  {
    assert Nodes(Branch(b, n, l, c)) == Nodes(b) + {n} + Nodes(c);
  }

  /** Reassociating a, m, b, n, c: all that a single rotation does to the order. */
  lemma {:induction false} Reassociated<N>(a: Shape<N>, m: N, b: Shape<N>, n: N, c: Shape<N>, i: int, j: int, k: int,
                                           l: int)
    ensures var t, u := Branch(Branch(a, m, i, b), n, j, c), Branch(a, m, k, Branch(b, n, l, c));
            Nodes(t) == Nodes(u) && InOrder(t) == InOrder(u) && (Distinct(t) <==> Distinct(u))
  {
    hide Nodes, InOrder, Distinct, Pairwise;
    ReassociatedNodes(a, m, b, n, c, i, j, k, l);
    ReassociatedInOrder(a, m, b, n, c, i, j, k, l);
    DistinctLeftNested(a, m, b, n, c, i, j);
    DistinctRightNested(a, m, b, n, c, k, l);
  }

  lemma {:induction false} RightRotated<N>(t: Shape<N>)
    requires t.Branch? && t.left.Branch? && Distinct(t)
    ensures SameNodes(t, RotatedRight(t))
  {
    hide Nodes, Distinct, InOrder;
    var l, u := t.left, RotatedRight(t);
    Reassociated(l.left, l.node, l.right, t.node, t.right, l.bal, t.bal, u.bal, u.right.bal);
  }

  lemma {:induction false} LeftRotated<N>(t: Shape<N>)
    requires t.Branch? && t.right.Branch? && Distinct(t)
    ensures SameNodes(t, RotatedLeft(t))
  {
    hide Nodes, Distinct, InOrder;
    var r, u := t.right, RotatedLeft(t);
    Reassociated(t.left, t.node, r.left, r.node, r.right, u.left.bal, u.bal, t.bal, r.bal);
  }

  /** A double rotation is a rotation of the child followed by one of the node. */
  lemma {:induction false} LeftRightRotated<N>(t: Shape<N>)
    requires t.Branch? && t.left.Branch? && t.left.right.Branch? && Distinct(t)
    ensures SameNodes(t, RotatedLeftRight(t))
  {
    var l, m, u := t.left, t.left.right, RotatedLeftRight(t);
    Reassociated(l.left, l.node, m.left, m.node, m.right, u.left.bal, 0, l.bal, m.bal);
    Reassociated(u.left, m.node, m.right, t.node, t.right, 0, 0, 0, u.right.bal);
  }

  lemma {:induction false} RightLeftRotated<N>(t: Shape<N>)
    requires t.Branch? && t.right.Branch? && t.right.left.Branch? && Distinct(t)
    ensures SameNodes(t, RotatedRightLeft(t))
  {
    var r, m, u := t.right, t.right.left, RotatedRightLeft(t);
    Reassociated(m.left, m.node, m.right, r.node, r.right, m.bal, r.bal, 0, u.right.bal);
    Reassociated(t.left, t.node, m.left, m.node, u.right, u.left.bal, 0, 0, 0);
  }

  /** What a rotation makes of a node whose left side is two higher than its right side. */
  lemma {:induction false} LeftHeavyRestored<N>(t: Shape<N>)
    requires t.Branch? && Avl(t.left) && Avl(t.right) && Height(t.left) == Height(t.right) + 2
    ensures t.left.bal == -1 ==> Avl(RotatedRight(t)) && Height(RotatedRight(t)) == Height(t.left)
    ensures t.left.bal == 0 ==> Avl(RotatedRight(t)) && Height(RotatedRight(t)) == Height(t.left) + 1
    ensures t.left.bal == 1 ==>
      t.left.right.Branch? && Avl(RotatedLeftRight(t)) && Height(RotatedLeftRight(t)) == Height(t.left)
  {
    var l := t.left;
    assert l.bal == 1 ==> l.right.Branch?;
    if l.right.Branch? {
      assert Avl(l.right);
    }
  }

  lemma {:induction false} RightHeavyRestored<N>(t: Shape<N>)
    requires t.Branch? && Avl(t.left) && Avl(t.right) && Height(t.right) == Height(t.left) + 2
    ensures t.right.bal == 1 ==> Avl(RotatedLeft(t)) && Height(RotatedLeft(t)) == Height(t.right)
    ensures t.right.bal == 0 ==> Avl(RotatedLeft(t)) && Height(RotatedLeft(t)) == Height(t.right) + 1
    ensures t.right.bal == -1 ==>
      t.right.left.Branch? && Avl(RotatedRightLeft(t)) && Height(RotatedRightLeft(t)) == Height(t.right)
  {
    var r := t.right;
    assert r.bal == -1 ==> r.left.Branch?;
    if r.left.Branch? {
      assert Avl(r.left);
    }
  }

  // ---------- climbing one step, as the two balancing loops do ----------

  /** The subtree one level up. */
  ghost function Climb<N>(c: Ctx<N>, t: Shape<N>): Shape<N>
    requires !c.Top?
  {
    if c.InLeft? then Branch(t, c.node, c.bal, c.sibling) else Branch(c.sibling, c.node, c.bal, t)
  }

  lemma {:induction false} ClimbPlug<N>(c: Ctx<N>, t: Shape<N>)
    requires !c.Top?
    ensures Plug(c, t) == Plug(c.up, Climb(c, t)) && Climb(c, t).Branch? && Climb(c, t).node == c.node
    ensures Climb(c, t).bal == c.bal
    ensures c.InLeft? ==> Climb(c, t).left == t
    ensures c.InRight? ==> Climb(c, t).right == t
  {
  }

  /** A tree that an insertion has just made one higher: a new leaf, or a root that leans. */
  ghost predicate Grown<N>(t: Shape<N>) {
    t.Branch? && (t.bal != 0 || (t.left.Leaf? && t.right.Leaf?))
  }

  /** One round of the insertion loop, climbing from the left: `t` has grown in its hole. */
  lemma {:induction false} InsertStepLeft<N>(c: Ctx<N>, t: Shape<N>)
    requires c.InLeft? && Avl(t) && CtxAvl(c, Height(t) - 1) && Grown(t)
    ensures var b := c.bal - 1;
      var u := Climb(c, t).(bal := b);
      && -2 <= b <= 0
      && (b == 0 ==> Avl(u) && CtxAvl(c.up, Height(u)))
      && (b == -1 ==> Avl(u) && CtxAvl(c.up, Height(u) - 1) && Grown(u))
      && (b == -2 ==> t.bal == -1 || (t.bal == 1 && t.right.Branch?))
      && (b == -2 && t.bal == -1 ==> Avl(RotatedRight(u)) && CtxAvl(c.up, Height(RotatedRight(u))))
      && (b == -2 && t.bal == 1 ==> Avl(RotatedLeftRight(u)) && CtxAvl(c.up, Height(RotatedLeftRight(u))))
  {
    hide RotatedLeft, RotatedRight, RotatedLeftRight, RotatedRightLeft;
    if c.bal == -1 {
      LeftHeavyRestored(Branch(t, c.node, -2, c.sibling));
    }
  }

  lemma {:induction false} InsertStepRight<N>(c: Ctx<N>, t: Shape<N>)
    requires c.InRight? && Avl(t) && CtxAvl(c, Height(t) - 1) && Grown(t)
    ensures var b := c.bal + 1;
      var u := Climb(c, t).(bal := b);
      && 0 <= b <= 2
      && (b == 0 ==> Avl(u) && CtxAvl(c.up, Height(u)))
      && (b == 1 ==> Avl(u) && CtxAvl(c.up, Height(u) - 1) && Grown(u))
      && (b == 2 ==> t.bal == 1 || (t.bal == -1 && t.left.Branch?))
      && (b == 2 && t.bal == 1 ==> Avl(RotatedLeft(u)) && CtxAvl(c.up, Height(RotatedLeft(u))))
      && (b == 2 && t.bal == -1 ==> Avl(RotatedRightLeft(u)) && CtxAvl(c.up, Height(RotatedRightLeft(u))))
  {
    hide RotatedLeft, RotatedRight, RotatedLeftRight, RotatedRightLeft;
    if c.bal == 1 {
      RightHeavyRestored(Branch(c.sibling, c.node, 2, t));
    }
  }

  /** What the deletion loop finds at a node: one side is one lower than its balance factor says
      (`d` tells which, 0 meaning that the node itself has come up one level).  The hole it stands in
      was made for a tree of height `h`. */
  ghost predicate Shrunk<N>(t: Shape<N>, d: int, h: int) {
    t.Branch? && Avl(t.left) && Avl(t.right) && -1 <= t.bal <= 1 && -1 <= d <= 1 &&
    t.bal + d == Height(t.right) - Height(t.left) &&
    (d == 0 ==> t.bal == 0 && h == Height(t) + 1) &&
    (d == 1 ==> h == 1 + Max(Height(t.left) + 1, Height(t.right))) &&
    (d == -1 ==> h == 1 + Max(Height(t.left), Height(t.right) + 1))
  }

  /** One round of the deletion loop.  In the end the height is back (the loop may stop) or one less. */
  lemma {:induction false} DeleteStep<N>(t: Shape<N>, d: int, h: int)
    requires Shrunk(t, d, h)
    ensures var b := t.bal + d;
      var u := t.(bal := b);
      && -2 <= b <= 2
      && (b == 0 ==> Avl(u) && Height(u) == h - 1)
      && (b == -1 || b == 1 ==> Avl(u) && Height(u) == h)
      && (b == -2 ==> t.left.Branch? && -1 <= t.left.bal <= 1)
      && (b == 2 ==> t.right.Branch? && -1 <= t.right.bal <= 1)
  {
  }

  lemma {:induction false} DeleteStepLeft<N>(t: Shape<N>, d: int, h: int)
    requires Shrunk(t, d, h) && t.bal + d == -2
    ensures t.left.Branch?
    ensures var u := t.(bal := -2);
      && (t.left.bal == 0 ==> Avl(RotatedRight(u)) && Height(RotatedRight(u)) == h && RotatedRight(u).bal == 1)
      && (t.left.bal == -1 ==> Avl(RotatedRight(u)) && Height(RotatedRight(u)) == h - 1 && RotatedRight(u).bal == 0)
      && (t.left.bal == 1 ==> t.left.right.Branch? && Avl(RotatedLeftRight(u)) && Height(RotatedLeftRight(u)) == h - 1)
  {
    LeftHeavyRestored(t.(bal := -2));
  }

  lemma {:induction false} DeleteStepRight<N>(t: Shape<N>, d: int, h: int)
    requires Shrunk(t, d, h) && t.bal + d == 2
    ensures t.right.Branch?
    ensures var u := t.(bal := 2);
      && (t.right.bal == 0 ==> Avl(RotatedLeft(u)) && Height(RotatedLeft(u)) == h && RotatedLeft(u).bal == -1)
      && (t.right.bal == 1 ==> Avl(RotatedLeft(u)) && Height(RotatedLeft(u)) == h - 1 && RotatedLeft(u).bal == 0)
      && (t.right.bal == -1 ==>
        t.right.left.Branch? && Avl(RotatedRightLeft(u)) && Height(RotatedRightLeft(u)) == h - 1)
  {
    RightHeavyRestored(t.(bal := 2));
  }

  /** A subtree that has become one lower leaves its parent in the state the loop expects. */
  lemma {:induction false} ShrunkAboveLeft<N>(c: Ctx<N>, t: Shape<N>)
    requires c.InLeft? && Avl(t) && CtxAvl(c, Height(t) + 1)
    ensures var h := 1 + Max(Height(t) + 1, Height(c.sibling));
            Shrunk(Climb(c, t), 1, h) && CtxAvl(c.up, h)
  {
    hide Avl, Height;
  }

  lemma {:induction false} ShrunkAboveRight<N>(c: Ctx<N>, t: Shape<N>)
    requires c.InRight? && Avl(t) && CtxAvl(c, Height(t) + 1)
    ensures var h := 1 + Max(Height(t) + 1, Height(c.sibling));
            Shrunk(Climb(c, t), -1, h) && CtxAvl(c.up, h)
  {
    hide Avl, Height;
  }

  lemma {:induction false} TopAvl<N>(c: Ctx<N>, t: Shape<N>)
    requires c.Top? && Avl(t)
    ensures Avl(Plug(c, t))
  {
  }

  // ---------- the leftmost node of a right subtree ----------

  /** The hole is reached by going left only. */
  ghost predicate AllLeft<N>(c: Ctx<N>) {
    c.Top? || (c.InLeft? && AllLeft(c.up))
  }

  lemma {:induction false} AllLeftBefore<N>(c: Ctx<N>)
    requires AllLeft(c)
    ensures Before(c) == []
  {
    if !c.Top? {
      AllLeftBefore(c.up);
    }
  }

  lemma {:induction false} PlugBranch<N>(c: Ctx<N>, t: Shape<N>)
    requires !c.Top? || t.Branch?
    ensures Plug(c, t).Branch?
    decreases c
  {
    if !c.Top? {
      PlugBranch(c.up, Climb(c, t));
    }
  }

  /** Balance does not depend on which node sits where. */
  lemma {:induction false} Renamed<N>(rc: Ctx<N>, n: N, m: N, b: int, l: Shape<N>, c: Ctx<N>, h: int)
    requires CtxAvl(Compose(rc, InRight(n, b, l, c)), h)
    ensures CtxAvl(Compose(rc, InRight(m, b, l, c)), h)
    decreases rc
  {
    match rc
    case Top =>
    case InLeft(_, _, s, up) => Renamed(up, n, m, b, l, c, 1 + Max(h, Height(s)));
    case InRight(_, _, s, up) => Renamed(up, n, m, b, l, c, 1 + Max(Height(s), h));
  }

  /** The root `t.node`, in the hole of `c`, is to be replaced by the leftmost node `u.node` of its
      right subtree.  First that node is unlinked, then it takes the place of the root. */
  lemma {:induction false} Hoisted<N>(c: Ctx<N>, t: Shape<N>, rc: Ctx<N>, u: Shape<N>)
    requires t.Branch? && u.Branch? && u.left.Leaf? && rc.InLeft? && AllLeft(rc) && t.right == Plug(rc, u)
    requires Distinct(Plug(c, t)) && Avl(Plug(c, t))
    ensures var c1, c2 := Compose(rc, InRight(t.node, t.bal, t.left, c)),
      Compose(rc, InRight(u.node, t.bal, t.left, c));
      var t2 := t.(right := Plug(rc, u.right));
      var t3 := t2.(node := u.node);
      && Plug(c1, u) == Plug(c, t) && Plug(c1, u.right) == Plug(c, t2) && Plug(c2, u.right) == Plug(c, t3)
      && t2.right.Branch? && c1.InLeft? && c2.InLeft? && c1.node == c2.node == rc.node
      && u.node in Nodes(Plug(c, t)) && u.node !in Nodes(Plug(c, t2))
      && Nodes(Plug(c, t2)) <= Nodes(Plug(c, t)) && Nodes(Plug(c, t3)) <= Nodes(Plug(c, t))
      && InOrder(Plug(c, t3)) == Before(c) + InOrder(t.left) + InOrder(t.right) + After(c)
      && Avl(u.right) && CtxAvl(c2, Height(u.right) + 1)
  {
    hide InOrder, Plug, Avl, Distinct, Height, CtxAvl, CtxDistinct;
    var o1, o2 := InRight(t.node, t.bal, t.left, c), InRight(u.node, t.bal, t.left, c);
    var c1, c2 := Compose(rc, o1), Compose(rc, o2);
    var r2 := Plug(rc, u.right);
    var t2 := t.(right := r2);
    var t3 := t2.(node := u.node);
    ComposePlug(rc, o1, u);
    ComposePlug(rc, o1, u.right);
    ComposePlug(rc, o2, u.right);
    ClimbPlug(o1, t.right);
    ClimbPlug(o1, r2);
    ClimbPlug(o2, r2);
    PlugBranch(rc, u.right);
    PlugFacts(c1, u);
    PlugNodes(c1, u.right);
    PlugNodes(c, t);
    PlugNodes(c, t2);
    PlugNodes(c, t3);
    HoistedOrder(c, t, rc, u);
    HoistedBalance(u);
    Renamed(rc, t.node, u.node, t.bal, t.left, c, Height(u));
    UnlinkedNodes(u);
  }

  lemma {:induction false} UnlinkedNodes<N>(u: Shape<N>)
    requires u.Branch? && u.left.Leaf?
    ensures Nodes(u) == {u.node} + Nodes(u.right)
    ensures Distinct(u) ==> u.node !in Nodes(u.right) && Distinct(u.right)
  {
  }

  lemma {:induction false} HoistedBalance<N>(u: Shape<N>)
    requires u.Branch? && u.left.Leaf? && Avl(u)
    ensures Avl(u.right) && Height(u) == Height(u.right) + 1
  {
  }

  lemma {:induction false} HoistedOrder<N>(c: Ctx<N>, t: Shape<N>, rc: Ctx<N>, u: Shape<N>)
    requires t.Branch? && u.Branch? && u.left.Leaf? && AllLeft(rc) && t.right == Plug(rc, u)
    ensures InOrder(Plug(c, Branch(t.left, u.node, t.bal, Plug(rc, u.right)))) == Before(c) + InOrder(t.left) +
      InOrder(t.right) + After(c)
  {
    hide InOrder, Plug, Before, After;
    var t3 := Branch(t.left, u.node, t.bal, Plug(rc, u.right));
    AllLeftBefore(rc);
    PlugInOrder(rc, u);
    PlugInOrder(rc, u.right);
    PlugInOrder(c, t3);
    RootBetween(u);
    RootBetween(t3);
    Regroup(Before(c), InOrder(t.left), [u.node], InOrder(u.right), After(rc), After(c));
  }

  lemma {:induction false} RootBetween<N>(t: Shape<N>)
    requires t.Branch?
    ensures InOrder(t) == InOrder(t.left) + [t.node] + InOrder(t.right)
    ensures t.left.Leaf? ==> InOrder(t) == [t.node] + InOrder(t.right)
  {
  }

  lemma {:induction false} Regroup<N>(a: seq<N>, l: seq<N>, n: seq<N>, x: seq<N>, y: seq<N>, b: seq<N>)
    ensures a + (l + n + ([] + x + y)) + b == a + l + ([] + (n + x) + y) + b
  {
    assert l + n + ([] + x + y) == l + ([] + (n + x) + y);
    assert a + (l + ([] + (n + x) + y)) == a + l + ([] + (n + x) + y);
  }

  // ---------- membership, distinctness, position ----------

  lemma {:induction false} InOrderNodes<N>(t: Shape<N>)
    ensures forall i :: 0 <= i < |InOrder(t)| ==> InOrder(t)[i] in Nodes(t)
    ensures forall n :: n in Nodes(t) ==> n in InOrder(t)
  {
    if t.Branch? {
      InOrderNodes(t.left);
      InOrderNodes(t.right);
    }
  }

  lemma {:induction false} DistinctNoRepeats<N>(t: Shape<N>)
    requires Distinct(t)
    ensures NoRepeats(InOrder(t))
  {
    if t.Branch? {
      DistinctNoRepeats(t.left);
      DistinctNoRepeats(t.right);
      InOrderNodes(t.left);
      InOrderNodes(t.right);
      var l, r := InOrder(t.left), InOrder(t.right);
      var s := InOrder(t);
      assert s == l + [t.node] + r;
      forall i, j | 0 <= i < j < |s| ensures s[i] != s[j] {
        if j < |l| {
          assert s[i] == l[i] && s[j] == l[j];
        } else if i > |l| {
          assert s[i] == r[i - |l| - 1] && s[j] == r[j - |l| - 1];
        } else {
          assert i < |l| ==> s[i] == l[i];
          assert j > |l| ==> s[j] == r[j - |l| - 1];
        }
      }
    }
  }

  /** Any node of a shape can be taken as the root of the subtree in some hole. */
  lemma {:induction false} Focus<N>(t: Shape<N>, n: N) returns (c: Ctx<N>, s: Shape<N>)
    requires n in Nodes(t)
    ensures Plug(c, s) == t && s.Branch? && s.node == n
  {
    if t.node == n {
      c, s := Top, t;
    } else if n in Nodes(t.left) {
      var c0;
      c0, s := Focus(t.left, n);
      c := Compose(c0, InLeft(t.node, t.bal, t.right, Top));
      ComposePlug(c0, InLeft(t.node, t.bal, t.right, Top), s);
    } else {
      var c0;
      c0, s := Focus(t.right, n);
      c := Compose(c0, InRight(t.node, t.bal, t.left, Top));
      ComposePlug(c0, InRight(t.node, t.bal, t.left, Top), s);
    }
  }

  // ---------- height against size ----------

  ghost function Fib(n: nat): nat {
    if n < 2 then n else Fib(n - 1) + Fib(n - 2)
  }

  lemma {:induction false} FibGrows(n: nat)
    ensures Fib(n) <= Fib(n + 1)
  {
  }

  /** A balanced tree of height h holds at least Fib(h+2) - 1 nodes, so searches are logarithmic. */
  lemma {:induction false} SizeLowerBound<N>(t: Shape<N>)
    requires Avl(t)
    ensures |InOrder(t)| >= Fib(Height(t) + 2) - 1
  {
    if t.Branch? {
      SizeLowerBound(t.left);
      SizeLowerBound(t.right);
      var h: int := Height(t);
      assert |InOrder(t)| == |InOrder(t.left)| + 1 + |InOrder(t.right)|;
      assert Height(t.left) >= h - 2 && Height(t.right) >= h - 2 &&
        (Height(t.left) == h - 1 || Height(t.right) == h - 1);
      hide InOrder, Avl, Height;
      FibGrows(h);
      assert Fib(h + 2) == Fib(h + 1) + Fib(h);
      FibGrows(h);
    }
  }
}
