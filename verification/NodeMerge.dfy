/** ydb/ynode.c: ynode_control on the nodes themselves, which it changes in place. */
module NodeMerge {
  import opened Common
  import opened YNode
  import opened Merge
  import opened ChangeLog
  import opened MergeLaws

  class Ynode {
    var kind: Kind
    var value: string
    var tag: Option<string>
    var origin: nat
    var hook: Option<Hook>
    var parent: Ynode?
    /** The key in the parent's container, empty in a list. */
    var key: string
    /** The container: a list, or a search tree or ordered map by key. */
    var kids: seq<Entry<Ynode>>

    /** All nodes at and below this one, and what they stand for. */
    ghost var repr: set<Ynode>
    ghost var tree: Tree

    constructor (kind: Kind, value: string, tag: Option<string>, origin: nat, hook: Option<Hook>)
      ensures Valid() && fresh(repr) && tree == Tree(kind, value, tag, origin, hook, []) && parent == null && kids == []
      ensures this.kind == kind && repr == {this}
    {
      this.kind := kind;
      this.value := value;
      this.tag := tag;
      this.origin := origin;
      this.hook := hook;
      parent := null;
      key := "";
      kids := [];
      repr := {this};
      tree := Tree(kind, value, tag, origin, hook, []);
    }

    ghost predicate Valid()
      reads this, repr
      decreases repr
    {
      this in repr &&
      (forall i :: 0 <= i < |kids| ==>
         kids[i].node in repr && kids[i].node.repr <= repr && this !in kids[i].node.repr && kids[i].node.Valid() &&
         kids[i].node.parent == this && kids[i].node.key == kids[i].key) &&
      (forall i, j :: 0 <= i < j < |kids| ==> kids[i].node.repr !! kids[j].node.repr) &&
      tree == Tree(kind, value, tag, origin, hook, KidTrees(kids))
    }
  }

  ghost function KidTrees(kids: seq<Entry<Ynode>>): (r: seq<Entry<Tree>>)
    reads set e | e in kids :: e.node
    ensures |r| == |kids| && forall i :: 0 <= i < |r| ==> r[i] == Entry(kids[i].key, kids[i].node.tree)
  {
    seq(|kids|, i requires 0 <= i < |kids| reads set e | e in kids :: e.node => Entry(kids[i].key, kids[i].node.tree))
  }

  lemma {:induction false} TreesInserted(kids: seq<Entry<Ynode>>, at: nat, e: Entry<Ynode>)
    requires at <= |kids|
    ensures KidTrees(kids[..at] + [e] + kids[at..]) == KidTrees(kids)[..at] + [Entry(e.key, e.node.tree)] +
      KidTrees(kids)[at..]
    ensures KidTrees(kids + [e]) == KidTrees(kids) + [Entry(e.key, e.node.tree)]
    ensures at < |kids| ==> KidTrees(kids[at := e]) == KidTrees(kids)[at := Entry(e.key, e.node.tree)]
  {
  }

  lemma {:induction false} TreesAdded(kind: Kind, kids: seq<Entry<Ynode>>, key: string, node: Ynode)
    ensures KidTrees(Added(kind, kids, key, node)) == Added(kind, KidTrees(kids), key, node.tree)
  {
    hide IndexOf, Rank, KidTrees, Without;
    SameKeys(kids, KidTrees(kids), key);
    SameRank(kind, kids, KidTrees(kids), key);
    var i := IndexOf(kids, key);
    TreesDropped(kids, i);
    TreesInserted(kids, i, Entry("", node));
    TreesInserted(kids, i, Entry(key, node));
    TreesInserted(kids, Rank(kind, kids, key), Entry(key, node));
    TreesInserted(Without(kids, i), 0, Entry(key, node));
  }

  lemma {:induction false} TreesDropped(kids: seq<Entry<Ynode>>, i: nat)
    requires i <= |kids|
    ensures KidTrees(Without(kids, i)) == Without(KidTrees(kids), i)
  {
  }

  // ---------- the log ----------

  class Log {
    var top: Ynode
    var records: seq<Record>

    constructor (top: Ynode)
      ensures this.top == top && records == []
    {
      this.top := top;
      records := [];
    }

    /** A node and those above it, up to the top of the log. */
    ghost predicate Chain(up: seq<Ynode>)
      reads this`top, (set n | n in up)`parent
    {
      up != [] && up[|up| - 1] == top &&
      forall i :: 0 <= i < |up| - 1 ==> up[i] != top && up[i].parent == up[i + 1]
    }

    /** The keys on the way from the top to a node. */
    method PathTo(n: Ynode, ghost up: seq<Ynode>) returns (path: seq<string>)
      requires Chain(up) && up[0] == n
      ensures path == PathOf(up)
    {
      var node: Ynode? := n;
      path := [];
      ghost var rest := up;
      while node != top
        invariant rest != [] && Chain(rest) && rest[0] == node && PathOf(up) == PathOf(rest) + path
        decreases |rest|
      {
        path := [node.key] + path;
        node := node.parent;
        rest := rest[1..];
      }
    }

    /** ynode_log_print of a node below the top */
    method PrintNode(n: Ynode, deleted: bool, ghost up: seq<Ynode>)
      requires Chain([n] + up) && up != [] && Chain(up)
      modifies this`records
      ensures records == old(records) +
        Prefix(PathOf(up), [if deleted then Del([n.key]) else Put([n.key], n.kind, n.value, n.tag)])
    {
      var path := PathTo(n, [n] + up);
      assert ([n] + up)[1..] == up;
      records := records + [if deleted then Del(path) else Put(path, n.kind, n.value, n.tag)];
    }
  }

  ghost function PathOf(up: seq<Ynode>): seq<string>
    reads (set n | n in up)`key
  {
    if |up| <= 1 then [] else PathOf(up[1..]) + [up[0].key]
  }

  function Prefix(path: seq<string>, recs: seq<Record>): (r: seq<Record>)
    ensures |r| == |recs| && forall i :: 0 <= i < |r| ==> r[i] == recs[i].(path := path + recs[i].path)
  {
    seq(|recs|, i requires 0 <= i < |recs| => recs[i].(path := path + recs[i].path))
  }

  lemma {:induction false} PrefixUnder(path: seq<string>, step: string, recs: seq<Record>)
    ensures Prefix(path, ChangeLog.Under(step, recs)) == Prefix(path + [step], recs)
  {
    forall i | 0 <= i < |recs| ensures path + ([step] + recs[i].path) == (path + [step]) + recs[i].path {
    }
  }

  lemma {:induction false} PrefixConcat(path: seq<string>, a: seq<Record>, b: seq<Record>)
    ensures Prefix(path, a + b) == Prefix(path, a) + Prefix(path, b)
  {
  }

  // ---------- the children of a node ----------

  /** A child whose subtree is in order and does not contain its parent. */
  ghost predicate GoodKid(n: Ynode, e: Entry<Ynode>)
    reads e.node, e.node.repr
  {
    e.node.Valid() && n !in e.node.repr && e.node.parent == n && e.node.key == e.key
  }

  /** All nodes at and below the children. */
  ghost function Footprint(kids: seq<Entry<Ynode>>): set<Ynode>
    reads set e | e in kids :: e.node
  {
    set e, m | e in kids && m in e.node.repr :: m
  }

  ghost predicate GoodKids(n: Ynode, kids: seq<Entry<Ynode>>)
    reads set e | e in kids :: e.node
    reads Footprint(kids)
  {
    (forall i :: 0 <= i < |kids| ==> GoodKid(n, kids[i])) &&
    forall i, j :: 0 <= i < j < |kids| ==> kids[i].node.repr !! kids[j].node.repr
  }

  lemma {:induction false} ValidKids(n: Ynode)
    requires n.Valid()
    ensures GoodKids(n, n.kids) && n in n.repr &&
      n.tree == Tree(n.kind, n.value, n.tag, n.origin, n.hook, KidTrees(n.kids))
    ensures forall i :: 0 <= i < |n.kids| ==> n.kids[i].node.repr <= n.repr
  {
    hide KidTrees;
  }

  lemma {:induction false} KidsValid(n: Ynode)
    requires GoodKids(n, n.kids) && n in n.repr &&
      n.tree == Tree(n.kind, n.value, n.tag, n.origin, n.hook, KidTrees(n.kids))
    requires forall i :: 0 <= i < |n.kids| ==> n.kids[i].node.repr <= n.repr
    ensures n.Valid()
  {
    hide KidTrees;
    forall i | 0 <= i < |n.kids| ensures n.kids[i].node in n.repr && n.kids[i].node.Valid() {
      assert GoodKid(n, n.kids[i]);
      InItself(n.kids[i].node);
    }
  }

  lemma {:induction false} InItself(n: Ynode)
    requires n.Valid()
    ensures n in n.repr
  {
  }

  lemma {:induction false} GoodDropped(n: Ynode, kids: seq<Entry<Ynode>>, i: nat)
    requires GoodKids(n, kids) && i <= |kids|
    ensures GoodKids(n, Without(kids, i))
  {
    hide GoodKid;
  }

  /** `c` shares no node with the children. */
  ghost predicate Apart(c: Ynode, kids: seq<Entry<Ynode>>)
    reads c, set e | e in kids :: e.node
  {
    forall i :: 0 <= i < |kids| ==> kids[i].node.repr !! c.repr
  }

  lemma {:induction false} GoodReplaced(n: Ynode, kids: seq<Entry<Ynode>>, i: nat, e: Entry<Ynode>)
    requires i < |kids| && GoodKids(n, Without(kids, i)) && GoodKid(n, e) && Apart(e.node, Without(kids, i))
    ensures GoodKids(n, kids[i := e])
  {
    hide GoodKid;
    var r, d := kids[i := e], Without(kids, i);
    forall j | 0 <= j < |r| ensures GoodKid(n, r[j]) {
      assert r[j] == if j < i then d[j] else if j == i then e else d[j - 1];
    }
    forall j, k | 0 <= j < k < |r| ensures r[j].node.repr !! r[k].node.repr {
      assert r[j] == if j < i then d[j] else if j == i then e else d[j - 1];
      assert r[k] == if k < i then d[k] else if k == i then e else d[k - 1];
    }
  }

  lemma {:induction false} GoodInserted(n: Ynode, kids: seq<Entry<Ynode>>, at: nat, e: Entry<Ynode>)
    requires at <= |kids| && GoodKids(n, kids) && GoodKid(n, e) && Apart(e.node, kids)
    ensures GoodKids(n, kids[..at] + [e] + kids[at..])
  {
    hide GoodKid;
    var r := kids[..at] + [e] + kids[at..];
    forall j | 0 <= j < |r| ensures r[j] == if j < at then kids[j] else if j == at then e else kids[j - 1] {
    }
  }

  /** The place a child is merged at; there is none in a list. */
  function PlaceOf<T>(kind: Kind, kids: seq<Entry<T>>, key: string): (i: nat)
    ensures i <= |kids|
  {
    if kind == List then |kids| else IndexOf(kids, key)
  }

  lemma {:induction false} GoodAdded(n: Ynode, kind: Kind, kids: seq<Entry<Ynode>>, key: string, c: Ynode)
    requires var d := Without(kids, PlaceOf(kind, kids, key)); GoodKids(n, d) && Apart(c, d)
    requires GoodKid(n, Entry(StepBelow(kind, key), c))
    ensures GoodKids(n, Added(kind, kids, key, c))
  {
    hide GoodKid, GoodKids, Apart, IndexOf, Rank;
    var i := PlaceOf(kind, kids, key);
    var d, e := Without(kids, i), Entry(StepBelow(kind, key), c);
    GoodInserted(n, d, |d|, e);
    assert d[..|d|] == d && d[|d|..] == [] && d + [e] + [] == d + [e];
    if i < |kids| {
      GoodReplaced(n, kids, i, e);
    } else {
      GoodInserted(n, kids, Rank(kind, kids, key), e);
    }
  }

  // ---------- merging ----------

  ghost function TreeOf(n: Ynode?): Option<Tree>
    reads n
  {
    if n == null then None else Some(n.tree)
  }

  ghost function ReprOf(n: Ynode?): set<Ynode>
    reads n
  {
    if n == null then {} else n.repr
  }

  /** The child that the source's child `key` is merged with. */
  function Found(parent: Ynode, key: string): Ynode?
    reads parent
  {
    var i := IndexOf(parent.kids, key);
    if parent.kind == List || i == |parent.kids| then null else parent.kids[i].node
  }

  /** ynode_op_get */
  function OpOf(cur: Ynode?, src: Tree): (op: Op)
    requires cur != null ==> cur.Valid()
    reads cur, if cur == null then {} else cur.repr
    ensures op == OpGet(TreeOf(cur), src)
  {
    if cur == null then Create
    else if src.tag == Some(DELETE_TAG) then Op.Delete
    else if cur.kind == src.kind then if src.kind == Val && cur.value != src.value then Replace else Nothing
    else if MapLike(cur.kind) && MapLike(src.kind) then Nothing
    else Replace
  }

  /** `cur` is the child of `parent` that `key` leads to, and `up` the way from there to the top. */
  ghost predicate Placed(cur: Ynode?, parent: Ynode, key: string, log: Log, up: seq<Ynode>)
    reads parent, cur, log`top, (set n | n in up)`parent
  {
    up != [] && up[0] == parent && log.Chain(up) && cur == Found(parent, key) && parent.kind != Val &&
    (cur != null ==> cur.parent == parent && cur.key == key && forall u :: u in up ==> u !in cur.repr)
  }

  lemma {:induction false} PlacedUp(cur: Ynode?, parent: Ynode, key: string, log: Log, up: seq<Ynode>)
    requires Placed(cur, parent, key, log, up)
    ensures up != [] && up[0] == parent && log.Chain(up) && forall i :: 0 <= i < |up| ==> up[i] !in ReprOf(cur)
  {
  }

  /** The children of `parent` after one has been settled. */
  ghost function KidsAfter(kind: Kind, kids: seq<Entry<Ynode>>, key: string, op: Op, node: Ynode?): seq<Entry<Ynode>> {
    if node == null then Without(kids, IndexOf(kids, key))
    else if op.Nothing? then kids
    else Added<Ynode>(kind, kids, key, node)
  }

  function StepBelow(kind: Kind, key: string): string {
    if kind == List then "" else key
  }

  lemma {:induction false} ValidHook(cur: Ynode?)
    requires cur != null ==> cur.Valid()
    ensures cur != null ==> cur.tree.hook == cur.hook
  {
  }

  /** ynode_new and ynode_attach, logged. */
  method Begin(cur: Ynode?, src: Tree, parent: Ynode, key: string, log: Log, ghost up: seq<Ynode>) returns (node: Ynode)
    requires cur != null ==> cur.Valid()
    requires Placed(cur, parent, key, log, up)
    requires OpGet(TreeOf(cur), src).Create? || OpGet(TreeOf(cur), src).Replace?
    modifies parent`kids, log`records
    ensures fresh(node) && node.Valid() && node.kind == src.kind && node.repr == {node} &&
      node.tree == Begun(TreeOf(cur), src)
    ensures node.parent == parent && node.key == StepBelow(parent.kind, key)
    ensures parent.kids == Added(parent.kind, old(parent.kids), key, node)
    ensures log.records == old(log.records) + Prefix(PathOf(up), [Put([node.key], src.kind, src.value, src.tag)])
  {
    hide Placed, Added, Prefix, PathOf;
    PlacedUp(cur, parent, key, log, up);
    ValidHook(cur);
    node := new Ynode(src.kind, src.value, src.tag, src.origin, if cur == null then None else cur.hook);
    node.parent := parent;
    node.key := if parent.kind == List then "" else key;
    parent.kids := Added(parent.kind, parent.kids, key, node);
    log.PrintNode(node, false, up);
  }

  /** What one call leaves behind at the parent. */
  twostate predicate Settles(cur: Ynode?, src: Tree, parent: Ynode, key: string, new node: Ynode?)
    reads parent, cur, node, if node == null then {} else node.repr
  {
    var op := OpGet(old(TreeOf(cur)), src);
    (node == null <==> op.Delete?) &&
    (node != null ==>
       node.Valid() && node.parent == parent && node.key == StepBelow(parent.kind, key) &&
         Merged(old(TreeOf(cur)), src) == Some(node.tree) &&
       forall m :: m in node.repr ==> (cur != null && m in old(ReprOf(cur))) || fresh(m)) &&
    (op.Nothing? ==> node == cur) &&
    (op.Create? || op.Replace? ==> fresh(node) && fresh(node.repr)) &&
    (cur != null && !op.Nothing? ==> cur.tree == old(cur.tree)) &&
    parent.kids == KidsAfter(parent.kind, old(parent.kids), key, op, node)
  }

  /** ynode_control below a parent */
  method Control(cur: Ynode?, src: Tree, parent: Ynode, key: string, log: Log, ghost up: seq<Ynode>)
    returns (node: Ynode?)
    requires cur != null ==> cur.Valid()
    requires WellFormed(src) && Placed(cur, parent, key, log, up)
    modifies parent`kids, ReprOf(cur)`kids, ReprOf(cur)`origin, ReprOf(cur)`repr, ReprOf(cur)`tree, log`records
    ensures Settles(cur, src, parent, key, node)
    ensures log.records == old(log.records) +
      Prefix(PathOf(up), NodeLog(old(TreeOf(cur)), src, StepBelow(parent.kind, key)))
    decreases src, |src.kids| + 2
  {
    hide OpGet, Merged, NodeLog, PathOf, Prefix, Placed, Settles, WellFormed;
    var op := OpOf(cur, src);
    OpPlace(cur, src);
    match op
    case Delete =>
      DeleteHere(cur, src, parent, key, log, up);
      node := null;
    case Nothing =>
      MergeHere(cur, src, parent, key, log, up);
      node := cur;
    case _ =>
      node := MergeNew(cur, src, parent, key, log, up);
  }

  method DeleteHere(cur: Ynode, src: Tree, parent: Ynode, key: string, log: Log, ghost up: seq<Ynode>)
    requires cur.Valid() && Placed(cur, parent, key, log, up) && OpGet(TreeOf(cur), src).Delete?
    modifies parent`kids, log`records
    ensures Settles(cur, src, parent, key, null)
    ensures log.records == old(log.records) +
      Prefix(PathOf(up), NodeLog(old(TreeOf(cur)), src, StepBelow(parent.kind, key)))
  {
    hide IndexOf, KidTrees, PathOf, Prefix;
    InItself(cur);
    log.PrintNode(cur, true, up);
    parent.kids := Without(parent.kids, IndexOf(parent.kids, key));
  }

  method MergeHere(cur: Ynode, src: Tree, parent: Ynode, key: string, log: Log, ghost up: seq<Ynode>)
    requires cur.Valid() && WellFormed(src) && Placed(cur, parent, key, log, up) && OpGet(TreeOf(cur), src).Nothing?
    modifies cur.repr`kids, cur.repr`origin, cur.repr`repr, cur.repr`tree, log`records
    ensures Settles(cur, src, parent, key, cur)
    ensures log.records == old(log.records) +
      Prefix(PathOf(up), NodeLog(old(TreeOf(cur)), src, StepBelow(parent.kind, key)))
    decreases src, |src.kids| + 1
  {
    hide IndexOf, KidTrees, PathOf, Prefix, OpGet, WellFormed, KidsLog, MergedKids, Begun, Without, Added;
    InItself(cur);
    ghost var was, path := TreeOf(cur), PathOf(up);
    Touch(cur, src);
    BegunValue(was, src);
    MergeKids(cur, src, log, [cur] + up);
    PathUp(cur, up);
    PrefixUnder(path, key, KidsLog(Begun(was, src), src, |src.kids|));
  }

  method MergeNew(cur: Ynode?, src: Tree, parent: Ynode, key: string, log: Log, ghost up: seq<Ynode>)
    returns (node: Ynode)
    requires cur != null ==> cur.Valid()
    requires WellFormed(src) && Placed(cur, parent, key, log, up)
    requires OpGet(TreeOf(cur), src).Create? || OpGet(TreeOf(cur), src).Replace?
    modifies parent`kids, log`records
    ensures Settles(cur, src, parent, key, node)
    ensures log.records == old(log.records) +
      Prefix(PathOf(up), NodeLog(old(TreeOf(cur)), src, StepBelow(parent.kind, key)))
    decreases src, |src.kids| + 1
  {
    hide IndexOf, KidTrees, PathOf, Prefix, OpGet, WellFormed, KidsLog, MergedKids, Begun, Without, Added, Ynode.Valid,
      Placed, Merged, NodeLog;
    PlacedUp(cur, parent, key, log, up);
    ghost var was, path := TreeOf(cur), PathOf(up);
    node := Begin(cur, src, parent, key, log, up);
    BegunValue(was, src);
    assert node.tree.kind == src.kind;
    MergeKids(node, src, log, [node] + up);
    PathUp(node, up);
    NewNode(was, src, node.key, path);
  }

  /** What a merge that creates or replaces makes and logs. */
  lemma {:induction false} NewNode(cur: Option<Tree>, src: Tree, step: string, path: seq<string>)
    requires OpGet(cur, src).Create? || OpGet(cur, src).Replace?
    ensures var below := KidsLog(Begun(cur, src), src, |src.kids|);
      Prefix(path, NodeLog(cur, src, step)) == Prefix(path, [Put([step], src.kind, src.value, src.tag)]) +
        Prefix(path + [step], below)
    ensures Merged(cur, src) == Some(MergedKids(Begun(cur, src), src, |src.kids|))
  {
    hide Prefix, KidsLog, MergedKids, Begun;
    var below := KidsLog(Begun(cur, src), src, |src.kids|);
    PrefixUnder(path, step, below);
    PrefixConcat(path, [Put([step], src.kind, src.value, src.tag)], ChangeLog.Under(step, below));
  }

  lemma {:induction false} BegunValue(cur: Option<Tree>, src: Tree)
    requires !OpGet(cur, src).Delete? && WellFormed(src)
    ensures Begun(cur, src).kind == Val ==> src.kids == []
    ensures !OpGet(cur, src).Nothing? ==> Begun(cur, src).kind == src.kind
  {
  }

  lemma {:induction false} PathUp(n: Ynode, up: seq<Ynode>)
    requires up != []
    ensures PathOf([n] + up) == PathOf(up) + [n.key]
  {
    assert ([n] + up)[1..] == up;
  }

  /** The origin of a value follows the source. */
  method Touch(cur: Ynode, src: Tree)
    requires cur.Valid() && OpGet(Some(cur.tree), src).Nothing?
    modifies cur`origin, cur`tree
    ensures cur.Valid() && cur.tree == Begun(Some(old(cur.tree)), src)
  {
    if src.kind == Val && cur.origin != 0 {
      cur.origin := src.origin;
      cur.tree := cur.tree.(origin := src.origin);
    }
  }

  /** Merges every child of the source in turn. */
  method MergeKids(node: Ynode, src: Tree, log: Log, ghost up: seq<Ynode>)
    requires node.Valid() && WellFormed(src) && (node.kind == Val ==> src.kids == [])
    requires up != [] && up[0] == node && log.Chain(up) && forall i :: 1 <= i < |up| ==> up[i] !in node.repr
    modifies node.repr`kids, node.repr`origin, node.repr`repr, node.repr`tree, log`records
    ensures node.Valid() && node.tree == MergedKids(old(node.tree), src, |src.kids|)
    ensures forall m :: m in node.repr ==> m in old(node.repr) || fresh(m)
    ensures log.records == old(log.records) + Prefix(PathOf(up), KidsLog(old(node.tree), src, |src.kids|))
    decreases src, |src.kids|
  {
    hide *;
    ghost var t := node.tree;
    NoKids(t, src, PathOf(up));
    for i := 0 to |src.kids|
      invariant node.Valid() && node.tree == MergedKids(t, src, i)
      invariant forall m :: m in node.repr ==> m in old(node.repr) || fresh(m)
      invariant log.records == old(log.records) + Prefix(PathOf(up), KidsLog(t, src, i))
    {
      NextKid(t, src, i, PathOf(up));
      MergeKid(node, src, i, log, up);
    }
  }

  lemma {:induction false} NoKids(t: Tree, src: Tree, path: seq<string>)
    ensures MergedKids(t, src, 0) == t && Prefix(path, KidsLog(t, src, 0)) == []
  {
  }

  lemma {:induction false} NextKid(t: Tree, src: Tree, i: nat, path: seq<string>)
    requires i < |src.kids|
    ensures var u, e := MergedKids(t, src, i), src.kids[i];
      var cur := Partner(u, e.key);
      MergedKids(t, src, i + 1) == Settled(u, e.key, OpGet(cur, e.node), Merged(cur, e.node))
      && Prefix(path, KidsLog(t, src, i + 1)) == Prefix(path, KidsLog(t, src, i)) +
        Prefix(path, NodeLog(cur, e.node, Step(u, e.key)))
  {
    MergedKidsHead(t, src, i);
    var u, e := MergedKids(t, src, i), src.kids[i];
    PrefixConcat(path, KidsLog(t, src, i), NodeLog(Partner(u, e.key), e.node, Step(u, e.key)));
  }

  /** The child to merge with, and that the others have nothing to do with it. */
  lemma {:induction false} FoundChild(node: Ynode, key: string)
    requires node.Valid()
    ensures var c, p := Found(node, key), PlaceOf(node.kind, node.kids, key);
      var d := Without(node.kids, p);
      (c == null <==> p == |node.kids|) && Partner(node.tree, key) == TreeOf(c) && ReprOf(c) <= node.repr - {node}
      && (c != null ==>
        c == node.kids[p].node && node.kids[p].key == key && c.Valid() && c.parent == node && c.key == key)
      && GoodKids(node, d) && Footprint(d) !! ReprOf(c) && node !in Footprint(d) && Footprint(d) <= node.repr
      && (forall e :: e in d ==> e.node in Footprint(d))
      && (forall i :: 0 <= i < |node.kids| && i != p ==> node.kids[i].node in Footprint(d))
  {
    hide GoodKids, KidTrees;
    var c, p := Found(node, key), PlaceOf(node.kind, node.kids, key);
    ValidKids(node);
    GoodDropped(node, node.kids, p);
    SameKeys(node.kids, KidTrees(node.kids), key);
    FoundApart(node, p);
    assert c != null ==> node.kids[p] == Entry(key, c);
    KidsItself(node, node.kids);
  }

  lemma {:induction false} KidsItself(n: Ynode, kids: seq<Entry<Ynode>>)
    requires GoodKids(n, kids)
    ensures forall i :: 0 <= i < |kids| ==>
      GoodKid(n, kids[i]) && kids[i].node in kids[i].node.repr && n !in kids[i].node.repr
  {
    forall i | 0 <= i < |kids| ensures kids[i].node in kids[i].node.repr && n !in kids[i].node.repr {
      assert GoodKid(n, kids[i]);
      InItself(kids[i].node);
    }
  }

  lemma {:induction false} FoundApart(node: Ynode, p: nat)
    requires node.Valid() && p <= |node.kids|
    ensures var d := Without(node.kids, p);
      (p < |node.kids| ==> Footprint(d) !! node.kids[p].node.repr) && node !in Footprint(d) && Footprint(d) <= node.repr
      && (forall e :: e in d ==> e.node in Footprint(d))
      && (forall i :: 0 <= i < |node.kids| && i != p ==> node.kids[i].node in Footprint(d))
  {
    hide GoodKid, KidTrees, Footprint, Ynode.Valid, Without, GoodKids;
    ValidKids(node);
    var kids, d := node.kids, Without(node.kids, p);
    KidsItself(node, kids);
    DroppedEntries(kids, p);
    GoodDropped(node, kids, p);
    FootprintHolds(node, d);
    assert forall e :: e in d ==> e.node.repr <= node.repr && node !in e.node.repr;
    FootprintWithin(d, node.repr);
    FootprintApart(d, {node});
    if p < |kids| {
      SiblingsApart(node, kids, p);
      FootprintApart(d, kids[p].node.repr);
    }
  }

  lemma {:induction false} SiblingsApart(n: Ynode, kids: seq<Entry<Ynode>>, p: nat)
    requires GoodKids(n, kids) && p < |kids|
    ensures forall e :: e in Without(kids, p) ==> e.node.repr !! kids[p].node.repr
  {
    hide GoodKid;
    var d := Without(kids, p);
    forall j | 0 <= j < |d| ensures d[j].node.repr !! kids[p].node.repr {
      assert d[j] == kids[if j < p then j else j + 1];
    }
  }

  lemma {:induction false} FootprintHolds(n: Ynode, kids: seq<Entry<Ynode>>)
    requires GoodKids(n, kids)
    ensures forall e :: e in kids ==> e.node in Footprint(kids)
  {
    KidsItself(n, kids);
  }

  lemma {:induction false} FootprintWithin(kids: seq<Entry<Ynode>>, all: set<Ynode>)
    requires forall e :: e in kids ==> e.node.repr <= all
    ensures Footprint(kids) <= all
  {
  }

  lemma {:induction false} FootprintApart(kids: seq<Entry<Ynode>>, other: set<Ynode>)
    requires forall e :: e in kids ==> e.node.repr !! other
    ensures Footprint(kids) !! other
  {
  }

  /** The trees of the children afterwards, when only that of the merged one may have changed. */
  lemma {:induction false} SettledTrees(t: Tree, kids: seq<Entry<Ynode>>, key: string, op: Op, c: Ynode?)
    requires |t.kids| == |kids| && forall j :: 0 <= j < |kids| ==> kids[j].key == t.kids[j].key
    requires var p := PlaceOf(t.kind, kids, key);
      (forall j :: 0 <= j < |kids| && (j != p || !op.Nothing?) ==> kids[j].node.tree == t.kids[j].node)
      && (op.Nothing? ==> p < |kids| && c == kids[p].node) && (c == null <==> op.Delete?)
    ensures t.(kids := KidTrees(KidsAfter(t.kind, kids, key, op, c))) == Settled(t, key, op, TreeOf(c))
  {
    hide IndexOf, Rank, KidTrees, Added;
    SameKeys(kids, t.kids, key);
    if c == null {
      TreesDropped(kids, IndexOf(kids, key));
      assert KidTrees(kids) == t.kids;
    } else if op.Nothing? {
      var p := IndexOf(kids, key);
      assert KidTrees(kids) == t.kids[p := t.kids[p].(node := c.tree)];
    } else {
      TreesAdded(t.kind, kids, key, c);
      assert KidTrees(kids) == t.kids;
    }
  }

  /** The children of a node are in order again once one of them has been settled. */
  lemma {:induction false} SettledGood(node: Ynode, kind: Kind, kids: seq<Entry<Ynode>>, key: string, op: Op, c: Ynode?)
    requires var p := PlaceOf(kind, kids, key);
      var d := Without(kids, p);
      GoodKids(node, d) && (c == null <==> op.Delete?) && (op.Delete? || op.Nothing? ==> p < |kids|)
      && (c != null ==> Apart(c, d) && GoodKid(node, Entry(StepBelow(kind, key), c)))
      && (op.Nothing? ==> kids[p] == Entry(key, c))
    ensures GoodKids(node, KidsAfter(kind, kids, key, op, c))
  {
    hide GoodKids, GoodKid, Apart, IndexOf, Added;
    if op.Nothing? {
      var p := PlaceOf(kind, kids, key);
      GoodReplaced(node, kids, p, Entry(key, c));
      assert kids[p := Entry(key, c)] == kids;
    } else if c != null {
      GoodAdded(node, kind, kids, key, c);
    }
  }

  lemma {:induction false} AfterNodes(kind: Kind, kids: seq<Entry<Ynode>>, key: string, op: Op, c: Ynode?)
    requires var p := PlaceOf(kind, kids, key);
      (op.Delete? <==> c == null) && (op.Delete? ==> p < |kids|) && (op.Nothing? ==> p < |kids| && kids[p].node == c)
    ensures Footprint(KidsAfter(kind, kids, key, op, c)) <= Footprint(Without(kids, PlaceOf(kind, kids, key))) +
      ReprOf(c)
  {
    hide IndexOf, Rank, Footprint;
    var p := PlaceOf(kind, kids, key);
    var d, after := Without(kids, p), KidsAfter(kind, kids, key, op, c);
    DroppedEntries(kids, p);
    assert forall e :: e in after ==> e.node == c || e in d;
    forall e | e in after ensures e.node.repr <= Footprint(d) + ReprOf(c) {
      if e in d {
        FootprintOf(d, e);
      }
    }
    FootprintWithin(after, Footprint(d) + ReprOf(c));
  }

  lemma {:induction false} FootprintOf(kids: seq<Entry<Ynode>>, e: Entry<Ynode>)
    requires e in kids
    ensures e.node.repr <= Footprint(kids)
  {
  }

  lemma {:induction false} NewKid(node: Ynode, e: Entry<Ynode>, kids: seq<Entry<Ynode>>)
    requires e.node.Valid() && node !in e.node.repr && e.node.parent == node && e.node.key == e.key
    requires Footprint(kids) !! e.node.repr
    ensures GoodKid(node, e) && Apart(e.node, kids)
  {
  }

  lemma {:induction false} OpPlace(c: Ynode?, src: Tree)
    ensures var op := OpGet(TreeOf(c), src); (op.Nothing? || op.Delete? ==> c != null)
  {
  }

  lemma {:induction false} MergedNone(cur: Option<Tree>, src: Tree)
    ensures Merged(cur, src).None? <==> OpGet(cur, src).Delete?
  {
  }

  /** A node whose children have changed is brought up to date. */
  ghost method Refresh(node: Ynode)
    requires GoodKids(node, node.kids)
    requires node.tree.(kids := []) == Tree(node.kind, node.value, node.tag, node.origin, node.hook, [])
    modifies node`repr, node`tree
    ensures node.Valid() && node.repr == {node} + Footprint(node.kids)
    ensures node.tree == old(node.tree).(kids := KidTrees(node.kids))
  {
    hide KidTrees;
    KidsItself(node, node.kids);
    node.repr := {node} + Footprint(node.kids);
    node.tree := node.tree.(kids := KidTrees(node.kids));
    KidsValid(node);
  }

  method MergeKid(node: Ynode, src: Tree, i: nat, log: Log, ghost up: seq<Ynode>)
    requires node.Valid() && WellFormed(src) && node.kind != Val && i < |src.kids|
    requires up != [] && up[0] == node && log.Chain(up) && forall i :: 1 <= i < |up| ==> up[i] !in node.repr
    modifies node.repr`kids, node.repr`origin, node.repr`repr, node.repr`tree, log`records
    ensures node.Valid()
    ensures var t, e := old(node.tree), src.kids[i];
      node.tree == Settled(t, e.key, OpGet(Partner(t, e.key), e.node), Merged(Partner(t, e.key), e.node))
      && log.records == old(log.records) + Prefix(PathOf(up), NodeLog(Partner(t, e.key), e.node, Step(t, e.key)))
    ensures forall m :: m in node.repr ==> m in old(node.repr) || fresh(m)
    decreases src, 0
  {
    hide IndexOf, KidTrees, GoodKids, GoodKid, Footprint, WellFormed, OpGet, Merged, NodeLog, PathOf, Prefix, Settled,
      Added, Without, KidsAfter, Partner, Found, Ynode.Valid;
    var e := src.kids[i];
    var child := Found(node, e.key);
    ghost var kids, t, all := node.kids, node.tree, node.repr;
    ghost var p := PlaceOf(node.kind, kids, e.key);
    ghost var d := Without(kids, p);
    ghost var others, op := Footprint(d), OpGet(TreeOf(child), e.node);
    ValidKids(node);
    FoundChild(node, e.key);
    KidWellFormed(src, i);
    OpPlace(child, e.node);
    assert Placed(child, node, e.key, log, up);
    var c := Control(child, e.node, node, e.key, log, up);
    assert GoodKids(node, d);
    assert Footprint(d) == others;
    MergedNone(TreeOf(child), e.node);
    if c != null {
      NewKid(node, Entry(StepBelow(node.kind, e.key), c), d);
    }
    SettledTrees(t, kids, e.key, op, c);
    SettledGood(node, node.kind, kids, e.key, op, c);
    AfterNodes(node.kind, kids, e.key, op, c);
    Refresh(node);
  }

  /** ynode_merge into a tree that has something at the top, with the log opened on it. */
  method MergeTop(dest: Ynode, src: Tree) returns (top: Ynode?, records: seq<Record>)
    requires dest.Valid() && dest.parent == null && WellFormed(src)
    modifies dest.repr`kids, dest.repr`origin, dest.repr`repr, dest.repr`tree
    ensures if top == null then Merged(Some(old(dest.tree)), src) == None
            else top.Valid() && top.parent == null && Merged(Some(old(dest.tree)), src) == Some(top.tree)
    ensures top != null ==> forall m :: m in top.repr ==> m in old(dest.repr) || fresh(m)
    ensures records == MergeLog(old(dest.tree), src)
  {
    hide IndexOf, KidTrees, Prefix, WellFormed, KidsLog, MergedKids, Ynode.Valid;
    var op := OpOf(dest, src);
    ghost var was := dest.tree;
    if op.Delete? {
      return null, [];
    }
    InItself(dest);
    if op.Nothing? {
      top := dest;
      Touch(dest, src);
    } else {
      ValidHook(dest);
      top := new Ynode(src.kind, src.value, src.tag, src.origin, dest.hook);
    }
    BegunValue(Some(was), src);
    var log := new Log(top);
    MergeKids(top, src, log, [top]);
    PrefixNothing(KidsLog(Begun(Some(was), src), src, |src.kids|));
    records := log.records;
  }

  /** Merging the same source twice: the second time nothing changes and nothing is logged, exactly if
      the source has no list entries and, below its top, no delete tags. */
  method MergeTwice(dest: Ynode, src: Tree) returns (top: Ynode, first: seq<Record>, second: seq<Record>)
    requires dest.Valid() && dest.parent == null && WellFormed(dest.tree) && WellFormed(src) &&
      src.tag != Some(DELETE_TAG)
    modifies dest.repr`kids, dest.repr`origin, dest.repr`repr, dest.repr`tree
    ensures top.Valid() && top.parent == null && first == MergeLog(old(dest.tree), src)
    ensures (second == [] && Some(top.tree) == Merged(Some(old(dest.tree)), src)) <==> Quiet(src)
  {
    hide WellFormed, Merged, MergeLog, Quiet, Ynode.Valid;
    ghost var was := dest.tree;
    NotDeleted(Some(was), src);
    RepublishedUnlessQuiet(Some(was), src);
    var once, twice;
    once, first := MergeTop(dest, src);
    NotDeleted(Some(once.tree), src);
    twice, second := MergeTop(once, src);
    top := twice;
  }

  lemma {:induction false} PrefixNothing(recs: seq<Record>)
    ensures Prefix([], recs) == recs
  {
    forall i | 0 <= i < |recs| ensures Prefix([], recs)[i] == recs[i] {
      assert [] + recs[i].path == recs[i].path;
    }
  }
}
