/** ydb/ynode.c: ynode_control merging a source into a tree, what comes of it, and its change log. */
module Merge {
  import opened Common
  import opened YNode

  const DELETE_TAG := "!ydb!delete"

  datatype Op = Nothing | Create | Replace | Delete

  /** ynode_op_get, for a source that is there. */
  function OpGet(cur: Option<Tree>, src: Tree): Op {
    if cur.None? then Create
    else if src.tag == Some(DELETE_TAG) then Delete
    else if cur.value.kind == src.kind then
      if src.kind == Val && cur.value.value != src.value then Replace else Nothing
    else if MapLike(cur.value.kind) && MapLike(src.kind) then Nothing
    else Replace
  }

  /** The node itself stays: it is a value of the same text, or both are lists, or both are maps of any
      kind. */
  predicate Keeps(cur: Tree, src: Tree) {
    src.tag != Some("!ydb!delete") &&
    if cur.kind == Val || src.kind == Val then cur.kind == src.kind && cur.value == src.value
    else cur.kind == List <==> src.kind == List
  }

  lemma {:induction false} OpGetIs(cur: Tree, src: Tree)
    ensures OpGet(Some(cur), src).Nothing? <==> Keeps(cur, src)
    ensures OpGet(Some(cur), src).Delete? <==> src.tag == Some("!ydb!delete")
    ensures OpGet(Some(cur), src) != Create && OpGet(None, src) == Create
  {
  }

  /** The node as it is before the children of the source are merged: a new one that keeps the old
      one's hook, or the old one, whose origin follows the source if it is a value that had one. */
  function Begun(cur: Option<Tree>, src: Tree): Tree {
    if OpGet(cur, src).Nothing? then
      if src.kind == Val && cur.value.origin != 0 then cur.value.(origin := src.origin) else cur.value
    else
      Tree(src.kind, src.value, src.tag, src.origin, if cur.Some? then cur.value.hook else None, [])
  }

  /** The node that the source's child `key` is merged with: a list never looks for one. */
  function Partner(t: Tree, key: string): Option<Tree> {
    if t.kind == List then None else Child(t, key)
  }

  /** The merged child takes its place below `t`: where it was, where attaching puts it, or nowhere. */
  function Settled(t: Tree, key: string, op: Op, node: Option<Tree>): (r: Tree)
    ensures r == t.(kids := r.kids)
  {
    if node.None? then Detach(t, key)
    else if op.Nothing? && IndexOf(t.kids, key) < |t.kids| then Update(t, IndexOf(t.kids, key), node.value)
    else Attach(t, key, node.value)
  }

  /** The tree at the end of ynode_control; None if it was deleted. */
  function Merged(cur: Option<Tree>, src: Tree): Option<Tree>
    decreases src, |src.kids| + 1
  {
    if OpGet(cur, src).Delete? then None else Some(MergedKids(Begun(cur, src), src, |src.kids|))
  }

  /** `t` after the first `n` children of `src` have been merged into it. */
  function MergedKids(t: Tree, src: Tree, n: nat): Tree
    requires n <= |src.kids|
    decreases src, n
  {
    if n == 0 then t
    else
      var u, e := MergedKids(t, src, n - 1), src.kids[n - 1];
      var cur := Partner(u, e.key);
      Settled(u, e.key, OpGet(cur, e.node), Merged(cur, e.node))
  }

  lemma {:induction false} BegunWellFormed(cur: Option<Tree>, src: Tree)
    requires (cur.Some? ==> WellFormed(cur.value)) && WellFormed(src) && !OpGet(cur, src).Delete?
    ensures WellFormed(Begun(cur, src)) && (Begun(cur, src).kind == Val <==> src.kind == Val)
    ensures Begun(cur, src).kind == List <==> src.kind == List
  {
    hide KeyCmp;
  }

  lemma {:induction false} PartnerWellFormed(t: Tree, key: string)
    requires WellFormed(t)
    ensures Partner(t, key).Some? ==> WellFormed(Partner(t, key).value)
  {
    hide IndexOf, Kept;
  }

  /** Merging keeps every container in order: unique keys, ascending where it sorts them. */
  lemma {:induction false} MergeKeepsOrder(cur: Option<Tree>, src: Tree)
    requires (cur.Some? ==> WellFormed(cur.value)) && WellFormed(src) && !OpGet(cur, src).Delete?
    ensures WellFormed(Merged(cur, src).value)
    decreases src, |src.kids| + 1
  {
    hide WellFormed, Begun;
    BegunWellFormed(cur, src);
    MergeKidsKeepsOrder(Begun(cur, src), src, |src.kids|);
  }

  /** Merging children leaves the node itself alone. */
  lemma {:induction false} MergedKidsHead(t: Tree, src: Tree, n: nat)
    requires n <= |src.kids|
    ensures MergedKids(t, src, n) == t.(kids := MergedKids(t, src, n).kids)
    decreases n
  {
    if n > 0 {
      MergedKidsHead(t, src, n - 1);
    }
  }

  lemma {:induction false} MergeKidsKeepsOrder(t: Tree, src: Tree, n: nat)
    requires n <= |src.kids| && WellFormed(t) && WellFormed(src) && (t.kind == Val <==> src.kind == Val)
    ensures WellFormed(MergedKids(t, src, n)) && MergedKids(t, src, n).kind == t.kind
    decreases src, n
  {
    hide WellFormed, Settled, Partner, Merged, OpGet;
    if n > 0 {
      var u, e := MergedKids(t, src, n - 1), src.kids[n - 1];
      MergeKidsKeepsOrder(t, src, n - 1);
      PartnerWellFormed(u, e.key);
      KidWellFormed(src, n - 1);
      var cur := Partner(u, e.key);
      if !OpGet(cur, e.node).Delete? {
        MergeKeepsOrder(cur, e.node);
      }
      MergedDeleted(cur, e.node);
      SettledWellFormed(u, e.key, OpGet(cur, e.node), Merged(cur, e.node));
    }
  }

  lemma {:induction false} MergedDeleted(cur: Option<Tree>, src: Tree)
    ensures Merged(cur, src).None? <==> OpGet(cur, src).Delete?
  {
  }

  lemma {:induction false} SettledWellFormed(t: Tree, key: string, op: Op, node: Option<Tree>)
    requires WellFormed(t) && t.kind != Val && (node.Some? ==> WellFormed(node.value))
    ensures WellFormed(Settled(t, key, op, node))
  {
    hide WellFormed, IndexOf, Attach, Detach, Update;
    DetachWellFormed(t, key);
    if node.Some? {
      AttachWellFormed(t, key, node.value);
      if IndexOf(t.kids, key) < |t.kids| {
        UpdateWellFormed(t, IndexOf(t.kids, key), node.value);
      }
    }
  }

  lemma {:induction false} PartnerIsChild(t: Tree, key: string)
    ensures Partner(t, key).Some? ==>
      IndexOf(t.kids, key) < |t.kids| && t.kind != List
      && t.kids[IndexOf(t.kids, key)] == Entry(key, Partner(t, key).value)
  {
  }

  lemma {:induction false} KidWellFormed(t: Tree, i: nat)
    requires WellFormed(t) && i < |t.kids|
    ensures WellFormed(t.kids[i].node) && t.kind != Val
  {
  }
}
