/** ydb_delete (ydb/ydb.c) over ynode_traverse and ynode_lookup (ydb/ynode.c): deleting what a source
    points at. */
module Deletion {
  import opened Common
  import opened YNode
  import opened Merge
  import opened ChangeLog
  import opened MergeLaws

  /** ynode_find_child: a key is looked up, and taken as a number in a list. */
  function Place(t: Tree, key: string): (i: nat)
    ensures i <= |t.kids|
  {
    if MapLike(t.kind) then IndexOf(t.kids, key)
    else if t.kind == List && 0 <= Atoi(key) < |t.kids| then Atoi(key)
    else |t.kids|
  }

  /** The node at the end of a path, if there is one. */
  function At(t: Tree, path: seq<string>): Option<Tree> {
    if path == [] then Some(t)
    else
      var i := Place(t, path[0]);
      if i < |t.kids| then At(t.kids[i].node, path[1..]) else None
  }

  // ---------- the traversal of the source ----------

  /** The paths that are visited, and whether the traversal broke off: it does at a list or ordered
      map without entries. */
  datatype Walk = Walk(paths: seq<seq<string>>, stopped: bool)

  /** None of the paths ends at the top. */
  ghost predicate Below(paths: seq<seq<string>>) {
    forall i :: 0 <= i < |paths| ==> paths[i] != []
  }

  /** ynode_lookup ignores the index of a list entry in the source and asks for the first one. */
  function SourceStep(src: Tree, e: Entry<Tree>): string {
    if src.kind == List then "0" else e.key
  }

  function Prefixed(step: string, paths: seq<seq<string>>): (r: seq<seq<string>>)
    ensures |r| == |paths| && forall i :: 0 <= i < |r| ==> r[i] == [step] + paths[i]
  {
    seq(|paths|, i requires 0 <= i < |paths| => [step] + paths[i])
  }

  /** ynode_traverse with YNODE_LEAF_FIRST and YNODE_LEAF_ONLY */
  function Leaves(src: Tree): Walk
    decreases src, |src.kids| + 1
  {
    if src.kids != [] then LeavesBelow(src, |src.kids|)
    else if src.kind == List || src.kind == OMap then Walk([], true)
    else Walk([[]], false)
  }

  function LeavesBelow(src: Tree, n: nat): (w: Walk)
    requires n <= |src.kids|
    ensures Below(w.paths)
    decreases src, n
  {
    if n == 0 then Walk([], false)
    else
      var w, e := LeavesBelow(src, n - 1), src.kids[n - 1];
      if w.stopped then w
      else Walk(w.paths + Prefixed(SourceStep(src, e), Leaves(e.node).paths), Leaves(e.node).stopped)
  }

  /** The traversal comes to its end exactly if the source has no empty list or ordered map. */
  ghost predicate NoEmptySequence(src: Tree) {
    (src.kind == List || src.kind == OMap ==> src.kids != []) &&
    forall i :: 0 <= i < |src.kids| ==> NoEmptySequence(src.kids[i].node)
  }

  lemma {:induction false} WalkEnds(src: Tree)
    ensures !Leaves(src).stopped <==> NoEmptySequence(src)
    decreases src, |src.kids| + 1
  {
    WalkEndsBelow(src, |src.kids|);
  }

  lemma {:induction false} WalkEndsBelow(src: Tree, n: nat)
    requires n <= |src.kids|
    ensures !LeavesBelow(src, n).stopped <==> forall i :: 0 <= i < n ==> NoEmptySequence(src.kids[i].node)
    decreases src, n
  {
    if n > 0 {
      WalkEndsBelow(src, n - 1);
      WalkEnds(src.kids[n - 1].node);
    }
  }

  // ---------- which paths those are ----------

  /** A way down the source by places among the children that ends where there are none. */
  predicate IsLeafWay(src: Tree, way: seq<nat>)
    decreases |way|
  {
    if way == [] then src.kids == [] else way[0] < |src.kids| && IsLeafWay(src.kids[way[0]].node, way[1..])
  }

  /** The keys on the way, with "0" for a step into a list. */
  function KeysOn(src: Tree, way: seq<nat>): (keys: seq<string>)
    requires IsLeafWay(src, way)
    ensures |keys| == |way|
    decreases |way|
  {
    if way == [] then []
    else [if src.kind == List then "0" else src.kids[way[0]].key] + KeysOn(src.kids[way[0]].node, way[1..])
  }

  /** The ways in the order in which their ends come. */
  predicate Before(a: seq<nat>, b: seq<nat>)
    decreases |a|
  {
    a != [] && b != [] && (a[0] < b[0] || (a[0] == b[0] && Before(a[1..], b[1..])))
  }

  /** `ways` are ways to leaves behind the first `n` children, each once, in order, and `paths` their keys. */
  ghost predicate Listed(src: Tree, n: nat, ways: seq<seq<nat>>, paths: seq<seq<string>>) {
    |ways| == |paths| &&
    (forall k :: 0 <= k < |ways| ==> IsLeafWay(src, ways[k]) && ways[k] != [] && ways[k][0] < n) &&
    (forall k :: 0 <= k < |ways| ==> paths[k] == KeysOn(src, ways[k])) &&
    (forall j, k :: 0 <= j < k < |ways| ==> Before(ways[j], ways[k])) &&
    forall way :: IsLeafWay(src, way) && way != [] && way[0] < n ==> way in ways
  }

  /** The same of all leaves, where the source itself may be one. */
  ghost predicate ListsLeaves(src: Tree, ways: seq<seq<nat>>, paths: seq<seq<string>>) {
    |ways| == |paths| &&
    (forall k :: 0 <= k < |ways| ==> IsLeafWay(src, ways[k]) && paths[k] == KeysOn(src, ways[k])) &&
    (forall j, k :: 0 <= j < k < |ways| ==> Before(ways[j], ways[k])) &&
    forall way :: IsLeafWay(src, way) ==> way in ways
  }

  function Via(i: nat, ways: seq<seq<nat>>): (r: seq<seq<nat>>)
    ensures |r| == |ways| && forall k :: 0 <= k < |r| ==> r[k] == [i] + ways[k]
  {
    seq(|ways|, k requires 0 <= k < |ways| => [i] + ways[k])
  }

  /** The traversal visits the leaves of the source, each once and in order, by the keys on the way. */
  lemma {:induction false} LeavesListed(src: Tree) returns (ways: seq<seq<nat>>)
    requires NoEmptySequence(src)
    ensures ListsLeaves(src, ways, Leaves(src).paths)
    decreases src, |src.kids| + 1
  {
    hide LeavesBelow, Before, KeysOn, NoEmptySequence;
    LeavesInside(src);
    WalkEnds(src);
    if src.kids == [] {
      ways := [[]];
      NoKeysOn(src);
    } else {
      ways := LeavesBelowListed(src, |src.kids|);
    }
  }

  lemma {:induction false} NoKeysOn(src: Tree)
    ensures IsLeafWay(src, []) ==> KeysOn(src, []) == []
  {
  }

  lemma {:induction false} LeavesBelowListed(src: Tree, n: nat) returns (ways: seq<seq<nat>>)
    requires n <= |src.kids| && NoEmptySequence(src)
    ensures Listed(src, n, ways, LeavesBelow(src, n).paths) && !LeavesBelow(src, n).stopped
    decreases src, n
  {
    hide Leaves, Before, KeysOn, Listed, ListsLeaves;
    WalkEndsBelow(src, n);
    if n == 0 {
      ways := [];
      NoneListed(src);
    } else {
      var e := src.kids[n - 1];
      var front := LeavesBelowListed(src, n - 1);
      var below := LeavesListed(e.node);
      ways := front + Via(n - 1, below);
      OneListed(src, n - 1, below, Leaves(e.node).paths);
      ListedConcat(src, n - 1, front, LeavesBelow(src, n - 1).paths, Via(n - 1, below),
                   Prefixed(SourceStep(src, e), Leaves(e.node).paths));
    }
  }

  lemma {:induction false} NoneListed(src: Tree)
    ensures Listed(src, 0, [], LeavesBelow(src, 0).paths)
  {
  }

  /** The leaves behind one child. */
  ghost predicate ListedAt(src: Tree, i: nat, ways: seq<seq<nat>>, paths: seq<seq<string>>) {
    |ways| == |paths| &&
    (forall k :: 0 <= k < |ways| ==> IsLeafWay(src, ways[k]) && ways[k] != [] && ways[k][0] == i) &&
    (forall k :: 0 <= k < |ways| ==> paths[k] == KeysOn(src, ways[k])) &&
    (forall j, k :: 0 <= j < k < |ways| ==> Before(ways[j], ways[k])) &&
    forall way :: IsLeafWay(src, way) && way != [] && way[0] == i ==> way in ways
  }

  lemma {:induction false} OneListed(src: Tree, i: nat, below: seq<seq<nat>>, paths: seq<seq<string>>)
    requires i < |src.kids| && ListsLeaves(src.kids[i].node, below, paths)
    ensures ListedAt(src, i, Via(i, below), Prefixed(SourceStep(src, src.kids[i]), paths))
  {
    var ways, r := Via(i, below), Prefixed(SourceStep(src, src.kids[i]), paths);
    forall k | 0 <= k < |ways| ensures IsLeafWay(src, ways[k]) && ways[k][0] == i && r[k] == KeysOn(src, ways[k]) {
      assert ways[k][1..] == below[k];
    }
    forall j, k | 0 <= j < k < |ways| ensures Before(ways[j], ways[k]) {
      assert ways[j][1..] == below[j] && ways[k][1..] == below[k];
    }
    forall way | IsLeafWay(src, way) && way != [] && way[0] == i ensures way in ways {
      assert IsLeafWay(src.kids[i].node, way[1..]) && way[1..] in below;
      var k :| 0 <= k < |below| && below[k] == way[1..];
      assert way == ways[k];
    }
  }

  lemma {:induction false} ListedConcat(src: Tree, n: nat, a: seq<seq<nat>>, p: seq<seq<string>>, b: seq<seq<nat>>,
                                        q: seq<seq<string>>)
    requires Listed(src, n, a, p) && ListedAt(src, n, b, q)
    ensures Listed(src, n + 1, a + b, p + q)
  {
    hide IsLeafWay, KeysOn;
    var ways := a + b;
    forall j, k | 0 <= j < k < |ways| ensures Before(ways[j], ways[k]) {
      if j < |a| && k >= |a| {
        assert ways[j] == a[j] && ways[k] == b[k - |a|];
      }
    }
    forall way | IsLeafWay(src, way) && way != [] && way[0] < n + 1 ensures way in ways {
      assert way in a || way in b;
    }
  }

  /** The paths visited are those to the nodes without children, if the source has no lists. */
  lemma {:induction false} LeavesAreLeaves(src: Tree, q: seq<string>)
    requires WellFormed(src) && NoEmptySequence(src) && Listless(src)
    ensures q in Leaves(src).paths <==> At(src, q).Some? && At(src, q).value.kids == []
  {
    hide Leaves, WellFormed, Listless;
    var ways := LeavesListed(src);
    var paths := Leaves(src).paths;
    if q in paths {
      var k :| 0 <= k < |paths| && paths[k] == q;
      WayLeads(src, ways[k]);
    }
    if At(src, q).Some? && At(src, q).value.kids == [] {
      var way := WayOf(src, q);
      var k :| 0 <= k < |ways| && ways[k] == way;
      assert paths[k] == q;
    }
  }

  ghost predicate Listless(src: Tree) {
    src.kind != List && forall i :: 0 <= i < |src.kids| ==> Listless(src.kids[i].node)
  }

  lemma {:induction false} WayLeads(src: Tree, way: seq<nat>)
    requires WellFormed(src) && Listless(src) && IsLeafWay(src, way)
    ensures At(src, KeysOn(src, way)).Some? && At(src, KeysOn(src, way)).value.kids == []
    decreases |way|
  {
    hide WellFormed;
    if way != [] {
      PlaceOfKid(src, way[0]);
      ListlessBelow(src, way[0]);
      WayLeads(src.kids[way[0]].node, way[1..]);
      assert KeysOn(src, way)[1..] == KeysOn(src.kids[way[0]].node, way[1..]);
    }
  }

  lemma {:induction false} ListlessBelow(src: Tree, i: nat)
    requires Listless(src) && i < |src.kids|
    ensures src.kind != List && Listless(src.kids[i].node)
  {
  }

  lemma {:induction false} PlaceOfKid(src: Tree, i: nat)
    requires WellFormed(src) && src.kind != List && i < |src.kids|
    ensures Place(src, src.kids[i].key) == i && WellFormed(src.kids[i].node)
  {
    IsKept(src);
    KeysOf(src, i);
  }

  lemma {:induction false} WayOf(src: Tree, q: seq<string>) returns (way: seq<nat>)
    requires WellFormed(src) && Listless(src) && At(src, q).Some? && At(src, q).value.kids == []
    ensures IsLeafWay(src, way) && KeysOn(src, way) == q
    decreases |q|
  {
    hide WellFormed;
    if q == [] {
      way := [];
    } else {
      var i := Place(src, q[0]);
      PlaceOfKid(src, i);
      PlaceKey(src, q[0]);
      var rest := WayOf(src.kids[i].node, q[1..]);
      way := [i] + rest;
      assert way[1..] == rest && q == [q[0]] + q[1..];
    }
  }

  lemma {:induction false} PlaceKey(src: Tree, key: string)
    requires src.kind != List && Place(src, key) < |src.kids|
    ensures src.kids[Place(src, key)].key == key
  {
  }

  // ---------- deleting path by path ----------

  /** ydb_delete_sub: looks the path up from the top and deletes the node it ends at, if any. */
  function DeleteAt(t: Tree, path: seq<string>): (r: Tree)
    requires path != []
    ensures r == t.(kids := r.kids)
    decreases |path|
  {
    var i := Place(t, path[0]);
    if i == |t.kids| then t
    else if |path| == 1 then t.(kids := Without(t.kids, i))
    else Update(t, i, DeleteAt(t.kids[i].node, path[1..]))
  }

  function DeleteAll(t: Tree, paths: seq<seq<string>>): (r: Tree)
    requires Below(paths)
    ensures r == t.(kids := r.kids)
  {
    if paths == [] then t else DeleteAt(DeleteAll(t, paths[..|paths| - 1]), paths[|paths| - 1])
  }

  // ---------- deleting in one go ----------

  /** One recursion over source and tree together. */
  function Pruned(t: Tree, src: Tree, n: nat): (r: Tree)
    requires n <= |src.kids|
    ensures r == t.(kids := r.kids)
    decreases src, n
  {
    if n == 0 then t
    else
      var u, e := Pruned(t, src, n - 1), src.kids[n - 1];
      var i := Place(u, SourceStep(src, e));
      if i == |u.kids| then u
      else if e.node.kids == [] then u.(kids := Without(u.kids, i))
      else Update(u, i, Pruned(u.kids[i].node, e.node, |e.node.kids|))
  }

  lemma {:induction false} DeleteAllConcat(t: Tree, a: seq<seq<string>>, b: seq<seq<string>>)
    requires Below(a) && Below(b)
    ensures DeleteAll(t, a + b) == DeleteAll(DeleteAll(t, a), b)
  {
    if b == [] {
      assert a + b == a;
    } else {
      assert (a + b)[..|a + b| - 1] == a + b[..|b| - 1];
      DeleteAllConcat(t, a, b[..|b| - 1]);
    }
  }

  /** Paths through one child change that child, where it is. */
  lemma {:induction false} DeleteUnder(t: Tree, step: string, paths: seq<seq<string>>)
    requires Below(paths)
    ensures var i := Place(t, step);
      DeleteAll(t, Prefixed(step, paths)) == if i < |t.kids| then Update(t, i, DeleteAll(t.kids[i].node, paths)) else t
  {
    hide Atoi;
    var i := Place(t, step);
    if paths != [] {
      var init, last := paths[..|paths| - 1], paths[|paths| - 1];
      DeleteUnder(t, step, init);
      assert Prefixed(step, paths)[..|paths| - 1] == Prefixed(step, init);
      assert ([step] + last)[1..] == last;
      if i < |t.kids| {
        var m := DeleteAll(t.kids[i].node, init);
        UpdateKeys(t, i, m);
        assert Place(Update(t, i, m), step) == i;
        assert Update(t, i, m).kids[i].node == m;
        assert DeleteAt(Update(t, i, m), [step] + last) == Update(Update(t, i, m), i, DeleteAt(m, last));
      }
    } else if i < |t.kids| {
      assert t.kids[i := t.kids[i].(node := t.kids[i].node)] == t.kids;
    }
  }

  lemma {:induction false} DeleteOne(t: Tree, step: string)
    ensures var i := Place(t, step);
      DeleteAll(t, Prefixed(step, [[]])) == if i < |t.kids| then t.(kids := Without(t.kids, i)) else t
  {
    var paths: seq<seq<string>> := [[]];
    assert [step] + paths[0] == [step];
    assert Prefixed(step, paths) == [[step]];
    assert [[step]][..0] == [];
  }

  /** Looking each path up again from the top, in a tree that deletions keep changing, comes to the
      same as pruning in one go. */
  lemma {:induction false} DeletionIsPruning(t: Tree, src: Tree, n: nat)
    requires n <= |src.kids| && !LeavesBelow(src, n).stopped
    ensures DeleteAll(t, LeavesBelow(src, n).paths) == Pruned(t, src, n)
    decreases src, n
  {
    hide Place, Without, Prefixed, DeleteAll, Update;
    if n > 0 {
      var w, e := LeavesBelow(src, n - 1), src.kids[n - 1];
      var u, step := Pruned(t, src, n - 1), SourceStep(src, e);
      DeletionIsPruning(t, src, n - 1);
      PrefixedNonEmpty(step, Leaves(e.node).paths);
      DeleteAllConcat(t, w.paths, Prefixed(step, Leaves(e.node).paths));
      if e.node.kids == [] {
        DeleteOne(u, step);
      } else {
        DeleteUnder(u, step, Leaves(e.node).paths);
        var i := Place(u, step);
        if i < |u.kids| {
          DeletionIsPruning(u.kids[i].node, e.node, |e.node.kids|);
        }
      }
    } else {
      DeleteNone(t);
    }
  }

  lemma {:induction false} DeleteNone(t: Tree)
    ensures DeleteAll(t, []) == t
  {
  }

  lemma {:induction false} PrefixedNonEmpty(step: string, paths: seq<seq<string>>)
    ensures Below(Prefixed(step, paths))
  {
  }

  // ---------- what is deleted ----------

  /** What is found at a step. */
  function Found(t: Tree, step: string): Option<Tree> {
    var i := Place(t, step);
    if i < |t.kids| then Some(t.kids[i].node) else None
  }

  function StepAt(src: Tree, i: nat): string
    requires i < |src.kids|
  {
    SourceStep(src, src.kids[i])
  }

  /** Two steps lead to the same child of `t`: by the same key, or by the same number. */
  predicate Same(t: Tree, a: string, b: string) {
    Place(t, a) == Place(t, b) < |t.kids|
  }

  /** Different children of the source select different children of the tree. */
  ghost predicate SelectsApart(t: Tree, src: Tree) {
    forall i, j :: 0 <= i < j < |src.kids| ==> !Same(t, StepAt(src, i), StepAt(src, j))
  }

  /** They do so wherever source and tree meet. */
  ghost predicate Selective(t: Tree, src: Tree)
    decreases src
  {
    SelectsApart(t, src) &&
    forall i :: 0 <= i < |src.kids| && Found(t, StepAt(src, i)).Some? ==>
      Selective(Found(t, StepAt(src, i)).value, src.kids[i].node)
  }

  /** The places of the children that leaves among the first `n` children of the source select. */
  function Struck(t: Tree, src: Tree, n: nat): (r: seq<nat>)
    requires n <= |src.kids|
  {
    if n == 0 then []
    else
      var p := Place(t, StepAt(src, n - 1));
      Struck(t, src, n - 1) + if src.kids[n - 1].node.kids == [] && p < |t.kids| then [p] else []
  }

  /** If `t` is a list, leaves take its entries from the back, one after the other. */
  predicate FromBack(t: Tree, src: Tree) {
    var struck := Struck(t, src, |src.kids|);
    t.kind == List ==> forall k :: 0 <= k < |struck| ==> struck[k] == |t.kids| - 1 - k
  }

  /** They do so in every list that source and tree meet at. */
  ghost predicate FromTheEnd(t: Tree, src: Tree)
    decreases src
  {
    FromBack(t, src) &&
    forall i :: 0 <= i < |src.kids| && Found(t, StepAt(src, i)).Some? ==>
      FromTheEnd(Found(t, StepAt(src, i)).value, src.kids[i].node)
  }

  /** From `t` on, `path` comes through the node that `q` leads to. */
  predicate Through(t: Tree, q: seq<string>, path: seq<string>) {
    q == [] || (path != [] && Same(t, q[0], path[0]) && Through(Found(t, q[0]).value, q[1..], path[1..]))
  }

  /** The path leads to, or past, a node that a leaf of the source points at. */
  ghost predicate Covered(t: Tree, src: Tree, path: seq<string>) {
    exists q :: q in Leaves(src).paths && Through(t, q, path)
  }

  function PrunedAt(c: Option<Tree>, src: Tree): Option<Tree> {
    if c.None? || src.kids == [] then None else Some(Pruned(c.value, src, |src.kids|))
  }

  /** The child of the source that selects the child of `t` at a step, if one of the first `n` does. */
  function Selector(t: Tree, src: Tree, n: nat, step: string): (i: nat)
    requires n <= |src.kids|
    ensures i <= n && forall j :: 0 <= j < i ==> !Same(t, StepAt(src, j), step)
    ensures i < n ==> Same(t, StepAt(src, i), step)
  {
    if n == 0 then 0
    else
      var i := Selector(t, src, n - 1, step);
      if i < n - 1 then i else if Same(t, StepAt(src, n - 1), step) then n - 1 else n
  }

  /** What is found at a step after the first `n` children of the source. */
  lemma {:induction false} PrunedFound(t: Tree, src: Tree, n: nat, step: string)
    requires n <= |src.kids| && Kept(t) && SelectsApart(t, src) && FromBack(t, src)
    ensures var i, u := Selector(t, src, n, step), Pruned(t, src, n);
      Kept(u) && (t.kind == List ==> |u.kids| == |t.kids| - |Struck(t, src, n)|)
      && Found(u, step) == if i < n then PrunedAt(Found(t, step), src.kids[i].node) else Found(t, step)
    decreases n
  {
    hide Kept, Place, PrunedAt, Found, Pruned, SelectsApart, FromBack;
    if n == 0 {
      PrunedNone(t, src);
    } else {
      var s := StepAt(src, n - 1);
      PrunedFound(t, src, n - 1, step);
      PrunedFound(t, src, n - 1, s);
      SelectsOnce(t, src, n - 1);
      StruckLast(t, src, n);
      PrunedStep(t, src, n, step);
      SameLater(t, Pruned(t, src, n - 1), s, step);
      SameFound(t, step, s);
    }
  }

  /** A leaf that selects an entry of a list selects the last one there is at its turn. */
  lemma {:induction false} StruckLast(t: Tree, src: Tree, n: nat)
    requires 0 < n <= |src.kids| && FromBack(t, src)
    ensures var s, leaf := StepAt(src, n - 1), src.kids[n - 1].node.kids == [];
      |Struck(t, src, n)| == |Struck(t, src, n - 1)| + (if leaf && Found(t, s).Some? then 1 else 0)
      && (t.kind == List && leaf && Found(t, s).Some? ==> Place(t, s) == |t.kids| - 1 - |Struck(t, src, n - 1)|)
  {
    hide Place;
    StruckPart(t, src, n, |src.kids|);
    assert |Struck(t, src, n)| > |Struck(t, src, n - 1)| ==>
      Struck(t, src, n)[|Struck(t, src, n - 1)|] == Place(t, StepAt(src, n - 1));
  }

  lemma {:induction false} StruckPart(t: Tree, src: Tree, m: nat, n: nat)
    requires m <= n <= |src.kids|
    ensures Struck(t, src, m) <= Struck(t, src, n)
    decreases n
  {
    hide Place;
    if m < n {
      StruckPart(t, src, m, n - 1);
    }
  }

  lemma {:induction false} PrunedNone(t: Tree, src: Tree)
    ensures Pruned(t, src, 0) == t
  {
  }

  /** No earlier child of the source has selected what this one selects. */
  lemma {:induction false} SelectsOnce(t: Tree, src: Tree, n: nat)
    requires n < |src.kids| && SelectsApart(t, src)
    ensures Selector(t, src, n, StepAt(src, n)) == n
  {
    hide Place, Found;
  }

  lemma {:induction false} SameFound(t: Tree, a: string, b: string)
    ensures Same(t, a, b) ==> Found(t, a) == Found(t, b)
    ensures Same(t, a, b) || Same(t, b, a) ==> Same(t, a, b) && Same(t, b, a)
    ensures a == b && !Same(t, a, b) ==> Found(t, a).None?
  {
    hide Place;
  }

  /** Deletions so far do not change which steps lead to the same child, if that child is still there. */
  lemma {:induction false} SameLater(t: Tree, u: Tree, a: string, b: string)
    requires Kept(t) && Kept(u) && u.kind == t.kind && (t.kind == List ==> |u.kids| <= |t.kids|)
    requires Found(u, a).Some? <==> Found(t, a).Some?
    ensures Same(u, a, b) <==> Same(t, a, b)
  {
    hide Atoi, UniqueKeys, AscendingKeys;
  }

  lemma {:induction false} PrunedStep(t: Tree, src: Tree, n: nat, step: string)
    requires 0 < n <= |src.kids| && Kept(t) && Kept(Pruned(t, src, n - 1))
    requires var u, s := Pruned(t, src, n - 1), StepAt(src, n - 1);
      Found(u, s) == Found(t, s) && (t.kind == List ==> |u.kids| <= |t.kids|)
      && (t.kind == List && src.kids[n - 1].node.kids == [] && Found(t, s).Some? ==> Place(t, s) == |u.kids| - 1)
    ensures var u, v, e, s := Pruned(t, src, n - 1), Pruned(t, src, n), src.kids[n - 1], StepAt(src, n - 1);
      Kept(v)
      && (t.kind == List ==> |v.kids| == |u.kids| - if e.node.kids == [] && Found(t, s).Some? then 1 else 0)
      && Found(v, step) == if Same(u, s, step) then PrunedAt(Found(u, step), e.node) else Found(u, step)
  {
    hide Kept, Pruned, Found, Place, Same, Atoi;
    var u, e, s := Pruned(t, src, n - 1), src.kids[n - 1], StepAt(src, n - 1);
    SameFound(u, s, step);
    PrunedNext(t, src, n);
    var node := PrunedAt(Found(u, s), e.node);
    NoneThere(u, s, step);
    if Found(u, s).Some? && MapLike(t.kind) {
      SettledFound(u, s, node, step);
    } else if Found(u, s).Some? && node.Some? {
      ExchangedFound(u, s, node.value, step);
    } else if Found(u, s).Some? {
      PlaceLater(t, u, s);
      LastFound(u, s, step);
    }
  }

  lemma {:induction false} PlaceLater(t: Tree, u: Tree, s: string)
    requires u.kind == t.kind == List && |u.kids| <= |t.kids| && Found(u, s).Some?
    ensures Place(u, s) == Place(t, s)
  {
    hide Atoi;
  }

  /** Without its last entry a list is found to have the others. */
  lemma {:induction false} LastFound(u: Tree, s: string, step: string)
    requires Kept(u) && u.kind == List && u.kids != [] && Place(u, s) == |u.kids| - 1
    ensures var v := u.(kids := Without(u.kids, Place(u, s)));
      Kept(v) && |v.kids| == |u.kids| - 1 && Found(v, step) == if Same(u, s, step) then None else Found(u, step)
  {
    hide Atoi;
  }

  /** One step of pruning, seen as a merged child taking its place. */
  lemma {:induction false} PrunedNext(t: Tree, src: Tree, n: nat)
    requires 0 < n <= |src.kids|
    ensures var u, e, s := Pruned(t, src, n - 1), src.kids[n - 1], StepAt(src, n - 1);
      var node := PrunedAt(Found(u, s), e.node);
      (Found(u, s).None? ==> Pruned(t, src, n) == u) &&
        (Found(u, s).Some? && node.Some? ==> Pruned(t, src, n) == Update(u, Place(u, s), node.value))
      && (Found(u, s).Some? && MapLike(u.kind) ==>
        Pruned(t, src, n) == Settled(u, s, if node.Some? then Nothing else Op.Delete, node))
      && (Found(u, s).Some? && node.None? ==> Pruned(t, src, n) == u.(kids := Without(u.kids, Place(u, s))))
  {
    hide Atoi;
  }

  lemma {:induction false} NoneThere(u: Tree, s: string, step: string)
    ensures Found(u, s).None? ==> !Same(u, s, step)
    ensures Kept(u) && Found(u, s).Some? ==> MapLike(u.kind) || u.kind == List
  {
    hide Atoi;
  }

  lemma {:induction false} SettledFound(u: Tree, s: string, node: Option<Tree>, step: string)
    requires Kept(u) && MapLike(u.kind) && Found(u, s).Some?
    ensures var v := Settled(u, s, if node.Some? then Nothing else Op.Delete, node);
      Kept(v) && Found(v, step) == if Same(u, s, step) then node else Found(u, step)
  {
    hide Kept, Child, KeyCmp, Settled, IndexOf;
    var op := if node.Some? then Nothing else Op.Delete;
    SettledKept(u, s, op, node);
    ChildSettled(u, s, op, node, step);
    FoundChild(u, s);
    FoundChild(u, step);
    FoundChild(Settled(u, s, op, node), step);
  }

  lemma {:induction false} FoundChild(t: Tree, key: string)
    requires MapLike(t.kind)
    ensures Found(t, key) == Child(t, key)
    ensures forall k :: Same(t, key, k) <==> key == k && Found(t, key).Some?
  {
  }

  lemma {:induction false} ExchangedFound(u: Tree, s: string, node: Tree, step: string)
    requires Kept(u) && u.kind == List && Found(u, s).Some?
    ensures var v := Update(u, Place(u, s), node);
      Kept(v) && |v.kids| == |u.kids| && Found(v, step) == if Same(u, s, step) then Some(node) else Found(u, step)
  {
    hide Atoi;
  }

  lemma {:induction false} LeafPaths(src: Tree, n: nat, q: seq<string>)
    requires n <= |src.kids| && !LeavesBelow(src, n).stopped
    ensures q in LeavesBelow(src, n).paths <==>
      q != [] && exists i :: 0 <= i < n && StepAt(src, i) == q[0] && q[1..] in Leaves(src.kids[i].node).paths
    decreases n
  {
    hide Leaves;
    if n > 0 {
      var e := src.kids[n - 1];
      LeafPaths(src, n - 1, q);
      PrefixedPaths(StepAt(src, n - 1), Leaves(e.node).paths, q);
    }
  }

  lemma {:induction false} PrefixedPaths(step: string, paths: seq<seq<string>>, q: seq<string>)
    ensures q in Prefixed(step, paths) <==> q != [] && q[0] == step && q[1..] in paths
  {
    if q != [] && q[0] == step && q[1..] in paths {
      var i :| 0 <= i < |paths| && paths[i] == q[1..];
      assert q == Prefixed(step, paths)[i];
    }
  }

  lemma {:induction false} CoveredBelow(t: Tree, src: Tree, path: seq<string>)
    requires SelectsApart(t, src) && src.kids != [] && path != [] && !Leaves(src).stopped
    ensures var i := Selector(t, src, |src.kids|, path[0]);
      Covered(t, src, path) <==> i < |src.kids| && Covered(Found(t, path[0]).value, src.kids[i].node, path[1..])
  {
    hide Leaves, Place, Selector, SelectsApart;
    var i := Selector(t, src, |src.kids|, path[0]);
    LeavesInside(src);
    if Covered(t, src, path) {
      var q :| q in Leaves(src).paths && Through(t, q, path);
      LeafPaths(src, |src.kids|, q);
      var j :| 0 <= j < |src.kids| && StepAt(src, j) == q[0] && q[1..] in Leaves(src.kids[j].node).paths;
      OneSelector(t, src, path[0], j);
    }
    if i < |src.kids| && Covered(Found(t, path[0]).value, src.kids[i].node, path[1..]) {
      var q :| q in Leaves(src.kids[i].node).paths && Through(Found(t, path[0]).value, q, path[1..]);
      var r := [StepAt(src, i)] + q;
      assert r[1..] == q;
      LeafPaths(src, |src.kids|, r);
      assert Through(t, r, path);
    }
  }

  lemma {:induction false} OneSelector(t: Tree, src: Tree, step: string, j: nat)
    requires SelectsApart(t, src) && j < |src.kids| && Same(t, StepAt(src, j), step)
    ensures Selector(t, src, |src.kids|, step) == j
  {
    hide Place, Found, Selector;
    var i := Selector(t, src, |src.kids|, step);
    assert i < j ==> Same(t, StepAt(src, i), StepAt(src, j));
  }

  lemma {:induction false} LeavesInside(src: Tree)
    ensures src.kids != [] ==> Leaves(src) == LeavesBelow(src, |src.kids|)
    ensures src.kids == [] && !Leaves(src).stopped ==> Leaves(src).paths == [[]]
  {
  }

  /** The path leads somewhere afterwards, and to the same node, exactly if it did before and comes
      through no node that a leaf of the source leads to. */
  ghost predicate Exact(t: Tree, after: Tree, src: Tree, path: seq<string>) {
    (At(after, path).Some? <==> At(t, path).Some? && !Covered(t, src, path)) &&
    (At(after, path).Some? ==> At(after, path).value.(kids := []) == At(t, path).value.(kids := []))
  }

  lemma {:induction false} PrunesExactly(t: Tree, src: Tree, path: seq<string>)
    requires WellFormed(t) && Selective(t, src) && FromTheEnd(t, src) && NoEmptySequence(src) && src.kids != []
    ensures Exact(t, Pruned(t, src, |src.kids|), src, path)
    decreases path
  {
    hide WellFormed, Kept, Leaves, Place, Pruned, NoEmptySequence, Covered, At, Selector, Found;
    hide Selective, FromTheEnd, SelectsApart, FromBack;
    var after := Pruned(t, src, |src.kids|);
    IsKept(t);
    WalkEnds(src);
    Level(t, src);
    if path == [] {
      TopStays(t, src, after);
    } else {
      var step := path[0];
      var i := Selector(t, src, |src.kids|, step);
      CoveredBelow(t, src, path);
      AtFound(t, path);
      AtFound(after, path);
      PrunedFound(t, src, |src.kids|, step);
      if i < |src.kids| {
        SelectedBelow(t, src, i, step);
        if src.kids[i].node.kids == [] {
          LeafCovered(Found(t, step).value, src.kids[i].node, path[1..]);
        } else {
          PrunesExactly(Found(t, step).value, src.kids[i].node, path[1..]);
        }
      }
    }
  }

  lemma {:induction false} Level(t: Tree, src: Tree)
    ensures Selective(t, src) ==> SelectsApart(t, src)
    ensures FromTheEnd(t, src) ==> FromBack(t, src)
  {
  }

  lemma {:induction false} AtFound(t: Tree, path: seq<string>)
    requires path != []
    ensures At(t, path) == if Found(t, path[0]).None? then None else At(Found(t, path[0]).value, path[1..])
  {
    hide Place;
  }

  lemma {:induction false} SelectedBelow(t: Tree, src: Tree, i: nat, step: string)
    requires WellFormed(t) && Selective(t, src) && NoEmptySequence(src)
    requires i < |src.kids| && Same(t, StepAt(src, i), step)
    ensures Found(t, step).Some? && WellFormed(Found(t, step).value)
    ensures Selective(Found(t, step).value, src.kids[i].node) && NoEmptySequence(src.kids[i].node)
    ensures FromTheEnd(t, src) ==> FromTheEnd(Found(t, step).value, src.kids[i].node)
  {
    hide Place, Kept, SelectsApart, FromBack;
    assert Found(t, StepAt(src, i)) == Found(t, step);
  }

  lemma {:induction false} TopStays(t: Tree, src: Tree, after: Tree)
    requires src.kids != []
    ensures At(t, []) == Some(t) && At(after, []) == Some(after) && !Covered(t, src, [])
  {
    hide LeavesBelow;
  }

  lemma {:induction false} LeafCovered(t: Tree, src: Tree, path: seq<string>)
    requires src.kids == [] && NoEmptySequence(src)
    ensures Covered(t, src, path)
  {
    assert [] in Leaves(src).paths && Through(t, [], path);
  }

  // ---------- and only then ----------

  /** A list loses at most one entry for each leaf that selects one; if it loses that many, each was
      still there at its turn. */
  lemma {:induction false} Shrinks(t: Tree, src: Tree, n: nat)
    requires n <= |src.kids| && t.kind == List
    ensures var u, struck := Pruned(t, src, n), Struck(t, src, n);
      |t.kids| - |struck| <= |u.kids| <= |t.kids|
      && (|u.kids| == |t.kids| - |struck| ==> forall k :: 0 <= k < |struck| ==> struck[k] < |t.kids| - k)
    decreases n
  {
    hide Atoi;
    if n > 0 {
      Shrinks(t, src, n - 1);
    }
  }

  /** What is struck has a leaf that selects it, and no other. */
  lemma {:induction false} StruckApart(t: Tree, src: Tree, n: nat)
    requires n <= |src.kids| && SelectsApart(t, src)
    ensures var struck := Struck(t, src, n);
      NoRepeats(struck)
      && forall p :: p in struck ==> p < |t.kids| && exists i :: 0 <= i < n && LeafAt(t, src, i, p)
    decreases n
  {
    hide Place, StepAt;
    if n > 0 {
      StruckApart(t, src, n - 1);
      var p := Place(t, StepAt(src, n - 1));
      if src.kids[n - 1].node.kids == [] && p < |t.kids| {
        assert LeafAt(t, src, n - 1, p);
        var struck := Struck(t, src, n - 1);
        forall k | 0 <= k < |struck| ensures struck[k] != p {
          assert struck[k] in struck;
          var i :| 0 <= i < n - 1 && LeafAt(t, src, i, struck[k]);
          assert !Same(t, StepAt(src, i), StepAt(src, n - 1));
        }
      }
    }
  }

  predicate LeafAt(t: Tree, src: Tree, i: nat, p: nat)
    requires i < |src.kids|
  {
    src.kids[i].node.kids == [] && Place(t, StepAt(src, i)) == p
  }

  /** Different numbers within bounds are no more than there are. */
  lemma {:induction false} FewApart(a: seq<nat>, lo: nat, hi: nat)
    requires NoRepeats(a) && lo <= hi && forall x :: x in a ==> lo <= x < hi
    ensures |a| <= hi - lo
    decreases hi
  {
    if a != [] {
      assert a[0] in a;
      var i := if hi - 1 in a then var i :| 0 <= i < |a| && a[i] == hi - 1; i else |a|;
      var rest := Without(a, i);
      forall x | x in rest ensures lo <= x < hi - 1 {
        var k :| 0 <= k < |rest| && rest[k] == x;
        var j := if k < i then k else k + 1;
        assert a[j] == x && a[j] in a && j != i;
      }
      FewApart(rest, lo, hi - 1);
    }
  }

  /** Each of them below what is left at its turn, and none below what is left at the end. */
  lemma {:induction false} FallsFrom(a: seq<nat>, n: nat, k: nat)
    requires NoRepeats(a) && |a| <= n && k < |a|
    requires forall j :: 0 <= j < |a| ==> n - |a| <= a[j] < n - j
    ensures a[k] == n - 1 - k
    decreases |a| - k
  {
    if a[k] < n - 1 - k {
      FallsFrom(a, n, n - 1 - a[k]);
    }
  }

  /** If the entries struck are not there at the end, they went from the back. */
  lemma {:induction false} GoneFromBack(t: Tree, src: Tree)
    requires SelectsApart(t, src) && t.kind == List
    requires forall i :: 0 <= i < |src.kids| && src.kids[i].node.kids == [] && Found(t, StepAt(src, i)).Some? ==>
      Found(Pruned(t, src, |src.kids|), StepAt(src, i)).None?
    ensures FromBack(t, src)
  {
    hide Atoi, Pruned, Struck, NoRepeats, SelectsApart;
    var struck, left := Struck(t, src, |src.kids|), |Pruned(t, src, |src.kids|).kids|;
    Shrinks(t, src, |src.kids|);
    StruckApart(t, src, |src.kids|);
    forall p | p in struck ensures left <= p < |t.kids| {
      var i :| 0 <= i < |src.kids| && LeafAt(t, src, i, p);
      assert Found(t, StepAt(src, i)).Some?;
    }
    FewApart(struck, left, |t.kids|);
    forall k | 0 <= k < |struck| ensures struck[k] == |t.kids| - 1 - k {
      assert forall j :: 0 <= j < |struck| ==> struck[j] in struck;
      FallsFrom(struck, |t.kids|, k);
    }
  }

  /** A node that a leaf leads to is covered. */
  lemma {:induction false} LeafStep(t: Tree, src: Tree, i: nat)
    requires SelectsApart(t, src) && NoEmptySequence(src) && i < |src.kids| && src.kids[i].node.kids == []
    requires Found(t, StepAt(src, i)).Some?
    ensures At(t, [StepAt(src, i)]).Some? && Covered(t, src, [StepAt(src, i)])
  {
    hide Place, SelectsApart, Selector, Covered, Leaves;
    var path := [StepAt(src, i)];
    WalkEnds(src);
    CoveredBelow(t, src, path);
    assert Same(t, StepAt(src, i), path[0]);
    OneSelector(t, src, path[0], i);
    LeafCovered(Found(t, path[0]).value, src.kids[i].node, path[1..]);
  }

  lemma {:induction false} OnlyFromTheEnd(t: Tree, src: Tree)
    requires WellFormed(t) && Selective(t, src) && NoEmptySequence(src)
    requires src.kids != [] ==> forall path :: Exact(t, Pruned(t, src, |src.kids|), src, path)
    ensures FromTheEnd(t, src)
    decreases src
  {
    hide WellFormed, Place, Pruned, NoEmptySequence, Covered, At, Found, Selective, SelectsApart, FromBack, Exact;
    var after := Pruned(t, src, |src.kids|);
    IsKept(t);
    Level(t, src);
    forall i | 0 <= i < |src.kids| && src.kids[i].node.kids == [] && Found(t, StepAt(src, i)).Some?
      ensures Found(after, StepAt(src, i)).None?
    {
      LeafStep(t, src, i);
      LeafGone(t, after, src, StepAt(src, i));
    }
    if t.kind == List {
      GoneFromBack(t, src);
    } else {
      NotAList(t, src);
    }
    forall i | 0 <= i < |src.kids| && Found(t, StepAt(src, i)).Some?
      ensures FromTheEnd(Found(t, StepAt(src, i)).value, src.kids[i].node)
    {
      FoundSame(t, StepAt(src, i));
      SelectedBelow(t, src, i, StepAt(src, i));
      var c := Found(t, StepAt(src, i)).value;
      forall rest | src.kids[i].node.kids != []
        ensures Exact(c, Pruned(c, src.kids[i].node, |src.kids[i].node.kids|), src.kids[i].node, rest)
      {
        ExactBelow(t, src, i, rest);
      }
      OnlyFromTheEnd(c, src.kids[i].node);
    }
  }

  lemma {:induction false} LeafGone(t: Tree, after: Tree, src: Tree, step: string)
    requires Exact(t, after, src, [step]) && Covered(t, src, [step])
    ensures Found(after, step).None?
  {
    hide Covered, Place;
    AtFound(after, [step]);
  }

  lemma {:induction false} NotAList(t: Tree, src: Tree)
    ensures t.kind != List ==> FromBack(t, src)
  {
  }

  lemma {:induction false} FoundSame(t: Tree, step: string)
    ensures Found(t, step).Some? ==> Same(t, step, step)
  {
  }

  /** What holds of a path holds of the rest of it below. */
  lemma {:induction false} ExactBelow(t: Tree, src: Tree, i: nat, rest: seq<string>)
    requires Kept(t) && SelectsApart(t, src) && FromBack(t, src) && NoEmptySequence(src)
    requires i < |src.kids| && src.kids[i].node.kids != [] && Found(t, StepAt(src, i)).Some?
    requires Exact(t, Pruned(t, src, |src.kids|), src, [StepAt(src, i)] + rest)
    ensures var c, e := Found(t, StepAt(src, i)).value, src.kids[i].node;
      Exact(c, Pruned(c, e, |e.kids|), e, rest)
  {
    hide Kept, Place, Pruned, Covered, At, Found, Selector, SelectsApart, FromBack, Leaves;
    var path := [StepAt(src, i)] + rest;
    assert path[0] == StepAt(src, i) && path[1..] == rest;
    FoundSame(t, path[0]);
    WalkEnds(src);
    OneSelector(t, src, path[0], i);
    CoveredBelow(t, src, path);
    PrunedFound(t, src, |src.kids|, path[0]);
    AtFound(t, path);
    AtFound(Pruned(t, src, |src.kids|), path);
  }

  /** ydb_delete removes the nodes at and below those that the source's leaf paths lead to and nothing
      else, if and only if in every list the leaves of the source take the entries from the back. */
  lemma {:induction false} DeletesExactly(t: Tree, src: Tree)
    requires WellFormed(t) && Selective(t, src) && NoEmptySequence(src) && src.kids != []
    ensures Below(Leaves(src).paths)
    ensures (forall path :: Exact(t, DeleteAll(t, Leaves(src).paths), src, path)) <==> FromTheEnd(t, src)
  {
    hide WellFormed, Exact, Selective, FromTheEnd, Pruned, DeleteAll;
    WalkEnds(src);
    LeavesInside(src);
    DeletionIsPruning(t, src, |src.kids|);
    if FromTheEnd(t, src) {
      forall path ensures Exact(t, Pruned(t, src, |src.kids|), src, path) {
        PrunesExactly(t, src, path);
      }
    }
    if forall path :: Exact(t, DeleteAll(t, Leaves(src).paths), src, path) {
      OnlyFromTheEnd(t, src);
    }
  }

  function Text(value: string): Tree {
    Tree(Val, value, None, 0, None, [])
  }

  lemma {:induction false} OneLeaf(src: Tree, kid: Tree, key: string, q: seq<string>)
    requires src.kids == [Entry(key, kid)] && src.kind == Map && Leaves(kid) == Walk([q], false)
    ensures Leaves(src) == Walk([[key] + q], false)
  {
    hide Leaves;
    assert LeavesBelow(src, 0) == Walk([], false);
    assert Prefixed(key, [q]) == [[key] + q];
    LeavesInside(src);
  }

  /** The texts p and q in a list, below `a`. */
  function PairBelow(): Tree {
    Tree(Map, "", None, 0, None, [Entry("a", Pair())])
  }

  function Pair(): Tree {
    Tree(List, "", None, 0, None, [Entry("", Text("p")), Entry("", Text("q"))])
  }

  /** The source {a: {0: }}. */
  function FirstBelow(): Tree {
    Tree(Map, "", None, 0, None, [Entry("a", Tree(Map, "", None, 0, None, [Entry("0", Text(""))]))])
  }

  lemma {:induction false} FirstOfPair()
    ensures Leaves(FirstBelow()) == Walk([["a", "0"]], false) && NoEmptySequence(FirstBelow())
  {
    hide Leaves;
    var first := FirstBelow().kids[0].node;
    LeavesInside(Text(""));
    WalkEnds(Text(""));
    assert ["0"] + [] == ["0"] && ["a"] + ["0"] == ["a", "0"];
    OneLeaf(first, Text(""), "0", []);
    OneLeaf(FirstBelow(), first, "a", ["0"]);
    WalkEnds(FirstBelow());
  }

  lemma {:induction false} PairLosesFirst()
    ensures Place(Pair(), "0") == 0 && DeleteAt(Pair(), ["0"]) == Pair().(kids := [Entry("", Text("q"))])
    ensures At(Pair(), ["0"]) == Some(Text("p"))
    ensures At(Pair().(kids := [Entry("", Text("q"))]), ["0"]) == Some(Text("q"))
  {
    hide Atoi;
    ZeroIsFirst();
    assert ["0"][1..] == [];
    assert forall t: Tree :: At(t, []) == Some(t);
  }

  /** A list that loses an entry moves the others up: after deleting the first of two, the path to the
      first still leads somewhere. */
  lemma {:induction false} EntriesMoveUp()
    ensures WellFormed(PairBelow()) && NoEmptySequence(FirstBelow()) &&
      Leaves(FirstBelow()) == Walk([["a", "0"]], false)
    ensures Covered(PairBelow(), FirstBelow(), ["a", "0"]) && At(PairBelow(), ["a", "0"]) == Some(Text("p"))
    ensures At(DeleteAll(PairBelow(), [["a", "0"]]), ["a", "0"]) == Some(Text("q"))
  {
    hide Atoi, KeyCmp, Leaves, NoEmptySequence, WellFormed;
    var path := ["a", "0"];
    FirstOfPair();
    PairLosesFirst();
    PairIsKept();
    assert Place(PairBelow(), "a") == 0 && path[1..] == ["0"] && path[1..][1..] == [];
    DeleteNone(PairBelow());
    assert [path][..0] == [];
    assert Through(Pair(), ["0"], ["0"]) && Through(PairBelow(), path, path);
  }

  lemma {:induction false} PairIsKept()
    ensures WellFormed(PairBelow())
  {
    hide KeyCmp;
    assert WellFormed(Text("p")) && WellFormed(Text("q"));
    assert WellFormed(Pair());
  }

  /** A list of k values aimed at a list takes off its first k entries, or all if there are fewer. */
  lemma {:induction false} DeletePops(t: Tree, src: Tree, n: nat)
    requires t.kind == List && src.kind == List && n <= |src.kids|
    requires forall i :: 0 <= i < |src.kids| ==> src.kids[i].node.kind == Val && src.kids[i].node.kids == []
    ensures !LeavesBelow(src, n).stopped
    ensures DeleteAll(t, LeavesBelow(src, n).paths) == t.(kids := t.kids[if n < |t.kids| then n else |t.kids|..])
    decreases n
  {
    hide DeleteAll, Pruned;
    WalkEndsBelow(src, n);
    DeletionIsPruning(t, src, n);
    PrunePops(t, src, n);
  }

  lemma {:induction false} PrunePops(t: Tree, src: Tree, n: nat)
    requires t.kind == List && src.kind == List && n <= |src.kids|
    requires forall i :: 0 <= i < |src.kids| ==> src.kids[i].node.kind == Val && src.kids[i].node.kids == []
    ensures Pruned(t, src, n) == t.(kids := t.kids[if n < |t.kids| then n else |t.kids|..])
    decreases n
  {
    hide Atoi;
    ZeroIsFirst();
    if n > 0 {
      PrunePops(t, src, n - 1);
      assert n - 1 < |t.kids| ==> t.kids[n - 1..][1..] == t.kids[n..];
    } else {
      assert t.kids[0..] == t.kids;
    }
  }

  lemma {:induction false} ZeroIsFirst()
    ensures Atoi("0") == 0
  {
    assert Digits("0", 0) == Digits("0"[1..], 0);
  }

  // ---------- the traversal itself ----------

  function Behind(path: seq<string>, paths: seq<seq<string>>): (r: seq<seq<string>>)
    ensures |r| == |paths| && forall i :: 0 <= i < |r| ==> r[i] == path + paths[i]
  {
    seq(|paths|, i requires 0 <= i < |paths| => path + paths[i])
  }

  /** The paths at which something was there to delete when their turn came. */
  function Logged(t: Tree, paths: seq<seq<string>>): seq<seq<string>>
    requires Below(paths)
  {
    if paths == [] then []
    else
      var init, last := paths[..|paths| - 1], paths[|paths| - 1];
      Logged(t, init) + if At(DeleteAll(t, init), last).Some? then [last] else []
  }

  lemma {:induction false} LoggedConcat(t: Tree, a: seq<seq<string>>, b: seq<seq<string>>)
    requires Below(a) && Below(b)
    ensures Logged(t, a + b) == Logged(t, a) + Logged(DeleteAll(t, a), b)
  {
    if b == [] {
      assert a + b == a;
    } else {
      var init := b[..|b| - 1];
      assert (a + b)[..|a + b| - 1] == a + init;
      LoggedConcat(t, a, init);
      DeleteAllConcat(t, a, init);
    }
  }

  lemma {:induction false} NothingThere(t: Tree, path: seq<string>)
    requires path != [] && At(t, path).None?
    ensures DeleteAt(t, path) == t
    decreases |path|
  {
    hide Place;
    var i := Place(t, path[0]);
    if i < |t.kids| && |path| > 1 {
      NothingThere(t.kids[i].node, path[1..]);
      assert t.kids[i := t.kids[i].(node := t.kids[i].node)] == t.kids;
    }
  }

  /** A replica that deletes what is in the log, and that only, ends up with the same tree. */
  lemma {:induction false} LogSuffices(t: Tree, paths: seq<seq<string>>)
    requires Below(paths)
    ensures Below(Logged(t, paths)) && DeleteAll(t, Logged(t, paths)) == DeleteAll(t, paths)
  {
    hide At, DeleteAt;
    if paths != [] {
      var init, last := paths[..|paths| - 1], paths[|paths| - 1];
      LogSuffices(t, init);
      var u := DeleteAll(t, init);
      if At(u, last).Some? {
        DeleteAllConcat(t, Logged(t, init), [last]);
        assert [last][..0] == [];
      } else {
        NothingThere(u, last);
        assert Logged(t, init) + [] == Logged(t, init);
      }
    }
  }

  /** Nothing is logged but what is deleted: at each path in the log there is something at its turn. */
  lemma {:induction false} LogIsBusy(t: Tree, paths: seq<seq<string>>, k: nat)
    requires Below(paths) && k < |Logged(t, paths)|
    ensures var log := Logged(t, paths);
      Below(log) && At(DeleteAll(t, log[..k]), log[k]).Some?
    decreases |paths|
  {
    hide At, DeleteAll;
    var init, last := paths[..|paths| - 1], paths[|paths| - 1];
    var log, before := Logged(t, paths), Logged(t, init);
    LogSuffices(t, paths);
    LogSuffices(t, init);
    if k < |before| {
      LogIsBusy(t, init, k);
      assert log[..k] == before[..k];
    } else {
      assert log[..k] == before;
    }
  }

  /** The tree that paths are deleted from, and the log of what was deleted. */
  class Base {
    var top: Tree
    var log: seq<seq<string>>

    constructor (top: Tree)
      ensures this.top == top && log == []
    {
      this.top := top;
      log := [];
    }

    /** ynode_lookup: goes down the path while there is something. */
    method Lookup(path: seq<string>) returns (found: bool)
      ensures found <==> At(top, path).Some?
    {
      hide Place;
      var node := top;
      for n := 0 to |path|
        invariant At(top, path) == At(node, path[n..])
      {
        var i := Place(node, path[n]);
        assert path[n..][1..] == path[n + 1..];
        if i == |node.kids| {
          return false;
        }
        node := node.kids[i].node;
      }
      found := true;
    }

    /** ydb_delete_sub */
    method DeleteSub(path: seq<string>)
      requires path != []
      modifies this
      ensures top == DeleteAll(old(top), [path]) && log == old(log) + Logged(old(top), [path])
    {
      hide At, DeleteAt;
      assert [path][..0] == [];
      var found := Lookup(path);
      if found {
        top := DeleteAt(top, path);
        log := log + [path];
      } else {
        NothingThere(top, path);
      }
    }

    /** ynode_traverse_sub with YNODE_LEAF_FIRST and YNODE_LEAF_ONLY, deleting at every leaf: it breaks
        off where a list or ordered map has no entry. */
    method Traverse(src: Tree, path: seq<string>) returns (stopped: bool)
      requires path != [] || src.kids != []
      modifies this
      ensures Below(Behind(path, Leaves(src).paths)) && stopped == Leaves(src).stopped
      ensures top == DeleteAll(old(top), Behind(path, Leaves(src).paths))
      ensures log == old(log) + Logged(old(top), Behind(path, Leaves(src).paths))
      decreases src
    {
      hide DeleteAll, Logged, LeavesBelow, Behind;
      BehindLeaf(path);
      if src.kids == [] {
        DeleteNone(top);
        if src.kind == List || src.kind == OMap {
          return true;
        }
        DeleteSub(path);
        return false;
      }
      stopped := TraverseKids(src, path);
    }

    method TraverseKids(src: Tree, path: seq<string>) returns (stopped: bool)
      modifies this
      ensures var w := LeavesBelow(src, |src.kids|);
        Below(Behind(path, w.paths)) && stopped == w.stopped
        && top == DeleteAll(old(top), Behind(path, w.paths)) &&
          log == old(log) + Logged(old(top), Behind(path, w.paths))
      decreases src, 0
    {
      hide DeleteAll, Logged, LeavesBelow, Behind, Leaves;
      ghost var t, before := top, log;
      stopped := false;
      BehindNone(t, path, src);
      for n := 0 to |src.kids|
        invariant !LeavesBelow(src, n).stopped && Below(Behind(path, LeavesBelow(src, n).paths))
        invariant top == DeleteAll(t, Behind(path, LeavesBelow(src, n).paths))
        invariant log == before + Logged(t, Behind(path, LeavesBelow(src, n).paths))
      {
        var e := src.kids[n];
        BehindNext(t, path, src, n);
        ghost var log0 := log;
        stopped := Traverse(e.node, path + [SourceStep(src, e)]);
        if stopped {
          StoppedHere(src, n, |src.kids|);
          return;
        }
      }
    }
  }

  lemma {:induction false} BehindLeaf(path: seq<string>)
    ensures Behind(path, [[]]) == [path] && Behind(path, []) == []
    ensures forall t :: Logged(t, []) == []
  {
    var none: seq<string> := [];
    assert path + none == path;
  }

  lemma {:induction false} BehindNone(t: Tree, path: seq<string>, src: Tree)
    ensures !LeavesBelow(src, 0).stopped && Behind(path, LeavesBelow(src, 0).paths) == []
    ensures DeleteAll(t, []) == t && Logged(t, []) == []
  {
  }

  /** The paths below one more child. */
  lemma {:induction false} BehindNext(t: Tree, path: seq<string>, src: Tree, n: nat)
    requires n < |src.kids| && !LeavesBelow(src, n).stopped && Below(Behind(path, LeavesBelow(src, n).paths))
    ensures var a, b := Behind(path, LeavesBelow(src, n).paths),
      Behind(path + [SourceStep(src, src.kids[n])], Leaves(src.kids[n].node).paths);
      Behind(path, LeavesBelow(src, n + 1).paths) == a + b &&
        LeavesBelow(src, n + 1).stopped == Leaves(src.kids[n].node).stopped
      && Below(b) && Below(a + b) && DeleteAll(t, a + b) == DeleteAll(DeleteAll(t, a), b)
      && Logged(t, a + b) == Logged(t, a) + Logged(DeleteAll(t, a), b)
  {
    hide Leaves, Logged, DeleteAll;
    var step, paths := SourceStep(src, src.kids[n]), Leaves(src.kids[n].node).paths;
    var a, b := Behind(path, LeavesBelow(src, n).paths), Behind(path + [step], paths);
    forall i | 0 <= i < |paths| ensures path + ([step] + paths[i]) == (path + [step]) + paths[i] {
    }
    assert Behind(path, Prefixed(step, paths)) == b;
    assert Behind(path, LeavesBelow(src, n + 1).paths) == a + b;
    DeleteAllConcat(t, a, b);
    LoggedConcat(t, a, b);
  }

  lemma {:induction false} StoppedHere(src: Tree, n: nat, m: nat)
    requires n < m <= |src.kids| && LeavesBelow(src, n + 1).stopped
    ensures LeavesBelow(src, m) == LeavesBelow(src, n + 1)
    decreases m
  {
    if n + 1 < m {
      StoppedHere(src, n, m - 1);
    }
  }
}
