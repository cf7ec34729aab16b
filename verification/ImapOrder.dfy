/** Merging integer maps: when their search trees stay in order (imap_cmp in ydb/ynode.c). */
module ImapOrder {
  import opened Common
  import opened YNode
  import opened Merge
  import opened MergeLaws

  /** Wherever the merge reaches an integer map, its comparison orders the keys of both sides. */
  ghost predicate Comparable(cur: Option<Tree>, src: Tree)
    decreases src
  {
    OpGet(cur, src).Delete? || ComparableKids(Begun(cur, src), src)
  }

  ghost predicate ComparableKids(t: Tree, src: Tree)
    decreases src, 0
  {
    (t.kind == IMap ==> OrderOn(IMap, KeySet(t.kids) + KeySet(src.kids))) &&
    forall i :: 0 <= i < |src.kids| ==> Comparable(Partner(t, src.kids[i].key), src.kids[i].node)
  }

  /** Settling a child brings no other key with it. */
  lemma {:induction false} SettledKeySet(t: Tree, key: string, op: Op, node: Option<Tree>)
    requires MapLike(t.kind)
    ensures KeySet(Settled(t, key, op, node).kids) <= KeySet(t.kids) + {key}
  {
    hide IndexOf, Rank, KeyCmp;
    var u := Settled(t, key, op, node);
    forall e | e in u.kids ensures e.key == key || e in t.kids {
      DetachedNodes(t, key);
    }
  }

  /** Every key that the merge looks up or adds in an integer map is in order with those it holds then. */
  lemma {:induction false} LookupsInOrder(t: Tree, src: Tree, n: nat)
    requires n <= |src.kids| && MapLike(t.kind)
    ensures KeySet(MergedKids(t, src, n).kids) <= KeySet(t.kids) + KeySet(src.kids[..n])
    ensures t.kind == IMap && n < |src.kids| && ComparableKids(t, src) ==>
      OrderOn(IMap, KeySet(MergedKids(t, src, n).kids) + {src.kids[n].key})
    decreases n
  {
    hide Settled, Merged, OpGet, Partner, OrderOn, Comparable;
    if n > 0 {
      var u, e := MergedKids(t, src, n - 1), src.kids[n - 1];
      LookupsInOrder(t, src, n - 1);
      MergedKidsHead(t, src, n - 1);
      SettledKeySet(u, e.key, OpGet(Partner(u, e.key), e.node), Merged(Partner(u, e.key), e.node));
      KeySetNext(src.kids, n);
    }
    if t.kind == IMap && n < |src.kids| && ComparableKids(t, src) {
      KeySetPart(src.kids, n);
      OrderOnSome(IMap, KeySet(t.kids) + KeySet(src.kids), KeySet(MergedKids(t, src, n).kids) + {src.kids[n].key});
    }
  }

  lemma {:induction false} KeySetNext(kids: seq<Entry<Tree>>, n: nat)
    requires 0 < n <= |kids|
    ensures KeySet(kids[..n]) == KeySet(kids[..n - 1]) + {kids[n - 1].key}
  {
    assert kids[..n] == kids[..n - 1] + [kids[n - 1]];
  }

  lemma {:induction false} KeySetPart(kids: seq<Entry<Tree>>, n: nat)
    requires n < |kids|
    ensures KeySet(kids[..n]) + {kids[n].key} <= KeySet(kids)
  {
  }

  /** Attaching, detaching and changing a child keep an integer map ascending. */
  lemma {:induction false} SettledAscends(t: Tree, key: string, op: Op, node: Option<Tree>)
    requires t.kind == IMap && AscendingKeys(IMap, t.kids) && OrderOn(IMap, KeySet(t.kids) + {key})
    ensures AscendingKeys(IMap, Settled(t, key, op, node).kids)
  {
    hide IndexOf, Rank, KeyCmp, OrderOn;
    if node.Some? && IndexOf(t.kids, key) == |t.kids| {
      InsertedAscending(IMap, t.kids, key, node.value);
    }
  }

  lemma {:induction false} SettledImaps(t: Tree, key: string, op: Op, node: Option<Tree>)
    requires ImapsAscend(t) && (node.Some? ==> ImapsAscend(node.value))
    requires t.kind == IMap ==> OrderOn(IMap, KeySet(t.kids) + {key})
    ensures ImapsAscend(Settled(t, key, op, node))
  {
    hide OrderOn, AscendingKeys, Settled;
    if t.kind == IMap {
      SettledAscends(t, key, op, node);
    }
    SettledBelow(t, key, op, node);
  }

  lemma {:induction false} SettledBelow(t: Tree, key: string, op: Op, node: Option<Tree>)
    requires ImapsAscend(t) && (node.Some? ==> ImapsAscend(node.value))
    requires t.kind == IMap ==> AscendingKeys(IMap, Settled(t, key, op, node).kids)
    ensures ImapsAscend(Settled(t, key, op, node))
  {
    hide IndexOf, OrderOn, AscendingKeys, Attach, Detach;
    DetachedNodes(t, key);
    if node.Some? {
      AttachedNodes(t, key, node.value);
    }
  }

  lemma {:induction false} ImapsBelow(t: Tree, key: string, src: Tree, i: nat)
    requires ImapsAscend(t) && ImapsAscend(src) && i < |src.kids|
    ensures ImapsAscend(src.kids[i].node) && (Partner(t, key).Some? ==> ImapsAscend(Partner(t, key).value))
  {
    hide AscendingKeys;
  }

  /** A merge leaves every integer map ascending, and finds what it looks up in it, if the comparison
      orders the keys that meet there. */
  lemma {:induction false} ImapsStayInOrder(cur: Option<Tree>, src: Tree)
    requires (cur.Some? ==> WellFormed(cur.value) && ImapsAscend(cur.value)) && WellFormed(src) && ImapsAscend(src)
    requires Comparable(cur, src) && !OpGet(cur, src).Delete?
    ensures ImapsAscend(Merged(cur, src).value)
    decreases src, |src.kids| + 1
  {
    hide WellFormed, OpGet, AscendingKeys, ComparableKids;
    var t := Begun(cur, src);
    BegunWellFormed(cur, src);
    BegunImaps(cur, src);
    KidsStayInOrder(t, src, |src.kids|);
  }

  lemma {:induction false} BegunImaps(cur: Option<Tree>, src: Tree)
    requires cur.Some? ==> ImapsAscend(cur.value)
    ensures ImapsAscend(Begun(cur, src))
  {
    var t := Begun(cur, src);
    assert t.kids == [] || (cur.Some? && t.kids == cur.value.kids && t.kind == cur.value.kind);
  }

  lemma {:induction false} KidsStayInOrder(t: Tree, src: Tree, n: nat)
    requires n <= |src.kids| && WellFormed(t) && WellFormed(src) && ImapsAscend(t) && ImapsAscend(src)
    requires ComparableKids(t, src) && (t.kind == Val <==> src.kind == Val) && (t.kind == List <==> src.kind == List)
    ensures ImapsAscend(MergedKids(t, src, n))
    decreases src, n
  {
    hide WellFormed, ImapsAscend, OpGet, Settled, Merged, OrderOn, ComparableKids, Comparable, Partner;
    if n > 0 {
      var u, e := MergedKids(t, src, n - 1), src.kids[n - 1];
      KidsStayInOrder(t, src, n - 1);
      MergedKidsHead(t, src, n - 1);
      KidWellFormed(src, n - 1);
      PartnerSoFar(t, src, n - 1);
      var cur := Partner(u, e.key);
      PartnerWellFormed(t, e.key);
      ImapsBelow(t, e.key, src, n - 1);
      MergedDeleted(cur, e.node);
      ComparableBelow(t, src, n - 1);
      if !OpGet(cur, e.node).Delete? {
        ImapsStayInOrder(cur, e.node);
      }
      if t.kind == IMap {
        LookupsInOrder(t, src, n - 1);
      }
      SettledImaps(u, e.key, OpGet(cur, e.node), Merged(cur, e.node));
    }
  }

  lemma {:induction false} ComparableBelow(t: Tree, src: Tree, i: nat)
    requires ComparableKids(t, src) && i < |src.kids|
    ensures Comparable(Partner(t, src.kids[i].key), src.kids[i].node)
  {
    hide Comparable, Partner, OrderOn;
  }

  /** What the next child of the source meets has not been touched before. */
  lemma {:induction false} PartnerSoFar(t: Tree, src: Tree, i: nat)
    requires WellFormed(t) && WellFormed(src) && i < |src.kids|
    requires (t.kind == List <==> src.kind == List) && t.kind != Val && src.kind != Val
    ensures Partner(MergedKids(t, src, i), src.kids[i].key) == Partner(t, src.kids[i].key)
  {
    hide WellFormed, MergedKids;
    MergedKidsHead(t, src, i);
    if t.kind != List {
      UntouchedSoFar(t, src, i);
    }
  }

  // ---------- and only if ----------

  /** Without deletions an integer map ends up with the keys of both sides. */
  lemma {:induction false} KeysUnite(t: Tree, src: Tree)
    requires Kept(t) && Kept(src) && MapLike(t.kind) && MapLike(src.kind) && NoDeletes(src)
    ensures KeySet(t.kids) + KeySet(src.kids) <= KeySet(MergedKids(t, src, |src.kids|).kids)
  {
    hide Kept, KeyCmp, MergedKids, Merged;
    var m := MergedKids(t, src, |src.kids|);
    forall key | key in KeySet(t.kids) + KeySet(src.kids) ensures key in KeySet(m.kids) {
      MergedChildUpTo(t, src, |src.kids|, key);
      ChildIn(t, key);
      ChildIn(m, key);
      ChildIn(src, key);
      var i := IndexOf(src.kids, key);
      if i < |src.kids| {
        MergedDeleted(Child(t, key), src.kids[i].node);
      }
    }
  }

  lemma {:induction false} ChildIn(t: Tree, key: string)
    ensures key in KeySet(t.kids) <==> Child(t, key).Some?
    ensures ImapsAscend(t) && Child(t, key).Some? ==> ImapsAscend(Child(t, key).value)
  {
    hide AscendingKeys;
    if key in KeySet(t.kids) {
      var i := KeyAt(t.kids, key);
    }
    var i := IndexOf(t.kids, key);
    assert i < |t.kids| ==> t.kids[i] in t.kids;
  }

  lemma {:induction false} InOrderOnlyIf(cur: Option<Tree>, src: Tree)
    requires (cur.Some? ==> WellFormed(cur.value)) && WellFormed(src) && NoDeletes(src)
    requires !OpGet(cur, src).Delete? && ImapsAscend(Merged(cur, src).value)
    ensures Comparable(cur, src)
    decreases src
  {
    hide WellFormed, OpGet, AscendingKeys, MergedKids, Partner, OrderOn, KeySet, ImapsAscend, NoDeletes, Begun;
    var t, m := Begun(cur, src), Merged(cur, src).value;
    BegunWellFormed(cur, src);
    forall i | 0 <= i < |src.kids| ensures Comparable(Partner(t, src.kids[i].key), src.kids[i].node) {
      var e := src.kids[i];
      KidWellFormed(src, i);
      PartnerWellFormed(t, e.key);
      NotDeletedKid(src, i, Partner(t, e.key));
      KidInOrder(t, src, i);
      InOrderOnlyIf(Partner(t, e.key), e.node);
    }
    MergedKidsHead(t, src, |src.kids|);
    if t.kind == IMap {
      IsKept(t);
      IsKept(src);
      KeysUnite(t, src);
      TopInOrder(m);
      OrderOnSome(IMap, KeySet(m.kids), KeySet(t.kids) + KeySet(src.kids));
    }
  }

  lemma {:induction false} TopInOrder(m: Tree)
    requires ImapsAscend(m) && m.kind == IMap
    ensures OrderOn(IMap, KeySet(m.kids))
  {
    hide OrderOn;
    AscendingIsOrder(IMap, m.kids);
  }

  /** A child of the source ends up, merged, below the merged node. */
  lemma {:induction false} KidInOrder(t: Tree, src: Tree, i: nat)
    requires WellFormed(t) && WellFormed(src) && i < |src.kids| && (t.kind == List <==> src.kind == List) &&
      t.kind != Val
    requires ImapsAscend(MergedKids(t, src, |src.kids|)) &&
      !OpGet(Partner(t, src.kids[i].key), src.kids[i].node).Delete?
    ensures ImapsAscend(Merged(Partner(t, src.kids[i].key), src.kids[i].node).value)
  {
    hide WellFormed, MergedKids, Merged, OpGet, KeyCmp, Kept, AscendingKeys;
    var m, e := MergedKids(t, src, |src.kids|), src.kids[i];
    KidWellFormed(src, i);
    MergedDeleted(Partner(t, e.key), e.node);
    if t.kind == List {
      ListGrows(t, src, |src.kids|);
      assert ImapsAscend(m.kids[|t.kids| + i].node);
    } else {
      IsKept(t);
      IsKept(src);
      MergedChildUpTo(t, src, |src.kids|, e.key);
      KeysOf(src, i);
      MergedKidsHead(t, src, |src.kids|);
      ChildIn(m, e.key);
    }
  }

  /** A source that deletes nothing leaves the integer maps in order exactly if the comparison orders the
      keys that meet in each of them. */
  lemma {:induction false} ImapsInOrderIff(cur: Option<Tree>, src: Tree)
    requires (cur.Some? ==> WellFormed(cur.value) && ImapsAscend(cur.value)) && WellFormed(src) && ImapsAscend(src)
    requires NoDeletes(src)
    ensures Merged(cur, src).Some? && (ImapsAscend(Merged(cur, src).value) <==> Comparable(cur, src))
  {
    hide WellFormed, ImapsAscend, Comparable, Merged;
    MergedDeleted(cur, src);
    if Comparable(cur, src) {
      ImapsStayInOrder(cur, src);
    }
    if ImapsAscend(Merged(cur, src).value) {
      InOrderOnlyIf(cur, src);
    }
  }

  // ---------- sources that delete ----------

  /** The keys that `t` holds after the first `n` children of the source. */
  ghost function Present(t: Tree, src: Tree, n: nat): set<string>
    requires n <= |src.kids|
  {
    set k | k in KeySet(t.kids) + KeySet(src.kids) && IsPresent(t, src, n, k)
  }

  predicate IsPresent(t: Tree, src: Tree, n: nat, k: string)
    requires n <= |src.kids|
  {
    var i := IndexOf(src.kids, k);
    if i < n then !OpGet(Child(t, k), src.kids[i].node).Delete? else Child(t, k).Some?
  }

  lemma {:induction false} PresentKeys(t: Tree, src: Tree, n: nat)
    requires n <= |src.kids| && Kept(t) && Kept(src) && MapLike(t.kind) && MapLike(src.kind)
    ensures KeySet(MergedKids(t, src, n).kids) == Present(t, src, n)
  {
    hide Kept, KeyCmp, MergedKids, Merged, OpGet;
    var u := MergedKids(t, src, n);
    forall k ensures k in KeySet(u.kids) <==> k in Present(t, src, n) {
      MergedChildUpTo(t, src, n, k);
      ChildIn(u, k);
      ChildIn(t, k);
      ChildIn(src, k);
      var i := IndexOf(src.kids, k);
      if i < n {
        MergedDeleted(Child(t, k), src.kids[i].node);
      }
    }
  }

  /** A key that is added is in order with those held at that time. */
  ghost predicate AddsInOrder(t: Tree, src: Tree, n: nat)
    requires n < |src.kids|
  {
    var k := src.kids[n].key;
    Child(t, k).None? ==> OrderOn(IMap, Present(t, src, n) + {k})
  }

  ghost predicate AddsAllInOrder(cur: Option<Tree>, src: Tree)
    decreases src
  {
    OpGet(cur, src).Delete? ||
    var t := Begun(cur, src);
    (t.kind == IMap ==> forall n :: 0 <= n < |src.kids| ==> AddsInOrder(t, src, n)) &&
    forall i :: 0 <= i < |src.kids| ==> AddsAllInOrder(Partner(t, src.kids[i].key), src.kids[i].node)
  }

  ghost predicate AscendsAt(t: Tree, src: Tree, n: nat)
    requires n <= |src.kids|
  {
    AscendingKeys(IMap, MergedKids(t, src, n).kids)
  }

  /** Every integer map is in order all the time while the merge goes on in it. */
  ghost predicate AlwaysAscends(cur: Option<Tree>, src: Tree)
    decreases src
  {
    OpGet(cur, src).Delete? ||
    var t := Begun(cur, src);
    (t.kind == IMap ==> forall n :: 0 <= n <= |src.kids| ==> AscendsAt(t, src, n)) &&
    forall i :: 0 <= i < |src.kids| ==> AlwaysAscends(Partner(t, src.kids[i].key), src.kids[i].node)
  }

  /** What is exchanged or taken out where it is leaves the others in order. */
  lemma {:induction false} PresentAscends(t: Tree, key: string, op: Op, node: Option<Tree>)
    requires t.kind == IMap && AscendingKeys(IMap, t.kids) && IndexOf(t.kids, key) < |t.kids|
    ensures AscendingKeys(IMap, Settled(t, key, op, node).kids)
  {
    hide IndexOf, Rank, KeyCmp;
  }

  /** One child of the source more. */
  lemma {:induction false} AscendsNext(t: Tree, src: Tree, n: nat)
    requires n < |src.kids| && Kept(t) && Kept(src) && t.kind == IMap && MapLike(src.kind) && AscendsAt(t, src, n)
    ensures AscendsAt(t, src, n + 1) <==> AddsInOrder(t, src, n)
  {
    hide Kept, KeyCmp, Merged, OpGet, AscendingKeys, OrderOn, Present, Attach, Detach, Update;
    var u, e := MergedKids(t, src, n), src.kids[n];
    MergedKidsHead(t, src, n);
    MergedChildUpTo(t, src, n, e.key);
    KeysOf(src, n);
    PresentKeys(t, src, n);
    var cur := Partner(u, e.key);
    MergedDeleted(cur, e.node);
    if cur.Some? {
      PresentAscends(u, e.key, OpGet(cur, e.node), Merged(cur, e.node));
    } else {
      OpGetNone(e.node);
      AddedAscends(u, e.key, Merged(cur, e.node).value);
    }
  }

  lemma {:induction false} AddedAscends(t: Tree, key: string, node: Tree)
    requires t.kind == IMap && AscendingKeys(IMap, t.kids) && Child(t, key).None?
    ensures AscendingKeys(IMap, Attach(t, key, node).kids) <==> OrderOn(IMap, KeySet(t.kids) + {key})
  {
    hide Rank, KeyCmp, OrderOn, AscendingKeys;
    InsertedAscending(IMap, t.kids, key, node);
  }

  lemma {:induction false} AscendsUpTo(t: Tree, src: Tree, n: nat)
    requires n <= |src.kids| && Kept(t) && Kept(src)
    requires t.kind == IMap && MapLike(src.kind) && AscendingKeys(IMap, t.kids)
    ensures (forall m :: 0 <= m <= n ==> AscendsAt(t, src, m)) <==> (forall m :: 0 <= m < n ==> AddsInOrder(t, src, m))
    decreases n
  {
    hide Kept, AscendingKeys, AddsInOrder, AscendsAt;
    if n == 0 {
      assert AscendsAt(t, src, 0) by {
        StartsAscending(t, src);
      }
    } else {
      AscendsUpTo(t, src, n - 1);
      if forall m :: 0 <= m <= n - 1 ==> AscendsAt(t, src, m) {
        AscendsNext(t, src, n - 1);
      }
    }
  }

  lemma {:induction false} StartsAscending(t: Tree, src: Tree)
    requires AscendingKeys(IMap, t.kids)
    ensures AscendsAt(t, src, 0)
  {
  }

  /** For any source: the integer maps are in order all the time exactly if each key added to one is in
      order with those that it holds then. */
  lemma {:induction false} AlwaysInOrderIff(cur: Option<Tree>, src: Tree)
    requires (cur.Some? ==> WellFormed(cur.value) && ImapsAscend(cur.value)) && WellFormed(src)
    ensures AlwaysAscends(cur, src) <==> AddsAllInOrder(cur, src)
    decreases src
  {
    hide WellFormed, OpGet, AscendingKeys, MergedKids, Partner, ImapsAscend, AddsInOrder, AscendsAt, Begun;
    if !OpGet(cur, src).Delete? {
      var t := Begun(cur, src);
      BegunWellFormed(cur, src);
      BegunImaps(cur, src);
      if t.kind == IMap && src.kids != [] {
        IsKept(t);
        IsKept(src);
        TopAscends(t);
        KidWellFormed(src, 0);
        AscendsUpTo(t, src, |src.kids|);
      } else if t.kind == IMap {
        TopAscends(t);
        StartsAscending(t, src);
      }
      forall i | 0 <= i < |src.kids|
        ensures AlwaysAscends(Partner(t, src.kids[i].key), src.kids[i].node)
           <==> AddsAllInOrder(Partner(t, src.kids[i].key), src.kids[i].node)
      {
        KidWellFormed(src, i);
        PartnerWellFormed(t, src.kids[i].key);
        PartnerAscends(t, src.kids[i].key);
        AlwaysInOrderIff(Partner(t, src.kids[i].key), src.kids[i].node);
      }
    }
  }

  lemma {:induction false} TopAscends(t: Tree)
    requires ImapsAscend(t) && t.kind == IMap
    ensures AscendingKeys(IMap, t.kids)
  {
  }

  lemma {:induction false} PartnerAscends(t: Tree, key: string)
    requires ImapsAscend(t)
    ensures Partner(t, key).Some? ==> ImapsAscend(Partner(t, key).value)
  {
    hide AscendingKeys;
  }

  /** In order all the time is in order at the end. */
  lemma {:induction false} AlwaysIsAtLast(cur: Option<Tree>, src: Tree)
    requires (cur.Some? ==> WellFormed(cur.value) && ImapsAscend(cur.value)) && WellFormed(src)
    requires AlwaysAscends(cur, src) && !OpGet(cur, src).Delete?
    ensures ImapsAscend(Merged(cur, src).value)
    decreases src, |src.kids| + 1
  {
    hide WellFormed, OpGet, AscendingKeys, MergedKids, ImapsAscend, Partner;
    var t := Begun(cur, src);
    BegunWellFormed(cur, src);
    BegunImaps(cur, src);
    KidsAtLast(t, src, |src.kids|);
  }

  lemma {:induction false} KidsAtLast(t: Tree, src: Tree, n: nat)
    requires n <= |src.kids| && WellFormed(t) && WellFormed(src) && ImapsAscend(t)
    requires (t.kind == Val <==> src.kind == Val) && (t.kind == List <==> src.kind == List)
    requires t.kind == IMap ==> forall m :: 0 <= m <= |src.kids| ==> AscendsAt(t, src, m)
    requires forall i :: 0 <= i < |src.kids| ==> AlwaysAscends(Partner(t, src.kids[i].key), src.kids[i].node)
    ensures ImapsAscend(MergedKids(t, src, n))
    decreases src, n
  {
    hide WellFormed, ImapsAscend, OpGet, Settled, Merged, AlwaysAscends, Partner, AscendingKeys;
    if n > 0 {
      var u, e := MergedKids(t, src, n - 1), src.kids[n - 1];
      KidsAtLast(t, src, n - 1);
      MergedKidsHead(t, src, n - 1);
      KidWellFormed(src, n - 1);
      PartnerSoFar(t, src, n - 1);
      var cur := Partner(u, e.key);
      PartnerWellFormed(t, e.key);
      PartnerAscends(t, e.key);
      MergedDeleted(cur, e.node);
      if !OpGet(cur, e.node).Delete? {
        AlwaysIsAtLast(cur, e.node);
      }
      MergedKidsHead(t, src, n);
      assert t.kind == IMap ==> AscendsAt(t, src, n);
      SettledBelow(u, e.key, OpGet(cur, e.node), Merged(cur, e.node));
    }
  }
}
