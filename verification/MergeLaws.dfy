/** What a merge amounts to: a union by key, and when merging the same source again changes nothing. */
module MergeLaws {
  import opened Common
  import opened YNode
  import opened Merge
  import opened ChangeLog

  // ---------- children by key ----------

  /** The first entry of a key is the only one. */
  lemma {:induction false} ChildAt(t: Tree, i: nat)
    requires UniqueKeys(t.kids) && i < |t.kids|
    ensures Child(t, t.kids[i].key) == Some(t.kids[i].node) && IndexOf(t.kids, t.kids[i].key) == i
  {
    IndexIs(t.kids, t.kids[i].key, i);
  }

  lemma {:induction false} NoChild(t: Tree, key: string)
    ensures Child(t, key).None? <==> forall i :: 0 <= i < |t.kids| ==> t.kids[i].key != key
  {
  }

  /** Two nodes with unique keys have the same child at a key if they have the same entries of it. */
  lemma {:induction false} SameChild(t: Tree, u: Tree, key: string)
    requires UniqueKeys(t.kids) && UniqueKeys(u.kids)
    requires forall i :: 0 <= i < |t.kids| && t.kids[i].key == key ==> t.kids[i] in u.kids
    requires forall i :: 0 <= i < |u.kids| && u.kids[i].key == key ==> u.kids[i] in t.kids
    ensures Child(t, key) == Child(u, key)
  {
    hide IndexOf, UniqueKeys;
    var i := IndexOf(t.kids, key);
    if i < |t.kids| {
      var k :| 0 <= k < |u.kids| && u.kids[k] == t.kids[i];
      ChildAt(u, k);
    }
  }

  /** Settling a merged child changes what is found at its key, and at no other. */
  lemma {:induction false} ChildSettled(t: Tree, key: string, op: Op, node: Option<Tree>, k: string)
    requires Kept(t) && MapLike(t.kind)
    ensures Child(Settled(t, key, op, node), k) == if k == key then node else Child(t, k)
  {
    hide Child, KeyCmp, Rank, Kept;
    var u := Settled(t, key, op, node);
    SettledKept(t, key, op, node);
    SettledEntries(t, key, op, node);
    if k != key {
      SameChild(t, u, k);
    } else if node.None? {
      NoChild(u, key);
    } else {
      var i :| 0 <= i < |u.kids| && u.kids[i] == Entry(key, node.value);
      ChildAt(u, i);
    }
  }

  lemma {:induction false} SettledKept(t: Tree, key: string, op: Op, node: Option<Tree>)
    requires Kept(t) && MapLike(t.kind)
    ensures Kept(Settled(t, key, op, node)) && UniqueKeys(Settled(t, key, op, node).kids) && UniqueKeys(t.kids)
  {
    hide KeyCmp, Attach, Update, Detach;
    DetachKept(t, key);
    if node.Some? {
      AttachKept(t, key, node.value);
      if IndexOf(t.kids, key) < |t.kids| {
        UpdateKept(t, IndexOf(t.kids, key), node.value);
      }
    }
  }

  lemma {:induction false} SettledEntries(t: Tree, key: string, op: Op, node: Option<Tree>)
    requires UniqueKeys(t.kids) && MapLike(t.kind)
    ensures var u := Settled(t, key, op, node);
      (forall i :: 0 <= i < |t.kids| && t.kids[i].key != key ==> t.kids[i] in u.kids)
      && (forall i :: 0 <= i < |u.kids| ==>
        if u.kids[i].key == key then Some(u.kids[i].node) == node else u.kids[i] in t.kids)
      && (node.Some? ==> Entry(key, node.value) in u.kids)
  {
    hide Rank, KeyCmp, IndexOf;
    var u, i := Settled(t, key, op, node), IndexOf(t.kids, key);
    if node.None? || (t.kind == OMap && !op.Nothing?) {
      assert Without(t.kids, i) <= u.kids;
      DroppedEntries(t.kids, i);
      assert node.Some? ==> u.kids[|u.kids| - 1] == Entry(key, node.value);
    } else if i < |t.kids| {
      assert u.kids == t.kids[i := Entry(key, node.value)];
      assert u.kids[i] == Entry(key, node.value);
      assert forall j :: 0 <= j < |t.kids| && j != i ==> u.kids[j] == t.kids[j];
    } else {
      assert t.kind != OMap || op.Nothing?;
    }
  }

  // ---------- the union ----------

  /** What a map-like node has at `key` after the first `n` children of the source. */
  lemma {:induction false} MergedChildUpTo(t: Tree, src: Tree, n: nat, key: string)
    requires n <= |src.kids| && Kept(t) && Kept(src) && MapLike(t.kind) && MapLike(src.kind)
    ensures Kept(MergedKids(t, src, n))
    ensures var i := IndexOf(src.kids, key);
      Child(MergedKids(t, src, n), key) == if i < n then Merged(Child(t, key), src.kids[i].node) else Child(t, key)
    decreases n
  {
    hide Kept, KeyCmp, Settled, Merged, Child;
    if n > 0 {
      var u, e := MergedKids(t, src, n - 1), src.kids[n - 1];
      MergedKidsHead(t, src, n - 1);
      MergedChildUpTo(t, src, n - 1, key);
      MergedChildUpTo(t, src, n - 1, e.key);
      KeysOf(src, n - 1);
      var op, node := OpGet(Partner(u, e.key), e.node), Merged(Partner(u, e.key), e.node);
      SettledKept(u, e.key, op, node);
      ChildSettled(u, e.key, op, node, key);
    }
  }

  lemma {:induction false} KeysOf(src: Tree, i: nat)
    requires Kept(src) && MapLike(src.kind) && i < |src.kids|
    ensures IndexOf(src.kids, src.kids[i].key) == i && UniqueKeys(src.kids)
  {
    ChildAt(src, i);
  }

  /** Merging two map-like nodes unites them by key: a key of only one side stays as it is there, one
      of both sides is merged, or gone if the source deletes it. */
  lemma {:induction false} MergeUnites(cur: Tree, src: Tree, key: string)
    requires WellFormed(cur) && WellFormed(src) && MapLike(cur.kind) && MapLike(src.kind) && src.tag != Some(DELETE_TAG)
    ensures var m := Merged(Some(cur), src).value;
      m.(kids := []) == cur.(kids := [])
      && Child(m, key) == if Child(src, key).None? then Child(cur, key)
        else Merged(Child(cur, key), Child(src, key).value)
    ensures Child(src, key).Some? && Child(cur, key).None? && ImapsAscend(src) ==>
      Child(Merged(Some(cur), src).value, key) == Some(Copied(Child(src, key).value))
  {
    MergedChildUpTo(cur, src, |src.kids|, key);
    MergedKidsHead(cur, src, |src.kids|);
    if Child(src, key).Some? && ImapsAscend(src) {
      CreatedIsCopy(Child(src, key).value);
    }
  }

  /** The source as a new tree: hooks are not taken over. */
  function Copied(src: Tree): Tree {
    src.(hook := None, kids := CopiedKids(src.kids))
  }

  function CopiedKids(kids: seq<Entry<Tree>>): (r: seq<Entry<Tree>>)
    ensures |r| == |kids| && forall i :: 0 <= i < |r| ==> r[i] == Entry(kids[i].key, Copied(kids[i].node))
  {
    seq(|kids|, i requires 0 <= i < |kids| => Entry(kids[i].key, Copied(kids[i].node)))
  }

  /** Where there was nothing, the source is copied, in its own order and with any delete tags. */
  lemma {:induction false} CreatedIsCopy(src: Tree)
    requires WellFormed(src) && ImapsAscend(src)
    ensures Merged(None, src) == Some(Copied(src))
    decreases src, |src.kids| + 1
  {
    hide CopiedKids, WellFormed;
    var t := Begun(None, src);
    CopyKids(t, src, |src.kids|);
    assert src.kids[..|src.kids|] == src.kids;
    assert [] + CopiedKids(src.kids) == CopiedKids(src.kids);
  }

  lemma {:induction false} CopyKids(t: Tree, src: Tree, n: nat)
    requires n <= |src.kids| && WellFormed(src) && ImapsAscend(src) && t.kind == src.kind
    requires t.kids == [] || t.kind == List
    ensures MergedKids(t, src, n) == t.(kids := t.kids + CopiedKids(src.kids[..n]))
    decreases src, n
  {
    hide Copied, CopiedKids, WellFormed, Settled, OpGet, Merged, Partner, MergedKids, KidsLog, NodeLog;
    if n > 0 {
      NextKid(t, src, n);
      var u, e := MergedKids(t, src, n - 1), src.kids[n - 1];
      CopyKids(t, src, n - 1);
      KidWellFormed(src, n - 1);
      CreatedIsCopy(e.node);
      CopiedNext(src.kids, n);
      NextIsNew(u, src, n);
      OpGetNone(e.node);
    } else {
      FirstKid(t, src);
      CopiedNone();
    }
  }

  lemma {:induction false} CopiedNone()
    ensures CopiedKids([]) == []
  {
  }

  lemma {:induction false} OpGetNone(src: Tree)
    ensures OpGet(None, src) == Create
  {
  }

  lemma {:induction false} CopiedNext(kids: seq<Entry<Tree>>, n: nat)
    requires 0 < n <= |kids|
    ensures CopiedKids(kids[..n]) == CopiedKids(kids[..n - 1]) + [Entry(kids[n - 1].key, Copied(kids[n - 1].node))]
  {
    hide Copied;
  }

  /** The next child of the source comes after those copied so far. */
  lemma {:induction false} NextIsNew(u: Tree, src: Tree, n: nat)
    requires 0 < n <= |src.kids| && WellFormed(src) && ImapsAscend(src) && u.kind == src.kind
    requires u.kind == List || u.kids == CopiedKids(src.kids[..n - 1])
    ensures var e := src.kids[n - 1];
      Partner(u, e.key).None? && (u.kind == List ==> e.key == "")
      && forall node :: Settled(u, e.key, Create, Some(node)) == u.(kids := u.kids + [Entry(e.key, node)])
  {
    hide Copied, KeyCmp;
    var e := src.kids[n - 1];
    if u.kind != List {
      NoChild(u, e.key);
      AtTheEnd(u.kind, u.kids, e.key);
    }
  }

  lemma {:induction false} AtTheEnd(kind: Kind, kids: seq<Entry<Tree>>, key: string)
    requires forall i :: 0 <= i < |kids| ==> kids[i].key != key
    ensures IndexOf(kids, key) == |kids|
    ensures (forall i :: 0 <= i < |kids| ==> KeyCmp(kind, kids[i].key, key) < 0) ==> Rank(kind, kids, key) == |kids|
  {
  }

  /** A list takes the source's entries at its end, each merged with nothing. */
  lemma {:induction false} ListGrows(t: Tree, src: Tree, n: nat)
    requires n <= |src.kids| && t.kind == List
    ensures var m := MergedKids(t, src, n);
      m == t.(kids := m.kids) && |m.kids| == |t.kids| + n
      && forall i :: 0 <= i < n ==> Some(m.kids[|t.kids| + i].node) == Merged(None, src.kids[i].node)
    decreases n
  {
    hide Merged;
    if n > 0 {
      ListGrows(t, src, n - 1);
      OpGetNone(src.kids[n - 1].node);
      MergedDeleted(None, src.kids[n - 1].node);
    }
  }

  /** A list takes copies of the source's entries at its end. */
  lemma {:induction false} MergeAppends(cur: Tree, src: Tree)
    requires WellFormed(src) && ImapsAscend(src) && cur.kind == List && src.kind == List && src.tag != Some(DELETE_TAG)
    ensures Merged(Some(cur), src) == Some(cur.(kids := cur.kids + CopiedKids(src.kids)))
  {
    CopyKids(cur, src, |src.kids|);
    assert src.kids[..|src.kids|] == src.kids;
  }

  /** A value takes the text of the source.  With the same text only its origin follows, and nothing is
      logged; with another it is a copy that keeps the hook, and that is logged once. */
  lemma {:induction false} ValueMerges(cur: Tree, src: Tree, step: string)
    requires WellFormed(src) && cur.kind == Val && src.kind == Val && src.tag != Some("!ydb!delete")
    ensures var m := Merged(Some(cur), src);
      m.Some? && m.value.value == src.value
      && m.value == (if cur.value == src.value then cur.(origin := if cur.origin != 0 then src.origin else 0)
        else src.(hook := cur.hook))
      && NodeLog(Some(cur), src, step) ==
        if cur.value == src.value then [] else [Put([step], Val, src.value, src.tag)]
  {
    IsKept(src);
    assert Under(step, []) == [];
  }

  /** Two containers that are both lists, or maps of any kind, stay what they are, with the tag, origin
      and hook of the old one, and only what is below them is logged. */
  lemma {:induction false} ContainerStays(cur: Tree, src: Tree, step: string)
    requires cur.kind != Val && src.kind != Val && (cur.kind == List <==> src.kind == List)
    requires src.tag != Some("!ydb!delete")
    ensures var m := Merged(Some(cur), src); m.Some? && m.value.(kids := []) == cur.(kids := [])
    ensures forall i :: 0 <= i < |NodeLog(Some(cur), src, step)| ==> |NodeLog(Some(cur), src, step)[i].path| > 1
  {
    MergedKidsHead(Begun(Some(cur), src), src, |src.kids|);
  }

  /** What is of another sort, or a value of another text, is replaced by a copy, which keeps the hook.  It
      is logged first, as what the source is. */
  lemma {:induction false} MergeReplaces(cur: Tree, src: Tree, step: string)
    requires WellFormed(src) && ImapsAscend(src) && src.tag != Some("!ydb!delete")
    requires if cur.kind == Val && src.kind == Val then cur.value != src.value
      else cur.kind == Val || src.kind == Val || !(cur.kind == List <==> src.kind == List)
    ensures Merged(Some(cur), src) == Some(Copied(src).(hook := cur.hook))
    ensures var log := NodeLog(Some(cur), src, step);
      log != [] && log[0] == Put([step], src.kind, src.value, src.tag)
      && forall i :: 1 <= i < |log| ==> |log[i].path| > 1
  {
    hide CopiedKids, WellFormed, NodeLog, OpGet;
    OpGetIs(cur, src);
    PutFirst(Some(cur), src, step);
    CopyKids(Begun(Some(cur), src), src, |src.kids|);
    assert src.kids[..|src.kids|] == src.kids;
    assert [] + CopiedKids(src.kids) == CopiedKids(src.kids);
  }

  /** A created node is logged in the same way. */
  lemma {:induction false} CreationIsLogged(src: Tree, step: string)
    ensures var log := NodeLog(None, src, step);
      log != [] && log[0] == Put([step], src.kind, src.value, src.tag)
      && forall i :: 1 <= i < |log| ==> |log[i].path| > 1
  {
    hide NodeLog, OpGet;
    OpGetNone(src);
    PutFirst(None, src, step);
  }

  lemma {:induction false} PutFirst(cur: Option<Tree>, src: Tree, step: string)
    requires OpGet(cur, src).Create? || OpGet(cur, src).Replace?
    ensures var log := NodeLog(cur, src, step);
      log != [] && log[0] == Put([step], src.kind, src.value, src.tag)
      && forall i :: 1 <= i < |log| ==> |log[i].path| > 1
  {
    hide OpGet, KidsLog, Begun;
  }

  /** Nothing in the source deletes. */
  ghost predicate NoDeletes(src: Tree) {
    src.tag != Some(DELETE_TAG) && forall i :: 0 <= i < |src.kids| ==> NoDeletes(src.kids[i].node)
  }

  lemma {:induction false} NotDeletedKid(src: Tree, i: nat, cur: Option<Tree>)
    requires NoDeletes(src) && i < |src.kids|
    ensures var e := src.kids[i]; NoDeletes(e.node) && !OpGet(cur, e.node).Delete? && Merged(cur, e.node).Some?
  {
  }

  // ---------- merging the same source again ----------

  /** No list entry to append and nothing to delete below the top. */
  ghost predicate Quiet(src: Tree) {
    (src.kind == List ==> src.kids == []) &&
    forall i :: 0 <= i < |src.kids| ==> src.kids[i].node.tag != Some(DELETE_TAG) && Quiet(src.kids[i].node)
  }

  lemma {:induction false} OpAgain(cur: Option<Tree>, src: Tree)
    requires !OpGet(cur, src).Delete? && src.tag != Some(DELETE_TAG)
    ensures var m := Merged(cur, src).value; OpGet(Some(m), src) == Nothing && Begun(Some(m), src) == m
    ensures var m := Merged(cur, src).value; m.kind == src.kind || (MapLike(m.kind) && MapLike(src.kind))
  {
    hide MergedKids;
    MergedKidsHead(Begun(cur, src), src, |src.kids|);
  }

  /** The child that the second merge meets at a child of the source. */
  lemma {:induction false} MetAgain(cur: Option<Tree>, src: Tree, i: nat)
    requires (cur.Some? ==> WellFormed(cur.value)) && WellFormed(src) && !OpGet(cur, src).Delete?
    requires i < |src.kids| && src.kind != List
    ensures var m, e := Merged(cur, src).value, src.kids[i];
      Child(m, e.key) == Merged(Child(Begun(cur, src), e.key), e.node) && MapLike(m.kind)
  {
    hide WellFormed, Child, KeyCmp;
    BegunWellFormed(cur, src);
    IsKept(Begun(cur, src));
    IsKept(src);
    MergedKidsHead(Begun(cur, src), src, |src.kids|);
    KidWellFormed(src, i);
    KeysOf(src, i);
    MergedChildUpTo(Begun(cur, src), src, |src.kids|, src.kids[i].key);
  }

  lemma {:induction false} IsKept(t: Tree)
    requires WellFormed(t)
    ensures Kept(t)
  {
  }

  /** A quiet source merged for the second time changes nothing and logs nothing. */
  lemma {:induction false} MergeIsIdempotent(cur: Option<Tree>, src: Tree)
    requires (cur.Some? ==> WellFormed(cur.value)) && WellFormed(src) && src.tag != Some(DELETE_TAG) && Quiet(src)
    ensures var m := Merged(cur, src).value; Merged(Some(m), src) == Some(m) && MergeLog(m, src) == []
    decreases src, |src.kids| + 1
  {
    hide WellFormed, MergedKids, KidsLog, OpGet;
    NotDeleted(cur, src);
    OpAgain(cur, src);
    AgainKids(cur, src, |src.kids|);
  }

  lemma {:induction false} AgainKids(cur: Option<Tree>, src: Tree, n: nat)
    requires (cur.Some? ==> WellFormed(cur.value)) && WellFormed(src) && src.tag != Some(DELETE_TAG) && Quiet(src)
    requires n <= |src.kids| && !OpGet(cur, src).Delete?
    ensures var m := Merged(cur, src).value; MergedKids(m, src, n) == m && KidsLog(m, src, n) == []
    decreases src, n
  {
    hide WellFormed, Merged, MergedKids, KidsLog, NodeLog, Partner, Settled, Child, Begun, Quiet, OpGet, MergeLog;
    NotDeleted(cur, src);
    var m := Merged(cur, src).value;
    if n == 0 {
      FirstKid(m, src);
    } else {
      var e := src.kids[n - 1];
      NextKid(m, src, n);
      QuietKid(src, n - 1);
      KidWellFormed(src, n - 1);
      AgainKids(cur, src, n - 1);
      MetAgain(cur, src, n - 1);
      BegunWellFormed(cur, src);
      ChildWellFormed(Begun(cur, src), e.key);
      AgainKid(m, Child(Begun(cur, src), e.key), e);
    }
  }

  lemma {:induction false} QuietKid(src: Tree, i: nat)
    requires Quiet(src) && i < |src.kids|
    ensures src.kind != List && src.kids[i].node.tag != Some(DELETE_TAG) && Quiet(src.kids[i].node)
  {
  }

  lemma {:induction false} ChildWellFormed(t: Tree, key: string)
    requires WellFormed(t)
    ensures Child(t, key).Some? ==> WellFormed(Child(t, key).value)
  {
  }

  lemma {:induction false} AgainKid(m: Tree, cur: Option<Tree>, e: Entry<Tree>)
    requires (cur.Some? ==> WellFormed(cur.value)) && WellFormed(e.node) && e.node.tag != Some(DELETE_TAG) &&
      Quiet(e.node)
    requires Child(m, e.key) == Merged(cur, e.node) && MapLike(m.kind)
    ensures Settled(m, e.key, OpGet(Partner(m, e.key), e.node), Merged(Partner(m, e.key), e.node)) == m
    ensures NodeLog(Partner(m, e.key), e.node, e.key) == []
    decreases e.node, |e.node.kids| + 2
  {
    hide WellFormed, MergedKids, KidsLog, Begun;
    MergeIsIdempotent(cur, e.node);
    OpAgain(cur, e.node);
    var i := IndexOf(m.kids, e.key);
    assert m.kids[i := m.kids[i].(node := m.kids[i].node)] == m.kids;
  }

  /** What is logged about one child is in the log. */
  lemma {:induction false} KidsLogPart(t: Tree, src: Tree, i: nat, n: nat)
    requires i < n <= |src.kids|
    ensures var u, e := MergedKids(t, src, i), src.kids[i];
      NodeLog(Partner(u, e.key), e.node, Step(t, e.key)) != [] ==> KidsLog(t, src, n) != []
    decreases n
  {
    hide NodeLog, MergedKids;
    if i < n - 1 {
      KidsLogPart(t, src, i, n - 1);
    }
  }

  lemma {:induction false} UntouchedSoFar(m: Tree, src: Tree, i: nat)
    requires WellFormed(m) && WellFormed(src) && MapLike(m.kind) && MapLike(src.kind) && i < |src.kids|
    ensures Partner(MergedKids(m, src, i), src.kids[i].key) == Child(m, src.kids[i].key)
  {
    hide KeyCmp, Child, WellFormed;
    IsKept(m);
    IsKept(src);
    MergedKidsHead(m, src, i);
    KeysOf(src, i);
    MergedChildUpTo(m, src, i, src.kids[i].key);
  }

  /** A delete tag creates its node where there is none and deletes it where there is one. */
  lemma {:induction false} DeleteAlternates(was: Option<Tree>, src: Tree, step: string)
    requires src.tag == Some("!ydb!delete")
    ensures Merged(was, src).None? <==> was.Some?
    ensures NodeLog(Merged(was, src), src, step) != []
    ensures was.Some? ==> NodeLog(was, src, step) == [Del([step])]
  {
  }

  lemma {:induction false} LoudEntry(src: Tree, step: string)
    ensures NodeLog(None, src, step) != []
  {
  }

  lemma {:induction false} LoudBelow(m: Tree, src: Tree, step: string)
    requires OpGet(Some(m), src).Nothing? && MergeLog(m, src) != []
    ensures NodeLog(Some(m), src, step) != []
  {
  }

  /** A source that is not quiet logs something every time. */
  lemma {:induction false} LoudAgain(cur: Option<Tree>, src: Tree)
    requires (cur.Some? ==> WellFormed(cur.value)) && WellFormed(src) && src.tag != Some(DELETE_TAG) && !Quiet(src)
    ensures MergeLog(Merged(cur, src).value, src) != []
    decreases src
  {
    hide WellFormed, MergedKids, KidsLog, OpGet, Child, Begun, Merged, NodeLog;
    NotDeleted(cur, src);
    var m := Merged(cur, src).value;
    OpAgain(cur, src);
    if src.kind == List {
      LoudEntry(src.kids[0].node, "");
      KidsLogPart(m, src, 0, |src.kids|);
      MergedKidsHead(m, src, 0);
    } else {
      var i :| 0 <= i < |src.kids| && !(src.kids[i].node.tag != Some(DELETE_TAG) && Quiet(src.kids[i].node));
      var e := src.kids[i];
      LoudKid(cur, src, i);
      KidsLogPart(m, src, i, |src.kids|);
    }
  }

  /** No other tag deletes. */
  lemma {:induction false} NotDeleted(cur: Option<Tree>, src: Tree)
    requires src.tag != Some("!ydb!delete")
    ensures !OpGet(cur, src).Delete? && Merged(cur, src).Some?
  {
  }

  lemma {:induction false} LoudKid(cur: Option<Tree>, src: Tree, i: nat)
    requires (cur.Some? ==> WellFormed(cur.value)) && WellFormed(src) && src.tag != Some(DELETE_TAG) && src.kind != List
    requires i < |src.kids| && (src.kids[i].node.tag == Some(DELETE_TAG) || !Quiet(src.kids[i].node))
    ensures var m, e := Merged(cur, src).value, src.kids[i];
      NodeLog(Partner(MergedKids(m, src, i), e.key), e.node, Step(m, e.key)) != []
    decreases src, 0
  {
    hide WellFormed, MergedKids, KidsLog, OpGet, Child, Begun, Merged, NodeLog, MergeLog, Quiet, Partner;
    NotDeleted(cur, src);
    var m, e := Merged(cur, src).value, src.kids[i];
    var was := Child(Begun(cur, src), e.key);
    KidWellFormed(src, i);
    BegunWellFormed(cur, src);
    ChildWellFormed(Begun(cur, src), e.key);
    MergeKeepsOrder(cur, src);
    MetAgain(cur, src, i);
    UntouchedSoFar(m, src, i);
    if e.node.tag == Some(DELETE_TAG) {
      DeleteAlternates(was, e.node, e.key);
    } else {
      NotDeleted(was, e.node);
      LoudAgain(was, e.node);
      OpAgain(was, e.node);
      LoudBelow(Merged(was, e.node).value, e.node, e.key);
    }
  }

  /** Exactly the sources without list entries and, below the top, without delete tags can be merged
      again, or come back from a replica, without anything being logged and so published again. */
  lemma {:induction false} RepublishedUnlessQuiet(cur: Option<Tree>, src: Tree)
    requires (cur.Some? ==> WellFormed(cur.value)) && WellFormed(src) && src.tag != Some(DELETE_TAG)
    ensures var m := Merged(cur, src).value;
      (MergeLog(m, src) == [] && Merged(Some(m), src) == Some(m)) <==> Quiet(src)
  {
    hide WellFormed, Merged, Quiet, MergeLog;
    if Quiet(src) {
      MergeIsIdempotent(cur, src);
    } else {
      LoudAgain(cur, src);
    }
  }

  // ---------- the order of an ordered map ----------

  function Keys(kids: seq<Entry<Tree>>): (r: seq<string>)
    ensures |r| == |kids| && forall i :: 0 <= i < |r| ==> r[i] == kids[i].key
  {
    seq(|kids|, i requires 0 <= i < |kids| => kids[i].key)
  }

  function Remaining(keys: seq<string>, gone: set<string>): seq<string> {
    if keys == [] then []
    else Remaining(keys[..|keys| - 1], gone) + if keys[|keys| - 1] in gone then [] else [keys[|keys| - 1]]
  }

  /** The operation that the i-th child of the source stands for. */
  function OpAt(t: Tree, src: Tree, i: nat): Op
    requires i < |src.kids|
  {
    OpGet(Child(t, src.kids[i].key), src.kids[i].node)
  }

  /** The keys that lose their place: deleted, or replaced and so put at the end. */
  function Gone(t: Tree, src: Tree, n: nat): set<string>
    requires n <= |src.kids|
  {
    if n == 0 then {} else Gone(t, src, n - 1) + if OpAt(t, src, n - 1).Nothing? then {} else {src.kids[n - 1].key}
  }

  /** The keys that are put at the end, in the order of the source. */
  function Moved(t: Tree, src: Tree, n: nat): (r: seq<string>)
    requires n <= |src.kids|
    ensures forall k :: k in r ==> exists i :: 0 <= i < n && src.kids[i].key == k
  {
    if n == 0 then []
    else
      Moved(t, src, n - 1) +
        if OpAt(t, src, n - 1).Create? || OpAt(t, src, n - 1).Replace? then [src.kids[n - 1].key] else []
  }

  lemma {:induction false} RemainingParts(a: seq<string>, b: seq<string>, gone: set<string>)
    ensures Remaining(a + b, gone) == Remaining(a, gone) + Remaining(b, gone)
  {
    if b == [] {
      assert a + b == a;
    } else {
      RemainingParts(a, b[..|b| - 1], gone);
      assert (a + b)[..|a + b| - 1] == a + b[..|b| - 1];
    }
  }

  lemma {:induction false} RemainingTwice(a: seq<string>, gone: set<string>, more: set<string>)
    ensures Remaining(Remaining(a, gone), more) == Remaining(a, gone + more)
  {
    if a != [] {
      var last := a[|a| - 1];
      RemainingTwice(a[..|a| - 1], gone, more);
      RemainingParts(Remaining(a[..|a| - 1], gone), if last in gone then [] else [last], more);
      RemainingOne(last, more);
    }
  }

  lemma {:induction false} RemainingOne(k: string, gone: set<string>)
    ensures Remaining([k], gone) == (if k in gone then [] else [k]) && Remaining([], gone) == []
  {
    assert [k][..0] == [];
  }

  lemma {:induction false} RemainingAll(a: seq<string>, gone: set<string>)
    requires forall k :: k in a ==> k !in gone
    ensures Remaining(a, gone) == a
  {
    if a != [] {
      RemainingAll(a[..|a| - 1], gone);
    }
  }

  lemma {:induction false} DroppedKeys(kids: seq<Entry<Tree>>, key: string)
    requires UniqueKeys(kids)
    ensures Keys(Without(kids, IndexOf(kids, key))) == Remaining(Keys(kids), {key})
  {
    hide Remaining;
    var i := IndexOf(kids, key);
    var keys := Keys(kids);
    if i < |kids| {
      assert keys == keys[..i] + [key] + keys[i + 1..];
      RemainingParts(keys[..i] + [key], keys[i + 1..], {key});
      RemainingParts(keys[..i], [key], {key});
      RemainingAll(keys[..i], {key});
      RemainingAll(keys[i + 1..], {key});
      RemainingOne(key, {key});
      assert Keys(Without(kids, i)) == keys[..i] + keys[i + 1..];
    } else {
      RemainingAll(keys, {key});
    }
  }

  lemma {:induction false} SettledKeys(t: Tree, key: string, op: Op, node: Option<Tree>)
    requires UniqueKeys(t.kids) && t.kind == OMap && (op.Delete? <==> node.None?) &&
      (op.Nothing? ==> Child(t, key).Some?)
    ensures Keys(Settled(t, key, op, node).kids) ==
      if op.Nothing? then Keys(t.kids)
      else Remaining(Keys(t.kids), {key}) + if op.Delete? then [] else [key]
  {
    hide Remaining, UniqueKeys;
    DroppedKeys(t.kids, key);
  }

  /** After a merge an ordered map holds first what kept its place and then, in the source's order,
      what was created or replaced. */
  lemma {:induction false} MergeMovesToTail(t: Tree, src: Tree, n: nat)
    requires n <= |src.kids| && Kept(t) && Kept(src) && t.kind == OMap && MapLike(src.kind)
    ensures Keys(MergedKids(t, src, n).kids) == Remaining(Keys(t.kids), Gone(t, src, n)) + Moved(t, src, n)
    decreases n
  {
    hide Kept, Settled, Merged, Child, Remaining, Keys, UniqueKeys, OpGet;
    if n == 0 {
      RemainingAll(Keys(t.kids), {});
    } else {
      var u, e := MergedKids(t, src, n - 1), src.kids[n - 1];
      var k, a, b := e.key, Remaining(Keys(t.kids), Gone(t, src, n - 1)), Moved(t, src, n - 1);
      MergeMovesToTail(t, src, n - 1);
      MergedKidsHead(t, src, n - 1);
      MergedChildUpTo(t, src, n - 1, k);
      KeysOf(src, n - 1);
      MergedChildUpTo(t, src, n, k);
      KeptUnique(u);
      MergedDeleted(Child(t, k), e.node);
      SomethingHere(Child(t, k), e.node);
      SettledKeys(u, k, OpAt(t, src, n - 1), Merged(Child(t, k), e.node));
      EarlierKeys(src, n - 1);
      MovedNext(t, src, n, a, b);
      RemainingTwice(Keys(t.kids), Gone(t, src, n - 1), {k});
    }
  }

  /** One more key goes from its place, or comes to the end. */
  lemma {:induction false} MovedNext(t: Tree, src: Tree, n: nat, a: seq<string>, b: seq<string>)
    requires 0 < n <= |src.kids| && b == Moved(t, src, n - 1) && src.kids[n - 1].key !in b
    ensures var k, op := src.kids[n - 1].key, OpAt(t, src, n - 1);
      (if op.Nothing? then a + b else Remaining(a + b, {k}) + if op.Delete? then [] else [k])
      == (if op.Nothing? then a else Remaining(a, {k})) + Moved(t, src, n)
      && Gone(t, src, n) == if op.Nothing? then Gone(t, src, n - 1) else Gone(t, src, n - 1) + {k}
  {
    hide Remaining, OpAt;
    var k := src.kids[n - 1].key;
    RemainingParts(a, b, {k});
    RemainingAll(b, {k});
    var c := Remaining(a, {k});
    assert (c + b) + [k] == c + (b + [k]) && (c + b) + [] == c + (b + []) && b + [] == b;
  }

  lemma {:induction false} EarlierKeys(src: Tree, i: nat)
    requires Kept(src) && MapLike(src.kind) && i < |src.kids|
    ensures forall j :: 0 <= j < i ==> src.kids[j].key != src.kids[i].key
  {
  }
}
