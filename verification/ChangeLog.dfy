/** The change log of a merge (ynode_log_print) and what a replica makes of it. */
module ChangeLog {
  import opened Common
  import opened YNode
  import opened Merge

  /** A logged change: a node put at, or deleted from, the end of a path below the top.  A step into
      a list is the empty key and stands for its last entry. */
  datatype Record =
    | Put(path: seq<string>, kind: Kind, value: string, tag: Option<string>)
    | Del(path: seq<string>)

  function Under(key: string, recs: seq<Record>): (r: seq<Record>)
    ensures |r| == |recs| && forall i :: 0 <= i < |r| ==> r[i] == recs[i].(path := [key] + recs[i].path)
  {
    seq(|recs|, i requires 0 <= i < |recs| => recs[i].(path := [key] + recs[i].path))
  }

  /** The step that leads to a child of `t`. */
  function Step(t: Tree, key: string): string {
    if t.kind == List then "" else key
  }

  /** What is logged about a node below the top that is merged with `src`; paths start at its parent. */
  function NodeLog(cur: Option<Tree>, src: Tree, step: string): (recs: seq<Record>)
    ensures forall i :: 0 <= i < |recs| ==> recs[i].path != []
    decreases src, |src.kids| + 1
  {
    match OpGet(cur, src)
    case Delete => [Del([step])]
    case Nothing => Under(step, KidsLog(Begun(cur, src), src, |src.kids|))
    case _ => [Put([step], src.kind, src.value, src.tag)] + Under(step, KidsLog(Begun(cur, src), src, |src.kids|))
  }

  function KidsLog(t: Tree, src: Tree, n: nat): (recs: seq<Record>)
    requires n <= |src.kids|
    ensures forall i :: 0 <= i < |recs| ==> recs[i].path != []
    decreases src, n
  {
    if n == 0 then []
    else
      var u, e := MergedKids(t, src, n - 1), src.kids[n - 1];
      KidsLog(t, src, n - 1) + NodeLog(Partner(u, e.key), e.node, Step(t, e.key))
  }

  /** The log of a merge at the top.  The top has no path, so a change of the top itself is not logged. */
  function MergeLog(cur: Tree, src: Tree): (recs: seq<Record>)
    ensures forall i :: 0 <= i < |recs| ==> recs[i].path != []
  {
    if OpGet(Some(cur), src).Delete? then [] else KidsLog(Begun(Some(cur), src), src, |src.kids|)
  }

  /** One more child of the source. */
  lemma {:induction false} NextKid(t: Tree, src: Tree, n: nat)
    requires 0 < n <= |src.kids|
    ensures var u, e := MergedKids(t, src, n - 1), src.kids[n - 1];
      var cur := Partner(u, e.key);
      MergedKids(t, src, n) == Settled(u, e.key, OpGet(cur, e.node), Merged(cur, e.node))
      && KidsLog(t, src, n) == KidsLog(t, src, n - 1) + NodeLog(cur, e.node, Step(t, e.key))
  {
  }

  lemma {:induction false} FirstKid(t: Tree, src: Tree)
    ensures MergedKids(t, src, 0) == t && KidsLog(t, src, 0) == []
  {
  }

  // ---------- replaying ----------

  /** The place of the child that a step leads to. */
  function Reached(t: Tree, step: string): (i: nat)
    ensures i <= |t.kids|
  {
    if t.kind != List then IndexOf(t.kids, step) else if t.kids == [] then 0 else |t.kids| - 1
  }

  function Apply(t: Tree, rec: Record): (r: Tree)
    requires rec.path != []
    ensures r == t.(kids := r.kids)
    decreases |rec.path|
  {
    var step := rec.path[0];
    if |rec.path| == 1 then
      if rec.Put? then Attach(t, step, Tree(rec.kind, rec.value, rec.tag, 0, None, [])) else Detach(t, step)
    else
      var i := Reached(t, step);
      if i < |t.kids| then Update(t, i, Apply(t.kids[i].node, rec.(path := rec.path[1..]))) else t
  }

  function Replay(t: Tree, recs: seq<Record>): (r: Tree)
    requires forall i :: 0 <= i < |recs| ==> recs[i].path != []
    ensures r == t.(kids := r.kids)
  {
    if recs == [] then t
    else Apply(Replay(t, recs[..|recs| - 1]), recs[|recs| - 1])
  }

  /** The tree without what is not logged: origins and hooks. */
  function Bare(t: Tree): (r: Tree)
    ensures r.kind == t.kind && |r.kids| == |t.kids|
    ensures forall i :: 0 <= i < |r.kids| ==> r.kids[i].key == t.kids[i].key && r.kids[i].node == Bare(t.kids[i].node)
  {
    Tree(t.kind, t.value, t.tag, 0, None,
      seq(|t.kids|, i requires 0 <= i < |t.kids| => Entry(t.kids[i].key, Bare(t.kids[i].node))))
  }

  /** Two trees are the same but for those exactly if kinds, texts, tags and keys are, all the way down. */
  lemma {:induction false} BareSame(t: Tree, u: Tree)
    ensures Bare(t) == Bare(u) <==>
      t.kind == u.kind && t.value == u.value && t.tag == u.tag && |t.kids| == |u.kids| &&
      forall i :: 0 <= i < |t.kids| ==> t.kids[i].key == u.kids[i].key && Bare(t.kids[i].node) == Bare(u.kids[i].node)
  {
    var a, b := Bare(t).kids, Bare(u).kids;
    if |a| == |b| && forall i :: 0 <= i < |t.kids| ==> t.kids[i].key == u.kids[i].key && a[i].node == b[i].node {
      assert a == b;
    }
  }

  lemma {:induction false} ReplayConcat(t: Tree, a: seq<Record>, b: seq<Record>)
    requires forall i :: 0 <= i < |a| ==> a[i].path != []
    requires forall i :: 0 <= i < |b| ==> b[i].path != []
    ensures Replay(t, a + b) == Replay(Replay(t, a), b)
  {
    if b == [] {
      assert a + b == a;
    } else {
      assert (a + b)[..|a + b| - 1] == a + b[..|b| - 1];
      ReplayConcat(t, a, b[..|b| - 1]);
    }
  }

  /** Records below a child change that child, where it is. */
  lemma {:induction false} ReplayUnder(t: Tree, step: string, recs: seq<Record>)
    requires forall i :: 0 <= i < |recs| ==> recs[i].path != []
    requires Reached(t, step) < |t.kids|
    ensures Replay(t, Under(step, recs)) == Update(t, Reached(t, step), Replay(t.kids[Reached(t, step)].node, recs))
  {
    var i := Reached(t, step);
    if recs != [] {
      var init, last := recs[..|recs| - 1], recs[|recs| - 1];
      ReplayUnder(t, step, init);
      assert Under(step, recs)[..|recs| - 1] == Under(step, init);
      var u := Replay(t, Under(step, init));
      UpdateKeys(t, i, Replay(t.kids[i].node, init));
      assert ([step] + last.path)[1..] == last.path;
      assert last.(path := last.path) == last;
      assert Apply(u, Under(step, recs)[|recs| - 1]) == Update(u, i, Apply(u.kids[i].node, last));
    }
  }

  /** An update moves no key. */
  lemma {:induction false} UpdateKeys(t: Tree, i: nat, node: Tree)
    requires i < |t.kids|
    ensures var u := Update(t, i, node);
      |u.kids| == |t.kids| && u.kids[i].node == node &&
        (forall j :: 0 <= j < |u.kids| ==> u.kids[j].key == t.kids[j].key)
      && (forall k :: IndexOf(u.kids, k) == IndexOf(t.kids, k)) && (forall k :: Reached(u, k) == Reached(t, k))
      && (forall m :: Update(u, i, m) == Update(t, i, m))
  {
    var u := Update(t, i, node);
    forall k ensures IndexOf(u.kids, k) == IndexOf(t.kids, k) {
      SameKeys(u.kids, t.kids, k);
    }
  }

  // ---------- what a bare tree sees ----------

  lemma {:induction false} BareUpdate(t: Tree, i: nat, node: Tree)
    requires i < |t.kids|
    ensures Bare(Update(t, i, node)) == Update(Bare(t), i, Bare(node))
  {
    hide IndexOf;
    assert Bare(Update(t, i, node)).kids == Update(Bare(t), i, Bare(node)).kids;
  }

  function BareEntries(kids: seq<Entry<Tree>>): (r: seq<Entry<Tree>>)
    ensures |r| == |kids| && forall i :: 0 <= i < |r| ==> r[i] == Entry(kids[i].key, Bare(kids[i].node))
  {
    seq(|kids|, i requires 0 <= i < |kids| => Entry(kids[i].key, Bare(kids[i].node)))
  }

  lemma {:induction false} BareJoined(a: seq<Entry<Tree>>, e: Entry<Tree>, b: seq<Entry<Tree>>)
    ensures BareEntries(a + [e] + b) == BareEntries(a) + [Entry(e.key, Bare(e.node))] + BareEntries(b)
    ensures BareEntries(a + [e]) == BareEntries(a) + [Entry(e.key, Bare(e.node))]
    ensures BareEntries(a + b) == BareEntries(a) + BareEntries(b)
  {
    hide Bare;
  }

  lemma {:induction false} BareCut(kids: seq<Entry<Tree>>, i: nat)
    requires i <= |kids|
    ensures BareEntries(kids[..i]) == BareEntries(kids)[..i] && BareEntries(kids[i..]) == BareEntries(kids)[i..]
  {
    hide Bare;
  }

  lemma {:induction false} BareKids(t: Tree, kids: seq<Entry<Tree>>)
    ensures Bare(t.(kids := kids)) == Bare(t).(kids := BareEntries(kids))
  {
  }

  lemma {:induction false} BareAttach(t: Tree, key: string, node: Tree)
    ensures Bare(Attach(t, key, node)) == Attach(Bare(t), key, Bare(node))
  {
    hide IndexOf, Rank, Bare, BareEntries;
    var i, at := IndexOf(t.kids, key), Rank(t.kind, t.kids, key);
    SameKeys(t.kids, Bare(t).kids, key);
    SameRank(t.kind, t.kids, Bare(t).kids, key);
    BareKids(t, t.kids);
    BareKids(t, Attach(t, key, node).kids);
    BareCut(t.kids, at);
    BareJoined(t.kids, Entry("", node), []);
    BareJoined(t.kids[..at], Entry(key, node), t.kids[at..]);
    BareJoined(Without(t.kids, i), Entry(key, node), []);
    BareDropped(t.kids, i);
    if i < |t.kids| {
      BareReplaced(t.kids, i, Entry(key, node));
    }
  }

  lemma {:induction false} BareDropped(kids: seq<Entry<Tree>>, i: nat)
    requires i <= |kids|
    ensures BareEntries(Without(kids, i)) == Without(BareEntries(kids), i)
  {
    hide Bare;
  }

  lemma {:induction false} BareReplaced(kids: seq<Entry<Tree>>, i: nat, e: Entry<Tree>)
    requires i < |kids|
    ensures BareEntries(kids[i := e]) == BareEntries(kids)[i := Entry(e.key, Bare(e.node))]
  {
    hide Bare;
  }

  lemma {:induction false} BareDetach(t: Tree, key: string)
    ensures Bare(Detach(t, key)) == Detach(Bare(t), key)
  {
    hide IndexOf;
    SameKeys(t.kids, Bare(t).kids, key);
    assert Bare(Detach(t, key)).kids == Detach(Bare(t), key).kids;
  }

  // ---------- the replica catches up ----------

  lemma {:induction false} ReplayOne(t: Tree, rec: Record)
    requires rec.path != []
    ensures Replay(t, [rec]) == Apply(t, rec)
  {
    assert [rec][..0] == [];
  }

  lemma {:induction false} BareBegun(cur: Option<Tree>, src: Tree)
    ensures OpGet(cur, src).Nothing? ==> Bare(Begun(cur, src)) == Bare(cur.value)
    ensures OpGet(cur, src).Create? || OpGet(cur, src).Replace? ==>
      Bare(Begun(cur, src)) == Tree(src.kind, src.value, src.tag, 0, None, [])
  {
  }

  lemma {:induction false} BareReached(t: Tree, key: string)
    ensures Reached(Bare(t), key) == Reached(t, key)
  {
    SameKeys(t.kids, Bare(t).kids, key);
  }

  lemma {:induction false} IndexIs(kids: seq<Entry<Tree>>, key: string, i: nat)
    requires i < |kids| && kids[i].key == key && forall j :: 0 <= j < i ==> kids[j].key != key
    ensures IndexOf(kids, key) == i
  {
    if i > 0 {
      IndexIs(kids[1..], key, i - 1);
    }
  }

  /** The child just attached is where its step leads, and changing it there is as good as attaching
      it changed. */
  lemma {:induction false} Attached(t: Tree, key: string, node: Tree, later: Tree)
    requires Kept(t)
    ensures var a := Attach(t, key, node); var i := Reached(a, Step(t, key));
      i < |a.kids| && a.kids[i].node == node && Update(a, i, later) == Attach(t, key, later)
  {
    hide IndexOf, Rank, KeyCmp, Reached;
    var a, i, at := Attach(t, key, node), IndexOf(t.kids, key), Rank(t.kind, t.kids, key);
    AttachedAt(t, key, node);
    if t.kind == List || t.kind == OMap {
      assert Update(a, |a.kids| - 1, later).kids == Attach(t, key, later).kids;
    } else if i == |t.kids| {
      assert Update(a, at, later).kids == Attach(t, key, later).kids;
    }
  }

  lemma {:induction false} AttachedAt(t: Tree, key: string, node: Tree)
    requires Kept(t)
    ensures var a, i := Attach(t, key, node), IndexOf(t.kids, key);
      a.kids != [] && Reached(a, Step(t, key)) ==
        (if t.kind == List || t.kind == OMap then |a.kids| - 1 else if i < |t.kids| then i
          else Rank(t.kind, t.kids, key))
  {
    hide IndexOf, Rank, KeyCmp;
    var a := Attach(t, key, node);
    if t.kind != List {
      var i := IndexOf(t.kids, key);
      IndexIs(a.kids, key, if t.kind == OMap then |a.kids| - 1 else if i < |t.kids| then i
        else Rank(t.kind, t.kids, key));
    }
  }

  /** What replaying does at one child of the source. */
  lemma {:induction false} ReplayNode(u: Tree, src: Tree, e: Entry<Tree>)
    requires WellFormed(u) && WellFormed(src) && e in src.kids && u.kind != Val
    ensures var cur := Partner(u, e.key);
      Replay(Bare(u), NodeLog(cur, e.node, Step(u, e.key))) ==
        Bare(Settled(u, e.key, OpGet(cur, e.node), Merged(cur, e.node)))
    decreases e.node, |e.node.kids| + 1
  {
    hide Under, IndexOf, Rank, Bare, Attach, Update, Detach, KidsLog, WellFormed, Kept, Partner, Begun, OpGet;
    var cur := Partner(u, e.key);
    var t, n := Begun(cur, e.node), |e.node.kids|;
    WellFormedKids(u, src, e);
    PartnerIsChild(u, e.key);
    SomethingHere(cur, e.node);
    match OpGet(cur, e.node)
    case Delete =>
      BareDetach(u, e.key);
      ReplayOne(Bare(u), Del([Step(u, e.key)]));
    case Nothing =>
      BegunWellFormed(cur, e.node);
      ReplayKids(t, e.node, n);
      BareBegun(cur, e.node);
      ReplayBelow(u, IndexOf(u.kids, e.key), e.key, KidsLog(t, e.node, n), MergedKids(t, e.node, n));
    case _ =>
      BegunWellFormed(cur, e.node);
      ReplayKids(t, e.node, n);
      ReplayPut(u, e.key, cur, e.node);
  }

  lemma {:induction false} SomethingHere(cur: Option<Tree>, src: Tree)
    ensures OpGet(cur, src).Nothing? || OpGet(cur, src).Delete? ==> cur.Some?
  {
  }

  lemma {:induction false} ReplayBelow(u: Tree, i: nat, step: string, recs: seq<Record>, node: Tree)
    requires forall i :: 0 <= i < |recs| ==> recs[i].path != []
    requires i < |u.kids| && Reached(u, step) == i && Replay(Bare(u.kids[i].node), recs) == Bare(node)
    ensures Replay(Bare(u), Under(step, recs)) == Bare(Update(u, i, node))
  {
    hide IndexOf, Bare, Reached, Update, Replay, Under;
    BareReached(u, step);
    ReplayUnder(Bare(u), step, recs);
    BareUpdate(u, i, node);
  }

  lemma {:induction false} ReplayPut(u: Tree, key: string, cur: Option<Tree>, src: Tree)
    requires Kept(u) && (OpGet(cur, src).Create? || OpGet(cur, src).Replace?)
    requires var t, n := Begun(cur, src), |src.kids|; Replay(Bare(t), KidsLog(t, src, n)) == Bare(MergedKids(t, src, n))
    ensures Replay(Bare(u), NodeLog(cur, src, Step(u, key))) == Bare(Attach(u, key, Merged(cur, src).value))
  {
    hide Under, IndexOf, Rank, Bare, Attach, Update, KidsLog, Kept, Partner, Begun, OpGet, Reached, Replay, MergedKids;
    var step, t, n := Step(u, key), Begun(cur, src), |src.kids|;
    var put, a := Put([step], src.kind, src.value, src.tag), Attach(u, key, t);
    BareBegun(cur, src);
    BareAttach(u, key, t);
    StepAttached(u, key, Bare(t));
    ReplayOne(Bare(u), put);
    ReplayConcat(Bare(u), [put], Under(step, KidsLog(t, src, n)));
    Attached(u, key, t, MergedKids(t, src, n));
    ReplayBelow(a, Reached(a, step), step, KidsLog(t, src, n), MergedKids(t, src, n));
  }

  lemma {:induction false} WellFormedKids(u: Tree, src: Tree, e: Entry<Tree>)
    requires WellFormed(u) && WellFormed(src) && e in src.kids
    ensures Kept(u) && WellFormed(e.node) && (Partner(u, e.key).Some? ==> WellFormed(Partner(u, e.key).value))
  {
    PartnerWellFormed(u, e.key);
  }

  /** A list ignores the key of what is attached to it. */
  lemma {:induction false} StepAttached(t: Tree, key: string, node: Tree)
    ensures Attach(Bare(t), Step(t, key), node) == Attach(Bare(t), key, node)
  {
  }

  lemma {:induction false} ReplayNone(t: Tree)
    ensures Replay(t, []) == t
  {
  }

  lemma {:induction false} ReplayKids(t: Tree, src: Tree, n: nat)
    requires n <= |src.kids| && WellFormed(t) && WellFormed(src) && (t.kind == Val <==> src.kind == Val)
    ensures Replay(Bare(t), KidsLog(t, src, n)) == Bare(MergedKids(t, src, n))
    decreases src, n
  {
    hide Under, IndexOf, Rank, Bare, Settled, NodeLog, Partner, WellFormed, Merged, OpGet, Replay;
    ReplayNone(Bare(t));
    if n > 0 {
      var u, e := MergedKids(t, src, n - 1), src.kids[n - 1];
      ReplayKids(t, src, n - 1);
      MergeKidsKeepsOrder(t, src, n - 1);
      KidWellFormed(src, n - 1);
      ReplayNode(u, src, e);
      ReplayConcat(Bare(t), KidsLog(t, src, n - 1), NodeLog(Partner(u, e.key), e.node, Step(t, e.key)));
    }
  }

  /** Replaying the log on a copy of the old tree gives the new one, exactly if the top itself was
      neither deleted nor replaced. */
  lemma {:induction false} ReplayIsMerge(cur: Tree, src: Tree)
    requires WellFormed(cur) && WellFormed(src)
    ensures (Merged(Some(cur), src).Some? &&
      Replay(Bare(cur), MergeLog(cur, src)) == Bare(Merged(Some(cur), src).value))
      <==> Keeps(cur, src)
  {
    hide Bare, WellFormed, MergedKids, KidsLog, Replay;
    OpGetIs(cur, src);
    var t := Begun(Some(cur), src);
    if OpGet(Some(cur), src).Nothing? {
      BegunWellFormed(Some(cur), src);
      BareBegun(Some(cur), src);
      ReplayKids(t, src, |src.kids|);
    } else if OpGet(Some(cur), src).Replace? {
      BareHead(cur);
      BareHead(Merged(Some(cur), src).value);
      MergedKidsHead(t, src, |src.kids|);
    }
  }

  lemma {:induction false} BareHead(t: Tree)
    ensures Bare(t).kind == t.kind && Bare(t).value == t.value
  {
  }
}
