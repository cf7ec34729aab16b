/** Which hooks ynode_control calls at once (yhook_pre_run in ydb/ynode.c): the law of whole merges. */
module HookCalls {
  import opened Common
  import opened YNode
  import opened Merge
  import opened MergeLaws
  import opened Hooks

  /** The node at the end of a path, if there is one. */
  function Along(t: Option<Tree>, path: Path): Option<Tree>
    decreases |path|
  {
    if t.None? || path == [] then t else Along(KidAt(t.value, path[0]), path[1..])
  }

  /** A path leads to a node with a hook, and no longer one does on the way to the end of `path`. */
  ghost predicate IsNearest(t: Tree, path: Path, q: Path) {
    q <= path && HasHook(t, q) && forall r :: q < r <= path ==> !HasHook(t, r)
  }

  predicate HasHook(t: Tree, q: Path) {
    Along(Some(t), q).Some? && Along(Some(t), q).value.hook.Some?
  }

  /** What Hooks.Owner computes. */
  lemma {:induction false} OwnerIsNearest(t: Tree, path: Path, q: Path)
    ensures Owner(t, path) == Some(q) <==> IsNearest(t, path, q)
    decreases |path|
  {
    hide KidAt;
    if path == [] {
      assert q <= path ==> q == [];
    } else {
      var c := KidAt(t, path[0]);
      OwnerNone(t, path);
      if q != [] {
        if c.Some? {
          OwnerIsNearest(c.value, path[1..], q[1..]);
          NearestBelow(t, path, q);
        } else {
          assert q <= path ==> q[0] == path[0] && Along(c, q[1..]).None?;
        }
        OwnerShape(t, path);
        if q[0] == path[0] {
          assert [path[0]] + q[1..] == q;
        }
      } else if c.Some? {
        OwnerNone(c.value, path[1..]);
        HooksBelow(t, path);
      } else {
        forall r | [] < r <= path ensures !HasHook(t, r) {
          assert r[0] == path[0] && Along(c, r[1..]).None?;
        }
      }
    }
  }

  /** There is no owner exactly if there is no hook on the way. */
  lemma {:induction false} OwnerNone(t: Tree, path: Path)
    ensures Owner(t, path).None? <==> forall r :: r <= path ==> !HasHook(t, r)
    decreases |path|
  {
    hide KidAt;
    assert HasHook(t, []) <==> t.hook.Some?;
    assert [] <= path;
    if path != [] {
      var c := KidAt(t, path[0]);
      if c.Some? {
        OwnerNone(c.value, path[1..]);
        HooksBelow(t, path);
      } else {
        forall r | r <= path && r != [] ensures !HasHook(t, r) {
          assert r[0] == path[0] && Along(c, r[1..]).None?;
        }
      }
    }
  }

  /** The hooks on the way below the first step. */
  lemma {:induction false} HooksBelow(t: Tree, path: Path)
    requires path != [] && KidAt(t, path[0]).Some?
    ensures (forall r :: [] < r <= path ==> !HasHook(t, r))
       <==> forall r :: r <= path[1..] ==> !HasHook(KidAt(t, path[0]).value, r)
  {
    hide KidAt;
    var c := KidAt(t, path[0]).value;
    forall r | r <= path[1..] ensures HasHook(c, r) <==> HasHook(t, [path[0]] + r) {
      assert ([path[0]] + r)[1..] == r;
    }
    forall r | r <= path[1..] ensures [] < [path[0]] + r <= path {
      assert path == [path[0]] + path[1..];
    }
    forall r | [] < r <= path ensures r[1..] <= path[1..] && r == [path[0]] + r[1..] {
    }
  }

  lemma {:induction false} NearestBelow(t: Tree, path: Path, q: Path)
    requires path != [] && KidAt(t, path[0]).Some? && q != []
    ensures IsNearest(t, path, q) <==> q[0] == path[0] && IsNearest(KidAt(t, path[0]).value, path[1..], q[1..])
  {
    hide KidAt;
    var c := KidAt(t, path[0]).value;
    assert forall r: Path :: r != [] && r <= path ==> r[0] == path[0] && (HasHook(t, r) <==> HasHook(c, r[1..]));
    if IsNearest(t, path, q) {
      forall r | q[1..] < r <= path[1..] ensures !HasHook(c, r) {
        var s := [path[0]] + r;
        assert s[1..] == r && q < s <= path;
      }
    }
    if q[0] == path[0] && IsNearest(c, path[1..], q[1..]) {
      assert q == [path[0]] + q[1..] && path == [path[0]] + path[1..];
      forall r | q < r <= path ensures !HasHook(t, r) {
        assert q[1..] < r[1..] <= path[1..];
      }
    }
  }

  // ---------- what a merge changes ----------

  /** The child of a node, if there is one. */
  function Kid(t: Option<Tree>, step: Down): Option<Tree> {
    if t.None? then None else KidAt(t.value, step)
  }

  /** How many entries the list had that the source's list entries come behind. */
  function Ahead(cur: Option<Tree>): nat {
    if cur.Some? && cur.value.kind == List then |cur.value.kids| else 0
  }

  /** The part of the source that is merged at the end of a path. */
  function SourceAt(cur: Option<Tree>, src: Tree, path: Path): Option<Tree>
    decreases |path|
  {
    if path == [] then Some(src)
    else
      match path[0]
      case Key(k) =>
        if src.kind == List || Child(src, k).None? then None
        else SourceAt(Kid(cur, path[0]), Child(src, k).value, path[1..])
      case Index(i) =>
        if src.kind != List || !(Ahead(cur) <= i < Ahead(cur) + |src.kids|) then None
        else SourceAt(None, src.kids[i - Ahead(cur)].node, path[1..])
  }

  /** A node is created or replaced there: the source reaches there, and nothing that it leaves as it is. */
  ghost predicate Changes(cur: Option<Tree>, src: Tree, path: Path) {
    var (was, s) := (Along(cur, path), SourceAt(cur, src, path));
    s.Some? && (was.Some? ==> !Keeps(was.value, s.value))
  }

  /** Whom a change at the end of a path is told to: the nearest hook, on the way in the merged tree `m` or
      above it, unless it is suppressed, or only for values and neither the old nor the new node is one. */
  function Teller(m: Tree, path: Path, base: Path, near: Option<Above>): Option<Above>
    decreases |path|
  {
    var here := if m.hook.Some? then Some(Above(base, m.hook.value)) else near;
    if path == [] || KidAt(m, path[0]).None? then here
    else Teller(KidAt(m, path[0]).value, path[1..], base + [path[0]], here)
  }

  predicate IsVal(t: Option<Tree>) {
    t.Some? && t.value.kind == Val
  }

  function Told(teller: Option<Above>, was: Option<Tree>, node: Option<Tree>): Option<Path> {
    if teller.Some? && !teller.value.hook.suppress && (teller.value.hook.valOnly ==> IsVal(was) || IsVal(node))
    then Some(teller.value.at) else None
  }

  /** The hook `told`, if any, is called right behind the i-th event, and none otherwise. */
  ghost predicate CalledNext(events: seq<Event>, i: nat, told: Option<Path>)
    requires i < |events| && events[i].Changed?
  {
    if told.Some? then i + 1 < |events| && events[i + 1] == Called(told.value, events[i].path)
    else i + 1 < |events| ==> !events[i + 1].Called?
  }

  ghost predicate ToldRight(events: seq<Event>, i: nat, cur: Option<Tree>, m: Tree, base: Path, near: Option<Above>)
    requires i < |events| && events[i].Changed?
  {
    base <= events[i].path &&
    var rel := events[i].path[|base|..];
    CalledNext(events, i, Told(Teller(m, rel, base, near), Along(cur, rel), Along(Some(m), rel)))
  }

  /** Hooks are called right behind changes, and only there. */
  ghost predicate Paired(events: seq<Event>) {
    forall i :: 0 <= i < |events| && events[i].Called? ==> i > 0 && events[i - 1] == Changed(events[i].change)
  }

  ghost predicate CallsLaw(events: seq<Event>, cur: Option<Tree>, m: Tree, base: Path, near: Option<Above>) {
    Paired(events) && forall i :: 0 <= i < |events| && events[i].Changed? ==> ToldRight(events, i, cur, m, base, near)
  }

  /** Each change below `base` behind one of the steps, if given, is there once. */
  ghost predicate ChangesLaw(events: seq<Event>, cur: Option<Tree>, src: Tree, base: Path) {
    forall rel: Path :: multiset(events)[Changed(base + rel)] == if Changes(cur, src, rel) then 1 else 0
  }

  ghost predicate KidChanges(events: seq<Event>, cur: Option<Tree>, src: Tree, base: Path, steps: set<Down>) {
    forall rel: Path :: multiset(events)[Changed(base + rel)] ==
      if rel != [] && rel[0] in steps && Changes(cur, src, rel) then 1 else 0
  }

  lemma {:induction false} CallsConcat(a: seq<Event>, b: seq<Event>, cur: Option<Tree>, m: Tree, base: Path,
                                       near: Option<Above>)
    requires CallsLaw(a, cur, m, base, near) && CallsLaw(b, cur, m, base, near)
    ensures CallsLaw(a + b, cur, m, base, near)
  {
    hide Teller, Along, Told;
    var e := a + b;
    assert b != [] ==> !b[0].Called?;
    forall i | 0 <= i < |e| && e[i].Called? ensures i > 0 && e[i - 1] == Changed(e[i].change) {
      if i < |a| {
        assert a[i] == e[i] && a[i - 1] == e[i - 1];
      } else {
        assert b[i - |a|] == e[i] && b[i - |a| - 1] == e[i - 1];
      }
    }
    forall i | 0 <= i < |e| && e[i].Changed? ensures ToldRight(e, i, cur, m, base, near) {
      if i < |a| {
        assert ToldRight(a, i, cur, m, base, near);
      } else {
        assert ToldRight(b, i - |a|, cur, m, base, near);
      }
    }
  }

  /** The law of a child is that of its parent. */
  lemma {:induction false} CallsLifted(events: seq<Event>, cur: Option<Tree>, m: Tree, base: Path, near: Option<Above>,
                                       step: Down)
    requires KidAt(m, step).Some?
    requires CallsLaw(events, Kid(cur, step), KidAt(m, step).value, base + [step], Here(m, base, near))
    ensures CallsLaw(events, cur, m, base, near)
  {
    hide KidAt, CalledNext, Told;
    var c := KidAt(m, step).value;
    forall i | 0 <= i < |events| && events[i].Changed? ensures ToldRight(events, i, cur, m, base, near) {
      assert ToldRight(events, i, Kid(cur, step), c, base + [step], Here(m, base, near));
      var path := events[i].path;
      assert path[|base|] == (base + [step])[|base|] && base <= path;
      var rel, rest := path[|base|..], path[|base| + 1..];
      assert rel == [step] + rest && rel[1..] == rest && path[|base + [step]|..] == rest;
    }
  }

  // ---------- runs of a merge ----------

  /** What a child of the source is merged with was there before, at the same step, or nothing was. */
  lemma {:induction false} PartnerWas(cur: Option<Tree>, src: Tree, i: nat)
    requires (cur.Some? ==> WellFormed(cur.value)) && WellFormed(src) && !OpGet(cur, src).Delete? && i < |src.kids|
    ensures var t := Begun(cur, src);
      Partner(MergedKids(t, src, i), src.kids[i].key) == Kid(cur, StepTo(t, src, i))
      && (src.kind == List ==> t.kind == List && |t.kids| == Ahead(cur)) && (src.kind != List ==> t.kind != List)
  {
    hide KeyCmp, Child, WellFormed, MergedKids;
    var t := Begun(cur, src);
    BegunWellFormed(cur, src);
    MergedKidsHead(t, src, i);
    KidWellFormed(src, i);
    if t.kind != List {
      UntouchedSoFar(t, src, i);
      BegunChild(cur, src, src.kids[i].key);
    }
  }

  lemma {:induction false} BegunChild(cur: Option<Tree>, src: Tree, key: string)
    requires (cur.Some? ==> WellFormed(cur.value)) && !OpGet(cur, src).Delete? && src.kind != List && src.kind != Val
    ensures Child(Begun(cur, src), key) == Kid(cur, Key(key))
  {
    if cur.Some? {
      IsKept(cur.value);
    }
  }

  lemma {:induction false} StepsHold(t: Tree, src: Tree, i: nat, n: nat)
    requires i < n <= |src.kids|
    ensures StepTo(t, src, i) in Steps(t, src, n)
  {
    if i < n - 1 {
      StepsHold(t, src, i, n - 1);
    }
  }

  /** The source reaches nothing but its children. */
  lemma {:induction false} NotReached(cur: Option<Tree>, src: Tree, t: Tree, rel: Path)
    requires rel != [] && rel[0] !in Steps(t, src, |src.kids|)
    requires if src.kind == List then t.kind == List && |t.kids| == Ahead(cur) else t.kind != List
    ensures !Changes(cur, src, rel)
  {
    if rel[0].Key? && src.kind != List && Child(src, rel[0].key).Some? {
      StepsHold(t, src, IndexOf(src.kids, rel[0].key), |src.kids|);
    }
    if rel[0].Index? && src.kind == List && Ahead(cur) <= rel[0].index < Ahead(cur) + |src.kids| {
      StepsHold(t, src, rel[0].index - Ahead(cur), |src.kids|);
    }
  }

  /** Behind a step the changes are those of the child that it leads to. */
  lemma {:induction false} ChangesBelow(cur: Option<Tree>, src: Tree, t: Tree, i: nat, rel: Path)
    requires i < |src.kids| && rel != [] && rel[0] == StepTo(t, src, i)
    requires if src.kind == List then t.kind == List && |t.kids| == Ahead(cur) else t.kind != List
    requires src.kind != List ==> Child(src, src.kids[i].key) == Some(src.kids[i].node)
    ensures Changes(cur, src, rel) <==> Changes(Kid(cur, rel[0]), src.kids[i].node, rel[1..])
  {
    hide Child;
    if cur.Some? && src.kind == List {
      assert KidAt(cur.value, rel[0]).None?;
    }
  }

  /** One child more. */
  lemma {:induction false} ChangesNext(r: seq<Event>, s: seq<Event>, cur: Option<Tree>, src: Tree, t: Tree, base: Path,
                                       n: nat)
    requires n < |src.kids| && KidChanges(r, cur, src, base, Steps(t, src, n))
    requires var step := StepTo(t, src, n);
      Under(base + [step], s) && step !in Steps(t, src, n)
      && ChangesLaw(s, Kid(cur, step), src.kids[n].node, base + [step])
    requires if src.kind == List then t.kind == List && |t.kids| == Ahead(cur) else t.kind != List
    requires src.kind != List ==> Child(src, src.kids[n].key) == Some(src.kids[n].node)
    ensures KidChanges(r + s, cur, src, base, Steps(t, src, n + 1))
  {
    hide Changes, Child, StepTo, Kid;
    var step := StepTo(t, src, n);
    assert Steps(t, src, n + 1) == Steps(t, src, n) + {step};
    forall rel: Path ensures multiset(r + s)[Changed(base + rel)] ==
      if rel != [] && rel[0] in Steps(t, src, n + 1) && Changes(cur, src, rel) then 1 else 0
    {
      if rel != [] && rel[0] == step {
        assert base + rel == (base + [step]) + rel[1..];
        ChangesBelow(cur, src, t, n, rel);
      } else {
        NotUnder(s, base, step, rel);
      }
    }
  }

  lemma {:induction false} NotUnder(s: seq<Event>, base: Path, step: Down, rel: Path)
    requires Under(base + [step], s) && (rel == [] || rel[0] != step)
    ensures multiset(s)[Changed(base + rel)] == 0
  {
    assert (base + [step])[|base|] == step;
    assert Changed(base + rel) !in s;
  }

  lemma {:induction false} NoCalls(cur: Option<Tree>, src: Tree, m: Tree, base: Path, near: Option<Above>)
    ensures CallsLaw([], cur, m, base, near) && KidChanges([], cur, src, base, {})
  {
  }

  lemma {:induction false} CallsKids(cur: Option<Tree>, src: Tree, base: Path, near: Option<Above>, pool: set<Path>,
                                     n: nat)
    requires n <= |src.kids| && (cur.Some? ==> WellFormed(cur.value)) && WellFormed(src) && NoDeletes(src)
    requires !OpGet(cur, src).Delete?
    requires (near.Some? ==> near.value.at < base) && forall q :: q in pool ==> q <= base
    ensures var t := Begun(cur, src);
      var r := RunKids(t, src, base, Here(t, base, near), pool, n);
      CallsLaw(r.events, cur, MergedKids(t, src, |src.kids|), base, near)
      && KidChanges(r.events, cur, src, base, Steps(t, src, n))
    decreases src, n
  {
    hide RunNode, MergedKids, Merged, WellFormed, StepTo, KidAt, DownTo, Partner, CallsLaw, KidChanges, ChangesLaw,
      Begun;
    hide Owner, Suppressed, Owners, Times, NodeLaw, KidsLaw, FiresOnce, OpGet, Kid, NoDeletes;
    var t, m := Begun(cur, src), MergedKids(Begun(cur, src), src, |src.kids|);
    var here := Here(t, base, near);
    if n == 0 {
      NoCalls(cur, src, m, base, near);
    } else {
      var u, e := MergedKids(t, src, n - 1), src.kids[n - 1];
      var was, step := Partner(u, e.key), StepTo(t, src, n - 1);
      BegunWellFormed(cur, src);
      CallsKids(cur, src, base, near, pool, n - 1);
      RunsKids(t, src, base, here, pool, n - 1);
      FinalKid(t, src, n - 1);
      KidWellFormed(src, n - 1);
      NotDeletedKid(src, n - 1, was);
      PartnerWas(cur, src, n - 1);
      var r := RunKids(t, src, base, here, pool, n - 1);
      CallsNode(was, e.node, base + [step], here, r.pool);
      var s := RunNode(was, e.node, base + [step], here, r.pool);
      UnderNode(was, e.node, base + [step], here, r.pool);
      MergedKidsHead(t, src, |src.kids|);
      CallsLifted(s.events, cur, m, base, near, step);
      CallsConcat(r.events, s.events, cur, m, base, near);
      ChildOfSource(src, n - 1);
      ChangesNext(r.events, s.events, cur, src, t, base, n - 1);
    }
  }

  lemma {:induction false} ChildOfSource(src: Tree, i: nat)
    requires WellFormed(src) && i < |src.kids|
    ensures src.kind != List ==> Child(src, src.kids[i].key) == Some(src.kids[i].node)
  {
    IsKept(src);
    if src.kind != List {
      KeysOf(src, i);
    }
  }

  lemma {:induction false} UnderNode(cur: Option<Tree>, src: Tree, base: Path, near: Option<Above>, pool: set<Path>)
    requires (cur.Some? ==> WellFormed(cur.value)) && WellFormed(src) && NoDeletes(src) && !OpGet(cur, src).Delete?
    requires (near.Some? ==> near.value.at < base) && forall q :: q in pool ==> q < base
    ensures Under(base, RunNode(cur, src, base, near, pool).events)
  {
    hide RunNode, WellFormed;
    RunsNode(cur, src, base, near, pool);
  }

  /** The change of a node and the call that it leads to. */
  function Telling(base: Path, told: Option<Path>): seq<Event> {
    [Changed(base)] + if told.Some? then [Called(told.value, base)] else []
  }

  lemma {:induction false} BeforeEvents(cur: Option<Tree>, src: Tree, m: Tree, base: Path, pool: set<Path>,
                                        near: Option<Above>)
    requires !OpGet(cur, src).Delete? && m.hook == Begun(cur, src).hook && m.kind == Begun(cur, src).kind
    ensures Before(cur, src, base, pool, Here(Begun(cur, src), base, near)).events ==
      if Changes(cur, src, []) then Telling(base, Told(Teller(m, [], base, near), cur, Some(m))) else []
  {
    if cur.Some? {
      OpGetIs(cur.value, src);
    }
    hide OpGet, Keeps;
  }

  lemma {:induction false} TellingLaw(cur: Option<Tree>, m: Tree, base: Path, near: Option<Above>)
    ensures CallsLaw(Telling(base, Told(Teller(m, [], base, near), cur, Some(m))), cur, m, base, near)
  {
    hide Teller, Told;
    assert base[|base|..] == [] && Along(cur, []) == cur && Along(Some(m), []) == Some(m);
  }

  lemma {:induction false} TellingOnce(base: Path, told: Option<Path>, rel: Path)
    ensures multiset(Telling(base, told))[Changed(base + rel)] == if rel == [] then 1 else 0
  {
    assert rel == [] ==> base + rel == base;
    assert rel != [] ==> |base + rel| > |base|;
  }

  /** The part of a run before the children: the change of the node itself, and the call it leads to. */
  lemma {:induction false} CallsBefore(cur: Option<Tree>, src: Tree, m: Tree, base: Path, pool: set<Path>,
                                       near: Option<Above>)
    requires !OpGet(cur, src).Delete? && m.hook == Begun(cur, src).hook && m.kind == Begun(cur, src).kind
    ensures var first := Before(cur, src, base, pool, Here(Begun(cur, src), base, near));
      CallsLaw(first.events, cur, m, base, near) && KeptOnce(first.events, base, Changes(cur, src, []))
  {
    hide Teller, Told, Telling, Changes, Before, CallsLaw;
    BeforeEvents(cur, src, m, base, pool, near);
    TellingLaw(cur, m, base, near);
    NoCalls(cur, src, m, base, near);
    forall rel: Path {
      TellingOnce(base, Told(Teller(m, [], base, near), cur, Some(m)), rel);
    }
  }

  ghost predicate KeptOnce(events: seq<Event>, base: Path, once: bool) {
    forall rel: Path :: multiset(events)[Changed(base + rel)] == if rel == [] && once then 1 else 0
  }

  lemma {:induction false} CallsAfter(run: Run, cur: Option<Tree>, src: Tree, m: Tree, base: Path, near: Option<Above>)
    requires CallsLaw(run.events, cur, m, base, near) && ChangesLaw(run.events, cur, src, base)
    ensures CallsLaw(After(base, run).events, cur, m, base, near) && ChangesLaw(After(base, run).events, cur, src, base)
  {
    hide CallsLaw, Changes;
    FiredCalls(cur, m, base, near, base);
    CallsConcat(run.events, [Fired(base)], cur, m, base, near);
  }

  lemma {:induction false} FiredCalls(cur: Option<Tree>, m: Tree, base: Path, near: Option<Above>, at: Path)
    ensures CallsLaw([Fired(at)], cur, m, base, near)
  {
  }

  lemma {:induction false} CallsNode(cur: Option<Tree>, src: Tree, base: Path, near: Option<Above>, pool: set<Path>)
    requires (cur.Some? ==> WellFormed(cur.value)) && WellFormed(src) && NoDeletes(src) && !OpGet(cur, src).Delete?
    requires (near.Some? ==> near.value.at < base) && forall q :: q in pool ==> q < base
    ensures var events := RunNode(cur, src, base, near, pool).events;
      CallsLaw(events, cur, Merged(cur, src).value, base, near) && ChangesLaw(events, cur, src, base)
    decreases src, |src.kids| + 1
  {
    hide OpGet, RunKids, MergedKids, After, Before, WellFormed, NoDeletes, CallsLaw, Begun, Changes, Steps;
    var t := Begun(cur, src);
    var m, here := MergedKids(t, src, |src.kids|), Here(t, base, near);
    var first := Before(cur, src, base, pool, here);
    MergedKidsHead(t, src, |src.kids|);
    CallsBefore(cur, src, m, base, pool, near);
    PoolBelow(cur, src, base, pool, here);
    CallsKids(cur, src, base, near, first.pool, |src.kids|);
    var kids := RunKids(t, src, base, here, first.pool, |src.kids|);
    CallsConcat(first.events, kids.events, cur, m, base, near);
    var run := Run(first.events + kids.events, kids.pool);
    BegunAhead(cur, src);
    forall rel: Path ensures multiset(run.events)[Changed(base + rel)] == if Changes(cur, src, rel) then 1 else 0 {
      if rel != [] && rel[0] !in Steps(t, src, |src.kids|) {
        NotReached(cur, src, t, rel);
      }
    }
    CallsAfter(run, cur, src, m, base, near);
  }

  lemma {:induction false} PoolBelow(cur: Option<Tree>, src: Tree, base: Path, pool: set<Path>, here: Option<Above>)
    requires (here.Some? ==> here.value.at <= base) && forall q :: q in pool ==> q <= base
    ensures forall q :: q in Before(cur, src, base, pool, here).pool ==> q <= base
  {
  }

  lemma {:induction false} BegunAhead(cur: Option<Tree>, src: Tree)
    requires (cur.Some? ==> WellFormed(cur.value)) && !OpGet(cur, src).Delete?
    ensures var t := Begun(cur, src);
      if src.kind == List then t.kind == List && |t.kids| == Ahead(cur) else t.kind != List
  {
  }

  /** In a merge that deletes nothing, at the top or further down: each node that is created or replaced is
      recorded once, and no other; right behind it the nearest hook is called, once, unless it is suppressed
      or only for values and neither the old nor the new node is one; and no hook is called otherwise. */
  lemma {:induction false} ChangesAreTold(cur: Option<Tree>, src: Tree, base: Path, above: seq<Parent>)
    requires (cur.Some? ==> WellFormed(cur.value)) && WellFormed(src) && NoDeletes(src)
    requires forall i :: 0 <= i < |above| ==> above[i].at < base
    ensures Merged(cur, src).Some?
    ensures var events := Climbed(RunNode(cur, src, base, Nearest(above), {}), above).events;
      CallsLaw(events, cur, Merged(cur, src).value, base, Nearest(above)) && ChangesLaw(events, cur, src, base)
  {
    hide RunNode, WellFormed, Merged, CallsLaw, Changes, Climbed, Nearest, NodeLaw;
    NotDeletedTop(cur, src);
    var near, m := Nearest(above), Merged(cur, src).value;
    CallsNode(cur, src, base, near, {});
    RunsNode(cur, src, base, near, {});
    var r := RunNode(cur, src, base, near, {});
    AtMostNear(r, m, base, near);
    if r.pool == {} {
      ClimbedNone(r, above);
    } else {
      ClimbedToNearest(r, above);
      FiredCalls(cur, m, base, near, near.value.at);
      CallsConcat(r.events, [Fired(near.value.at)], cur, m, base, near);
    }
  }

  lemma {:induction false} AtMostNear(run: Run, m: Tree, base: Path, near: Option<Above>)
    requires NodeLaw(run, m, base, near, {})
    ensures run.pool == {} || (near.Some? && run.pool == {near.value.at})
  {
  }

  /** Whom a change is told to, in terms of the merged tree alone. */
  lemma {:induction false} TellerIsNearest(m: Tree, path: Path, base: Path, near: Option<Above>, q: Path)
    requires Along(Some(m), path).Some?
    ensures IsNearest(m, path, q) ==>
      Teller(m, path, base, near) == Some(Above(base + q, Along(Some(m), q).value.hook.value))
    ensures (forall r :: r <= path ==> !HasHook(m, r)) ==> Teller(m, path, base, near) == near
    decreases |path|
  {
    hide KidAt;
    assert HasHook(m, []) <==> m.hook.Some?;
    assert [] <= path && base + [] == base;
    if path != [] {
      var c, here := KidAt(m, path[0]).value, if m.hook.Some? then Some(Above(base, m.hook.value)) else near;
      HooksBelow(m, path);
      TellerIsNearest(c, path[1..], base + [path[0]], here, if q == [] then [] else q[1..]);
      if q != [] {
        NearestBelow(m, path, q);
        assert q[0] == path[0] ==> base + q == (base + [path[0]]) + q[1..];
      }
    }
  }
}
