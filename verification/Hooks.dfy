/** The write hooks run by ynode_control (ydb/ynode.c): at once, or held back in a pool until the
    hook's own node has been merged. */
module Hooks {
  import opened Common
  import opened YNode
  import opened Merge
  import opened MergeLaws

  /** A step down from a node: a key, or a place in a list.  While only merging goes on no node
      changes its path, so the path stands for the node. */
  datatype Down = Key(key: string) | Index(index: nat)
  type Path = seq<Down>

  datatype Event =
    | Changed(path: Path)               // a node has been created or replaced there
    | Called(path: Path, change: Path)  // the hook of `path` is told of the change at once
    | Fired(path: Path)                 // the suppressed hook of `path` runs

  /** The nearest hook above a node and where it is. */
  datatype Above = Above(at: Path, hook: Hook)

  /** The events so far and the nodes whose hook is held back. */
  datatype Run = Run(events: seq<Event>, pool: set<Path>)

  function Here(t: Tree, base: Path, near: Option<Above>): Option<Above> {
    if t.hook.Some? then Some(Above(base, t.hook.value)) else near
  }

  function DownTo(t: Tree, key: string): Down {
    if t.kind == List then Index(|t.kids|) else Key(key)
  }

  /** yhook_pre_run, and holding back its hook */
  function Before(cur: Option<Tree>, src: Tree, base: Path, pool: set<Path>, here: Option<Above>): Run {
    if OpGet(cur, src).Nothing? then Run([], pool)
    else if here.None? then Run([Changed(base)], pool)
    else if here.value.hook.suppress then Run([Changed(base)], pool + {here.value.at})
    else if here.value.hook.valOnly && src.kind != Val &&
      (cur.Some? ==> cur.value.kind != Val) then Run([Changed(base)], pool)
    else Run([Changed(base), Called(here.value.at, base)], pool)
  }

  /** yhook_post_run after a merge */
  function After(base: Path, run: Run): Run {
    if base in run.pool then Run(run.events + [Fired(base)], run.pool - {base}) else run
  }

  function RunNode(cur: Option<Tree>, src: Tree, base: Path, near: Option<Above>, pool: set<Path>): Run
    decreases src, |src.kids| + 1
  {
    if OpGet(cur, src).Delete? then Run([], pool)
    else
      var t := Begun(cur, src);
      var here := Here(t, base, near);
      var first := Before(cur, src, base, pool, here);
      var kids := RunKids(t, src, base, here, first.pool, |src.kids|);
      After(base, Run(first.events + kids.events, kids.pool))
  }

  function RunKids(t: Tree, src: Tree, base: Path, here: Option<Above>, pool: set<Path>, n: nat): Run
    requires n <= |src.kids|
    decreases src, n
  {
    if n == 0 then Run([], pool)
    else
      var u, e := MergedKids(t, src, n - 1), src.kids[n - 1];
      var r := RunKids(t, src, base, here, pool, n - 1);
      var s := RunNode(Partner(u, e.key), e.node, base + [DownTo(u, e.key)], here, r.pool);
      Run(r.events + s.events, s.pool)
  }

  // ---------- whose hook a change concerns ----------

  function KidAt(t: Tree, step: Down): Option<Tree> {
    match step
    case Key(k) => if t.kind == List then None else Child(t, k)
    case Index(i) => if t.kind == List && i < |t.kids| then Some(t.kids[i].node) else None
  }

  /** The node with the nearest hook at or above the end of a path, as a path from `t`. */
  function Owner(t: Tree, path: Path): Option<Path>
    decreases |path|
  {
    var below := if path == [] then None else OwnerBelow(t, path);
    if below.None? && t.hook.Some? then Some([]) else below
  }

  /** The same without the hook of `t` itself. */
  function OwnerBelow(t: Tree, path: Path): Option<Path>
    requires path != []
    decreases |path|, 0
  {
    var c := KidAt(t, path[0]);
    if c.None? then None
    else
      match Owner(c.value, path[1..])
      case None => None
      case Some(q) => Some([path[0]] + q)
  }

  predicate Suppressed(t: Tree, path: Path)
    decreases |path|
  {
    if path == [] then t.hook.Some? && t.hook.value.suppress
    else KidAt(t, path[0]).Some? && Suppressed(KidAt(t, path[0]).value, path[1..])
  }

  predicate Under(base: Path, events: seq<Event>) {
    forall i :: 0 <= i < |events| && !events[i].Called? ==> base <= events[i].path
  }

  /** How often the hook of a node fires. */
  function Times(events: seq<Event>, at: Path): nat {
    if events == [] then 0
    else Times(events[..|events| - 1], at) + if events[|events| - 1] == Fired(at) then 1 else 0
  }

  /** The owners of all changes below `base`, where `t` is the tree. */
  function Owners(events: seq<Event>, t: Tree, base: Path): set<Option<Path>>
    requires Under(base, events)
  {
    if events == [] then {}
    else
      var e := events[|events| - 1];
      Owners(events[..|events| - 1], t, base) + if e.Changed? then {Owner(t, e.path[|base|..])} else {}
  }

  /** The owner of a change that has none below `t`. */
  function Mine(t: Tree): Option<Path> {
    if t.hook.Some? then Some([]) else None
  }

  /** The owner seen one level up. */
  function Lifted(t: Tree, step: Down, owner: Option<Path>): Option<Path> {
    match owner
    case None => Mine(t)
    case Some(q) => Some([step] + q)
  }

  ghost function LiftedAll(t: Tree, step: Down, owners: set<Option<Path>>): set<Option<Path>> {
    set o | o in owners :: Lifted(t, step, o)
  }

  // ---------- sequences of events ----------

  lemma {:induction false} TimesConcat(a: seq<Event>, b: seq<Event>, at: Path)
    ensures Times(a + b, at) == Times(a, at) + Times(b, at)
  {
    if b == [] {
      assert a + b == a;
    } else {
      assert (a + b)[..|a + b| - 1] == a + b[..|b| - 1];
      TimesConcat(a, b[..|b| - 1], at);
    }
  }

  lemma {:induction false} TimesApart(events: seq<Event>, at: Path)
    requires Fired(at) !in events
    ensures Times(events, at) == 0
  {
    if events != [] {
      TimesApart(events[..|events| - 1], at);
    }
  }

  lemma {:induction false} OwnersConcat(a: seq<Event>, b: seq<Event>, t: Tree, base: Path)
    requires Under(base, a) && Under(base, b)
    ensures Under(base, a + b) && Owners(a + b, t, base) == Owners(a, t, base) + Owners(b, t, base)
  {
    if b == [] {
      assert a + b == a;
    } else {
      assert (a + b)[..|a + b| - 1] == a + b[..|b| - 1];
      OwnersConcat(a, b[..|b| - 1], t, base);
    }
  }

  lemma {:induction false} UnderPart(base: Path, step: Down, events: seq<Event>)
    requires Under(base + [step], events)
    ensures Under(base, events)
    ensures forall i :: 0 <= i < |events| && !events[i].Called? ==>
      |events[i].path| > |base| && events[i].path[|base|] == step
      && events[i].path[|base|..] == [step] + events[i].path[|base| + 1..]
  {
    forall i | 0 <= i < |events| && !events[i].Called?
      ensures base <= events[i].path && |events[i].path| > |base| && events[i].path[|base|] == step
    {
      assert (base + [step])[|base|] == step && (base + [step])[..|base|] == base;
    }
  }

  lemma {:induction false} OwnersLifted(events: seq<Event>, t: Tree, base: Path, step: Down, c: Tree)
    requires Under(base + [step], events) && Under(base, events) && KidAt(t, step) == Some(c)
    ensures Owners(events, t, base) == LiftedAll(t, step, Owners(events, c, base + [step]))
  {
    hide KidAt, Owner;
    if events != [] {
      var init, e := events[..|events| - 1], events[|events| - 1];
      OwnersLifted(init, t, base, step, c);
      UnderPart(base, step, events);
      if e.Changed? {
        OwnerLifted(t, step, c, e.path[|base| + 1..]);
        LiftedMore(t, step, Owners(init, c, base + [step]), Owner(c, e.path[|base| + 1..]));
      }
    }
  }

  lemma {:induction false} LiftedMore(t: Tree, step: Down, owners: set<Option<Path>>, o: Option<Path>)
    ensures LiftedAll(t, step, owners + {o}) == LiftedAll(t, step, owners) + {Lifted(t, step, o)}
  {
  }

  lemma {:induction false} OwnerLifted(t: Tree, step: Down, c: Tree, rest: Path)
    requires KidAt(t, step) == Some(c)
    ensures Owner(t, [step] + rest) == Lifted(t, step, Owner(c, rest))
  {
    assert ([step] + rest)[1..] == rest;
  }

  lemma {:induction false} OwnerShape(t: Tree, path: Path)
    ensures t.hook.Some? ==> Owner(t, path).Some?
    ensures match Owner(t, path)
      case None => true
      case Some(q) => if q == [] then t.hook.Some? else path != [] && q[0] == path[0]
  {
    if path != [] {
      var below := OwnerBelow(t, path);
      assert Owner(t, path) == if below.None? && t.hook.Some? then Some([]) else below;
    }
  }

  /** An owner below the top lies behind the same first step as the change. */
  lemma {:induction false} OwnersSteps(events: seq<Event>, t: Tree, base: Path, q: Path)
    requires Under(base, events) && Some(q) in Owners(events, t, base) && q != []
    ensures exists i ::
      0 <= i < |events| && events[i].Changed? && |events[i].path| > |base| && events[i].path[|base|] == q[0]
  {
    var e := events[|events| - 1];
    if e.Changed? && Owner(t, e.path[|base|..]) == Some(q) {
      var p := e.path[|base|..];
      OwnerShape(t, p);
      assert p[0] == q[0] && e.path[|base|] == p[0];
      assert events[|events| - 1].Changed?;
    } else {
      OwnersSteps(events[..|events| - 1], t, base, q);
      var i :| 0 <= i < |events| - 1 && events[..|events| - 1][i].Changed?
        && |events[..|events| - 1][i].path| > |base| && events[..|events| - 1][i].path[|base|] == q[0];
      assert events[i].Changed?;
    }
  }

  // ---------- what a run has to be ----------

  /** No hook runs before the last change at or below its node. */
  ghost predicate Late(events: seq<Event>) {
    forall i, j :: 0 <= i < j < |events| && events[i].Fired? && events[j].Changed? ==>
      !(events[i].path <= events[j].path)
  }

  /** The hook of `rel` fires once if it is suppressed and owns a change, else never. */
  ghost predicate FiresOnce(events: seq<Event>, t: Tree, base: Path, rel: Path)
    requires Under(base, events)
  {
    Times(events, base + rel) == if Suppressed(t, rel) && Some(rel) in Owners(events, t, base) then 1 else 0
  }

  /** What is held back for the hook above, if it owns a change. */
  ghost function Pending(pool: set<Path>, near: Option<Above>, owns: bool): set<Path> {
    if near.Some? && near.value.hook.suppress && owns then pool + {near.value.at} else pool
  }

  ghost predicate NodeLaw(run: Run, t: Tree, base: Path, near: Option<Above>, pool: set<Path>) {
    Under(base, run.events) && Late(run.events) &&
    (forall rel :: FiresOnce(run.events, t, base, rel)) &&
    run.pool == Pending(pool, near, None in Owners(run.events, t, base))
  }

  /** All events are behind one of these steps. */
  ghost predicate Behind(events: seq<Event>, base: Path, steps: set<Down>) {
    forall i :: 0 <= i < |events| && !events[i].Called? ==> |events[i].path| > |base| && events[i].path[|base|] in steps
  }

  ghost predicate KidsLaw(run: Run, t: Tree, base: Path, here: Option<Above>, pool: set<Path>, steps: set<Down>) {
    Under(base, run.events) && Behind(run.events, base, steps) && Late(run.events) &&
    (forall rel :: rel != [] ==> FiresOnce(run.events, t, base, rel)) &&
    run.pool == Pending(pool, here, Mine(t) in Owners(run.events, t, base))
  }

  lemma {:induction false} LateTogether(a: seq<Event>, b: seq<Event>, base: Path, steps: set<Down>, step: Down)
    requires Late(a) && Late(b) && Behind(a, base, steps) && Under(base, a) && Under(base + [step], b) && step !in steps
    ensures Late(a + b)
  {
    UnderPart(base, step, b);
    forall i, j | 0 <= i < |a| && 0 <= j < |b| && a[i].Fired? && b[j].Changed? ensures !(a[i].path <= b[j].path) {
      assert a[i].path[|base|] != b[j].path[|base|];
    }
  }

  /** A child's run joins those of the children before it. */
  lemma {:induction false} KidJoins(r: Run, s: Run, t: Tree, base: Path, here: Option<Above>, pool: set<Path>,
                                    steps: set<Down>, step: Down, c: Tree)
    requires KidsLaw(r, t, base, here, pool, steps) && step !in steps && KidAt(t, step) == Some(c)
    requires NodeLaw(s, c, base + [step], here, r.pool)
    ensures KidsLaw(Run(r.events + s.events, s.pool), t, base, here, pool, steps + {step})
  {
    hide Owner, KidAt, Owners, Times, Late, Under, LiftedAll, Lifted;
    var events := r.events + s.events;
    UnderPart(base, step, s.events);
    OwnersConcat(r.events, s.events, t, base);
    OwnersLifted(s.events, t, base, step, c);
    LateTogether(r.events, s.events, base, steps, step);
    LiftedMine(t, step, Owners(s.events, c, base + [step]));
    forall rel: Path | rel != [] ensures FiresOnce(events, t, base, rel) {
      KidFires(r, s, t, base, here, pool, steps, step, c, rel);
    }
  }

  lemma {:induction false} LiftedMine(t: Tree, step: Down, owners: set<Option<Path>>)
    ensures Mine(t) in LiftedAll(t, step, owners) <==> None in owners
  {
  }

  lemma {:induction false} LiftedSome(t: Tree, step: Down, owners: set<Option<Path>>, q: Path)
    requires q != []
    ensures Some(q) in LiftedAll(t, step, owners) <==> q[0] == step && Some(q[1..]) in owners
  {
    assert [q[0]] + q[1..] == q;
    if q[0] == step && Some(q[1..]) in owners {
      assert Lifted(t, step, Some(q[1..])) == Some(q);
    }
    if Some(q) in LiftedAll(t, step, owners) {
      var o :| o in owners && Lifted(t, step, o) == Some(q);
      assert o.value == q[1..];
    }
  }

  lemma {:induction false} KidFires(r: Run, s: Run, t: Tree, base: Path, here: Option<Above>, pool: set<Path>,
                                    steps: set<Down>, step: Down, c: Tree, rel: Path)
    requires KidsLaw(r, t, base, here, pool, steps) && step !in steps && KidAt(t, step) == Some(c)
    requires NodeLaw(s, c, base + [step], here, r.pool) && rel != []
    ensures Under(base, r.events + s.events) && FiresOnce(r.events + s.events, t, base, rel)
  {
    hide Owner, KidAt, Owners, Times, LiftedAll, Lifted, Late;
    UnderPart(base, step, s.events);
    OwnersConcat(r.events, s.events, t, base);
    OwnersLifted(s.events, t, base, step, c);
    TimesConcat(r.events, s.events, base + rel);
    LiftedSome(t, step, Owners(s.events, c, base + [step]), rel);
    assert (base + rel)[|base|] == rel[0];
    if rel[0] == step {
      TimesApart(r.events, base + rel);
      assert base + rel == (base + [step]) + rel[1..];
      assert FiresOnce(s.events, c, base + [step], rel[1..]);
      if Some(rel) in Owners(r.events, t, base) {
        OwnersSteps(r.events, t, base, rel);
      }
    } else {
      TimesApart(s.events, base + rel);
      assert FiresOnce(r.events, t, base, rel);
    }
  }

  // ---------- runs of a merge ----------

  /** The step to the i-th child of the source, in the merged node. */
  function StepTo(t: Tree, src: Tree, i: nat): Down
    requires i < |src.kids|
  {
    if t.kind == List then Index(|t.kids| + i) else Key(src.kids[i].key)
  }

  function Steps(t: Tree, src: Tree, n: nat): (s: set<Down>)
    requires n <= |src.kids|
    ensures forall d :: d in s ==> exists i :: 0 <= i < n && d == StepTo(t, src, i)
  {
    if n == 0 then {} else Steps(t, src, n - 1) + {StepTo(t, src, n - 1)}
  }

  ghost predicate Mergeable(t: Tree, src: Tree) {
    WellFormed(t) && WellFormed(src) && (t.kind == Val <==> src.kind == Val) && (t.kind == List <==> src.kind == List)
  }

  /** Where a child of the source ends up, and that no two end up in the same place. */
  lemma {:induction false} FinalKid(t: Tree, src: Tree, i: nat)
    requires Mergeable(t, src) && i < |src.kids|
    ensures var u, e := MergedKids(t, src, i), src.kids[i];
      var cur := Partner(u, e.key);
      DownTo(u, e.key) == StepTo(t, src, i) && (cur.Some? ==> WellFormed(cur.value))
      && KidAt(MergedKids(t, src, |src.kids|), StepTo(t, src, i)) == Merged(cur, e.node)
    ensures StepTo(t, src, i) !in Steps(t, src, i)
  {
    hide KeyCmp, Child, WellFormed, MergedKids, Merged, Kept;
    var u, e := MergedKids(t, src, i), src.kids[i];
    MergedKidsHead(t, src, i);
    MergedKidsHead(t, src, |src.kids|);
    KidWellFormed(src, i);
    IsKept(t);
    IsKept(src);
    if t.kind == List {
      ListGrows(t, src, i);
      ListGrows(t, src, |src.kids|);
    } else {
      KeysOf(src, i);
      EarlierKeys(src, i);
      UntouchedSoFar(t, src, i);
      ChildWellFormed(t, e.key);
      MergedChildUpTo(t, src, |src.kids|, e.key);
    }
  }

  lemma {:induction false} RunsKids(t: Tree, src: Tree, base: Path, here: Option<Above>, pool: set<Path>, n: nat)
    requires n <= |src.kids| && Mergeable(t, src) && NoDeletes(src)
    requires (here.Some? ==> here.value.at <= base) && forall q :: q in pool ==> q <= base
    ensures var r := RunKids(t, src, base, here, pool, n);
      KidsLaw(r, MergedKids(t, src, |src.kids|), base, here, pool, Steps(t, src, n)) && forall q :: q in r.pool ==>
        q <= base
    decreases src, n
  {
    hide RunNode, MergedKids, Merged, WellFormed, StepTo, KidAt, DownTo, Partner, Owner, Suppressed, Owners;
    var m := MergedKids(t, src, |src.kids|);
    if n == 0 {
      NoEvents(m, base);
    } else {
      var u, e := MergedKids(t, src, n - 1), src.kids[n - 1];
      var cur, step := Partner(u, e.key), StepTo(t, src, n - 1);
      var r := RunKids(t, src, base, here, pool, n - 1);
      RunsKids(t, src, base, here, pool, n - 1);
      FinalKid(t, src, n - 1);
      KidWellFormed(src, n - 1);
      NotDeletedKid(src, n - 1, cur);
      RunsNode(cur, e.node, base + [step], here, r.pool);
      KidJoins(r, RunNode(cur, e.node, base + [step], here, r.pool), m, base, here, pool, Steps(t, src, n - 1), step,
        Merged(cur, e.node).value);
    }
  }

  lemma {:induction false} NoEvents(t: Tree, base: Path)
    ensures Under(base, []) && Owners([], t, base) == {} && forall rel :: FiresOnce([], t, base, rel)
  {
  }

  lemma {:induction false} OwnersMine(events: seq<Event>, t: Tree, base: Path)
    requires Under(base, events)
    ensures (if t.hook.Some? then None else Some([])) !in Owners(events, t, base)
  {
    if events != [] {
      OwnersMine(events[..|events| - 1], t, base);
      if events[|events| - 1].Changed? {
        OwnerShape(t, events[|events| - 1].path[|base|..]);
      }
    }
  }

  /** The part of a run before the children. */
  lemma {:induction false} BeforeLaw(cur: Option<Tree>, src: Tree, base: Path, pool: set<Path>, here: Option<Above>,
                                     t: Tree)
    ensures var r := Before(cur, src, base, pool, here);
      Under(base, r.events) && Late(r.events) && (forall at :: Times(r.events, at) == 0)
      && (forall i :: 0 <= i < |r.events| ==> !r.events[i].Fired?)
      && Owners(r.events, t, base) == (if OpGet(cur, src).Nothing? then {} else {Mine(t)})
      && r.pool == Pending(pool, here, Mine(t) in Owners(r.events, t, base))
  {
    hide OpGet;
    var r := Before(cur, src, base, pool, here);
    forall at ensures Times(r.events, at) == 0 {
      TimesApart(r.events, at);
    }
    assert base[|base|..] == [];
    var one := Changed(base);
    assert Owners([], t, base) == {};
    assert [one][..0] == [] && Owners([one], t, base) == {Mine(t)};
    if here.Some? {
      var two := Called(here.value.at, base);
      assert [one, two][..1] == [one];
    }
  }

  lemma {:induction false} BeforeAndKids(first: Run, kids: Run, t: Tree, base: Path, here: Option<Above>,
                                         pool: set<Path>, steps: set<Down>)
    requires Under(base, first.events) && (forall at :: Times(first.events, at) == 0)
    requires forall i :: 0 <= i < |first.events| ==> !first.events[i].Fired?
    requires Owners(first.events, t, base) <= {Mine(t)} &&
      first.pool == Pending(pool, here, Mine(t) in Owners(first.events, t, base))
    requires KidsLaw(kids, t, base, here, first.pool, steps)
    ensures var events := first.events + kids.events;
      Under(base, events) && Late(events) && (forall rel :: rel != [] ==> FiresOnce(events, t, base, rel))
      && Times(events, base) == 0 && kids.pool == Pending(pool, here, Mine(t) in Owners(events, t, base))
  {
    hide Owner, KidAt, Owners, Times, Suppressed;
    var events := first.events + kids.events;
    OwnersConcat(first.events, kids.events, t, base);
    forall rel: Path ensures rel != [] ==> FiresOnce(events, t, base, rel) {
      TimesConcat(first.events, kids.events, base + rel);
      assert rel != [] ==> FiresOnce(kids.events, t, base, rel);
    }
    TimesConcat(first.events, kids.events, base);
    TimesApart(kids.events, base);
  }

  /** The end of a run: the node's own hook, if it was held back. */
  lemma {:induction false} AfterLaw(run: Run, t: Tree, base: Path, near: Option<Above>, pool: set<Path>)
    requires (near.Some? ==> near.value.at < base) && forall q :: q in pool ==> q < base
    requires Under(base, run.events) && Late(run.events) && Times(run.events, base) == 0
    requires forall rel :: rel != [] ==> FiresOnce(run.events, t, base, rel)
    requires run.pool == Pending(pool, Here(t, base, near), Mine(t) in Owners(run.events, t, base))
    ensures NodeLaw(After(base, run), t, base, near, pool)
  {
    hide Owner, KidAt, Owners, Times;
    var events := After(base, run).events;
    OwnersMine(run.events, t, base);
    assert base + [] == base;
    assert base in run.pool <==> Suppressed(t, []) && Some([]) in Owners(run.events, t, base);
    if base in run.pool {
      LastFired(run.events, t, base);
      forall rel: Path ensures FiresOnce(events, t, base, rel) {
        TimesConcat(run.events, [Fired(base)], base + rel);
        TimesFired(base, base + rel);
        assert rel != [] ==> base + rel != base && FiresOnce(run.events, t, base, rel);
      }
      assert run.pool - {base} == pool;
    }
  }

  lemma {:induction false} TimesFired(base: Path, at: Path)
    ensures Times([Fired(base)], at) == if at == base then 1 else 0
  {
    assert Times([Fired(base)][..0], at) == 0;
  }

  lemma {:induction false} LastFired(events: seq<Event>, t: Tree, base: Path)
    requires Under(base, events) && Late(events)
    ensures Under(base, events + [Fired(base)]) && Late(events + [Fired(base)])
    ensures Owners(events + [Fired(base)], t, base) == Owners(events, t, base)
  {
    assert (events + [Fired(base)])[..|events|] == events;
  }

  lemma {:induction false} RunsNode(cur: Option<Tree>, src: Tree, base: Path, near: Option<Above>, pool: set<Path>)
    requires (cur.Some? ==> WellFormed(cur.value)) && WellFormed(src) && NoDeletes(src) && !OpGet(cur, src).Delete?
    requires (near.Some? ==> near.value.at < base) && forall q :: q in pool ==> q < base
    ensures NodeLaw(RunNode(cur, src, base, near, pool), Merged(cur, src).value, base, near, pool)
    decreases src, |src.kids| + 1
  {
    hide OpGet, Begun, RunKids, MergedKids, NodeLaw, KidsLaw, Before, After, WellFormed, NoDeletes, Owners, Times,
      Late, Suppressed, FiresOnce;
    var t := Begun(cur, src);
    var here := Here(t, base, near);
    var m := MergedKids(t, src, |src.kids|);
    var first := Before(cur, src, base, pool, here);
    BegunWellFormed(cur, src);
    MergedKidsHead(t, src, |src.kids|);
    BeforeLaw(cur, src, base, pool, here, m);
    RunsKids(t, src, base, here, first.pool, |src.kids|);
    var kids := RunKids(t, src, base, here, first.pool, |src.kids|);
    BeforeAndKids(first, kids, m, base, here, pool, Steps(t, src, |src.kids|));
    AfterLaw(Run(first.events + kids.events, kids.pool), m, base, near, pool);
  }

  // ---------- the end of a run ----------

  /** A node above the current one: where it is and its hook. */
  datatype Parent = Parent(at: Path, hook: Option<Hook>)

  /** The first hook on the way up. */
  function Nearest(above: seq<Parent>): (r: Option<Above>)
    ensures r.Some? ==> exists i :: 0 <= i < |above| && above[i].at == r.value.at
  {
    if above == [] then None
    else if above[0].hook.Some? then Some(Above(above[0].at, above[0].hook.value))
    else Nearest(above[1..])
  }

  /** yhook_post_run at the end of the whole run: what is still held back runs on the way up. */
  function Climbed(run: Run, above: seq<Parent>): Run
    decreases |above|
  {
    if above == [] then run else Climbed(After(above[0].at, run), above[1..])
  }

  lemma {:induction false} ClimbedNone(run: Run, above: seq<Parent>)
    requires run.pool == {}
    ensures Climbed(run, above) == run
  {
    if above != [] {
      ClimbedNone(run, above[1..]);
    }
  }

  /** Only the nearest hook above can be held back at the end, and so it is the one that runs. */
  lemma {:induction false} ClimbedToNearest(run: Run, above: seq<Parent>)
    requires Nearest(above).Some? && run.pool == {Nearest(above).value.at}
    ensures Climbed(run, above) == Run(run.events + [Fired(Nearest(above).value.at)], {})
  {
    var at := Nearest(above).value.at;
    var next := After(above[0].at, run);
    if above[0].at == at {
      assert run.pool - {at} == {};
      ClimbedNone(next, above[1..]);
    } else {
      ClimbedToNearest(run, above[1..]);
    }
  }

  /** A created or replaced node at or below `base` has this one as the owner of the nearest hook; None
      is for those above. */
  ghost predicate Owns(events: seq<Event>, m: Tree, base: Path, o: Option<Path>) {
    exists i :: 0 <= i < |events| && events[i].Changed? && base <= events[i].path &&
      Owner(m, events[i].path[|base|..]) == o
  }

  /** In a merge that deletes nothing, at the top or further down, a suppressed hook runs exactly once if
      a created or replaced node has it as the nearest one at or above, be it in the merged node or above
      it, never otherwise, and only after every change at or below its node; nothing is left held back. */
  lemma {:induction false} HooksFireOnce(cur: Option<Tree>, src: Tree, base: Path, above: seq<Parent>, path: Path)
    requires (cur.Some? ==> WellFormed(cur.value)) && WellFormed(src) && NoDeletes(src)
    requires forall i :: 0 <= i < |above| ==> above[i].at < base
    ensures Merged(cur, src).Some?
    ensures var near, m := Nearest(above), Merged(cur, src).value;
      var run := Climbed(RunNode(cur, src, base, near, {}), above);
      run.pool == {} && Late(run.events)
      && Times(run.events, path) ==
        if (if base <= path then Suppressed(m, path[|base|..]) && Owns(run.events, m, base, Some(path[|base|..]))
            else near.Some? && near.value.hook.suppress && near.value.at == path && Owns(run.events, m, base, None))
        then 1 else 0
  {
    hide RunNode, WellFormed, Times, Late, Owner, Merged, MergedKids, Suppressed, Climbed, Nearest, Owners, Owns;
    NotDeletedTop(cur, src);
    var near, m := Nearest(above), Merged(cur, src).value;
    RunsNode(cur, src, base, near, {});
    var r := RunNode(cur, src, base, near, {});
    var run := Climbed(r, above);
    OwnersFound(r.events, m, base, None);
    if r.pool == {} {
      ClimbedNone(r, above);
    } else {
      ClimbedToNearest(r, above);
      FiredAbove(r.events, m, base, near.value.at, path);
    }
    if base <= path {
      var rel := path[|base|..];
      assert base + rel == path;
      assert FiresOnce(r.events, m, base, rel);
      OwnersFound(r.events, m, base, Some(rel));
    } else {
      TimesApart(r.events, path);
    }
  }

  /** The hook above fires after the rest of the run. */
  lemma {:induction false} FiredAbove(events: seq<Event>, m: Tree, base: Path, at: Path, path: Path)
    requires Late(events) && at < base
    ensures Late(events + [Fired(at)]) &&
      Times(events + [Fired(at)], path) == Times(events, path) + if path == at then 1 else 0
    ensures forall o :: Owns(events + [Fired(at)], m, base, o) <==> Owns(events, m, base, o)
  {
    hide Owner;
    TimesConcat(events, [Fired(at)], path);
    TimesFired(at, path);
    var more := events + [Fired(at)];
    forall o ensures Owns(more, m, base, o) <==> Owns(events, m, base, o) {
      if Owns(events, m, base, o) {
        var i :| 0 <= i < |events| && events[i].Changed? && base <= events[i].path &&
          Owner(m, events[i].path[|base|..]) == o;
        assert more[i] == events[i];
      }
    }
  }

  lemma {:induction false} NotDeletedTop(cur: Option<Tree>, src: Tree)
    requires NoDeletes(src)
    ensures !OpGet(cur, src).Delete? && Merged(cur, src).Some?
  {
  }

  lemma {:induction false} OwnersFound(events: seq<Event>, t: Tree, base: Path, o: Option<Path>)
    requires Under(base, events)
    ensures o in Owners(events, t, base) <==> Owns(events, t, base, o)
  {
    hide Owner;
    if events != [] {
      var init, e := events[..|events| - 1], events[|events| - 1];
      OwnersFound(init, t, base, o);
      assert forall i :: 0 <= i < |init| ==> init[i] == events[i];
      if Owns(init, t, base, o) {
        var i :| 0 <= i < |init| && init[i].Changed? && base <= init[i].path && Owner(t, init[i].path[|base|..]) == o;
        assert events[i].Changed? && Owner(t, events[i].path[|base|..]) == o;
      }
    }
  }

  // ---------- the run itself ----------

  /** The functions called during one ynode_control, and the hooks held back. */
  class HookRun {
    var events: seq<Event>
    var pool: set<Path>

    constructor ()
      ensures events == [] && pool == {}
    {
      events, pool := [], {};
    }

    /** yhook_pre_run: the node's own hook or the first one above it is called, or held back. */
    method PreRun(cur: Option<Tree>, t: Tree, base: Path, above: seq<Parent>, ghost src: Tree)
      requires t.kind == src.kind && (OpGet(cur, src).Create? || OpGet(cur, src).Replace?)
      modifies this
      ensures var first := Before(cur, src, base, old(pool), Here(t, base, Nearest(above)));
        events == old(events) + first.events && pool == first.pool
    {
      hide OpGet;
      events := events + [Changed(base)];
      var hook, at, i := t.hook, base, 0;
      assert above[0..] == above;
      while hook.None? && i < |above|
        invariant i <= |above|
        invariant Here(t, base, Nearest(above)) == if hook.Some? then Some(Above(at, hook.value))
          else Nearest(above[i..])
      {
        assert above[i..][1..] == above[i + 1..];
        hook, at := above[i].hook, above[i].at;
        i := i + 1;
      }
      if hook.Some? {
        if hook.value.suppress {
          // yhook_push_for_pending
          pool := pool + {at};
        } else if t.kind == Val || (cur.Some? && cur.value.kind == Val) || !hook.value.valOnly {
          events := events + [Called(at, base)];
        }
      }
    }

    /** yhook_post_run: the node's own hook runs now if it has been held back. */
    method PostRun(base: Path)
      modifies this
      ensures Run(events, pool) == After(base, Run(old(events), old(pool)))
    {
      if base in pool {
        pool := pool - {base};
        events := events + [Fired(base)];
      }
    }

    /** ynode_control, as far as hooks are concerned. */
    method Control(cur: Option<Tree>, src: Tree, base: Path, above: seq<Parent>)
      modifies this
      ensures var run := RunNode(cur, src, base, Nearest(above), old(pool));
        events == old(events) + run.events && pool == run.pool
      decreases src, |src.kids| + 1
    {
      hide Merged, MergedKids, Begun, OpGet, RunKids, Partner, DownTo, Before;
      if OpGet(cur, src).Delete? {
        assert events + [] == events;
        return;
      }
      var t := Begun(cur, src);
      ghost var before, held, here := events, pool, Here(t, base, Nearest(above));
      ghost var first := Before(cur, src, base, held, here);
      BegunAnew(cur, src, base, held, here);
      if OpGet(cur, src) != Nothing {
        PreRun(cur, t, base, above, src);
      } else {
        assert before + [] == before;
      }
      ghost var middle := events;
      OwnFirst(t, base, above);
      RunsNone(t, src, base, here, first.pool, middle);
      for n := 0 to |src.kids|
        invariant var r := RunKids(t, src, base, here, first.pool, n); events == middle + r.events && pool == r.pool
      {
        var u, e := MergedKids(t, src, n), src.kids[n];
        RunsNext(t, src, base, here, first.pool, n, middle);
        Control(Partner(u, e.key), e.node, base + [DownTo(u, e.key)], [Parent(base, t.hook)] + above);
      }
      Joined(before, first.events, RunKids(t, src, base, here, first.pool, |src.kids|).events, [Fired(base)]);
      PostRun(base);
    }

    /** ynode_control where a run begins, up to its end: nothing remains held back. */
    method Start(cur: Option<Tree>, src: Tree, base: Path, above: seq<Parent>)
      requires pool == {} && (cur.Some? ==> WellFormed(cur.value)) && WellFormed(src) && NoDeletes(src)
      requires forall i :: 0 <= i < |above| ==> above[i].at < base
      modifies this
      ensures var run := Climbed(RunNode(cur, src, base, Nearest(above), {}), above);
        events == old(events) + run.events && pool == run.pool == {}
    {
      hide RunNode, WellFormed, NoDeletes, Merged, Late, Suppressed, Nearest, After;
      ghost var before, run := events, RunNode(cur, src, base, Nearest(above), {});
      Control(cur, src, base, above);
      HooksFireOnce(cur, src, base, above, []);
      assert above[0..] == above;
      ghost var r := run;
      for i := 0 to |above|
        invariant events == before + r.events && pool == r.pool && Climbed(r, above[i..]) == Climbed(run, above)
      {
        assert above[i..][1..] == above[i + 1..];
        AfterJoined(above[i].at, before, r);
        r := After(above[i].at, r);
        PostRun(above[i].at);
      }
    }
  }

  lemma {:induction false} AfterJoined(at: Path, before: seq<Event>, run: Run)
    ensures var r := After(at, run); After(at, Run(before + run.events, run.pool)) == Run(before + r.events, r.pool)
  {
    assert before + (run.events + [Fired(at)]) == before + run.events + [Fired(at)];
  }

  lemma {:induction false} BegunAnew(cur: Option<Tree>, src: Tree, base: Path, pool: set<Path>, here: Option<Above>)
    ensures OpGet(cur, src).Create? || OpGet(cur, src).Replace? ==> Begun(cur, src).kind == src.kind
    ensures OpGet(cur, src).Nothing? ==> Before(cur, src, base, pool, here) == Run([], pool)
  {
  }

  lemma {:induction false} OwnFirst(t: Tree, base: Path, above: seq<Parent>)
    ensures Nearest([Parent(base, t.hook)] + above) == Here(t, base, Nearest(above))
  {
    assert ([Parent(base, t.hook)] + above)[1..] == above;
  }

  lemma {:induction false} RunsNone(t: Tree, src: Tree, base: Path, here: Option<Above>, pool: set<Path>,
                                    before: seq<Event>)
    ensures var r := RunKids(t, src, base, here, pool, 0); before + r.events == before && r.pool == pool
  {
  }

  lemma {:induction false} RunsNext(t: Tree, src: Tree, base: Path, here: Option<Above>, pool: set<Path>, n: nat,
                                    before: seq<Event>)
    requires n < |src.kids|
    ensures var u, e := MergedKids(t, src, n), src.kids[n];
      var r := RunKids(t, src, base, here, pool, n);
      var s := RunNode(Partner(u, e.key), e.node, base + [DownTo(u, e.key)], here, r.pool);
      var next := RunKids(t, src, base, here, pool, n + 1);
      before + next.events == before + r.events + s.events && next.pool == s.pool
  {
    hide RunNode;
  }

  lemma {:induction false} Joined(a: seq<Event>, b: seq<Event>, c: seq<Event>, d: seq<Event>)
    ensures a + b + c == a + (b + c) && a + b + c + d == a + (b + c + d)
  {
  }
}
