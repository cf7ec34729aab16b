/** ydb/ytimer.c: timers kept in two indexes over the same objects, one of them ordered by a key that
    changes. */
module Timers {
  import opened Common
  import YTree

  /** A struct timespec. */
  datatype Time = Time(sec: int, nsec: int)

  predicate Normal(t: Time) {
    0 <= t.nsec < 1_000_000_000
  }

  function Nanos(t: Time): int {
    t.sec * 1_000_000_000 + t.nsec
  }

  /** What the order of a timer depends on. */
  datatype Key = Key(start: Time, duration: nat, id: nat)

  function Deadline(k: Key): int {
    Nanos(k.start) + k.duration * 1_000_000
  }

  /** timer_cb_cmp */
  function Cmp(a: Key, b: Key): int {
    var na, nb := a.start.nsec + a.duration % 1000 * 1_000_000, b.start.nsec + b.duration % 1000 * 1_000_000;
    var ta, tb := a.start.sec + a.duration / 1000, b.start.sec + b.duration / 1000;
    var (sa, ra) := if na >= 1_000_000_000 then (ta + 1, na - 1_000_000_000) else (ta, na);
    var (sb, rb) := if nb >= 1_000_000_000 then (tb + 1, nb - 1_000_000_000) else (tb, nb);
    if sa < sb then -1 else if sa > sb then 1
    else if ra < rb then -1 else if ra > rb then 1
    else a.id - b.id
  }

  /** Seconds and nanoseconds with the carry are the deadline. */
  lemma {:induction false} DeadlineParts(k: Key)
    requires Normal(k.start)
    ensures var n, t := k.start.nsec + k.duration % 1000 * 1_000_000, k.start.sec + k.duration / 1000;
      var (s, r) := if n >= 1_000_000_000 then (t + 1, n - 1_000_000_000) else (t, n);
      Deadline(k) == s * 1_000_000_000 + r && 0 <= r < 1_000_000_000
  {
    assert k.duration == k.duration / 1000 * 1000 + k.duration % 1000;
  }

  /** The comparison is the one of deadlines and then ids. */
  lemma {:induction false} CmpIsDeadline(a: Key, b: Key)
    requires Normal(a.start) && Normal(b.start)
    ensures Cmp(a, b) < 0 <==> Deadline(a) < Deadline(b) || (Deadline(a) == Deadline(b) && a.id < b.id)
    ensures Cmp(a, b) == 0 <==> Deadline(a) == Deadline(b) && a.id == b.id
    ensures Cmp(a, b) > 0 <==> Cmp(b, a) < 0
  {
    DeadlineParts(a);
    DeadlineParts(b);
    hide Deadline;
  }

  /** The one is called before the other. */
  predicate Earlier(a: Key, b: Key) {
    Deadline(a) < Deadline(b) || (Deadline(a) == Deadline(b) && a.id < b.id)
  }

  /** get_timer_remained in exact nanoseconds */
  function Remained(k: Key, cur: Time): int {
    k.duration * 1_000_000 - (Nanos(cur) - Nanos(k.start))
  }

  /** timer_id_cmp orders by falling ids. */
  function IdCmp(a: nat, b: nat): int {
    b - a
  }

  /** Clocks and starting times are normalised, and so the keys of all timers are of this kind. */
  type NormalKey = k: Key | Normal(k.start) witness Key(Time(0, 0), 0, 0)

  /** Both comparisons are ones that a balanced tree can work with. */
  lemma {:induction false} IndexOrders()
    ensures YTree.TotalOrder((a: NormalKey, b: NormalKey) => Cmp(a, b))
    ensures YTree.TotalOrder((a: nat, b: nat) => IdCmp(a, b))
  {
    hide Cmp, Deadline;
    forall a: NormalKey, b: NormalKey ensures Cmp(a, b) < 0 <==> Cmp(b, a) > 0 {
      CmpIsDeadline(a, b);
      CmpIsDeadline(b, a);
    }
    forall a: NormalKey, b: NormalKey, c: NormalKey | Cmp(a, b) <= 0 && Cmp(b, c) <= 0 ensures Cmp(a, c) <= 0 {
      CmpIsDeadline(a, b);
      CmpIsDeadline(b, c);
      CmpIsDeadline(a, c);
    }
  }

  // ---------- ids ----------

  const MAX_ID: nat := 100000
  const WRAP: nat := 0x1_0000_0000

  function IdOf(next: nat): (id: nat)
    ensures 1 <= id <= MAX_ID
  {
    next % MAX_ID + 1
  }

  /** How many steps of the counter it takes at most until it comes to `id`. */
  ghost function Ahead(next: nat, id: nat): nat
    requires next < WRAP && 1 <= id <= MAX_ID
  {
    var there := next + 1 + (id - 1 - (next + 1)) % MAX_ID;
    if there < WRAP then there - next else WRAP - next + id
  }

  lemma {:induction false} AheadStep(next: nat, id: nat)
    requires next < WRAP && 1 <= id <= MAX_ID
    ensures var n := (next + 1) % WRAP; IdOf(n) == id || Ahead(n, id) < Ahead(next, id)
  {
    var a, q, d := next + 1, (id - 1 - (next + 1)) / MAX_ID, (id - 1 - (next + 1)) % MAX_ID;
    if a == WRAP {
      assert IdOf(0) == 1;
      ModIs(id - 1 - 1, 0, id - 2);
    } else if d == 0 {
      ModIs(a, -q, id - 1);
    } else {
      ModIs(id - 1 - (a + 1), q, d - 1);
    }
  }

  lemma {:induction false} ModIs(x: int, q: int, d: int)
    requires x == q * MAX_ID + d
    ensures 0 <= d < MAX_ID ==> x % MAX_ID == d
  {
  }

  lemma {:induction false} Range(n: nat) returns (s: set<nat>)
    ensures |s| == n && forall k :: k in s <==> 1 <= k <= n
  {
    if n == 0 {
      s := {};
    } else {
      s := Range(n - 1);
      s := s + {n};
    }
  }

  /** As long as not all ids are taken there is one to find. */
  lemma {:induction false} FreeId(used: set<nat>) returns (id: nat)
    requires |used| < MAX_ID
    ensures 1 <= id <= MAX_ID && id !in used
  {
    var all := Range(MAX_ID);
    if forall k :: k in all ==> k in used {
      Subset(all, used);
      assert false;
    }
    id :| id in all && id !in used;
  }

  lemma {:induction false} Subset(a: set<nat>, b: set<nat>)
    requires a <= b
    ensures |a| <= |b|
  {
    if a != {} {
      var x :| x in a;
      Subset(a - {x}, b - {x});
    }
  }

  // ---------- timers and what their functions do ----------

  datatype Status = NoErr | Aborted | Completed

  /** What a timer function does when it is called: calls into the timers, each with its clock reading,
      and the status it returns. */
  datatype Command =
    | Set(msec: nat, periodic: bool, action: seq<Command>, status: Status, now: Time)
    | Restart(id: nat, msec: nat, now: Time)
    | Delete(id: nat)

  class TimerCb {
    const periodic: bool
    const id: nat
    var start: Time
    var duration: nat
    const action: seq<Command>
    const status: Status

    constructor (id: nat, periodic: bool, start: Time, duration: nat, action: seq<Command>, status: Status)
      ensures this.id == id && this.periodic == periodic && this.start == start && this.duration == duration
      ensures this.action == action && this.status == status
    {
      this.id := id;
      this.periodic := periodic;
      this.start := start;
      this.duration := duration;
      this.action := action;
      this.status := status;
    }

    function At(): Key
      reads this
    {
      Key(start, duration, id)
    }
  }

  ghost predicate ByDeadline(s: seq<TimerCb>)
    reads s
  {
    (forall i :: 0 <= i < |s| ==> Normal(s[i].start)) &&
    forall i, j :: 0 <= i < j < |s| ==> Cmp(s[i].At(), s[j].At()) < 0
  }

  ghost predicate ById(s: seq<TimerCb>)
    reads s
  {
    forall i, j :: 0 <= i < j < |s| ==> IdCmp(s[i].id, s[j].id) < 0
  }

  lemma {:induction false} CmpTransitive(a: Key, b: Key, c: Key)
    requires Normal(a.start) && Normal(b.start) && Normal(c.start)
    ensures Cmp(a, b) < 0 && Cmp(b, c) < 0 ==> Cmp(a, c) < 0
  {
    CmpIsDeadline(a, b);
    CmpIsDeadline(b, c);
    CmpIsDeadline(a, c);
  }

  /** An index holds exactly these timers. */
  ghost predicate Holds(s: seq<TimerCb>, live: map<nat, TimerCb>)
    reads s, live.Values
  {
    (forall cb :: cb in s ==> cb.id in live && live[cb.id] == cb) &&
    forall k :: k in live ==> live[k] in s && live[k].id == k && 1 <= k <= MAX_ID
  }

  lemma {:induction false} HoldsMore(s: seq<TimerCb>, live: map<nat, TimerCb>, p: nat, cb: TimerCb)
    requires Holds(s, live) && p <= |s| && cb.id !in live && 1 <= cb.id <= MAX_ID
    ensures Holds(s[..p] + [cb] + s[p..], live[cb.id := cb]) && forall i :: 0 <= i < |s| ==> s[i].id != cb.id
  {
    var r := s[..p] + [cb] + s[p..];
    assert forall x :: x in s ==> x in s[..p] || x in s[p..];
    assert forall x :: x in r <==> x in s || x == cb;
  }

  lemma {:induction false} HoldsLess(s: seq<TimerCb>, live: map<nat, TimerCb>, p: nat, cb: TimerCb)
    requires Holds(s, live) && p < |s| && s[p] == cb && forall i :: 0 <= i < |s| && i != p ==> s[i] != cb
    ensures Holds(Without(s, p), live - {cb.id}) && cb !in Without(s, p)
  {
    assert forall x :: x in s && x != cb ==> x in s[..p] || x in s[p + 1..];
    assert forall x :: x in Without(s, p) <==> x in s && x != cb;
  }

  /** Where a timer belongs, or is, in the index by deadline. */
  method Place(s: seq<TimerCb>, cb: TimerCb) returns (p: nat)
    requires ByDeadline(s)
    ensures p <= |s| && forall i :: 0 <= i < p ==> Cmp(s[i].At(), cb.At()) < 0
    ensures p < |s| ==> Cmp(s[p].At(), cb.At()) >= 0
  {
    p := 0;
    while p < |s| && Cmp(s[p].At(), cb.At()) < 0
      invariant p <= |s| && forall i :: 0 <= i < p ==> Cmp(s[i].At(), cb.At()) < 0
    {
      p := p + 1;
    }
  }

  /** The same in the index by id. */
  method PlaceById(s: seq<TimerCb>, id: nat) returns (q: nat)
    requires ById(s)
    ensures q <= |s| && forall i :: 0 <= i < q ==> IdCmp(s[i].id, id) < 0
    ensures q < |s| ==> IdCmp(s[q].id, id) >= 0
  {
    q := 0;
    while q < |s| && IdCmp(s[q].id, id) < 0
      invariant q <= |s| && forall i :: 0 <= i < q ==> IdCmp(s[i].id, id) < 0
    {
      q := q + 1;
    }
  }

  /** A timer in the index is where it is looked for, and only there. */
  lemma {:induction false} Placed(s: seq<TimerCb>, cb: TimerCb, p: nat)
    requires ByDeadline(s) && cb in s && p <= |s|
    requires (forall i :: 0 <= i < p ==> Cmp(s[i].At(), cb.At()) < 0) && (p < |s| ==> Cmp(s[p].At(), cb.At()) >= 0)
    ensures p < |s| && s[p] == cb && forall i :: 0 <= i < |s| && i != p ==> s[i] != cb
  {
    hide Cmp;
    var k :| 0 <= k < |s| && s[k] == cb;
    CmpIsDeadline(cb.At(), cb.At());
  }

  lemma {:induction false} PlacedById(s: seq<TimerCb>, cb: TimerCb, q: nat)
    requires ById(s) && cb in s && q <= |s|
    requires (forall i :: 0 <= i < q ==> IdCmp(s[i].id, cb.id) < 0) && (q < |s| ==> IdCmp(s[q].id, cb.id) >= 0)
    ensures q < |s| && s[q] == cb && forall i :: 0 <= i < |s| && i != q ==> s[i] != cb
  {
    var k :| 0 <= k < |s| && s[k] == cb;
  }

  class Timer {
    /** The index by deadline and the index by id. */
    var timers: seq<TimerCb>
    var ids: seq<TimerCb>
    var nextId: nat
    var curId: nat
    /** The timers by their ids. */
    ghost var live: map<nat, TimerCb>

    /** Both indexes hold the same timers, each in its order and every id once. */
    ghost predicate Valid()
      reads this`timers, this`ids, this`nextId, this`live, timers, ids, live.Values
    {
      nextId < WRAP && ByDeadline(timers) && ById(ids) && Holds(timers, live) && Holds(ids, live)
    }

    constructor ()
      ensures Valid() && live == map[] && curId == 0 && fresh(this)
    {
      timers, ids, nextId, curId, live := [], [], 0, 0, map[];
    }

    /** ytree_search in the index by id */
    method Search(id: nat) returns (cb: TimerCb?)
      requires Valid()
      ensures cb == if id in live then live[id] else null
    {
      hide Cmp;
      var q := PlaceById(ids, id);
      cb := if q < |ids| && ids[q].id == id then ids[q] else null;
      if id in live {
        PlacedById(ids, live[id], q);
      }
    }

    /** ytree_insert into both indexes */
    method Index(cb: TimerCb)
      requires Valid() && cb.id !in live && 1 <= cb.id <= MAX_ID && Normal(cb.start)
      modifies this`timers, this`ids, this`live
      ensures Valid() && live == old(live)[cb.id := cb]
    {
      hide Cmp, ByDeadline, ById, Holds;
      var p := Place(timers, cb);
      var q := PlaceById(ids, cb.id);
      HoldsMore(timers, live, p, cb);
      HoldsMore(ids, live, q, cb);
      InsertedByDeadline(timers, p, cb);
      InsertedById(ids, q, cb);
      timers := timers[..p] + [cb] + timers[p..];
      ids := ids[..q] + [cb] + ids[q..];
      live := live[cb.id := cb];
    }

    /** ytree_delete from both indexes, which finds the timer by the keys it had when it was inserted */
    method Unindex(cb: TimerCb)
      requires Valid() && cb in ids
      modifies this`timers, this`ids, this`live
      ensures Valid() && live == old(live) - {cb.id} && cb !in ids && cb !in timers
    {
      InBoth(cb);
      hide Cmp, ByDeadline, ById, Holds, Without;
      var p := Place(timers, cb);
      var q := PlaceById(ids, cb.id);
      RemovedByDeadline(timers, live, cb, p);
      RemovedById(ids, live, cb, q);
      Drop(p, q, live - {cb.id});
    }

    method Drop(p: nat, q: nat, ghost rest: map<nat, TimerCb>)
      requires nextId < WRAP && p < |timers| && q < |ids| && ByDeadline(Without(timers, p)) && ById(Without(ids, q))
      requires Holds(Without(timers, p), rest) && Holds(Without(ids, q), rest)
      modifies this`timers, this`ids, this`live
      ensures Valid() && timers == Without(old(timers), p) && ids == Without(old(ids), q) && live == rest
    {
      hide Cmp, ByDeadline, ById, Holds, Without;
      timers := Without(timers, p);
      ids := Without(ids, q);
      live := rest;
    }

    /** The counter goes on until it comes to an id that is free. */
    method FindId() returns (id: nat)
      requires Valid() && |live| < MAX_ID
      modifies this`nextId
      ensures Valid() && 1 <= id <= MAX_ID && id !in live
    {
      hide Cmp, ByDeadline, ById, Holds, IdOf, Ahead;
      ghost var free := FreeId(live.Keys);
      AheadStep(nextId, free);
      Advance();
      id := IdOf(nextId);
      var other := Search(id);
      while other != null
        invariant Valid() && id == IdOf(nextId) && (other == null <==> id !in live)
        decreases if other == null then 0 else Ahead(nextId, free) + 1
      {
        AheadStep(nextId, free);
        Advance();
        id := IdOf(nextId);
        other := Search(id);
      }
    }

    /** ++next_id, of 32 bits */
    method Advance()
      requires Valid()
      modifies this`nextId
      ensures Valid() && nextId == (old(nextId) + 1) % WRAP
    {
      hide ByDeadline, ById, Holds;
      nextId := (nextId + 1) % WRAP;
    }

    /** _ytimer_set_msec */
    method SetMsec(msec: nat, periodic: bool, action: seq<Command>, status: Status, now: Time) returns (id: nat)
      requires Valid() && |live| < MAX_ID && Normal(now)
      modifies this`timers, this`ids, this`live, this`nextId
      ensures Valid() && 1 <= id <= MAX_ID && id !in old(live)
      ensures id in live && fresh(live[id]) && live == old(live)[id := live[id]]
      ensures live[id].At() == Key(now, msec, id) && live[id].periodic == periodic
      ensures live[id].action == action && live[id].status == status
    {
      hide Cmp, ByDeadline, ById, Holds;
      id := FindId();
      var cb := new TimerCb(id, periodic, now, msec, action, status);
      Index(cb);
    }

    /** ytimer_restart_msec: the key changes while the timer is in neither index. */
    method RestartMsec(id: nat, msec: nat, now: Time) returns (ok: bool)
      requires Valid() && Normal(now)
      modifies this`timers, this`ids, this`live, live.Values`start, live.Values`duration
      ensures Valid() && live == old(live) && (ok <==> id in live)
      ensures ok ==> live[id].start == now && live[id].duration == msec
      ensures forall k :: k in live && k != id ==> live[k].At() == old(live[k].At())
    {
      hide Cmp, ByDeadline, ById, Holds, TimerCb.At;
      AllKnown();
      var cb := Search(id);
      if cb == null {
        return false;
      }
      InBoth(cb);
      Unindex(cb);
      cb.duration := msec;
      cb.start := now;
      Index(cb);
      ok := true;
    }

    /** ytimer_delete: refused for the timer whose function is running. */
    method DeleteTimer(id: nat) returns (ok: bool)
      requires Valid()
      modifies this`timers, this`ids, this`live
      ensures Valid() && (ok <==> id in old(live) && id != curId) && live == if id == curId then old(live)
        else old(live) - {id}
    {
      hide Cmp;
      if id == curId {
        return false;
      }
      var cb := Search(id);
      if cb == null {
        return false;
      }
      InBoth(cb);
      Unindex(cb);
      ok := true;
    }

    /** One call that a timer function makes. */
    method Do(c: Command)
      requires Valid() && (c.Set? ==> |live| < MAX_ID && Normal(c.now)) && (c.Restart? ==> Normal(c.now))
      modifies this`timers, this`ids, this`live, this`nextId, live.Values`start, live.Values`duration
      ensures Valid() && |live| <= |old(live)| + if c.Set? then 1 else 0
      ensures forall k :: k in old(live) && !(c.Delete? && c.id == k != curId) ==> k in live && live[k] == old(live)[k]
      ensures forall k :: k in live ==> (k in old(live) && live[k] == old(live)[k]) || fresh(live[k])
      ensures forall k :: k in old(live) && !(c.Delete? && c.id == k != curId) && !(c.Restart? && c.id == k) ==>
        live[k].At() == old(live[k].At())
    {
      hide Cmp, ByDeadline, ById, Holds, TimerCb.At;
      match c {
        case Set(msec, periodic, action, status, now) =>
          var id := SetMsec(msec, periodic, action, status, now);
        case Restart(id, msec, now) =>
          var ok := RestartMsec(id, msec, now);
        case Delete(id) =>
          Fewer(live, id);
          var ok := DeleteTimer(id);
      }
    }

    /** run_timer_cb: what the function of a timer does. */
    method Run(cb: TimerCb) returns (status: Status)
      requires Valid() && cb in ids && ClocksNormal(cb.action)
      requires |live| + Sets(cb.action) < MAX_ID
      modifies this, live.Values`start, live.Values`duration
      ensures Valid() && status == cb.status && |live| <= |old(live)| + Sets(cb.action)
      ensures forall k :: k in old(live) && k !in Deletes(cb) ==> k in live && live[k] == old(live)[k]
      ensures forall k :: k in live ==> (k in old(live) && live[k] == old(live)[k]) || fresh(live[k])
      ensures forall k :: k in old(live) && k !in Deletes(cb) && k !in Restarts(cb.action) ==>
        live[k].At() == old(live[k].At())
    {
      hide Cmp, ByDeadline, ById, Holds, TimerCb.At, Valid, Sets;
      curId := cb.id;
      ghost var before := live;
      assert cb.action[..0] == [];
      for i := 0 to |cb.action|
        invariant Valid() && curId == cb.id && |live| <= |before| + Sets(cb.action[..i])
        invariant forall k :: k in before && k !in Deletes(cb) ==> k in live && live[k] == before[k]
        invariant forall k :: k in live ==> (k in before && live[k] == before[k]) || fresh(live[k])
        invariant forall k :: k in before && k !in Deletes(cb) && k !in Restarts(cb.action) ==>
          live[k].At() == old(live[k].At())
      {
        SetsSoFar(cb.action, i);
        Do(cb.action[i]);
      }
      assert cb.action[..|cb.action|] == cb.action;
      curId := 0;
      status := cb.status;
    }

    /** The timers at the front of the index that are due, as ids. */
    method Collect(cur: Time) returns (due: seq<nat>)
      requires Valid()
      ensures due == IdsOf(DueNow(timers, cur))
    {
      hide Valid, IsDue, DueNow, IdsOf;
      due := [];
      var i := 0;
      IdsSoFar(timers);
      while i < |timers| && IsDue(timers[i], cur)
        invariant i <= |timers| && due == IdsOf(timers[..i]) && forall j :: 0 <= j < i ==> IsDue(timers[j], cur)
      {
        due := due + [timers[i].id];
        i := i + 1;
      }
      DueIs(timers, cur, i);
    }

    /** After its function has run, a periodic timer starts anew and the others are gone. */
    method Settle(cb: TimerCb, status: Status, cur: Time)
      requires Valid() && cb in ids && Normal(cur)
      modifies this`timers, this`ids, this`live, cb`start
      ensures Valid() && live == if cb.periodic && status.NoErr? then old(live) else old(live) - {cb.id}
      ensures cb.periodic && status.NoErr? ==> cb.At() == old(cb.At()).(start := cur)
    {
      hide Cmp, ByDeadline, ById, Holds;
      InBoth(cb);
      var id := cb.id;
      Unindex(cb);
      InBoth(cb);
      if cb.periodic && status.NoErr? {
        cb.start := cur;
        Index(cb);
      }
    }

    /** What the functions of the due timers may do: not delete another due timer, which the source would
        wait for forever, and not use up the ids. */
    ghost predicate Bounded(due: seq<TimerCb>)
      reads this`live
    {
      |live| + AllSets(due) < MAX_ID &&
      (forall i :: 0 <= i < |due| ==> ClocksNormal(due[i].action)) &&
      forall i, j :: 0 <= i < |due| && 0 <= j < |due| ==> due[j].id !in Deletes(due[i])
    }

    /** ytimer_serve: the functions of exactly the due timers are called, once each, in the order of the
        index; timers they start wait for the next time. */
    method Serve(cur: Time) returns (fired: seq<nat>)
      requires Valid() && Normal(cur) && Bounded(DueNow(timers, cur))
      modifies this, live.Values`start, live.Values`duration
      ensures Valid() && fired == old(IdsOf(DueNow(timers, cur)))
      // which are the timers whose deadline is not after the clock, the earliest first
      ensures forall k :: k in fired <==> k in old(live) && old(Deadline(live[k].At())) <= Nanos(cur)
      ensures forall i, j :: 0 <= i < j < |fired| ==>
        fired[i] in old(live) && fired[j] in old(live) && old(Earlier(live[fired[i]].At(), live[fired[j]].At()))
      // a due timer is still there exactly if it repeats, and then counts from now unless restarted
      ensures var due := old(DueNow(timers, cur)); forall cb :: cb in due ==>
        (cb in ids <==> Repeats(cb)) && (Repeats(cb) && Leaves(due, cb.id) ==> cb.At() == old(cb.At()).(start := cur))
      // any other timer is as it was unless one of the functions deletes or restarts it
      ensures var due := old(DueNow(timers, cur));
        forall cb :: cb in old(timers) && cb !in due && Spares(due, cb.id) ==>
          cb in ids && (Leaves(due, cb.id) ==> cb.At() == old(cb.At()))
      // and the timers that are there besides those are new ones, no more than the functions start
      ensures forall k :: k in live ==> (k in old(live) && live[k] == old(live)[k]) || fresh(live[k])
      ensures |live| <= |old(live)| + old(AllSets(DueNow(timers, cur)))
    {
      hide Cmp, ByDeadline, ById, Holds, TimerCb.At, IsDue, DueNow, IdsOf, Progress, AllSets, ClocksNormal;
      hide Deletes, Restarts, Spares, Leaves, Repeats;
      var pending := Collect(cur);
      ghost var due, before, at := DueNow(timers, cur), live, Ats();
      FiredAre(due, cur);
      StartProgress(due, cur);
      AllKnown();
      DueKnown(due, cur);
      fired := ServeAll(pending, cur, due, at);
      Finished(before, at, due, cur);
    }

    method ServeAll(ids: seq<nat>, cur: Time, ghost due: seq<TimerCb>, ghost at: map<nat, Key>)
      returns (fired: seq<nat>)
      requires Valid() && Normal(cur) && ids == IdsOf(due) && Progress(live, at, live, Ats(), due, 0, cur)
      requires |live| + AllSets(due) < MAX_ID && forall i :: 0 <= i < |due| ==> ClocksNormal(due[i].action)
      modifies this, live.Values`start, live.Values`duration
      ensures Valid() && fired == ids && Progress(old(live), at, live, Ats(), due, |due|, cur)
      ensures forall k :: k in live ==> (k in old(live) && live[k] == old(live)[k]) || fresh(live[k])
      ensures |live| <= |old(live)| + AllSets(due)
    {
      hide Cmp, ByDeadline, ById, Holds, TimerCb.At, IdsOf, Progress, Stepped, Sets, AllSets, Deletes, ClocksNormal,
        Ats;
      var pending := ids;
      ghost var before := live;
      assert due[0..] == due && due[..0] == [];
      NoIds();
      fired := [];
      ghost var i := 0;
      while pending != []
        invariant Valid() && i <= |due| && pending == IdsOf(due[i..]) && fired == IdsOf(due[..i])
        invariant |live| + AllSets(due[i..]) <= |before| + AllSets(due) < MAX_ID &&
          Progress(before, at, live, Ats(), due, i, cur)
        invariant forall k :: k in live ==> (k in before && live[k] == before[k]) || fresh(live[k])
      {
        NextDue(due, i);
        NextLive(before, at, live, Ats(), due, i, cur);
        InBoth(due[i]);
        var cb := Search(pending[0]);
        ghost var mid, midAt := live, Ats();
        ServeOne(cb, cur, before.Values);
        ProgressStep(before, at, mid, midAt, live, Ats(), due, i, cur);
        fired := fired + [cb.id];
        pending := pending[1..];
        i := i + 1;
      }
      AllServed(due, i);
    }

    /** The due timers in terms of their deadlines. */
    lemma {:induction false} FiredAre(due: seq<TimerCb>, cur: Time)
      requires Valid() && due == DueNow(timers, cur)
      ensures forall k :: k in IdsOf(due) <==> k in live && Deadline(live[k].At()) <= Nanos(cur)
      ensures forall i, j :: 0 <= i < j < |due| ==>
        due[i].id in live && due[j].id in live && Earlier(live[due[i].id].At(), live[due[j].id].At())
    {
      hide Cmp, ById, ByDeadline, IsDue, DueNow, Deadline, Nanos, TimerCb.At, Earlier;
      DueByDeadline(timers, cur);
      forall k | k in IdsOf(due) ensures k in live && Deadline(live[k].At()) <= Nanos(cur) {
        var i :| 0 <= i < |due| && IdsOf(due)[i] == k;
        assert due[i] == timers[i];
      }
      forall k | k in live && Deadline(live[k].At()) <= Nanos(cur) ensures k in IdsOf(due) {
        var i :| 0 <= i < |timers| && timers[i] == live[k];
        assert IdsOf(due)[i] == k;
      }
      forall i, j | 0 <= i < j < |due|
        ensures due[i].id in live && due[j].id in live && Earlier(live[due[i].id].At(), live[due[j].id].At())
      {
        assert due[i] == timers[i] && due[j] == timers[j];
      }
    }

    lemma {:induction false} DueKnown(due: seq<TimerCb>, cur: Time)
      requires due == DueNow(timers, cur)
      ensures forall cb :: cb in due ==> cb in timers
    {
    }

    lemma {:induction false} AllKnown()
      requires Valid()
      ensures forall cb :: cb in timers ==> cb.id in live && live[cb.id] == cb
      ensures forall k :: k in live ==> live[k].id == k
    {
    }

    /** The beginning and the end of serving, in terms of the indexes. */
    lemma {:induction false} StartProgress(due: seq<TimerCb>, cur: Time)
      requires Valid() && due == DueNow(timers, cur) && Bounded(due)
      ensures Progress(live, Ats(), live, Ats(), due, 0, cur)
      ensures due[..0] == [] && due[0..] == due && IdsOf([]) == []
      ensures forall i :: 0 <= i < |due| ==> ClocksNormal(due[i].action)
    {
      hide Cmp, Deletes, Restarts, TimerCb.At, Sets, IsDue, ClocksNormal, ByDeadline, ById, DueNow;
      DistinctIds(timers, live);
      forall i, j | 0 <= i < j < |due| ensures due[i].id != due[j].id {
        assert due[i] == timers[i] && due[j] == timers[j];
      }
    }

    lemma {:induction false} Finished(before: map<nat, TimerCb>, at: map<nat, Key>, due: seq<TimerCb>, cur: Time)
      requires Valid() && Progress(before, at, live, Ats(), due, |due|, cur)
      ensures forall cb :: cb in due ==>
        cb.id in at && (cb in ids <==> Repeats(cb)) &&
          (cb in ids && Leaves(due, cb.id) ==> cb.At() == at[cb.id].(start := cur))
      ensures forall k :: k in before && before[k] !in due && Spares(due, k) ==>
        k in at && before[k] in ids && (Leaves(due, k) ==> before[k].At() == at[k])
    {
      hide Deletes, Restarts, TimerCb.At, ByDeadline, ById;
    }

    /** Calls the function of one due timer. */
    method ServeOne(cb: TimerCb, cur: Time, ghost known: set<TimerCb>)
      requires Valid() && Normal(cur) && cb.id in live && live[cb.id] == cb
      requires ClocksNormal(cb.action) && |live| + Sets(cb.action) < MAX_ID
      modifies this, live.Values`start, live.Values`duration
      ensures Valid() && |live| <= |old(live)| + Sets(cb.action)
      ensures Stepped(old(live), old(Ats()), live, Ats(), cb, cur, known)
      ensures forall k :: k in live ==> (k in old(live) && live[k] == old(live)[k]) || fresh(live[k])
    {
      hide Cmp, ByDeadline, ById, Holds, Valid, Sets, Deletes, Restarts, ClocksNormal, TimerCb.At;
      InBoth(cb);
      var status := Run(cb);
      InBoth(cb);
      AllKnown();
      Fewer(live, cb.id);
      Settle(cb, status, cur);
    }

    ghost function Ats(): map<nat, Key>
      reads this`live, live.Values
    {
      map k | k in live :: live[k].At()
    }

    lemma {:induction false} InBoth(cb: TimerCb)
      requires Valid()
      ensures cb in timers <==> cb in ids
      ensures cb in ids <==> cb.id in live && live[cb.id] == cb
      ensures cb in ids <==> cb in live.Values
      ensures cb in ids ==> 1 <= cb.id <= MAX_ID
    {
    }
  }

  // ---------- what is due ----------

  predicate IsDue(cb: TimerCb, cur: Time)
    reads cb
  {
    Remained(cb.At(), cur) <= 0
  }

  lemma {:induction false} DueByDeadline(s: seq<TimerCb>, cur: Time)
    requires ByDeadline(s)
    ensures forall i :: 0 <= i < |s| ==> (Deadline(s[i].At()) <= Nanos(cur) <==> i < |DueNow(s, cur)|)
    ensures forall i, j :: 0 <= i < j < |s| ==> Earlier(s[i].At(), s[j].At())
  {
    hide Cmp, DueNow, IsDue, Deadline, Nanos;
    DueFirst(s, cur);
    forall i | 0 <= i < |s| ensures IsDue(s[i], cur) <==> Deadline(s[i].At()) <= Nanos(cur) {
      DueIsDeadline(s[i], cur);
    }
    forall i, j | 0 <= i < j < |s| ensures Earlier(s[i].At(), s[j].At()) {
      CmpIsDeadline(s[i].At(), s[j].At());
    }
  }

  lemma {:induction false} DueIsDeadline(cb: TimerCb, cur: Time)
    ensures IsDue(cb, cur) <==> Deadline(cb.At()) <= Nanos(cur)
  {
  }

  /** A timer is due from its deadline on. */
  lemma {:induction false} DueFromDeadline(cb: TimerCb, cur: Time)
    ensures IsDue(cb, cur) <==>
      cb.start.sec * 1_000_000_000 + cb.start.nsec + cb.duration * 1_000_000 <= cur.sec * 1_000_000_000 + cur.nsec
    ensures Deadline(cb.At()) == cb.start.sec * 1_000_000_000 + cb.start.nsec + cb.duration * 1_000_000
  {
  }

  /** The timers at the front of the index that are due. */
  ghost function DueNow(s: seq<TimerCb>, cur: Time): (r: seq<TimerCb>)
    reads s
    ensures r <= s && (forall i :: 0 <= i < |r| ==> IsDue(s[i], cur)) && (|r| < |s| ==> !IsDue(s[|r|], cur))
  {
    if s == [] || !IsDue(s[0], cur) then [] else [s[0]] + DueNow(s[1..], cur)
  }

  lemma {:induction false} DueIs(s: seq<TimerCb>, cur: Time, n: nat)
    requires n <= |s| && (forall i :: 0 <= i < n ==> IsDue(s[i], cur)) && (n < |s| ==> !IsDue(s[n], cur))
    ensures DueNow(s, cur) == s[..n]
  {
    hide IsDue;
    var r := DueNow(s, cur);
    assert r == s[..|r|];
  }

  lemma {:induction false} IdsSoFar(s: seq<TimerCb>)
    ensures IdsOf(s[..0]) == [] && forall i :: 0 <= i < |s| ==> IdsOf(s[..i + 1]) == IdsOf(s[..i]) + [s[i].id]
  {
  }

  /** Those are all that are due. */
  lemma {:induction false} DueFirst(s: seq<TimerCb>, cur: Time)
    requires ByDeadline(s)
    ensures forall i :: 0 <= i < |s| ==> (IsDue(s[i], cur) <==> i < |DueNow(s, cur)|)
  {
    hide Cmp;
    var n := |DueNow(s, cur)|;
    forall i | n < i < |s| ensures !IsDue(s[i], cur) {
      CmpIsDeadline(s[n].At(), s[i].At());
    }
  }

  ghost function IdsOf(s: seq<TimerCb>): (r: seq<nat>)
    ensures |r| == |s| && forall i :: 0 <= i < |r| ==> r[i] == s[i].id
  {
    seq(|s|, i requires 0 <= i < |s| => s[i].id)
  }

  /** The timers that a timer function deletes: its own timer is refused. */
  function Deletes(cb: TimerCb): (r: set<nat>)
    ensures cb.id !in r
  {
    set c | c in cb.action && c.Delete? && c.id != cb.id :: c.id
  }

  function Restarts(action: seq<Command>): set<nat> {
    set c | c in action && c.Restart? :: c.id
  }

  /** How many timers a function, or all functions of some timers, start. */
  function Sets(action: seq<Command>): nat {
    if action == [] then 0 else Sets(action[..|action| - 1]) + if action[|action| - 1].Set? then 1 else 0
  }

  ghost function AllSets(s: seq<TimerCb>): nat {
    if s == [] then 0 else Sets(s[0].action) + AllSets(s[1..])
  }

  predicate ClocksNormal(action: seq<Command>) {
    forall c :: c in action ==> (c.Set? ==> Normal(c.now)) && (c.Restart? ==> Normal(c.now))
  }

  // ---------- how serving goes on ----------

  ghost predicate Repeats(cb: TimerCb) {
    cb.periodic && cb.status.NoErr?
  }

  ghost predicate Spares(due: seq<TimerCb>, id: nat) {
    forall i :: 0 <= i < |due| ==> id !in Deletes(due[i])
  }

  ghost predicate Leaves(due: seq<TimerCb>, id: nat) {
    forall i :: 0 <= i < |due| ==> id !in Restarts(due[i].action)
  }

  /** The due timers are distinct and none of their functions deletes one of them. */
  ghost predicate Proper(before: map<nat, TimerCb>, due: seq<TimerCb>) {
    (forall j :: 0 <= j < |due| ==> due[j].id in before && before[due[j].id] == due[j] && Spares(due, due[j].id)) &&
    forall j, k :: 0 <= j < k < |due| ==> due[j].id != due[k].id
  }

  /** The due timers after the first `i` have been served; `at` and `now` are the keys before and after. */
  ghost predicate DueSo(at: map<nat, Key>, live: map<nat, TimerCb>, now: map<nat, Key>, due: seq<TimerCb>, i: nat,
                        cur: Time) {
    forall j :: 0 <= j < |due| ==>
      var k := due[j].id;
      (k in live && live[k] == due[j] <==> j >= i || Repeats(due[j])) &&
      (k in at && k in now && (j >= i || Repeats(due[j])) && Leaves(due, k) ==>
         now[k] == if j >= i then at[k] else at[k].(start := cur))
  }

  /** The other timers. */
  ghost predicate OthersSo(before: map<nat, TimerCb>, at: map<nat, Key>, live: map<nat, TimerCb>, now: map<nat, Key>,
                           due: seq<TimerCb>) {
    (forall k :: k in live ==> (k in before && live[k] == before[k]) || live[k] !in before.Values) &&
    forall k :: k in before && before[k] !in due && Spares(due, k) ==>
      k in live && live[k] == before[k] && (Leaves(due, k) && k in now && k in at ==> now[k] == at[k])
  }

  ghost predicate Progress(before: map<nat, TimerCb>, at: map<nat, Key>, live: map<nat, TimerCb>, now: map<nat, Key>,
                           due: seq<TimerCb>, i: nat, cur: Time)
  {
    i <= |due| && at.Keys == before.Keys && now.Keys == live.Keys &&
    Proper(before, due) && DueSo(at, live, now, due, i, cur) && OthersSo(before, at, live, now, due)
  }

  /** What serving one timer does. */
  ghost predicate Stepped(was: map<nat, TimerCb>, at: map<nat, Key>, live: map<nat, TimerCb>, now: map<nat, Key>,
                          cb: TimerCb, cur: Time, known: set<TimerCb>)
  {
    now.Keys == live.Keys && at.Keys == was.Keys && cb.id in was &&
    (cb.id in live <==> Repeats(cb)) &&
    (Repeats(cb) ==> live[cb.id] == cb && (cb.id !in Restarts(cb.action) ==> now[cb.id] == at[cb.id].(start := cur))) &&
    (forall k :: k in was && k != cb.id && k !in Deletes(cb) ==>
       k in live && live[k] == was[k] && (k !in Restarts(cb.action) ==> now[k] == at[k])) &&
    forall k :: k in live ==> (k in was && live[k] == was[k]) || live[k] !in known
  }

  lemma {:induction false} ProgressStep(before: map<nat, TimerCb>, at: map<nat, Key>, was: map<nat, TimerCb>,
                                        mid: map<nat, Key>, live: map<nat, TimerCb>, now: map<nat, Key>,
                                        due: seq<TimerCb>, i: nat, cur: Time)
    requires i < |due| && Progress(before, at, was, mid, due, i, cur) &&
      Stepped(was, mid, live, now, due[i], cur, before.Values)
    ensures Progress(before, at, live, now, due, i + 1, cur)
  {
    hide Deletes, Restarts, Proper, DueSo, OthersSo, Stepped;
    DueStep(before, at, was, mid, live, now, due, i, cur);
    OthersStep(before, at, was, mid, live, now, due, i, cur);
    assert now.Keys == live.Keys by {
      SteppedKeys(was, mid, live, now, due[i], cur, before.Values);
    }
  }

  lemma {:induction false} SteppedKeys(was: map<nat, TimerCb>, at: map<nat, Key>, live: map<nat, TimerCb>,
                                       now: map<nat, Key>, cb: TimerCb, cur: Time, known: set<TimerCb>)
    requires Stepped(was, at, live, now, cb, cur, known)
    ensures now.Keys == live.Keys
  {
  }

  lemma {:induction false} DueStep(before: map<nat, TimerCb>, at: map<nat, Key>, was: map<nat, TimerCb>,
                                   mid: map<nat, Key>, live: map<nat, TimerCb>, now: map<nat, Key>, due: seq<TimerCb>,
                                   i: nat, cur: Time)
    requires i < |due| && Progress(before, at, was, mid, due, i, cur) &&
      Stepped(was, mid, live, now, due[i], cur, before.Values)
    ensures DueSo(at, live, now, due, i + 1, cur)
  {
    hide Deletes, Restarts, OthersSo;
    forall j | 0 <= j < |due| ensures
      var k := due[j].id;
      (k in live && live[k] == due[j] <==> j >= i + 1 || Repeats(due[j])) &&
      (k in at && k in now && (j >= i + 1 || Repeats(due[j])) && Leaves(due, k) ==>
         now[k] == if j >= i + 1 then at[k] else at[k].(start := cur))
    {
      var k := due[j].id;
      assert Spares(due, k) && k !in Deletes(due[i]);
      assert before[k] == due[j] && due[j] in before.Values;
      assert j != i ==> k != due[i].id;
    }
  }

  lemma {:induction false} OthersStep(before: map<nat, TimerCb>, at: map<nat, Key>, was: map<nat, TimerCb>,
                                      mid: map<nat, Key>, live: map<nat, TimerCb>, now: map<nat, Key>,
                                      due: seq<TimerCb>, i: nat, cur: Time)
    requires i < |due| && Progress(before, at, was, mid, due, i, cur) &&
      Stepped(was, mid, live, now, due[i], cur, before.Values)
    ensures OthersSo(before, at, live, now, due)
  {
    hide Deletes, Restarts, DueSo;
    assert due[i].id in before && before[due[i].id] == due[i];
  }

  lemma {:induction false} NextLive(before: map<nat, TimerCb>, at: map<nat, Key>, live: map<nat, TimerCb>,
                                    now: map<nat, Key>, due: seq<TimerCb>, i: nat, cur: Time)
    requires i < |due| && Progress(before, at, live, now, due, i, cur)
    ensures due[i].id in live && live[due[i].id] == due[i]
  {
    hide Deletes;
  }

  lemma {:induction false} DistinctIds(s: seq<TimerCb>, live: map<nat, TimerCb>)
    requires ByDeadline(s) && Holds(s, live)
    ensures forall i, j :: 0 <= i < j < |s| ==> s[i].id != s[j].id
  {
    hide Cmp;
    forall i, j | 0 <= i < j < |s| ensures s[i] != s[j] {
      CmpIsDeadline(s[i].At(), s[i].At());
    }
  }

  lemma {:induction false} NoIds()
    ensures IdsOf([]) == []
  {
  }

  lemma {:induction false} AllServed(due: seq<TimerCb>, i: nat)
    requires i <= |due| && IdsOf(due[i..]) == []
    ensures i == |due| && due[..i] == due
  {
  }

  lemma {:induction false} NextDue(due: seq<TimerCb>, i: nat)
    requires i <= |due| && IdsOf(due[i..]) != []
    ensures i < |due| && IdsOf(due[i..])[0] == due[i].id && IdsOf(due[i..])[1..] == IdsOf(due[i + 1..])
    ensures IdsOf(due[..i + 1]) == IdsOf(due[..i]) + [due[i].id]
    ensures AllSets(due[i..]) == Sets(due[i].action) + AllSets(due[i + 1..])
  {
    assert due[i..][1..] == due[i + 1..] && due[i..][0] == due[i];
  }

  lemma {:induction false} SetsSoFar(action: seq<Command>, i: nat)
    requires i < |action|
    ensures Sets(action[..i + 1]) == Sets(action[..i]) + if action[i].Set? then 1 else 0
    ensures Sets(action[..i + 1]) <= Sets(action)
    decreases |action| - i
  {
    assert action[..i + 1][..i] == action[..i];
    if i + 1 < |action| {
      SetsSoFar(action, i + 1);
    } else {
      assert action[..i + 1] == action;
    }
  }

  lemma {:induction false} Fewer(live: map<nat, TimerCb>, id: nat)
    ensures |live - {id}| <= |live|
  {
    Subset((live - {id}).Keys, live.Keys);
  }

  lemma {:induction false} RemovedByDeadline(s: seq<TimerCb>, live: map<nat, TimerCb>, cb: TimerCb, p: nat)
    requires ByDeadline(s) && Holds(s, live) && cb in s && p <= |s|
    requires (forall i :: 0 <= i < p ==> Cmp(s[i].At(), cb.At()) < 0) && (p < |s| ==> Cmp(s[p].At(), cb.At()) >= 0)
    ensures p < |s| && ByDeadline(Without(s, p)) && Holds(Without(s, p), live - {cb.id}) && cb !in Without(s, p)
  {
    hide Cmp, Holds;
    Placed(s, cb, p);
    HoldsLess(s, live, p, cb);
  }

  lemma {:induction false} RemovedById(s: seq<TimerCb>, live: map<nat, TimerCb>, cb: TimerCb, q: nat)
    requires ById(s) && Holds(s, live) && cb in s && q <= |s|
    requires (forall i :: 0 <= i < q ==> IdCmp(s[i].id, cb.id) < 0) && (q < |s| ==> IdCmp(s[q].id, cb.id) >= 0)
    ensures q < |s| && ById(Without(s, q)) && Holds(Without(s, q), live - {cb.id}) && cb !in Without(s, q)
  {
    hide Holds;
    PlacedById(s, cb, q);
    HoldsLess(s, live, q, cb);
  }

  lemma {:induction false} InsertedByDeadline(s: seq<TimerCb>, p: nat, cb: TimerCb)
    requires ByDeadline(s) && p <= |s| && Normal(cb.start) && forall i :: 0 <= i < |s| ==> s[i].id != cb.id
    requires (forall i :: 0 <= i < p ==> Cmp(s[i].At(), cb.At()) < 0) && (p < |s| ==> Cmp(s[p].At(), cb.At()) >= 0)
    ensures ByDeadline(s[..p] + [cb] + s[p..])
  {
    hide Cmp;
    var r := s[..p] + [cb] + s[p..];
    forall i | p <= i < |s| ensures Cmp(cb.At(), s[i].At()) < 0 {
      CmpIsDeadline(s[p].At(), cb.At());
      CmpTransitive(cb.At(), s[p].At(), s[i].At());
    }
    forall i, j | 0 <= i < j < |r| ensures Cmp(r[i].At(), r[j].At()) < 0 {
      assert r[i] == if i < p then s[i] else if i == p then cb else s[i - 1];
      assert r[j] == if j < p then s[j] else if j == p then cb else s[j - 1];
    }
  }

  lemma {:induction false} InsertedById(s: seq<TimerCb>, q: nat, cb: TimerCb)
    requires ById(s) && q <= |s| && forall i :: 0 <= i < |s| ==> s[i].id != cb.id
    requires (forall i :: 0 <= i < q ==> IdCmp(s[i].id, cb.id) < 0) && (q < |s| ==> IdCmp(s[q].id, cb.id) >= 0)
    ensures ById(s[..q] + [cb] + s[q..])
  {
    var r := s[..q] + [cb] + s[q..];
    forall i, j | 0 <= i < j < |r| ensures IdCmp(r[i].id, r[j].id) < 0 {
      assert r[i] == if i < q then s[i] else if i == q then cb else s[i - 1];
      assert r[j] == if j < q then s[j] else if j == q then cb else s[j - 1];
    }
  }
}
