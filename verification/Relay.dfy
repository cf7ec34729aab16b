/** The wait events of ydb/ydb.c and the relaying of syncs: who is asked, and when a sync is done. */
module Relay {
  import opened Common

  datatype Eid = Eid(fd: int, num: nat)
  const NONE := Eid(-1, 0)

  /** waitevent: its parent and how many children it waits for. */
  datatype Event = Event(pid: Eid, cevents: int)

  type Table = map<Eid, Event>

  datatype Conn = Conn(fd: int, sendseq: nat, closed: bool, server: bool, unreadable: bool,
                       client: bool, syncs: bool, accepted: bool, writable: bool)

  datatype Kind = Continued | Response | Failed

  /** What is handed to func_send. */
  datatype Msg =
    | Request(fd: int, num: nat)
    | Respond(to: Eid, done: bool, ok: bool)

  ghost function Children(t: Table, p: Eid): set<Eid> {
    set e | e in t && t[e].pid == p
  }

  /** The number of final responses to a request. */
  ghost function Finals(sent: seq<Msg>, id: Eid): nat {
    if sent == [] then 0
    else
      var last := sent[|sent| - 1];
      Finals(sent[..|sent| - 1], id) + if last.Respond? && last.to == id && last.done then 1 else 0
  }

  lemma {:induction false} FinalsMore(sent: seq<Msg>, m: Msg, id: Eid)
    ensures Finals(sent + [m], id) == Finals(sent, id) + if m.Respond? && m.to == id && m.done then 1 else 0
  {
    assert (sent + [m])[..|sent|] == sent;
  }

  // ---------- the table ----------

  /** No event is its own parent, and a parent has no parent itself. */
  ghost predicate Shaped(t: Table, used: set<Eid>) {
    t.Keys <= used && NONE !in used &&
    (forall e :: e in used ==> e.fd >= 0) &&
    (forall e :: e in t ==> t[e].pid != e && (t[e].pid == NONE || t[e].pid in used)) &&
    (forall e :: e in t && t[e].pid in t ==> t[t[e].pid].pid == NONE)
  }

  /** Every event counts its live children and those that expired under it. */
  ghost predicate Counted(t: Table, lost: map<Eid, nat>) {
    forall p :: p in t ==> p in lost && t[p].cevents == |Children(t, p)| + lost[p]
  }

  /** waitevent_set_event of a new id */
  function Added(t: Table, id: Eid, parent: Eid): Table {
    if parent.fd >= 0 && parent in t then
      t[parent := t[parent].(cevents := t[parent].cevents + 1)][id := Event(parent, 0)]
    else
      t[id := Event(NONE, 0)]
  }

  /** waitevent_reset: the table afterwards, and the event that is thereby over. */
  function Reset(t: Table, id: Eid, expired: bool): (Table, Eid) {
    if id !in t then (t, NONE)
    else
      var p, u := t[id].pid, t - {id};
      if expired || p.fd < 0 then (u, id)
      else if p !in u then (u, NONE)
      else if u[p].cevents - 1 <= 0 then (u - {p}, p)
      else (u[p := u[p].(cevents := u[p].cevents - 1)], id)
  }

  /** What the history becomes when an event expires: its parent, if it is still there, has lost it. */
  ghost function Losing(t: Table, lost: map<Eid, nat>, id: Eid, expired: bool): map<Eid, nat> {
    if expired && id in t && t[id].pid in t && t[id].pid in lost then lost[t[id].pid := lost[t[id].pid] + 1] else lost
  }

  lemma {:induction false} AddedShaped(t: Table, used: set<Eid>, id: Eid, parent: Eid)
    requires Shaped(t, used) && id !in used && id.fd >= 0 && (parent in t ==> t[parent].pid == NONE)
    ensures Shaped(Added(t, id, parent), used + {id})
  {
  }

  lemma {:induction false} AddedChildren(t: Table, used: set<Eid>, id: Eid, parent: Eid, p: Eid)
    requires Shaped(t, used) && id !in used
    ensures Children(Added(t, id, parent), p) ==
      if p == parent && parent.fd >= 0 && parent in t then Children(t, p) + {id}
      else if p == NONE && !(parent.fd >= 0 && parent in t) then Children(t, p) + {id}
      else Children(t, p)
  {
    var u := Added(t, id, parent);
    forall e ensures e in Children(u, p) <==> e in Children(t, p) || (e == id && u[id].pid == p) {
    }
  }

  lemma {:induction false} AddedCounted(t: Table, lost: map<Eid, nat>, used: set<Eid>, id: Eid, parent: Eid)
    requires Shaped(t, used) && Counted(t, lost) && id !in used && id.fd >= 0
    ensures Counted(Added(t, id, parent), lost[id := 0])
  {
    hide Children;
    var u := Added(t, id, parent);
    forall p | p in u ensures u[p].cevents == |Children(u, p)| + lost[id := 0][p] {
      AddedChildren(t, used, id, parent, p);
      NoChildren(t, used, id);
      Unborn(t, used, id, p);
    }
  }

  lemma {:induction false} Used(t: Table, used: set<Eid>)
    requires Shaped(t, used)
    ensures forall e :: e in t ==> e in used && e.fd >= 0
  {
  }

  lemma {:induction false} NoChildren(t: Table, used: set<Eid>, id: Eid)
    requires Shaped(t, used) && id !in used
    ensures id != NONE ==> Children(t, id) == {}
  {
  }

  lemma {:induction false} Unborn(t: Table, used: set<Eid>, id: Eid, p: Eid)
    requires Shaped(t, used) && id !in used
    ensures id !in Children(t, p)
  {
  }

  lemma {:induction false} ResetShaped(t: Table, used: set<Eid>, id: Eid, expired: bool)
    requires Shaped(t, used)
    ensures Shaped(Reset(t, id, expired).0, used)
  {
  }

  lemma {:induction false} ResetChildren(t: Table, used: set<Eid>, id: Eid, expired: bool, q: Eid)
    requires Shaped(t, used) && q in Reset(t, id, expired).0
    ensures Children(Reset(t, id, expired).0, q) == Children(t, q) - {id}
  {
    var u := Reset(t, id, expired).0;
    forall e ensures e in Children(u, q) <==> e in Children(t, q) && e != id {
    }
  }

  lemma {:induction false} ResetCounted(t: Table, lost: map<Eid, nat>, used: set<Eid>, id: Eid, expired: bool)
    requires Shaped(t, used) && Counted(t, lost)
    ensures Counted(Reset(t, id, expired).0, Losing(t, lost, id, expired))
  {
    hide Children, Reset, Shaped, Counted, Losing;
    var u, l := Reset(t, id, expired).0, Losing(t, lost, id, expired);
    forall q | q in u ensures q in l && u[q].cevents == |Children(u, q)| + l[q] {
      ResetCountedAt(t, lost, used, id, expired, q);
    }
    AllCounted(u, l);
  }

  lemma {:induction false} AllCounted(t: Table, lost: map<Eid, nat>)
    requires forall q :: q in t ==> q in lost && t[q].cevents == |Children(t, q)| + lost[q]
    ensures Counted(t, lost)
  {
    hide Children;
  }

  lemma {:induction false} ResetCountedAt(t: Table, lost: map<Eid, nat>, used: set<Eid>, id: Eid, expired: bool, q: Eid)
    requires Shaped(t, used) && Counted(t, lost) && q in Reset(t, id, expired).0
    ensures var u, l := Reset(t, id, expired).0, Losing(t, lost, id, expired);
      q in l && u[q].cevents == |Children(u, q)| + l[q]
  {
    ResetChildren(t, used, id, expired, q);
    hide Children, Shaped;
    IsChild(t, id, q);
    ResetEntry(t, used, id, expired, q);
  }

  /** What is left of the table has its entries as they were, apart from the parent's count. */
  lemma {:induction false} ResetEntry(t: Table, used: set<Eid>, id: Eid, expired: bool, q: Eid)
    requires Shaped(t, used) && q in Reset(t, id, expired).0
    ensures q in t && Reset(t, id, expired).0[q].pid == t[q].pid && (q == id ==> id !in t)
    ensures Reset(t, id, expired).0[q].cevents ==
      t[q].cevents - if id in t && t[id].pid == q && !expired then 1 else 0
  {
  }

  lemma {:induction false} IsChild(t: Table, e: Eid, p: Eid)
    ensures e in Children(t, p) <==> e in t && t[e].pid == p
  {
  }

  /** A reply completes the parent exactly if it was the last child and none has expired. */
  lemma {:induction false} CompletedIff(t: Table, lost: map<Eid, nat>, used: set<Eid>, id: Eid)
    requires Shaped(t, used) && Counted(t, lost) && id in t && t[id].pid in t
    ensures var p := t[id].pid;
      (Reset(t, id, false).1 == p <==> Children(t, p) == {id} && lost[p] == 0)
      && (p !in Reset(t, id, false).0 <==> Reset(t, id, false).1 == p)
  {
    var p := t[id].pid;
    assert id in Children(t, p);
    if |Children(t, p)| == 1 {
      assert |Children(t, p) - {id}| == 0;
    }
  }

  // ---------- who is asked ----------

  /** Whether yconn_sync asks a connection; `req` is the descriptor the sync came from. */
  predicate Asked(c: Conn, req: int, forced: bool) {
    c.fd != req && !c.closed && !c.server && !c.unreadable &&
    (if c.client then forced || c.syncs else c.accepted ==> c.writable)
  }

  /** The places of the connections to ask among the first `n`. */
  function Targets(conns: seq<Conn>, req: int, forced: bool, n: nat): (r: seq<nat>)
    requires n <= |conns|
    ensures forall k :: 0 <= k < |r| ==> r[k] < n && Asked(conns[r[k]], req, forced)
  {
    if n == 0 then []
    else Targets(conns, req, forced, n - 1) + if Asked(conns[n - 1], req, forced) then [n - 1] else []
  }

  ghost predicate Rising(r: seq<nat>) {
    forall j, k :: 0 <= j < k < |r| ==> r[j] < r[k]
  }

  /** All connections to ask are asked, each once. */
  lemma {:induction false} TargetsAll(conns: seq<Conn>, req: int, forced: bool, n: nat)
    requires n <= |conns|
    ensures forall i :: 0 <= i < n && Asked(conns[i], req, forced) ==> i in Targets(conns, req, forced, n)
    ensures Rising(Targets(conns, req, forced, n))
  {
    hide Asked, Rising;
    if n == 0 {
      NoneRising();
    } else {
      TargetsAll(conns, req, forced, n - 1);
      var r := Targets(conns, req, forced, n - 1);
      OneMore(r, n - 1);
      assert r + [] == r;
    }
  }

  /** Whom a sync asks: never the connection that it came from, nor one that is closed, a server, or not
      to be read; of the others a client if it takes part in syncs or all are forced to, an accepted one if
      it may write, and any other. */
  lemma {:induction false} TargetsExactly(conns: seq<Conn>, req: int, forced: bool, i: nat)
    requires i < |conns|
    ensures var c, targets := conns[i], Targets(conns, req, forced, |conns|);
      (c.fd == req || c.closed || c.server || c.unreadable ==> i !in targets)
      && (c.fd != req && !c.closed && !c.server && !c.unreadable ==>
        (c.client ==> (i in targets <==> forced || c.syncs))
        && (!c.client && c.accepted ==> (i in targets <==> c.writable))
        && (!c.client && !c.accepted ==> i in targets))
  {
    TargetsAll(conns, req, forced, |conns|);
    var targets := Targets(conns, req, forced, |conns|);
    if i in targets {
      var k :| 0 <= k < |targets| && targets[k] == i;
      assert Asked(conns[targets[k]], req, forced);
    }
  }

  /** The connection can be sent to, and its next request is this one. */
  predicate Reaches(c: Conn, failing: set<int>, id: Eid) {
    c.fd !in failing && id == Eid(c.fd, (c.sendseq + 1) % 0x1_0000_0000)
  }

  /** The requests of a sync: one to each of those that can be sent to, numbered one on from the last. */
  lemma {:induction false} AskedExactly(conns: seq<Conn>, req: int, forced: bool, failing: set<int>, id: Eid)
    ensures var targets := Targets(conns, req, forced, |conns|);
      id in AskedIds(conns, targets, failing, |targets|) <==>
        exists i :: 0 <= i < |conns| && i in targets && Reaches(conns[i], failing, id)
  {
    hide Asked;
    var targets := Targets(conns, req, forced, |conns|);
    AskedUpTo(conns, targets, failing, |targets|, id);
    if i :| 0 <= i < |conns| && i in targets && Reaches(conns[i], failing, id) {
      var k :| 0 <= k < |targets| && targets[k] == i;
      assert Reaches(conns[targets[k]], failing, id);
    }
    if k :| 0 <= k < |targets| && Reaches(conns[targets[k]], failing, id) {
      assert targets[k] in targets;
    }
  }

  lemma {:induction false} AskedUpTo(conns: seq<Conn>, targets: seq<nat>, failing: set<int>, n: nat, id: Eid)
    requires n <= |targets| && forall k :: 0 <= k < |targets| ==> targets[k] < |conns|
    ensures id in AskedIds(conns, targets, failing, n) <==>
      exists k :: 0 <= k < n && Reaches(conns[targets[k]], failing, id)
  {
    if n > 0 {
      AskedUpTo(conns, targets, failing, n - 1, id);
    }
  }

  lemma {:induction false} NoneRising()
    ensures Rising([])
  {
  }

  lemma {:induction false} OneMore(r: seq<nat>, n: nat)
    requires Rising(r) && forall k :: 0 <= k < |r| ==> r[k] < n
    ensures Rising(r + [n]) && n in r + [n] && forall x :: x in r ==> x in r + [n]
  {
    assert (r + [n])[|r|] == n;
  }

  const WRAP: nat := 0x1_0000_0000

  /** The id of the next request on a connection. */
  function NextId(c: Conn): Eid {
    Eid(c.fd, (c.sendseq + 1) % WRAP)
  }

  ghost predicate Connected(conns: seq<Conn>) {
    (forall i :: 0 <= i < |conns| ==> conns[i].fd > 0) &&
    forall i, j :: 0 <= i < j < |conns| ==> conns[i].fd != conns[j].fd
  }

  /** A sync request is answered for good at most once, and not while its event is live; only the
      event of a sync has children from other connections. */
  ghost predicate Answered(t: Table, sent: seq<Msg>, asked: set<Eid>) {
    (forall id :: Finals(sent, id) <= if id in asked && id !in t then 1 else 0) &&
    forall e :: e in t && t[e].pid.fd > 0 ==> t[e].pid in asked
  }

  lemma {:induction false} AddedAnswered(t: Table, sent: seq<Msg>, asked: set<Eid>, id: Eid, parent: Eid)
    requires Answered(t, sent, asked) && id !in t && Finals(sent, id) == 0
    requires parent in t && parent.fd > 0 ==> parent in asked
    ensures Answered(Added(t, id, parent), sent, asked)
  {
  }

  lemma {:induction false} ResetAnswered(t: Table, sent: seq<Msg>, asked: set<Eid>, id: Eid, expired: bool)
    requires Answered(t, sent, asked)
    ensures Answered(Reset(t, id, expired).0, sent, asked)
  {
    hide Finals;
  }

  /** There is a connection of that descriptor that has not been taken down. */
  predicate IsOpen(conns: seq<Conn>, fd: int) {
    exists c :: c in conns && c.fd == fd && !c.closed
  }

  class Datablock {
    var events: Table
    var conns: seq<Conn>
    var rootseq: nat
    var sent: seq<Msg>
    /** All ids that ever were events, the children that expired under each, and the sync requests
        received. */
    ghost var used: set<Eid>
    ghost var lost: map<Eid, nat>
    ghost var asked: set<Eid>

    ghost predicate Valid()
      reads this
    {
      Shaped(events, used) && Counted(events, lost) && Connected(conns) && Answered(events, sent, asked)
    }

    constructor (conns: seq<Conn>)
      requires Connected(conns)
      ensures Valid() && events == map[] && sent == [] && used == {} && this.conns == conns && rootseq == 0
    {
      this.conns := conns;
      events, sent, rootseq, used, lost, asked := map[], [], 0, {}, map[], {};
    }

    /** waitevent_set_event.  With an id already in use the source frees an event that is still in the
        table. */
    method SetEvent(id: Eid, parent: Eid)
      requires Valid() && id !in used && id.fd >= 0 && id != parent && Finals(sent, id) == 0
      requires parent in events ==> events[parent].pid == NONE && (parent.fd > 0 ==> parent in asked)
      modifies this`events, this`used, this`lost
      ensures Valid() && events == Added(old(events), id, parent) && used == old(used) + {id} &&
        lost == old(lost)[id := 0]
    {
      hide Shaped, Counted, Answered, Connected;
      Used(events, used);
      AddedShaped(events, used, id, parent);
      AddedCounted(events, lost, used, id, parent);
      AddedAnswered(events, sent, asked, id, parent);
      ghost var t := events;
      events := events[id := Event(NONE, 0)];
      if parent.fd >= 0 && parent in events {
        events := events[id := Event(parent, 0)];
        events := events[parent := events[parent].(cevents := events[parent].cevents + 1)];
        assert events == t[parent := t[parent].(cevents := t[parent].cevents + 1)][id := Event(parent, 0)];
      }
      used := used + {id};
      lost := lost[id := 0];
    }

    /** waitevent_reset */
    method ResetEvent(id: Eid, expired: bool) returns (over: Eid)
      requires Valid()
      modifies this`events, this`lost
      ensures Valid() && (events, over) == Reset(old(events), id, expired) &&
        lost == Losing(old(events), old(lost), id, expired)
    {
      hide Shaped, Counted, Answered, Connected;
      ResetShaped(events, used, id, expired);
      ResetCounted(events, lost, used, id, expired);
      ResetAnswered(events, sent, asked, id, expired);
      lost := Losing(events, lost, id, expired);
      if id !in events {
        return NONE;
      }
      var p := events[id].pid;
      events := events - {id};
      if !expired && p.fd >= 0 {
        if p !in events {
          return NONE;
        }
        var left := events[p].cevents - 1;
        if left <= 0 {
          events := events - {p};
          return p;
        }
        events := events[p := events[p].(cevents := left)];
      }
      return id;
    }

    /** waitevent_get_relay: the request that an event waits on behalf of. */
    function GetRelay(id: Eid): Eid
      reads this`events
    {
      if id.fd <= 0 || id !in events || events[id].pid.fd <= 0 then NONE else events[id].pid
    }

    predicate HasConn(fd: int)
      reads this`conns
      ensures HasConn(fd) <==> IsOpen(conns, fd)
    {
      exists i :: 0 <= i < |conns| && conns[i].fd == fd && !conns[i].closed
    }

    // ---------- what a connection brings ----------

    /** A sync request: passed on, and answered for good at once if there is nobody to ask. */
    method OnSync(fd: int, num: nat, failing: set<int>, ok: bool)
      requires Valid() && fd > 0
      requires var id := Eid(fd, num); id !in used && id !in asked
      requires forall k :: k in Targets(conns, fd, false, |conns|) ==>
        NextId(conns[k]) !in used && NextId(conns[k]) !in asked
      modifies this
      ensures Valid() && asked == old(asked) + {Eid(fd, num)}
      ensures var id, targets := Eid(fd, num), Targets(old(conns), fd, false, |old(conns)|);
        Finals(sent, id) == (if targets == [] then 1 else 0) && (id in events <==> targets != [])
        && (id in events ==>
          Children(events, id) == AskedIds(old(conns), targets, failing, |targets|) && id in lost && lost[id] == 0
          && events[id].pid == NONE)
      ensures var targets := Targets(old(conns), fd, false, |old(conns)|);
        sent == old(sent) + Requests(old(conns), targets, |targets|) + [Respond(Eid(fd, num), targets == [], ok)]
      ensures HasConn(fd) <==> old(HasConn(fd))
    {
      hide Shaped, Counted, Connected, Finals, Children, AskedIds, Requests;
      var id := Eid(fd, num);
      NoRequests(conns, Targets(conns, fd, false, |conns|), sent);
      NotAsked(events, sent, asked, id);
      Used(events, used);
      asked := asked + {id};
      var over := Sync(Some(id), false, failing);
      ResponseAnswered(events, sent, asked, id, over == NONE, ok);
      sent := sent + [Respond(id, over == NONE, ok)];
    }

    /** A reply: an answer that is not continued completes its event, and each is passed on to the
        request it was made for, for good if that is thereby complete. */
    method OnReply(id: Eid, kind: Kind, ok: bool) returns (over: Eid)
      requires Valid()
      modifies this`events, this`lost, this`sent
      ensures Valid() && lost == old(lost)
      ensures (events, over) == if kind.Continued? then (old(events), NONE) else Reset(old(events), id, false)
      ensures var p := old(GetRelay(id));
        sent == old(sent) + if p != NONE && HasConn(p.fd) then [Respond(p, over == p, ok && !kind.Failed?)] else []
      // the request is answered for good exactly if no other child is live and none has expired
      ensures var p := old(GetRelay(id));
        p in old(events) && !kind.Continued? ==> (over == p <==> old(Children(events, p)) == {id} && old(lost)[p] == 0)
    {
      hide Shaped, Counted, Connected, Answered, Finals, Children, Reset;
      var p := GetRelay(id);
      over := NONE;
      RelayAsked(events, sent, used, asked, id);
      Used(events, used);
      if p in events {
        CompletedIff(events, lost, used, id);
      }
      NotAnswered(events, sent, asked, p);
      if !kind.Continued? {
        over := ResetEvent(id, false);
      }
      if p != NONE && HasConn(p.fd) {
        ResponseAnswered(events, sent, asked, p, over == p, ok && !kind.Failed?);
        sent := sent + [Respond(p, over == p, ok && !kind.Failed?)];
      }
    }

    /** waitevent_expire: the parent goes on counting the child, so no reply can complete it any more. */
    method OnExpire(id: Eid)
      requires Valid() && id in events
      modifies this`events, this`lost
      ensures Valid() && events == old(events) - {id}
      ensures lost == Losing(old(events), old(lost), id, true)
    {
      hide Shaped, Counted, Connected, Answered;
      var over := ResetEvent(id, true);
    }

    /** yconn_request: a connection that cannot be sent to is closed, else the answer is waited for. */
    method Ask(i: nat, parent: Eid, delivered: bool) returns (id: Eid)
      requires Valid() && i < |conns|
      requires var id := NextId(conns[i]);
        id !in used && id !in asked && id != parent
        && (parent in events ==> events[parent].pid == NONE && (parent.fd > 0 ==> parent in asked))
      modifies this`events, this`used, this`lost, this`conns, this`sent
      ensures Valid() && id == if delivered then NextId(old(conns)[i]) else NONE
      ensures events == if delivered then Added(old(events), id, parent) else old(events)
      ensures used == if delivered then old(used) + {id} else old(used)
      ensures conns == old(conns)[i :=
        old(conns)[i].(sendseq := (old(conns)[i].sendseq + 1) % WRAP, closed := old(conns)[i].closed || !delivered)]
      ensures sent == old(sent) + [Request(conns[i].fd, conns[i].sendseq)] &&
        forall to :: Finals(sent, to) == Finals(old(sent), to)
      ensures lost == if delivered then old(lost)[id := 0] else old(lost)
    {
      hide Shaped, Counted, Answered, Added, Finals;
      var c := conns[i].(sendseq := (conns[i].sendseq + 1) % WRAP);
      id := Eid(c.fd, c.sendseq);
      NotAsked(events, sent, asked, id);
      RequestAnswered(events, sent, asked, c.fd, c.sendseq);
      sent := sent + [Request(c.fd, c.sendseq)];
      if !delivered {
        c := c.(closed := true);
      }
      StillConnected(conns, i, c);
      conns := conns[i := c];
      if !delivered {
        return NONE;
      }
      SetEvent(id, parent);
    }

    /** The event id that the next local sync gets. */
    function RootId(): Eid
      reads this`rootseq
    {
      Eid(0, (rootseq + 1) % WRAP % 100000)
    }

    /** yconn_sync: asks the other connections, on behalf of a request or of this side. */
    method Sync(req: Option<Eid>, forced: bool, failing: set<int>) returns (id: Eid)
      requires Valid()
      requires req.Some? ==>
        req.value.fd > 0 && req.value !in used && req.value in asked && Finals(sent, req.value) == 0
      requires req.None? ==> RootId() !in used && RootId() !in asked
      requires forall k :: k in Targets(conns, From(req), forced, |conns|) ==>
        NextId(conns[k]) !in used && NextId(conns[k]) !in asked
      modifies this
      ensures Valid() && asked == old(asked)
      ensures var targets := Targets(old(conns), From(req), forced, |old(conns)|);
        if targets == [] then id == NONE && events == old(events) && sent == old(sent) && used == old(used)
        else
          id == (if req.Some? then req.value else Eid(0, (old(rootseq) + 1) % 0x1_0000_0000 % 100000))
          && id in events && events[id].pid == NONE && sent == old(sent) + Requests(old(conns), targets, |targets|)
          && Children(events, id) == AskedIds(old(conns), targets, failing, |targets|) && id in lost && lost[id] == 0
          && forall e :: e in old(events) ==> e in events && events[e] == old(events)[e]
      ensures forall to :: Finals(sent, to) == Finals(old(sent), to)
      ensures req.Some? ==> (HasConn(req.value.fd) <==> old(HasConn(req.value.fd)))
    {
      hide Shaped, Counted, Answered, Connected, Finals, Children, AskedIds, Waiting, Untouched, Asked, Requests;
      ghost var was := conns;
      var targets := ToAsk(From(req), forced);
      if targets == [] {
        return NONE;
      }
      SomeTarget(conns, events, used, targets, From(req), forced, req, asked);
      if req.Some? {
        id := req.value;
      } else {
        rootseq := (rootseq + 1) % WRAP;
        id := Eid(0, rootseq % 100000);
        NotAsked(events, sent, asked, id);
      }
      Start(id, targets, failing);
      NotTheAsker(was, From(req), forced);
      SameConn(was, conns, targets, From(req));
    }

    method ToAsk(req: int, forced: bool) returns (targets: seq<nat>)
      ensures targets == Targets(conns, req, forced, |conns|)
    {
      hide Asked;
      targets := [];
      for i := 0 to |conns|
        invariant targets == Targets(conns, req, forced, i)
      {
        assert targets + [] == targets;
        if Asked(conns[i], req, forced) {
          targets := targets + [i];
        }
      }
    }

    /** The event of a sync and its children. */
    method Start(id: Eid, targets: seq<nat>, failing: set<int>)
      requires Valid() && id !in used && id.fd >= 0 && Finals(sent, id) == 0 && (id.fd > 0 ==> id in asked)
      requires Waiting(conns, conns, targets, used + {id}, asked)
      modifies this`events, this`used, this`lost, this`conns, this`sent
      ensures Valid() && id in events && events[id].pid == NONE && id in lost && lost[id] == 0
      ensures Children(events, id) == AskedIds(old(conns), targets, failing, |targets|)
      ensures forall e :: e in old(events) ==> e in events && events[e] == old(events)[e]
      ensures Untouched(old(conns), conns, targets)
      ensures forall to :: Finals(sent, to) == Finals(old(sent), to)
      ensures sent == old(sent) + Requests(old(conns), targets, |targets|)
    {
      hide Shaped, Counted, Answered, Connected, Finals, Children, AskedIds, Added, Waiting, Untouched, Requests;
      AddedFresh(events, used, id);
      SetEvent(id, NONE);
      AskAll(id, targets, failing);
    }

    method AskAll(id: Eid, targets: seq<nat>, failing: set<int>)
      requires Valid() && id in events && events[id].pid == NONE && (id.fd > 0 ==> id in asked) &&
        Children(events, id) == {}
      requires Waiting(conns, conns, targets, used, asked)
      modifies this`events, this`used, this`lost, this`conns, this`sent
      ensures Valid() && id in events && events[id].pid == NONE && id in lost && id in old(lost) &&
        lost[id] == old(lost)[id]
      ensures Children(events, id) == AskedIds(old(conns), targets, failing, |targets|)
      ensures OthersKept(old(events), events, id)
      ensures Untouched(old(conns), conns, targets)
      ensures SameFinals(old(sent), sent)
      ensures sent == old(sent) + Requests(old(conns), targets, |targets|)
    {
      hide Shaped, Counted, Answered, Connected, Finals, Children, Added, NextId, Waiting, Untouched, Requests,
        AskedIds;
      hide OthersKept, SameFinals;
      ghost var was, before := conns, events;
      HasCount(events, lost, id);
      assert targets[0..] == targets;
      WaitingPlaces(conns, conns, targets, used, asked);
      NoneTouched(conns, targets);
      NoRequests(conns, targets, sent);
      StillKept(before, before, before, id);
      StillFinals(sent, sent, sent);
      NoneAsked(conns, targets, failing);
      for k := 0 to |targets|
        invariant Valid() && id in events && events[id].pid == NONE && id in lost && lost[id] == old(lost)[id]
        invariant Waiting(was, conns, targets[k..], used, asked) && Untouched(was, conns, targets)
        invariant Children(events, id) == AskedIds(was, targets, failing, k)
        invariant OthersKept(before, events, id)
        invariant sent == old(sent) + Requests(was, targets, k)
        invariant SameFinals(old(sent), sent)
      {
        OneRequest(was, targets, k, old(sent));
        OneAsked(was, targets, failing, k);
        ghost var events', sent' := events, sent;
        AskNext(id, targets, k, failing, was);
        StillKept(before, events', events, id);
        StillFinals(old(sent), sent', sent);
      }
    }

    /** The next of the connections. */
    method AskNext(id: Eid, targets: seq<nat>, k: nat, failing: set<int>, ghost was: seq<Conn>)
      requires Valid() && id in events && events[id].pid == NONE && (id.fd > 0 ==> id in asked) && id in lost
      requires k < |targets| && forall j :: 0 <= j < |targets| ==> targets[j] < |was|
      requires Waiting(was, conns, targets[k..], used, asked) && Untouched(was, conns, targets)
      modifies this`events, this`used, this`lost, this`conns, this`sent
      ensures Valid() && id in events && events[id].pid == NONE && id in lost && lost[id] == old(lost)[id]
      ensures Waiting(was, conns, targets[k + 1..], used, asked) && Untouched(was, conns, targets)
      ensures Children(events, id) == old(Children(events, id)) +
        if was[targets[k]].fd in failing then {} else {NextId(was[targets[k]])}
      ensures OthersKept(old(events), events, id)
      ensures sent == old(sent) + [Request(was[targets[k]].fd, (was[targets[k]].sendseq + 1) % WRAP)]
      ensures SameFinals(old(sent), sent)
    {
      hide Shaped, Counted, Answered, Connected, Finals, Children, Added, NextId, Waiting, Untouched;
      FirstWaiting(was, conns, targets[k..], used, asked);
      assert targets[k..][1..] == targets[k + 1..];
      ghost var mid := conns;
      AskOne(id, targets[k], conns[targets[k]].fd !in failing);
      OneTouched(was, mid, conns, targets, k);
    }

    /** One more child of a sync. */
    method AskOne(id: Eid, i: nat, delivered: bool)
      requires Valid() && id in events && events[id].pid == NONE && (id.fd > 0 ==> id in asked) && id in lost
      requires i < |conns| && NextId(conns[i]) !in used && NextId(conns[i]) !in asked
      modifies this`events, this`used, this`lost, this`conns, this`sent
      ensures Valid() && id in events && events[id].pid == NONE && id in lost && lost[id] == old(lost)[id]
      ensures used <= old(used) + {NextId(old(conns)[i])}
      ensures |conns| == |old(conns)| && conns[i].fd == old(conns)[i].fd
      ensures forall j :: 0 <= j < |conns| && j != i ==> conns[j] == old(conns)[j]
      ensures Children(events, id) == old(Children(events, id)) + if delivered then {NextId(old(conns)[i])} else {}
      ensures forall e :: e in old(events) && e != id ==> e in events && events[e] == old(events)[e]
      ensures forall to :: Finals(sent, to) == Finals(old(sent), to)
      ensures sent == old(sent) + [Request(old(conns)[i].fd, (old(conns)[i].sendseq + 1) % WRAP)]
    {
      hide Shaped, Counted, Answered, Connected, Finals, Children, Added, NextId;
      Used(events, used);
      AddedChildren(events, used, NextId(conns[i]), id, id);
      AddedOthers(events, NextId(conns[i]), id);
      var child := Ask(i, id, delivered);
    }
  }

  /** The messages sent to the first `n` of these connections. */
  ghost function Requests(conns: seq<Conn>, targets: seq<nat>, n: nat): seq<Msg>
    requires n <= |targets| && forall k :: 0 <= k < |targets| ==> targets[k] < |conns|
  {
    if n == 0 then []
    else
      var c := conns[targets[n - 1]];
      Requests(conns, targets, n - 1) + [Request(c.fd, (c.sendseq + 1) % 0x1_0000_0000)]
  }

  lemma {:induction false} NoRequests(conns: seq<Conn>, targets: seq<nat>, sent: seq<Msg>)
    requires forall k :: 0 <= k < |targets| ==> targets[k] < |conns|
    ensures sent + Requests(conns, targets, 0) == sent
  {
  }

  ghost predicate OthersKept(t: Table, u: Table, id: Eid) {
    forall e :: e in t && e != id ==> e in u && u[e] == t[e]
  }

  ghost predicate SameFinals(sent: seq<Msg>, more: seq<Msg>) {
    forall to :: Finals(more, to) == Finals(sent, to)
  }

  lemma {:induction false} StillKept(t: Table, u: Table, v: Table, id: Eid)
    ensures OthersKept(t, u, id) && OthersKept(u, v, id) ==> OthersKept(t, v, id)
    ensures OthersKept(t, t, id)
  {
  }

  lemma {:induction false} StillFinals(a: seq<Msg>, b: seq<Msg>, c: seq<Msg>)
    ensures SameFinals(a, b) && SameFinals(b, c) ==> SameFinals(a, c)
    ensures SameFinals(a, a)
  {
  }

  lemma {:induction false} HasCount(t: Table, lost: map<Eid, nat>, id: Eid)
    requires Counted(t, lost) && id in t
    ensures id in lost
  {
  }

  lemma {:induction false} NoneAsked(conns: seq<Conn>, targets: seq<nat>, failing: set<int>)
    requires forall k :: 0 <= k < |targets| ==> targets[k] < |conns|
    ensures AskedIds(conns, targets, failing, 0) == {}
  {
  }

  lemma {:induction false} OneAsked(conns: seq<Conn>, targets: seq<nat>, failing: set<int>, k: nat)
    requires k < |targets| && forall k :: 0 <= k < |targets| ==> targets[k] < |conns|
    ensures AskedIds(conns, targets, failing, k + 1) == AskedIds(conns, targets, failing, k) +
      if conns[targets[k]].fd in failing then {} else {NextId(conns[targets[k]])}
  {
  }

  lemma {:induction false} OneRequest(conns: seq<Conn>, targets: seq<nat>, k: nat, sent: seq<Msg>)
    requires k < |targets| && forall k :: 0 <= k < |targets| ==> targets[k] < |conns|
    ensures sent + Requests(conns, targets, k + 1) == sent + Requests(conns, targets, k) +
      [Request(conns[targets[k]].fd, (conns[targets[k]].sendseq + 1) % WRAP)]
  {
  }

  /** Only these connections have been sent to. */
  ghost predicate Untouched(was: seq<Conn>, conns: seq<Conn>, targets: seq<nat>) {
    |conns| == |was| &&
    forall j :: 0 <= j < |conns| ==> conns[j].fd == was[j].fd && (j !in targets ==> conns[j] == was[j])
  }

  lemma {:induction false} NoneTouched(was: seq<Conn>, targets: seq<nat>)
    ensures Untouched(was, was, targets)
  {
  }

  lemma {:induction false} OneTouched(was: seq<Conn>, mid: seq<Conn>, conns: seq<Conn>, targets: seq<nat>, k: nat)
    requires Untouched(was, mid, targets) && k < |targets| && targets[k] < |mid|
    requires |conns| == |mid| && conns[targets[k]].fd == mid[targets[k]].fd
    requires forall j :: 0 <= j < |conns| && j != targets[k] ==> conns[j] == mid[j]
    ensures Untouched(was, conns, targets)
  {
  }

  lemma {:induction false} NotTheAsker(conns: seq<Conn>, req: int, forced: bool)
    ensures forall j :: j in Targets(conns, req, forced, |conns|) ==> j < |conns| && conns[j].fd != req
  {
    var targets := Targets(conns, req, forced, |conns|);
    forall j | j in targets ensures j < |conns| && conns[j].fd != req {
      var k :| 0 <= k < |targets| && targets[k] == j;
      assert Asked(conns[targets[k]], req, forced);
    }
  }

  /** Who is asked is not who asks, whose connection stays as it is. */
  lemma {:induction false} SameConn(was: seq<Conn>, conns: seq<Conn>, targets: seq<nat>, fd: int)
    requires Untouched(was, conns, targets) && forall j :: j in targets ==> j < |was| && was[j].fd != fd
    ensures (exists i :: 0 <= i < |conns| && conns[i].fd == fd && !conns[i].closed)
       <==> (exists i :: 0 <= i < |was| && was[i].fd == fd && !was[i].closed)
  {
    assert forall j :: 0 <= j < |was| && was[j].fd == fd ==> conns[j] == was[j];
  }

  /** The connection a sync came from, none for one of this side. */
  function From(req: Option<Eid>): int {
    if req.Some? then req.value.fd else -1
  }

  /** The ids of the requests that could be delivered. */
  ghost function AskedIds(conns: seq<Conn>, targets: seq<nat>, failing: set<int>, n: nat): set<Eid>
    requires n <= |targets| && forall k :: 0 <= k < |targets| ==> targets[k] < |conns|
  {
    if n == 0 then {}
    else
      var c := conns[targets[n - 1]];
      AskedIds(conns, targets, failing, n - 1) + if c.fd in failing then {} else {NextId(c)}
  }

  lemma {:induction false} StillConnected(conns: seq<Conn>, i: nat, c: Conn)
    requires Connected(conns) && i < |conns| && c.fd == conns[i].fd
    ensures Connected(conns[i := c])
  {
  }

  /** The connections still to be asked are as they were and their next ids are new. */
  ghost predicate Waiting(was: seq<Conn>, conns: seq<Conn>, targets: seq<nat>, used: set<Eid>, asked: set<Eid>) {
    Connected(was) && |conns| == |was| &&
    (forall j :: 0 <= j < |targets| ==> targets[j] < |was| && conns[targets[j]] == was[targets[j]]) &&
    (forall j :: 0 <= j < |targets| ==> NextId(was[targets[j]]) !in used && NextId(was[targets[j]]) !in asked) &&
    Rising(targets)
  }

  lemma {:induction false} WaitingPlaces(was: seq<Conn>, conns: seq<Conn>, targets: seq<nat>, used: set<Eid>,
                                         asked: set<Eid>)
    requires Waiting(was, conns, targets, used, asked)
    ensures forall j :: 0 <= j < |targets| ==> targets[j] < |was|
  {
  }

  lemma {:induction false} FirstWaiting(was: seq<Conn>, conns: seq<Conn>, targets: seq<nat>, used: set<Eid>,
                                        asked: set<Eid>)
    requires Waiting(was, conns, targets, used, asked) && targets != []
    ensures var i := targets[0];
      i < |conns| && conns[i] == was[i] && NextId(conns[i]) !in used && NextId(conns[i]) !in asked
    ensures forall later, more | |later| == |conns| && more <= used + {NextId(was[targets[0]])} ::
      (forall j :: 0 <= j < |conns| && j != targets[0] ==> later[j] == conns[j]) ==>
        Waiting(was, later, targets[1..], more, asked)
  {
    forall j | 1 <= j < |targets| ensures targets[0] < targets[j] &&
      NextId(was[targets[j]]) != NextId(was[targets[0]]) {
      assert was[targets[j]].fd != was[targets[0]].fd;
    }
  }

  lemma {:induction false} AddedFresh(t: Table, used: set<Eid>, id: Eid)
    requires Shaped(t, used) && id !in used && id != NONE
    ensures var u := Added(t, id, NONE);
      id in u && u[id].pid == NONE && Children(u, id) == {} && NONE !in t && id !in t
      && forall e :: e in t ==> e in u && u[e] == t[e]
  {
    AddedChildren(t, used, id, NONE, id);
  }

  /** What is to be asked is waiting, also once the event of the sync itself is in use. */
  lemma {:induction false} SomeTarget(conns: seq<Conn>, t: Table, used: set<Eid>, targets: seq<nat>, from: int,
                                      forced: bool, req: Option<Eid>, asked: set<Eid>)
    requires Connected(conns) && targets == Targets(conns, from, forced, |conns|) && from == From(req)
    requires forall k :: k in targets ==> NextId(conns[k]) !in used && NextId(conns[k]) !in asked
    ensures forall id :: (req.Some? && id == req.value) || (req.None? && id.fd == 0) ==>
      Waiting(conns, conns, targets, used + {id}, asked)
  {
    TargetsAll(conns, from, forced, |conns|);
    forall k | 0 <= k < |targets| ensures NextId(conns[targets[k]]).fd != 0 && NextId(conns[targets[k]]).fd != from {
      assert Asked(conns[targets[k]], from, forced);
    }
  }

  lemma {:induction false} AddedOthers(t: Table, id: Eid, parent: Eid)
    requires id !in t && parent in t && parent.fd >= 0
    ensures var u := Added(t, id, parent);
      parent in u && u[parent].pid == t[parent].pid && forall e :: e in t && e != parent ==> e in u && u[e] == t[e]
  {
  }

  lemma {:induction false} ResponseAnswered(t: Table, sent: seq<Msg>, asked: set<Eid>, to: Eid, done: bool, ok: bool)
    requires Answered(t, sent, asked) && (done ==> to in asked && to !in t && Finals(sent, to) == 0)
    ensures Answered(t, sent + [Respond(to, done, ok)], asked)
    ensures Finals(sent + [Respond(to, done, ok)], to) == Finals(sent, to) + if done then 1 else 0
  {
    forall id ensures Finals(sent + [Respond(to, done, ok)], id) == Finals(sent, id) + if id == to && done then 1
      else 0 {
      FinalsMore(sent, Respond(to, done, ok), id);
    }
  }

  /** The request behind an event was a sync; if it is over by this reply it was live before. */
  lemma {:induction false} RelayAsked(t: Table, sent: seq<Msg>, used: set<Eid>, asked: set<Eid>, id: Eid)
    requires Shaped(t, used) && Answered(t, sent, asked)
    ensures var (u, over) := Reset(t, id, false);
      id in t && t[id].pid.fd > 0 ==> t[id].pid in asked && (over == t[id].pid ==> over in t && over !in u)
  {
  }

  lemma {:induction false} NotAnswered(t: Table, sent: seq<Msg>, asked: set<Eid>, id: Eid)
    requires Answered(t, sent, asked)
    ensures id in t ==> Finals(sent, id) == 0
  {
  }

  lemma {:induction false} NotAsked(t: Table, sent: seq<Msg>, asked: set<Eid>, id: Eid)
    requires Answered(t, sent, asked) && (id !in asked || id in t)
    ensures Finals(sent, id) == 0
  {
  }

  lemma {:induction false} RequestAnswered(t: Table, sent: seq<Msg>, asked: set<Eid>, fd: int, num: nat)
    requires Answered(t, sent, asked)
    ensures Answered(t, sent + [Request(fd, num)], asked)
    ensures forall to :: Finals(sent + [Request(fd, num)], to) == Finals(sent, to)
  {
    forall id ensures Finals(sent + [Request(fd, num)], id) == Finals(sent, id) {
      FinalsMore(sent, Request(fd, num), id);
    }
  }

  // ---------- the whole of a relayed sync ----------

  /** What happens while a sync waits: a reply comes in, or the time of an event runs out. */
  datatype Happening = Replied(id: Eid, kind: Kind, ok: bool) | Expired(id: Eid)

  datatype Fate = Pending | Done | Lapsed

  /** What has become of an event, of which only the first reply that is not continued counts, or the end
      of its time if that comes before. */
  function FateOf(hs: seq<Happening>, n: nat, id: Eid): Fate
    requires n <= |hs|
  {
    if n == 0 then Pending
    else
      var before, h := FateOf(hs, n - 1, id), hs[n - 1];
      if before != Pending || h.id != id then before
      else if h.Expired? then Lapsed
      else if h.kind.Continued? then Pending
      else Done
  }

  /** There are requests, and all have been replied to. */
  ghost predicate AllDone(children: set<Eid>, hs: seq<Happening>, n: nat)
    requires n <= |hs|
  {
    children != {} && forall c :: c in children ==> FateOf(hs, n, c) == Done
  }

  /** All requests have been replied to in time, which is while the event of the sync was waiting. */
  ghost predicate Finished(children: set<Eid>, req: Eid, hs: seq<Happening>, n: nat)
    requires n <= |hs|
  {
    exists m :: 0 <= m <= n && FateOf(hs, m, req) == Pending && AllDone(children, hs, m)
  }

  lemma {:induction false} FinishedNext(children: set<Eid>, req: Eid, hs: seq<Happening>, n: nat)
    requires n < |hs|
    ensures Finished(children, req, hs, n + 1) <==>
      Finished(children, req, hs, n) || (FateOf(hs, n + 1, req) == Pending && AllDone(children, hs, n + 1))
  {
    hide FateOf, AllDone;
    if Finished(children, req, hs, n + 1) {
      var m :| 0 <= m <= n + 1 && FateOf(hs, m, req) == Pending && AllDone(children, hs, m);
      assert m == n + 1 || m <= n;
    }
  }

  /** The event of the sync in the table: it waits for the requests that are pending, and has lost those
      that expired. */
  ghost predicate WaitsFor(t: Table, lost: map<Eid, nat>, children: set<Eid>, req: Eid, hs: seq<Happening>, n: nat)
    requires n <= |hs|
  {
    if Finished(children, req, hs, n) || FateOf(hs, n, req) != Pending then req !in t
    else
      req in t && t[req].pid == NONE && req in lost &&
      (forall c :: c in Children(t, req) <==> c in children && FateOf(hs, n, c) == Pending) &&
      (lost[req] == 0 <==> forall c :: c in children ==> FateOf(hs, n, c) != Lapsed)
  }

  lemma {:induction false} WaitsAtFirst(t: Table, lost: map<Eid, nat>, req: Eid, hs: seq<Happening>)
    requires req in t && t[req].pid == NONE && req in lost && lost[req] == 0
    ensures WaitsFor(t, lost, Children(t, req), req, hs, 0) && !Finished(Children(t, req), req, hs, 0)
  {
    hide Children;
  }

  /** The last reply is the one that leaves a single child and none lost. */
  lemma {:induction false} LastReply(t: Table, lost: map<Eid, nat>, children: set<Eid>, req: Eid, hs: seq<Happening>,
                                     n: nat)
    requires n < |hs| && WaitsFor(t, lost, children, req, hs, n) && req in t
    requires hs[n].Replied? && !hs[n].kind.Continued? && hs[n].id in Children(t, req)
    ensures AllDone(children, hs, n + 1) <==> Children(t, req) == {hs[n].id} && lost[req] == 0
  {
    hide Children, Finished;
    var id := hs[n].id;
    assert forall c :: c != id ==> FateOf(hs, n + 1, c) == FateOf(hs, n, c);
    assert FateOf(hs, n, id) == Pending && FateOf(hs, n + 1, id) == Done;
    if AllDone(children, hs, n + 1) {
      forall c | c in Children(t, req) ensures c == id {
        assert FateOf(hs, n, c) == Pending;
      }
    }
  }

  /** A reply: the sync is finished by it exactly if it is the last child's. */
  lemma {:induction false} WaitsAfterReply(t: Table, lost: map<Eid, nat>, used: set<Eid>, children: set<Eid>, req: Eid,
                                           hs: seq<Happening>, n: nat)
    requires n < |hs| && hs[n].Replied? && Shaped(t, used) && Counted(t, lost) && req.fd > 0
    requires WaitsFor(t, lost, children, req, hs, n)
    ensures var (u, over) := if hs[n].kind.Continued? then (t, NONE) else Reset(t, hs[n].id, false);
      WaitsFor(u, lost, children, req, hs, n + 1)
      && (Finished(children, req, hs, n + 1) <==>
        Finished(children, req, hs, n) || (hs[n].id in t && t[hs[n].id].pid == req && over == req))
      && (hs[n].id in t && t[hs[n].id].pid == req && over == req ==>
        hs[n].id in children && !Finished(children, req, hs, n))
  {
    hide Children, Finished, AllDone, Counted;
    var id := hs[n].id;
    FinishedNext(children, req, hs, n);
    assert forall c :: c != id ==> FateOf(hs, n + 1, c) == FateOf(hs, n, c);
    IsChild(t, id, req);
    if req in t && !hs[n].kind.Continued? && id in Children(t, req) {
      LastReply(t, lost, children, req, hs, n);
      CompletedIff(t, lost, used, id);
      if req in Reset(t, id, false).0 {
        ResetChildren(t, used, id, false, req);
      }
    } else if req in t {
      NotLastReply(t, lost, children, req, hs, n);
      if !hs[n].kind.Continued? && req in Reset(t, id, false).0 {
        ResetChildren(t, used, id, false, req);
      }
    }
  }

  lemma {:induction false} NotLastReply(t: Table, lost: map<Eid, nat>, children: set<Eid>, req: Eid, hs: seq<Happening>,
                                        n: nat)
    requires n < |hs| && WaitsFor(t, lost, children, req, hs, n) && req in t
    requires hs[n].Expired? || hs[n].kind.Continued? || hs[n].id !in Children(t, req)
    ensures !(FateOf(hs, n + 1, req) == Pending && AllDone(children, hs, n + 1))
  {
    hide Children;
    if FateOf(hs, n + 1, req) == Pending && AllDone(children, hs, n + 1) {
      forall c | c in children ensures FateOf(hs, n, c) == Done {
        assert FateOf(hs, n + 1, c) == Done;
      }
    }
  }

  lemma {:induction false} WaitsAfterExpiry(t: Table, lost: map<Eid, nat>, used: set<Eid>, children: set<Eid>, req: Eid,
                                            hs: seq<Happening>, n: nat)
    requires n < |hs| && hs[n].Expired? && Shaped(t, used) && Counted(t, lost) && req.fd > 0
    requires WaitsFor(t, lost, children, req, hs, n)
    ensures var l := if hs[n].id in t then Losing(t, lost, hs[n].id, true) else lost;
      WaitsFor(t - {hs[n].id}, l, children, req, hs, n + 1)
    ensures Finished(children, req, hs, n + 1) <==> Finished(children, req, hs, n)
  {
    hide Children, Finished, AllDone, Counted;
    var id := hs[n].id;
    FinishedNext(children, req, hs, n);
    assert forall c :: c != id ==> FateOf(hs, n + 1, c) == FateOf(hs, n, c);
    IsChild(t, id, req);
    if req in t {
      NotLastReply(t, lost, children, req, hs, n);
      if id == req {
        assert FateOf(hs, n + 1, req) == Lapsed;
      } else if id in t {
        assert Reset(t, id, true).0 == t - {id};
        ResetChildren(t, used, id, true, req);
        if id in Children(t, req) {
          assert id in children && FateOf(hs, n + 1, id) == Lapsed;
        } else {
          assert FateOf(hs, n + 1, id) == FateOf(hs, n, id) || id !in children;
        }
      } else {
        assert t - {id} == t;
      }
    }
  }

  /** Replies and expiries in any order: the sync is answered for good, once, exactly if all requests are
      replied to in time and its connection is still there. */
  method Await(d: Datablock, req: Eid, hs: seq<Happening>)
    requires d.Valid() && req in d.events && d.events[req].pid == NONE && req in d.lost && d.lost[req] == 0
    requires req.fd > 0 && forall c :: c in Children(d.events, req) ==> c.fd > 0
    modifies d`events, d`lost, d`sent
    ensures d.Valid()
    ensures Finals(d.sent, req) ==
      if Finished(old(Children(d.events, req)), req, hs, |hs|) && IsOpen(d.conns, req.fd) then 1 else 0
  {
    hide Shaped, Counted, Connected, Answered, Finals, Children, Reset, Finished, FateOf, WaitsFor;
    ghost var children := Children(d.events, req);
    WaitsAtFirst(d.events, d.lost, req, hs);
    NotAnswered(d.events, d.sent, d.asked, req);
    for n := 0 to |hs|
      invariant d.Valid() && WaitsFor(d.events, d.lost, children, req, hs, n)
      invariant Finals(d.sent, req) == if Finished(children, req, hs, n) && d.HasConn(req.fd) then 1 else 0
    {
      if hs[n].Replied? {
        OneReply(d, req, children, hs, n);
      } else {
        WaitsAfterExpiry(d.events, d.lost, d.used, children, req, hs, n);
        if hs[n].id in d.events {
          d.OnExpire(hs[n].id);
        } else {
          assert d.events - {hs[n].id} == d.events;
        }
      }
    }
  }

  method OneReply(d: Datablock, req: Eid, ghost children: set<Eid>, hs: seq<Happening>, n: nat)
    requires d.Valid() && n < |hs| && hs[n].Replied? && req.fd > 0 && forall c :: c in children ==> c.fd > 0
    requires WaitsFor(d.events, d.lost, children, req, hs, n)
    modifies d`events, d`lost, d`sent
    ensures d.Valid() && WaitsFor(d.events, d.lost, children, req, hs, n + 1)
    ensures Finals(d.sent, req) == old(Finals(d.sent, req)) +
      if !Finished(children, req, hs, n) && Finished(children, req, hs, n + 1) && d.HasConn(req.fd) then 1 else 0
    ensures Finished(children, req, hs, n) ==> Finished(children, req, hs, n + 1)
  {
    hide Shaped, Counted, Connected, Answered, Finals, Children, Finished, FateOf, WaitsFor;
    var h := hs[n];
    WaitsAfterReply(d.events, d.lost, d.used, children, req, hs, n);
    ghost var p, sent := d.GetRelay(h.id), d.sent;
    var over := d.OnReply(h.id, h.kind, h.ok);
    FinalsMore(sent, Respond(p, over == p, h.ok && !h.kind.Failed?), req);
    assert sent + [] == sent;
  }

  /** The requests of a sync come back over connections. */
  lemma {:induction false} AskedOver(conns: seq<Conn>, targets: seq<nat>, failing: set<int>, n: nat)
    requires n <= |targets| && Connected(conns) && forall k :: 0 <= k < |targets| ==> targets[k] < |conns|
    ensures forall c :: c in AskedIds(conns, targets, failing, n) ==> c.fd > 0
    ensures AskedIds(conns, targets, failing, n) == {} <==> forall k :: 0 <= k < n ==> conns[targets[k]].fd in failing
  {
    if n > 0 {
      AskedOver(conns, targets, failing, n - 1);
    }
  }

  /** A sync from its request on: it is answered for good at once if there is nobody to ask, and otherwise
      exactly if somebody could be asked, all of those reply in time, and the connection is still there. */
  method RelayedSync(d: Datablock, fd: int, num: nat, failing: set<int>, ok: bool, hs: seq<Happening>)
    requires d.Valid() && fd > 0
    requires var id := Eid(fd, num); id !in d.used && id !in d.asked
    requires forall k :: k in Targets(d.conns, fd, false, |d.conns|) ==>
      NextId(d.conns[k]) !in d.used && NextId(d.conns[k]) !in d.asked
    modifies d
    ensures d.Valid()
    ensures var id, conns, targets := Eid(fd, num), old(d.conns), Targets(old(d.conns), fd, false, |old(d.conns)|);
      Finals(d.sent, id) ==
        if targets == [] || (IsOpen(conns, fd) && Finished(AskedIds(conns, targets, failing, |targets|), id, hs, |hs|))
        then 1 else 0
  {
    hide Shaped, Counted, Connected, Answered, Finals, Children, AskedIds, Finished;
    ghost var conns := d.conns;
    d.OnSync(fd, num, failing, ok);
    ghost var targets := Targets(conns, fd, false, |conns|);
    AskedOver(conns, targets, failing, |targets|);
    if Eid(fd, num) in d.events {
      Await(d, Eid(fd, num), hs);
    }
  }

  /** If nobody who is to be asked can be sent to, no reply and no expiry brings the answer. */
  lemma {:induction false} NobodyReached(conns: seq<Conn>, targets: seq<nat>, failing: set<int>, req: Eid,
                                         hs: seq<Happening>)
    requires Connected(conns) && forall k :: 0 <= k < |targets| ==> targets[k] < |conns|
    requires forall k :: 0 <= k < |targets| ==> conns[targets[k]].fd in failing
    ensures !Finished(AskedIds(conns, targets, failing, |targets|), req, hs, |hs|)
  {
    hide FateOf;
    AskedOver(conns, targets, failing, |targets|);
  }
}
