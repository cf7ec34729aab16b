/** ydb/ystr.c: strings kept once each, counted, and found by content and by address. */
module YStr {
  import opened Common

  /** struct ystr; its address stands for the address of its data. */
  class Str {
    const data: string
    var count: nat

    constructor (data: string)
      ensures this.data == data && count == 1
    {
      this.data := data;
      count := 1;
    }
  }

  /** What callers hold: no string, the common empty string, or a string of the pool. */
  datatype Handle = Null | Empty | To(str: Str)

  ghost function OutOf(byData: map<string, Str>, out: map<Str, nat>, data: string): nat {
    if data in byData && byData[data] in out then out[byData[data]] else 0
  }

  class Pool {
    /** ystr_pool and yptr_pool, which exist only while they hold something. */
    var byData: map<string, Str>
    var byAddress: set<Str>
    var created: bool
    var emptyCount: int
    /** The handles given out and not freed yet. */
    ghost var out: map<Str, nat>

    ghost predicate Valid()
      reads this, byAddress
    {
      (created <==> byAddress != {}) &&
      // the two indexes hold the same strings
      (forall d :: d in byData ==> byData[d] in byAddress && byData[d].data == d) &&
      (forall s :: s in byAddress ==> s.data in byData && byData[s.data] == s) &&
      // each is counted once for every handle, and kept as long as there is one
      out.Keys == byAddress && (forall s :: s in byAddress ==> s.count == out[s] > 0) &&
      "" !in byData
    }

    constructor ()
      ensures Valid() && out == map[]
    {
      byData, byAddress, created, emptyCount, out := map[], {}, false, 0, map[];
    }

    /** The handles out for a content. */
    ghost function Out(data: string): nat
      reads this, byAddress
      requires Valid()
    {
      OutOf(byData, out, data)
    }

    /** The part that ystrndup, ystrnew and ydatadup have in common: the string of that content, which is
        a new one only if there is none. */
    method Intern(data: string) returns (str: Str)
      requires Valid() && data != ""
      modifies this`byData, this`byAddress, this`created, this`out, byAddress`count
      ensures Valid() && Issued(old(byData), old(byAddress), data, str) && emptyCount == old(emptyCount)
      ensures if data in old(byData) then str == old(byData)[data] else fresh(str)
      ensures forall d :: Out(d) == old(Out(d)) + if d == data then 1 else 0
    {
      if data in byData {
        str := byData[data];
        Recount(str, 1);
      } else {
        str := Add(data);
      }
    }

    /** The first handle to a content makes the pool keep its string. */
    method Add(data: string) returns (str: Str)
      requires Valid() && data != "" && data !in byData
      modifies this`byData, this`byAddress, this`created, this`out
      ensures Valid() && fresh(str) && str.data == data
      ensures byData == old(byData)[data := str] && byAddress == old(byAddress) + {str}
      ensures forall d :: Out(d) == old(Out(d)) + if d == data then 1 else 0
    {
      created := true;
      str := new Str(data);
      byData := byData[data := str];
      byAddress := byAddress + {str};
      out := out[str := 1];
    }

    /** One handle more or less to a string, of which one remains. */
    method Recount(str: Str, change: int)
      requires Valid() && str in byAddress && str.count + change > 0
      modifies this`out, str`count
      ensures Valid() && out == old(out)[str := old(out)[str] + change]
      ensures forall d :: Out(d) == old(Out(d)) + if d == str.data then change else 0
    {
      str.count := str.count + change;
      out := out[str := out[str] + change];
    }

    /** The last handle to a string goes, and the string with it. */
    method Drop(str: Str)
      requires Valid() && str in byAddress && str.count == 1
      modifies this`byData, this`byAddress, this`created, this`out
      ensures Valid() && byData == old(byData) - {str.data} && byAddress == old(byAddress) - {str}
      ensures forall d :: Out(d) == old(Out(d)) - if d == str.data then 1 else 0
    {
      byData := byData - {str.data};
      byAddress := byAddress - {str};
      out := out - {str};
      created := byAddress != {};
    }

    /** The indexes after a handle to the string of a content has been given out. */
    ghost predicate Issued(before: map<string, Str>, addresses: set<Str>, data: string, str: Str)
      reads this`byData, this`byAddress
    {
      str.data == data && byData == before[data := str] && byAddress == addresses + {str} &&
      (data in before ==> before[data] == str)
    }

    /** ystrndup; without a length the empty string, which is counted apart. */
    method StrNDup(src: Option<string>, len: int) returns (h: Handle)
      requires Valid() && (src.Some? ==> len <= |src.value|)
      modifies this`byData, this`byAddress, this`created, this`emptyCount, this`out, byAddress`count
      ensures Valid()
      ensures match Content(src, len)
        case None => h == Empty && byData == old(byData) && byAddress == old(byAddress)
        case Some(data) => h.To? && Issued(old(byData), old(byAddress), data, h.str)
      ensures forall s :: s in byAddress ==> s in old(byAddress) || fresh(s)
      ensures forall d :: Out(d) == old(Out(d)) + if Content(src, len) == Some(d) then 1 else 0
      ensures emptyCount == old(emptyCount) + if Content(src, len).None? then 1 else 0
    {
      if src.None? || len <= 0 {
        emptyCount := emptyCount + 1;
        return Empty;
      }
      var str := Intern(src.value[..len]);
      h := To(str);
    }

    /** ydatadup */
    method DataDup(src: Option<string>, len: int) returns (h: Handle)
      requires Valid() && (src.Some? ==> len <= |src.value|)
      modifies this`byData, this`byAddress, this`created, this`out, byAddress`count
      ensures Valid()
      ensures match Content(src, len)
        case None => h == Null && byData == old(byData) && byAddress == old(byAddress)
        case Some(data) => h.To? && Issued(old(byData), old(byAddress), data, h.str)
      ensures forall s :: s in byAddress ==> s in old(byAddress) || fresh(s)
      ensures forall d :: Out(d) == old(Out(d)) + if Content(src, len) == Some(d) then 1 else 0
      ensures emptyCount == old(emptyCount)
    {
      if src.None? || len <= 0 {
        return Null;
      }
      var str := Intern(src.value[..len]);
      h := To(str);
    }

    /** ysearch by address, which finds the string that its content leads to */
    method Search(h: Handle) returns (str: Str?)
      requires Valid()
      ensures str == if h.To? && h.str in byAddress then h.str else null
      ensures str != null ==> str.data in byData && byData[str.data] == str
    {
      str := if h.To? && h.str in byAddress then h.str else null;
    }

    /** yfree.  The string goes exactly with its last handle, an address that is not in the pool changes
        nothing, and without any string in the pool not even the empty one is counted down. */
    method Free(h: Handle)
      requires Valid()
      modifies this`byData, this`byAddress, this`created, this`emptyCount, this`out, byAddress`count
      ensures Valid()
      ensures var last := h.To? && h.str in old(out) && old(out)[h.str] == 1;
        byData == (if last then old(byData) - {h.str.data} else old(byData)) &&
        byAddress == if last then old(byAddress) - {h.str} else old(byAddress)
      ensures forall d :: Out(d) == old(Out(d)) - if h.To? && h.str in old(out) && d == h.str.data then 1 else 0
      ensures emptyCount == old(emptyCount) - if h.To? || old(byAddress) == {} then 0 else 1
    {
      if !created {
        return;
      }
      if !h.To? {
        emptyCount := emptyCount - 1;
        return;
      }
      var str := Search(h);
      if str == null {
        return;
      }
      if str.count - 1 <= 0 {
        Drop(str);
      } else {
        Recount(str, -1);
      }
    }
  }

  /** What is kept of a source: nothing without a length. */
  function Content(src: Option<string>, len: int): Option<string>
    requires src.Some? ==> len <= |src.value|
  {
    if src.None? || len <= 0 then None else Some(src.value[..len])
  }

  /** What is kept are the first `len` characters of the source. */
  lemma {:induction false} ContentIs(src: Option<string>, len: int, d: string)
    requires src.Some? ==> len <= |src.value|
    ensures Content(src, len) == Some(d) <==> src.Some? && len > 0 && |d| == len && d <= src.value
  {
    assert src.Some? && len > 0 && |d| == len && d <= src.value ==> src.value[..len] == d;
  }

  // ---------- any sequence of calls ----------

  /** A handle is issued, by ystrndup or ydatadup, or the one that an earlier call issued is freed. */
  datatype Command = Issue(src: Option<string>, len: int, isData: bool) | Release(call: nat)

  /** Lengths fit and every handle is freed at most once, which is as often as it was issued. */
  ghost predicate Fair(calls: seq<Command>) {
    (forall i :: 0 <= i < |calls| && calls[i].Issue? && calls[i].src.Some? ==> calls[i].len <= |calls[i].src.value|) &&
    (forall i :: 0 <= i < |calls| && calls[i].Release? ==> calls[i].call < i && calls[calls[i].call].Issue?) &&
    forall i, j :: 0 <= i < j < |calls| && calls[i].Release? ==> calls[i] != calls[j]
  }

  function ContentOf(c: Command): Option<string> {
    if c.Issue? && (c.src.Some? ==> c.len <= |c.src.value|) then Content(c.src, c.len) else None
  }

  /** The calls among the first `n` that issued a handle to a content which is not freed yet. */
  ghost function Held(calls: seq<Command>, n: nat, data: string): (r: set<nat>)
    requires Fair(calls) && n <= |calls|
    ensures forall k: nat :: k in r <==> k < n && ContentOf(calls[k]) == Some(data) && Release(k) !in calls[..n]
  {
    set k: nat | k < n && ContentOf(calls[k]) == Some(data) && Release(k) !in calls[..n]
  }

  /** How one more call changes what is held. */
  lemma {:induction false} HeldNext(calls: seq<Command>, n: nat, data: string)
    requires Fair(calls) && n < |calls|
    ensures var c := calls[n];
      Held(calls, n + 1, data) ==
        if c.Release? then Held(calls, n, data) - {c.call}
        else if ContentOf(c) == Some(data) then Held(calls, n, data) + {n}
        else Held(calls, n, data)
  {
    assert calls[..n + 1] == calls[..n] + [calls[n]];
    if calls[n].Issue? {
      forall j | 0 <= j < n ensures calls[j] != Release(n) {
      }
    }
  }

  /** Each string is counted as often as handles to its content are held. */
  ghost predicate Counted(calls: seq<Command>, n: nat, byData: map<string, Str>, out: map<Str, nat>)
    requires Fair(calls) && n <= |calls|
  {
    forall d :: OutOf(byData, out, d) == |Held(calls, n, d)|
  }

  /** Handles held lead to the one string of their content; without a content there is no string. */
  ghost predicate Led(calls: seq<Command>, n: nat, byData: map<string, Str>, hs: seq<Handle>)
    requires Fair(calls) && n <= |calls| && |hs| == n
  {
    (forall d :: LeadTo(Held(calls, n, d), d, byData, hs)) &&
    forall k :: 0 <= k < n && ContentOf(calls[k]).None? ==> !hs[k].To?
  }

  ghost predicate LeadTo(held: set<nat>, d: string, byData: map<string, Str>, hs: seq<Handle>) {
    forall k :: k in held ==> k < |hs| && d in byData && hs[k] == To(byData[d])
  }

  /** The handle issued by a call is that of every handle to the same content held at that time. */
  ghost predicate Reissued(calls: seq<Command>, k: nat, hs: seq<Handle>)
    requires Fair(calls) && k < |calls| && k < |hs|
  {
    ContentOf(calls[k]).Some? ==> forall j :: j in Held(calls, k, ContentOf(calls[k]).value) ==> hs[j] == hs[k]
  }

  /** What a sequence of calls, on a pool empty at first, has led to; the handle `hs[k]` is what the k-th
      call issued. */
  ghost predicate Kept(calls: seq<Command>, n: nat, byData: map<string, Str>, out: map<Str, nat>, hs: seq<Handle>)
    requires Fair(calls) && n <= |calls|
  {
    |hs| == n && Counted(calls, n, byData, out) && Led(calls, n, byData, hs) &&
    forall k :: 0 <= k < n ==> Reissued(calls, k, hs)
  }

  /** Whether the `n`-th call gives out one more handle to a content, or takes one back. */
  ghost function Change(calls: seq<Command>, n: nat, d: string): int
    requires Fair(calls) && n < |calls|
  {
    if ContentOf(calls[n]) == Some(d) then 1
    else if calls[n].Release? && ContentOf(calls[calls[n].call]) == Some(d) then -1
    else 0
  }

  lemma {:induction false} HeldChanges(calls: seq<Command>, n: nat, d: string)
    requires Fair(calls) && n < |calls|
    ensures |Held(calls, n + 1, d)| == |Held(calls, n, d)| + Change(calls, n, d)
  {
    HeldNext(calls, n, d);
    var held := Held(calls, n, d);
    if calls[n].Release? {
      ReleasedWasHeld(calls, n);
      var c := calls[n].call;
      if c !in held {
        assert held - {c} == held;
      }
    }
  }

  lemma {:induction false} CountedNext(calls: seq<Command>, n: nat, byData: map<string, Str>, out: map<Str, nat>,
                                       byData': map<string, Str>, out': map<Str, nat>)
    requires Fair(calls) && n < |calls| && Counted(calls, n, byData, out)
    requires forall d :: OutOf(byData', out', d) == OutOf(byData, out, d) + Change(calls, n, d)
    ensures Counted(calls, n + 1, byData', out')
  {
    hide OutOf, Held, Fair, Change;
    forall d ensures OutOf(byData', out', d) == |Held(calls, n + 1, d)| {
      HeldChanges(calls, n, d);
    }
  }

  lemma {:induction false} ReissuedNext(calls: seq<Command>, n: nat, byData: map<string, Str>, hs: seq<Handle>,
                                        h: Handle)
    requires Fair(calls) && n < |calls| && |hs| == n && Led(calls, n, byData, hs)
    requires forall k :: 0 <= k < n ==> Reissued(calls, k, hs)
    requires ContentOf(calls[n]).Some? ==> h.To? && forall d :: ContentOf(calls[n]) == Some(d) && d in byData ==>
      byData[d] == h.str
    ensures forall k :: 0 <= k < n + 1 ==> Reissued(calls, k, hs + [h])
  {
    hide Fair;
    forall k | 0 <= k < n ensures Reissued(calls, k, hs + [h]) {
      assert Reissued(calls, k, hs);
    }
  }

  lemma {:induction false} LedAfterIssue(calls: seq<Command>, n: nat, byData: map<string, Str>, hs: seq<Handle>,
                                         byData': map<string, Str>, h: Handle)
    requires Fair(calls) && n < |calls| && calls[n].Issue? && |hs| == n && Led(calls, n, byData, hs)
    requires match ContentOf(calls[n])
      case None => !h.To? && byData' == byData
      case Some(data) => h.To? && byData' == byData[data := h.str] && (data in byData ==> byData[data] == h.str)
    ensures Led(calls, n + 1, byData', hs + [h])
  {
    hide Fair, Held;
    var m, hs' := n + 1, hs + [h];
    forall d ensures LeadTo(Held(calls, m, d), d, byData', hs') {
      HeldNext(calls, n, d);
      assert LeadTo(Held(calls, n, d), d, byData, hs);
    }
    forall k | 0 <= k < n + 1 && ContentOf(calls[k]).None? ensures !(hs + [h])[k].To? {
    }
  }

  lemma {:induction false} LedAfterRelease(calls: seq<Command>, n: nat, byData: map<string, Str>, out: map<Str, nat>,
                                           hs: seq<Handle>, byData': map<string, Str>)
    requires Fair(calls) && n < |calls| && calls[n].Release? && |hs| == n
    requires Led(calls, n, byData, hs) && Counted(calls, n, byData, out)
    requires forall d :: d in byData ==> byData[d].data == d && byData[d] in out
    requires var h := hs[calls[n].call];
      byData' == if h.To? && h.str in out && out[h.str] == 1 then byData - {h.str.data} else byData
    ensures Led(calls, n + 1, byData', hs + [Null])
  {
    hide Fair, Held;
    var c := calls[n].call;
    ReleasedWasHeld(calls, n);
    var m, hs' := n + 1, hs + [Null];
    forall d ensures LeadTo(Held(calls, m, d), d, byData', hs') {
      HeldNext(calls, n, d);
      var held := Held(calls, n, d);
      assert LeadTo(held, d, byData, hs);
      if c !in held {
        OtherContent(calls, n, byData, hs, d);
      } else if held - {c} != {} {
        var k :| k in held - {c};
        StillHeld(held, k, c);
        assert OutOf(byData, out, d) >= 2;
      }
    }
    forall k | 0 <= k < n + 1 && ContentOf(calls[k]).None? ensures !(hs + [Null])[k].To? {
    }
  }

  /** Releasing a handle to one content leaves another one in the pool. */
  lemma {:induction false} OtherContent(calls: seq<Command>, n: nat, byData: map<string, Str>, hs: seq<Handle>,
                                        d: string)
    requires Fair(calls) && n < |calls| && calls[n].Release? && |hs| == n && Led(calls, n, byData, hs)
    requires forall e :: e in byData ==> byData[e].data == e
    requires ContentOf(calls[calls[n].call]) != Some(d)
    ensures hs[calls[n].call].To? ==> hs[calls[n].call].str.data != d
  {
    hide Fair, Held;
    var c := calls[n].call;
    ReleasedWasHeld(calls, n);
    if ContentOf(calls[c]).Some? {
      assert c in Held(calls, n, ContentOf(calls[c]).value);
    }
  }

  /** What a call releases is held, under its own content only. */
  lemma {:induction false} ReleasedWasHeld(calls: seq<Command>, n: nat)
    requires Fair(calls) && n < |calls| && calls[n].Release?
    ensures calls[n].call < n && calls[calls[n].call].Issue?
    ensures forall d :: calls[n].call in Held(calls, n, d) <==> ContentOf(calls[calls[n].call]) == Some(d)
  {
    forall j | 0 <= j < n ensures calls[j] != Release(calls[n].call) {
    }
  }

  lemma {:induction false} StillHeld(held: set<nat>, k: nat, c: nat)
    requires k in held && c in held && k != c
    ensures |held| >= 2
  {
    assert k in held - {c};
    assert |held - {c}| >= 1;
  }

  /** Runs any fair sequence of calls on a new pool.  The handles held at the end are the same exactly if
      their contents are, their strings are counted as often as they are held, and a content is in the
      pool exactly as long as a handle to it is held. */
  method RunCalls(calls: seq<Command>) returns (p: Pool, hs: seq<Handle>)
    requires Fair(calls)
    ensures p.Valid() && Kept(calls, |calls|, p.byData, p.out, hs)
    ensures forall j, k, d, e :: j in Held(calls, |calls|, d) && k in Held(calls, |calls|, e) ==>
      (hs[j] == hs[k] <==> d == e)
    ensures forall k, d :: k in Held(calls, |calls|, d) ==>
      hs[k].To? && hs[k].str.data == d && hs[k].str.count == |Held(calls, |calls|, d)|
    ensures forall d :: d in p.byData <==> Held(calls, |calls|, d) != {}
  {
    hide Kept, Held, Pool.Valid, Fair;
    p := new Pool();
    hs := [];
    NothingKept(calls);
    for n := 0 to |calls|
      invariant fresh(p) && fresh(p.byAddress) && p.Valid() && Kept(calls, n, p.byData, p.out, hs)
    {
      hs := OneCall(calls, n, p, hs);
    }
    AllIssued(calls, p.byData, p.out, hs);
    forall j, k, d, e | j in Held(calls, |calls|, d) && k in Held(calls, |calls|, e)
      ensures hs[j] == hs[k] <==> d == e
      ensures hs[j].To? && hs[j].str.data == d && hs[j].str.count == |Held(calls, |calls|, d)|
    {
      SharedHandle(calls, p, hs, j, k, d, e);
    }
    forall d ensures d in p.byData <==> Held(calls, |calls|, d) != {} {
      FreedWithLastHandle(calls, p, hs, d);
    }
  }

  lemma {:induction false} AllIssued(calls: seq<Command>, byData: map<string, Str>, out: map<Str, nat>, hs: seq<Handle>)
    requires Fair(calls) && Kept(calls, |calls|, byData, out, hs)
    ensures |hs| == |calls| && forall k, d :: k in Held(calls, |calls|, d) ==> hs[k].To?
  {
    hide Fair, Counted, Reissued, Held;
  }

  lemma {:induction false} NothingKept(calls: seq<Command>)
    requires Fair(calls)
    ensures Kept(calls, 0, map[], map[], [])
  {
    forall d ensures Held(calls, 0, d) == {} {
    }
  }

  method OneCall(calls: seq<Command>, n: nat, p: Pool, before: seq<Handle>) returns (hs: seq<Handle>)
    requires Fair(calls) && n < |calls| && p.Valid() && Kept(calls, n, p.byData, p.out, before)
    modifies p, p.byAddress`count
    ensures p.Valid() && Kept(calls, n + 1, p.byData, p.out, hs)
    ensures forall s :: s in p.byAddress ==> s in old(p.byAddress) || fresh(s)
  {
    hide Held, Pool.Valid, OutOf, Counted, Led, Reissued;
    ghost var byData, out := p.byData, p.out;
    InPool(p);
    FairHere(calls, n);
    var h := Null;
    if calls[n].Issue? {
      if calls[n].isData {
        h := p.DataDup(calls[n].src, calls[n].len);
      } else {
        h := p.StrNDup(calls[n].src, calls[n].len);
      }
      LedAfterIssue(calls, n, byData, before, p.byData, h);
    } else {
      ReleasedHandle(calls, n, byData, before);
      p.Free(before[calls[n].call]);
      LedAfterRelease(calls, n, byData, out, before, p.byData);
    }
    forall d ensures OutOf(p.byData, p.out, d) == OutOf(byData, out, d) + Change(calls, n, d) {
      assert p.Out(d) == OutOf(p.byData, p.out, d);
    }
    CountedNext(calls, n, byData, out, p.byData, p.out);
    ReissuedNext(calls, n, byData, before, h);
    hs := before + [h];
  }

  lemma {:induction false} FairHere(calls: seq<Command>, n: nat)
    requires Fair(calls) && n < |calls|
    ensures var c := calls[n];
      if c.Issue? then ContentOf(c) == Content(c.src, c.len) else ContentOf(c) == None && c.call < n
  {
  }

  /** A handle to be released leads to the string of its content, if it has one. */
  lemma {:induction false} ReleasedHandle(calls: seq<Command>, n: nat, byData: map<string, Str>, hs: seq<Handle>)
    requires Fair(calls) && n < |calls| && calls[n].Release? && |hs| == n && Led(calls, n, byData, hs)
    requires forall d :: d in byData ==> byData[d].data == d
    ensures match ContentOf(calls[calls[n].call])
      case None => !hs[calls[n].call].To?
      case Some(d) => d in byData && hs[calls[n].call] == To(byData[d]) && byData[d].data == d
  {
    hide Held, Fair;
    ReleasedWasHeld(calls, n);
  }

  lemma {:induction false} InPool(p: Pool)
    requires p.Valid()
    ensures forall d :: d in p.byData ==> p.byData[d].data == d && p.byData[d] in p.out
  {
  }

  /** Handles to the same content are the same, and to others they are not. */
  lemma {:induction false} SharedHandle(calls: seq<Command>, p: Pool, hs: seq<Handle>, j: nat, k: nat, d: string,
                                        e: string)
    requires Fair(calls) && p.Valid() && Kept(calls, |calls|, p.byData, p.out, hs)
    requires j in Held(calls, |calls|, d) && k in Held(calls, |calls|, e)
    ensures hs[j] == hs[k] <==> d == e
    ensures hs[j].To? && hs[j].str.data == d && hs[j].str.count == |Held(calls, |calls|, d)|
  {
    assert p.Out(d) == |Held(calls, |calls|, d)|;
  }

  /** A content is in the pool exactly as long as a handle to it is held. */
  lemma {:induction false} FreedWithLastHandle(calls: seq<Command>, p: Pool, hs: seq<Handle>, d: string)
    requires Fair(calls) && p.Valid() && Kept(calls, |calls|, p.byData, p.out, hs)
    ensures d in p.byData <==> Held(calls, |calls|, d) != {}
  {
    assert p.Out(d) == |Held(calls, |calls|, d)|;
  }
}
