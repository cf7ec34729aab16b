/** yconn_default_recv (ydb/ydb.c): cutting the byte stream of a connection into messages, however the
    reads cut it. */
module Framing {
  import opened Common

  /** YMSG_END_DELIMITER */
  const END := "\n...\n"

  predicate EndAt(s: string, i: nat) {
    i + |END| <= |s| && s[i..i + |END|] == END
  }

  /** strstr for the delimiter, from a place on; the length of `s` if there is none. */
  function Find(s: string, from: nat): (at: nat)
    requires from <= |s|
    ensures from <= at <= |s| && forall i :: from <= i < at ==> !EndAt(s, i)
    ensures at < |s| ==> EndAt(s, at) && at + |END| <= |s|
    decreases |s| - from
  {
    if from == |s| || EndAt(s, from) then from else Find(s, from + 1)
  }

  /** The stream cut after each leftmost delimiter, and what is left over. */
  function Messages(s: string): seq<string>
    decreases |s|
  {
    var at := Find(s, 0);
    if at == |s| then [] else [s[..at + |END|]] + Messages(s[at + |END|..])
  }

  function Rest(s: string): string
    decreases |s|
  {
    var at := Find(s, 0);
    if at == |s| then s else Rest(s[at + |END|..])
  }

  function Flat(parts: seq<string>): string {
    if parts == [] then "" else Flat(parts[..|parts| - 1]) + parts[|parts| - 1]
  }

  /** A delimiter at the end and none before. */
  ghost predicate IsMessage(m: string) {
    |m| >= |END| && Find(m, 0) == |m| - |END|
  }

  /** The end of a line and then a line of three dots. */
  predicate DotsAt(m: string, i: int) {
    0 <= i && i + 5 <= |m| && m[i..i + 5] == "\n...\n"
  }

  /** A message ends with a line of three dots and has no such line before. */
  lemma {:induction false} MessageText(m: string)
    ensures IsMessage(m) <==> DotsAt(m, |m| - 5) && forall i :: 0 <= i < |m| - 5 ==> !DotsAt(m, i)
  {
    assert forall i: nat :: EndAt(m, i) <==> DotsAt(m, i);
    if DotsAt(m, |m| - 5) && forall i :: 0 <= i < |m| - 5 ==> !DotsAt(m, i) {
      FindIs(m, 0, |m| - 5);
    }
  }

  lemma {:induction false} FindIs(s: string, from: nat, at: nat)
    requires from <= at <= |s| && (at < |s| ==> EndAt(s, at)) && forall i :: from <= i < at ==> !EndAt(s, i)
    ensures Find(s, from) == at
  {
    hide Find, EndAt;
    var f := Find(s, from);
    assert at < f ==> EndAt(s, at);
  }

  lemma {:induction false} EndSame(s: string, end: nat, i: nat)
    requires i + |END| <= end <= |s|
    ensures EndAt(s[..end], i) == EndAt(s, i)
  {
    assert s[i..i + |END|] == s[..end][i..i + |END|];
  }

  lemma {:induction false} MessageFirst(m: string, rest: string)
    requires IsMessage(m)
    ensures Find(m + rest, 0) == |m| - |END|
    ensures Messages(m + rest) == [m] + Messages(rest) && Rest(m + rest) == Rest(rest)
  {
    var s, at := m + rest, |m| - |END|;
    hide EndAt, Find;
    assert s[..|m|] == m && s[|m|..] == rest;
    forall i: nat | i <= at ensures EndAt(s, i) == EndAt(m, i) {
      EndSame(s, |m|, i);
    }
    FindIs(s, 0, at);
    MessagesNext(s);
  }

  /** Messages followed by anything are the first messages of the whole. */
  lemma {:induction false} MessagesFirst(ms: seq<string>, rest: string)
    requires forall i :: 0 <= i < |ms| ==> IsMessage(ms[i])
    ensures Messages(Flat(ms) + rest) == ms + Messages(rest) && Rest(Flat(ms) + rest) == Rest(rest)
  {
    hide IsMessage, Messages, Rest;
    if ms == [] {
      assert Flat(ms) + rest == rest;
    } else {
      var init, last := ms[..|ms| - 1], ms[|ms| - 1];
      MessagesFirst(init, last + rest);
      MessageFirst(last, rest);
      assert Flat(ms) + rest == Flat(init) + (last + rest);
      assert init + ([last] + Messages(rest)) == ms + Messages(rest);
    }
  }

  /** Cutting loses nothing, cuts out messages only and leaves no delimiter behind. */
  lemma {:induction false} SplitIsExact(s: string)
    ensures Flat(Messages(s)) + Rest(s) == s && Find(Rest(s), 0) == |Rest(s)|
    ensures forall i :: 0 <= i < |Messages(s)| ==> IsMessage(Messages(s)[i])
    decreases |s|
  {
    hide IsMessage, Flat, Find, Messages, Rest;
    MessagesNext(s);
    var at := Find(s, 0);
    if at < |s| {
      var m, rest := s[..at + |END|], s[at + |END|..];
      SplitIsExact(rest);
      CutMessage(s, at);
      FlatCons(m, Messages(rest));
      Joined(m, Flat(Messages(rest)), Rest(rest));
      assert m + rest == s;
    } else {
      FlatNone();
      assert "" + s == s;
    }
  }

  lemma {:induction false} MessagesNext(s: string)
    ensures var at := Find(s, 0);
      Messages(s) == if at == |s| then [] else [s[..at + |END|]] + Messages(s[at + |END|..])
    ensures var at := Find(s, 0); Rest(s) == if at == |s| then s else Rest(s[at + |END|..])
  {
    hide Find, EndAt, Messages, Rest;
    MessagesHere(s);
    RestHere(s);
  }

  lemma {:induction false} MessagesHere(s: string)
    ensures var at := Find(s, 0);
      Messages(s) == if at == |s| then [] else [s[..at + |END|]] + Messages(s[at + |END|..])
  {
    hide Find, EndAt, Rest;
  }

  lemma {:induction false} RestHere(s: string)
    ensures var at := Find(s, 0); Rest(s) == if at == |s| then s else Rest(s[at + |END|..])
  {
    hide Find, EndAt, Messages;
  }

  lemma {:induction false} Joined(a: string, b: string, c: string)
    ensures a + b + c == a + (b + c)
  {
  }

  lemma {:induction false} FlatNone()
    ensures Flat([]) == ""
  {
  }

  lemma {:induction false} FlatCons(m: string, ms: seq<string>)
    ensures Flat([m] + ms) == m + Flat(ms)
  {
    if ms == [] {
      assert [m] + ms == [m] && [m][..0] == [];
    } else {
      var init, last := ms[..|ms| - 1], ms[|ms| - 1];
      FlatCons(m, init);
      assert ([m] + ms)[..|ms|] == [m] + init;
      FlatMore([m] + ms, last);
      FlatMore(ms, last);
      Joined(m, Flat(init), last);
      hide Flat;
    }
  }

  lemma {:induction false} CutMessage(s: string, at: nat)
    requires at == Find(s, 0) < |s|
    ensures IsMessage(s[..at + |END|])
  {
    var m := s[..at + |END|];
    hide Find, EndAt;
    forall i: nat | i <= at ensures EndAt(m, i) == EndAt(s, i) {
      EndSame(s, |m|, i);
    }
    FindIs(m, 0, at);
  }

  /** It is enough to search from a little before the bytes just read. */
  lemma {:induction false} SearchBack(kept: string, data: string, from: nat)
    requires Find(kept, 0) == |kept| && from <= |kept| && (from > 0 ==> from + |END| <= |kept| + 1)
    ensures Find(kept + data, from) == Find(kept + data, 0)
  {
    hide Find, EndAt;
    var s := kept + data;
    assert s[..|kept|] == kept;
    forall i: nat | i < from ensures !EndAt(s, i) {
      EndSame(s, |kept|, i);
    }
    FindIs(s, 0, Find(s, from));
  }

  lemma {:induction false} CutAt(s: string, used: nat, at: nat)
    requires used <= at < |s| && EndAt(s, at) && Find(s[used..], 0) == at - used
    ensures IsMessage(s[used..at + |END|]) && s[used..] == s[used..at + |END|] + s[at + |END|..]
  {
    hide Find, EndAt;
    CutMessage(s[used..], at - used);
    assert s[used..][..at - used + |END|] == s[used..at + |END|];
  }

  // ---------- receiving ----------

  const RECV_BUF_SIZE := 2048

  /** What one read brings: some bytes, or none with the length and whether errno says to try again. */
  datatype Read = Bytes(data: string) | NoBytes(len: int, again: bool)

  /** A read fits the buffer, and text holds no NUL, where strstr would stop. */
  predicate ReadOk(r: Read) {
    match r
    case Bytes(data) => 0 < |data| <= RECV_BUF_SIZE && '\0' !in data
    case NoBytes(len, _) => len <= 0
  }

  datatype Status = Ok | ConnFailed | ConnClosed

  class Receiver {
    var open: bool         // recv.fp
    var buf: string
    var used: nat          // recv.bufused
    var next: bool
    var disconnected: bool
    /** All bytes read, the messages handed out, and the bytes dropped when the connection went down. */
    ghost var stream: string
    ghost var delivered: seq<string>
    ghost var dropped: string

    ghost predicate Valid()
      reads this
    {
      used <= |buf| &&
      (next ==> open) &&
      (disconnected ==> !open) &&
      (!disconnected ==> dropped == "") &&
      // nothing to hand out is kept while waiting for more bytes
      (open && !next ==> used == 0 && Find(buf, 0) == |buf|) &&
      (forall i :: 0 <= i < |delivered| ==> IsMessage(delivered[i])) &&
      stream == Flat(delivered) + Kept() + dropped
    }

    /** The bytes read and not handed out yet. */
    ghost function Kept(): string
      reads this
      requires used <= |buf|
    {
      if open then buf[used..] else ""
    }

    constructor ()
      ensures Valid() && !disconnected && !next && stream == "" && delivered == []
    {
      open, buf, used, next, disconnected := false, "", 0, false, false;
      stream, delivered, dropped := "", [], "";
    }

    /** strstr */
    method StrStr(from: nat) returns (at: nat)
      requires from <= |buf|
      ensures at == Find(buf, from)
    {
      at := from;
      while at < |buf| && !(at + |END| <= |buf| && buf[at..at + |END|] == END)
        invariant from <= at <= |buf| && Find(buf, from) == Find(buf, at)
      {
        at := at + 1;
      }
    }

    /** Hands out the message that ends with the delimiter at `at`. */
    method Deliver(at: nat) returns (msg: string, more: bool)
      requires used <= at < |buf| && EndAt(buf, at) && open && !disconnected && dropped == ""
      requires Find(buf[used..], 0) == at - used
      requires (forall i :: 0 <= i < |delivered| ==> IsMessage(delivered[i])) && stream == Flat(delivered) + Kept()
      modifies this
      ensures Valid() && !disconnected && stream == old(stream) && delivered == old(delivered) + [msg]
      ensures more == next && (more <==> Kept() != "") && old(Kept()) == msg + Kept() && msg != ""
    {
      hide IsMessage, Flat, Find;
      var end := at + |END|;
      CutAt(buf, used, at);
      msg := buf[used..end];
      next := end < |buf|;
      more := next;
      open := next;
      used := end;
      Joined(Flat(delivered), msg, Kept());
      delivered := delivered + [msg];
      FlatMore(delivered, msg);
      assert delivered[..|delivered| - 1] == old(delivered);
    }

    /** Takes the connection down and drops what was kept. */
    method Close()
      requires Valid() && open
      modifies this
      ensures Valid() && disconnected && stream == old(stream) && delivered == old(delivered)
    {
      dropped := Kept();
      disconnected, open, buf, used, next := true, false, "", 0, false;
    }

    /** Gets ready to read: what has been handed out already leaves the buffer. */
    method Compact()
      requires Valid() && !disconnected && (next ==> Find(buf, used) == |buf|)
      modifies this`open, this`buf, this`used, this`next
      ensures Valid() && open && !next && used == 0 && Kept() == old(Kept()) == buf
    {
      if !open {
        open, buf, used := true, "", 0;
      } else if next {
        FindShifted(buf, used, used);
        buf := buf[used..];
        used, next := 0, false;
      }
    }

    /** yconn_default_recv; `asked` tells whether the read was made. */
    method Recv(r: Read) returns (status: Status, msg: Option<string>, more: bool, asked: bool)
      requires Valid() && ReadOk(r)
      modifies this
      ensures Valid()
      ensures stream == old(stream) + if asked && r.Bytes? then r.data else ""
      ensures delivered == old(delivered) + if msg.Some? then [msg.value] else []
      ensures msg.Some? ==> status.Ok? && (more <==> Kept() != "")
      ensures more || asked || msg.Some? || !status.Ok?
      // unless there is more to come at once, all of the stream so far has been handed out
      ensures status.Ok? && !more ==> delivered == Messages(stream) && Kept() == Rest(stream)
      ensures old(disconnected) ==> status.ConnFailed? && !asked
      ensures !old(disconnected) ==> (disconnected <==> !status.Ok?)
      ensures !status.Ok? ==>
        old(disconnected) || (asked && r.NoBytes? && !r.again && (status.ConnClosed? <==> r.len == 0))
      ensures asked && r.NoBytes? && r.again ==> msg.None? && !more && Kept() == old(Kept())
      ensures !asked ==> |Kept()| < |old(Kept())| || old(disconnected)
    {
      hide Messages, Rest, IsMessage, Flat, Find;
      msg, more, asked := None, false, false;
      if disconnected {
        return ConnFailed, None, false, false;
      }
      status := Ok;
      if next {
        var at := StrStr(used);
        FindShifted(buf, used, used);
        if at < |buf| {
          var m;
          m, more := Deliver(at);
          msg := Some(m);
          if !more {
            AllDelivered();
          }
          return;
        }
      }
      Compact();
      asked := true;
      match r
      case NoBytes(len, again) =>
        if again {
          AllDelivered();
        } else {
          Close();
          status := if len == 0 then ConnClosed else ConnFailed;
        }
      case Bytes(data) =>
        msg, more := Take(data);
    }

    /** Appends the bytes read and looks for a delimiter, going back no further than it is long. */
    method Take(data: string) returns (msg: Option<string>, more: bool)
      requires Valid() && open && !next && !disconnected
      modifies this
      ensures Valid() && !disconnected && stream == old(stream) + data
      ensures delivered == old(delivered) + if msg.Some? then [msg.value] else []
      ensures more ==> msg.Some?
      ensures msg.Some? ==> (more <==> Kept() != "")
      ensures !more ==> delivered == Messages(stream) && Kept() == Rest(stream)
    {
      hide Messages, Rest, IsMessage, Flat, Find;
      ghost var kept := buf;
      buf := buf + data;
      stream := stream + data;
      var start := if |buf| - used >= |data| + |END| then |buf| - (|data| + |END|) else used;
      SearchBack(kept, data, start);
      Joined(Flat(delivered), kept, data);
      var at := StrStr(start);
      assert buf[0..] == buf;
      if at < |buf| {
        var m;
        m, more := Deliver(at);
        msg := Some(m);
        if !more {
          AllDelivered();
        }
      } else {
        msg, more := None, false;
        AllDelivered();
      }
    }

    lemma {:induction false} AllDelivered()
      requires Valid() && !next && !disconnected
      ensures delivered == Messages(stream) && Kept() == Rest(stream)
    {
      hide IsMessage, Flat, Find, Messages, Rest;
      var kept := Kept();
      assert open ==> kept == buf;
      NoDelimiter(kept);
      MessagesFirst(delivered, kept);
      assert stream == Flat(delivered) + kept;
    }
  }

  lemma {:induction false} NoDelimiter(s: string)
    ensures s == "" || Find(s, 0) == |s| ==> Messages(s) == [] && Rest(s) == s
  {
    hide EndAt;
    RestHere(s);
    MessagesHere(s);
  }

  lemma {:induction false} FlatMore(ms: seq<string>, m: string)
    requires ms != [] && ms[|ms| - 1] == m
    ensures Flat(ms) == Flat(ms[..|ms| - 1]) + m
  {
  }

  /** Searching from a place on is searching what follows it. */
  lemma {:induction false} FindShifted(s: string, used: nat, from: nat)
    requires used <= from <= |s|
    ensures Find(s[used..], from - used) == Find(s, from) - used
    decreases |s| - from
  {
    assert from + |END| <= |s| ==> s[used..][from - used..from - used + |END|] == s[from..from + |END|];
    if from < |s| && !EndAt(s, from) {
      FindShifted(s, used, from + 1);
    }
  }

  /** The bytes of a series of reads. */
  function Data(rs: seq<Read>): string {
    if rs == [] then ""
    else Data(rs[..|rs| - 1]) + if rs[|rs| - 1].Bytes? then rs[|rs| - 1].data else ""
  }

  lemma {:induction false} DataNext(rs: seq<Read>, i: nat)
    requires i < |rs|
    ensures Data(rs[..i + 1]) == Data(rs[..i]) + if rs[i].Bytes? then rs[i].data else ""
  {
    assert rs[..i + 1][..i] == rs[..i];
  }

  /** The loops of yconn_serve around a connection: while there is more at once, else at the next read.
      However the bytes are cut into reads, the messages are those of the whole stream. */
  method ReceiveAll(rs: seq<Read>) returns (msgs: seq<string>, kept: string)
    requires forall i :: 0 <= i < |rs| ==> ReadOk(rs[i]) && (rs[i].NoBytes? ==> rs[i].again)
    ensures msgs == Messages(Data(rs)) && kept == Rest(Data(rs))
  {
    hide Messages, Rest, IsMessage, Flat, Find;
    var c := new Receiver();
    var i, more := 0, false;
    msgs := [];
    assert rs[..0] == [];
    c.AllDelivered();
    while i < |rs| || more
      invariant 0 <= i <= |rs| && c.Valid() && !c.disconnected
      invariant c.stream == Data(rs[..i]) && msgs == c.delivered
      invariant !more ==> c.delivered == Messages(c.stream) && c.Kept() == Rest(c.stream)
      decreases |rs| - i, |c.Kept()|, more
    {
      var status, msg, next, asked := c.Recv(if i < |rs| then rs[i] else NoBytes(-1, true));
      if asked && i < |rs| {
        DataNext(rs, i);
        i := i + 1;
      }
      if msg.Some? {
        msgs := msgs + [msg.value];
      }
      more := next;
    }
    assert rs[..i] == rs;
    kept := if c.open then c.buf[c.used..] else "";
  }
}
