/** ydb/ylist.c: a doubly linked list closed to a ring by a cell without data. */
module YList {
  import opened Common

  class Cell<T> {
    var next: Cell?<T>
    var prev: Cell?<T>
    const data: Option<T>

    constructor (data: Option<T>)
      ensures this.data == data
    {
      next, prev := null, null;
      this.data := data;
    }
  }

  /** Neighbours in `ring` refer to each other. */
  ghost predicate Linked<T>(ring: seq<Cell<T>>)
    reads (set c | c in ring)`next, (set c | c in ring)`prev
  {
    forall i, j :: 0 <= i < |ring| && 0 <= j < |ring| && j == i + 1 ==>
      ring[i].next == ring[j] && ring[j].prev == ring[i]
  }

  ghost predicate Full<T>(cells: seq<Cell<T>>) {
    forall i :: 0 <= i < |cells| ==> cells[i].data.Some?
  }

  ghost function DataOf<T>(cells: seq<Cell<T>>): (r: seq<T>)
    requires Full(cells)
    ensures |r| == |cells| && forall i :: 0 <= i < |r| ==> cells[i].data == Some(r[i])
  {
    seq(|cells|, i requires 0 <= i < |cells| => cells[i].data.value)
  }

  class List<T> {
    const head: Cell<T>
    var size: nat
    /** The cells from the first to the last. */
    ghost var cells: seq<Cell<T>>

    ghost predicate Valid()
      reads this, head, cells
    {
      Linked([head] + cells + [head]) && NoRepeats([head] + cells) && size == |cells| && head.data == None &&
        Full(cells)
    }

    /** ylist_create */
    constructor ()
      ensures Valid() && cells == [] && fresh(head)
    {
      head := new Cell(None);
      size := 0;
      cells := [];
      new;
      head.next := head;
      head.prev := head;
    }

    /** The cell at place `at` of the ring has these neighbours. */
    lemma {:induction false} Around(at: nat)
      requires Valid() && at <= |cells|
      ensures var before, after := ([head] + cells)[at], (cells + [head])[at];
        before.next == after && after.prev == before && before in [head] + cells && after in [head] + cells
      ensures at < |cells| ==> (cells + [head])[at] == cells[at] && cells[at] != head
      ensures at > 0 ==> ([head] + cells)[at] == cells[at - 1]
      ensures at == 0 ==> ([head] + cells)[at] == head
      ensures at == |cells| ==> (cells + [head])[at] == head
    {
      var ring := [head] + cells + [head];
      assert ring[at] == ([head] + cells)[at] && ring[at + 1] == (cells + [head])[at];
      if at < |cells| {
        assert ([head] + cells)[at + 1] == cells[at] && ([head] + cells)[0] == head;
      }
    }

    /** ylist_push_front */
    method PushFront(data: T) returns (iter: Cell<T>)
      requires Valid()
      modifies this`size, this`cells, head, cells
      ensures Valid() && fresh(iter) && iter.data == Some(data) && cells == [iter] + old(cells)
    {
      hide Linked, NoRepeats;
      iter := new Cell(Some(data));
      LinkIn(iter, head, 0);
    }

    /** ylist_push_back */
    method PushBack(data: T) returns (iter: Cell<T>)
      requires Valid()
      modifies this`size, this`cells, head, cells
      ensures Valid() && fresh(iter) && iter.data == Some(data) && cells == old(cells) + [iter]
    {
      hide Linked, NoRepeats;
      Around(|cells|);
      iter := new Cell(Some(data));
      LinkIn(iter, head.prev, |cells|);
    }

    /** ylist_insert: behind a cell, which may be the head; at the end without one. */
    method Insert(iter: Cell?<T>, data: T, ghost at: nat) returns (created: Cell<T>)
      requires Valid() && at <= |cells|
      requires if iter == null then at == |cells| else iter == ([head] + cells)[at]
      modifies this`size, this`cells, head, cells
      ensures Valid() && fresh(created) && created.data == Some(data)
      ensures cells == old(cells)[..at] + [created] + old(cells)[at..]
    {
      hide Linked, NoRepeats;
      if iter == null {
        created := PushBack(data);
      } else {
        created := new Cell(Some(data));
        LinkIn(created, iter, at);
      }
    }

    /** ylist_pop_front */
    method PopFront() returns (data: Option<T>)
      requires Valid()
      modifies this`size, this`cells, head, cells
      ensures Valid()
      ensures if old(cells) == [] then data == None && cells == []
              else data == old(cells)[0].data && cells == old(cells)[1..]
    {
      hide Linked;
      Around(0);
      var iter := head.next;
      if iter == head {
        return None;
      }
      data := iter.data;
      Unlink(iter, 0);
    }

    /** ylist_pop_back */
    method PopBack() returns (data: Option<T>)
      requires Valid()
      modifies this`size, this`cells, head, cells
      ensures Valid()
      ensures if old(cells) == [] then data == None && cells == []
              else data == old(cells)[|old(cells)| - 1].data && cells == old(cells)[..|old(cells)| - 1]
    {
      hide Linked;
      Around(|cells|);
      var iter := head.prev;
      if iter == head {
        HeadApart();
        return None;
      }
      data := iter.data;
      Unlink(iter, |cells| - 1);
    }

    lemma {:induction false} HeadApart()
      requires Valid()
      ensures head !in cells
    {
      assert forall i :: 0 <= i < |cells| ==> ([head] + cells)[i + 1] == cells[i] && ([head] + cells)[0] == head;
    }

    /** ylist_erase: returns the cell before, which is the head if the first cell goes. */
    method Erase(iter: Cell<T>, ghost at: nat) returns (before: Cell<T>)
      requires Valid() && at < |cells| && cells[at] == iter
      modifies this`size, this`cells, head, cells
      ensures Valid() && cells == old(cells)[..at] + old(cells)[at + 1..] && before == ([head] + cells)[at]
    {
      hide Linked, NoRepeats;
      Around(at);
      before := iter.prev;
      Unlink(iter, at);
    }

    // Walking the list; `at` counts the cells before and with the current one.

    /** ylist_next: behind the head comes the first cell, behind the last one none. */
    method Next(iter: Cell<T>, ghost at: nat) returns (next: Cell?<T>)
      requires Valid() && at <= |cells| && iter == ([head] + cells)[at]
      ensures next == if at < |cells| then cells[at] else null
    {
      hide Linked, NoRepeats;
      Around(at);
      HeadApart();
      next := if iter.next == head then null else iter.next;
    }

    /** ylist_prev */
    method Prev(iter: Cell<T>, ghost at: nat) returns (before: Cell?<T>)
      requires Valid() && at < |cells| && iter == cells[at]
      ensures before == if at > 0 then cells[at - 1] else null
    {
      hide Linked, NoRepeats;
      Around(at);
      HeadApart();
      before := if iter.prev == head then null else iter.prev;
    }

    /** ylist_first */
    method First() returns (iter: Cell?<T>)
      requires Valid()
      ensures iter == if cells == [] then null else cells[0]
    {
      hide Linked, NoRepeats;
      Around(0);
      HeadApart();
      iter := if head.next == head then null else head.next;
    }

    /** ylist_last */
    method Last() returns (iter: Cell?<T>)
      requires Valid()
      ensures iter == if cells == [] then null else cells[|cells| - 1]
    {
      hide Linked, NoRepeats;
      Around(|cells|);
      HeadApart();
      iter := if head.prev == head then null else head.prev;
    }

    /** ylist_index */
    method Index(index: int) returns (iter: Cell?<T>)
      requires Valid()
      ensures iter == if 0 <= index < |cells| then cells[index] else null
    {
      hide Linked, NoRepeats;
      iter := First();
      var count := 0;
      while iter != null
        invariant count <= |cells| && iter == (if count < |cells| then cells[count] else null) &&
          (index < 0 || count <= index || index >= |cells|)
        decreases |cells| - count
      {
        if count == index {
          return;
        }
        assert ([head] + cells)[count + 1] == cells[count];
        iter := Next(iter, count + 1);
        count := count + 1;
      }
    }

    /** Closes the ring around a new cell behind `before`. */
    method LinkIn(c: Cell<T>, before: Cell<T>, ghost at: nat)
      requires Valid() && at <= |cells| && before == ([head] + cells)[at] && c !in [head] + cells && c.data.Some?
      modifies this`size, this`cells, c, head, cells
      ensures Valid() && cells == old(cells)[..at] + [c] + old(cells)[at..]
    {
      Around(at);
      var after := before.next;
      ghost var ring := [head] + cells + [head];
      assert ring[at] == before && ring[at + 1] == after;
      RingApart(head, cells);
      c.next := after;
      c.prev := before;
      after.prev := c;
      before.next := c;
      size := size + 1;
      LinkedInsert(head, cells, at, c);
      cells := cells[..at] + [c] + cells[at..];
    }

    /** Closes the ring behind a cell that leaves it. */
    method Unlink(iter: Cell<T>, ghost at: nat)
      requires Valid() && at < |cells| && cells[at] == iter
      modifies this`size, this`cells, head, cells
      ensures Valid() && cells == old(cells)[..at] + old(cells)[at + 1..]
    {
      Around(at);
      Around(at + 1);
      var before, after := iter.prev, iter.next;
      ghost var ring := [head] + cells + [head];
      assert ring[at] == before && ring[at + 1] == iter && ring[at + 2] == after;
      RingApart(head, cells);
      before.next := after;
      after.prev := before;
      size := size - 1;
      LinkedRemove(head, cells, at);
      cells := cells[..at] + cells[at + 1..];
    }
  }

  /** Only the head is twice in the ring, at its ends. */
  lemma {:induction false} RingApart<T>(head: Cell<T>, cells: seq<Cell<T>>)
    requires NoRepeats([head] + cells)
    ensures var ring := [head] + cells + [head]; forall i, j :: 0 <= i < j < |ring| && ring[i] == ring[j] ==>
      i == 0 && j == |ring| - 1
  {
    var ring := [head] + cells + [head];
    assert forall i :: 0 <= i < |ring| - 1 ==> ring[i] == ([head] + cells)[i];
    assert ring[|ring| - 1] == ([head] + cells)[0];
  }

  lemma {:induction false} LinkedInsert<T>(head: Cell<T>, cells: seq<Cell<T>>, at: nat, c: Cell<T>)
    requires at <= |cells| && NoRepeats([head] + cells) && c !in [head] + cells
    requires var ring := [head] + cells + [head];
      (forall i, j :: 0 <= i < |ring| && 0 <= j < |ring| && j == i + 1 && i != at ==>
        ring[i].next == ring[j] && ring[j].prev == ring[i])
      && ring[at].next == c && c.prev == ring[at] && c.next == ring[at + 1] && ring[at + 1].prev == c
    ensures var u := cells[..at] + [c] + cells[at..]; Linked([head] + u + [head]) && NoRepeats([head] + u)
  {
    var ring, u := [head] + cells + [head], cells[..at] + [c] + cells[at..];
    var r := [head] + u + [head];
    assert r == ring[..at + 1] + [c] + ring[at + 1..];
    assert [head] + u == ([head] + cells)[..at + 1] + [c] + ([head] + cells)[at + 1..];
  }

  lemma {:induction false} LinkedRemove<T>(head: Cell<T>, cells: seq<Cell<T>>, at: nat)
    requires at < |cells| && NoRepeats([head] + cells)
    requires var ring := [head] + cells + [head];
      (forall i, j :: 0 <= i < |ring| && 0 <= j < |ring| && j == i + 1 && i != at && j != at + 2 ==>
        ring[i].next == ring[j] && ring[j].prev == ring[i])
      && ring[at].next == ring[at + 2] && ring[at + 2].prev == ring[at]
    ensures var u := cells[..at] + cells[at + 1..]; Linked([head] + u + [head]) && NoRepeats([head] + u)
  {
    var ring, u := [head] + cells + [head], cells[..at] + cells[at + 1..];
    assert [head] + u + [head] == ring[..at + 1] + ring[at + 2..];
    assert [head] + u == ([head] + cells)[..at + 1] + ([head] + cells)[at + 2..];
  }
}
