/** ydb/yarray.c: a list of fixed-size ring buffers that together act as one sequence. */
module YArray {

  /** A `void *`: an identity, 0 being the null pointer. */
  type Ptr = int
  const NULL: Ptr := 0

  /** How many values a `size_t` has. */
  const SIZES: nat := 0x1_0000_0000_0000_0000

  /** YINDEX: the cell of the ring that holds the i-th element. */
  function Slot(front: nat, i: nat, fsize: nat): (s: nat)
    requires front < fsize && i <= fsize
    ensures s < fsize
  {
    if front + i < fsize then front + i else front + i - fsize
  }

  /** The source writes the cell as a remainder. */
  lemma {:induction false} SlotIsRemainder(front: nat, i: nat, fsize: nat)
    requires front < fsize && i <= fsize
    ensures Slot(front, i, fsize) == (front + i) % fsize
  {
  }

  class Fragment {
    var n: nat
    var front: nat
    const data: array<Ptr>

    ghost predicate Valid()
      reads this
    {
      front < data.Length && n <= data.Length
    }

    ghost function Elems(): (s: seq<Ptr>)
      requires Valid()
      reads this, data
      ensures |s| == n && forall i :: 0 <= i < n ==> s[i] == data[Slot(front, i, data.Length)]
    {
      seq(n, i requires 0 <= i < n reads this, data requires Valid() => data[Slot(front, i, data.Length)])
    }

    constructor (size: nat)
      requires size > 0
      ensures Valid() && fresh(data) && data.Length == size && Elems() == []
    {
      n := 0;
      front := 0;
      data := new Ptr[size](_ => NULL);
    }

    method PushBack(x: Ptr)
      requires Valid() && n < data.Length
      modifies this, data
      ensures Valid() && Elems() == old(Elems()) + [x]
    {
      data[Slot(front, n, data.Length)] := x;
      n := n + 1;
    }

    method PushFront(x: Ptr)
      requires Valid() && n < data.Length
      modifies this, data
      ensures Valid() && Elems() == [x] + old(Elems())
    {
      front := if front == 0 then data.Length - 1 else front - 1;
      data[Slot(front, 0, data.Length)] := x;
      n := n + 1;
    }

    method PopBack() returns (x: Ptr)
      requires Valid() && n > 0
      modifies this, data
      ensures Valid() && old(Elems()) == Elems() + [x]
    {
      var index := Slot(front, n - 1, data.Length);
      x := data[index];
      data[index] := NULL;
      n := n - 1;
    }

    method PopFront() returns (x: Ptr)
      requires Valid() && n > 0
      modifies this, data
      ensures Valid() && old(Elems()) == [x] + Elems()
    {
      var index := Slot(front, 0, data.Length);
      x := data[index];
      data[index] := NULL;
      front := Slot(front, 1, data.Length);
      n := n - 1;
    }

    // fra->data[YINDEX(fra, i)], read and written

    function Get(i: nat): (x: Ptr)
      requires Valid() && i < n
      reads this, data
      ensures x == Elems()[i]
    {
      data[Slot(front, i, data.Length)]
    }

    method Set(i: nat, x: Ptr)
      requires Valid() && i < n
      modifies data
      ensures Elems() == old(Elems())[i := x]
    {
      data[Slot(front, i, data.Length)] := x;
    }

    /** Moves the elements before the k-th one cell on, over the k-th, and gives up the first cell. */
    method CloseFromFront(k: nat)
      requires Valid() && k < n
      modifies this, data
      ensures Valid() && Elems() == old(Elems())[..k] + old(Elems())[k + 1..]
    {
      hide Slot, Elems;
      ghost var e := Elems();
      var i := k;
      MovedUp(e, k, k);
      while i > 0
        modifies data
        invariant 0 <= i <= k && Elems() == Overwritten(e, i, k)
      {
        i := i - 1;
        MovedUp(e, i, k);
        var y := Get(i);
        Set(i + 1, y);
      }
      MovedUp(e, 0, k);
      var x := PopFront();
    }

    method CloseFromBack(k: nat)
      requires Valid() && k < n
      modifies this, data
      ensures Valid() && Elems() == old(Elems())[..k] + old(Elems())[k + 1..]
    {
      hide Slot, Elems, MovedSoFar;
      ghost var e := Elems();
      var max := n - k - 1;
      ClosedEnds(e, k);
      for i := 0 to max
        modifies data
        invariant Elems() == MovedSoFar(e, k, i)
      {
        MovedDown(e, k, i);
        var y := Get(k + i + 1);
        Set(k + i, y);
      }
      var x := PopBack();
    }

    /** Takes out the k-th element by moving the shorter side, as yarray_delete does. */
    method RemoveAt(k: nat) returns (x: Ptr)
      requires Valid() && k < n
      modifies this, data
      ensures Valid() && x == old(Elems())[k] && Elems() == old(Elems())[..k] + old(Elems())[k + 1..]
    {
      x := Get(k);
      if k <= n / 2 {
        CloseFromFront(k);
      } else {
        CloseFromBack(k);
      }
    }

    /** Moves the elements before place k one cell back, into a new first cell. */
    method OpenFromFront(k: nat)
      requires Valid() && n < data.Length && k <= n
      modifies this, data
      ensures Valid() && Elems() == Gap(old(Elems()), k)
    {
      hide Slot, Elems, Gap, GapFromBack;
      ghost var e := Elems();
      GapEnds(e);
      PushFront(NULL);
      for i := 0 to k
        modifies data
        invariant Elems() == Gap(e, i)
      {
        GapMoves(e, i);
        var y := Get(i + 1);
        Set(i, y);
      }
    }

    method OpenFromBack(k: nat)
      requires Valid() && n < data.Length && k <= n
      modifies this, data
      ensures Valid() && Elems() == GapFromBack(old(Elems()), k)
    {
      hide Slot, Elems, Gap, GapFromBack;
      ghost var e := Elems();
      GapEnds(e);
      var max := n - k;
      PushBack(NULL);
      for i := 0 to max
        modifies data
        invariant Elems() == GapFromBack(e, n - 1 - i)
      {
        GapMoves(e, n - 2 - i);
        var y := Get(n - 2 - i);
        Set(n - 1 - i, y);
      }
    }

    /** Makes room at place k by moving the shorter side, as yarray_insert does. */
    method InsertAt(k: nat, x: Ptr)
      requires Valid() && n < data.Length && k <= n
      modifies this, data
      ensures Valid() && Elems() == old(Elems())[..k] + [x] + old(Elems())[k..]
    {
      hide Slot, Elems, Gap, GapFromBack;
      GapFilled(Elems(), k, x);
      if k <= n / 2 {
        OpenFromFront(k);
      } else {
        OpenFromBack(k);
      }
      Set(k, x);
    }

    // ---------- moving runs of elements between two fragments ----------

    ghost predicate Apart(other: Fragment) {
      this != other && data != other.data
    }

    /** Counts `max` more cells in front of the first element; they are filled next. */
    method ExtendFront(max: nat)
      requires Valid() && n + max <= data.Length
      modifies this
      ensures Valid() && n == old(n) + max && Elems()[max..] == old(Elems())
    {
      front := if front >= max then front - max else data.Length + front - max;
      n := n + max;
    }

    method ExtendBack(max: nat)
      requires Valid() && n + max <= data.Length
      modifies this
      ensures Valid() && n == old(n) + max && Elems()[..old(n)] == old(Elems())
    {
      n := n + max;
    }

    method DropFront(max: nat)
      requires Valid() && max <= n
      modifies this
      ensures Valid() && Elems() == old(Elems())[max..]
    {
      front := Slot(front, max, data.Length);
      n := n - max;
    }

    method DropBack(max: nat)
      requires Valid() && max <= n
      modifies this
      ensures Valid() && n == old(n) - max && Elems() == old(Elems())[..n]
    {
      n := n - max;
    }

    method CopyOne(tar: Fragment, i: nat, j: nat, clear: bool)
      requires Valid() && tar.Valid() && Apart(tar) && i < n && j < tar.n
      modifies data, tar.data
      ensures tar.Elems() == old(tar.Elems())[j := old(Elems())[i]]
      ensures Elems() == if clear then old(Elems())[i := NULL] else old(Elems())
    {
      hide Slot, Elems;
      tar.Set(j, Get(i));
      if clear {
        Set(i, NULL);
      }
    }

    /** Copies a run of elements onto cells of `tar`; shifting also clears the cells it leaves. */
    method CopyTo(tar: Fragment, from: nat, at: nat, max: nat, clear: bool)
      requires Valid() && tar.Valid() && Apart(tar) && from + max <= n && at + max <= tar.n
      modifies data, tar.data
      ensures tar.Elems() == old(tar.Elems())[..at] + old(Elems())[from..from + max] + old(tar.Elems())[at + max..]
      ensures Elems() == Cleared(old(Elems()), from, max, clear)
      ensures Elems()[..from] == old(Elems())[..from] && Elems()[from + max..] == old(Elems())[from + max..]
    {
      hide Slot, Elems, Copied, Cleared;
      ghost var e, f := Elems(), tar.Elems();
      CopyEnds(f, e, from, at, max, clear);
      for i := 0 to max
        modifies data, tar.data
        invariant tar.Elems() == Copied(f, e, from, at, i) && Elems() == Cleared(e, from, i, clear)
      {
        CopyStep(f, e, from, at, i, max);
        ClearStep(e, from, i, max, clear);
        CopyOne(tar, from + i, at + i, clear);
      }
    }

    /** The loop of yfragment_shift_next: everything from `k` on moves to the front of `tar`. */
    method GiveTail(tar: Fragment, k: nat)
      requires Valid() && tar.Valid() && Apart(tar) && k <= n && tar.n + (n - k) <= tar.data.Length
      modifies this, data, tar, tar.data
      ensures Valid() && tar.Valid() && Elems() == old(Elems())[..k]
      ensures tar.Elems() == old(Elems())[k..] + old(tar.Elems())
    {
      hide Slot, Elems;
      var max := n - k;
      tar.ExtendFront(max);
      CopyTo(tar, k, 0, max, true);
      DropBack(max);
    }

    /** The loop of yfragment_shift_prev: everything before `k` moves to the back of `tar`. */
    method GiveHead(tar: Fragment, k: nat)
      requires Valid() && tar.Valid() && Apart(tar) && k <= n && tar.n + k <= tar.data.Length
      modifies this, data, tar, tar.data
      ensures Valid() && tar.Valid() && Elems() == old(Elems())[k..]
      ensures tar.Elems() == old(tar.Elems()) + old(Elems())[..k]
    {
      hide Slot, Elems;
      var at := tar.n;
      tar.ExtendBack(k);
      CopyTo(tar, 0, at, k, true);
      DropFront(k);
    }

    /** The two loops of yfragment_merge_next. */
    method AppendTo(tar: Fragment)
      requires Valid() && tar.Valid() && Apart(tar) && tar.n + n <= tar.data.Length
      modifies data, tar, tar.data
      ensures Valid() && Elems() == old(Elems()) && tar.Valid() && tar.Elems() == old(tar.Elems()) + old(Elems())
    {
      hide Slot, Elems;
      var at, max := tar.n, n;
      tar.ExtendBack(max);
      CopyTo(tar, 0, at, max, false);
    }

    method PrependTo(tar: Fragment)
      requires Valid() && tar.Valid() && Apart(tar) && tar.n + n <= tar.data.Length
      modifies data, tar, tar.data
      ensures Valid() && Elems() == old(Elems()) && tar.Valid() && tar.Elems() == old(Elems()) + old(tar.Elems())
    {
      hide Slot, Elems;
      var max := n;
      tar.ExtendFront(max);
      CopyTo(tar, 0, 0, max, false);
    }
  }

  // ---------- the parts of the whole ----------

  ghost function Flat(parts: seq<seq<Ptr>>): seq<Ptr> {
    if parts == [] then [] else parts[0] + Flat(parts[1..])
  }

  lemma {:induction false} FlatConcat(a: seq<seq<Ptr>>, b: seq<seq<Ptr>>)
    ensures Flat(a + b) == Flat(a) + Flat(b)
  {
    if a == [] {
      assert a + b == b;
    } else {
      assert (a + b)[0] == a[0] && (a + b)[1..] == a[1..] + b;
      FlatConcat(a[1..], b);
    }
  }

  lemma {:induction false} FlatCut(a: seq<seq<Ptr>>, p: seq<Ptr>, b: seq<seq<Ptr>>)
    ensures Flat(a + [p]) == Flat(a) + p
    ensures Flat(a + [p] + b) == Flat(a) + p + Flat(b)
  {
    hide Flat;
    FlatConcat(a, [p]);
    FlatConcat(a + [p], b);
    FlatOne(p);
  }

  /** The elements before, in and after part `f`. */
  lemma {:induction false} FlatAt(parts: seq<seq<Ptr>>, f: nat)
    requires f < |parts|
    ensures Flat(parts) == Flat(parts[..f]) + parts[f] + Flat(parts[f + 1..])
    ensures Flat(parts[..f + 1]) == Flat(parts[..f]) + parts[f]
  {
    hide Flat;
    var a, p, b := parts[..f], parts[f], parts[f + 1..];
    FlatCut(a, p, b);
    assert parts == a + [p] + b;
    assert parts[..f + 1] == a + [p];
  }

  lemma {:induction false} FlatOne(p: seq<Ptr>)
    ensures Flat([p]) == p
  {
    assert Flat([p]) == p + Flat([]);
  }

  ghost predicate AllApart(fs: seq<Fragment>) {
    forall i, j :: 0 <= i < j < |fs| ==> fs[i].Apart(fs[j])
  }

  ghost function Inserted<T>(s: seq<T>, at: nat, x: T): (r: seq<T>)
    requires at <= |s|
    ensures |r| == |s| + 1 && r[at] == x
    ensures forall i :: 0 <= i < at ==> r[i] == s[i]
    ensures forall i :: at < i < |r| ==> r[i] == s[i - 1]
  {
    s[..at] + [x] + s[at..]
  }

  ghost function Erased<T>(s: seq<T>, at: nat): (r: seq<T>)
    requires at < |s|
    ensures |r| == |s| - 1
    ensures forall i :: 0 <= i < at ==> r[i] == s[i]
    ensures forall i :: at <= i < |r| ==> r[i] == s[i + 1]
  {
    s[..at] + s[at + 1..]
  }

  lemma {:induction false} ApartInserted(fs: seq<Fragment>, at: nat, x: Fragment)
    requires AllApart(fs) && at <= |fs| && forall i :: 0 <= i < |fs| ==> fs[i].Apart(x)
    ensures AllApart(Inserted(fs, at, x))
  {
    hide Inserted;
  }

  lemma {:induction false} ApartErased(fs: seq<Fragment>, at: nat)
    requires AllApart(fs) && at < |fs|
    ensures AllApart(Erased(fs, at))
  {
    hide Erased;
  }

  lemma {:induction false} FlatInserted(parts: seq<seq<Ptr>>, at: nat)
    requires at <= |parts|
    ensures Flat(Inserted(parts, at, [])) == Flat(parts)
  {
    hide Flat;
    var a, b := parts[..at], parts[at..];
    FlatCut(a, [], b);
    FlatConcat(a, b);
    assert parts == a + b;
    assert Flat(a) + [] == Flat(a);
  }

  /** Nothing more fits into the last part. */
  ghost predicate NoRoom(parts: seq<seq<Ptr>>, fsize: nat) {
    parts == [] || |parts[|parts| - 1]| >= fsize
  }

  /** The parts after an element has been appended. */
  ghost function Appended(parts: seq<seq<Ptr>>, fsize: nat, x: Ptr): seq<seq<Ptr>> {
    if NoRoom(parts, fsize) then parts + [[x]] else parts[|parts| - 1 := parts[|parts| - 1] + [x]]
  }

  lemma {:induction false} AppendedPart(parts: seq<seq<Ptr>>, fsize: nat, x: Ptr)
    ensures var u := if NoRoom(parts, fsize) then parts + [[]] else parts;
      u != [] && u[|u| - 1 := u[|u| - 1] + [x]] == Appended(parts, fsize, x)
  {
    assert (parts + [[]])[|parts|] + [x] == [x];
  }

  class Array {
    var fragments: seq<Fragment>
    const fsize: nat
    var n: nat
    /** The elements held by each fragment. */
    ghost var parts: seq<seq<Ptr>>

    ghost function Contents(): seq<Ptr>
      reads this`parts
    {
      Flat(parts)
    }

    /** Every fragment is a ring of the common size and shares nothing with the others. */
    ghost predicate Linked()
      reads this, fragments, set f | f in fragments :: f.data
    {
      |parts| == |fragments| && fsize >= 4 &&
      (forall i :: 0 <= i < |fragments| ==>
         fragments[i].Valid() && fragments[i].data.Length == fsize && fragments[i].Elems() == parts[i]) &&
      AllApart(fragments)
    }

    ghost predicate Valid()
      reads this, fragments, set f | f in fragments :: f.data
    {
      Linked() && n == |Contents()| && (|parts| == 1 || [] !in parts)
    }

    /** yarray_create */
    constructor (fsize: int)
      ensures Valid() && Contents() == [] && fragments == [] && parts == [] && this.fsize == if fsize < 4 then 4
        else fsize
    {
      this.fsize := if fsize < 4 then 4 else fsize;
      fragments := [];
      parts := [];
      n := 0;
    }

    /** yfragment_get: the fragment that holds the element at `index`, searched from the nearer end. */
    method Locate(index: int) returns (found: bool, f: nat, k: nat)
      requires Valid()
      ensures found <==> 0 <= index < n
      ensures found ==> f < |fragments| && k < |parts[f]| && |Flat(parts[..f])| + k == index
    {
      hide Flat;
      found, f, k := false, 0, 0;
      if index < 0 || index >= n {
        return;
      }
      AllParts(parts);
      if index < n / 2 {
        var before := 0;
        f := 0;
        while f < |fragments|
          invariant f <= |fragments| && before == |Flat(parts[..f])| <= index
        {
          FlatAt(parts, f);
          if index < before + fragments[f].n {
            return true, f, index - before;
          }
          before := before + fragments[f].n;
          f := f + 1;
        }
        assert false;
      } else {
        var before: int := n;
        f := |fragments|;
        while f > 0
          invariant f <= |fragments| && index < before == |Flat(parts[..f])|
        {
          f := f - 1;
          FlatAt(parts, f);
          before := before - fragments[f].n;
          if index >= before {
            return true, f, index - before;
          }
        }
        assert false;
      }
    }

    /** yarray_data */
    method Data(index: int) returns (x: Ptr)
      requires Valid()
      ensures x == if 0 <= index < n then Contents()[index] else NULL
    {
      hide Flat;
      var found, f, k := Locate(index);
      if found {
        FlatAt(parts, f);
        x := fragments[f].Get(k);
      } else {
        x := NULL;
      }
    }

    /** yarray_search_local, in fragment `f` */
    method SearchLocal(f: nat, data: Ptr) returns (k: int)
      requires Linked() && f < |fragments|
      ensures k == if FirstIn(parts[f], data) < |parts[f]| then FirstIn(parts[f], data) else -1
    {
      hide Slot, AllApart, FirstIn;
      var fra := fragments[f];
      var i := 0;
      NotYet(parts[f], data);
      while i < fra.n
        invariant i <= |parts[f]| == fra.n && forall j :: 0 <= j < i ==> parts[f][j] != data
      {
        var x := fra.Get(i);
        if x == data {
          IsFirst(parts[f], data, i);
          return i;
        }
        i := i + 1;
      }
      IsFirst(parts[f], data, i);
      k := -1;
    }

    /** The number of elements in front of fragment `f`. */
    method Offset(f: nat) returns (index: nat)
      requires Linked() && f < |fragments|
      ensures index == |Flat(parts[..f])|
    {
      hide Slot, AllApart, Flat;
      index := 0;
      AllParts(parts);
      for g := 0 to f
        invariant index == |Flat(parts[..g])|
      {
        FlatAt(parts, g);
        index := index + fragments[g].n;
      }
    }

    /** yarray_search_around: in all fragments without a valid place to start from; else outwards from
        that fragment, where a fragment further to the front counts only if the element is not the
        first of it. */
    method SearchAround(around: int, data: Ptr) returns (index: int)
      requires Valid()
      ensures -1 <= index < |Contents()| && (index >= 0 ==> Contents()[index] == data)
      ensures data == NULL ==> index == -1
      ensures data != NULL && !(0 <= around < n) ==> (index == -1 <==> data !in Contents())
      ensures data != NULL && 0 <= around < n ==>
        (index == -1 <==> forall g :: 0 <= g < |parts| ==>
          Missed(parts[g], data, |Flat(parts[..g])| + |parts[g]| <= around))
    {
      hide Slot, AllApart, Flat, FirstIn;
      if data == NULL {
        return -1;
      }
      var found, f, k := Locate(around);
      if !found {
        index := SearchAll(data);
      } else {
        FrontOf(parts, f, k, around);
        index := SearchFrom(f, data);
      }
    }

    method SearchAll(data: Ptr) returns (index: int)
      requires Valid()
      ensures -1 <= index < |Contents()| && (index >= 0 ==> Contents()[index] == data)
      ensures index == -1 <==> data !in Contents()
    {
      hide Slot, AllApart, Flat, FirstIn;
      index := 0;
      AllParts(parts);
      for f := 0 to |fragments|
        invariant index == |Flat(parts[..f])| && data !in Flat(parts[..f])
      {
        FlatAt(parts, f);
        NotYet(parts[f], data);
        var k := SearchLocal(f, data);
        if k >= 0 {
          index := index + k;
          return;
        }
        index := index + fragments[f].n;
      }
      index := -1;
    }

    method SearchFrom(f: nat, data: Ptr) returns (index: int)
      requires Valid() && f < |fragments|
      ensures -1 <= index < |Contents()| && (index >= 0 ==> Contents()[index] == data)
      ensures index == -1 <==> forall g :: 0 <= g < |parts| ==> Missed(parts[g], data, g < f)
    {
      hide Slot, AllApart, Flat, FirstIn;
      var next, prev: int := f, f - 1;
      while next < |fragments| || prev >= 0
        invariant f <= next <= |fragments| && -1 <= prev < f
        invariant forall g :: prev < g < next ==> Missed(parts[g], data, g < f)
        decreases |fragments| - next + prev
      {
        if next < |fragments| {
          var k := SearchLocal(next, data);
          if k >= 0 {
            index := Hit(next, k, data);
            return;
          }
          next := next + 1;
        }
        if prev >= 0 {
          var k := SearchLocal(prev, data);
          if k > 0 {
            index := Hit(prev, k, data);
            return;
          }
          prev := prev - 1;
        }
      }
      index := -1;
    }

    method Hit(f: nat, k: nat, data: Ptr) returns (index: nat)
      requires Valid() && f < |fragments| && k < |parts[f]| && k == FirstIn(parts[f], data)
      ensures index < |Contents()| && Contents()[index] == data && parts[f][k] == data
    {
      hide Slot, AllApart, Flat, FirstIn;
      NotYet(parts[f], data);
      var before := Offset(f);
      FlatAt(parts, f);
      index := before + k;
    }

    /** The whole after part `f` has become `p`. */
    lemma {:induction false} PartReplaced(f: nat, p: seq<Ptr>)
      requires f < |parts|
      ensures Flat(parts[f := p]) == Flat(parts[..f]) + p + Flat(parts[f + 1..])
      ensures Contents() == Flat(parts[..f]) + parts[f] + Flat(parts[f + 1..])
    {
      FlatAt(parts, f);
      FlatAt(parts[f := p], f);
      assert parts[f := p][..f] == parts[..f] && parts[f := p][f + 1..] == parts[f + 1..];
    }

    // One fragment changes and the others stay as they are.

    /** Puts a new, empty fragment at place `at` of the list. */
    method AddFragment(at: nat)
      requires Linked() && at <= |fragments|
      modifies this`fragments, this`parts
      ensures Linked() && |fragments| == |old(fragments)| + 1 && fresh(fragments[at]) && fresh(fragments[at].data)
      ensures fragments == Inserted(old(fragments), at, fragments[at])
      ensures parts == Inserted(old(parts), at, []) && Contents() == old(Contents())
    {
      hide Flat, AllApart, Inserted;
      var fra := new Fragment(fsize);
      ApartInserted(fragments, at, fra);
      FlatInserted(parts, at);
      InsertedParts(fragments, at, fra);
      fragments := fragments[..at] + [fra] + fragments[at..];
      parts := Inserted(parts, at, []);
    }

    method PushBackInto(f: nat, x: Ptr)
      requires Linked() && f < |fragments| && fragments[f].n < fsize
      modifies this`parts, fragments[f], fragments[f].data
      ensures Linked() && parts == old(parts)[f := old(parts)[f] + [x]]
    {
      fragments[f].PushBack(x);
      parts := parts[f := parts[f] + [x]];
    }

    method PushFrontInto(f: nat, x: Ptr)
      requires Linked() && f < |fragments| && fragments[f].n < fsize
      modifies this`parts, fragments[f], fragments[f].data
      ensures Linked() && parts == old(parts)[f := [x] + old(parts)[f]]
    {
      fragments[f].PushFront(x);
      parts := parts[f := [x] + parts[f]];
    }

    /** Sees to it that the first or the last fragment has a free cell. */
    method Open(back: bool)
      requires Valid()
      modifies this`fragments, this`parts
      ensures Linked() && fragments != [] && Contents() == old(Contents())
      ensures fragments[if back then |fragments| - 1 else 0].n < fsize
      ensures back ==> parts == if NoRoom(old(parts), fsize) then old(parts) + [[]] else old(parts)
      ensures forall i :: 0 <= i < |parts| && i != (if back then |parts| - 1 else 0) ==> parts[i] != []
      ensures forall g :: g in fragments ==> g in old(fragments) || (fresh(g) && fresh(g.data))
    {
      hide Flat, AllApart;
      assert parts[..|parts|] + [[]] + parts[|parts|..] == parts + [[]];
      if |fragments| == 0 || fragments[if back then |fragments| - 1 else 0].n >= fsize {
        FullNotEmpty();
        AddFragment(if back then |fragments| else 0);
      }
    }

    lemma {:induction false} FullNotEmpty()
      requires Valid() && (fragments == [] || exists f :: 0 <= f < |fragments| && fragments[f].n >= fsize)
      ensures [] !in parts
    {
      if fragments != [] {
        var f :| 0 <= f < |fragments| && fragments[f].n >= fsize;
        assert |parts[f]| >= 4;
      }
    }

    /** yarray_push_back */
    method PushBack(x: Ptr) returns (index: int)
      requires Valid()
      modifies this, fragments, set f | f in fragments :: f.data
      ensures forall g :: g in fragments ==> g in old(fragments) || (fresh(g) && fresh(g.data))
      ensures Valid() && Contents() == old(Contents()) + [x] && index == |old(Contents())|
      ensures parts == Appended(old(parts), fsize, x)
    {
      hide Flat, Appended, NoRoom;
      index := n;
      Open(true);
      PushedBack(parts, x);
      AppendedPart(old(parts), fsize, x);
      PushBackInto(|fragments| - 1, x);
      n := n + 1;
    }

    /** yarray_push_front */
    method PushFront(x: Ptr) returns (index: int)
      requires Valid()
      modifies this, fragments, set f | f in fragments :: f.data
      ensures forall g :: g in fragments ==> g in old(fragments) || (fresh(g) && fresh(g.data))
      ensures Valid() && Contents() == [x] + old(Contents()) && index == 0
    {
      hide Flat;
      index := 0;
      Open(false);
      PushedFront(parts, x);
      PushFrontInto(0, x);
      n := n + 1;
    }

    method InsertInto(f: nat, k: nat, x: Ptr)
      requires Linked() && f < |fragments| && fragments[f].n < fsize && k <= fragments[f].n
      modifies this`parts, fragments[f], fragments[f].data
      ensures Linked() && parts == old(parts)[f := old(parts)[f][..k] + [x] + old(parts)[f][k..]]
    {
      fragments[f].InsertAt(k, x);
      parts := parts[f := parts[f][..k] + [x] + parts[f][k..]];
    }

    method RemoveFrom(f: nat, k: nat) returns (x: Ptr)
      requires Linked() && f < |fragments| && k < fragments[f].n
      modifies this`parts, fragments[f], fragments[f].data
      ensures Linked() && x == old(parts)[f][k] && parts == old(parts)[f := old(parts)[f][..k] + old(parts)[f][k + 1..]]
    {
      x := fragments[f].RemoveAt(k);
      parts := parts[f := parts[f][..k] + parts[f][k + 1..]];
    }

    /** The tail of fragment `f` moves to the front of the next one. */
    method TailToNext(f: nat, k: nat)
      requires Linked() && f + 1 < |fragments| && k <= fragments[f].n
      requires fragments[f + 1].n + fragments[f].n - k <= fsize
      modifies this`parts, fragments[f], fragments[f].data, fragments[f + 1], fragments[f + 1].data
      ensures Linked()
      ensures parts == old(parts)[f := old(parts)[f][..k]][f + 1 := old(parts)[f][k..] + old(parts)[f + 1]]
    {
      assert fragments[f].Apart(fragments[f + 1]);
      fragments[f].GiveTail(fragments[f + 1], k);
      parts := parts[f := parts[f][..k]][f + 1 := parts[f][k..] + parts[f + 1]];
    }

    method HeadToPrev(f: nat, k: nat)
      requires Linked() && 0 < f < |fragments| && k <= fragments[f].n
      requires fragments[f - 1].n + k <= fsize
      modifies this`parts, fragments[f], fragments[f].data, fragments[f - 1], fragments[f - 1].data
      ensures Linked()
      ensures parts == old(parts)[f - 1 := old(parts)[f - 1] + old(parts)[f][..k]][f := old(parts)[f][k..]]
    {
      assert fragments[f - 1].Apart(fragments[f]);
      fragments[f].GiveHead(fragments[f - 1], k);
      parts := parts[f - 1 := parts[f - 1] + parts[f][..k]][f := parts[f][k..]];
    }

    /** yfragment_shift_next: the tail goes to the next fragment if it has room, else to a new one. */
    method ShiftNext(f: nat, k: nat)
      requires Linked() && f < |fragments| && k < fragments[f].n
      modifies this`fragments, this`parts, fragments, set g | g in fragments :: g.data
      ensures forall g :: g in fragments ==> g in old(fragments) || (fresh(g) && fresh(g.data))
      ensures Linked() && Contents() == old(Contents()) && f < |fragments| && fragments[f] == old(fragments)[f]
      ensures parts[..f] == old(parts)[..f] && parts[f] == old(parts)[f][..k]
      ensures 0 < k && [] !in old(parts) ==> [] !in parts
    {
      hide Flat, Inserted;
      ghost var before := parts;
      if f + 1 == |fragments| || fsize - fragments[f + 1].n < fragments[f].n - k {
        AddFragment(f + 1);
      }
      FlatPair(parts, f, parts[f][..k], parts[f][k..] + parts[f + 1]);
      TailToNext(f, k);
    }

    /** yfragment_shift_prev: the head goes to the previous fragment if it has room for one more, else
        to a new one; the insertion continues there. */
    method ShiftPrev(f: nat, k: nat) returns (g: nat, at: nat)
      requires Linked() && f < |fragments| && k < fragments[f].n
      modifies this`fragments, this`parts, fragments, set h | h in fragments :: h.data
      ensures Linked() && Contents() == old(Contents()) && g < |fragments| && at == |parts[g]| < fsize
      ensures |Flat(parts[..g])| + at == old(|Flat(parts[..f])|) + k
      ensures forall g :: g in fragments ==> g in old(fragments) || (fresh(g) && fresh(g.data))
      ensures [] !in old(parts) ==> forall i :: 0 <= i < |parts| && i != g ==> parts[i] != []
    {
      hide Flat, Inserted, AllApart, Fragment.Elems;
      if f == 0 || fsize - fragments[f - 1].n < k + 1 {
        AddFragment(f);
        g := f;
      } else {
        g := f - 1;
      }
      PrefixBefore(old(parts), parts, f, g);
      FlatPair(parts, g, parts[g] + parts[g + 1][..k], parts[g + 1][k..]);
      at := fragments[g].n + k;
      HeadToPrev(g + 1, k);
    }

    /** The fragment to insert into, with a free cell: a full one is split first. */
    method MakeRoom(f0: nat, k0: nat) returns (f: nat, k: nat)
      requires Valid() && f0 < |fragments| && k0 < |parts[f0]|
      modifies this`fragments, this`parts, fragments, set f | f in fragments :: f.data
      ensures Linked() && Contents() == old(Contents()) && f < |fragments| && fragments[f].n < fsize && k <= |parts[f]|
      ensures |Flat(parts[..f])| + k == old(|Flat(parts[..f0])|) + k0
      ensures forall g :: g in fragments ==> g in old(fragments) || (fresh(g) && fresh(g.data))
      ensures forall i :: 0 <= i < |parts| && i != f ==> parts[i] != []
    {
      hide Flat;
      NoGaps(f0, k0);
      f, k := f0, k0;
      if fragments[f].n >= fsize {
        if k > fragments[f].n / 2 {
          ShiftNext(f, k);
        } else {
          f, k := ShiftPrev(f, k);
        }
      }
    }

    /** yarray_insert.  An index at the end is refused like one beyond it. */
    method Insert(index: int, x: Ptr) returns (res: int)
      requires Valid()
      modifies this, fragments, set f | f in fragments :: f.data
      ensures forall g :: g in fragments ==> g in old(fragments) || (fresh(g) && fresh(g.data))
      ensures Valid() && res == if 0 <= index < old(n) then index else -1
      ensures res == -1 ==> fragments == old(fragments)
      ensures Contents() ==
        if 0 <= index < old(n) then old(Contents())[..index] + [x] + old(Contents())[index..] else old(Contents())
    {
      hide Flat, Linked;
      ValidParts();
      var found, f, k := Locate(index);
      if !found {
        return -1;
      }
      InsertFound(f, k, x);
      return index;
    }

    lemma {:induction false} ValidParts()
      requires Valid()
      ensures Linked() && n == |Contents()| && |parts| == |fragments| && (|parts| == 1 || [] !in parts)
    {
    }

    /** The element goes to a place that has been located. */
    method InsertFound(f0: nat, k0: nat, x: Ptr)
      requires Valid() && f0 < |fragments| && k0 < |parts[f0]|
      modifies this, fragments, set f | f in fragments :: f.data
      ensures forall g :: g in fragments ==> g in old(fragments) || (fresh(g) && fresh(g.data))
      ensures Valid()
      ensures var at := old(|Flat(parts[..f0])|) + k0;
        at < |old(Contents())| && Contents() == old(Contents())[..at] + [x] + old(Contents())[at..]
    {
      hide Flat, AllApart, Slot;
      WholePlace(f0, k0);
      var f, k := MakeRoom(f0, k0);
      PartInserted(f, k, x);
      InsertInto(f, k, x);
      n := n + 1;
      PartFilled(f);
    }

    lemma {:induction false} WholePlace(f: nat, k: nat)
      requires f < |parts| && k < |parts[f]|
      ensures |Flat(parts[..f])| + k < |Contents()|
    {
      hide Flat;
      FlatAt(parts, f);
    }

    lemma {:induction false} PartFilled(f: nat)
      requires f < |parts| && parts[f] != [] && forall i :: 0 <= i < |parts| && i != f ==> parts[i] != []
      ensures [] !in parts
    {
    }

    lemma {:induction false} NoGaps(f: nat, k: nat)
      requires Valid() && f < |parts| && k < |parts[f]|
      ensures [] !in parts
    {
    }

    lemma {:induction false} PartInserted(f: nat, k: nat, x: Ptr)
      requires f < |parts| && k <= |parts[f]|
      ensures var at, p := |Flat(parts[..f])| + k, parts[f][..k] + [x] + parts[f][k..];
        at <= |Contents()| && Flat(parts[f := p]) == Contents()[..at] + [x] + Contents()[at..]
    {
      hide Flat;
      PartReplaced(f, parts[f][..k] + [x] + parts[f][k..]);
      var a, b := Flat(parts[..f]), Flat(parts[f + 1..]);
      assert (a + parts[f] + b)[..|a| + k] == a + parts[f][..k];
      assert (a + parts[f] + b)[|a| + k..] == parts[f][k..] + b;
    }

    lemma {:induction false} PartRemoved(f: nat, k: nat)
      requires f < |parts| && k < |parts[f]|
      ensures var at, p := |Flat(parts[..f])| + k, parts[f][..k] + parts[f][k + 1..];
        at < |Contents()| && Contents()[at] == parts[f][k]
        && Flat(parts[f := p]) == Contents()[..at] + Contents()[at + 1..]
    {
      hide Flat;
      PartReplaced(f, parts[f][..k] + parts[f][k + 1..]);
      var a, b := Flat(parts[..f]), Flat(parts[f + 1..]);
      assert (a + parts[f] + b)[..|a| + k] == a + parts[f][..k];
      assert (a + parts[f] + b)[|a| + k + 1..] == parts[f][k + 1..] + b;
    }

    /** Takes fragment `at` off the list. */
    method EraseFragment(at: nat)
      requires Linked() && at < |fragments|
      modifies this`fragments, this`parts
      ensures Linked() && fragments == Erased(old(fragments), at) && parts == Erased(old(parts), at)
    {
      hide AllApart, Erased;
      ApartErased(fragments, at);
      ErasedParts(fragments, at);
      fragments := fragments[..at] + fragments[at + 1..];
      parts := Erased(parts, at);
    }

    /** yfragment_merge_next: two neighbours that fit into one fragment become one. */
    method MergeNext(f: nat) returns (merged: bool)
      requires Linked() && f < |fragments|
      modifies this`fragments, this`parts, fragments, set g | g in fragments :: g.data
      ensures Linked() && Contents() == old(Contents())
      ensures forall g :: g in fragments ==> g in old(fragments) || (fresh(g) && fresh(g.data))
      ensures !merged ==> fragments == old(fragments)
      ensures merged <==> f + 1 < |old(parts)| && |old(parts)[f]| + |old(parts)[f + 1]| <= fsize
      ensures parts == if merged then old(parts)[..f] + [old(parts)[f] + old(parts)[f + 1]] + old(parts)[f + 2..]
        else old(parts)
    {
      hide Flat, Erased;
      if f + 1 < |fragments| {
        var fra, next := fragments[f], fragments[f + 1];
        assert fra.Apart(next);
        MergedParts(parts, f);
        if fsize - fra.n >= next.n && fra.n >= next.n {
          next.AppendTo(fra);
          parts := parts[f := parts[f] + parts[f + 1]];
          EraseFragment(f + 1);
          return true;
        } else if fsize - next.n >= fra.n && next.n >= fra.n {
          fra.PrependTo(next);
          parts := parts[f + 1 := parts[f] + parts[f + 1]];
          EraseFragment(f);
          return true;
        }
      }
      return false;
    }

    /** Merging heals the gap that a deletion may have left in fragment `f`. */
    method Merge(f: nat)
      requires Linked() && f < |fragments| && Gapless(parts, f)
      modifies this`fragments, this`parts, fragments, set g | g in fragments :: g.data
      ensures forall g :: g in fragments ==> g in old(fragments) || (fresh(g) && fresh(g.data))
      ensures Linked() && fragments != [] && Contents() == old(Contents()) && (|parts| == 1 || [] !in parts)
    {
      hide Flat, AllApart, Gapless, Linked;
      PartsFit();
      var merged := MergeNext(f);
      PartsFit();
      Healed(old(parts), parts, f, f, merged, fsize);
      if !merged && f > 0 {
        // yfragment_merge_prev
        merged := MergeNext(f - 1);
        PartsFit();
        Healed(old(parts), parts, f, f - 1, merged, fsize);
      }
    }

    lemma {:induction false} PartsFit()
      requires Linked()
      ensures |parts| == |fragments| && forall i :: 0 <= i < |parts| ==> |parts[i]| <= fsize
    {
    }

    /** yarray_delete */
    method Delete(index: int) returns (x: Ptr)
      requires Valid()
      modifies this, fragments, set f | f in fragments :: f.data
      ensures forall g :: g in fragments ==> g in old(fragments) || (fresh(g) && fresh(g.data))
      ensures Valid() && x == if 0 <= index < old(n) then old(Contents())[index] else NULL
      ensures Contents() == if 0 <= index < old(n) then old(Contents())[..index] + old(Contents())[index + 1..]
        else old(Contents())
      ensures if 0 <= index < old(n) then fragments != [] else fragments == old(fragments)
    {
      hide Flat;
      var found, f, k := Locate(index);
      if !found {
        return NULL;
      }
      NoGaps(f, k);
      NoGapsLength(parts);
      PartRemoved(f, k);
      x := RemoveFrom(f, k);
      n := n - 1;
      Merge(f);
    }

    method PopBackFrom(f: nat) returns (x: Ptr)
      requires Linked() && f < |fragments| && parts[f] != []
      modifies this`parts, fragments[f], fragments[f].data
      ensures Linked() && parts == old(parts)[f := old(parts)[f][..|old(parts)[f]| - 1]]
      ensures x == old(parts)[f][|old(parts)[f]| - 1]
    {
      x := fragments[f].PopBack();
      parts := parts[f := parts[f][..|parts[f]| - 1]];
    }

    method PopFrontFrom(f: nat) returns (x: Ptr)
      requires Linked() && f < |fragments| && parts[f] != []
      modifies this`parts, fragments[f], fragments[f].data
      ensures Linked() && parts == old(parts)[f := old(parts)[f][1..]] && x == old(parts)[f][0]
    {
      x := fragments[f].PopFront();
      parts := parts[f := parts[f][1..]];
    }

    /** Takes fragment `f` off the list when it has become empty. */
    method EraseIfEmpty(f: nat)
      requires Linked() && f < |fragments| && forall i :: 0 <= i < |parts| && i != f ==> parts[i] != []
      modifies this`fragments, this`parts
      ensures Linked() && Contents() == old(Contents()) && [] !in parts
      ensures forall g :: g in fragments ==> g in old(fragments)
    {
      hide Flat, Erased;
      if fragments[f].n == 0 {
        FlatErased(parts, f);
        EraseFragment(f);
      }
    }

    lemma {:induction false} PartsNonEmpty()
      requires Valid() && fragments != [] && n > 0
      ensures [] !in parts
    {
      assert |parts| == 1 ==> Flat(parts) == parts[0] + Flat(parts[1..]) && parts[1..] == [];
    }

    /** A deletion has left one fragment without elements. */
    predicate Hollow()
      reads this`n, this`fragments
    {
      n == 0 && fragments != []
    }

    /** A pop from the one empty fragment: a free cell is read, the fragment goes, and the number of
        elements, which is a `size_t`, goes below zero. */
    method PopHollow(back: bool) returns (x: Ptr)
      requires Valid() && Hollow() && (back ==> fragments[0].front > 0)
      modifies this`fragments, this`parts, this`n, fragments[0].data
      ensures Linked() && fragments == [] && Contents() == [] && n == SIZES - 1 && !Valid()
    {
      var g := fragments[0];
      OneFragment();
      var index := if back then g.front - 1 else g.front;
      x := g.data[index];
      g.data[index] := NULL;
      fragments, parts := [], [];
      n := SIZES - 1;
    }

    lemma {:induction false} OneFragment()
      requires Valid() && Hollow()
      ensures |fragments| == 1 && fragments[0].Valid()
    {
    }

    /** yarray_pop_back.  On an array emptied by deletions the source counts below zero, or reads in
        front of the ring if that begins at its first cell. */
    method PopBack() returns (x: Ptr)
      requires Valid() && (Hollow() ==> fragments[0].front > 0)
      modifies this, fragments, set f | f in fragments :: f.data
      ensures forall g :: g in fragments ==> g in old(fragments)
      ensures (Valid() <==> !old(Hollow())) && (old(Hollow()) ==> n == SIZES - 1) && (old(n) <= 1 ==> fragments == [])
      ensures if old(n) == 0 then Contents() == [] else old(Contents()) == Contents() + [x]
      ensures old(fragments) == [] ==> x == NULL
    {
      hide Flat;
      if |fragments| == 0 {
        FlatNone(parts);
        return NULL;
      }
      if Hollow() {
        x := PopHollow(true);
        return;
      }
      PartsNonEmpty();
      PoppedBack(parts);
      x := PopBackFrom(|fragments| - 1);
      n := n - 1;
      EraseIfEmpty(|fragments| - 1);
      NoGapsLength(parts);
    }

    /** yarray_pop_front */
    method PopFront() returns (x: Ptr)
      requires Valid()
      modifies this, fragments, set f | f in fragments :: f.data
      ensures forall g :: g in fragments ==> g in old(fragments)
      ensures (Valid() <==> !old(Hollow())) && (old(Hollow()) ==> n == SIZES - 1) && (old(n) <= 1 ==> fragments == [])
      ensures if old(n) == 0 then Contents() == [] else old(Contents()) == [x] + Contents()
      ensures old(fragments) == [] ==> x == NULL
    {
      hide Flat;
      if |fragments| == 0 {
        FlatNone(parts);
        return NULL;
      }
      if Hollow() {
        x := PopHollow(false);
        return;
      }
      PartsNonEmpty();
      PoppedFront(parts);
      x := PopFrontFrom(0);
      n := n - 1;
      EraseIfEmpty(0);
      NoGapsLength(parts);
    }
  }

  /** Deleting the last element leaves an empty fragment behind: the one state in which the array is
      empty and yet popping from it counts below zero. */
  method EmptyFragmentRemains() returns (a: Array)
    ensures a.Valid() && a.Contents() == [] && a.Hollow()
  {
    a := new Array(4);
    var index := a.PushBack(7);
    var x := a.Delete(0);
  }

  /** An array that holds an element which a search from its last index does not find: it is the first
      one of a fragment further to the front. */
  method SearchMisses() returns (a: Array, index: int)
    ensures a.Valid() && a.Contents() == [1, 2, 3, 4, 5] && index == -1
  {
    hide Flat, FirstIn;
    a := FiveElements();
    FirstPlaces(a.parts);
    index := a.SearchAround(4, 1);
  }

  method FiveElements() returns (a: Array)
    ensures a.Valid() && a.Contents() == [1, 2, 3, 4, 5] && a.parts == [[1, 2, 3, 4], [5]] && a.n == 5
  {
    hide Flat, Appended;
    FiveParts();
    a := new Array(4);
    var index := a.PushBack(1);
    index := a.PushBack(2);
    index := a.PushBack(3);
    index := a.PushBack(4);
    index := a.PushBack(5);
    a.ValidParts();
  }

  lemma {:induction false} FiveParts()
    ensures Appended([], 4, 1) == [[1]] && Appended([[1]], 4, 2) == [[1, 2]] && Appended([[1, 2]], 4, 3) == [[1, 2, 3]]
    ensures Appended([[1, 2, 3]], 4, 4) == [[1, 2, 3, 4]] && Appended([[1, 2, 3, 4]], 4, 5) == [[1, 2, 3, 4], [5]]
  {
    assert [1] + [2] == [1, 2] && [1, 2] + [3] == [1, 2, 3] && [1, 2, 3] + [4] == [1, 2, 3, 4];
  }

  lemma {:induction false} FirstPlaces(parts: seq<seq<Ptr>>)
    requires parts == [[1, 2, 3, 4], [5]]
    ensures FirstIn(parts[0], 1) == 0 && FirstIn(parts[1], 1) == 1 && Flat(parts[..0]) == []
  {
    IsFirst(parts[0], 1, 0);
    IsFirst(parts[1], 1, 1);
  }

  lemma {:induction false} InsertedParts<T>(s: seq<T>, at: nat, x: T)
    requires at <= |s|
    ensures Inserted(s, at, x) == s[..at] + [x] + s[at..]
  {
  }

  /** Two neighbouring parts may share out their elements differently. */
  lemma {:induction false} FlatPair(parts: seq<seq<Ptr>>, f: nat, p: seq<Ptr>, q: seq<Ptr>)
    requires f + 1 < |parts| && p + q == parts[f] + parts[f + 1]
    ensures Flat(parts[f := p][f + 1 := q]) == Flat(parts)
  {
    hide Flat;
    var u := parts[f := p][f + 1 := q];
    FlatAt(parts, f);
    FlatAt(parts, f + 1);
    FlatAt(u, f);
    FlatAt(u, f + 1);
    assert u[..f] == parts[..f] && u[f + 1 + 1..] == parts[f + 1 + 1..];
    var a, b := Flat(parts[..f]), Flat(parts[f + 1 + 1..]);
    assert a + p + q == a + (p + q) && a + parts[f] + parts[f + 1] == a + (parts[f] + parts[f + 1]);
  }

  lemma {:induction false} PrefixBefore(before: seq<seq<Ptr>>, parts: seq<seq<Ptr>>, f: nat, g: nat)
    requires f < |before| && ((g == f && parts == Inserted(before, f, [])) || (g + 1 == f && parts == before))
    ensures parts[g + 1] == before[f] && |Flat(parts[..g])| + |parts[g]| == |Flat(before[..f])|
  {
    FlatAt(parts, g);
    assert g == f ==> parts[..g] == before[..f];
  }

  lemma {:induction false} ErasedParts<T>(s: seq<T>, at: nat)
    requires at < |s|
    ensures Erased(s, at) == s[..at] + s[at + 1..]
  {
  }

  /** Both ways of merging two neighbours leave the same parts and the same whole. */
  lemma {:induction false} MergedParts(parts: seq<seq<Ptr>>, f: nat)
    requires f + 1 < |parts|
    ensures var p := parts[f] + parts[f + 1];
      var u := parts[..f] + [p] + parts[f + 2..];
      Erased(parts[f := p], f + 1) == u && Erased(parts[f + 1 := p], f) == u && Flat(u) == Flat(parts)
  {
    var p := parts[f] + parts[f + 1];
    var u := parts[..f] + [p] + parts[f + 2..];
    FlatPair(parts, f, [], p);
    assert Erased(parts[f := []][f + 1 := p], f) == u;
    FlatErased(parts[f := []][f + 1 := p], f);
  }

  /** No part is empty but perhaps one. */
  ghost predicate Gapless(parts: seq<seq<Ptr>>, f: nat) {
    forall i :: 0 <= i < |parts| && i != f ==> parts[i] != []
  }

  /** A gap at `f` is gone after merging there or one before; if there is nothing to merge at either
      place, there is no gap or nothing else. */
  lemma {:induction false} Healed(before: seq<seq<Ptr>>, parts: seq<seq<Ptr>>, f: nat, at: nat, merged: bool,
                                  fsize: nat)
    requires f < |before| && Gapless(before, f) && at <= f <= at + 1
    requires forall i :: 0 <= i < |before| ==> |before[i]| <= fsize
    requires merged <==> at + 1 < |before| && |before[at]| + |before[at + 1]| <= fsize
    requires parts == if merged then before[..at] + [before[at] + before[at + 1]] + before[at + 2..] else before
    ensures merged ==> [] !in parts && parts != [] && |before| > 1
    ensures !merged && (at + 1 == f || (f == 0 && at == 0)) ==> |parts| == 1 || [] !in parts
  {
    if merged {
      forall i | 0 <= i < |parts| ensures parts[i] != [] {
        assert parts[i] == if i < at then before[i] else if i == at then before[at] + before[at + 1] else before[i + 1];
      }
    }
  }

  lemma {:induction false} FlatErased(parts: seq<seq<Ptr>>, at: nat)
    requires at < |parts| && parts[at] == []
    ensures Flat(Erased(parts, at)) == Flat(parts)
  {
    FlatInserted(Erased(parts, at), at);
    assert Inserted(Erased(parts, at), at, []) == parts;
  }

  /** The place of the first such element, the length if there is none. */
  ghost function FirstIn(p: seq<Ptr>, x: Ptr): (k: nat)
    ensures k <= |p|
  {
    if p == [] || p[0] == x then 0 else 1 + FirstIn(p[1..], x)
  }

  /** A search passes over the part: it has no such element, or, going to the front, has one as its
      first. */
  ghost predicate Missed(p: seq<Ptr>, x: Ptr, inFront: bool) {
    FirstIn(p, x) == |p| || (inFront && FirstIn(p, x) == 0)
  }

  lemma {:induction false} IsFirst(p: seq<Ptr>, x: Ptr, k: nat)
    requires k <= |p| && (forall j :: 0 <= j < k ==> p[j] != x) && (k < |p| ==> p[k] == x)
    ensures FirstIn(p, x) == k
  {
    if k > 0 {
      IsFirst(p[1..], x, k - 1);
    }
  }

  lemma {:induction false} NotYet(p: seq<Ptr>, x: Ptr)
    ensures var k := FirstIn(p, x);
      (k < |p| ==> p[k] == x) && (forall j :: 0 <= j < k ==> p[j] != x) && (x in p <==> k < |p|)
  {
    if p != [] && p[0] != x {
      NotYet(p[1..], x);
      assert forall j :: 0 < j < |p| ==> p[j] == p[1..][j - 1];
    }
  }

  /** The parts that end at or before a place are those in front of the part that holds it. */
  lemma {:induction false} FrontOf(parts: seq<seq<Ptr>>, f: nat, k: nat, around: nat)
    requires f < |parts| && k < |parts[f]| && |Flat(parts[..f])| + k == around
    ensures forall g :: 0 <= g < |parts| ==> (|Flat(parts[..g])| + |parts[g]| <= around <==> g < f)
  {
    hide Flat;
    forall g | 0 <= g < |parts| ensures |Flat(parts[..g])| + |parts[g]| <= around <==> g < f {
      FlatAt(parts, g);
      if g < f {
        FlatGrows(parts, g + 1, f);
      } else {
        FlatGrows(parts, f, g);
        if g > f {
          FlatAt(parts, f);
          FlatGrows(parts, f + 1, g);
        }
      }
    }
  }

  lemma {:induction false} FlatGrows(parts: seq<seq<Ptr>>, f: nat, g: nat)
    requires f <= g <= |parts|
    ensures |Flat(parts[..f])| <= |Flat(parts[..g])|
    decreases g - f
  {
    hide Flat;
    if f < g {
      FlatAt(parts, f);
      FlatGrows(parts, f + 1, g);
    }
  }

  lemma {:induction false} NoGapsLength(parts: seq<seq<Ptr>>)
    requires [] !in parts
    ensures |Flat(parts)| >= |parts|
  {
    if parts != [] {
      assert parts[0] in parts && forall p :: p in parts[1..] ==> p in parts;
      NoGapsLength(parts[1..]);
    }
  }

  /** What a push adds to, and a pop takes from, the last and the first part. */
  lemma {:induction false} PushedBack(parts: seq<seq<Ptr>>, x: Ptr)
    requires parts != []
    ensures var f := |parts| - 1; Flat(parts[f := parts[f] + [x]]) == Flat(parts) + [x]
  {
    hide Flat;
    var f := |parts| - 1;
    var after := parts[f := parts[f] + [x]];
    FlatAt(parts, f);
    FlatAt(after, f);
    assert after[..f] == parts[..f] && after[f + 1..] == parts[f + 1..] == [];
    FlatNone([]);
  }

  lemma {:induction false} PushedFront(parts: seq<seq<Ptr>>, x: Ptr)
    requires parts != []
    ensures Flat(parts[0 := [x] + parts[0]]) == [x] + Flat(parts)
  {
  }

  lemma {:induction false} PoppedBack(parts: seq<seq<Ptr>>)
    requires parts != [] && parts[|parts| - 1] != []
    ensures var f := |parts| - 1;
      Flat(parts) == Flat(parts[f := parts[f][..|parts[f]| - 1]]) + [parts[f][|parts[f]| - 1]]
  {
    hide Flat;
    var f := |parts| - 1;
    var p, x := parts[f][..|parts[f]| - 1], parts[f][|parts[f]| - 1];
    PushedBack(parts[f := p], x);
    assert p + [x] == parts[f];
    assert parts[f := p][f := parts[f]] == parts;
  }

  lemma {:induction false} PoppedFront(parts: seq<seq<Ptr>>)
    requires parts != [] && parts[0] != []
    ensures Flat(parts) == [parts[0][0]] + Flat(parts[0 := parts[0][1..]])
  {
  }

  lemma {:induction false} FlatNone(parts: seq<seq<Ptr>>)
    ensures parts == [] ==> Flat(parts) == []
  {
  }

  lemma {:induction false} AllParts(parts: seq<seq<Ptr>>)
    ensures Flat(parts[..|parts|]) == Flat(parts) && Flat(parts[..0]) == []
  {
    assert parts[..|parts|] == parts;
  }

  // ---------- the sequence seen by the moving loops ----------

  /** `e` after the elements from `i` up to the k-th have been moved one place up. */
  ghost function Overwritten(e: seq<Ptr>, i: nat, k: nat): seq<Ptr>
    requires i <= k < |e|
  {
    e[..i + 1] + e[i..k] + e[k + 1..]
  }

  lemma {:induction false} MovedUp(e: seq<Ptr>, i: nat, k: nat)
    requires i <= k < |e|
    ensures |Overwritten(e, i, k)| == |e| && Overwritten(e, k, k) == e
    ensures i < k ==>
      Overwritten(e, i + 1, k)[i] == e[i] && Overwritten(e, i, k) == Overwritten(e, i + 1, k)[i + 1 := e[i]]
    ensures Overwritten(e, 0, k)[1..] == e[..k] + e[k + 1..]
  {
  }

  /** `e` after the first `i` elements beyond the k-th have been moved one place down. */
  ghost function MovedSoFar(e: seq<Ptr>, k: nat, i: nat): seq<Ptr>
    requires k + i < |e|
  {
    e[..k] + e[k + 1..k + 1 + i] + e[k + i..]
  }

  lemma {:induction false} ClosedEnds(e: seq<Ptr>, k: nat)
    requires k < |e|
    ensures var m := |e| - k - 1;
            MovedSoFar(e, k, 0) == e && |MovedSoFar(e, k, m)| == |e| &&
              MovedSoFar(e, k, m)[..|e| - 1] == e[..k] + e[k + 1..]
  {
  }

  lemma {:induction false} MovedDown(e: seq<Ptr>, k: nat, i: nat)
    requires k + i + 1 < |e|
    ensures var f := MovedSoFar(e, k, i);
            |f| == |e| && f[k + i + 1] == e[k + i + 1] && MovedSoFar(e, k, i + 1) == f[k + i := e[k + i + 1]]
  {
  }

  /** `e` with a stale cell at place `i`: the one moved last from there on its way from the front. */
  ghost function Gap(e: seq<Ptr>, i: nat): seq<Ptr>
    requires i <= |e|
  {
    e[..i] + [if i == 0 then NULL else e[i - 1]] + e[i..]
  }

  ghost function GapFromBack(e: seq<Ptr>, i: nat): seq<Ptr>
    requires i <= |e|
  {
    e[..i] + [if i == |e| then NULL else e[i]] + e[i..]
  }

  lemma {:induction false} GapEnds(e: seq<Ptr>)
    ensures Gap(e, 0) == [NULL] + e && GapFromBack(e, |e|) == e + [NULL]
  {
  }

  lemma {:induction false} GapMoves(e: seq<Ptr>, i: nat)
    requires i < |e|
    ensures |Gap(e, i)| == |GapFromBack(e, i)| == |GapFromBack(e, i + 1)| == |e| + 1
    ensures Gap(e, i)[i + 1] == e[i] && Gap(e, i + 1) == Gap(e, i)[i := e[i]]
    ensures GapFromBack(e, i + 1)[i] == e[i] && GapFromBack(e, i) == GapFromBack(e, i + 1)[i + 1 := e[i]]
  {
  }

  lemma {:induction false} GapFilled(e: seq<Ptr>, i: nat, x: Ptr)
    requires i <= |e|
    ensures |Gap(e, i)| == |GapFromBack(e, i)| == |e| + 1
    ensures Gap(e, i)[i := x] == GapFromBack(e, i)[i := x] == e[..i] + [x] + e[i..]
  {
  }

  /** `f` after the first `i` elements of a run of `e` have been copied over it. */
  ghost function Copied(f: seq<Ptr>, e: seq<Ptr>, from: nat, at: nat, i: nat): seq<Ptr>
    requires from + i <= |e| && at + i <= |f|
  {
    f[..at] + e[from..from + i] + f[at + i..]
  }

  /** `e` after that, the cells of the run being left or cleared. */
  ghost function Cleared(e: seq<Ptr>, from: nat, i: nat, clear: bool): (r: seq<Ptr>)
    requires from + i <= |e|
    ensures !clear ==> r == e
  {
    if clear then e[..from] + seq(i, _ => NULL) + e[from + i..] else e
  }

  lemma {:induction false} CopyEnds(f: seq<Ptr>, e: seq<Ptr>, from: nat, at: nat, max: nat, clear: bool)
    requires from + max <= |e| && at + max <= |f|
    ensures Copied(f, e, from, at, 0) == f && Cleared(e, from, 0, clear) == e
    ensures Copied(f, e, from, at, max) == f[..at] + e[from..from + max] + f[at + max..]
    ensures var r := Cleared(e, from, max, clear);
      |r| == |e| && r[..from] == e[..from] && r[from + max..] == e[from + max..]
  {
  }

  lemma {:induction false} CopyStep(f: seq<Ptr>, e: seq<Ptr>, from: nat, at: nat, i: nat, max: nat)
    requires i < max && from + max <= |e| && at + max <= |f|
    ensures var g := Copied(f, e, from, at, i);
            |g| == |f| && Copied(f, e, from, at, i + 1) == g[at + i := e[from + i]]
  {
  }

  lemma {:induction false} ClearStep(e: seq<Ptr>, from: nat, i: nat, max: nat, clear: bool)
    requires i < max && from + max <= |e|
    ensures var r := Cleared(e, from, i, clear);
            |r| == |e| && r[from + i] == e[from + i]
            && Cleared(e, from, i + 1, clear) == if clear then r[from + i := NULL] else r
  {
  }

  // ---------- any sequence of calls ----------

  datatype Call =
    | CallPushBack(x: Ptr) | CallPushFront(x: Ptr) | CallPopBack | CallPopFront
    | CallInsert(index: int, x: Ptr) | CallDelete(index: int)

  /** What a call does to a plain sequence. */
  function Applied(s: seq<Ptr>, c: Call): seq<Ptr> {
    match c
    case CallPushBack(x) => s + [x]
    case CallPushFront(x) => [x] + s
    case CallPopBack => if s == [] then s else s[..|s| - 1]
    case CallPopFront => if s == [] then s else s[1..]
    case CallInsert(i, x) => if 0 <= i < |s| then s[..i] + [x] + s[i..] else s
    case CallDelete(i) => if 0 <= i < |s| then s[..i] + s[i + 1..] else s
  }

  function AllApplied(calls: seq<Call>): seq<Ptr> {
    if calls == [] then [] else Applied(AllApplied(calls[..|calls| - 1]), calls[|calls| - 1])
  }

  /** The array has been emptied by a deletion, and nothing has been pushed since. */
  function Emptied(calls: seq<Call>): bool {
    if calls == [] then false
    else
      var before, c := calls[..|calls| - 1], calls[|calls| - 1];
      AllApplied(calls) == [] && if c.CallDelete? && AllApplied(before) != [] then true else Emptied(before)
  }

  /** Nothing is popped from an array that a deletion has emptied. */
  predicate Poppable(calls: seq<Call>) {
    forall i :: 0 <= i < |calls| && IsPop(calls[i]) ==> !Emptied(calls[..i])
  }

  predicate IsPop(c: Call) {
    c.CallPopBack? || c.CallPopFront?
  }

  /** From creation on, every sequence of calls acts as on a plain sequence, up to the first pop from an
      array that a deletion has emptied. */
  method RunCalls(fsize: int, calls: seq<Call>) returns (a: Array, done: nat)
    ensures done <= |calls| && (done == |calls| <==> Poppable(calls))
    ensures done < |calls| ==> IsPop(calls[done]) && a.Hollow()
    ensures a.Valid() && a.Contents() == AllApplied(calls[..done])
    ensures a.Hollow() <==> Emptied(calls[..done])
  {
    hide Flat, Applied, AllApplied, Emptied;
    a := new Array(fsize);
    done := 0;
    NoneApplied(calls);
    while done < |calls| && !(IsPop(calls[done]) && a.Hollow())
      invariant done <= |calls| && forall i :: 0 <= i < done && IsPop(calls[i]) ==> !Emptied(calls[..i])
      invariant fresh(a) && (forall g :: g in a.fragments ==> fresh(g) && fresh(g.data))
      invariant a.Valid() && a.Contents() == AllApplied(calls[..done])
      invariant a.Hollow() <==> Emptied(calls[..done])
    {
      NextApplied(calls, done);
      OneCall(a, calls[done]);
      done := done + 1;
    }
    assert calls[..|calls|] == calls;
  }

  lemma {:induction false} NoneApplied(calls: seq<Call>)
    ensures AllApplied(calls[..0]) == [] && !Emptied(calls[..0])
  {
  }

  lemma {:induction false} NextApplied(calls: seq<Call>, i: nat)
    requires i < |calls|
    ensures var before, after := AllApplied(calls[..i]), AllApplied(calls[..i + 1]);
      after == Applied(before, calls[i])
      && (Emptied(calls[..i + 1]) <==>
        after == [] && if calls[i].CallDelete? && before != [] then true else Emptied(calls[..i]))
  {
    assert calls[..i + 1][..i] == calls[..i];
  }

  method OneCall(a: Array, c: Call)
    requires a.Valid() && (IsPop(c) ==> !a.Hollow())
    modifies a, a.fragments, set f | f in a.fragments :: f.data
    ensures a.Valid() && a.Contents() == Applied(old(a.Contents()), c)
    ensures a.Hollow() <==>
      a.Contents() == [] && if c.CallDelete? && old(a.Contents()) != [] then true else old(a.Hollow())
    ensures forall g :: g in a.fragments ==> g in old(a.fragments) || (fresh(g) && fresh(g.data))
  {
    hide Flat;
    a.ValidParts();
    match c {
      case CallPushBack(x) => var index := a.PushBack(x);
      case CallPushFront(x) => var index := a.PushFront(x);
      case CallPopBack => var x := a.PopBack();
      case CallPopFront => var x := a.PopFront();
      case CallInsert(i, x) => var res := a.Insert(i, x);
      case CallDelete(i) => var x := a.Delete(i);
    }
    a.ValidParts();
  }
}
