/** ydb/ymap.c: a map kept both as a list in the order of insertion and as a balanced tree by key. */
module YMap {
  import opened Common
  import opened AvlShape
  import opened YTree
  import L = YList

  /** An entry; the list and the tree both hold it, and it knows its cell of the list. */
  class Item<K, V> {
    const key: K
    const data: V
    var cell: L.Cell?<Item<K, V>>

    constructor (key: K, data: V)
      ensures this.key == key && this.data == data
    {
      this.key := key;
      this.data := data;
      cell := null;
    }
  }

  // ---------- what the tree holds, as keys and items ----------

  type Pairs<K, V> = seq<(K, Item<K, V>)>

  ghost function PairsOf<K(!new), V>(order: seq<Node<K, Item<K, V>>>): (r: Pairs<K, V>)
    reads set n | n in order
    ensures |r| == |order| && forall i :: 0 <= i < |r| ==> r[i] == (order[i].key, order[i].data)
  {
    seq(|order|, i requires 0 <= i < |order| reads set n | n in order => (order[i].key, order[i].data))
  }

  /** The tree and the list hold the same entries, each under its own key. */
  ghost predicate Agree<K, V>(pairs: Pairs<K, V>, items: seq<Item<K, V>>) {
    (forall p :: p in pairs ==> p.0 == p.1.key && p.1 in items) &&
    (forall x :: x in items ==> (x.key, x) in pairs) && NoRepeats(items)
  }

  ghost predicate Keyed<K(!new), V>(comp: (K, K) -> int, pairs: Pairs<K, V>) {
    forall i, j :: 0 <= i < j < |pairs| ==> comp(pairs[i].0, pairs[j].0) < 0
  }

  ghost predicate BackLinks<K, V>(cells: seq<L.Cell<Item<K, V>>>)
    reads set c | c in cells && c.data.Some? :: c.data.value
  {
    L.Full(cells) && forall i :: 0 <= i < |cells| ==> L.DataOf(cells)[i].cell == cells[i]
  }

  ghost function EntriesOf<K, V>(items: seq<Item<K, V>>): (r: seq<(K, V)>)
    ensures |r| == |items| && forall i :: 0 <= i < |r| ==> r[i] == (items[i].key, items[i].data)
  {
    seq(|items|, i requires 0 <= i < |items| => (items[i].key, items[i].data))
  }

  class Map<K(!new), V> {
    const tree: Tree<K, Item<K, V>>
    const list: L.List<Item<K, V>>

    ghost predicate Valid()
      reads tree, list, list.head, list.cells, Nodes(tree.shape), tree.order
      reads set c | c in list.cells && c.data.Some? :: c.data.value
    {
      tree.Valid() && ListValid() && Agree(PairsOf(tree.order), L.DataOf(list.cells))
    }

    /** The list by itself, with the way back from each entry to its cell. */
    ghost predicate ListValid()
      reads list, list.head, list.cells
      reads set c | c in list.cells && c.data.Some? :: c.data.value
    {
      list.Valid() && BackLinks(list.cells)
    }

    /** The entries in the order of the list. */
    ghost function Items(): seq<Item<K, V>>
      reads list`cells
      requires L.Full(list.cells)
    {
      L.DataOf(list.cells)
    }

    ghost function Contents(): seq<(K, V)>
      reads list`cells
      requires L.Full(list.cells)
    {
      EntriesOf(Items())
    }

    /** ymap_create */
    constructor (comp: (K, K) -> int)
      requires TotalOrder(comp)
      ensures Valid() && tree.comp == comp && Items() == []
      ensures fresh(tree) && fresh(list) && fresh(list.head) && Nodes(tree.shape) == {} && list.cells == []
    {
      tree := new Tree(comp);
      list := new L.List();
    }

    /** ymap_search */
    method Search(key: K) returns (data: Option<V>)
      requires Valid()
      ensures Valid()
      ensures var i := Found(tree.comp, Items(), key);
        data == if i < |Items()| then Some(Items()[i].data) else None
    {
      hide Nodes, Distinct, Link, Linked, Avl, InOrder, Plug, Ascending, TotalOrder, L.Linked, NoRepeats;
      var node := tree.SearchNode(key);
      Sorted();
      if node != null {
        ItemHere(tree.comp, PairsOf(tree.order), Items(), key, node.data);
        data := Some(node.data.data);
      } else {
        NoItem(tree.comp, PairsOf(tree.order), Items(), key);
        data := None;
      }
    }

    /** ytree_insert of an entry under its key: the entry that was there before comes back. */
    method TreePut(item: Item<K, V>) returns (prev: Option<Item<K, V>>, ghost pos: nat)
      requires tree.Valid() && ListValid()
      modifies tree`root, tree`size, tree`shape, tree`order, Nodes(tree.shape)
      ensures tree.Valid() && ListValid()
      ensures PutInto(tree.comp, old(PairsOf(tree.order)), PairsOf(tree.order), pos, item, prev)
      ensures forall n :: n in Nodes(tree.shape) ==> n in old(Nodes(tree.shape)) || fresh(n)
    {
      hide Nodes, Distinct, Link, Linked, Avl, InOrder, Plug, Ascending, TotalOrder, ListValid;
      tree.NoneTwice();
      var it;
      it, prev, pos := tree.Push(item.key, item);
    }

    /** ytree_delete of the entry of a key */
    method TreeDelete(key: K) returns (gone: Option<Item<K, V>>, ghost pos: nat)
      requires tree.Valid() && ListValid()
      modifies tree`root, tree`size, tree`shape, tree`order
      modifies Nodes(tree.shape)`parent, Nodes(tree.shape)`left, Nodes(tree.shape)`right, Nodes(tree.shape)`balance
      ensures tree.Valid() && ListValid() && Nodes(tree.shape) <= old(Nodes(tree.shape))
      ensures var was := old(PairsOf(tree.order));
        if gone.None? then
          PairsOf(tree.order) == was && forall i :: 0 <= i < |was| ==> tree.comp(key, was[i].0) != 0
        else
          pos < |was| && PairsOf(tree.order) == Without(was, pos) && was[pos].1 == gone.value &&
            tree.comp(key, was[pos].0) == 0
    {
      hide Nodes, Distinct, Link, Linked, Avl, InOrder, Plug, Ascending, TotalOrder, ListValid, PairsOf, Without;
      ghost var order, was := tree.order, PairsOf(tree.order);
      OrderAllocated(tree.shape);
      gone, pos := tree.Delete(key);
      assert PairsOf(order) == was;
      PairsHere(order);
      if gone.Some? {
        PairsWithout(order, pos);
      }
    }

    method NewItem(key: K, data: V) returns (item: Item<K, V>)
      requires Valid()
      ensures Valid() && fresh(item) && item !in Items() && item.key == key && item.data == data
      ensures PairsOf(tree.order) == old(PairsOf(tree.order))
    {
      hide Nodes, Distinct, Link, Linked, Avl, InOrder, Plug, Ascending, TotalOrder, L.Linked, NoRepeats;
      hide Agree, L.DataOf, PairsOf, Tree.Valid, L.List.Valid;
      OrderAllocated(tree.shape);
      NodesAllocated(tree.shape);
      ItemsAllocated(list.cells);
      item := new Item(key, data);
    }

    /** A new cell at place `at` of the list, behind `before`, for an entry. */
    method ListPut(item: Item<K, V>, before: L.Cell?<Item<K, V>>, ghost at: nat) returns (cell: L.Cell<Item<K, V>>)
      requires tree.Valid() && ListValid() && item !in Items() && at <= |list.cells|
      requires if before == null then at == |list.cells| else before == ([list.head] + list.cells)[at]
      modifies list`size, list`cells, list.head, list.cells, item`cell
      ensures tree.Valid() && PairsOf(tree.order) == old(PairsOf(tree.order)) && ListValid()
      ensures Items() == old(Items())[..at] + [item] + old(Items())[at..]
      ensures fresh(cell) && list.cells == old(list.cells)[..at] + [cell] + old(list.cells)[at..]
    {
      hide Nodes, Distinct, Link, Linked, Avl, InOrder, Plug, Ascending, TotalOrder, L.Linked, NoRepeats, PairsOf,
        Tree.Valid, L.List.Valid;
      OrderAllocated(tree.shape);
      NodesAllocated(tree.shape);
      ghost var cells := list.cells;
      cell := list.Insert(before, item, at);
      item.cell := cell;
    }

    /** A new entry, in the list only. */
    method NewEntry(key: K, data: V, before: L.Cell?<Item<K, V>>, ghost at: nat)
        returns (item: Item<K, V>, ghost cell: L.Cell<Item<K, V>>)
      requires Valid() && at <= |list.cells|
      requires if before == null then at == |list.cells| else before == ([list.head] + list.cells)[at]
      modifies list`size, list`cells, list.head, list.cells
      ensures tree.Valid() && PairsOf(tree.order) == old(PairsOf(tree.order)) && ListValid()
      ensures fresh(item) && item !in old(Items()) && item.key == key && item.data == data
      ensures Items() == old(Items())[..at] + [item] + old(Items())[at..]
      ensures fresh(cell) && list.cells == old(list.cells)[..at] + [cell] + old(list.cells)[at..]
    {
      hide Nodes, Distinct, Link, Linked, Avl, InOrder, Plug, Ascending, TotalOrder, L.Linked, NoRepeats;
      hide Agree, L.DataOf, PairsOf, ListValid, Tree.Valid;
      item := NewItem(key, data);
      cell := ListPut(item, before, at);
    }

    /** The cell of an entry leaves the list. */
    method ListErase(item: Item<K, V>, ghost at: nat) returns (before: L.Cell<Item<K, V>>)
      requires tree.Valid() && ListValid() && at < |list.cells| && Items()[at] == item
      modifies list`size, list`cells, list.head, list.cells
      ensures tree.Valid() && PairsOf(tree.order) == old(PairsOf(tree.order)) && ListValid()
      ensures Items() == Without(old(Items()), at) && forall j :: 0 <= j < |list.cells| ==>
        list.cells[j] in old(list.cells)
      ensures before.data == if at > 0 then Some(old(Items())[at - 1]) else None
    {
      hide Nodes, Distinct, Link, Linked, Avl, InOrder, Plug, Ascending, TotalOrder, L.Linked, NoRepeats, PairsOf,
        Tree.Valid;
      OrderAllocated(tree.shape);
      NodesAllocated(tree.shape);
      before := list.Erase(item.cell, at);
    }

    // ---------- changing both ----------

    /** After a new entry has gone into both, the one it replaces in the tree leaves the list. */
    method EraseOld(prev: Option<Item<K, V>>, ghost at: nat)
      requires tree.Valid() && ListValid() && at <= |Items()|
      requires if prev.None? then at == |Items()| else at < |Items()| && Items()[at] == prev.value
      requires Agree(PairsOf(tree.order), Without(Items(), at))
      modifies list`size, list`cells, list.head, list.cells
      ensures Valid() && Items() == Without(old(Items()), at)
      ensures forall j :: 0 <= j < |list.cells| ==> list.cells[j] in old(list.cells)
    {
      hide Nodes, Distinct, Link, Linked, Avl, InOrder, Plug, Ascending, TotalOrder, L.Linked, NoRepeats;
      hide Agree, Found, L.DataOf, PairsOf, ListValid, Tree.Valid, EntriesOf, Keyed, L.List.Valid;
      if prev.Some? {
        var before := ListErase(prev.value, at);
      }
    }

    /** ymap_insert_back: an entry of the key goes, the new one comes last. */
    method InsertBack(key: K, data: V) returns (was: Option<V>, ghost item: Item<K, V>)
      requires Valid()
      modifies tree`root, tree`size, tree`shape, tree`order, Nodes(tree.shape)
      modifies list`size, list`cells, list.head, list.cells
      ensures Valid() && fresh(item) && item.key == key && item.data == data
      ensures var i, items := old(Found(tree.comp, Items(), key)), old(Items());
        Items() == Without(items, i) + [item] && was == if i < |items| then Some(items[i].data) else None
      ensures var i, entries := old(Found(tree.comp, Items(), key)), old(Contents());
        Contents() == Without(entries, i) + [(key, data)]
      ensures forall n :: n in Nodes(tree.shape) ==> n in old(Nodes(tree.shape)) || fresh(n)
      ensures forall j :: 0 <= j < |list.cells| ==> list.cells[j] in old(list.cells) || fresh(list.cells[j])
    {
      hide Nodes, Distinct, Link, Linked, Avl, InOrder, Plug, Ascending, TotalOrder, L.Linked, NoRepeats;
      hide Agree, Found, L.DataOf, PairsOf, ListValid, Tree.Valid, EntriesOf, Keyed, Without;
      ghost var pairs, items := PairsOf(tree.order), Items();
      Sorted();
      var created;
      ghost var cell;
      created, cell := NewEntry(key, data, null, |items|);
      item := created;
      var prev;
      ghost var pos;
      prev, pos := TreePut(created);
      Sorted();
      PutBack(tree.comp, pairs, items, PairsOf(tree.order), pos, item, prev);
      was := if prev.Some? then Some(prev.value.data) else None;
      EraseOld(prev, if prev.Some? then Found(tree.comp, items, key) else |items| + 1);
    }

    /** ymap_insert_front: the same with the new one first. */
    method InsertFront(key: K, data: V) returns (was: Option<V>, ghost item: Item<K, V>)
      requires Valid()
      modifies tree`root, tree`size, tree`shape, tree`order, Nodes(tree.shape)
      modifies list`size, list`cells, list.head, list.cells
      ensures Valid() && fresh(item) && item.key == key && item.data == data
      ensures var i, items := old(Found(tree.comp, Items(), key)), old(Items());
        Items() == [item] + Without(items, i) && was == if i < |items| then Some(items[i].data) else None
      ensures var i, entries := old(Found(tree.comp, Items(), key)), old(Contents());
        Contents() == [(key, data)] + Without(entries, i)
      ensures forall n :: n in Nodes(tree.shape) ==> n in old(Nodes(tree.shape)) || fresh(n)
      ensures forall j :: 0 <= j < |list.cells| ==> list.cells[j] in old(list.cells) || fresh(list.cells[j])
    {
      hide Nodes, Distinct, Link, Linked, Avl, InOrder, Plug, Ascending, TotalOrder, L.Linked, NoRepeats;
      hide Agree, Found, L.DataOf, PairsOf, ListValid, Tree.Valid, EntriesOf, Keyed, Without;
      ghost var pairs, items := PairsOf(tree.order), Items();
      Sorted();
      var created;
      ghost var cell;
      created, cell := NewEntry(key, data, list.head, 0);
      item := created;
      var prev;
      ghost var pos;
      prev, pos := TreePut(created);
      Sorted();
      PutFront(tree.comp, pairs, items, PairsOf(tree.order), pos, item, prev);
      was := if prev.Some? then Some(prev.value.data) else None;
      EraseOld(prev, Found(tree.comp, items, key) + 1);
    }

    /** ymap_delete */
    method Delete(key: K) returns (data: Option<V>)
      requires Valid()
      modifies tree`root, tree`size, tree`shape, tree`order
      modifies Nodes(tree.shape)`parent, Nodes(tree.shape)`left, Nodes(tree.shape)`right, Nodes(tree.shape)`balance
      modifies list`size, list`cells, list.head, list.cells
      ensures Valid()
      ensures var i, items := old(Found(tree.comp, Items(), key)), old(Items());
        Items() == Without(items, i) && data == if i < |items| then Some(items[i].data) else None
      ensures Contents() == Without(old(Contents()), old(Found(tree.comp, Items(), key)))
      ensures Nodes(tree.shape) <= old(Nodes(tree.shape)) && forall j :: 0 <= j < |list.cells| ==>
        list.cells[j] in old(list.cells)
    {
      hide Nodes, Distinct, Link, Linked, Avl, InOrder, Plug, Ascending, TotalOrder, L.Linked, NoRepeats;
      hide Agree, Found, L.DataOf, PairsOf, ListValid, Tree.Valid, EntriesOf, Keyed, Without;
      ghost var pairs, items := PairsOf(tree.order), Items();
      Sorted();
      var gone;
      ghost var pos;
      gone, pos := TreeDelete(key);
      Taken(tree.comp, pairs, items, PairsOf(tree.order), pos, key, gone);
      data := None;
      if gone.Some? {
        data := Some(gone.value.data);
        var before := ListErase(gone.value, Found(tree.comp, items, key));
      }
    }

    /** ymap_remove: the entry before comes back, none if the first one goes. */
    method Remove(item: Item<K, V>, ghost at: nat) returns (prev: Option<Item<K, V>>)
      requires Valid() && at < |Items()| && Items()[at] == item
      modifies tree`root, tree`size, tree`shape, tree`order
      modifies Nodes(tree.shape)`parent, Nodes(tree.shape)`left, Nodes(tree.shape)`right, Nodes(tree.shape)`balance
      modifies list`size, list`cells, list.head, list.cells
      ensures Valid() && Items() == Without(old(Items()), at) && prev == if at > 0 then Some(old(Items())[at - 1])
        else None
      ensures Nodes(tree.shape) <= old(Nodes(tree.shape)) && forall j :: 0 <= j < |list.cells| ==>
        list.cells[j] in old(list.cells)
    {
      hide Nodes, Distinct, Link, Linked, Avl, InOrder, Plug, Ascending, TotalOrder, L.Linked, NoRepeats;
      hide Agree, Found, L.DataOf, PairsOf, ListValid, Tree.Valid, EntriesOf, Keyed, Without;
      ghost var pairs, items := PairsOf(tree.order), Items();
      Sorted();
      KeyHere(tree.comp, pairs, items, at);
      var gone;
      ghost var pos;
      gone, pos := TreeDelete(item.key);
      Taken(tree.comp, pairs, items, PairsOf(tree.order), pos, item.key, gone);
      var before := ListErase(item, at);
      prev := before.data;
    }

    /** ymap_pop_front and ymap_pop_tail: out of the list first, then out of the tree by its key. */
    method Pop(tail: bool) returns (popped: Option<(K, V)>)
      requires Valid()
      modifies tree`root, tree`size, tree`shape, tree`order
      modifies Nodes(tree.shape)`parent, Nodes(tree.shape)`left, Nodes(tree.shape)`right, Nodes(tree.shape)`balance
      modifies list`size, list`cells, list.head, list.cells
      ensures Valid()
      ensures var items, entries := old(Items()), old(Contents());
        if items == [] then popped == None && Items() == []
        else var at := if tail then |items| - 1 else 0;
             popped == Some((items[at].key, items[at].data)) && Items() == Without(items, at) &&
               Contents() == Without(entries, at)
      ensures Nodes(tree.shape) <= old(Nodes(tree.shape)) && forall j :: 0 <= j < |list.cells| ==>
        list.cells[j] in old(list.cells)
    {
      hide Nodes, Distinct, Link, Linked, Avl, InOrder, Plug, Ascending, TotalOrder, L.Linked, NoRepeats;
      hide Agree, Found, L.DataOf, PairsOf, ListValid, Tree.Valid, EntriesOf, Keyed, Without;
      ghost var pairs, items := PairsOf(tree.order), Items();
      Sorted();
      var item := ListPop(tail);
      EntriesNone(items);
      if item.None? {
        return None;
      }
      ghost var at := if tail then |items| - 1 else 0;
      KeyHere(tree.comp, pairs, items, at);
      popped := Some((item.value.key, item.value.data));
      var gone;
      ghost var pos;
      gone, pos := TreeDelete(item.value.key);
      Taken(tree.comp, pairs, items, PairsOf(tree.order), pos, item.value.key, gone);
    }

    method ListPop(tail: bool) returns (item: Option<Item<K, V>>)
      requires tree.Valid() && ListValid()
      modifies list`size, list`cells, list.head, list.cells
      ensures tree.Valid() && PairsOf(tree.order) == old(PairsOf(tree.order)) && ListValid()
      ensures var items := old(Items());
        if items == [] then item == None && Items() == []
        else var at := if tail then |items| - 1 else 0; item == Some(items[at]) && Items() == Without(items, at)
      ensures forall j :: 0 <= j < |list.cells| ==> list.cells[j] in old(list.cells)
    {
      hide Nodes, Distinct, Link, Linked, Avl, InOrder, Plug, Ascending, TotalOrder, L.Linked, NoRepeats, PairsOf,
        Tree.Valid;
      OrderAllocated(tree.shape);
      NodesAllocated(tree.shape);
      if tail {
        item := list.PopBack();
      } else {
        item := list.PopFront();
      }
    }

    /** ymap_insert: behind an entry, unless the key is there already. */
    method Insert(after: Item<K, V>, key: K, data: V, ghost at: nat) returns (created: Item?<K, V>)
      requires Valid() && at < |Items()| && Items()[at] == after
      modifies tree`root, tree`size, tree`shape, tree`order, Nodes(tree.shape)
      modifies list`size, list`cells, list.head, list.cells
      ensures Valid() && (created != null <==> old(Found(tree.comp, Items(), key)) == |old(Items())|)
      ensures created == null ==> Items() == old(Items())
      ensures created != null ==> fresh(created) && created.key == key && created.data == data
      ensures created != null ==> Items() == old(Items())[..at + 1] + [created] + old(Items())[at + 1..]
      ensures Contents() ==
        if created == null then old(Contents())
          else old(Contents())[..at + 1] + [(key, data)] + old(Contents())[at + 1..]
      ensures forall n :: n in Nodes(tree.shape) ==> n in old(Nodes(tree.shape)) || fresh(n)
      ensures forall j :: 0 <= j < |list.cells| ==> list.cells[j] in old(list.cells) || fresh(list.cells[j])
    {
      hide Nodes, Distinct, Link, Linked, Avl, InOrder, Plug, Ascending, TotalOrder, L.Linked, NoRepeats;
      hide Agree, Found, L.DataOf, PairsOf, ListValid, Tree.Valid, EntriesOf, Keyed, Without;
      ghost var pairs, items := PairsOf(tree.order), Items();
      Sorted();
      var node := Search(key);
      if node.Some? {
        return null;
      }
      CellAt(at);
      ghost var cell;
      created, cell := NewEntry(key, data, after.cell, at + 1);
      var prev;
      ghost var pos;
      prev, pos := TreePut(created);
      Sorted();
      PutAt(tree.comp, pairs, items, PairsOf(tree.order), pos, created, prev, at + 1);
    }

    /** ymap_first and as many times ymap_next */
    method EntryAt(at: nat) returns (item: Item?<K, V>)
      requires Valid()
      ensures Valid() && item == if at < |Items()| then Items()[at] else null
    {
      hide Nodes, Distinct, Link, Linked, Avl, InOrder, Plug, Ascending, TotalOrder, L.Linked, NoRepeats, PairsOf,
        Tree.Valid;
      OrderAllocated(tree.shape);
      NodesAllocated(tree.shape);
      ItemsAllocated(list.cells);
      ghost var cells := list.cells;
      var cell := list.Index(at);
      assert at < |cells| ==> cell == cells[at];
      assert list.cells == cells && |Items()| == |cells|;
      if cell == null {
        return null;
      }
      assert cells[at].data == Some(Items()[at]);
      item := cell.data.value;
    }

    lemma {:induction false} CellAt(at: nat)
      requires ListValid() && at < |Items()|
      ensures Items()[at].cell == ([list.head] + list.cells)[at + 1] && |list.cells| == |Items()|
    {
    }

    lemma {:induction false} Sorted()
      requires tree.Valid()
      ensures TotalOrder(tree.comp) && Keyed(tree.comp, PairsOf(tree.order))
    {
    }
  }

  /** The place of the entry whose key compares equal, the number of entries if there is none. */
  ghost function Found<K(!new), V>(comp: (K, K) -> int, items: seq<Item<K, V>>, key: K): (i: nat)
    ensures i <= |items| && (i < |items| ==> comp(key, items[i].key) == 0)
    ensures forall j :: 0 <= j < i ==> comp(key, items[j].key) != 0
  {
    if items == [] || comp(key, items[0].key) == 0 then 0 else 1 + Found(comp, items[1..], key)
  }

  /** An entry is the only one with its key. */
  lemma {:induction false} ItemHere<K(!new), V>(comp: (K, K) -> int, pairs: Pairs<K, V>, items: seq<Item<K, V>>, key: K,
                                                x: Item<K, V>)
    requires TotalOrder(comp) && Keyed(comp, pairs) && Agree(pairs, items) && x in items && comp(key, x.key) == 0
    ensures var i := Found(comp, items, key); i < |items| && items[i] == x
  {
    var i := Found(comp, items, key);
    var k :| 0 <= k < |items| && items[k] == x;
    var y := items[i];
    assert (x.key, x) in pairs && (y.key, y) in pairs;
    var p, q :| 0 <= p < |pairs| && 0 <= q < |pairs| && pairs[p] == (x.key, x) && pairs[q] == (y.key, y);
    EqualKeys(comp, x.key, key, y.key);
  }

  lemma {:induction false} EqualKeys<K(!new)>(comp: (K, K) -> int, a: K, key: K, b: K)
    requires TotalOrder(comp) && comp(key, a) == 0 && comp(key, b) == 0
    ensures comp(a, b) == 0 && comp(b, a) == 0
  {
    assert comp(a, key) == 0 && comp(b, key) == 0;
  }

  lemma {:induction false} NoItem<K(!new), V>(comp: (K, K) -> int, pairs: Pairs<K, V>, items: seq<Item<K, V>>, key: K)
    requires Agree(pairs, items) && forall i :: 0 <= i < |pairs| ==> comp(key, pairs[i].0) != 0
    ensures Found(comp, items, key) == |items|
  {
    forall x | x in items ensures comp(key, x.key) != 0 {
      assert (x.key, x) in pairs;
    }
  }

  lemma {:induction false} InWithout<T>(s: seq<T>, at: nat)
    requires at < |s|
    ensures (forall y :: y in s ==> y == s[at] || y in Without(s, at)) && forall y :: y in Without(s, at) ==> y in s
    ensures (forall i :: 0 <= i < |s| && i != at ==> s[i] != s[at]) ==> s[at] !in Without(s, at)
  {
    assert forall y :: y in s ==> y in s[..at] || y == s[at] || y in s[at + 1..];
  }

  lemma {:induction false} InWith<T>(s: seq<T>, at: nat, x: T)
    requires at <= |s|
    ensures forall y :: y in s[..at] + [x] + s[at..] <==> y in s || y == x
  {
    assert forall y :: y in s ==> y in s[..at] || y in s[at..];
  }

  lemma {:induction false} DistinctWithout<T>(s: seq<T>, at: nat)
    requires NoRepeats(s) && at < |s|
    ensures NoRepeats(Without(s, at)) && s[at] !in Without(s, at)
  {
    InWithout(s, at);
  }

  lemma {:induction false} DistinctWith<T>(s: seq<T>, at: nat, x: T)
    requires NoRepeats(s) && at <= |s| && x !in s
    ensures NoRepeats(s[..at] + [x] + s[at..])
  {
  }

  lemma {:induction false} AgreeAdded<K, V>(pairs: Pairs<K, V>, items: seq<Item<K, V>>, pos: nat, at: nat,
                                            x: Item<K, V>)
    requires Agree(pairs, items) && pos <= |pairs| && at <= |items| && x !in items
    ensures Agree(pairs[..pos] + [(x.key, x)] + pairs[pos..], items[..at] + [x] + items[at..])
  {
    InWith(pairs, pos, (x.key, x));
    InWith(items, at, x);
    DistinctWith(items, at, x);
    hide NoRepeats;
  }

  lemma {:induction false} AgreeRemoved<K(!new), V>(comp: (K, K) -> int, pairs: Pairs<K, V>, items: seq<Item<K, V>>,
                                                    pos: nat, at: nat)
    requires TotalOrder(comp) && Keyed(comp, pairs) && Agree(pairs, items)
    requires pos < |pairs| && at < |items| && pairs[pos].1 == items[at]
    ensures Agree(Without(pairs, pos), Without(items, at)) && items[at] !in Without(items, at)
  {
    var x := items[at];
    OnlyPair(comp, pairs, items, pos);
    InWithout(pairs, pos);
    InWithout(items, at);
    DistinctWithout(items, at);
    hide NoRepeats, TotalOrder, Keyed, Without;
    assert pairs[pos] == (x.key, x);
  }

  lemma {:induction false} OnlyPair<K(!new), V>(comp: (K, K) -> int, pairs: Pairs<K, V>, items: seq<Item<K, V>>,
                                                pos: nat)
    requires TotalOrder(comp) && Keyed(comp, pairs) && Agree(pairs, items) && pos < |pairs|
    ensures pairs[pos] == (pairs[pos].1.key, pairs[pos].1)
    ensures forall p :: p in Without(pairs, pos) ==> p.1 != pairs[pos].1
  {
    var x := pairs[pos].1;
    assert pairs[pos] in pairs && comp(x.key, x.key) == 0;
    var u := Without(pairs, pos);
    forall i | 0 <= i < |u| ensures u[i].1 != x {
      assert u[i] == pairs[if i < pos then i else i + 1];
      assert u[i] in pairs;
    }
  }

  /** What putting an entry into the tree makes of it, given the entry that came back. */
  ghost predicate PutInto<K, V>(comp: (K, K) -> int, pairs: Pairs<K, V>, after: Pairs<K, V>, pos: nat, x: Item<K, V>,
                                prev: Option<Item<K, V>>) {
    if prev.None? then
      pos <= |pairs| && after == pairs[..pos] + [(x.key, x)] + pairs[pos..]
    else
      pos < |pairs| && after == pairs[pos := (x.key, x)] && pairs[pos].1 == prev.value && comp(x.key, pairs[pos].0) == 0
  }

  /** The tree after that agrees with the list in which the new entry stands at place `to`. */
  lemma {:induction false} PutAgrees<K(!new), V>(comp: (K, K) -> int, pairs: Pairs<K, V>, items: seq<Item<K, V>>,
                                                 after: Pairs<K, V>, pos: nat, x: Item<K, V>, prev: Option<Item<K, V>>,
                                                 to: nat)
    requires TotalOrder(comp) && Keyed(comp, pairs) && Keyed(comp, after) && Agree(pairs, items) && x !in items
    requires PutInto(comp, pairs, after, pos, x, prev)
    requires to <= |Without(items, Found(comp, items, x.key))|
    ensures var at := Found(comp, items, x.key); var rest := Without(items, at);
      (prev.None? <==> at == |items|) && (prev.Some? ==> items[at] == prev.value)
      && Agree(after, rest[..to] + [x] + rest[to..])
  {
    hide TotalOrder, NoRepeats, Found, Agree;
    var at := Found(comp, items, x.key);
    if prev.None? {
      Absent(comp, pairs, items, after, pos, x);
      AgreeAdded(pairs, items, pos, to, x);
    } else {
      Present(comp, pairs, items, pos, x.key);
      AgreeRemoved(comp, pairs, items, pos, at);
      var rest, left := Without(items, at), Without(pairs, pos);
      InWithout(items, at);
      AgreeAdded(left, rest, pos, to, x);
      assert left[..pos] + [(x.key, x)] + left[pos..] == after;
    }
  }

  lemma {:induction false} Absent<K(!new), V>(comp: (K, K) -> int, pairs: Pairs<K, V>, items: seq<Item<K, V>>,
                                              after: Pairs<K, V>, pos: nat, x: Item<K, V>)
    requires TotalOrder(comp) && Agree(pairs, items) && pos <= |pairs|
    requires after == pairs[..pos] + [(x.key, x)] + pairs[pos..] && Keyed(comp, after)
    ensures Found(comp, items, x.key) == |items|
  {
    hide Agree, Found;
    forall i | 0 <= i < |pairs| ensures comp(x.key, pairs[i].0) != 0 {
      assert after[pos] == (x.key, x) && after[if i < pos then i else i + 1] == pairs[i];
    }
    NoItem(comp, pairs, items, x.key);
  }

  lemma {:induction false} Present<K(!new), V>(comp: (K, K) -> int, pairs: Pairs<K, V>, items: seq<Item<K, V>>,
                                               pos: nat, key: K)
    requires TotalOrder(comp) && Keyed(comp, pairs) && Agree(pairs, items) && pos < |pairs| &&
      comp(key, pairs[pos].0) == 0
    ensures var at := Found(comp, items, key); at < |items| && items[at] == pairs[pos].1
  {
    hide TotalOrder, Keyed, Found;
    assert pairs[pos] in pairs;
    ItemHere(comp, pairs, items, key, pairs[pos].1);
  }

  lemma {:induction false} PutBack<K(!new), V>(comp: (K, K) -> int, pairs: Pairs<K, V>, items: seq<Item<K, V>>,
                                               after: Pairs<K, V>, pos: nat, x: Item<K, V>, prev: Option<Item<K, V>>)
    requires TotalOrder(comp) && Keyed(comp, pairs) && Keyed(comp, after) && Agree(pairs, items) && x !in items
    requires PutInto(comp, pairs, after, pos, x, prev)
    ensures items[..|items|] + [x] + items[|items|..] == items + [x]
    ensures var at := Found(comp, items, x.key);
      (if prev.None? then at == |items| else at < |items| && items[at] == prev.value && (items + [x])[at] == prev.value)
      && Without(items + [x], if prev.Some? then at else |items| + 1) == Without(items, at) + [x]
      && Agree(after, Without(items, at) + [x])
      && EntriesOf(Without(items, at) + [x]) == Without(EntriesOf(items), at) + [(x.key, x.data)]
      && (at < |items| ==> EntriesOf(items)[at].1 == items[at].data)
  {
    hide TotalOrder, Keyed, NoRepeats, Found, Agree, PutInto, Without, EntriesOf;
    var at := Found(comp, items, x.key);
    PutAgrees(comp, pairs, items, after, pos, x, prev, |Without(items, at)|);
    AtEnds(items, x);
    AtEnds(Without(items, at), x);
    WithoutEnds(items, at, x);
    EntriesEnds(items, at, x);
  }

  lemma {:induction false} AtEnds<T>(s: seq<T>, x: T)
    ensures s[..|s|] + [x] + s[|s|..] == s + [x] && s[..0] + [x] + s[0..] == [x] + s
  {
  }

  lemma {:induction false} WithoutEnds<T>(s: seq<T>, at: nat, x: T)
    requires at <= |s|
    ensures at < |s| ==>
      Without(s + [x], at) == Without(s, at) + [x] && (s + [x])[at] == s[at] && ([x] + s)[at + 1] == s[at]
    ensures Without(s + [x], |s| + 1) == s + [x] && Without(s, |s|) == s
    ensures Without([x] + s, at + 1) == [x] + Without(s, at)
  {
    if at < |s| {
      assert s + [x] == s[..at] + ([s[at]] + (s[at + 1..] + [x]));
      assert (s + [x])[..at] == s[..at] && (s + [x])[at + 1..] == s[at + 1..] + [x];
      assert ([x] + s)[..at + 1] == [x] + s[..at] && ([x] + s)[at + 2..] == s[at + 1..];
    }
  }

  lemma {:induction false} EntriesEnds<K, V>(items: seq<Item<K, V>>, at: nat, x: Item<K, V>)
    requires at <= |items|
    ensures EntriesOf(Without(items, at) + [x]) == Without(EntriesOf(items), at) + [(x.key, x.data)]
    ensures EntriesOf([x] + Without(items, at)) == [(x.key, x.data)] + Without(EntriesOf(items), at)
  {
  }

  lemma {:induction false} PutFront<K(!new), V>(comp: (K, K) -> int, pairs: Pairs<K, V>, items: seq<Item<K, V>>,
                                                after: Pairs<K, V>, pos: nat, x: Item<K, V>, prev: Option<Item<K, V>>)
    requires TotalOrder(comp) && Keyed(comp, pairs) && Keyed(comp, after) && Agree(pairs, items) && x !in items
    requires PutInto(comp, pairs, after, pos, x, prev)
    ensures items[..0] + [x] + items[0..] == [x] + items
    ensures var at := Found(comp, items, x.key);
      (if prev.None? then at == |items|
        else at < |items| && items[at] == prev.value && ([x] + items)[at + 1] == prev.value)
      && Without([x] + items, at + 1) == [x] + Without(items, at)
      && Agree(after, [x] + Without(items, at))
      && EntriesOf([x] + Without(items, at)) == [(x.key, x.data)] + Without(EntriesOf(items), at)
      && (at < |items| ==> EntriesOf(items)[at].1 == items[at].data)
  {
    hide TotalOrder, Keyed, NoRepeats, Found, Agree, PutInto, Without, EntriesOf;
    var at := Found(comp, items, x.key);
    PutAgrees(comp, pairs, items, after, pos, x, prev, 0);
    AtEnds(items, x);
    AtEnds(Without(items, at), x);
    WithoutEnds(items, at, x);
    EntriesEnds(items, at, x);
  }

  lemma {:induction false} ItemsAllocated<K, V>(cells: seq<L.Cell<Item<K, V>>>)
    requires L.Full(cells)
    ensures forall i :: 0 <= i < |L.DataOf(cells)| ==> allocated(L.DataOf(cells)[i])
  {
    forall i | 0 <= i < |cells| ensures allocated(L.DataOf(cells)[i]) {
      assert cells[i].data == Some(L.DataOf(cells)[i]);
    }
  }

  lemma {:induction false} PairsHere<K(!new), V>(order: seq<Node<K, Item<K, V>>>)
    ensures forall i :: 0 <= i < |order| ==> PairsOf(order)[i] == (order[i].key, order[i].data)
  {
  }

  lemma {:induction false} PairsWithout<K(!new), V>(order: seq<Node<K, Item<K, V>>>, pos: nat)
    requires pos < |order|
    ensures PairsOf(order[..pos] + order[pos + 1..]) == Without(PairsOf(order), pos)
  {
  }

  /** Taking the entry of a key out of both. */
  lemma {:induction false} Taken<K(!new), V>(comp: (K, K) -> int, pairs: Pairs<K, V>, items: seq<Item<K, V>>,
                                             after: Pairs<K, V>, pos: nat, key: K, gone: Option<Item<K, V>>)
    requires TotalOrder(comp) && Keyed(comp, pairs) && Agree(pairs, items)
    requires
      if gone.None? then after == pairs && forall i :: 0 <= i < |pairs| ==> comp(key, pairs[i].0) != 0
      else pos < |pairs| && after == Without(pairs, pos) && pairs[pos].1 == gone.value && comp(key, pairs[pos].0) == 0
    ensures var at := Found(comp, items, key);
      (if gone.None? then at == |items| else at < |items| && items[at] == gone.value) &&
        Agree(after, Without(items, at))
      && (gone.None? ==> Without(items, at) == items) && |EntriesOf(items)| == |items|
      && EntriesOf(Without(items, at)) == Without(EntriesOf(items), at)
      && (at < |items| ==> EntriesOf(items)[at] == (items[at].key, items[at].data))
  {
    hide TotalOrder, Keyed, NoRepeats, Found, Agree;
    if gone.None? {
      NoItem(comp, pairs, items, key);
    } else {
      Present(comp, pairs, items, pos, key);
      AgreeRemoved(comp, pairs, items, pos, Found(comp, items, key));
    }
  }

  /** An entry is found by its own key. */
  lemma {:induction false} KeyHere<K(!new), V>(comp: (K, K) -> int, pairs: Pairs<K, V>, items: seq<Item<K, V>>, at: nat)
    requires TotalOrder(comp) && Keyed(comp, pairs) && Agree(pairs, items) && at < |items|
    ensures Found(comp, items, items[at].key) == at && EntriesOf(items)[at] == (items[at].key, items[at].data)
  {
    hide Keyed, Found;
    var x := items[at];
    assert comp(x.key, x.key) == 0;
    ItemHere(comp, pairs, items, x.key, x);
  }

  lemma {:induction false} EntriesWithout<K, V>(items: seq<Item<K, V>>, at: nat)
    requires at <= |items|
    ensures EntriesOf(Without(items, at)) == Without(EntriesOf(items), at)
  {
  }

  lemma {:induction false} EntriesNone<K, V>(items: seq<Item<K, V>>)
    ensures |EntriesOf(items)| == |items|
  {
  }

  lemma {:induction false} PutAt<K(!new), V>(comp: (K, K) -> int, pairs: Pairs<K, V>, items: seq<Item<K, V>>,
                                             after: Pairs<K, V>, pos: nat, x: Item<K, V>, prev: Option<Item<K, V>>,
                                             to: nat)
    requires TotalOrder(comp) && Keyed(comp, pairs) && Keyed(comp, after) && Agree(pairs, items) && x !in items
    requires PutInto(comp, pairs, after, pos, x, prev) && Found(comp, items, x.key) == |items| && to <= |items|
    ensures Agree(after, items[..to] + [x] + items[to..])
    ensures EntriesOf(items[..to] + [x] + items[to..]) == EntriesOf(items)[..to] + [(x.key, x.data)] +
      EntriesOf(items)[to..]
  {
    hide TotalOrder, Keyed, NoRepeats, Found, Agree, PutInto;
    PutAgrees(comp, pairs, items, after, pos, x, prev, to);
  }

  // ---------- any sequence of calls ----------

  /** PutBehind and TakeAt use an iterator, which is at the entry that many places from the first one. */
  datatype Call<K, V> =
    | PutLast(key: K, data: V) | PutFirst(key: K, data: V) | Take(key: K) | PopEnd(tail: bool)
    | PutBehind(at: nat, key: K, data: V) | TakeAt(at: nat)

  /** The place of a key among the entries, their number if there is none. */
  ghost function PlaceOf<K(!new), V>(comp: (K, K) -> int, entries: seq<(K, V)>, key: K): (i: nat)
    ensures i <= |entries|
  {
    if entries == [] || comp(key, entries[0].0) == 0 then 0 else 1 + PlaceOf(comp, entries[1..], key)
  }

  lemma {:induction false} FoundIsPlace<K(!new), V>(comp: (K, K) -> int, items: seq<Item<K, V>>, key: K)
    ensures Found(comp, items, key) == PlaceOf(comp, EntriesOf(items), key)
  {
    if items != [] {
      FoundIsPlace(comp, items[1..], key);
      assert EntriesOf(items)[1..] == EntriesOf(items[1..]);
    }
  }

  /** What a call does to a plain sequence of entries: a key put again moves to the chosen end. */
  ghost function Applied<K(!new), V>(comp: (K, K) -> int, entries: seq<(K, V)>, c: Call<K, V>): seq<(K, V)> {
    match c
    case PutLast(key, data) => Without(entries, PlaceOf(comp, entries, key)) + [(key, data)]
    case PutFirst(key, data) => [(key, data)] + Without(entries, PlaceOf(comp, entries, key))
    case Take(key) => Without(entries, PlaceOf(comp, entries, key))
    case PopEnd(tail) => if entries == [] then [] else Without(entries, if tail then |entries| - 1 else 0)
    case PutBehind(at, key, data) =>
      if at < |entries| && PlaceOf(comp, entries, key) == |entries|
      then entries[..at + 1] + [(key, data)] + entries[at + 1..]
      else entries
    case TakeAt(at) => if at < |entries| then Without(entries, at) else entries
  }

  ghost function AllApplied<K(!new), V>(comp: (K, K) -> int, calls: seq<Call<K, V>>): seq<(K, V)> {
    if calls == [] then [] else Applied(comp, AllApplied(comp, calls[..|calls| - 1]), calls[|calls| - 1])
  }

  /** From creation on, every sequence of calls acts as on a plain sequence of entries, and list and tree
      hold the same ones. */
  method RunCalls<K(!new), V>(comp: (K, K) -> int, calls: seq<Call<K, V>>) returns (m: Map<K, V>)
    requires TotalOrder(comp)
    ensures m.Valid() && m.Contents() == AllApplied(comp, calls)
  {
    hide TotalOrder, Applied, EntriesOf, L.DataOf, Nodes, Map.Valid, AllApplied;
    m := new Map(comp);
    NoEntries(comp, calls);
    for i := 0 to |calls|
      invariant fresh(m.tree) && fresh(m.list) && fresh(m.list.head) && m.tree.comp == comp && m.Valid()
      invariant (forall n :: n in Nodes(m.tree.shape) ==> fresh(n)) && forall j :: 0 <= j < |m.list.cells| ==>
        fresh(m.list.cells[j])
      invariant L.Full(m.list.cells) && m.Contents() == AllApplied(comp, calls[..i])
    {
      NextApplied(comp, calls, i);
      OneCall(m, calls[i]);
    }
    assert calls[..|calls|] == calls;
  }

  lemma {:induction false} NoEntries<K(!new), V>(comp: (K, K) -> int, calls: seq<Call<K, V>>)
    ensures EntriesOf<K, V>([]) == [] && AllApplied(comp, calls[..0]) == []
  {
  }

  lemma {:induction false} NextApplied<K(!new), V>(comp: (K, K) -> int, calls: seq<Call<K, V>>, i: nat)
    requires i < |calls|
    ensures AllApplied(comp, calls[..i + 1]) == Applied(comp, AllApplied(comp, calls[..i]), calls[i])
  {
    hide Applied;
    assert calls[..i + 1][..i] == calls[..i];
  }

  method OneCall<K(!new), V>(m: Map<K, V>, c: Call<K, V>)
    requires m.Valid()
    modifies m.tree`root, m.tree`size, m.tree`shape, m.tree`order, Nodes(m.tree.shape)
    modifies m.list`size, m.list`cells, m.list.head, m.list.cells
    ensures m.Valid() && L.Full(m.list.cells) && m.Contents() == Applied(m.tree.comp, old(m.Contents()), c)
    ensures forall n :: n in Nodes(m.tree.shape) ==> n in old(Nodes(m.tree.shape)) || fresh(n)
    ensures forall j :: 0 <= j < |m.list.cells| ==> m.list.cells[j] in old(m.list.cells) || fresh(m.list.cells[j])
  {
    hide Nodes, TotalOrder, Map.Valid, Found, EntriesOf, L.DataOf, Without;
    Full(m);
    if c.PutLast? {
      FoundIsPlace(m.tree.comp, m.Items(), c.key);
      var was;
      ghost var item;
      was, item := m.InsertBack(c.key, c.data);
    } else if c.PutFirst? {
      FoundIsPlace(m.tree.comp, m.Items(), c.key);
      var was;
      ghost var item;
      was, item := m.InsertFront(c.key, c.data);
    } else if c.Take? {
      FoundIsPlace(m.tree.comp, m.Items(), c.key);
      var was := m.Delete(c.key);
    } else if c.PopEnd? {
      EntriesNone(m.Items());
      var was := m.Pop(c.tail);
      EntriesNone(m.Items());
    } else {
      AtIterator(m, c);
    }
    Full(m);
  }

  method AtIterator<K(!new), V>(m: Map<K, V>, c: Call<K, V>)
    requires m.Valid() && (c.PutBehind? || c.TakeAt?)
    modifies m.tree`root, m.tree`size, m.tree`shape, m.tree`order, Nodes(m.tree.shape)
    modifies m.list`size, m.list`cells, m.list.head, m.list.cells
    ensures m.Valid() && m.Contents() == Applied(m.tree.comp, old(m.Contents()), c)
    ensures forall n :: n in Nodes(m.tree.shape) ==> n in old(Nodes(m.tree.shape)) || fresh(n)
    ensures forall j :: 0 <= j < |m.list.cells| ==> m.list.cells[j] in old(m.list.cells) || fresh(m.list.cells[j])
  {
    hide Nodes, TotalOrder, Map.Valid, Found, EntriesOf, L.DataOf, Without;
    Full(m);
    EntriesNone(m.Items());
    var item := m.EntryAt(c.at);
    if item == null {
      return;
    }
    if c.PutBehind? {
      FoundIsPlace(m.tree.comp, m.Items(), c.key);
      var created := m.Insert(item, c.key, c.data, c.at);
    } else {
      EntriesWithout(m.Items(), c.at);
      var prev := m.Remove(item, c.at);
    }
  }

  lemma {:induction false} Full<K(!new), V>(m: Map<K, V>)
    requires m.Valid()
    ensures L.Full(m.list.cells)
  {
  }
}
