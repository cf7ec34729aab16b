# libydb, modelled and verified

libydb keeps data trees that several processes share. This project models the parts of it that are
hard to get right and proves what they promise:

- `AvlShape`, `YTree`: the balanced search tree on the heap, with parent links and stored balance
  factors, changed by the same loops and rotations as in the source. `AvlShape` holds the theory of
  shapes and of the hole in a shape ("zipper"); `YTree` ties nodes to shapes.
- `YList`, `YMap`: the ring with a head cell, and the map that is both a list and a tree.
- `YArray`: the list of ring buffers that together act as one sequence.
- `YNode`, `Merge`, `MergeLaws`, `ImapOrder`, `ChangeLog`, `Hooks`, `HookCalls`, `Deletion`,
  `NodePath`: the node tree as a value, and what merging, logging, hooks, deleting and searching by path do to it.
  `NodeMerge` is the merge itself, in place on linked nodes, proved against `Merge` and `ChangeLog`.
- `Framing`: cutting a byte stream into messages. `Relay`: the wait events that decide when a
  relayed sync is done. `Timers`: two indexes over the same timers.
- `YStr`: the pool of counted strings. `Base64`: the codec.

Methods follow the control flow of the source and change state where it does. What they compute is
stated by specification functions or by ghost state (the in-order sequence of a tree, the cells of a
list, the bytes of a stream, the handles given out), and the lemmas say what that amounts to. All lemmas
are proved without automatic induction.

## How the source behaves where it may surprise

- `ytree_traverse_in_range` hands out its first node without looking at the upper bound
  (`YTree.RangeIsExact`, `YTree.RangeOverrun`).
- `yarray_search_around` going to the front passes over a fragment whose first matching element is at
  its place 0 (`YArray.Array.SearchAround`, `YArray.SearchMisses`).
- `imap_cmp` subtracts integers of 32 bits and is no order: `YNode.KeysInCircle` has three keys each of
  which is above the next. `YNode.OrderedIffHalf` says which sets of keys it does order,
  `YNode.ByNumberIffNear` which it orders by number, and `ImapOrder.ImapsInOrderIff` which merges keep
  the integer maps in order.
- Deleting an entry of a list moves the others up, and so a path may still lead somewhere afterwards
  (`Deletion.EntriesMoveUp`). `ydb_delete` deletes what the source points at, and nothing else, exactly
  when in every list the entries go from the back (`Deletion.DeletesExactly`).
- Popping from an array that a deletion has emptied makes the number of its elements go below zero
  (`YArray.Array.PopHollow`).
- A delete tag on an absent node creates it (`MergeLaws.DeleteAlternates`), so a source with one is
  never done (`MergeLaws.RepublishedUnlessQuiet`).
- A change of the top node itself is not in the change log (`ChangeLog.ReplayIsMerge`).
- A traversal breaks off at an empty list or ordered map (`Deletion.WalkEnds`).
- A child event that expires is never taken off its parent's count, so that parent can only expire
  (`Relay.CompletedIff`). If nobody who is to be asked can be sent to, the event of the sync waits for
  nothing, and no reply ever answers the sync for good (`Relay.NobodyReached`).
- Decoding the encoding of nothing is refused (`Base64.RoundTrip`).
- Freeing the empty string does nothing while the pool is empty (`YStr.Pool.Free`).

## Model

| member | source | states |
|---|---|---|
| YTree.Tree.Insert | ydb/ytree.c:66-137 | an absent key adds one new node, at its place in key order; a present key adds none and is replaced with its datum only if asked to; every other node keeps its key and datum, and the tree stays linked, ordered, balanced and counted |
| YTree.Tree.InsertAt | ydb/ytree.c:92-137 | the new node stands between the smaller and the larger keys of the whole order, under a comparison that is any total order |
| YTree.Tree.InsertBalance | ydb/ytree.c:423-463 | from a leaf just attached the loop restores every balance factor on the way up: afterwards all are height(right)-height(left) and within -1..1, with the same nodes in the same order |
| YTree.Tree.DeleteBalance | ydb/ytree.c:465-517 | the same after a subtree has become one lower, through every rotation and early exit |
| YTree.Tree.RotateLeft | ydb/ytree.c:538-571 | parent, child and root links are consistent again with the right child on top and the in-order sequence unchanged |
| YTree.Tree.RotateRight | ydb/ytree.c:573-606 | the mirror image |
| YTree.Tree.RotateLeftRight | ydb/ytree.c:608-666 | the grandchild comes to the top, links and both stored factors as the case of its own factor demands, order unchanged |
| YTree.Tree.RotateRightLeft | ydb/ytree.c:668-726 | the mirror image |
| YTree.Tree.DeleteNode | ydb/ytree.c:143-272 | exactly that node leaves the order; no key or datum moves to another node object, and the tree stays linked, balanced and counted |
| YTree.Tree.DeleteLeaf | ydb/ytree.c:153-173 | a node without children leaves the tree and the rest is rebalanced from its parent |
| YTree.Tree.DeleteAboveOne | ydb/ytree.c:174-184 | a node with one child is replaced by that child |
| YTree.Tree.DeleteNear | ydb/ytree.c:186-215 | a node whose right child is its successor is replaced by that child, relinked in place |
| YTree.Tree.DeleteFar | ydb/ytree.c:216-267 | a node whose successor lies deeper: the successor is unlinked there, takes the place above, and the balance is repaired from where it was |
| YTree.Tree.LeftmostBelow | ydb/ytree.c:218-221 | the successor is the first node, in order, of the right subtree |
| YTree.Tree.Replace | ydb/ytree.c:519-536 | the subtree of the source hangs where the target was |
| YTree.Tree.SearchNode | ydb/ytree.c:278-301 | a node of the tree with an equal key is found, and none only if no key compares equal |
| YTree.Tree.NextNode | ydb/ytree.c:390-416 | the node right behind in key order, null behind the last one |
| YTree.Tree.PrevNode | ydb/ytree.c:359-384 | the node right before in key order, null before the first one |
| YTree.Tree.Remove | ydb/ytree.c:1161-1175 | takes the node out and returns the one before it, null for the first one |
| YTree.Tree.Sweep | examples/ydb/ytree-example.c:124-145 | removing entries during an iteration by ytree_remove and ytree_next visits every original entry exactly once in key order, whichever are removed |
| YTree.Tree.Push | ydb/ytree.c:1137-1154 | the returned node holds the new key and datum; a datum that was there under an equal key comes back, and no other node changes |
| YTree.Tree.Delete | ydb/ytree.c:895-908 | the entry of an equal key leaves the order and its datum comes back; without one nothing changes |
| YTree.Tree.FindNearest | ydb/ytree.c:977-999 | the descent ends at a neighbour of the query: its key is the nearest one on its side, or an equal one |
| YTree.Tree.FindNearby | ydb/ytree.c:1047-1095 | the match if there is one, else with `lower` the greatest smaller key or, without one, the least key |
| YTree.Tree.TraverseInRange | ydb/ytree.c:1002-1044 | the callback is given the first node of the descent, unless its key is below the range, and the following ones up to the upper bound, in order and each once, until it asks to stop; an empty tree is refused |
| YTree.Tree.RangeIsExact | ydb/ytree.c:1002-1044 | the nodes handed out are exactly those within the bounds, once each and ascending, if and only if some key lies within them or none is handed out at all |
| YTree.RangeOverrun | ydb/ytree.c:1013-1027 | a concrete tree and range for which a key outside the range is handed out |
| AvlShape.SizeLowerBound | ydb/ytree.c:423-517 | a balanced tree of height h has at least Fib(h+2)-1 nodes |
| YTree.Tree.Shallow | ydb/ytree.c:423-517 | the same for the tree on the heap: its height is bounded by its size |
| YArray.Array.constructor | ydb/yarray.c:210-228 | an empty sequence; a fragment size below 4 becomes 4 |
| YArray.Array.Locate | ydb/yarray.c:60-100 | finds the fragment and the place in it for every valid index, from whichever end is nearer, and nothing for any other index |
| YArray.Array.PushBack | ydb/yarray.c:254-287 | the sequence with the element at its end; returns the index |
| YArray.Array.PushFront | ydb/yarray.c:290-321 | the sequence with the element in front |
| YArray.Array.PopBack | ydb/yarray.c:324-345 | the sequence without its last element, which comes back, and no fragment that was not there; null for an array without fragments; the count is right afterwards exactly if the array was not emptied by a deletion |
| YArray.Array.PopFront | ydb/yarray.c:348-370 | the same at the other end |
| YArray.Array.Data | ydb/yarray.c:386-396 | the element at a valid index, null for any other |
| YArray.Array.Insert | ydb/yarray.c:447-486 | the sequence with the element inserted at the index, through every split; an index at the end or outside is refused and changes nothing |
| YArray.Array.Delete | ydb/yarray.c:398-437 | the sequence without the element at the index, which comes back, through every merge; any other index changes nothing |
| YArray.Array.ShiftNext | ydb/yarray.c:102-130 | splitting towards the back leaves the whole sequence as it is, with a free cell where the insertion goes on |
| YArray.Array.ShiftPrev | ydb/yarray.c:132-166 | splitting towards the front leaves the whole sequence as it is and says where the insertion goes on |
| YArray.Array.MergeNext | ydb/yarray.c:168-199 | two neighbours are merged exactly if they fit into one fragment, whichever is the fuller, and the whole stays the same |
| YArray.Array.Merge | ydb/yarray.c:168-207 | after a deletion no empty fragment is left unless it is the only one |
| YArray.Fragment.InsertAt | ydb/yarray.c:469-482 | makes room by moving the shorter side of the ring, and the ring reads as the sequence with the element inserted |
| YArray.Fragment.RemoveAt | ydb/yarray.c:413-429 | closes the gap by moving the shorter side of the ring |
| YArray.Fragment.CopyTo | ydb/yarray.c:119-126 | a run of ring cells copied over the cells of another ring, wrapped around or not, with the cells it leaves cleared or not |
| YArray.SlotIsRemainder | ydb/yarray.c:28 | the cell of the i-th element is (front + i) modulo the fragment size |
| YArray.EmptyFragmentRemains | ydb/yarray.c:398-437 | deleting the last element leaves an empty fragment behind |
| YArray.Array.PopHollow | ydb/yarray.c:324-370 | a pop from that fragment takes it away and leaves a count below zero, which is the largest `size_t` |
| YArray.RunCalls | ydb/yarray.c:210-486 | every sequence of calls on a new array acts as on a plain sequence, up to the first pop from an array that a deletion has emptied, and to the end exactly if there is no such pop |
| YArray.Array.SearchAround | ydb/yarray.c:551-630 | an index returned holds the element; from a valid starting index nothing is found exactly if each fragment lacks the element or lies in front and has it as its first element; from any other exactly if the array lacks it |
| YArray.SearchMisses | ydb/yarray.c:589-627 | an array reached by five insertions in which the search does not find an element it holds |
| YList.List.PushFront | ydb/ylist.c:66-82 | the new cell comes first and the ring stays closed in both directions |
| YList.List.PushBack | ydb/ylist.c:85-101 | the new cell comes last |
| YList.List.PopFront | ydb/ylist.c:104-121 | the first cell leaves the ring and its datum comes back; nothing from an empty list |
| YList.List.PopBack | ydb/ylist.c:124-141 | the same at the other end |
| YList.List.Insert | ydb/ylist.c:291-310 | the new cell comes right behind the given one, which may be the head, or last without one |
| YList.List.Erase | ydb/ylist.c:271-286 | exactly that cell leaves the ring; the cell before it comes back, which is the head for the first one, so that going on from it reaches the cell that followed |
| YList.List.Next | ydb/ylist.c:212-219 | the following cell, the first one from the head, null behind the last one |
| YList.List.Prev | ydb/ylist.c:222-229 | the preceding cell, null before the first one |
| YList.List.Index | ydb/ylist.c:232-248 | the cell at an index, null outside |
| YMap.Map.InsertBack | ydb/ymap.c:81-102 | the entries in order without one of that key, followed by the new one, all others being the objects they were; the datum replaced comes back; list and tree hold the same entries, each linked back to its cell |
| YMap.Map.InsertFront | ydb/ymap.c:107-128 | the same with the new entry first |
| YMap.Map.Insert | ydb/ymap.c:395-414 | a key that is there is refused and nothing changes; any other comes right behind the given entry, and the other entries are the objects they were |
| YMap.Map.Delete | ydb/ymap.c:180-195 | exactly the entry of the key leaves both, the others being the objects they were, and its datum comes back |
| YMap.Map.Remove | ydb/ymap.c:370-389 | exactly that entry leaves both; the entry before it comes back, none for the first one |
| YMap.Map.Pop | ydb/ymap.c:133-177 | the first or last entry of the list leaves the list and the tree, the others being the objects they were |
| YMap.Map.Search | ydb/ymap.c:198-208 | the tree finds exactly what the list holds |
| YMap.ItemHere | ydb/ymap.c:81-102 | an entry is the only one with its key |
| YMap.PutAgrees | ydb/ymap.c:81-102 | what putting a key into the tree gives agrees with the list in which the new entry stands anywhere and the old one is gone |
| YMap.RunCalls | ydb/ymap.c:81-414 | every sequence of insertions and deletions at either end, by key, or at an iterator on a new map acts as on a plain sequence of entries, and list and tree hold the same ones |
| YNode.TextCmpIs | ydb/ynode.c:138-214 | a key of a map, set or ordered map, or of an integer map beside one of the same integer, comes before another exactly if it is a proper beginning of it or has the smaller character where they first differ |
| YNode.KeyCmpTotal | ydb/ynode.c:138-144 | strcmp, which all containers but integer maps use, is a total order, so that the balanced tree works with it |
| YNode.KeysInCircle | ydb/ynode.c:138-144 | imap_cmp puts three keys in a circle, because the difference of two of them is not an integer of 32 bits |
| YNode.OrderedIffHalf | ydb/ynode.c:138-144 | imap_cmp orders a set of keys if and only if one of them has all others less than 2^31 ahead of it modulo 2^32 |
| YNode.HalfIsOrdered | ydb/ynode.c:138-144 | on such a set imap_cmp is equal to a total order on all keys, so that a balanced tree of those keys works |
| YNode.ByNumberIffNear | ydb/ynode.c:138-144 | imap_cmp orders a set of keys by number, and by text among equal numbers, if and only if no two of the numbers are 2^31 or more apart |
| YNode.FarApart | ydb/ynode.c:138-144 | two keys further apart than that are in order all the same, but the wrong one |
| YNode.AttachWellFormed | ydb/ynode.c:275-314 | attaching keeps keys unique and, where the container sorts them by text, in ascending order; a list takes the node at its end, and so does an ordered map, in which the children of other keys stay in their order |
| YNode.InsertedAscending | ydb/ynode.c:275-314 | an absent key goes to the one place where the keys stay ascending, if and only if the comparison orders it together with them |
| Merge.MergeKeepsOrder | ydb/ynode.c:2817-2991 | every tree a merge leaves behind has unique keys in its maps and those sorted by text in order |
| MergeLaws.MergeUnites | ydb/ynode.c:2817-2991 | merging two map-like nodes unites them by key: a key of one side only stays or is copied, a key of both is merged or, if the source deletes it, gone; the node itself stays as it is |
| MergeLaws.MergeAppends | ydb/ynode.c:2951-2962 | a list takes copies of the source entries at its end |
| Merge.OpGetIs | ydb/ynode.c:2767-2798 | a node stays exactly if both are values of the same text, both are lists, or both are maps of any kind; the tag `!ydb!delete` deletes |
| MergeLaws.ValueMerges | ydb/ynode.c:2767-2870 | a value takes the text of the source: with the same text only its origin follows and nothing is logged, with another it becomes a copy that keeps the hook, logged once |
| MergeLaws.ContainerStays | ydb/ynode.c:2767-2798 | two lists, or two maps of any kind, stay the node they are, with its tag, origin and hook, and only what is below is logged |
| MergeLaws.MergeReplaces | ydb/ynode.c:2767-2798 | a node of another sort, or a value of another text, becomes a copy of the source that keeps the hook, and is logged first, as what the source is |
| MergeLaws.CreatedIsCopy | ydb/ynode.c:2852-2858 | where there was nothing, the source is copied as it is, delete tags included |
| MergeLaws.CreationIsLogged | ydb/ynode.c:2900-2906 | a created node is logged first, as what the source is |
| MergeLaws.DeleteAlternates | ydb/ynode.c:2772-2779 | the tag `!ydb!delete` creates its node where there is none and deletes it where there is one, which is the one record logged |
| MergeLaws.NotDeleted | ydb/ynode.c:2772-2774 | no other tag deletes |
| MergeLaws.MergeMovesToTail | ydb/ynode.c:2907-2913 | after a merge an ordered map holds first the keys that kept their place and then, in the order of the source, those created or replaced |
| MergeLaws.MergeIsIdempotent | ydb/ynode.c:2817-2991 | merging a source without list entries and delete tags a second time changes nothing, origins included, and logs nothing |
| MergeLaws.LoudAgain | ydb/ynode.c:2817-2991 | any other source logs something every time |
| MergeLaws.RepublishedUnlessQuiet | ydb/ydb.c:3833-3842 | a source comes back without anything to publish again if and only if it has no list entries and, below its top, no delete tags |
| ImapOrder.LookupsInOrder | ydb/ynode.c:2923-2968 | what a merge looks up or adds in an integer map is in order with the keys the map holds at that time, if the comparison orders the keys of both sides |
| ImapOrder.ImapsStayInOrder | ydb/ynode.c:2817-2991 | a merge leaves every integer map in order if, wherever it reaches one, the comparison orders the keys of both sides |
| ImapOrder.ImapsInOrderIff | ydb/ynode.c:2817-2991 | for a source that deletes nothing that is an if and only if |
| ImapOrder.AlwaysInOrderIff | ydb/ynode.c:2817-2991 | for any source, the integer maps are in order all the time while the merge goes on if and only if each key added to one is in order with those it holds at that time |
| ImapOrder.AlwaysIsAtLast | ydb/ynode.c:2817-2991 | maps in order all the time are in order when the merge is done |
| ChangeLog.ReplayKids | ydb/ynode.c:1125-1157 | replaying the records of the children, in order, on a copy of the old tree gives the merged tree, where a step into a list means its last entry |
| ChangeLog.BareSame | ydb/ynode.c:1125-1292 | what replay is compared by is kind, text, tag and keys, all the way down |
| ChangeLog.ReplayIsMerge | ydb/ynode.c:1125-1292 | replaying the whole log gives the new tree, in kinds, tags, values and order, if and only if the source leaves the top itself as it is |
| NodeMerge.Control | ydb/ynode.c:2817-2991 | ynode_control in place on nodes with parent links: the subtree comes to stand for the merge of what it stood for, the parent has exactly that child created, replaced, kept or dropped, no other node changes, and the log grows by exactly the records of the merge |
| NodeMerge.MergeKids | ydb/ynode.c:2923-2968 | the loop over the children of the source, one merged child after the other |
| NodeMerge.MergeTop | ydb/ynode.c:3239-3255 | merging at the top of a tree: the new top stands for the merge, made of nodes that were there and new ones, and the log is that of the merge |
| NodeMerge.MergeTwice | ydb/ynode.c:3239-3255 | of two merges of the same source on the nodes, the second one logs nothing and leaves the tree of the first if and only if the source has no list entries and, below its top, no delete tags |
| NodeMerge.Log.PathTo | ydb/ynode.c:1148-1157 | the keys on the way up to the top of the log, in order |
| NodeMerge.FoundChild | ydb/ynode.c:2103-2141 | the child found is the one the merge is defined with, and shares no node with its siblings or its parent |
| Hooks.HookRun.PreRun | ydb/ynode.c:551-586 | the hook of the node or else the first one above is called at once or, if suppressed, held back once |
| Hooks.HookRun.Control | ydb/ynode.c:2817-2991 | the calls made and the hooks held back during a merge, in order |
| Hooks.HookRun.Start | ydb/ynode.c:588-627 | where a run begins the hooks still held back are run on the way up, after which none remains |
| Hooks.HooksFireOnce | ydb/ynode.c:478-627 | in a merge that deletes nothing, at the top or further down, a suppressed hook runs exactly once if a created or replaced node has it as the nearest one at or above, in the merged node or above it, never otherwise, and only after every change at or below its node; nothing stays held back |
| Hooks.RunsNode | ydb/ynode.c:2852-2989 | the same for each part of a merge, with what is held back for the hooks further up |
| HookCalls.ChangesAreTold | ydb/ynode.c:551-586 | in a merge that deletes nothing each node created or replaced is recorded once, and no other; right behind it the nearest hook is called, once, unless it is suppressed, or only for values and neither the old nor the new node is one; no hook is called otherwise |
| HookCalls.CallsNode | ydb/ynode.c:2817-2991 | the same for each part of a merge |
| HookCalls.TellerIsNearest | ydb/ynode.c:551-586 | the nearest hook is that of the longest part of the path that leads to a node with one, or the one above |
| HookCalls.OwnerIsNearest | ydb/ynode.c:551-586 | the owner of a change is the last node with a hook on the way to it |
| Deletion.WalkEnds | ydb/ynode.c:3317-3420 | the traversal visits all leaves exactly if the source has no list or ordered map without entries |
| Deletion.LeavesListed | ydb/ynode.c:3317-3469 | the traversal visits all nodes without children, each once, in the order of the children, by their keys on the way, with "0" for each step into a list |
| Deletion.LeavesAreLeaves | ydb/ynode.c:3317-3469 | in a source without lists the paths visited are exactly those that lead to a node without children |
| Deletion.DeletionIsPruning | ydb/ydb.c:1653-1711 | looking up each leaf path again from the top, in a tree that the deletions keep changing, comes to the same as one recursion over both trees |
| Deletion.DeletesExactly | ydb/ydb.c:1653-1711 | if different children of the source select different children of the tree: paths lead to a node afterwards, and to the same one, exactly if they did before and come through no node that a leaf of the source leads to, if and only if in every list the leaves of the source take the entries from the back |
| Deletion.OnlyFromTheEnd | ydb/ydb.c:1653-1711 | the harder half: if the entries struck are gone and no others, they went from the back, in every list that source and tree meet at |
| Deletion.EntriesMoveUp | ydb/ydb.c:1653-1711 | deleting the first of two list entries leaves something at its path |
| Deletion.DeletePops | ydb/ydb.c:1653-1661 | a list of k values aimed at a list takes off its first k entries, or all if there are fewer |
| Deletion.Base.Traverse | ydb/ynode.c:3317-3431 | the recursive traversal deletes at the leaf paths in order, logs those at which something was there, and breaks off where the source has an empty list or ordered map |
| Deletion.Base.Lookup | ydb/ynode.c:3435-3469 | a path leads to a node or not, taking a key as an index in a list |
| Deletion.LogSuffices | ydb/ydb.c:1690-1701 | deleting only what was logged leaves the same tree |
| Deletion.LogIsBusy | ydb/ydb.c:1653-1661 | nothing is logged but what is there to delete at its turn |
| NodePath.Tokenize | ydb/ynode.c:2225-2326 | the keys between delimiters outside of quotes and brackets, and the value behind an equals sign |
| NodePath.QuotedKey | ydb/ynode.c:2193-2326 | what stands between a quote or bracket and its other half is part of the key, delimiters included |
| NodePath.ValueBehind | ydb/ynode.c:2290-2317 | what stands behind the equals sign is the value |
| NodePath.SearchBest | ydb/ynode.c:2328-2358 | the node as far down as the keys lead, and whether all of them do |
| NodePath.BestIsDeepest | ydb/ynode.c:2328-2358 | the node found is where the keys lead, and one key more leads nowhere unless all are used up, which is what matched says |
| NodePath.TokensOfPath | ydb/ynode.c:2633-2666 | plain keys come out of a printed path as they went in |
| NodePath.PrintedParts | ydb/ynode.c:2633-2666 | each key is printed behind a slash |
| NodePath.BestOfSteps | ydb/ynode.c:2103-2141 | the keys and indexes on the way to a node lead to that node, if and only if the indexes are within an `int` |
| NodePath.AtoiOfDecimal | ydb/ynode.c:2122 | an index read back from its decimal text is the same index if and only if it is within an `int` |
| NodePath.AtoiReads | ydb/ynode.c:2122 | white space is passed over, a sign heeded, and reading stops at what is no digit |
| NodePath.DecimalShort | ydb/ynode.c:2650-2656 | an index is printed without zeros in front |
| NodePath.PathRoundTrip | ydb/ynode.c:2328-2369 | searching the path printed for a node finds that node, through maps, ordered maps and lists, if and only if the indexes on the way are within an `int` |
| Framing.MessageText | ydb/ydb.c:2769-2912 | a message ends with a line of three dots and has no such line before |
| Framing.SplitIsExact | ydb/ydb.c:2769-2912 | cutting a stream after each leftmost delimiter loses nothing, cuts out messages only and leaves no delimiter behind |
| Framing.MessagesFirst | ydb/ydb.c:2769-2912 | messages handed out so far are the first messages of the whole stream, whatever follows |
| Framing.SearchBack | ydb/ydb.c:2869-2873 | searching only from a delimiter length before the bytes just read finds the leftmost delimiter |
| Framing.Receiver.Take | ydb/ydb.c:2863-2892 | after a read the first complete message is handed out, or all there are have been |
| Framing.Receiver.Recv | ydb/ydb.c:2769-2912 | bytes read are bytes handed out and bytes kept; unless more is to come at once, the messages handed out are all messages of the stream read so far; the errors and what they leave |
| Framing.ReceiveAll | ydb/ydb.c:4446-4455 | however a stream is cut into reads, the messages are those of the whole stream |
| Relay.Datablock.SetEvent | ydb/ydb.c:643-678 | a new event, counted at its parent if that is waiting |
| Relay.Datablock.ResetEvent | ydb/ydb.c:707-744 | which events leave the table, and which event is thereby over |
| Relay.AddedCounted | ydb/ydb.c:643-678 | a new event keeps the counts: children alive and children expired |
| Relay.ResetCounted | ydb/ydb.c:707-744 | an event completed or expired keeps the counts; an expired child stays counted at its parent |
| Relay.CompletedIff | ydb/ydb.c:724-740 | a reply completes the parent if and only if no other child is live and none has expired |
| Relay.TargetsAll | ydb/ydb.c:3977-3993 | every connection that is to be asked is asked, once and in order |
| Relay.TargetsExactly | ydb/ydb.c:3977-3993 | not asked are the connection the sync came from and those that are closed, servers or not to be read; of the others a client is asked if it takes part in syncs or all are forced to, an accepted one if it may write, and any other always |
| Relay.AskedExactly | ydb/ydb.c:3802-3823 | the children of the event are one request to each of those that can be sent to, numbered one on modulo 2^32 |
| Relay.Datablock.Sync | ydb/ydb.c:3957-4022 | the requests are sent to all to be asked, in order; the event of the sync has exactly those that could be sent as its children, no other event changes, and without anybody to ask there is none |
| Relay.Datablock.Ask | ydb/ydb.c:3802-3823 | a request is numbered one on, and waited for only if it could be sent |
| Relay.Datablock.OnSync | ydb/ydb.c:4278-4290 | a sync request is passed on and then answered, for good at once exactly if there is nobody to ask |
| Relay.Datablock.OnReply | ydb/ydb.c:4316-4374 | each reply is passed on to the request behind it, for good exactly if it was the last child and none has expired; no request is ever answered for good twice |
| Relay.Datablock.OnExpire | ydb/ydb.c:634-641 | an expired event goes, and its parent goes on counting it |
| Relay.Await | ydb/ydb.c:4316-4374 | over any sequence of replies and expiries a waiting sync is answered for good once if it has requests, all of which are replied to in time, and its connection is still there, and never otherwise |
| Relay.RelayedSync | ydb/ydb.c:4278-4374 | the same from the request of the sync on: answered for good at once without anybody to ask, and otherwise exactly if somebody could be sent to, all of those reply in time, and the connection is still there |
| Relay.NobodyReached | ydb/ydb.c:3957-4022 | a sync whose requests could not be sent to anybody is never answered for good |
| Timers.CmpIsDeadline | ydb/ytimer.c:85-112 | the comparison of seconds and nanoseconds with carry is that of deadlines in nanoseconds and then ids |
| Timers.IndexOrders | ydb/ytimer.c:85-117 | on normalised times both comparisons are total orders, so that the balanced tree works with them |
| Timers.AheadStep | ydb/ytimer.c:249-253 | each step of the counter comes closer to any given id, across the wrap at 32 bits |
| Timers.FreeId | ydb/ytimer.c:249-253 | as long as fewer than all ids are taken there is a free one |
| Timers.Timer.FindId | ydb/ytimer.c:249-253 | the loop ends with an id from 1 to 100000 that no live timer has |
| Timers.Timer.SetMsec | ydb/ytimer.c:218-270 | a new timer with a new id in both indexes, all others as they were |
| Timers.Timer.RestartMsec | ydb/ytimer.c:306-337 | the key of the timer changes only while it is in neither index; both hold the same timers in order again |
| Timers.Timer.DeleteTimer | ydb/ytimer.c:344-378 | exactly that timer leaves both indexes; the timer whose function is running is refused |
| Timers.DueFirst | ydb/ytimer.c:411-426 | the due timers are those in front of the first one that is not |
| Timers.DueFromDeadline | ydb/ytimer.c:75-83 | a timer is due exactly if its start and its duration, in nanoseconds, come to no more than the clock |
| Timers.Timer.Run | ydb/ytimer.c:41-72 | whatever calls a timer function makes, both indexes hold the same timers in order, and timers it does not mention stay |
| Timers.Timer.Serve | ydb/ytimer.c:380-470 | exactly the timers whose deadline is not after the clock are called, once each, in the order of deadline and id; afterwards a due timer is there exactly if it repeats, and then counts from now; any other timer is as it was unless a function mentions it; all further ones are new, and no more than the functions start |
| YStr.ContentIs | ydb/ystr.c:46-102 | what is kept of a source is its beginning of the given length, and nothing without a length |
| YStr.Pool.Intern | ydb/ystr.c:71-96 | equal contents share one string; its count is that of the handles out, and no other count changes |
| YStr.Pool.StrNDup | ydb/ystr.c:46-102 | the string of the content, the one that is there if there is one, all other strings staying as they were; without a length the common empty one |
| YStr.Pool.DataDup | ydb/ystr.c:188-236 | the same, and nothing without a length |
| YStr.Pool.Free | ydb/ystr.c:301-371 | a string leaves both indexes exactly with its last handle and no other string leaves; an address not in the pool changes nothing; the empty one is counted down only while the pool holds something |
| YStr.RunCalls | ydb/ystr.c:46-371 | after every sequence of calls on a new pool that frees each handle at most once, two handles held are the same if and only if their contents are, each string is counted as often as handles to it are held, a content is in the pool exactly if a handle to it is held, and every call has issued the handle of the handles to the same content held at that time |
| Base64.Encode | ydb/utilities/base64.c:32-88 | the buffer holds the encoded text and a NUL behind it, nothing is written outside, and only lengths whose fourfold wraps around are refused |
| Base64.EncodeGroups | ydb/utilities/base64.c:53-65 | all groups of three, with a line feed after each 72 characters if asked for |
| Base64.LinesOf72 | ydb/utilities/base64.c:58-82 | there is a line feed after each 72 characters and at the end of the text, and nowhere else |
| Base64.Decode | ydb/utilities/base64.c:112-169 | decodes the characters that count, skips all others, and refuses text with none or with an incomplete group or with too much padding |
| Base64.StandardTable | ydb/utilities/base64.c:17-18 | the alphabet is A to Z, a to z, 0 to 9, + and /, with = for padding |
| Base64.SameNumber | ydb/utilities/base64.c:54-57 | the characters stand for six bits each of the 24-bit number that the three bytes are, the highest first |
| Base64.EightsOfSixes | ydb/utilities/base64.c:149-151 | putting the six-bit groups of three bytes together again gives the three bytes |
| Base64.CleanEncoded | ydb/utilities/base64.c:60-82 | what counts of an encoded text does not depend on line feeds |
| Base64.RoundTrip | ydb/utilities/base64.c:112-169 | decoding undoes encoding, with line feeds or without, of everything but the empty input, which is refused |
| Base64.RefusedExactly | ydb/utilities/base64.c:124-163 | refused are exactly texts in which nothing counts, in which groups of four do not come out even, or whose first group with padding has more than two |
| Base64.GuardIsOverflow | ydb/utilities/base64.c:40-44 | with 64-bit sizes the check for overflow refuses exactly the lengths whose fourfold wraps around |
| Base64.BufferFits | ydb/utilities/base64.c:40-42 | the buffer is never too small for the text and its NUL |
| Base64.TextFits | ydb/utilities/base64.c:53-82 | how long the text is at most, line feeds included |

## Left out

- YArray.Array.PopBack: on the one empty fragment that `YArray.EmptyFragmentRemains` reaches, requires that its ring does not begin at the first cell, in front of which the source would read.
- YArray.Array.Insert: the list of fragments is a sequence field; the ring of cells behind it is the one of `YList`.
- YArray.RunCalls: what later calls make of an array with a count below zero is left out.
- NodeMerge.Control: a container is a sequence of children with keys; the tree and the list that keep it are those of `YTree` and `YMap`. Hooks are not called there but in `Hooks.HookRun`, which works on values. Replacing the root of a subtree that hangs in a list, where the source leaves the old node in the list, is not modelled.
- NodeMerge.MergeTop: without a tree to merge into the source only makes a copy; `MergeLaws.CreatedIsCopy` is about that.
- Hooks.HookRun.Control: a node stands for its path; hooks of deleted nodes are left out, because a suppressed one is called by the source after its node has been freed.
- Hooks.HooksFireOnce: for merges without delete tags.
- ChangeLog.ReplayIsMerge: about records, not their text form, in which an empty map and a null value look alike; origins and hooks are not logged.
- Deletion.Base.Traverse: the tree is a value that is replaced, not nodes unlinked in place; a source whose top is a leaf, for which the source code frees the top of the tree that it goes on using, is required not to occur.
- Deletion.DeletesExactly: requires that no two children of the source select the same child of the tree, as the entries of a list in the source do, which all ask for the first one; `Deletion.DeletePops` says what a list of values takes off a list.
- NodePath.PathRoundTrip: keys must be plain; the conversion to and from YAML text (utf8.c is not part of this model) leaves those alone.
- Relay.Datablock.SetEvent: requires an id that never was an event; with one in use the source frees an event that is still in the table. Numbers of own and of foreign requests share one space, so the source does not rule that out.
- Relay.Await: no other sync comes in while the replies and expiries do.
- Relay.Datablock.Sync: the text of messages, timers and the closing of connections after a failed response are left out; a request that cannot be sent is one of a given set.
- Framing.Receiver.Recv: the bytes are free of NUL, at which `strstr` would stop; parsing the head of a message is left out.
- Timers.Timer.Serve: the functions of due timers must not delete another due timer, for which the source would wait forever; what a function does is a given list of calls with their clock readings. Re-arming the file descriptor and the rounding of `double` are left out.
- Timers.Timer.Search: the two indexes are sorted sequences searched from the front; by `Timers.IndexOrders` the trees of `YTree` that they stand for work with these comparisons.
- Timers.Timer.DeleteTimer: the refusal is modelled without its log message, which reads through a null pointer where errors are logged.
- YStr.Pool.Free: a handle is the identity of a string, so that a freed address is not given out again; `YStr.RunCalls` frees no handle twice, which the source cannot tell from freeing one issued later. A count of 32 bits does not wrap around.
- YNode.Child: finds an equal key in any map-like node. In an integer map the search tree does so only while its comparison orders the keys, which is the condition of `ImapOrder.AlwaysInOrderIff`; what the tree does with keys in a circle is left out.
- YNode.Atoi: what the C library does with numbers beyond 32 bits, which the C standard leaves open, is taken to be what glibc does: cut to 64 bits at the bounds and then to 32 bits by remainder.
- `ynode_tag_ctrl` and the `meta` node: tags that name a built-in type are taken to be normalised already.
- The parser and printer of YAML (`ynode_scan`, `ynode_printf`), the trie of read hooks and string contents (art.c is not part of this model: a finite map), and everything around sockets, epoll, files and logging.
- Allocation failure and locking.
- The wrappers for other languages.
