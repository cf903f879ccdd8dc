# TreeShape: a verified model of the flat tree-shape store

`TreeShape` (experimental/tree/src/treeshape.ts) keeps the structure of an
ordered, multi-child tree in one flat integer array. Node handle `n` owns the
five consecutive slots `n*5 + offset`. They hold, in this order, the parent,
the first child, the next sibling, the last child and the previous sibling.
Each slot stores a record index (`handle * 5`), not a handle. Handle 0 is the
implicit root, whose record is seeded at construction.

A *location* is one signed integer. A positive `X` means "immediately after
node X". A non-positive `-P` means "as the first child of P".

- `unlink` splices a node out of its sibling chain and reports where it was.
- `linkAfter` and `linkFirstChild` splice it back in.
- `moveNode` and `removeNode` are built from those three.
- After each structural edit, every registered consumer receives one
  `nodeMoved(node, oldLocation, producer)` call, in registration order.

The model is a functional state machine:

- `ShapeStore` (shape.dfy): the flat store as `seq<Index>`, with the five
  offsets, `ToIndex`/`ToNode`, raw slot getters and setters, and the
  handle-level getters.
- `Locations` (locations.dfy): the location encoding, `beforeNode`,
  `lastChildOf` and `parentOfLocation`.
- `Splice` (splice.dfy): positional sequence edits, the abstract counterpart
  of the pointer surgery.
- `Chains` (chains.dfy): the invariant. `Consistent(s, present, ch, loose)`
  ties the slots to a child sequence per present node, `ch: map<Node,
  seq<Node>>`. The store must spell each sequence out as a doubly-linked
  chain whose ends are the parent's first and last child fields. The
  documented invariants (first/last absent together, sibling symmetry,
  chain ends, one parent per node) are lemmas about it; that the root is
  unattached is part of its definition.
- `Links` (links.dfy): `unlink`, `linkAfter`, `linkFirstChild` and the
  clearing done by `removeNode`, on record indices, written in the source's
  order. Each one's effect is stated field by field for every node.
- `Relink` (relink.dfy): each of those edits keeps the store consistent with
  the matching sequence edit (remove at a position, insert after an element,
  prepend).
- `Observers` (observers.dfy): the consumer list, with push and
  remove-first-occurrence, and the notification broadcast.
- `TreeShapes` (tree.dfy): the tree record (store, live handles, consumers,
  notification log) and the public operations `openTree`, `closeTree`,
  `createNode`, `moveNode`, `removeNode` and `deleteNode`. Each of the four
  structural operations keeps `Valid(t, ch)` (`deleteNode` for a childless
  node).
- `TreeProperties` (properties.dfy): properties that relate several
  operations. Moving a node back to the location `moveNode` reported restores
  the tree. Appending through `lastChildOf` works. The scenario of three
  appends and a removal reads back as expected. Notifications report the old
  parent. The `moveNode(x, afterNode(x))` hazard is shown to corrupt the
  store.

The child sequences are a ghost argument, `ch`, not a field of the tree: the
source has no such field, and the operations never read it.

`none` and the root handle are both 0 in the model (`None` and `Root`). The
source seeds the root at slot 0 and tests locations with `> 0`, so the two
must coincide. One consequence is that a detached node reads the root as its
parent. Another is that `unlink` of a detached node reports
`firstChildOf(root)` (`MoveBackAttachesDetached`).

Callers must pass live handles and locations that name present nodes, and
must not move a node into its own subtree. The source checks none of these
and reports no error. The model states the handle and location obligations
as preconditions (`x in t.live`, `InTree`, `CanMove`), not as error results.
The no-cycle obligation is deliberately not imposed: `CanMove` permits a
move into the node's own subtree (see "## Left out").

## Model

| member | source | states |
|---|---|---|
| ShapeStore.IndexRoundTrip | experimental/tree/src/treeshape.ts:36-37 | toNode inverts toIndex, toIndex inverts toNode on record indices, and a handle and an index correspond exactly when one converts to the other |
| ShapeStore.RecordAligned | experimental/tree/src/treeshape.ts:36 | toIndex of every handle is a multiple of the record size |
| ShapeStore.SlotsDisjoint | experimental/tree/src/treeshape.ts:23-30 | two (node, offset) pairs with offsets below 5 that address the same slot are the same pair |
| ShapeStore.RecordsApart | experimental/tree/src/treeshape.ts:23-37 | two record indices either coincide or their five-slot records do not overlap |
| ShapeStore.WriteOneField | experimental/tree/src/treeshape.ts:117-127 | writing one field of one node changes no other field of any node, and the written field reads back as the handle written |
| ShapeStore.WriteKeepsClosed | experimental/tree/src/treeshape.ts:123-127 | storing the index of an existing record in any slot keeps every slot read inside the array |
| ShapeStore.SlotReadsClosed | experimental/tree/src/treeshape.ts:117-121 | in a store whose slots all name existing records, each raw field read yields the aligned index of a record that exists |
| ShapeStore.ReadsNameRecords | experimental/tree/src/treeshape.ts:79-83 | in such a store each getter names a node whose record exists, and converting that handle back gives exactly the index stored in the slot |
| ShapeStore.SetParentIndex | experimental/tree/src/treeshape.ts:123 | the store keeps its length and the node's parent slot reads back the index written |
| ShapeStore.SetFirstChildIndex | experimental/tree/src/treeshape.ts:124 | the store keeps its length and the parent's first-child slot reads back the index written |
| ShapeStore.SetLastChildIndex | experimental/tree/src/treeshape.ts:125 | the store keeps its length and the parent's last-child slot reads back the index written |
| ShapeStore.SetPrevSiblingIndex | experimental/tree/src/treeshape.ts:126 | the store keeps its length and the node's previous-sibling slot reads back the index written |
| ShapeStore.SetNextSiblingIndex | experimental/tree/src/treeshape.ts:127 | the store keeps its length and the node's next-sibling slot reads back the index written |
| Locations.AfterNode | experimental/tree/src/treeshape.ts:93-95 | afterNode(X) reads as "after X" for every X other than none, and as "first child of the root" for none |
| Locations.FirstChildOf | experimental/tree/src/treeshape.ts:97-99 | firstChildOf(P) reads as "first child of P" for every P, the root included |
| Locations.LastChildOf | experimental/tree/src/treeshape.ts:101-106 | lastChildOf(P) is positive exactly when P has a last child, and then reads as "after that child", whose record exists in a closed store; otherwise it reads as "first child of P" |
| Locations.BeforeNode | experimental/tree/src/treeshape.ts:85-91 | beforeNode(X) is positive exactly when X has a previous sibling, and then reads as "after that sibling", whose record exists in a closed store; otherwise it reads as "first child of X's parent" |
| Locations.ParentOfLocation | experimental/tree/src/treeshape.ts:108-113 | a first-child location yields the parent it names; an "after" location yields the current parent of the node it names, whose record exists in a closed store |
| Locations.Decode | experimental/tree/src/treeshape.ts:93-99 | a location reads as "after" exactly when it is positive, and then names a node other than none |
| Locations.DecodeRoundTrip | experimental/tree/src/treeshape.ts:93-99 | every location is the encoding of the position it reads as |
| Locations.EncodeRoundTrip | experimental/tree/src/treeshape.ts:93-99 | afterNode(X) for X other than none, and firstChildOf(P) for every P, decode back to the position encoded |
| Locations.AfterNoneIsFirstChildOfRoot | experimental/tree/src/treeshape.ts:93-99 | because none and the root are both 0, afterNode(none) and firstChildOf(root) are the same location, read as "first child of the root" |
| Locations.ParentOfLocationRoundTrip | experimental/tree/src/treeshape.ts:108-113 | parentOfLocation(firstChildOf(P)) is P for every P, the root included; parentOfLocation(afterNode(X)) is X's parent for every X > 0 |
| Chains.ChildOfOneParent | experimental/tree/src/treeshape.ts:79-83 | in a consistent store a child is present, is not the root, names as parent the node whose sequence holds it, and is in no other sequence |
| Chains.DetachedIsUnattached | experimental/tree/src/treeshape.ts:79-83 | a present node outside its parent field's sequence has parent and siblings none and is in no sequence |
| Chains.EndsAbsentTogether | experimental/tree/src/treeshape.ts:101-106 | a node's first child is none exactly when its last child is none, and exactly when its child sequence is empty |
| Chains.SiblingsSymmetric | experimental/tree/src/treeshape.ts:142-149 | if a's next sibling is b then b's previous sibling is a, and the converse |
| Chains.ChainEndsMatchParent | experimental/tree/src/treeshape.ts:134-140 | an attached node has no previous sibling exactly when it is its parent's first child, and no next sibling exactly when it is its parent's last child |
| Chains.LastChildOfAppends | experimental/tree/src/treeshape.ts:101-106 | lastChildOf(P) is firstChildOf(P) for a childless P and afterNode of P's last child otherwise; its parentOfLocation is P |
| Chains.BeforeNodeIsPosition | experimental/tree/src/treeshape.ts:85-91 | beforeNode(X) is firstChildOf(parent) for a first child and afterNode(previous child) otherwise, firstChildOf(root) for a detached node; its parentOfLocation is X's parent |
| Links.Unlink | experimental/tree/src/treeshape.ts:129-152 | unlink keeps every slot inside the array and returns beforeNode of the node, read before the edit |
| Links.LinkAfter | experimental/tree/src/treeshape.ts:154-169 | linkAfter keeps the store's length and every slot read inside the array (its field effect is LinkAfterFields) |
| Links.LinkFirstChild | experimental/tree/src/treeshape.ts:171-184 | linkFirstChild keeps the store's length and every slot read inside the array (its field effect is LinkFirstChildFields) |
| Links.ClearLinks | experimental/tree/src/treeshape.ts:207-209 | the clearing keeps the store's length and every slot read inside the array, and the node's parent and sibling slots read none |
| Links.UnlinkFields | experimental/tree/src/treeshape.ts:129-152 | unlink moves the parent's first (last) child on to the next (previous) sibling when the node was that end, joins the two neighbours, and changes no other field, the node's own included |
| Links.LinkAfterFields | experimental/tree/src/treeshape.ts:154-169 | linkAfter gives the node prev's parent, prev and prev's old next as siblings, points prev and that sibling (or the parent's last child when prev was last) at it, and changes nothing else |
| Links.LinkFirstChildFields | experimental/tree/src/treeshape.ts:171-184 | linkFirstChild gives the node parent P, no previous sibling and P's old first child as next; that child (or P's last child when P was childless) and P's first child point at it; nothing else changes |
| Links.ClearLinksFields | experimental/tree/src/treeshape.ts:207-209 | clearing sets the node's parent and sibling fields to none and changes no other field |
| Links.LinkAfterSelf | experimental/tree/src/treeshape.ts:167-168 | linking a node after itself leaves it naming itself as next sibling |
| Relink.UnlinkKeepsConsistent | experimental/tree/src/treeshape.ts:129-152 | unlink takes the node out of its parent's sequence, keeping the others in order, and leaves the store consistent with that; a detached node's unlink changes nothing |
| Relink.UnlinkAttached | experimental/tree/src/treeshape.ts:129-152 | unlink of a node in its parent's sequence leaves the store consistent with that sequence minus the node, the node loose |
| Relink.UnlinkDetached | experimental/tree/src/treeshape.ts:129-152 | unlink of a node in no sequence writes nothing, and the node's parent field reads the root |
| Relink.RemoveKeepsLinked | experimental/tree/src/treeshape.ts:142-149 | after unlink, the sequence without the node is still spelled out by the sibling and parent fields |
| Relink.LinkAfterKeepsConsistent | experimental/tree/src/treeshape.ts:154-169 | linking a loose node after an attached prev inserts it directly after prev in prev's parent's sequence, and the store spells that out |
| Relink.InsertAfterKeepsLinked | experimental/tree/src/treeshape.ts:161-168 | after linkAfter, the sequence with the node inserted after prev is spelled out by the sibling and parent fields |
| Relink.LinkFirstChildKeepsConsistent | experimental/tree/src/treeshape.ts:171-184 | linking a loose node as first child of P puts it in front of P's sequence, and the store spells that out |
| Relink.InsertFirstKeepsLinked | experimental/tree/src/treeshape.ts:174-183 | after linkFirstChild, the sequence with the node in front is spelled out by the sibling and parent fields |
| Relink.ClearKeepsConsistent | experimental/tree/src/treeshape.ts:207-209 | clearing an unlinked node's parent and sibling fields leaves it a detached node of a consistent store |
| Observers.Push | experimental/tree/src/treeshape.ts:49-52 | registering appends the consumer at the end and keeps every earlier registration in its place |
| Observers.RemoveFirst | experimental/tree/src/treeshape.ts:54-56 | closing an unregistered consumer changes nothing; closing a registered one drops one entry |
| Observers.RemoveFirstIsFirst | experimental/tree/src/treeshape.ts:54-56 | the registration closed is the first one, and the others keep their order |
| Observers.Broadcast | experimental/tree/src/treeshape.ts:198-200 | one notification per registered consumer, in registration order, each with the same node, old location and view |
| Observers.PushThenRemove | experimental/tree/src/treeshape.ts:49-56 | closing a consumer just opened, and not registered before, restores the consumer list |
| Observers.RemoveFirstKeepsLater | experimental/tree/src/treeshape.ts:49-56 | a consumer opened twice and closed once stays registered, and its later registration is kept |
| TreeShapes.EmptyTree | experimental/tree/src/treeshape.ts:40-45 | a fresh tree holds only the root's record, exactly five slots long, with the root's fields none, no live handles, no consumers and no notifications |
| TreeShapes.EmptyTreeValid | experimental/tree/src/treeshape.ts:40-42 | a fresh tree is valid with the root's sequence empty |
| TreeShapes.OpenTree | experimental/tree/src/treeshape.ts:49-52 | openTree appends the consumer and changes neither the store nor the live handles |
| TreeShapes.CloseTree | experimental/tree/src/treeshape.ts:54-56 | closeTree drops the consumer's first registration, if any, keeping the others in order, and changes nothing else |
| TreeShapes.OpenCloseRoundTrip | experimental/tree/src/treeshape.ts:49-56 | opening then closing a consumer that was not registered gives back the tree |
| TreeShapes.Grow | experimental/tree/src/treeshape.ts:58-62 | the store is lengthened, keeping every slot, until the new handle's record exists |
| TreeShapes.ClearRecord | experimental/tree/src/treeshape.ts:62-66 | the five slots of one record read none and every other slot is unchanged |
| TreeShapes.CreateNode | experimental/tree/src/treeshape.ts:58-68 | createNode adds the issued handle to the live set, keeps every slot read in range, and sends no notification |
| TreeShapes.CreateNodeFields | experimental/tree/src/treeshape.ts:58-68 | all five fields of the created node read none, even for a reused handle, and every other node's fields are unchanged |
| TreeShapes.CreateNodeKeepsValid | experimental/tree/src/treeshape.ts:58-68 | the created node joins a valid tree with no children and in no sequence |
| TreeShapes.Relocate | experimental/tree/src/treeshape.ts:188-196 | the structural part of moveNode keeps every slot read in range and reports beforeNode of the node |
| TreeShapes.RelocateKeepsOtherParent | experimental/tree/src/treeshape.ts:188-196 | moving one node writes no other node's parent field |
| TreeShapes.MoveNode | experimental/tree/src/treeshape.ts:188-201 | after the edit, each consumer in order gets one notification naming the node, its location before the move, and the edited store; nothing else is logged |
| TreeShapes.CanMove | experimental/tree/src/treeshape.ts:188-196 | a permitted move names a live node and a target whose record exists; for a live x the front of any present node's sequence is always permitted, and afterNode(x) never is |
| TreeShapes.Detach | experimental/tree/src/treeshape.ts:203-209 | the structural part of removeNode keeps every slot read in range and reports beforeNode of the node |
| TreeShapes.RemoveNode | experimental/tree/src/treeshape.ts:203-214 | after the edit, each consumer in order gets one notification naming the node, its location before the removal, and the edited store |
| TreeShapes.DeleteNode | experimental/tree/src/treeshape.ts:70-73 | deleteNode performs removeNode's edit and notifications, then retires the handle, and keeps the consumer list |
| TreeShapes.RelocatedAfter | experimental/tree/src/treeshape.ts:192-193 | unfolds `Relocated` for an "after" location: a node that stays under P gets the moved node directly after it in P's sequence |
| TreeShapes.RelocatedFirst | experimental/tree/src/treeshape.ts:194-195 | unfolds `Relocated` for firstChildOf(P): the moved node goes in front of P's sequence |
| TreeShapes.UnlinkedOut | experimental/tree/src/treeshape.ts:129-152 | once unlinked, the node is in no sequence |
| TreeShapes.StaysAttached | experimental/tree/src/treeshape.ts:129-152 | unlinking one node leaves every other attached node's parent and its membership in that parent's sequence |
| TreeShapes.MoveNodeKeepsValid | experimental/tree/src/treeshape.ts:188-196 | moveNode keeps the tree valid, with the node spliced out of its old place and into the new one |
| TreeShapes.RemoveNodeKeepsValid | experimental/tree/src/treeshape.ts:203-209 | removeNode keeps the tree valid, with the node out of its parent's sequence and its own children kept |
| TreeShapes.DetachFieldsAt | experimental/tree/src/treeshape.ts:203-209 | removeNode's edit is unlink's field effect followed by clearing the node's parent and sibling fields |
| TreeShapes.RemoveNodeFields | experimental/tree/src/treeshape.ts:203-209 | removeNode leaves the node's parent and sibling fields none and its first and last child fields as they were |
| TreeShapes.DeleteNodeKeepsValid | experimental/tree/src/treeshape.ts:70-73 | deleting a childless node keeps the tree valid, with the node out of its parent's sequence and out of the tree |
| TreeShapes.DeleteLeavesOrphans | experimental/tree/src/treeshape.ts:70-73 | deleting a node with children leaves each child other than the node itself live and still naming the retired handle as its parent |
| TreeProperties.ReadsSpellChildren | experimental/tree/src/treeshape.ts:79-83 | in a valid tree the getters read each parent's sequence: first and last child are its ends, and each child names the parent and its neighbours |
| TreeProperties.ConsistentDetermines | experimental/tree/src/treeshape.ts:79-83 | two stores that spell out the same sequences agree on every field of every present node |
| TreeProperties.ReinsertRestores | experimental/tree/src/treeshape.ts:85-91 | inserting a node at the position beforeNode describes, after taking it out, restores the sequences |
| TreeProperties.MoveToOwnPosition | experimental/tree/src/treeshape.ts:85-91 | moving an attached node to its own beforeNode location is permitted and leaves every field of every present node unchanged |
| TreeProperties.RelocatedInserts | experimental/tree/src/treeshape.ts:188-196 | a permitted move inserts the node at one position of one sequence left by the unlink, and changes no other sequence |
| TreeProperties.TakeInserted | experimental/tree/src/treeshape.ts:188-196 | taking out a node just inserted into a sequence restores the sequences |
| TreeProperties.MovedUnlinksBack | experimental/tree/src/treeshape.ts:188-196 | after a move the node is in its new parent's sequence, and taking it out again gives the sequences left by the first unlink |
| TreeProperties.MoveKeepsMembers | experimental/tree/src/treeshape.ts:188-196 | a move keeps every other node in the sequence it was in |
| TreeProperties.MoveBackRestores | experimental/tree/src/treeshape.ts:188-201 | for a node attached in its parent's sequence, feeding the old location a move reported back to moveNode is permitted and restores the sequences and every field of every present node (the detached case is MoveBackAttachesDetached) |
| TreeProperties.BackRelocates | experimental/tree/src/treeshape.ts:146-151 | the reported location is a permitted target after the move, and inserting the node there gives back the original sequences |
| TreeProperties.BackPermitted | experimental/tree/src/treeshape.ts:146-151 | the reported location names a present node after the move, and for "after" a live attached node other than the moved one |
| TreeProperties.BackFirstReinserts | experimental/tree/src/treeshape.ts:146-147 | a node that was a first child is reported as firstChildOf(parent), and putting it back in front restores the sequences |
| TreeProperties.BackAfterReinserts | experimental/tree/src/treeshape.ts:148-151 | a node with a previous sibling is reported as afterNode(that sibling), and inserting it back after that sibling restores the sequences |
| TreeProperties.BackAfterPrevious | experimental/tree/src/treeshape.ts:148-151 | the previous sibling stays live, under the same parent and in its sequence, through the move |
| TreeProperties.MoveBackAttachesDetached | experimental/tree/src/treeshape.ts:146-147 | a detached node is reported as firstChildOf(root), so moving it back attaches it as the root's first child instead of detaching it |
| TreeProperties.MoveToLastChildAppends | experimental/tree/src/treeshape.ts:101-106 | moving a node to lastChildOf(P) appends it to P's sequence once it is out of its old place, unless that location is afterNode of the node itself |
| TreeProperties.AppendToChildless | experimental/tree/src/treeshape.ts:171-184 | moving to the front of a childless P makes the node P's only child |
| TreeProperties.AppendAfterLast | experimental/tree/src/treeshape.ts:154-169 | moving after P's last child, when that is another node, appends the node to P's sequence |
| TreeProperties.TakenKeepsLast | experimental/tree/src/treeshape.ts:129-152 | unlinking a node other than P's last child keeps that last child last |
| TreeProperties.AppendThenRemove | experimental/tree/src/treeshape.ts:58-214 | three new nodes appended to the root through lastChildOf read back in order through the getters; removing the middle one joins its neighbours and detaches it |
| TreeProperties.AppendToRoot | experimental/tree/src/treeshape.ts:101-106 | one append step: a node in no sequence goes to the end of the root's sequence and no other sequence changes |
| TreeProperties.CreateLeaf | experimental/tree/src/treeshape.ts:58-68 | creating a node in a tree with no edges keeps a valid tree with no edges |
| TreeProperties.CreateThree | experimental/tree/src/treeshape.ts:58-68 | three nodes created in a fresh tree give a valid tree in which every sequence is empty |
| TreeProperties.ReadThree | experimental/tree/src/treeshape.ts:79-83 | when the root's sequence is [a, b, c], the getters read it back: ends, siblings and parents |
| TreeProperties.RemoveMiddle | experimental/tree/src/treeshape.ts:203-209 | removing b from [a, b, c] makes a and c neighbours and leaves b's parent none |
| TreeProperties.MoveNotifiesOldParent | experimental/tree/src/treeshape.ts:188-201 | every consumer, in order, gets one notification for the moved node, with a location whose parent is the node's old parent, both before and after the edit |
| TreeProperties.NotOwnNeighbour | experimental/tree/src/treeshape.ts:142-149 | in a valid tree no node is its own previous or next sibling |
| TreeProperties.OtherParentKept | experimental/tree/src/treeshape.ts:188-196 | a move of one node leaves every other node's parent field alone |
| TreeProperties.RemoveNotifiesOldParent | experimental/tree/src/treeshape.ts:203-214 | every consumer, in order, gets one notification for the removed node, with a location whose parent is the node's old parent |
| TreeProperties.LastChildIsAfterLast | experimental/tree/src/treeshape.ts:101-106 | for a node that is its parent's last child, lastChildOf(parent) is afterNode of the node itself |
| TreeProperties.MoveAfterItselfBreaks | experimental/tree/src/treeshape.ts:154-169 | moveNode(x, afterNode(x)) makes x its own next sibling, and the result is valid for no choice of child sequences |
| TreeProperties.MoveAfterSelfLinksSelf | experimental/tree/src/treeshape.ts:188-193 | in any well-formed tree, moveNode(x, afterNode(x)) leaves x naming itself as next sibling |

## Left out

- Handle allocation (`HandleTable`) is not part of this model. `CreateNode`
  takes the issued handle as a parameter (not the root, not live), and
  retiring a handle removes it from the live set.
- The consumer list (`FrugalList`) is modelled as a sequence with append and
  remove-first-occurrence, not as its compact representation.
- Consumers are identities. The callbacks' own behaviour, and edits a
  callback makes while it is being notified (re-entrancy), are not modelled.
  A notification records the consumer, the node, the old location and the
  store the consumer can read.
- The reader `openTree` returns is the tree itself. The model returns only
  the updated tree.
- `Valid` does not include acyclicity. The source never checks for cycles,
  so a move under the node's own subtree is allowed by `CanMove`, and its
  result still satisfies `Valid` (moving x to `firstChildOf(x)` leaves x
  its own parent). Every other invariant is kept.
- TreeShapes.DeleteNodeKeepsValid: requires a childless node. Deleting a
  node with children leaves orphans that name a retired handle, so no child
  sequences describe the result (see `DeleteLeavesOrphans`).
- TreeShapes.RemoveNodeFields: promises unchanged first and last child fields
  only when the node is not its own parent. Such a node arises only after a
  move into the node's own subtree, which `CanMove` permits but callers must
  not make.
- TreeShapes.CanMove: excludes `afterNode(x)` as a target for `x`. The
  source accepts it and corrupts the store (`MoveAfterItselfBreaks`).
  `lastChildOf(parent)` yields that location when `x` is already the last
  child (`LastChildIsAfterLast`).
- TreeShapes.Grow: new slots are filled with 0. JavaScript leaves them as
  holes, but they are never read before `createNode` writes them.
- Numbers are unbounded integers. JavaScript doubles lose precision only
  beyond 2^53 slots, which is out of reach.
- The interfaces in `./types`, the example application under packages/, and
  the tests are not part of this model.
