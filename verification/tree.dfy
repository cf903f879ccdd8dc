/** The tree as its owner sees it: the flat store, the set of live handles
    issued by the handle table, the registered consumers, and the log of
    notifications sent so far. Every public operation is a pure update of
    this record. */
module TreeShapes {
  import opened ShapeStore
  import opened Splice
  import opened Locations
  import opened Chains
  import opened Links
  import opened Relink
  import opened Observers

  datatype Tree = Tree(shape: seq<Index>, live: set<Node>, consumers: seq<Consumer>, log: seq<Notification>)

  /** The nodes whose records are in use: the live handles and the root. */
  function Present(t: Tree): set<Node>
  {
    t.live + {Root}
  }

  /** Every slot read stays inside the store: it holds the root's record and
      every live handle's record, and the root is never a live handle. */
  predicate WellFormed(t: Tree)
  {
    && Closed(t.shape) && Root !in t.live
    && forall n | n in t.live :: HasRecord(t.shape, n)
  }

  /** The store spells out the child sequences `ch` of the present nodes. */
  ghost predicate Valid(t: Tree, ch: Children)
  {
    WellFormed(t) && Consistent(t.shape, Present(t), ch, {})
  }

  /** A location names a present node: a live one for "after", any present
      one (the root included) for "first child of". */
  predicate InTree(t: Tree, loc: Location)
  {
    if loc > 0 then loc in t.live else -loc in Present(t)
  }

  /** A fresh tree: the root's record alone, with all five fields absent. */
  function EmptyTree(): (t: Tree)
    ensures WellFormed(t) && t.live == {} && t.consumers == [] && t.log == []
    ensures |t.shape| == FieldCount
    ensures HasRecord(t.shape, Root) && Unattached(t.shape, Root)
    ensures GetFirstChild(t.shape, Root) == None && GetLastChild(t.shape, Root) == None
  {
    Tree([NoneIndex, NoneIndex, NoneIndex, NoneIndex, NoneIndex], {}, [], [])
  }

  lemma EmptyTreeValid()
    ensures Valid(EmptyTree(), map[Root := []])
  {
    var t := EmptyTree();
    var ch: Children := map[Root := []];
    assert EndsLinked(t.shape, ch, Root);
  }

  // ---------------------------------------------------------------------
  // Consumers.

  /** Registers a consumer; the reader handed back is the tree itself. */
  function OpenTree(t: Tree, c: Consumer): (r: Tree)
    ensures r.shape == t.shape && r.live == t.live && r.log == t.log
    ensures |r.consumers| == |t.consumers| + 1 && r.consumers[|t.consumers|] == c
    ensures forall i | 0 <= i < |t.consumers| :: r.consumers[i] == t.consumers[i]
  {
    t.(consumers := Push(t.consumers, c))
  }

  /** Drops the first registration of a consumer. */
  function CloseTree(t: Tree, c: Consumer): (r: Tree)
    ensures r.shape == t.shape && r.live == t.live && r.log == t.log
    ensures c !in t.consumers ==> r.consumers == t.consumers
    ensures c in t.consumers ==> r.consumers == RemoveAt(t.consumers, IndexOf(t.consumers, c))
  {
    RemoveFirstIsFirst(t.consumers, c);
    t.(consumers := RemoveFirst(t.consumers, c))
  }

  /** Closing a consumer that was just opened, and was not open before,
      gives back the tree. */
  lemma OpenCloseRoundTrip(t: Tree, c: Consumer)
    requires c !in t.consumers
    ensures CloseTree(OpenTree(t, c), c) == t
  {
    PushThenRemove(t.consumers, c);
  }

  // ---------------------------------------------------------------------
  // Creation.

  /** The store lengthened, with zero slots, until it holds n's record. */
  function Grow(s: seq<Index>, n: Node): (r: seq<Index>)
    ensures HasRecord(r, n) && |s| <= |r|
    ensures forall k | 0 <= k < |s| :: r[k] == s[k]
    ensures forall k | |s| <= k < |r| :: r[k] == NoneIndex
  {
    if HasRecord(s, n) then s else s + seq(ToIndex(n) + FieldCount - |s|, _ => NoneIndex)
  }

  /** Takes the handle `n` the handle table issued (never the root, never a
      live handle) and writes a detached, childless record for it. No
      notification is sent. */
  function CreateNode(t: Tree, n: Node): (r: Tree)
    requires WellFormed(t) && n != Root && n !in t.live
    ensures WellFormed(r) && r.live == t.live + {n}
    ensures r.consumers == t.consumers && r.log == t.log
  {
    t.(shape := ClearRecord(Grow(t.shape, n), ToIndex(n)), live := t.live + {n})
  }

  /** Writes none into the five slots of the record at i, in the order
      createNode does. */
  function ClearRecord(s: seq<Index>, i: Index): (r: seq<Index>)
    requires i + FieldCount <= |s|
    ensures |r| == |s|
    ensures forall k | 0 <= k < |s| :: r[k] == if i <= k < i + FieldCount then NoneIndex else s[k]
  {
    var s1 := SetParentIndex(s, i, NoneIndex);
    var s2 := SetFirstChildIndex(s1, i, NoneIndex);
    var s3 := SetNextSiblingIndex(s2, i, NoneIndex);
    var s4 := SetLastChildIndex(s3, i, NoneIndex);
    SetPrevSiblingIndex(s4, i, NoneIndex)
  }

  /** The five fields of a created node read none, whatever its record
      held before (a reused handle); every other node's fields are as they
      were. */
  lemma CreateNodeFields(t: Tree, n: Node)
    requires WellFormed(t) && n != Root && n !in t.live
    ensures var s' := CreateNode(t, n).shape;
            && HasRecord(s', n) && Unattached(s', n)
            && GetFirstChild(s', n) == None && GetLastChild(s', n) == None
    ensures forall m | m != n && HasRecord(t.shape, m) :: SameFields(t.shape, CreateNode(t, n).shape, m)
  {
    forall m | m != n && HasRecord(t.shape, m)
      ensures SameFields(t.shape, CreateNode(t, n).shape, m)
    {
      CreateKeepsOther(t, n, m);
    }
  }

  lemma CreateKeepsOther(t: Tree, n: Node, m: Node)
    requires WellFormed(t) && n != Root && n !in t.live && m != n && HasRecord(t.shape, m)
    ensures SameFields(t.shape, CreateNode(t, n).shape, m)
  {
    var s' := CreateNode(t, n).shape;
    RecordAligned(n);
    RecordAligned(m);
    RecordsApart(ToIndex(n), ToIndex(m));
  }

  /** The five fields of m agree in the two stores. */
  predicate SameFields(s: seq<Index>, s': seq<Index>, m: Node)
  {
    && HasRecord(s, m) && HasRecord(s', m)
    && GetParent(s', m) == GetParent(s, m)
    && GetFirstChild(s', m) == GetFirstChild(s, m)
    && GetLastChild(s', m) == GetLastChild(s, m)
    && GetNextSibling(s', m) == GetNextSibling(s, m)
    && GetPrevSibling(s', m) == GetPrevSibling(s, m)
  }

  /** A new detached, childless node joins the tree with no children and
      in no sequence. */
  lemma CreateNodeKeepsValid(t: Tree, ch: Children, n: Node)
    requires Valid(t, ch) && n != Root && n !in t.live
    ensures Valid(CreateNode(t, n), ch[n := []])
  {
    CreateNodeFields(t, n);
    var r := CreateNode(t, n);
    assert Present(r) == Present(t) + {n};
    AddedConsistent(t.shape, r.shape, Present(t), ch, n);
  }

  lemma AddedConsistent(s: seq<Index>, s': seq<Index>, present: set<Node>, ch: Children, n: Node)
    requires Consistent(s, present, ch, {}) && n !in present
    requires HasRecord(s', n) && Unattached(s', n)
    requires GetFirstChild(s', n) == None && GetLastChild(s', n) == None
    requires forall m | m in present :: SameFields(s, s', m)
    ensures Consistent(s', present + {n}, ch[n := []], {})
  {
    var ch' := ch[n := []];
    assert SameFields(s, s', Root);
    forall q | q in ch' && HasRecord(s', q)
      ensures EndsLinked(s', ch', q)
    {
      if q != n {
        assert SameFields(s, s', q);
        assert EndsLinked(s, ch, q);
      }
    }
    forall q, j | q in ch' && 0 <= j < |ch'[q]|
      ensures ChildLinked(s', present + {n}, {}, q, ch'[q], j)
    {
      assert ChildLinked(s, present, {}, q, ch[q], j);
      assert SameFields(s, s', ch[q][j]);
    }
    forall m | m in present + {n} && m != Root && m !in {} && HasRecord(s', m)
      ensures Placed(s', ch', m)
    {
      if m != n {
        assert SameFields(s, s', m);
        assert Placed(s, ch, m);
      }
    }
    forall q | q in ch'
      ensures Distinct(ch'[q])
    {
      if q != n {
        assert Distinct(ch[q]);
      }
    }
  }

  // ---------------------------------------------------------------------
  // Moving and removing.

  /** The structural half of moveNode: unlinks x and links it at `loc`,
      returning the new store and the location x occupied. */
  function Relocate(s: seq<Index>, x: Node, loc: Location): (r: (seq<Index>, Location))
    requires Closed(s) && HasRecord(s, x)
    requires if loc > 0 then HasRecord(s, loc) else HasRecord(s, -loc)
    ensures |r.0| == |s| && Closed(r.0)
    ensures r.1 == BeforeNode(s, x)
  {
    RecordAligned(x);
    RecordAligned(if loc > 0 then loc else -loc);
    var u := Unlink(s, ToIndex(x));
    var s2 := if loc > 0 then LinkAfter(u.0, ToIndex(x), ToIndex(loc))
              else LinkFirstChild(u.0, ToIndex(x), ToIndex(-loc));
    (s2, u.1)
  }

  /** Relocating x writes no other node's parent slot. */
  lemma RelocateKeepsOtherParent(s: seq<Index>, x: Node, loc: Location, n: Node)
    requires Closed(s) && HasRecord(s, x) && HasRecord(s, n) && n != x
    requires if loc > 0 then HasRecord(s, loc) else HasRecord(s, -loc)
    ensures GetParent(Relocate(s, x, loc).0, n) == GetParent(s, n)
  {
    var node, m := ToIndex(x), ToIndex(n);
    RecordAligned(x);
    RecordAligned(n);
    UnlinkSlotParent(s, node, m);
    var s1 := Unlink(s, node).0;
    if loc > 0 {
      RecordAligned(loc);
      LinkAfterSlotParent(s1, node, ToIndex(loc), m);
    } else {
      RecordAligned(-loc);
      LinkFirstChildSlotParent(s1, node, ToIndex(-loc), m);
    }
  }

  /** Unlinks x, links it at `loc`, and tells every consumer, in order,
      where x was; each consumer reads the store as left by the edit. */
  function MoveNode(t: Tree, x: Node, loc: Location): (r: Tree)
    requires WellFormed(t) && x in t.live && InTree(t, loc)
    ensures WellFormed(r) && r.live == t.live && r.consumers == t.consumers
    ensures |r.log| == |t.log| + |t.consumers| && r.log[..|t.log|] == t.log
    ensures forall i | 0 <= i < |t.consumers| ::
              r.log[|t.log| + i] == Notification(t.consumers[i], x, BeforeNode(t.shape, x), r.shape)
  {
    var r := Relocate(t.shape, x, loc);
    t.(shape := r.0, log := t.log + Broadcast(t.consumers, x, r.1, r.0))
  }

  /** The structural half of removeNode: unlinks x and clears its parent
      and sibling slots, returning the new store and the location x
      occupied. */
  function Detach(s: seq<Index>, x: Node): (r: (seq<Index>, Location))
    requires Closed(s) && HasRecord(s, x)
    ensures |r.0| == |s| && Closed(r.0)
    ensures r.1 == BeforeNode(s, x)
  {
    var u := Unlink(s, ToIndex(x));
    (ClearLinks(u.0, ToIndex(x)), u.1)
  }

  /** Unlinks x, clears its parent and sibling fields, and tells every
      consumer, in order, where x was. */
  function RemoveNode(t: Tree, x: Node): (r: Tree)
    requires WellFormed(t) && x in t.live
    ensures WellFormed(r) && r.live == t.live && r.consumers == t.consumers
    ensures |r.log| == |t.log| + |t.consumers| && r.log[..|t.log|] == t.log
    ensures forall i | 0 <= i < |t.consumers| ::
              r.log[|t.log| + i] == Notification(t.consumers[i], x, BeforeNode(t.shape, x), r.shape)
  {
    var r := Detach(t.shape, x);
    t.(shape := r.0, log := t.log + Broadcast(t.consumers, x, r.1, r.0))
  }

  /** Removes x, then returns its handle to the handle table. Its children
      are left as they are. */
  function DeleteNode(t: Tree, x: Node): (r: Tree)
    requires WellFormed(t) && x in t.live
    ensures WellFormed(r) && r.live == t.live - {x} && x !in r.live
    ensures r.shape == RemoveNode(t, x).shape && r.log == RemoveNode(t, x).log
    ensures r.consumers == t.consumers
  {
    var t' := RemoveNode(t, x);
    t'.(live := t'.live - {x})
  }

  /** The child sequences with x taken out of the sequence of the parent
      its field names (unchanged when x is in none). */
  ghost function Taken(s: seq<Index>, ch: Children, x: Node): Children
    requires HasRecord(s, x)
  {
    if GetParent(s, x) in ch then WithoutChild(ch, GetParent(s, x), x) else ch
  }

  /** The child sequences after moving x to loc: x taken out of its
      parent's sequence, then put directly after the node loc names, or in
      front of the sequence of the parent it names. Locations the caller
      may not pass (see CanMove) leave x out. */
  ghost function Relocated(s: seq<Index>, ch: Children, x: Node, loc: Location): Children
    requires HasRecord(s, x) && (loc > 0 ==> HasRecord(s, loc))
  {
    var ch0 := Taken(s, ch, x);
    if loc > 0 then
      var q := GetParent(s, loc);
      if q in ch0 && loc in ch0[q] then WithChildAfter(ch0, q, loc, x) else ch0
    else if -loc in ch0 then WithFirstChild(ch0, -loc, x)
    else ch0
  }

  /** Relocating after a node that stays attached under p, once x is out,
      inserts x after it in p's sequence. */
  lemma RelocatedAfter(s: seq<Index>, ch: Children, x: Node, prev: Node, p: Node)
    requires HasRecord(s, x) && HasRecord(s, prev) && prev != Root && GetParent(s, prev) == p
    requires p in Taken(s, ch, x) && prev in Taken(s, ch, x)[p]
    ensures Relocated(s, ch, x, AfterNode(prev)) == WithChildAfter(Taken(s, ch, x), p, prev, x)
  {
  }

  /** Relocating to the front of a present parent inserts x first. */
  lemma RelocatedFirst(s: seq<Index>, ch: Children, x: Node, p: Node)
    requires HasRecord(s, x) && p in Taken(s, ch, x)
    ensures Relocated(s, ch, x, FirstChildOf(p)) == WithFirstChild(Taken(s, ch, x), p, x)
  {
  }

  /** What the caller of moveNode must ensure: x is live and the location
      names a present node; an "after" location names an attached node
      other than x itself. */
  ghost function CanMove(t: Tree, ch: Children, x: Node, loc: Location): (b: bool)
    requires WellFormed(t)
    ensures b ==> x in t.live && HasRecord(t.shape, x)
    ensures b && loc > 0 ==> HasRecord(t.shape, loc) && loc != x
    ensures b && loc <= 0 ==> ParentOfLocation(t.shape, loc) in Present(t)
    ensures x in t.live && loc <= 0 && -loc in Present(t) ==> b
    ensures loc == AfterNode(x) && x in t.live ==> !b
  {
    && x in t.live && InTree(t, loc)
    && (loc > 0 ==> loc != x && AttachedIn(t.shape, ch, loc))
  }

  /** x is taken out of its parent's sequence, if it is in one, and is then
      in no sequence. */
  lemma UnlinkedOut(t: Tree, ch: Children, x: Node)
    requires Valid(t, ch) && x in t.live
    ensures GetParent(t.shape, x) in ch
    ensures forall q | q in ch :: x !in Taken(t.shape, ch, x)[q]
  {
    var s := t.shape;
    var p := GetParent(s, x);
    assert Placed(s, ch, x);
    if AttachedIn(s, ch, x) {
      ChildOfOneParent(s, Present(t), ch, {}, p, x);
      assert Distinct(ch[p]);
      RemoveKeepsDistinct(ch[p], IndexOf(ch[p], x));
    } else {
      DetachedIsUnattached(s, Present(t), ch, {}, x);
    }
  }

  /** A node other than x keeps its parent, and its place in that
      parent's sequence, when x is unlinked. */
  lemma StaysAttached(t: Tree, ch: Children, x: Node, n: Node)
    requires Valid(t, ch) && x in t.live && n in t.live && n != x && AttachedIn(t.shape, ch, n)
    ensures GetParent(t.shape, x) in ch
    ensures GetParent(Unlink(t.shape, ToIndex(x)).0, n) == GetParent(t.shape, n)
    ensures n in Taken(t.shape, ch, x)[GetParent(t.shape, n)]
  {
    var s := t.shape;
    var p := GetParent(s, x);
    UnlinkKeepsConsistent(s, Present(t), ch, x);
    UnlinkFieldsAt(s, x, n);
    if x in ch[p] {
      assert Distinct(ch[p]);
      RemoveKeepsDistinct(ch[p], IndexOf(ch[p], x));
    }
  }

  /** moveNode keeps the tree valid: the store spells out the child
      sequences with x spliced from its old place to the new one. */
  lemma MoveNodeKeepsValid(t: Tree, ch: Children, x: Node, loc: Location)
    requires Valid(t, ch) && CanMove(t, ch, x, loc)
    ensures GetParent(t.shape, x) in ch
    ensures loc > 0 ==> GetParent(t.shape, loc) in ch
                        && loc in Taken(t.shape, ch, x)[GetParent(t.shape, loc)]
    ensures Valid(MoveNode(t, x, loc), Relocated(t.shape, ch, x, loc))
  {
    RelocateConsistent(t, ch, x, loc);
    var r := MoveNode(t, x, loc);
    assert r.shape == Relocate(t.shape, x, loc).0;
    assert Present(r) == Present(t);
  }

  lemma RelocateConsistent(t: Tree, ch: Children, x: Node, loc: Location)
    requires Valid(t, ch) && CanMove(t, ch, x, loc)
    ensures GetParent(t.shape, x) in ch
    ensures loc > 0 ==> GetParent(t.shape, loc) in ch
                        && loc in Taken(t.shape, ch, x)[GetParent(t.shape, loc)]
    ensures Consistent(Relocate(t.shape, x, loc).0, Present(t), Relocated(t.shape, ch, x, loc), {})
  {
    var s := t.shape;
    UnlinkKeepsConsistent(s, Present(t), ch, x);
    var s1 := Unlink(s, ToIndex(x)).0;
    var ch0 := Taken(s, ch, x);
    if loc > 0 {
      StaysAttached(t, ch, x, loc);
      LinkAfterKeepsConsistent(s1, Present(t), ch0, x, loc);
    } else {
      LinkFirstChildKeepsConsistent(s1, Present(t), ch0, x, -loc);
    }
  }

  /** removeNode keeps the tree valid: x leaves its parent's sequence and
      keeps its own children. */
  lemma RemoveNodeKeepsValid(t: Tree, ch: Children, x: Node)
    requires Valid(t, ch) && x in t.live
    ensures GetParent(t.shape, x) in ch
    ensures Valid(RemoveNode(t, x), Taken(t.shape, ch, x))
  {
    var s := t.shape;
    var present := Present(t);
    UnlinkKeepsConsistent(s, present, ch, x);
    var s1 := Unlink(s, ToIndex(x)).0;
    ClearKeepsConsistent(s1, present, Taken(s, ch, x), x);
    assert RemoveNode(t, x).shape == Detach(s, x).0;
  }

  /** The effect of detaching x, as seen from node n: the unlink effect,
      then x's parent and sibling slots cleared. */
  lemma DetachFieldsAt(s: seq<Index>, x: Node, n: Node)
    requires Closed(s) && HasRecord(s, x) && HasRecord(s, n)
    ensures UnlinkedAt(s, Unlink(s, ToIndex(x)).0, x, n)
    ensures ClearedAt(Unlink(s, ToIndex(x)).0, Detach(s, x).0, x, n)
  {
    UnlinkFieldsAt(s, x, n);
    DetachClears(s, x, n);
  }

  lemma DetachClears(s: seq<Index>, x: Node, n: Node)
    requires Closed(s) && HasRecord(s, x) && HasRecord(s, n)
    ensures ClearedAt(Unlink(s, ToIndex(x)).0, Detach(s, x).0, x, n)
  {
    var s1 := Unlink(s, ToIndex(x)).0;
    ClearLinksFields(s1, x);
    assert ClearedAt(s1, ClearLinks(s1, ToIndex(x)), x, n);
  }

  /** removeNode leaves x's parent and sibling fields none; unless x was
      its own parent, its first and last child fields are as they were. */
  lemma RemoveNodeFields(t: Tree, x: Node)
    requires WellFormed(t) && x in t.live
    ensures var s' := RemoveNode(t, x).shape;
            && HasRecord(s', x) && Unattached(s', x)
            && (GetParent(t.shape, x) != x ==>
                  GetFirstChild(s', x) == GetFirstChild(t.shape, x) && GetLastChild(s', x) == GetLastChild(t.shape, x))
  {
    DetachFieldsAt(t.shape, x, x);
    assert RemoveNode(t, x).shape == Detach(t.shape, x).0;
  }

  /** deleteNode of a childless node keeps the tree valid: x leaves its
      parent's sequence and the set of present nodes. */
  lemma DeleteNodeKeepsValid(t: Tree, ch: Children, x: Node)
    requires Valid(t, ch) && x in t.live && ch[x] == []
    ensures GetParent(t.shape, x) in ch
    ensures Valid(DeleteNode(t, x), Taken(t.shape, ch, x) - {x})
  {
    RemoveNodeKeepsValid(t, ch, x);
    UnlinkedOut(t, ch, x);
    var p := GetParent(t.shape, x);
    var ch1 := WithoutChild(ch, p, x);
    assert ch1[x] == [] by {
      assert x !in ch[x];
    }
    var r := DeleteNode(t, x);
    assert Present(r) == Present(t) - {x};
    DroppedConsistent(r.shape, Present(t), ch1, x);
  }

  /** A present node that has no children and is in no sequence can be
      dropped from the present set. */
  lemma DroppedConsistent(s: seq<Index>, present: set<Node>, ch: Children, x: Node)
    requires Consistent(s, present, ch, {}) && x in present && x != Root
    requires ch[x] == [] && forall q | q in ch :: x !in ch[q]
    ensures Consistent(s, present - {x}, ch - {x}, {})
  {
    var ch' := ch - {x};
    forall q | q in ch' && HasRecord(s, q)
      ensures EndsLinked(s, ch', q)
    {
      assert EndsLinked(s, ch, q);
    }
    forall q, j | q in ch' && 0 <= j < |ch'[q]|
      ensures ChildLinked(s, present - {x}, {}, q, ch'[q], j)
    {
      assert ChildLinked(s, present, {}, q, ch[q], j);
    }
    forall m | m in present - {x} && m != Root && m !in {} && HasRecord(s, m)
      ensures Placed(s, ch', m)
    {
      assert Placed(s, ch, m);
    }
    forall q | q in ch'
      ensures Distinct(ch'[q])
    {
      assert Distinct(ch[q]);
    }
  }

  /** deleteNode does not detach the children of the deleted node: each
      child other than the node itself still names the retired handle as
      its parent. */
  lemma DeleteLeavesOrphans(t: Tree, ch: Children, x: Node, c: Node)
    requires Valid(t, ch) && x in t.live && c in ch[x] && c != x
    ensures c in DeleteNode(t, x).live
    ensures GetParent(DeleteNode(t, x).shape, c) == x && x !in DeleteNode(t, x).live
  {
    ChildOfOneParent(t.shape, Present(t), ch, {}, x, c);
    DetachFieldsAt(t.shape, x, c);
    assert DeleteNode(t, x).shape == Detach(t.shape, x).0;
  }
}
