/** Pointer surgery on the flat store: unlinking a node from its sibling
    chain and linking it back in, after a sibling or as a first child. Each
    operation is given on record indices, then its effect is stated field by
    field, then it is shown to keep the store consistent with the matching
    edit of the child sequences. */
module Links {
  import opened ShapeStore
  import opened Splice
  import opened Locations
  import opened Chains

  /** Splices `node` out of its parent's chain and reports the position it
      held. The node's own parent and sibling slots are left as they were. */
  function Unlink(s: seq<Index>, node: Index): (r: (seq<Index>, Location))
    requires Closed(s) && node + FieldCount <= |s| && Aligned(node)
    ensures |r.0| == |s| && Closed(r.0)
    ensures r.1 == BeforeNode(s, ToNode(node))
  {
    IndexRoundTrip(ToNode(node), node);
    var oldParent := GetParentIndex(s, node);
    var oldNext := GetNextSiblingIndex(s, node);
    var oldPrev := GetPrevSiblingIndex(s, node);
    var s1 := if GetFirstChildIndex(s, oldParent) == node then SetFirstChildIndex(s, oldParent, oldNext) else s;
    WriteKeepsClosed(s, oldParent + FirstChildOffset, oldNext);
    var s2 := if GetLastChildIndex(s1, oldParent) == node then SetLastChildIndex(s1, oldParent, oldPrev) else s1;
    WriteKeepsClosed(s1, oldParent + LastChildOffset, oldPrev);
    var s3 := if oldNext != NoneIndex then SetPrevSiblingIndex(s2, oldNext, oldPrev) else s2;
    WriteKeepsClosed(s2, oldNext + PrevSiblingOffset, oldPrev);
    WriteKeepsClosed(s3, oldPrev + NextSiblingOffset, oldNext);
    if oldPrev == NoneIndex then
      (s3, FirstChildOf(ToNode(oldParent)))
    else
      (SetNextSiblingIndex(s3, oldPrev, oldNext), AfterNode(ToNode(oldPrev)))
  }

  /** Links `node` immediately after `prev`, under prev's parent. */
  function LinkAfter(s: seq<Index>, node: Index, prev: Index): (r: seq<Index>)
    requires Closed(s) && node + FieldCount <= |s| && prev + FieldCount <= |s|
    requires Aligned(node) && Aligned(prev)
    ensures |r| == |s| && Closed(r)
  {
    var newParent := GetParentIndex(s, prev);
    WriteKeepsClosed(s, node + ParentOffset, newParent);
    var s1 := SetParentIndex(s, node, newParent);
    WriteKeepsClosed(s1, newParent + LastChildOffset, node);
    var s2 := if GetLastChildIndex(s1, newParent) == prev then SetLastChildIndex(s1, newParent, node) else s1;
    var next := GetNextSiblingIndex(s2, prev);
    WriteKeepsClosed(s2, node + NextSiblingOffset, next);
    var s3 := SetNextSiblingIndex(s2, node, next);
    WriteKeepsClosed(s3, next + PrevSiblingOffset, node);
    var s4 := if next != NoneIndex then SetPrevSiblingIndex(s3, next, node) else s3;
    WriteKeepsClosed(s4, node + PrevSiblingOffset, prev);
    var s5 := SetPrevSiblingIndex(s4, node, prev);
    WriteKeepsClosed(s5, prev + NextSiblingOffset, node);
    SetNextSiblingIndex(s5, prev, node)
  }

  /** Links `node` as the first child of `parent`. */
  function LinkFirstChild(s: seq<Index>, node: Index, parent: Index): (r: seq<Index>)
    requires Closed(s) && node + FieldCount <= |s| && parent + FieldCount <= |s|
    requires Aligned(node) && Aligned(parent)
    ensures |r| == |s| && Closed(r)
  {
    WriteKeepsClosed(s, node + ParentOffset, parent);
    var s1 := SetParentIndex(s, node, parent);
    var next := GetFirstChildIndex(s1, parent);
    WriteKeepsClosed(s1, parent + LastChildOffset, node);
    WriteKeepsClosed(s1, next + PrevSiblingOffset, node);
    var s2 := if next == NoneIndex then SetLastChildIndex(s1, parent, node) else SetPrevSiblingIndex(s1, next, node);
    WriteKeepsClosed(s2, node + PrevSiblingOffset, NoneIndex);
    var s3 := SetPrevSiblingIndex(s2, node, NoneIndex);
    WriteKeepsClosed(s3, node + NextSiblingOffset, next);
    var s4 := SetNextSiblingIndex(s3, node, next);
    WriteKeepsClosed(s4, parent + FirstChildOffset, node);
    SetFirstChildIndex(s4, parent, node)
  }

  /** Clears the parent and sibling slots of `node` (its child slots stay). */
  function ClearLinks(s: seq<Index>, node: Index): (r: seq<Index>)
    requires Closed(s) && node + FieldCount <= |s|
    ensures |r| == |s| && Closed(r)
    ensures GetParentIndex(r, node) == NoneIndex && GetNextSiblingIndex(r, node) == NoneIndex
    ensures GetPrevSiblingIndex(r, node) == NoneIndex
  {
    var s1 := SetParentIndex(s, node, NoneIndex);
    var s2 := SetNextSiblingIndex(s1, node, NoneIndex);
    SetPrevSiblingIndex(s2, node, NoneIndex)
  }

  // ---------------------------------------------------------------------
  // Slot-level effect of each operation, one field at a time.

  lemma UnlinkSlotParent(s: seq<Index>, node: Index, m: Index)
    requires Closed(s) && node + FieldCount <= |s| && m + FieldCount <= |s|
    requires Aligned(node) && Aligned(m)
    ensures var s' := Unlink(s, node).0;
            GetParentIndex(s', m) == GetParentIndex(s, m)
  {
    var p := GetParentIndex(s, node);
    var next, prev := GetNextSiblingIndex(s, node), GetPrevSiblingIndex(s, node);
    OtherSlot(m, ParentOffset, p, FirstChildOffset);
    OtherSlot(m, ParentOffset, p, LastChildOffset);
    OtherSlot(m, ParentOffset, next, PrevSiblingOffset);
    OtherSlot(m, ParentOffset, prev, NextSiblingOffset);
  }

  lemma UnlinkSlotFirstChild(s: seq<Index>, node: Index, m: Index)
    requires Closed(s) && node + FieldCount <= |s| && m + FieldCount <= |s|
    requires Aligned(node) && Aligned(m)
    ensures var s' := Unlink(s, node).0;
            var p := GetParentIndex(s, node);
            var next := GetNextSiblingIndex(s, node);
            GetFirstChildIndex(s', m) == (if m == p && GetFirstChildIndex(s, p) == node then next else GetFirstChildIndex(s, m))
  {
    var p := GetParentIndex(s, node);
    var next, prev := GetNextSiblingIndex(s, node), GetPrevSiblingIndex(s, node);
    OtherSlot(m, FirstChildOffset, p, LastChildOffset);
    OtherSlot(m, FirstChildOffset, next, PrevSiblingOffset);
    OtherSlot(m, FirstChildOffset, prev, NextSiblingOffset);
  }

  lemma UnlinkSlotLastChild(s: seq<Index>, node: Index, m: Index)
    requires Closed(s) && node + FieldCount <= |s| && m + FieldCount <= |s|
    requires Aligned(node) && Aligned(m)
    ensures var s' := Unlink(s, node).0;
            var p := GetParentIndex(s, node);
            var prev := GetPrevSiblingIndex(s, node);
            GetLastChildIndex(s', m) == (if m == p && GetLastChildIndex(s, p) == node then prev else GetLastChildIndex(s, m))
  {
    var p := GetParentIndex(s, node);
    var next, prev := GetNextSiblingIndex(s, node), GetPrevSiblingIndex(s, node);
    OtherSlot(m, LastChildOffset, p, FirstChildOffset);
    OtherSlot(m, LastChildOffset, next, PrevSiblingOffset);
    OtherSlot(m, LastChildOffset, prev, NextSiblingOffset);
  }

  lemma UnlinkSlotPrevSibling(s: seq<Index>, node: Index, m: Index)
    requires Closed(s) && node + FieldCount <= |s| && m + FieldCount <= |s|
    requires Aligned(node) && Aligned(m)
    ensures var s' := Unlink(s, node).0;
            var next := GetNextSiblingIndex(s, node);
            var prev := GetPrevSiblingIndex(s, node);
            GetPrevSiblingIndex(s', m) == (if m == next && next != NoneIndex then prev else GetPrevSiblingIndex(s, m))
  {
    var p := GetParentIndex(s, node);
    var next, prev := GetNextSiblingIndex(s, node), GetPrevSiblingIndex(s, node);
    OtherSlot(m, PrevSiblingOffset, p, FirstChildOffset);
    OtherSlot(m, PrevSiblingOffset, p, LastChildOffset);
    OtherSlot(m, PrevSiblingOffset, prev, NextSiblingOffset);
  }

  lemma UnlinkSlotNextSibling(s: seq<Index>, node: Index, m: Index)
    requires Closed(s) && node + FieldCount <= |s| && m + FieldCount <= |s|
    requires Aligned(node) && Aligned(m)
    ensures var s' := Unlink(s, node).0;
            var next := GetNextSiblingIndex(s, node);
            var prev := GetPrevSiblingIndex(s, node);
            GetNextSiblingIndex(s', m) == (if m == prev && prev != NoneIndex then next else GetNextSiblingIndex(s, m))
  {
    var p := GetParentIndex(s, node);
    var next, prev := GetNextSiblingIndex(s, node), GetPrevSiblingIndex(s, node);
    OtherSlot(m, NextSiblingOffset, p, FirstChildOffset);
    OtherSlot(m, NextSiblingOffset, p, LastChildOffset);
    OtherSlot(m, NextSiblingOffset, next, PrevSiblingOffset);
  }

  lemma LinkAfterSlotParent(s: seq<Index>, node: Index, prev: Index, m: Index)
    requires Closed(s) && node + FieldCount <= |s| && prev + FieldCount <= |s| && m + FieldCount <= |s|
    requires Aligned(node) && Aligned(prev) && Aligned(m)
    ensures var s' := LinkAfter(s, node, prev);
            var p := GetParentIndex(s, prev);
            GetParentIndex(s', m) == (if m == node then p else GetParentIndex(s, m))
  {
    var np := GetParentIndex(s, prev);
    var next := GetNextSiblingIndex(s, prev);
    LinkAfterIsWrites(s, node, prev);
    AfterWritesParent(s, node, prev, np, next, m);
  }

  lemma AfterWritesParent(s: seq<Index>, node: Index, prev: Index, np: Index, next: Index, m: Index)
    requires node + FieldCount <= |s| && prev + FieldCount <= |s| && np + FieldCount <= |s| && next + FieldCount <= |s| && m + FieldCount <= |s|
    requires Aligned(node) && Aligned(prev) && Aligned(np) && Aligned(next) && Aligned(m)
    ensures GetParentIndex(AfterWrites(s, node, prev, np, next), m)
         == (if m == node then np else GetParentIndex(s, m))
  {
    OtherSlot(m, ParentOffset, np, LastChildOffset);
    OtherSlot(m, ParentOffset, node, NextSiblingOffset);
    OtherSlot(m, ParentOffset, next, PrevSiblingOffset);
    OtherSlot(m, ParentOffset, node, PrevSiblingOffset);
    OtherSlot(m, ParentOffset, prev, NextSiblingOffset);
  }

  lemma LinkAfterSlotFirstChild(s: seq<Index>, node: Index, prev: Index, m: Index)
    requires Closed(s) && node + FieldCount <= |s| && prev + FieldCount <= |s| && m + FieldCount <= |s|
    requires Aligned(node) && Aligned(prev) && Aligned(m)
    ensures var s' := LinkAfter(s, node, prev);
            GetFirstChildIndex(s', m) == GetFirstChildIndex(s, m)
  {
    var np := GetParentIndex(s, prev);
    var next := GetNextSiblingIndex(s, prev);
    LinkAfterIsWrites(s, node, prev);
    AfterWritesFirstChild(s, node, prev, np, next, m);
  }

  lemma AfterWritesFirstChild(s: seq<Index>, node: Index, prev: Index, np: Index, next: Index, m: Index)
    requires node + FieldCount <= |s| && prev + FieldCount <= |s| && np + FieldCount <= |s| && next + FieldCount <= |s| && m + FieldCount <= |s|
    requires Aligned(node) && Aligned(prev) && Aligned(np) && Aligned(next) && Aligned(m)
    ensures GetFirstChildIndex(AfterWrites(s, node, prev, np, next), m)
         == GetFirstChildIndex(s, m)
  {
    OtherSlot(m, FirstChildOffset, node, ParentOffset);
    OtherSlot(m, FirstChildOffset, np, LastChildOffset);
    OtherSlot(m, FirstChildOffset, node, NextSiblingOffset);
    OtherSlot(m, FirstChildOffset, next, PrevSiblingOffset);
    OtherSlot(m, FirstChildOffset, node, PrevSiblingOffset);
    OtherSlot(m, FirstChildOffset, prev, NextSiblingOffset);
  }

  lemma LinkAfterSlotLastChild(s: seq<Index>, node: Index, prev: Index, m: Index)
    requires Closed(s) && node + FieldCount <= |s| && prev + FieldCount <= |s| && m + FieldCount <= |s|
    requires Aligned(node) && Aligned(prev) && Aligned(m)
    ensures var s' := LinkAfter(s, node, prev);
            var p := GetParentIndex(s, prev);
            GetLastChildIndex(s', m) == (if m == p && GetLastChildIndex(s, p) == prev then node else GetLastChildIndex(s, m))
  {
    var np := GetParentIndex(s, prev);
    var next := GetNextSiblingIndex(s, prev);
    LinkAfterIsWrites(s, node, prev);
    AfterWritesLastChild(s, node, prev, np, next, m);
  }

  lemma AfterWritesLastChild(s: seq<Index>, node: Index, prev: Index, np: Index, next: Index, m: Index)
    requires node + FieldCount <= |s| && prev + FieldCount <= |s| && np + FieldCount <= |s| && next + FieldCount <= |s| && m + FieldCount <= |s|
    requires Aligned(node) && Aligned(prev) && Aligned(np) && Aligned(next) && Aligned(m)
    ensures GetLastChildIndex(AfterWrites(s, node, prev, np, next), m)
         == (if m == np && GetLastChildIndex(s, np) == prev then node else GetLastChildIndex(s, m))
  {
    OtherSlot(np, LastChildOffset, node, ParentOffset);
    OtherSlot(m, LastChildOffset, node, ParentOffset);
    OtherSlot(m, LastChildOffset, node, NextSiblingOffset);
    OtherSlot(m, LastChildOffset, next, PrevSiblingOffset);
    OtherSlot(m, LastChildOffset, node, PrevSiblingOffset);
    OtherSlot(m, LastChildOffset, prev, NextSiblingOffset);
  }

  lemma LinkAfterSlotNextSibling(s: seq<Index>, node: Index, prev: Index, m: Index)
    requires Closed(s) && node + FieldCount <= |s| && prev + FieldCount <= |s| && m + FieldCount <= |s|
    requires Aligned(node) && Aligned(prev) && Aligned(m)
    ensures var s' := LinkAfter(s, node, prev);
            var next := GetNextSiblingIndex(s, prev);
            GetNextSiblingIndex(s', m) == (if m == prev then node else if m == node then next else GetNextSiblingIndex(s, m))
  {
    var np := GetParentIndex(s, prev);
    var next := GetNextSiblingIndex(s, prev);
    LinkAfterIsWrites(s, node, prev);
    AfterWritesNextSibling(s, node, prev, np, next, m);
  }

  lemma AfterWritesNextSibling(s: seq<Index>, node: Index, prev: Index, np: Index, next: Index, m: Index)
    requires node + FieldCount <= |s| && prev + FieldCount <= |s| && np + FieldCount <= |s| && next + FieldCount <= |s| && m + FieldCount <= |s|
    requires Aligned(node) && Aligned(prev) && Aligned(np) && Aligned(next) && Aligned(m)
    ensures GetNextSiblingIndex(AfterWrites(s, node, prev, np, next), m)
         == (if m == prev then node else if m == node then next else GetNextSiblingIndex(s, m))
  {
    OtherSlot(m, NextSiblingOffset, node, ParentOffset);
    OtherSlot(m, NextSiblingOffset, np, LastChildOffset);
    OtherSlot(m, NextSiblingOffset, next, PrevSiblingOffset);
    OtherSlot(m, NextSiblingOffset, node, PrevSiblingOffset);
  }

  lemma LinkAfterSlotPrevSibling(s: seq<Index>, node: Index, prev: Index, m: Index)
    requires Closed(s) && node + FieldCount <= |s| && prev + FieldCount <= |s| && m + FieldCount <= |s|
    requires Aligned(node) && Aligned(prev) && Aligned(m)
    ensures var s' := LinkAfter(s, node, prev);
            var next := GetNextSiblingIndex(s, prev);
            GetPrevSiblingIndex(s', m) == (if m == node then prev else if m == next && next != NoneIndex then node else GetPrevSiblingIndex(s, m))
  {
    var np := GetParentIndex(s, prev);
    var next := GetNextSiblingIndex(s, prev);
    LinkAfterIsWrites(s, node, prev);
    AfterWritesPrevSibling(s, node, prev, np, next, m);
  }

  /** The six writes of linkAfter, given the parent and next sibling it
      reads from `prev`. */
  function AfterWrites(s: seq<Index>, node: Index, prev: Index, np: Index, next: Index): seq<Index>
    requires node + FieldCount <= |s| && prev + FieldCount <= |s| && np + FieldCount <= |s| && next + FieldCount <= |s|
  {
    var s1 := SetParentIndex(s, node, np);
    var s2 := if GetLastChildIndex(s1, np) == prev then SetLastChildIndex(s1, np, node) else s1;
    var s3 := SetNextSiblingIndex(s2, node, next);
    var s4 := if next != NoneIndex then SetPrevSiblingIndex(s3, next, node) else s3;
    var s5 := SetPrevSiblingIndex(s4, node, prev);
    SetNextSiblingIndex(s5, prev, node)
  }

  lemma LinkAfterIsWrites(s: seq<Index>, node: Index, prev: Index)
    requires Closed(s) && node + FieldCount <= |s| && prev + FieldCount <= |s|
    requires Aligned(node) && Aligned(prev)
    ensures LinkAfter(s, node, prev) == AfterWrites(s, node, prev, GetParentIndex(s, prev), GetNextSiblingIndex(s, prev))
  {
    var np := GetParentIndex(s, prev);
    OtherSlot(prev, NextSiblingOffset, node, ParentOffset);
    OtherSlot(prev, NextSiblingOffset, np, LastChildOffset);
  }

  lemma AfterWritesPrevSibling(s: seq<Index>, node: Index, prev: Index, np: Index, next: Index, m: Index)
    requires node + FieldCount <= |s| && prev + FieldCount <= |s| && np + FieldCount <= |s| && next + FieldCount <= |s| && m + FieldCount <= |s|
    requires Aligned(node) && Aligned(prev) && Aligned(np) && Aligned(next) && Aligned(m)
    ensures GetPrevSiblingIndex(AfterWrites(s, node, prev, np, next), m)
         == (if m == node then prev else if m == next && next != NoneIndex then node else GetPrevSiblingIndex(s, m))
  {
    OtherSlot(m, PrevSiblingOffset, node, ParentOffset);
    OtherSlot(m, PrevSiblingOffset, np, LastChildOffset);
    OtherSlot(m, PrevSiblingOffset, node, NextSiblingOffset);
    OtherSlot(m, PrevSiblingOffset, prev, NextSiblingOffset);
  }

  lemma LinkFirstChildSlotParent(s: seq<Index>, node: Index, parent: Index, m: Index)
    requires Closed(s) && node + FieldCount <= |s| && parent + FieldCount <= |s| && m + FieldCount <= |s|
    requires Aligned(node) && Aligned(parent) && Aligned(m)
    ensures var s' := LinkFirstChild(s, node, parent);
            GetParentIndex(s', m) == (if m == node then parent else GetParentIndex(s, m))
  {
    var next := GetFirstChildIndex(s, parent);
    OtherSlot(parent, FirstChildOffset, node, ParentOffset);
    OtherSlot(m, ParentOffset, parent, LastChildOffset);
    OtherSlot(m, ParentOffset, next, PrevSiblingOffset);
    OtherSlot(m, ParentOffset, node, PrevSiblingOffset);
    OtherSlot(m, ParentOffset, node, NextSiblingOffset);
    OtherSlot(m, ParentOffset, parent, FirstChildOffset);
  }

  lemma LinkFirstChildSlotFirstChild(s: seq<Index>, node: Index, parent: Index, m: Index)
    requires Closed(s) && node + FieldCount <= |s| && parent + FieldCount <= |s| && m + FieldCount <= |s|
    requires Aligned(node) && Aligned(parent) && Aligned(m)
    ensures var s' := LinkFirstChild(s, node, parent);
            GetFirstChildIndex(s', m) == (if m == parent then node else GetFirstChildIndex(s, m))
  {
    var next := GetFirstChildIndex(s, parent);
    OtherSlot(parent, FirstChildOffset, node, ParentOffset);
    OtherSlot(m, FirstChildOffset, node, ParentOffset);
    OtherSlot(m, FirstChildOffset, parent, LastChildOffset);
    OtherSlot(m, FirstChildOffset, next, PrevSiblingOffset);
    OtherSlot(m, FirstChildOffset, node, PrevSiblingOffset);
    OtherSlot(m, FirstChildOffset, node, NextSiblingOffset);
  }

  lemma LinkFirstChildSlotLastChild(s: seq<Index>, node: Index, parent: Index, m: Index)
    requires Closed(s) && node + FieldCount <= |s| && parent + FieldCount <= |s| && m + FieldCount <= |s|
    requires Aligned(node) && Aligned(parent) && Aligned(m)
    ensures var s' := LinkFirstChild(s, node, parent);
            var next := GetFirstChildIndex(s, parent);
            GetLastChildIndex(s', m) == (if m == parent && next == NoneIndex then node else GetLastChildIndex(s, m))
  {
    var next := GetFirstChildIndex(s, parent);
    OtherSlot(parent, FirstChildOffset, node, ParentOffset);
    OtherSlot(m, LastChildOffset, node, ParentOffset);
    OtherSlot(m, LastChildOffset, next, PrevSiblingOffset);
    OtherSlot(m, LastChildOffset, node, PrevSiblingOffset);
    OtherSlot(m, LastChildOffset, node, NextSiblingOffset);
    OtherSlot(m, LastChildOffset, parent, FirstChildOffset);
  }

  lemma LinkFirstChildSlotNextSibling(s: seq<Index>, node: Index, parent: Index, m: Index)
    requires Closed(s) && node + FieldCount <= |s| && parent + FieldCount <= |s| && m + FieldCount <= |s|
    requires Aligned(node) && Aligned(parent) && Aligned(m)
    ensures var s' := LinkFirstChild(s, node, parent);
            var next := GetFirstChildIndex(s, parent);
            GetNextSiblingIndex(s', m) == (if m == node then next else GetNextSiblingIndex(s, m))
  {
    var next := GetFirstChildIndex(s, parent);
    OtherSlot(parent, FirstChildOffset, node, ParentOffset);
    OtherSlot(m, NextSiblingOffset, node, ParentOffset);
    OtherSlot(m, NextSiblingOffset, parent, LastChildOffset);
    OtherSlot(m, NextSiblingOffset, next, PrevSiblingOffset);
    OtherSlot(m, NextSiblingOffset, node, PrevSiblingOffset);
    OtherSlot(m, NextSiblingOffset, parent, FirstChildOffset);
  }

  lemma LinkFirstChildSlotPrevSibling(s: seq<Index>, node: Index, parent: Index, m: Index)
    requires Closed(s) && node + FieldCount <= |s| && parent + FieldCount <= |s| && m + FieldCount <= |s|
    requires Aligned(node) && Aligned(parent) && Aligned(m)
    ensures var s' := LinkFirstChild(s, node, parent);
            var next := GetFirstChildIndex(s, parent);
            GetPrevSiblingIndex(s', m) == (if m == node then NoneIndex else if m == next && next != NoneIndex then node else GetPrevSiblingIndex(s, m))
  {
    var next := GetFirstChildIndex(s, parent);
    OtherSlot(parent, FirstChildOffset, node, ParentOffset);
    OtherSlot(m, PrevSiblingOffset, node, ParentOffset);
    OtherSlot(m, PrevSiblingOffset, parent, LastChildOffset);
    OtherSlot(m, PrevSiblingOffset, node, NextSiblingOffset);
    OtherSlot(m, PrevSiblingOffset, parent, FirstChildOffset);
  }

  // ---------------------------------------------------------------------
  // Field-by-field effect of each operation, on handles. Each effect is a
  // relation between the store before (s) and after (s'); the lemmas below
  // show that the operation establishes it.

  /** Unlinking x, as seen from node n: x's parent's first (last) child
      moves on to x's next (previous) sibling when x was that end, and x's
      two neighbours are joined to each other. Nothing else changes, x's own
      slots included. */
  predicate UnlinkedAt(s: seq<Index>, s': seq<Index>, x: Node, n: Node)
    requires HasRecord(s, x) && HasRecord(s, n) && |s'| == |s|
  {
    var p := GetParent(s, x);
    var next := GetNextSibling(s, x);
    var prev := GetPrevSibling(s, x);
    && GetParent(s', n) == GetParent(s, n)
    && GetFirstChild(s', n) == (if n == p && GetFirstChild(s, p) == x then next else GetFirstChild(s, n))
    && GetLastChild(s', n) == (if n == p && GetLastChild(s, p) == x then prev else GetLastChild(s, n))
    && GetPrevSibling(s', n) == (if n == next && next != None then prev else GetPrevSibling(s, n))
    && GetNextSibling(s', n) == (if n == prev && prev != None then next else GetNextSibling(s, n))
  }

  ghost predicate Unlinked(s: seq<Index>, s': seq<Index>, x: Node)
  {
    |s'| == |s| && HasRecord(s, x) && forall n {:trigger UnlinkedAt(s, s', x, n)} | HasRecord(s, n) :: UnlinkedAt(s, s', x, n)
  }

  /** Linking x after prev, as seen from node n: x takes prev's parent, prev
      as previous sibling and prev's old next sibling as next sibling; that
      sibling (or the parent's last-child slot, when prev was last) and prev
      point back at x. x's child slots are untouched. */
  predicate LinkedAfterAt(s: seq<Index>, s': seq<Index>, x: Node, prev: Node, n: Node)
    requires HasRecord(s, prev) && HasRecord(s, n) && |s'| == |s|
  {
    var p := GetParent(s, prev);
    var next := GetNextSibling(s, prev);
    && GetParent(s', n) == (if n == x then p else GetParent(s, n))
    && GetFirstChild(s', n) == GetFirstChild(s, n)
    && GetLastChild(s', n) == (if n == p && GetLastChild(s, p) == prev then x else GetLastChild(s, n))
    && GetNextSibling(s', n) == (if n == prev then x else if n == x then next else GetNextSibling(s, n))
    && GetPrevSibling(s', n) == (if n == x then prev else if n == next && next != None then x else GetPrevSibling(s, n))
  }

  ghost predicate LinkedAfter(s: seq<Index>, s': seq<Index>, x: Node, prev: Node)
  {
    |s'| == |s| && HasRecord(s, x) && HasRecord(s, prev)
    && forall n {:trigger LinkedAfterAt(s, s', x, prev, n)} | HasRecord(s, n) :: LinkedAfterAt(s, s', x, prev, n)
  }

  /** Linking x as first child of p, as seen from node n: x takes p as
      parent, no previous sibling and p's old first child as next sibling;
      that child (or p's last-child slot, when p was childless) points back
      at x, and p's first child becomes x. */
  predicate LinkedFirstAt(s: seq<Index>, s': seq<Index>, x: Node, p: Node, n: Node)
    requires HasRecord(s, p) && HasRecord(s, n) && |s'| == |s|
  {
    var next := GetFirstChild(s, p);
    && GetParent(s', n) == (if n == x then p else GetParent(s, n))
    && GetFirstChild(s', n) == (if n == p then x else GetFirstChild(s, n))
    && GetLastChild(s', n) == (if n == p && next == None then x else GetLastChild(s, n))
    && GetNextSibling(s', n) == (if n == x then next else GetNextSibling(s, n))
    && GetPrevSibling(s', n) == (if n == x then None else if n == next && next != None then x else GetPrevSibling(s, n))
  }

  ghost predicate LinkedFirst(s: seq<Index>, s': seq<Index>, x: Node, p: Node)
  {
    |s'| == |s| && HasRecord(s, x) && HasRecord(s, p)
    && forall n {:trigger LinkedFirstAt(s, s', x, p, n)} | HasRecord(s, n) :: LinkedFirstAt(s, s', x, p, n)
  }

  /** Clearing x, as seen from node n: x's parent and sibling slots read
      none, and nothing else changes. */
  predicate ClearedAt(s: seq<Index>, s': seq<Index>, x: Node, n: Node)
    requires HasRecord(s, n) && |s'| == |s|
  {
    && GetParent(s', n) == (if n == x then None else GetParent(s, n))
    && GetFirstChild(s', n) == GetFirstChild(s, n)
    && GetLastChild(s', n) == GetLastChild(s, n)
    && GetNextSibling(s', n) == (if n == x then None else GetNextSibling(s, n))
    && GetPrevSibling(s', n) == (if n == x then None else GetPrevSibling(s, n))
  }

  ghost predicate Cleared(s: seq<Index>, s': seq<Index>, x: Node)
  {
    |s'| == |s| && HasRecord(s, x) && forall n {:trigger ClearedAt(s, s', x, n)} | HasRecord(s, n) :: ClearedAt(s, s', x, n)
  }

  lemma UnlinkFieldsAt(s: seq<Index>, x: Node, n: Node)
    requires Closed(s) && HasRecord(s, x) && HasRecord(s, n)
    ensures UnlinkedAt(s, Unlink(s, ToIndex(x)).0, x, n)
  {
    var node, m := ToIndex(x), ToIndex(n);
    RecordAligned(x);
    RecordAligned(n);
    var p, next, prev := GetParentIndex(s, node), GetNextSiblingIndex(s, node), GetPrevSiblingIndex(s, node);
    var s' := Unlink(s, node).0;
    IndexRoundTrip(n, p);
    IndexRoundTrip(n, next);
    IndexRoundTrip(n, prev);
    IndexRoundTrip(x, GetFirstChildIndex(s, p));
    IndexRoundTrip(x, GetLastChildIndex(s, p));
    assert GetParent(s', n) == GetParent(s, n) by {
      UnlinkSlotParent(s, node, m);
    }
    assert GetFirstChild(s', n) == (if n == ToNode(p) && GetFirstChild(s, ToNode(p)) == x then ToNode(next) else GetFirstChild(s, n)) by {
      UnlinkSlotFirstChild(s, node, m);
    }
    assert GetLastChild(s', n) == (if n == ToNode(p) && GetLastChild(s, ToNode(p)) == x then ToNode(prev) else GetLastChild(s, n)) by {
      UnlinkSlotLastChild(s, node, m);
    }
    assert GetPrevSibling(s', n) == (if n == ToNode(next) && ToNode(next) != None then ToNode(prev) else GetPrevSibling(s, n)) by {
      UnlinkSlotPrevSibling(s, node, m);
    }
    assert GetNextSibling(s', n) == (if n == ToNode(prev) && ToNode(prev) != None then ToNode(next) else GetNextSibling(s, n)) by {
      UnlinkSlotNextSibling(s, node, m);
    }
  }

  /** unlink has the effect Unlinked on every node. */
  lemma UnlinkFields(s: seq<Index>, x: Node)
    requires Closed(s) && HasRecord(s, x)
    ensures Unlinked(s, Unlink(s, ToIndex(x)).0, x)
  {
    var s' := Unlink(s, ToIndex(x)).0;
    forall n {:trigger UnlinkedAt(s, s', x, n)} | HasRecord(s, n)
      ensures UnlinkedAt(s, s', x, n)
    {
      UnlinkFieldsAt(s, x, n);
    }
  }

  lemma LinkAfterFieldsAt(s: seq<Index>, x: Node, prev: Node, n: Node)
    requires Closed(s) && HasRecord(s, x) && HasRecord(s, prev) && HasRecord(s, n)
    ensures LinkedAfterAt(s, LinkAfter(s, ToIndex(x), ToIndex(prev)), x, prev, n)
  {
    var node, pv, m := ToIndex(x), ToIndex(prev), ToIndex(n);
    RecordAligned(x);
    RecordAligned(prev);
    RecordAligned(n);
    LinkAfterSlotParent(s, node, pv, m);
    LinkAfterSlotFirstChild(s, node, pv, m);
    LinkAfterSlotLastChild(s, node, pv, m);
    LinkAfterSlotNextSibling(s, node, pv, m);
    LinkAfterSlotPrevSibling(s, node, pv, m);
    var p := GetParentIndex(s, pv);
    IndexRoundTrip(n, p);
    IndexRoundTrip(n, GetNextSiblingIndex(s, pv));
    IndexRoundTrip(prev, GetLastChildIndex(s, p));
  }

  /** linkAfter has the effect LinkedAfter on every node. */
  lemma LinkAfterFields(s: seq<Index>, x: Node, prev: Node)
    requires Closed(s) && HasRecord(s, x) && HasRecord(s, prev)
    ensures LinkedAfter(s, LinkAfter(s, ToIndex(x), ToIndex(prev)), x, prev)
  {
    var s' := LinkAfter(s, ToIndex(x), ToIndex(prev));
    forall n {:trigger LinkedAfterAt(s, s', x, prev, n)} | HasRecord(s, n)
      ensures LinkedAfterAt(s, s', x, prev, n)
    {
      LinkAfterFieldsAt(s, x, prev, n);
    }
  }

  lemma LinkFirstChildFieldsAt(s: seq<Index>, x: Node, p: Node, n: Node)
    requires Closed(s) && HasRecord(s, x) && HasRecord(s, p) && HasRecord(s, n)
    ensures LinkedFirstAt(s, LinkFirstChild(s, ToIndex(x), ToIndex(p)), x, p, n)
  {
    var node, pi, m := ToIndex(x), ToIndex(p), ToIndex(n);
    RecordAligned(x);
    RecordAligned(p);
    RecordAligned(n);
    LinkFirstChildSlotParent(s, node, pi, m);
    LinkFirstChildSlotFirstChild(s, node, pi, m);
    LinkFirstChildSlotLastChild(s, node, pi, m);
    LinkFirstChildSlotNextSibling(s, node, pi, m);
    LinkFirstChildSlotPrevSibling(s, node, pi, m);
    IndexRoundTrip(n, GetFirstChildIndex(s, pi));
  }

  /** linkFirstChild has the effect LinkedFirst on every node. */
  lemma LinkFirstChildFields(s: seq<Index>, x: Node, p: Node)
    requires Closed(s) && HasRecord(s, x) && HasRecord(s, p)
    ensures LinkedFirst(s, LinkFirstChild(s, ToIndex(x), ToIndex(p)), x, p)
  {
    var s' := LinkFirstChild(s, ToIndex(x), ToIndex(p));
    forall n {:trigger LinkedFirstAt(s, s', x, p, n)} | HasRecord(s, n)
      ensures LinkedFirstAt(s, s', x, p, n)
    {
      LinkFirstChildFieldsAt(s, x, p, n);
    }
  }

  /** Clearing x has the effect Cleared on every node. */
  lemma ClearLinksFields(s: seq<Index>, x: Node)
    requires Closed(s) && HasRecord(s, x)
    ensures Cleared(s, ClearLinks(s, ToIndex(x)), x)
  {
  }

  /** Linking a node after itself makes it its own next sibling: the last
      write of linkAfter sets the next-sibling slot of `prev`, which is the
      node's own. */
  lemma LinkAfterSelf(s: seq<Index>, x: Node)
    requires Closed(s) && HasRecord(s, x)
    ensures GetNextSibling(LinkAfter(s, ToIndex(x), ToIndex(x)), x) == x
  {
    var i := ToIndex(x);
    RecordAligned(x);
    IndexRoundTrip(x, i);
  }
}
