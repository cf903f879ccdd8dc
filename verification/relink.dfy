/** The unlink and link operations keep the store consistent with the
    matching edit of the child sequences. Unlinking leaves the node loose
    (its own parent and sibling slots stale); linking it, or clearing those
    slots, makes it tight again.

    Each step is proved for any store s' related to s by the operation's
    effect (Unlinked, LinkedAfter, LinkedFirst, Cleared), then for the
    operation itself, which has that effect. */
module Relink {
  import opened ShapeStore
  import opened Splice
  import opened Chains
  import opened Links

  // ---------------------------------------------------------------------
  // Facts about a consistent store.

  /** The neighbours of an attached x are its neighbours in its parent's
      sequence. */
  lemma NeighboursInSequence(s: seq<Index>, present: set<Node>, ch: Children, loose: set<Node>, x: Node)
    requires Consistent(s, present, ch, loose)
    requires x in present && x !in loose && x != Root && AttachedIn(s, ch, x)
    ensures var p := GetParent(s, x);
            var i := IndexOf(ch[p], x);
            && GetNextSibling(s, x) == NextIn(ch[p], i)
            && GetPrevSibling(s, x) == PrevIn(ch[p], i)
            && (GetNextSibling(s, x) != None <==> i + 1 < |ch[p]|)
            && (GetPrevSibling(s, x) != None <==> i > 0)
            && (i + 1 < |ch[p]| ==> ch[p][i + 1] in present && GetParent(s, ch[p][i + 1]) == p && ch[p][i + 1] !in loose)
            && (i > 0 ==> ch[p][i - 1] in present && GetParent(s, ch[p][i - 1]) == p && ch[p][i - 1] !in loose)
  {
    var p := GetParent(s, x);
    var i := IndexOf(ch[p], x);
    assert ChildLinked(s, present, loose, p, ch[p], i);
    if i + 1 < |ch[p]| {
      assert ChildLinked(s, present, loose, p, ch[p], i + 1);
    }
    if i > 0 {
      assert ChildLinked(s, present, loose, p, ch[p], i - 1);
    }
  }

  /** A loose node is in no sequence. */
  lemma LooseInNoSequence(s: seq<Index>, present: set<Node>, ch: Children, loose: set<Node>, x: Node)
    requires Consistent(s, present, ch, loose) && x in loose
    ensures forall q | q in ch :: x !in ch[q]
  {
    forall q | q in ch && x in ch[q]
      ensures false
    {
      ChildOfOneParent(s, present, ch, loose, q, x);
    }
  }

  /** A child of another parent than prev's is neither prev nor the node
      after it. */
  lemma NotNeighbour(s: seq<Index>, present: set<Node>, ch: Children, loose: set<Node>, prev: Node, q: Node, j: nat)
    requires Consistent(s, present, ch, loose)
    requires prev in present && prev !in loose && prev != Root && AttachedIn(s, ch, prev)
    requires q in ch && j < |ch[q]| && q != GetParent(s, prev)
    ensures ch[q][j] != prev && ch[q][j] != GetNextSibling(s, prev)
  {
    NeighboursInSequence(s, present, ch, loose, prev);
    ChildOfOneParent(s, present, ch, loose, q, ch[q][j]);
  }

  // ---------------------------------------------------------------------
  // Unlink.

  /** Unlinking an attached x removes it from its parent's sequence, keeping
      the other children in order; unlinking a node in no sequence changes
      nothing. Either way x is left loose. */
  lemma UnlinkKeepsConsistent(s: seq<Index>, present: set<Node>, ch: Children, x: Node)
    requires Closed(s) && Consistent(s, present, ch, {})
    requires x in present && x != Root
    ensures GetParent(s, x) in ch
    ensures Consistent(Unlink(s, ToIndex(x)).0, present, WithoutChild(ch, GetParent(s, x), x), {x})
    ensures x !in ch[GetParent(s, x)] ==> Unlink(s, ToIndex(x)).0 == s
  {
    assert Placed(s, ch, x);
    if AttachedIn(s, ch, x) {
      UnlinkAttached(s, present, ch, x);
    } else {
      UnlinkDetached(s, present, ch, x);
      DetachedIsUnattached(s, present, ch, {}, x);
    }
  }

  lemma UnlinkAttached(s: seq<Index>, present: set<Node>, ch: Children, x: Node)
    requires Closed(s) && Consistent(s, present, ch, {})
    requires x in present && x != Root && AttachedIn(s, ch, x)
    ensures Consistent(Unlink(s, ToIndex(x)).0, present, WithoutChild(ch, GetParent(s, x), x), {x})
  {
    UnlinkFields(s, x);
    UnlinkedConsistent(s, Unlink(s, ToIndex(x)).0, present, ch, x);
  }

  lemma UnlinkDetached(s: seq<Index>, present: set<Node>, ch: Children, x: Node)
    requires Closed(s) && Consistent(s, present, ch, {})
    requires x in present && x != Root && !AttachedIn(s, ch, x)
    ensures GetParent(s, x) == Root
    ensures Unlink(s, ToIndex(x)).0 == s
    ensures Consistent(s, present, ch, {x})
  {
    DetachedIsUnattached(s, present, ch, {}, x);
    assert EndsLinked(s, ch, Root);
    IndexRoundTrip(x, GetFirstChildIndex(s, NoneIndex));
    IndexRoundTrip(x, GetLastChildIndex(s, NoneIndex));
    assert GetFirstChildIndex(s, NoneIndex) != ToIndex(x);
    assert GetLastChildIndex(s, NoneIndex) != ToIndex(x);
    forall q, j | q in ch && 0 <= j < |ch[q]|
      ensures ChildLinked(s, present, {x}, q, ch[q], j)
    {
      assert ChildLinked(s, present, {}, q, ch[q], j);
    }
    forall n | n in present && n != Root && n !in {x} && HasRecord(s, n)
      ensures Placed(s, ch, n)
    {
    }
  }

  lemma UnlinkedConsistent(s: seq<Index>, s': seq<Index>, present: set<Node>, ch: Children, x: Node)
    requires Consistent(s, present, ch, {})
    requires x in present && x != Root && AttachedIn(s, ch, x) && Unlinked(s, s', x)
    ensures Consistent(s', present, WithoutChild(ch, GetParent(s, x), x), {x})
  {
    var p := GetParent(s, x);
    var cs := ch[p];
    var i := IndexOf(cs, x);
    var ch' := WithoutChild(ch, p, x);
    assert ch' == ch[p := RemoveAt(cs, i)];
    assert Distinct(cs);
    RemoveKeepsDistinct(cs, i);
    UnlinkEnds(s, s', present, ch, x, ch');
    UnlinkChildren(s, s', present, ch, x, ch');
    UnlinkPlaced(s, s', present, ch, x, ch');
    assert UnlinkedAt(s, s', x, Root);
    forall q | q in ch'
      ensures Distinct(ch'[q])
    {
      if q != p {
        assert Distinct(ch[q]);
      }
    }
  }

  lemma UnlinkEnds(s: seq<Index>, s': seq<Index>, present: set<Node>, ch: Children, x: Node, ch': Children)
    requires Consistent(s, present, ch, {})
    requires x in present && x != Root && AttachedIn(s, ch, x) && Unlinked(s, s', x)
    requires ch' == WithoutChild(ch, GetParent(s, x), x)
    ensures AllEndsLinked(s', ch')
  {
    var p := GetParent(s, x);
    var cs := ch[p];
    var i := IndexOf(cs, x);
    NeighboursInSequence(s, present, ch, {}, x);
    assert Distinct(cs);
    forall q | q in ch' && HasRecord(s', q)
      ensures EndsLinked(s', ch', q)
    {
      assert UnlinkedAt(s, s', x, q);
      assert EndsLinked(s, ch, q);
      if q == p {
        if i > 0 {
          assert cs[0] != cs[i];
        }
        if i + 1 < |cs| {
          assert cs[|cs| - 1] != cs[i];
        }
      }
    }
  }

  lemma UnlinkChildren(s: seq<Index>, s': seq<Index>, present: set<Node>, ch: Children, x: Node, ch': Children)
    requires Consistent(s, present, ch, {})
    requires x in present && x != Root && AttachedIn(s, ch, x) && Unlinked(s, s', x)
    requires ch' == WithoutChild(ch, GetParent(s, x), x)
    ensures AllChildrenLinked(s', present, ch', {x})
  {
    var p := GetParent(s, x);
    assert Distinct(ch[p]);
    RemoveKeepsLinked(s, s', present, p, ch[p], IndexOf(ch[p], x), x, ch'[p]);
    NeighboursInSequence(s, present, ch, {}, x);
    forall q, j | q in ch' && 0 <= j < |ch'[q]|
      ensures ChildLinked(s', present, {x}, q, ch'[q], j)
    {
      if q != p {
        assert ChildLinked(s, present, {}, q, ch[q], j);
        assert UnlinkedAt(s, s', x, ch[q][j]);
        ChildOfOneParent(s, present, ch, {}, q, ch[q][j]);
      }
    }
  }

  /** Taking x out of a linked sequence cs leaves the rest linked. */
  lemma RemoveKeepsLinked(s: seq<Index>, s': seq<Index>, present: set<Node>, p: Node, cs: seq<Node>, i: nat, x: Node, cs': seq<Node>)
    requires i < |cs| && cs[i] == x && Distinct(cs)
    requires forall j | 0 <= j < |cs| :: ChildLinked(s, present, {}, p, cs, j)
    requires Unlinked(s, s', x) && cs' == RemoveAt(cs, i)
    ensures forall j | 0 <= j < |cs'| :: ChildLinked(s', present, {x}, p, cs', j)
  {
    assert ChildLinked(s, present, {}, p, cs, i);
    forall j | 0 <= j < |cs'|
      ensures ChildLinked(s', present, {x}, p, cs', j)
    {
      if j < i {
        assert ChildLinked(s, present, {}, p, cs, j);
        assert cs[j] != cs[i];
        if i + 1 < |cs| {
          assert cs[j] != cs[i + 1];
        }
        assert UnlinkedAt(s, s', x, cs[j]);
      } else {
        assert ChildLinked(s, present, {}, p, cs, j + 1);
        assert cs[j + 1] != cs[i];
        if i > 0 {
          assert cs[j + 1] != cs[i - 1];
        }
        assert UnlinkedAt(s, s', x, cs[j + 1]);
      }
    }
  }

  lemma UnlinkPlaced(s: seq<Index>, s': seq<Index>, present: set<Node>, ch: Children, x: Node, ch': Children)
    requires Consistent(s, present, ch, {})
    requires x in present && x != Root && AttachedIn(s, ch, x) && Unlinked(s, s', x)
    requires ch' == WithoutChild(ch, GetParent(s, x), x)
    ensures AllPlaced(s', present, ch', {x})
  {
    var p := GetParent(s, x);
    var cs := ch[p];
    var i := IndexOf(cs, x);
    NeighboursInSequence(s, present, ch, {}, x);
    assert Distinct(cs);
    RemoveKeepsDistinct(cs, i);
    var next, prev := GetNextSibling(s, x), GetPrevSibling(s, x);
    forall n | n in present && n != Root && n !in {x} && HasRecord(s', n)
      ensures Placed(s', ch', n)
    {
      assert UnlinkedAt(s, s', x, n);
      assert Placed(s, ch, n);
      if !AttachedIn(s, ch, n) {
        DetachedIsUnattached(s, present, ch, {}, n);
        assert n != next && n != prev;
      }
    }
  }

  // ---------------------------------------------------------------------
  // Link after a sibling.

  /** Linking a loose x after an attached prev inserts x into prev's
      parent's sequence directly after prev, and x is no longer loose. */
  lemma LinkAfterKeepsConsistent(s: seq<Index>, present: set<Node>, ch: Children, x: Node, prev: Node)
    requires Closed(s) && Consistent(s, present, ch, {x})
    requires prev in present && AttachedIn(s, ch, prev)
    ensures x != prev
    ensures Consistent(LinkAfter(s, ToIndex(x), ToIndex(prev)), present,
                       WithChildAfter(ch, GetParent(s, prev), prev, x), {})
  {
    LooseInNoSequence(s, present, ch, {x}, x);
    LinkAfterFields(s, x, prev);
    LinkedAfterConsistent(s, LinkAfter(s, ToIndex(x), ToIndex(prev)), present, ch, x, prev);
  }

  lemma LinkedAfterConsistent(s: seq<Index>, s': seq<Index>, present: set<Node>, ch: Children, x: Node, prev: Node)
    requires Consistent(s, present, ch, {x})
    requires prev in present && AttachedIn(s, ch, prev) && x != prev && LinkedAfter(s, s', x, prev)
    ensures Consistent(s', present, WithChildAfter(ch, GetParent(s, prev), prev, x), {})
  {
    var p := GetParent(s, prev);
    ChildOfOneParent(s, present, ch, {x}, p, prev);
    var cs := ch[p];
    var k := IndexOf(cs, prev);
    var ch' := WithChildAfter(ch, p, prev, x);
    assert ch' == ch[p := InsertAt(cs, k + 1, x)];
    LooseInNoSequence(s, present, ch, {x}, x);
    assert Distinct(cs);
    InsertKeepsDistinct(cs, k + 1, x);
    LinkAfterEnds(s, s', present, ch, x, prev, ch');
    LinkAfterChildren(s, s', present, ch, x, prev, ch');
    LinkAfterPlaced(s, s', present, ch, x, prev, ch');
    assert LinkedAfterAt(s, s', x, prev, Root);
    forall q | q in ch'
      ensures Distinct(ch'[q])
    {
      if q != p {
        assert Distinct(ch[q]);
      }
    }
  }

  lemma LinkAfterEnds(s: seq<Index>, s': seq<Index>, present: set<Node>, ch: Children, x: Node, prev: Node, ch': Children)
    requires Consistent(s, present, ch, {x})
    requires prev in present && AttachedIn(s, ch, prev) && x != prev && LinkedAfter(s, s', x, prev)
    requires ch' == WithChildAfter(ch, GetParent(s, prev), prev, x)
    ensures AllEndsLinked(s', ch')
  {
    var p := GetParent(s, prev);
    var cs := ch[p];
    var k := IndexOf(cs, prev);
    assert Distinct(cs);
    forall q | q in ch' && HasRecord(s', q)
      ensures EndsLinked(s', ch', q)
    {
      assert LinkedAfterAt(s, s', x, prev, q);
      assert EndsLinked(s, ch, q);
      if q == p && k + 1 < |cs| {
        assert cs[|cs| - 1] != cs[k];
      }
    }
  }

  lemma LinkAfterChildren(s: seq<Index>, s': seq<Index>, present: set<Node>, ch: Children, x: Node, prev: Node, ch': Children)
    requires Consistent(s, present, ch, {x})
    requires prev in present && AttachedIn(s, ch, prev) && x != prev && LinkedAfter(s, s', x, prev)
    requires ch' == WithChildAfter(ch, GetParent(s, prev), prev, x)
    ensures AllChildrenLinked(s', present, ch', {})
  {
    var p := GetParent(s, prev);
    ChildOfOneParent(s, present, ch, {x}, p, prev);
    LooseInNoSequence(s, present, ch, {x}, x);
    assert Distinct(ch[p]);
    InsertAfterKeepsLinked(s, s', present, p, ch[p], IndexOf(ch[p], prev), x, prev, ch'[p]);
    forall q, j | q in ch' && 0 <= j < |ch'[q]|
      ensures ChildLinked(s', present, {}, q, ch'[q], j)
    {
      if q != p {
        ChildOfOneParent(s, present, ch, {x}, q, ch[q][j]);
        assert ChildLinked(s, present, {x}, q, ch[q], j);
        assert LinkedAfterAt(s, s', x, prev, ch[q][j]);
        NotNeighbour(s, present, ch, {x}, prev, q, j);
      }
    }
  }

  /** Putting x after prev in a linked sequence cs leaves it linked. */
  lemma InsertAfterKeepsLinked(s: seq<Index>, s': seq<Index>, present: set<Node>, p: Node, cs: seq<Node>, k: nat, x: Node, prev: Node, cs': seq<Node>)
    requires k < |cs| && cs[k] == prev && Distinct(cs) && x !in cs && x in present && x != Root
    requires forall j | 0 <= j < |cs| :: ChildLinked(s, present, {x}, p, cs, j)
    requires LinkedAfter(s, s', x, prev) && cs' == InsertAt(cs, k + 1, x)
    ensures forall j | 0 <= j < |cs'| :: ChildLinked(s', present, {}, p, cs', j)
  {
    assert ChildLinked(s, present, {x}, p, cs, k);
    if k + 1 < |cs| {
      assert ChildLinked(s, present, {x}, p, cs, k + 1);
    }
    forall j | 0 <= j < |cs'|
      ensures ChildLinked(s', present, {}, p, cs', j)
    {
      if j <= k {
        assert ChildLinked(s, present, {x}, p, cs, j);
        if k + 1 < |cs| {
          assert cs[j] != cs[k + 1];
        }
        if j < k {
          assert cs[j] != cs[k];
        }
        assert LinkedAfterAt(s, s', x, prev, cs[j]);
      } else if j == k + 1 {
        assert LinkedAfterAt(s, s', x, prev, x);
      } else {
        assert ChildLinked(s, present, {x}, p, cs, j - 1);
        assert cs[j - 1] != cs[k];
        assert LinkedAfterAt(s, s', x, prev, cs[j - 1]);
      }
    }
  }

  lemma LinkAfterPlaced(s: seq<Index>, s': seq<Index>, present: set<Node>, ch: Children, x: Node, prev: Node, ch': Children)
    requires Consistent(s, present, ch, {x})
    requires prev in present && AttachedIn(s, ch, prev) && x != prev && LinkedAfter(s, s', x, prev)
    requires ch' == WithChildAfter(ch, GetParent(s, prev), prev, x)
    ensures AllPlaced(s', present, ch', {})
  {
    forall n | n in present && n != Root && n !in {} && HasRecord(s', n)
      ensures Placed(s', ch', n)
    {
      LinkAfterPlacedAt(s, s', present, ch, x, prev, ch', n);
    }
  }

  lemma LinkAfterPlacedAt(s: seq<Index>, s': seq<Index>, present: set<Node>, ch: Children, x: Node, prev: Node, ch': Children, n: Node)
    requires Consistent(s, present, ch, {x})
    requires prev in present && AttachedIn(s, ch, prev) && x != prev && LinkedAfter(s, s', x, prev)
    requires ch' == WithChildAfter(ch, GetParent(s, prev), prev, x)
    requires n in present && n != Root
    ensures Placed(s', ch', n)
  {
    var p := GetParent(s, prev);
    var cs := ch[p];
    var k := IndexOf(cs, prev);
    assert LinkedAfterAt(s, s', x, prev, n);
    if n == x {
      InsertKeepsMembers(cs, k + 1, x);
    } else {
      assert Placed(s, ch, n);
      if AttachedIn(s, ch, n) {
        InsertKeepsMembers(cs, k + 1, x);
      } else {
        ChildOfOneParent(s, present, ch, {x}, p, prev);
        NeighboursInSequence(s, present, ch, {x}, prev);
        DetachedIsUnattached(s, present, ch, {x}, n);
        assert n != GetNextSibling(s, prev) && n != prev;
      }
    }
  }

  // ---------------------------------------------------------------------
  // Link as first child.

  /** Linking a loose x as first child of p puts x in front of p's
      sequence, and x is no longer loose. */
  lemma LinkFirstChildKeepsConsistent(s: seq<Index>, present: set<Node>, ch: Children, x: Node, p: Node)
    requires Closed(s) && Consistent(s, present, ch, {x})
    requires p in present
    ensures Consistent(LinkFirstChild(s, ToIndex(x), ToIndex(p)), present, WithFirstChild(ch, p, x), {})
  {
    LinkFirstChildFields(s, x, p);
    LinkedFirstConsistent(s, LinkFirstChild(s, ToIndex(x), ToIndex(p)), present, ch, x, p);
  }

  lemma LinkedFirstConsistent(s: seq<Index>, s': seq<Index>, present: set<Node>, ch: Children, x: Node, p: Node)
    requires Consistent(s, present, ch, {x})
    requires p in present && LinkedFirst(s, s', x, p)
    ensures Consistent(s', present, WithFirstChild(ch, p, x), {})
  {
    var ch' := WithFirstChild(ch, p, x);
    LooseInNoSequence(s, present, ch, {x}, x);
    assert Distinct(ch[p]);
    InsertKeepsDistinct(ch[p], 0, x);
    LinkFirstEnds(s, s', present, ch, x, p, ch');
    LinkFirstChildren(s, s', present, ch, x, p, ch');
    LinkFirstPlaced(s, s', present, ch, x, p, ch');
    assert LinkedFirstAt(s, s', x, p, Root);
    forall q | q in ch'
      ensures Distinct(ch'[q])
    {
      if q != p {
        assert Distinct(ch[q]);
      }
    }
  }

  lemma LinkFirstEnds(s: seq<Index>, s': seq<Index>, present: set<Node>, ch: Children, x: Node, p: Node, ch': Children)
    requires Consistent(s, present, ch, {x})
    requires p in present && LinkedFirst(s, s', x, p)
    requires ch' == WithFirstChild(ch, p, x)
    ensures AllEndsLinked(s', ch')
  {
    assert EndsLinked(s, ch, p);
    if ch[p] != [] {
      assert ChildLinked(s, present, {x}, p, ch[p], 0);
    }
    forall q | q in ch' && HasRecord(s', q)
      ensures EndsLinked(s', ch', q)
    {
      assert LinkedFirstAt(s, s', x, p, q);
      assert EndsLinked(s, ch, q);
    }
  }

  lemma LinkFirstChildren(s: seq<Index>, s': seq<Index>, present: set<Node>, ch: Children, x: Node, p: Node, ch': Children)
    requires Consistent(s, present, ch, {x})
    requires p in present && LinkedFirst(s, s', x, p)
    requires ch' == WithFirstChild(ch, p, x)
    ensures AllChildrenLinked(s', present, ch', {})
  {
    LooseInNoSequence(s, present, ch, {x}, x);
    assert EndsLinked(s, ch, p);
    InsertFirstKeepsLinked(s, s', present, p, ch[p], x, ch'[p]);
    forall q, j | q in ch' && 0 <= j < |ch'[q]|
      ensures ChildLinked(s', present, {}, q, ch'[q], j)
    {
      if q != p {
        var c := ch[q][j];
        ChildOfOneParent(s, present, ch, {x}, q, c);
        assert ChildLinked(s, present, {x}, q, ch[q], j);
        assert LinkedFirstAt(s, s', x, p, c);
        if ch[p] != [] {
          assert c != ch[p][0];
        }
      }
    }
  }

  /** Putting x in front of a linked sequence cs whose first element is p's
      first child leaves it linked. */
  lemma InsertFirstKeepsLinked(s: seq<Index>, s': seq<Index>, present: set<Node>, p: Node, cs: seq<Node>, x: Node, cs': seq<Node>)
    requires Distinct(cs) && x !in cs && x in present && x != Root
    requires HasRecord(s, p) && GetFirstChild(s, p) == FirstOf(cs)
    requires forall j | 0 <= j < |cs| :: ChildLinked(s, present, {x}, p, cs, j)
    requires LinkedFirst(s, s', x, p) && cs' == InsertAt(cs, 0, x)
    ensures forall j | 0 <= j < |cs'| :: ChildLinked(s', present, {}, p, cs', j)
  {
    forall j | 0 <= j < |cs'|
      ensures ChildLinked(s', present, {}, p, cs', j)
    {
      if j == 0 {
        assert LinkedFirstAt(s, s', x, p, x);
      } else {
        assert ChildLinked(s, present, {x}, p, cs, 0);
        assert ChildLinked(s, present, {x}, p, cs, j - 1);
        if j > 1 {
          assert cs[j - 1] != cs[0];
        }
        assert LinkedFirstAt(s, s', x, p, cs[j - 1]);
      }
    }
  }

  lemma LinkFirstPlaced(s: seq<Index>, s': seq<Index>, present: set<Node>, ch: Children, x: Node, p: Node, ch': Children)
    requires Consistent(s, present, ch, {x})
    requires p in present && LinkedFirst(s, s', x, p)
    requires ch' == WithFirstChild(ch, p, x)
    ensures AllPlaced(s', present, ch', {})
  {
    forall n | n in present && n != Root && n !in {} && HasRecord(s', n)
      ensures Placed(s', ch', n)
    {
      LinkFirstPlacedAt(s, s', present, ch, x, p, ch', n);
    }
  }

  lemma LinkFirstPlacedAt(s: seq<Index>, s': seq<Index>, present: set<Node>, ch: Children, x: Node, p: Node, ch': Children, n: Node)
    requires Consistent(s, present, ch, {x})
    requires p in present && LinkedFirst(s, s', x, p)
    requires ch' == WithFirstChild(ch, p, x)
    requires n in present && n != Root
    ensures Placed(s', ch', n)
  {
    assert LinkedFirstAt(s, s', x, p, n);
    if n == x {
      InsertKeepsMembers(ch[p], 0, x);
    } else {
      assert Placed(s, ch, n);
      if AttachedIn(s, ch, n) {
        InsertKeepsMembers(ch[p], 0, x);
      } else {
        DetachedIsUnattached(s, present, ch, {x}, n);
        assert EndsLinked(s, ch, p);
        assert n != GetFirstChild(s, p);
      }
    }
  }

  // ---------------------------------------------------------------------
  // Clear.

  /** Clearing the parent and sibling slots of a loose x leaves it
      unattached, and no longer loose. */
  lemma ClearKeepsConsistent(s: seq<Index>, present: set<Node>, ch: Children, x: Node)
    requires Closed(s) && Consistent(s, present, ch, {x})
    ensures Consistent(ClearLinks(s, ToIndex(x)), present, ch, {})
  {
    ClearLinksFields(s, x);
    ClearedConsistent(s, ClearLinks(s, ToIndex(x)), present, ch, x);
  }

  lemma ClearedConsistent(s: seq<Index>, s': seq<Index>, present: set<Node>, ch: Children, x: Node)
    requires Consistent(s, present, ch, {x}) && Cleared(s, s', x)
    ensures Consistent(s', present, ch, {})
  {
    assert ClearedAt(s, s', x, Root);
    forall q | q in ch && HasRecord(s', q)
      ensures EndsLinked(s', ch, q)
    {
      assert ClearedAt(s, s', x, q);
      assert EndsLinked(s, ch, q);
    }
    forall q, j | q in ch && 0 <= j < |ch[q]|
      ensures ChildLinked(s', present, {}, q, ch[q], j)
    {
      assert ChildLinked(s, present, {x}, q, ch[q], j);
      assert ClearedAt(s, s', x, ch[q][j]);
    }
    forall n | n in present && n != Root && n !in {} && HasRecord(s', n)
      ensures Placed(s', ch, n)
    {
      assert ClearedAt(s, s', x, n);
      if n != x {
        assert Placed(s, ch, n);
      }
    }
  }
}
