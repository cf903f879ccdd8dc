/** What callers and consumers of the tree can rely on: the read surface
    spells out the child sequences, the old location reported by a move
    puts the node back, appending through lastChildOf, and the hazards the
    code leaves to its callers. */
module TreeProperties {
  import opened ShapeStore
  import opened Splice
  import opened Locations
  import opened Chains
  import opened Links
  import opened Relink
  import opened Observers
  import opened TreeShapes

  // ---------------------------------------------------------------------
  // Reading a valid tree.

  /** The getters spell out a parent's sequence: its first and last child
      are the ends, and each child names the parent and its neighbours. */
  lemma ReadsSpellChildren(t: Tree, ch: Children, p: Node)
    requires Valid(t, ch) && p in Present(t)
    ensures GetFirstChild(t.shape, p) == FirstOf(ch[p]) && GetLastChild(t.shape, p) == LastOf(ch[p])
    ensures forall i | 0 <= i < |ch[p]| ::
              && ch[p][i] in t.live && HasRecord(t.shape, ch[p][i])
              && GetParent(t.shape, ch[p][i]) == p
              && GetPrevSibling(t.shape, ch[p][i]) == PrevIn(ch[p], i)
              && GetNextSibling(t.shape, ch[p][i]) == NextIn(ch[p], i)
  {
    assert EndsLinked(t.shape, ch, p);
    forall i | 0 <= i < |ch[p]|
      ensures ch[p][i] in t.live
      ensures ChildLinked(t.shape, Present(t), {}, p, ch[p], i)
    {
      assert ChildLinked(t.shape, Present(t), {}, p, ch[p], i);
    }
  }

  /** The child sequences determine every field of every present node:
      two stores that spell out the same sequences agree on them. */
  lemma ConsistentDetermines(s: seq<Index>, s': seq<Index>, present: set<Node>, ch: Children)
    requires Consistent(s, present, ch, {}) && Consistent(s', present, ch, {})
    ensures forall n | n in present :: SameFields(s, s', n)
  {
    forall n | n in present
      ensures SameFields(s, s', n)
    {
      assert EndsLinked(s, ch, n) && EndsLinked(s', ch, n);
      if n != Root {
        assert Placed(s, ch, n);
        if AttachedIn(s, ch, n) {
          var p := GetParent(s, n);
          var i := IndexOf(ch[p], n);
          assert ChildLinked(s, present, {}, p, ch[p], i);
          assert ChildLinked(s', present, {}, p, ch[p], i);
        } else {
          DetachedIsUnattached(s, present, ch, {}, n);
          assert Placed(s', ch, n);
        }
      }
    }
  }

  // ---------------------------------------------------------------------
  // Putting a node back where it was.

  /** Inserting x where it was taken from, described as the location
      beforeNode gives (first child of p, or after its old previous
      sibling), restores the sequences. */
  lemma ReinsertRestores(ch: Children, p: Node, x: Node)
    requires p in ch && x in ch[p] && Distinct(ch[p])
    ensures var i := IndexOf(ch[p], x);
            var ch0 := WithoutChild(ch, p, x);
            && (i == 0 ==> WithFirstChild(ch0, p, x) == ch)
            && (i > 0 ==> ch[p][i - 1] in ch0[p] && WithChildAfter(ch0, p, ch[p][i - 1], x) == ch)
  {
    var cs := ch[p];
    var i := IndexOf(cs, x);
    var ch0 := ch[p := RemoveAt(cs, i)];
    assert WithoutChild(ch, p, x) == ch0;
    if i > 0 {
      ReinsertAfterPrevious(cs, i);
      assert WithChildAfter(ch0, p, cs[i - 1], x) == ch[p := cs];
    } else {
      InsertRemoved(cs, i);
      assert WithFirstChild(ch0, p, x) == ch[p := cs];
    }
    assert ch[p := cs] == ch;
  }

  /** Moving an attached node to its own beforeNode location is allowed and
      changes nothing: every present node's fields are as they were. */
  lemma MoveToOwnPosition(t: Tree, ch: Children, x: Node)
    requires Valid(t, ch) && x in t.live && AttachedIn(t.shape, ch, x)
    ensures InTree(t, BeforeNode(t.shape, x)) && CanMove(t, ch, x, BeforeNode(t.shape, x))
    ensures Relocated(t.shape, ch, x, BeforeNode(t.shape, x)) == ch
    ensures Valid(MoveNode(t, x, BeforeNode(t.shape, x)), ch)
    ensures forall n | n in Present(t) :: SameFields(t.shape, MoveNode(t, x, BeforeNode(t.shape, x)).shape, n)
  {
    var s := t.shape;
    var p := GetParent(s, x);
    var i := IndexOf(ch[p], x);
    BeforeNodeIsPosition(s, Present(t), ch, x);
    ChildOfOneParent(s, Present(t), ch, {}, p, x);
    assert Distinct(ch[p]);
    ReinsertRestores(ch, p, x);
    if i > 0 {
      var prev := ch[p][i - 1];
      assert ChildLinked(s, Present(t), {}, p, ch[p], i - 1);
      assert prev != x;
    }
    var loc := BeforeNode(s, x);
    MoveNodeKeepsValid(t, ch, x, loc);
    ConsistentDetermines(s, MoveNode(t, x, loc).shape, Present(t), ch);
  }

  /** A permitted move puts x at one position of one sequence of the
      sequences left by the unlink. */
  lemma RelocatedInserts(t: Tree, ch: Children, x: Node, loc: Location) returns (q: Node, k: nat)
    requires Valid(t, ch) && CanMove(t, ch, x, loc)
    ensures q in Taken(t.shape, ch, x) && k <= |Taken(t.shape, ch, x)[q]|
    ensures Relocated(t.shape, ch, x, loc) == Taken(t.shape, ch, x)[q := InsertAt(Taken(t.shape, ch, x)[q], k, x)]
  {
    var s := t.shape;
    UnlinkedOut(t, ch, x);
    var ch0 := Taken(s, ch, x);
    assert ch0.Keys == ch.Keys;
    if loc > 0 {
      StaysAttached(t, ch, x, loc);
      q := GetParent(s, loc);
      k := IndexOf(ch0[q], loc) + 1;
    } else {
      q := -loc;
      k := 0;
    }
  }

  /** After a move, x sits in the sequence it was put in, and taking it out
      again gives the sequences as they were after the unlink. */
  lemma MovedUnlinksBack(t: Tree, ch: Children, x: Node, loc: Location)
    requires Valid(t, ch) && CanMove(t, ch, x, loc)
    ensures var t1 := MoveNode(t, x, loc);
            var ch1 := Relocated(t.shape, ch, x, loc);
            && GetParent(t1.shape, x) in ch1 && x in ch1[GetParent(t1.shape, x)]
            && Taken(t1.shape, ch1, x) == Taken(t.shape, ch, x)
  {
    MoveNodeKeepsValid(t, ch, x, loc);
    UnlinkedOut(t, ch, x);
    var t1 := MoveNode(t, x, loc);
    var ch0 := Taken(t.shape, ch, x);
    var ch1 := Relocated(t.shape, ch, x, loc);
    var q, k := RelocatedInserts(t, ch, x, loc);
    TakeInserted(ch0, q, k, x);
    ChildOfOneParent(t1.shape, Present(t1), ch1, {}, q, x);
    assert Taken(t1.shape, ch1, x) == WithoutChild(ch1, q, x);
  }

  /** Taking out a child just inserted restores the sequences. */
  lemma TakeInserted(ch0: Children, q: Node, k: nat, x: Node)
    requires q in ch0 && k <= |ch0[q]| && x !in ch0[q]
    ensures x in ch0[q := InsertAt(ch0[q], k, x)][q]
    ensures WithoutChild(ch0[q := InsertAt(ch0[q], k, x)], q, x) == ch0
  {
    var ch1 := ch0[q := InsertAt(ch0[q], k, x)];
    assert ch1[q][k] == x;
    assert IndexOf(ch1[q], x) == k;
    RemoveInserted(ch0[q], k, x);
    assert ch1[q := ch0[q]] == ch0;
  }

  /** A move keeps every other member of every sequence. */
  lemma MoveKeepsMembers(t: Tree, ch: Children, x: Node, loc: Location)
    requires Valid(t, ch) && CanMove(t, ch, x, loc)
    ensures forall q, y | q in Taken(t.shape, ch, x) && y in Taken(t.shape, ch, x)[q] ::
              q in Relocated(t.shape, ch, x, loc) && y in Relocated(t.shape, ch, x, loc)[q]
  {
    var ch0 := Taken(t.shape, ch, x);
    var q, k := RelocatedInserts(t, ch, x, loc);
    InsertKeepsMembers(ch0[q], k, x);
  }

  /** The location a move reports, fed back to moveNode, restores the tree:
      the child sequences, and so every field of every present node, are
      as before the first move. */
  lemma MoveBackRestores(t: Tree, ch: Children, x: Node, loc: Location)
    requires Valid(t, ch) && CanMove(t, ch, x, loc) && AttachedIn(t.shape, ch, x)
    ensures InTree(MoveNode(t, x, loc), BeforeNode(t.shape, x))
    ensures CanMove(MoveNode(t, x, loc), Relocated(t.shape, ch, x, loc), x, BeforeNode(t.shape, x))
    ensures var t2 := MoveNode(MoveNode(t, x, loc), x, BeforeNode(t.shape, x));
            Valid(t2, ch) && forall n | n in Present(t) :: SameFields(t.shape, t2.shape, n)
  {
    var t1 := MoveNode(t, x, loc);
    var ch1 := Relocated(t.shape, ch, x, loc);
    var back := BeforeNode(t.shape, x);
    MoveNodeKeepsValid(t, ch, x, loc);
    BackRelocates(t, ch, x, loc);
    MoveNodeKeepsValid(t1, ch1, x, back);
    ConsistentDetermines(t.shape, MoveNode(t1, x, back).shape, Present(t), ch);
  }

  /** The location beforeNode reported is a permitted target after the
      move, and inserting x there gives back the original sequences. */
  lemma BackRelocates(t: Tree, ch: Children, x: Node, loc: Location)
    requires Valid(t, ch) && CanMove(t, ch, x, loc) && AttachedIn(t.shape, ch, x)
    ensures InTree(MoveNode(t, x, loc), BeforeNode(t.shape, x))
    ensures CanMove(MoveNode(t, x, loc), Relocated(t.shape, ch, x, loc), x, BeforeNode(t.shape, x))
    ensures Relocated(MoveNode(t, x, loc).shape, Relocated(t.shape, ch, x, loc), x, BeforeNode(t.shape, x)) == ch
  {
    BackPermitted(t, ch, x, loc);
    if IndexOf(ch[GetParent(t.shape, x)], x) > 0 {
      BackAfterReinserts(t, ch, x, loc);
    } else {
      BackFirstReinserts(t, ch, x, loc);
    }
  }

  lemma BackPermitted(t: Tree, ch: Children, x: Node, loc: Location)
    requires Valid(t, ch) && CanMove(t, ch, x, loc) && AttachedIn(t.shape, ch, x)
    ensures InTree(MoveNode(t, x, loc), BeforeNode(t.shape, x))
    ensures CanMove(MoveNode(t, x, loc), Relocated(t.shape, ch, x, loc), x, BeforeNode(t.shape, x))
  {
    var s := t.shape;
    var p := GetParent(s, x);
    BeforeNodeIsPosition(s, Present(t), ch, x);
    if IndexOf(ch[p], x) > 0 {
      BackAfterPrevious(t, ch, x, loc);
    }
  }

  lemma BackFirstReinserts(t: Tree, ch: Children, x: Node, loc: Location)
    requires Valid(t, ch) && CanMove(t, ch, x, loc) && AttachedIn(t.shape, ch, x)
    requires IndexOf(ch[GetParent(t.shape, x)], x) == 0
    ensures var p := GetParent(t.shape, x);
            p in Taken(t.shape, ch, x) && WithFirstChild(Taken(t.shape, ch, x), p, x) == ch
    ensures BeforeNode(t.shape, x) == FirstChildOf(GetParent(t.shape, x))
    ensures Relocated(MoveNode(t, x, loc).shape, Relocated(t.shape, ch, x, loc), x, BeforeNode(t.shape, x)) == ch
  {
    var p := GetParent(t.shape, x);
    BeforeNodeIsPosition(t.shape, Present(t), ch, x);
    MovedUnlinksBack(t, ch, x, loc);
    UnlinkedOut(t, ch, x);
    assert Distinct(ch[p]);
    ReinsertRestores(ch, p, x);
    RelocatedFirst(MoveNode(t, x, loc).shape, Relocated(t.shape, ch, x, loc), x, p);
  }

  lemma BackAfterReinserts(t: Tree, ch: Children, x: Node, loc: Location)
    requires Valid(t, ch) && CanMove(t, ch, x, loc) && AttachedIn(t.shape, ch, x)
    requires IndexOf(ch[GetParent(t.shape, x)], x) > 0
    ensures var p := GetParent(t.shape, x);
            var prev := ch[p][IndexOf(ch[p], x) - 1];
            && HasRecord(MoveNode(t, x, loc).shape, prev)
            && BeforeNode(t.shape, x) == AfterNode(prev)
    ensures BeforeNode(t.shape, x) > 0 ==> HasRecord(MoveNode(t, x, loc).shape, BeforeNode(t.shape, x))
    ensures Relocated(MoveNode(t, x, loc).shape, Relocated(t.shape, ch, x, loc), x, BeforeNode(t.shape, x)) == ch
  {
    var p := GetParent(t.shape, x);
    var prev := ch[p][IndexOf(ch[p], x) - 1];
    BeforeNodeIsPosition(t.shape, Present(t), ch, x);
    BackAfterPrevious(t, ch, x, loc);
    MovedUnlinksBack(t, ch, x, loc);
    UnlinkedOut(t, ch, x);
    assert Distinct(ch[p]);
    ReinsertRestores(ch, p, x);
    RelocatedAfter(MoveNode(t, x, loc).shape, Relocated(t.shape, ch, x, loc), x, prev, p);
  }

  /** When x had a previous sibling, that sibling stays attached under the
      same parent through the move. */
  lemma BackAfterPrevious(t: Tree, ch: Children, x: Node, loc: Location)
    requires Valid(t, ch) && CanMove(t, ch, x, loc) && AttachedIn(t.shape, ch, x)
    requires IndexOf(ch[GetParent(t.shape, x)], x) > 0
    ensures var p := GetParent(t.shape, x);
            var prev := ch[p][IndexOf(ch[p], x) - 1];
            && prev in t.live && prev != x
            && HasRecord(MoveNode(t, x, loc).shape, prev)
            && GetParent(MoveNode(t, x, loc).shape, prev) == p
            && p in Relocated(t.shape, ch, x, loc) && prev in Relocated(t.shape, ch, x, loc)[p]
  {
    var s := t.shape;
    var p := GetParent(s, x);
    var i := IndexOf(ch[p], x);
    var prev := ch[p][i - 1];
    assert ChildLinked(s, Present(t), {}, p, ch[p], i - 1);
    assert prev != x;
    UnlinkedOut(t, ch, x);
    assert Distinct(ch[p]);
    ReinsertRestores(ch, p, x);
    MoveKeepsMembers(t, ch, x, loc);
    MoveNodeKeepsValid(t, ch, x, loc);
    var t1 := MoveNode(t, x, loc);
    ChildOfOneParent(t1.shape, Present(t1), Relocated(s, ch, x, loc), {}, p, prev);
  }

  /** Because the absent handle is the root, the location reported for a
      node in no sequence is "first child of the root": moving it back
      attaches it there instead of leaving it detached. */
  lemma MoveBackAttachesDetached(t: Tree, ch: Children, x: Node, loc: Location)
    requires Valid(t, ch) && CanMove(t, ch, x, loc) && !AttachedIn(t.shape, ch, x)
    ensures BeforeNode(t.shape, x) == FirstChildOf(Root)
    ensures var t2 := MoveNode(MoveNode(t, x, loc), x, BeforeNode(t.shape, x));
            GetParent(t2.shape, x) == Root && GetFirstChild(t2.shape, Root) == x
  {
    var s := t.shape;
    BeforeNodeIsPosition(s, Present(t), ch, x);
    MoveNodeKeepsValid(t, ch, x, loc);
    var t1 := MoveNode(t, x, loc);
    var ch1 := Relocated(s, ch, x, loc);
    MovedUnlinksBack(t, ch, x, loc);
    MoveNodeKeepsValid(t1, ch1, x, FirstChildOf(Root));
    var t2 := MoveNode(t1, x, FirstChildOf(Root));
    var ch2 := Relocated(t1.shape, ch1, x, FirstChildOf(Root));
    assert ch2[Root][0] == x;
    ReadsSpellChildren(t2, ch2, Root);
  }

  // ---------------------------------------------------------------------
  // Appending.

  /** Moving x to lastChildOf(p) appends it to p's sequence (with x first
      taken out of wherever it was), unless that location is afterNode(x)
      itself. */
  lemma MoveToLastChildAppends(t: Tree, ch: Children, x: Node, p: Node)
    requires Valid(t, ch) && x in t.live && p in Present(t) && LastChildOf(t.shape, p) != AfterNode(x)
    ensures InTree(t, LastChildOf(t.shape, p)) && CanMove(t, ch, x, LastChildOf(t.shape, p))
    ensures p in Taken(t.shape, ch, x)
    ensures Relocated(t.shape, ch, x, LastChildOf(t.shape, p)) == Taken(t.shape, ch, x)[p := Taken(t.shape, ch, x)[p] + [x]]
  {
    var s := t.shape;
    LastChildOfAppends(s, Present(t), ch, p);
    UnlinkedOut(t, ch, x);
    if ch[p] == [] {
      AppendToChildless(t, ch, x, p);
    } else {
      AppendAfterLast(t, ch, x, p);
    }
  }

  lemma AppendToChildless(t: Tree, ch: Children, x: Node, p: Node)
    requires Valid(t, ch) && x in t.live && p in Present(t) && ch[p] == []
    ensures p in Taken(t.shape, ch, x)
    ensures Relocated(t.shape, ch, x, FirstChildOf(p)) == Taken(t.shape, ch, x)[p := Taken(t.shape, ch, x)[p] + [x]]
  {
    UnlinkedOut(t, ch, x);
    var ch0 := Taken(t.shape, ch, x);
    assert ch0[p] == [];
    assert InsertAt(ch0[p], 0, x) == ch0[p] + [x];
  }

  lemma AppendAfterLast(t: Tree, ch: Children, x: Node, p: Node)
    requires Valid(t, ch) && x in t.live && p in Present(t) && ch[p] != [] && ch[p][|ch[p]| - 1] != x
    ensures var last := ch[p][|ch[p]| - 1];
            && last in t.live && HasRecord(t.shape, last) && AttachedIn(t.shape, ch, last)
            && p in Taken(t.shape, ch, x)
            && Relocated(t.shape, ch, x, AfterNode(last)) == Taken(t.shape, ch, x)[p := Taken(t.shape, ch, x)[p] + [x]]
  {
    var s := t.shape;
    var n := |ch[p]|;
    assert ChildLinked(s, Present(t), {}, p, ch[p], n - 1);
    TakenKeepsLast(t, ch, x, p);
    var ch0 := Taken(s, ch, x);
    DistinctIndex(ch0[p], |ch0[p]| - 1);
    InsertAtEnd(ch0[p], x);
  }

  /** Taking x out of the sequences keeps the last child of p when that is
      not x itself. */
  lemma TakenKeepsLast(t: Tree, ch: Children, x: Node, p: Node)
    requires Valid(t, ch) && x in t.live && p in Present(t) && ch[p] != [] && ch[p][|ch[p]| - 1] != x
    ensures p in Taken(t.shape, ch, x) && Taken(t.shape, ch, x)[p] != [] && Distinct(Taken(t.shape, ch, x)[p])
    ensures Taken(t.shape, ch, x)[p][|Taken(t.shape, ch, x)[p]| - 1] == ch[p][|ch[p]| - 1]
  {
    var s := t.shape;
    UnlinkedOut(t, ch, x);
    var ch0 := Taken(s, ch, x);
    var px := GetParent(s, x);
    assert Distinct(ch[p]);
    if px == p && x in ch[p] {
      var ix := IndexOf(ch[p], x);
      RemoveKeepsDistinct(ch[p], ix);
      assert ch0[p] == RemoveAt(ch[p], ix);
    } else {
      assert ch0[p] == ch[p];
    }
  }

  /** The append scenario: three fresh nodes appended to the root in turn
      read back in order through the getters; removing the middle one
      joins its neighbours and detaches it. */
  method AppendThenRemove(a: Node, b: Node, c: Node) returns (t3: Tree, t4: Tree)
    requires a != Root && b != Root && c != Root && a != b && b != c && a != c
    ensures WellFormed(t3) && WellFormed(t4) && t3.live == t4.live == {a, b, c}
    ensures GetFirstChild(t3.shape, Root) == a && GetLastChild(t3.shape, Root) == c
    ensures GetNextSibling(t3.shape, a) == b && GetNextSibling(t3.shape, b) == c
    ensures GetPrevSibling(t3.shape, c) == b && GetPrevSibling(t3.shape, b) == a
    ensures GetParent(t3.shape, a) == Root && GetParent(t3.shape, b) == Root && GetParent(t3.shape, c) == Root
    ensures GetNextSibling(t4.shape, a) == c && GetPrevSibling(t4.shape, c) == a
    ensures GetParent(t4.shape, b) == None
  {
    var t;
    ghost var ch;
    t, ch := CreateThree(a, b, c);
    t, ch := AppendToRoot(t, ch, a);
    t, ch := AppendToRoot(t, ch, b);
    t, ch := AppendToRoot(t, ch, c);
    assert ch[Root] == [a, b, c];
    t3 := t;
    ReadThree(t3, ch, a, b, c);
    t4 := RemoveNode(t3, b);
    RemoveMiddle(t3, ch, a, b, c);
  }

  /** The empty tree after creating three nodes: every sequence empty. */
  method CreateThree(a: Node, b: Node, c: Node) returns (t: Tree, ghost ch: Children)
    requires a != Root && b != Root && c != Root && a != b && b != c && a != c
    ensures Valid(t, ch) && t.live == {a, b, c}
    ensures forall q | q in ch :: ch[q] == []
  {
    t := EmptyTree();
    ch := map[Root := []];
    EmptyTreeValid();
    t, ch := CreateLeaf(t, ch, a);
    t, ch := CreateLeaf(t, ch, b);
    t, ch := CreateLeaf(t, ch, c);
  }

  /** Creating a node in a tree without edges keeps it without edges. */
  method CreateLeaf(t: Tree, ghost ch: Children, n: Node) returns (r: Tree, ghost ch': Children)
    requires Valid(t, ch) && n != Root && n !in t.live
    requires forall q | q in ch :: ch[q] == []
    ensures Valid(r, ch') && r.live == t.live + {n}
    ensures forall q | q in ch' :: ch'[q] == []
  {
    CreateNodeKeepsValid(t, ch, n);
    r, ch' := CreateNode(t, n), ch[n := []];
  }

  lemma ReadThree(t: Tree, ch: Children, a: Node, b: Node, c: Node)
    requires Valid(t, ch) && ch[Root] == [a, b, c]
    ensures HasRecord(t.shape, a) && HasRecord(t.shape, b) && HasRecord(t.shape, c)
    ensures GetFirstChild(t.shape, Root) == a && GetLastChild(t.shape, Root) == c
    ensures GetNextSibling(t.shape, a) == b && GetNextSibling(t.shape, b) == c
    ensures GetPrevSibling(t.shape, c) == b && GetPrevSibling(t.shape, b) == a
    ensures GetParent(t.shape, a) == Root && GetParent(t.shape, b) == Root && GetParent(t.shape, c) == Root
  {
    ReadsSpellChildren(t, ch, Root);
    assert ch[Root][0] == a && ch[Root][1] == b && ch[Root][2] == c;
  }

  lemma RemoveMiddle(t: Tree, ch: Children, a: Node, b: Node, c: Node)
    requires Valid(t, ch) && ch[Root] == [a, b, c]
    ensures b in t.live
    ensures HasRecord(RemoveNode(t, b).shape, a) && HasRecord(RemoveNode(t, b).shape, c)
    ensures GetNextSibling(RemoveNode(t, b).shape, a) == c && GetPrevSibling(RemoveNode(t, b).shape, c) == a
    ensures GetParent(RemoveNode(t, b).shape, b) == None
  {
    ReadsSpellChildren(t, ch, Root);
    assert ch[Root][1] == b;
    RemoveNodeKeepsValid(t, ch, b);
    var t4 := RemoveNode(t, b);
    var ch4 := Taken(t.shape, ch, b);
    assert IndexOf(ch[Root], b) == 1;
    assert ch4[Root] == [a, c];
    ReadsSpellChildren(t4, ch4, Root);
    assert ch4[Root][0] == a && ch4[Root][1] == c;
    RemoveNodeFields(t, b);
  }

  /** One append step of the scenario: x, in no sequence, goes to the end
      of the root's sequence. */
  method AppendToRoot(t: Tree, ghost ch: Children, x: Node) returns (r: Tree, ghost ch': Children)
    requires Valid(t, ch) && x in t.live && forall q | q in ch :: x !in ch[q]
    ensures Valid(r, ch') && ch'[Root] == ch[Root] + [x]
    ensures forall q | q in ch' :: q in ch && (q != Root ==> ch'[q] == ch[q])
    ensures r.live == t.live
  {
    var s := t.shape;
    assert !AttachedIn(s, ch, x);
    DetachedIsUnattached(s, Present(t), ch, {}, x);
    assert Taken(s, ch, x) == ch;
    assert LastChildOf(s, Root) != AfterNode(x) by {
      LastChildOfAppends(s, Present(t), ch, Root);
      if ch[Root] != [] {
        assert ch[Root][|ch[Root]| - 1] in ch[Root];
      }
    }
    MoveToLastChildAppends(t, ch, x, Root);
    MoveNodeKeepsValid(t, ch, x, LastChildOf(s, Root));
    r := MoveNode(t, x, LastChildOf(s, Root));
    ch' := Relocated(s, ch, x, LastChildOf(s, Root));
  }

  // ---------------------------------------------------------------------
  // Notifications.

  /** Every consumer learns, after the edit, which node moved and a
      location whose parent, read through the view it is handed, is the
      node's parent before the move. */
  lemma MoveNotifiesOldParent(t: Tree, ch: Children, x: Node, loc: Location)
    requires Valid(t, ch) && CanMove(t, ch, x, loc)
    ensures var r := MoveNode(t, x, loc);
            var was := BeforeNode(t.shape, x);
            && |r.log| == |t.log| + |t.consumers|
            && (was > 0 ==> HasRecord(r.shape, was))
            && ParentOfLocation(t.shape, was) == GetParent(t.shape, x)
            && ParentOfLocation(r.shape, was) == GetParent(t.shape, x)
            && forall i | 0 <= i < |t.consumers| ::
                 && r.log[|t.log| + i].consumer == t.consumers[i]
                 && r.log[|t.log| + i].node == x
                 && r.log[|t.log| + i].oldLocation == was
                 && r.log[|t.log| + i].view == r.shape
  {
    var s := t.shape;
    var was := BeforeNode(s, x);
    BeforeNodeIsPosition(s, Present(t), ch, x);
    if was > 0 {
      var prev := GetPrevSibling(s, x);
      assert was == prev;
      SiblingsSymmetric(s, Present(t), ch, x);
      assert prev != x by {
        if prev == x {
          assert GetNextSibling(s, prev) == x;
          NotOwnNeighbour(t, ch, x);
        }
      }
      OtherParentKept(t, x, loc, prev);
    }
  }

  /** No node in a valid tree is its own previous or next sibling. */
  lemma NotOwnNeighbour(t: Tree, ch: Children, x: Node)
    requires Valid(t, ch) && x in t.live
    ensures GetPrevSibling(t.shape, x) != x && GetNextSibling(t.shape, x) != x
  {
    var s := t.shape;
    assert Placed(s, ch, x);
    if AttachedIn(s, ch, x) {
      var p := GetParent(s, x);
      var i := IndexOf(ch[p], x);
      assert ChildLinked(s, Present(t), {}, p, ch[p], i);
      assert Distinct(ch[p]);
      if i > 0 {
        assert ch[p][i - 1] != ch[p][i];
      }
      if i + 1 < |ch[p]| {
        assert ch[p][i + 1] != ch[p][i];
      }
    }
  }

  /** A move of x leaves every other node's parent field alone. */
  lemma OtherParentKept(t: Tree, x: Node, loc: Location, n: Node)
    requires WellFormed(t) && x in t.live && InTree(t, loc) && HasRecord(t.shape, n) && n != x
    ensures HasRecord(MoveNode(t, x, loc).shape, n)
    ensures GetParent(MoveNode(t, x, loc).shape, n) == GetParent(t.shape, n)
  {
    RelocateKeepsOtherParent(t.shape, x, loc, n);
    assert MoveNode(t, x, loc).shape == Relocate(t.shape, x, loc).0;
  }

  /** removeNode reports in the same way as moveNode. */
  lemma RemoveNotifiesOldParent(t: Tree, ch: Children, x: Node)
    requires Valid(t, ch) && x in t.live
    ensures var r := RemoveNode(t, x);
            var was := BeforeNode(t.shape, x);
            && |r.log| == |t.log| + |t.consumers|
            && (was > 0 ==> HasRecord(r.shape, was))
            && ParentOfLocation(t.shape, was) == GetParent(t.shape, x)
            && ParentOfLocation(r.shape, was) == GetParent(t.shape, x)
            && forall i | 0 <= i < |t.consumers| ::
                 && r.log[|t.log| + i].consumer == t.consumers[i]
                 && r.log[|t.log| + i].node == x
                 && r.log[|t.log| + i].oldLocation == was
                 && r.log[|t.log| + i].view == r.shape
  {
    var s := t.shape;
    var was := BeforeNode(s, x);
    BeforeNodeIsPosition(s, Present(t), ch, x);
    if was > 0 {
      var prev := GetPrevSibling(s, x);
      NotOwnNeighbour(t, ch, x);
      DetachFieldsAt(s, x, prev);
      assert RemoveNode(t, x).shape == Detach(s, x).0;
    }
  }

  // ---------------------------------------------------------------------
  // Hazards left to the caller.

  /** When x is the last child of its parent, the natural "append to the
      parent" location is afterNode(x). */
  lemma LastChildIsAfterLast(t: Tree, ch: Children, x: Node)
    requires Valid(t, ch) && x in t.live
    ensures AttachedIn(t.shape, ch, x) && GetNextSibling(t.shape, x) == None ==>
              LastChildOf(t.shape, GetParent(t.shape, x)) == AfterNode(x)
  {
    if AttachedIn(t.shape, ch, x) && GetNextSibling(t.shape, x) == None {
      ChainEndsMatchParent(t.shape, Present(t), ch, x);
    }
  }

  /** Moving x to afterNode(x) breaks the tree for every choice of child
      sequences. */
  lemma MoveAfterItselfBreaks(t: Tree, ch: Children, x: Node)
    requires Valid(t, ch) && x in t.live
    ensures GetNextSibling(MoveNode(t, x, AfterNode(x)).shape, x) == x
    ensures forall ch' :: !Valid(MoveNode(t, x, AfterNode(x)), ch')
  {
    MoveAfterSelfLinksSelf(t, x);
    var r := MoveNode(t, x, AfterNode(x));
    forall ch' | Valid(r, ch')
      ensures false
    {
      NotOwnNeighbour(r, ch', x);
    }
  }

  /** Moving x after itself leaves x's next-sibling field naming x. */
  lemma MoveAfterSelfLinksSelf(t: Tree, x: Node)
    requires WellFormed(t) && x in t.live
    ensures x in MoveNode(t, x, AfterNode(x)).live
    ensures GetNextSibling(MoveNode(t, x, AfterNode(x)).shape, x) == x
  {
    var i := ToIndex(x);
    var s1 := Unlink(t.shape, i).0;
    assert MoveNode(t, x, AfterNode(x)).shape == LinkAfter(s1, i, i);
    LinkAfterSelf(s1, x);
  }
}
