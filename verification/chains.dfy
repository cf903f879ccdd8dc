/** The structural invariant of the shape store, stated against an abstract
    child-sequence per parent: the flat slots must spell out exactly those
    sequences as doubly-linked sibling chains. */
module Chains {
  import opened ShapeStore
  import opened Splice
  import opened Locations

  /** The ordered children of every present node. */
  type Children = map<Node, seq<Node>>

  function FirstOf(cs: seq<Node>): Node
  {
    if cs == [] then None else cs[0]
  }

  function LastOf(cs: seq<Node>): Node
  {
    if cs == [] then None else cs[|cs| - 1]
  }

  function PrevIn(cs: seq<Node>, i: nat): Node
    requires i < |cs|
  {
    if i == 0 then None else cs[i - 1]
  }

  function NextIn(cs: seq<Node>, i: nat): Node
    requires i < |cs|
  {
    if i + 1 == |cs| then None else cs[i + 1]
  }

  /** Parent and both siblings absent: the state of a detached node and of
      the root. */
  predicate Unattached(s: seq<Index>, n: Node)
    requires HasRecord(s, n)
  {
    GetParent(s, n) == None && GetPrevSibling(s, n) == None && GetNextSibling(s, n) == None
  }

  /** The i-th of the children cs of p is a present non-root node whose
      parent, previous and next sibling fields match its neighbours in cs. */
  predicate ChildLinked(s: seq<Index>, present: set<Node>, loose: set<Node>, p: Node, cs: seq<Node>, i: nat)
    requires i < |cs|
  {
    var c := cs[i];
    && c in present && c != Root && c !in loose && HasRecord(s, c)
    && GetParent(s, c) == p
    && GetPrevSibling(s, c) == PrevIn(cs, i)
    && GetNextSibling(s, c) == NextIn(cs, i)
  }

  /** A parent's first and last child fields name the ends of its sequence
      (both absent exactly when it is empty). */
  ghost predicate EndsLinked(s: seq<Index>, ch: Children, p: Node)
    requires p in ch && HasRecord(s, p)
  {
    GetFirstChild(s, p) == FirstOf(ch[p]) && GetLastChild(s, p) == LastOf(ch[p])
  }

  /** A node is either in the sequence of the parent its field names, or
      fully unattached. */
  ghost predicate Placed(s: seq<Index>, ch: Children, n: Node)
    requires HasRecord(s, n)
  {
    (GetParent(s, n) in ch && n in ch[GetParent(s, n)]) || Unattached(s, n)
  }

  /** The sequences after taking x out of p's children (if it is there). */
  function WithoutChild(ch: Children, p: Node, x: Node): Children
    requires p in ch
  {
    if x in ch[p] then ch[p := RemoveAt(ch[p], IndexOf(ch[p], x))] else ch
  }

  /** The sequences after putting x directly after prev among p's children. */
  function WithChildAfter(ch: Children, p: Node, prev: Node, x: Node): Children
    requires p in ch && prev in ch[p]
  {
    ch[p := InsertAt(ch[p], IndexOf(ch[p], prev) + 1, x)]
  }

  /** The sequences after putting x in front of p's children. */
  function WithFirstChild(ch: Children, p: Node, x: Node): Children
    requires p in ch
  {
    ch[p := InsertAt(ch[p], 0, x)]
  }

  /** The child sequences themselves are well-shaped: one per present
      node, none with a repetition, and the root is never loose. */
  predicate Shaped(present: set<Node>, ch: Children, loose: set<Node>)
  {
    && Root in present && ch.Keys == present && loose <= present && Root !in loose
    && (forall p {:trigger Distinct(ch[p])} | p in ch :: Distinct(ch[p]))
  }

  /** Every present node owns a record, and the root's record says it has
      no parent and no siblings. */
  predicate Recorded(s: seq<Index>, present: set<Node>)
  {
    && (forall n | n in present :: HasRecord(s, n))
    && HasRecord(s, Root) && Unattached(s, Root)
  }

  ghost predicate AllEndsLinked(s: seq<Index>, ch: Children)
  {
    forall p {:trigger EndsLinked(s, ch, p)} | p in ch && HasRecord(s, p) :: EndsLinked(s, ch, p)
  }

  ghost predicate AllChildrenLinked(s: seq<Index>, present: set<Node>, ch: Children, loose: set<Node>)
  {
    forall p, i {:trigger ChildLinked(s, present, loose, p, ch[p], i)} | p in ch && 0 <= i < |ch[p]| :: ChildLinked(s, present, loose, p, ch[p], i)
  }

  ghost predicate AllPlaced(s: seq<Index>, present: set<Node>, ch: Children, loose: set<Node>)
  {
    forall n {:trigger Placed(s, ch, n)} | n in present && n != Root && n !in loose && HasRecord(s, n) :: Placed(s, ch, n)
  }

  /** The store spells out `ch`. Nodes in `loose` are in no sequence and
      their parent and sibling fields are unconstrained (a node between
      being unlinked and being linked again); their child fields still are. */
  ghost predicate Consistent(s: seq<Index>, present: set<Node>, ch: Children, loose: set<Node>)
  {
    && Shaped(present, ch, loose)
    && Recorded(s, present)
    && AllEndsLinked(s, ch)
    && AllChildrenLinked(s, present, ch, loose)
    && AllPlaced(s, present, ch, loose)
  }

  /** A child sits in the sequence of the parent its field names, and in no
      other: no node is in two chains. */
  lemma ChildOfOneParent(s: seq<Index>, present: set<Node>, ch: Children, loose: set<Node>, p: Node, c: Node)
    requires Consistent(s, present, ch, loose)
    requires p in ch && c in ch[p]
    ensures c in present && c != Root && c !in loose
    ensures GetParent(s, c) == p
    ensures forall q | q in ch && q != p :: c !in ch[q]
  {
    var i :| 0 <= i < |ch[p]| && ch[p][i] == c;
    assert ChildLinked(s, present, loose, p, ch[p], i);
    forall q | q in ch && c in ch[q]
      ensures q == p
    {
      var j :| 0 <= j < |ch[q]| && ch[q][j] == c;
      assert ChildLinked(s, present, loose, q, ch[q], j);
    }
  }

  /** A present non-loose node is attached exactly when it sits in the
      sequence of its parent field. */
  predicate AttachedIn(s: seq<Index>, ch: Children, n: Node)
    requires HasRecord(s, n)
  {
    GetParent(s, n) in ch && n in ch[GetParent(s, n)]
  }

  /** A node in no sequence is unattached. */
  lemma DetachedIsUnattached(s: seq<Index>, present: set<Node>, ch: Children, loose: set<Node>, n: Node)
    requires Consistent(s, present, ch, loose)
    requires n in present && n !in loose && !AttachedIn(s, ch, n)
    ensures Unattached(s, n)
    ensures forall q | q in ch :: n !in ch[q]
  {
    assert Placed(s, ch, n);
    forall q | q in ch && n in ch[q]
      ensures false
    {
      ChildOfOneParent(s, present, ch, loose, q, n);
    }
  }

  /** First and last child are absent together (invariant 1). */
  lemma EndsAbsentTogether(s: seq<Index>, present: set<Node>, ch: Children, p: Node)
    requires Consistent(s, present, ch, {})
    requires p in present
    ensures GetFirstChild(s, p) == None <==> GetLastChild(s, p) == None
    ensures GetFirstChild(s, p) == None <==> ch[p] == []
  {
    assert EndsLinked(s, ch, p);
    if ch[p] != [] {
      assert ChildLinked(s, present, {}, p, ch[p], 0);
      assert ChildLinked(s, present, {}, p, ch[p], |ch[p]| - 1);
    }
  }

  /** Sibling links are symmetric (invariant 2). */
  lemma SiblingsSymmetric(s: seq<Index>, present: set<Node>, ch: Children, a: Node)
    requires Consistent(s, present, ch, {})
    requires a in present
    ensures GetNextSibling(s, a) != None ==>
              GetNextSibling(s, a) in present && GetPrevSibling(s, GetNextSibling(s, a)) == a
    ensures GetPrevSibling(s, a) != None ==>
              GetPrevSibling(s, a) in present && GetNextSibling(s, GetPrevSibling(s, a)) == a
  {
    if a != Root && AttachedIn(s, ch, a) {
      var p := GetParent(s, a);
      var i := IndexOf(ch[p], a);
      assert ChildLinked(s, present, {}, p, ch[p], i);
      if i + 1 < |ch[p]| {
        assert ChildLinked(s, present, {}, p, ch[p], i + 1);
      }
      if i > 0 {
        assert ChildLinked(s, present, {}, p, ch[p], i - 1);
      }
    } else if a != Root {
      assert Placed(s, ch, a);
    }
  }

  /** The chain ends agree with the parent's first and last child fields
      (invariant 3): an attached node without previous sibling is its
      parent's first child, one without next sibling its parent's last. */
  lemma ChainEndsMatchParent(s: seq<Index>, present: set<Node>, ch: Children, n: Node)
    requires Consistent(s, present, ch, {})
    requires n in present && AttachedIn(s, ch, n)
    ensures GetPrevSibling(s, n) == None <==> GetFirstChild(s, GetParent(s, n)) == n
    ensures GetNextSibling(s, n) == None <==> GetLastChild(s, GetParent(s, n)) == n
  {
    var p := GetParent(s, n);
    var i := IndexOf(ch[p], n);
    assert ChildLinked(s, present, {}, p, ch[p], i);
    assert EndsLinked(s, ch, p);
    assert Distinct(ch[p]);
    if i > 0 {
      assert ChildLinked(s, present, {}, p, ch[p], i - 1);
    }
    if i + 1 < |ch[p]| {
      assert ChildLinked(s, present, {}, p, ch[p], i + 1);
    }
  }

  /** lastChildOf names the append position of p's sequence, and its parent
      is p. */
  lemma LastChildOfAppends(s: seq<Index>, present: set<Node>, ch: Children, p: Node)
    requires Consistent(s, present, ch, {})
    requires p in present
    ensures LastChildOf(s, p) == if ch[p] == [] then FirstChildOf(p) else AfterNode(LastOf(ch[p]))
    ensures LastChildOf(s, p) > 0 ==> HasRecord(s, LastChildOf(s, p))
    ensures ParentOfLocation(s, LastChildOf(s, p)) == p
  {
    assert EndsLinked(s, ch, p);
    if ch[p] != [] {
      assert ChildLinked(s, present, {}, p, ch[p], |ch[p]| - 1);
    }
  }

  /** beforeNode names the position a node occupies in its parent's sequence,
      and its parent is the node's parent. For a node in no sequence it names
      the first child of the root. */
  lemma BeforeNodeIsPosition(s: seq<Index>, present: set<Node>, ch: Children, n: Node)
    requires Consistent(s, present, ch, {})
    requires n in present && n != Root
    ensures AttachedIn(s, ch, n) ==>
              var p := GetParent(s, n);
              var i := IndexOf(ch[p], n);
              BeforeNode(s, n) == if i == 0 then FirstChildOf(p) else AfterNode(ch[p][i - 1])
    ensures !AttachedIn(s, ch, n) ==> BeforeNode(s, n) == FirstChildOf(Root)
    ensures BeforeNode(s, n) > 0 ==> HasRecord(s, BeforeNode(s, n))
    ensures ParentOfLocation(s, BeforeNode(s, n)) == GetParent(s, n)
  {
    if AttachedIn(s, ch, n) {
      var p := GetParent(s, n);
      var i := IndexOf(ch[p], n);
      assert ChildLinked(s, present, {}, p, ch[p], i);
      if i > 0 {
        assert ChildLinked(s, present, {}, p, ch[p], i - 1);
      }
    } else {
      assert Placed(s, ch, n);
    }
  }
}
