/** Locations: one signed integer naming an insertion point. A positive value
    X means "immediately after node X"; a non-positive value -P means "as the
    first child of P". */
module Locations {
  import opened ShapeStore

  type Location = int

  /** The two insertion points a location can name, as an explicit variant. */
  datatype Position = After(node: Node) | FirstChild(parent: Node)

  /** The location just after `n`. After the absent node it is the root's
      first-child location, since None and Root are both 0. */
  function AfterNode(n: Node): (loc: Location)
    ensures n != None ==> Decode(loc) == After(n)
    ensures n == None ==> Decode(loc) == FirstChild(Root)
  {
    n
  }

  /** The location in front of the children of `p`. */
  function FirstChildOf(p: Node): (loc: Location)
    ensures Decode(loc) == FirstChild(p)
  {
    -(p as int)
  }

  /** Appending position: after the current last child, or first child of a
      childless parent. In a closed store an "after" location names a node
      whose record exists. */
  function LastChildOf(s: seq<Index>, p: Node): (loc: Location)
    requires HasRecord(s, p)
    ensures Closed(s) && loc > 0 ==> HasRecord(s, loc)
    ensures loc > 0 <==> GetLastChild(s, p) != None
    ensures loc <= 0 ==> Decode(loc) == FirstChild(p)
    ensures loc > 0 ==> Decode(loc) == After(GetLastChild(s, p))
  {
    var oldLast := GetLastChild(s, p);
    if oldLast == None then FirstChildOf(p) else AfterNode(oldLast)
  }

  /** The position a node currently occupies: after its previous sibling, or
      first child of its parent when it has none. In a closed store an
      "after" location names a node whose record exists. */
  function BeforeNode(s: seq<Index>, n: Node): (loc: Location)
    requires HasRecord(s, n)
    ensures Closed(s) && loc > 0 ==> HasRecord(s, loc)
    ensures loc > 0 <==> GetPrevSibling(s, n) != None
    ensures loc <= 0 ==> Decode(loc) == FirstChild(GetParent(s, n))
    ensures loc > 0 ==> Decode(loc) == After(GetPrevSibling(s, n))
  {
    var prev := GetPrevSibling(s, n);
    if prev == None then FirstChildOf(GetParent(s, n)) else AfterNode(prev)
  }

  /** The parent a location inserts under: the given parent of a first-child
      location, the current parent of the node an "after" location names. */
  function ParentOfLocation(s: seq<Index>, loc: Location): (p: Node)
    requires loc > 0 ==> HasRecord(s, loc)
    ensures Decode(loc).FirstChild? ==> p == Decode(loc).parent
    ensures Decode(loc).After? ==> p == GetParent(s, Decode(loc).node)
    ensures Closed(s) && loc > 0 ==> HasRecord(s, p)
  {
    if loc > 0 then GetParent(s, loc) else -loc
  }

  /** Reads a location as the position it names. */
  function Decode(loc: Location): (p: Position)
    ensures p.After? <==> loc > 0
    ensures p.After? ==> p.node > 0
  {
    if loc > 0 then After(loc) else FirstChild(-loc)
  }

  /** Writes a position as a location. */
  function Encode(p: Position): Location
  {
    match p
    case After(n) => AfterNode(n)
    case FirstChild(q) => FirstChildOf(q)
  }

  /** Every location is the encoding of the position it reads as. */
  lemma DecodeRoundTrip(loc: Location)
    ensures Encode(Decode(loc)) == loc
  {
  }

  /** Every position except "after the absent node" survives encoding. */
  lemma EncodeRoundTrip(p: Position)
    requires p.After? ==> p.node != None
    ensures Decode(Encode(p)) == p
  {
  }

  /** Because the absent handle and the root are both 0, "after none" and
      "first child of the root" are one and the same location. */
  lemma AfterNoneIsFirstChildOfRoot()
    ensures AfterNode(None) == FirstChildOf(Root)
    ensures Decode(AfterNode(None)) == FirstChild(Root)
  {
  }

  /** The parent a location names is the parent given to firstChildOf (the
      root included) or the current parent of the node given to afterNode. */
  lemma ParentOfLocationRoundTrip(s: seq<Index>, p: Node, x: Node)
    requires x > 0 && HasRecord(s, x)
    ensures ParentOfLocation(s, FirstChildOf(p)) == p
    ensures ParentOfLocation(s, AfterNode(x)) == GetParent(s, x)
  {
  }
}
