/** The flat shape store of a tree: every node handle owns five consecutive
    slots of one integer array, holding the record indices (handle * 5) of its
    parent, first child, next sibling, last child and previous sibling.
 */
module ShapeStore {

  /** A node handle: a small non-negative integer issued by the handle table. */
  type Node = nat

  /** Offsets of the five structural fields inside a node's record. */
  const ParentOffset: nat := 0
  const FirstChildOffset: nat := 1
  const NextSiblingOffset: nat := 2
  const LastChildOffset: nat := 3
  const PrevSiblingOffset: nat := 4
  const FieldCount: nat := 5

  type Offset = o: nat | o < FieldCount

  /** The position of a node's record in the store. The store holds indices,
      not handles, in every slot; a record index is Aligned. */
  type Index = nat

  /** Record indices are multiples of the record size. */
  predicate Aligned(i: int)
  {
    i % FieldCount == 0
  }

  /** The absent handle and the implicit root: both are handle 0, so they
      coincide (a detached node's parent field reads as the root). */
  const None: Node := 0
  const Root: Node := 0
  const NoneIndex: Index := 0

  /** The record index of a handle (aligned: see RecordAligned). */
  function ToIndex(n: Node): (i: Index)
  {
    n * FieldCount
  }

  /** The handle of a record index; exact on aligned indices (see
      IndexRoundTrip). */
  function ToNode(i: Index): (n: Node)
  {
    i / FieldCount
  }

  /** True when the store is long enough to hold the record of `n`. */
  predicate HasRecord(s: seq<Index>, n: Node)
  {
    ToIndex(n) + FieldCount <= |s|
  }

  /** True when the root's record exists and every slot holds the index of
      a record that exists: every read of a stored index then stays inside
      the array. */
  predicate Closed(s: seq<Index>)
  {
    && FieldCount <= |s|
    && forall k | 0 <= k < |s| :: Aligned(s[k]) && s[k] + FieldCount <= |s|
  }

  // Raw slot access on record indices. In a closed store a read names an
  // existing record (SlotReadsClosed); a write stores its value in one slot
  // and no other (WriteOneField).

  function GetParentIndex(s: seq<Index>, node: Index): (r: Index)
    requires node + FieldCount <= |s|
  {
    s[node + ParentOffset]
  }

  function GetFirstChildIndex(s: seq<Index>, node: Index): (r: Index)
    requires node + FieldCount <= |s|
  {
    s[node + FirstChildOffset]
  }

  function GetLastChildIndex(s: seq<Index>, node: Index): (r: Index)
    requires node + FieldCount <= |s|
  {
    s[node + LastChildOffset]
  }

  function GetNextSiblingIndex(s: seq<Index>, node: Index): (r: Index)
    requires node + FieldCount <= |s|
  {
    s[node + NextSiblingOffset]
  }

  function GetPrevSiblingIndex(s: seq<Index>, node: Index): (r: Index)
    requires node + FieldCount <= |s|
  {
    s[node + PrevSiblingOffset]
  }

  function SetParentIndex(s: seq<Index>, node: Index, parent: Index): (r: seq<Index>)
    requires node + FieldCount <= |s|
    ensures |r| == |s| && GetParentIndex(r, node) == parent
  {
    s[node + ParentOffset := parent]
  }

  function SetFirstChildIndex(s: seq<Index>, parent: Index, child: Index): (r: seq<Index>)
    requires parent + FieldCount <= |s|
    ensures |r| == |s| && GetFirstChildIndex(r, parent) == child
  {
    s[parent + FirstChildOffset := child]
  }

  function SetLastChildIndex(s: seq<Index>, parent: Index, child: Index): (r: seq<Index>)
    requires parent + FieldCount <= |s|
    ensures |r| == |s| && GetLastChildIndex(r, parent) == child
  {
    s[parent + LastChildOffset := child]
  }

  function SetNextSiblingIndex(s: seq<Index>, node: Index, sibling: Index): (r: seq<Index>)
    requires node + FieldCount <= |s|
    ensures |r| == |s| && GetNextSiblingIndex(r, node) == sibling
  {
    s[node + NextSiblingOffset := sibling]
  }

  function SetPrevSiblingIndex(s: seq<Index>, node: Index, sibling: Index): (r: seq<Index>)
    requires node + FieldCount <= |s|
    ensures |r| == |s| && GetPrevSiblingIndex(r, node) == sibling
  {
    s[node + PrevSiblingOffset := sibling]
  }

  /** Field `o` of node `n`, read back as a handle. */
  function Field(s: seq<Index>, n: Node, o: Offset): Node
    requires HasRecord(s, n)
  {
    ToNode(s[ToIndex(n) + o])
  }

  // The public read surface: each getter reads one slot of the record and
  // converts the stored index back to a handle, exactly (ReadsNameRecords).

  function GetParent(s: seq<Index>, n: Node): (r: Node)
    requires HasRecord(s, n)
  {
    ToNode(GetParentIndex(s, ToIndex(n)))
  }

  function GetFirstChild(s: seq<Index>, n: Node): (r: Node)
    requires HasRecord(s, n)
  {
    ToNode(GetFirstChildIndex(s, ToIndex(n)))
  }

  function GetLastChild(s: seq<Index>, n: Node): (r: Node)
    requires HasRecord(s, n)
  {
    ToNode(GetLastChildIndex(s, ToIndex(n)))
  }

  function GetNextSibling(s: seq<Index>, n: Node): (r: Node)
    requires HasRecord(s, n)
  {
    ToNode(GetNextSiblingIndex(s, ToIndex(n)))
  }

  function GetPrevSibling(s: seq<Index>, n: Node): (r: Node)
    requires HasRecord(s, n)
  {
    ToNode(GetPrevSiblingIndex(s, ToIndex(n)))
  }

  /** In a closed store every raw read yields the aligned index of a record
      that exists. */
  lemma SlotReadsClosed(s: seq<Index>, node: Index)
    requires Closed(s) && node + FieldCount <= |s|
    ensures Aligned(GetParentIndex(s, node)) && GetParentIndex(s, node) + FieldCount <= |s|
    ensures Aligned(GetFirstChildIndex(s, node)) && GetFirstChildIndex(s, node) + FieldCount <= |s|
    ensures Aligned(GetNextSiblingIndex(s, node)) && GetNextSiblingIndex(s, node) + FieldCount <= |s|
    ensures Aligned(GetLastChildIndex(s, node)) && GetLastChildIndex(s, node) + FieldCount <= |s|
    ensures Aligned(GetPrevSiblingIndex(s, node)) && GetPrevSiblingIndex(s, node) + FieldCount <= |s|
  {
  }

  /** In a closed store each getter names a node whose record exists, and
      converting that handle back gives exactly the index stored. */
  lemma ReadsNameRecords(s: seq<Index>, n: Node)
    requires Closed(s) && HasRecord(s, n)
    ensures HasRecord(s, GetParent(s, n)) && ToIndex(GetParent(s, n)) == GetParentIndex(s, ToIndex(n))
    ensures HasRecord(s, GetFirstChild(s, n)) && ToIndex(GetFirstChild(s, n)) == GetFirstChildIndex(s, ToIndex(n))
    ensures HasRecord(s, GetNextSibling(s, n)) && ToIndex(GetNextSibling(s, n)) == GetNextSiblingIndex(s, ToIndex(n))
    ensures HasRecord(s, GetLastChild(s, n)) && ToIndex(GetLastChild(s, n)) == GetLastChildIndex(s, ToIndex(n))
    ensures HasRecord(s, GetPrevSibling(s, n)) && ToIndex(GetPrevSibling(s, n)) == GetPrevSiblingIndex(s, ToIndex(n))
  {
    var i := ToIndex(n);
    SlotReadsClosed(s, i);
    IndexRoundTrip(n, GetParentIndex(s, i));
    IndexRoundTrip(n, GetFirstChildIndex(s, i));
    IndexRoundTrip(n, GetNextSiblingIndex(s, i));
    IndexRoundTrip(n, GetLastChildIndex(s, i));
    IndexRoundTrip(n, GetPrevSiblingIndex(s, i));
  }

  lemma RecordAligned(n: Node)
    ensures Aligned(ToIndex(n))
  {
  }

  /** Handles and record indices are in one-to-one correspondence. */
  lemma IndexRoundTrip(n: Node, i: Index)
    requires Aligned(i)
    ensures ToNode(ToIndex(n)) == n
    ensures ToIndex(ToNode(i)) == i
    ensures ToIndex(n) == i <==> n == ToNode(i)
  {
  }

  /** Distinct (node, offset) pairs address distinct slots. */
  lemma SlotsDisjoint(n: Node, o: Offset, m: Node, p: Offset)
    requires ToIndex(n) + o == ToIndex(m) + p
    ensures n == m && o == p
  {
  }

  /** Two records either coincide or do not overlap. */
  lemma RecordsApart(a: Index, b: Index)
    requires Aligned(a) && Aligned(b)
    ensures a == b || a + FieldCount <= b || b + FieldCount <= a
  {
  }

  /** Slots at different offsets of two records are different slots. */
  lemma OtherSlot(a: Index, o: Offset, b: Index, p: Offset)
    requires Aligned(a) && Aligned(b) && o != p
    ensures a + o != b + p
  {
    RecordsApart(a, b);
  }

  /** Writing the index of an existing record into a slot keeps the store
      closed. */
  lemma WriteKeepsClosed(s: seq<Index>, k: int, v: Index)
    requires Closed(s) && 0 <= k < |s| && Aligned(v) && v + FieldCount <= |s|
    ensures Closed(s[k := v])
  {
  }

  /** Writing one field of one node changes no other field of any node, and
      the written field reads back as the handle written. */
  lemma WriteOneField(s: seq<Index>, n: Node, o: Offset, v: Node, m: Node, p: Offset)
    requires HasRecord(s, n) && HasRecord(s, m)
    ensures HasRecord(s[ToIndex(n) + o := ToIndex(v)], m)
    ensures Field(s[ToIndex(n) + o := ToIndex(v)], m, p)
         == if n == m && o == p then v else Field(s, m, p)
  {
    if ToIndex(n) + o == ToIndex(m) + p {
      SlotsDisjoint(n, o, m, p);
    }
  }
}
