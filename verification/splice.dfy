/** Positional edits on sequences: the abstract counterpart of splicing a
    node into, or out of, a doubly-linked sibling chain. */
module Splice {

  function RemoveAt<T>(s: seq<T>, i: nat): (r: seq<T>)
    requires i < |s|
    ensures |r| == |s| - 1
    ensures forall j | 0 <= j < i :: r[j] == s[j]
    ensures forall j | i <= j < |r| :: r[j] == s[j + 1]
  {
    s[..i] + s[i + 1..]
  }

  function InsertAt<T>(s: seq<T>, i: nat, x: T): (r: seq<T>)
    requires i <= |s|
    ensures |r| == |s| + 1
    ensures r[i] == x
    ensures forall j | 0 <= j < i :: r[j] == s[j]
    ensures forall j | i < j < |r| :: r[j] == s[j - 1]
  {
    s[..i] + [x] + s[i..]
  }

  /** The position of the first occurrence of `x`. */
  function IndexOf<T(==)>(s: seq<T>, x: T): (i: nat)
    requires x in s
    ensures i < |s| && s[i] == x
    ensures forall j | 0 <= j < i :: s[j] != x
  {
    if s[0] == x then 0 else 1 + IndexOf(s[1..], x)
  }

  /** No element occurs twice. */
  predicate Distinct<T(==)>(s: seq<T>)
  {
    forall i, j | 0 <= i < j < |s| :: s[i] != s[j]
  }

  /** In a sequence without repetitions, an element's position is unique. */
  lemma DistinctIndex<T>(s: seq<T>, i: nat)
    requires Distinct(s) && i < |s|
    ensures IndexOf(s, s[i]) == i
  {
  }

  /** Putting an element back where it was taken from restores the sequence. */
  lemma InsertRemoved<T>(s: seq<T>, i: nat)
    requires i < |s|
    ensures InsertAt(RemoveAt(s, i), i, s[i]) == s
  {
  }

  /** Taking out an element just inserted restores the sequence. */
  lemma RemoveInserted<T>(s: seq<T>, i: nat, x: T)
    requires i <= |s|
    ensures RemoveAt(InsertAt(s, i, x), i) == s
  {
  }

  /** Removing past a leading element keeps that element in front. */
  lemma RemoveAfterHead<T>(h: T, t: seq<T>, k: nat)
    requires k < |t|
    ensures RemoveAt([h] + t, k + 1) == [h] + RemoveAt(t, k)
  {
    assert ([h] + t)[..k + 1] == [h] + t[..k];
    assert ([h] + t)[k + 2..] == t[k + 1..];
  }

  /** Appending an element moves neither the first occurrence of an
      element already present nor what removing it leaves in front. */
  lemma AppendKeepsFirst<T>(s: seq<T>, x: T, y: T)
    requires x in s
    ensures x in s + [y] && IndexOf(s + [y], x) == IndexOf(s, x)
    ensures RemoveAt(s + [y], IndexOf(s, x)) == RemoveAt(s, IndexOf(s, x)) + [y]
  {
    var i := IndexOf(s, x);
    var j := IndexOf(s + [y], x);
    assert (s + [y])[i] == x;
    assert j <= i;
    assert (s + [y])[..i] == s[..i];
    assert (s + [y])[i + 1..] == s[i + 1..] + [y];
  }

  /** Inserting at the end appends. */
  lemma InsertAtEnd<T>(s: seq<T>, x: T)
    ensures InsertAt(s, |s|, x) == s + [x]
  {
    assert s[..|s|] == s;
  }

  /** In a sequence without repetitions, the element before position i is
      still found just before the gap once s[i] is taken out, so inserting
      s[i] after it puts s[i] back. */
  lemma ReinsertAfterPrevious<T>(s: seq<T>, i: nat)
    requires Distinct(s) && 0 < i < |s|
    ensures s[i - 1] in RemoveAt(s, i)
    ensures IndexOf(RemoveAt(s, i), s[i - 1]) == i - 1
    ensures InsertAt(RemoveAt(s, i), IndexOf(RemoveAt(s, i), s[i - 1]) + 1, s[i]) == s
  {
    var r := RemoveAt(s, i);
    assert r[i - 1] == s[i - 1];
    RemoveKeepsDistinct(s, i);
    DistinctIndex(r, i - 1);
    InsertRemoved(s, i);
  }

  lemma RemoveKeepsDistinct<T>(s: seq<T>, i: nat)
    requires Distinct(s) && i < |s|
    ensures Distinct(RemoveAt(s, i))
    ensures s[i] !in RemoveAt(s, i)
    ensures forall y | y in s && y != s[i] :: y in RemoveAt(s, i)
  {
    var r := RemoveAt(s, i);
    forall y | y in s && y != s[i]
      ensures y in r
    {
      var k :| 0 <= k < |s| && s[k] == y;
      if k < i {
        assert r[k] == y;
      } else {
        assert r[k - 1] == y;
      }
    }
  }

  lemma InsertKeepsMembers<T>(s: seq<T>, i: nat, x: T)
    requires i <= |s|
    ensures x in InsertAt(s, i, x)
    ensures forall y | y in s :: y in InsertAt(s, i, x)
  {
    var r := InsertAt(s, i, x);
    forall y | y in s
      ensures y in r
    {
      var k :| 0 <= k < |s| && s[k] == y;
      if k < i {
        assert r[k] == y;
      } else {
        assert r[k + 1] == y;
      }
    }
  }

  lemma InsertKeepsDistinct<T>(s: seq<T>, i: nat, x: T)
    requires Distinct(s) && i <= |s| && x !in s
    ensures Distinct(InsertAt(s, i, x))
  {
    var r := InsertAt(s, i, x);
    forall a, b | 0 <= a < b < |r|
      ensures r[a] != r[b]
    {
      if a != i && b != i {
        var a' := if a < i then a else a - 1;
        var b' := if b < i then b else b - 1;
        assert r[a] == s[a'] && r[b] == s[b'];
      } else if a == i {
        assert r[b] == s[b - 1];
      } else {
        assert r[a] == s[a];
      }
    }
  }
}
