/** The consumer list of a tree and the notifications a structural edit
    sends to it. Consumers are kept in registration order; a consumer is
    known only by its identity. */
module Observers {
  import opened ShapeStore
  import opened Splice
  import opened Locations

  /** The identity of a registered consumer. */
  type Consumer = nat

  /** One `nodeMoved` call: the consumer called, the node that moved, the
      location it occupied before the edit, and the store the consumer can
      read through the view it is handed. */
  datatype Notification = Notification(consumer: Consumer, node: Node, oldLocation: Location, view: seq<Index>)

  /** Registers a consumer after all those already registered. */
  function Push(cs: seq<Consumer>, c: Consumer): (r: seq<Consumer>)
    ensures |r| == |cs| + 1 && r[|cs|] == c
    ensures forall i | 0 <= i < |cs| :: r[i] == cs[i]
  {
    cs + [c]
  }

  /** Drops the first registration of `c`, if there is one. */
  function RemoveFirst(cs: seq<Consumer>, c: Consumer): (r: seq<Consumer>)
    ensures c !in cs ==> r == cs
    ensures c in cs ==> |r| == |cs| - 1
  {
    if cs == [] then []
    else if cs[0] == c then cs[1..]
    else [cs[0]] + RemoveFirst(cs[1..], c)
  }

  /** The registration dropped is the first one: the others keep their
      order. */
  lemma {:induction false} RemoveFirstIsFirst(cs: seq<Consumer>, c: Consumer)
    ensures c in cs ==> RemoveFirst(cs, c) == RemoveAt(cs, IndexOf(cs, c))
  {
    if c in cs {
      var t := cs[1..];
      if cs[0] == c {
        assert RemoveAt(cs, 0) == t;
      } else {
        RemoveFirstIsFirst(t, c);
        assert cs == [cs[0]] + t;
        assert IndexOf(cs, c) == IndexOf(t, c) + 1;
        RemoveAfterHead(cs[0], t, IndexOf(t, c));
      }
    }
  }

  /** One notification per registered consumer, in registration order, all
      about the same edit. */
  function Broadcast(cs: seq<Consumer>, node: Node, oldLocation: Location, view: seq<Index>): (r: seq<Notification>)
    ensures |r| == |cs|
    ensures forall i | 0 <= i < |cs| :: r[i] == Notification(cs[i], node, oldLocation, view)
  {
    if cs == [] then []
    else [Notification(cs[0], node, oldLocation, view)] + Broadcast(cs[1..], node, oldLocation, view)
  }

  /** Closing a consumer that was just opened, and was not registered
      before, restores the consumer list. */
  lemma PushThenRemove(cs: seq<Consumer>, c: Consumer)
    requires c !in cs
    ensures RemoveFirst(Push(cs, c), c) == cs
  {
    var r := Push(cs, c);
    RemoveFirstIsFirst(r, c);
    assert IndexOf(r, c) == |cs|;
  }

  /** Closing a consumer registered again leaves its later registration in
      place. */
  lemma RemoveFirstKeepsLater(cs: seq<Consumer>, c: Consumer)
    requires c in cs
    ensures c in RemoveFirst(Push(cs, c), c)
    ensures RemoveFirst(Push(cs, c), c) == Push(RemoveFirst(cs, c), c)
  {
    RemoveFirstIsFirst(cs, c);
    RemoveFirstIsFirst(cs + [c], c);
    AppendKeepsFirst(cs, c, c);
    assert Push(cs, c) == cs + [c];
  }
}
