/** The transfer queue between producers and the muxer, modelled sequentially:
    the lock and condition variable are gone, and pop requires an element to be
    present instead of waiting for one. */
module TransferQueue {
  import opened Wrappers

  class Queue<T> {
    var items: seq<T>

    constructor ()
      ensures items == []
    {
      items := [];
    }

    /** push appends at the back; nothing already queued changes. */
    method Push(value: T)
      modifies this`items
      ensures items == old(items) + [value]
    {
      items := items + [value];
    }

    /** pop hands out the front element and removes exactly it. */
    method Pop() returns (value: T)
      requires items != []
      modifies this`items
      ensures value == old(items)[0]
      ensures items == old(items)[1..]
    {
      value := items[0];
      items := items[1..];
    }

    /** empty reports whether nothing is queued, and changes nothing. */
    method Empty() returns (e: bool)
      ensures e <==> items == []
    {
      e := |items| == 0;
    }
  }

  /** A sequence of queue operations, as the producers and the muxer issue them. */
  datatype Op<T> = PushOp(value: T) | PopOp

  datatype Outcome<T> = Outcome(queue: seq<T>, popped: seq<T>)

  /** The effect of running ops on queue contents q, one operation at a time exactly
      as Push and Pop specify it; None when a pop would find the queue empty. */
  function Run<T>(q: seq<T>, ops: seq<Op<T>>): Option<Outcome<T>>
    decreases |ops|
  {
    if ops == [] then Some(Outcome(q, []))
    else match ops[0]
      case PushOp(v) => Run(q + [v], ops[1..])
      case PopOp =>
        if q == [] then None
        else match Run(q[1..], ops[1..])
          case None => None
          case Some(o) => Some(Outcome(o.queue, [q[0]] + o.popped))
  }

  /** The values pushed by ops, in order. */
  function Pushed<T>(ops: seq<Op<T>>): (r: seq<T>)
    ensures |r| <= |ops|
  {
    if ops == [] then []
    else match ops[0]
      case PushOp(v) => [v] + Pushed(ops[1..])
      case PopOp => Pushed(ops[1..])
  }

  /** FIFO: whatever was popped, followed by what is still queued, is exactly what was
      queued at the start followed by everything pushed, in push order. */
  lemma {:induction false} RunIsFifo<T>(q: seq<T>, ops: seq<Op<T>>)
    requires Run(q, ops).Some?
    ensures Run(q, ops).value.popped + Run(q, ops).value.queue == q + Pushed(ops)
    decreases |ops|
  {
    if ops != [] {
      match ops[0]
      case PushOp(v) =>
        RunIsFifo(q + [v], ops[1..]);
      case PopOp =>
        assert q != [];
        RunIsFifo(q[1..], ops[1..]);
        var o := Run(q[1..], ops[1..]).value;
        assert Run(q, ops) == Some(Outcome(o.queue, [q[0]] + o.popped));
        assert Pushed(ops) == Pushed(ops[1..]);
        assert q == [q[0]] + q[1..];
        assert [q[0]] + o.popped + o.queue == [q[0]] + (o.popped + o.queue);
    }
  }

  /** Pushing n values and then popping n times returns them in push order. */
  lemma {:induction false} PushesThenPops<T>(vs: seq<T>)
    ensures Run([], PushAll(vs) + Pops(|vs|)) == Some(Outcome([], vs))
  {
    PushThenPopFrom([], vs, |vs|);
    assert [] + vs == vs;
  }

  lemma {:induction false} PushThenPopFrom<T>(q: seq<T>, vs: seq<T>, n: nat)
    requires n == |q| + |vs|
    ensures Run(q, PushAll(vs) + Pops(n)) == Some(Outcome([], q + vs))
    decreases |vs|, n
  {
    if vs != [] {
      assert PushAll(vs) + Pops(n) == [PushOp(vs[0])] + (PushAll(vs[1..]) + Pops(n));
      PushThenPopFrom(q + [vs[0]], vs[1..], n);
      assert q + [vs[0]] + vs[1..] == q + vs;
    } else {
      assert PushAll(vs) + Pops(n) == Pops(n);
      PopsDrain(q);
      assert q + vs == q;
    }
  }

  lemma {:induction false} PopsDrain<T>(q: seq<T>)
    ensures Run(q, Pops(|q|)) == Some(Outcome([], q))
    decreases |q|
  {
    if q != [] {
      assert Pops<T>(|q|)[1..] == Pops<T>(|q[1..]|);
      PopsDrain(q[1..]);
      assert [q[0]] + q[1..] == q;
    }
  }

  function PushAll<T>(vs: seq<T>): (r: seq<Op<T>>)
    ensures |r| == |vs|
  {
    if vs == [] then [] else [PushOp(vs[0])] + PushAll(vs[1..])
  }

  function Pops<T>(n: nat): (r: seq<Op<T>>)
    ensures |r| == n && forall i :: 0 <= i < n ==> r[i] == PopOp
  {
    if n == 0 then [] else [PopOp] + Pops(n - 1)
  }
}
