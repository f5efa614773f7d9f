/** The receive path's resynchronising framer. Received bytes are appended one at
    a time to an accumulator; when its last four bytes read as the sync magic number
    and it holds at least a header's worth of bytes, the whole accumulator is handed
    to the block sink and cut back to those four bytes, which open the next block.
    An accumulator that outgrows MaxAvPacketSize is discarded. */
module UdpReader {
  import opened Bytes
  import opened EssenceBlock

  /** MAX_AV_PACKET_SIZE: the accumulator's ceiling. */
  const MaxAvPacketSize: nat := 4 * 1024 * 1024

  /** The accumulator and everything handed to the sink so far, oldest first. */
  datatype ReaderState = ReaderState(acc: seq<byte>, dispatched: seq<seq<byte>>)

  /** The last four accumulated bytes are the marker; by SyncMarkerIsMagic these are
      exactly the windows whose host-order (little-endian) word is the magic number. */
  predicate EndsWithSync(acc: seq<byte>)
  {
    |acc| >= 4 && acc[|acc| - 4..] == SyncMarker
  }

  lemma {:induction false} EndsWithSyncIsMagic(acc: seq<byte>)
    requires |acc| >= 4
    ensures EndsWithSync(acc) <==> FromLE(acc[|acc| - 4..]) == SyncMagic
  {
    SyncMarkerIsMagic(acc[|acc| - 4..]);
  }

  /** One iteration of the byte loop: push_back, the sync test, the overflow test. */
  function Step(s: ReaderState, x: byte): ReaderState
  {
    var a := s.acc + [x];
    var t := if EndsWithSync(a) && |a| >= HeaderSize
             then ReaderState(a[|a| - 4..], s.dispatched + [a])
             else ReaderState(a, s.dispatched);
    if |t.acc| > MaxAvPacketSize then t.(acc := []) else t
  }

  /** What one byte does: the accumulator is a suffix of the old one with the byte
      appended; a dispatch happens exactly when the extended accumulator ends in the
      marker and holds a full header, hands over the whole extended accumulator and
      keeps its last four bytes; the accumulator never exceeds the ceiling. */
  lemma {:induction false} StepSpec(s: ReaderState, x: byte)
    ensures var a := s.acc + [x];
            var t := Step(s, x);
            (exists k :: 0 <= k <= |a| && t.acc == a[k..])
            && (if EndsWithSync(a) && |a| >= HeaderSize
                then t.dispatched == s.dispatched + [a] && t.acc == a[|a| - 4..]
                else t.dispatched == s.dispatched)
            && |t.acc| <= MaxAvPacketSize
  {
    var a := s.acc + [x];
    var t := Step(s, x);
    if t.acc == [] {
      assert t.acc == a[|a|..];
    } else if EndsWithSync(a) && |a| >= HeaderSize {
      assert t.acc == a[|a| - 4..];
    } else {
      assert t.acc == a[0..];
    }
  }

  /** The byte loop over a run of received bytes. */
  function Feed(s: ReaderState, bytes: seq<byte>): ReaderState
    decreases |bytes|
  {
    if bytes == [] then s else Feed(Step(s, bytes[0]), bytes[1..])
  }

  function Flatten(ds: seq<seq<byte>>): seq<byte>
  {
    if ds == [] then [] else ds[0] + Flatten(ds[1..])
  }

  /** The reader loop over successive datagrams. */
  function FeedEach(s: ReaderState, datagrams: seq<seq<byte>>): ReaderState
    decreases |datagrams|
  {
    if datagrams == [] then s else FeedEach(Feed(s, datagrams[0]), datagrams[1..])
  }

  lemma {:induction false} FeedOne(s: ReaderState, x: byte)
    ensures Feed(s, [x]) == Step(s, x)
  {
    assert [x][1..] == [];
  }

  /** Feeding a + b is feeding a, then b. */
  lemma {:induction false} FeedAppend(s: ReaderState, a: seq<byte>, b: seq<byte>)
    ensures Feed(s, a + b) == Feed(Feed(s, a), b)
    decreases |a|
  {
    if a != [] {
      assert (a + b)[0] == a[0] && (a + b)[1..] == a[1..] + b;
      FeedAppend(Step(s, a[0]), a[1..], b);
      calc {
        Feed(s, a + b);
        Feed(Step(s, a[0]), a[1..] + b);
        Feed(Feed(Step(s, a[0]), a[1..]), b);
        Feed(Feed(s, a), b);
      }
    } else {
      assert a + b == b;
    }
  }

  /** Datagram boundaries do not matter: the reader's state after a run of datagrams is
      its state after their concatenated bytes. */
  lemma {:induction false} FeedEachIsFeed(s: ReaderState, datagrams: seq<seq<byte>>)
    ensures FeedEach(s, datagrams) == Feed(s, Flatten(datagrams))
    decreases |datagrams|
  {
    if datagrams != [] {
      FeedEachIsFeed(Feed(s, datagrams[0]), datagrams[1..]);
      FeedAppend(s, datagrams[0], Flatten(datagrams[1..]));
    }
  }

  /** Two ways of cutting the same byte stream into datagrams give the same dispatched
      blocks and the same final accumulator. */
  lemma {:induction false} SplitIndependent(s: ReaderState, d1: seq<seq<byte>>, d2: seq<seq<byte>>)
    requires Flatten(d1) == Flatten(d2)
    ensures FeedEach(s, d1) == FeedEach(s, d2)
  {
    FeedEachIsFeed(s, d1);
    FeedEachIsFeed(s, d2);
  }

  /** Whatever was received, the accumulator never exceeds the ceiling after a byte,
      and everything handed to the sink ends in the marker and holds a full header. */
  lemma {:induction false} FeedKeepsBounds(s: ReaderState, bytes: seq<byte>)
    requires |s.acc| <= MaxAvPacketSize
    requires forall i :: 0 <= i < |s.dispatched| ==>
               |s.dispatched[i]| >= HeaderSize && EndsWithSync(s.dispatched[i])
    ensures |Feed(s, bytes).acc| <= MaxAvPacketSize
    ensures |Feed(s, bytes).dispatched| >= |s.dispatched|
    ensures Feed(s, bytes).dispatched[..|s.dispatched|] == s.dispatched
    ensures forall i :: 0 <= i < |Feed(s, bytes).dispatched| ==>
              |Feed(s, bytes).dispatched[i]| >= HeaderSize && EndsWithSync(Feed(s, bytes).dispatched[i])
    decreases |bytes|
  {
    if bytes != [] {
      var t := Step(s, bytes[0]);
      StepSpec(s, bytes[0]);
      FeedKeepsBounds(t, bytes[1..]);
      assert t.dispatched[..|s.dispatched|] == s.dispatched;
      assert  Feed(s, bytes).dispatched[..|t.dispatched|] == t.dispatched;
    }
  }

  // ---------------------------------------------------------------------------
  // Framing recovery: a concatenation of serialized blocks is cut at block boundaries.

  /** The four bytes of d starting at offset k. */
  function Window(d: seq<byte>, k: nat): (w: seq<byte>)
    requires k + 4 <= |d|
    ensures |w| == 4
  {
    d[k..k + 4]
  }

  /** The marker appears in b only at offset 0. */
  predicate NoInnerMarker(b: seq<byte>)
  {
    forall k :: 1 <= k && k + 4 <= |b| ==> Window(b, k) != SyncMarker
  }

  /** A serialized block the reader can recover: it opens with the marker, nowhere else
      contains it, holds a full header, and fits under the ceiling with the next marker. */
  predicate Framable(b: seq<byte>)
  {
    |b| >= HeaderSize && b[..4] == SyncMarker && NoInnerMarker(b)
    && |b| + 4 <= MaxAvPacketSize
  }

  /** Each block with the next block's marker behind it: what the sink receives. */
  function WithMarkers(bs: seq<seq<byte>>): (r: seq<seq<byte>>)
    ensures |r| == |bs|
    ensures forall i :: 0 <= i < |bs| ==> r[i] == bs[i] + SyncMarker
  {
    if bs == [] then [] else [bs[0] + SyncMarker] + WithMarkers(bs[1..])
  }

  /** The stream from the first marker on: each block's bytes after its own marker,
      followed by the marker that opens the next block. */
  function Rest(bs: seq<seq<byte>>): seq<byte>
    requires forall i :: 0 <= i < |bs| ==> Framable(bs[i])
  {
    if bs == [] then [] else assert Framable(bs[0]); bs[0][4..] + SyncMarker + Rest(bs[1..])
  }

  lemma {:induction false} FlattenThenMarker(bs: seq<seq<byte>>)
    requires forall i :: 0 <= i < |bs| ==> Framable(bs[i])
    ensures Flatten(bs) + SyncMarker == SyncMarker + Rest(bs)
  {
    if bs != [] {
      FlattenThenMarker(bs[1..]);
      var b, m := bs[0], SyncMarker;
      var f, r := Flatten(bs[1..]), Rest(bs[1..]);
      assert b == m + b[4..];
      assert Flatten(bs) + m == b + (f + m);
      assert Rest(bs) == b[4..] + m + r;
      assert b + (m + r) == m + (b[4..] + m + r);
    }
  }

  /** Feeding the four marker bytes is four steps. */
  lemma {:induction false} FeedMarker(s: ReaderState)
    ensures Feed(s, SyncMarker) == Step(Step(Step(Step(s, 0x12), 0x34), 0x56), 0x78)
  {
    var m := SyncMarker;
    assert m[0] == 0x12 && m[1..] == [0x34, 0x56, 0x78];
    assert m[1..][0] == 0x34 && m[1..][1..] == [0x56, 0x78];
    assert m[1..][1..][0] == 0x56 && m[1..][1..][1..] == [0x78];
    assert [0x78 as byte][1..] == [];
  }

  /** From the empty accumulator, the first marker is collected without a dispatch. */
  lemma {:induction false} FeedMarkerFromEmpty(out: seq<seq<byte>>)
    ensures Feed(ReaderState([], out), SyncMarker) == ReaderState(SyncMarker, out)
  {
    FeedMarker(ReaderState([], out));
    var s1 := Step(ReaderState([], out), 0x12);
    assert s1 == ReaderState([0x12], out);
    var s2 := Step(s1, 0x34);
    assert s2 == ReaderState([0x12, 0x34], out);
    var s3 := Step(s2, 0x56);
    assert s3 == ReaderState([0x12, 0x34, 0x56], out);
    assert s3.acc + [0x78] == SyncMarker;
  }

  /** Appending one byte that completes no marker window, below the ceiling, only
      accumulates. */
  lemma {:induction false} StepAccumulates(acc: seq<byte>, x: byte, out: seq<seq<byte>>)
    requires |acc| + 1 <= MaxAvPacketSize
    requires !EndsWithSync(acc + [x])
    ensures Step(ReaderState(acc, out), x) == ReaderState(acc + [x], out)
  {
  }

  /** Inside a framable block, after the opening marker, bytes only accumulate. */
  lemma {:induction false} FeedInside(b: seq<byte>, j: nat, out: seq<seq<byte>>)
    requires Framable(b) && 4 <= j <= |b|
    ensures Feed(ReaderState(SyncMarker, out), b[4..j]) == ReaderState(b[..j], out)
    decreases j
  {
    if j > 4 {
      FeedInside(b, j - 1, out);
      assert b[4..j] == b[4..j - 1] + [b[j - 1]];
      FeedAppend(ReaderState(SyncMarker, out), b[4..j - 1], [b[j - 1]]);
      assert Window(b, j - 4) != SyncMarker;
      InsideStep(b, j, out);
    } else {
      assert b[..4] == SyncMarker;
    }
  }

  /** Byte j - 1 of a block, when the window it closes is not the marker, only
      accumulates. */
  lemma {:induction false} InsideStep(b: seq<byte>, j: nat, out: seq<seq<byte>>)
    requires 4 <= j <= |b| && j <= MaxAvPacketSize
    requires b[j - 4..j] != SyncMarker
    ensures Feed(ReaderState(b[..j - 1], out), [b[j - 1]]) == ReaderState(b[..j], out)
  {
    FeedOne(ReaderState(b[..j - 1], out), b[j - 1]);
    var a := b[..j - 1] + [b[j - 1]];
    assert a == b[..j];
    assert a[|a| - 4..] == b[j - 4..j];
    StepAccumulates(b[..j - 1], b[j - 1], out);
  }

  /** The trailing marker completes the block: one dispatch of block + marker. A window
      that straddles the boundary ends in 0x12, 0x34 or 0x56, never in the marker's
      last byte 0x78, so it is not the marker. */
  lemma {:induction false} FeedClosingMarker(b: seq<byte>, out: seq<seq<byte>>)
    requires Framable(b)
    ensures Feed(ReaderState(b, out), SyncMarker) == ReaderState(SyncMarker, out + [b + SyncMarker])
  {
    var a1, a2, a3 := b + [0x12], b + [0x12, 0x34], b + [0x12, 0x34, 0x56];
    var a := b + SyncMarker;
    assert a2 == a1 + [0x34];
    assert a3 == a2 + [0x56];
    assert a == a3 + [0x78];
    FeedMarker(ReaderState(b, out));
    StepAccumulates(b, 0x12, out);
    StepAccumulates(a1, 0x34, out);
    StepAccumulates(a2, 0x56, out);
    StepDispatches(a3, 0x78, out);
  }

  /** Appending a byte that completes the marker, with a full header collected and
      below the ceiling, dispatches the extended accumulator and keeps the marker. */
  lemma {:induction false} StepDispatches(acc: seq<byte>, x: byte, out: seq<seq<byte>>)
    requires |acc| + 1 >= HeaderSize && |acc| + 1 <= MaxAvPacketSize
    requires (acc + [x])[|acc| - 3..] == SyncMarker
    ensures Step(ReaderState(acc, out), x) == ReaderState(SyncMarker, out + [acc + [x]])
  {
  }

  lemma {:induction false} FeedOneBlock(b: seq<byte>, out: seq<seq<byte>>)
    requires Framable(b)
    ensures Feed(ReaderState(SyncMarker, out), b[4..] + SyncMarker)
         == ReaderState(SyncMarker, out + [b + SyncMarker])
  {
    FeedInside(b, |b|, out);
    assert b[..|b|] == b;
    FeedAppend(ReaderState(SyncMarker, out), b[4..], SyncMarker);
    FeedClosingMarker(b, out);
  }

  /** The first block of the rest is dispatched on its own; the remaining blocks follow. */
  lemma {:induction false} FeedRestHead(bs: seq<seq<byte>>, out: seq<seq<byte>>)
    requires bs != [] && Framable(bs[0])
    requires forall i :: 1 <= i < |bs| ==> Framable(bs[i])
    ensures forall i :: 0 <= i < |bs| - 1 ==> Framable(bs[1..][i])
    ensures Feed(ReaderState(SyncMarker, out), Rest(bs))
         == Feed(ReaderState(SyncMarker, out + [bs[0] + SyncMarker]), Rest(bs[1..]))
  {
    assert forall i :: 0 <= i < |bs| - 1 ==> bs[1..][i] == bs[i + 1];
    var b := bs[0];
    var head := b[4..] + SyncMarker;
    assert Rest(bs) == head + Rest(bs[1..]);
    FeedAppend(ReaderState(SyncMarker, out), head, Rest(bs[1..]));
    FeedOneBlock(b, out);
  }

  lemma {:induction false} FeedRest(bs: seq<seq<byte>>, out: seq<seq<byte>>)
    requires forall i :: 0 <= i < |bs| ==> Framable(bs[i])
    ensures Feed(ReaderState(SyncMarker, out), Rest(bs))
         == ReaderState(SyncMarker, out + WithMarkers(bs))
  {
    if bs != [] {
      var out' := out + [bs[0] + SyncMarker];
      FeedRestHead(bs, out);
      FeedRest(bs[1..], out');
      assert WithMarkers(bs) == [bs[0] + SyncMarker] + WithMarkers(bs[1..]);
      assert out' + WithMarkers(bs[1..]) == out + WithMarkers(bs);
    }
  }

  /** Framing recovery. Feeding serialized blocks b1 .. bN, each containing the marker
      only at its start, followed by one more marker, dispatches exactly b1 .. bN in
      order, each with the four marker bytes behind it, and leaves the marker in the
      accumulator. */
  lemma {:induction false} FramingRecovery(bs: seq<seq<byte>>, out: seq<seq<byte>>)
    requires forall i :: 0 <= i < |bs| ==> Framable(bs[i])
    ensures Feed(ReaderState([], out), Flatten(bs) + SyncMarker)
         == ReaderState(SyncMarker, out + WithMarkers(bs))
  {
    FlattenThenMarker(bs);
    FeedAppend(ReaderState([], out), SyncMarker, Rest(bs));
    FeedMarkerFromEmpty(out);
    FeedRest(bs, out);
  }

  /** A serialized block of a header with the magic number opens with the marker. */
  lemma {:induction false} SerializedOpensWithMarker(h: Header, payload: seq<byte>)
    requires h.sync == SyncMagic && h.payloadSize <= |payload|
    ensures Serialize(h, payload)[..4] == SyncMarker
    ensures |Serialize(h, payload)| >= HeaderSize
  {
    SyncOnWire(h);
    assert Serialize(h, payload)[..4] == EncodeHeader(h)[..4];
  }

  // ---------------------------------------------------------------------------
  // Overflow policy.

  /** No 4-byte window of d is the marker. */
  predicate NoMarker(d: seq<byte>)
  {
    forall k :: 0 <= k && k + 4 <= |d| ==> Window(d, k) != SyncMarker
  }

  lemma {:induction false} FeedWithoutMarker(d: seq<byte>, j: nat, out: seq<seq<byte>>)
    requires NoMarker(d) && j <= |d| && j <= MaxAvPacketSize
    ensures Feed(ReaderState([], out), d[..j]) == ReaderState(d[..j], out)
    decreases j
  {
    if j > 0 {
      FeedWithoutMarker(d, j - 1, out);
      assert d[..j] == d[..j - 1] + [d[j - 1]];
      FeedAppend(ReaderState([], out), d[..j - 1], [d[j - 1]]);
      FeedOne(ReaderState(d[..j - 1], out), d[j - 1]);
      if j >= 4 {
        assert d[..j][j - 4..] == d[j - 4..j];
        assert Window(d, j - 4) != SyncMarker;
      }
      StepAccumulates(d[..j - 1], d[j - 1], out);
    }
  }

  /** Bytes without any marker, one more than the ceiling: nothing is dispatched and
      the accumulator ends up empty. */
  lemma {:induction false} OverflowDiscards(d: seq<byte>, out: seq<seq<byte>>)
    requires |d| == MaxAvPacketSize + 1 && NoMarker(d)
    ensures Feed(ReaderState([], out), d) == ReaderState([], out)
  {
    var j := MaxAvPacketSize;
    FeedWithoutMarker(d, j, out);
    assert d == d[..j] + [d[j]];
    FeedAppend(ReaderState([], out), d[..j], [d[j]]);
    FeedOne(ReaderState(d[..j], out), d[j]);
    assert Window(d, |d| - 4) != SyncMarker;
    assert d[|d| - 4..] == Window(d, |d| - 4);
  }

  // ---------------------------------------------------------------------------

  class UdpReader {
    /** accumulatedData_ */
    var accumulatedData: seq<byte>
    /** The abstract block sink: every accumulator handed to processData, oldest first. */
    var dispatched: seq<seq<byte>>

    constructor ()
      ensures accumulatedData == [] && dispatched == []
    {
      accumulatedData := [];
      dispatched := [];
    }

    function State(): ReaderState
      reads this
    {
      ReaderState(accumulatedData, dispatched)
    }

    /** One pass of the byte loop: push_back, then the sync test on the host-order word
        of the last four bytes, then the overflow test. */
    method Receive(x: byte)
      modifies this
      ensures State() == Step(old(State()), x)
    {
      accumulatedData := accumulatedData + [x];
      if |accumulatedData| >= 4 {
        EndsWithSyncIsMagic(accumulatedData);
        var lastWord := FromLE(accumulatedData[|accumulatedData| - 4..]);
        if lastWord == SyncMagic {
          if |accumulatedData| >= HeaderSize {
            dispatched := dispatched + [accumulatedData];
            accumulatedData := accumulatedData[|accumulatedData| - 4..];
          }
        }
      }
      if |accumulatedData| > MaxAvPacketSize {
        accumulatedData := [];
      }
    }

    /** readerLoop over the bytes recv returned, one datagram after the other. */
    method ReaderLoop(datagrams: seq<seq<byte>>)
      modifies this
      ensures State() == FeedEach(old(State()), datagrams)
      ensures State() == Feed(old(State()), Flatten(datagrams))
    {
      ghost var start := State();
      for d := 0 to |datagrams|
        invariant State() == FeedEach(start, datagrams[..d])
      {
        var buffer := datagrams[d];
        ghost var before := State();
        var i := 0;
        while i < |buffer|
          invariant 0 <= i <= |buffer|
          invariant Feed(before, buffer) == Feed(State(), buffer[i..])
        {
          assert buffer[i..][1..] == buffer[i + 1..];
          Receive(buffer[i]);
          i := i + 1;
        }
        assert buffer[i..] == [];
        FeedEachSnoc(start, datagrams[..d], buffer);
        assert datagrams[..d + 1] == datagrams[..d] + [buffer];
      }
      assert datagrams[..|datagrams|] == datagrams;
      FeedEachIsFeed(start, datagrams);
    }
  }

  lemma {:induction false} FeedEachSnoc(s: ReaderState, ds: seq<seq<byte>>, d: seq<byte>)
    ensures FeedEach(s, ds + [d]) == Feed(FeedEach(s, ds), d)
    decreases |ds|
  {
    if ds == [] {
      assert [d][1..] == [];
    } else {
      assert (ds + [d])[1..] == ds[1..] + [d];
      FeedEachSnoc(Feed(s, ds[0]), ds[1..], d);
    }
  }
}
