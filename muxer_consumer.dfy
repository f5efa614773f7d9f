/** The sender's muxer loop, one iteration at a time. Each iteration either sends the
    next queued block, or, with the queue empty, tops the output up with filler
    blocks once per bitrate window and re-emits the cached announcement of every
    program once per announcement period. A step reads the steady clock once. */
module MuxerConsumer {
  import opened Bytes
  import opened EssenceBlock
  import opened TransferQueue
  import opened MuxerTimestamp
  import opened MapOrder

  /** MuxerParams defaults. */
  const Bitrate: nat := 8000000
  const CheckBitratePeriodMs: nat := 100
  const WriteEAPeriodMs: nat := 50

  /** NULL_PAYLOAD_SIZE */
  const NullPayloadSize: nat := 1024 * 2

  /** The abstract output of the muxer, in the shape of WriterBase::write: every call is
      recorded, and the transport either takes a whole packet or reports 0. */
  class Writer {
    var log: seq<seq<byte>>
    var healthy: bool

    constructor (healthy: bool)
      ensures log == [] && this.healthy == healthy
    {
      log := [];
      this.healthy := healthy;
    }

    method Write(data: seq<byte>) returns (n: int)
      modifies this`log
      ensures log == old(log) + [data] && healthy == old(healthy)
      ensures n == if healthy then |data| else 0
    {
      log := log + [data];
      n := if healthy then |data| else 0;
    }
  }

  /** The filler block's header with a given timestamp. */
  function NullHeader(ts: uint64): (h: Header)
    ensures h.timestamp == ts
  {
    Header(SyncMagic, HeaderSize, TypeNull, 0xff, 0xff, 0xff, ts, NullPayloadSize)
  }

  function Zeros(n: nat): (r: seq<byte>)
    ensures |r| == n && forall i :: 0 <= i < n ==> r[i] == 0
  {
    if n == 0 then [] else Zeros(n - 1) + [0]
  }

  /** Every filler write is 2072 bytes and parses as a NULL block with program, stream
      type and stream index 0xff, 2048 zero payload bytes and the write's timestamp. */
  lemma {:induction false} NullWire(ts: uint64)
    ensures var w := Serialize(NullHeader(ts), Zeros(NullPayloadSize));
            |w| == 2072
            && DecodeHeader(w) == Header(SyncMagic, 24, TypeNull, 0xff, 0xff, 0xff, ts, 2048)
            && w[..4] == SyncMarker
            && w[HeaderSize..] == Zeros(2048)
  {
    var h := NullHeader(ts);
    SerializeParses(h, Zeros(NullPayloadSize));
    SyncOnWire(h);
    assert Serialize(h, Zeros(NullPayloadSize))[..4] == EncodeHeader(h)[..4];
  }

  /** The wire bytes with the 8 timestamp bytes (offsets 12..20) replaced. */
  function Restamp(w: seq<byte>, ts: uint64): (r: seq<byte>)
    requires |w| >= HeaderSize
    ensures |r| == |w|
  {
    Pow256Widths();
    w[..12] + LE(ts, 8) + w[20..]
  }

  /** Restamping changes the decoded timestamp and nothing else. */
  lemma {:induction false} RestampOnlyTimestamp(w: seq<byte>, ts: uint64)
    requires |w| >= HeaderSize
    ensures |Restamp(w, ts)| == |w|
    ensures DecodeHeader(Restamp(w, ts)) == DecodeHeader(w).(timestamp := ts)
    ensures Restamp(w, ts)[..12] == w[..12] && Restamp(w, ts)[20..] == w[20..]
  {
    Pow256Widths();
    var r := Restamp(w, ts);
    assert r[12..20] == LE(ts, 8);
    FromLEOfLE(ts, 8);
    assert r[0..4] == w[0..4] && r[4..8] == w[4..8] && r[20..24] == w[20..24];
  }

  /** Overwriting a block's timestamp field is restamping its wire form. */
  lemma {:induction false} StampOnWire(h: Header, payload: seq<byte>, ts: uint64)
    requires h.payloadSize <= |payload|
    ensures Serialize(h.(timestamp := ts), payload) == Restamp(Serialize(h, payload), ts)
  {
    Pow256Widths();
    var a := Serialize(h.(timestamp := ts), payload);
    var b := Serialize(h, payload);
    assert a[..12] == b[..12];
    assert a[20..] == b[20..];
    assert a == a[..12] + a[12..20] + a[20..];
  }

  /** A cached announcement: its header and its payload, whose length is payload_size. */
  datatype Entry = Entry(header: Header, payload: seq<byte>)

  ghost predicate EntryValid(e: Entry, p: byte)
  {
    e.header.size == HeaderSize && e.header.payloadSize == |e.payload|
    && e.header.essenceType == TypeEa && e.header.programIndex == p
  }

  /** What writing an entry puts on the wire. */
  function EntryWire(e: Entry): (w: seq<byte>)
    requires e.header.payloadSize <= |e.payload|
    ensures |w| == HeaderSize + e.header.payloadSize
  {
    Serialize(e.header, e.payload)
  }

  /** The renewal writes: each listed cached announcement with timestamp ts, in list order. */
  function RenewalWrites(cache: map<byte, Entry>, ks: seq<byte>, ts: uint64): seq<seq<byte>>
    requires forall p :: p in cache ==> EntryValid(cache[p], p)
  {
    if ks == [] then []
    else
      var p := ks[|ks| - 1];
      RenewalWrites(cache, ks[..|ks| - 1], ts)
      + if p in cache then [EntryWire(cache[p].(header := cache[p].header.(timestamp := ts)))] else []
  }

  /** When every listed key is cached, the i-th renewal write is the i-th listed entry's
      wire form with timestamp ts. */
  lemma {:induction false} RenewalWritesAt(cache: map<byte, Entry>, ks: seq<byte>, ts: uint64)
    requires forall p :: p in cache ==> EntryValid(cache[p], p)
    requires forall i :: 0 <= i < |ks| ==> ks[i] in cache
    ensures |RenewalWrites(cache, ks, ts)| == |ks|
    ensures forall i :: 0 <= i < |ks| ==>
              RenewalWrites(cache, ks, ts)[i]
              == EntryWire(cache[ks[i]].(header := cache[ks[i]].header.(timestamp := ts)))
    decreases |ks|
  {
    if ks != [] {
      var init := ks[..|ks| - 1];
      var last := ks[|ks| - 1];
      assert forall i :: 0 <= i < |init| ==> init[i] == ks[i];
      RenewalWritesAt(cache, init, ts);
      var w0 := RenewalWrites(cache, init, ts);
      var w := RenewalWrites(cache, ks, ts);
      assert w == w0 + [EntryWire(cache[last].(header := cache[last].header.(timestamp := ts)))];
      forall i | 0 <= i < |init|
        ensures w[i] == EntryWire(cache[ks[i]].(header := cache[ks[i]].header.(timestamp := ts)))
      {
        assert w[i] == w0[i];
      }
    }
  }

  /** Writing one more key extends the renewal writes by that key's entry. */
  lemma {:induction false} RenewalWritesSnoc(log: seq<seq<byte>>, cache: map<byte, Entry>, ks: seq<byte>, p: byte, ts: uint64)
    requires forall p :: p in cache ==> EntryValid(cache[p], p)
    requires p in cache
    ensures log + RenewalWrites(cache, ks, ts)
              + [EntryWire(cache[p].(header := cache[p].header.(timestamp := ts)))]
            == log + RenewalWrites(cache, ks + [p], ts)
  {
    assert (ks + [p])[..|ks|] == ks;
  }

  /** The cache after renewal: every entry restamped, no entry added or removed. */
  function Renewed(cache: map<byte, Entry>, ts: uint64): (r: map<byte, Entry>)
    ensures r.Keys == cache.Keys
    ensures forall p :: p in r ==> r[p] == cache[p].(header := cache[p].header.(timestamp := ts))
  {
    map p | p in cache :: cache[p].(header := cache[p].header.(timestamp := ts))
  }

  /** A renewal writes every cached program exactly once, in ascending program order;
      each write is the cached block's wire form with only the 8 timestamp bytes
      replaced, and decodes to the cached header carrying the new timestamp. */
  lemma {:induction false} RenewalCoversCache(cache: map<byte, Entry>, ts: uint64)
    requires forall p :: p in cache ==> EntryValid(cache[p], p)
    ensures var ks := SortedKeys(cache.Keys);
            InOrder(ks, cache.Keys) && |ks| == |cache|
            && |RenewalWrites(cache, ks, ts)| == |cache|
    ensures var ks := SortedKeys(cache.Keys);
            forall i :: 0 <= i < |ks| ==>
              RenewalWrites(cache, ks, ts)[i] == Restamp(EntryWire(cache[ks[i]]), ts)
              && DecodeHeader(RenewalWrites(cache, ks, ts)[i]) == cache[ks[i]].header.(timestamp := ts)
  {
    var ks := SortedKeys(cache.Keys);
    SortedKeysSpec(cache.Keys);
    var w := RenewalWrites(cache, ks, ts);
    RenewalWritesAt(cache, ks, ts);
    forall i | 0 <= i < |ks|
      ensures w[i] == Restamp(EntryWire(cache[ks[i]]), ts)
      ensures DecodeHeader(w[i]) == cache[ks[i]].header.(timestamp := ts)
    {
      var e := cache[ks[i]];
      StampOnWire(e.header, e.payload, ts);
      SerializeParses(e.header.(timestamp := ts), e.payload);
    }
  }

  /** Milliseconds from start to now, truncated as duration_cast does. */
  function ElapsedMs(startUs: int, nowUs: int): nat
    requires startUs <= nowUs
  {
    (nowUs - startUs) / 1000
  }

  /** The state of muxer_consumer between loop iterations. */
  class Muxer {
    const queue: Queue<Block>
    const writer: Writer
    const mts: MuxerTimestamp
    const nullBlock: Block
    var eaBlocks: map<byte, Block>
    var totalBytesSent: uint64
    var startTimeBitrate: int
    var startTimeEA: int
    /** The contents of the cached announcement buffers, by program. */
    ghost var cache: map<byte, Entry>

    /** The filler block keeps its setup. */
    ghost predicate NullValid()
      reads nullBlock
    {
      nullBlock.Wellformed()
      && nullBlock.header == NullHeader(nullBlock.header.timestamp)
      && nullBlock.payload == Zeros(NullPayloadSize)
    }

    /** c holds one announcement per program, filed under its own program index, in
        buffers shared with nothing else, whose contents c records. */
    ghost predicate Describes(c: map<byte, Entry>)
      reads this`eaBlocks, eaBlocks.Values
    {
      c.Keys == eaBlocks.Keys
      && (forall p :: p in eaBlocks ==>
            EntryValid(c[p], p)
            && eaBlocks[p].header == c[p].header
            && eaBlocks[p].payload == c[p].payload)
      && (forall p, q :: p in eaBlocks && q in eaBlocks && p != q ==> eaBlocks[p] != eaBlocks[q])
    }

    ghost predicate CacheValid()
      reads this`eaBlocks, this`cache, eaBlocks.Values
    {
      Describes(cache)
    }

    ghost predicate Valid()
      reads this`eaBlocks, this`cache, nullBlock, eaBlocks.Values
    {
      NullValid() && CacheValid() && nullBlock !in eaBlocks.Values
    }

    /** The loop's setup: the filler block, both windows and the 90 kHz clock started at
        the first clock reading, an empty cache and no bytes counted. */
    constructor (queue: Queue<Block>, writer: Writer, nowUs: int)
      ensures this.queue == queue && this.writer == writer
      ensures fresh(mts) && fresh(nullBlock)
      ensures Valid() && eaBlocks == map[] && cache == map[]
      ensures nullBlock.header == NullHeader(0)
      ensures nullBlock.payload == Zeros(NullPayloadSize)
      ensures mts.startTime == nowUs
      ensures startTimeBitrate == nowUs && startTimeEA == nowUs && totalBytesSent == 0
    {
      this.queue := queue;
      this.writer := writer;
      var nb := new Block.Create(NullPayloadSize);
      nb.header := NullHeader(0);
      nullBlock := nb;
      var m := new MuxerTimestamp();
      m.Start(nowUs);
      mts := m;
      eaBlocks := map[];
      cache := map[];
      totalBytesSent := 0;
      startTimeBitrate := nowUs;
      startTimeEA := nowUs;
      new;
      assert nullBlock.payload == Zeros(NullPayloadSize);
    }

    /** The non-empty branch: pop, stamp, write size + payload_size bytes, count the bytes
        the writer reports, and cache a clone of an announcement under its program,
        replacing any earlier one. */
    method SendQueued(ts: uint64)
      requires Valid() && queue.items != []
      requires queue.items[0].Wellformed()
      requires queue.items[0] != nullBlock && queue.items[0] !in eaBlocks.Values
      modifies this`totalBytesSent, this`eaBlocks, this`cache, queue`items, writer`log, {queue.items[0]}`header
      ensures Valid()
      ensures queue.items == old(queue.items[1..])
      ensures var b := old(queue.items[0]);
              b.header == old(b.header).(timestamp := ts)
              && writer.log == old(writer.log) + [Serialize(b.header, b.payload)]
              && totalBytesSent
                 == U64(old(totalBytesSent) + if writer.healthy then HeaderSize + b.header.payloadSize else 0)
              && cache == if b.header.essenceType == TypeEa
                          then old(cache)[b.header.programIndex :=
                                          Entry(b.header, b.payload[..b.header.payloadSize])]
                          else old(cache)
      ensures var b := old(queue.items[0]);
              var p := b.header.programIndex;
              if b.header.essenceType == TypeEa
              then p in eaBlocks && fresh(eaBlocks[p]) && eaBlocks == old(eaBlocks)[p := eaBlocks[p]]
              else eaBlocks == old(eaBlocks)
    {
      var block := queue.Pop();
      block.header := block.header.(timestamp := ts);
      var n := writer.Write(Serialize(block.header, block.payload));
      totalBytesSent := U64(totalBytesSent + n);
      if block.header.essenceType == TypeEa {
        Remember(block);
      }
    }

    /** Caches a clone of an announcement under its program, replacing (and destroying)
        any earlier one; the clone shares no memory with anything already known. */
    method Remember(block: Block)
      requires CacheValid() && nullBlock !in eaBlocks.Values
      requires block.Wellformed() && block.header.essenceType == TypeEa
      modifies this`eaBlocks, this`cache
      ensures CacheValid() && nullBlock !in eaBlocks.Values
      ensures cache == old(cache)[block.header.programIndex :=
                                  Entry(block.header, block.payload[..block.header.payloadSize])]
      // the entry is a new clone; every other buffer stays where it was
      ensures var p := block.header.programIndex;
              p in eaBlocks && fresh(eaBlocks[p]) && eaBlocks == old(eaBlocks)[p := eaBlocks[p]]
    {
      var p := block.header.programIndex;
      var c := block.Clone();
      eaBlocks := eaBlocks[p := c];
      cache := cache[p := Entry(c.header, c.payload)];
    }

    /** The filler loop: up to needed NULL blocks, each restamped, while the queue stays
        empty. A producer running alongside is modelled by late: if given, it is pushed
        after arrival filler writes, which ends the loop. */
    method Fill(needed: nat, arrival: nat, late: Block?, ts: uint64)
      requires NullValid() && queue.items == []
      modifies nullBlock`header, writer`log, queue`items
      ensures NullValid()
      ensures var count := if late != null then Min(needed, arrival) else needed;
              writer.log == old(writer.log) + Repeat(Serialize(NullHeader(ts), nullBlock.payload), count)
              && nullBlock.header == if count > 0 then NullHeader(ts) else old(nullBlock.header)
      ensures queue.items == if late != null && arrival <= needed then [late] else []
    {
      var i := 0;
      if late != null && i == arrival {
        queue.Push(late);
      }
      var empty := queue.Empty();
      while i < needed && empty
        invariant NullValid()
        invariant i <= needed
        invariant late != null ==> i <= arrival
        invariant empty <==> queue.items == []
        invariant queue.items == if late != null && i == arrival then [late] else []
        invariant writer.log == old(writer.log) + Repeat(Serialize(NullHeader(ts), nullBlock.payload), i)
        invariant nullBlock.header == if i > 0 then NullHeader(ts) else old(nullBlock.header)
      {
        nullBlock.header := nullBlock.header.(timestamp := ts);
        var _ := writer.Write(Serialize(nullBlock.header, nullBlock.payload));
        i := i + 1;
        if late != null && i == arrival {
          queue.Push(late);
        }
        empty := queue.Empty();
      }
    }

    /** Renewal part-way: the unshared blocks still hold the headers of view, and those
        programs not in pending already carry timestamp ts. */
    ghost predicate Renewing(view: map<byte, Entry>, pending: set<byte>, ts: uint64)
      reads this`eaBlocks, eaBlocks.Values`header
    {
      view.Keys == eaBlocks.Keys
      && (forall p, q :: p in eaBlocks && q in eaBlocks && p != q ==> eaBlocks[p] != eaBlocks[q])
      && (forall p :: p in eaBlocks ==>
            EntryValid(view[p], p)
            && eaBlocks[p].header
               == if p in pending then view[p].header else view[p].header.(timestamp := ts))
    }

    /** The announcement buffers hold the payloads of view. */
    ghost predicate PayloadsHold(view: map<byte, Entry>)
      reads this`eaBlocks, eaBlocks.Values
    {
      forall p :: p in eaBlocks && p in view ==> eaBlocks[p].payload == view[p].payload
    }

    /** One pass of the renewal loop: restamp the announcement cached for p and write it. */
    method RenewOne(p: byte, ts: uint64, ghost view: map<byte, Entry>, ghost pending: set<byte>)
      requires p in eaBlocks && Renewing(view, pending, ts) && PayloadsHold(view)
      modifies writer`log, {eaBlocks[p]}`header
      ensures Renewing(view, pending - {p}, ts) && PayloadsHold(view)
      ensures writer.log
              == old(writer.log) + [EntryWire(view[p].(header := view[p].header.(timestamp := ts)))]
    {
      var block := eaBlocks[p];
      block.header := block.header.(timestamp := ts);
      ghost var e := view[p].(header := view[p].header.(timestamp := ts));
      assert block.header == e.header && block.payload == e.payload;
      var _ := writer.Write(Serialize(block.header, block.payload));
    }

    /** Once every block carries the new timestamp, the cache restamped likewise describes them. */
    lemma {:induction false} RenewedDescribes(view: map<byte, Entry>, ts: uint64)
      requires Renewing(view, {}, ts) && PayloadsHold(view)
      ensures Describes(Renewed(view, ts))
    {
    }

    /** Re-emits every cached announcement in ascending program order (the map's
        iteration order), each with a fresh timestamp; the cache keeps its entries and
        every other byte of them. */
    method Renew(ts: uint64)
      requires Valid()
      modifies this`cache, writer`log, eaBlocks.Values`header
      ensures Valid()
      ensures writer.log == old(writer.log) + RenewalWrites(old(cache), SortedKeys(old(cache).Keys), ts)
      ensures cache == Renewed(old(cache), ts)
    {
      ghost var view := cache;
      ghost var nullHeader := nullBlock.header;
      cache := Renewed(view, ts);
      RenewAll(ts, view);
      assert nullBlock.header == nullHeader;
    }

    /** The renewal loop over the cached programs, least program index first. */
    method RenewAll(ts: uint64, ghost view: map<byte, Entry>)
      requires Renewing(view, eaBlocks.Keys, ts) && PayloadsHold(view)
      modifies writer`log, eaBlocks.Values`header
      ensures Describes(Renewed(view, ts))
      ensures writer.log == old(writer.log) + RenewalWrites(view, SortedKeys(view.Keys), ts)
    {
      // the keys visited so far, and those still to visit, in iteration order
      ghost var order: seq<byte> := [];
      var remaining := eaBlocks.Keys;
      while remaining != {}
        invariant Renewing(view, remaining, ts) && PayloadsHold(view)
        invariant remaining <= eaBlocks.Keys
        invariant order + SortedKeys(remaining) == SortedKeys(eaBlocks.Keys)
        invariant writer.log == old(writer.log) + RenewalWrites(view, order, ts)
        decreases remaining
      {
        ghost var least := MinKey(remaining);
        var p :| p in remaining && forall q :: q in remaining ==> p <= q;
        assert p <= least && least <= p;
        RenewOne(p, ts, view, remaining);
        RenewalWritesSnoc(old(writer.log), view, order, p, ts);
        SortedKeysFirst(order, remaining);
        order := order + [p];
        remaining := remaining - {p};
      }
      assert order == SortedKeys(eaBlocks.Keys);
      RenewedDescribes(view, ts);
    }

    /** One iteration of the while(true) loop at steady-clock reading nowUs. needed stands
        for nullPacketsNeeded (0 when the window already met the target bitrate); arrival
        and late model a producer pushing during the filler loop. */
    method Step(nowUs: int, needed: nat, arrival: nat, late: Block?)
      requires Valid()
      requires startTimeBitrate <= nowUs && startTimeEA <= nowUs
      requires mts.startTime <= nowUs && (nowUs - mts.startTime) * 90 <= MaxInt64
      requires queue.items != [] ==>
                 queue.items[0].Wellformed()
                 && queue.items[0] != nullBlock && queue.items[0] !in eaBlocks.Values
      modifies this, queue`items, writer`log, nullBlock`header, eaBlocks.Values`header
      modifies (if queue.items != [] then {queue.items[0]} else {})`header
      ensures Valid()
      // a queued block is always sent first, and nothing else happens in that iteration
      ensures old(queue.items) != [] ==>
                var b, ts := old(queue.items[0]), old(mts.CurrentTimestamp(nowUs));
                queue.items == old(queue.items[1..])
                && b.header == old(b.header).(timestamp := ts) && b.Wellformed()
                && writer.log == old(writer.log) + [Serialize(b.header, b.payload)]
                && totalBytesSent
                   == U64(old(totalBytesSent) + if writer.healthy then HeaderSize + b.header.payloadSize else 0)
                && cache == (if b.header.essenceType == TypeEa
                             then old(cache)[b.header.programIndex :=
                                             Entry(b.header, b.payload[..b.header.payloadSize])]
                             else old(cache))
                && (if b.header.essenceType == TypeEa
                    then var p := b.header.programIndex;
                         p in eaBlocks && fresh(eaBlocks[p]) && eaBlocks == old(eaBlocks)[p := eaBlocks[p]]
                    else eaBlocks == old(eaBlocks))
                && startTimeBitrate == old(startTimeBitrate) && startTimeEA == old(startTimeEA)
      // with the queue empty: the bitrate window closes and restarts on schedule,
      // whether or not filler was needed, and filler writes are not counted
      ensures old(queue.items) == [] ==>
                var closed := ElapsedMs(old(startTimeBitrate), nowUs) >= CheckBitratePeriodMs;
                startTimeBitrate == (if closed then nowUs else old(startTimeBitrate))
                && totalBytesSent == (if closed then 0 else old(totalBytesSent))
      // and announcements are renewed on their own schedule
      ensures old(queue.items) == [] ==>
                var renew := ElapsedMs(old(startTimeEA), nowUs) >= WriteEAPeriodMs;
                startTimeEA == (if renew then nowUs else old(startTimeEA))
                && cache == (if renew then Renewed(old(cache), old(mts.CurrentTimestamp(nowUs)))
                             else old(cache))
                && eaBlocks == old(eaBlocks)
      // what goes out: the filler, then the renewed announcements in program order;
      // the queue then holds only a block pushed during the filler loop
      ensures old(queue.items) == [] ==>
                var ts := old(mts.CurrentTimestamp(nowUs));
                var closed := ElapsedMs(old(startTimeBitrate), nowUs) >= CheckBitratePeriodMs;
                var renew := ElapsedMs(old(startTimeEA), nowUs) >= WriteEAPeriodMs;
                var count := if late != null then Min(needed, arrival) else needed;
                writer.log
                == old(writer.log)
                   + (if closed then Repeat(Serialize(NullHeader(ts), Zeros(NullPayloadSize)), count) else [])
                   + (if renew then RenewalWrites(old(cache), SortedKeys(old(cache).Keys), ts) else [])
                && queue.items == (if closed && late != null && arrival <= needed then [late] else [])
    {
      var ts := mts.CurrentTimestamp(nowUs);
      var empty := queue.Empty();
      if !empty {
        SendQueued(ts);
      } else {
        TopUp(nowUs, ts, needed, arrival, late);
        Refresh(nowUs, ts);
      }
    }

    /** The first half of the empty-queue branch: once the bitrate window has elapsed,
        filler is written and the window restarts with no bytes counted. */
    method TopUp(nowUs: int, ts: uint64, needed: nat, arrival: nat, late: Block?)
      requires Valid() && queue.items == []
      requires startTimeBitrate <= nowUs
      modifies this`totalBytesSent, this`startTimeBitrate, queue`items, writer`log, nullBlock`header
      ensures Valid()
      ensures var closed := ElapsedMs(old(startTimeBitrate), nowUs) >= CheckBitratePeriodMs;
              startTimeBitrate == (if closed then nowUs else old(startTimeBitrate))
              && totalBytesSent == (if closed then 0 else old(totalBytesSent))
      // the filler written, and the producer's block if it landed during the filler loop
      ensures var closed := ElapsedMs(old(startTimeBitrate), nowUs) >= CheckBitratePeriodMs;
              var count := if late != null then Min(needed, arrival) else needed;
              writer.log == old(writer.log)
                            + (if closed then Repeat(Serialize(NullHeader(ts), Zeros(NullPayloadSize)), count) else [])
              && queue.items == (if closed && late != null && arrival <= needed then [late] else [])
    {
      var elapsed := ElapsedMs(startTimeBitrate, nowUs);
      if elapsed >= CheckBitratePeriodMs {
        totalBytesSent := 0;
        startTimeBitrate := nowUs;
        Fill(needed, arrival, late, ts);
      }
    }

    /** The second half: once the announcement period has elapsed, every cached
        announcement is renewed and the period restarts. */
    method Refresh(nowUs: int, ts: uint64)
      requires Valid()
      requires startTimeEA <= nowUs
      modifies this`startTimeEA, this`cache, writer`log, eaBlocks.Values`header
      ensures Valid()
      ensures var renew := ElapsedMs(old(startTimeEA), nowUs) >= WriteEAPeriodMs;
              startTimeEA == (if renew then nowUs else old(startTimeEA))
              && cache == (if renew then Renewed(old(cache), ts) else old(cache))
              && writer.log == old(writer.log)
                               + (if renew then RenewalWrites(old(cache), SortedKeys(old(cache).Keys), ts) else [])
    {
      var elapsed := ElapsedMs(startTimeEA, nowUs);
      if elapsed >= WriteEAPeriodMs {
        startTimeEA := nowUs;
        Renew(ts);
      }
    }
  }

  function Repeat(w: seq<byte>, n: nat): (r: seq<seq<byte>>)
    ensures |r| == n && forall i :: 0 <= i < n ==> r[i] == w
  {
    if n == 0 then [] else Repeat(w, n - 1) + [w]
  }

  function Min(a: nat, b: nat): nat { if a <= b then a else b }
}
