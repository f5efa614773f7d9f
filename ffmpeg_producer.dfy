/** The media producer: it announces the input's streams in one EA block, then wraps
    every demuxed packet in an ED block, pushing each block on the transfer queue as
    soon as it is built. Demuxing is an input: the packets arrive as a sequence. */
module FfmpegProducer {
  import opened Bytes
  import opened EssenceBlock
  import opened TransferQueue
  import opened ControlChannel

  /** MAX_ESSENCE_PAYLOAD_SIZE: the payload capacity of every block the producer creates. */
  const MaxEssencePayload: nat := 4 * 1024 * 1024

  /** The fields of a demuxed AVPacket the producer reads: stream_index, pts and the
      data, whose length is the packet size. */
  datatype Packet = Packet(streamIndex: int, pts: int, data: seq<byte>)

  /** The header of an essence-data block for packet p of a stream with codec type
      codecType; every narrowing assignment truncates as C does. */
  function EdHeader(programIndex: int, p: Packet, codecType: int): Header
  {
    Header(SyncMagic, HeaderSize, TypeEd, U8(programIndex), U8(codecType), U8(p.streamIndex),
           U64(p.pts), U32(|p.data|))
  }

  /** The header of an announcement block whose serialized document is n bytes long. */
  function EaHeader(programIndex: int, n: nat): Header
  {
    Header(SyncMagic, HeaderSize, TypeEa, U8(programIndex), 0xff, 0xff, 0, U32(n))
  }

  /** setEssenceBlock: the ED header fields from the packet and its stream, then a memcpy
      of the packet bytes. sync and size keep the values the block was created with. */
  method SetEssenceBlock(block: Block, programIndex: int, packet: Packet, codecType: int)
    requires |packet.data| <= |block.payload|
    modifies block
    ensures block.header == old(block.header).(essenceType := TypeEd, programIndex := U8(programIndex),
                                               streamIndex := U8(packet.streamIndex),
                                               streamType := U8(codecType),
                                               timestamp := U64(packet.pts),
                                               payloadSize := U32(|packet.data|))
    ensures |block.payload| == old(|block.payload|)
    ensures block.payload[..|packet.data|] == packet.data
    ensures block.payload[|packet.data|..] == old(block.payload[|packet.data|..])
  {
    block.header := block.header.(essenceType := TypeEd, programIndex := U8(programIndex),
                                  streamIndex := U8(packet.streamIndex),
                                  streamType := U8(codecType),
                                  timestamp := U64(packet.pts),
                                  payloadSize := U32(|packet.data|));
    block.CopyIn(packet.data);
  }

  /** setEssenceAnnouncementBlock: the EA header fields, then a memcpy of the serialized
      document. sync and size keep the values the block was created with. */
  method SetEssenceAnnouncementBlock(block: Block, programIndex: int, serialized: seq<byte>)
    requires |serialized| <= |block.payload|
    modifies block
    ensures block.header == old(block.header).(essenceType := TypeEa, programIndex := U8(programIndex),
                                               streamIndex := 0xff, streamType := 0xff,
                                               timestamp := 0, payloadSize := U32(|serialized|))
    ensures |block.payload| == old(|block.payload|)
    ensures block.payload[..|serialized|] == serialized
    ensures block.payload[|serialized|..] == old(block.payload[|serialized|..])
  {
    block.header := block.header.(essenceType := TypeEa, programIndex := U8(programIndex),
                                  streamIndex := 0xff, streamType := 0xff,
                                  timestamp := 0, payloadSize := U32(|serialized|));
    block.CopyIn(serialized);
  }

  /** b is a producer block holding the announcement serialized as bytes. */
  ghost predicate Announces(b: Block, programIndex: int, serialized: seq<byte>)
    reads b
  {
    b.header == EaHeader(programIndex, |serialized|)
    && |b.payload| == MaxEssencePayload && |serialized| <= MaxEssencePayload
    && b.payload[..|serialized|] == serialized
  }

  /** b is a producer block holding packet p of a stream with codec type codecType. */
  ghost predicate Carries(b: Block, programIndex: int, p: Packet, codecType: int)
    reads b
  {
    b.header == EdHeader(programIndex, p, codecType)
    && |b.payload| == MaxEssencePayload && |p.data| <= MaxEssencePayload
    && b.payload[..|p.data|] == p.data
  }

  /** On the wire, a block a producer fills with a packet reads back as the ED header
      and exactly the packet bytes. */
  lemma {:induction false} CarriedPacketOnWire(b: Block, programIndex: int, p: Packet, codecType: int)
    requires Carries(b, programIndex, p, codecType)
    ensures b.Wellformed()
    ensures DecodeHeader(b.Wire()) == EdHeader(programIndex, p, codecType)
    ensures b.Wire()[HeaderSize..] == p.data
  {
    SerializeParses(b.header, b.payload);
  }

  /** On the wire, an announcement block reads back as the EA header and exactly the
      serialized document. */
  lemma {:induction false} AnnouncementOnWire(b: Block, programIndex: int, serialized: seq<byte>)
    requires Announces(b, programIndex, serialized)
    ensures b.Wellformed()
    ensures DecodeHeader(b.Wire()) == EaHeader(programIndex, |serialized|)
    ensures b.Wire()[HeaderSize..] == serialized
  {
    SerializeParses(b.header, b.payload);
  }

  /** ffmpeg_producer after the input has been opened: the announcement of program
      programIndex and its streams, serialized by dump, goes on the queue first, then
      one block per packet, in packet order. codecTypes maps a stream index to the
      codec type of that stream. */
  method Produce(queue: Queue<Block>, programIndex: int, streams: seq<StreamDesc>,
                 dump: Announcement -> seq<byte>, packets: seq<Packet>, codecTypes: seq<int>)
    requires |dump(Announcement(programIndex, streams))| <= MaxEssencePayload
    requires forall i :: 0 <= i < |packets| ==>
               0 <= packets[i].streamIndex < |codecTypes| && |packets[i].data| <= MaxEssencePayload
    modifies queue`items
    ensures |queue.items| == old(|queue.items|) + 1 + |packets|
    ensures queue.items[..old(|queue.items|)] == old(queue.items)
    ensures Announces(queue.items[old(|queue.items|)], programIndex, dump(Announcement(programIndex, streams)))
    ensures forall i :: 0 <= i < |packets| ==>
              Carries(queue.items[old(|queue.items|) + 1 + i], programIndex, packets[i],
                      codecTypes[packets[i].streamIndex])
    ensures forall j :: old(|queue.items|) <= j < |queue.items| ==> fresh(queue.items[j])
  {
    var base := |queue.items|;
    var serialized := dump(Announcement(programIndex, streams));
    var ea := new Block.Create(MaxEssencePayload);
    SetEssenceAnnouncementBlock(ea, programIndex, serialized);
    queue.Push(ea);
    for i := 0 to |packets|
      invariant |queue.items| == base + 1 + i
      invariant queue.items[..base] == old(queue.items)
      invariant queue.items[base] == ea && Announces(ea, programIndex, serialized)
      invariant forall j :: 0 <= j < i ==>
                  Carries(queue.items[base + 1 + j], programIndex, packets[j],
                          codecTypes[packets[j].streamIndex])
      invariant forall j :: base <= j < |queue.items| ==> fresh(queue.items[j])
    {
      var p := packets[i];
      var b := PushEssence(queue, programIndex, p, codecTypes[p.streamIndex]);
    }
  }

  /** One pass of the read loop: a fresh block carrying the packet goes on the queue. */
  method PushEssence(queue: Queue<Block>, programIndex: int, p: Packet, codecType: int) returns (b: Block)
    requires |p.data| <= MaxEssencePayload
    modifies queue`items
    ensures fresh(b) && queue.items == old(queue.items) + [b]
    ensures Carries(b, programIndex, p, codecType)
  {
    b := new Block.Create(MaxEssencePayload);
    SetEssenceBlock(b, programIndex, p, codecType);
    queue.Push(b);
  }
}
