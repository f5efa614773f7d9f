/** What the receiver makes of the producers' blocks: the table producer's alternating
    adds and removes drive the overlay, and the media producer's announcement and
    packets feed the decoder with exactly the packets of the first video stream. */
module Pipeline {
  import opened Wrappers
  import opened Bytes
  import opened EssenceBlock
  import opened ControlChannel
  import opened RenderParser
  import FP = FfmpegProducer
  import SP = SmtProducer
  import Base64

  // ---------------------------------------------------------------------------
  // The table producer and the overlay.

  /** The table producer's first n actions, jpegText and pngText being the base64 texts
      of its two files. */
  function Emissions(n: nat, jpegText: string, pngText: string): seq<Action>
  {
    if n == 0 then [] else Emissions(n - 1, jpegText, pngText) + [SP.Emission(n - 1, jpegText, pngText)]
  }

  /** The k-th of them is the k-th action. */
  lemma {:induction false} EmissionsIndex(n: nat, jpegText: string, pngText: string)
    ensures |Emissions(n, jpegText, pngText)| == n
    ensures forall k :: 0 <= k < n ==> Emissions(n, jpegText, pngText)[k] == SP.Emission(k, jpegText, pngText)
  {
    if n > 0 {
      EmissionsIndex(n - 1, jpegText, pngText);
      var e, f := Emissions(n, jpegText, pngText), Emissions(n - 1, jpegText, pngText);
      forall k | 0 <= k < n
        ensures e[k] == SP.Emission(k, jpegText, pngText)
      {
        if k < n - 1 {
          assert e[k] == f[k];
        }
      }
    }
  }

  /** A run of table blocks, the k-th of which the JSON parser reads as the producer's
      k-th one-action table, applies the producer's actions in order. */
  lemma {:induction false} ReceiverAppliesEmissions(s: ParserState, bs: seq<Received>,
                                                    jpegText: string, pngText: string, env: Environment)
    requires forall k :: 0 <= k < |bs| ==>
               bs[k].header.essenceType == TypeSmt
               && env.table(bs[k].live) == ManipulationTable([SP.Emission(k, jpegText, pngText)])
    ensures Run(s, bs, env) == ApplyActions(s, Emissions(|bs|, jpegText, pngText), env)
  {
    var acts := Emissions(|bs|, jpegText, pngText);
    EmissionsIndex(|bs|, jpegText, pngText);
    assert forall k :: 0 <= k < |bs| ==> env.table(bs[k].live).actions == [acts[k]];
    RunOfOneActionTables(s, bs, acts, env);
  }

  /** After the producer's first 2j + 1 actions, the j-th add last, the receiver's
      current id is that add's and the overlay holds the file it carried, if that
      loads. */
  lemma {:induction false} OverlayAfterAdd(s: ParserState, j: nat, jpeg: seq<byte>, png: seq<byte>, env: Environment)
    ensures var id := U64(SP.FirstActionId + j);
            var image := SP.ImageFor(id, jpeg, png);
            ApplyActions(s, Emissions(2 * j + 1, Base64.Encoding(jpeg), Base64.Encoding(png)), env)
            == s.(actionId := id, overlay := if env.loads(image) then Some(image) else None)
  {
    var jt, pt := Base64.Encoding(jpeg), Base64.Encoding(png);
    SP.EmissionPairs(j, jt, pt);
    SP.AddCarriesItsFile(2 * j, jpeg, png);
    TableEndingInAdd(s, Emissions(2 * j, jt, pt), SP.Emission(2 * j, jt, pt), env);
  }

  /** After the producer's first 2j + 2 actions, the j-th add and its remove last, the
      receiver's current id is still that add's and there is no overlay. */
  lemma {:induction false} OverlayAfterRemove(s: ParserState, j: nat, jpegText: string, pngText: string,
                                              env: Environment)
    ensures ApplyActions(s, Emissions(2 * j + 2, jpegText, pngText), env)
            == s.(actionId := U64(SP.FirstActionId + j), overlay := None)
  {
    SP.EmissionPairs(j, jpegText, pngText);
    TableEndingInRemove(s, Emissions(2 * j, jpegText, pngText), SP.Emission(2 * j, jpegText, pngText),
                        SP.Emission(2 * j + 1, jpegText, pngText), env);
  }

  // ---------------------------------------------------------------------------
  // The media producer and the decoder.

  /** An announcement block of the media producer, as the receiver reads it. */
  lemma {:induction false} AnnouncedBlockReceived(b: Block, programIndex: int, serialized: seq<byte>)
    requires FP.Announces(b, programIndex, serialized)
    ensures b.Wellformed()
    ensures Received(b.header, b.payload[..b.header.payloadSize])
            == Received(FP.EaHeader(programIndex, |serialized|), serialized)
  {
  }

  /** A packet block of the media producer, as the receiver reads it. */
  lemma {:induction false} CarriedBlockReceived(b: Block, programIndex: int, p: FP.Packet, codecType: int)
    requires FP.Carries(b, programIndex, p, codecType)
    ensures b.Wellformed()
    ensures Received(b.header, b.payload[..b.header.payloadSize])
            == Received(FP.EdHeader(programIndex, p, codecType), p.data)
  {
  }

  /** h is the header the producer built, save the timestamp, which the muxer overwrites
      with its 90 kHz clock before writing the block. */
  predicate Restamped(h: Header, built: Header)
  {
    h == built.(timestamp := h.timestamp)
  }

  /** What the muxer writes for a producer's packet block, stamped with any ts, reads back
      as the packet's header with timestamp ts, followed by exactly the packet bytes. */
  lemma {:induction false} MuxedPacketWire(b: Block, programIndex: int, p: FP.Packet, codecType: int, ts: uint64)
    requires FP.Carries(b, programIndex, p, codecType)
    ensures b.header.(timestamp := ts).payloadSize <= |b.payload|
    ensures var w := Serialize(b.header.(timestamp := ts), b.payload);
            Restamped(DecodeHeader(w), FP.EdHeader(programIndex, p, codecType))
            && DecodeHeader(w).timestamp == ts && w[HeaderSize..] == p.data
  {
    SerializeParses(b.header.(timestamp := ts), b.payload);
  }

  /** What the muxer writes for the producer's announcement block, stamped with any ts,
      reads back as the EA header with timestamp ts, followed by exactly the document. */
  lemma {:induction false} MuxedAnnouncementWire(b: Block, programIndex: int, serialized: seq<byte>, ts: uint64)
    requires FP.Announces(b, programIndex, serialized)
    ensures b.header.(timestamp := ts).payloadSize <= |b.payload|
    ensures var w := Serialize(b.header.(timestamp := ts), b.payload);
            Restamped(DecodeHeader(w), FP.EaHeader(programIndex, |serialized|))
            && DecodeHeader(w).timestamp == ts && w[HeaderSize..] == serialized
  {
    SerializeParses(b.header.(timestamp := ts), b.payload);
  }

  /** The data of the packets whose stream index, truncated to the header's byte, is idx. */
  function PacketsOf(packets: seq<FP.Packet>, idx: int): seq<seq<byte>>
    decreases |packets|
  {
    if packets == [] then []
    else (if U8(packets[0].streamIndex) == idx then [packets[0].data] else []) + PacketsOf(packets[1..], idx)
  }

  /** The ED blocks of the packets, whatever their timestamps: routed when the decoder
      is open and the bound program is the one the headers carry. */
  lemma {:induction false} RoutedPackets(rs: seq<Received>, programIndex: int, packets: seq<FP.Packet>,
                                         codecTypes: seq<int>, bd: Binding)
    requires |rs| == |packets|
    requires forall i :: 0 <= i < |packets| ==>
               0 <= packets[i].streamIndex < |codecTypes|
               && Restamped(rs[i].header, FP.EdHeader(programIndex, packets[i], codecTypes[packets[i].streamIndex]))
               && rs[i].live == packets[i].data
    ensures Routed(rs, bd)
            == if bd.decoderReady && U8(programIndex) == bd.programIndex
               then PacketsOf(packets, bd.videoStreamIndex) else []
    decreases |packets|
  {
    if packets != [] {
      assert forall i :: 0 <= i < |packets| - 1 ==> rs[1..][i] == rs[i + 1] && packets[1..][i] == packets[i + 1];
      RoutedPackets(rs[1..], programIndex, packets[1..], codecTypes, bd);
    }
  }

  /** From the start, the media producer's announcement followed by its packet blocks,
      each with whatever timestamp the muxer stamped on it, hands the decoder exactly
      the data of the packets of the first announced video stream, in order, when that
      stream's decoder opened and the program index fits the header's byte; otherwise
      the decoder receives nothing. The JSON parser reads the serialized announcement
      back as the one the producer built. */
  lemma {:induction false} ProducedVideoReachesDecoder(rs: seq<Received>, programIndex: int,
                                                       streams: seq<StreamDesc>, serialized: seq<byte>,
                                                       packets: seq<FP.Packet>, codecTypes: seq<int>,
                                                       env: Environment)
    requires |rs| == 1 + |packets|
    requires Restamped(rs[0].header, FP.EaHeader(programIndex, |serialized|)) && rs[0].live == serialized
    requires forall i :: 0 <= i < |packets| ==>
               0 <= packets[i].streamIndex < |codecTypes|
               && Restamped(rs[1 + i].header, FP.EdHeader(programIndex, packets[i], codecTypes[packets[i].streamIndex]))
               && rs[1 + i].live == packets[i].data
    requires env.announcement(serialized) == Announcement(programIndex, streams)
    requires forall j :: 0 <= j < |streams| ==> streams[j].index >= 0
    ensures var v := FirstIndexOf(streams, MediaVideo);
            Run(Initial(), rs, env).sent
            == if v >= 0 && AfterOpen(false, env.open(streams[v].codec)) && 0 <= programIndex < 0x100
               then PacketsOf(packets, streams[v].index) else []
  {
    FirstAnnouncementWins(rs, env, 0);
    AnnouncementBinds(rs[0], env);
    var bd := BindingOf(EaStep(Initial(), rs[0], env));
    assert forall i :: 0 <= i < |packets| ==> rs[1..][i] == rs[1 + i];
    RoutedPackets(rs[1..], programIndex, packets, codecTypes, bd);
  }
}
