/** The receiver's block handler, RenderParser::parse. The first announcement (EA)
    block binds the program, the video and the audio stream and opens the video
    decoder; essence data (ED) of the bound program's video stream then goes to that
    decoder; manipulation tables (SMT) drive a single overlay slot; NULL blocks and
    unknown types do nothing. The JSON parser, the decoder lookup and open and the
    texture load are library calls, given as functions in an Environment; decoding
    and rendering frames are left out, and what reaches the decoder is logged. */
module RenderParser {
  import opened Wrappers
  import opened Bytes
  import opened EssenceBlock
  import opened ControlChannel
  import Base64

  /** What looking up and opening a decoder by codec name leads to: no decoder of that
      name (the context pointer is left as it was), a context that opened, or one that
      could not be allocated or opened (the pointer is null afterwards). */
  datatype OpenOutcome = NoDecoder | Opened | OpenFailed

  /** The library calls parse makes: nlohmann::json::parse of an announcement and of a
      table, avcodec_find_decoder_by_name with avcodec_alloc_context3 and avcodec_open2,
      and loadJPEGFromMemory (true when it yields a texture). */
  datatype Environment = Environment(
    announcement: seq<byte> -> Announcement,
    table: seq<byte> -> ManipulationTable,
    open: string -> OpenOutcome,
    loads: seq<byte> -> bool)

  /** A block as parse sees it: the header and the payload_size live payload bytes. */
  datatype Received = Received(header: Header, live: seq<byte>)

  /** The parser's fields as a value. eaBlock is the wire form of the cloned
      announcement (EABlock_), decoderReady stands for videoCodecCtx_ != nullptr and
      overlay for imageTexture_, holding the image bytes the texture was loaded from.
      sent lists the payloads handed to avcodec_send_packet, probed the codec names
      looked up. */
  datatype ParserState = ParserState(
    eaBlock: Option<seq<byte>>,
    eaPayload: Option<Announcement>,
    programIndex: int,
    videoStreamIndex: int,
    audioStreamIndex: int,
    decoderReady: bool,
    overlay: Option<seq<byte>>,
    actionId: uint64,
    sent: seq<seq<byte>>,
    probed: seq<string>)

  /** actionId_ starts as (uint64_t) -1. */
  const NoActionId: uint64 := 0xFFFF_FFFF_FFFF_FFFF

  /** The fields as the constructor leaves them. */
  function Initial(): ParserState
  {
    ParserState(None, None, -1, -1, -1, false, None, NoActionId, [], [])
  }

  // ---------------------------------------------------------------------------
  // The transitions, one per block type.

  /** An ED block goes to the decoder when an announcement was seen, its program and
      stream match the bound program and video stream, and a decoder is open. A block
      of the bound audio stream is accepted and ignored. */
  function EdStep(s: ParserState, b: Received): ParserState
  {
    if s.eaBlock.Some? && s.programIndex == b.header.programIndex
       && b.header.streamIndex == s.videoStreamIndex && s.decoderReady
    then s.(sent := s.sent + [b.live])
    else s
  }

  /** One action of a table: add_image decodes its base64 data, replaces the overlay by
      the texture loaded from it (none if loading fails) and takes the action's id;
      remove_image empties the overlay when its id is the current one. */
  function ActionStep(s: ParserState, a: Action, env: Environment): ParserState
  {
    if a.action == ActionAddImage then
      var image := Base64.Decoding(a.data);
      s.(overlay := if env.loads(image) then Some(image) else None, actionId := a.id)
    else if a.action == ActionRemoveImage && a.id == s.actionId then
      s.(overlay := None)
    else s
  }

  /** The actions of a table, in order. */
  function ApplyActions(s: ParserState, acts: seq<Action>, env: Environment): ParserState
    decreases |acts|
  {
    if acts == [] then s else ApplyActions(ActionStep(s, acts[0], env), acts[1..], env)
  }

  /** The decoder context after an open with this outcome. */
  function AfterOpen(ready: bool, o: OpenOutcome): bool
  {
    match o
    case NoDecoder => ready
    case Opened => true
    case OpenFailed => false
  }

  /** One announced stream: a video stream while no video stream is bound binds it and
      opens its codec; otherwise an audio stream while no audio stream is bound binds
      it. */
  function StreamStep(s: ParserState, st: StreamDesc, env: Environment): ParserState
  {
    if s.videoStreamIndex < 0 && st.mediaType == MediaVideo then
      s.(videoStreamIndex := st.index, probed := s.probed + [st.codec],
         decoderReady := AfterOpen(s.decoderReady, env.open(st.codec)))
    else if s.audioStreamIndex < 0 && st.mediaType == MediaAudio then
      s.(audioStreamIndex := st.index)
    else s
  }

  /** The announced streams, in order. */
  function ScanStreams(s: ParserState, streams: seq<StreamDesc>, env: Environment): ParserState
    decreases |streams|
  {
    if streams == [] then s else ScanStreams(StreamStep(s, streams[0], env), streams[1..], env)
  }

  /** An EA block is kept, parsed and scanned only while none has been kept. */
  function EaStep(s: ParserState, b: Received, env: Environment): ParserState
  {
    if s.eaBlock.Some? then s
    else
      var ann := env.announcement(b.live);
      ScanStreams(s.(eaBlock := Some(EncodeHeader(b.header) + b.live), eaPayload := Some(ann),
                     programIndex := ann.programIndex),
                  ann.streams, env)
  }

  /** The effect of parse on the fields, by essence type. */
  function Dispatch(s: ParserState, b: Received, env: Environment): ParserState
  {
    var t := b.header.essenceType;
    if t == TypeEd then EdStep(s, b)
    else if t == TypeNull then s
    else if t == TypeSmt then ApplyActions(s, env.table(b.live).actions, env)
    else if t == TypeEa then EaStep(s, b, env)
    else s
  }

  /** A uint32 value converted to a 32-bit int, two's complement. */
  function AsInt32(x: uint32): int
  {
    if x < 0x8000_0000 then x else x - 0x1_0000_0000
  }

  /** parse's return value: size + payload_size in unsigned 32-bit arithmetic, as int. */
  function ParseResult(h: Header): int
  {
    AsInt32(U32(h.size + h.payloadSize))
  }

  // ---------------------------------------------------------------------------
  // Manipulation tables.

  /** Some remove_image of acts names id. */
  ghost predicate RemovesId(acts: seq<Action>, id: uint64)
  {
    exists k :: 0 <= k < |acts| && acts[k].action == ActionRemoveImage && acts[k].id == id
  }

  /** Without an add_image, a table keeps the id and every field but the overlay, and
      empties the overlay exactly when one of its removes names the current id. */
  lemma {:induction false} TableWithoutAdd(s: ParserState, acts: seq<Action>, env: Environment)
    requires forall k :: 0 <= k < |acts| ==> acts[k].action != ActionAddImage
    ensures ApplyActions(s, acts, env) == s.(overlay := if RemovesId(acts, s.actionId) then None else s.overlay)
    decreases |acts|
  {
    if acts != [] {
      var t := ActionStep(s, acts[0], env);
      TableWithoutAdd(t, acts[1..], env);
      assert forall k :: 0 <= k < |acts| - 1 ==> acts[1..][k] == acts[k + 1];
      if RemovesId(acts[1..], s.actionId) {
        var k :| 0 <= k < |acts[1..]| && acts[1..][k].action == ActionRemoveImage && acts[1..][k].id == s.actionId;
        assert acts[k + 1] == acts[1..][k];
      }
      if RemovesId(acts, s.actionId) && !(acts[0].action == ActionRemoveImage && acts[0].id == s.actionId) {
        var k :| 0 <= k < |acts| && acts[k].action == ActionRemoveImage && acts[k].id == s.actionId;
        assert acts[1..][k - 1] == acts[k];
      }
    }
  }

  /** After a table whose last add_image is acts[i], the current id is that add's id,
      and the overlay is the image it carries when that image loaded and no later
      remove_image names the id, and empty otherwise. Nothing else changes. */
  lemma {:induction false} LastAddDecides(s: ParserState, acts: seq<Action>, env: Environment, i: nat)
    requires i < |acts| && acts[i].action == ActionAddImage
    requires forall k :: i < k < |acts| ==> acts[k].action != ActionAddImage
    ensures var image := Base64.Decoding(acts[i].data);
            ApplyActions(s, acts, env)
            == s.(actionId := acts[i].id,
                  overlay := if env.loads(image) && !RemovesId(acts[i + 1..], acts[i].id) then Some(image) else None)
  {
    LastAddDecidesOverlay(s, acts, env, i);
    TableTouchesOverlay(s, acts, env);
  }

  /** The id and overlay half of LastAddDecides. */
  lemma {:induction false} LastAddDecidesOverlay(s: ParserState, acts: seq<Action>, env: Environment, i: nat)
    requires i < |acts| && acts[i].action == ActionAddImage
    requires forall k :: i < k < |acts| ==> acts[k].action != ActionAddImage
    ensures var image := Base64.Decoding(acts[i].data);
            var r := ApplyActions(s, acts, env);
            r.actionId == acts[i].id
            && r.overlay == if env.loads(image) && !RemovesId(acts[i + 1..], acts[i].id) then Some(image) else None
    decreases |acts|
  {
    var t := ActionStep(s, acts[0], env);
    assert forall k :: 0 <= k < |acts| - 1 ==> acts[1..][k] == acts[k + 1];
    if i == 0 {
      TableWithoutAdd(t, acts[1..], env);
    } else {
      LastAddDecidesOverlay(t, acts[1..], env, i - 1);
      assert acts[1..][i - 1 + 1..] == acts[i + 1..];
    }
  }

  /** A table of one action is that action's step. */
  lemma {:induction false} ApplyOne(s: ParserState, a: Action, env: Environment)
    ensures ApplyActions(s, [a], env) == ActionStep(s, a, env)
  {
    assert [a][0] == a && [a][1..] == [];
  }

  /** A table with one more action ends with that action's step. */
  lemma {:induction false} ApplyActionsSnoc(s: ParserState, acts: seq<Action>, a: Action, env: Environment)
    ensures ApplyActions(s, acts + [a], env) == ActionStep(ApplyActions(s, acts, env), a, env)
    decreases |acts|
  {
    if acts == [] {
      assert acts + [a] == [a];
      ApplyOne(s, a, env);
    } else {
      assert (acts + [a])[1..] == acts[1..] + [a];
      ApplyActionsSnoc(ActionStep(s, acts[0], env), acts[1..], a, env);
    }
  }

  /** A table only touches the overlay and its id. */
  lemma {:induction false} TableTouchesOverlay(s: ParserState, acts: seq<Action>, env: Environment)
    ensures var r := ApplyActions(s, acts, env);
            r == s.(overlay := r.overlay, actionId := r.actionId)
    decreases |acts|
  {
    if acts != [] {
      TableTouchesOverlay(ActionStep(s, acts[0], env), acts[1..], env);
    }
  }

  /** Whatever came before, a table ending in an add_image leaves that add's id and the
      overlay loaded from its image, or none if it does not load. */
  lemma {:induction false} TableEndingInAdd(s: ParserState, front: seq<Action>, a: Action, env: Environment)
    requires a.action == ActionAddImage
    ensures var image := Base64.Decoding(a.data);
            ApplyActions(s, front + [a], env)
            == s.(actionId := a.id, overlay := if env.loads(image) then Some(image) else None)
  {
    ApplyActionsSnoc(s, front, a, env);
    TableTouchesOverlay(s, front, env);
  }

  /** Whatever came before, an add_image followed by the remove_image of its id leaves
      that id and no overlay. */
  lemma {:induction false} TableEndingInRemove(s: ParserState, front: seq<Action>, a: Action, r: Action,
                                               env: Environment)
    requires a.action == ActionAddImage && r.action == ActionRemoveImage && r.id == a.id
    ensures ApplyActions(s, front + [a] + [r], env) == s.(actionId := a.id, overlay := None)
  {
    ApplyActionsSnoc(s, front + [a], r, env);
    TableEndingInAdd(s, front, a, env);
  }

  // ---------------------------------------------------------------------------
  // Announced streams.

  /** The index of the first stream of type t, or -1 when there is none. */
  function FirstIndexOf(streams: seq<StreamDesc>, t: string): (k: int)
    ensures -1 <= k < |streams|
    ensures k >= 0 ==> streams[k].mediaType == t && forall j :: 0 <= j < k ==> streams[j].mediaType != t
    ensures k < 0 <==> forall j :: 0 <= j < |streams| ==> streams[j].mediaType != t
    decreases |streams|
  {
    if streams == [] then -1
    else if streams[0].mediaType == t then 0
    else
      var k := FirstIndexOf(streams[1..], t);
      assert forall j :: 0 < j < |streams| ==> streams[j] == streams[1..][j - 1];
      if k < 0 then -1 else k + 1
  }

  /** With non-negative stream indices, the scan binds the first video stream, looks up
      and opens its codec and no other, and binds the first audio stream; an index
      already bound stays. Nothing else changes. */
  lemma {:induction false} ScanBindsFirst(s: ParserState, streams: seq<StreamDesc>, env: Environment)
    requires forall j :: 0 <= j < |streams| ==> streams[j].index >= 0
    ensures var v, a := FirstIndexOf(streams, MediaVideo), FirstIndexOf(streams, MediaAudio);
            var bindV, bindA := s.videoStreamIndex < 0 && v >= 0, s.audioStreamIndex < 0 && a >= 0;
            ScanStreams(s, streams, env)
            == s.(videoStreamIndex := if bindV then streams[v].index else s.videoStreamIndex,
                  probed := if bindV then s.probed + [streams[v].codec] else s.probed,
                  decoderReady := if bindV then AfterOpen(s.decoderReady, env.open(streams[v].codec)) else s.decoderReady,
                  audioStreamIndex := if bindA then streams[a].index else s.audioStreamIndex)
  {
    ScanBindsVideo(s, streams, env);
    ScanBindsAudio(s, streams, env);
    ScanKeepsRest(s, streams, env);
  }

  /** The video half of ScanBindsFirst. */
  lemma {:induction false} ScanBindsVideo(s: ParserState, streams: seq<StreamDesc>, env: Environment)
    requires forall j :: 0 <= j < |streams| ==> streams[j].index >= 0
    ensures var v := FirstIndexOf(streams, MediaVideo);
            var r := ScanStreams(s, streams, env);
            if s.videoStreamIndex < 0 && v >= 0 then
              r.videoStreamIndex == streams[v].index && r.probed == s.probed + [streams[v].codec]
              && r.decoderReady == AfterOpen(s.decoderReady, env.open(streams[v].codec))
            else
              r.videoStreamIndex == s.videoStreamIndex && r.probed == s.probed && r.decoderReady == s.decoderReady
    decreases |streams|
  {
    if streams != [] {
      ScanBindsVideo(StreamStep(s, streams[0], env), streams[1..], env);
      var v := FirstIndexOf(streams[1..], MediaVideo);
      assert v >= 0 ==> streams[v + 1] == streams[1..][v];
    }
  }

  /** The audio half of ScanBindsFirst. */
  lemma {:induction false} ScanBindsAudio(s: ParserState, streams: seq<StreamDesc>, env: Environment)
    requires forall j :: 0 <= j < |streams| ==> streams[j].index >= 0
    ensures var a := FirstIndexOf(streams, MediaAudio);
            ScanStreams(s, streams, env).audioStreamIndex
            == if s.audioStreamIndex < 0 && a >= 0 then streams[a].index else s.audioStreamIndex
    decreases |streams|
  {
    if streams != [] {
      ScanBindsAudio(StreamStep(s, streams[0], env), streams[1..], env);
      var a := FirstIndexOf(streams[1..], MediaAudio);
      assert a >= 0 ==> streams[a + 1] == streams[1..][a];
    }
  }

  /** The scan changes only the two stream indices, the lookups and the decoder. */
  lemma {:induction false} ScanKeepsRest(s: ParserState, streams: seq<StreamDesc>, env: Environment)
    ensures ScanStreams(s, streams, env).(videoStreamIndex := s.videoStreamIndex, audioStreamIndex := s.audioStreamIndex,
                                         probed := s.probed, decoderReady := s.decoderReady) == s
    decreases |streams|
  {
    if streams != [] {
      ScanKeepsRest(StreamStep(s, streams[0], env), streams[1..], env);
    }
  }

  // ---------------------------------------------------------------------------
  // Runs of blocks.

  /** parse applied to each block in turn. */
  function Run(s: ParserState, bs: seq<Received>, env: Environment): ParserState
    decreases |bs|
  {
    if bs == [] then s else Run(Dispatch(s, bs[0], env), bs[1..], env)
  }

  /** What the first announcement decides: every field but the overlay, its id and the
      decoder log. */
  datatype Binding = Binding(eaBlock: Option<seq<byte>>, eaPayload: Option<Announcement>,
                             programIndex: int, videoStreamIndex: int, audioStreamIndex: int,
                             decoderReady: bool, probed: seq<string>)

  function BindingOf(s: ParserState): Binding
  {
    Binding(s.eaBlock, s.eaPayload, s.programIndex, s.videoStreamIndex, s.audioStreamIndex,
            s.decoderReady, s.probed)
  }

  /** The live payloads of the ED blocks of bs that belong to the bound program and video
      stream, in order, when a decoder is open. */
  function Routed(bs: seq<Received>, bd: Binding): seq<seq<byte>>
    decreases |bs|
  {
    if bs == [] then []
    else
      (if bs[0].header.essenceType == TypeEd && bd.decoderReady
          && bs[0].header.programIndex == bd.programIndex && bs[0].header.streamIndex == bd.videoStreamIndex
       then [bs[0].live] else [])
      + Routed(bs[1..], bd)
  }

  /** A table only touches the overlay and its id. */
  lemma {:induction false} TableKeepsBinding(s: ParserState, acts: seq<Action>, env: Environment)
    ensures BindingOf(ApplyActions(s, acts, env)) == BindingOf(s)
    ensures ApplyActions(s, acts, env).sent == s.sent
    decreases |acts|
  {
    if acts != [] {
      TableKeepsBinding(ActionStep(s, acts[0], env), acts[1..], env);
    }
  }

  /** The scan touches only the stream bindings, and how it does depends only on them. */
  lemma {:induction false} ScanCongruent(s: ParserState, u: ParserState, streams: seq<StreamDesc>, env: Environment)
    requires BindingOf(s) == BindingOf(u)
    ensures BindingOf(ScanStreams(s, streams, env)) == BindingOf(ScanStreams(u, streams, env))
    ensures ScanStreams(s, streams, env).eaBlock == s.eaBlock
    ensures ScanStreams(s, streams, env).sent == s.sent
    decreases |streams|
  {
    if streams != [] {
      ScanCongruent(StreamStep(s, streams[0], env), StreamStep(u, streams[0], env), streams[1..], env);
    }
  }

  /** Before any announcement, no block reaches the decoder and nothing is bound. */
  lemma {:induction false} RunBeforeAnnouncement(s: ParserState, bs: seq<Received>, env: Environment)
    requires s.eaBlock.None?
    requires forall j :: 0 <= j < |bs| ==> bs[j].header.essenceType != TypeEa
    ensures BindingOf(Run(s, bs, env)) == BindingOf(s)
    ensures Run(s, bs, env).sent == s.sent
    decreases |bs|
  {
    if bs != [] {
      var t := Dispatch(s, bs[0], env);
      if bs[0].header.essenceType == TypeSmt {
        TableKeepsBinding(s, env.table(bs[0].live).actions, env);
      }
      assert forall j :: 0 <= j < |bs| - 1 ==> bs[1..][j] == bs[j + 1];
      RunBeforeAnnouncement(t, bs[1..], env);
    }
  }

  /** Once an announcement is kept, later ones are ignored, the bindings stay, and the
      decoder receives exactly the routed ED payloads. */
  lemma {:induction false} RunAfterAnnouncement(s: ParserState, bs: seq<Received>, env: Environment)
    requires s.eaBlock.Some?
    ensures BindingOf(Run(s, bs, env)) == BindingOf(s)
    ensures Run(s, bs, env).sent == s.sent + Routed(bs, BindingOf(s))
    decreases |bs|
  {
    if bs != [] {
      var t := Dispatch(s, bs[0], env);
      if bs[0].header.essenceType == TypeSmt {
        TableKeepsBinding(s, env.table(bs[0].live).actions, env);
      }
      RunAfterAnnouncement(t, bs[1..], env);
    }
  }

  /** Running a concatenation runs its parts in turn. */
  lemma {:induction false} RunAppend(s: ParserState, xs: seq<Received>, ys: seq<Received>, env: Environment)
    ensures Run(s, xs + ys, env) == Run(Run(s, xs, env), ys, env)
    decreases |xs|
  {
    if xs != [] {
      assert (xs + ys)[1..] == xs[1..] + ys;
      RunAppend(Dispatch(s, xs[0], env), xs[1..], ys, env);
    } else {
      assert xs + ys == ys;
    }
  }

  /** The first announcement of a run from the start fixes the bindings, as if it had
      been the first block, and the decoder receives exactly the routed ED payloads that
      follow it. */
  lemma {:induction false} FirstAnnouncementWins(bs: seq<Received>, env: Environment, i: nat)
    requires i < |bs| && bs[i].header.essenceType == TypeEa
    requires forall j :: 0 <= j < i ==> bs[j].header.essenceType != TypeEa
    ensures var bd := BindingOf(EaStep(Initial(), bs[i], env));
            BindingOf(Run(Initial(), bs, env)) == bd
            && Run(Initial(), bs, env).sent == Routed(bs[i + 1..], bd)
  {
    assert bs == bs[..i] + ([bs[i]] + bs[i + 1..]);
    RunAppend(Initial(), bs[..i], [bs[i]] + bs[i + 1..], env);
    var m := Run(Initial(), bs[..i], env);
    RunBeforeAnnouncement(Initial(), bs[..i], env);
    var ann := env.announcement(bs[i].live);
    var e := EncodeHeader(bs[i].header) + bs[i].live;
    ScanCongruent(m.(eaBlock := Some(e), eaPayload := Some(ann), programIndex := ann.programIndex),
                  Initial().(eaBlock := Some(e), eaPayload := Some(ann), programIndex := ann.programIndex),
                  ann.streams, env);
    var a := Dispatch(m, bs[i], env);
    assert ([bs[i]] + bs[i + 1..])[1..] == bs[i + 1..];
    RunAfterAnnouncement(a, bs[i + 1..], env);
  }

  /** The bindings the first announcement leaves, spelled out: the document's program,
      its first video stream with the outcome of opening its codec, and its first audio
      stream. */
  lemma {:induction false} AnnouncementBinds(b: Received, env: Environment)
    requires b.header.essenceType == TypeEa
    requires forall j :: 0 <= j < |env.announcement(b.live).streams| ==> env.announcement(b.live).streams[j].index >= 0
    ensures var ann := env.announcement(b.live);
            var v, a := FirstIndexOf(ann.streams, MediaVideo), FirstIndexOf(ann.streams, MediaAudio);
            BindingOf(EaStep(Initial(), b, env))
            == Binding(Some(EncodeHeader(b.header) + b.live), Some(ann), ann.programIndex,
                       if v >= 0 then ann.streams[v].index else -1,
                       if a >= 0 then ann.streams[a].index else -1,
                       v >= 0 && AfterOpen(false, env.open(ann.streams[v].codec)),
                       if v >= 0 then [ann.streams[v].codec] else [])
  {
    var ann := env.announcement(b.live);
    ScanBindsFirst(Initial().(eaBlock := Some(EncodeHeader(b.header) + b.live), eaPayload := Some(ann),
                              programIndex := ann.programIndex), ann.streams, env);
  }

  /** A run of table blocks of one action each applies those actions in order. */
  lemma {:induction false} RunOfOneActionTables(s: ParserState, bs: seq<Received>, acts: seq<Action>, env: Environment)
    requires |bs| == |acts|
    requires forall k :: 0 <= k < |bs| ==>
               bs[k].header.essenceType == TypeSmt && env.table(bs[k].live).actions == [acts[k]]
    ensures Run(s, bs, env) == ApplyActions(s, acts, env)
    decreases |bs|
  {
    if bs != [] {
      var t := Dispatch(s, bs[0], env);
      assert t == ApplyActions(s, [acts[0]], env);
      ApplyOne(s, acts[0], env);
      assert forall k :: 0 <= k < |bs| - 1 ==> bs[1..][k] == bs[k + 1] && acts[1..][k] == acts[k + 1];
      RunOfOneActionTables(t, bs[1..], acts[1..], env);
    }
  }

  /** The blocks of bs other than NULL blocks. */
  function WithoutNull(bs: seq<Received>): seq<Received>
    decreases |bs|
  {
    if bs == [] then []
    else if bs[0].header.essenceType == TypeNull then WithoutNull(bs[1..])
    else [bs[0]] + WithoutNull(bs[1..])
  }

  /** NULL blocks are padding: removing them from a run changes nothing. */
  lemma {:induction false} NullBlocksChangeNothing(s: ParserState, bs: seq<Received>, env: Environment)
    ensures Run(s, WithoutNull(bs), env) == Run(s, bs, env)
    decreases |bs|
  {
    if bs != [] {
      NullBlocksChangeNothing(Dispatch(s, bs[0], env), bs[1..], env);
      if bs[0].header.essenceType != TypeNull {
        assert ([bs[0]] + WithoutNull(bs[1..]))[1..] == WithoutNull(bs[1..]);
      }
    }
  }

  // ---------------------------------------------------------------------------
  // The parser object.

  class Parser {
    var eaBlock: Block?
    var eaPayload: Option<Announcement>
    var programIndex: int
    var videoStreamIndex: int
    var audioStreamIndex: int
    var decoderReady: bool
    var overlay: Option<seq<byte>>
    var actionId: uint64
    var sent: seq<seq<byte>>
    var probed: seq<string>

    /** The kept announcement can be written out. */
    ghost predicate Valid()
      reads this, eaBlock
    {
      eaBlock != null ==> eaBlock.Wellformed()
    }

    ghost function State(): ParserState
      reads this, eaBlock
      requires Valid()
    {
      ParserState(if eaBlock == null then None else Some(eaBlock.Wire()), eaPayload, programIndex,
                  videoStreamIndex, audioStreamIndex, decoderReady, overlay, actionId, sent, probed)
    }

    constructor ()
      ensures Valid() && State() == Initial()
    {
      eaBlock := null;
      eaPayload := None;
      programIndex := -1;
      videoStreamIndex := -1;
      audioStreamIndex := -1;
      decoderReady := false;
      overlay := None;
      actionId := NoActionId;
      sent := [];
      probed := [];
    }

    /** parse: the fields move as Dispatch says, and the result is size + payload_size,
        which for a block under 2 GiB is the number of bytes it takes on the wire. */
    method Parse(block: Block, env: Environment) returns (r: int)
      requires Valid() && block.Wellformed()
      modifies this
      ensures Valid()
      ensures State() == Dispatch(old(State()), Received(block.header, block.payload[..block.header.payloadSize]), env)
      ensures r == ParseResult(block.header)
      ensures block.header.payloadSize < 0x8000_0000 - HeaderSize ==> r == |block.Wire()|
    {
      var h := block.header;
      var live := block.payload[..h.payloadSize];
      if h.essenceType == TypeEd {
        ParseEd(Received(h, live));
      } else if h.essenceType == TypeNull {
      } else if h.essenceType == TypeSmt {
        ParseSmt(live, env);
      } else if h.essenceType == TypeEa {
        if eaBlock == null {
          ParseEa(block, env);
        }
      }
      r := AsInt32(U32(h.size + h.payloadSize));
    }

    method ParseEd(b: Received)
      requires Valid()
      modifies this`sent
      ensures Valid() && State() == EdStep(old(State()), b)
    {
      if eaBlock != null && programIndex == b.header.programIndex
         && b.header.streamIndex == videoStreamIndex && decoderReady {
        sent := sent + [b.live];
      }
    }

    /** The for loop over the table's actions. */
    method ParseSmt(live: seq<byte>, env: Environment)
      requires Valid()
      modifies this`overlay, this`actionId
      ensures Valid() && State() == ApplyActions(old(State()), env.table(live).actions, env)
    {
      var acts := env.table(live).actions;
      ghost var goal := ApplyActions(State(), acts, env);
      for i := 0 to |acts|
        invariant Valid() && ApplyActions(State(), acts[i..], env) == goal
      {
        TakeAction(acts[i], env);
        assert acts[i..][1..] == acts[i + 1..];
      }
      assert acts[|acts|..] == [];
    }

    /** The first announcement: clone it, parse its document, take the program index
        and scan the streams. */
    method ParseEa(block: Block, env: Environment)
      requires Valid() && block.Wellformed() && eaBlock == null
      modifies this
      ensures Valid()
      ensures State() == EaStep(old(State()), Received(block.header, block.payload[..block.header.payloadSize]), env)
    {
      var c := block.Clone();
      eaBlock := c;
      var ann := env.announcement(c.payload[..c.header.payloadSize]);
      eaPayload := Some(ann);
      programIndex := ann.programIndex;
      assert c.payload[..c.header.payloadSize] == block.payload[..block.header.payloadSize];
      ScanInto(ann.streams, env);
    }

    /** The for loop over the announced streams. */
    method ScanInto(streams: seq<StreamDesc>, env: Environment)
      requires Valid()
      modifies this`videoStreamIndex, this`audioStreamIndex, this`decoderReady, this`probed
      ensures Valid() && State() == ScanStreams(old(State()), streams, env)
    {
      ghost var goal := ScanStreams(State(), streams, env);
      for i := 0 to |streams|
        invariant Valid() && ScanStreams(State(), streams[i..], env) == goal
      {
        TakeStream(streams[i], env);
        assert streams[i..][1..] == streams[i + 1..];
      }
      assert streams[|streams|..] == [];
    }

    /** One pass of the loop over a table's actions. */
    method TakeAction(a: Action, env: Environment)
      requires Valid()
      modifies this`overlay, this`actionId
      ensures Valid() && State() == ActionStep(old(State()), a, env)
    {
      if a.action == ActionAddImage {
        var image := Base64.Decode(a.data);
        overlay := if env.loads(image) then Some(image) else None;
        actionId := a.id;
      } else if a.action == ActionRemoveImage {
        if a.id == actionId {
          overlay := None;
        }
      }
    }

    /** One pass of the loop over the announced streams. */
    method TakeStream(st: StreamDesc, env: Environment)
      requires Valid()
      modifies this`videoStreamIndex, this`audioStreamIndex, this`decoderReady, this`probed
      ensures Valid() && State() == StreamStep(old(State()), st, env)
    {
      if videoStreamIndex < 0 && st.mediaType == MediaVideo {
        videoStreamIndex := st.index;
        probed := probed + [st.codec];
        var outcome := env.open(st.codec);
        if outcome == Opened {
          decoderReady := true;
        } else if outcome == OpenFailed {
          decoderReady := false;
        }
      } else if audioStreamIndex < 0 && st.mediaType == MediaAudio {
        audioStreamIndex := st.index;
      }
    }
  }
}
