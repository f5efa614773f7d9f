/** The manipulation-table producer: every five seconds it pushes an SMT block holding
    a table of one action, alternating add_image and remove_image. An add carries the
    base64 encoding of an image file, the JPEG for an even id and the PNG for an odd
    one; the id moves on by one after each remove. Clock readings (milliseconds of the
    steady clock) and the two files' contents are inputs of each step. */
module SmtProducer {
  import opened Bytes
  import opened EssenceBlock
  import opened TransferQueue
  import opened ControlChannel
  import Base64

  /** MAX_MANIPULATION_TABLE_PAYLOAD_SIZE: the payload capacity of a table block. */
  const MaxTablePayload: nat := 1024 * 1024

  /** Milliseconds between two tables. */
  const Period: int := 5000

  /** The id of the first add. */
  const FirstActionId: uint64 := 1001

  /** setStreamManipulaitonTableBlock: payload_size and a memcpy of the serialized
      table; no other header field changes. */
  method SetManipulationTableBlock(block: Block, serialized: seq<byte>)
    requires |serialized| <= |block.payload|
    modifies block
    ensures block.header == old(block.header).(payloadSize := U32(|serialized|))
    ensures |block.payload| == old(|block.payload|)
    ensures block.payload[..|serialized|] == serialized
    ensures block.payload[|serialized|..] == old(block.payload[|serialized|..])
  {
    block.header := block.header.(payloadSize := U32(|serialized|));
    block.CopyIn(serialized);
  }

  /** The header of a table block whose serialized table is n bytes long. */
  function SmtHeader(n: nat): Header
  {
    Header(SyncMagic, HeaderSize, TypeSmt, 0, 0xff, 0xff, 0, U32(n))
  }

  /** The "data_type" an add with this id announces. */
  function MimeType(id: uint64): string
  {
    if id % 2 == 0 then "image/jpeg" else "image/png"
  }

  /** The image file an add with this id reads. */
  function ImageFor(id: uint64, jpeg: seq<byte>, png: seq<byte>): seq<byte>
  {
    if id % 2 == 0 then jpeg else png
  }

  /** The k-th action the producer emits, counting from 0, when jpegText and pngText are
      the base64 texts of the two files: an add at even k, a remove at odd k, the 2j-th
      and (2j+1)-th sharing id 1001 + j. */
  function Emission(k: nat, jpegText: string, pngText: string): Action
  {
    var id := U64(FirstActionId + k / 2);
    if k % 2 == 0 then Action(ActionAddImage, id, MimeType(id), if id % 2 == 0 then jpegText else pngText)
    else Action(ActionRemoveImage, id, "", "")
  }

  /** An add and the remove after it share an id; the next add takes the next id. */
  lemma {:induction false} EmissionPairs(j: nat, jpegText: string, pngText: string)
    ensures Emission(2 * j, jpegText, pngText).action == ActionAddImage
    ensures Emission(2 * j, jpegText, pngText).id == U64(FirstActionId + j)
    ensures Emission(2 * j + 1, jpegText, pngText).action == ActionRemoveImage
    ensures Emission(2 * j + 1, jpegText, pngText).id == Emission(2 * j, jpegText, pngText).id
    ensures Emission(2 * j + 2, jpegText, pngText).id == U64(Emission(2 * j + 1, jpegText, pngText).id + 1)
  {
    assert (2 * j) / 2 == j && (2 * j + 1) / 2 == j && (2 * j + 2) / 2 == j + 1;
    assert (2 * j) % 2 == 0 && (2 * j + 1) % 2 == 1;
    U64Succ(FirstActionId + j);
  }

  /** Truncating a successor is the truncated value's successor, truncated again. */
  lemma {:induction false} U64Succ(x: nat)
    ensures U64(x + 1) == U64(U64(x) + 1)
  {
    var m := 0x1_0000_0000_0000_0000;
    var q := x / m;
    assert x == m * q + U64(x);
    assert x + 1 == m * q + (U64(x) + 1);
  }

  /** An add announces the type of the file its id selects, and its data decodes back
      to exactly that file's bytes. */
  lemma {:induction false} AddCarriesItsFile(k: nat, jpeg: seq<byte>, png: seq<byte>)
    requires k % 2 == 0
    ensures var a := Emission(k, Base64.Encoding(jpeg), Base64.Encoding(png));
            (a.id % 2 == 0 ==> a.dataType == "image/jpeg" && Base64.Decoding(a.data) == jpeg)
            && (a.id % 2 == 1 ==> a.dataType == "image/png" && Base64.Decoding(a.data) == png)
  {
    Base64.RoundTrip(jpeg);
    Base64.RoundTrip(png);
  }

  /** b is a table block holding serialized bytes. */
  ghost predicate Tabulates(b: Block, serialized: seq<byte>)
    reads b
  {
    b.header == SmtHeader(|serialized|)
    && |b.payload| == MaxTablePayload && |serialized| <= MaxTablePayload
    && b.payload[..|serialized|] == serialized
  }

  class Producer {
    /** Whether the next table adds the image (true) or removes it (false). */
    var drawImage: bool
    /** The id the next action carries. */
    var actionId: uint64
    /** The clock reading at the last emission, or at start. */
    var startTime: int
    /** The actions emitted so far. */
    ghost var emitted: seq<Action>

    /** drawImage and actionId are the closed form of the number of emissions. */
    ghost predicate Valid()
      reads this
    {
      drawImage == (|emitted| % 2 == 0) && actionId == U64(FirstActionId + |emitted| / 2)
    }

    constructor (now: int)
      ensures Valid() && emitted == [] && startTime == now
    {
      drawImage := true;
      actionId := FirstActionId;
      startTime := now;
      emitted := [];
    }

    /** The table this step would emit. */
    ghost function NextTable(jpeg: seq<byte>, png: seq<byte>): ManipulationTable
      reads this
    {
      ManipulationTable([Emission(|emitted|, Base64.Encoding(jpeg), Base64.Encoding(png))])
    }

    /** One pass of the while loop at clock reading now: nothing happens before five
        seconds have elapsed since the last emission; then a table block holding the
        next action is pushed and the clock restarts. dump serializes a table; its
        output has to fit the 1 MiB payload, which the code does not check. */
    method Step(now: int, queue: Queue<Block>, jpeg: seq<byte>, png: seq<byte>,
                dump: ManipulationTable -> seq<byte>) returns (sent: bool)
      requires Valid()
      requires |dump(NextTable(jpeg, png))| <= MaxTablePayload
      modifies this, queue`items
      ensures Valid()
      ensures sent <==> now - old(startTime) >= Period
      ensures !sent ==> emitted == old(emitted) && startTime == old(startTime)
                        && queue.items == old(queue.items)
      ensures sent ==> emitted == old(emitted) + [Emission(|old(emitted)|, Base64.Encoding(jpeg), Base64.Encoding(png))]
                       && startTime == now
                       && |queue.items| == old(|queue.items|) + 1
                       && queue.items[..old(|queue.items|)] == old(queue.items)
                       && fresh(queue.items[old(|queue.items|)])
                       && Tabulates(queue.items[old(|queue.items|)],
                                    dump(ManipulationTable([Emission(|old(emitted)|, Base64.Encoding(jpeg), Base64.Encoding(png))])))
    {
      if now - startTime < Period {
        return false;
      }
      var action := NextAction(jpeg, png);
      var block := new Block.Create(MaxTablePayload);
      block.header := block.header.(essenceType := TypeSmt, programIndex := 0, streamType := 0xff,
                                    streamIndex := 0xff, timestamp := 0);
      SetManipulationTableBlock(block, dump(ManipulationTable([action])));
      queue.Push(block);
      startTime := now;
      sent := true;
    }

    /** The if (drawImage) ... else ... of the loop body and the toggle after it: the
        action built is the next emission, and the state moves on past it. */
    method NextAction(jpeg: seq<byte>, png: seq<byte>) returns (action: Action)
      requires Valid()
      modifies this`drawImage, this`actionId, this`emitted
      ensures Valid()
      ensures action == Emission(|old(emitted)|, Base64.Encoding(jpeg), Base64.Encoding(png))
      ensures emitted == old(emitted) + [action]
    {
      ghost var k := |emitted|;
      if drawImage {
        var encoded := Base64.Encode(ImageFor(actionId, jpeg, png));
        action := Action(ActionAddImage, actionId, MimeType(actionId), encoded);
        AfterAdd(k);
      } else {
        action := Action(ActionRemoveImage, actionId, "", "");
        AfterRemove(k);
        actionId := U64(actionId + 1);
      }
      drawImage := !drawImage;
      emitted := emitted + [action];
    }
  }

  /** After an add (even k), the id stays. */
  lemma {:induction false} AfterAdd(k: nat)
    requires k % 2 == 0
    ensures (k + 1) % 2 == 1 && (k + 1) / 2 == k / 2
  {
  }

  /** After a remove (odd k), the id moves on by one. */
  lemma {:induction false} AfterRemove(k: nat)
    requires k % 2 == 1
    ensures (k + 1) % 2 == 0
    ensures U64(FirstActionId + (k + 1) / 2) == U64(U64(FirstActionId + k / 2) + 1)
  {
    assert (k + 1) / 2 == k / 2 + 1;
    U64Succ(FirstActionId + k / 2);
  }
}
