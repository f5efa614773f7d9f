/** The block framing format: a packed 24-byte header followed by a raw payload.
    Field order on the wire: sync(4) size(4) essence_type(1) program_index(1)
    stream_type(1) stream_index(1) timestamp(8) payload_size(4), each multi-byte
    field little-endian. */
module EssenceBlock {
  import opened Bytes

  /** The magic number that opens every block; on the wire it reads 12 34 56 78. */
  const SyncMagic: uint32 := 0x78563412
  const SyncMarker: seq<byte> := [0x12, 0x34, 0x56, 0x78]

  /** sizeof(EssenceBlock) of the packed header. */
  const HeaderSize: nat := 24

  // EssenceType codes carried in the essence_type byte.
  const TypeEd: byte := 0        // essence data
  const TypeNull: byte := 1      // filler block
  const TypeSmt: byte := 2       // stream manipulation table
  const TypeEa: byte := 3        // essence announcement
  const TypeUnknown: byte := 0xff

  datatype Header = Header(
    sync: uint32,
    size: uint32,
    essenceType: byte,
    programIndex: byte,
    streamType: byte,
    streamIndex: byte,
    timestamp: uint64,
    payloadSize: uint32)

  lemma {:induction false} Pow256Widths()
    ensures Pow256(4) == 0x1_0000_0000
    ensures Pow256(8) == 0x1_0000_0000_0000_0000
  {
  }

  /** The 24 header bytes exactly as the packed struct lies in memory. */
  function EncodeHeader(h: Header): (r: seq<byte>)
    ensures |r| == HeaderSize
  {
    Pow256Widths();
    LE(h.sync, 4) + LE(h.size, 4)
    + [h.essenceType, h.programIndex, h.streamType, h.streamIndex]
    + LE(h.timestamp, 8) + LE(h.payloadSize, 4)
  }

  /** Field-by-field decoding of the first 24 bytes of a buffer. */
  function DecodeHeader(s: seq<byte>): (h: Header)
    requires |s| >= HeaderSize
  {
    Pow256Widths();
    Header(FromLE(s[0..4]), FromLE(s[4..8]), s[8], s[9], s[10], s[11],
           FromLE(s[12..20]), FromLE(s[20..24]))
  }

  /** Decoding the encoded header returns every field unchanged. */
  lemma {:induction false} DecodeEncodeHeader(h: Header)
    ensures DecodeHeader(EncodeHeader(h)) == h
  {
    Pow256Widths();
    var r := EncodeHeader(h);
    assert r[0..4] == LE(h.sync, 4);
    assert r[4..8] == LE(h.size, 4);
    assert r[12..20] == LE(h.timestamp, 8);
    assert r[20..24] == LE(h.payloadSize, 4);
    FromLEOfLE(h.sync, 4);
    FromLEOfLE(h.size, 4);
    FromLEOfLE(h.timestamp, 8);
    FromLEOfLE(h.payloadSize, 4);
  }

  /** Every 24-byte window is the encoding of the header it decodes to. */
  lemma {:induction false} EncodeDecodeHeader(s: seq<byte>)
    requires |s| == HeaderSize
    ensures EncodeHeader(DecodeHeader(s)) == s
  {
    var h := DecodeHeader(s);
    var e := EncodeHeader(h);
    assert e[0..4] == LE(h.sync, 4) && e[4..8] == LE(h.size, 4);
    assert e[12..20] == LE(h.timestamp, 8) && e[20..24] == LE(h.payloadSize, 4);
    LEOfFromLE(s[0..4]);
    LEOfFromLE(s[4..8]);
    LEOfFromLE(s[12..20]);
    LEOfFromLE(s[20..24]);
    assert e[8..12] == s[8..12];
    SameFields(e, s);
  }

  /** Two headers' worth of bytes that agree field by field are equal. */
  lemma {:induction false} SameFields(a: seq<byte>, b: seq<byte>)
    requires |a| == HeaderSize && |b| == HeaderSize
    requires a[0..4] == b[0..4] && a[4..8] == b[4..8] && a[8..12] == b[8..12]
    requires a[12..20] == b[12..20] && a[20..24] == b[20..24]
    ensures a == b
  {
    forall i | 0 <= i < HeaderSize
      ensures a[i] == b[i]
    {
      if i < 4 {
        assert a[i] == a[0..4][i] && b[i] == b[0..4][i];
      } else if i < 8 {
        assert a[i] == a[4..8][i - 4] && b[i] == b[4..8][i - 4];
      } else if i < 12 {
        assert a[i] == a[8..12][i - 8] && b[i] == b[8..12][i - 8];
      } else if i < 20 {
        assert a[i] == a[12..20][i - 12] && b[i] == b[12..20][i - 12];
      } else {
        assert a[i] == a[20..24][i - 20] && b[i] == b[20..24][i - 20];
      }
    }
  }

  /** Only the first 24 bytes of a buffer take part in decoding its header. */
  lemma {:induction false} DecodeHeaderPrefix(s: seq<byte>)
    requires |s| >= HeaderSize
    ensures DecodeHeader(s) == DecodeHeader(s[..HeaderSize])
  {
    var t := s[..HeaderSize];
    assert s[0..4] == t[0..4] && s[4..8] == t[4..8];
    assert s[12..20] == t[12..20] && s[20..24] == t[20..24];
  }

  /** A header whose sync field holds the magic number starts with the marker bytes 12 34 56 78. */
  lemma {:induction false} SyncOnWire(h: Header)
    requires h.sync == SyncMagic
    ensures EncodeHeader(h)[..4] == SyncMarker
  {
    Pow256Widths();
    assert EncodeHeader(h)[..4] == LE(SyncMagic, 4);
  }

  /** The marker bytes are the only 4-byte window that reads as the magic number. */
  lemma {:induction false} SyncMarkerIsMagic(w: seq<byte>)
    requires |w| == 4
    ensures FromLE(w) == SyncMagic <==> w == SyncMarker
  {
    Pow256Widths();
    assert FromLE(SyncMarker) == SyncMagic;
    if FromLE(w) == SyncMagic {
      FromLEInjective(w, SyncMarker);
    }
  }

  /** The wire form of a block: the header bytes and the first payload_size payload bytes. */
  function Serialize(h: Header, payload: seq<byte>): (r: seq<byte>)
    requires h.payloadSize <= |payload|
    ensures |r| == HeaderSize + h.payloadSize
  {
    EncodeHeader(h) + payload[..h.payloadSize]
  }

  /** Parsing a serialized block gives back its header and its live payload. */
  lemma {:induction false} SerializeParses(h: Header, payload: seq<byte>)
    requires h.payloadSize <= |payload|
    ensures DecodeHeader(Serialize(h, payload)) == h
    ensures Serialize(h, payload)[HeaderSize..] == payload[..h.payloadSize]
  {
    var r := Serialize(h, payload);
    assert r[..HeaderSize] == EncodeHeader(h);
    DecodeHeaderPrefix(r);
    DecodeEncodeHeader(h);
  }

  /** A block buffer: one allocation holding the header record and, right after it,
      the payload bytes. The payload's length is the capacity it was created with. */
  class Block {
    var header: Header
    var payload: seq<byte>

    /** createEssenceBlock: sync and size are written, the payload is zero-filled.
        The other header fields are uninitialised memory in the allocation, so
        the contract promises nothing about them. */
    constructor Create(capacity: nat)
      ensures header.sync == SyncMagic && header.size == HeaderSize
      ensures |payload| == capacity && forall i :: 0 <= i < capacity ==> payload[i] == 0
    {
      header := Header(SyncMagic, HeaderSize, 0, 0, 0, 0, 0, 0);
      payload := seq(capacity, _ => 0);
    }

    /** The header describes a buffer that can be written out: size is the header size
        and payload_size does not exceed the allocated payload. */
    ghost predicate Wellformed()
      reads this
    {
      header.size == HeaderSize && header.payloadSize <= |payload|
    }

    /** The size + payload_size bytes starting at the block pointer. */
    ghost function Wire(): (r: seq<byte>)
      reads this
      requires Wellformed()
    {
      Serialize(header, payload)
    }

    /** memcpy of src to the start of the payload; the capacity is unchanged. */
    method CopyIn(src: seq<byte>)
      requires |src| <= |payload|
      modifies this`payload
      ensures |payload| == old(|payload|)
      ensures payload[..|src|] == src && payload[|src|..] == old(payload[|src|..])
    {
      payload := src + payload[|src|..];
    }

    /** cloneEssenceBlock: a fresh block with payload capacity payload_size whose first
        size + payload_size bytes equal this block's. */
    method Clone() returns (c: Block)
      requires Wellformed()
      ensures fresh(c)
      ensures c.header == header
      ensures c.payload == payload[..header.payloadSize]
      ensures c.Wellformed() && c.Wire() == Wire()
    {
      c := new Block.Create(header.payloadSize);
      c.header := header;
      c.CopyIn(payload[..header.payloadSize]);
      assert c.payload == c.payload[..header.payloadSize];
    }
  }

  /** destroyEssenceBlock: the pointer is null afterwards, whether or not it was before. */
  method Destroy(b: Block?) returns (r: Block?)
    ensures r == null
  {
    r := null;
  }
}
