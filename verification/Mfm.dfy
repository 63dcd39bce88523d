/** MFM frames: the transmitter's encoder and the receiver's header decoder. */
module Mfm {
  import opened Basics
  import opened Words
  import opened EventData

  const BUFFER_SIZE := 0x400000
  const HEADER_SIZE := 24
  const MFM_FRAME_TYPE: bv16 := 0x4adf

  // ---------- 16-bit fields ----------

  function Low(v: bv16): bv8 { (v & 0xFF) as bv8 }
  function High(v: bv16): bv8 { (v >> 8) as bv8 }

  function Bytes16(v: bv16): (bytes: seq<u8>)
    ensures |bytes| == 2
  {
    [Low(v) as int, High(v) as int]
  }

  function Join16(low: bv8, high: bv8): bv16 { ((high as bv16) << 8) | (low as bv16) }

  function Read16(bytes: seq<u8>, pos: nat): bv16
    requires pos + 2 <= |bytes|
  {
    Join16(bytes[pos] as bv8, bytes[pos + 1] as bv8)
  }

  lemma JoinParts(v: bv16)
    ensures Join16(Low(v), High(v)) == v
  {
  }

  lemma Read16Bytes(bytes: seq<u8>, pos: nat, v: bv16)
    requires pos + 2 <= |bytes| && bytes[pos..pos + 2] == Bytes16(v)
    ensures Read16(bytes, pos) == v
  {
    hide Join16;
    hide Low;
    hide High;
    assert bytes[pos] == bytes[pos..pos + 2][0] && bytes[pos + 1] == bytes[pos..pos + 2][1];
    BitsRoundTrip(Low(v));
    BitsRoundTrip(High(v));
    JoinParts(v);
  }

  lemma Read32Bytes(bytes: seq<u8>, pos: nat, w: Word)
    requires pos + 4 <= |bytes| && bytes[pos..pos + 4] == LittleEndian(w)
    ensures ReadDataWord(bytes, pos) == w
  {
    hide LittleEndian;
    hide ReadDataWord;
    ReadDataWordLocal(bytes, pos);
    ReadLittleEndian(w);
  }

  // ---------- the frame ----------

  // The size in units of 16 bits, as stored: the most significant of its four bytes is overwritten by
  // the data source, 0.
  function SizeField(size: nat): (bytes: seq<u8>)
    ensures |bytes| == 4
  {
    NumberBytes(size % TWO_TO_THE_32 / 2)[3 := 0]
  }

  function Header(e: EventValue, blobSize: nat): (bytes: seq<u8>)
    ensures |bytes| == HEADER_SIZE
  {
    [0xc1] + SizeField(HEADER_SIZE + blobSize)
    + Bytes16(MFM_FRAME_TYPE) + [1]
    + Bytes16(e.tgv.lo) + Bytes16(e.tgv.mid) + Bytes16(e.tgv.hi)
    + LittleEndian(e.eventCounter)
    + [0, 0]
    + NumberBytes(blobSize)
  }

  function Frame(e: EventValue): (bytes: seq<u8>)
    ensures |bytes| == HEADER_SIZE + 4 * |Output(e.modules)|
  {
    Header(e, 4 * |Output(e.modules)|) + ToBytes(Output(e.modules))
  }

  class MfmConverter {
    const mfmevent: array<u8>

    // Bytes 18 and 19 are never written and keep their initial 0.
    ghost predicate Valid()
      reads mfmevent
    {
      mfmevent.Length == BUFFER_SIZE && mfmevent[18] == 0 && mfmevent[19] == 0
    }

    constructor ()
      ensures Valid() && fresh(mfmevent)
    {
      mfmevent := new u8[BUFFER_SIZE](_ => 0);
    }

    // A store of several bytes at an address, aligned or not.
    method Store(pos: nat, bytes: seq<u8>)
      requires pos + |bytes| <= mfmevent.Length
      modifies mfmevent
      ensures forall i :: 0 <= i < mfmevent.Length ==>
                            mfmevent[i] == if pos <= i < pos + |bytes| then bytes[i - pos] else old(mfmevent[i])
    {
      forall i | 0 <= i < |bytes| {
        mfmevent[pos + i] := bytes[i];
      }
    }

    // Bytes 0 to 7: the store of the data source at byte 4 falls on the last byte of the size.
    method WriteStart(mfmeventsize: nat)
      requires Valid()
      modifies mfmevent
      ensures mfmevent[..8] == [0xc1] + SizeField(mfmeventsize) + Bytes16(MFM_FRAME_TYPE) + [1]
      ensures forall i :: 8 <= i < mfmevent.Length ==> mfmevent[i] == old(mfmevent[i])
    {
      hide LittleEndian;
      hide NumberBytes;
      hide Bytes16;
      Store(0, [0xc1]);
      ToU32Bytes(mfmeventsize % TWO_TO_THE_32 / 2);
      Store(1, LittleEndian(ToU32(mfmeventsize % TWO_TO_THE_32 / 2)));
      Store(4, [0x0]);
      Store(5, Bytes16(MFM_FRAME_TYPE));
      Store(7, [0x1]);
    }

    // Bytes 8 to 23.
    method WriteRest(mesyEvent: Event, blobSize: nat)
      requires Valid()
      modifies mfmevent
      ensures mfmevent[8..24]
              == Bytes16(mesyEvent.tgvLo) + Bytes16(mesyEvent.tgvMid) + Bytes16(mesyEvent.tgvHi)
                 + LittleEndian(mesyEvent.eventCounter) + [0, 0] + NumberBytes(blobSize)
      ensures forall i :: 0 <= i < mfmevent.Length && !(8 <= i < 24) ==> mfmevent[i] == old(mfmevent[i])
      ensures Valid()
    {
      hide LittleEndian;
      hide NumberBytes;
      hide Bytes16;
      Store(8, Bytes16(mesyEvent.tgvLo));
      Store(10, Bytes16(mesyEvent.tgvMid));
      Store(12, Bytes16(mesyEvent.tgvHi));
      Store(14, LittleEndian(mesyEvent.eventCounter));
      ToU32Bytes(blobSize);
      Store(20, LittleEndian(ToU32(blobSize)));
    }

    // None when the event has no modules: then no frame is sent. A larger event overruns the buffer.
    method Convert(mesyEvent: Event) returns (msg: Option<seq<u8>>)
      requires Valid()
      requires HEADER_SIZE + 4 * |Output(mesyEvent.modules)| <= BUFFER_SIZE
      modifies mfmevent
      ensures Valid()
      ensures msg == if mesyEvent.modules == [] then None else Some(Frame(mesyEvent.Value()))
    {
      hide LittleEndian;
      hide NumberBytes;
      hide SizeField;
      hide Bytes16;
      hide Output;
      hide ToBytes;
      if !mesyEvent.HasData() {
        return None;
      }
      var size := mesyEvent.SizeOfBuffer();
      var mfmeventsize := 24 + size * 4;
      WriteStart(mfmeventsize);
      ghost var start := mfmevent[..8];
      WriteRest(mesyEvent, size * 4);
      assert mfmevent[..8] == start;
      assert mfmevent[..24] == mfmevent[..8] + mfmevent[8..24];
      ghost var header := mfmevent[..24];
      assert header == Header(mesyEvent.Value(), size * 4);
      var buffer := mesyEvent.GetOutputBuffer();
      Store(24, ToBytes(buffer));
      assert mfmevent[..24] == header;
      assert mfmevent[24..mfmeventsize] == ToBytes(buffer);
      assert mfmevent[..mfmeventsize] == mfmevent[..24] + mfmevent[24..mfmeventsize];
      msg := Some(mfmevent[..mfmeventsize]);
    }
  }

  // ---------- the decoder ----------

  // The size check is an assertion in the source; the other two failures are exceptions.
  datatype Decoded =
    | MfmHeader(frameSize: nat, frameType: bv16, blobSize: nat)
    | TooShort
    | SizeMismatch
    | NotMesytec

  function FrameSizeOf(msg: seq<u8>): nat
    requires |msg| >= HEADER_SIZE
  {
    ToNat(ReadDataWord(msg, 1)) * 2 % TWO_TO_THE_32
  }

  function DecodeHeader(msg: seq<u8>): Decoded {
    if |msg| < HEADER_SIZE then TooShort
    else if |msg| != FrameSizeOf(msg) then SizeMismatch
    else if Read16(msg, 5) != MFM_FRAME_TYPE then NotMesytec
    else MfmHeader(FrameSizeOf(msg), Read16(msg, 5), ToNat(ReadDataWord(msg, 20)))
  }

  // ---------- round trip ----------

  lemma ToNatBytes(bytes: seq<u8>, pos: nat)
    requires pos + 4 <= |bytes|
    ensures ToNat(ReadDataWord(bytes, pos))
            == BytesNumber(bytes[pos], bytes[pos + 1], bytes[pos + 2], bytes[pos + 3])
  {
    hide LittleEndian;
    hide ReadDataWord;
    hide BytesNumber;
    LittleEndianRead(bytes, pos);
    var b := bytes[pos..pos + 4];
    assert b[0] == bytes[pos] && b[1] == bytes[pos + 1] && b[2] == bytes[pos + 2] && b[3] == bytes[pos + 3];
  }

  // What a size becomes when it is stored and read back.
  function StoredSize(size: nat): nat {
    var b := SizeField(size);
    BytesNumber(b[0], b[1], b[2], b[3]) * 2 % TWO_TO_THE_32
  }

  lemma ThreeBytes(n: nat)
    ensures BytesNumber(n % 0x100, n / 0x100 % 0x100, n / 0x10000 % 0x100, 0) == n % 0x1000000
  {
    var q1, q2 := n / 0x100, n / 0x10000;
    assert q2 == q1 / 0x100;
  }

  lemma HalvedAndDoubled(size: nat)
    requires size % 2 == 0
    ensures size % TWO_TO_THE_32 / 2 % 0x1000000 * 2 == size <==> size < 0x2000000
  {
    var n := size % TWO_TO_THE_32 / 2;
    assert n % 0x1000000 * 2 < 0x2000000;
    if size < 0x2000000 {
      assert n == size / 2;
    }
  }

  // An even size survives exactly when it fits in three bytes of 16-bit units.
  lemma SizeSurvives(size: nat)
    requires size % 2 == 0
    ensures StoredSize(size) == size <==> size < 0x2000000
  {
    hide BytesNumber;
    var n := size % TWO_TO_THE_32 / 2;
    ThreeBytes(n);
    assert StoredSize(size) == n % 0x1000000 * 2 % TWO_TO_THE_32;
    assert n % 0x1000000 * 2 < 0x2000000;
    HalvedAndDoubled(size);
  }

  lemma HeaderFields(e: EventValue, blobSize: nat)
    ensures var h := Header(e, blobSize);
            && h[1..5] == SizeField(HEADER_SIZE + blobSize)
            && h[5..7] == Bytes16(MFM_FRAME_TYPE)
            && h[8..10] == Bytes16(e.tgv.lo) && h[10..12] == Bytes16(e.tgv.mid) && h[12..14] == Bytes16(e.tgv.hi)
            && h[14..18] == LittleEndian(e.eventCounter)
            && h[20..24] == NumberBytes(blobSize)
  {
    hide LittleEndian;
    hide NumberBytes;
    hide Bytes16;
    hide SizeField;
  }

  // Every frame is accepted by the decoder, which recovers its size and that of its blob; and the
  // timestamp and the event counter can be read back.
  lemma FrameRoundTrip(e: EventValue)
    requires HEADER_SIZE + 4 * |Output(e.modules)| <= BUFFER_SIZE
    ensures var f := Frame(e);
            && DecodeHeader(f) == MfmHeader(|f|, MFM_FRAME_TYPE, 4 * |Output(e.modules)|)
            && |f| == HEADER_SIZE + 4 * |Output(e.modules)|
            && Read16(f, 8) == e.tgv.lo && Read16(f, 10) == e.tgv.mid && Read16(f, 12) == e.tgv.hi
            && ReadDataWord(f, 14) == e.eventCounter
  {
    hide LittleEndian;
    hide ReadDataWord;
    hide Read16;
    hide Bytes16;
    hide SizeField;
    hide Header;
    hide BytesNumber;
    hide Output;
    hide ToBytes;
    hide WordsOf;
    hide NumberBytes;
    hide ToNat;
    var blobSize := 4 * |Output(e.modules)|;
    var h, f := Header(e, blobSize), Frame(e);
    HeaderFields(e, blobSize);
    assert forall i, j :: 0 <= i <= j <= 24 ==> f[i..j] == h[i..j];
    Read16Bytes(f, 5, MFM_FRAME_TYPE);
    Read16Bytes(f, 8, e.tgv.lo);
    Read16Bytes(f, 10, e.tgv.mid);
    Read16Bytes(f, 12, e.tgv.hi);
    Read32Bytes(f, 14, e.eventCounter);
    NumberRead(f, 1, SizeField(HEADER_SIZE + blobSize));
    SizeSurvives(HEADER_SIZE + blobSize);
    NumberRead(f, 20, NumberBytes(blobSize));
    BlobSizeSurvives(blobSize);
  }

  // Every frame, byte by byte: its marker, its size in units of 16 bits, the type 0x4adf and revision 1,
  // the timestamp words and the event counter, least significant byte first, and the size of the blob.
  lemma FrameBytes(e: EventValue)
    requires 24 + 4 * |Output(e.modules)| <= 0x400000
    ensures var f := Frame(e);
            && |f| == 24 + 4 * |Output(e.modules)|
            && f[0] == 0xc1 && f[4] == 0 && f[5] == 0xdf && f[6] == 0x4a && f[7] == 1 && f[18] == 0 && f[19] == 0
            && 2 * (f[1] as int + 0x100 * f[2] as int + 0x10000 * f[3] as int) == |f|
            && f[8..10] == Bytes16(e.tgv.lo) && f[10..12] == Bytes16(e.tgv.mid) && f[12..14] == Bytes16(e.tgv.hi)
            && f[14..18] == LittleEndian(e.eventCounter)
            && f[20] as int + 0x100 * f[21] as int + 0x10000 * f[22] as int + 0x1000000 * f[23] as int
               == 4 * |Output(e.modules)|
            && f[24..] == ToBytes(Output(e.modules))
  {
    hide LittleEndian;
    hide Bytes16;
    hide Output;
    hide ToBytes;
    hide Header;
    hide NumberBytes;
    hide SizeField;
    var blobSize := 4 * |Output(e.modules)|;
    var f, h := Frame(e), Header(e, blobSize);
    HeaderNumbers(e, blobSize);
    HeaderFields(e, blobSize);
    assert f[..24] == h && f[24..] == ToBytes(Output(e.modules));
    SameFront(f, h);
  }

  lemma SameFront(f: seq<u8>, h: seq<u8>)
    requires |h| == 24 <= |f| && f[..24] == h
    ensures forall i :: 0 <= i < 24 ==> f[i] == h[i]
    ensures f[8..10] == h[8..10] && f[10..12] == h[10..12] && f[12..14] == h[12..14] && f[14..18] == h[14..18]
  {
    assert forall i :: 0 <= i < 24 ==> f[i] == f[..24][i];
  }

  lemma HeaderNumbers(e: EventValue, blobSize: nat)
    requires blobSize % 2 == 0 && 24 + blobSize <= 0x400000
    ensures var h := Header(e, blobSize);
            && h[0] == 0xc1 && h[4] == 0 && h[5] == 0xdf && h[6] == 0x4a && h[7] == 1 && h[18] == 0 && h[19] == 0
            && 2 * (h[1] as int + 0x100 * h[2] as int + 0x10000 * h[3] as int) == 24 + blobSize
            && h[20] as int + 0x100 * h[21] as int + 0x10000 * h[22] as int + 0x1000000 * h[23] as int == blobSize
  {
    hide LittleEndian;
    hide NumberBytes;
    hide SizeField;
    hide BytesNumber;
    hide Bytes16;
    var b := NumberBytes(blobSize);
    SizeFieldIs(24 + blobSize);
    BlobSizeSurvives(blobSize);
    BytesAre(b[0], b[1], b[2], b[3]);
    TypeBytes();
  }

  lemma TypeBytes()
    ensures Bytes16(MFM_FRAME_TYPE) == [0xdf, 0x4a]
  {
  }

  // The less significant byte first.
  lemma Bytes16Are(v: bv16)
    ensures Bytes16(v) == [(v & 0xFF) as bv8 as int, (v >> 8) as bv8 as int]
  {
  }

  lemma SizeFieldIs(size: nat)
    requires size % 2 == 0 && size < 0x2000000
    ensures var b := SizeField(size);
            b[3] == 0 && 2 * (b[0] as int + 0x100 * b[1] as int + 0x10000 * b[2] as int) == size
  {
    hide BytesNumber;
    var n := size / 2;
    assert size % TWO_TO_THE_32 / 2 == n;
    ThreeBytes(n);
    assert n % 0x1000000 == n;
    BytesAre(n % 0x100, n / 0x100 % 0x100, n / 0x10000 % 0x100, 0);
  }

  lemma BytesAre(b0: int, b1: int, b2: int, b3: int)
    ensures BytesNumber(b0, b1, b2, b3) == b0 + 0x100 * b1 + 0x10000 * b2 + 0x1000000 * b3
  {
  }

  // Which messages the decoder accepts, and what it makes of them, from their bytes.
  lemma DecoderAccepts(msg: seq<u8>)
    ensures DecodeHeader(msg)
            == if |msg| < 24 then TooShort
               else if |msg| != (msg[1] as int + 0x100 * msg[2] as int + 0x10000 * msg[3] as int
                                 + 0x1000000 * msg[4] as int) * 2 % 0x1_0000_0000
               then SizeMismatch
               else if msg[5] != 0xdf || msg[6] != 0x4a then NotMesytec
               else MfmHeader(|msg|, 0x4adf, msg[20] as int + 0x100 * msg[21] as int + 0x10000 * msg[22] as int
                                             + 0x1000000 * msg[23] as int)
  {
    hide ReadDataWord;
    hide ToNat;
    hide FrameSizeOf;
    hide Read16;
    if |msg| >= 24 {
      SizeFromBytes(msg);
      BlobSizeFromBytes(msg);
      TypeFromBytes(msg[5], msg[6]);
      assert Read16(msg, 5) == Join16(msg[5] as bv8, msg[6] as bv8) by {
        TypeIsJoined(msg);
      }
    }
  }

  lemma TypeIsJoined(msg: seq<u8>)
    requires |msg| >= 24
    ensures Read16(msg, 5) == Join16(msg[5] as bv8, msg[6] as bv8)
  {
  }

  lemma SizeFromBytes(msg: seq<u8>)
    requires |msg| >= 24
    ensures FrameSizeOf(msg) == (msg[1] as int + 0x100 * msg[2] as int + 0x10000 * msg[3] as int
                                 + 0x1000000 * msg[4] as int) * 2 % 0x1_0000_0000
  {
    hide ReadDataWord;
    hide ToNat;
    hide BytesNumber;
    ToNatBytes(msg, 1);
    BytesAre(msg[1], msg[2], msg[3], msg[4]);
  }

  lemma BlobSizeFromBytes(msg: seq<u8>)
    requires |msg| >= 24
    ensures ToNat(ReadDataWord(msg, 20)) == msg[20] as int + 0x100 * msg[21] as int + 0x10000 * msg[22] as int
                                            + 0x1000000 * msg[23] as int
  {
    hide ReadDataWord;
    hide ToNat;
    hide BytesNumber;
    ToNatBytes(msg, 20);
    BytesAre(msg[20], msg[21], msg[22], msg[23]);
  }

  lemma TypeFromBytes(low: u8, high: u8)
    ensures Join16(low as bv8, high as bv8) == 0x4adf <==> low == 0xdf && high == 0x4a
  {
    JoinIsType(low as bv8, high as bv8);
    ByteRoundTrip(low);
    ByteRoundTrip(high);
  }

  lemma JoinIsType(low: bv8, high: bv8)
    ensures Join16(low, high) == 0x4adf <==> low == 0xdf && high == 0x4a
  {
  }

  // The blob is exactly the serialised words.
  lemma BlobRoundTrip(e: EventValue)
    ensures Frame(e)[HEADER_SIZE..] == ToBytes(Output(e.modules))
    ensures WordsOf(ToBytes(Output(e.modules))) == Output(e.modules)
  {
    hide Header;
    hide Output;
    hide ToBytes;
    WordsOfToBytes(Output(e.modules));
  }

  lemma NumberRead(bytes: seq<u8>, pos: nat, field: seq<u8>)
    requires pos + 4 <= |bytes| && |field| == 4 && bytes[pos..pos + 4] == field
    ensures ToNat(ReadDataWord(bytes, pos)) == BytesNumber(field[0], field[1], field[2], field[3])
  {
    hide ReadDataWord;
    hide ToNat;
    hide BytesNumber;
    ToNatBytes(bytes, pos);
    assert field[0] == bytes[pos] && field[1] == bytes[pos + 1];
    assert field[2] == bytes[pos + 2] && field[3] == bytes[pos + 3];
  }

  lemma BlobSizeSurvives(n: nat)
    requires n < TWO_TO_THE_32
    ensures var b := NumberBytes(n); BytesNumber(b[0], b[1], b[2], b[3]) == n
  {
    hide NumberBytes;
    hide BytesNumber;
    NumberBytesAdd(n);
  }
}
