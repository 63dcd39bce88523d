/** 32-bit data words, their classification, and their little-endian byte form. */
module Words {

  // An uint8_t as a number: bytes, module addresses, channel counts.
  type u8 = x: int | 0 <= x < 0x100

  // An uint32_t as a bit pattern.
  datatype Word = Word(bits: bv32)

  const TWO_TO_THE_32 := 0x1_0000_0000

  // A 32-bit counter.
  function Wrap32(n: nat): nat { n % TWO_TO_THE_32 }

  // ---------- classification ----------

  predicate IsModuleHeader(w: Word) { w.bits & 0xF0000000 == 0x40000000 }

  predicate IsEndOfEvent(w: Word) { w.bits & 0xC0000000 == 0xC0000000 }

  predicate IsFillWord(w: Word) { w.bits == 0 }

  predicate IsMdppData(w: Word) { w.bits & 0xF0000000 == 0x10000000 }

  predicate IsVmmrAdcData(w: Word) { w.bits & 0xF0000000 == 0x10000000 }

  predicate IsVmmrTdcData(w: Word) { w.bits & 0xF0FF0000 == 0x20000000 }

  predicate IsVmmrData(w: Word) { IsVmmrAdcData(w) || IsVmmrTdcData(w) }

  predicate IsMesytecData(w: Word) { IsMdppData(w) || IsVmmrData(w) }

  // Super, stack, block read, stack error, continuation, system event.
  predicate IsFrameHeader(w: Word) {
    var kind := (w.bits >> 24) & 0xFF;
    kind == 0xF1 || kind == 0xF3 || kind == 0xF5 || kind == 0xF7 || kind == 0xF9 || kind == 0xFA
  }

  function ModuleId(w: Word): u8 {
    ((w.bits & 0x00FF0000) / 0x10000) as bv8 as int
  }

  function LengthOfDataMdpp(w: Word): bv16 { (w.bits & 0x3FF) as bv16 }

  function LengthOfDataVmmr(w: Word): bv16 { (w.bits & 0xFFF) as bv16 }

  function EventCounter(w: Word): Word { Word(w.bits & 0x3FFFFFFF) }

  // The kinds of word the readers branch on exclude each other, so the order of
  // their tests does not matter; a frame header is always an end-of-event word.
  lemma KindsExcludeEachOther(w: Word)
    ensures IsModuleHeader(w) ==> !IsMesytecData(w) && !IsEndOfEvent(w) && !IsFillWord(w)
    ensures IsMesytecData(w) ==> !IsEndOfEvent(w) && !IsFillWord(w)
    ensures IsFrameHeader(w) ==> IsEndOfEvent(w)
  {
  }

  // ---------- bytes ----------

  function Byte0(w: Word): bv8 { (w.bits & 0xFF) as bv8 }
  function Byte1(w: Word): bv8 { ((w.bits >> 8) & 0xFF) as bv8 }
  function Byte2(w: Word): bv8 { ((w.bits >> 16) & 0xFF) as bv8 }
  function Byte3(w: Word): bv8 { (w.bits >> 24) as bv8 }

  function FromBytes(b0: bv8, b1: bv8, b2: bv8, b3: bv8): Word {
    Word(b0 as bv32 + ((b1 as bv32) << 8) + ((b2 as bv32) << 16) + ((b3 as bv32) << 24))
  }

  lemma BytesOfWord(b0: bv8, b1: bv8, b2: bv8, b3: bv8)
    ensures var w := FromBytes(b0, b1, b2, b3);
            Byte0(w) == b0 && Byte1(w) == b1 && Byte2(w) == b2 && Byte3(w) == b3
  {
  }

  lemma WordOfBytes(w: Word)
    ensures FromBytes(Byte0(w), Byte1(w), Byte2(w), Byte3(w)) == w
  {
  }

  lemma BitsRoundTrip(b: bv8)
    ensures b as int as bv8 == b
  {
  }

  // Proved by halves: a solver finds 4 bits much easier than 8.
  lemma NibbleRoundTrip(b: int)
    requires 0 <= b < 0x10
    ensures b as bv4 as int == b
  {
  }

  lemma NibblesJoin(high: bv4, low: bv4)
    ensures (((high as bv8) << 4) | (low as bv8)) as int == 0x10 * (high as int) + low as int
  {
  }

  lemma BitsDetermined(b: u8, bits: bv8)
    requires bits as int == b
    ensures b as bv8 == bits
  {
  }

  lemma ByteRoundTrip(b: u8)
    ensures b as bv8 as int == b
  {
    var high, low := (b / 0x10) as bv4, (b % 0x10) as bv4;
    NibbleRoundTrip(b / 0x10);
    NibbleRoundTrip(b % 0x10);
    NibblesJoin(high, low);
    BitsDetermined(b, ((high as bv8) << 4) | (low as bv8));
  }

  function LittleEndian(w: Word): (bytes: seq<u8>)
    ensures |bytes| == 4
  {
    [Byte0(w) as int, Byte1(w) as int, Byte2(w) as int, Byte3(w) as int]
  }

  function ReadDataWord(bytes: seq<u8>, pos: nat): Word
    requires pos + 4 <= |bytes|
  {
    FromBytes(bytes[pos] as bv8, bytes[pos + 1] as bv8, bytes[pos + 2] as bv8, bytes[pos + 3] as bv8)
  }

  lemma ReadLittleEndian(w: Word)
    ensures ReadDataWord(LittleEndian(w), 0) == w
  {
    hide FromBytes;
    hide Byte0;
    hide Byte1;
    hide Byte2;
    hide Byte3;
    WordOfBytes(w);
    BitsRoundTrip(Byte0(w));
    BitsRoundTrip(Byte1(w));
    BitsRoundTrip(Byte2(w));
    BitsRoundTrip(Byte3(w));
  }

  lemma LittleEndianRead(bytes: seq<u8>, pos: nat)
    requires pos + 4 <= |bytes|
    ensures LittleEndian(ReadDataWord(bytes, pos)) == bytes[pos..pos + 4]
  {
    hide FromBytes;
    hide Byte0;
    hide Byte1;
    hide Byte2;
    hide Byte3;
    BytesOfWord(bytes[pos] as bv8, bytes[pos + 1] as bv8, bytes[pos + 2] as bv8, bytes[pos + 3] as bv8);
    ByteRoundTrip(bytes[pos]);
    ByteRoundTrip(bytes[pos + 1]);
    ByteRoundTrip(bytes[pos + 2]);
    ByteRoundTrip(bytes[pos + 3]);
  }

  // A word depends only on its own four bytes.
  lemma ReadDataWordLocal(bytes: seq<u8>, pos: nat)
    requires pos + 4 <= |bytes|
    ensures ReadDataWord(bytes, pos) == ReadDataWord(bytes[pos..pos + 4], 0)
  {
    hide FromBytes;
    var s := bytes[pos..pos + 4];
    assert bytes[pos] == s[0] && bytes[pos + 1] == s[1] && bytes[pos + 2] == s[2] && bytes[pos + 3] == s[3];
  }

  // The bytes of a number, and the conversion of a size_t to uint32_t: the low 32 bits.
  function NumberBytes(n: nat): (bytes: seq<u8>)
    ensures |bytes| == 4
  {
    [n % 0x100, n / 0x100 % 0x100, n / 0x10000 % 0x100, n / 0x1000000 % 0x100]
  }

  function ToU32(n: nat): Word { ReadDataWord(NumberBytes(n), 0) }

  function BytesNumber(b0: int, b1: int, b2: int, b3: int): int {
    b0 + 0x100 * b1 + 0x10000 * b2 + 0x1000000 * b3
  }

  function ToNat(w: Word): nat {
    var b := LittleEndian(w);
    BytesNumber(b[0], b[1], b[2], b[3])
  }

  lemma NumberBytesAdd(n: nat)
    ensures var b := NumberBytes(n);
            BytesNumber(b[0], b[1], b[2], b[3]) == n % TWO_TO_THE_32
  {
    var q1, q2, q3, q4 := n / 0x100, n / 0x10000, n / 0x1000000, n / TWO_TO_THE_32;
    assert q2 == q1 / 0x100 && q3 == q2 / 0x100 && q4 == q3 / 0x100;
  }

  lemma ToU32Bytes(n: nat)
    ensures LittleEndian(ToU32(n)) == NumberBytes(n)
  {
    hide LittleEndian;
    hide ReadDataWord;
    var b := NumberBytes(n);
    LittleEndianRead(b, 0);
    assert b[0..4] == b;
  }

  // The conversion keeps a number exactly when it fits in 32 bits.
  lemma ToNatToU32(n: nat)
    ensures ToNat(ToU32(n)) == n % TWO_TO_THE_32
    ensures ToNat(ToU32(n)) == n <==> n < TWO_TO_THE_32
  {
    hide LittleEndian;
    hide ToU32;
    hide NumberBytes;
    ToU32Bytes(n);
    NumberBytesAdd(n);
  }

  // ---------- sequences of words as bytes ----------

  function ToBytes(words: seq<Word>): (bytes: seq<u8>)
    ensures |bytes| == 4 * |words| && |bytes| % 4 == 0
  {
    if words == [] then [] else ToBytes(words[..|words| - 1]) + LittleEndian(words[|words| - 1])
  }

  function WordsOf(bytes: seq<u8>): (words: seq<Word>)
    requires |bytes| % 4 == 0
    ensures |words| == |bytes| / 4
  {
    seq(|bytes| / 4, i requires 0 <= i < |bytes| / 4 => ReadDataWord(bytes, 4 * i))
  }

  lemma {:induction false} ToBytesAt(words: seq<Word>, i: nat)
    requires i < |words|
    ensures ToBytes(words)[4 * i..4 * i + 4] == LittleEndian(words[i])
  {
    hide LittleEndian;
    var n := |words| - 1;
    var init := words[..n];
    if i < n {
      ToBytesAt(init, i);
      assert ToBytes(words)[4 * i..4 * i + 4] == ToBytes(init)[4 * i..4 * i + 4];
    } else {
      assert ToBytes(words)[4 * i..4 * i + 4] == LittleEndian(words[n]);
    }
  }

  lemma WordsOfToBytes(words: seq<Word>)
    ensures WordsOf(ToBytes(words)) == words
  {
    hide LittleEndian;
    hide ReadDataWord;
    hide ToBytes;
    var bytes := ToBytes(words);
    forall i | 0 <= i < |words|
      ensures WordsOf(bytes)[i] == words[i]
    {
      ToBytesAt(words, i);
      ReadLittleEndian(words[i]);
      ReadDataWordLocal(bytes, 4 * i);
    }
  }

  // ---------- what the masks mean ----------

  lemma LittleEndianOfNumber(b3: bv8, b2: bv8, b1: bv8, b0: bv8)
    ensures var w := Word(((b3 as bv32) << 24) | ((b2 as bv32) << 16) | ((b1 as bv32) << 8) | (b0 as bv32));
            && LittleEndian(w) == [b0 as int, b1 as int, b2 as int, b3 as int]
            && ReadDataWord([b0 as int, b1 as int, b2 as int, b3 as int], 0) == w
  {
    var w := Word(((b3 as bv32) << 24) | ((b2 as bv32) << 16) | ((b1 as bv32) << 8) | (b0 as bv32));
    BytesOfNumber(b3, b2, b1, b0);
    assert LittleEndian(w) == [b0 as int, b1 as int, b2 as int, b3 as int] by {
      hide Byte0;
      hide Byte1;
      hide Byte2;
      hide Byte3;
    }
    ReadLittleEndian(w);
  }

  lemma BytesOfNumber(b3: bv8, b2: bv8, b1: bv8, b0: bv8)
    ensures var w := Word(((b3 as bv32) << 24) | ((b2 as bv32) << 16) | ((b1 as bv32) << 8) | (b0 as bv32));
            Byte0(w) == b0 && Byte1(w) == b1 && Byte2(w) == b2 && Byte3(w) == b3
  {
  }

  // The kind of a word is decided by its value: by the range it lies in, and for VMMR TDC data by its
  // third byte, which must be 0.
  lemma KindsByValue(w: Word)
    ensures IsModuleHeader(w) <==> 0x40000000 <= w.bits < 0x50000000
    ensures IsEndOfEvent(w) <==> w.bits >= 0xC0000000
    ensures IsFillWord(w) <==> w.bits == 0
    ensures IsMdppData(w) <==> 0x10000000 <= w.bits < 0x20000000
    ensures IsVmmrAdcData(w) <==> 0x10000000 <= w.bits < 0x20000000
    ensures IsVmmrTdcData(w) <==> 0x20000000 <= w.bits < 0x30000000 && Byte2(w) == 0
    ensures IsVmmrData(w) <==> IsMesytecData(w)
    ensures IsMesytecData(w) <==>
            0x10000000 <= w.bits < 0x20000000 || (0x20000000 <= w.bits < 0x30000000 && Byte2(w) == 0)
    ensures IsFrameHeader(w) <==> Byte3(w) in [0xF1, 0xF3, 0xF5, 0xF7, 0xF9, 0xFA]
  {
  }

  // Every id can be put into a header word, and is read from there.
  lemma HeaderOfId(id: u8, low: bv16)
    ensures var w := Word(0x40000000 | ((id as bv8 as bv32) << 16) | (low as bv32));
            IsModuleHeader(w) && ModuleId(w) == id
  {
    IdBits(id as bv8, low);
    ByteRoundTrip(id);
  }

  lemma IdBits(id: bv8, low: bv16)
    ensures var w := Word(0x40000000 | ((id as bv32) << 16) | (low as bv32));
            IsModuleHeader(w) && ((w.bits & 0x00FF0000) / 0x10000) as bv8 == id
  {
  }

  lemma ModuleIdIsThirdByte(w: Word)
    ensures ModuleId(w) == Byte2(w) as int
  {
    assert ((w.bits & 0x00FF0000) / 0x10000) as bv8 == Byte2(w);
  }

  // Below the id, a header holds the setting and a length of 10 bits, or a length of 12 bits.
  lemma LengthInHeader(id: bv8, setting: bv6, length: bv10)
    ensures LengthOfDataMdpp(Word(0x40000000 | ((id as bv32) << 16) | ((setting as bv32) << 10) | (length as bv32)))
            == length as bv16
  {
  }

  lemma LongLengthInHeader(id: bv8, setting: bv4, length: bv12)
    ensures LengthOfDataVmmr(Word(0x40000000 | ((id as bv32) << 16) | ((setting as bv32) << 12) | (length as bv32)))
            == length as bv16
  {
  }

  // Below its two marker bits, an end-of-event word holds the event counter.
  lemma CounterInEndOfEvent(n: bv32)
    requires n < 0x40000000
    ensures IsEndOfEvent(Word(0xC0000000 | n)) && EventCounter(Word(0xC0000000 | n)) == Word(n)
  {
  }

  lemma EndOfEventHoldsCounter(w: Word)
    requires IsEndOfEvent(w)
    ensures EventCounter(w).bits < 0x40000000
    ensures w == Word(0xC0000000 | EventCounter(w).bits)
  {
    CounterBits(w.bits);
  }

  lemma CounterBits(x: bv32)
    ensures x & 0x3FFFFFFF < 0x40000000
    ensures x & 0xC0000000 == 0xC0000000 ==> 0xC0000000 | (x & 0x3FFFFFFF) == x
  {
  }

  lemma WrapsAt32Bits(n: nat)
    ensures n < 0x1_0000_0000 ==> Wrap32(n) == n
    ensures Wrap32(n + 0x1_0000_0000) == Wrap32(n)
  {
  }
}
