/** The modules of a VME crate: what a description fixes, and how a module decodes a data word. */
module VmeModules {
  import opened Basics
  import opened Words

  datatype Firmware =
    | UNKNOWN | MDPP_SCP | MDPP_QDC | MDPP_CSI | VMMR | TGV | START_READOUT | END_READOUT | MVLC_SCALER

  datatype DataType = Unknown | ADC | TDC | QDC_long | QDC_short | Trigger_time

  // The arguments a module is constructed with; nchan counts channels (MDPP) or buses (VMMR).
  datatype ModuleDesc = ModuleDesc(name: string, id: u8, nchan: u8, firmware: Firmware) {

    // As in the source, MDPP_CSI is not an "MDPP module" here...
    predicate IsMdppModule() { firmware == MDPP_QDC || firmware == MDPP_SCP }

    predicate IsVmmrModule() { firmware == VMMR }

    predicate IsMesytecModule() { IsMdppModule() || IsVmmrModule() }

    predicate IsTgvModule() { firmware == TGV }

    predicate IsMvlcScaler() { firmware == MVLC_SCALER }

    // ... although the constructor sets it up like the other two.
    predicate HasMdppLayout() { IsMdppModule() || firmware == MDPP_CSI }

    // Modules whose constructor sets the masks that decoding divides by.
    predicate Decodable() { HasMdppLayout() || IsVmmrModule() }

    // What the constructor accepts: an MDPP has 16 or 32 channels.
    predicate Constructible() { HasMdppLayout() ==> nchan == 16 || nchan == 32 }
  }

  lemma FirmwareGroups(d: ModuleDesc)
    ensures d.IsMesytecModule() <==> d.firmware in {MDPP_SCP, MDPP_QDC, VMMR}
    ensures d.Decodable() <==> d.firmware in {MDPP_SCP, MDPP_QDC, MDPP_CSI, VMMR}
    ensures d.IsVmmrModule() <==> d.firmware == VMMR
    ensures d.IsTgvModule() <==> d.firmware == TGV
    ensures d.IsMvlcScaler() <==> d.firmware == MVLC_SCALER
    ensures d.Constructible() <==> d.firmware in {MDPP_SCP, MDPP_QDC, MDPP_CSI} ==> d.nchan == 16 || d.nchan == 32
  {
  }

  // ---------- the bit fields of a data word, by description ----------

  function ChannelNumber(d: ModuleDesc, w: Word): bv8 {
    if d.IsVmmrModule() then
      if IsVmmrAdcData(w) then ((w.bits >> 12) & 0xFF) as bv8 else 0
    else if d.nchan == 16 then ((w.bits >> 16) & 0xF) as bv8
    else ((w.bits >> 16) & 0x1F) as bv8
  }

  function BusNumber(d: ModuleDesc, w: Word): bv8 {
    if d.IsVmmrModule() then ((w.bits >> 24) & 0xF) as bv8 else 0
  }

  function ChannelDatum(d: ModuleDesc, w: Word): bv16 {
    if d.IsVmmrModule() && IsVmmrAdcData(w) then (w.bits & 0xFFF) as bv16 else (w.bits & 0xFFFF) as bv16
  }

  // The two flag bits sit above the channel number, whose width depends on the module.
  function ChannelFlags(d: ModuleDesc, w: Word): bv8 {
    if d.nchan == 16 then ((w.bits >> 20) & 0x3) as bv8 else ((w.bits >> 21) & 0x3) as bv8
  }

  function DataTypeOf(d: ModuleDesc, w: Word): DataType {
    if d.IsVmmrModule() then
      if IsVmmrAdcData(w) then ADC else TDC
    else
      var flags := ChannelFlags(d, w);
      if flags == 0 then (if d.firmware == MDPP_QDC then QDC_long else ADC)
      else if flags == 1 then TDC
      else if flags == 2 then Trigger_time
      else QDC_short
  }

  // A field cut out by a mask and a divisor, as the source does it.
  function Extract(w: Word, mask: bv32, div: bv32): bv8
    requires div != 0
  {
    (((w.bits & mask) / div) & 0xFF) as bv8
  }

  lemma ExtractedFields(w: Word)
    ensures Extract(w, 0x000F0000, 0x10000) == ((w.bits >> 16) & 0xF) as bv8
    ensures Extract(w, 0x001F0000, 0x10000) == ((w.bits >> 16) & 0x1F) as bv8
    ensures Extract(w, 0x00300000, 0x00100000) == ((w.bits >> 20) & 0x3) as bv8
    ensures Extract(w, 0x00600000, 0x00200000) == ((w.bits >> 21) & 0x3) as bv8
    ensures Extract(w, 0x00fff000, 0x00001000) == ((w.bits >> 12) & 0xFF) as bv8
    ensures Extract(w, 0x0f000000, 0x01000000) == ((w.bits >> 24) & 0xF) as bv8
  {
    var x := w.bits;
    assert (((x & 0x000F0000) / 0x10000) & 0xFF) as bv8 == ((x >> 16) & 0xF) as bv8;
    assert (((x & 0x001F0000) / 0x10000) & 0xFF) as bv8 == ((x >> 16) & 0x1F) as bv8;
    assert (((x & 0x00300000) / 0x00100000) & 0xFF) as bv8 == ((x >> 20) & 0x3) as bv8;
    assert (((x & 0x00600000) / 0x00200000) & 0xFF) as bv8 == ((x >> 21) & 0x3) as bv8;
    assert (((x & 0x00fff000) / 0x00001000) & 0xFF) as bv8 == ((x >> 12) & 0xFF) as bv8;
    assert (((x & 0x0f000000) / 0x01000000) & 0xFF) as bv8 == ((x >> 24) & 0xF) as bv8;
  }

  // The layouts of data words: the fields in their places, all other bits clear.
  function VmmrAdcWord(bus: bv32, channel: bv32, datum: bv32): bv32 {
    0x10000000 | (bus << 24) | (channel << 12) | datum
  }

  function VmmrTdcWord(bus: bv32, datum: bv32): bv32 { 0x20000000 | (bus << 24) | datum }

  function Mdpp16Word(flags: bv32, channel: bv32, datum: bv32): bv32 {
    0x10000000 | (flags << 20) | (channel << 16) | datum
  }

  function Mdpp32Word(flags: bv32, channel: bv32, datum: bv32): bv32 {
    0x10000000 | (flags << 21) | (channel << 16) | datum
  }

  // The word that a module would send for these fields.
  function Compose(d: ModuleDesc, kind: DataType, bus: bv8, channel: bv8, datum: bv16): Word {
    if d.IsVmmrModule() then
      if kind == ADC then Word(VmmrAdcWord(bus as bv32, channel as bv32, datum as bv32))
      else Word(VmmrTdcWord(bus as bv32, datum as bv32))
    else if d.nchan == 16 then Word(Mdpp16Word(FlagsOf(kind), channel as bv32, datum as bv32))
    else Word(Mdpp32Word(FlagsOf(kind), channel as bv32, datum as bv32))
  }

  function FlagsOf(kind: DataType): bv32 {
    match kind
    case TDC => 1
    case Trigger_time => 2
    case QDC_short => 3
    case _ => 0
  }

  // The bits that decoding does not look at: the upper subaddress bits of a VMMR ADC word, and the
  // flags above the data type of an MDPP word.
  function UnseenBits(d: ModuleDesc, w: Word): bv32 {
    if d.IsVmmrModule() then
      if IsVmmrAdcData(w) then 0x00F00000 else 0
    else if d.nchan == 16 then 0x0FC00000
    else 0x0F800000
  }

  lemma AdcFields(d: ModuleDesc, w: Word)
    requires d.IsVmmrModule() && IsVmmrAdcData(w)
    ensures VmmrAdcWord(BusNumber(d, w) as bv32, ChannelNumber(d, w) as bv32, ChannelDatum(d, w) as bv32) == w.bits
            <==> w.bits & 0x00F00000 == 0
  {
  }

  lemma TdcFields(d: ModuleDesc, w: Word)
    requires d.IsVmmrModule() && IsVmmrTdcData(w)
    ensures VmmrTdcWord(BusNumber(d, w) as bv32, ChannelDatum(d, w) as bv32) == w.bits
    ensures w.bits & 0 == 0
  {
  }

  lemma Mdpp16Fields(d: ModuleDesc, w: Word)
    requires d.HasMdppLayout() && d.nchan == 16 && IsMdppData(w)
    ensures Mdpp16Word(ChannelFlags(d, w) as bv32, ChannelNumber(d, w) as bv32, ChannelDatum(d, w) as bv32) == w.bits
            <==> w.bits & 0x0FC00000 == 0
  {
  }

  lemma Mdpp32Fields(d: ModuleDesc, w: Word)
    requires d.HasMdppLayout() && d.nchan != 16 && IsMdppData(w)
    ensures Mdpp32Word(ChannelFlags(d, w) as bv32, ChannelNumber(d, w) as bv32, ChannelDatum(d, w) as bv32) == w.bits
            <==> w.bits & 0x0F800000 == 0
  {
  }

  // Decoding loses nothing exactly when those bits are clear.
  lemma FieldsDetermineWord(d: ModuleDesc, w: Word)
    requires d.Decodable() && if d.IsVmmrModule() then IsVmmrData(w) else IsMdppData(w)
    ensures Compose(d, DataTypeOf(d, w), BusNumber(d, w), ChannelNumber(d, w), ChannelDatum(d, w)) == w
            <==> w.bits & UnseenBits(d, w) == 0
  {
    hide VmmrAdcWord;
    hide VmmrTdcWord;
    hide Mdpp16Word;
    hide Mdpp32Word;
    hide BusNumber;
    hide ChannelNumber;
    hide ChannelDatum;
    hide ChannelFlags;
    hide FlagsOf;
    hide DataTypeOf;
    hide IsMdppData;
    hide IsVmmrAdcData;
    hide IsVmmrTdcData;
    if d.IsVmmrModule() {
      VmmrType(d, w);
      if IsVmmrAdcData(w) {
        AdcFields(d, w);
      } else {
        TdcFields(d, w);
      }
    } else {
      FlagsOfType(d, w);
      if d.nchan == 16 {
        Mdpp16Fields(d, w);
      } else {
        Mdpp32Fields(d, w);
      }
    }
  }

  lemma VmmrType(d: ModuleDesc, w: Word)
    requires d.IsVmmrModule()
    ensures DataTypeOf(d, w) == if IsVmmrAdcData(w) then ADC else TDC
  {
  }

  // The data type of an MDPP word and its flags determine each other.
  lemma FlagsOfType(d: ModuleDesc, w: Word)
    requires d.HasMdppLayout()
    ensures FlagsOf(DataTypeOf(d, w)) == ChannelFlags(d, w) as bv32
  {
    FlagsAreSmall(d, w);
  }

  lemma FlagsAreSmall(d: ModuleDesc, w: Word)
    ensures ChannelFlags(d, w) < 4
  {
  }

  function TypeOfFlags(firmware: Firmware, flags: bv8): DataType {
    match flags
    case 0 => if firmware == MDPP_QDC then QDC_long else ADC
    case 1 => TDC
    case 2 => Trigger_time
    case 3 => QDC_short
    case _ => Unknown
  }

  // ---------- buses ----------

  datatype Bus = Bus(id: u8, channelName: seq<string>)

  function Decimal(n: nat): string {
    var digit := ["0", "1", "2", "3", "4", "5", "6", "7", "8", "9"][n % 10];
    if n < 10 then digit else Decimal(n / 10) + digit
  }

  // The number that decimal digits stand for.
  function NumberOf(digits: string): int {
    if digits == [] then 0 else 10 * NumberOf(Init(digits)) + (Last(digits) as int - '0' as int)
  }

  // Digits that stand for the number, without a leading zero.
  lemma {:induction false} DecimalStandsForNumber(n: nat)
    ensures Decimal(n) != [] && NumberOf(Decimal(n)) == n
    ensures forall c :: c in Decimal(n) ==> '0' <= c <= '9'
    ensures n > 0 ==> Decimal(n)[0] != '0'
    ensures n == 0 ==> Decimal(n) == "0"
  {
    var digits := ["0", "1", "2", "3", "4", "5", "6", "7", "8", "9"];
    var digit := digits[n % 10];
    assert NumberOf(digit) == n % 10 by {
      assert Init(digit) == [];
    }
    if n < 10 {
    } else {
      DecimalStandsForNumber(n / 10);
      assert Init(Decimal(n)) == Decimal(n / 10) && Last(Decimal(n)) == digit[0];
    }
  }

  function DefaultName(bus: u8, channel: nat): string {
    "bus_" + Decimal(bus) + "_chan_" + Decimal(channel)
  }

  method MakeBus(id: u8, nChannels: u8) returns (b: Bus)
    ensures b.id == id && |b.channelName| == nChannels
    ensures forall c :: 0 <= c < nChannels ==>
                          b.channelName[c] == "bus_" + Decimal(id) + "_chan_" + Decimal(c)
  {
    var names := [];
    var chan := 0;
    while chan < nChannels
      invariant 0 <= chan <= nChannels && |names| == chan
      invariant forall c :: 0 <= c < chan ==> names[c] == DefaultName(id, c)
    {
      names := names + [DefaultName(id, chan)];
      chan := chan + 1;
    }
    b := Bus(id, names);
  }

  // ---------- modules ----------

  class Module {
    var busMap: seq<Bus>
    var channelMask: bv32
    var channelDiv: bv32
    var channelFlagMask: bv32
    var channelFlagDiv: bv32
    var dataWord: Word
    const name: string
    const id: u8
    const firmware: Firmware
    ghost const nchan: u8

    ghost function Desc(): ModuleDesc { ModuleDesc(name, id, nchan, firmware) }

    ghost predicate HasBuses(count: nat, channels: nat)
      reads this
    {
      && |busMap| == count
      && (forall b :: 0 <= b < count ==> busMap[b].id == b && |busMap[b].channelName| == channels)
    }

    ghost predicate Valid()
      reads this
    {
      && Desc().Constructible()
      && (Desc().HasMdppLayout() ==>
            && HasBuses(1, nchan)
            && channelDiv == 0x10000
            && (nchan == 16 ==>
                  channelMask == 0x000F0000 && channelFlagMask == 0x00300000 && channelFlagDiv == 0x00100000)
            && (nchan == 32 ==>
                  channelMask == 0x001F0000 && channelFlagMask == 0x00600000 && channelFlagDiv == 0x00200000))
      && (Desc().IsVmmrModule() ==>
            HasBuses(nchan, 128) && channelMask == 0x00fff000 && channelDiv == 0x00001000)
    }

    // For a firmware that is neither MDPP nor VMMR the masks are left as they were found.
    constructor (name: string, id: u8, nchan: u8, firmware: Firmware)
      requires ModuleDesc(name, id, nchan, firmware).Constructible()
      ensures Valid() && Desc() == ModuleDesc(name, id, nchan, firmware)
      ensures firmware in {MDPP_SCP, MDPP_QDC, MDPP_CSI} ==>
                |busMap| == 1 && busMap[0].id == 0 && |busMap[0].channelName| == nchan
      ensures firmware == VMMR ==>
                |busMap| == nchan && forall b :: 0 <= b < nchan ==> busMap[b].id == b && |busMap[b].channelName| == 128
      ensures forall b, c :: 0 <= b < |busMap| && 0 <= c < |busMap[b].channelName| ==>
                               busMap[b].channelName[c] == "bus_" + Decimal(b) + "_chan_" + Decimal(c)
    {
      this.name := name;
      this.id := id;
      this.firmware := firmware;
      this.nchan := nchan;
      busMap := [];
      new;
      if firmware == MDPP_QDC || firmware == MDPP_SCP || firmware == MDPP_CSI {
        channelDiv := 0x10000;
        if nchan == 16 {
          channelMask, channelFlagMask, channelFlagDiv := 0x000F0000, 0x00300000, 0x00100000;
        } else {
          channelMask, channelFlagMask, channelFlagDiv := 0x001F0000, 0x00600000, 0x00200000;
        }
        InitialiseBusMap(1, nchan);
      } else if firmware == VMMR {
        channelMask, channelDiv := 0x00fff000, 0x00001000;
        InitialiseBusMap(nchan, 128);
      }
    }

    // The constructor with its exception: none is returned when it throws.
    static method Create(name: string, id: u8, nchan: u8, firmware: Firmware) returns (r: Option<Module>)
      ensures r.None? <==> firmware in {MDPP_SCP, MDPP_QDC, MDPP_CSI} && nchan != 16 && nchan != 32
      ensures r.Some? ==>
                fresh(r.value) && r.value.Valid() && r.value.Desc() == ModuleDesc(name, id, nchan, firmware)
    {
      if ModuleDesc(name, id, nchan, firmware).Constructible() {
        var m := new Module(name, id, nchan, firmware);
        r := Some(m);
      } else {
        r := None;
      }
    }

    method InitialiseBusMap(nbus: u8, nchan: u8)
      requires busMap == []
      modifies this`busMap
      ensures HasBuses(nbus, nchan)
      ensures |busMap| == nbus
      ensures forall b :: 0 <= b < nbus ==> busMap[b].id == b && |busMap[b].channelName| == nchan
      ensures forall b, c :: 0 <= b < nbus && 0 <= c < nchan ==>
                               busMap[b].channelName[c] == "bus_" + Decimal(b) + "_chan_" + Decimal(c)
    {
      hide Decimal;
      var b: u8 := 0;
      while b < nbus
        invariant b <= nbus && HasBuses(b, nchan)
        invariant forall i, c :: 0 <= i < b && 0 <= c < nchan ==>
                                   busMap[i].channelName[c] == "bus_" + Decimal(i) + "_chan_" + Decimal(c)
      {
        var next := MakeBus(b, nchan);
        busMap := busMap + [next];
        if b == nbus - 1 { break; }
        b := b + 1;
      }
    }

    method SetDataWord(data: Word)
      requires Valid()
      modifies this`dataWord
      ensures Valid() && dataWord == data
    {
      dataWord := data;
    }

    function GetChannelNumber(): bv8
      requires Valid() && Desc().Decodable()
      reads this
    {
      if firmware == VMMR && !IsVmmrAdcData(dataWord) then 0
      else Extract(dataWord, channelMask, channelDiv)
    }

    function GetBusNumber(): (r: bv8)
      requires Valid()
      reads this
      ensures r == BusNumber(Desc(), dataWord)
    {
      ExtractedFields(dataWord);
      if firmware == VMMR then Extract(dataWord, 0x0f000000, 0x01000000) else 0
    }

    function GetChannelData(): (r: bv16)
      requires Valid()
      reads this
      ensures r == ChannelDatum(Desc(), dataWord)
      ensures Desc().IsVmmrModule() && IsVmmrAdcData(dataWord) ==> r < 0x1000
    {
      if firmware == VMMR && IsVmmrAdcData(dataWord) then (dataWord.bits & 0x00000fff) as bv16
      else if firmware == VMMR && IsVmmrTdcData(dataWord) then (dataWord.bits & 0x0000ffff) as bv16
      else (dataWord.bits & 0x0000FFFF) as bv16
    }

    function GetDataType(): DataType
      requires Valid() && Desc().Decodable()
      reads this
    {
      if firmware == VMMR then
        if IsVmmrAdcData(dataWord) then ADC else TDC
      else
        TypeOfFlags(firmware, Extract(dataWord, channelFlagMask, channelFlagDiv))
    }

    // The masks and divisors that the constructor chose cut out the fields of the description.
    lemma DecodesAsDescribed()
      requires Valid() && Desc().Decodable()
      ensures GetChannelNumber() == ChannelNumber(Desc(), dataWord)
      ensures GetDataType() == DataTypeOf(Desc(), dataWord)
    {
      hide Extract;
      ExtractedFields(dataWord);
      FlagsAreSmall(Desc(), dataWord);
    }

    // The four decoded values hold the whole data word exactly when the bits they leave out are clear.
    lemma DecodeLosesNothing()
      requires Valid() && Desc().Decodable()
      requires if Desc().IsVmmrModule() then IsVmmrData(dataWord) else IsMdppData(dataWord)
      ensures Compose(Desc(), GetDataType(), GetBusNumber(), GetChannelNumber(), GetChannelData()) == dataWord
              <==> dataWord.bits & UnseenBits(Desc(), dataWord) == 0
    {
      hide Extract;
      hide Compose;
      hide UnseenBits;
      DecodesAsDescribed();
      FieldsDetermineWord(Desc(), dataWord);
    }

    // Whether (*this)[bus][channel] names an existing channel.
    ghost predicate HasChannel(bus: bv8, channel: bv8)
      reads this
    {
      bus as int < |busMap| && channel as int < |busMap[bus as int].channelName|
    }

    // The same for the bus and channel decoded from the current word.
    ghost predicate IndexesChannel()
      requires Valid() && Desc().Decodable()
      reads this
    {
      HasChannel(GetBusNumber(), GetChannelNumber())
    }

    // Whatever the word, the description of an MDPP decodes it to bus 0, an existing channel and a known
    // type. That of a VMMR decodes it to an existing channel exactly when the module has the bus and, for
    // an ADC word, bit 7 of the subaddress (bit 19 of the word) is clear.
    lemma DecodedChannels(w: Word)
      requires Valid()
      ensures Desc().HasMdppLayout() ==>
                && BusNumber(Desc(), w) == 0 && DataTypeOf(Desc(), w) != Unknown
                && HasChannel(BusNumber(Desc(), w), ChannelNumber(Desc(), w))
      ensures Desc().IsVmmrModule() ==>
                && DataTypeOf(Desc(), w) != Unknown
                && (HasChannel(BusNumber(Desc(), w), ChannelNumber(Desc(), w)) <==>
                      BusNumber(Desc(), w) as int < nchan && (IsVmmrAdcData(w) ==> w.bits & 0x00080000 == 0))
    {
      var channel := ChannelNumber(Desc(), w);
      assert Desc().HasMdppLayout() && nchan == 16 ==> channel < 16;
      assert Desc().HasMdppLayout() && nchan == 32 ==> channel < 32;
      assert Desc().IsVmmrModule() && IsVmmrAdcData(w) ==> (channel < 128 <==> w.bits & 0x00080000 == 0);
      SmallByte(channel);
    }

    // Whatever the current word is, an MDPP decodes it to bus 0, an existing channel and a known type.
    lemma MdppDecodeStaysInside()
      requires Valid() && Desc().HasMdppLayout()
      ensures GetBusNumber() == 0 && IndexesChannel() && GetDataType() != Unknown
    {
      hide Extract;
      hide ChannelNumber;
      hide DataTypeOf;
      hide HasChannel;
      DecodesAsDescribed();
      DecodedChannels(dataWord);
    }

    // A VMMR decodes to an existing channel exactly under the condition above. With 16 buses only the
    // second part matters.
    lemma VmmrDecodeStaysInside()
      requires Valid() && Desc().IsVmmrModule()
      ensures IndexesChannel() <==>
              GetBusNumber() as int < nchan && (IsVmmrAdcData(dataWord) ==> dataWord.bits & 0x00080000 == 0)
      ensures nchan >= 16 ==> (IndexesChannel() <==> (IsVmmrAdcData(dataWord) ==> dataWord.bits & 0x00080000 == 0))
      ensures GetDataType() != Unknown
    {
      hide Extract;
      hide ChannelNumber;
      hide DataTypeOf;
      hide HasChannel;
      DecodesAsDescribed();
      DecodedChannels(dataWord);
      assert GetBusNumber() < 16;
      SmallByte(GetBusNumber());
    }

    // In particular every ADC word of a 16-bus VMMR whose 12-bit subaddress is below 128.
    lemma VmmrSubaddressBelow128()
      requires Valid() && Desc().IsVmmrModule() && nchan >= 16
      requires IsVmmrAdcData(dataWord) && (dataWord.bits & 0x00fff000) / 0x1000 < 128
      ensures IndexesChannel()
      ensures GetChannelNumber() as bv32 == (dataWord.bits & 0x00fff000) / 0x1000
    {
      hide Extract;
      DecodesAsDescribed();
      var w := dataWord.bits;
      assert (w & 0x00fff000) / 0x1000 < 128 ==> w & 0x00080000 == 0;
      VmmrDecodeStaysInside();
    }
  }

  lemma SmallByte(b: bv8)
    ensures b < 16 <==> b as int < 16
    ensures b < 32 <==> b as int < 32
    ensures b < 128 <==> b as int < 128
  {
  }
}
