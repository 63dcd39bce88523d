/** Events, the module data they collect, and their serialisation to 32-bit words. */
module EventData {
  import opened Basics
  import opened Words
  import opened VmeModules

  // One item of channel data. The constructor that takes only a word leaves the decoded fields unset.
  datatype ChannelData =
    | Raw(word: Word)
    | Decoded(word: Word, dataType: DataType, bus: bv8, channel: bv8, datum: bv16)

  function Decode(d: ModuleDesc, w: Word): ChannelData {
    Decoded(w, DataTypeOf(d, w), BusNumber(d, w), ChannelNumber(d, w), ChannelDatum(d, w))
  }

  // The constructor without a bus number sets it to 0.
  function DecodeOnBusZero(d: ModuleDesc, w: Word): ChannelData {
    Decoded(w, DataTypeOf(d, w), 0, ChannelNumber(d, w), ChannelDatum(d, w))
  }

  function WordsIn(data: seq<ChannelData>): (words: seq<Word>)
    ensures |words| == |data|
  {
    seq(|data|, i requires 0 <= i < |data| => data[i].word)
  }

  lemma WordsInConcat(a: seq<ChannelData>, b: seq<ChannelData>)
    ensures WordsIn(a + b) == WordsIn(a) + WordsIn(b)
  {
  }

  // ---------- decoding, field by field ----------

  // Any word put together from its fields is decoded to these fields. Of a VMMR ADC word the upper four
  // bits of the subaddress are lost, of an MDPP word the flags above the data type.
  lemma DecodesVmmrAdc(d: ModuleDesc, bus: bv4, upper: bv4, channel: bv8, datum: bv12)
    requires d.firmware == VMMR
    ensures var w := Word(0x10000000 | ((bus as bv32) << 24) | ((upper as bv32) << 20)
                          | ((channel as bv32) << 12) | (datum as bv32));
            IsMesytecData(w) && Decode(d, w) == Decoded(w, ADC, bus as bv8, channel, datum as bv16)
  {
  }

  lemma DecodesVmmrTdc(d: ModuleDesc, bus: bv4, datum: bv16)
    requires d.firmware == VMMR
    ensures var w := Word(0x20000000 | ((bus as bv32) << 24) | (datum as bv32));
            IsMesytecData(w) && Decode(d, w) == Decoded(w, TDC, bus as bv8, 0, datum)
  {
  }

  lemma DecodesMdpp16(d: ModuleDesc, upper: bv6, flags: bv2, channel: bv4, datum: bv16)
    requires d.firmware in {MDPP_SCP, MDPP_QDC, MDPP_CSI} && d.nchan == 16
    ensures var w := Word(0x10000000 | ((upper as bv32) << 22) | ((flags as bv32) << 20)
                          | ((channel as bv32) << 16) | (datum as bv32));
            && IsMdppData(w)
            && Decode(d, w) == DecodeOnBusZero(d, w)
            && Decode(d, w) == Decoded(w, if flags == 0 then (if d.firmware == MDPP_QDC then QDC_long else ADC)
                                          else if flags == 1 then TDC
                                          else if flags == 2 then Trigger_time
                                          else QDC_short,
                                       0, channel as bv8, datum)
  {
  }

  lemma DecodesMdpp32(d: ModuleDesc, upper: bv5, flags: bv2, channel: bv5, datum: bv16)
    requires d.firmware in {MDPP_SCP, MDPP_QDC, MDPP_CSI} && d.nchan == 32
    ensures var w := Word(0x10000000 | ((upper as bv32) << 23) | ((flags as bv32) << 21)
                          | ((channel as bv32) << 16) | (datum as bv32));
            && IsMdppData(w)
            && Decode(d, w) == DecodeOnBusZero(d, w)
            && Decode(d, w) == Decoded(w, if flags == 0 then (if d.firmware == MDPP_QDC then QDC_long else ADC)
                                          else if flags == 1 then TDC
                                          else if flags == 2 then Trigger_time
                                          else QDC_short,
                                       0, channel as bv8, datum)
  {
  }

  // The value of a module_data object.
  datatype ModuleRecord = ModuleRecord(
    headerWord: Word, moduleId: u8, dataWords: bv16, eventCounter: Word, eoeWord: Word, data: seq<ChannelData>)
  {
    function Words(): (words: seq<Word>)
      ensures |words| == |data|
    {
      WordsIn(data)
    }

    function Add(d: ChannelData): ModuleRecord { this.(data := data + [d]) }

    // What a move leaves behind: the vector is emptied, the numbers stay.
    function Moved(): ModuleRecord { this.(data := []) }

    // Appends the header and the data words, or nothing at all when there is no data.
    method AddDataToBuffer(buf: seq<Word>) returns (out: seq<Word>)
      ensures out == buf + OutputOf(this)
    {
      out := buf;
      if |data| != 0 {
        out := out + [headerWord];
        for i := 0 to |data|
          invariant out == buf + [headerWord] + Words()[..i]
        {
          out := out + [data[i].word];
        }
      }
    }

    method SizeOfBuffer() returns (size: nat)
      ensures size == |OutputOf(this)|
    {
      size := if |data| != 0 then |data| + 1 else 0;
    }
  }

  const CLEARED_RECORD := ModuleRecord(Word(0), 0, 0, Word(0), Word(0), [])

  function AnnouncedWords(header: Word, firmware: Firmware): bv16 {
    match firmware
    case MDPP_QDC => LengthOfDataMdpp(header)
    case MDPP_SCP => LengthOfDataMdpp(header)
    case MDPP_CSI => LengthOfDataMdpp(header)
    case VMMR => LengthOfDataVmmr(header)
    case TGV => 4
    case MVLC_SCALER => 4
    case _ => 0
  }

  function HeaderRecord(header: Word, firmware: Firmware): ModuleRecord {
    ModuleRecord(header, ModuleId(header), AnnouncedWords(header, firmware), Word(0), Word(0), [])
  }

  // A header word with this id starts a module of this id, announcing the length in its low bits: 10 of
  // them for an MDPP, 12 for a VMMR. A timestamp or scaler module always announces 4.
  lemma HeaderStartsModule(id: u8, low: bv16, firmware: Firmware)
    ensures var header := Word(0x40000000 | ((id as bv8 as bv32) << 16) | (low as bv32));
            HeaderRecord(header, firmware)
            == ModuleRecord(header, id,
                            if firmware in {MDPP_SCP, MDPP_QDC, MDPP_CSI} then low % 0x400
                            else if firmware == VMMR then low % 0x1000
                            else if firmware in {TGV, MVLC_SCALER} then 4
                            else 0,
                            Word(0), Word(0), [])
  {
    hide ModuleId;
    HeaderOfId(id, low);
    LengthBits(id as bv8, low);
  }

  lemma LengthBits(id: bv8, low: bv16)
    ensures var header := Word(0x40000000 | ((id as bv32) << 16) | (low as bv32));
            LengthOfDataMdpp(header) == low % 0x400 && LengthOfDataVmmr(header) == low % 0x1000
  {
  }

  // ---------- serialised form ----------

  function OutputOf(m: ModuleRecord): seq<Word> {
    if m.data == [] then [] else [m.headerWord] + m.Words()
  }

  function Output(modules: seq<ModuleRecord>): seq<Word> {
    FlatMap(OutputOf, modules)
  }

  // What a reader of the serialised form can see of a module.
  datatype Shape = Shape(header: Word, words: seq<Word>)

  function ShapeOf(m: ModuleRecord): Shape { Shape(m.headerWord, m.Words()) }

  function Shapes(modules: seq<ModuleRecord>): (shapes: seq<Shape>)
    ensures |shapes| == |modules|
  {
    seq(|modules|, i requires 0 <= i < |modules| => ShapeOf(modules[i]))
  }

  lemma ShapesConcat(a: seq<ModuleRecord>, b: seq<ModuleRecord>)
    ensures Shapes(a + b) == Shapes(a) + Shapes(b)
  {
  }

  // ---------- module_data ----------

  class ModuleData {
    var data: seq<ChannelData>
    var eventCounter: Word
    var headerWord: Word
    var eoeWord: Word
    var dataWords: bv16
    var moduleId: u8

    function Value(): ModuleRecord
      reads this
    {
      ModuleRecord(headerWord, moduleId, dataWords, eventCounter, eoeWord, data)
    }

    // Only the vector and the module id have initial values.
    constructor ()
      ensures data == [] && moduleId == 0
    {
      data := [];
      moduleId := 0;
    }

    method Clear()
      modifies this
      ensures Value() == CLEARED_RECORD
      ensures data == [] && moduleId == 0 && dataWords == 0
      ensures headerWord == eventCounter == eoeWord == Word(0)
    {
      data := [];
      eventCounter := Word(0);
      headerWord := Word(0);
      dataWords := 0;
      moduleId := 0;
      eoeWord := Word(0);
    }

    method SetHeaderWord(header: Word, firmware: Firmware)
      modifies this
      ensures Value() == HeaderRecord(header, firmware)
    {
      Clear();
      headerWord := header;
      moduleId := ModuleId(header);
      match firmware {
        case MDPP_QDC => dataWords := LengthOfDataMdpp(header);
        case MDPP_SCP => dataWords := LengthOfDataMdpp(header);
        case MDPP_CSI => dataWords := LengthOfDataMdpp(header);
        case VMMR => dataWords := LengthOfDataVmmr(header);
        case TGV => dataWords := 4;
        case MVLC_SCALER => dataWords := 4;
        case _ => dataWords := 0;
      }
    }

    method AddData(d: ChannelData)
      modifies this`data
      ensures Value() == old(Value()).(data := old(data) + [d])
    {
      data := data + [d];
    }
  }

  // ---------- event ----------

  datatype Tgv = Tgv(lo: bv16, mid: bv16, hi: bv16)

  // The value of an event object.
  datatype EventValue = EventValue(modules: seq<ModuleRecord>, eventCounter: Word, tgv: Tgv)

  class Event {
    var modules: seq<ModuleRecord>
    var eventCounter: Word
    var tgvLo: bv16
    var tgvMid: bv16
    var tgvHi: bv16

    function Value(): EventValue
      reads this
    {
      EventValue(modules, eventCounter, Tgv(tgvLo, tgvMid, tgvHi))
    }

    // The event counter and the timestamp words have no initial value.
    constructor ()
      ensures modules == []
    {
      modules := [];
    }

    // Only the modules are cleared.
    method Clear()
      modifies this
      ensures Value() == old(Value()).(modules := [])
    {
      modules := [];
    }

    // The module data is moved into the event.
    method AddModuleData(d: ModuleData)
      modifies this`modules, d
      ensures modules == old(modules) + [old(d.Value())]
      ensures d.Value() == old(d.Value()).(data := [])
    {
      modules := modules + [d.Value()];
      d.data := [];
    }

    function HasData(): bool
      reads this
    {
      |modules| > 0
    }

    // The size that is announced is the size that is produced, module by module.
    method SizeOfBuffer() returns (size: nat)
      ensures size == |Output(modules)|
    {
      size := 0;
      for i := 0 to |modules|
        invariant size == |Output(modules[..i])|
      {
        FlatMapPrefix(OutputOf, modules, i);
        var s := modules[i].SizeOfBuffer();
        size := size + s;
      }
      assert modules[..|modules|] == modules;
    }

    method GetOutputBuffer() returns (buf: seq<Word>)
      ensures buf == Output(modules)
    {
      buf := [];
      for i := 0 to |modules|
        invariant buf == Output(modules[..i])
      {
        FlatMapPrefix(OutputOf, modules, i);
        buf := modules[i].AddDataToBuffer(buf);
      }
      assert modules[..|modules|] == modules;
    }
  }
}
