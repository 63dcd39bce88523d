/** The buffer reader: one class, two word-stream state machines that share its fields. */
module BufferReader {
  import opened Basics
  import opened Words
  import opened VmeModules
  import opened EventData
  import V1 = ReaderV1
  import V0 = ReaderV0

  // Either the callback was called, once, with this event, or an exception was thrown:
  // by get_module for this id, or for a frame revision that is neither 0 nor 1.
  datatype Outcome = Delivered(event: EventValue) | UnknownModule(id: u8) | UnknownRevision

  // What the readers do with a module object: the word is put into its data register, and the values
  // decoded from there are those of its description.
  method DecodeWith(mod: Module, w: Word) returns (d: ChannelData)
    requires mod.Valid() && mod.Desc().Decodable()
    modifies mod`dataWord
    ensures mod.Valid() && d == Decode(mod.Desc(), w)
  {
    hide DataTypeOf;
    hide ChannelNumber;
    hide BusNumber;
    hide ChannelDatum;
    mod.SetDataWord(w);
    mod.DecodesAsDescribed();
    d := Decoded(w, mod.GetDataType(), mod.GetBusNumber(), mod.GetChannelNumber(), mod.GetChannelData());
  }

  class Reader {
    const setup: V1.Setup
    const modData: ModuleData
    var gotHeader: bool
    var readingData: bool
    var readingMvlcScaler: bool
    var bufPos: nat

    function V0State(): V0.State
      reads this, modData
    {
      V0.State(modData.Value(), gotHeader, readingData)
    }

    constructor (setup: V1.Setup)
      ensures this.setup == setup && fresh(modData) && !readingMvlcScaler
      ensures !V0State().Open() && V0State().Consistent() && modData.moduleId == 0
    {
      this.setup := setup;
      modData := new ModuleData();
      gotHeader, readingData, readingMvlcScaler := false, false, false;
      bufPos := 0;
    }

    // Only VMMR data is stored with a bus number of its own.
    method StoreDecoded(d: ModuleDesc, w: Word)
      requires d.Decodable()
      modifies modData`data
      ensures modData.Value() == old(modData.Value()).Add(Decode(d, w))
    {
      if d.firmware == VMMR {
        modData.AddData(
          Decoded(w, DataTypeOf(d, w), BusNumber(d, w), ChannelNumber(d, w), ChannelDatum(d, w)));
      } else {
        modData.AddData(DecodeOnBusZero(d, w));
      }
    }

    // What holds between two words of a revision 1 buffer, given the words read so far.
    ghost predicate AfterV1(mesyEvent: Event, current: Option<ModuleDesc>, scaler: bool, read: seq<Word>)
      reads this, modData, mesyEvent
    {
      && V1.Known(setup, read)
      && modData.Value() == V1.CurrentRecord(setup, scaler, read)
      && readingMvlcScaler == V1.ScalerAfter(setup, scaler, read)
      && current == V1.Current(setup, read)
      && mesyEvent.modules == V1.Completed(setup, read)
    }

    method TakeWordV1(mesyEvent: Event, current: Option<ModuleDesc>, nextWord: Word,
                      ghost scaler: bool, ghost read: seq<Word>)
      returns (next: Option<ModuleDesc>, unknown: bool)
      requires AfterV1(mesyEvent, current, scaler, read)
      requires IsMesytecData(nextWord) && !readingMvlcScaler ==> current.Some? && current.value.Decodable()
      modifies this`readingMvlcScaler, modData, mesyEvent
      ensures unknown <==> IsModuleHeader(nextWord) && ModuleId(nextWord) !in setup
      ensures unknown ==> modData.Value() == V1.Flushed(old(modData.Value()))
      ensures unknown ==> readingMvlcScaler == old(readingMvlcScaler)
      ensures !unknown ==> AfterV1(mesyEvent, next, scaler, read + [nextWord])
    {
      hide V1.CurrentRecord;
      hide V1.Completed;
      hide V1.Parse;
      hide V1.ScalerAfter;
      hide V1.Current;
      hide V1.Known;
      hide HeaderRecord;
      hide Decode;
      hide IsModuleHeader;
      hide IsMdppData;
      hide IsVmmrData;
      hide ModuleId;
      next, unknown := current, false;
      if IsModuleHeader(nextWord) {
        V1.ParseIsCompletedAndCurrent(setup, scaler, read);
        if modData.moduleId != 0 {
          mesyEvent.AddModuleData(modData);
        }
        if ModuleId(nextWord) !in setup {
          unknown := true;
          return;
        }
        V1.NextIsHeader(setup, scaler, read, nextWord);
        next := Some(setup[ModuleId(nextWord)]);
        modData.SetHeaderWord(nextWord, next.value.firmware);
        readingMvlcScaler := next.value.firmware == MVLC_SCALER;
      } else {
        V1.NextIsNoHeader(setup, scaler, read, nextWord);
        V1.NextIsStored(setup, scaler, read, nextWord);
        if readingMvlcScaler {
          modData.AddData(Raw(nextWord));
        } else if IsMdppData(nextWord) || IsVmmrData(nextWord) {
          StoreDecoded(current.value, nextWord);
        }
      }
    }

    // Neither the event nor the exception depends on anything an earlier call left behind.
    method ReadEventInBufferV1(buf: seq<u8>) returns (r: Outcome)
      requires |buf| % 4 == 0
      requires V1.Defined(setup, readingMvlcScaler, WordsOf(buf)[..V1.KnownPrefix(setup, WordsOf(buf))])
      modifies this`readingMvlcScaler, this`bufPos, modData
      ensures !r.UnknownRevision? && (r.Delivered? <==> V1.Known(setup, WordsOf(buf)))
      ensures r.Delivered? ==> r.event.modules == V1.Parse(setup, WordsOf(buf))
      ensures r.UnknownModule? ==>
                var ws := WordsOf(buf);
                && V1.KnownPrefix(setup, ws) < |ws|
                && r.id == ModuleId(ws[V1.KnownPrefix(setup, ws)])
      ensures var read := WordsOf(buf)[..V1.KnownPrefix(setup, WordsOf(buf))];
              && readingMvlcScaler == V1.ScalerAfter(setup, old(readingMvlcScaler), read)
              && modData.Value() == V1.Flushed(V1.CurrentRecord(setup, old(readingMvlcScaler), read))
    {
      hide V1.KnownPrefix;
      hide V1.CurrentRecord;
      hide V1.Completed;
      hide V1.Parse;
      hide IsModuleHeader;
      hide IsMesytecData;
      hide ModuleId;
      hide V1.ScalerAfter;
      hide V1.Current;
      hide V1.LastHeader;
      hide V1.Known;
      hide V1.Defined;
      hide ReadDataWord;
      ghost var ws := WordsOf(buf);
      ghost var n := V1.KnownPrefix(setup, ws);
      ghost var scaler := readingMvlcScaler;
      var wordsToRead := |buf| / 4;
      bufPos := 0;
      var mesyEvent := new Event();
      modData.Clear();
      var currentModule: Option<ModuleDesc> := None;
      V1.NothingRead(setup, scaler);
      ghost var read: seq<Word> := [];
      while wordsToRead > 0
        invariant |read| + wordsToRead == |ws| && bufPos == 4 * |read| && |read| <= n <= |ws|
        invariant read == ws[..|read|] && AfterV1(mesyEvent, currentModule, scaler, read)
        invariant fresh(mesyEvent)
      {
        wordsToRead := wordsToRead - 1;
        var nextWord := ReadDataWord(buf, bufPos);
        assert nextWord == ws[|read|] && ws[..|read| + 1] == read + [nextWord];
        V1.KnownPrefixCovers(setup, ws, |read|);
        if IsMesytecData(nextWord) && !readingMvlcScaler {
          V1.ModuleIsSet(setup, scaler, ws, |read|);
        }
        var unknown;
        currentModule, unknown := TakeWordV1(mesyEvent, currentModule, nextWord, scaler, read);
        if unknown {
          return UnknownModule(ModuleId(nextWord));
        }
        bufPos := bufPos + 4;
        read := read + [nextWord];
      }
      assert read == ws && ws[..n] == ws;
      V1.ParseIsCompletedAndCurrent(setup, scaler, ws);
      if modData.moduleId != 0 {
        mesyEvent.AddModuleData(modData);
      }
      r := Delivered(mesyEvent.Value());
    }

    // One word of a revision 0 stream.
    method TakeWordV0(mesyEvent: Event, nextWord: Word, ghost before: V0.Run) returns (unknown: Option<u8>)
      requires before.status == V0.Running && before.state == V0State() && before.modules == mesyEvent.modules
      requires V0.Step(setup, before, nextWord).status != V0.Undefined
      modifies this`gotHeader, this`readingData, modData, mesyEvent
      ensures var after := V0.Step(setup, before, nextWord);
              && after.state == V0State() && after.modules == mesyEvent.modules
              && after.status == (if unknown.Some? then V0.Threw(unknown.value) else V0.Running)
      ensures mesyEvent.modules != old(mesyEvent.modules) ==>
                mesyEvent.eventCounter == Last(mesyEvent.modules).eventCounter
      ensures mesyEvent.modules == old(mesyEvent.modules) ==> mesyEvent.eventCounter == old(mesyEvent.eventCounter)
      ensures |mesyEvent.modules| >= |old(mesyEvent.modules)|
    {
      hide IsModuleHeader;
      hide IsMdppData;
      hide IsEndOfEvent;
      hide IsFrameHeader;
      hide ModuleId;
      hide HeaderRecord;
      hide DecodeOnBusZero;
      hide EventCounter;
      unknown := None;
      if IsModuleHeader(nextWord) {
        if ModuleId(nextWord) !in setup {
          return Some(ModuleId(nextWord));
        }
        modData.SetHeaderWord(nextWord, setup[ModuleId(nextWord)].firmware);
        gotHeader := true;
        readingData := false;
      } else if IsMdppData(nextWord) {
        readingData := true;
        if modData.moduleId !in setup {
          return Some(modData.moduleId);
        }
        modData.AddData(DecodeOnBusZero(setup[modData.moduleId], nextWord));
      } else if (gotHeader || readingData) && (IsEndOfEvent(nextWord) || IsFrameHeader(nextWord)) {
        gotHeader := false;
        readingData := false;
        modData.eventCounter := EventCounter(nextWord);
        modData.eoeWord := nextWord;
        mesyEvent.eventCounter := modData.eventCounter;
        mesyEvent.AddModuleData(modData);
      }
    }

    method ReadEventInBufferV0(buf: seq<u8>) returns (r: Outcome)
      requires |buf| % 4 == 0
      requires V0.Read(setup, V0.Start(V0State()), WordsOf(buf)).status != V0.Undefined
      modifies this`gotHeader, this`readingData, this`bufPos, modData
      ensures var run := V0.Read(setup, V0.Start(old(V0State())), WordsOf(buf));
              && V0State() == run.state
              && !r.UnknownRevision?
              && (r.Delivered? <==> run.status == V0.Running)
              && (r.UnknownModule? ==> run.status == V0.Threw(r.id))
              && (r.Delivered? ==> r.event.modules == run.modules)
      ensures r.Delivered? && r.event.modules != [] ==>
                r.event.eventCounter == Last(r.event.modules).eventCounter
      ensures old(V0State()).Consistent() ==> V0State().Consistent()
      ensures r.Delivered? && old(V0State()).Consistent() ==>
                r.event.modules == V0.Modules(setup, old(V0State()), WordsOf(buf))
    {
      hide V0.Step;
      hide V0.Modules;
      hide V0.Record;
      hide V0.Opened;
      hide ReadDataWord;
      hide V0.ReadsThrough;
      hide V0.ClosingWords;
      hide V0.LastBoundary;
      hide V1.LastHeader;
      hide V0.ModuleIdAfter;
      ghost var ws := WordsOf(buf);
      ghost var start := V0.Start(V0State());
      var wordsToRead := |buf| / 4;
      bufPos := 0;
      var mesyEvent := new Event();
      ghost var read: seq<Word> := [];
      while wordsToRead > 0
        invariant |read| + wordsToRead == |ws| && bufPos == 4 * |read| && |read| <= |ws| && read == ws[..|read|]
        invariant V0.Read(setup, start, read).status == V0.Running
        invariant V0State() == V0.Read(setup, start, read).state
        invariant mesyEvent.modules == V0.Read(setup, start, read).modules
        invariant mesyEvent.modules != [] ==> mesyEvent.eventCounter == Last(mesyEvent.modules).eventCounter
        invariant fresh(mesyEvent)
      {
        wordsToRead := wordsToRead - 1;
        var nextWord := ReadDataWord(buf, bufPos);
        assert nextWord == ws[|read|] && ws == read + [nextWord] + ws[|read| + 1..];
        V0.ReadOneMore(setup, start, read, nextWord, ws[|read| + 1..]);
        var unknown := TakeWordV0(mesyEvent, nextWord, V0.Read(setup, start, read));
        if unknown.Some? {
          V0.ConsistencyKept(setup, start, ws);
          return UnknownModule(unknown.value);
        }
        bufPos := bufPos + 4;
        read := read + [nextWord];
      }
      assert read == ws;
      V0.ConsistencyKept(setup, start, ws);
      if start.state.Consistent() {
        V0.Grouping(setup, start.state, ws);
      }
      r := Delivered(mesyEvent.Value());
    }

    method ReadEventInBuffer(buf: seq<u8>, mfmFrameRev: u8) returns (r: Outcome)
      requires |buf| % 4 == 0
      requires mfmFrameRev == 0 ==> V0.Read(setup, V0.Start(V0State()), WordsOf(buf)).status != V0.Undefined
      requires mfmFrameRev == 1 ==>
                 V1.Defined(setup, readingMvlcScaler, WordsOf(buf)[..V1.KnownPrefix(setup, WordsOf(buf))])
      modifies this, modData
      ensures r.UnknownRevision? <==> mfmFrameRev > 1
      ensures mfmFrameRev > 1 ==> V0State() == old(V0State()) && readingMvlcScaler == old(readingMvlcScaler)
      ensures mfmFrameRev == 0 ==>
                var run := V0.Read(setup, V0.Start(old(V0State())), WordsOf(buf));
                && V0State() == run.state && readingMvlcScaler == old(readingMvlcScaler)
                && (r.Delivered? <==> run.status == V0.Running)
                && (r.UnknownModule? ==> run.status == V0.Threw(r.id))
                && (r.Delivered? ==> r.event.modules == run.modules)
      ensures mfmFrameRev == 0 && old(V0State()).Consistent() ==>
                && V0State().Consistent()
                && (r.Delivered? ==> r.event.modules == V0.Modules(setup, old(V0State()), WordsOf(buf)))
      ensures mfmFrameRev == 1 ==>
                var ws := WordsOf(buf);
                var n := V1.KnownPrefix(setup, ws);
                && gotHeader == old(gotHeader) && readingData == old(readingData)
                && readingMvlcScaler == V1.ScalerAfter(setup, old(readingMvlcScaler), ws[..n])
                && modData.Value() == V1.Flushed(V1.CurrentRecord(setup, old(readingMvlcScaler), ws[..n]))
                && (r.Delivered? <==> V1.Known(setup, ws))
                && (r.Delivered? ==> r.event.modules == V1.Parse(setup, ws))
                && (r.UnknownModule? ==> n < |ws| && r.id == ModuleId(ws[n]))
    {
      match mfmFrameRev {
        case 0 => r := ReadEventInBufferV0(buf);
        case 1 => r := ReadEventInBufferV1(buf);
        case _ => r := UnknownRevision;
      }
    }
  }
}
