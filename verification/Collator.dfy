/** Collation of module readouts, over all the readout stacks of the crate, into events. */
module Collator {
  import opened Basics
  import opened Words
  import opened VmeModules
  import opened EventData
  import opened ReaderV1

  // The words one module contributed to one readout.
  type Block = seq<Word>

  // One call of the event data callback by the readout parser.
  datatype Callback = Callback(eventIndex: int, blocks: seq<Block>)

  // ---------- what a block means ----------

  datatype Meaning =
    | Ignored                                                       // no data, or unknown module
    | Timestamp(tgv: Tgv)
    | Records(records: seq<ModuleRecord>)
    | Throws(records: seq<ModuleRecord>, id: u8)                    // the second scaler is unknown

  function LowHalf(w: Word): bv16 { (w.bits & 0x0000FFFF) as bv16 }

  // End-of-event words are dropped, and fill words of Mesytec modules.
  function SentWord(d: ModuleDesc): Word -> seq<Word> {
    w => if IsEndOfEvent(w) || (d.IsMesytecModule() && IsFillWord(w)) then [] else [w]
  }

  function WithWords(header: Word, firmware: Firmware, words: seq<Word>): ModuleRecord {
    HeaderRecord(header, firmware).(data := RawWords(words))
  }

  // What the source asserts of a scaler readout: two scalers of four words, each with a marker and an
  // end-of-event word; of the second only if it is known, as an exception comes first if it is not.
  // (What a timestamp block must hold: the five words that are read.)
  predicate BlockOk(setup: Setup, block: Block) {
    |block| > 2 && ModuleId(block[0]) in setup ==>
      var d := setup[ModuleId(block[0])];
      && (d.IsTgvModule() ==> |block| >= 5)
      && (d.IsMvlcScaler() ==>
            && |block| == 12
            && IsEndOfEvent(block[5]) && IsModuleHeader(block[6])
            && (ModuleId(block[6]) in setup ==>
                  setup[ModuleId(block[6])].IsMvlcScaler() && IsEndOfEvent(block[11])))
  }

  function BlockMeaning(setup: Setup, block: Block): Meaning
    requires BlockOk(setup, block)
  {
    if |block| <= 2 || ModuleId(block[0]) !in setup then Ignored
    else
      var d := setup[ModuleId(block[0])];
      if d.IsTgvModule() then Timestamp(Tgv(LowHalf(block[2]), LowHalf(block[3]), LowHalf(block[4])))
      else if d.IsMvlcScaler() then
        var first := WithWords(block[0], MVLC_SCALER, block[1..5]);
        if ModuleId(block[6]) !in setup then Throws([first], ModuleId(block[6]))
        else Records([first, WithWords(block[6], MVLC_SCALER, block[7..11])])
      else Records([WithWords(block[0], d.firmware, FlatMap(SentWord(d), block[1..]))])
  }

  // ---------- what a list of blocks means ----------

  predicate BlocksOk(setup: Setup, blocks: seq<Block>) {
    forall b :: b in blocks ==> BlockOk(setup, b)
  }

  datatype Collected = Collected(records: seq<ModuleRecord>, tgv: Tgv, thrown: Option<u8>)

  function Take(setup: Setup, c: Collected, block: Block): Collected
    requires BlockOk(setup, block)
  {
    if c.thrown.Some? then c
    else
      match BlockMeaning(setup, block)
      case Ignored => c
      case Timestamp(tgv) => c.(tgv := tgv)
      case Records(records) => c.(records := c.records + records)
      case Throws(records, id) => c.(records := c.records + records, thrown := Some(id))
  }

  // Blocks are processed up to and including the first that throws.
  function Collect(setup: Setup, tgv: Tgv, blocks: seq<Block>): Collected
    requires BlocksOk(setup, blocks)
  {
    if blocks == [] then Collected([], tgv, None)
    else Take(setup, Collect(setup, tgv, Init(blocks)), Last(blocks))
  }

  // ---------- runs ----------

  // The event being built, the events delivered so far, and the count kept in 32 bits.
  datatype State = State(pending: EventValue, delivered: seq<EventValue>, total: nat)

  // A callback fires when it is for the last readout stack, unless it throws first.
  function After(setup: Setup, stacks: int, s: State, cb: Callback): State
    requires BlocksOk(setup, cb.blocks)
  {
    var c := Collect(setup, s.pending.tgv, cb.blocks);
    var event := s.pending.(modules := s.pending.modules + c.records, tgv := c.tgv);
    if c.thrown.None? && cb.eventIndex + 1 == stacks then
      State(event.(modules := []), s.delivered + [event], Wrap32(s.total + 1))
    else s.(pending := event)
  }

  predicate RunOk(setup: Setup, run: seq<Callback>) {
    forall cb :: cb in run ==> BlocksOk(setup, cb.blocks)
  }

  function AfterRun(setup: Setup, stacks: int, s: State, run: seq<Callback>): State
    requires RunOk(setup, run)
  {
    if run == [] then s
    else
      After(setup, stacks, AfterRun(setup, stacks, s, Init(run)), Last(run))
  }

  // Whether a call throws depends on its blocks alone.
  predicate CallThrows(setup: Setup, cb: Callback)
    requires BlocksOk(setup, cb.blocks)
  {
    Collect(setup, Tgv(0, 0, 0), cb.blocks).thrown.Some?
  }

  // ---------- the class ----------

  class MvlcParserBufferReader {
    const setup: Setup
    var stacks: nat
    const mesyEvent: Event
    const modData: ModuleData
    var totalNumberEventsParsed: nat

    // Until the readout is initialised the parser knows no stack.
    constructor (setup: Setup)
      ensures this.setup == setup && stacks == 0 && fresh(mesyEvent) && fresh(modData)
      ensures mesyEvent.modules == [] && totalNumberEventsParsed == 0
    {
      this.setup := setup;
      stacks := 0;
      mesyEvent := new Event();
      modData := new ModuleData();
      totalNumberEventsParsed := 0;
    }

    // The readout structure comes from the crate configuration.
    method InitialiseReadout(readoutStacks: nat)
      modifies this`stacks
      ensures stacks == readoutStacks
    {
      stacks := readoutStacks;
    }

    // The parser state is emptied, so no stack is known until the readout is initialised again. The
    // event counter and the timestamp are not reset.
    method Reset()
      modifies this`totalNumberEventsParsed, this`stacks, mesyEvent, modData
      ensures mesyEvent.Value() == old(mesyEvent.Value()).(modules := [])
      ensures totalNumberEventsParsed == 0 && stacks == 0
    {
      mesyEvent.Clear();
      modData.Clear();
      totalNumberEventsParsed := 0;
      stacks := 0;
    }

    // Four scaler words, from the given position on, become one module.
    method AddScaler(header: Word, block: Block, offset: nat)
      requires offset + 4 <= |block|
      modifies mesyEvent`modules, modData
      ensures mesyEvent.modules
              == old(mesyEvent.modules) + [WithWords(header, MVLC_SCALER, block[offset..offset + 4])]
    {
      hide AnnouncedWords;
      hide ModuleId;
      modData.SetHeaderWord(header, MVLC_SCALER);
      for i := 0 to 4
        invariant mesyEvent.modules == old(mesyEvent.modules)
        invariant modData.Value() == WithWords(header, MVLC_SCALER, block[offset..offset + i])
      {
        modData.AddData(Raw(block[offset + i]));
        RawWordsNext(block, offset, offset + i);
      }
      mesyEvent.AddModuleData(modData);
    }

    // The words of an ordinary module, less those that are not sent on.
    method AddOrdinary(d: ModuleDesc, block: Block)
      requires |block| > 0
      modifies mesyEvent`modules, modData
      ensures mesyEvent.modules
              == old(mesyEvent.modules) + [WithWords(block[0], d.firmware, FlatMap(SentWord(d), block[1..]))]
    {
      hide HeaderRecord;
      hide IsEndOfEvent;
      hide IsFillWord;
      hide FlatMap;
      modData.SetHeaderWord(block[0], d.firmware);
      NothingSent(d, block);
      for di := 1 to |block|
        invariant mesyEvent.modules == old(mesyEvent.modules)
        invariant modData.Value() == WithWords(block[0], d.firmware, FlatMap(SentWord(d), block[1..di]))
      {
        var w := block[di];
        OrdinaryNext(d, block, di);
        if !IsEndOfEvent(w) && !(d.IsMesytecModule() && IsFillWord(w)) {
          modData.AddData(Raw(w));
        }
      }
      assert block[1..|block|] == block[1..];
      mesyEvent.AddModuleData(modData);
    }

    method TakeBlock(block: Block, ghost c: Collected, ghost before: seq<ModuleRecord>) returns (thrown: Option<u8>)
      requires BlockOk(setup, block) && c.thrown.None?
      requires c.tgv == mesyEvent.Value().tgv && mesyEvent.modules == before + c.records
      modifies mesyEvent, modData
      ensures var next := Take(setup, c, block);
              && thrown == next.thrown
              && mesyEvent.Value().tgv == next.tgv
              && mesyEvent.eventCounter == old(mesyEvent.eventCounter)
              && mesyEvent.modules == before + next.records
    {
      hide IsEndOfEvent;
      hide IsModuleHeader;
      hide ModuleId;
      hide WithWords;
      thrown := None;
      if |block| > 2 {
        var moduleId := ModuleId(block[0]);
        if moduleId !in setup { return; }
        var mod := setup[moduleId];
        if mod.IsTgvModule() {
          mesyEvent.tgvLo := LowHalf(block[2]);
          mesyEvent.tgvMid := LowHalf(block[3]);
          mesyEvent.tgvHi := LowHalf(block[4]);
          return;
        }
        if mod.IsMvlcScaler() {
          AddScaler(block[0], block, 1);
          moduleId := ModuleId(block[6]);
          if moduleId !in setup {
            return Some(moduleId);
          }
          AddScaler(block[6], block, 7);
          return;
        }
        AddOrdinary(mod, block);
      }
    }

    // At most one event is handed to the callback function, which is taken not to throw; an exception
    // from an unknown second scaler ends the call before that.
    method EventDataCallback(eventIndex: int, blocks: seq<Block>)
      returns (delivered: seq<EventValue>, thrown: Option<u8>)
      requires BlocksOk(setup, blocks)
      modifies this`totalNumberEventsParsed, mesyEvent, modData
      ensures State(mesyEvent.Value(), delivered, totalNumberEventsParsed)
              == After(setup, stacks, State(old(mesyEvent.Value()), [], old(totalNumberEventsParsed)),
                       Callback(eventIndex, blocks))
      ensures thrown == Collect(setup, old(mesyEvent.Value().tgv), blocks).thrown
      ensures var c := Collect(setup, old(mesyEvent.Value().tgv), blocks);
              var e := EventValue(old(mesyEvent.modules) + c.records, old(mesyEvent.eventCounter), c.tgv);
              if thrown.None? && eventIndex + 1 == stacks then
                && delivered == [e] && mesyEvent.Value() == e.(modules := [])
                && totalNumberEventsParsed == (old(totalNumberEventsParsed) + 1) % 0x1_0000_0000
              else
                && delivered == [] && mesyEvent.Value() == e
                && totalNumberEventsParsed == old(totalNumberEventsParsed)
    {
      hide Take;
      ghost var tgv := mesyEvent.Value().tgv;
      ghost var before := mesyEvent.modules;
      delivered, thrown := [], None;
      var moduleIndex := 0;
      while moduleIndex < |blocks|
        invariant 0 <= moduleIndex <= |blocks|
        invariant BlocksOk(setup, blocks[..moduleIndex])
        invariant var c := Collect(setup, tgv, blocks[..moduleIndex]);
                  && c.thrown.None?
                  && mesyEvent.Value().tgv == c.tgv
                  && mesyEvent.modules == before + c.records
        invariant thrown.None? && totalNumberEventsParsed == old(totalNumberEventsParsed)
        invariant mesyEvent.eventCounter == old(mesyEvent.eventCounter)
      {
        CollectNext(setup, tgv, blocks, moduleIndex);
        thrown := TakeBlock(blocks[moduleIndex], Collect(setup, tgv, blocks[..moduleIndex]), before);
        if thrown.Some? {
          return;
        }
        moduleIndex := moduleIndex + 1;
      }
      assert blocks[..moduleIndex] == blocks;
      if eventIndex + 1 == stacks {
        delivered := [mesyEvent.Value()];
        mesyEvent.Clear();
        totalNumberEventsParsed := Wrap32(totalNumberEventsParsed + 1);
      }
    }

    // The readout parser turns a buffer into callbacks; an exception in one ends the buffer. The
    // ghost result says how many calls were made.
    method ReadBufferCollateEvents(run: seq<Callback>)
      returns (total: nat, delivered: seq<EventValue>, thrown: Option<u8>, ghost calls: nat)
      requires RunOk(setup, run)
      modifies this`totalNumberEventsParsed, mesyEvent, modData
      ensures calls <= |run| && RunOk(setup, run[..calls])
      ensures State(mesyEvent.Value(), delivered, totalNumberEventsParsed)
              == AfterRun(setup, stacks, State(old(mesyEvent.Value()), [], old(totalNumberEventsParsed)), run[..calls])
      ensures forall i :: 0 <= i < calls ==> (CallThrows(setup, run[i]) <==> i == calls - 1 && thrown.Some?)
      ensures if thrown.Some? then calls > 0 else calls == |run|
      ensures total == totalNumberEventsParsed
      ensures stacks == 0 && (forall cb :: cb in run ==> cb.eventIndex >= 0) ==> delivered == []
    {
      hide After;
      hide Collect;
      hide BlocksOk;
      ghost var start := State(mesyEvent.Value(), [], totalNumberEventsParsed);
      delivered, thrown, calls := [], None, 0;
      var i := 0;
      while i < |run|
        invariant 0 <= i <= |run| && calls == i && thrown.None?
        invariant RunOk(setup, run[..i])
        invariant State(mesyEvent.Value(), delivered, totalNumberEventsParsed)
                  == AfterRun(setup, stacks, start, run[..i])
        invariant forall k :: 0 <= k < i ==> !CallThrows(setup, run[k])
        invariant stacks == 0 && (forall cb :: cb in run ==> cb.eventIndex >= 0) ==> delivered == []
      {
        assert run[i] in run;
        assert Init(run[..i + 1]) == run[..i];
        AfterAppends(setup, stacks, State(mesyEvent.Value(), [], totalNumberEventsParsed), delivered, run[i]);
        FiresOnlyForLastStack(setup, stacks, State(mesyEvent.Value(), [], totalNumberEventsParsed), run[i]);
        ThrownIgnoresTgv(setup, mesyEvent.Value().tgv, Tgv(0, 0, 0), run[i].blocks);
        var fired;
        fired, thrown := EventDataCallback(run[i].eventIndex, run[i].blocks);
        delivered := delivered + fired;
        calls := i + 1;
        if thrown.Some? {
          return totalNumberEventsParsed, delivered, thrown, calls;
        }
        i := i + 1;
      }
      assert run[..i] == run;
      total := totalNumberEventsParsed;
    }
  }

  lemma NothingSent(d: ModuleDesc, block: Block)
    requires |block| > 0
    ensures WithWords(block[0], d.firmware, FlatMap(SentWord(d), block[1..1])) == HeaderRecord(block[0], d.firmware)
  {
    hide HeaderRecord;
    assert block[1..1] == [] && RawWords([]) == [];
    HeaderHasNoData(block[0], d.firmware);
  }

  lemma HeaderHasNoData(header: Word, firmware: Firmware)
    ensures HeaderRecord(header, firmware).data == []
  {
  }

  lemma OrdinaryNext(d: ModuleDesc, block: Block, i: nat)
    requires 1 <= i < |block|
    ensures var before := FlatMap(SentWord(d), block[1..i]);
            FlatMap(SentWord(d), block[1..i + 1]) == before + SentWord(d)(block[i])
            && RawWords(before + [block[i]]) == RawWords(before) + [Raw(block[i])]
            && before + [] == before
  {
    assert block[1..i + 1] == block[1..i] + [block[i]];
    FlatMapAppend(SentWord(d), block[1..i], block[i]);
  }

  lemma RawWordsNext(block: Block, lo: nat, hi: nat)
    requires lo <= hi < |block|
    ensures RawWords(block[lo..hi + 1]) == RawWords(block[lo..hi]) + [Raw(block[hi])]
  {
  }

  lemma CollectNext(setup: Setup, tgv: Tgv, blocks: seq<Block>, i: nat)
    requires BlocksOk(setup, blocks) && i < |blocks|
    ensures BlocksOk(setup, blocks[..i]) && BlocksOk(setup, blocks[..i + 1]) && BlockOk(setup, blocks[i])
    ensures Collect(setup, tgv, blocks[..i + 1]) == Take(setup, Collect(setup, tgv, blocks[..i]), blocks[i])
    ensures Collect(setup, tgv, blocks[..i + 1]).thrown.Some? ==>
              Collect(setup, tgv, blocks) == Collect(setup, tgv, blocks[..i + 1])
    decreases |blocks|
  {
    hide BlockOk;
    hide BlockMeaning;
    assert blocks[i] in blocks;
    assert Init(blocks[..i + 1]) == blocks[..i];
    if i + 1 < |blocks| {
      CollectNext(setup, tgv, Init(blocks), i);
      assert Init(blocks)[..i + 1] == blocks[..i + 1];
    } else {
      assert blocks[..i + 1] == blocks;
    }
  }

  // The events delivered so far do not influence what a callback does.
  lemma AfterAppends(setup: Setup, stacks: int, s: State, delivered: seq<EventValue>, cb: Callback)
    requires BlocksOk(setup, cb.blocks) && s.delivered == []
    ensures var alone := After(setup, stacks, s, cb);
            After(setup, stacks, s.(delivered := delivered), cb) == alone.(delivered := delivered + alone.delivered)
  {
  }

  lemma FiresOnlyForLastStack(setup: Setup, stacks: int, s: State, cb: Callback)
    requires BlocksOk(setup, cb.blocks)
    ensures cb.eventIndex + 1 != stacks ==>
              After(setup, stacks, s, cb).delivered == s.delivered && After(setup, stacks, s, cb).total == s.total
  {
  }

  lemma {:induction false} ThrownIgnoresTgv(setup: Setup, t1: Tgv, t2: Tgv, blocks: seq<Block>)
    requires BlocksOk(setup, blocks)
    ensures Collect(setup, t1, blocks).thrown == Collect(setup, t2, blocks).thrown
  {
    hide BlockOk;
    hide BlockMeaning;
    if blocks == [] {
    } else {
      ThrownIgnoresTgv(setup, t1, t2, Init(blocks));
    }
  }
}
