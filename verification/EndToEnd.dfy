/** The whole pipeline: from readout callbacks, through frames and relays, back to modules. */
module EndToEnd {
  import opened Basics
  import opened Words
  import opened VmeModules
  import opened EventData
  import opened ReaderV1
  import opened RoundTrip
  import opened Collator
  import opened Collation
  import opened Messages
  import opened Mfm
  import opened Transmitter
  import NarvalRelay
  import Recorder

  // ---------- what a reader should see of a readout ----------

  // Of an ordinary module of which words are sent, its group, whole; of a scaler block its two scalers.
  // Of a module with id 0, nothing.
  function Expected(setup: Setup): Block -> seq<ModuleRecord> {
    b =>
      if |b| <= 2 || !BlockOk(setup, b) || ModuleId(b[0]) !in setup then []
      else
        var d := setup[ModuleId(b[0])];
        if d.IsTgvModule() then []
        else if d.IsMvlcScaler() then
          Emit(Group(setup, b[0], b[1..5]))
          + if ModuleId(b[6]) in setup then Emit(Group(setup, b[6], b[7..11])) else []
        else if FlatMap(SentWord(d), b[1..]) == [] then []
        else Emit(Group(setup, b[0], b[1..]))
  }

  // A block that can be read back: what is serialised of it starts with a header of a known module, and
  // no other word looks like a header.
  predicate Readable(setup: Setup, b: Block) {
    && BlockOk(setup, b)
    && (|b| > 2 && ModuleId(b[0]) in setup && !setup[ModuleId(b[0])].IsTgvModule() ==>
          && IsModuleHeader(b[0])
          && if setup[ModuleId(b[0])].IsMvlcScaler() then
               NoHeader(b[1..5]) && (ModuleId(b[6]) in setup ==> NoHeader(b[7..11]))
             else setup[ModuleId(b[0])].Decodable() && NoHeader(b[1..]))
  }

  // Blocks that add no module, and blocks of data words and end-of-event words under their header, can
  // be read back; so can scaler blocks whose values do not look like headers.
  lemma WhatIsReadable(setup: Setup, b: Block)
    requires BlockOk(setup, b)
    ensures |b| <= 2 || ModuleId(b[0]) !in setup || setup[ModuleId(b[0])].firmware == TGV ==> Readable(setup, b)
    ensures |b| > 2 && ModuleId(b[0]) in setup && 0x40000000 <= b[0].bits < 0x50000000 ==>
              && (setup[ModuleId(b[0])].firmware in {MDPP_SCP, MDPP_QDC, MDPP_CSI, VMMR}
                  && (forall i :: 1 <= i < |b| ==> !(0x40000000 <= b[i].bits < 0x50000000))
                  ==> Readable(setup, b))
              && (setup[ModuleId(b[0])].firmware == MVLC_SCALER
                  && (forall i :: 1 <= i < 12 && i != 6 ==> !(0x40000000 <= b[i].bits < 0x50000000))
                  ==> Readable(setup, b))
  {
    hide IsModuleHeader;
    hide IsEndOfEvent;
    hide ModuleId;
    forall i | 0 <= i < |b|
      ensures IsModuleHeader(b[i]) <==> 0x40000000 <= b[i].bits < 0x50000000
    {
      KindsByValue(b[i]);
    }
  }

  const SETUP_WITH_ID_0: Setup := map[0 := ModuleDesc("MDPP-01", 0, 16, MDPP_SCP)]

  // A module with id 0, one data word: it is collated and serialised, and nothing is expected of it.
  lemma IdZeroIsSentButNotExpected()
    ensures var b := [Word(0x40000002), Word(0x10000001), Word(0xC0000000)];
            && Readable(SETUP_WITH_ID_0, b)
            && Output(RecordsOf(SETUP_WITH_ID_0)(b)) == [Word(0x40000002), Word(0x10000001)]
            && Expected(SETUP_WITH_ID_0)(b) == []
  {
    hide Readable;
    hide RecordsOf;
    hide Expected;
    hide Output;
    hide ModuleId;
    var header, w, eoe := Word(0x40000002), Word(0x10000001), Word(0xC0000000);
    HeaderOfId(0, 2);
    assert ModuleId(header) == 0;
    KindsByValue(header);
    KindsByValue(w);
    KindsByValue(eoe);
    OneWordOfIdZero(SETUP_WITH_ID_0, header, w, eoe);
  }

  lemma OneWordOfIdZero(setup: Setup, header: Word, w: Word, eoe: Word)
    requires IsModuleHeader(header) && ModuleId(header) == 0 && 0 in setup && setup[0].firmware == MDPP_SCP
    requires IsMesytecData(w) && IsEndOfEvent(eoe)
    ensures var b := [header, w, eoe];
            Readable(setup, b) && Output(RecordsOf(setup)(b)) == [header, w] && Expected(setup)(b) == []
  {
    hide IsModuleHeader;
    hide IsMesytecData;
    hide IsEndOfEvent;
    hide IsFillWord;
    hide ModuleId;
    hide AnnouncedWords;
    hide KeptWords;
    KindsExcludeEachOther(w);
    KindsExcludeEachOther(eoe);
    var b := [header, w, eoe];
    var d := setup[0];
    assert b[1..] == [w] + [eoe];
    FlatMapOne(SentWord(d), w);
    FlatMapAppend(SentWord(d), [w], eoe);
    assert FlatMap(SentWord(d), b[1..]) == [w];
    var m := WithWords(header, d.firmware, [w]);
    assert RecordsOf(setup)(b) == [m];
    FlatMapOne(OutputOf, m);
    assert m.Words() == [w];
  }

  // What is expected of an ordinary module holds its Mesytec data words, each as it decodes.
  lemma ExpectedHoldsMesytecWords(setup: Setup, b: Block, m: ModuleRecord)
    requires Readable(setup, b) && m in Expected(setup)(b) && !setup[ModuleId(b[0])].IsMvlcScaler()
    ensures m.headerWord == b[0] && m.moduleId == ModuleId(b[0]) && m.Words() == MesytecWords(b[1..])
    ensures forall c :: c in m.data ==> c == Decode(setup[m.moduleId], c.word)
  {
    hide IsModuleHeader;
    hide IsMesytecData;
    hide IsEndOfEvent;
    hide IsFillWord;
    hide ModuleId;
    hide AnnouncedWords;
    hide MesytecWords;
    hide Decode;
    var d := setup[ModuleId(b[0])];
    KeptWordsAre(d, b[1..]);
    KeptAreDecoded(d, b[1..]);
  }

  // ---------- one block ----------

  lemma RawWordsWords(ws: seq<Word>)
    ensures WordsIn(RawWords(ws)) == ws
  {
  }

  lemma RereadScaler(setup: Setup, header: Word, ws: seq<Word>)
    requires ModuleId(header) in setup && setup[ModuleId(header)].IsMvlcScaler() && ws != []
    requires IsModuleHeader(header) && NoHeader(ws)
    ensures var m := WithWords(header, MVLC_SCALER, ws);
            Printable(setup, m) && Reread(setup)(m) == Emit(Group(setup, header, ws))
  {
    hide IsModuleHeader;
    hide ModuleId;
    hide AnnouncedWords;
    hide KeptWords;
    RawWordsWords(ws);
  }

  lemma SentWordDropsNoData(d: ModuleDesc, w: Word)
    ensures SentWord(d)(w) == [w] || (SentWord(d)(w) == [] && !IsMesytecData(w))
  {
    KindsExcludeEachOther(w);
  }

  lemma SentWordsAreWords(d: ModuleDesc, ws: seq<Word>)
    requires NoHeader(ws)
    ensures NoHeader(FlatMap(SentWord(d), ws))
  {
    hide IsModuleHeader;
    hide IsEndOfEvent;
    hide IsFillWord;
    var sent := FlatMap(SentWord(d), ws);
    forall i | 0 <= i < |sent|
      ensures !IsModuleHeader(sent[i])
    {
      FlatMapMember(SentWord(d), ws, sent[i]);
      var w :| w in ws && sent[i] in SentWord(d)(w);
      assert sent[i] == w;
    }
  }

  // The sender's own filter makes no difference to what the reader keeps.
  lemma SenderFilterIsInvisible(d: ModuleDesc, ws: seq<Word>)
    ensures MesytecWords(FlatMap(SentWord(d), ws)) == MesytecWords(ws)
  {
    hide IsMesytecData;
    hide IsEndOfEvent;
    hide IsFillWord;
    hide MesytecWords;
    forall w
      ensures SentWord(d)(w) == [w] || (SentWord(d)(w) == [] && !IsMesytecData(w))
    {
      SentWordDropsNoData(d, w);
    }
    FilterIsInvisible(SentWord(d), ws);
  }

  // Nor to the decoded fields.
  lemma SenderFilterKeepsGroup(d: ModuleDesc, ws: seq<Word>)
    requires !d.IsMvlcScaler()
    ensures KeptWords(d, FlatMap(SentWord(d), ws)) == KeptWords(d, ws)
  {
    hide KeptWords;
    hide MesytecWords;
    SenderFilterIsInvisible(d, ws);
    KeptTwice(d, FlatMap(SentWord(d), ws));
    KeptTwice(d, ws);
  }

  lemma RereadOrdinary(setup: Setup, header: Word, ws: seq<Word>)
    requires IsModuleHeader(header) && ModuleId(header) in setup && NoHeader(ws)
    requires !setup[ModuleId(header)].IsMvlcScaler()
    ensures var d := setup[ModuleId(header)];
            var sent := FlatMap(SentWord(d), ws);
            var m := WithWords(header, d.firmware, sent);
            && Printable(setup, m)
            && Reread(setup)(m) == if sent == [] then [] else Emit(Group(setup, header, ws))
  {
    hide IsModuleHeader;
    hide IsEndOfEvent;
    hide IsFillWord;
    hide ModuleId;
    hide AnnouncedWords;
    hide KeptWords;
    var d := setup[ModuleId(header)];
    SenderFilterKeepsGroup(d, ws);
    SentWordsAreWords(d, ws);
    RawWordsWords(FlatMap(SentWord(d), ws));
  }

  lemma BlockIsReadBack(setup: Setup, b: Block)
    requires Readable(setup, b)
    ensures forall m :: m in RecordsOf(setup)(b) ==> Printable(setup, m)
    ensures FlatMap(Reread(setup), RecordsOf(setup)(b)) == Expected(setup)(b)
  {
    hide IsModuleHeader;
    hide IsEndOfEvent;
    hide ModuleId;
    hide WithWords;
    hide Reread;
    hide Printable;
    hide Group;
    hide SentWord;
    var records := RecordsOf(setup)(b);
    NothingReread(setup);
    if records != [] {
      var d := setup[ModuleId(b[0])];
      if d.IsMvlcScaler() {
        var m0, m1 := WithWords(b[0], MVLC_SCALER, b[1..5]), WithWords(b[6], MVLC_SCALER, b[7..11]);
        RereadScaler(setup, b[0], b[1..5]);
        FlatMapOne(Reread(setup), m0);
        if ModuleId(b[6]) in setup {
          RereadScaler(setup, b[6], b[7..11]);
          assert records == [m0] + [m1];
          FlatMapAppend(Reread(setup), [m0], m1);
        } else {
          assert records == [m0];
        }
      } else {
        RereadOrdinary(setup, b[0], b[1..]);
        assert records == [records[0]];
        FlatMapOne(Reread(setup), records[0]);
      }
    }
  }

  lemma NothingReread(setup: Setup)
    ensures FlatMap(Reread(setup), []) == []
  {
  }

  // ---------- one event ----------

  // Serialising what a list of blocks contributes and reading it back gives exactly what is expected
  // of them, block by block.
  lemma {:induction false} BlocksAreReadBack(setup: Setup, blocks: seq<Block>)
    requires forall b :: b in blocks ==> Readable(setup, b)
    ensures var modules := FlatMap(RecordsOf(setup), blocks);
            && (forall m :: m in modules ==> Printable(setup, m))
            && FlatMap(Reread(setup), modules) == FlatMap(Expected(setup), blocks)
  {
    hide Readable;
    hide Printable;
    hide Reread;
    hide RecordsOf;
    hide Expected;
    if blocks == [] {
      NothingReread(setup);
      assert FlatMap(RecordsOf(setup), blocks) == [] && FlatMap(Expected(setup), blocks) == [];
    } else {
      var init, b := Init(blocks), Last(blocks);
      assert blocks == init + [b];
      BlocksAreReadBack(setup, init);
      BlockIsReadBack(setup, b);
      FlatMapConcat(Reread(setup), FlatMap(RecordsOf(setup), init), RecordsOf(setup)(b));
    }
  }

  // What the revision 1 reader makes of a frame's blob: none if it would throw or read what is not set.
  function ReadFrame(setup: Setup, frame: Message): Option<seq<ModuleRecord>> {
    if |frame| < HEADER_SIZE || |frame| % 4 != 0 then None
    else ReadWords(setup, WordsOf(frame[HEADER_SIZE..]))
  }

  function ReadWords(setup: Setup, ws: seq<Word>): Option<seq<ModuleRecord>> {
    if Known(setup, ws) && Defined(setup, false, ws) then Some(Parse(setup, ws)) else None
  }

  // Serialised output starts with a header, and all its headers are those of modules with data.
  lemma {:induction false} OutputHeaders(setup: Setup, modules: seq<ModuleRecord>)
    requires forall m :: m in modules ==> Printable(setup, m)
    ensures var ws := Output(modules);
            && (ws != [] ==> IsModuleHeader(ws[0]))
            && forall i :: 0 <= i < |ws| && IsModuleHeader(ws[i]) ==> exists m :: m in modules && m.headerWord == ws[i]
  {
    hide IsModuleHeader;
    hide ModuleId;
    if modules == [] {
    } else {
      var init, m := Init(modules), Last(modules);
      assert modules == init + [m] && m in modules;
      OutputHeaders(setup, init);
      var a, b, ws := Output(init), OutputOf(m), Output(modules);
      assert ws == a + b;
      assert forall k :: 1 <= k < |b| ==> b[k] == m.Words()[k - 1] && !IsModuleHeader(b[k]);
      forall i | 0 <= i < |ws| && IsModuleHeader(ws[i])
        ensures exists x :: x in modules && x.headerWord == ws[i]
      {
        if i < |a| {
          assert ws[i] == a[i];
          var x :| x in init && x.headerWord == a[i];
          assert x in modules;
        } else {
          assert ws[i] == b[i - |a|] && i == |a|;
        }
      }
    }
  }

  // The modules of a readable block belong to modules that the reader can decode.
  lemma RecordsDecodable(setup: Setup, b: Block, m: ModuleRecord)
    requires Readable(setup, b) && m in RecordsOf(setup)(b)
    ensures ModuleId(m.headerWord) in setup
    ensures setup[ModuleId(m.headerWord)].Decodable() || setup[ModuleId(m.headerWord)].IsMvlcScaler()
  {
    hide IsModuleHeader;
    hide IsEndOfEvent;
    hide ModuleId;
    hide AnnouncedWords;
  }

  lemma EventIsDefined(setup: Setup, blocks: seq<Block>)
    requires forall b :: b in blocks ==> Readable(setup, b)
    ensures var ws := Output(FlatMap(RecordsOf(setup), blocks));
            Known(setup, ws) && Defined(setup, false, ws)
  {
    hide Readable;
    hide IsModuleHeader;
    hide ModuleId;
    hide Defined;
    hide Output;
    var modules := FlatMap(RecordsOf(setup), blocks);
    var ws := Output(modules);
    BlocksAreReadBack(setup, blocks);
    ReadPrinted(setup, modules);
    OutputHeaders(setup, modules);
    forall i | 0 <= i < |ws| && IsModuleHeader(ws[i])
      ensures setup[ModuleId(ws[i])].Decodable() || setup[ModuleId(ws[i])].IsMvlcScaler()
    {
      var m :| m in modules && m.headerWord == ws[i];
      FlatMapMember(RecordsOf(setup), blocks, m);
      var b :| b in blocks && m in RecordsOf(setup)(b);
      RecordsDecodable(setup, b, m);
    }
    HeaderFirstIsDefined(setup, false, ws);
  }

  // The blob of a frame, read as revision 1, gives back exactly what is expected of the blocks that
  // went into the event, without an exception.
  lemma EventIsReadBack(setup: Setup, e: EventValue, blocks: seq<Block>)
    requires forall b :: b in blocks ==> Readable(setup, b)
    requires e.modules == FlatMap(RecordsOf(setup), blocks)
    ensures ReadFrame(setup, Frame(e)) == Some(FlatMap(Expected(setup), blocks))
  {
    hide Readable;
    hide Header;
    hide Output;
    hide Parse;
    hide Defined;
    hide Known;
    hide WordsOf;
    hide ToBytes;
    BlobRoundTrip(e);
    BlocksAreReadBack(setup, blocks);
    ReadPrinted(setup, e.modules);
    EventIsDefined(setup, blocks);
  }

  // ---------- a whole run ----------

  // The frames of the events that have modules, in order.
  function FrameOf(e: EventValue): seq<Message> {
    if e.modules == [] then [] else [Frame(e)]
  }

  function Frames(events: seq<EventValue>): seq<Message> {
    FlatMap(FrameOf, events)
  }

  // What is expected of an event built from these blocks: nothing is sent without a module.
  function ExpectedOf(setup: Setup, since: seq<Block>): seq<Option<seq<ModuleRecord>>> {
    if FlatMap(RecordsOf(setup), since) == [] then [] else [Some(FlatMap(Expected(setup), since))]
  }

  // The blocks processed since the callback that fired before the last one.
  function SinceFiring(setup: Setup, stacks: int, run: seq<Callback>): seq<Block>
    requires run != []
  {
    History(setup, run[LastFiring(setup, stacks, Init(run)) + 1..])
  }

  // One item for each callback that fires with a module to deliver.
  function ExpectedLast(setup: Setup, stacks: int, run: seq<Callback>): seq<Option<seq<ModuleRecord>>>
    requires run != []
  {
    if Fires(setup, stacks, Last(run)) then ExpectedOf(setup, SinceFiring(setup, stacks, run)) else []
  }

  function ExpectedEvents(setup: Setup, stacks: int, run: seq<Callback>): seq<Option<seq<ModuleRecord>>> {
    if run == [] then [] else ExpectedEvents(setup, stacks, Init(run)) + ExpectedLast(setup, stacks, run)
  }

  function ReadOne(setup: Setup): Message -> seq<Option<seq<ModuleRecord>>> { frame => [ReadFrame(setup, frame)] }

  function ReadFrames(setup: Setup, frames: seq<Message>): seq<Option<seq<ModuleRecord>>> {
    FlatMap(ReadOne(setup), frames)
  }

  predicate RunReadable(setup: Setup, run: seq<Callback>) {
    forall b :: b in History(setup, run) ==> Readable(setup, b)
  }

  lemma HistorySplit(setup: Setup, run: seq<Callback>, i: nat)
    requires i <= |run|
    ensures History(setup, run) == History(setup, run[..i]) + History(setup, run[i..])
  {
    assert run == run[..i] + run[i..];
    FlatMapConcat(SeenBy(setup), run[..i], run[i..]);
  }

  lemma EventSinceModules(setup: Setup, s: State, run: seq<Callback>, f: int)
    requires s.pending.modules == [] && -1 <= f < |run|
    ensures EventSince(setup, s, run, f).modules == FlatMap(RecordsOf(setup), History(setup, run[f + 1..]))
  {
    hide RecordsOf;
    hide History;
    hide LatestStamp;
  }

  lemma FramesAppend(setup: Setup, events: seq<EventValue>, e: EventValue)
    ensures ReadFrames(setup, Frames(events + [e]))
            == ReadFrames(setup, Frames(events)) + if e.modules == [] then [] else [ReadFrame(setup, Frame(e))]
  {
    hide ReadFrame;
    hide Frame;
    FlatMapAppend(FrameOf, events, e);
    if e.modules != [] {
      FlatMapAppend(ReadOne(setup), Frames(events), Frame(e));
    } else {
      assert Frames(events) + [] == Frames(events);
    }
  }

  lemma PartReadable(setup: Setup, run: seq<Callback>, i: nat)
    requires i <= |run| && RunReadable(setup, run)
    ensures RunReadable(setup, run[..i]) && RunReadable(setup, run[i..])
  {
    hide Readable;
    hide History;
    HistorySplit(setup, run, i);
  }

  lemma FiredIsReadBack(setup: Setup, s: State, run: seq<Callback>, f: int, before: seq<EventValue>)
    requires -1 <= f < |run| && s.pending.modules == [] && RunReadable(setup, run[f + 1..])
    ensures ReadFrames(setup, Frames(before + [EventSince(setup, s, run, f)]))
            == ReadFrames(setup, Frames(before)) + ExpectedOf(setup, History(setup, run[f + 1..]))
  {
    hide Readable;
    hide History;
    hide RecordsOf;
    hide Expected;
    hide ReadFrame;
    hide ReadFrames;
    hide Frame;
    hide Frames;
    hide EventSince;
    hide FlatMap;
    var e := EventSince(setup, s, run, f);
    EventSinceModules(setup, s, run, f);
    EventIsReadBack(setup, e, History(setup, run[f + 1..]));
    FramesAppend(setup, before, e);
  }

  lemma LastIsReadBack(setup: Setup, stacks: int, s: State, run: seq<Callback>)
    requires run != [] && s.pending.modules == []
    requires RunReadable(setup, run[LastFiring(setup, stacks, Init(run)) + 1..])
    ensures ReadFrames(setup, Frames(Events(setup, stacks, s, run)))
            == ReadFrames(setup, Frames(Events(setup, stacks, s, Init(run)))) + ExpectedLast(setup, stacks, run)
  {
    hide RunReadable;
    hide Fires;
    hide History;
    hide ExpectedOf;
    hide ReadFrames;
    hide Frames;
    hide EventSince;
    hide LastFiring;
    hide Events;
    EventsNext(setup, stacks, s, run);
    var before := Events(setup, stacks, s, Init(run));
    if Fires(setup, stacks, Last(run)) {
      FiredIsReadBack(setup, s, run, LastFiring(setup, stacks, Init(run)), before);
    } else {
      AppendNothing(ReadFrames(setup, Frames(before)));
    }
  }

  // From an empty event on, reading the frames of a run gives what its callbacks delivered.
  lemma {:induction false} RunIsReadBack(setup: Setup, stacks: int, s: State, run: seq<Callback>)
    requires s.pending.modules == [] && RunReadable(setup, run)
    ensures ReadFrames(setup, Frames(Events(setup, stacks, s, run))) == ExpectedEvents(setup, stacks, run)
  {
    hide RunReadable;
    hide Events;
    hide ExpectedLast;
    hide ReadFrames;
    hide Frames;
    hide LastFiring;
    if run == [] {
      NoFrames(setup);
      NoEvents(setup, stacks, s);
    } else {
      PartReadable(setup, run, |run| - 1);
      PartReadable(setup, run, LastFiring(setup, stacks, Init(run)) + 1);
      LastIsReadBack(setup, stacks, s, run);
      RunIsReadBack(setup, stacks, s, Init(run));
    }
  }

  lemma NoFrames(setup: Setup)
    ensures ReadFrames(setup, Frames([])) == []
  {
    assert Frames([]) == [];
  }

  // ---------- through the relays ----------

  predicate IsFrame(m: Message) { DecodeHeader(m).MfmHeader? }

  // No event overruns the transmitter's buffer.
  predicate EventsFit(events: seq<EventValue>) {
    forall e :: e in events ==> HEADER_SIZE + 4 * |Output(e.modules)| <= BUFFER_SIZE
  }

  lemma FramesAreFrames(events: seq<EventValue>)
    requires EventsFit(events)
    ensures forall f :: f in Frames(events) ==> IsFrame(f)
  {
    hide Frame;
    hide DecodeHeader;
    hide Output;
    forall f | f in Frames(events)
      ensures IsFrame(f)
    {
      FlatMapMember(FrameOf, events, f);
      var e :| e in events && f in FrameOf(e);
      FrameRoundTrip(e);
    }
  }

  lemma BytesHead(messages: seq<Message>)
    requires messages != []
    ensures Bytes(messages) == messages[0] + Bytes(messages[1..])
  {
    hide Bytes;
    assert messages == [messages[0]] + messages[1..];
    BytesConcat([messages[0]], messages[1..]);
    assert [messages[0]] == [] + [messages[0]];
    BytesOfNone();
    BytesAppend([], messages[0]);
  }

  // The size of a frame is in its first bytes.
  lemma SizeIsInFront(a: Message, b: Message, x: seq<u8>, y: seq<u8>)
    ensures IsFrame(a) && IsFrame(b) && a + x == b + y ==> a == b && x == y
  {
    hide ReadDataWord;
    hide ToNat;
    hide Read16;
    if IsFrame(a) && IsFrame(b) && a + x == b + y {
      ReadDataWordLocal(a, 1);
      ReadDataWordLocal(b, 1);
      assert a[1..5] == (a + x)[1..5] && b[1..5] == (b + y)[1..5];
      assert |a| == |b|;
      assert a == (a + x)[..|a|] && b == (b + y)[..|b|];
      assert x == (a + x)[|a|..] && y == (b + y)[|b|..];
    }
  }

  // Frames delimit themselves: their bytes, end to end, are those of one list of frames only. So
  // whole frames in order is all that a relay or a recorder has to keep.
  lemma {:induction false} FramesDelimitThemselves(a: seq<Message>, b: seq<Message>)
    requires (forall f :: f in a ==> IsFrame(f)) && (forall f :: f in b ==> IsFrame(f))
    requires Bytes(a) == Bytes(b)
    ensures a == b
  {
    hide Bytes;
    hide IsFrame;
    BytesOfNone();
    if a != [] {
      BytesHead(a);
      FrameIsNotEmpty(a[0]);
    }
    if b != [] {
      BytesHead(b);
      FrameIsNotEmpty(b[0]);
    }
    if a == [] || b == [] {
    } else {
      SizeIsInFront(a[0], b[0], Bytes(a[1..]), Bytes(b[1..]));
      FramesDelimitThemselves(a[1..], b[1..]);
      assert a == [a[0]] + a[1..] && b == [b[0]] + b[1..];
    }
  }

  lemma FrameIsNotEmpty(m: Message)
    ensures IsFrame(m) ==> |m| >= HEADER_SIZE
  {
  }

  // A collator with nothing pending and nothing counted: newly constructed, or reset, and its readout
  // then initialised.
  function Empty(eventCounter: Word, tgv: Tgv): State {
    State(EventValue([], eventCounter, tgv), [], 0)
  }

  lemma DeliveredEventsAreReadBack(setup: Setup, stacks: int, eventCounter: Word, tgv: Tgv, run: seq<Callback>)
    requires RunOk(setup, run) && RunReadable(setup, run)
    ensures ReadFrames(setup, Frames(AfterRun(setup, stacks, Empty(eventCounter, tgv), run).delivered))
            == ExpectedEvents(setup, stacks, run)
  {
    hide RunOk;
    hide RunReadable;
    hide AfterRun;
    hide ReadFrames;
    hide ExpectedEvents;
    hide Frames;
    hide Events;
    hide EventSince;
    hide LastFiring;
    hide Wrap32;
    var s := Empty(eventCounter, tgv);
    CollationIsExact(setup, stacks, s, run);
    assert AfterRun(setup, stacks, s, run).delivered == Events(setup, stacks, s, run);
    RunIsReadBack(setup, stacks, s, run);
  }

  // The events that the transmitter delivers for these buffers, starting there.
  function Transmitted(setup: Setup, stacks: nat, eventCounter: Word, tgv: Tgv, buffers: seq<seq<Callback>>)
    : seq<EventValue>
    requires BuffersOk(setup, buffers)
  {
    Transmit(setup, Machine(stacks, Empty(eventCounter, tgv)), buffers).state.delivered
  }

  // The frames that it sends.
  function SentFrames(setup: Setup, stacks: nat, eventCounter: Word, tgv: Tgv, buffers: seq<seq<Callback>>)
    : seq<Message>
    requires BuffersOk(setup, buffers)
  {
    Frames(Transmitted(setup, stacks, eventCounter, tgv, buffers))
  }

  // The blocks processed up to the first exception can be read back.
  predicate BuffersReadable(setup: Setup, buffers: seq<seq<Callback>>) {
    BuffersOk(setup, buffers) && RunReadable(setup, Made(setup, Flatten(buffers)))
  }

  // What is expected of all that the transmitter sends: that of the calls up to the first exception.
  function ExpectedOfBuffers(setup: Setup, stacks: nat, buffers: seq<seq<Callback>>): seq<Option<seq<ModuleRecord>>> {
    ExpectedEvents(setup, stacks, Made(setup, Flatten(buffers)))
  }

  // Over the whole run of the transmitter, however the callbacks are spread over buffers, exceptions
  // and resets included: reading the frames it sends gives, event by event, what is expected.
  lemma SentFramesAreReadBack(
    setup: Setup, stacks: nat, eventCounter: Word, tgv: Tgv, buffers: seq<seq<Callback>>)
    requires BuffersReadable(setup, buffers)
    ensures ReadFrames(setup, SentFrames(setup, stacks, eventCounter, tgv, buffers))
            == ExpectedOfBuffers(setup, stacks, buffers)
  {
    hide RunOk;
    hide BuffersOk;
    hide RunReadable;
    hide AfterRun;
    hide Transmit;
    hide Made;
    hide AnyCallThrows;
    hide ReadFrames;
    hide ExpectedEvents;
    hide Frames;
    hide Flatten;
    TransmitsUpToFirstException(setup, Machine(stacks, Empty(eventCounter, tgv)), buffers);
    DeliveredEventsAreReadBack(setup, stacks, eventCounter, tgv, Made(setup, Flatten(buffers)));
  }

  // From readout callbacks to modules read back: the frames sent are received with timeouts anywhere
  // between them and relayed in blocks of any sizes. Reading the frames sent on, then those that still
  // wait, gives what is expected of the callbacks, event by event.
  lemma RelayedRunIsReadBack(
    setup: Setup, stacks: nat, eventCounter: Word, tgv: Tgv, buffers: seq<seq<Callback>>,
    incoming: Incoming, sizes: seq<nat>)
    requires BuffersReadable(setup, buffers)
    requires Arrived(incoming) == SentFrames(setup, stacks, eventCounter, tgv, buffers)
    ensures var relay := NarvalRelay.NextBlocks(NarvalRelay.State(None, incoming), sizes);
            ReadFrames(setup, Flatten(relay.outputs)) + ReadFrames(setup, NarvalRelay.Waiting(relay.state))
            == ExpectedOfBuffers(setup, stacks, buffers)
  {
    hide BuffersReadable;
    hide SentFrames;
    hide Arrived;
    hide ReadOne;
    hide ExpectedOfBuffers;
    hide NarvalRelay.NextBlocks;
    var start := NarvalRelay.State(None, incoming);
    var relay := NarvalRelay.NextBlocks(start, sizes);
    assert NarvalRelay.Waiting(start) == Arrived(incoming);
    NarvalRelay.RelayConservation(start, sizes);
    FlatMapConcat(ReadOne(setup), Flatten(relay.outputs), NarvalRelay.Waiting(relay.state));
    SentFramesAreReadBack(setup, stacks, eventCounter, tgv, buffers);
  }

  // When the blocks are large enough for every frame, and there are enough of them, nothing waits.
  lemma DrainedRunIsReadBack(
    setup: Setup, stacks: nat, eventCounter: Word, tgv: Tgv, buffers: seq<seq<Callback>>,
    incoming: Incoming, size: nat, more: nat)
    requires BuffersReadable(setup, buffers)
    requires Arrived(incoming) == SentFrames(setup, stacks, eventCounter, tgv, buffers)
    requires forall m :: m in Arrived(incoming) ==> |m| <= size
    ensures var sizes := NarvalRelay.Repeat(size, |incoming| + more);
            var relay := NarvalRelay.NextBlocks(NarvalRelay.State(None, incoming), sizes);
            && Flatten(relay.outputs) == SentFrames(setup, stacks, eventCounter, tgv, buffers)
            && ReadFrames(setup, Flatten(relay.outputs)) == ExpectedOfBuffers(setup, stacks, buffers)
  {
    hide BuffersReadable;
    hide SentFrames;
    hide Arrived;
    hide ReadFrames;
    hide ExpectedOfBuffers;
    hide NarvalRelay.NextBlocks;
    hide NarvalRelay.Repeat;
    var start := NarvalRelay.State(None, incoming);
    assert NarvalRelay.Waiting(start) == Arrived(incoming);
    NarvalRelay.RelayDrains(start, size, |incoming| + more);
    SentFramesAreReadBack(setup, stacks, eventCounter, tgv, buffers);
  }

  // The frames that a relay has sent on are frames, as are those that arrived.
  lemma SentOnAreFrames(start: NarvalRelay.State, sizes: seq<nat>)
    requires forall f :: f in NarvalRelay.Waiting(start) ==> IsFrame(f)
    ensures forall f :: f in Flatten(NarvalRelay.NextBlocks(start, sizes).outputs) ==> IsFrame(f)
  {
    hide IsFrame;
    hide Flatten;
    hide NarvalRelay.NextBlocks;
    hide NarvalRelay.Waiting;
    NarvalRelay.RelayConservation(start, sizes);
    var relay := NarvalRelay.NextBlocks(start, sizes);
    forall f | f in Flatten(relay.outputs)
      ensures IsFrame(f)
    {
      assert f in Flatten(relay.outputs) + NarvalRelay.Waiting(relay.state);
    }
  }

  // The relayed bytes alone are enough: after any number of blocks of any sizes, the bytes sent on, cut
  // into frames in any way, and then the frames that still wait, give what is expected.
  lemma RelayedBytesAreReadBack(
    setup: Setup, stacks: nat, eventCounter: Word, tgv: Tgv, buffers: seq<seq<Callback>>,
    incoming: Incoming, sizes: seq<nat>, cut: seq<Message>)
    requires BuffersReadable(setup, buffers) && EventsFit(Transmitted(setup, stacks, eventCounter, tgv, buffers))
    requires Arrived(incoming) == SentFrames(setup, stacks, eventCounter, tgv, buffers)
    requires forall f :: f in cut ==> IsFrame(f)
    requires Bytes(cut) == Bytes(Flatten(NarvalRelay.NextBlocks(NarvalRelay.State(None, incoming), sizes).outputs))
    ensures var relay := NarvalRelay.NextBlocks(NarvalRelay.State(None, incoming), sizes);
            ReadFrames(setup, cut) + ReadFrames(setup, NarvalRelay.Waiting(relay.state))
            == ExpectedOfBuffers(setup, stacks, buffers)
  {
    hide BuffersOk;
    hide RunReadable;
    hide Made;
    hide EventsFit;
    hide Transmitted;
    hide Frames;
    hide Arrived;
    hide IsFrame;
    hide Bytes;
    hide Flatten;
    hide ReadFrames;
    hide ExpectedOfBuffers;
    hide NarvalRelay.NextBlocks;
    var start := NarvalRelay.State(None, incoming);
    assert NarvalRelay.Waiting(start) == Arrived(incoming);
    FramesAreFrames(Transmitted(setup, stacks, eventCounter, tgv, buffers));
    SentOnAreFrames(start, sizes);
    FramesDelimitThemselves(cut, Flatten(NarvalRelay.NextBlocks(start, sizes).outputs));
    RelayedRunIsReadBack(setup, stacks, eventCounter, tgv, buffers, incoming, sizes);
  }

  // Frames that the recorder's buffer can hold are of events that the transmitter's buffer can hold.
  lemma SmallFramesFit(events: seq<EventValue>)
    requires forall f :: f in Frames(events) ==> |f| <= Recorder.MEGABYTE
    ensures EventsFit(events)
  {
    hide Frame;
    hide Output;
    forall e | e in events
      ensures HEADER_SIZE + 4 * |Output(e.modules)| <= BUFFER_SIZE
    {
      if e.modules == [] {
        NothingPrinted();
      } else {
        assert Frame(e) in FrameOf(e);
        FlatMapMember(FrameOf, events, Frame(e));
        Recorder.FrameFitsIffFewWords(e);
      }
    }
  }

  // The same for the recorder, from its bytes: when it has recorded the frames sent, the bytes of its
  // closed files, its open file and its buffer, cut into frames in any way, give what is expected.
  lemma RecordedRunIsReadBack(
    setup: Setup, stacks: nat, eventCounter: Word, tgv: Tgv, buffers: seq<seq<Callback>>,
    sent: seq<Message>, z: Recorder.ZmqReceiver, cut: seq<Message>)
    requires BuffersReadable(setup, buffers) && z.HasRecorded(sent)
    requires sent == SentFrames(setup, stacks, eventCounter, tgv, buffers)
    requires forall m :: m in sent ==> |m| <= Recorder.MEGABYTE
    requires (forall f :: f in cut ==> IsFrame(f)) && Bytes(cut) == z.AllBytes()
    ensures ReadFrames(setup, cut) == ExpectedOfBuffers(setup, stacks, buffers)
  {
    hide BuffersOk;
    hide RunReadable;
    hide Made;
    hide EventsFit;
    hide Transmitted;
    hide Frames;
    hide Bytes;
    hide IsFrame;
    hide ReadFrames;
    hide ExpectedOfBuffers;
    hide Recorder.RecordAll;
    hide Recorder.Bounded;
    hide Recorder.Recording.Frames;
    hide Recorder.ZmqReceiver.Valid;
    hide Recorder.ZmqReceiver.AllBytes;
    z.AllBytesAreRecorded();
    Recorder.RecorderInvariant(z.fileSize, sent);
    SmallFramesFit(Transmitted(setup, stacks, eventCounter, tgv, buffers));
    FramesAreFrames(Transmitted(setup, stacks, eventCounter, tgv, buffers));
    FramesDelimitThemselves(cut, sent);
    SentFramesAreReadBack(setup, stacks, eventCounter, tgv, buffers);
  }

  // ---------- indexing with what was delivered ----------

  // Every item of MDPP data that reading any frame gives names a channel that the constructor of its
  // module built, on its one bus. An item of VMMR data does exactly when the bus is one of the module's
  // and, for an ADC word, bit 19 is clear.
  lemma DeliveredChannelsExist(setup: Setup, frame: Message, m: ModuleRecord, c: ChannelData, mod: Module)
    requires ReadFrame(setup, frame).Some? && m in ReadFrame(setup, frame).value && c in m.data
    requires m.moduleId in setup && mod.Valid() && mod.Desc() == setup[m.moduleId]
    ensures mod.Desc().HasMdppLayout() ==>
              c.Decoded? && c.bus == 0 && c.dataType != Unknown && mod.HasChannel(c.bus, c.channel)
    ensures mod.Desc().IsVmmrModule() ==>
              && c.Decoded? && c.dataType != Unknown
              && (mod.HasChannel(c.bus, c.channel) <==>
                    c.bus as int < mod.nchan && (IsVmmrAdcData(c.word) ==> c.word.bits & 0x00080000 == 0))
  {
    hide IsModuleHeader;
    hide IsMesytecData;
    hide ModuleId;
    hide Parse;
    hide AnnouncedWords;
    hide BusNumber;
    hide ChannelNumber;
    hide ChannelDatum;
    hide DataTypeOf;
    hide WordsOf;
    hide Module.HasChannel;
    var d := setup[m.moduleId];
    ParsedAreGroups(setup, WordsOf(frame[HEADER_SIZE..]));
    GroupId(setup, m.headerWord, m.Words());
    if !d.IsMvlcScaler() {
      KeptAreDecoded(d, m.Words());
      assert c == Decode(d, c.word);
      mod.DecodedChannels(c.word);
    }
  }
}
