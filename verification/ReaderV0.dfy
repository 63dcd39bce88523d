/**
 What reading a stream of frame revision 0 means. The reader is a state machine whose state, but
 for the event being built, survives from one buffer to the next.
 */
module ReaderV0 {
  import opened Basics
  import opened Words
  import opened VmeModules
  import opened EventData
  import opened ReaderV1

  // The fields that persist between calls.
  datatype State = State(mod: ModuleRecord, gotHeader: bool, readingData: bool) {
    predicate Open() { gotHeader || readingData }

    // A closed module has been moved into an event.
    predicate Consistent() { Open() || mod.data == [] }
  }

  // get_module may throw; decoding is undefined for a module whose masks were never set.
  datatype Status = Running | Threw(id: u8) | Undefined

  datatype Run = Run(state: State, modules: seq<ModuleRecord>, status: Status)

  function Start(s: State): Run { Run(s, [], Running) }

  function Step(setup: Setup, r: Run, w: Word): Run {
    var s := r.state;
    if r.status != Running then r
    else if IsModuleHeader(w) then
      if ModuleId(w) !in setup then r.(status := Threw(ModuleId(w)))
      else r.(state := State(HeaderRecord(w, setup[ModuleId(w)].firmware), true, false))
    else if IsMdppData(w) then
      if s.mod.moduleId !in setup then r.(state := s.(readingData := true), status := Threw(s.mod.moduleId))
      else
        var d := setup[s.mod.moduleId];
        if !d.Decodable() then r.(state := s.(readingData := true), status := Undefined)
        else r.(state := s.(readingData := true, mod := s.mod.Add(DecodeOnBusZero(d, w))))
    else if s.Open() && (IsEndOfEvent(w) || IsFrameHeader(w)) then
      var closed := s.mod.(eventCounter := EventCounter(w), eoeWord := w);
      r.(state := State(closed.Moved(), false, false), modules := r.modules + [closed])
    else r
  }

  function Read(setup: Setup, r: Run, ws: seq<Word>): Run {
    if ws == [] then r else Step(setup, Read(setup, r, Init(ws)), Last(ws))
  }

  // ---------- runs compose ----------

  lemma {:induction false} ReadConcat(setup: Setup, r: Run, a: seq<Word>, b: seq<Word>)
    ensures Read(setup, r, a + b) == Read(setup, Read(setup, r, a), b)
  {
    hide Step;
    if b == [] {
      assert a + b == a;
    } else {
      ReadConcat(setup, r, a, Init(b));
      assert Init(a + b) == a + Init(b) && Last(a + b) == Last(b);
    }
  }

  lemma ReadOneMore(setup: Setup, r: Run, a: seq<Word>, w: Word, b: seq<Word>)
    ensures Read(setup, r, a + [w]) == Step(setup, Read(setup, r, a), w)
    ensures Read(setup, r, a + [w]).status != Running ==> Read(setup, r, a + [w] + b) == Read(setup, r, a + [w])
  {
    hide Step;
    assert Init(a + [w]) == a;
    ReadConcat(setup, r, a + [w], b);
    if Read(setup, r, a + [w]).status != Running {
      StoppedStaysStopped(setup, Read(setup, r, a + [w]), b);
    }
  }

  // The modules emitted so far do not influence what follows.
  lemma {:induction false} ReadAddsModules(setup: Setup, r: Run, ws: seq<Word>)
    ensures var alone := Read(setup, r.(modules := []), ws);
            Read(setup, r, ws) == alone.(modules := r.modules + alone.modules)
  {
    hide IsModuleHeader;
    hide IsMdppData;
    hide IsEndOfEvent;
    hide IsFrameHeader;
    hide ModuleId;
    hide HeaderRecord;
    hide DecodeOnBusZero;
    hide EventCounter;
    if ws == [] {
    } else {
      ReadAddsModules(setup, r, Init(ws));
      var before := Read(setup, r.(modules := []), Init(ws));
      var after := Step(setup, before, Last(ws));
      if after.modules != before.modules {
        ConcatAssociates(r.modules, before.modules, [after.modules[|after.modules| - 1]]);
      }
    }
  }

  // Successive calls, each delivering its own event; an exception ends the run and its call delivers nothing.
  datatype Calls = Calls(state: State, delivered: seq<seq<ModuleRecord>>, status: Status)

  function ReadCalls(setup: Setup, s: State, chunks: seq<seq<Word>>): Calls {
    if chunks == [] then Calls(s, [], Running)
    else
      var before := ReadCalls(setup, s, Init(chunks));
      if before.status != Running then before
      else
        var r := Read(setup, Start(before.state), Last(chunks));
        Calls(r.state, if r.status == Running then before.delivered + [r.modules] else before.delivered, r.status)
  }

  // Cutting a stream into buffers at any word boundaries changes nothing: the same modules in the
  // same order, the same exception, the same state left behind.
  lemma {:induction false} ChunkingInvariance(setup: Setup, s: State, chunks: seq<seq<Word>>)
    ensures var calls := ReadCalls(setup, s, chunks);
            var whole := Read(setup, Start(s), Flatten(chunks));
            && calls.status == whole.status
            && calls.state == whole.state
            && (if calls.status == Running then Flatten(calls.delivered) == whole.modules
                else Flatten(calls.delivered) <= whole.modules)
  {
    hide Step;
    if chunks == [] {
    } else {
      var before := ReadCalls(setup, s, Init(chunks));
      var whole := Read(setup, Start(s), Flatten(Init(chunks)));
      ChunkingInvariance(setup, s, Init(chunks));
      assert chunks == Init(chunks) + [Last(chunks)];
      FlattenAppend(Init(chunks), Last(chunks));
      ReadConcat(setup, Start(s), Flatten(Init(chunks)), Last(chunks));
      if before.status == Running {
        ReadAddsModules(setup, whole, Last(chunks));
        var r := Read(setup, Start(before.state), Last(chunks));
        assert whole.(modules := []) == Start(before.state);
        FlattenAppend(before.delivered, r.modules);
      } else {
        StoppedStaysStopped(setup, whole, Last(chunks));
      }
    }
  }

  lemma StoppedStep(setup: Setup, r: Run, w: Word)
    ensures r.status != Running ==> Step(setup, r, w) == r
  {
  }

  lemma {:induction false} StoppedStaysStopped(setup: Setup, r: Run, ws: seq<Word>)
    requires r.status != Running
    ensures Read(setup, r, ws) == r
  {
    if ws == [] {
    } else {
      StoppedStaysStopped(setup, r, Init(ws));
    }
  }

  // ---------- what is emitted, word by word ----------

  // A header or an MDPP data word opens a module.
  predicate Opens(w: Word) { IsModuleHeader(w) || IsMdppData(w) }

  // Some word opened a module and no end-of-event word has come since.
  predicate Opened(open: bool, ws: seq<Word>) {
    || (exists j :: 0 <= j < |ws| && Opens(ws[j]) && forall k :: j < k < |ws| ==> !IsEndOfEvent(ws[k]))
    || (open && forall k :: 0 <= k < |ws| ==> !IsEndOfEvent(ws[k]))
  }

  // The word is an end-of-event word, the first since a module was opened.
  predicate Closes(open: bool, ws: seq<Word>, i: nat)
    requires i < |ws|
  {
    IsEndOfEvent(ws[i]) && Opened(open, ws[..i])
  }

  function ClosingWords(open: bool, ws: seq<Word>): (closing: seq<nat>)
    ensures forall k :: 0 <= k < |closing| ==> closing[k] < |ws|
  {
    if ws == [] then []
    else ClosingWords(open, Init(ws)) + (if Closes(open, ws, |ws| - 1) then [|ws| - 1] else [])
  }

  // All closing words and no others, in stream order.
  lemma {:induction false} ClosingWordsAreThose(open: bool, ws: seq<Word>)
    ensures var closing := ClosingWords(open, ws);
            && (forall i :: 0 <= i < |ws| ==> (i in closing <==> Closes(open, ws, i)))
            && (forall k, l :: 0 <= k < l < |closing| ==> closing[k] < closing[l])
  {
    hide IsEndOfEvent;
    hide Opened;
    if ws == [] {
    } else {
      var before := ClosingWords(open, Init(ws));
      var closing := ClosingWords(open, ws);
      ClosingWordsAreThose(open, Init(ws));
      forall i | 0 <= i < |ws|
        ensures i in closing <==> Closes(open, ws, i)
      {
        if i < |ws| - 1 {
          assert Init(ws)[..i] == ws[..i] && Init(ws)[i] == ws[i];
          assert i in closing <==> i in before;
        } else {
          assert i !in before;
        }
      }
    }
  }

  // The index of the last word that starts a new list of data: a header or an end-of-event word.
  function LastBoundary(ws: seq<Word>): (b: int)
    ensures -1 <= b < |ws|
    ensures b >= 0 ==> IsModuleHeader(ws[b]) || IsEndOfEvent(ws[b])
    ensures forall k :: b < k < |ws| ==> !IsModuleHeader(ws[k]) && !IsEndOfEvent(ws[k])
  {
    if ws == [] then -1
    else if IsModuleHeader(Last(ws)) || IsEndOfEvent(Last(ws)) then |ws| - 1
    else LastBoundary(Init(ws))
  }

  function ModuleIdAfter(s: State, ws: seq<Word>): u8 {
    if LastHeader(ws) < 0 then s.mod.moduleId else ModuleId(ws[LastHeader(ws)])
  }

  function MdppWord(setup: Setup, id: u8): Word -> seq<ChannelData> {
    w => if IsMdppData(w) && id in setup then [DecodeOnBusZero(setup[id], w)] else []
  }

  // The module that an end-of-event word closes after these words: the last header, and the MDPP
  // data since that header or since the last end-of-event word.
  function Record(setup: Setup, s: State, ws: seq<Word>, eoe: Word): ModuleRecord {
    var h := LastHeader(ws);
    var b := LastBoundary(ws);
    var base := if h < 0 || ModuleId(ws[h]) !in setup then s.mod
                else HeaderRecord(ws[h], setup[ModuleId(ws[h])].firmware);
    base.(eventCounter := EventCounter(eoe),
          eoeWord := eoe,
          data := (if b < 0 then s.mod.data else [])
                  + FlatMap(MdppWord(setup, ModuleIdAfter(s, ws)), ws[b + 1..]))
  }

  function Modules(setup: Setup, s: State, ws: seq<Word>): seq<ModuleRecord> {
    var closing := ClosingWords(s.Open(), ws);
    seq(|closing|, k requires 0 <= k < |closing| => Record(setup, s, ws[..closing[k]], ws[closing[k]]))
  }

  // No exception and no undefined decode: every header is known, and every MDPP data word belongs
  // to a known module that can decode it.
  predicate ReadsThrough(setup: Setup, s: State, ws: seq<Word>) {
    forall i :: 0 <= i < |ws| ==>
                  && (IsModuleHeader(ws[i]) ==> ModuleId(ws[i]) in setup)
                  && (IsMdppData(ws[i]) ==>
                        ModuleIdAfter(s, ws[..i]) in setup && setup[ModuleIdAfter(s, ws[..i])].Decodable())
  }

  // ---------- the machine meets the description ----------

  // The data and numbers of a module, without what its end-of-event word adds.
  function Core(m: ModuleRecord): ModuleRecord { m.(eventCounter := Word(0), eoeWord := Word(0)) }

  lemma {:induction false} ConsistencyKept(setup: Setup, r: Run, ws: seq<Word>)
    ensures r.state.Consistent() ==> Read(setup, r, ws).state.Consistent()
  {
    hide IsModuleHeader;
    hide IsMdppData;
    hide IsEndOfEvent;
    hide IsFrameHeader;
    hide ModuleId;
    hide HeaderRecord;
    hide DecodeOnBusZero;
    hide EventCounter;
    if ws == [] {
    } else {
      ConsistencyKept(setup, r, Init(ws));
    }
  }

  lemma OpenedNext(open: bool, ws: seq<Word>, w: Word)
    ensures Opens(w) ==> Opened(open, ws + [w])
    ensures !Opens(w) && IsEndOfEvent(w) ==> !Opened(open, ws + [w])
    ensures !Opens(w) && !IsEndOfEvent(w) ==> (Opened(open, ws + [w]) <==> Opened(open, ws))
  {
    hide Opens;
    hide IsEndOfEvent;
    var next := ws + [w];
    var n := |ws|;
    assert next[n] == w && forall k :: 0 <= k < n ==> next[k] == ws[k];
    if !Opens(w) && !IsEndOfEvent(w) {
      if Opened(open, ws) && !(open && forall k :: 0 <= k < n ==> !IsEndOfEvent(ws[k])) {
        var j :| 0 <= j < n && Opens(ws[j]) && forall k :: j < k < n ==> !IsEndOfEvent(ws[k]);
        assert Opens(next[j]);
      }
      if Opened(open, next) && !(open && forall k :: 0 <= k < n + 1 ==> !IsEndOfEvent(next[k])) {
        var j :| 0 <= j < n + 1 && Opens(next[j]) && forall k :: j < k < n + 1 ==> !IsEndOfEvent(next[k]);
        assert j < n && Opens(ws[j]);
      }
    } else if Opens(w) {
      assert Opens(next[n]);
    }
  }

  lemma BoundaryNext(ws: seq<Word>, w: Word)
    ensures LastHeader(ws + [w]) == if IsModuleHeader(w) then |ws| else LastHeader(ws)
    ensures LastBoundary(ws + [w]) == if IsModuleHeader(w) || IsEndOfEvent(w) then |ws| else LastBoundary(ws)
  {
    hide IsModuleHeader;
    hide IsEndOfEvent;
    assert Init(ws + [w]) == ws && Last(ws + [w]) == w;
  }

  lemma ModuleIdNext(s: State, ws: seq<Word>, w: Word)
    ensures ModuleIdAfter(s, ws + [w]) == if IsModuleHeader(w) then ModuleId(w) else ModuleIdAfter(s, ws)
  {
    hide IsModuleHeader;
    hide IsEndOfEvent;
    hide ModuleId;
    hide LastHeader;
    BoundaryNext(ws, w);
  }

  // How the module that would be closed next changes with one more word: a header or an end-of-event
  // word starts its data anew, and another word adds itself if it is MDPP data.
  lemma RecordRestarts(setup: Setup, s: State, ws: seq<Word>, w: Word, e: Word)
    requires IsModuleHeader(w) || IsEndOfEvent(w)
    requires IsModuleHeader(w) ==> ModuleId(w) in setup
    ensures IsModuleHeader(w) ==>
              Core(Record(setup, s, ws + [w], e)) == Core(HeaderRecord(w, setup[ModuleId(w)].firmware))
    ensures !IsModuleHeader(w) ==> Record(setup, s, ws + [w], e) == Record(setup, s, ws, e).Moved()
  {
    hide IsModuleHeader;
    hide IsEndOfEvent;
    hide IsMdppData;
    hide ModuleId;
    hide AnnouncedWords;
    hide DecodeOnBusZero;
    hide EventCounter;
    hide LastHeader;
    hide LastBoundary;
    hide FlatMap;
    hide MdppWord;
    hide ModuleIdAfter;
    var next := ws + [w];
    BoundaryNext(ws, w);
    assert next[|ws|] == w && next[|ws| + 1..] == [];
    FlatMapEmpty(MdppWord(setup, ModuleIdAfter(s, next)));
    if LastHeader(ws) >= 0 {
      assert next[LastHeader(ws)] == ws[LastHeader(ws)];
    }
  }

  lemma RecordGrows(setup: Setup, s: State, ws: seq<Word>, w: Word, e: Word)
    requires !IsModuleHeader(w) && !IsEndOfEvent(w)
    ensures var m := Record(setup, s, ws, e);
            Record(setup, s, ws + [w], e) == m.(data := m.data + MdppWord(setup, ModuleIdAfter(s, ws))(w))
  {
    hide IsModuleHeader;
    hide IsEndOfEvent;
    hide IsMdppData;
    hide ModuleId;
    hide AnnouncedWords;
    hide DecodeOnBusZero;
    hide EventCounter;
    hide LastHeader;
    hide LastBoundary;
    hide MdppWord;
    hide FlatMap;
    hide ModuleIdAfter;
    var next := ws + [w];
    var f := MdppWord(setup, ModuleIdAfter(s, ws));
    BoundaryNext(ws, w);
    ModuleIdNext(s, ws, w);
    var h, b := LastHeader(ws), LastBoundary(ws);
    assert next[b + 1..] == ws[b + 1..] + [w];
    FlatMapAppend(f, ws[b + 1..], w);
    ConcatAssociates(if b < 0 then s.mod.data else [], FlatMap(f, ws[b + 1..]), f(w));
    if h >= 0 {
      assert next[h] == ws[h];
    }
  }

  lemma ModulesNext(setup: Setup, s: State, ws: seq<Word>, w: Word)
    ensures Modules(setup, s, ws + [w])
            == Modules(setup, s, ws)
               + if IsEndOfEvent(w) && Opened(s.Open(), ws) then [Record(setup, s, ws, w)] else []
  {
    hide IsEndOfEvent;
    hide Opened;
    hide Record;
    var next := ws + [w];
    assert Init(next) == ws && next[..|ws|] == ws;
    var before := ClosingWords(s.Open(), ws);
    var closing := ClosingWords(s.Open(), next);
    forall k | 0 <= k < |before|
      ensures closing[k] == before[k]
              && next[..closing[k]] == ws[..before[k]] && next[closing[k]] == ws[before[k]]
    {
    }
  }

  // What the machine has done after these words.
  predicate Explained(setup: Setup, s: State, ws: seq<Word>, r: Run) {
    && r.status == Running
    && (r.state.Open() <==> Opened(s.Open(), ws))
    && Core(r.state.mod) == Core(Record(setup, s, ws, Word(0)))
    && r.state.mod.moduleId == ModuleIdAfter(s, ws)
    && r.modules == Modules(setup, s, ws)
  }

  lemma StepIsExplained(setup: Setup, s: State, ws: seq<Word>, r: Run, w: Word)
    requires r.state.Consistent()
    ensures Explained(setup, s, ws, r) && Step(setup, r, w).status == Running ==>
              Explained(setup, s, ws + [w], Step(setup, r, w))
  {
    hide IsModuleHeader;
    hide IsEndOfEvent;
    hide IsMdppData;
    hide IsFrameHeader;
    hide ModuleId;
    hide AnnouncedWords;
    hide DecodeOnBusZero;
    hide EventCounter;
    hide Opened;
    hide Record;
    hide ModuleIdAfter;
    hide Modules;
    KindsExcludeEachOther(w);
    OpenedNext(s.Open(), ws, w);
    ModuleIdNext(s, ws, w);
    if IsModuleHeader(w) && ModuleId(w) !in setup {
    } else if IsModuleHeader(w) || IsEndOfEvent(w) {
      RecordRestarts(setup, s, ws, w, Word(0));
    } else {
      RecordGrows(setup, s, ws, w, Word(0));
    }
    ModulesNext(setup, s, ws, w);
    RecordUpToEoe(setup, s, ws, w, Word(0));
  }

  lemma RecordUpToEoe(setup: Setup, s: State, ws: seq<Word>, e1: Word, e2: Word)
    ensures Record(setup, s, ws, e1) == Record(setup, s, ws, e2).(eoeWord := e1, eventCounter := EventCounter(e1))
  {
  }

  lemma NothingReadV0(setup: Setup, s: State)
    ensures Explained(setup, s, [], Start(s))
  {
    assert LastHeader([]) == -1 && LastBoundary([]) == -1;
    assert s.mod.data + [] == s.mod.data;
  }

  // The modules emitted correspond one to one, in order, to the end-of-event words that are the first
  // after a header or an MDPP data word. The reader's extra test for frame headers adds none.
  lemma {:induction false} Grouping(setup: Setup, s: State, ws: seq<Word>)
    requires s.Consistent() && Read(setup, Start(s), ws).status == Running
    ensures Explained(setup, s, ws, Read(setup, Start(s), ws))
    ensures Read(setup, Start(s), ws).modules == Modules(setup, s, ws)
    ensures Read(setup, Start(s), ws).state.Open() <==> Opened(s.Open(), ws)
  {
    hide Step;
    hide Opened;
    hide Record;
    hide Modules;
    hide ModuleIdAfter;
    if ws == [] {
      NothingReadV0(setup, s);
    } else {
      StoppedStep(setup, Read(setup, Start(s), Init(ws)), Last(ws));
      Grouping(setup, s, Init(ws));
      ConsistencyKept(setup, Start(s), Init(ws));
      StepIsExplained(setup, s, Init(ws), Read(setup, Start(s), Init(ws)), Last(ws));
      assert Init(ws) + [Last(ws)] == ws;
    }
  }

  // Exactly when a stream is read without an exception and without an undefined decode.
  lemma {:induction false} RunningIffReadsThrough(setup: Setup, s: State, ws: seq<Word>)
    requires s.Consistent()
    ensures Read(setup, Start(s), ws).status == Running <==> ReadsThrough(setup, s, ws)
  {
    hide IsModuleHeader;
    hide IsEndOfEvent;
    hide IsMdppData;
    hide IsFrameHeader;
    hide ModuleId;
    hide HeaderRecord;
    hide DecodeOnBusZero;
    hide EventCounter;
    hide ModuleIdAfter;
    hide Opened;
    hide Modules;
    hide Record;
    if ws == [] {
    } else {
      var init, w := Init(ws), Last(ws);
      RunningIffReadsThrough(setup, s, init);
      assert forall i {:trigger ws[..i]} :: 0 <= i < |init| ==> init[..i] == ws[..i];
      KindsExcludeEachOther(w);
      if ReadsThrough(setup, s, init) {
        Grouping(setup, s, init);
        assert Last(ws) == ws[|init|] && ws[..|init|] == init;
      }
    }
  }

  // ---------- the same, without the names of the tests ----------

  // A word closes a module when it is at least 0xC0000000 and no such word has come since the last word
  // in 0x40000000-0x4FFFFFFF or 0x10000000-0x1FFFFFFF, or since the start if a module was open then.
  lemma ClosesByValue(s: State, ws: seq<Word>, i: nat)
    requires i < |ws|
    ensures i in ClosingWords(s.Open(), ws) <==>
            && ws[i].bits >= 0xC0000000
            && (|| ((s.gotHeader || s.readingData) && forall k :: 0 <= k < i ==> ws[k].bits < 0xC0000000)
                || exists j :: 0 <= j < i && (forall k :: j < k < i ==> ws[k].bits < 0xC0000000)
                               && (0x40000000 <= ws[j].bits < 0x50000000 || 0x10000000 <= ws[j].bits < 0x20000000))
  {
    hide IsModuleHeader;
    hide IsMdppData;
    hide IsEndOfEvent;
    hide ClosingWords;
    ClosingWordsAreThose(s.Open(), ws);
    forall k | 0 <= k < |ws|
      ensures IsEndOfEvent(ws[k]) <==> ws[k].bits >= 0xC0000000
      ensures Opens(ws[k]) <==> 0x40000000 <= ws[k].bits < 0x50000000 || 0x10000000 <= ws[k].bits < 0x20000000
    {
      KindsByValue(ws[k]);
    }
    var before := ws[..i];
    assert forall k :: 0 <= k < i ==> before[k] == ws[k];
  }

  // The module closed by the k-th closing word: its end-of-event word is that word and its counter the
  // 30 bits below the marker bits; after a header it has the last one, and its data are, in order, the
  // words in 0x10000000-0x1FFFFFFF since the last header or end-of-event word.
  lemma ClosedModuleIs(setup: Setup, s: State, ws: seq<Word>, k: nat, h: nat, b: nat) returns (at: seq<nat>)
    requires k < |ClosingWords(s.Open(), ws)|
    requires var i := ClosingWords(s.Open(), ws)[k];
             && h <= b < i && 0x40000000 <= ws[h].bits < 0x50000000 && ModuleId(ws[h]) in setup
             && (forall j :: h < j < i ==> !(0x40000000 <= ws[j].bits < 0x50000000))
             && (0x40000000 <= ws[b].bits < 0x50000000 || ws[b].bits >= 0xC0000000)
             && (forall j :: b < j < i ==> !(0x40000000 <= ws[j].bits < 0x50000000) && ws[j].bits < 0xC0000000)
    ensures var i := ClosingWords(s.Open(), ws)[k];
            var m := Modules(setup, s, ws)[k];
            && m.eoeWord == ws[i]
            && m.eventCounter.bits < 0x40000000 && ws[i] == Word(0xC0000000 | m.eventCounter.bits)
            && m.headerWord == ws[h] && m.moduleId == ModuleId(ws[h])
            && m.dataWords == AnnouncedWords(ws[h], setup[ModuleId(ws[h])].firmware)
            && IsSelection(ws[b + 1..i], at, m.Words())
            && (forall j :: 0 <= j < |ws[b + 1..i]| ==>
                              (j in at <==> 0x10000000 <= ws[b + 1..i][j].bits < 0x20000000))
            && (forall c :: c in m.data ==> c == DecodeOnBusZero(setup[m.moduleId], c.word))
  {
    hide IsModuleHeader;
    hide IsMdppData;
    hide IsEndOfEvent;
    hide IsSelection;
    hide ModuleId;
    hide AnnouncedWords;
    hide DecodeOnBusZero;
    hide ClosingWords;
    hide Record;
    var i := ClosingWords(s.Open(), ws)[k];
    var front := ws[..i];
    ClosingWordsAreThose(s.Open(), ws);
    assert i in ClosingWords(s.Open(), ws);
    KindsByValue(ws[i]);
    assert forall j :: 0 <= j < i ==> front[j] == ws[j];
    assert front[b + 1..] == ws[b + 1..i];
    at := RecordIs(setup, s, front, ws[i], h, b);
  }

  lemma RecordIs(setup: Setup, s: State, ws: seq<Word>, eoe: Word, h: nat, b: nat) returns (at: seq<nat>)
    requires h <= b < |ws| && 0x40000000 <= ws[h].bits < 0x50000000 && ModuleId(ws[h]) in setup
    requires forall j :: h < j < |ws| ==> !(0x40000000 <= ws[j].bits < 0x50000000)
    requires 0x40000000 <= ws[b].bits < 0x50000000 || ws[b].bits >= 0xC0000000
    requires forall j :: b < j < |ws| ==> !(0x40000000 <= ws[j].bits < 0x50000000) && ws[j].bits < 0xC0000000
    requires IsEndOfEvent(eoe)
    ensures var m := Record(setup, s, ws, eoe);
            && m.eoeWord == eoe
            && m.eventCounter.bits < 0x40000000 && eoe == Word(0xC0000000 | m.eventCounter.bits)
            && m.headerWord == ws[h] && m.moduleId == ModuleId(ws[h])
            && m.dataWords == AnnouncedWords(ws[h], setup[ModuleId(ws[h])].firmware)
            && IsSelection(ws[b + 1..], at, m.Words())
            && (forall j :: 0 <= j < |ws[b + 1..]| ==> (j in at <==> 0x10000000 <= ws[b + 1..][j].bits < 0x20000000))
            && (forall c :: c in m.data ==> c == DecodeOnBusZero(setup[m.moduleId], c.word))
  {
    hide IsModuleHeader;
    hide IsMdppData;
    hide IsEndOfEvent;
    hide IsSelection;
    hide ModuleId;
    hide AnnouncedWords;
    hide DecodeOnBusZero;
    hide EventCounter;
    hide MdppWord;
    hide FlatMap;
    forall j | 0 <= j < |ws|
      ensures IsModuleHeader(ws[j]) <==> 0x40000000 <= ws[j].bits < 0x50000000
      ensures IsEndOfEvent(ws[j]) <==> ws[j].bits >= 0xC0000000
    {
      KindsByValue(ws[j]);
    }
    LastHeaderIs(ws, h);
    LastBoundaryIs(ws, b);
    EndOfEventHoldsCounter(eoe);
    var id := ModuleId(ws[h]);
    at := MdppWordsSelected(setup, id, ws[b + 1..]);
    MdppWordsDecoded(setup, id, ws[b + 1..]);
    assert [] + FlatMap(MdppWord(setup, id), ws[b + 1..]) == FlatMap(MdppWord(setup, id), ws[b + 1..]);
  }

  lemma LastHeaderIs(ws: seq<Word>, h: nat)
    requires h < |ws| && IsModuleHeader(ws[h]) && forall j :: h < j < |ws| ==> !IsModuleHeader(ws[j])
    ensures LastHeader(ws) == h
  {
    hide IsModuleHeader;
    hide LastHeader;
  }

  lemma LastBoundaryIs(ws: seq<Word>, b: nat)
    requires b < |ws| && (IsModuleHeader(ws[b]) || IsEndOfEvent(ws[b]))
    requires forall j :: b < j < |ws| ==> !IsModuleHeader(ws[j]) && !IsEndOfEvent(ws[j])
    ensures LastBoundary(ws) == b
  {
    hide IsModuleHeader;
    hide IsEndOfEvent;
    hide LastBoundary;
  }

  lemma MdppWordsDecoded(setup: Setup, id: u8, ws: seq<Word>)
    requires id in setup
    ensures forall c :: c in FlatMap(MdppWord(setup, id), ws) ==> c == DecodeOnBusZero(setup[id], c.word)
  {
    hide IsMdppData;
    hide DecodeOnBusZero;
    forall c | c in FlatMap(MdppWord(setup, id), ws)
      ensures c == DecodeOnBusZero(setup[id], c.word)
    {
      FlatMapMember(MdppWord(setup, id), ws, c);
      var w :| w in ws && c in MdppWord(setup, id)(w);
      DecodedOnBusZeroWord(setup[id], w);
    }
  }

  function OnlyMdpp(w: Word): seq<Word> { if IsMdppData(w) then [w] else [] }

  lemma {:induction false} MdppWordsAre(setup: Setup, id: u8, ws: seq<Word>)
    requires id in setup
    ensures WordsIn(FlatMap(MdppWord(setup, id), ws)) == FlatMap(OnlyMdpp, ws)
  {
    hide IsMdppData;
    hide DecodeOnBusZero;
    if ws == [] {
    } else {
      var w := Last(ws);
      MdppWordsAre(setup, id, Init(ws));
      WordsInConcat(FlatMap(MdppWord(setup, id), Init(ws)), MdppWord(setup, id)(w));
      DecodedOnBusZeroWord(setup[id], w);
      assert WordsIn([DecodeOnBusZero(setup[id], w)]) == [w] && WordsIn([]) == [];
    }
  }

  lemma MdppWordsSelected(setup: Setup, id: u8, ws: seq<Word>) returns (at: seq<nat>)
    requires id in setup
    ensures IsSelection(ws, at, WordsIn(FlatMap(MdppWord(setup, id), ws)))
    ensures forall j :: 0 <= j < |ws| ==> (j in at <==> 0x10000000 <= ws[j].bits < 0x20000000)
  {
    hide IsMdppData;
    hide IsSelection;
    MdppWordsAre(setup, id, ws);
    at := FlatMapSelects(OnlyMdpp, ws);
    forall j | 0 <= j < |ws|
      ensures OnlyMdpp(ws[j]) != [] <==> 0x10000000 <= ws[j].bits < 0x20000000
    {
      KindsByValue(ws[j]);
    }
  }

  lemma DecodedOnBusZeroWord(d: ModuleDesc, w: Word)
    ensures DecodeOnBusZero(d, w).word == w
  {
  }

  // Which exception ends a stream, or what is undefined: the first word that cannot be read decides.
  lemma {:induction false} FirstUnreadableDecides(setup: Setup, s: State, ws: seq<Word>) returns (i: nat)
    requires s.Consistent() && Read(setup, Start(s), ws).status != Running
    ensures i < |ws| && ReadsThrough(setup, s, ws[..i]) && !ReadsThrough(setup, s, ws[..i + 1])
    ensures Read(setup, Start(s), ws).status
            == if 0x40000000 <= ws[i].bits < 0x50000000 then Threw(ModuleId(ws[i]))
               else if ModuleIdAfter(s, ws[..i]) !in setup then Threw(ModuleIdAfter(s, ws[..i]))
               else Undefined
  {
    hide IsModuleHeader;
    hide IsMdppData;
    hide IsEndOfEvent;
    hide ModuleId;
    hide ModuleIdAfter;
    hide ReadsThrough;
    hide Step;
    hide Explained;
    var init, w := Init(ws), Last(ws);
    if Read(setup, Start(s), init).status != Running {
      StoppedStep(setup, Read(setup, Start(s), init), w);
      i := FirstUnreadableDecides(setup, s, init);
      assert init[..i] == ws[..i] && init[..i + 1] == ws[..i + 1];
    } else {
      i := |ws| - 1;
      assert ws[..i] == init && ws[..i + 1] == ws;
      RunningIffReadsThrough(setup, s, init);
      RunningIffReadsThrough(setup, s, ws);
      Grouping(setup, s, init);
      KindsByValue(w);
      StepStops(setup, s, init, Read(setup, Start(s), init), w);
    }
  }

  lemma StepStops(setup: Setup, s: State, ws: seq<Word>, r: Run, w: Word)
    requires Explained(setup, s, ws, r) && Step(setup, r, w).status != Running
    ensures Step(setup, r, w).status
            == if IsModuleHeader(w) then Threw(ModuleId(w))
               else if ModuleIdAfter(s, ws) !in setup then Threw(ModuleIdAfter(s, ws))
               else Undefined
  {
    hide IsModuleHeader;
    hide IsMdppData;
    hide IsEndOfEvent;
    hide IsFrameHeader;
    hide ModuleId;
    hide ModuleIdAfter;
    hide Opened;
    hide Modules;
    hide Record;
    hide DecodeOnBusZero;
    hide EventCounter;
    hide AnnouncedWords;
  }
}
