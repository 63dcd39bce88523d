/** Where the readers of frame revisions 0 and 1 agree. */
module Agreement {
  import opened Basics
  import opened Words
  import opened VmeModules
  import opened EventData
  import opened ReaderV1
  import V0 = ReaderV0
  import opened RoundTrip

  // A module as revision 0 writes it: a header, MDPP data words, end-of-event words.
  datatype Piece = Piece(header: Word, data: seq<Word>, eoes: seq<Word>)

  predicate WellFormed(setup: Setup, p: Piece) {
    && IsModuleHeader(p.header)
    && ModuleId(p.header) in setup
    && (p.data == [] || setup[ModuleId(p.header)].Decodable())
    && (forall w :: w in p.data ==> IsMdppData(w))
    && (forall w :: w in p.eoes ==> IsEndOfEvent(w))
    && p.eoes != []
  }

  lemma WhatIsWellFormed(setup: Setup, p: Piece)
    requires 0x40000000 <= p.header.bits < 0x50000000 && ModuleId(p.header) in setup
    requires setup[ModuleId(p.header)].firmware in {MDPP_SCP, MDPP_QDC, MDPP_CSI, VMMR} || p.data == []
    requires forall w :: w in p.data ==> 0x10000000 <= w.bits < 0x20000000
    requires p.eoes != [] && forall w :: w in p.eoes ==> w.bits >= 0xC0000000
    ensures WellFormed(setup, p)
  {
    hide IsModuleHeader;
    hide IsMdppData;
    hide IsEndOfEvent;
    hide ModuleId;
    KindsByValue(p.header);
    forall w | w in p.data + p.eoes
      ensures (IsMdppData(w) <==> 0x10000000 <= w.bits < 0x20000000) && (IsEndOfEvent(w) <==> w.bits >= 0xC0000000)
    {
      KindsByValue(w);
    }
    assert forall w :: w in p.data || w in p.eoes ==> w in p.data + p.eoes;
  }

  function PieceWords(p: Piece): seq<Word> { [p.header] + (p.data + p.eoes) }

  function Stream(pieces: seq<Piece>): seq<Word> { FlatMap(PieceWords, pieces) }

  // What each reader stores for a piece, end-of-event word and counter aside.
  function OnBusZero(d: ModuleDesc): Word -> seq<ChannelData> { w => [DecodeOnBusZero(d, w)] }

  function RecordV0(setup: Setup, p: Piece): ModuleRecord {
    if ModuleId(p.header) !in setup then CLEARED_RECORD
    else
      var d := setup[ModuleId(p.header)];
      HeaderRecord(p.header, d.firmware).(data := FlatMap(OnBusZero(d), p.data))
  }

  function Cores(modules: seq<ModuleRecord>): (cores: seq<ModuleRecord>)
    ensures |cores| == |modules|
  {
    seq(|modules|, i requires 0 <= i < |modules| => V0.Core(modules[i]))
  }

  lemma CoresAppend(modules: seq<ModuleRecord>, m: ModuleRecord)
    ensures Cores(modules + [m]) == Cores(modules) + [V0.Core(m)]
  {
  }

  // ---------- revision 0 ----------

  lemma {:induction false} ReadData(setup: Setup, r: V0.Run, data: seq<Word>)
    requires r.status == V0.Running && r.state.gotHeader
    requires r.state.mod.moduleId in setup && (data == [] || setup[r.state.mod.moduleId].Decodable())
    requires forall w :: w in data ==> IsMdppData(w)
    ensures var d := setup[r.state.mod.moduleId];
            var after := V0.Read(setup, r, data);
            && after.status == V0.Running && after.modules == r.modules && after.state.gotHeader
            && after.state.mod == r.state.mod.(data := r.state.mod.data + FlatMap(OnBusZero(d), data))
  {
    hide IsModuleHeader;
    hide IsMdppData;
    hide IsEndOfEvent;
    hide IsFrameHeader;
    hide ModuleId;
    hide HeaderRecord;
    hide DecodeOnBusZero;
    hide EventCounter;
    if data == [] {
    } else {
      var w := Last(data);
      assert w in data && forall x :: x in Init(data) ==> x in data;
      KindsExcludeEachOther(w);
      MdppIsMesytec(w);
      ReadData(setup, r, Init(data));
      var d := setup[r.state.mod.moduleId];
      ConcatAssociates(r.state.mod.data, FlatMap(OnBusZero(d), Init(data)), [DecodeOnBusZero(d, w)]);
    }
  }

  lemma MdppIsMesytec(w: Word)
    ensures IsMdppData(w) ==> IsMesytecData(w)
    ensures IsEndOfEvent(w) ==> !IsMdppData(w) && !IsModuleHeader(w) && !IsMesytecData(w)
  {
  }

  lemma {:induction false} ReadEoes(setup: Setup, r: V0.Run, eoes: seq<Word>)
    requires r.status == V0.Running && r.state.Open() && eoes != []
    requires forall w :: w in eoes ==> IsEndOfEvent(w)
    ensures var after := V0.Read(setup, r, eoes);
            && after.status == V0.Running && !after.state.Open()
            && |after.modules| == |r.modules| + 1
            && after.modules[..|r.modules|] == r.modules
            && V0.Core(Last(after.modules)) == V0.Core(r.state.mod)
  {
    hide IsModuleHeader;
    hide IsMdppData;
    hide IsEndOfEvent;
    hide IsFrameHeader;
    hide IsMesytecData;
    hide ModuleId;
    hide HeaderRecord;
    hide DecodeOnBusZero;
    hide EventCounter;
    var w := Last(eoes);
    MdppIsMesytec(w);
    if |eoes| > 1 {
      assert forall x :: x in Init(eoes) ==> x in eoes;
      ReadEoes(setup, r, Init(eoes));
    } else {
      assert Init(eoes) == [];
      assert V0.Read(setup, r, eoes) == V0.Step(setup, r, w);
    }
  }

  lemma ReadHeader(setup: Setup, r: V0.Run, header: Word)
    requires r.status == V0.Running && IsModuleHeader(header) && ModuleId(header) in setup
    ensures V0.Read(setup, r, [header])
            == r.(state := V0.State(HeaderRecord(header, setup[ModuleId(header)].firmware), true, false))
  {
    hide IsModuleHeader;
    hide ModuleId;
    hide HeaderRecord;
    assert Init([header]) == [];
  }

  lemma ReadPiece(setup: Setup, r: V0.Run, p: Piece)
    requires r.status == V0.Running && WellFormed(setup, p)
    ensures var after := V0.Read(setup, r, PieceWords(p));
            && after.status == V0.Running && !after.state.Open()
            && Cores(after.modules) == Cores(r.modules) + [RecordV0(setup, p)]
  {
    hide IsModuleHeader;
    hide IsMdppData;
    hide IsEndOfEvent;
    hide ModuleId;
    hide AnnouncedWords;
    hide FlatMap;
    hide Cores;
    hide V0.Read;
    hide V0.Step;
    V0.ReadConcat(setup, r, [p.header], p.data + p.eoes);
    ReadHeader(setup, r, p.header);
    var headed := V0.Read(setup, r, [p.header]);
    V0.ReadConcat(setup, headed, p.data, p.eoes);
    ReadData(setup, headed, p.data);
    var filled := V0.Read(setup, headed, p.data);
    assert filled.state.mod == RecordV0(setup, p);
    ReadEoes(setup, filled, p.eoes);
    var after := V0.Read(setup, filled, p.eoes);
    assert after.modules == r.modules + [Last(after.modules)];
    CoresAppend(r.modules, Last(after.modules));
  }

  lemma {:induction false} ReadStreamV0(setup: Setup, s: V0.State, pieces: seq<Piece>)
    requires !s.Open() && forall p :: p in pieces ==> WellFormed(setup, p)
    ensures var run := V0.Read(setup, V0.Start(s), Stream(pieces));
            && run.status == V0.Running && !run.state.Open()
            && |run.modules| == |pieces|
    ensures pieces != [] ==>
              Cores(V0.Read(setup, V0.Start(s), Stream(pieces)).modules)
              == Cores(V0.Read(setup, V0.Start(s), Stream(Init(pieces))).modules) + [RecordV0(setup, Last(pieces))]
  {
    hide WellFormed;
    hide PieceWords;
    hide RecordV0;
    hide V0.Step;
    hide V0.Core;
    if pieces == [] {
    } else {
      var p := Last(pieces);
      assert p in pieces && forall q :: q in Init(pieces) ==> q in pieces;
      ReadStreamV0(setup, s, Init(pieces));
      V0.ReadConcat(setup, V0.Start(s), Stream(Init(pieces)), PieceWords(p));
      ReadPiece(setup, V0.Read(setup, V0.Start(s), Stream(Init(pieces))), p);
    }
  }

  // ---------- revision 1 ----------

  lemma {:induction false} KeptFromData(d: ModuleDesc, data: seq<Word>)
    requires !d.IsMvlcScaler() && forall w :: w in data ==> IsMdppData(w)
    ensures |KeptWords(d, data)| == |FlatMap(OnBusZero(d), data)| == |data|
    ensures KeptWords(d, data) == FlatMap(OnBusZero(d), data)
            <==> forall w :: w in data ==> Decode(d, w) == DecodeOnBusZero(d, w)
  {
    hide IsMdppData;
    hide IsMesytecData;
    hide Decode;
    hide DecodeOnBusZero;
    if data == [] {
    } else {
      var init, w := Init(data), Last(data);
      assert data == init + [w];
      MdppIsMesytec(w);
      KeptFromData(d, init);
      EqualEnds(KeptWords(d, init), [Decode(d, w)], FlatMap(OnBusZero(d), init), DecodeOnBusZero(d, w));
    }
  }

  lemma {:induction false} NothingKept(d: ModuleDesc, eoes: seq<Word>)
    requires !d.IsMvlcScaler() && forall w :: w in eoes ==> IsEndOfEvent(w)
    ensures KeptWords(d, eoes) == []
  {
    hide IsEndOfEvent;
    hide IsMesytecData;
    hide Decode;
    if eoes == [] {
    } else {
      MdppIsMesytec(Last(eoes));
      NothingKept(d, Init(eoes));
    }
  }

  // ---------- agreement ----------

  // A decoded word that is the same with and without its bus number.
  predicate OnBus0(d: ModuleDesc, w: Word) { BusNumber(d, w) == 0 }

  predicate Agrees(setup: Setup, p: Piece) {
    && ModuleId(p.header) != 0
    && ModuleId(p.header) in setup
    && var d := setup[ModuleId(p.header)];
    && !d.IsMvlcScaler()
    && (d.IsVmmrModule() ==> forall w :: w in p.data ==> OnBus0(d, w))
  }

  lemma DecodeAgrees(d: ModuleDesc, w: Word)
    ensures Decode(d, w) == DecodeOnBusZero(d, w) <==> d.IsVmmrModule() ==> OnBus0(d, w)
  {
  }

  lemma PieceV1(setup: Setup, p: Piece)
    requires WellFormed(setup, p)
    ensures Known(setup, PieceWords(p)) && |Parse(setup, PieceWords(p))| <= 1
    ensures Parse(setup, PieceWords(p)) == [RecordV0(setup, p)] <==> Agrees(setup, p)
  {
    hide IsModuleHeader;
    hide IsMdppData;
    hide IsMesytecData;
    hide IsEndOfEvent;
    hide ModuleId;
    hide AnnouncedWords;
    hide Decode;
    hide DecodeOnBusZero;
    hide OnBus0;
    hide Parse;
    hide KeptWords;
    hide FlatMap;
    var d := setup[ModuleId(p.header)];
    var body := p.data + p.eoes;
    forall i | 0 <= i < |body|
      ensures !IsModuleHeader(body[i])
    {
      assert body[i] in p.data || body[i] in p.eoes;
      MdppIsMesytec(body[i]);
      KindsExcludeEachOther(body[i]);
    }
    ParseOneGroup(setup, p.header, body);
    forall w | w in p.data
      ensures Decode(d, w) == DecodeOnBusZero(d, w) <==> d.IsVmmrModule() ==> OnBus0(d, w)
    {
      DecodeAgrees(d, w);
    }
    if d.IsMvlcScaler() {
      KeptWordsAre(d, body);
      assert p.data == [] || d.Decodable();
      OnBusZeroOfNothing(d, p.data);
      assert |KeptWords(d, body)| == |body| > 0;
    } else {
      KeptBody(d, p.data, p.eoes);
    }
  }

  lemma OnBusZeroOfNothing(d: ModuleDesc, data: seq<Word>)
    ensures data == [] ==> FlatMap(OnBusZero(d), data) == []
  {
  }

  lemma KeptBody(d: ModuleDesc, data: seq<Word>, eoes: seq<Word>)
    requires !d.IsMvlcScaler()
    requires (forall w :: w in data ==> IsMdppData(w)) && (forall w :: w in eoes ==> IsEndOfEvent(w))
    ensures KeptWords(d, data + eoes) == FlatMap(OnBusZero(d), data)
            <==> forall w :: w in data ==> Decode(d, w) == DecodeOnBusZero(d, w)
  {
    hide IsMdppData;
    hide IsEndOfEvent;
    hide Decode;
    hide DecodeOnBusZero;
    KeptFromData(d, data);
    NothingKept(d, eoes);
    FlatMapConcat(Keeping(d), data, eoes);
  }

  // From a closed state, the two readers deliver the same modules with the same headers, data words
  // and decoded fields exactly when no module has id 0 or is a scaler, and VMMR data is all on bus 0.
  lemma {:induction false} RevisionsAgree(setup: Setup, s: V0.State, pieces: seq<Piece>)
    requires !s.Open() && forall p :: p in pieces ==> WellFormed(setup, p)
    ensures Known(setup, Stream(pieces))
    ensures V0.Read(setup, V0.Start(s), Stream(pieces)).status == V0.Running
    ensures |Parse(setup, Stream(pieces))| <= |pieces|
    ensures Cores(V0.Read(setup, V0.Start(s), Stream(pieces)).modules) == Parse(setup, Stream(pieces))
            <==> forall p :: p in pieces ==> Agrees(setup, p)
  {
    hide RecordV0;
    hide Agrees;
    hide Parse;
    hide Known;
    hide V0.Read;
    hide IsModuleHeader;
    hide IsMdppData;
    hide IsEndOfEvent;
    hide ModuleId;
    ReadStreamV0(setup, s, pieces);
    if pieces == [] {
      NothingRead(setup, false);
    } else {
      var init, p := Init(pieces), Last(pieces);
      assert pieces == init + [p];
      RevisionsAgree(setup, s, init);
      ReadStreamV0(setup, s, init);
      PieceV1(setup, p);
      KnownConcat(setup, Stream(init), PieceWords(p));
      ParseConcat(setup, Stream(init), PieceWords(p));
      EqualEnds(Parse(setup, Stream(init)), Parse(setup, PieceWords(p)),
                Cores(V0.Read(setup, V0.Start(s), Stream(init)).modules), RecordV0(setup, p));
    }
  }

  // In particular for MDPP modules of nonzero id.
  lemma MdppRevisionsAgree(setup: Setup, s: V0.State, pieces: seq<Piece>)
    requires !s.Open() && forall p :: p in pieces ==> WellFormed(setup, p)
    requires forall p :: p in pieces ==>
                           ModuleId(p.header) in setup && ModuleId(p.header) != 0
                           && setup[ModuleId(p.header)].HasMdppLayout()
    ensures Known(setup, Stream(pieces))
    ensures Cores(V0.Read(setup, V0.Start(s), Stream(pieces)).modules) == Parse(setup, Stream(pieces))
  {
    hide IsModuleHeader;
    hide ModuleId;
    hide Parse;
    RevisionsAgree(setup, s, pieces);
  }
}
