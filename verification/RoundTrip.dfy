/** The serialiser and the revision 1 reader, composed both ways. */
module RoundTrip {
  import opened Basics
  import opened Words
  import opened VmeModules
  import opened EventData
  import opened ReaderV1

  // ---------- the words a reader keeps ----------

  function MesytecWord(w: Word): seq<Word> {
    if IsMesytecData(w) then [w] else []
  }

  function MesytecWords(ws: seq<Word>): seq<Word> {
    FlatMap(MesytecWord, ws)
  }

  function WordsKept(d: ModuleDesc, ws: seq<Word>): seq<Word> {
    if d.IsMvlcScaler() then ws else MesytecWords(ws)
  }

  predicate Keeps(d: ModuleDesc, w: Word) { d.IsMvlcScaler() || IsMesytecData(w) }

  lemma DecodeKeepsWord(d: ModuleDesc, w: Word)
    ensures Decode(d, w).word == w
  {
  }

  lemma {:induction false} KeptWordsAre(d: ModuleDesc, ws: seq<Word>)
    ensures WordsIn(KeptWords(d, ws)) == WordsKept(d, ws)
  {
    hide IsMesytecData;
    hide Decode;
    if ws == [] {
    } else {
      var w := Last(ws);
      assert ws == Init(ws) + [w];
      KeptWordsAre(d, Init(ws));
      DecodeKeepsWord(d, w);
      assert WordsIn([Raw(w)]) == [w] && WordsIn([Decode(d, w)]) == [w];
      assert MesytecWords(ws) == MesytecWords(Init(ws)) + MesytecWord(w);
      WordsInConcat(KeptWords(d, Init(ws)), KeptWord(d, Last(ws)));
    }
  }

  // Keeping is idempotent, decoded fields included.
  lemma {:induction false} KeptTwice(d: ModuleDesc, ws: seq<Word>)
    ensures KeptWords(d, WordsKept(d, ws)) == KeptWords(d, ws)
  {
    hide IsMesytecData;
    hide Decode;
    if ws == [] || d.IsMvlcScaler() {
    } else {
      KeptTwice(d, Init(ws));
      var w := Last(ws);
      assert MesytecWords(ws) == MesytecWords(Init(ws)) + MesytecWord(w);
      assert KeptWords(d, ws) == KeptWords(d, Init(ws)) + KeptWord(d, w);
      if IsMesytecData(w) {
        FlatMapAppend(Keeping(d), MesytecWords(Init(ws)), w);
      } else {
        assert MesytecWords(ws) == MesytecWords(Init(ws));
      }
    }
  }

  lemma {:induction false} MesytecWordsAll(ws: seq<Word>)
    ensures |MesytecWords(ws)| <= |ws|
    ensures MesytecWords(ws) == ws <==> forall w :: w in ws ==> IsMesytecData(w)
    ensures |MesytecWords(ws)| == |ws| ==> MesytecWords(ws) == ws
    ensures forall w :: w in MesytecWords(ws) <==> w in ws && IsMesytecData(w)
  {
    hide IsMesytecData;
    if ws == [] {
    } else {
      var init, w := Init(ws), Last(ws);
      MesytecWordsAll(init);
      assert ws == init + [w];
      assert MesytecWords(ws) == MesytecWords(init) + MesytecWord(w);
    }
  }

  lemma MesytecWordsSelected(ws: seq<Word>) returns (at: seq<nat>)
    ensures IsSelection(ws, at, MesytecWords(ws))
    ensures forall i :: 0 <= i < |ws| ==>
                          (i in at <==>
                             || 0x10000000 <= ws[i].bits < 0x20000000
                             || (0x20000000 <= ws[i].bits < 0x30000000 && Byte2(ws[i]) == 0))
  {
    hide IsMesytecData;
    hide IsSelection;
    hide Byte2;
    at := FlatMapSelects(MesytecWord, ws);
    forall i | 0 <= i < |ws|
      ensures MesytecWord(ws[i]) != [] <==>
              || 0x10000000 <= ws[i].bits < 0x20000000
              || (0x20000000 <= ws[i].bits < 0x30000000 && Byte2(ws[i]) == 0)
    {
      KindsByValue(ws[i]);
    }
  }

  lemma KeptAreDecoded(d: ModuleDesc, ws: seq<Word>)
    ensures forall c :: c in KeptWords(d, ws) ==>
                          c == if d.firmware == MVLC_SCALER then Raw(c.word) else Decode(d, c.word)
  {
    hide IsMesytecData;
    hide Decode;
    forall c | c in KeptWords(d, ws)
      ensures c == if d.firmware == MVLC_SCALER then Raw(c.word) else Decode(d, c.word)
    {
      FlatMapMember(Keeping(d), ws, c);
      var w :| w in ws && c in KeptWord(d, w);
      DecodeKeepsWord(d, w);
    }
  }

  // A header word with some id, then other words. For id 0 nothing is read; otherwise one module, which
  // holds every word if it is a scaler, and else the data words, in order, each as it decodes.
  lemma OneModuleIsRead(setup: Setup, id: u8, low: bv16, ws: seq<Word>) returns (at: seq<nat>)
    requires id in setup && forall w :: w in ws ==> !(0x40000000 <= w.bits < 0x50000000)
    ensures var header := Word(0x40000000 | ((id as bv8 as bv32) << 16) | (low as bv32));
            && Known(setup, [header] + ws)
            && if id == 0 then Parse(setup, [header] + ws) == []
               else
                 && |Parse(setup, [header] + ws)| == 1
                 && var m := Parse(setup, [header] + ws)[0];
                 && m.headerWord == header && m.moduleId == id
                 && (forall c :: c in m.data ==>
                                   c == if setup[id].firmware == MVLC_SCALER then Raw(c.word)
                                        else Decode(setup[id], c.word))
                 && if setup[id].firmware == MVLC_SCALER then m.Words() == ws else IsSelection(ws, at, m.Words())
    ensures forall i :: 0 <= i < |ws| ==>
                          (i in at <==>
                             || 0x10000000 <= ws[i].bits < 0x20000000
                             || (0x20000000 <= ws[i].bits < 0x30000000 && Byte2(ws[i]) == 0))
  {
    hide IsModuleHeader;
    hide IsMesytecData;
    hide IsSelection;
    hide ModuleId;
    hide AnnouncedWords;
    hide Byte2;
    hide Decode;
    hide MesytecWords;
    hide KeptWords;
    hide Parse;
    var header := Word(0x40000000 | ((id as bv8 as bv32) << 16) | (low as bv32));
    HeaderOfId(id, low);
    forall w | w in ws
      ensures !IsModuleHeader(w)
    {
      KindsByValue(w);
    }
    ParseOneGroup(setup, header, ws);
    KeptWordsAre(setup[id], ws);
    KeptAreDecoded(setup[id], ws);
    at := MesytecWordsSelected(ws);
  }

  // Filtering the words beforehand by anything that only drops end-of-event and fill words
  // cannot be seen in what is kept.
  lemma {:induction false} FilterIsInvisible(f: Word -> seq<Word>, ws: seq<Word>)
    requires forall w :: f(w) == [w] || (f(w) == [] && !IsMesytecData(w))
    ensures MesytecWords(FlatMap(f, ws)) == MesytecWords(ws)
  {
    hide IsMesytecData;
    if ws == [] {
    } else {
      FilterIsInvisible(f, Init(ws));
      FlatMapConcat(MesytecWord, FlatMap(f, Init(ws)), f(Last(ws)));
      FlatMapOne(MesytecWord, Last(ws));
    }
  }

  // ---------- print, then read ----------

  // A module whose serialised form can be told apart: its header is one, of a known module, and
  // none of its data words looks like one.
  predicate Printable(setup: Setup, m: ModuleRecord) {
    m.data != [] ==>
      IsModuleHeader(m.headerWord) && ModuleId(m.headerWord) in setup && NoHeader(m.Words())
  }

  // What a module becomes when it is printed and read back.
  function Reread(setup: Setup): ModuleRecord -> seq<ModuleRecord> {
    (m: ModuleRecord) =>
      if m.data == [] || ModuleId(m.headerWord) !in setup then []
      else Emit(Group(setup, m.headerWord, m.Words()))
  }

  lemma {:induction false} ReadPrinted(setup: Setup, modules: seq<ModuleRecord>)
    requires forall m :: m in modules ==> Printable(setup, m)
    ensures Known(setup, Output(modules))
    ensures Parse(setup, Output(modules)) == FlatMap(Reread(setup), modules)
  {
    hide IsModuleHeader;
    hide ModuleId;
    hide Group;
    hide Parse;
    if modules == [] {
      NothingRead(setup, false);
    } else {
      var m := Last(modules);
      assert m in modules;
      ReadPrinted(setup, Init(modules));
      if m.data == [] {
        assert Output(modules) == Output(Init(modules));
      } else {
        var printed := OutputOf(m);
        ParseOneGroup(setup, m.headerWord, m.Words());
        KnownConcat(setup, Output(Init(modules)), printed);
        ParseConcat(setup, Output(Init(modules)), printed);
      }
    }
  }

  // A module that loses nothing.
  predicate Survives(setup: Setup, m: ModuleRecord) {
    && m.data != []
    && ModuleId(m.headerWord) != 0
    && ModuleId(m.headerWord) in setup
    && forall w :: w in m.Words() ==> Keeps(setup[ModuleId(m.headerWord)], w)
  }

  lemma RereadShape(setup: Setup, m: ModuleRecord)
    requires Printable(setup, m)
    ensures |Reread(setup)(m)| <= 1
    ensures Shapes(Reread(setup)(m)) == [ShapeOf(m)] <==> Survives(setup, m)
  {
    hide IsModuleHeader;
    hide IsMesytecData;
    hide ModuleId;
    hide AnnouncedWords;
    hide KeptWords;
    if m.data != [] {
      var d := setup[ModuleId(m.headerWord)];
      KeptWordsAre(d, m.Words());
      MesytecWordsAll(m.Words());
      if ModuleId(m.headerWord) != 0 {
        var r := Group(setup, m.headerWord, m.Words());
        assert Reread(setup)(m) == [r];
        assert Shapes([r]) == [ShapeOf(r)];
        assert ShapeOf(r) == Shape(m.headerWord, WordsKept(d, m.Words()));
      }
    }
  }

  // The reader undoes the printer on an event exactly when every module survives.
  lemma {:induction false} ParserUndoesPrinter(setup: Setup, modules: seq<ModuleRecord>)
    requires forall m :: m in modules ==> Printable(setup, m)
    ensures Known(setup, Output(modules))
    ensures Shapes(Parse(setup, Output(modules))) == Shapes(modules)
            <==> forall m :: m in modules ==> Survives(setup, m)
    ensures |Parse(setup, Output(modules))| <= |modules|
  {
    hide Printable;
    hide Survives;
    hide Parse;
    hide Known;
    hide Reread;
    hide ShapeOf;
    ReadPrinted(setup, modules);
    if modules == [] {
    } else {
      var init, m := Init(modules), Last(modules);
      assert modules == init + [m];
      ParserUndoesPrinter(setup, init);
      ReadPrinted(setup, init);
      RereadShape(setup, m);
      var read, last := FlatMap(Reread(setup), init), Reread(setup)(m);
      ShapesConcat(read, last);
      ShapesConcat(init, [m]);
      assert Shapes([m]) == [ShapeOf(m)];
      EqualEnds(Shapes(read), Shapes(last), Shapes(init), ShapeOf(m));
    }
  }

  // The same through the bytes of the output buffer, for an event all of whose modules survive.
  lemma BytesAreReadBack(setup: Setup, modules: seq<ModuleRecord>)
    requires forall m :: m in modules ==> Printable(setup, m) && Survives(setup, m)
    ensures Known(setup, WordsOf(ToBytes(Output(modules))))
    ensures Shapes(Parse(setup, WordsOf(ToBytes(Output(modules))))) == Shapes(modules)
  {
    hide Printable;
    hide Survives;
    hide Parse;
    hide Known;
    hide WordsOf;
    hide ToBytes;
    hide Output;
    WordsOfToBytes(Output(modules));
    ParserUndoesPrinter(setup, modules);
  }

  lemma EqualEnds<T>(a: seq<T>, x: seq<T>, b: seq<T>, y: T)
    requires |a| <= |b| && |x| <= 1
    ensures a + x == b + [y] <==> a == b && x == [y]
  {
    if a + x == b + [y] {
      assert |a + x| == |b + [y]|;
      assert a == (a + x)[..|a|] && b == (b + [y])[..|b|];
      assert x == (a + x)[|a|..] && [y] == (b + [y])[|b|..];
    }
  }

  // ---------- read, then print ----------

  function NonEmpty(m: ModuleRecord): seq<ModuleRecord> {
    if m.data == [] then [] else [m]
  }

  // The modules that hold data.
  function WithData(modules: seq<ModuleRecord>): seq<ModuleRecord> {
    FlatMap(NonEmpty, modules)
  }

  lemma {:induction false} OutputWithData(modules: seq<ModuleRecord>)
    ensures Output(WithData(modules)) == Output(modules)
  {
    if modules == [] {
    } else {
      var m := Last(modules);
      OutputWithData(Init(modules));
      if m.data != [] {
        FlatMapAppend(OutputOf, WithData(Init(modules)), m);
      } else {
        assert WithData(modules) == WithData(Init(modules));
      }
    }
  }

  // A module that the reader delivers is read back as itself, decoded fields included.
  predicate IsGroup(setup: Setup, m: ModuleRecord) {
    && ModuleId(m.headerWord) in setup
    && IsModuleHeader(m.headerWord)
    && ModuleId(m.headerWord) != 0
    && NoHeader(m.Words())
    && m == Group(setup, m.headerWord, m.Words())
  }

  lemma GroupIsGroup(setup: Setup, header: Word, body: seq<Word>)
    requires IsModuleHeader(header) && ModuleId(header) in setup && ModuleId(header) != 0 && NoHeader(body)
    ensures IsGroup(setup, Group(setup, header, body))
  {
    hide IsModuleHeader;
    hide ModuleId;
    hide AnnouncedWords;
    hide KeptWords;
    var d := setup[ModuleId(header)];
    KeptWordsAre(d, body);
    KeptTwice(d, body);
    MesytecWordsAll(body);
    var kept := WordsKept(d, body);
    forall i | 0 <= i < |kept|
      ensures !IsModuleHeader(kept[i])
    {
      assert kept[i] in body;
    }
  }

  lemma {:induction false} ParsedAreGroups(setup: Setup, ws: seq<Word>)
    requires Known(setup, ws)
    ensures forall m :: m in Parse(setup, ws) ==> IsGroup(setup, m)
    decreases |ws|
  {
    hide IsModuleHeader;
    hide ModuleId;
    hide Group;
    hide IsGroup;
    var h := LastHeader(ws);
    if h < 0 {
    } else {
      ParsedAreGroups(setup, ws[..h]);
      if ModuleId(ws[h]) != 0 {
        GroupIsGroup(setup, ws[h], ws[h + 1..]);
      }
      GroupId(setup, ws[h], ws[h + 1..]);
    }
  }

  lemma GroupId(setup: Setup, header: Word, body: seq<Word>)
    requires ModuleId(header) in setup
    ensures Group(setup, header, body).moduleId == ModuleId(header)
  {
  }

  // Parse-then-print is idempotent: what is printed is read back as the same modules, less those
  // without data, and printed the same again.
  lemma ParseThenPrintIsIdempotent(setup: Setup, ws: seq<Word>)
    requires Known(setup, ws)
    ensures var printed := Output(Parse(setup, ws));
            && Known(setup, printed)
            && Parse(setup, printed) == WithData(Parse(setup, ws))
            && Output(Parse(setup, printed)) == printed
  {
    hide IsModuleHeader;
    hide ModuleId;
    hide Group;
    hide Parse;
    hide Output;
    var modules := Parse(setup, ws);
    ParsedAreGroups(setup, ws);
    ReadPrinted(setup, modules);
    forall m | m in modules
      ensures Reread(setup)(m) == NonEmpty(m)
    {
      assert IsGroup(setup, m);
      GroupId(setup, m.headerWord, m.Words());
    }
    FlatMapAgree(Reread(setup), NonEmpty, modules);
    OutputWithData(modules);
  }

  // ---------- the normal form, position by position ----------

  // The header a position belongs to, itself included; -1 before the first.
  function HeaderOf(ws: seq<Word>, i: nat): (h: int)
    requires i < |ws|
    ensures -1 <= h <= i
    ensures h >= 0 ==> IsModuleHeader(ws[h])
    ensures forall k :: h < k <= i ==> !IsModuleHeader(ws[k])
  {
    assert forall k :: 0 <= k <= i ==> ws[..i + 1][k] == ws[k];
    LastHeader(ws[..i + 1])
  }

  // A word stays when it belongs to a module of nonzero id that keeps it; a header stays when some
  // word of its module stays.
  predicate Stays(setup: Setup, ws: seq<Word>, i: nat)
    requires Known(setup, ws) && i < |ws|
  {
    var h := HeaderOf(ws, i);
    && h >= 0
    && ModuleId(ws[h]) != 0
    && (if i == h then exists j :: h < j < |ws| && HeaderOf(ws, j) == h && Keeps(setup[ModuleId(ws[h])], ws[j])
        else Keeps(setup[ModuleId(ws[h])], ws[i]))
  }

  // The words among the first n that stay, in order.
  function Staying(setup: Setup, ws: seq<Word>, n: nat): seq<Word>
    requires Known(setup, ws) && n <= |ws|
  {
    if n == 0 then []
    else Staying(setup, ws, n - 1) + (if Stays(setup, ws, n - 1) then [ws[n - 1]] else [])
  }

  // Positions before the last header are judged as if the buffer ended there.
  lemma StaysBefore(setup: Setup, ws: seq<Word>, i: nat)
    requires Known(setup, ws) && i < LastHeader(ws)
    ensures Known(setup, ws[..LastHeader(ws)])
    ensures Stays(setup, ws, i) <==> Stays(setup, ws[..LastHeader(ws)], i)
  {
    hide IsModuleHeader;
    hide IsMesytecData;
    hide ModuleId;
    hide LastHeader;
    var h := LastHeader(ws);
    var front := ws[..h];
    forall j | 0 <= j < h
      ensures HeaderOf(front, j) == HeaderOf(ws, j)
    {
      assert front[..j + 1] == ws[..j + 1];
    }
    assert forall j :: h <= j < |ws| ==> HeaderOf(ws, j) == h;
  }

  lemma {:induction false} StayingBefore(setup: Setup, ws: seq<Word>, n: nat)
    requires Known(setup, ws) && n <= LastHeader(ws)
    ensures Known(setup, ws[..LastHeader(ws)])
    ensures Staying(setup, ws, n) == Staying(setup, ws[..LastHeader(ws)], n)
  {
    hide Stays;
    hide IsModuleHeader;
    hide ModuleId;
    hide LastHeader;
    if n == 0 {
    } else {
      StayingBefore(setup, ws, n - 1);
      StaysBefore(setup, ws, n - 1);
    }
  }

  // In the last group, whether a position stays is decided by its word, or for the header by the group.
  lemma StaysInLastGroup(setup: Setup, ws: seq<Word>, i: nat)
    requires Known(setup, ws) && 0 <= LastHeader(ws) <= i < |ws|
    ensures var h := LastHeader(ws);
            var d := setup[ModuleId(ws[h])];
            Stays(setup, ws, i) <==>
            ModuleId(ws[h]) != 0
            && if i == h then exists w :: w in ws[h + 1..] && Keeps(d, w) else Keeps(d, ws[i])
  {
    hide IsModuleHeader;
    hide IsMesytecData;
    hide ModuleId;
    hide LastHeader;
    var h := LastHeader(ws);
    var d := setup[ModuleId(ws[h])];
    assert forall j :: h <= j < |ws| ==> HeaderOf(ws, j) == h;
    if i == h && exists w :: w in ws[h + 1..] && Keeps(d, w) {
      var w :| w in ws[h + 1..] && Keeps(d, w);
      var k :| 0 <= k < |ws[h + 1..]| && ws[h + 1..][k] == w;
      assert ws[h + 1 + k] == w && HeaderOf(ws, h + 1 + k) == h;
    }
    if i == h && exists j :: h < j < |ws| && HeaderOf(ws, j) == h && Keeps(d, ws[j]) {
      var j :| h < j < |ws| && HeaderOf(ws, j) == h && Keeps(d, ws[j]);
      assert ws[h + 1..][j - h - 1] == ws[j];
    }
  }

  lemma SomeWordKept(d: ModuleDesc, ws: seq<Word>)
    ensures WordsKept(d, ws) != [] <==> exists w :: w in ws && Keeps(d, w)
  {
    hide IsMesytecData;
    MesytecWordsAll(ws);
    if d.IsMvlcScaler() {
      if ws != [] {
        assert ws[0] in ws && Keeps(d, ws[0]);
      }
    } else {
      if MesytecWords(ws) != [] {
        assert MesytecWords(ws)[0] in MesytecWords(ws);
      }
    }
  }

  lemma WordsKeptNext(d: ModuleDesc, ws: seq<Word>, w: Word)
    ensures WordsKept(d, ws + [w]) == WordsKept(d, ws) + if Keeps(d, w) then [w] else []
  {
    hide IsMesytecData;
    FlatMapAppend(MesytecWord, ws, w);
  }

  lemma {:induction false} StayingInLastGroup(setup: Setup, ws: seq<Word>, n: nat)
    requires Known(setup, ws) && 0 <= LastHeader(ws) < n <= |ws|
    ensures var h := LastHeader(ws);
            var d := setup[ModuleId(ws[h])];
            Staying(setup, ws, n)
            == Staying(setup, ws, h)
               + (if ModuleId(ws[h]) != 0 && WordsKept(d, ws[h + 1..]) != [] then [ws[h]] else [])
               + (if ModuleId(ws[h]) != 0 then WordsKept(d, ws[h + 1..n]) else [])
  {
    hide Stays;
    hide Keeps;
    hide WordsKept;
    hide IsModuleHeader;
    hide ModuleId;
    hide LastHeader;
    var h := LastHeader(ws);
    var d := setup[ModuleId(ws[h])];
    StaysInLastGroup(setup, ws, n - 1);
    if n == h + 1 {
      SomeWordKept(d, ws[h + 1..]);
      NoWordKept(d);
      assert ws[h + 1..n] == [];
    } else {
      StayingInLastGroup(setup, ws, n - 1);
      assert ws[h + 1..n] == ws[h + 1..n - 1] + [ws[n - 1]];
      WordsKeptNext(d, ws[h + 1..n - 1], ws[n - 1]);
    }
  }

  lemma NoWordKept(d: ModuleDesc)
    ensures WordsKept(d, []) == []
  {
  }

  lemma OutputOfEmitted(setup: Setup, header: Word, body: seq<Word>)
    requires ModuleId(header) in setup
    ensures Output(Emit(Group(setup, header, body)))
            == (if ModuleId(header) != 0 && WordsKept(setup[ModuleId(header)], body) != [] then [header] else [])
               + (if ModuleId(header) != 0 then WordsKept(setup[ModuleId(header)], body) else [])
  {
    hide ModuleId;
    hide AnnouncedWords;
    hide KeptWords;
    hide WordsKept;
    var d := setup[ModuleId(header)];
    KeptWordsAre(d, body);
    if ModuleId(header) != 0 {
      FlatMapOne(OutputOf, Group(setup, header, body));
    }
  }

  // Printing what was read gives the buffer back without, exactly, the words that do not stay.
  lemma {:induction false} NormalForm(setup: Setup, ws: seq<Word>)
    requires Known(setup, ws)
    ensures Output(Parse(setup, ws)) == Staying(setup, ws, |ws|)
    decreases |ws|
  {
    hide Stays;
    hide Group;
    hide WordsKept;
    hide IsModuleHeader;
    hide ModuleId;
    hide LastHeader;
    hide Output;
    hide Parse;
    hide Staying;
    hide Emit;
    var h := LastHeader(ws);
    if h < 0 {
      NothingStays(setup, ws, |ws|);
      NothingPrinted();
      ParseOfNone(setup, ws);
    } else {
      ParseUnfold(setup, ws);
      NormalForm(setup, ws[..h]);
      StayingBefore(setup, ws, h);
      StayingInLastGroup(setup, ws, |ws|);
      assert ws[h + 1..|ws|] == ws[h + 1..];
      OutputOfEmitted(setup, ws[h], ws[h + 1..]);
      OutputConcat(Parse(setup, ws[..h]), Emit(Group(setup, ws[h], ws[h + 1..])));
    }
  }

  lemma ParseOfNone(setup: Setup, ws: seq<Word>)
    requires Known(setup, ws) && LastHeader(ws) < 0
    ensures Parse(setup, ws) == []
  {
  }

  lemma NothingPrinted()
    ensures Output([]) == []
  {
  }

  lemma OutputConcat(a: seq<ModuleRecord>, b: seq<ModuleRecord>)
    ensures Output(a + b) == Output(a) + Output(b)
  {
    FlatMapConcat(OutputOf, a, b);
  }

  lemma {:induction false} NothingStays(setup: Setup, ws: seq<Word>, n: nat)
    requires Known(setup, ws) && LastHeader(ws) < 0 && n <= |ws|
    ensures Staying(setup, ws, n) == []
  {
    hide IsModuleHeader;
    hide LastHeader;
    if n == 0 {
    } else {
      NothingStays(setup, ws, n - 1);
    }
  }
}
