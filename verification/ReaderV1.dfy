/**
 What reading a buffer of frame revision 1 means: the buffer is cut at its module headers, and
 each piece becomes one module holding the words that its kind of module keeps.
 */
module ReaderV1 {
  import opened Basics
  import opened Words
  import opened VmeModules
  import opened EventData

  // The crate map as the readers see it: lookup by module id.
  type Setup = map<u8, ModuleDesc>

  // The index of the last module header, or -1.
  function LastHeader(ws: seq<Word>): (h: int)
    ensures -1 <= h < |ws|
    ensures h >= 0 ==> IsModuleHeader(ws[h])
    ensures forall k :: h < k < |ws| ==> !IsModuleHeader(ws[k])
  {
    if ws == [] then -1
    else if IsModuleHeader(Last(ws)) then |ws| - 1
    else LastHeader(Init(ws))
  }

  predicate NoHeader(ws: seq<Word>) {
    forall i :: 0 <= i < |ws| ==> !IsModuleHeader(ws[i])
  }

  // Every header names a module of the crate.
  predicate Known(setup: Setup, ws: seq<Word>) {
    forall i :: 0 <= i < |ws| && IsModuleHeader(ws[i]) ==> ModuleId(ws[i]) in setup
  }

  // A scaler keeps every word; another module keeps the Mesytec data words.
  function KeptWord(d: ModuleDesc, w: Word): seq<ChannelData> {
    if d.IsMvlcScaler() then [Raw(w)] else if IsMesytecData(w) then [Decode(d, w)] else []
  }

  function Keeping(d: ModuleDesc): Word -> seq<ChannelData> {
    w => KeptWord(d, w)
  }

  function KeptWords(d: ModuleDesc, body: seq<Word>): seq<ChannelData> {
    FlatMap(Keeping(d), body)
  }

  function Group(setup: Setup, header: Word, body: seq<Word>): ModuleRecord
    requires ModuleId(header) in setup
  {
    var d := setup[ModuleId(header)];
    HeaderRecord(header, d.firmware).(data := KeptWords(d, body))
  }

  // Module id 0 stands for "no module".
  function Emit(m: ModuleRecord): seq<ModuleRecord> {
    if m.moduleId != 0 then [m] else []
  }

  function Parse(setup: Setup, ws: seq<Word>): seq<ModuleRecord>
    requires Known(setup, ws)
  {
    var h := LastHeader(ws);
    if h < 0 then [] else Parse(setup, ws[..h]) + Emit(Group(setup, ws[h], ws[h + 1..]))
  }

  // The part of the buffer before the first header whose module is not in the crate.
  function KnownPrefix(setup: Setup, ws: seq<Word>): (n: nat)
    ensures n <= |ws| && Known(setup, ws[..n])
    ensures n < |ws| ==> IsModuleHeader(ws[n]) && ModuleId(ws[n]) !in setup
  {
    if ws == [] then 0
    else
      var n := KnownPrefix(setup, Init(ws));
      assert Init(ws)[..n] == ws[..n];
      if n < |ws| - 1 then n
      else if IsModuleHeader(Last(ws)) && ModuleId(Last(ws)) !in setup then n
      else |ws|
  }

  // The module a word belongs to must be one that can decode it. Before the first header there is
  // none, unless the previous buffer ended on a scaler: then the word is stored undecoded.
  predicate Defined(setup: Setup, scaler: bool, ws: seq<Word>)
    requires Known(setup, ws)
  {
    forall i :: 0 <= i < |ws| && IsMesytecData(ws[i]) ==> DefinedAt(setup, scaler, ws, i)
  }

  predicate DefinedAt(setup: Setup, scaler: bool, ws: seq<Word>, i: nat)
    requires i < |ws| && Known(setup, ws)
  {
    var h := LastHeader(ws[..i]);
    if h < 0 then scaler
    else setup[ModuleId(ws[h])].IsMvlcScaler() || setup[ModuleId(ws[h])].Decodable()
  }

  // After a header, a data word is defined when the module is a scaler or has its masks set; before the
  // first, when the scaler flag is set.
  lemma WhatIsDefined(setup: Setup, scaler: bool, ws: seq<Word>, i: nat)
    requires Known(setup, ws) && i < |ws|
    ensures (forall j :: 0 <= j < i ==> !(0x40000000 <= ws[j].bits < 0x50000000)) ==>
              (DefinedAt(setup, scaler, ws, i) <==> scaler)
    ensures forall h :: 0 <= h < i && 0x40000000 <= ws[h].bits < 0x50000000
                        && (forall j :: h < j < i ==> !(0x40000000 <= ws[j].bits < 0x50000000)) ==>
                          ModuleId(ws[h]) in setup
                          && (DefinedAt(setup, scaler, ws, i) <==>
                                setup[ModuleId(ws[h])].firmware in {MDPP_SCP, MDPP_QDC, MDPP_CSI, VMMR, MVLC_SCALER})
  {
    hide IsModuleHeader;
    hide ModuleId;
    hide LastHeader;
    forall j | 0 <= j < i
      ensures IsModuleHeader(ws[..i][j]) <==> 0x40000000 <= ws[j].bits < 0x50000000
    {
      KindsByValue(ws[j]);
    }
  }

  // The scaler flag and the module data that a reading leaves behind.
  function ScalerAfter(setup: Setup, scaler: bool, ws: seq<Word>): bool
    requires Known(setup, ws)
  {
    var h := LastHeader(ws);
    if h < 0 then scaler else setup[ModuleId(ws[h])].IsMvlcScaler()
  }

  // The module being filled after these words.
  function CurrentRecord(setup: Setup, scaler: bool, ws: seq<Word>): ModuleRecord
    requires Known(setup, ws)
  {
    var h := LastHeader(ws);
    if h < 0 then CLEARED_RECORD.(data := if scaler then RawWords(ws) else [])
    else Group(setup, ws[h], ws[h + 1..])
  }

  function RawWords(ws: seq<Word>): seq<ChannelData> {
    seq(|ws|, i requires 0 <= i < |ws| => Raw(ws[i]))
  }

  function Flushed(m: ModuleRecord): ModuleRecord {
    if m.moduleId != 0 then m.Moved() else m
  }

  // ---------- how cutting and keeping distribute over concatenation ----------

  lemma LastHeaderConcat(a: seq<Word>, b: seq<Word>)
    ensures LastHeader(a + b) == if LastHeader(b) >= 0 then |a| + LastHeader(b) else LastHeader(a)
  {
    var h := LastHeader(a + b);
    assert forall k :: 0 <= k < |b| ==> (a + b)[|a| + k] == b[k];
    if LastHeader(b) >= 0 {
      assert IsModuleHeader((a + b)[|a| + LastHeader(b)]);
    } else if LastHeader(a) >= 0 {
      assert IsModuleHeader((a + b)[LastHeader(a)]);
    }
  }

  lemma KnownConcat(setup: Setup, a: seq<Word>, b: seq<Word>)
    ensures Known(setup, a + b) <==> Known(setup, a) && Known(setup, b)
  {
    assert forall i :: 0 <= i < |a| ==> (a + b)[i] == a[i];
    assert forall i :: 0 <= i < |b| ==> (a + b)[|a| + i] == b[i];
  }

  lemma ParseUnfold(setup: Setup, ws: seq<Word>)
    requires Known(setup, ws) && LastHeader(ws) >= 0
    ensures var h := LastHeader(ws);
            && Known(setup, ws[..h]) && ModuleId(ws[h]) in setup
            && Parse(setup, ws) == Parse(setup, ws[..h]) + Emit(Group(setup, ws[h], ws[h + 1..]))
  {
    hide Group;
    hide Emit;
    hide IsModuleHeader;
    hide ModuleId;
  }

  // The last group of a buffer stays what it is when words are put in front.
  lemma ParseLastGroup(setup: Setup, a: seq<Word>, b: seq<Word>)
    requires Known(setup, a + b) && LastHeader(b) >= 0
    ensures var h := LastHeader(b);
            && Known(setup, a + b[..h]) && ModuleId(b[h]) in setup
            && Parse(setup, a + b) == Parse(setup, a + b[..h]) + Emit(Group(setup, b[h], b[h + 1..]))
  {
    hide Group;
    hide Emit;
    hide IsModuleHeader;
    hide ModuleId;
    LastHeaderConcat(a, b);
    KnownConcat(setup, a, b);
    var h := LastHeader(b);
    var ws := a + b;
    assert ws[..|a| + h] == a + b[..h];
    assert ws[|a| + h] == b[h];
    assert ws[|a| + h + 1..] == b[h + 1..];
  }

  // Words before the first header never reach the event.
  lemma {:induction false} LeadingWordsVanish(setup: Setup, a: seq<Word>, b: seq<Word>)
    requires Known(setup, a + b) && NoHeader(a)
    ensures Known(setup, b) && Parse(setup, a + b) == Parse(setup, b)
    decreases |b|
  {
    hide Group;
    hide Emit;
    hide IsModuleHeader;
    hide ModuleId;
    KnownConcat(setup, a, b);
    LastHeaderConcat(a, b);
    var h := LastHeader(b);
    if h < 0 {
    } else {
      ParseLastGroup(setup, a, b);
      LeadingWordsVanish(setup, a, b[..h]);
    }
  }

  // Reading is a homomorphism: a buffer that starts with a header is read as if on its own.
  lemma {:induction false} ParseConcat(setup: Setup, a: seq<Word>, b: seq<Word>)
    requires Known(setup, a + b)
    requires b != [] ==> IsModuleHeader(b[0])
    ensures Known(setup, a) && Known(setup, b)
    ensures Parse(setup, a + b) == Parse(setup, a) + Parse(setup, b)
    decreases |b|
  {
    hide Parse;
    hide Group;
    hide Emit;
    hide Known;
    hide IsModuleHeader;
    hide ModuleId;
    KnownConcat(setup, a, b);
    if b == [] {
      assert a + b == a;
      NothingRead(setup, false);
    } else {
      var h := LastHeader(b);
      ParseLastGroup(setup, a, b);
      ParseConcat(setup, a, b[..h]);
      ParseUnfold(setup, b);
      ConcatAssociates(Parse(setup, a), Parse(setup, b[..h]), Emit(Group(setup, b[h], b[h + 1..])));
    }
  }

  lemma ParseOneGroup(setup: Setup, header: Word, body: seq<Word>)
    requires IsModuleHeader(header) && ModuleId(header) in setup && NoHeader(body)
    ensures Known(setup, [header] + body)
    ensures Parse(setup, [header] + body) == Emit(Group(setup, header, body))
  {
    var ws := [header] + body;
    assert ws[0] == header && forall k :: 0 < k < |ws| ==> ws[k] == body[k - 1];
    assert LastHeader(ws) == 0;
    assert ws[..0] == [] && ws[1..] == body;
  }

  // ---------- reading one more word ----------

  // The modules that are complete after these words.
  function Completed(setup: Setup, ws: seq<Word>): seq<ModuleRecord>
    requires Known(setup, ws)
  {
    var h := LastHeader(ws);
    if h < 0 then [] else Parse(setup, ws[..h])
  }

  // The module whose header came last; none is set before the first header.
  function Current(setup: Setup, ws: seq<Word>): Option<ModuleDesc>
    requires Known(setup, ws)
  {
    var h := LastHeader(ws);
    if h < 0 then None else Some(setup[ModuleId(ws[h])])
  }

  lemma ParseIsCompletedAndCurrent(setup: Setup, scaler: bool, ws: seq<Word>)
    requires Known(setup, ws)
    ensures Parse(setup, ws) == Completed(setup, ws) + Emit(CurrentRecord(setup, scaler, ws))
  {
    hide IsModuleHeader;
    hide ModuleId;
    hide KeptWords;
  }

  lemma NextIsHeader(setup: Setup, scaler: bool, ws: seq<Word>, w: Word)
    requires Known(setup, ws) && IsModuleHeader(w) && ModuleId(w) in setup
    ensures var next := ws + [w];
            && Known(setup, next)
            && Completed(setup, next) == Parse(setup, ws)
            && CurrentRecord(setup, scaler, next) == HeaderRecord(w, setup[ModuleId(w)].firmware)
            && Current(setup, next) == Some(setup[ModuleId(w)])
            && ScalerAfter(setup, scaler, next) == setup[ModuleId(w)].IsMvlcScaler()
  {
    hide IsModuleHeader;
    hide ModuleId;
    hide AnnouncedWords;
    KnownConcat(setup, ws, [w]);
    var next := ws + [w];
    assert LastHeader(next) == |ws| by { assert next[|ws|] == w; }
    assert next[..|ws|] == ws && next[|ws| + 1..] == [];
  }

  lemma NextIsNoHeader(setup: Setup, scaler: bool, ws: seq<Word>, w: Word)
    requires Known(setup, ws) && !IsModuleHeader(w)
    ensures var next := ws + [w];
            && Known(setup, next)
            && LastHeader(next) == LastHeader(ws)
            && Completed(setup, next) == Completed(setup, ws)
            && Current(setup, next) == Current(setup, ws)
            && ScalerAfter(setup, scaler, next) == ScalerAfter(setup, scaler, ws)
  {
    hide IsModuleHeader;
    hide ModuleId;
    var next := ws + [w];
    KnownConcat(setup, ws, [w]);
    LastHeaderConcat(ws, [w]);
    assert LastHeader([w]) == -1 by { assert Last([w]) == w && Init([w]) == []; }
    var h := LastHeader(ws);
    if h >= 0 {
      assert next[..h] == ws[..h] && next[h] == ws[h];
    }
  }

  lemma GroupGrows(setup: Setup, header: Word, body: seq<Word>, w: Word)
    requires ModuleId(header) in setup
    ensures var m := Group(setup, header, body);
            Group(setup, header, body + [w]) == m.(data := m.data + KeptWord(setup[ModuleId(header)], w))
  {
    hide ModuleId;
    hide AnnouncedWords;
    hide KeptWord;
    FlatMapAppend(Keeping(setup[ModuleId(header)]), body, w);
  }

  // What the module being filled gains, by the branch the reader takes.
  lemma NextIsStored(setup: Setup, scaler: bool, ws: seq<Word>, w: Word)
    requires Known(setup, ws) && !IsModuleHeader(w)
    ensures Known(setup, ws + [w])
    ensures ScalerAfter(setup, scaler, ws) ==>
              CurrentRecord(setup, scaler, ws + [w]) == CurrentRecord(setup, scaler, ws).Add(Raw(w))
    ensures !ScalerAfter(setup, scaler, ws) && IsMesytecData(w) && Current(setup, ws).Some? ==>
              CurrentRecord(setup, scaler, ws + [w])
              == CurrentRecord(setup, scaler, ws).Add(Decode(Current(setup, ws).value, w))
    ensures !ScalerAfter(setup, scaler, ws) && !IsMesytecData(w) ==>
              CurrentRecord(setup, scaler, ws + [w]) == CurrentRecord(setup, scaler, ws)
  {
    hide IsModuleHeader;
    hide IsMesytecData;
    hide ModuleId;
    hide Decode;
    hide Group;
    hide Completed;
    hide LastHeader;
    NextIsNoHeader(setup, scaler, ws, w);
    var h := LastHeader(ws);
    if h < 0 {
      assert RawWords(ws + [w]) == RawWords(ws) + [Raw(w)];
    } else {
      assert (ws + [w])[h + 1..] == ws[h + 1..] + [w] && (ws + [w])[h] == ws[h];
      GroupGrows(setup, ws[h], ws[h + 1..], w);
    }
  }

  lemma NothingRead(setup: Setup, scaler: bool)
    ensures Known(setup, []) && Parse(setup, []) == [] && Completed(setup, []) == [] && Current(setup, []) == None
    ensures CurrentRecord(setup, scaler, []) == CLEARED_RECORD && ScalerAfter(setup, scaler, []) == scaler
  {
  }

  lemma ModuleIsSet(setup: Setup, scaler: bool, ws: seq<Word>, i: nat)
    requires i <= KnownPrefix(setup, ws) && i < |ws| && Defined(setup, scaler, ws[..KnownPrefix(setup, ws)])
    requires Known(setup, ws[..i]) && !ScalerAfter(setup, scaler, ws[..i]) && IsMesytecData(ws[i])
    ensures Current(setup, ws[..i]).Some? && Current(setup, ws[..i]).value.Decodable()
  {
    KindsExcludeEachOther(ws[i]);
    KnownPrefixCovers(setup, ws, i);
    var known := ws[..KnownPrefix(setup, ws)];
    assert known[i] == ws[i] && known[..i] == ws[..i];
    assert DefinedAt(setup, scaler, known, i);
  }

  lemma KnownPrefixCovers(setup: Setup, ws: seq<Word>, i: nat)
    requires i <= KnownPrefix(setup, ws) && i < |ws|
    ensures Known(setup, ws[..i])
    ensures i == KnownPrefix(setup, ws) <==> IsModuleHeader(ws[i]) && ModuleId(ws[i]) !in setup
    ensures i == KnownPrefix(setup, ws) ==> !Known(setup, ws)
  {
    hide IsModuleHeader;
    hide ModuleId;
    var n := KnownPrefix(setup, ws);
    assert ws[..i] == ws[..n][..i];
    if i < n {
      assert ws[i] == ws[..n][i];
    }
  }

  // Without an uninitialised read, what came before the buffer cannot matter; and a buffer of known,
  // decodable modules that starts with a header never makes one.
  lemma HeaderFirstIsDefined(setup: Setup, scaler: bool, ws: seq<Word>)
    requires Known(setup, ws)
    requires ws != [] ==> IsModuleHeader(ws[0])
    requires forall i :: 0 <= i < |ws| && IsModuleHeader(ws[i]) ==>
                           setup[ModuleId(ws[i])].Decodable() || setup[ModuleId(ws[i])].IsMvlcScaler()
    ensures Defined(setup, scaler, ws)
  {
    forall i | 0 <= i < |ws| && IsMesytecData(ws[i])
      ensures DefinedAt(setup, scaler, ws, i)
    {
      KindsExcludeEachOther(ws[i]);
      assert ws[..i][0] == ws[0];
    }
  }
}
