/** Whole runs of the collator: which modules end up in which event, and with which timestamp. */
module Collation {
  import opened Basics
  import opened Words
  import opened VmeModules
  import opened EventData
  import opened ReaderV1
  import opened Collator

  // ---------- single blocks ----------

  // The modules a block contributes, in order.
  function RecordsOf(setup: Setup): Block -> seq<ModuleRecord> {
    b => if !BlockOk(setup, b) then []
         else match BlockMeaning(setup, b)
              case Records(records) => records
              case Throws(records, _) => records
              case _ => []
  }

  predicate BlockThrows(setup: Setup, b: Block) { BlockOk(setup, b) && BlockMeaning(setup, b).Throws? }

  function StampOf(setup: Setup, b: Block): Option<Tgv> {
    if BlockOk(setup, b) && BlockMeaning(setup, b).Timestamp? then Some(BlockMeaning(setup, b).tgv) else None
  }

  // Timestamp blocks are those of TGV modules; the low 16 bits of three words are kept, and no module.
  lemma StampsAddNoModule(setup: Setup, b: Block)
    requires BlockOk(setup, b)
    ensures StampOf(setup, b).Some? <==>
            |b| > 2 && ModuleId(b[0]) in setup && setup[ModuleId(b[0])].firmware == TGV
    ensures StampOf(setup, b).Some? ==>
              && RecordsOf(setup)(b) == []
              && var t := StampOf(setup, b).value;
              && t.lo == (b[2].bits & 0xFFFF) as bv16
              && t.mid == (b[3].bits & 0xFFFF) as bv16
              && t.hi == (b[4].bits & 0xFFFF) as bv16
  {
    hide IsEndOfEvent;
    hide IsModuleHeader;
    hide ModuleId;
    hide WithWords;
  }

  // What is taken for granted of a block: of a TGV that its five words are there; of a scaler readout what
  // the source asserts before an unknown second id throws, and what it asserts after a known one.
  lemma WhatIsAsserted(setup: Setup, b: Block)
    ensures |b| <= 2 || ModuleId(b[0]) !in setup ==> BlockOk(setup, b)
    ensures |b| > 2 && ModuleId(b[0]) in setup ==>
              var d := setup[ModuleId(b[0])];
              BlockOk(setup, b) <==>
              if d.firmware == TGV then |b| >= 5
              else if d.firmware == MVLC_SCALER then
                && |b| == 12 && b[5].bits >= 0xC0000000 && 0x40000000 <= b[6].bits < 0x50000000
                && (ModuleId(b[6]) in setup ==>
                      setup[ModuleId(b[6])].firmware == MVLC_SCALER && b[11].bits >= 0xC0000000)
              else true
  {
    hide IsEndOfEvent;
    hide IsModuleHeader;
    hide ModuleId;
    if |b| == 12 {
      KindsByValue(b[5]);
      KindsByValue(b[6]);
      KindsByValue(b[11]);
    }
  }

  // A block adds a module exactly when it has data, and is of a known module that is no TGV.
  lemma BlocksThatCount(setup: Setup, b: Block)
    requires BlockOk(setup, b)
    ensures RecordsOf(setup)(b) != [] <==>
            |b| > 2 && ModuleId(b[0]) in setup && setup[ModuleId(b[0])].firmware != TGV
  {
    hide IsEndOfEvent;
    hide IsModuleHeader;
    hide ModuleId;
    hide WithWords;
  }

  // Of an ordinary module one record is kept. Its words are, in order, those after the header that are
  // below 0xC0000000 and, for an MDPP_SCP, MDPP_QDC or VMMR, not 0; each as often as it occurs.
  lemma OrdinaryBlockIsSent(setup: Setup, b: Block) returns (at: seq<nat>)
    requires |b| > 2 && ModuleId(b[0]) in setup
    requires setup[ModuleId(b[0])].firmware !in {TGV, MVLC_SCALER}
    ensures !BlockThrows(setup, b) && |RecordsOf(setup)(b)| == 1
    ensures var m := RecordsOf(setup)(b)[0];
            var d := setup[ModuleId(b[0])];
            && m.headerWord == b[0] && m.moduleId == ModuleId(b[0])
            && m.dataWords == AnnouncedWords(b[0], d.firmware)
            && (forall c :: c in m.data ==> c == Raw(c.word))
            && IsSelection(b[1..], at, m.Words())
            && (forall i :: 0 <= i < |b| - 1 ==>
                              (i in at <==>
                                 && b[1..][i].bits < 0xC0000000
                                 && (d.firmware in {MDPP_SCP, MDPP_QDC, VMMR} ==> b[1..][i].bits != 0)))
            && (forall w :: w in b[1..] ==>
                              multiset(m.Words())[w]
                              == if w.bits >= 0xC0000000 || (d.firmware in {MDPP_SCP, MDPP_QDC, VMMR} && w.bits == 0)
                                 then 0 else multiset(b[1..])[w])
  {
    hide IsEndOfEvent;
    hide IsModuleHeader;
    hide IsFillWord;
    hide IsSelection;
    hide ModuleId;
    hide AnnouncedWords;
    hide FlatMap;
    var d := setup[ModuleId(b[0])];
    at := FlatMapSelects(SentWord(d), b[1..]);
    assert WordsIn(RawWords(FlatMap(SentWord(d), b[1..]))) == FlatMap(SentWord(d), b[1..]);
    forall w | w in b[1..]
      ensures SentWord(d)(w) == [] <==>
              w.bits >= 0xC0000000 || (d.firmware in {MDPP_SCP, MDPP_QDC, VMMR} && w.bits == 0)
      ensures multiset(FlatMap(SentWord(d), b[1..]))[w] == if SentWord(d)(w) == [] then 0 else multiset(b[1..])[w]
    {
      KindsByValue(w);
      FirmwareGroups(d);
      FlatMapCounts(SentWord(d), b[1..], w);
    }
    assert forall i :: 0 <= i < |b| - 1 ==> b[1..][i] in b[1..];
  }

  // Of a scaler block two records are kept, words 1 to 4 under word 0 and words 7 to 10 under word 6.
  // When the second id is unknown, the first record is kept and the exception names this id.
  lemma ScalerBlockIsSent(setup: Setup, b: Block)
    requires BlockOk(setup, b)
    requires |b| > 2 && ModuleId(b[0]) in setup && setup[ModuleId(b[0])].firmware == MVLC_SCALER
    ensures |b| == 12 && |RecordsOf(setup)(b)| == if ModuleId(b[6]) in setup then 2 else 1
    ensures var m := RecordsOf(setup)(b)[0];
            && m.headerWord == b[0] && m.moduleId == ModuleId(b[0]) && m.dataWords == 4
            && m.data == [Raw(b[1]), Raw(b[2]), Raw(b[3]), Raw(b[4])]
    ensures ModuleId(b[6]) in setup ==>
              var m := RecordsOf(setup)(b)[1];
              && m.headerWord == b[6] && m.moduleId == ModuleId(b[6]) && m.dataWords == 4
              && m.data == [Raw(b[7]), Raw(b[8]), Raw(b[9]), Raw(b[10])]
    ensures if ModuleId(b[6]) in setup then !BlockThrows(setup, b)
            else BlockThrows(setup, b) && BlockMeaning(setup, b).id == ModuleId(b[6])
  {
    hide IsEndOfEvent;
    hide IsModuleHeader;
    hide ModuleId;
  }

  // ---------- lists of blocks ----------

  predicate AnyThrows(setup: Setup, blocks: seq<Block>) {
    exists b :: b in blocks && BlockThrows(setup, b)
  }

  // The blocks that are processed: none after one that throws.
  function Seen(setup: Setup, blocks: seq<Block>): seq<Block> {
    if blocks == [] || !AnyThrows(setup, Init(blocks)) then blocks else Seen(setup, Init(blocks))
  }

  // The timestamp of the most recent timestamp block, if there is one.
  function LatestStamp(setup: Setup, tgv: Tgv, blocks: seq<Block>): Tgv {
    if blocks == [] then tgv
    else if StampOf(setup, Last(blocks)).Some? then StampOf(setup, Last(blocks)).value
    else LatestStamp(setup, tgv, Init(blocks))
  }

  lemma {:induction false} LatestStampConcat(setup: Setup, tgv: Tgv, a: seq<Block>, b: seq<Block>)
    ensures LatestStamp(setup, tgv, a + b) == LatestStamp(setup, LatestStamp(setup, tgv, a), b)
  {
    hide StampOf;
    if b == [] {
      assert a + b == a;
    } else {
      LatestStampConcat(setup, tgv, a, Init(b));
      assert Init(a + b) == a + Init(b) && Last(a + b) == Last(b);
    }
  }

  lemma TakeIs(setup: Setup, c: Collected, b: Block)
    requires BlockOk(setup, b) && c.thrown.None?
    ensures var next := Take(setup, c, b);
            && next.records == c.records + RecordsOf(setup)(b)
            && next.tgv == (if StampOf(setup, b).Some? then StampOf(setup, b).value else c.tgv)
            && (next.thrown.Some? <==> BlockThrows(setup, b))
  {
    hide BlockOk;
    hide BlockMeaning;
  }

  lemma {:induction false} CollectIs(setup: Setup, tgv: Tgv, blocks: seq<Block>)
    requires BlocksOk(setup, blocks)
    ensures var c := Collect(setup, tgv, blocks);
            && c.records == FlatMap(RecordsOf(setup), Seen(setup, blocks))
            && c.tgv == LatestStamp(setup, tgv, Seen(setup, blocks))
            && (c.thrown.Some? <==> AnyThrows(setup, blocks))
  {
    hide BlockOk;
    hide RecordsOf;
    hide StampOf;
    hide BlockThrows;
    hide BlockMeaning;
    if blocks == [] {
    } else {
      var init, b := Init(blocks), Last(blocks);
      assert blocks == init + [b] && b in blocks;
      CollectIs(setup, tgv, init);
      if AnyThrows(setup, init) {
        var t :| t in init && BlockThrows(setup, t);
        assert t in blocks;
      } else {
        NothingThrown(setup, init);
        TakeIs(setup, Collect(setup, tgv, init), b);
      }
    }
  }

  // The blocks processed are all up to and including the first that throws, whose exception is reported.
  lemma {:induction false} SeenEndsAtException(setup: Setup, tgv: Tgv, blocks: seq<Block>)
    requires BlocksOk(setup, blocks)
    ensures var seen := Seen(setup, blocks);
            && seen <= blocks
            && (forall i :: 0 <= i < |seen| - 1 ==> !BlockThrows(setup, seen[i]))
            && if AnyThrows(setup, blocks) then
                 && seen != [] && BlockThrows(setup, Last(seen))
                 && Collect(setup, tgv, blocks).thrown == Some(BlockMeaning(setup, Last(seen)).id)
               else
                 seen == blocks && Collect(setup, tgv, blocks).thrown == None
  {
    hide BlockOk;
    hide BlockMeaning;
    hide RecordsOf;
    CollectIs(setup, tgv, blocks);
    if blocks == [] {
    } else {
      var init, b := Init(blocks), Last(blocks);
      assert blocks == init + [b] && b in blocks;
      SeenEndsAtException(setup, tgv, init);
      CollectIs(setup, tgv, init);
    }
  }

  lemma NothingThrown(setup: Setup, blocks: seq<Block>)
    requires !AnyThrows(setup, blocks)
    ensures Seen(setup, blocks) == blocks
  {
    if blocks != [] {
      assert forall b :: b in Init(blocks) ==> b in blocks;
    }
  }

  // ---------- runs ----------

  function SeenBy(setup: Setup): Callback -> seq<Block> { (cb: Callback) => Seen(setup, cb.blocks) }

  // Every block processed in a run.
  function History(setup: Setup, run: seq<Callback>): seq<Block> {
    FlatMap(SeenBy(setup), run)
  }

  // A callback for the last readout stack fires, unless an exception ends it.
  predicate Fires(setup: Setup, stacks: int, cb: Callback) {
    cb.eventIndex + 1 == stacks && !AnyThrows(setup, cb.blocks)
  }

  // The index of the last callback that fires, or -1.
  function LastFiring(setup: Setup, stacks: int, run: seq<Callback>): (f: int)
    ensures -1 <= f < |run|
  {
    if run == [] then -1
    else if Fires(setup, stacks, Last(run)) then |run| - 1
    else LastFiring(setup, stacks, Init(run))
  }

  lemma {:induction false} LastFiringIsLast(setup: Setup, stacks: int, run: seq<Callback>)
    ensures var f := LastFiring(setup, stacks, run);
            && (f >= 0 ==> Fires(setup, stacks, run[f]))
            && (forall k :: f < k < |run| ==> !Fires(setup, stacks, run[k]))
  {
    hide Fires;
    if run == [] {
    } else {
      LastFiringIsLast(setup, stacks, Init(run));
    }
  }

  // Every module accepted after callback f, with the most recent timestamp of the whole run. When
  // nothing has fired, what was pending at the start comes first.
  function EventSince(setup: Setup, s: State, run: seq<Callback>, f: int): EventValue
    requires -1 <= f < |run|
  {
    EventValue((if f < 0 then s.pending.modules else []) + FlatMap(RecordsOf(setup), History(setup, run[f + 1..])),
               s.pending.eventCounter,
               LatestStamp(setup, s.pending.tgv, History(setup, run)))
  }

  // One event for each callback that fires, holding what came since the one that fired before it.
  function Events(setup: Setup, stacks: int, s: State, run: seq<Callback>): seq<EventValue> {
    if run == [] then []
    else
      Events(setup, stacks, s, Init(run))
      + if Fires(setup, stacks, Last(run)) then
          [EventSince(setup, s, run, LastFiring(setup, stacks, Init(run)))]
        else []
  }

  lemma EventSinceNext(setup: Setup, s: State, run: seq<Callback>, cb: Callback, f: int)
    requires -1 <= f < |run| && BlocksOk(setup, cb.blocks)
    ensures var e := EventSince(setup, s, run, f);
            var c := Collect(setup, e.tgv, cb.blocks);
            EventSince(setup, s, run + [cb], f)
            == EventValue(e.modules + c.records, e.eventCounter, c.tgv)
  {
    hide BlockOk;
    hide RecordsOf;
    hide Collect;
    hide Seen;
    hide LatestStamp;
    var seen := Seen(setup, cb.blocks);
    assert (run + [cb])[f + 1..] == run[f + 1..] + [cb];
    FlatMapAppend(SeenBy(setup), run[f + 1..], cb);
    FlatMapAppend(SeenBy(setup), run, cb);
    FlatMapConcat(RecordsOf(setup), History(setup, run[f + 1..]), seen);
    LatestStampConcat(setup, s.pending.tgv, History(setup, run), seen);
    CollectIs(setup, EventSince(setup, s, run, f).tgv, cb.blocks);
    ConcatAssociates(if f < 0 then s.pending.modules else [],
                     FlatMap(RecordsOf(setup), History(setup, run[f + 1..])), FlatMap(RecordsOf(setup), seen));
  }

  lemma EventsNext(setup: Setup, stacks: int, s: State, run: seq<Callback>)
    requires run != []
    ensures var f := LastFiring(setup, stacks, Init(run));
            if Fires(setup, stacks, Last(run)) then
              && LastFiring(setup, stacks, run) == |run| - 1
              && Events(setup, stacks, s, run) == Events(setup, stacks, s, Init(run)) + [EventSince(setup, s, run, f)]
            else
              && LastFiring(setup, stacks, run) == f
              && Events(setup, stacks, s, run) == Events(setup, stacks, s, Init(run))
  {
    hide Fires;
    hide EventSince;
  }

  lemma AddOneModulo(t: nat, n: nat)
    ensures Wrap32(Wrap32(t + n) + 1) == Wrap32(t + n + 1)
  {
  }

  lemma NoEvents(setup: Setup, stacks: int, s: State)
    ensures Events(setup, stacks, s, []) == [] && LastFiring(setup, stacks, []) == -1
  {
  }

  lemma WrapSmall(t: nat)
    requires t < TWO_TO_THE_32
    ensures Wrap32(t) == t
  {
  }

  // One callback, in the same terms.
  lemma AfterIs(setup: Setup, stacks: int, s: State, run: seq<Callback>, f: int, before: State, cb: Callback)
    requires BlocksOk(setup, cb.blocks) && -1 <= f < |run|
    requires before.pending == EventSince(setup, s, run, f)
    ensures var event := EventSince(setup, s, run + [cb], f);
            After(setup, stacks, before, cb)
            == if Fires(setup, stacks, cb) then
                 State(EventSince(setup, s, run + [cb], |run|), before.delivered + [event],
                       Wrap32(before.total + 1))
               else before.(pending := event)
  {
    hide BlocksOk;
    hide Collect;
    hide EventSince;
    hide AnyThrows;
    EventSinceNext(setup, s, run, cb, f);
    CollectIs(setup, before.pending.tgv, cb.blocks);
    NothingSinceLast(setup, s, run + [cb], f);
  }

  // What a run does, from any state: the events are those described, the rest stays pending, and the
  // count goes up by one an event, modulo 2^32.
  lemma {:induction false} CollationIsExact(setup: Setup, stacks: int, s: State, run: seq<Callback>)
    requires RunOk(setup, run) && s.total < TWO_TO_THE_32
    ensures AfterRun(setup, stacks, s, run)
            == State(EventSince(setup, s, run, LastFiring(setup, stacks, run)),
                     s.delivered + Events(setup, stacks, s, run),
                     Wrap32(s.total + |Events(setup, stacks, s, run)|))
  {
    hide BlocksOk;
    hide After;
    hide RunOk;
    hide EventSince;
    hide Fires;
    hide Wrap32;
    hide Events;
    hide LastFiring;
    if run == [] {
      WrapSmall(s.total);
      NothingSince(setup, s);
      NoEvents(setup, stacks, s);
    } else {
      var init, cb := Init(run), Last(run);
      RunOkParts(setup, run);
      CollationIsExact(setup, stacks, s, init);
      EventsNext(setup, stacks, s, run);
      AfterIs(setup, stacks, s, init, LastFiring(setup, stacks, init), AfterRun(setup, stacks, s, init), cb);
      AddOneModulo(s.total, |Events(setup, stacks, s, init)|);
      ConcatAssociates(s.delivered, Events(setup, stacks, s, init),
                       [EventSince(setup, s, run, LastFiring(setup, stacks, init))]);
    }
  }

  lemma RunOkParts(setup: Setup, run: seq<Callback>)
    requires RunOk(setup, run) && run != []
    ensures RunOk(setup, Init(run)) && BlocksOk(setup, Last(run).blocks)
    ensures Init(run) + [Last(run)] == run
  {
    hide BlocksOk;
    assert Last(run) in run && forall c :: c in Init(run) ==> c in run;
  }

  // The count returned for a buffer is documented as that of the events in this buffer. It is, modulo
  // 2^32, exactly when nothing had been counted before.
  lemma CountIsOfThisBuffer(setup: Setup, stacks: int, s: State, run: seq<Callback>)
    requires RunOk(setup, run) && s.total < TWO_TO_THE_32
    ensures AfterRun(setup, stacks, s, run).total == Wrap32(|Events(setup, stacks, s, run)|) <==> s.total == 0
  {
    hide RunOk;
    hide AfterRun;
    hide Events;
    hide EventSince;
    hide Wrap32;
    hide LastFiring;
    CollationIsExact(setup, stacks, s, run);
    WrapShift(s.total, |Events(setup, stacks, s, run)|);
  }

  // One event counted before, one in this buffer: the returned count is 2.
  lemma SecondBufferCountsBoth(setup: Setup, s: State)
    requires s.total == 1
    ensures RunOk(setup, [Callback(0, [])]) && |Events(setup, 1, s, [Callback(0, [])])| == 1
    ensures AfterRun(setup, 1, s, [Callback(0, [])]).total == 2
  {
    hide EventSince;
    hide LastFiring;
    var run := [Callback(0, [])];
    assert Init(run) == [] && Last(run) == Callback(0, []);
    assert Fires(setup, 1, Callback(0, []));
    NoEvents(setup, 1, s);
    CollationIsExact(setup, 1, s, run);
  }

  lemma WrapShift(t: nat, n: nat)
    requires t < TWO_TO_THE_32
    ensures Wrap32(t + n) == Wrap32(n) <==> t == 0
  {
    var q, r := n / TWO_TO_THE_32, n % TWO_TO_THE_32;
    assert n == q * TWO_TO_THE_32 + r;
    if t + r < TWO_TO_THE_32 {
      assert Wrap32(t + n) == t + r;
    } else {
      assert Wrap32(t + n) == t + r - TWO_TO_THE_32;
    }
  }

  lemma NothingSince(setup: Setup, s: State)
    ensures EventSince(setup, s, [], -1) == s.pending
  {
    assert s.pending.modules + [] == s.pending.modules;
  }

  // A callback that fires leaves nothing pending but the numbers.
  lemma NothingSinceLast(setup: Setup, s: State, run: seq<Callback>, f: int)
    requires -1 <= f < |run| && run != []
    ensures EventSince(setup, s, run, |run| - 1) == EventSince(setup, s, run, f).(modules := [])
  {
    assert run[|run|..] == [];
  }

  function ModulesOf(e: EventValue): seq<ModuleRecord> { e.modules }

  // The modules of all events delivered and of the one being built, in order.
  function AllModules(s: State): seq<ModuleRecord> {
    FlatMap(ModulesOf, s.delivered) + s.pending.modules
  }

  lemma CallbackConserves(setup: Setup, stacks: int, s: State, cb: Callback)
    requires BlocksOk(setup, cb.blocks)
    ensures var after := After(setup, stacks, s, cb);
            && AllModules(after) == AllModules(s) + FlatMap(RecordsOf(setup), Seen(setup, cb.blocks))
            && |after.delivered| == |s.delivered| + (if Fires(setup, stacks, cb) then 1 else 0)
  {
    hide BlocksOk;
    hide Collect;
    hide RecordsOf;
    hide Seen;
    hide AnyThrows;
    CollectIs(setup, s.pending.tgv, cb.blocks);
    var c := Collect(setup, s.pending.tgv, cb.blocks);
    var event := s.pending.(modules := s.pending.modules + c.records, tgv := c.tgv);
    FlatMapAppend(ModulesOf, s.delivered, event);
    ConcatAssociates(FlatMap(ModulesOf, s.delivered), s.pending.modules, c.records);
  }

  // Conservation: nothing accepted is lost, repeated or reordered, and each callback for the last
  // readout stack that does not throw delivers exactly one event.
  lemma {:induction false} Conservation(setup: Setup, stacks: int, s: State, run: seq<Callback>)
    requires RunOk(setup, run)
    ensures var after := AfterRun(setup, stacks, s, run);
            && AllModules(after) == AllModules(s) + FlatMap(RecordsOf(setup), History(setup, run))
            && |after.delivered| == |s.delivered| + |Firings(setup, stacks, run)|
  {
    hide BlocksOk;
    hide After;
    hide AllModules;
    hide RecordsOf;
    hide Seen;
    hide Fires;
    if run == [] {
      assert AllModules(s) + [] == AllModules(s);
    } else {
      var init, cb := Init(run), Last(run);
      assert run == init + [cb] && cb in run && forall c :: c in init ==> c in run;
      Conservation(setup, stacks, s, init);
      CallbackConserves(setup, stacks, AfterRun(setup, stacks, s, init), cb);
      FlatMapConcat(RecordsOf(setup), History(setup, init), Seen(setup, cb.blocks));
      ConcatAssociates(AllModules(s), FlatMap(RecordsOf(setup), History(setup, init)),
                       FlatMap(RecordsOf(setup), Seen(setup, cb.blocks)));
    }
  }

  function Firing(setup: Setup, stacks: int): Callback -> seq<Callback> {
    cb => if Fires(setup, stacks, cb) then [cb] else []
  }

  function Firings(setup: Setup, stacks: int, run: seq<Callback>): seq<Callback> {
    FlatMap(Firing(setup, stacks), run)
  }

  // Where the event of a firing callback stands in the list of events, and its timestamp.
  lemma {:induction false} EventOfFiring(setup: Setup, stacks: int, s: State, run: seq<Callback>, i: nat)
    requires RunOk(setup, run) && i < |run| && Fires(setup, stacks, run[i])
    ensures var k := |Events(setup, stacks, s, run[..i])|;
            && k < |Events(setup, stacks, s, run)|
            && Events(setup, stacks, s, run)[k].tgv == LatestStamp(setup, s.pending.tgv, History(setup, run[..i + 1]))
    decreases |run|
  {
    hide BlocksOk;
    hide LatestStamp;
    hide Fires;
    if i < |run| - 1 {
      assert forall c :: c in Init(run) ==> c in run;
      EventOfFiring(setup, stacks, s, Init(run), i);
      assert Init(run)[..i] == run[..i] && Init(run)[..i + 1] == run[..i + 1];
    } else {
      assert run[..i] == Init(run) && run[..i + 1] == run;
    }
  }

  lemma {:induction false} FiringOfEvent(setup: Setup, stacks: int, s: State, run: seq<Callback>, k: nat)
    returns (i: nat)
    requires RunOk(setup, run) && k < |Events(setup, stacks, s, run)|
    ensures i < |run| && Fires(setup, stacks, run[i]) && |Events(setup, stacks, s, run[..i])| == k
    decreases |run|
  {
    hide BlocksOk;
    hide Fires;
    hide EventSince;
    assert forall c :: c in Init(run) ==> c in run;
    if k < |Events(setup, stacks, s, Init(run))| {
      i := FiringOfEvent(setup, stacks, s, Init(run), k);
      assert Init(run)[..i] == run[..i];
    } else {
      i := |run| - 1;
      assert run[..i] == Init(run);
    }
  }

  // Every event k that the collator delivers in a run was fired by some callback i, and carries the
  // stamp of the most recent timestamp block of the whole history up to there, however many events
  // ago that was. The event being built carries the most recent of all.
  lemma TimestampTracking(setup: Setup, stacks: int, s: State, run: seq<Callback>, k: nat) returns (i: nat)
    requires RunOk(setup, run) && s.total < TWO_TO_THE_32
    requires |s.delivered| <= k < |AfterRun(setup, stacks, s, run).delivered|
    ensures i < |run| && Fires(setup, stacks, run[i]) && RunOk(setup, run[..i])
    ensures |AfterRun(setup, stacks, s, run[..i]).delivered| == k
    ensures AfterRun(setup, stacks, s, run).delivered[k].tgv
            == LatestStamp(setup, s.pending.tgv, History(setup, run[..i + 1]))
    ensures AfterRun(setup, stacks, s, run).pending.tgv == LatestStamp(setup, s.pending.tgv, History(setup, run))
  {
    hide BlocksOk;
    hide LatestStamp;
    hide Fires;
    hide AfterRun;
    hide Events;
    hide LastFiring;
    hide Wrap32;
    CollationIsExact(setup, stacks, s, run);
    i := FiringOfEvent(setup, stacks, s, run, k - |s.delivered|);
    assert forall c :: c in run[..i] ==> c in run;
    CollationIsExact(setup, stacks, s, run[..i]);
    EventOfFiring(setup, stacks, s, run, i);
  }

  // The most recent stamp is that of a timestamp block after which there is no other.
  lemma {:induction false} LatestStampIsLatest(setup: Setup, tgv: Tgv, blocks: seq<Block>, k: nat)
    requires k < |blocks| && StampOf(setup, blocks[k]).Some?
    requires forall j :: k < j < |blocks| ==> StampOf(setup, blocks[j]).None?
    ensures LatestStamp(setup, tgv, blocks) == StampOf(setup, blocks[k]).value
    decreases |blocks|
  {
    hide StampOf;
    if k == |blocks| - 1 {
    } else {
      assert StampOf(setup, blocks[|blocks| - 1]).None?;
      LatestStampIsLatest(setup, tgv, Init(blocks), k);
    }
  }
}
