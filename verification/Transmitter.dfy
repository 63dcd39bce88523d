/** The transmitter's loop: it reads buffers with the collator, and resets it after an exception. */
module Transmitter {
  import opened Basics
  import opened Words
  import opened VmeModules
  import opened EventData
  import opened ReaderV1
  import opened Collator
  import opened Collation

  // ---------- the calls that are made ----------

  predicate AnyCallThrows(setup: Setup, run: seq<Callback>) {
    exists cb :: cb in run && AnyThrows(setup, cb.blocks)
  }

  // Of the callbacks that the words of a run ask for, those up to and including the first that throws.
  function Made(setup: Setup, run: seq<Callback>): (made: seq<Callback>)
    ensures made <= run
  {
    if run == [] || !AnyCallThrows(setup, Init(run)) then run else Made(setup, Init(run))
  }

  lemma {:induction false} MadeEndsAtException(setup: Setup, run: seq<Callback>)
    ensures var n := |Made(setup, run)|;
            && (forall i :: 0 <= i < n - 1 ==> !AnyThrows(setup, run[i].blocks))
            && (if AnyCallThrows(setup, run) then n > 0 && AnyThrows(setup, run[n - 1].blocks)
                else Made(setup, run) == run)
  {
    hide AnyThrows;
    if run == [] {
    } else {
      var init := Init(run);
      assert run == init + [Last(run)];
      MadeEndsAtException(setup, init);
    }
  }

  lemma AnyCallThrowsConcat(setup: Setup, a: seq<Callback>, b: seq<Callback>)
    ensures AnyCallThrows(setup, a + b) <==> AnyCallThrows(setup, a) || AnyCallThrows(setup, b)
  {
    hide AnyThrows;
    assert forall cb :: cb in a + b <==> cb in a || cb in b;
  }

  lemma {:induction false} MadeConcat(setup: Setup, a: seq<Callback>, b: seq<Callback>)
    ensures Made(setup, a + b) == if AnyCallThrows(setup, a) then Made(setup, a) else a + Made(setup, b)
  {
    hide AnyCallThrows;
    if b == [] {
      assert a + b == a;
      MadeEndsAtException(setup, a);
    } else {
      MadeConcat(setup, a, Init(b));
      AnyCallThrowsConcat(setup, a, Init(b));
      assert Init(a + b) == a + Init(b);
    }
  }

  lemma MadeIsOk(setup: Setup, run: seq<Callback>)
    requires RunOk(setup, run)
    ensures RunOk(setup, Made(setup, run))
    ensures forall cb :: cb in Made(setup, run) ==> cb in run
  {
    hide Made;
    hide BlocksOk;
    var made := Made(setup, run);
    assert forall i :: 0 <= i < |made| ==> made[i] == run[i] && made[i] in run;
  }

  // The calls that the collator makes for a buffer, as its method counts them, are these.
  lemma CallsAreMade(setup: Setup, run: seq<Callback>, calls: nat, thrown: bool)
    requires RunOk(setup, run) && calls <= |run| && RunOk(setup, run[..calls])
    requires forall i :: 0 <= i < calls ==> (CallThrows(setup, run[i]) <==> i == calls - 1 && thrown)
    requires if thrown then calls > 0 else calls == |run|
    ensures run[..calls] == Made(setup, run) && (thrown <==> AnyCallThrows(setup, run))
  {
    hide BlocksOk;
    hide AnyThrows;
    hide Made;
    forall i | 0 <= i < |run|
      ensures BlocksOk(setup, run[i].blocks)
      ensures CallThrows(setup, run[i]) <==> AnyThrows(setup, run[i].blocks)
    {
      assert run[i] in run;
      CollectIs(setup, Tgv(0, 0, 0), run[i].blocks);
    }
    MadeEndsAtException(setup, run);
    var n := |Made(setup, run)|;
    assert Made(setup, run) == run[..n];
    if thrown {
      assert run[calls - 1] in run;
      assert n == calls;
    } else {
      assert run[..calls] == run;
    }
  }

  // ---------- operations on the collator ----------

  // What the transmitter does with the collator: reads buffers, resets it after an exception, and
  // initialises the readout.
  datatype Operation = Buffer(calls: seq<Callback>) | Reset | InitialiseReadout(stacks: nat)

  datatype Machine = Machine(stacks: nat, state: State)

  predicate OperationsOk(setup: Setup, ops: seq<Operation>) {
    forall op :: op in ops && op.Buffer? ==>
                   RunOk(setup, op.calls) && forall cb :: cb in op.calls ==> cb.eventIndex >= 0
  }

  function Operate(setup: Setup, m: Machine, op: Operation): Machine
    requires op.Buffer? ==> RunOk(setup, op.calls)
  {
    match op
    case Buffer(calls) => m.(state := AfterRun(setup, m.stacks, m.state, calls))
    case Reset => Machine(0, m.state.(pending := m.state.pending.(modules := []), total := 0))
    case InitialiseReadout(stacks) => m.(stacks := stacks)
  }

  function OperateAll(setup: Setup, m: Machine, ops: seq<Operation>): Machine
    requires OperationsOk(setup, ops)
  {
    if ops == [] then m
    else
      assert Last(ops) in ops && forall op :: op in Init(ops) ==> op in ops;
      Operate(setup, OperateAll(setup, m, Init(ops)), Last(ops))
  }

  lemma {:induction false} NothingFiresWithoutStacks(setup: Setup, s: State, run: seq<Callback>)
    requires RunOk(setup, run) && forall cb :: cb in run ==> cb.eventIndex >= 0
    ensures AfterRun(setup, 0, s, run).delivered == s.delivered
  {
    hide BlocksOk;
    hide After;
    if run == [] {
    } else {
      assert Last(run) in run && forall cb :: cb in Init(run) ==> cb in run;
      NothingFiresWithoutStacks(setup, s, Init(run));
      FiresOnlyForLastStack(setup, 0, AfterRun(setup, 0, s, Init(run)), Last(run));
    }
  }

  // After a reset nothing is delivered, whatever is read, until the readout is initialised again.
  lemma {:induction false} NothingDeliveredAfterReset(setup: Setup, m: Machine, ops: seq<Operation>)
    requires OperationsOk(setup, ops) && forall op :: op in ops ==> !op.InitialiseReadout?
    ensures var end := OperateAll(setup, Operate(setup, m, Reset), ops);
            end.stacks == 0 && end.state.delivered == m.state.delivered
  {
    hide RunOk;
    hide AfterRun;
    if ops == [] {
    } else {
      var before := OperateAll(setup, Operate(setup, m, Reset), Init(ops));
      assert Last(ops) in ops && forall op :: op in Init(ops) ==> op in ops;
      NothingDeliveredAfterReset(setup, m, Init(ops));
      if Last(ops).Buffer? {
        NothingFiresWithoutStacks(setup, before.state, Last(ops).calls);
      }
    }
  }

  // ---------- the loop ----------

  // What can be read: the index of a stack is not negative.
  predicate CallsOk(setup: Setup, run: seq<Callback>) {
    RunOk(setup, run) && forall cb :: cb in run ==> cb.eventIndex >= 0
  }

  predicate BuffersOk(setup: Setup, buffers: seq<seq<Callback>>) {
    forall b :: b in buffers ==> CallsOk(setup, b)
  }

  function TransmitOne(setup: Setup, m: Machine, b: seq<Callback>): Machine
    requires CallsOk(setup, b)
  {
    MadeIsOk(setup, b);
    var read := Operate(setup, m, Buffer(Made(setup, b)));
    if AnyCallThrows(setup, b) then Operate(setup, read, Reset) else read
  }

  // An exception abandons the rest of its buffer and resets the collator; the readout is not initialised
  // again.
  function Transmit(setup: Setup, m: Machine, buffers: seq<seq<Callback>>): Machine
    requires BuffersOk(setup, buffers)
  {
    if buffers == [] then m
    else
      assert Last(buffers) in buffers && forall b :: b in Init(buffers) ==> b in buffers;
      TransmitOne(setup, Transmit(setup, m, Init(buffers)), Last(buffers))
  }

  // The main loop, over the buffers that successive receive calls give.
  method MainLoop(reader: MvlcParserBufferReader, buffers: seq<seq<Callback>>) returns (delivered: seq<EventValue>)
    requires BuffersOk(reader.setup, buffers)
    modifies reader, reader.mesyEvent, reader.modData
    ensures Machine(reader.stacks, State(reader.mesyEvent.Value(), delivered, reader.totalNumberEventsParsed))
            == Transmit(reader.setup,
                        old(Machine(reader.stacks,
                                    State(reader.mesyEvent.Value(), [], reader.totalNumberEventsParsed))),
                        buffers)
  {
    hide AfterRun;
    hide Made;
    hide AnyCallThrows;
    hide CallsOk;
    ghost var start := Machine(reader.stacks, State(reader.mesyEvent.Value(), [], reader.totalNumberEventsParsed));
    delivered := [];
    var i := 0;
    while i < |buffers|
      invariant 0 <= i <= |buffers| && BuffersOk(reader.setup, buffers[..i])
      invariant Machine(reader.stacks, State(reader.mesyEvent.Value(), delivered, reader.totalNumberEventsParsed))
                == Transmit(reader.setup, start, buffers[..i])
    {
      assert buffers[i] in buffers;
      assert Init(buffers[..i + 1]) == buffers[..i];
      var sent := ReadBuffer(reader, buffers[i], delivered);
      delivered := delivered + sent;
      i := i + 1;
    }
    assert buffers[..i] == buffers;
  }

  method ReadBuffer(reader: MvlcParserBufferReader, b: seq<Callback>, ghost delivered: seq<EventValue>)
    returns (sent: seq<EventValue>)
    requires CallsOk(reader.setup, b)
    modifies reader, reader.mesyEvent, reader.modData
    ensures Machine(reader.stacks, State(reader.mesyEvent.Value(), delivered + sent, reader.totalNumberEventsParsed))
            == TransmitOne(reader.setup,
                           old(Machine(reader.stacks,
                                       State(reader.mesyEvent.Value(), delivered, reader.totalNumberEventsParsed))),
                           b)
  {
    hide AfterRun;
    hide Made;
    hide AnyCallThrows;
    hide CallThrows;
    ghost var alone := State(reader.mesyEvent.Value(), [], reader.totalNumberEventsParsed);
    var total, thrown;
    ghost var calls;
    total, sent, thrown, calls := reader.ReadBufferCollateEvents(b);
    CallsAreMade(reader.setup, b, calls, thrown.Some?);
    AfterRunAppends(reader.setup, reader.stacks, alone, delivered, b[..calls]);
    if thrown.Some? {
      reader.Reset();
    }
  }

  lemma {:induction false} AfterRunAppends(setup: Setup, stacks: int, s: State, delivered: seq<EventValue>,
                                           run: seq<Callback>)
    requires RunOk(setup, run) && s.delivered == []
    ensures var alone := AfterRun(setup, stacks, s, run);
            AfterRun(setup, stacks, s.(delivered := delivered), run)
            == alone.(delivered := delivered + alone.delivered)
  {
    hide After;
    hide BlocksOk;
    if run == [] {
    } else {
      RunOkParts(setup, run);
      AfterRunAppends(setup, stacks, s, delivered, Init(run));
      var before := AfterRun(setup, stacks, s, Init(run));
      AfterAppends(setup, stacks, before.(delivered := []), before.delivered, Last(run));
      AfterAppends(setup, stacks, before.(delivered := []), delivered + before.delivered, Last(run));
      ConcatAssociates(delivered, before.delivered,
                       After(setup, stacks, before.(delivered := []), Last(run)).delivered);
    }
  }

  lemma {:induction false} AfterRunConcat(setup: Setup, stacks: int, s: State, a: seq<Callback>, b: seq<Callback>)
    requires RunOk(setup, a) && RunOk(setup, b) && RunOk(setup, a + b)
    ensures AfterRun(setup, stacks, s, a + b) == AfterRun(setup, stacks, AfterRun(setup, stacks, s, a), b)
  {
    hide After;
    hide BlocksOk;
    if b == [] {
      assert a + b == a;
    } else {
      RunOkParts(setup, b);
      RunOkParts(setup, a + b);
      assert Init(a + b) == a + Init(b) && Last(a + b) == Last(b);
      AfterRunConcat(setup, stacks, s, a, Init(b));
    }
  }

  // ---------- what is transmitted ----------

  lemma {:induction false} FlattenOk(setup: Setup, buffers: seq<seq<Callback>>)
    requires BuffersOk(setup, buffers)
    ensures CallsOk(setup, Flatten(buffers))
  {
    hide BlocksOk;
    if buffers == [] {
    } else {
      assert Last(buffers) in buffers && forall b :: b in Init(buffers) ==> b in buffers;
      FlattenOk(setup, Init(buffers));
      assert buffers == Init(buffers) + [Last(buffers)];
      FlattenAppend(Init(buffers), Last(buffers));
    }
  }

  // Over any sequence of buffers, exactly the events of the calls up to the first exception are
  // delivered. After it no stack is known; without one, nothing differs from one long buffer.
  lemma {:induction false} TransmitsUpToFirstException(setup: Setup, m: Machine, buffers: seq<seq<Callback>>)
    requires BuffersOk(setup, buffers)
    ensures var run := Flatten(buffers);
            var end := Transmit(setup, m, buffers);
            && RunOk(setup, run) && RunOk(setup, Made(setup, run))
            && end.state.delivered == AfterRun(setup, m.stacks, m.state, Made(setup, run)).delivered
            && if AnyCallThrows(setup, run) then end.stacks == 0
               else end == Machine(m.stacks, AfterRun(setup, m.stacks, m.state, run))
  {
    hide AfterRun;
    hide RunOk;
    hide Made;
    hide AnyCallThrows;
    FlattenOk(setup, buffers);
    MadeIsOk(setup, Flatten(buffers));
    if buffers == [] {
      NothingMade(setup, m);
    } else {
      var init, b := Init(buffers), Last(buffers);
      assert b in buffers && forall x :: x in init ==> x in buffers;
      assert buffers == init + [b];
      FlattenAppend(init, b);
      var run := Flatten(init);
      TransmitsUpToFirstException(setup, m, init);
      MadeConcat(setup, run, b);
      AnyCallThrowsConcat(setup, run, b);
      MadeIsOk(setup, b);
      MadeEndsAtException(setup, b);
      if AnyCallThrows(setup, run) {
        NothingFiresWithoutStacks(setup, Transmit(setup, m, init).state, Made(setup, b));
      } else {
        AfterRunConcat(setup, m.stacks, m.state, run, Made(setup, b));
      }
    }
  }

  lemma NothingMade(setup: Setup, m: Machine)
    ensures Flatten<Callback>([]) == [] && Made(setup, []) == [] && !AnyCallThrows(setup, [])
    ensures AfterRun(setup, m.stacks, m.state, []) == m.state
  {
  }

  predicate NoFiringAfterException(setup: Setup, stacks: int, run: seq<Callback>) {
    forall i, j :: 0 <= i < j < |run| && AnyThrows(setup, run[i].blocks) ==> !Fires(setup, stacks, run[j])
  }

  // Every callback that fires delivers its event exactly when none comes after a callback that throws.
  lemma NothingLostIffNoFiringAfterException(setup: Setup, m: Machine, buffers: seq<seq<Callback>>)
    requires BuffersOk(setup, buffers)
    ensures var run := Flatten(buffers);
            |Transmit(setup, m, buffers).state.delivered| == |m.state.delivered| + |Firings(setup, m.stacks, run)|
            <==> NoFiringAfterException(setup, m.stacks, run)
  {
    hide Transmit;
    hide AfterRun;
    hide RunOk;
    hide Made;
    hide AnyCallThrows;
    hide NoFiringAfterException;
    hide Firings;
    hide AllModules;
    hide History;
    hide Flatten;
    var run := Flatten(buffers);
    var made := Made(setup, run);
    TransmitsUpToFirstException(setup, m, buffers);
    Conservation(setup, m.stacks, m.state, made);
    NoFiringsAreLost(setup, m.stacks, run);
  }

  lemma NoFiringsAreLost(setup: Setup, stacks: int, run: seq<Callback>)
    ensures |Firings(setup, stacks, Made(setup, run))| == |Firings(setup, stacks, run)|
            <==> NoFiringAfterException(setup, stacks, run)
  {
    hide Made;
    hide AnyThrows;
    hide AnyCallThrows;
    hide Fires;
    hide Firings;
    hide NoFiringAfterException;
    var made := Made(setup, run);
    var rest := run[|made|..];
    MadeEndsAtException(setup, run);
    assert run == made + rest;
    FiringsConcat(setup, stacks, made, rest);
    NoFirings(setup, stacks, rest);
    FiringsOfRest(setup, stacks, run, |made|);
  }

  lemma FiringsConcat(setup: Setup, stacks: int, a: seq<Callback>, b: seq<Callback>)
    ensures Firings(setup, stacks, a + b) == Firings(setup, stacks, a) + Firings(setup, stacks, b)
  {
    FlatMapConcat(Firing(setup, stacks), a, b);
  }

  // With n calls made, of which only the last throws, if one does.
  lemma FiringsOfRest(setup: Setup, stacks: int, run: seq<Callback>, n: nat)
    requires n <= |run| && forall i :: 0 <= i < n - 1 ==> !AnyThrows(setup, run[i].blocks)
    requires if AnyCallThrows(setup, run) then n > 0 && AnyThrows(setup, run[n - 1].blocks) else n == |run|
    ensures (forall cb :: cb in run[n..] ==> !Fires(setup, stacks, cb)) <==> NoFiringAfterException(setup, stacks, run)
  {
    hide AnyThrows;
    hide Fires;
    var rest := run[n..];
    if forall cb :: cb in rest ==> !Fires(setup, stacks, cb) {
      forall i, j | 0 <= i < j < |run| && AnyThrows(setup, run[i].blocks)
        ensures !Fires(setup, stacks, run[j])
      {
        assert run[i] in run;
        assert rest[j - n] == run[j] && run[j] in rest;
      }
    } else {
      var cb :| cb in rest && Fires(setup, stacks, cb);
      var j :| 0 <= j < |rest| && rest[j] == cb;
      assert run[n + j] == cb;
    }
  }

  lemma {:induction false} NoFirings(setup: Setup, stacks: int, run: seq<Callback>)
    ensures |Firings(setup, stacks, run)| == 0 <==> forall cb :: cb in run ==> !Fires(setup, stacks, cb)
  {
    hide Fires;
    if run == [] {
    } else {
      assert run == Init(run) + [Last(run)];
      NoFirings(setup, stacks, Init(run));
    }
  }

  // ---------- an exception, and an event lost after it ----------

  const SCALER_SETUP: Setup := map[5 := ModuleDesc("Scaler", 5, 0, MVLC_SCALER)]

  // Two scalers, of which the second has an id that is not in the setup.
  function HalfKnownScalers(): Block {
    [Word(0x40050005), Word(0), Word(0), Word(0), Word(0), Word(0xC0000000),
     Word(0x40060005), Word(0), Word(0), Word(0), Word(0), Word(0xC0000000)]
  }

  lemma HalfKnownScalersThrow()
    ensures BlockThrows(SCALER_SETUP, HalfKnownScalers())
  {
    assert ModuleId(Word(0x40050005)) == 5 && ModuleId(Word(0x40060005)) == 6;
    assert IsModuleHeader(Word(0x40060005)) && IsEndOfEvent(Word(0xC0000000));
  }

  // One readout stack, which is read out twice. Both calls are for the last stack, and neither delivers.
  lemma EventLostAfterException(s: State)
    ensures var first, second := Callback(0, [HalfKnownScalers()]), Callback(0, []);
            && BuffersOk(SCALER_SETUP, [[first], [second]])
            && Fires(SCALER_SETUP, 1, second)
            && Transmit(SCALER_SETUP, Machine(1, s), [[first], [second]]).state.delivered == s.delivered
  {
    hide BlockThrows;
    hide HalfKnownScalers;
    hide BuffersOk;
    hide Transmit;
    HalfKnownScalersThrow();
    assert HalfKnownScalers() in [HalfKnownScalers()];
    NextEventIsLost(SCALER_SETUP, Machine(1, s), Callback(0, [HalfKnownScalers()]), Callback(0, []));
  }

  lemma NextEventIsLost(setup: Setup, m: Machine, first: Callback, second: Callback)
    requires CallsOk(setup, [first]) && CallsOk(setup, [second]) && AnyThrows(setup, first.blocks)
    ensures BuffersOk(setup, [[first], [second]])
    ensures Transmit(setup, m, [[first], [second]]).state.delivered == m.state.delivered
  {
    hide BlocksOk;
    hide AnyThrows;
    hide AfterRun;
    hide Transmit;
    hide CallsOk;
    hide Made;
    hide AnyCallThrows;
    hide Flatten;
    TransmitsUpToFirstException(setup, m, [[first], [second]]);
    FlattenTwo(first, second);
    MadeOfThrowing(setup, first, second);
    CallOk(setup, first);
    ThrowingCallDeliversNothing(setup, m.stacks, m.state, first);
  }

  lemma FlattenTwo(first: Callback, second: Callback)
    ensures Flatten([[first], [second]]) == [first] + [second]
  {
    assert [[first], [second]] == [[first]] + [[second]];
    FlattenAppend([[first]], [second]);
    FlatMapOne((part: seq<Callback>) => part, [first]);
  }

  lemma MadeOfThrowing(setup: Setup, first: Callback, second: Callback)
    requires AnyThrows(setup, first.blocks)
    ensures Made(setup, [first] + [second]) == [first]
  {
    hide AnyThrows;
    assert first in [first] && Init([first]) == [];
    MadeConcat(setup, [first], [second]);
  }

  lemma CallOk(setup: Setup, cb: Callback)
    requires CallsOk(setup, [cb])
    ensures BlocksOk(setup, cb.blocks)
  {
    assert cb in [cb];
  }

  lemma ThrowingCallDeliversNothing(setup: Setup, stacks: int, s: State, cb: Callback)
    requires BlocksOk(setup, cb.blocks) && AnyThrows(setup, cb.blocks)
    ensures RunOk(setup, [cb]) && AfterRun(setup, stacks, s, [cb]).delivered == s.delivered
  {
    hide BlocksOk;
    hide AnyThrows;
    CollectIs(setup, s.pending.tgv, cb.blocks);
    assert Init([cb]) == [];
  }
}
