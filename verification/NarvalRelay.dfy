/** The Narval actor: messages are packed into output blocks, and one that does not fit waits for the next. */
module NarvalRelay {
  import opened Basics
  import opened Words
  import opened Messages

  datatype State = State(pending: Option<Message>, incoming: Incoming)

  // Everything not yet sent on, in order.
  function Waiting(s: State): seq<Message> {
    ArrivedNow(s.pending) + Arrived(s.incoming)
  }

  // ---------- one block ----------

  datatype Block = Block(state: State, sent: seq<Message>)

  function Fill(m: Message, incoming: Incoming, size: nat, sent: seq<Message>): Block
    decreases |incoming|
  {
    if |Bytes(sent)| + |m| > size then Block(State(Some(m), incoming), sent)
    else if incoming == [] then Block(State(None, []), sent + [m])
    else if incoming[0].None? then Block(State(None, incoming[1..]), sent + [m])
    else Fill(incoming[0].value, incoming[1..], size, sent + [m])
  }

  function NextBlock(s: State, size: nat): Block {
    match s.pending
    case Some(m) => Fill(m, s.incoming, size, [])
    case None =>
      if s.incoming == [] then Block(s, [])
      else if s.incoming[0].None? then Block(State(None, s.incoming[1..]), [])
      else Fill(s.incoming[0].value, s.incoming[1..], size, [])
  }

  class NarvalReceiver {
    var event: Message
    var sendLastEvent: bool
    var incoming: Incoming

    function Value(): State
      reads this
    {
      State(if sendLastEvent then Some(event) else None, incoming)
    }

    constructor (incoming: Incoming)
      ensures Value() == State(None, incoming)
    {
      this.incoming := incoming;
      event := [];
      sendLastEvent := false;
    }

    method Receive() returns (ok: bool)
      modifies this`event, this`incoming
      ensures ok <==> old(incoming) != [] && old(incoming)[0].Some?
      ensures incoming == if old(incoming) == [] then [] else old(incoming)[1..]
      ensures ok ==> event == old(incoming)[0].value
    {
      ok := false;
      if incoming != [] {
        if incoming[0].Some? {
          event := incoming[0].value;
          ok := true;
        }
        incoming := incoming[1..];
      }
    }

    method CopyEvent(outputBuffer: array<u8>, used: nat)
      requires used + |event| <= outputBuffer.Length
      modifies outputBuffer
      ensures forall i :: 0 <= i < outputBuffer.Length ==>
                            outputBuffer[i]
                            == if used <= i < used + |event| then event[i - used] else old(outputBuffer[i])
    {
      forall i | 0 <= i < |event| {
        outputBuffer[used + i] := event[i];
      }
    }

    // The block holds whole messages, in order, within its size; the loop ends on any finite input.
    method ProcessBlock(outputBuffer: array<u8>, sizeOfOutputBuffer: nat) returns (used: nat)
      requires sizeOfOutputBuffer <= outputBuffer.Length
      modifies this, outputBuffer
      ensures var b := NextBlock(old(Value()), sizeOfOutputBuffer);
              && Value() == b.state
              && used <= sizeOfOutputBuffer
              && outputBuffer[..used] == Bytes(b.sent)
      ensures forall i :: used <= i < outputBuffer.Length ==> outputBuffer[i] == old(outputBuffer[i])
    {
      hide Bytes;
      hide Fill;
      used := 0;
      BytesOfNone();
      if !sendLastEvent {
        var ok := Receive();
        if !ok { return; }
      }
      sendLastEvent := false;
      ghost var sent: seq<Message> := [];
      ghost var block := NextBlock(old(Value()), sizeOfOutputBuffer);
      while true
        invariant !sendLastEvent && used <= sizeOfOutputBuffer
        invariant outputBuffer[..used] == Bytes(sent)
        invariant forall i :: used <= i < outputBuffer.Length ==> outputBuffer[i] == old(outputBuffer[i])
        invariant Fill(event, incoming, sizeOfOutputBuffer, sent) == block
        decreases |incoming|
      {
        assert used == |Bytes(sent)|;
        if used + |event| > sizeOfOutputBuffer {
          FillFull(event, incoming, sizeOfOutputBuffer, sent);
          sendLastEvent := true;
          break;
        }
        ghost var before := outputBuffer[..used];
        FillNext(event, incoming, sizeOfOutputBuffer, sent);
        CopyEvent(outputBuffer, used);
        assert outputBuffer[..used] == before;
        assert outputBuffer[used..used + |event|] == event;
        assert outputBuffer[..used + |event|] == outputBuffer[..used] + outputBuffer[used..used + |event|];
        BytesAppend(sent, event);
        used := used + |event|;
        sent := sent + [event];
        var ok := Receive();
        if !ok { return; }
      }
    }
  }

  lemma FillFull(m: Message, incoming: Incoming, size: nat, sent: seq<Message>)
    requires |Bytes(sent)| + |m| > size
    ensures Fill(m, incoming, size, sent) == Block(State(Some(m), incoming), sent)
  {
  }

  lemma FillNext(m: Message, incoming: Incoming, size: nat, sent: seq<Message>)
    requires |Bytes(sent)| + |m| <= size
    ensures Fill(m, incoming, size, sent)
            == if incoming == [] then Block(State(None, []), sent + [m])
               else if incoming[0].None? then Block(State(None, incoming[1..]), sent + [m])
               else Fill(incoming[0].value, incoming[1..], size, sent + [m])
  {
  }

  // ---------- what a block does ----------

  predicate Sound(s: State, size: nat, sent: seq<Message>, b: Block) {
    && b.sent + Waiting(b.state) == sent + Waiting(s)
    && (|Bytes(sent)| <= size ==> |Bytes(b.sent)| <= size)
    && (b.state.pending.Some? ==> |Bytes(b.sent)| + |b.state.pending.value| > size)
    && Received(s, b)
  }

  // Receiving stops at the first timeout; before that, when the message received last does not fit, or
  // when there is no more.
  predicate Received(s: State, b: Block) {
    var n := |s.incoming| - |b.state.incoming|;
    && n >= 0 && s.incoming[n..] == b.state.incoming
    && (forall i :: 0 <= i < n - 1 ==> s.incoming[i].Some?)
    && if b.state.pending.Some? then n > 0 ==> s.incoming[n - 1].Some?
       else b.state.incoming == [] || (n > 0 && s.incoming[n - 1].None?)
  }

  lemma {:induction false} FillIsSound(m: Message, incoming: Incoming, size: nat, sent: seq<Message>)
    ensures Sound(State(Some(m), incoming), size, sent, Fill(m, incoming, size, sent))
    decreases |incoming|
  {
    hide Bytes;
    hide Arrived;
    if |Bytes(sent)| + |m| > size {
    } else {
      BytesAppend(sent, m);
      if incoming == [] {
        NothingArrived();
      } else {
        ArrivedHead(incoming);
        if incoming[0].Some? {
          FillIsSound(incoming[0].value, incoming[1..], size, sent + [m]);
          ConcatAssociates(sent, [m], ArrivedNow(incoming[0]) + Arrived(incoming[1..]));
        } else {
          ConcatAssociates(sent, [m], Arrived(incoming[1..]));
        }
      }
    }
  }

  // Nothing is lost, repeated or reordered; a block never exceeds its size. It ends when the next message
  // does not fit, which then waits, or with the first receive call that gives nothing: the one timeout
  // among the results used is the last of them.
  lemma NextBlockIsSound(s: State, size: nat)
    ensures Sound(s, size, [], NextBlock(s, size))
    ensures var b := NextBlock(s, size);
            var n := |s.incoming| - |b.state.incoming|;
            && b.sent + Waiting(b.state) == Waiting(s)
            && |Bytes(b.sent)| <= size
            && n >= 0 && s.incoming[n..] == b.state.incoming
            && (forall i :: 0 <= i < n - 1 ==> s.incoming[i].Some?)
            && match b.state.pending
               case Some(m) => |Bytes(b.sent)| + |m| > size && (n > 0 ==> s.incoming[n - 1].Some?)
               case None => b.state.incoming == [] || (n > 0 && s.incoming[n - 1].None?)
  {
    hide Bytes;
    hide Arrived;
    hide Fill;
    BytesOfNone();
    match s.pending
    case Some(m) => FillIsSound(m, s.incoming, size, []);
    case None =>
      if s.incoming != [] {
        ArrivedHead(s.incoming);
        if s.incoming[0].Some? {
          FillIsSound(s.incoming[0].value, s.incoming[1..], size, []);
        }
      }
  }

  // ---------- runs of blocks ----------

  datatype Blocks = Blocks(state: State, outputs: seq<seq<Message>>)

  function NextBlocks(s: State, sizes: seq<nat>): Blocks {
    if sizes == [] then Blocks(s, [])
    else
      var before := NextBlocks(s, Init(sizes));
      var b := NextBlock(before.state, Last(sizes));
      Blocks(b.state, before.outputs + [b.sent])
  }

  // Conservation over any run with any output sizes: what was sent, then what is pending, then what
  // has not been received yet, is everything there was.
  lemma {:induction false} RelayConservation(s: State, sizes: seq<nat>)
    ensures var run := NextBlocks(s, sizes);
            && Flatten(run.outputs) + Waiting(run.state) == Waiting(s)
            && |run.outputs| == |sizes|
            && (forall k :: 0 <= k < |sizes| ==> |Bytes(run.outputs[k])| <= sizes[k])
  {
    hide Bytes;
    hide Waiting;
    hide NextBlock;
    if sizes == [] {
    } else {
      var before := NextBlocks(s, Init(sizes));
      var b := NextBlock(before.state, Last(sizes));
      RelayConservation(s, Init(sizes));
      NextBlockIsSound(before.state, Last(sizes));
      BytesOfNone();
      FlattenAppend(before.outputs, b.sent);
      ConcatAssociates(Flatten(before.outputs), b.sent, Waiting(b.state));
    }
  }

  // A pending message is sent with the next block exactly when it fits; while it does not, nothing moves.
  lemma PendingIsSentIffItFits(s: State, size: nat)
    requires s.pending.Some?
    ensures NextBlock(s, size).sent != [] <==> |s.pending.value| <= size
    ensures |s.pending.value| > size ==> NextBlock(s, size) == Block(s, [])
  {
    hide Bytes;
    BytesOfNone();
    FillExtends(s.pending.value, s.incoming, size, []);
  }

  // However often it is tried.
  lemma {:induction false} TooLargeBlocksTheRelay(s: State, sizes: seq<nat>)
    requires s.pending.Some? && forall k :: 0 <= k < |sizes| ==> sizes[k] < |s.pending.value|
    ensures NextBlocks(s, sizes).state == s && Flatten(NextBlocks(s, sizes).outputs) == []
  {
    hide NextBlock;
    if sizes == [] {
    } else {
      TooLargeBlocksTheRelay(s, Init(sizes));
      assert Last(sizes) == sizes[|sizes| - 1];
      PendingIsSentIffItFits(s, Last(sizes));
      FlattenAppend(NextBlocks(s, Init(sizes)).outputs, []);
    }
  }

  lemma {:induction false} FillExtends(m: Message, incoming: Incoming, size: nat, sent: seq<Message>)
    ensures |Fill(m, incoming, size, sent).sent| >= |sent|
    ensures |Bytes(sent)| + |m| <= size ==> |Fill(m, incoming, size, sent).sent| > |sent|
    ensures |Bytes(sent)| + |m| <= size ==> Load(Fill(m, incoming, size, sent).state) <= |incoming|
    decreases |incoming|
  {
    hide Bytes;
    if |Bytes(sent)| + |m| > size || incoming == [] || incoming[0].None? {
    } else {
      FillExtends(incoming[0].value, incoming[1..], size, sent + [m]);
    }
  }

  function Load(s: State): nat { |s.incoming| + if s.pending.Some? then 1 else 0 }

  predicate AllFit(s: State, size: nat) {
    forall m :: m in Waiting(s) ==> |m| <= size
  }

  lemma BlockLightens(s: State, size: nat)
    requires AllFit(s, size)
    ensures Load(NextBlock(s, size).state) < Load(s) || Load(NextBlock(s, size).state) == 0
    ensures AllFit(NextBlock(s, size).state, size)
  {
    hide Bytes;
    hide Arrived;
    BytesOfNone();
    NextBlockIsSound(s, size);
    var b := NextBlock(s, size);
    assert b.sent + Waiting(b.state) == Waiting(s);
    assert forall m :: m in Waiting(b.state) ==> m in b.sent + Waiting(b.state);
    match s.pending
    case Some(m) =>
      assert m in Waiting(s);
      FillExtends(m, s.incoming, size, []);
    case None =>
      if s.incoming != [] && s.incoming[0].Some? {
        ArrivedHead(s.incoming);
        assert s.incoming[0].value in ArrivedNow(s.incoming[0]);
        assert s.incoming[0].value in Waiting(s);
        FillExtends(s.incoming[0].value, s.incoming[1..], size, []);
      }
  }

  function Repeat(size: nat, n: nat): seq<nat> {
    if n == 0 then [] else Repeat(size, n - 1) + [size]
  }

  lemma {:induction false} LoadSinks(s: State, size: nat, n: nat)
    requires AllFit(s, size)
    ensures var end := NextBlocks(s, Repeat(size, n)).state;
            AllFit(end, size) && (Load(end) <= Load(s) - n || Load(end) == 0)
  {
    hide AllFit;
    hide NextBlock;
    if n == 0 {
    } else {
      LoadSinks(s, size, n - 1);
      assert Init(Repeat(size, n)) == Repeat(size, n - 1) && Last(Repeat(size, n)) == size;
      BlockLightens(NextBlocks(s, Repeat(size, n - 1)).state, size);
    }
  }

  // The relay drains: when every message fits the output, as many blocks as there are receive results
  // and pending messages send everything on.
  lemma RelayDrains(s: State, size: nat, n: nat)
    requires AllFit(s, size) && n >= Load(s)
    ensures var run := NextBlocks(s, Repeat(size, n));
            Flatten(run.outputs) == Waiting(s) && run.state == State(None, [])
  {
    hide AllFit;
    hide NextBlock;
    hide NextBlocks;
    hide Waiting;
    LoadSinks(s, size, n);
    var run := NextBlocks(s, Repeat(size, n));
    RelayConservation(s, Repeat(size, n));
    NothingWaits(run.state);
    assert Flatten(run.outputs) + [] == Flatten(run.outputs);
  }

  // A message that is sent lies in one of the outputs, so it was no larger than that output.
  lemma {:induction false} SentFits(outputs: seq<seq<Message>>, size: nat, m: Message)
    requires forall k :: 0 <= k < |outputs| ==> |Bytes(outputs[k])| <= size
    requires m in Flatten(outputs)
    ensures |m| <= size
  {
    hide Bytes;
    if outputs == [] {
    } else {
      assert outputs == Init(outputs) + [Last(outputs)];
      FlattenAppend(Init(outputs), Last(outputs));
      if m in Last(outputs) {
        PartOfBytes(Last(outputs), m);
      } else {
        SentFits(Init(outputs), size, m);
      }
    }
  }

  lemma {:induction false} PartOfBytes(messages: seq<Message>, m: Message)
    requires m in messages
    ensures |m| <= |Bytes(messages)|
  {
    hide Bytes;
    assert messages == Init(messages) + [Last(messages)];
    BytesAppend(Init(messages), Last(messages));
    if m == Last(messages) {
    } else {
      PartOfBytes(Init(messages), m);
    }
  }

  lemma RepeatIsConstant(size: nat, n: nat)
    ensures |Repeat(size, n)| == n && forall k :: 0 <= k < n ==> Repeat(size, n)[k] == size
  {
  }

  // With enough blocks of one size, the relay drains exactly when every message fits that size.
  lemma RelayDrainsIffAllFit(s: State, size: nat, n: nat)
    requires n >= |s.incoming| + if s.pending.Some? then 1 else 0
    ensures NextBlocks(s, Repeat(size, n)).state == State(None, []) <==> forall m :: m in Waiting(s) ==> |m| <= size
  {
    hide NextBlocks;
    hide Bytes;
    var run := NextBlocks(s, Repeat(size, n));
    RelayConservation(s, Repeat(size, n));
    RepeatIsConstant(size, n);
    if AllFit(s, size) {
      RelayDrains(s, size, n);
    }
    if run.state == State(None, []) {
      NothingWaits(run.state);
      assert Flatten(run.outputs) == Waiting(s);
      forall m | m in Waiting(s)
        ensures |m| <= size
      {
        SentFits(run.outputs, size, m);
      }
    }
  }

  lemma NothingWaits(s: State)
    requires Load(s) == 0
    ensures Waiting(s) == [] && s == State(None, [])
  {
  }
}
