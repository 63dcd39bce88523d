/** Messages, as the relays receive them and send them on. */
module Messages {
  import opened Basics
  import opened Words

  type Message = seq<u8>

  // What successive receive calls will give: a message, or nothing in time. Past the end, nothing.
  type Incoming = seq<Option<Message>>

  function ArrivedNow(m: Option<Message>): seq<Message> {
    match m
    case None => []
    case Some(m) => [m]
  }

  // The messages in a list of receive results.
  function Arrived(incoming: Incoming): seq<Message> {
    FlatMap(ArrivedNow, incoming)
  }

  function Bytes(messages: seq<Message>): seq<u8> { Flatten(messages) }

  lemma BytesOfNone()
    ensures Bytes([]) == []
  {
  }

  lemma BytesAppend(messages: seq<Message>, m: Message)
    ensures Bytes(messages + [m]) == Bytes(messages) + m
  {
    FlattenAppend(messages, m);
  }

  lemma BytesConcat(a: seq<Message>, b: seq<Message>)
    ensures Bytes(a + b) == Bytes(a) + Bytes(b)
  {
    FlattenConcat(a, b);
  }

  lemma NothingArrived()
    ensures Arrived([]) == []
  {
  }

  lemma ArrivedHead(incoming: Incoming)
    requires incoming != []
    ensures Arrived(incoming) == ArrivedNow(incoming[0]) + Arrived(incoming[1..])
  {
    assert incoming == [incoming[0]] + incoming[1..];
    FlatMapConcat(ArrivedNow, [incoming[0]], incoming[1..]);
    FlatMapOne(ArrivedNow, incoming[0]);
  }

  lemma ArrivedNext(incoming: Incoming, i: nat)
    requires i < |incoming|
    ensures Arrived(incoming[..i + 1]) == Arrived(incoming[..i]) + ArrivedNow(incoming[i])
    ensures incoming[i].Some? ==>
              && Arrived(incoming[..i + 1]) == Arrived(incoming[..i]) + [incoming[i].value]
              && incoming[i].value in Arrived(incoming)
              && Init(Arrived(incoming[..i + 1])) == Arrived(incoming[..i])
    ensures incoming[i].None? ==> Arrived(incoming[..i + 1]) == Arrived(incoming[..i])
  {
    FlatMapPrefix(ArrivedNow, incoming, i);
    assert incoming == incoming[..i + 1] + incoming[i + 1..];
    FlatMapConcat(ArrivedNow, incoming[..i + 1], incoming[i + 1..]);
    if incoming[i].Some? {
      var front := Arrived(incoming[..i + 1]);
      assert front[|front| - 1] == incoming[i].value && front[|front| - 1] in front;
    }
  }
}
