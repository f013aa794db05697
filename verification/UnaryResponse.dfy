/** Client.handleUnaryResponse: collecting the one response of a unary call from the
    events of its call stream. */
module UnaryResponse {
  import opened CallStatus
  import opened Options

  const TOO_MANY := Status(13, "Too many responses received")
  const UNPARSABLE := Status(13, "Failed to parse server response")
  const NOT_ENOUGH := Status(13, "Not enough responses received")

  /** What deserialize makes of a message: a value, null or undefined, or an exception. */
  datatype Parse<V> = Value(value: V) | Null | Exception

  datatype Event<V> = Data(parse: Parse<V>) | End | ReachedEndCall(status: Status)

  datatype Callback<V> = Success(response: Option<V>) | Failure(status: Status)

  // ---- what a sequence of events comes to ----

  /** The message that is there after the events: that of the last successful parse. */
  function Collected<V>(events: seq<Event<V>>): (r: Option<V>)
  {
    if events == [] then None
    else
      match events[|events| - 1]
      case Data(Value(v)) => Some(v)
      case Data(Null) => None
      case _ => Collected(events[..|events| - 1])
  }

  /** What an event calls for when the given message is there. */
  function CallsFor<V>(e: Event<V>, message: Option<V>): (r: Option<Callback<V>>)
  {
    match e
    case Data(parse) =>
      if message.Some? then Some(Failure(TOO_MANY))
      else if parse.Exception? then Some(Failure(UNPARSABLE))
      else None
    case End => if message.None? then Some(Failure(NOT_ENOUGH)) else None
    case ReachedEndCall(status) => Some(if status.code == 0 then Success(message) else Failure(status))
  }

  /** The first event that calls for anything decides. */
  function Decision<V>(events: seq<Event<V>>): (r: Option<Callback<V>>)
  {
    if events == [] then None
    else
      var init := events[..|events| - 1];
      if Decision(init).Some? then Decision(init)
      else CallsFor(events[|events| - 1], Collected(init))
  }

  /** The handlers' shared state and the user's callback. */
  class UnaryHandler<V> {
    var responseMessage: Option<V>
    var ended: bool  // the call has its final status
    ghost var callbacks: seq<Callback<V>>
    ghost var events: seq<Event<V>>

    /** The callback has run once if the call has ended, and not otherwise. */
    ghost predicate Valid()
      reads this
    {
      && ended == (callbacks != [])
      && responseMessage == Collected(events)
      && callbacks == if Decision(events).Some? then [Decision(events).value] else []
    }

    constructor ()
      ensures Valid() && events == []
    {
      responseMessage, ended, callbacks, events := None, false, [], [];
    }

    /** endCall, 'status' listener included. */
    method Finish(status: Status)
      modifies this`ended, this`callbacks
      ensures ended
      ensures callbacks ==
        if old(ended) then old(callbacks)
        else old(callbacks) + [if status.code == 0 then Success(responseMessage) else Failure(status)]
    {
      if !ended {
        ended := true;
        callbacks := callbacks + [if status.code == 0 then Success(responseMessage) else Failure(status)];
      }
    }

    method Handle(e: Event<V>)
      requires Valid()
      modifies this
      ensures Valid() && events == old(events) + [e]
    {
      events := events + [e];
      assert events[..|events| - 1] == old(events);
      match e
      case Data(parse) =>
        if responseMessage.Some? { Finish(TOO_MANY); }
        match parse {
          case Value(v) => responseMessage := Some(v);
          case Null => responseMessage := None;
          case Exception => Finish(UNPARSABLE);
        }
      case End => if responseMessage.None? { Finish(NOT_ENOUGH); }
      case ReachedEndCall(status) => Finish(status);
    }
  }

  // ---- what a run gives ----

  function DataEvents<V>(parses: seq<Parse<V>>): (r: seq<Event<V>>)
    ensures |r| == |parses|
    ensures forall i :: 0 <= i < |r| ==> r[i] == Data(parses[i])
  {
    seq(|parses|, i requires 0 <= i < |parses| => Data(parses[i]))
  }

  /** No exception, and nothing but null before the last message. */
  predicate Clean<V>(parses: seq<Parse<V>>)
  {
    && (forall i :: 0 <= i < |parses| - 1 ==> parses[i].Null?)
    && (parses != [] ==> !parses[|parses| - 1].Exception?)
  }

  /** What is wrong with the first message that should not be there. */
  function Complaint<V>(parses: seq<Parse<V>>): (r: Status)
    requires !Clean(parses)
  {
    var n := |parses| - 1;
    if !Clean(parses[..n]) then Complaint(parses[..n])
    else if n > 0 && parses[n - 1].Value? then TOO_MANY
    else UNPARSABLE
  }

  /** The one value among the messages, if they are in order. */
  function Response<V>(parses: seq<Parse<V>>): (r: Option<V>)
  {
    if parses != [] && parses[|parses| - 1].Value? then Some(parses[|parses| - 1].value) else None
  }

  /** What the callback is due when the given status follows the messages, with or without
      the end in between. */
  function Verdict<V>(parses: seq<Parse<V>>, ended: bool, status: Status): (r: Callback<V>)
  {
    if !Clean(parses) then Failure(Complaint(parses))
    else if ended && Response(parses).None? then Failure(NOT_ENOUGH)
    else if status.code != 0 then Failure(status)
    else Success(Response(parses))
  }

  lemma {:induction false} AfterData<V>(parses: seq<Parse<V>>)
    ensures Clean(parses) ==> Collected(DataEvents(parses)) == Response(parses)
    ensures Decision(DataEvents(parses)) == if Clean(parses) then None else Some(Failure(Complaint(parses)))
  {
    if parses == [] {
    } else {
      var n := |parses| - 1;
      AfterData(parses[..n]);
      assert DataEvents(parses)[..n] == DataEvents(parses[..n]);
      assert parses == parses[..n] + [parses[n]];
      if Clean(parses[..n]) && n > 0 && parses[n - 1].Null? {
        assert Clean(parses) <==> !parses[n].Exception?;
      }
    }
  }

  lemma {:induction false} DecidedStays<V>(events: seq<Event<V>>, more: seq<Event<V>>)
    requires Decision(events).Some?
    ensures Decision(events + more) == Decision(events)
    decreases |more|
  {
    if more == [] {
      assert events + more == events;
    } else {
      var n := |more| - 1;
      assert (events + more)[..|events| + n] == events + more[..n];
      DecidedStays(events, more[..n]);
    }
  }

  /** If the status reaches endCall after the messages and the end, the callback gets the
      verdict and succeeds exactly when the messages were nulls and then one value, and the
      status is OK; nothing later changes it. */
  lemma StatusAfterEnd<V>(parses: seq<Parse<V>>, status: Status, later: seq<Event<V>>)
    ensures var callback := Decision(DataEvents(parses) + [End, ReachedEndCall(status)] + later);
      && callback == Some(Verdict(parses, true, status))
      && (callback.value.Success? <==>
          Clean(parses) && parses != [] && parses[|parses| - 1].Value? && status.code == 0)
  {
    var data := DataEvents(parses);
    AfterData(parses);
    var run := data + [End, ReachedEndCall(status)];
    assert (data + [End])[..|data|] == data;
    assert run[..|data| + 1] == data + [End];
    DecidedStays(run, later);
  }

  /** So with a deserializer that never yields null, success means exactly one message. */
  lemma ExactlyOneMessage<V>(parses: seq<Parse<V>>, status: Status, later: seq<Event<V>>)
    requires forall i :: 0 <= i < |parses| ==> !parses[i].Null?
    ensures var callback := Decision(DataEvents(parses) + [End, ReachedEndCall(status)] + later);
      && callback.Some? && (callback.value.Success? <==> |parses| == 1 && parses[0].Value? && status.code == 0)
      && (|parses| == 1 && parses[0].Value? ==>
            callback.value == if status.code == 0 then Success(Some(parses[0].value)) else Failure(status))
  {
    StatusAfterEnd(parses, status, later);
    assert |parses| >= 2 ==> !parses[0].Null?;
  }

  /** A deserializer that yields null breaks it: two messages, and success. */
  lemma NullThenValue<V>(v: V)
    ensures Decision(DataEvents([Null, Value(v)]) + [End, ReachedEndCall(Status(0, "OK"))] + [])
         == Some(Success(Some(v)))
  {
    StatusAfterEnd([Null, Value(v)], Status(0, "OK"), []);
  }

  /** What the first events decide stays, whatever else comes. */
  lemma DecidedByData<V>(first: seq<Parse<V>>, more: seq<Parse<V>>, rest: seq<Event<V>>)
    requires Decision(DataEvents(first)).Some?
    ensures Decision(DataEvents(first + more) + rest) == Decision(DataEvents(first))
  {
    DecidedStays(DataEvents(first), DataEvents(more) + rest);
    assert DataEvents(first + more) + rest == DataEvents(first) + (DataEvents(more) + rest);
  }

  /** The failures by value: the first message too many, the first that does not parse, or
      none at all decides. */
  lemma FailuresMean<V>(v: V, parse: Parse<V>, more: seq<Parse<V>>, rest: seq<Event<V>>)
    ensures Decision(DataEvents([Value(v), parse] + more) + rest)
         == Some(Failure(Status(13, "Too many responses received")))
    ensures Decision(DataEvents([Exception] + more) + rest)
         == Some(Failure(Status(13, "Failed to parse server response")))
    ensures Decision([End] + rest) == Some(Failure(Status(13, "Not enough responses received")))
  {
    var many := [Value(v), parse];
    var bad: seq<Parse<V>> := [Exception];
    var none: seq<Event<V>> := [End];
    assert many[..1] == [Value(v)] && bad[..0] == [] && none[..0] == [];
    AfterData(many);
    AfterData(bad);
    assert !Clean(many) by { assert !many[0].Null?; }
    assert !Clean(bad);
    assert Decision(none) == Some(Failure(NOT_ENOUGH));
    hide Decision, DataEvents;
    DecidedByData(many, more, rest);
    DecidedByData(bad, more, rest);
    DecidedStays(none, rest);
  }

  /** If the status comes before the end, the lack of a message goes unnoticed: the callback
      succeeds exactly when nothing was wrong so far and the status is OK, with whatever is
      there, even nothing. */
  lemma StatusFirst<V>(parses: seq<Parse<V>>, status: Status, later: seq<Event<V>>)
    ensures var callback := Decision(DataEvents(parses) + [ReachedEndCall(status)] + later);
      && callback == Some(Verdict(parses, false, status))
      && (callback.value.Success? <==> Clean(parses) && status.code == 0)
      && (parses == [] ==> callback.value == if status.code == 0 then Success(None) else Failure(status))
  {
    var data := DataEvents(parses);
    AfterData(parses);
    var run := data + [ReachedEndCall(status)];
    assert run[..|data|] == data;
    DecidedStays(run, later);
  }
}
