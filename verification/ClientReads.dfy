/** The client's readable streams: the chain of RECV_MESSAGE batches, the end of reading,
    and the reconciliation of the reader's own status with the one the server sent. */
module ClientReads {
  import opened CallStatus
  import opened Options

  const OK_STATUS := Status(0, "OK")
  const PARSE_FAILURE := Status(13, "Failed to parse server response")

  /** How a RECV_MESSAGE batch came back, after deserialization; Null is a message that the
      deserializer turned into null. */
  datatype ReadResult<V> = Failed | EndOfStream | Unparsable | Null | Value(value: V)

  /** What the stream object does to the outside. BatchError is the 'error' event for a
      status batch that failed. */
  datatype Output<V> =
    | StartRead | PushValue(value: V) | PushEnd | BatchError
    | Cancel(status: Status) | EmitError(status: Status) | EmitStatus(status: Status)

  /** How the outside answers. The consumer answers a push by any number of _read calls and
      then true or false. Listeners of 'error' make _read calls too, and the emission may
      throw, as it does without a listener; `later` are the _read calls of listeners of
      'status'. */
  datatype Reaction =
    Reaction(rereads: seq<ReadAnswer>, more: bool, throws: bool, later: seq<ReadAnswer>)

  /** What one _read call runs into: whether startBatch finds the call already released
      (and then fails its callback at once), and how the pushes it causes are answered. */
  datatype ReadAnswer = ReadAnswer(released: bool, onEnd: Reaction)

  datatype Event<V> =
    | ReadCalled(answer: ReadAnswer)
    | ReadCompleted(result: ReadResult<V>, onPush: Reaction, next: ReadAnswer)
    | StatusReceived(status: Status, onEmit: Reaction)
    | StatusFailed

  // ---- what the outputs must be, given what came in ----

  /** After this result no more is read. */
  predicate Terminal<V>(result: ReadResult<V>)
  {
    result.Failed? || result.EndOfStream? || result.Unparsable?
  }

  predicate Over<V>(results: seq<ReadResult<V>>)
  {
    results != [] && Terminal(results[|results| - 1])
  }

  /** The values received before the first failure, end or parse failure. */
  function Prefix<V>(results: seq<ReadResult<V>>): (r: seq<V>)
  {
    if results == [] || Terminal(results[0]) then []
    else (if results[0].Value? then [results[0].value] else []) + Prefix(results[1..])
  }

  /** The status the reader itself arrives at: OK unless a message could not be parsed. */
  function ReadStatus<V>(results: seq<ReadResult<V>>): (r: Option<Status>)
  {
    if !Over(results) then None
    else if results[|results| - 1].Unparsable? then Some(PARSE_FAILURE)
    else Some(OK_STATUS)
  }

  /** The reader's failure overrides the server's word. */
  function Reconcile(read: Status, received: Status): (r: Status)
  {
    if read.code != 0 then read else received
  }

  /** The events for a final status: an error before it unless it is OK, and nothing more
      if that emission throws. */
  function Emissions<V>(status: Status, throws: bool): (r: seq<Output<V>>)
  {
    if status.code == 0 then [EmitStatus(status)]
    else if throws then [EmitError(status)]
    else [EmitError(status), EmitStatus(status)]
  }

  /** Everything about the final status: at most one cancellation, then its events. */
  function Signals<V>(results: seq<ReadResult<V>>, received: Option<Status>, throws: bool): (r: seq<Output<V>>)
  {
    var read := ReadStatus(results);
    (if read == Some(PARSE_FAILURE) then [Cancel(PARSE_FAILURE)] else []) +
    if read.Some? && received.Some? then Emissions(Reconcile(read.value, received.value), throws) else []
  }

  /** A status is emitted if and only if reading is over, the server's status is there, and
      emitting the error did not throw if the status is one. */
  lemma StatusEmitted<V>(results: seq<ReadResult<V>>, received: Option<Status>, throws: bool)
    ensures (exists s :: EmitStatus(s) in Signals(results, received, throws)) <==>
      && Over(results) && received.Some?
      && (throws ==> ReadStatus(results).value.code == 0 && received.value.code == 0)
  {
    var signals := Signals(results, received, throws);
    if Over(results) && received.Some? {
      var status := Reconcile(ReadStatus(results).value, received.value);
      if throws && status.code != 0 {
        assert forall i :: 0 <= i < |signals| ==> !signals[i].EmitStatus?;
      } else {
        assert signals[|signals| - 1] == EmitStatus(status);
      }
    }
  }

  /** The status that the given results and server's status come to: a message that could
      not be parsed overrides whatever the server says, and nothing else does. */
  ghost predicate IsFinalStatus<V>(results: seq<ReadResult<V>>, received: Option<Status>, s: Status)
  {
    && results != [] && received.Some?
    && match results[|results| - 1]
       case Unparsable => s == Status(13, "Failed to parse server response")
       case Failed | EndOfStream => s == received.value
       case _ => false
  }

  /** Which signals there are, in terms of that status: it is the one emitted, an error goes
      before it if and only if its code is not 0, and the call is cancelled first if and
      only if a message could not be parsed. */
  lemma SignalsMean<V>(results: seq<ReadResult<V>>, received: Option<Status>, throws: bool)
    ensures var signals := Signals(results, received, throws);
      && (forall s :: EmitStatus(s) in signals ==> IsFinalStatus(results, received, s))
      && (forall s :: EmitError(s) in signals <==> IsFinalStatus(results, received, s) && s.code != 0)
      && (forall s :: Cancel(s) in signals <==>
            results != [] && results[|results| - 1].Unparsable? && s == Status(13, "Failed to parse server response"))
      && (forall i, j :: 0 <= i < j < |signals| ==> !signals[j].Cancel? && !signals[i].EmitStatus?)
  {
    var signals := Signals(results, received, throws);
    if Over(results) && received.Some? {
      var status := Reconcile(ReadStatus(results).value, received.value);
      assert IsFinalStatus(results, received, status);
      var k := if ReadStatus(results) == Some(PARSE_FAILURE) then 1 else 0;
      assert status.code != 0 ==> signals[k] == EmitError(status);
      assert k == 1 ==> signals[0] == Cancel(PARSE_FAILURE);
    } else if Over(results) && results[|results| - 1].Unparsable? {
      assert signals[0] == Cancel(PARSE_FAILURE);
    }
  }

  function Valued<V>(values: seq<V>): (r: seq<ReadResult<V>>)
    ensures |r| == |values|
    ensures forall i :: 0 <= i < |r| ==> r[i] == Value(values[i])
  {
    seq(|values|, i requires 0 <= i < |values| => Value(values[i]))
  }

  /** The prefix is every value up to the first failure, end or parse failure; a null message
      is passed over. */
  lemma {:induction false} PrefixMeans<V>(values: seq<V>, stop: ReadResult<V>, rest: seq<ReadResult<V>>)
    ensures Prefix([Null] + rest) == Prefix(rest)
    ensures stop in {Failed, EndOfStream, Unparsable} ==> Prefix(Valued(values) + [stop] + rest) == values
  {
    assert ([Null] + rest)[1..] == rest;
    var all := Valued(values) + [stop] + rest;
    if values == [] {
      assert all == [stop] + rest;
    } else {
      PrefixMeans(values[1..], stop, rest);
      assert all[1..] == Valued(values[1..]) + [stop] + rest;
    }
  }

  /** So after a message that became null there is none, until another read comes back. */
  lemma NullSilences<V>(results: seq<ReadResult<V>>, received: Option<Status>, throws: bool)
    ensures Signals(results + [Null], received, throws) == []
  {}

  /** Whether emitting 'error' throws when the given statuses meet: there is something to
      emit, it is an error, and the outside throws. */
  predicate EmissionThrows(read: Status, received: Option<Status>, r: Reaction)
  {
    received.Some? && Reconcile(read, received.value).code != 0 && r.throws
  }

  /** Some reaction of the event throws. */
  predicate MayThrow<V>(e: Event<V>)
  {
    match e
    case ReadCalled(a) => a.released && a.onEnd.throws
    case ReadCompleted(_, onPush, next) => onPush.throws || (next.released && next.onEnd.throws)
    case StatusReceived(_, onEmit) => onEmit.throws
    case StatusFailed => false
  }

  // ---- projections of the output log ----

  function Pushed<V>(log: seq<Output<V>>): (r: seq<V>)
  {
    if log == [] then []
    else
      var last := log[|log| - 1];
      Pushed(log[..|log| - 1]) + if last.PushValue? then [last.value] else []
  }

  function Signalled<V>(log: seq<Output<V>>): (r: seq<Output<V>>)
  {
    if log == [] then []
    else
      var last := log[|log| - 1];
      Signalled(log[..|log| - 1]) + if last.Cancel? || last.EmitError? || last.EmitStatus? then [last] else []
  }

  function Starts<V>(log: seq<Output<V>>): (n: nat)
  {
    if log == [] then 0
    else Starts(log[..|log| - 1]) + if log[|log| - 1].StartRead? then 1 else 0
  }

  ghost function BatchErrors<V>(log: seq<Output<V>>): (n: nat)
  {
    multiset(log)[BatchError]
  }

  lemma Snoc<V>(log: seq<Output<V>>, e: Output<V>)
    ensures Pushed(log + [e]) == Pushed(log) + if e.PushValue? then [e.value] else []
    ensures Signalled(log + [e]) == Signalled(log) + if e.Cancel? || e.EmitError? || e.EmitStatus? then [e] else []
    ensures Starts(log + [e]) == Starts(log) + if e.StartRead? then 1 else 0
    ensures BatchErrors(log + [e]) == BatchErrors(log) + if e.BatchError? then 1 else 0
  {
    assert (log + [e])[..|log|] == log;
  }

  lemma {:induction false} PrefixSnoc<V>(results: seq<ReadResult<V>>, r: ReadResult<V>)
    requires forall i :: 0 <= i < |results| ==> !Terminal(results[i])
    ensures Prefix(results + [r]) == Prefix(results) + if r.Value? then [r.value] else []
  {
    if results == [] {
      assert [] + [r] == [r];
    } else {
      PrefixSnoc(results[1..], r);
      assert (results + [r])[1..] == results[1..] + [r];
    }
  }

  /** After the final status nothing comes but end markers. */
  ghost predicate QuietAfterStatus<V>(log: seq<Output<V>>)
  {
    forall i, j :: 0 <= i < j < |log| && log[i].EmitStatus? ==> log[j].PushEnd?
  }

  ghost predicate NoStatus<V>(log: seq<Output<V>>)
  {
    forall i :: 0 <= i < |log| ==> !log[i].EmitStatus?
  }

  /** log' is log followed by end markers only. */
  ghost predicate OnlyEndsAdded<V>(log: seq<Output<V>>, log': seq<Output<V>>)
  {
    log <= log' && forall i :: |log| <= i < |log'| ==> log'[i].PushEnd?
  }

  lemma {:induction false} EndsChangeNothing<V>(log: seq<Output<V>>, log': seq<Output<V>>)
    requires OnlyEndsAdded(log, log')
    ensures Pushed(log') == Pushed(log) && Signalled(log') == Signalled(log) && Starts(log') == Starts(log)
    ensures BatchErrors(log') == BatchErrors(log)
    decreases |log'|
  {
    if log' == log {
    } else {
      var init := log'[..|log'| - 1];
      EndsChangeNothing(log, init);
      assert log' == init + [PushEnd];
      Snoc(init, PushEnd);
    }
  }

  class ClientReadableStream<V(==)> {
    var finished: bool
    var reading: bool
    var readStatus: Option<Status>
    var receivedStatus: Option<Status>
    var statusFailed: bool  // the status batch came back with an error

    ghost var log: seq<Output<V>>
    ghost var results: seq<ReadResult<V>>  // every completion of a read so far
    var outstanding: nat                   // RECV_MESSAGE batches in flight
    ghost var threw: bool                  // emitting 'error' for the final status threw
    ghost var history: seq<Event<V>>       // every event so far

    constructor ()
      ensures AtRest() && log == [] && results == [] && history == []
      ensures !reading && receivedStatus == None && !statusFailed && !threw
    {
      finished, reading, readStatus, receivedStatus := false, false, None, None;
      statusFailed, log, results, outstanding, threw, history := false, [], [], 0, false, [];
    }

    /** The fields agree with what came in. */
    ghost predicate Consistent()
      reads this
    {
      && (forall i :: 0 <= i < |results| - 1 ==> !Terminal(results[i]))
      && finished == Over(results)
      && readStatus == ReadStatus(results)
      && Starts(log) == |results| + outstanding
      && (finished ==> reading && outstanding == 0)
      && (threw ==> finished && receivedStatus.Some?)
      && (statusFailed ==> receivedStatus == None)
    }

    /** The outputs are exactly what they must be. */
    ghost predicate OutputsRight()
      reads this
    {
      && Pushed(log) == Prefix(results)
      && Signalled(log) == Signals(results, receivedStatus, threw)
      && BatchErrors(log) == (if statusFailed then 1 else 0)
      && QuietAfterStatus(log)
      && (receivedStatus == None || !finished ==> NoStatus(log))
      // A call that ends well has ended the stream of values.
      && (readStatus.Some? && receivedStatus.Some? && Reconcile(readStatus.value, receivedStatus.value).code == 0 ==>
            PushEnd in log)
    }

    /** Between events; at most one RECV_MESSAGE is ever outstanding. */
    ghost predicate AtRest()
      reads this
    {
      Consistent() && OutputsRight() && outstanding == if reading && !finished then 1 else 0
    }

    twostate predicate OnlyLogChanged()
      reads this
    {
      unchanged(`finished, `reading, `readStatus, `receivedStatus, `statusFailed, `results, `outstanding, `threw)
    }

    /** Readable.push. It is only ever called while reading or after the end, so the _read
        calls nested in it start nothing. */
    method Push(item: Output<V>, r: Reaction) returns (more: bool)
      requires reading || finished
      modifies this
      ensures OnlyLogChanged()
      ensures OnlyEndsAdded(old(log) + [item], log)
      ensures finished && r.rereads != [] ==> OnlyEndsAdded(old(log) + [item] + [PushEnd], log)
      ensures more == r.more
      decreases r, 0
    {
      log := log + [item];
      Reread(r.rereads);
      more := r.more;
    }

    /** _read calls while reading or after the end. */
    method Reread(answers: seq<ReadAnswer>)
      requires reading || finished
      modifies this
      ensures OnlyLogChanged()
      ensures OnlyEndsAdded(old(log), log)
      ensures finished && answers != [] ==> OnlyEndsAdded(old(log) + [PushEnd], log)
      decreases answers, 0
    {
      for i := 0 to |answers|
        invariant OnlyLogChanged()
        invariant OnlyEndsAdded(old(log), log)
        invariant finished && i > 0 ==> OnlyEndsAdded(old(log) + [PushEnd], log)
      {
        Read(answers[i]);
      }
    }

    /** _read. */
    method Read(a: ReadAnswer)
      requires reading || finished || AtRest()
      modifies this
      ensures old(reading || finished) ==>
        && OnlyLogChanged()
        && OnlyEndsAdded(old(log), log)
        && (old(finished) ==> OnlyEndsAdded(old(log) + [PushEnd], log))
      ensures !old(reading || finished) ==>
        && AtRest() && reading && unchanged(`receivedStatus, `statusFailed)
        && Starts(log) == old(Starts(log)) + 1
        && threw == (a.released && EmissionThrows(OK_STATUS, receivedStatus, a.onEnd))
      decreases a, 1
    {
      if finished {
        var _ := Push(PushEnd, a.onEnd);
      } else if !reading {
        reading := true;
        StartBatch(a);
      }
    }

    /** startBatch with RECV_MESSAGE and readCallback. */
    method StartBatch(a: ReadAnswer)
      requires Consistent() && OutputsRight() && reading && !finished && outstanding == 0
      modifies this
      ensures AtRest() && reading && unchanged(`receivedStatus, `statusFailed)
      ensures Starts(log) == old(Starts(log)) + 1
      ensures results == old(results) + if a.released then [Failed] else []
      ensures threw == (a.released && EmissionThrows(OK_STATUS, receivedStatus, a.onEnd))
      decreases a, 0
    {
      hide Pushed, Signalled, Starts, Prefix, BatchErrors, Signals, ReadStatus;
      Snoc(log, StartRead);
      log := log + [StartRead];
      outstanding := 1;
      if a.released {
        ReadFailed(a.onEnd);
      }
    }

    /** readCallback with an error: stop reading and wait for the status. */
    method ReadFailed(r: Reaction)
      requires AtRest() && outstanding == 1
      modifies this
      ensures AtRest() && finished && reading
      ensures results == old(results) + [Failed] && unchanged(`receivedStatus, `statusFailed)
      ensures Starts(log) == old(Starts(log))
      ensures threw == EmissionThrows(OK_STATUS, receivedStatus, r)
      decreases r, 3
    {
      hide Pushed, Signalled, Starts, Prefix, BatchErrors;
      PrefixSnoc(results, Failed);
      results := results + [Failed];
      outstanding := 0;
      finished := true;
      ReadsDone(OK_STATUS, r);
    }

    /** _readsDone, with the status defaulted by its callers. */
    method ReadsDone(status: Status, r: Reaction)
      requires reading && outstanding == 0 && readStatus == None
      requires Over(results) && ReadStatus(results) == Some(status)
      requires forall i :: 0 <= i < |results| - 1 ==> !Terminal(results[i])
      requires Starts(log) == |results| && Pushed(log) == Prefix(results)
      requires Signalled(log) == [] && NoStatus(log) && !threw
      requires BatchErrors(log) == (if statusFailed then 1 else 0) && (statusFailed ==> receivedStatus == None)
      modifies this
      ensures AtRest() && finished && reading
      ensures unchanged(`receivedStatus, `statusFailed, `results) && Starts(log) == old(Starts(log))
      ensures threw == EmissionThrows(status, receivedStatus, r)
      decreases r, 2
    {
      hide Pushed, Signalled, Starts, Prefix, BatchErrors;
      if status.code != 0 {
        Snoc(log, Cancel(status));
        log := log + [Cancel(status)];
      }
      finished := true;
      readStatus := Some(status);
      EmitStatusIfDone(r);
    }

    /** _emitStatusIfDone. */
    method EmitStatusIfDone(r: Reaction)
      requires NoStatus(log) && !threw && (readStatus.Some? ==> reading && finished)
      modifies this
      ensures unchanged(`finished, `reading, `readStatus, `receivedStatus, `statusFailed, `results, `outstanding)
      ensures Pushed(log) == Pushed(old(log)) && Starts(log) == Starts(old(log)) && QuietAfterStatus(log)
      ensures BatchErrors(log) == BatchErrors(old(log))
      ensures readStatus.Some? && receivedStatus.Some? ==>
        var status := Reconcile(readStatus.value, receivedStatus.value);
        && threw == (status.code != 0 && r.throws)
        && (status.code == 0 ==> PushEnd in log)
        && Signalled(log) == Signalled(old(log)) + Emissions(status, threw)
      ensures !(readStatus.Some? && receivedStatus.Some?) ==> log == old(log) && !threw
      decreases r, 1
    {
      hide Pushed, Signalled, Starts, Prefix, BatchErrors;
      if readStatus.Some? && receivedStatus.Some? {
        var status := if readStatus.value.code != 0 then readStatus.value else receivedStatus.value;
        if status.code == 0 {
          var _ := Push(PushEnd, r);
          Snoc(old(log), PushEnd);
          EndsChangeNothing(old(log) + [PushEnd], log);
        } else {
          Snoc(log, EmitError(status));
          log := log + [EmitError(status)];
          ghost var before := log;
          Reread(r.rereads);
          EndsChangeNothing(before, log);
          if r.throws {
            threw := true;
            return;
          }
        }
        Snoc(log, EmitStatus(status));
        log := log + [EmitStatus(status)];
        ghost var before := log;
        Reread(r.later);
        EndsChangeNothing(before, log);
        assert status.code == 0 ==> log[|old(log)|] == PushEnd;
      }
    }

    /** readCallback, on a batch that was in flight. */
    method ReadCallback(result: ReadResult<V>, onPush: Reaction, next: ReadAnswer)
      requires AtRest() && outstanding == 1
      modifies this
      ensures AtRest() && unchanged(`receivedStatus, `statusFailed)
      ensures results == old(results) + [result] +
        if result.Value? && onPush.more && next.released then [Failed] else []
      ensures threw == match result
        case Failed | EndOfStream => EmissionThrows(OK_STATUS, receivedStatus, onPush)
        case Unparsable => EmissionThrows(PARSE_FAILURE, receivedStatus, onPush)
        case Null => false
        case Value(_) => onPush.more && next.released && EmissionThrows(OK_STATUS, receivedStatus, next.onEnd)
      ensures result.Null? ==> old(log) + [PushEnd] <= log && !reading
      // Another read is started exactly when the consumer wants more.
      ensures Starts(log) == old(Starts(log)) + if result.Value? && onPush.more then 1 else 0
    {
      hide Pushed, Signalled, Starts, Prefix, BatchErrors;
      if result.Failed? {
        ReadFailed(onPush);
        return;
      }
      PrefixSnoc(results, result);
      results := results + [result];
      outstanding := 0;
      match result
      case Unparsable => ReadsDone(PARSE_FAILURE, onPush);
      case EndOfStream => ReadsDone(OK_STATUS, onPush);
      case Null =>
        // push(null) ends the Readable and answers false.
        var _ := Push(PushEnd, onPush);
        Snoc(old(log), PushEnd);
        EndsChangeNothing(old(log) + [PushEnd], log);
        reading := false;
      case Value(v) =>
        var more := Push(PushValue(v), onPush);
        Snoc(old(log), PushValue(v));
        EndsChangeNothing(old(log) + [PushValue(v)], log);
        if more {
          StartBatch(next);
        } else {
          reading := false;
        }
    }

    /** _read between events. */
    method OnRead(a: ReadAnswer)
      requires AtRest()
      modifies this
      ensures AtRest() && unchanged(`receivedStatus, `statusFailed)
      ensures threw == if old(reading || finished) then old(threw)
                       else a.released && EmissionThrows(OK_STATUS, receivedStatus, a.onEnd)
      // It starts a read exactly when none is in flight and reading is not over.
      ensures Starts(log) == old(Starts(log)) + if old(reading || finished) then 0 else 1
    {
      hide Pushed, Signalled, Starts, Prefix, BatchErrors;
      Read(a);
      if old(reading || finished) {
        EndsChangeNothing(old(log), log);
      }
    }

    /** _receiveStatus; the status batch completes once. */
    method ReceiveStatus(status: Status, onEmit: Reaction)
      requires AtRest() && receivedStatus == None && !statusFailed
      modifies this
      ensures AtRest() && receivedStatus == Some(status) && unchanged(`results, `statusFailed)
      ensures Starts(log) == old(Starts(log))
      ensures threw == (readStatus.Some? && EmissionThrows(readStatus.value, receivedStatus, onEmit))
    {
      hide Pushed, Signalled, Starts, Prefix, BatchErrors;
      receivedStatus := Some(status);
      EmitStatusIfDone(onEmit);
    }

    /** The status batch fails: an 'error' event, and no status will ever come. */
    method StatusBatchFailed()
      requires AtRest() && receivedStatus == None && !statusFailed
      modifies this`log, this`statusFailed
      ensures AtRest() && statusFailed && log == old(log) + [BatchError]
    {
      hide Pushed, Signalled, Starts, Prefix, BatchErrors;
      Snoc(log, BatchError);
      log := log + [BatchError];
      statusFailed := true;
    }

    /** Any run. Completions happen only for a batch in flight, the status only once. */
    method Run(events: seq<Event<V>>)
      requires AtRest()
      modifies this
      ensures AtRest() && outstanding <= 1
      ensures Pushed(log) == Prefix(results)
      ensures Signalled(log) == Signals(results, receivedStatus, threw)
      ensures BatchErrors(log) <= 1 && (BatchErrors(log) == 1 ==> NoStatus(log))
      ensures threw ==> old(threw) || exists i :: 0 <= i < |events| && MayThrow(events[i])
      // With nobody throwing, the outcome is a function of what came in alone.
      ensures !old(threw) && (forall i :: 0 <= i < |events| ==> !MayThrow(events[i])) ==>
        Signalled(log) == Signals(results, receivedStatus, false)
      // The status is the parse failure if there was one, and else what the server said.
      ensures forall s :: EmitStatus(s) in Signalled(log) ==> IsFinalStatus(results, receivedStatus, s)
      ensures history == old(history) + events
    {
      hide Pushed, Signalled, Starts, Prefix, BatchErrors;
      for i := 0 to |events|
        invariant AtRest() && history == old(history) + events[..i]
        invariant threw ==> old(threw) || exists j :: 0 <= j < i && MayThrow(events[j])
      {
        Handle(events[i]);
        assert events[..i + 1] == events[..i] + [events[i]];
      }
      assert events[..|events|] == events;
      SignalsMean(results, receivedStatus, threw);
    }

    /** One event; a completion only for a batch in flight, the status only once. */
    method Handle(event: Event<V>)
      requires AtRest()
      modifies this
      ensures AtRest() && history == old(history) + [event]
      ensures threw ==> old(threw) || MayThrow(event)
      ensures event.ReadCalled? && !old(reading || finished) ==> Starts(log) == old(Starts(log)) + 1
      ensures event.ReadCompleted? && old(outstanding) == 1 ==> old(results) + [event.result] <= results
      ensures event.StatusReceived? && old(receivedStatus == None && !statusFailed) ==>
        receivedStatus == Some(event.status)
      ensures event.StatusFailed? && old(receivedStatus) == None ==> statusFailed
    {
      hide Pushed, Signalled, Starts, Prefix, BatchErrors;
      ghost var past := history;
      match event {
        case ReadCalled(a) => OnRead(a);
        case ReadCompleted(result, onPush, next) =>
          if outstanding == 1 { ReadCallback(result, onPush, next); }
        case StatusReceived(status, onEmit) =>
          if receivedStatus == None && !statusFailed { ReceiveStatus(status, onEmit); }
        case StatusFailed =>
          if receivedStatus == None && !statusFailed { StatusBatchFailed(); }
      }
      history := past + [event];
    }
  }
}
