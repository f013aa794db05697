/** One call of the pure-JavaScript client from creation to status: the chain of
    connection attempts that attaches an HTTP/2 stream, writes held back until then, and
    the single final status. */
module CallLifecycle {
  import opened CallStatus
  import opened Options
  import opened Wire

  const TRAILERS_REJECTED := Status(13, "Failed to process received status")
  const HTTP2_ERROR := Status(13, "Internal HTTP2 error")
  const NO_METADATA := Status(2, "Failed to generate metadata")

  /** What the call does to the HTTP/2 layer and to its listeners. */
  datatype Output =
    | Attached(stream: nat) | Reset(stream: nat) | Wrote(bytes: seq<byte>) | EndedStream
    | EmittedStatus(status: Status)

  /** Where startHttp2Stream stands: waiting for a connection, for the filters' metadata,
      for the next turn to start over, or done. */
  datatype Stage = Connecting | Finalizing | Retrying | Stopped

  /** `listeners` are the statuses that listeners of 'status' cancel the call with while
      it is being emitted. */
  datatype Event =
    | Connected
    | MetadataReady(ready: bool, stream: nat)
    | MetadataFailed(listeners: seq<Status>)
    | Retry
    | Trailers
    | TrailersResolved(status: Status, listeners: seq<Status>)
    | TrailersRejected(listeners: seq<Status>)
    | StreamClosed(status: Status, listeners: seq<Status>)
    | StreamError(listeners: seq<Status>)
    | Cancelled(status: Status, listeners: seq<Status>)  // by the user or the deadline
    | Write(message: seq<byte>)
    | WriteDone
    | Final

  /** The status that an event brings. */
  function Offer(event: Event): (r: Option<Status>)
  {
    match event
    case MetadataFailed(_) => Some(NO_METADATA)
    case TrailersResolved(status, _) => Some(status)
    case TrailersRejected(_) => Some(TRAILERS_REJECTED)
    case StreamClosed(status, _) => Some(status)
    case StreamError(_) => Some(HTTP2_ERROR)
    case Cancelled(status, _) => Some(status)
    case _ => None
  }

  /** By value; every other event brings none. */
  lemma OfferMeans(event: Event)
    ensures match event
      case MetadataFailed(_) => Offer(event) == Some(Status(2, "Failed to generate metadata"))
      case TrailersRejected(_) => Offer(event) == Some(Status(13, "Failed to process received status"))
      case StreamError(_) => Offer(event) == Some(Status(13, "Internal HTTP2 error"))
      case TrailersResolved(status, _) => Offer(event) == Some(status)
      case StreamClosed(status, _) => Offer(event) == Some(status)
      case Cancelled(status, _) => Offer(event) == Some(status)
      case Connected | MetadataReady(_, _) | Retry | Trailers | Write(_) | WriteDone | Final => Offer(event) == None
  {}

  // ---- what the outputs of a call must look like ----

  ghost predicate HasAttached(log: seq<Output>)
  {
    exists i :: 0 <= i < |log| && log[i].Attached?
  }

  ghost predicate HasEnded(log: seq<Output>)
  {
    exists i :: 0 <= i < |log| && log[i].EndedStream?
  }

  /** What may follow the given outputs. */
  ghost predicate MayFollow(log: seq<Output>, e: Output)
  {
    match e
    case Attached(_) => !HasAttached(log) && Statuses(log) == []
    case Reset(_) => true
    case Wrote(_) => HasAttached(log) && !HasEnded(log)
    case EndedStream => HasAttached(log) && !HasEnded(log)
    case EmittedStatus(_) => Statuses(log) == []
  }

  /** At most one attachment, before any status; bytes and one end only after it, nothing
      written after the end; at most one status. */
  ghost predicate Trace(log: seq<Output>)
  {
    forall i :: 0 <= i < |log| ==> MayFollow(log[..i], log[i])
  }

  function Statuses(log: seq<Output>): (r: seq<Status>)
  {
    if log == [] then []
    else
      var last := log[|log| - 1];
      Statuses(log[..|log| - 1]) + if last.EmittedStatus? then [last.status] else []
  }

  /** The bytes written to the HTTP/2 stream. */
  function Sent(log: seq<Output>): (r: seq<byte>)
  {
    if log == [] then []
    else
      var last := log[|log| - 1];
      Sent(log[..|log| - 1]) + if last.Wrote? then last.bytes else []
  }

  /** The stream reset n times, if there is one. */
  function Resets(stream: Option<nat>, n: nat): (r: seq<Output>)
    ensures |r| == if stream.Some? then n else 0
    ensures forall i :: 0 <= i < |r| ==> r[i] == Reset(stream.value)
  {
    if n == 0 || stream.None? then [] else Resets(stream, n - 1) + [Reset(stream.value)]
  }

  lemma TraceSnoc(log: seq<Output>, e: Output)
    requires Trace(log) && MayFollow(log, e)
    ensures Trace(log + [e])
    ensures Statuses(log + [e]) == Statuses(log) + if e.EmittedStatus? then [e.status] else []
    ensures Sent(log + [e]) == Sent(log) + if e.Wrote? then e.bytes else []
    ensures HasAttached(log + [e]) == (HasAttached(log) || e.Attached?)
    ensures HasEnded(log + [e]) == (HasEnded(log) || e.EndedStream?)
  {
    var log' := log + [e];
    assert log'[..|log|] == log;
    assert log'[|log|] == e;
    assert forall i :: 0 <= i < |log| ==> log'[i] == log[i];
    forall i | 0 <= i < |log'| ensures MayFollow(log'[..i], log'[i]) {
      assert log'[..i] == log[..i];
      if i == |log| { assert log[..i] == log; }
    }
  }

  /** What Trace means position by position. */
  lemma TraceOrder(log: seq<Output>, i: nat, j: nat)
    requires Trace(log) && i < j < |log|
    ensures log[i].Attached? ==> !log[j].Attached?
    ensures log[i].EndedStream? ==> !log[j].EndedStream? && !log[j].Wrote?
    ensures log[i].EmittedStatus? ==> !log[j].EmittedStatus? && !log[j].Attached?
    ensures log[i].Wrote? || log[i].EndedStream? ==> !log[j].Attached?
  {
    assert MayFollow(log[..j], log[j]);
    assert log[..j][i] == log[i];
    if log[i].EmittedStatus? { StatusInside(log[..j], i); }
    assert MayFollow(log[..i], log[i]);
    if HasAttached(log[..i]) {
      var k :| 0 <= k < |log[..i]| && log[..i][k].Attached?;
      assert log[..j][k].Attached?;
    }
  }

  lemma {:induction false} StatusInside(log: seq<Output>, i: nat)
    requires i < |log| && log[i].EmittedStatus?
    ensures Statuses(log) != []
  {
    if i == |log| - 1 {
    } else {
      StatusInside(log[..|log| - 1], i);
    }
  }

  class Http2CallStream {
    var finalStatus: Option<Status>
    var http2Stream: Option<nat>
    var pendingWrite: Option<seq<byte>>
    var pendingFinal: bool
    var stage: Stage
    var trailersInFilters: nat  // receiveTrailers promises not settled yet

    // Writable's own state: one _write at a time, _final at most once, after every write.
    var writing: bool
    var finalCalled: bool

    ghost var log: seq<Output>
    ghost var offered: seq<Status>        // every status that reached endCall, in order
    ghost var messages: seq<seq<byte>>    // every message accepted by _write, in order
    ghost var history: seq<Event>         // every event so far

    constructor ()
      ensures Valid() && log == [] && offered == [] && messages == []
      ensures stage == Connecting && finalStatus.None? && http2Stream.None? && history == []
    {
      finalStatus, http2Stream, pendingWrite, pendingFinal := None, None, None, false;
      stage, trailersInFilters, writing, finalCalled := Connecting, 0, false, false;
      log, offered, messages, history := [], [], [], [];
    }

    /** The first status to reach endCall wins, and is emitted once. */
    ghost predicate StatusRight()
      reads this`finalStatus, this`log, this`offered
    {
      && finalStatus == (if offered == [] then None else Some(offered[0]))
      && Statuses(log) == (if offered == [] then [] else [offered[0]])
    }

    /** The stream carries the encoded messages in order, save what waits for it. */
    ghost predicate WritesRight()
      reads this`http2Stream, this`pendingWrite, this`pendingFinal, this`writing, this`finalCalled,
            this`log, this`messages
    {
      && Encodable(messages)
      && (http2Stream.Some? <==> HasAttached(log))
      && (http2Stream.Some? ==> Sent(log) == EncodeAll(messages) && HasEnded(log) == finalCalled)
      && (http2Stream.None? ==>
          && Sent(log) == [] && !HasEnded(log) && pendingFinal == finalCalled
          && Or(pendingWrite, []) == EncodeAll(messages)
          && (pendingWrite.Some? <==> writing)
          && |messages| == if writing then 1 else 0)
      && (finalCalled ==> !writing)
    }

    ghost predicate Valid()
      reads this`finalStatus, this`http2Stream, this`pendingWrite, this`pendingFinal, this`stage,
            this`trailersInFilters, this`writing, this`finalCalled, this`log, this`offered, this`messages
    {
      && Trace(log) && StatusRight() && WritesRight()
      && (http2Stream.Some? ==> stage == Stopped)
      && (trailersInFilters > 0 ==> http2Stream.Some?)
    }

    method Put(ghost e: Output)
      requires Trace(log) && MayFollow(log, e)
      modifies this`log
      ensures log == old(log) + [e] && Trace(log)
      ensures Statuses(log) == Statuses(old(log)) + if e.EmittedStatus? then [e.status] else []
      ensures Sent(log) == Sent(old(log)) + if e.Wrote? then e.bytes else []
      ensures HasAttached(log) == (HasAttached(old(log)) || e.Attached?)
      ensures HasEnded(log) == (HasEnded(old(log)) || e.EndedStream?)
    {
      TraceSnoc(log, e);
      log := log + [e];
    }

    /** endCall; listeners that cancel again change nothing but may reset the stream. */
    method EndCall(status: Status, listeners: seq<Status>)
      requires Valid()
      modifies this`finalStatus, this`log, this`offered
      ensures Valid() && finalStatus.Some?
      ensures old(finalStatus).Some? ==> finalStatus == old(finalStatus)
      ensures old(finalStatus).None? ==>
        && finalStatus == Some(status) && offered == old(offered) + [status] + listeners
        && log == old(log) + [EmittedStatus(status)] +
             Resets(http2Stream, |listeners|)
      ensures old(finalStatus).Some? ==> offered == old(offered) + [status] && log == old(log)
    {
      hide Trace, Statuses, Sent, HasAttached, HasEnded, EncodeAll, Encode;
      offered := offered + [status];
      if finalStatus == None {
        finalStatus := Some(status);
        Put(EmittedStatus(status));
        Recancel(listeners);
      }
    }

    /** Listeners of 'status' cancel the call that has just ended. */
    method Recancel(listeners: seq<Status>)
      requires Valid() && finalStatus.Some?
      modifies this`log, this`offered
      ensures Valid() && offered == old(offered) + listeners
      ensures log == old(log) + Resets(http2Stream, |listeners|)
    {
      hide Trace, Statuses, Sent, HasAttached, HasEnded, EncodeAll, Encode;
      for i := 0 to |listeners|
        invariant Valid()
        invariant offered == old(offered) + listeners[..i]
        invariant log == old(log) + Resets(http2Stream, i)
      {
        offered := offered + [listeners[i]];
        ResetStream();
      }
    }

    method ResetStream()
      requires Valid()
      modifies this`log
      ensures Valid()
      ensures log == old(log) + if http2Stream.Some? then [Reset(http2Stream.value)] else []
    {
      hide Trace, Statuses, Sent, HasAttached, HasEnded, EncodeAll, Encode;
      if http2Stream.Some? {
        Put(Reset(http2Stream.value));
      }
    }

    /** cancelWithStatus. */
    method CancelWithStatus(status: Status, listeners: seq<Status>)
      requires Valid()
      modifies this`finalStatus, this`log, this`offered
      ensures Valid() && finalStatus.Some?
      ensures finalStatus == if old(finalStatus).Some? then old(finalStatus) else Some(status)
      ensures http2Stream.Some? ==> log != [] && log[|log| - 1] == Reset(http2Stream.value)
    {
      hide Trace, Statuses, Sent, HasAttached, HasEnded, EncodeAll, Encode;
      EndCall(status, listeners);
      ResetStream();
    }

    /** attachHttp2Stream. */
    method AttachHttp2Stream(stream: nat)
      requires Valid() && http2Stream.None? && stage == Stopped
      modifies this`http2Stream, this`log
      ensures Valid() && unchanged(`finalStatus)
      ensures finalStatus.None? ==> http2Stream == Some(stream)
      ensures finalStatus.Some? ==> http2Stream.None? && log == old(log) + [Reset(stream)]
    {
      hide Trace, Statuses, Sent, HasAttached, HasEnded, EncodeAll, Encode;
      if finalStatus.Some? {
        Put(Reset(stream));
      } else {
        http2Stream := Some(stream);
        Put(Attached(stream));
        if pendingWrite.Some? {
          Put(Wrote(pendingWrite.value));
        }
        if pendingFinal {
          Put(EndedStream);
        }
      }
    }

    /** The continuation of startHttp2Stream once the filters have the metadata. */
    method OnMetadata(ready: bool, stream: nat)
      requires Valid() && stage == Finalizing
      modifies this`stage, this`http2Stream, this`log
      ensures Valid() && unchanged(`finalStatus)
      ensures finalStatus.None? && ready ==> http2Stream == Some(stream) && stage == Stopped
      ensures finalStatus.None? && !ready ==> stage == Retrying && log == old(log)
      ensures finalStatus.Some? ==> stage == Stopped && log == old(log) && http2Stream.None?
    {
      hide Trace, Statuses, Sent, HasAttached, HasEnded, EncodeAll, Encode;
      stage := Stopped;
      if finalStatus == None {
        if ready {
          AttachHttp2Stream(stream);
        } else {
          stage := Retrying;
        }
      }
    }

    /** _write: encode, and write or hold. A message too long to encode throws. */
    method WriteMessage(message: seq<byte>) returns (accepted: bool)
      requires Valid() && !writing && !finalCalled
      modifies this
      ensures Valid() && accepted == (|message| < U32_LIMIT)
      ensures !accepted ==> unchanged(this)
      ensures accepted ==> messages == old(messages) + [message] && writing
      ensures unchanged(`finalStatus, `http2Stream, `stage, `trailersInFilters, `finalCalled)
    {
      hide Trace, Statuses, Sent, HasAttached, HasEnded, EncodeAll, Encode;
      var ok, output := EncodeMessage(message);
      if !ok { return false; }
      EncodeAllSnoc(messages, message);
      messages := messages + [message];
      writing := true;
      if http2Stream == None {
        pendingWrite := Some(output[..]);
      } else {
        Put(Wrote(output[..]));
      }
      return true;
    }

    /** The HTTP/2 stream calls back for a write. */
    method WriteCompleted()
      requires Valid() && writing && http2Stream.Some?
      modifies this`writing
      ensures Valid() && !writing
    {
      hide Trace, Statuses, Sent, HasAttached, HasEnded, EncodeAll, Encode;
      writing := false;
    }

    /** _final. */
    method OnFinal()
      requires Valid() && !writing && !finalCalled
      modifies this`finalCalled, this`pendingFinal, this`log
      ensures Valid() && finalCalled
    {
      hide Trace, Statuses, Sent, HasAttached, HasEnded, EncodeAll, Encode;
      finalCalled := true;
      if http2Stream == None {
        pendingFinal := true;
      } else {
        Put(EndedStream);
      }
    }

    /** Any run; an event that cannot happen in the current state does not. */
    method Run(events: seq<Event>)
      requires Valid()
      modifies this
      ensures Valid()
      ensures Trace(log)
      ensures finalStatus == if offered == [] then None else Some(offered[0])
      ensures Statuses(log) == if finalStatus.None? then [] else [finalStatus.value]
      ensures Encodable(messages) && (http2Stream.Some? ==> Sent(log) == EncodeAll(messages))
      ensures history == old(history) + events
    {
      HandleAll(events);
    }

    method HandleAll(events: seq<Event>)
      requires Valid()
      modifies this
      ensures Valid() && history == old(history) + events
    {
      hide Valid, Advanced;
      for n := 0 to |events|
        invariant Valid() && history == old(history) + events[..n]
      {
        Handle(events[n]);
        assert events[..n + 1] == events[..n] + [events[n]];
      }
      assert events[..|events|] == events;
    }

    /** Whether the environment can produce the event now. */
    predicate Possible(event: Event)
      reads this
    {
      match event
      case Connected => stage == Connecting
      case MetadataReady(_, _) | MetadataFailed(_) => stage == Finalizing
      case Retry => stage == Retrying
      case Trailers | StreamClosed(_, _) | StreamError(_) => http2Stream.Some?
      case TrailersResolved(_, _) | TrailersRejected(_) => trailersInFilters > 0
      case Cancelled(_, _) => true
      case Write(_) | Final => !writing && !finalCalled
      case WriteDone => writing && http2Stream.Some?
    }

    twostate predicate OnlyHistoryChanged()
      reads this
    {
      unchanged(`finalStatus, `http2Stream, `pendingWrite, `pendingFinal, `stage, `trailersInFilters,
                `writing, `finalCalled, `log, `offered, `messages)
    }

    /** How far a possible event takes the attempts and the trailers. */
    twostate predicate Advanced(event: Event)
      reads this
    {
      old(Possible(event)) ==>
        match event
        case Connected => stage == Finalizing
        case MetadataReady(ready, stream) =>
          if old(finalStatus).Some? then stage == Stopped && http2Stream == old(http2Stream)
          else if ready then stage == Stopped && http2Stream == Some(stream)
          else stage == Retrying && http2Stream == old(http2Stream)
        case MetadataFailed(_) => stage == Stopped
        case Retry => stage == Connecting
        case Trailers => trailersInFilters == old(trailersInFilters) + 1
        case TrailersResolved(_, _) | TrailersRejected(_) => trailersInFilters == old(trailersInFilters) - 1
        case _ => stage == old(stage) && trailersInFilters == old(trailersInFilters)
    }

    method Handle(event: Event)
      requires Valid()
      modifies this
      ensures Valid()
      ensures old(finalStatus).Some? ==> finalStatus == old(finalStatus)
      ensures old(finalStatus).None? ==> finalStatus == if old(Possible(event)) then Offer(event) else None
      ensures old(http2Stream).Some? ==> http2Stream == old(http2Stream)
      ensures !old(Possible(event)) ==> OnlyHistoryChanged()
      ensures event.Cancelled? ==> finalStatus.Some?
      ensures history == old(history) + [event]
      ensures Advanced(event)
      ensures messages == old(messages) +
        if event.Write? && old(Possible(event)) && |event.message| < U32_LIMIT then [event.message] else []
      ensures finalCalled == (old(finalCalled) || (event.Final? && old(Possible(event))))
    {
      hide Trace, StatusRight, WritesRight;
      hide Valid;
      ghost var past := history;
      if Possible(event) { Act(event); }
      history := past + [event];
    }

    /** The handlers. */
    method Act(event: Event)
      requires Valid() && Possible(event)
      modifies this
      ensures Valid()
      ensures finalStatus == if old(finalStatus).Some? then old(finalStatus) else Offer(event)
      ensures old(http2Stream).Some? ==> http2Stream == old(http2Stream)
      ensures Advanced(event)
      ensures messages == old(messages) +
        if event.Write? && |event.message| < U32_LIMIT then [event.message] else []
      ensures finalCalled == (old(finalCalled) || event.Final?)
    {
      hide Trace, StatusRight, WritesRight;
      match event
      case Connected => stage := Finalizing;
      case MetadataReady(ready, stream) => OnMetadata(ready, stream);
      case MetadataFailed(listeners) =>
        stage := Stopped;
        CancelWithStatus(NO_METADATA, listeners);
      case Retry => stage := Connecting;
      case Trailers => trailersInFilters := trailersInFilters + 1;
      case TrailersResolved(status, listeners) =>
        trailersInFilters := trailersInFilters - 1;
        EndCall(status, listeners);
      case TrailersRejected(listeners) =>
        trailersInFilters := trailersInFilters - 1;
        EndCall(TRAILERS_REJECTED, listeners);
      case StreamClosed(status, listeners) => EndCall(status, listeners);
      case StreamError(listeners) => EndCall(HTTP2_ERROR, listeners);
      case Cancelled(status, listeners) => CancelWithStatus(status, listeners);
      case Write(message) => var _ := WriteMessage(message);
      case WriteDone => WriteCompleted();
      case Final => OnFinal();
    }
  }
}
