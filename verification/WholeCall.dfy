/** The two halves of one Http2CallStream together, and the order of the two signals that
    its user waits for: the end of the messages and the status. */
module WholeCall {
  import opened Options
  import opened CallStatus
  import ReadPath
  import CallLifecycle

  datatype Signal = Ended | StatusEmitted(status: Status)

  datatype Event = OfStream(stream: CallLifecycle.Event) | OfReader(reader: ReadPath.Event)

  class Call {
    const stream: CallLifecycle.Http2CallStream
    const reader: ReadPath.CallReader
    ghost var signals: seq<Signal>  // in the order in which they were given
    ghost var history: seq<Event>   // every event so far

    constructor ()
      ensures Valid() && signals == [] && stream.stage == CallLifecycle.Connecting && !reader.ended
      ensures fresh(stream) && fresh(reader) && fresh(reader.readPartialSize)
    {
      stream := new CallLifecycle.Http2CallStream();
      reader := new ReadPath.CallReader();
      signals, history := [], [];
    }

    /** Every message and the end have been given to the consumer. */
    predicate Drained()
      reads reader
    {
      reader.ended && reader.unpushedReadMessages == []
    }

    /** The halves agree on the attachment, and each signal is given once, when it is due. */
    ghost predicate Valid()
      reads this`signals, stream, reader, reader.readPartialSize
    {
      && stream.Valid() && reader.Valid()
      && reader.attached == stream.http2Stream.Some?
      && (Ended in signals <==> Drained())
      && (forall s :: StatusEmitted(s) in signals <==> stream.finalStatus == Some(s))
      && |signals| == (if Drained() then 1 else 0) + if stream.finalStatus.Some? then 1 else 0
    }

    /** No status before the end. */
    ghost predicate EndFirst()
      reads this`signals
    {
      signals != [] ==> signals[0] == Ended
    }

    /** The event is the one that ends the call. */
    predicate BringsStatus(e: Event)
      reads stream
    {
      e.OfStream? && stream.finalStatus.None? && stream.Possible(e.stream) && CallLifecycle.Offer(e.stream).Some?
    }

    /** The status comes after the end if and only if nothing brings it before the consumer
        has been given everything; neither half sees to that. */
    method Handle(e: Event)
      requires Valid()
      modifies this, stream, reader, reader.readPartialSize
      ensures Valid() && old(signals) <= signals
      ensures EndFirst() <==> old(EndFirst()) && (old(BringsStatus(e)) ==> old(Drained()))
      ensures old(BringsStatus(e)) ==> stream.finalStatus == CallLifecycle.Offer(e.stream)
      ensures history == old(history) + [e]
    {
      hide CallLifecycle.Http2CallStream.Valid, ReadPath.CallReader.Valid;
      hide CallLifecycle.Http2CallStream.Possible, CallLifecycle.Http2CallStream.Advanced, CallLifecycle.Offer;
      match e {
        case OfStream(event) => HandleStream(event);
        case OfReader(event) => HandleReader(event);
      }
      history := history + [e];
    }

    method HandleStream(event: CallLifecycle.Event)
      requires Valid()
      modifies this`signals, stream, reader
      ensures Valid()
      ensures signals == old(signals) +
        if old(BringsStatus(OfStream(event))) then [StatusEmitted(CallLifecycle.Offer(event).value)] else []
      ensures unchanged(reader`ended, reader`unpushedReadMessages) && stream.Advanced(event)
    {
      hide CallLifecycle.Http2CallStream.Valid, ReadPath.CallReader.Valid;
      ghost var before := stream.finalStatus;
      stream.Handle(event);
      if stream.http2Stream.Some? && !reader.attached {
        reader.OnAttach();
      }
      if before.None? && stream.finalStatus.Some? {
        signals := signals + [StatusEmitted(stream.finalStatus.value)];
      }
    }

    /** Attaching is the stream's business. */
    method HandleReader(event: ReadPath.Event)
      requires Valid()
      modifies this`signals, reader, reader.readPartialSize
      ensures Valid()
      ensures signals == old(signals) + if Drained() && !old(Drained()) then [Ended] else []
      ensures reader.ended == (old(reader.ended) || (event.StreamEnd? && reader.attached))
      ensures reader.received == old(reader.received) +
        if event.Data? && old(reader.attached && !reader.paused && !reader.ended) then event.chunk else []
    {
      hide CallLifecycle.Http2CallStream.Valid, ReadPath.CallReader.Valid;
      if event.Attach? { return; }
      ghost var before := Drained();
      reader.Handle(event);
      if Drained() && !before {
        signals := signals + [Ended];
      }
    }

    /** The failing family: from any attached state without a status in which the consumer
        has not been given everything, the trailers overtake the end. */
    method TrailersOvertake(status: Status)
      requires Valid() && stream.http2Stream.Some? && stream.finalStatus.None? && !Drained()
      modifies this, stream, reader, reader.readPartialSize
      ensures Valid() && signals == [StatusEmitted(status)] && !EndFirst()
      ensures unchanged(reader`ended, reader`unpushedReadMessages)
    {
      hide CallLifecycle.Http2CallStream.Valid, ReadPath.CallReader.Valid;
      HandleStream(CallLifecycle.Trailers);
      HandleStream(CallLifecycle.TrailersResolved(status, []));
    }

    /** Any run. */
    method Run(events: seq<Event>)
      requires Valid()
      modifies this, stream, reader, reader.readPartialSize
      ensures Valid() && old(signals) <= signals && history == old(history) + events
    {
      hide Valid, EndFirst, BringsStatus, Drained;
      for n := 0 to |events|
        invariant Valid() && old(signals) <= signals && history == old(history) + events[..n]
      {
        Handle(events[n]);
        assert events[..n + 1] == events[..n] + [events[n]];
      }
      assert events[..|events|] == events;
    }
  }

  /** The family is inhabited: an OK status before any message has come. */
  method OvertakenFromTheStart(stream: nat) returns (call: Call)
    ensures call.Valid() && !call.EndFirst() && !call.reader.ended
    ensures call.signals == [StatusEmitted(Status(0, "OK"))]
  {
    hide CallLifecycle.Http2CallStream.Valid, ReadPath.CallReader.Valid;
    call := new Call();
    call.HandleStream(CallLifecycle.Connected);
    call.HandleStream(CallLifecycle.MetadataReady(true, stream));
    call.TrailersOvertake(Status(0, "OK"));
  }
}
