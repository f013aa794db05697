/** The sending half of the server's writable and duplex streams: initial metadata,
    messages and the final status, under every interleaving of the handler's calls,
    write completions and errors. */
module ServerSends {
  import opened Options

  const OK := 0
  const UNKNOWN := 2
  const INTERNAL := 13

  datatype Status<M> = Status(code: int, details: string, metadata: M)

  /** An error object: each field is an own property or missing. */
  datatype Error<M> =
    Error(message: Option<string>, code: Option<int>, details: Option<string>, metadata: Option<M>)

  /** The operations handed to core, batch by batch. */
  datatype SendOp<M, B> =
    | SendInitialMetadata(metadata: M)
    | SendMessage(message: B)
    | SendStatus(status: Status<M>)

  /** What can happen to the stream. A write is issued by Writable after serialization;
      `gone` says that startBatch fails its callback at once. */
  datatype Event<M, B> =
    | MetadataSent(metadata: M, gone: Option<Error<M>>)
    | Write(message: Option<B>, failure: Error<M>, gone: Option<Error<M>>)
    | WriteDone(failed: Option<Error<M>>)
    | Ended(trailers: Option<M>)
    | Errored(error: Error<M>)
    | Finish

  /** The batch of a write comes back with an error, later or at once. */
  predicate FailsWrite<M, B>(e: Event<M, B>)
  {
    (e.WriteDone? && e.failed.Some?) || (e.Write? && e.message.Some? && e.gone.Some?)
  }

  /** What bears on the status: errors, and trailing metadata given to end(). */
  datatype Cause<M> = Raised(error: Error<M>) | EndedWith(metadata: M)

  /** setStatus: `details` only counts together with `code`. */
  function StatusOf<M>(error: Error<M>, empty: M): (r: Status<M>)
  {
    var message := Or(error.message, "Unknown Error");
    if error.code.Some? then
      Status(error.code.value, Or(error.details, message), Or(error.metadata, empty))
    else
      Status(UNKNOWN, message, Or(error.metadata, empty))
  }

  /** The errors that an event raises: its own, that of a batch which failed, or that of a
      message which did not serialize, with code 13. */
  function NewErrors<M, B>(e: Event<M, B>): (r: seq<Error<M>>)
  {
    match e
    case Errored(error) => [error]
    case WriteDone(Some(error)) => [error]
    case MetadataSent(_, Some(error)) => [error]
    case Write(Some(_), _, Some(error)) => [error]
    case Write(None, failure, _) => [failure.(code := Some(13))]
    case _ => []
  }

  function NewCauses<M, B>(e: Event<M, B>): (r: seq<Cause<M>>)
  {
    match e
    case Ended(Some(metadata)) => [EndedWith(metadata)]
    case _ => var errors := NewErrors(e); if errors == [] then [] else [Raised(errors[0])]
  }

  /** The pending status after the given causes. */
  function StatusAfter<M>(causes: seq<Cause<M>>, empty: M): (r: Status<M>)
  {
    if causes == [] then Status(OK, "OK", empty)
    else
      match causes[|causes| - 1]
      case Raised(error) => StatusOf(error, empty)
      case EndedWith(metadata) => StatusAfter(causes[..|causes| - 1], empty).(metadata := metadata)
  }

  /** The position of the last error, or -1. */
  function LastError<M>(causes: seq<Cause<M>>): (k: int)
    ensures -1 <= k < |causes|
    ensures k >= 0 ==> causes[k].Raised?
    ensures forall i :: k < i < |causes| ==> causes[i].EndedWith?
  {
    if causes == [] then -1
    else if causes[|causes| - 1].Raised? then |causes| - 1
    else LastError(causes[..|causes| - 1])
  }

  /** The code is that of the last error, or 2 if it has none, and 0 without an error. The
      details are the error's own exactly if it has both code and details, and else its
      message. The metadata is the last given to end() since, else the error's, else empty. */
  lemma {:induction false} StatusAfterMeaning<M>(causes: seq<Cause<M>>, empty: M)
    ensures var status, k := StatusAfter(causes, empty), LastError(causes);
      && status.code == (if k < 0 then 0 else Or(causes[k].error.code, 2))
      && (k < 0 ==> status.details == "OK")
      && (k >= 0 ==>
            var e := causes[k].error;
            status.details == if e.code.Some? && e.details.Some? then e.details.value
                              else if e.message.Some? then e.message.value
                              else "Unknown Error")
      && status.metadata == if k < |causes| - 1 then causes[|causes| - 1].metadata
                            else if k < 0 then empty
                            else Or(causes[k].error.metadata, empty)
  {
    if causes == [] || causes[|causes| - 1].Raised? {
    } else {
      StatusAfterMeaning(causes[..|causes| - 1], empty);
    }
  }

  /** Initial metadata once, then messages, then at most one status, nothing after it. */
  ghost predicate WellFormed<M, B>(ops: seq<SendOp<M, B>>)
  {
    && (ops != [] ==> ops[0].SendInitialMetadata?)
    && forall i :: 1 <= i < |ops| ==> ops[i].SendMessage? || (ops[i].SendStatus? && i == |ops| - 1)
  }

  predicate StatusSent<M, B>(ops: seq<SendOp<M, B>>)
  {
    ops != [] && ops[|ops| - 1].SendStatus?
  }

  function Messages<M, B>(ops: seq<SendOp<M, B>>): (r: seq<B>)
  {
    if ops == [] then []
    else
      var last := ops[|ops| - 1];
      Messages(ops[..|ops| - 1]) + if last.SendMessage? then [last.message] else []
  }

  lemma MessagesSnoc<M, B>(ops: seq<SendOp<M, B>>, op: SendOp<M, B>)
    ensures Messages(ops + [op]) == Messages(ops) + if op.SendMessage? then [op.message] else []
  {
    assert (ops + [op])[..|ops|] == ops;
  }

  class ServerWritableStream<M(==), B(==)> {
    const empty: M  // new Metadata()
    var metadataSent: bool
    var status: Status<M>

    // Writable's own state: its contract is one _write at a time, and 'finish' at most
    // once, after end() and with no write outstanding.
    var writing: bool
    var ended: bool
    var finished: bool
    var failed: bool  // the outstanding write's batch failed, so its callback never comes

    ghost var ops: seq<SendOp<M, B>>    // everything given to startBatch, in order
    ghost var causes: seq<Cause<M>>     // up to 'finish'
    ghost var written: seq<B>           // every message _write was given and could serialize
    ghost var asked: Option<M>          // the metadata of the first effective sendMetadata
    ghost var history: seq<Event<M, B>> // every event so far

    constructor (empty: M)
      ensures Valid() && ops == [] && causes == [] && written == [] && history == []
      ensures !writing && !ended && !finished && !failed && this.empty == empty
    {
      this.empty := empty;
      metadataSent, status := false, Status(OK, "OK", empty);
      writing, ended, finished, failed := false, false, false, false;
      ops, causes, written, asked, history := [], [], [], None, [];
    }

    ghost predicate Valid()
      reads this`metadataSent, this`status, this`writing, this`ended, this`finished, this`failed,
            this`ops, this`causes, this`written, this`asked
    {
      && WellFormed(ops)
      && metadataSent == (ops != [])
      && (ops != [] ==> ops[0] == SendInitialMetadata(Or(asked, empty)))
      && (ops == [] ==> asked == None)
      && Messages(ops) == written
      && finished == StatusSent(ops)
      && (finished ==> !writing) && (writing || finished ==> metadataSent)
      && (failed ==> writing && ended)
      && (!finished ==> status == StatusAfter(causes, empty))
      && (finished ==> ops[|ops| - 1].status == StatusAfter(causes, empty))
    }

    /** setStatus, step by step as the properties of the error are looked at. */
    method SetStatus(error: Error<M>)
      modifies this`status
      ensures status == StatusOf(error, empty)
    {
      var code, details, metadata := UNKNOWN, "Unknown Error", empty;
      if error.message.Some? { details := error.message.value; }
      if error.code.Some? {
        code := error.code.value;
        if error.details.Some? { details := error.details.value; }
      }
      if error.metadata.Some? { metadata := error.metadata.value; }
      status := Status(code, details, metadata);
    }

    /** terminateCall: the listener on 'error'. */
    method TerminateCall(error: Error<M>)
      requires Valid()
      modifies this`status, this`ended, this`causes
      ensures Valid() && ended
      ensures causes == if finished then old(causes) else old(causes) + [Raised(error)]
    {
      SetStatus(error);
      if !finished { causes := causes + [Raised(error)]; }
      ended := true;
    }

    /** stream.end. */
    method End(metadata: Option<M>)
      requires Valid()
      modifies this`status, this`ended, this`causes
      ensures Valid() && ended
      ensures causes == if finished || metadata.None? then old(causes) else old(causes) + [EndedWith(metadata.value)]
    {
      if metadata.Some? {
        status := status.(metadata := metadata.value);
        if !finished {
          causes := causes + [EndedWith(metadata.value)];
          assert causes[..|causes| - 1] == old(causes);
        }
      }
      ended := true;
    }

    /** sendMetadata: only the first effective call counts. */
    method SendMetadata(metadata: M, gone: Option<Error<M>>)
      requires Valid()
      modifies this
      ensures Valid() && metadataSent && unchanged(`written, `finished, `writing, `failed)
      ensures !old(metadataSent) ==>
        && ops == [SendInitialMetadata(metadata)] && asked == Some(metadata)
        && causes == old(causes) + (if gone.Some? then [Raised(gone.value)] else [])
        && ended == (old(ended) || gone.Some?)
      ensures old(metadataSent) ==> unchanged(this)
    {
      if !metadataSent {
        metadataSent := true;
        ops, asked := [SendInitialMetadata(metadata)], Some(metadata);
        assert ops[..0] == [];
        if gone.Some? { TerminateCall(gone.value); }
      }
    }

    /** The batch built by _write and sendStatus: initial metadata if none went out yet,
        then the given operation. */
    method Send(op: SendOp<M, B>)
      requires WellFormed(ops) && !StatusSent(ops) && !op.SendInitialMetadata?
      requires metadataSent == (ops != [])
      modifies this`ops, this`metadataSent
      ensures metadataSent && ops == WithMetadata(old(ops)) + [op] && WellFormed(ops)
      ensures Messages(ops) == Messages(old(ops)) + if op.SendMessage? then [op.message] else []
    {
      if !metadataSent {
        metadataSent := true;
        MessagesSnoc(ops, SendInitialMetadata(empty));
        ops := ops + [SendInitialMetadata(empty)];
      }
      MessagesSnoc(ops, op);
      ops := ops + [op];
    }

    ghost function WithMetadata(ops: seq<SendOp<M, B>>): (r: seq<SendOp<M, B>>)
    {
      if ops == [] then [SendInitialMetadata(empty)] else ops
    }

    /** _write. A message that does not serialize goes back to Writable as an error with
        code INTERNAL, which Writable raises. */
    method WriteChunk(message: Option<B>, failure: Error<M>, gone: Option<Error<M>>)
      requires Valid() && !writing && !finished
      modifies this
      ensures Valid() && !finished
      ensures message.None? ==>
        && causes == old(causes) + [Raised(failure.(code := Some(13)))] && ended
        && unchanged(`ops, `written, `metadataSent, `writing, `failed)
      ensures message.Some? ==>
        && written == old(written) + [message.value] && metadataSent && writing
        && ops == WithMetadata(old(ops)) + [SendMessage(message.value)]
        && causes == (if gone.Some? then old(causes) + [Raised(gone.value)] else old(causes))
        && failed == gone.Some? && ended == (old(ended) || gone.Some?)
    {
      if message.None? {
        TerminateCall(failure.(code := Some(INTERNAL)));
        return;
      }
      Send(SendMessage(message.value));
      written := written + [message.value];
      writing := true;
      if gone.Some? { WriteCallback(gone); }
    }

    /** The callback of _write's batch, which comes once: a failure raises an error and
        leaves the write outstanding for good. */
    method WriteCallback(error: Option<Error<M>>)
      requires Valid() && writing && !failed
      modifies this
      ensures Valid() && unchanged(`ops, `written, `finished, `metadataSent)
      ensures error.None? ==> !writing && !failed && unchanged(`causes, `ended)
      ensures error.Some? ==> failed && causes == old(causes) + [Raised(error.value)]
    {
      if error.Some? {
        TerminateCall(error.value);
        failed := true;
        return;
      }
      writing := false;
    }

    /** sendStatus: the listener on 'finish'. */
    method OnFinish()
      requires Valid() && ended && !writing && !finished
      modifies this
      ensures Valid() && finished && unchanged(`written, `causes, `ended, `failed)
      ensures ops == WithMetadata(old(ops)) + [SendStatus(StatusAfter(causes, empty))]
    {
      Send(SendStatus(status));
      finished := true;
    }

    /** The other half: as long as no write has failed, an ended stream can still come to
        its status, once the outstanding write completes. */
    method Conclude()
      requires Valid() && ended && !failed && !finished
      modifies this
      ensures Valid() && finished && unchanged(`written, `causes)
      ensures ops == WithMetadata(old(ops)) + [SendStatus(StatusAfter(causes, empty))]
    {
      if writing { WriteCallback(None); }
      OnFinish();
    }

    /** Any run. After a failed write nothing more is sent, whatever happens; in particular
        no status, though the error that should be in it has been recorded. */
    method Run(events: seq<Event<M, B>>)
      requires Valid()
      modifies this
      ensures Valid()
      ensures WellFormed(ops) && Messages(ops) == written
      ensures StatusSent(ops) ==> ops[|ops| - 1].status == StatusAfter(causes, empty)
      ensures failed ==> !StatusSent(ops)
      ensures old(failed) ==> failed && ops == old(ops)
      ensures history == old(history) + events
      ensures failed ==> old(failed) || exists i :: 0 <= i < |events| && FailsWrite(events[i])
      // Until the status is out, no error and no end is lost, and nothing else counts.
      ensures !finished ==> forall i :: 0 <= i < |events| && (events[i].Errored? || events[i].Ended?) ==>
        ended && forall c :: c in NewCauses(events[i]) ==> c in causes
      ensures forall c :: c in causes ==>
        c in old(causes) || exists i :: 0 <= i < |events| && c in NewCauses(events[i])
    {
      for i := 0 to |events|
        invariant Valid() && history == old(history) + events[..i]
        invariant failed ==> old(failed) || exists j :: 0 <= j < i && FailsWrite(events[j])
        invariant !finished ==> forall j :: 0 <= j < i && (events[j].Errored? || events[j].Ended?) ==>
          ended && forall c :: c in NewCauses(events[j]) ==> c in causes
        invariant forall c :: c in causes ==>
          c in old(causes) || exists j :: 0 <= j < i && c in NewCauses(events[j])
        invariant old(failed) ==> failed && ops == old(ops)
      {
        Handle(events[i]);
        assert events[..i + 1] == events[..i] + [events[i]];
      }
      assert events[..|events|] == events;
    }

    /** Whether the event happens: Writable's contract, and the batch calling back once. */
    predicate Possible(event: Event<M, B>)
      reads this
    {
      match event
      case MetadataSent(_, _) => !metadataSent
      case Write(_, _, _) => !writing && !finished
      case WriteDone(_) => writing && !failed
      case Finish => ended && !writing && !finished
      case _ => true
    }

    twostate predicate OnlyHistoryChanged()
      reads this
    {
      unchanged(`metadataSent, `status, `writing, `ended, `finished, `failed, `ops, `causes, `written, `asked)
    }

    /** One event: what it gives to startBatch, and what it adds to the causes. */
    method Handle(event: Event<M, B>)
      requires Valid()
      modifies this
      ensures Valid()
      ensures history == old(history) + [event]
      ensures !old(Possible(event)) ==> OnlyHistoryChanged()
      ensures old(Possible(event)) ==>
        && ops == (match event
           case MetadataSent(m, _) => [SendInitialMetadata(m)]
           case Write(Some(message), _, _) => WithMetadata(old(ops)) + [SendMessage(message)]
           case Finish => WithMetadata(old(ops)) + [SendStatus(StatusAfter(old(causes), empty))]
           case _ => old(ops))
        && causes == old(causes) + (if old(finished) then [] else NewCauses(event))
        && written == old(written) + (if event.Write? && event.message.Some? then [event.message.value] else [])
      ensures old(Possible(event)) ==>
        && ended == (old(ended) || event.Ended? || NewErrors(event) != [])
        && failed == (old(failed) || FailsWrite(event))
    {
      hide WellFormed, Messages, StatusSent, StatusAfter;
      ghost var past := history;
      match event {
        case MetadataSent(m, gone) => SendMetadata(m, gone);
        case Write(message, failure, gone) =>
          if !writing && !finished { WriteChunk(message, failure, gone); }
        case WriteDone(error) => if writing && !failed { WriteCallback(error); }
        case Ended(metadata) => End(metadata);
        case Errored(error) => TerminateCall(error);
        case Finish => if ended && !writing && !finished { OnFinish(); }
      }
      history := past + [event];
    }
  }
}
