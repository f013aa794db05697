/** The receiving half of Http2CallStream: the incremental deframer, the queue of
    messages the consumer has not asked for yet, and pause/resume on the HTTP/2
    stream underneath. */
module ReadPath {
  import opened Wire

  datatype ReadState = NoData | ReadingSize | ReadingMessage

  /** What goes through Readable.push: a message, or the end of the stream. */
  datatype Item = Message(bytes: seq<byte>) | End

  /** How the consumer answers one push: it may call _read again any number of times
      before push returns (each inner list answers the pushes of one such call), and
      push then returns `more`. */
  datatype Reaction = Reaction(rereads: seq<seq<Reaction>>, more: bool)

  /** The answer to push number i; a script that runs out stands for "stop". */
  function Answer(script: seq<Reaction>, i: nat): (r: Reaction)
  {
    if i < |script| then script[i] else Reaction([], false)
  }

  /** No answer of the script reads again. */
  ghost predicate Flat(script: seq<Reaction>)
  {
    forall i :: 0 <= i < |script| ==> script[i].rereads == []
  }

  /** _read stops after pushing item j: it is the end, or the consumer refuses it. */
  predicate StopsAfter(queue: seq<Item>, script: seq<Reaction>, j: nat)
    requires j < |queue|
  {
    queue[j] == End || !Answer(script, j).more
  }

  /** n is the number of items up to and including the first to stop after, or all. */
  ghost predicate IsStop(queue: seq<Item>, script: seq<Reaction>, n: nat)
  {
    && n <= |queue|
    && (forall j :: 0 <= j < n - 1 ==> !StopsAfter(queue, script, j))
    && (n < |queue| ==> n > 0 && StopsAfter(queue, script, n - 1))
  }

  function Items(messages: seq<seq<byte>>): (r: seq<Item>)
    ensures |r| == |messages|
    ensures forall i :: 0 <= i < |r| ==> r[i] == Message(messages[i])
  {
    seq(|messages|, i requires 0 <= i < |messages| => Message(messages[i]))
  }

  /** One event of the environment. Data and end come from the HTTP/2 stream, _read
      from the consumer. */
  datatype Event =
    | Attach
    | Data(chunk: seq<byte>, script: seq<Reaction>)
    | Read(script: seq<Reaction>)
    | StreamEnd(reaction: Reaction)

  /** The bytes are exactly one message. */
  predicate IsMessage(s: seq<byte>)
  {
    HasMessage(s) && |s| == 5 + ReadU32(s[1..5])
  }

  /** A piece that leaves the message incomplete only grows the leftover; a piece that
      completes it exactly yields that message and leaves nothing. */
  lemma ParsePiece(s: seq<byte>)
    ensures !HasMessage(s) ==> Parse(s) == Parsed([], s)
    ensures IsMessage(s) ==> Parse(s) == Parsed([s[5..]], [])
  {
    if IsMessage(s) {
      assert s[|s|..] == [];
      assert s[5..|s|] == s[5..];
      assert Parse([]) == Parsed([], []);
    }
  }

  class CallReader {
    var readState: ReadState
    var readCompressFlag: bool
    const readPartialSize: array<byte>
    var readSizeRemaining: int
    var readMessageSize: int
    var readPartialMessage: seq<seq<byte>>
    var readMessageRemaining: int
    var unpushedReadMessages: seq<Item>
    var pendingRead: bool
    var attached: bool
    var paused: bool  // the HTTP/2 stream does not flow
    var ended: bool   // the HTTP/2 stream has fired 'end'

    ghost var received: seq<byte>   // every byte that came in data events so far
    ghost var delivered: seq<Item>  // every argument of push so far
    ghost var refusals: nat         // how many pushes returned false
    ghost var history: seq<Event>   // every event so far

    constructor ()
      ensures Valid() && fresh(readPartialSize)
      ensures received == [] && delivered == [] && !ended && !attached && !paused && !pendingRead
      ensures history == []
    {
      readState, readCompressFlag := NoData, false;
      readPartialSize := new byte[4](_ => 0);
      readSizeRemaining, readMessageSize, readMessageRemaining := 4, 0, 0;
      readPartialMessage, unpushedReadMessages := [], [];
      pendingRead, attached, paused := false, false, false;
      received, ended, delivered, refusals, history := [], false, [], 0, [];
    }

    /** The partial-state fields hold exactly the unparsed bytes `rest`, save that only
        the truth of the flag byte is kept. */
    ghost predicate Holds(rest: seq<byte>)
      reads this`readState, this`readCompressFlag, this`readSizeRemaining, this`readMessageSize,
            this`readPartialMessage, this`readMessageRemaining, readPartialSize
    {
      && readPartialSize.Length == 4
      && match readState
         case NoData => rest == []
         case ReadingSize =>
           && 1 <= |rest| < 5
           && readCompressFlag == (rest[0] != 0)
           && readSizeRemaining == 5 - |rest|
           && readPartialSize[..|rest| - 1] == rest[1..]
           && readPartialMessage == []
         case ReadingMessage =>
           && 5 <= |rest|
           && readCompressFlag == (rest[0] != 0)
           && readPartialSize[..] == rest[1..5]
           && readMessageSize == ReadU32(rest[1..5])
           && Flatten(readPartialMessage) == rest[5..]
           && readMessageRemaining == readMessageSize - (|rest| - 5) > 0
    }

    /** Everything the consumer is due: the messages in the received bytes, then one
        end marker once the stream has ended. */
    ghost function Due(): seq<Item>
      reads this`received, this`ended
    {
      Items(Parse(received).messages) + if ended then [End] else []
    }

    ghost predicate Valid()
      reads this`readState, this`readCompressFlag, this`readSizeRemaining, this`readMessageSize,
            this`readPartialMessage, this`readMessageRemaining, this`unpushedReadMessages, this`attached,
            this`paused, this`ended, this`received, this`delivered, readPartialSize
    {
      && Holds(Parse(received).rest)
      && delivered + unpushedReadMessages == Due()
      && (unpushedReadMessages != [] ==> attached && paused)
      && (received != [] || ended ==> attached)
    }

    /** Readable.push, as far as this object can see it. */
    method Push(item: Item, r: Reaction) returns (more: bool)
      modifies this`unpushedReadMessages, this`pendingRead, this`paused, this`delivered, this`refusals
      ensures delivered + unpushedReadMessages == old(delivered) + [item] + old(unpushedReadMessages)
      ensures old(delivered) + [item] <= delivered
      ensures |unpushedReadMessages| <= |old(unpushedReadMessages)|
      ensures more == r.more
      ensures unpushedReadMessages != [] ==> paused == old(paused)
      ensures !paused || paused == old(paused)
      ensures refusals >= old(refusals) + if more then 0 else 1
      ensures old(unpushedReadMessages) == [] ==> refusals == old(refusals) + if more then 0 else 1
      ensures r.rereads == [] ==> delivered == old(delivered) + [item] && unchanged(`unpushedReadMessages, `paused)
      ensures r.rereads != [] && attached && old(unpushedReadMessages) == [] ==> !paused
      decreases |unpushedReadMessages|, 1
    {
      delivered := delivered + [item];
      if !r.more { refusals := refusals + 1; }
      ghost var before := delivered + unpushedReadMessages;
      for i := 0 to |r.rereads|
        invariant delivered + unpushedReadMessages == before && old(delivered) + [item] <= delivered
        invariant i == 0 ==> delivered == old(delivered) + [item] && unchanged(`unpushedReadMessages, `paused)
        invariant i > 0 && attached && old(unpushedReadMessages) == [] ==> !paused
        invariant |unpushedReadMessages| <= |old(unpushedReadMessages)|
        invariant unpushedReadMessages != [] ==> paused == old(paused)
        invariant !paused || paused == old(paused)
        invariant refusals >= old(refusals) + if r.more then 0 else 1
        invariant old(unpushedReadMessages) == [] ==> refusals == old(refusals) + if r.more then 0 else 1
      {
        ReadMore(r.rereads[i]);
      }
      more := r.more;
    }

    /** Http2CallStream._read. */
    method ReadMore(script: seq<Reaction>)
      modifies this`unpushedReadMessages, this`pendingRead, this`paused, this`delivered, this`refusals
      ensures delivered + unpushedReadMessages == old(delivered) + old(unpushedReadMessages)
      ensures old(delivered) <= delivered
      ensures |unpushedReadMessages| <= |old(unpushedReadMessages)|
      ensures unpushedReadMessages != [] ==> paused == old(paused)
      ensures !paused || paused == old(paused)
      ensures refusals >= old(refusals)
      // Before the stream is attached the request is only remembered.
      ensures !attached ==> pendingRead && delivered == old(delivered) && paused == old(paused)
      // Afterwards it always gets something: queued items in order, or the stream flowing.
      ensures attached && old(unpushedReadMessages) == [] ==> !paused
      ensures old(unpushedReadMessages) == [] ==> delivered == old(delivered) && refusals == old(refusals)
      ensures attached && old(unpushedReadMessages) != [] ==> |delivered| > |old(delivered)|
      // It stops early only at a refusal or at the end.
      ensures attached && refusals == old(refusals) && End !in delivered ==> unpushedReadMessages == [] && !paused
      // And there it does stop: what was not pushed stays queued, and nothing resumes.
      ensures attached && Flat(script) ==>
        var queue, n := old(unpushedReadMessages), |delivered| - |old(delivered)|;
        && n >= 0 && IsStop(queue, script, n)
        && delivered == old(delivered) + queue[..n] && unpushedReadMessages == queue[n..]
        && paused == (old(paused) && n > 0 && StopsAfter(queue, script, n - 1))
      decreases |unpushedReadMessages|, 0
    {
      if !attached {
        pendingRead := true;
        return;
      }
      var i: nat := 0;
      while |unpushedReadMessages| > 0
        invariant delivered + unpushedReadMessages == old(delivered) + old(unpushedReadMessages)
        invariant old(delivered) <= delivered
        invariant |unpushedReadMessages| <= |old(unpushedReadMessages)|
        invariant unpushedReadMessages != [] ==> paused == old(paused)
        invariant !paused || paused == old(paused)
        invariant refusals >= old(refusals)
        invariant old(unpushedReadMessages) == [] ==> delivered == old(delivered) && refusals == old(refusals)
        invariant Flat(script) ==>
          && i <= |old(unpushedReadMessages)| && paused == old(paused)
          && delivered == old(delivered) + old(unpushedReadMessages)[..i]
          && unpushedReadMessages == old(unpushedReadMessages)[i..]
          && forall j :: 0 <= j < i ==> !StopsAfter(old(unpushedReadMessages), script, j)
        decreases |unpushedReadMessages|
      {
        var nextMessage := unpushedReadMessages[0];
        unpushedReadMessages := unpushedReadMessages[1..];
        ghost var position := |delivered|;
        var keepPushing := Push(nextMessage, Answer(script, i));
        assert delivered[position] == nextMessage;
        i := i + 1;
        if nextMessage == End || !keepPushing { return; }
      }
      paused := false;
    }

    /** Http2CallStream.tryPush. */
    method TryPush(messageBytes: seq<byte>, canPush: bool, r: Reaction) returns (still: bool)
      requires canPush ==> unpushedReadMessages == []
      requires !canPush ==> paused
      modifies this`unpushedReadMessages, this`pendingRead, this`paused, this`delivered, this`refusals
      ensures delivered + unpushedReadMessages
           == old(delivered) + old(unpushedReadMessages) + [Message(messageBytes)]
      ensures still == (canPush && r.more)
      ensures still ==> unpushedReadMessages == []
      ensures !still ==> paused
      ensures still ==> refusals == old(refusals) && (paused ==> old(paused))
      ensures canPush && !still ==> refusals > old(refusals)
      ensures !canPush ==> !still && unchanged(`refusals, `delivered)
    {
      still := canPush;
      if canPush {
        var more := Push(Message(messageBytes), r);
        if !more {
          still := false;
          paused := true;
        }
      } else {
        unpushedReadMessages := unpushedReadMessages + [Message(messageBytes)];
      }
    }

    /** NO_DATA: take the flag byte and clear the partial state. */
    method TakeFlag(available: seq<byte>, ghost rest: seq<byte>)
      requires Holds(rest) && readState == NoData && available != []
      modifies this`readState, this`readCompressFlag, this`readSizeRemaining, this`readMessageSize,
               this`readMessageRemaining, this`readPartialMessage, readPartialSize
      ensures Holds(rest + available[..1]) && !HasMessage(rest + available[..1])
    {
      readCompressFlag := available[0] != 0;
      readState := ReadingSize;
      for i := 0 to 4
        modifies readPartialSize
      {
        readPartialSize[i] := 0;
      }
      readSizeRemaining := 4;
      readMessageSize := 0;
      readMessageRemaining := 0;
      readPartialMessage := [];
    }

    /** READING_SIZE: copy what is available into the size buffer; once it is full,
        decode it. `empty` reports a complete message of length zero. */
    method TakeSize(available: seq<byte>, ghost rest: seq<byte>) returns (toRead: nat, empty: bool)
      requires Holds(rest) && readState == ReadingSize && available != []
      modifies this`readState, this`readSizeRemaining, this`readMessageSize,
               this`readMessageRemaining, readPartialSize
      ensures 0 < toRead <= |available|
      ensures !empty ==> Holds(rest + available[..toRead]) && !HasMessage(rest + available[..toRead])
      ensures empty ==> IsMessage(rest + available[..toRead]) && (rest + available[..toRead])[5..] == []
      ensures readPartialSize.Length == 4
    {
      toRead := Min(|available|, readSizeRemaining);
      var start := 4 - readSizeRemaining;
      for i := 0 to toRead
        modifies readPartialSize
        invariant readPartialSize[..start] == rest[1..]
        invariant readPartialSize[start..start + i] == available[..i]
      {
        readPartialSize[start + i] := available[i];
      }
      ghost var now := rest + available[..toRead];
      assert readPartialSize[..start + toRead] == now[1..];
      readSizeRemaining := readSizeRemaining - toRead;
      empty := false;
      if readSizeRemaining == 0 {
        assert readPartialSize[..] == now[1..5];
        readMessageSize := ReadU32(readPartialSize[..]);
        readMessageRemaining := readMessageSize;
        if readMessageRemaining > 0 {
          readState := ReadingMessage;
        } else {
          empty := true;
        }
      }
    }

    /** READING_MESSAGE: keep what is available of the payload; `complete` reports that
        nothing is missing. */
    method TakePayload(available: seq<byte>, ghost rest: seq<byte>) returns (toRead: nat, complete: bool)
      requires Holds(rest) && readState == ReadingMessage && available != []
      modifies this`readMessageRemaining, this`readPartialMessage
      ensures 0 < toRead <= |available|
      ensures !complete ==> Holds(rest + available[..toRead]) && !HasMessage(rest + available[..toRead])
      ensures complete ==>
        && IsMessage(rest + available[..toRead])
        && 0 <= readMessageSize
        && BufferConcat(readPartialMessage, readMessageSize) == (rest + available[..toRead])[5..]
      ensures readPartialSize.Length == 4
    {
      toRead := Min(|available|, readMessageRemaining);
      ghost var now := rest + available[..toRead];
      FlattenSnoc(readPartialMessage, available[..toRead]);
      assert now[5..] == rest[5..] + available[..toRead];
      assert now[1..5] == rest[1..5];
      readPartialMessage := readPartialMessage + [available[..toRead]];
      readMessageRemaining := readMessageRemaining - toRead;
      complete := readMessageRemaining == 0;
    }

    /** A complete message: push or queue it, and go back to NO_DATA. */
    method PushComplete(messageBytes: seq<byte>, canPush: bool, r: Reaction) returns (still: bool)
      requires readPartialSize.Length == 4 && Parse(received).rest == []
      requires delivered + unpushedReadMessages + [Message(messageBytes)] == Items(Parse(received).messages)
      requires canPush ==> unpushedReadMessages == [] && !paused
      requires !canPush ==> paused
      modifies this`readState, this`unpushedReadMessages, this`pendingRead, this`paused,
               this`delivered, this`refusals
      ensures Holds(Parse(received).rest)
      ensures delivered + unpushedReadMessages == Items(Parse(received).messages)
      ensures still == (canPush && r.more)
      ensures still ==> unpushedReadMessages == [] && !paused && refusals == old(refusals)
      ensures !still ==> paused && refusals >= old(refusals) + if canPush then 1 else 0
    {
      hide Parse, Items;
      still := TryPush(messageBytes, canPush, r);
      readState := NoData;
    }

    /** One turn of the data handler's loop: consume at least one byte of what is
        available, and push or queue the message it completes, if any. */
    method Step(available: seq<byte>, canPush: bool, r: Reaction) returns (toRead: nat, still: bool)
      requires attached && !ended && available != []
      requires Holds(Parse(received).rest)
      requires delivered + unpushedReadMessages == Items(Parse(received).messages)
      requires canPush ==> unpushedReadMessages == [] && !paused
      requires !canPush ==> paused
      modifies this, readPartialSize
      ensures attached && !ended && 0 < toRead <= |available|
      ensures received == old(received) + available[..toRead]
      ensures Holds(Parse(received).rest)
      ensures delivered + unpushedReadMessages == Items(Parse(received).messages)
      ensures canPush && r.more ==> still
      ensures still ==> canPush && unpushedReadMessages == [] && !paused && refusals == old(refusals)
      ensures !still ==> paused && refusals >= old(refusals) + if canPush then 1 else 0
    {
      hide Parse, HasMessage, IsMessage, Items, Holds, BufferConcat, Flatten;
      ghost var rest := Parse(received).rest;
      still := canPush;
      match readState {
        case NoData =>
          toRead := 1;
          TakeFlag(available, rest);
          Absorb(available[..toRead]);
        case ReadingSize =>
          var empty;
          toRead, empty := TakeSize(available, rest);
          Absorb(available[..toRead]);
          if empty {
            still := PushComplete([], canPush, r);
          }
        case ReadingMessage =>
          var complete;
          toRead, complete := TakePayload(available, rest);
          Absorb(available[..toRead]);
          if complete {
            still := PushComplete(BufferConcat(readPartialMessage, readMessageSize), canPush, r);
          }
      }
    }

    /** The 'data' handler. It never runs while the HTTP/2 stream is paused. */
    method OnData(data: seq<byte>, script: seq<Reaction>)
      requires Valid() && attached && !paused && !ended
      modifies this, readPartialSize
      ensures Valid() && attached && !ended
      ensures received == old(received) + data
      // The stream is paused exactly when the consumer refused a push of this event.
      ensures paused <==> refusals > old(refusals)
      // A consumer that takes everything keeps it flowing.
      ensures (forall n :: 0 <= n < |data| ==> Answer(script, n).more) ==> !paused
    {
      hide Parse;
      var readHead := 0;
      var canPush := true;
      var i := 0;
      while readHead < |data|
        invariant 0 <= i <= readHead <= |data|
        invariant !canPush ==> exists n :: 0 <= n < i && !Answer(script, n).more
        invariant attached && !ended
        invariant received == old(received) + data[..readHead]
        invariant Holds(Parse(received).rest)
        invariant delivered + unpushedReadMessages == Items(Parse(received).messages)
        invariant canPush ==> unpushedReadMessages == [] && !paused && refusals == old(refusals)
        invariant !canPush ==> paused && refusals > old(refusals)
      {
        var toRead, still := Step(data[readHead..], canPush, Answer(script, i));
        assert data[..readHead + toRead] == data[..readHead] + data[readHead..][..toRead];
        readHead, canPush, i := readHead + toRead, still, i + 1;
      }
      assert data[..readHead] == data;
    }

    /** Account for a consumed piece: the parse of everything received grows by the
        parse of the leftover extended with the piece. */
    ghost method Absorb(piece: seq<byte>)
      modifies this`received
      ensures received == old(received) + piece
      ensures var s := old(Parse(received).rest) + piece;
        && (!HasMessage(s) ==> Parse(received) == Parsed(old(Parse(received).messages), s))
        && (IsMessage(s) ==>
            && Parse(received).rest == []
            && Items(Parse(received).messages) == Items(old(Parse(received).messages)) + [Message(s[5..])])
    {
      ParseAppend(received, piece);
      ParsePiece(Parse(received).rest + piece);
      received := received + piece;
    }

    /** The 'end' handler. */
    method OnEnd(r: Reaction)
      requires Valid() && attached && !ended
      modifies this
      ensures Valid() && attached && ended
      ensures received == old(received)
    {
      hide Parse, Holds;
      ghost var due := Due();
      assert delivered + unpushedReadMessages == due;
      ended := true;
      if |unpushedReadMessages| == 0 {
        var _ := Push(End, r);
        assert delivered + unpushedReadMessages == due + [End];
      } else {
        unpushedReadMessages := unpushedReadMessages + [End];
        assert delivered + unpushedReadMessages == due + [End];
      }
    }

    /** The flow-control part of attachHttp2Stream. */
    method OnAttach()
      requires Valid() && !attached
      modifies this`attached, this`paused
      ensures Valid() && attached && paused == !pendingRead
    {
      attached := true;
      paused := !pendingRead;
    }

    /** Any run. An event the environment cannot produce in the current state (data
        while paused, anything after end) does not happen. */
    method Run(events: seq<Event>)
      requires Valid()
      modifies this, readPartialSize
      ensures Valid()
      ensures delivered + unpushedReadMessages == Due()
      ensures unpushedReadMessages != [] ==> paused
      ensures history == old(history) + events
    {
      hide Parse, Holds;
      for n := 0 to |events|
        invariant Valid() && history == old(history) + events[..n]
      {
        Handle(events[n]);
        assert events[..n + 1] == events[..n] + [events[n]];
      }
      assert events[..|events|] == events;
    }

    method Handle(event: Event)
      requires Valid()
      modifies this, readPartialSize
      ensures Valid()
      ensures received == old(received) +
        if event.Data? && old(attached && !paused && !ended) then event.chunk else []
      ensures attached == (old(attached) || event.Attach?)
      ensures ended == (old(ended) || (event.StreamEnd? && old(attached)))
      // Nothing is queued after the end.
      ensures old(ended && unpushedReadMessages == []) ==> unpushedReadMessages == []
      ensures history == old(history) + [event]
    {
      hide Parse, Holds;
      ghost var past := history;
      match event {
        case Attach => if !attached { OnAttach(); }
        case Data(chunk, script) => if attached && !paused && !ended { OnData(chunk, script); }
        case Read(script) => ReadMore(script);
        case StreamEnd(r) => if attached && !ended { OnEnd(r); }
      }
      history := past + [event];
    }
  }

  function Min(a: int, b: int): (r: int)
  {
    if a < b then a else b
  }

  /** End to end: whatever was encoded by the peer is what the consumer has been
      given, once the stream has ended and the queue is drained. */
  lemma Complete(reader: CallReader, messages: seq<seq<byte>>)
    requires reader.Valid() && reader.ended && reader.unpushedReadMessages == []
    requires Encodable(messages) && reader.received == EncodeAll(messages)
    ensures reader.delivered == Items(messages) + [End]
    ensures reader.Holds([])
  {
    ParseEncodeAll(messages, []);
    assert EncodeAll(messages) + [] == EncodeAll(messages);
    assert reader.delivered + [] == reader.delivered;
  }
}
