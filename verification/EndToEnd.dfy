/** Both ends together: what the writing half of a call sends, and what a reading half at
    the other end of the byte stream delivers. */
module EndToEnd {
  import opened Wire
  import ReadPath
  import CallLifecycle

  /** Whatever part of a byte string has arrived, the messages in it come first. */
  lemma ParsePrefix(part: seq<byte>, whole: seq<byte>)
    requires part <= whole
    ensures Parse(part).messages <= Parse(whole).messages
  {
    assert whole == part + whole[|part|..];
    ParseAppend(part, whole[|part|..]);
  }

  /** At every moment of both runs, however the bytes are cut and delayed, the consumer has
      been given no more than the messages that the producer wrote and that have arrived
      complete, in order, and the end only after all of those. Once every
      byte sent has arrived, the stream has ended and the queue is drained, it has been
      given all of them, and the end. */
  lemma InOrder(sender: CallLifecycle.Http2CallStream, reader: ReadPath.CallReader)
    requires sender.Valid() && reader.Valid()
    requires reader.received <= CallLifecycle.Sent(sender.log)
    ensures var n := |Parse(reader.received).messages|;
      && n <= |sender.messages|
      && reader.delivered <= ReadPath.Items(sender.messages[..n]) + if reader.ended then [ReadPath.End] else []
    ensures reader.ended && reader.unpushedReadMessages == [] &&
            sender.http2Stream.Some? && reader.received == CallLifecycle.Sent(sender.log) ==>
              reader.delivered == ReadPath.Items(sender.messages) + [ReadPath.End]
  {
    hide Parse, EncodeAll, CallLifecycle.Sent, CallLifecycle.Trace;
    if sender.http2Stream.Some? {
      ParsePrefix(reader.received, EncodeAll(sender.messages));
      assert EncodeAll(sender.messages) + [] == EncodeAll(sender.messages);
      ParseEncodeAll(sender.messages, []);
    } else {
      ParseNothing(reader.received);
    }
    var n := |Parse(reader.received).messages|;
    assert Parse(reader.received).messages == sender.messages[..n];
    assert reader.delivered <= reader.Due();
  }
}
