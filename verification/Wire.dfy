/** The gRPC length-prefixed message format: one flag byte, a big-endian 32-bit
    length and the payload, and the recursive parser that defines what a byte
    string means. */
module Wire {

  type byte = x: int | 0 <= x < 256

  const U32_LIMIT := 0x1_0000_0000

  function ReadU32(s: seq<byte>): (n: nat)
    requires |s| == 4
    ensures n < U32_LIMIT
  {
    0x1_0000 * (0x100 * s[0] as int + s[1] as int) + (0x100 * s[2] as int + s[3] as int)
  }

  function WriteU32(n: nat): (s: seq<byte>)
    requires n < U32_LIMIT
    ensures |s| == 4
    ensures ReadU32(s) == n
  {
    var high, low := n / 0x1_0000, n % 0x1_0000;
    [high / 0x100, high % 0x100, low / 0x100, low % 0x100]
  }

  /** A big-endian length has only one spelling. */
  lemma WriteReadU32(s: seq<byte>)
    requires |s| == 4
    ensures WriteU32(ReadU32(s)) == s
  {
    var n := ReadU32(s);
    assert n / 0x1_0000 == 0x100 * s[0] as int + s[1] as int;
  }

  /** The most significant byte comes first: lengths are ordered as their bytes are. With the
      two laws above, this leaves no other way to spell them. */
  lemma BigEndian(s: seq<byte>, t: seq<byte>, i: nat)
    requires |s| == |t| == 4 && i < 4
    requires s[..i] == t[..i] && s[i] < t[i]
    ensures ReadU32(s) < ReadU32(t)
  {
    assert forall j :: 0 <= j < i ==> s[j] == s[..i][j] == t[j];
  }

  function Flatten<T>(chunks: seq<seq<T>>): (r: seq<T>)
  {
    if chunks == [] then [] else chunks[0] + Flatten(chunks[1..])
  }

  lemma {:induction false} FlattenSnoc<T>(chunks: seq<seq<T>>, last: seq<T>)
    ensures Flatten(chunks + [last]) == Flatten(chunks) + last
  {
    if chunks == [] {
      assert [] + [last] == [last];
      assert Flatten([last]) == last + Flatten([]);
    } else {
      FlattenSnoc(chunks[1..], last);
      assert (chunks + [last])[1..] == chunks[1..] + [last];
      calc {
        Flatten(chunks + [last]);
        chunks[0] + (Flatten(chunks[1..]) + last);
        Flatten(chunks) + last;
      }
    }
  }

  /** Node's Buffer.concat(list, totalLength): cut to the given length, or padded
      with zero bytes up to it. */
  function BufferConcat(list: seq<seq<byte>>, totalLength: nat): (r: seq<byte>)
    ensures |r| == totalLength
  {
    var all := Flatten(list);
    if |all| >= totalLength then all[..totalLength]
    else all + seq(totalLength - |all|, _ => 0)
  }

  /** The complete messages at the front of a byte string, and what is left over. */
  datatype Parsed = Parsed(messages: seq<seq<byte>>, rest: seq<byte>)

  predicate HasMessage(s: seq<byte>)
  {
    |s| >= 5 && |s| >= 5 + ReadU32(s[1..5])
  }

  function Parse(s: seq<byte>): (p: Parsed)
    ensures !HasMessage(p.rest)
    decreases |s|
  {
    if !HasMessage(s) then Parsed([], s)
    else
      var n := 5 + ReadU32(s[1..5]);
      var tail := Parse(s[n..]);
      Parsed([s[5..n]] + tail.messages, tail.rest)
  }

  lemma ParseNothing(rest: seq<byte>)
    requires !HasMessage(rest)
    ensures Parse(rest) == Parsed([], rest)
  {}

  lemma ParseFirst(s: seq<byte>)
    requires HasMessage(s)
    ensures var n := 5 + ReadU32(s[1..5]);
      Parse(s) == Parsed([s[5..n]] + Parse(s[n..]).messages, Parse(s[n..]).rest)
  {}

  /** Parsing can stop after any prefix and resume from the leftover bytes. */
  lemma {:induction false} ParseAppend(s: seq<byte>, t: seq<byte>)
    ensures Parse(s + t).messages == Parse(s).messages + Parse(Parse(s).rest + t).messages
    ensures Parse(s + t).rest == Parse(Parse(s).rest + t).rest
    decreases |s|
  {
    hide Parse, ReadU32;
    if !HasMessage(s) {
      ParseNothing(s);
    } else {
      var n := 5 + ReadU32(s[1..5]);
      assert (s + t)[1..5] == s[1..5];
      assert (s + t)[n..] == s[n..] + t;
      assert (s + t)[5..n] == s[5..n];
      ParseFirst(s);
      ParseFirst(s + t);
      ParseAppend(s[n..], t);
    }
  }

  /** What a message looks like on the wire; the compressed flag is always 0. */
  function Encode(message: seq<byte>): (s: seq<byte>)
    requires |message| < U32_LIMIT
    ensures |s| == |message| + 5
  {
    [0] + WriteU32(|message|) + message
  }

  /** Byte by byte: a zero flag, the length, the payload. */
  lemma EncodeLayout(message: seq<byte>, x: byte)
    requires |message| < U32_LIMIT
    ensures var s := Encode(message); s[0] == 0 && ReadU32(s[1..5]) == |message| && s[5..] == message
    ensures Encode([x]) == [0, 0, 0, 0, 1, x]
  {
    assert Encode(message)[1..5] == WriteU32(|message|);
    assert WriteU32(1) == [0, 0, 0, 1];
  }

  ghost predicate Encodable(messages: seq<seq<byte>>)
  {
    forall i :: 0 <= i < |messages| ==> |messages[i]| < U32_LIMIT
  }

  function EncodeAll(messages: seq<seq<byte>>): (s: seq<byte>)
    requires Encodable(messages)
  {
    if messages == [] then [] else Encode(messages[0]) + EncodeAll(messages[1..])
  }

  lemma {:induction false} EncodeAllSnoc(messages: seq<seq<byte>>, m: seq<byte>)
    requires Encodable(messages) && |m| < U32_LIMIT
    ensures EncodeAll(messages + [m]) == EncodeAll(messages) + Encode(m)
  {
    hide Encode;
    if messages == [] {
      assert [] + [m] == [m];
      assert EncodeAll([m]) == Encode(m) + EncodeAll([]);
    } else {
      EncodeAllSnoc(messages[1..], m);
      assert (messages + [m])[1..] == messages[1..] + [m];
      var first, rest, last := Encode(messages[0]), EncodeAll(messages[1..]), Encode(m);
      assert first + (rest + last) == (first + rest) + last;
    }
  }

  /** The parser undoes the encoder, and an unfinished tail stays untouched. */
  lemma {:induction false} ParseEncodeAll(messages: seq<seq<byte>>, tail: seq<byte>)
    requires Encodable(messages) && !HasMessage(tail)
    ensures Parse(EncodeAll(messages) + tail) == Parsed(messages, tail)
  {
    hide Parse, ReadU32, WriteU32;
    if messages == [] {
      assert EncodeAll(messages) + tail == tail;
      ParseNothing(tail);
    } else {
      var m, more := messages[0], EncodeAll(messages[1..]) + tail;
      var s := Encode(m) + more;
      assert EncodeAll(messages) + tail == s;
      assert s[1..5] == WriteU32(|m|);
      assert s[5..5 + |m|] == m;
      assert s[5 + |m|..] == more;
      ParseFirst(s);
      ParseEncodeAll(messages[1..], tail);
    }
  }

  /** The same bytes with the flag of every complete message cleared. */
  function ClearFlags(s: seq<byte>): (r: seq<byte>)
    ensures |r| == |s|
    decreases |s|
  {
    if !HasMessage(s) then s
    else
      var n := 5 + ReadU32(s[1..5]);
      [0] + s[1..n] + ClearFlags(s[n..])
  }

  lemma EncodeFirst(s: seq<byte>)
    requires HasMessage(s)
    ensures var n := 5 + ReadU32(s[1..5]); Encode(s[5..n]) == [0] + s[1..n]
  {
    var n := 5 + ReadU32(s[1..5]);
    WriteReadU32(s[1..5]);
    assert s[1..n] == s[1..5] + s[5..n];
  }

  /** Conversely, parsing loses nothing but the flag bytes. */
  lemma {:induction false} EncodeAllParse(s: seq<byte>)
    ensures Encodable(Parse(s).messages)
    ensures EncodeAll(Parse(s).messages) + Parse(s).rest == ClearFlags(s)
    decreases |s|
  {
    hide Parse, ReadU32, Encode;
    if !HasMessage(s) {
      ParseNothing(s);
      assert [] + s == s;
    } else {
      var n := 5 + ReadU32(s[1..5]);
      var tail := Parse(s[n..]);
      EncodeAllParse(s[n..]);
      EncodeFirst(s);
      ParseFirst(s);
      var first, more := Encode(s[5..n]), EncodeAll(tail.messages);
      assert Parse(s).messages[1..] == tail.messages;
      assert (first + more) + tail.rest == first + (more + tail.rest);
    }
  }

  /** Feeding the parser one chunk at a time, carrying the leftover bytes. */
  function ParseChunks(rest: seq<byte>, chunks: seq<seq<byte>>): (p: Parsed)
    decreases |chunks|
  {
    if chunks == [] then Parsed([], rest)
    else
      var first := Parse(rest + chunks[0]);
      var tail := ParseChunks(first.rest, chunks[1..]);
      Parsed(first.messages + tail.messages, tail.rest)
  }

  /** How the bytes are cut into chunks does not matter. */
  lemma {:induction false} ChunkingIrrelevant(rest: seq<byte>, chunks: seq<seq<byte>>)
    requires !HasMessage(rest)
    ensures ParseChunks(rest, chunks) == Parse(rest + Flatten(chunks))
    decreases |chunks|
  {
    hide Parse, HasMessage;
    if chunks == [] {
      ParseNothing(rest);
      assert rest + [] == rest;
    } else {
      var first := Parse(rest + chunks[0]);
      ChunkingIrrelevant(first.rest, chunks[1..]);
      ParseAppend(rest + chunks[0], Flatten(chunks[1..]));
      assert rest + Flatten(chunks) == (rest + chunks[0]) + Flatten(chunks[1..]);
    }
  }

  /** Encode, concatenate, cut anywhere, deframe: the same messages, nothing left. */
  lemma RoundTrip(messages: seq<seq<byte>>, chunks: seq<seq<byte>>)
    requires Encodable(messages)
    requires Flatten(chunks) == EncodeAll(messages)
    ensures ParseChunks([], chunks) == Parsed(messages, [])
  {
    ChunkingIrrelevant([], chunks);
    ParseEncodeAll(messages, []);
    assert [] + Flatten(chunks) == EncodeAll(messages) + [];
  }

  /** Http2CallStream.encodeMessage. The output buffer starts with arbitrary contents
      and every byte of it is overwritten; writeUInt32BE rejects a length that does
      not fit. */
  method EncodeMessage(message: seq<byte>) returns (ok: bool, output: array<byte>)
    ensures fresh(output)
    ensures ok <==> |message| < U32_LIMIT
    ensures ok ==> output[..] == Encode(message)
  {
    output := new byte[|message| + 5];
    output[0] := 0;
    if |message| >= U32_LIMIT { return false, output; }
    var size := WriteU32(|message|);
    output[1], output[2], output[3], output[4] := size[0], size[1], size[2], size[3];
    for i := 0 to |message|
      invariant output[..5] == [0] + size
      invariant output[5..5 + i] == message[..i]
    {
      output[5 + i] := message[i];
    }
    assert output[..] == output[..5] + output[5..];
    return true, output;
  }
}
