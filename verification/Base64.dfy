/** Base64 as Node writes it (section 4 of RFC 4648, with padding) and reads it (both
    alphabets, anything else skipped). */
module Base64 {
  import opened Wire

  type sextet = x: int | 0 <= x < 64

  function ToChar(n: sextet): (c: char)
  {
    if n < 26 then ('A' as int + n) as char
    else if n < 52 then ('a' as int + n - 26) as char
    else if n < 62 then ('0' as int + n - 52) as char
    else if n == 62 then '+'
    else '/'
  }

  /** The value of a character, or -1 for one that the decoder skips. */
  function FromChar(c: char): (n: int)
    ensures -1 <= n < 64
  {
    if 'A' <= c <= 'Z' then c as int - 'A' as int
    else if 'a' <= c <= 'z' then c as int - 'a' as int + 26
    else if '0' <= c <= '9' then c as int - '0' as int + 52
    else if c == '+' || c == '-' then 62
    else if c == '/' || c == '_' then 63
    else -1
  }

  lemma FromToChar(n: sextet)
    ensures FromChar(ToChar(n)) == n
  {}

  /** The alphabet of section 4 of RFC 4648. */
  lemma Alphabet(n: sextet)
    ensures n < 26 ==> ToChar(n) == "ABCDEFGHIJKLMNOPQRSTUVWXYZ"[n]
    ensures 26 <= n < 52 ==> ToChar(n) == "abcdefghijklmnopqrstuvwxyz"[n - 26]
    ensures 52 <= n < 62 ==> ToChar(n) == "0123456789"[n - 52]
    ensures ToChar(62) == '+' && ToChar(63) == '/'
  {}

  /** What the decoder reads: that alphabet, the two other characters of section 5, and
      nothing more. */
  lemma ReadAlphabet(c: char)
    ensures FromChar(c) >= 0 ==> c == '-' || c == '_' || ToChar(FromChar(c)) == c
    ensures FromChar('-') == 62 && FromChar('_') == 63
  {}

  /** Three bytes as four groups of six bits. */
  function ToSextets(a: byte, b: byte, c: byte): (r: seq<sextet>)
    ensures |r| == 4
  {
    [a / 4, a % 4 * 16 + b / 16, b % 16 * 4 + c / 64, c % 64]
  }

  /** Four groups of six bits as three bytes. */
  function ToBytes(x: sextet, y: sextet, z: sextet, w: sextet): (r: seq<byte>)
    ensures |r| == 3
  {
    [x as int * 4 + y / 16, y as int % 16 * 16 + z / 4, z as int % 4 * 64 + w]
  }

  /** The three bytes and the four groups are the same 24-bit number, most significant first. */
  lemma GroupValue(a: byte, b: byte, c: byte)
    ensures var x := ToSextets(a, b, c);
      0x1_0000 * a as int + 0x100 * b as int + c ==
        0x4_0000 * x[0] as int + 0x1000 * x[1] as int + 0x40 * x[2] as int + x[3]
  {}

  lemma Split(high: nat, low: nat, base: nat)
    requires low < base && (base == 4 || base == 16)
    ensures (high * base + low) / base == high && (high * base + low) % base == low
  {}

  lemma ToBytesToSextets(a: byte, b: byte, c: byte)
    ensures var x := ToSextets(a, b, c); ToBytes(x[0], x[1], x[2], x[3]) == [a, b, c]
  {
    Split(a % 4, b / 16, 16);
    Split(b % 16, c / 64, 4);
  }

  /** Six bits at a time; a last group of one or two bytes is filled with zero bits. */
  function Sextets(b: seq<byte>): (r: seq<sextet>)
  {
    if |b| == 0 then []
    else if |b| == 1 then ToSextets(b[0], 0, 0)[..2]
    else if |b| == 2 then ToSextets(b[0], b[1], 0)[..3]
    else ToSextets(b[0], b[1], b[2]) + Sextets(b[3..])
  }

  /** Eight bits at a time; bits that do not fill a byte are dropped. */
  function Octets(x: seq<sextet>): (r: seq<byte>)
  {
    if |x| < 2 then []
    else if |x| == 2 then ToBytes(x[0], x[1], 0, 0)[..1]
    else if |x| == 3 then ToBytes(x[0], x[1], x[2], 0)[..2]
    else ToBytes(x[0], x[1], x[2], x[3]) + Octets(x[4..])
  }

  lemma ShortGroup(b: seq<byte>)
    requires 1 <= |b| <= 2
    ensures Octets(Sextets(b)) == b
  {
    hide ToSextets, ToBytes;
    if |b| == 1 {
      ToBytesToSextets(b[0], 0, 0);
      ZeroBits(b[0], 0);
    } else {
      ToBytesToSextets(b[0], b[1], 0);
      ZeroBits(b[0], b[1]);
    }
  }

  lemma ZeroBits(a: byte, b: byte)
    ensures ToSextets(a, b, 0)[3] == 0
    ensures ToSextets(a, 0, 0)[2] == 0
  {}

  lemma {:induction false} OctetsSextets(b: seq<byte>)
    ensures Octets(Sextets(b)) == b
  {
    hide ToSextets, ToBytes;
    if b == [] {
    } else if |b| < 3 {
      ShortGroup(b);
    } else {
      ToBytesToSextets(b[0], b[1], b[2]);
      OctetsSextets(b[3..]);
      assert Sextets(b)[4..] == Sextets(b[3..]);
      assert b == [b[0], b[1], b[2]] + b[3..];
    }
  }

  function Chars(x: seq<sextet>): (s: string)
    ensures |s| == |x|
    ensures forall i :: 0 <= i < |x| ==> s[i] == ToChar(x[i])
  {
    seq(|x|, i requires 0 <= i < |x| => ToChar(x[i]))
  }

  /** buffer.toString('base64') */
  function Encode(b: seq<byte>): (s: string)
  {
    Chars(Sextets(b)) + if |b| % 3 == 0 then "" else if |b| % 3 == 1 then "==" else "="
  }

  /** The padding fills the last group of four. */
  lemma {:induction false} EncodeLength(b: seq<byte>)
    ensures |Sextets(b)| == |b| / 3 * 4 + (if |b| % 3 == 0 then 0 else |b| % 3 + 1)
    ensures |Encode(b)| == (|b| + 2) / 3 * 4
  {
    hide ToSextets;
    if |b| < 3 {
    } else {
      EncodeLength(b[3..]);
      assert |Sextets(b)| == 4 + |Sextets(b[3..])|;
    }
  }

  function Readable(s: string): (x: seq<sextet>)
  {
    if s == "" then []
    else (if FromChar(s[0]) < 0 then [] else [FromChar(s[0])]) + Readable(s[1..])
  }

  /** Buffer.from(s, 'base64') */
  function Decode(s: string): (b: seq<byte>)
  {
    Octets(Readable(s))
  }

  lemma {:induction false} ReadableChars(x: seq<sextet>, padding: string)
    requires Readable(padding) == []
    ensures Readable(Chars(x) + padding) == x
  {
    var s := Chars(x) + padding;
    if x == [] {
      assert s == padding;
    } else {
      ReadableChars(x[1..], padding);
      FromToChar(x[0]);
      assert s[1..] == Chars(x[1..]) + padding;
    }
  }

  lemma DecodeEncode(b: seq<byte>)
    ensures Decode(Encode(b)) == b
  {
    assert Readable("=") == [] by { assert ("=")[1..] == ""; }
    assert Readable("==") == [] by { assert ("==")[1..] == "="; }
    ReadableChars(Sextets(b), Encode(b)[|Sextets(b)|..]);
    OctetsSextets(b);
  }

  /** The test vectors of section 10 of RFC 4648: "f", "fo", "foo" and "foobar". */
  lemma TestVectors()
    ensures Encode([0x66]) == "Zg=="
    ensures Encode([0x66, 0x6f]) == "Zm8="
    ensures Encode([0x66, 0x6f, 0x6f]) == "Zm9v"
    ensures Encode([0x66, 0x6f, 0x6f, 0x62, 0x61, 0x72]) == "Zm9vYmFy"
  {
    ShortVectors();
    LongVectors();
    hide Sextets;
  }

  lemma ShortVectors()
    ensures Sextets([0x66]) == [25, 32] && Sextets([0x66, 0x6f]) == [25, 38, 60]
  {}

  lemma LongVectors()
    ensures Sextets([0x66, 0x6f, 0x6f]) == [25, 38, 61, 47]
    ensures Sextets([0x66, 0x6f, 0x6f, 0x62, 0x61, 0x72]) == [25, 38, 61, 47, 24, 38, 5, 50]
  {
    assert [0x66, 0x6f, 0x6f][3..] == [];
    assert [0x66, 0x6f, 0x6f, 0x62, 0x61, 0x72][3..] == [0x62, 0x61, 0x72];
    assert [0x62, 0x61, 0x72][3..] == [];
  }
}
