/** The UTF-8 bytes behind the agent's strings: `str::len` and `as_bytes` count
    and yield these, and `String::from_utf8` inverts them. */
module Utf8 {
  import opened Text

  type byte = x: int | 0 <= x < 256

  predicate IsScalar(v: int) { 0 <= v < 0xD800 || 0xE000 <= v < 0x110000 }

  function EncodeChar(c: char): (r: seq<byte>)
    ensures 1 <= |r| <= 4
  {
    var v := c as int;
    if v < 0x80 then [v]
    else if v < 0x800 then [0xC0 + v / 64, 0x80 + v % 64]
    else if v < 0x10000 then [0xE0 + v / 4096, 0x80 + v / 64 % 64, 0x80 + v % 64]
    else [0xF0 + v / 262144, 0x80 + v / 4096 % 64, 0x80 + v / 64 % 64, 0x80 + v % 64]
  }

  function Encode(s: string): seq<byte> {
    if s == [] then [] else EncodeChar(s[0]) + Encode(s[1..])
  }

  /** `str::len`. */
  function ByteLen(s: string): nat { |Encode(s)| }

  /** The length of the sequence a leading byte announces, 0 for none. */
  function SequenceLength(b: byte): nat {
    if b < 0x80 then 1 else if b < 0xC0 then 0 else if b < 0xE0 then 2 else
    if b < 0xF0 then 3 else if b < 0xF8 then 4 else 0
  }

  function SequenceValue(b: seq<byte>): int
    requires 1 <= |b| <= 4
  {
    var b0: int := b[0];
    if |b| == 1 then b0 else
      var b1: int := b[1];
      if |b| == 2 then (b0 - 0xC0) * 64 + (b1 - 0x80) else
        var b2: int := b[2];
        if |b| == 3 then (b0 - 0xE0) * 4096 + (b1 - 0x80) * 64 + (b2 - 0x80) else
          var b3: int := b[3];
          (b0 - 0xF0) * 262144 + (b1 - 0x80) * 4096 + (b2 - 0x80) * 64 + (b3 - 0x80)
  }

  /** The scalar value at the front, refusing overlong and out-of-range forms. */
  function DecodeChar(b: seq<byte>): (r: Option<char>)
    ensures r.Some? ==> EncodeChar(r.value) <= b
  {
    if b == [] then None else
      var n := SequenceLength(b[0]);
      if n == 0 || n > |b| then None else
        var v := SequenceValue(b[..n]);
        if IsScalar(v) && EncodeChar(v as char) == b[..n] then Some(v as char) else None
  }

  /** `String::from_utf8`. */
  function Decode(b: seq<byte>): (r: Option<string>)
    ensures r.Some? ==> Encode(r.value) == b
    decreases |b|
  {
    if b == [] then Some([]) else
      match DecodeChar(b)
      case None => None
      case Some(c) =>
        match Decode(b[|EncodeChar(c)|..])
        case None => None
        case Some(s) =>
          assert ([c] + s)[1..] == s;
          Some([c] + s)
  }

  lemma SequenceOfChar(c: char)
    ensures SequenceLength(EncodeChar(c)[0]) == |EncodeChar(c)|
    ensures SequenceValue(EncodeChar(c)) == c as int
  {
    var v := c as int;
    var hi := v / 64;
    assert v == hi * 64 + v % 64;
    if 0x800 <= v {
      assert v / 4096 == hi / 64;
      assert hi == v / 4096 * 64 + hi % 64;
    }
    if 0x10000 <= v {
      assert v / 262144 == v / 4096 / 64;
    }
  }

  lemma DecodeEncodedChar(c: char, rest: seq<byte>)
    ensures DecodeChar(EncodeChar(c) + rest) == Some(c)
  {
    var b := EncodeChar(c) + rest;
    SequenceOfChar(c);
    assert b[..|EncodeChar(c)|] == EncodeChar(c);
    assert IsScalar(c as int);
    assert (c as int) as char == c;
  }

  /** Decoding inverts encoding on every string; with the contract of `Decode`,
      `from_utf8` accepts exactly the encodings of strings. */
  lemma {:induction false} DecodeEncode(s: string)
    ensures Decode(Encode(s)) == Some(s)
  {
    if s == [] {
    } else {
      DecodeEncodedChar(s[0], Encode(s[1..]));
      assert Encode(s)[|EncodeChar(s[0])|..] == Encode(s[1..]);
      DecodeEncode(s[1..]);
      assert s == [s[0]] + s[1..];
    }
  }

  lemma EncodeInjective(s: string, t: string)
    requires Encode(s) == Encode(t)
    ensures s == t
  {
    DecodeEncode(s);
    DecodeEncode(t);
  }

  lemma {:induction false} EncodeConcat(s: string, t: string)
    ensures Encode(s + t) == Encode(s) + Encode(t)
  {
    if s == [] {
      assert s + t == t;
    } else {
      assert (s + t)[1..] == s[1..] + t;
      EncodeConcat(s[1..], t);
    }
  }

  lemma {:induction false} EncodeAscii(s: string)
    requires AllAscii(s)
    ensures |Encode(s)| == |s|
    ensures forall i :: 0 <= i < |s| ==> Encode(s)[i] == s[i] as int
  {
    if s == [] {
    } else {
      EncodeAscii(s[1..]);
      assert Encode(s) == [s[0] as int] + Encode(s[1..]);
    }
  }

  lemma {:induction false} ByteLenAtLeast(s: string)
    ensures |s| <= ByteLen(s)
  {
    if s == [] {
    } else {
      ByteLenAtLeast(s[1..]);
    }
  }
}
