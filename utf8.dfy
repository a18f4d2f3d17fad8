/**
 * UTF-8 as Node's `Buffer.from(string)` and `buf.toString()` use it. Dafny
 * characters are Unicode scalar values, so every string has an encoding and
 * the encoding can be read back.
 */
module Utf8 {
  import opened Wrappers

  type Byte = b: int | 0 <= b < 256

  predicate IsContinuation(b: Byte) { 0x80 <= b < 0xC0 }

  predicate IsScalar(n: int)
  {
    (0 <= n < 0xD800) || (0xE000 <= n < 0x110000)
  }

  /** The bytes of one character. */
  function EncodeChar(c: char): (r: seq<Byte>)
    ensures 1 <= |r| <= 4
    ensures |r| == 1 <==> r[0] < 0x80
    ensures |r| == 2 <==> 0xC0 <= r[0] < 0xE0
    ensures |r| == 3 <==> 0xE0 <= r[0] < 0xF0
    ensures |r| == 4 <==> 0xF0 <= r[0] < 0xF8
    ensures forall i :: 1 <= i < |r| ==> IsContinuation(r[i])
  {
    var n := c as int;
    if n < 0x80 then [n]
    else if n < 0x800 then [0xC0 + n / 64, 0x80 + n % 64]
    else if n < 0x10000 then [0xE0 + n / 4096, 0x80 + (n / 64) % 64, 0x80 + n % 64]
    else [0xF0 + n / 262144, 0x80 + (n / 4096) % 64, 0x80 + (n / 64) % 64, 0x80 + n % 64]
  }

  /** `Buffer.from(s)`: the concatenated encodings of the characters of `s`. */
  function Encode(s: string): (r: seq<Byte>)
    ensures |r| >= |s|
  {
    if s == [] then [] else EncodeChar(s[0]) + Encode(s[1..])
  }

  /** Number of bytes a sequence starting with lead byte `b` occupies, or 0 for a byte that cannot lead. */
  function SequenceLength(b: Byte): (n: nat)
    ensures n <= 4
  {
    if b < 0x80 then 1
    else if 0xC0 <= b < 0xE0 then 2
    else if 0xE0 <= b < 0xF0 then 3
    else if 0xF0 <= b < 0xF8 then 4
    else 0
  }

  /** The scalar value of the first encoded character of `b`, when `b` starts with a well-formed one. */
  function DecodeFirst(b: seq<Byte>): (r: Option<(char, nat)>)
    ensures r.Some? ==> 1 <= r.value.1 <= |b|
  {
    if b == [] then None
    else
      var n := SequenceLength(b[0]);
      if n == 0 || n > |b| then None
      else if exists i :: 1 <= i < n && !IsContinuation(b[i]) then None
      else
        var b0, b1, b2, b3 := b[0] as int, (if n > 1 then b[1] else 0) as int,
                              (if n > 2 then b[2] else 0) as int, (if n > 3 then b[3] else 0) as int;
        var v: int :=
          if n == 1 then b0
          else if n == 2 then (b0 - 0xC0) * 64 + (b1 - 0x80)
          else if n == 3 then (b0 - 0xE0) * 4096 + (b1 - 0x80) * 64 + (b2 - 0x80)
          else (b0 - 0xF0) * 262144 + (b1 - 0x80) * 4096 + (b2 - 0x80) * 64 + (b3 - 0x80);
        if IsScalar(v) then Some((v as char, n)) else None
  }

  /** Reads a whole buffer back as a string; `None` when it is not well-formed UTF-8. */
  function Decode(b: seq<Byte>): (r: Option<string>)
    decreases |b|
  {
    if b == [] then Some([])
    else
      match DecodeFirst(b)
      case None => None
      case Some((c, n)) =>
        match Decode(b[n..])
        case None => None
        case Some(rest) => Some([c] + rest)
  }

  lemma {:induction false} DecodeFirstOfEncodeChar(c: char, tail: seq<Byte>)
    ensures DecodeFirst(EncodeChar(c) + tail) == Some((c, |EncodeChar(c)|))
  {
    var n := c as int;
    var e := EncodeChar(c);
    var b := e + tail;
    assert b[..|e|] == e;
    if n < 0x80 {
    } else if n < 0x800 {
      assert (n / 64) * 64 + n % 64 == n;
    } else if n < 0x10000 {
      assert n / 4096 == (n / 64) / 64;
      assert ((n / 64) / 64) * 64 + (n / 64) % 64 == n / 64;
      assert (n / 4096) * 4096 + ((n / 64) % 64) * 64 + n % 64 == n;
    } else {
      assert n / 4096 == (n / 64) / 64;
      assert n / 262144 == (n / 4096) / 64;
      assert ((n / 4096) / 64) * 64 + (n / 4096) % 64 == n / 4096;
      assert ((n / 64) / 64) * 64 + (n / 64) % 64 == n / 64;
      assert (n / 262144) * 262144 + ((n / 4096) % 64) * 4096 + ((n / 64) % 64) * 64 + n % 64 == n;
    }
  }

  /** Reading back what `Buffer.from` wrote gives the original string. */
  lemma {:induction false} DecodeEncode(s: string)
    ensures Decode(Encode(s)) == Some(s)
  {
    if s != [] {
      var e := EncodeChar(s[0]);
      DecodeFirstOfEncodeChar(s[0], Encode(s[1..]));
      assert (e + Encode(s[1..]))[|e|..] == Encode(s[1..]);
      DecodeEncode(s[1..]);
      assert [s[0]] + s[1..] == s;
    }
  }

  /** Different strings have different encodings. */
  lemma EncodeInjective(a: string, b: string)
    ensures Encode(a) == Encode(b) <==> a == b
  {
    if Encode(a) == Encode(b) {
      DecodeEncode(a);
      DecodeEncode(b);
    }
  }
}
