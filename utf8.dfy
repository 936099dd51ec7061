/**
 * `str.encode('utf-8')`, the bytes an archive entry holds, together with a
 * strict decoder that reads them back.  Dafny's `char` is a Unicode scalar
 * value, so every character has exactly one UTF-8 form of one to four bytes.
 */
module Utf8 {
  import opened Wrappers

  type byte = b: int | 0 <= b < 0x100

  /** A continuation byte `10xxxxxx`. */
  predicate IsContinuation(b: byte)
  {
    0x80 <= b < 0xC0
  }

  /** The UTF-8 form of one scalar value. */
  function EncodeChar(c: char): (r: seq<byte>)
    ensures 1 <= |r| <= 4
    ensures (c as int < 0x80) <==> |r| == 1
    ensures forall i :: 1 <= i < |r| ==> IsContinuation(r[i])
  {
    var n := c as int;
    if n < 0x80 then [n]
    else if n < 0x800 then [0xC0 + n / 0x40, 0x80 + n % 0x40]
    else if n < 0x1_0000 then [0xE0 + n / 0x1000, 0x80 + (n / 0x40) % 0x40, 0x80 + n % 0x40]
    else [0xF0 + n / 0x4_0000, 0x80 + (n / 0x1000) % 0x40, 0x80 + (n / 0x40) % 0x40, 0x80 + n % 0x40]
  }

  /** `text.encode('utf-8')`. */
  function Encode(text: string): (r: seq<byte>)
    ensures |text| <= |r| <= 4 * |text|
  {
    if text == [] then [] else EncodeChar(text[0]) + Encode(text[1..])
  }

  /** Is `n` a Unicode scalar value, that is, a code point that is not a surrogate? */
  predicate IsScalar(n: int)
  {
    0 <= n < 0xD800 || 0xE000 <= n < 0x11_0000
  }

  /**
   * Reads the first character of `b`: the character and how many bytes it
   * took, or None when `b` does not start with a well-formed sequence
   * (overlong forms, surrogates and values past U+10FFFF are refused).
   */
  function DecodeFirst(b: seq<byte>): (r: Option<(char, nat)>)
    ensures r.Some? ==> 1 <= r.value.1 <= |b|
  {
    if |b| == 0 then None
    else if b[0] < 0x80 then Some((b[0] as char, 1))
    else if 0xC2 <= b[0] < 0xE0 && |b| >= 2 && IsContinuation(b[1]) then
      var n := (b[0] as int - 0xC0) * 0x40 + (b[1] as int - 0x80);
      Some((n as char, 2))
    else if 0xE0 <= b[0] < 0xF0 && |b| >= 3 && IsContinuation(b[1]) && IsContinuation(b[2]) then
      var n := (b[0] as int - 0xE0) * 0x1000 + (b[1] as int - 0x80) * 0x40 + (b[2] as int - 0x80);
      if 0x800 <= n && IsScalar(n) then Some((n as char, 3)) else None
    else if 0xF0 <= b[0] < 0xF5 && |b| >= 4 && IsContinuation(b[1]) && IsContinuation(b[2]) && IsContinuation(b[3]) then
      var n := (b[0] as int - 0xF0) * 0x4_0000 + (b[1] as int - 0x80) * 0x1000 + (b[2] as int - 0x80) * 0x40 + (b[3] as int - 0x80);
      if 0x1_0000 <= n < 0x11_0000 then Some((n as char, 4)) else None
    else None
  }

  /** `data.decode('utf-8')`: the text, or None for bytes that are not UTF-8. */
  function Decode(b: seq<byte>): Option<string>
    decreases |b|
  {
    if b == [] then Some([])
    else match DecodeFirst(b)
      case None => None
      case Some((c, k)) =>
        match Decode(b[k..])
        case None => None
        case Some(rest) => Some([c] + rest)
  }

  /** Splitting `n` into 6-bit groups and putting them back gives `n`. */
  lemma SixBitGroups(n: nat)
    ensures (n / 0x40) * 0x40 + n % 0x40 == n
    ensures (n / 0x1000) * 0x40 + (n / 0x40) % 0x40 == n / 0x40
    ensures (n / 0x4_0000) * 0x40 + (n / 0x1000) % 0x40 == n / 0x1000
  {
    assert n / 0x1000 == (n / 0x40) / 0x40;
    assert n / 0x4_0000 == (n / 0x1000) / 0x40;
  }

  /** The encoder's bytes, followed by anything, decode back to the character. */
  lemma DecodeFirstEncodeChar(c: char, tail: seq<byte>)
    ensures DecodeFirst(EncodeChar(c) + tail) == Some((c, |EncodeChar(c)|))
  {
    var n := c as int;
    var b := EncodeChar(c) + tail;
    SixBitGroups(n);
    if n < 0x80 {
    } else if n < 0x800 {
      assert b[0] == 0xC0 + n / 0x40 && b[1] == 0x80 + n % 0x40;
      assert (b[0] as int - 0xC0) * 0x40 + (b[1] as int - 0x80) == n;
    } else if n < 0x1_0000 {
      assert b[0] == 0xE0 + n / 0x1000 && b[1] == 0x80 + (n / 0x40) % 0x40 && b[2] == 0x80 + n % 0x40;
      assert (b[0] as int - 0xE0) * 0x1000 + (b[1] as int - 0x80) * 0x40 + (b[2] as int - 0x80) == n;
    } else {
      assert b[0] == 0xF0 + n / 0x4_0000 && b[1] == 0x80 + (n / 0x1000) % 0x40;
      assert b[2] == 0x80 + (n / 0x40) % 0x40 && b[3] == 0x80 + n % 0x40;
      assert (b[0] as int - 0xF0) * 0x4_0000 + (b[1] as int - 0x80) * 0x1000 + (b[2] as int - 0x80) * 0x40 + (b[3] as int - 0x80) == n;
    }
  }

  /** Round trip: decoding the UTF-8 encoding of a text gives the text back. */
  lemma {:induction false} DecodeEncode(text: string)
    ensures Decode(Encode(text)) == Some(text)
  {
    if text != [] {
      var head := EncodeChar(text[0]);
      var rest := Encode(text[1..]);
      DecodeFirstEncodeChar(text[0], rest);
      assert (head + rest)[|head|..] == rest;
      DecodeEncode(text[1..]);
      assert [text[0]] + text[1..] == text;
    }
  }
}
