/** UTF-8, as Rust's `String` stores text and `String::from_utf8` checks it
    (RFC 3629): shortest forms only, no surrogates, nothing above U+10FFFF. */
module Utf8 {
  import opened Common

  predicate IsContinuation(b: Byte) {
    0x80 <= b < 0xC0
  }

  /** The bytes of one character. */
  function EncodeChar(c: char): (b: Bytes)
    ensures 1 <= |b| <= 4
  {
    var v := c as int;
    if v < 0x80 then [v]
    else if v < 0x800 then [0xC0 + v / 64, 0x80 + v % 64]
    else if v < 0x10000 then [0xE0 + v / 4096, 0x80 + (v / 64) % 64, 0x80 + v % 64]
    else [0xF0 + v / 262144, 0x80 + (v / 4096) % 64, 0x80 + (v / 64) % 64, 0x80 + v % 64]
  }

  /** `s.as_bytes()` */
  function Encode(s: string): Bytes
    decreases |s|
  {
    if s == [] then [] else EncodeChar(s[0]) + Encode(s[1..])
  }

  /** The character at the start of `b` and the number of bytes it takes,
      or `None` when `b` does not start with a well-formed sequence. */
  function DecodeChar(b: Bytes): (r: Option<(char, nat)>)
    requires b != []
    ensures r.Some? ==> 1 <= r.value.1 <= |b| && r.value.1 <= 4
  {
    var b0: int := b[0];
    if b0 < 0x80 then Some((b0 as char, 1))
    else if 0xC2 <= b0 < 0xE0 then
      if |b| >= 2 && IsContinuation(b[1]) then
        Some((((b0 - 0xC0) * 64 + (b[1] as int - 0x80)) as char, 2))
      else None
    else if 0xE0 <= b0 < 0xF0 then
      if |b| >= 3 && IsContinuation(b[1]) && IsContinuation(b[2])
         && (b0 != 0xE0 || b[1] >= 0xA0) && (b0 != 0xED || b[1] < 0xA0) then
        Some((((b0 - 0xE0) * 4096 + (b[1] as int - 0x80) * 64 + (b[2] as int - 0x80)) as char, 3))
      else None
    else if 0xF0 <= b0 < 0xF5 then
      if |b| >= 4 && IsContinuation(b[1]) && IsContinuation(b[2]) && IsContinuation(b[3])
         && (b0 != 0xF0 || b[1] >= 0x90) && (b0 != 0xF4 || b[1] < 0x90) then
        Some((((b0 - 0xF0) * 262144 + (b[1] as int - 0x80) * 4096 + (b[2] as int - 0x80) * 64 + (b[3] as int - 0x80)) as char, 4))
      else None
    else None
  }

  /** `String::from_utf8(b)`: the text, or `None` for ill-formed input. */
  function Decode(b: Bytes): Option<string>
    decreases |b|
  {
    if b == [] then Some([])
    else
      match DecodeChar(b)
      case None => None
      case Some((c, n)) =>
        match Decode(b[n..])
        case None => None
        case Some(rest) => Some([c] + rest)
  }

  lemma DivMod64(q: int, r: int)
    requires 0 <= r < 64
    ensures (q * 64 + r) / 64 == q && (q * 64 + r) % 64 == r
  {
  }

  /** One character reads back from its own bytes, whatever follows. */
  lemma DecodeEncodeChar(c: char, rest: Bytes)
    ensures DecodeChar(EncodeChar(c) + rest) == Some((c, |EncodeChar(c)|))
  {
    var v := c as int;
    var b := EncodeChar(c) + rest;
    if v < 0x80 {
    } else if v < 0x800 {
      DivMod64(v / 64, v % 64);
      assert (b[0] as int - 0xC0) * 64 + (b[1] as int - 0x80) == v;
    } else if v < 0x10000 {
      assert v / 4096 == (v / 64) / 64;
      assert (b[0] as int - 0xE0) * 4096 + (b[1] as int - 0x80) * 64 + (b[2] as int - 0x80) == v;
    } else {
      assert v / 262144 == ((v / 64) / 64) / 64;
      assert (v / 4096) == (v / 64) / 64;
      assert (b[0] as int - 0xF0) * 262144 + (b[1] as int - 0x80) * 4096 + (b[2] as int - 0x80) * 64 + (b[3] as int - 0x80) == v;
    }
  }

  /** A well-formed sequence is the encoding of the character it decodes to. */
  lemma EncodeDecodeChar(b: Bytes)
    requires b != [] && DecodeChar(b).Some?
    ensures EncodeChar(DecodeChar(b).value.0) == b[..DecodeChar(b).value.1]
  {
    var n := DecodeChar(b).value.1;
    var b0: int := b[0];
    if b0 < 0x80 {
    } else if n == 2 {
      var q: int, r: int := b0 - 0xC0, b[1] as int - 0x80;
      assert DecodeChar(b).value.0 == (q * 64 + r) as char;
      EncodeTwo(q, r);
      assert b[..2] == [b[0], b[1]];
    } else if n == 3 {
      var q: int, r1: int, r2: int := b0 - 0xE0, b[1] as int - 0x80, b[2] as int - 0x80;
      assert DecodeChar(b).value.0 == (q * 4096 + r1 * 64 + r2) as char;
      EncodeThree(q, r1, r2);
      assert b[..3] == [b[0], b[1], b[2]];
    } else {
      var q: int, r1: int, r2: int, r3: int := b0 - 0xF0, b[1] as int - 0x80, b[2] as int - 0x80, b[3] as int - 0x80;
      assert DecodeChar(b).value.0 == (q * 262144 + r1 * 4096 + r2 * 64 + r3) as char;
      EncodeFour(q, r1, r2, r3);
      assert b[..4] == [b[0], b[1], b[2], b[3]];
    }
  }

  lemma EncodeTwo(q: int, r: int)
    requires 2 <= q < 32 && 0 <= r < 64
    ensures EncodeChar((q * 64 + r) as char) == [0xC0 + q, 0x80 + r]
  {
    DivMod64(q, r);
  }

  lemma EncodeThree(q: int, r1: int, r2: int)
    requires 0 <= q < 16 && 0 <= r1 < 64 && 0 <= r2 < 64
    requires var v := q * 4096 + r1 * 64 + r2; 0x800 <= v && (v < 0xD800 || 0xE000 <= v)
    ensures EncodeChar((q * 4096 + r1 * 64 + r2) as char) == [0xE0 + q, 0x80 + r1, 0x80 + r2]
  {
    var v := q * 4096 + r1 * 64 + r2;
    assert v == (q * 64 + r1) * 64 + r2;
    DivMod64(q * 64 + r1, r2);
    DivMod64(q, r1);
    assert v / 4096 == (v / 64) / 64;
  }

  lemma EncodeFour(q: int, r1: int, r2: int, r3: int)
    requires 0 <= q < 5 && 0 <= r1 < 64 && 0 <= r2 < 64 && 0 <= r3 < 64
    requires var v := q * 262144 + r1 * 4096 + r2 * 64 + r3; 0x10000 <= v < 0x110000
    ensures EncodeChar((q * 262144 + r1 * 4096 + r2 * 64 + r3) as char) == [0xF0 + q, 0x80 + r1, 0x80 + r2, 0x80 + r3]
  {
    var v := q * 262144 + r1 * 4096 + r2 * 64 + r3;
    assert v == ((q * 64 + r1) * 64 + r2) * 64 + r3;
    DivMod64((q * 64 + r1) * 64 + r2, r3);
    DivMod64(q * 64 + r1, r2);
    DivMod64(q, r1);
    assert v / 4096 == (v / 64) / 64;
    assert v / 262144 == (v / 4096) / 64;
  }

  lemma EncodeAppend(c: char, s: string)
    ensures Encode([c] + s) == EncodeChar(c) + Encode(s)
  {
    assert ([c] + s)[1..] == s;
  }

  /** Every string's bytes are valid UTF-8 and decode back to it. */
  lemma {:induction false} DecodeEncode(s: string)
    ensures Decode(Encode(s)) == Some(s)
    decreases |s|
  {
    if s != [] {
      var b := Encode(s);
      DecodeEncodeChar(s[0], Encode(s[1..]));
      assert b[|EncodeChar(s[0])|..] == Encode(s[1..]);
      DecodeEncode(s[1..]);
      assert [s[0]] + s[1..] == s;
    }
  }

  /** Decoding only accepts encodings: valid UTF-8 is the encoding of the
      text it decodes to. */
  lemma {:induction false} EncodeDecode(b: Bytes)
    requires Decode(b).Some?
    ensures Encode(Decode(b).value) == b
    decreases |b|
  {
    if b != [] {
      DecodeStep(b);
      var (c, n) := DecodeChar(b).value;
      EncodeDecodeChar(b);
      EncodeDecode(b[n..]);
      EncodeAppend(c, Decode(b[n..]).value);
    }
  }

  /** Valid UTF-8 is a character followed by valid UTF-8. */
  lemma DecodeStep(b: Bytes)
    requires b != [] && Decode(b).Some?
    ensures DecodeChar(b).Some?
    ensures var (c, n) := DecodeChar(b).value;
      Decode(b[n..]).Some? && Decode(b).value == [c] + Decode(b[n..]).value && b == b[..n] + b[n..]
  {
  }

  /** A lone continuation byte is not UTF-8. */
  lemma StrayContinuationRejected()
    ensures Decode([0x80]).None?
  {
  }
}
