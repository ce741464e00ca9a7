/** Base64 as defined in section 4 of RFC 4648: the standard alphabet, '='
    padding to a multiple of four characters. Decoding is strict, as the
    `base64` crate's standard engine is: padding must be present and
    canonical, the unused bits of the last character must be zero, and no
    other character is accepted. */
module Base64 {
  import opened Common

  /** The character for a 6-bit value. */
  function CharOf(v: int): (c: char)
    requires 0 <= v < 64
  {
    if v < 26 then ('A' as int + v) as char
    else if v < 52 then ('a' as int + (v - 26)) as char
    else if v < 62 then ('0' as int + (v - 52)) as char
    else if v == 62 then '+'
    else '/'
  }

  predicate IsAlphabet(c: char) {
    ('A' <= c <= 'Z') || ('a' <= c <= 'z') || ('0' <= c <= '9') || c == '+' || c == '/'
  }

  /** The 6-bit value of an alphabet character. */
  function ValueOf(c: char): (v: int)
    requires IsAlphabet(c)
    ensures 0 <= v < 64 && CharOf(v) == c
  {
    if 'A' <= c <= 'Z' then c as int - 'A' as int
    else if 'a' <= c <= 'z' then c as int - 'a' as int + 26
    else if '0' <= c <= '9' then c as int - '0' as int + 52
    else if c == '+' then 62
    else 63
  }

  lemma ValueOfCharOf(v: int)
    requires 0 <= v < 64
    ensures IsAlphabet(CharOf(v)) && ValueOf(CharOf(v)) == v
  {
  }

  /** Three bytes as four characters. */
  function EncodeBlock(b0: Byte, b1: Byte, b2: Byte): string {
    [CharOf(b0 / 4), CharOf((b0 % 4) * 16 + b1 / 16), CharOf((b1 % 16) * 4 + b2 / 64), CharOf(b2 % 64)]
  }

  /** `STANDARD.encode(b)` */
  function Encode(b: Bytes): (s: string)
    ensures |s| % 4 == 0 && (b == [] <==> s == [])
    decreases |b|
  {
    if |b| == 0 then []
    else if |b| == 1 then [CharOf(b[0] / 4), CharOf((b[0] % 4) * 16), '=', '=']
    else if |b| == 2 then [CharOf(b[0] / 4), CharOf((b[0] % 4) * 16 + b[1] / 16), CharOf((b[1] % 16) * 4), '=']
    else EncodeBlock(b[0], b[1], b[2]) + Encode(b[3..])
  }

  /** Four characters for every three bytes, the last group padded. */
  lemma {:induction false} EncodeLength(b: Bytes)
    ensures |Encode(b)| == 4 * ((|b| + 2) / 3)
    decreases |b|
  {
    if |b| >= 3 {
      var n := |b| - 3;
      EncodeLength(b[3..]);
      assert |Encode(b)| == 4 + |Encode(b[3..])|;
      assert (n + 3 + 2) / 3 == (n + 2) / 3 + 1;
    }
  }

  predicate FullGroup(g: string)
    requires |g| == 4
  {
    IsAlphabet(g[0]) && IsAlphabet(g[1]) && IsAlphabet(g[2]) && IsAlphabet(g[3])
  }

  function DecodeFull(g: string): (b: Bytes)
    requires |g| == 4 && FullGroup(g)
    ensures |b| == 3
  {
    var v0, v1, v2, v3 := ValueOf(g[0]), ValueOf(g[1]), ValueOf(g[2]), ValueOf(g[3]);
    [v0 * 4 + v1 / 16, (v1 % 16) * 16 + v2 / 4, (v2 % 4) * 64 + v3]
  }

  /** The last group: full, or padded with one or two '='. */
  function DecodeLast(g: string): Option<Bytes>
    requires |g| == 4
  {
    if g[2] == '=' && g[3] == '=' then
      if IsAlphabet(g[0]) && IsAlphabet(g[1]) && ValueOf(g[1]) % 16 == 0 then
        Some([ValueOf(g[0]) * 4 + ValueOf(g[1]) / 16])
      else None
    else if g[3] == '=' then
      if IsAlphabet(g[0]) && IsAlphabet(g[1]) && IsAlphabet(g[2]) && ValueOf(g[2]) % 4 == 0 then
        var v0, v1, v2 := ValueOf(g[0]), ValueOf(g[1]), ValueOf(g[2]);
        Some([v0 * 4 + v1 / 16, (v1 % 16) * 16 + v2 / 4])
      else None
    else if FullGroup(g) then Some(DecodeFull(g))
    else None
  }

  /** `STANDARD.decode(s)`: the bytes, or `None` for anything that is not a
      canonical encoding. */
  function Decode(s: string): Option<Bytes>
    decreases |s|
  {
    if s == [] then Some([])
    else if |s| < 4 then None
    else if |s| == 4 then DecodeLast(s)
    else if FullGroup(s[..4]) then
      match Decode(s[4..])
      case None => None
      case Some(rest) => Some(DecodeFull(s[..4]) + rest)
    else None
  }

  lemma DivMod4(q: int, r: int)
    requires 0 <= r < 4
    ensures (q * 4 + r) / 4 == q && (q * 4 + r) % 4 == r
  {
  }

  lemma DivMod16(q: int, r: int)
    requires 0 <= r < 16
    ensures (q * 16 + r) / 16 == q && (q * 16 + r) % 16 == r
  {
  }

  lemma DivMod64(q: int, r: int)
    requires 0 <= r < 64
    ensures (q * 64 + r) / 64 == q && (q * 64 + r) % 64 == r
  {
  }

  /** A block's characters read back as its bytes. */
  lemma DecodeEncodeBlock(b0: Byte, b1: Byte, b2: Byte)
    ensures FullGroup(EncodeBlock(b0, b1, b2))
    ensures DecodeFull(EncodeBlock(b0, b1, b2)) == [b0, b1, b2]
  {
    var v0, v1, v2, v3 := b0 / 4, (b0 % 4) * 16 + b1 / 16, (b1 % 16) * 4 + b2 / 64, b2 % 64;
    ValueOfCharOf(v0);
    ValueOfCharOf(v1);
    ValueOfCharOf(v2);
    ValueOfCharOf(v3);
    DivMod16(b0 % 4, b1 / 16);
    DivMod4(b1 % 16, b2 / 64);
  }

  /** One trailing byte: two characters and "==". */
  lemma DecodeEncodeOne(b0: Byte)
    ensures Decode(Encode([b0])) == Some([b0])
  {
    ValueOfCharOf(b0 / 4);
    ValueOfCharOf((b0 % 4) * 16);
    DivMod16(b0 % 4, 0);
  }

  /** Two trailing bytes: three characters and "=". */
  lemma DecodeEncodeTwo(b0: Byte, b1: Byte)
    ensures Decode(Encode([b0, b1])) == Some([b0, b1])
  {
    var v0, v1, v2 := b0 / 4, (b0 % 4) * 16 + b1 / 16, (b1 % 16) * 4;
    ValueOfCharOf(v0);
    ValueOfCharOf(v1);
    ValueOfCharOf(v2);
    DivMod16(b0 % 4, b1 / 16);
    DivMod4(b1 % 16, 0);
    assert v0 * 4 + v1 / 16 == b0;
    assert (v1 % 16) * 16 + v2 / 4 == b1;
  }

  /** A lone full group is read by the last-group rule. */
  lemma DecodeSingleGroup(g: string)
    requires |g| == 4 && FullGroup(g)
    ensures Decode(g) == Some(DecodeFull(g))
  {
  }

  /** A full group followed by more text is read ahead of it. */
  lemma DecodeLeadingGroup(s: string)
    requires |s| > 4 && FullGroup(s[..4]) && Decode(s[4..]).Some?
    ensures Decode(s) == Some(DecodeFull(s[..4]) + Decode(s[4..]).value)
  {
  }

  lemma DecodeEncodeThree(b: Bytes)
    requires |b| == 3
    ensures Decode(Encode(b)) == Some(b)
  {
    EncodeOneBlock(b);
    DecodeEncodeBlock(b[0], b[1], b[2]);
    DecodeSingleGroup(EncodeBlock(b[0], b[1], b[2]));
    assert b == [b[0], b[1], b[2]];
  }

  lemma EncodeOneBlock(b: Bytes)
    requires |b| == 3
    ensures Encode(b) == EncodeBlock(b[0], b[1], b[2])
  {
    assert Encode(b) == EncodeBlock(b[0], b[1], b[2]) + Encode([]);
  }

  /** A leading block decodes ahead of the rest. */
  lemma DecodeEncodeStep(b0: Byte, b1: Byte, b2: Byte, rest: Bytes)
    requires rest != [] && Decode(Encode(rest)) == Some(rest)
    ensures Decode(Encode([b0, b1, b2] + rest)) == Some([b0, b1, b2] + rest)
  {
    var b := [b0, b1, b2] + rest;
    assert b[3..] == rest;
    var g := EncodeBlock(b0, b1, b2);
    var s := Encode(b);
    assert s == g + Encode(rest);
    assert s[..4] == g && s[4..] == Encode(rest);
    DecodeEncodeBlock(b0, b1, b2);
    DecodeLeadingGroup(s);
  }

  /** Every byte string's encoding decodes back to it. */
  lemma {:induction false} DecodeEncode(b: Bytes)
    ensures Decode(Encode(b)) == Some(b)
    decreases |b|
  {
    if |b| == 0 {
    } else if |b| == 1 {
      assert b == [b[0]];
      DecodeEncodeOne(b[0]);
    } else if |b| == 2 {
      assert b == [b[0], b[1]];
      DecodeEncodeTwo(b[0], b[1]);
    } else if |b| == 3 {
      DecodeEncodeThree(b);
    } else {
      DecodeEncode(b[3..]);
      DecodeEncodeStep(b[0], b[1], b[2], b[3..]);
      SplitThree(b);
    }
  }

  /** Four 6-bit values packed into three bytes unpack to the same values. */
  lemma Regroup(v0: int, v1: int, v2: int, v3: int)
    requires 0 <= v0 < 64 && 0 <= v1 < 64 && 0 <= v2 < 64 && 0 <= v3 < 64
    ensures var b0, b1, b2 := v0 * 4 + v1 / 16, (v1 % 16) * 16 + v2 / 4, (v2 % 4) * 64 + v3;
      b0 / 4 == v0 && (b0 % 4) * 16 + b1 / 16 == v1 && (b1 % 16) * 4 + b2 / 64 == v2 && b2 % 64 == v3
  {
    DivMod4(v0, v1 / 16);
    DivMod16(v1 % 16, v2 / 4);
    DivMod64(v2 % 4, v3);
  }

  /** Full-group characters are the encoding of the bytes they decode to. */
  lemma EncodeDecodeFull(g: string)
    requires |g| == 4 && FullGroup(g)
    ensures var b := DecodeFull(g); EncodeBlock(b[0], b[1], b[2]) == g
  {
    var v0, v1, v2, v3 := ValueOf(g[0]), ValueOf(g[1]), ValueOf(g[2]), ValueOf(g[3]);
    Regroup(v0, v1, v2, v3);
    var b := DecodeFull(g);
    assert b[0] == v0 * 4 + v1 / 16 && b[1] == (v1 % 16) * 16 + v2 / 4 && b[2] == (v2 % 4) * 64 + v3;
    EncodeBlockOf(b[0], b[1], b[2], v0, v1, v2, v3);
    assert g == [g[0], g[1], g[2], g[3]];
  }

  lemma EncodeBlockOf(b0: Byte, b1: Byte, b2: Byte, v0: int, v1: int, v2: int, v3: int)
    requires b0 / 4 == v0 && (b0 % 4) * 16 + b1 / 16 == v1 && (b1 % 16) * 4 + b2 / 64 == v2 && b2 % 64 == v3
    ensures EncodeBlock(b0, b1, b2) == [CharOf(v0), CharOf(v1), CharOf(v2), CharOf(v3)]
  {
  }

  lemma EncodePrefixBlock(x: Bytes, y: Bytes)
    requires |x| == 3
    ensures Encode(x + y) == EncodeBlock(x[0], x[1], x[2]) + Encode(y)
  {
    assert (x + y)[3..] == y;
  }

  /** Decoding only accepts canonical encodings: whatever it accepts is the
      encoding of what it returns. */
  lemma {:induction false} EncodeDecode(s: string)
    requires Decode(s).Some?
    ensures Encode(Decode(s).value) == s
    decreases |s|
  {
    if |s| == 4 {
      EncodeDecodeLast(s);
    } else if |s| > 4 {
      DecodeLeadStep(s);
      EncodeDecodeFull(s[..4]);
      EncodeDecode(s[4..]);
      EncodePrefixBlock(DecodeFull(s[..4]), Decode(s[4..]).value);
    }
  }

  /** Text longer than one group decodes its first group ahead of the rest. */
  lemma DecodeLeadStep(s: string)
    requires |s| > 4 && Decode(s).Some?
    ensures FullGroup(s[..4]) && Decode(s[4..]).Some?
    ensures Decode(s).value == DecodeFull(s[..4]) + Decode(s[4..]).value
    ensures s == s[..4] + s[4..]
  {
  }

  /** The last group is the encoding of what it decodes to. */
  lemma EncodeDecodeLast(s: string)
    requires |s| == 4 && DecodeLast(s).Some?
    ensures Encode(DecodeLast(s).value) == s
  {
    if s[2] == '=' && s[3] == '=' {
      var v0, v1 := ValueOf(s[0]), ValueOf(s[1]);
      var b0 := v0 * 4 + v1 / 16;
      DivMod4(v0, v1 / 16);
      assert v1 == (v1 / 16) * 16;
      assert DecodeLast(s).value == [b0];
      EncodeOneOf(b0, v0, v1);
      assert s == [s[0], s[1], '=', '='];
    } else if s[3] == '=' {
      var v0, v1, v2 := ValueOf(s[0]), ValueOf(s[1]), ValueOf(s[2]);
      var b0, b1 := v0 * 4 + v1 / 16, (v1 % 16) * 16 + v2 / 4;
      DivMod4(v0, v1 / 16);
      DivMod16(v1 % 16, v2 / 4);
      assert v1 == (v1 / 16) * 16 + v1 % 16;
      assert v2 == (v2 / 4) * 4;
      assert DecodeLast(s).value == [b0, b1];
      EncodeTwoOf(b0, b1, v0, v1, v2);
      assert s == [s[0], s[1], s[2], '='];
    } else {
      EncodeDecodeFull(s);
      EncodePrefixBlock(DecodeFull(s), []);
      assert DecodeFull(s) + [] == DecodeFull(s);
    }
  }

  lemma EncodeOneOf(b0: Byte, v0: int, v1: int)
    requires b0 / 4 == v0 && (b0 % 4) * 16 == v1
    ensures Encode([b0]) == [CharOf(v0), CharOf(v1), '=', '=']
  {
  }

  lemma EncodeTwoOf(b0: Byte, b1: Byte, v0: int, v1: int, v2: int)
    requires b0 / 4 == v0 && (b0 % 4) * 16 + b1 / 16 == v1 && (b1 % 16) * 4 == v2
    ensures Encode([b0, b1]) == [CharOf(v0), CharOf(v1), CharOf(v2), '=']
  {
  }

  /** The canonical test: "Zg==" is the only text decoding to "f"; a last
      character with unused bits set is rejected. */
  lemma TrailingBitsRejected()
    ensures Decode("Zg==") == Some([0x66])
    ensures Decode("Zh==").None?
  {
  }
}
