/**
 * UTF-8 as Rust's `str::as_bytes` produces it and `str::from_utf8` (used by
 * `read_to_string`) accepts it: the well-formed byte sequences of the Unicode
 * standard, Table 3-7 (no overlong forms, no surrogates, nothing above U+10FFFF).
 */
module Utf8 {
  import opened Base

  /** True when `b` is a continuation byte 10xxxxxx. */
  predicate IsCont(b: Byte) { 0x80 <= b < 0xC0 }

  /** The bytes UTF-8 uses for one scalar value: 6 payload bits per continuation byte. */
  function EncodeChar(c: char): (r: seq<Byte>)
    ensures 1 <= |r| <= 4
  {
    var cp := c as int;
    var q := cp / 0x40;
    var p := q / 0x40;
    if cp < 0x80 then [cp]
    else if cp < 0x800 then [0xC0 + q, 0x80 + cp % 0x40]
    else if cp < 0x1_0000 then [0xE0 + p, 0x80 + q % 0x40, 0x80 + cp % 0x40]
    else [0xF0 + p / 0x40, 0x80 + p % 0x40, 0x80 + q % 0x40, 0x80 + cp % 0x40]
  }

  /** The bytes of a string (`str::as_bytes`). */
  function Encode(s: string): (r: seq<Byte>)
    ensures |r| >= |s|
  {
    if s == [] then [] else EncodeChar(s[0]) + Encode(s[1..])
  }

  /**
   * Decodes the first character of `b`, following Table 3-7 row by row:
   * the character and the number of bytes it takes, or None when `b` does
   * not start with a well-formed sequence.
   */
  function DecodeFirst(b: seq<Byte>): (r: Option<(char, nat)>)
    ensures r.Some? ==> 1 <= r.value.1 <= |b| && r.value.1 <= 4
  {
    if |b| == 0 then None
    else if b[0] < 0x80 then Some((b[0] as char, 1))
    else if 0xC2 <= b[0] <= 0xDF then
      if |b| >= 2 && IsCont(b[1]) then
        Some((((b[0] as int - 0xC0) * 0x40 + (b[1] as int - 0x80)) as char, 2))
      else None
    else if 0xE0 <= b[0] <= 0xEF then
      var lo := if b[0] == 0xE0 then 0xA0 else 0x80;
      var hi := if b[0] == 0xED then 0x9F else 0xBF;
      if |b| >= 3 && lo <= b[1] <= hi && IsCont(b[2]) then
        Some((((b[0] as int - 0xE0) * 0x1000 + (b[1] as int - 0x80) * 0x40 + (b[2] as int - 0x80)) as char, 3))
      else None
    else if 0xF0 <= b[0] <= 0xF4 then
      var lo := if b[0] == 0xF0 then 0x90 else 0x80;
      var hi := if b[0] == 0xF4 then 0x8F else 0xBF;
      if |b| >= 4 && lo <= b[1] <= hi && IsCont(b[2]) && IsCont(b[3]) then
        Some((((b[0] as int - 0xF0) * 0x4_0000 + (b[1] as int - 0x80) * 0x1000
               + (b[2] as int - 0x80) * 0x40 + (b[3] as int - 0x80)) as char, 4))
      else None
    else None
  }

  /** `str::from_utf8`: the string `b` encodes, or None when `b` is not UTF-8. */
  function Decode(b: seq<Byte>): Option<string>
    decreases |b|
  {
    if b == [] then Some([])
    else match DecodeFirst(b)
      case None => None
      case Some((c, n)) =>
        match Decode(b[n..])
        case None => None
        case Some(rest) => Some([c] + rest)
  }

  /** Well-formed UTF-8: the encoding of some string. */
  ghost predicate Valid(b: seq<Byte>) {
    exists s :: Encode(s) == b
  }

  lemma DivMod64(x: int)
    requires 0 <= x
    ensures x == (x / 0x40) * 0x40 + x % 0x40 && 0 <= x % 0x40 < 0x40 && 0 <= x / 0x40
  {
  }

  /** Decoding the encoding of one character gives that character back. */
  lemma DecodeFirstEncodeChar(c: char, rest: seq<Byte>)
    ensures DecodeFirst(EncodeChar(c) + rest) == Some((c, |EncodeChar(c)|))
  {
    var cp := c as int;
    var q := cp / 0x40;
    var p := q / 0x40;
    DivMod64(cp);
    DivMod64(q);
    DivMod64(p);
    var b := EncodeChar(c) + rest;
    if cp < 0x80 {
    } else if cp < 0x800 {
      assert b[..2] == [0xC0 + q, 0x80 + cp % 0x40];
    } else if cp < 0x1_0000 {
      assert b[..3] == [0xE0 + p, 0x80 + q % 0x40, 0x80 + cp % 0x40];
    } else {
      assert b[..4] == [0xF0 + p / 0x40, 0x80 + p % 0x40, 0x80 + q % 0x40, 0x80 + cp % 0x40];
    }
  }

  lemma Unique64(q: int, r: int)
    requires 0 <= q && 0 <= r < 0x40
    ensures (q * 0x40 + r) / 0x40 == q && (q * 0x40 + r) % 0x40 == r
  {
  }

  /** A scalar value written as 6-bit groups `g1 g2 ... gk` is encoded with exactly those groups. */
  lemma EncodeTwo(g0: int, g1: int)
    requires 2 <= g0 < 0x20 && 0 <= g1 < 0x40
    ensures var cp := g0 * 0x40 + g1;
            0x80 <= cp < 0x800 && EncodeChar(cp as char) == [0xC0 + g0, 0x80 + g1]
  {
    Unique64(g0, g1);
  }

  lemma EncodeThree(g0: int, g1: int, g2: int)
    requires 0 <= g0 < 0x10 && 0 <= g1 < 0x40 && 0 <= g2 < 0x40
    requires g0 == 0 ==> g1 >= 0x20
    requires g0 == 0xD ==> g1 < 0x20
    ensures var cp := (g0 * 0x40 + g1) * 0x40 + g2;
            0x800 <= cp < 0x1_0000 && !(0xD800 <= cp < 0xE000)
            && EncodeChar(cp as char) == [0xE0 + g0, 0x80 + g1, 0x80 + g2]
  {
    Unique64(g0 * 0x40 + g1, g2);
    Unique64(g0, g1);
  }

  lemma EncodeFour(g0: int, g1: int, g2: int, g3: int)
    requires 0 <= g0 < 5 && 0 <= g1 < 0x40 && 0 <= g2 < 0x40 && 0 <= g3 < 0x40
    requires g0 == 0 ==> g1 >= 0x10
    requires g0 == 4 ==> g1 < 0x10
    ensures var cp := ((g0 * 0x40 + g1) * 0x40 + g2) * 0x40 + g3;
            0x1_0000 <= cp < 0x11_0000
            && EncodeChar(cp as char) == [0xF0 + g0, 0x80 + g1, 0x80 + g2, 0x80 + g3]
  {
    Unique64((g0 * 0x40 + g1) * 0x40 + g2, g3);
    Unique64(g0 * 0x40 + g1, g2);
    Unique64(g0, g1);
  }

  /** Every character DecodeFirst accepts is re-encoded to exactly the bytes it consumed. */
  lemma EncodeCharDecodeFirst(b: seq<Byte>)
    requires DecodeFirst(b).Some?
    ensures EncodeChar(DecodeFirst(b).value.0) == b[..DecodeFirst(b).value.1]
  {
    var n := DecodeFirst(b).value.1;
    if n == 2 {
      EncodeTwo(b[0] as int - 0xC0, b[1] as int - 0x80);
    } else if n == 3 {
      EncodeThree(b[0] as int - 0xE0, b[1] as int - 0x80, b[2] as int - 0x80);
    } else if n == 4 {
      EncodeFour(b[0] as int - 0xF0, b[1] as int - 0x80, b[2] as int - 0x80, b[3] as int - 0x80);
    }
  }

  /** Round trip, string side: decoding what was encoded gives the string back. */
  lemma {:induction false} DecodeEncode(s: string)
    ensures Decode(Encode(s)) == Some(s)
  {
    if s != [] {
      var e := EncodeChar(s[0]);
      DecodeFirstEncodeChar(s[0], Encode(s[1..]));
      assert (e + Encode(s[1..]))[|e|..] == Encode(s[1..]);
      DecodeEncode(s[1..]);
      assert [s[0]] + s[1..] == s;
    }
  }

  /** Round trip, byte side: whatever decodes is the encoding of what it decodes to. */
  lemma {:induction false} EncodeDecode(b: seq<Byte>)
    requires Decode(b).Some?
    ensures Encode(Decode(b).value) == b
    decreases |b|
  {
    if b != [] {
      var (c, n) := DecodeFirst(b).value;
      EncodeCharDecodeFirst(b);
      EncodeDecode(b[n..]);
      var s := Decode(b).value;
      assert s[0] == c && s[1..] == Decode(b[n..]).value;
      assert b == b[..n] + b[n..];
    }
  }

  /** `from_utf8` fails exactly on the byte sequences that are not well-formed UTF-8. */
  lemma DecodeSucceedsIffValid(b: seq<Byte>)
    ensures Decode(b).Some? <==> Valid(b)
  {
    if Decode(b).Some? {
      EncodeDecode(b);
    }
    if Valid(b) {
      var s :| Encode(s) == b;
      DecodeEncode(s);
    }
  }
}
