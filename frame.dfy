/**
 * The wire frame of the IPC protocol: a little-endian u32 opcode, a
 * little-endian u32 body length, then the UTF-8 body (`send` builds it,
 * `extract_payload` takes it apart).
 */
module Frame {
  import opened Base
  import Utf8

  /** Size of the fixed header: opcode and length, four bytes each. */
  const HeaderSize := 8

  /** `write_u32::<LittleEndian>`: the four bytes of `x`, least significant first. */
  function Le32(x: U32): (r: seq<Byte>)
    ensures |r| == 4
  {
    [x % 0x100, (x / 0x100) % 0x100, (x / 0x1_0000) % 0x100, x / 0x100_0000]
  }

  /** The u32 four little-endian bytes stand for. */
  function Le32Value(b: seq<Byte>): (x: U32)
    requires |b| == 4
  {
    b[0] as int + 0x100 * (b[1] as int) + 0x1_0000 * (b[2] as int) + 0x100_0000 * (b[3] as int)
  }

  lemma Unique256(q: int, r: int)
    requires 0 <= q && 0 <= r < 0x100
    ensures (q * 0x100 + r) / 0x100 == q && (q * 0x100 + r) % 0x100 == r
  {
  }

  /** Reading back what `write_u32` wrote gives the same number. */
  lemma Le32ValueOfLe32(x: U32)
    ensures Le32Value(Le32(x)) == x
  {
    var q1 := x / 0x100;
    var q2 := q1 / 0x100;
    var q3 := q2 / 0x100;
    assert x == q1 * 0x100 + x % 0x100;
    assert q1 == q2 * 0x100 + q1 % 0x100;
    assert q2 == q3 * 0x100 + q2 % 0x100;
    assert x / 0x1_0000 == q2 by { Unique256(q2, q1 % 0x100); assert x / 0x1_0000 == (x / 0x100) / 0x100; }
    assert x / 0x100_0000 == q3;
  }

  /** Every four bytes are the encoding of the number they stand for. */
  lemma Le32OfLe32Value(b: seq<Byte>)
    requires |b| == 4
    ensures Le32(Le32Value(b)) == b
  {
    var x := Le32Value(b);
    Unique256(b[1] as int + 0x100 * (b[2] as int) + 0x1_0000 * (b[3] as int), b[0]);
    Unique256(b[2] as int + 0x100 * (b[3] as int), b[1]);
    Unique256(b[3], b[2]);
  }

  /**
   * `read_u32::<LittleEndian>` on a slice cursor: the number and the rest of
   * the slice, or None (an UnexpectedEof error) when fewer than four bytes remain.
   */
  function ReadU32(cursor: seq<Byte>): (r: Option<(U32, seq<Byte>)>)
    ensures r.Some? <==> |cursor| >= 4
    ensures r.Some? ==> Le32(r.value.0) + r.value.1 == cursor
  {
    if |cursor| < 4 then None
    else
      Le32OfLe32Value(cursor[..4]);
      assert cursor == cursor[..4] + cursor[4..];
      Some((Le32Value(cursor[..4]), cursor[4..]))
  }

  /**
   * The frame `send` writes: the opcode widened from u8, the body's byte
   * length cast to u32 (`as u32` keeps the low 32 bits), then the body.
   */
  function EncodeFrame(opcode: U8, text: string): seq<Byte> {
    var body := Utf8.Encode(text);
    Le32(opcode) + Le32(|body| % 0x1_0000_0000) + body
  }

  /**
   * What `extract_payload` computes from a received buffer: the opcode from
   * the first four bytes and, as the body, every byte after the eight-byte
   * header read as UTF-8. The declared length in bytes 4..8 is read but not
   * compared with anything.
   */
  function ParseFrame(data: seq<Byte>): Result<(U32, string), IoError> {
    if |data| < HeaderSize then Err(UnexpectedEof)
    else match Utf8.Decode(data[HeaderSize..])
      case None => Err(InvalidUtf8)
      case Some(text) => Ok((Le32Value(data[..4]), text))
  }

  /** The frame is the opcode (below 256), the exact body length when it fits in a u32, then the body. */
  lemma FrameLayout(opcode: U8, text: string)
    ensures var frame := EncodeFrame(opcode, text);
            var body := Utf8.Encode(text);
            && |frame| == HeaderSize + |body|
            && Le32Value(frame[..4]) == opcode < 0x100
            && frame[1..4] == [0, 0, 0]
            && (|body| < 0x1_0000_0000 ==> Le32Value(frame[4..8]) == |body|)
            && frame[HeaderSize..] == body
  {
    var frame := EncodeFrame(opcode, text);
    var body := Utf8.Encode(text);
    assert frame[..4] == Le32(opcode);
    assert frame[4..8] == Le32(|body| % 0x1_0000_0000);
    Le32ValueOfLe32(opcode);
    Le32ValueOfLe32(|body| % 0x1_0000_0000);
  }

  /** Round trip: `extract_payload` gives back the opcode and the text `send` framed, whatever the text's length. */
  lemma ParseEncodeFrame(opcode: U8, text: string)
    ensures ParseFrame(EncodeFrame(opcode, text)) == Ok((opcode, text))
  {
    FrameLayout(opcode, text);
    Utf8.DecodeEncode(text);
  }

  /** Round trip, byte side: a buffer that parses is its opcode, its declared length field and the body's encoding. */
  lemma EncodeParseFrame(data: seq<Byte>)
    requires ParseFrame(data).Ok?
    ensures var (opcode, text) := ParseFrame(data).value;
            data == Le32(opcode) + data[4..HeaderSize] + Utf8.Encode(text)
  {
    Le32OfLe32Value(data[..4]);
    Utf8.EncodeDecode(data[HeaderSize..]);
    assert data == data[..4] + data[4..HeaderSize] + data[HeaderSize..];
  }

  /** `extract_payload` fails exactly on a buffer shorter than the header or a body that is not UTF-8. */
  lemma ParseFrameFailures(data: seq<Byte>)
    ensures ParseFrame(data) == Err(UnexpectedEof) <==> |data| < HeaderSize
    ensures ParseFrame(data) == Err(InvalidUtf8) <==> |data| >= HeaderSize && !Utf8.Valid(data[HeaderSize..])
    ensures ParseFrame(data).Ok? <==> |data| >= HeaderSize && Utf8.Valid(data[HeaderSize..])
  {
    if |data| >= HeaderSize {
      Utf8.DecodeSucceedsIffValid(data[HeaderSize..]);
    }
  }

  /**
   * The declared body length plays no part in decoding: replacing it by any
   * four bytes leaves the result unchanged, and the body is always all the
   * bytes after the header.
   */
  lemma ParseIgnoresDeclaredLength(data: seq<Byte>, declared: seq<Byte>)
    requires |data| >= HeaderSize && |declared| == 4
    ensures ParseFrame(data[..4] + declared + data[HeaderSize..]) == ParseFrame(data)
  {
    var other := data[..4] + declared + data[HeaderSize..];
    assert other[..4] == data[..4];
    assert other[HeaderSize..] == data[HeaderSize..];
  }
}
