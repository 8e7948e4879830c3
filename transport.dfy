/**
 * The transport handle (a Unix socket or a Windows pipe file) as a value:
 * what has been written to it, and what its successive `read` calls will
 * deliver. One request/response exchange is a `write_all` of a frame
 * followed by a single `read` into a 2048-byte buffer.
 */
module Transport {
  import opened Base
  import Json
  import Frame

  /** Size of the buffer `recv` reads into. */
  const RecvBufferSize := 2048

  /** What the next `read` on the handle meets: some bytes, or an I/O error. */
  datatype Arrival = Data(bytes: seq<Byte>) | Failure

  /**
   * A duplex byte stream: how many more writes the peer accepts (None: it
   * never refuses one; Some(n): the next n writes succeed and every later
   * one fails), every buffer written so far (oldest first), and the
   * arrivals still to be read.
   */
  datatype Stream = Stream(writesLeft: Option<nat>, written: seq<seq<Byte>>, arrivals: seq<Arrival>)
  {
    /** True when the next write succeeds. */
    predicate AcceptsWrite() {
      writesLeft != Some(0)
    }
  }

  /** The write allowance after one successful write. */
  function Spend(writesLeft: Option<nat>): (r: Option<nat>)
    requires writesLeft != Some(0)
    ensures r.None? <==> writesLeft.None?
    ensures r.Some? ==> r.value + 1 == writesLeft.value
  {
    match writesLeft
    case None => None
    case Some(n) => Some(n - 1)
  }

  /** `serde_json::from_str::<Value>`: the document a text holds, or None when it is not JSON. */
  type Parser = string -> Option<Json.Value>

  /**
   * `write_all`: when the peer accepts the write, the whole buffer is
   * appended to the log and uses up one write of the allowance; otherwise
   * the write fails and nothing changes.
   */
  function WriteAll(st: Stream, data: seq<Byte>): (r: (Stream, bool))
    ensures r.1 == st.AcceptsWrite()
    ensures r.0.arrivals == st.arrivals
    ensures r.1 ==> r.0.written == st.written + [data] && r.0.writesLeft == Spend(st.writesLeft)
    ensures !r.1 ==> r.0 == st
  {
    if st.AcceptsWrite() then (st.(written := st.written + [data], writesLeft := Spend(st.writesLeft)), true)
    else (st, false)
  }

  /**
   * One `read` into a buffer of `cap` bytes: at most `cap` bytes of the next
   * arrival (the rest stays for the next read), no bytes at end of stream,
   * or None for an I/O error.
   */
  function Read(st: Stream, cap: nat): (r: (Stream, Option<seq<Byte>>))
    requires cap > 0
    ensures r.1.Some? ==> |r.1.value| <= cap
    ensures r.0.written == st.written && r.0.writesLeft == st.writesLeft
  {
    if st.arrivals == [] then (st, Some([]))
    else match st.arrivals[0]
      case Failure => (st.(arrivals := st.arrivals[1..]), None)
      case Data(bytes) =>
        if |bytes| <= cap then (st.(arrivals := st.arrivals[1..]), Some(bytes))
        else (st.(arrivals := [Data(bytes[cap..])] + st.arrivals[1..]), Some(bytes[..cap]))
  }

  /** All the bytes the stream still has to deliver, up to its first error. */
  function Pending(arrivals: seq<Arrival>): seq<Byte> {
    if arrivals == [] then []
    else match arrivals[0]
      case Failure => []
      case Data(bytes) => bytes + Pending(arrivals[1..])
  }

  /** What `recv` makes of the bytes one read returned: the frame's opcode and its parsed body. */
  function Interpret(bytes: seq<Byte>, parse: Parser): Result<(U32, Json.Value), IoError> {
    match Frame.ParseFrame(bytes)
    case Err(e) => Err(e)
    case Ok((opcode, text)) =>
      match parse(text)
      case None => Err(MalformedJson)
      case Some(v) => Ok((opcode, v))
  }

  /** `recv`: one read into the 2048-byte buffer, then decoding of exactly the bytes it returned. */
  function Receive(st: Stream, parse: Parser): (Stream, Result<(U32, Json.Value), IoError>) {
    var (st', got) := Read(st, RecvBufferSize);
    (st', match got
          case None => Err(ReadFailed)
          case Some(bytes) => Interpret(bytes, parse))
  }

  /** `send` after the frame is built: write it, then receive one reply. */
  function Exchange(st: Stream, frame: seq<Byte>, parse: Parser): (Stream, Result<(U32, Json.Value), IoError>) {
    var (st', ok) := WriteAll(st, frame);
    if !ok then (st', Err(WriteFailed)) else Receive(st', parse)
  }

  /**
   * A read neither loses nor invents bytes: what it returns followed by what
   * is still pending is what was pending before, and it never returns more
   * than the buffer holds.
   */
  lemma ReadConservesBytes(st: Stream, cap: nat)
    requires cap > 0
    requires st.arrivals == [] || st.arrivals[0].Data?
    ensures var (st', got) := Read(st, cap);
            got.Some? && |got.value| <= cap && got.value + Pending(st'.arrivals) == Pending(st.arrivals)
  {
    if st.arrivals != [] {
      var bytes := st.arrivals[0].bytes;
      if |bytes| > cap {
        var rest := [Data(bytes[cap..])] + st.arrivals[1..];
        assert rest[1..] == st.arrivals[1..];
        assert Pending(rest) == bytes[cap..] + Pending(st.arrivals[1..]);
        assert bytes == bytes[..cap] + bytes[cap..];
      }
    }
  }

  /**
   * An exchange writes exactly the frame, once, when the peer accepts the
   * write; otherwise it fails with WriteFailed without reading.
   */
  lemma ExchangeWritesFrame(st: Stream, frame: seq<Byte>, parse: Parser)
    ensures var (st', r) := Exchange(st, frame, parse);
            && (st.AcceptsWrite() ==> st'.written == st.written + [frame] && st'.writesLeft == Spend(st.writesLeft))
            && (!st.AcceptsWrite() <==> r == Err(WriteFailed) && st' == st)
  {
    if st.AcceptsWrite() {
      var (st1, _) := WriteAll(st, frame);
      var (st2, got) := Read(st1, RecvBufferSize);
      assert Exchange(st, frame, parse).0 == st2;
      if got.None? {
        assert Exchange(st, frame, parse).1 == Err(ReadFailed);
      } else {
        var bytes := got.value;
        assert Interpret(bytes, parse) != Err(WriteFailed);
      }
    }
  }

  /**
   * A reply that arrives whole as one frame of at most 2048 bytes is
   * received as its opcode and document, whenever the parser reads back
   * what the serialiser wrote.
   */
  lemma ReceiveFrame(st: Stream, opcode: U8, reply: Json.Value, parse: Parser)
    requires st.arrivals != [] && st.arrivals[0] == Data(Frame.EncodeFrame(opcode, Json.Serialize(reply)))
    requires |Frame.EncodeFrame(opcode, Json.Serialize(reply))| <= RecvBufferSize
    requires parse(Json.Serialize(reply)) == Some(reply)
    ensures Receive(st, parse) == (st.(arrivals := st.arrivals[1..]), Ok((opcode as U32, reply)))
  {
    Frame.ParseEncodeFrame(opcode, Json.Serialize(reply));
  }

  /**
   * A reply longer than the buffer is cut: only its first 2048 bytes are
   * decoded and the rest is left for whatever reads the stream next.
   */
  lemma LongReplyIsCut(st: Stream, parse: Parser)
    requires st.arrivals != [] && st.arrivals[0].Data? && |st.arrivals[0].bytes| > RecvBufferSize
    ensures var bytes := st.arrivals[0].bytes;
            var (st', r) := Receive(st, parse);
            r == Interpret(bytes[..RecvBufferSize], parse)
            && st'.arrivals[0] == Data(bytes[RecvBufferSize..])
  {
  }
}
