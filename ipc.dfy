/**
 * The IPC client (`DiscordClient`): it finds the host application's socket
 * or pipe, performs the handshake, and exchanges one frame at a time.
 */
module Ipc {
  import opened Base
  import Utf8
  import Frame
  import Json
  import Envelope
  import Transport
  import Discovery

  /** True when the handshake on a freshly opened stream gets a well-formed reply. */
  predicate HandshakeAccepted(id: string, st: Transport.Stream, parse: Transport.Parser) {
    Transport.Exchange(st, Envelope.HandshakeFrame(id), parse).1.Ok?
  }

  /** The stream as the handshake leaves it. */
  function AfterHandshake(id: string, st: Transport.Stream, parse: Transport.Parser): Transport.Stream {
    Transport.Exchange(st, Envelope.HandshakeFrame(id), parse).0
  }

  /**
   * An accepted handshake wrote exactly one frame, the handshake frame, and
   * consumed the reply from the stream.
   */
  lemma AcceptedHandshakeWritesHandshakeFrame(id: string, st: Transport.Stream, parse: Transport.Parser)
    requires HandshakeAccepted(id, st, parse)
    ensures st.AcceptsWrite()
    ensures AfterHandshake(id, st, parse).written == st.written + [Envelope.HandshakeFrame(id)]
  {
    Transport.ExchangeWritesFrame(st, Envelope.HandshakeFrame(id), parse);
  }

  /**
   * A stream that accepts a write and whose next arrival is one whole reply frame of at most
   * 2048 bytes, in a document the parser reads back, accepts the handshake.
   */
  lemma ReadyHostAcceptsHandshake(id: string, st: Transport.Stream, opcode: U8, reply: Json.Value, parse: Transport.Parser)
    requires st.AcceptsWrite()
    requires st.arrivals != [] && st.arrivals[0] == Transport.Data(Frame.EncodeFrame(opcode, Json.Serialize(reply)))
    requires |Frame.EncodeFrame(opcode, Json.Serialize(reply))| <= Transport.RecvBufferSize
    requires parse(Json.Serialize(reply)) == Some(reply)
    ensures HandshakeAccepted(id, st, parse)
    ensures Transport.Exchange(st, Envelope.HandshakeFrame(id), parse).1 == Ok((opcode as U32, reply))
  {
    var (st1, _) := Transport.WriteAll(st, Envelope.HandshakeFrame(id));
    Transport.ReceiveFrame(st1, opcode, reply, parse);
  }

  /**
   * Connecting does not make later writes safe: when the peer accepts just
   * one write, the handshake succeeds and the next exchange fails with
   * WriteFailed, leaving the stream as the handshake left it.
   */
  lemma WriteCanFailAfterHandshake(id: string, st: Transport.Stream, frame: seq<Byte>, parse: Transport.Parser)
    requires HandshakeAccepted(id, st, parse)
    requires st.writesLeft == Some(1)
    ensures var st' := AfterHandshake(id, st, parse);
            Transport.Exchange(st', frame, parse) == (st', Err(WriteFailed))
  {
    var (st1, _) := Transport.WriteAll(st, Envelope.HandshakeFrame(id));
    assert st1.writesLeft == Some(0);
    var (st2, _) := Transport.Read(st1, Transport.RecvBufferSize);
    assert AfterHandshake(id, st, parse) == st2;
    assert !st2.AcceptsWrite();
  }

  /** True when pipe `i` opens and accepts the handshake. */
  predicate PipeConnects(id: string, pipes: map<string, Transport.Stream>, parse: Transport.Parser, i: nat)
    requires i < Discovery.PipeCount
  {
    Discovery.PipeName(i) in pipes && HandshakeAccepted(id, pipes[Discovery.PipeName(i)], parse)
  }

  /** The lowest pipe number from `from` on that opens and accepts the handshake. */
  function FirstConnectable(id: string, pipes: map<string, Transport.Stream>, parse: Transport.Parser, from: nat): (r: Option<nat>)
    requires from <= Discovery.PipeCount
    ensures r.Some? ==> from <= r.value < Discovery.PipeCount && PipeConnects(id, pipes, parse, r.value)
    ensures r.Some? ==> forall j :: from <= j < r.value ==> !PipeConnects(id, pipes, parse, j)
    ensures r.None? ==> forall j :: from <= j < Discovery.PipeCount ==> !PipeConnects(id, pipes, parse, j)
    decreases Discovery.PipeCount - from
  {
    if from == Discovery.PipeCount then None
    else if PipeConnects(id, pipes, parse, from) then Some(from)
    else FirstConnectable(id, pipes, parse, from + 1)
  }

  /** True when some pipe below `n` opens at all (whatever its handshake does). */
  predicate SomePipeOpens(pipes: map<string, Transport.Stream>, n: nat)
    requires n <= Discovery.PipeCount
  {
    exists j :: 0 <= j < n && Discovery.PipeName(j) in pipes
  }

  /** The numbers 0, 1, ..., n - 1 in ascending order. */
  function Upto(n: nat): (r: seq<nat>)
    ensures |r| == n && forall i :: 0 <= i < n ==> r[i] == i
  {
    if n == 0 then [] else Upto(n - 1) + [n - 1]
  }

  class DiscordClient {
    /** The application id announced in the handshake. */
    var id: string
    /** True once a connect has completed its handshake. */
    var isConnected: bool
    /** The open transport, if any. */
    var socket: Option<Transport.Stream>

    /** A connected client always holds a transport. */
    ghost predicate Valid()
      reads this
    {
      isConnected ==> socket.Some?
    }

    /** `DiscordClient::new`: disconnected, no transport. */
    constructor (id: string)
      ensures Valid()
      ensures this.id == id && !isConnected && socket == None
    {
      this.id := id;
      isConnected := false;
      socket := None;
    }

    /** `socket()`: the open transport; the source unwraps, so there must be one. */
    function Socket(): (s: Transport.Stream)
      reads this
      requires socket.Some?
      ensures socket == Some(s)
    {
      socket.value
    }

    /**
     * `fetch_process_pathbuf` (Unix): the value of the first of
     * XDG_RUNTIME_DIR, TMPDIR, TMP that `var` finds, or the empty string.
     */
    method FetchProcessPathbuf(env: Discovery.Env) returns (path: string)
      ensures path == Discovery.BaseDir(env)
    {
      path := "";
      var keys := Discovery.EnvKeys;
      var i := 0;
      while i < |keys|
        invariant 0 <= i <= |keys|
        invariant path == ""
        invariant Discovery.FirstSet(env, keys) == Discovery.FirstSet(env, keys[i..])
      {
        assert keys[i..][1..] == keys[i + 1..];
        match Discovery.Var(env, keys[i]) {
          case Some(value) =>
            path := value;
            return;
          case None =>
        }
        i := i + 1;
      }
    }

    /**
     * `connect` on Unix: open the one socket path; on success the handshake
     * must succeed (the source panics otherwise) and the client is connected;
     * on failure the client is marked disconnected and keeps its old transport.
     */
    method ConnectUnix(env: Discovery.Env, listening: map<string, Transport.Stream>, parse: Transport.Parser)
      returns (r: Result<(), ConnectError>)
      requires var path := Discovery.UnixEndpoint(env);
               path in listening ==> HandshakeAccepted(id, listening[path], parse)
      modifies this
      ensures Valid() && id == old(id)
      ensures var path := Discovery.UnixEndpoint(env);
              if path in listening then
                r == Ok(()) && isConnected && socket == Some(AfterHandshake(id, listening[path], parse))
              else
                r == Err(DiscordNotFound) && !isConnected && socket == old(socket)
    {
      var base := FetchProcessPathbuf(env);
      var path := Discovery.Join(base, Discovery.SocketName);
      if path in listening {
        socket := Some(listening[path]);
        var h := Handshake(parse);
        isConnected := true;
        r := Ok(());
      } else {
        isConnected := false;
        r := Err(DiscordNotFound);
      }
    }

    /**
     * `connect` on Windows: probe pipes 0 to 9 in order and keep the first
     * that opens and accepts the handshake. A failed handshake drops the
     * transport; a pipe that does not open leaves it as it was. `probed`
     * lists the pipe numbers tried.
     */
    method ConnectWindows(pipes: map<string, Transport.Stream>, parse: Transport.Parser)
      returns (r: Result<(), ConnectError>, ghost probed: seq<nat>)
      modifies this
      ensures Valid() && id == old(id)
      ensures match FirstConnectable(id, pipes, parse, 0)
              case Some(k) =>
                && r == Ok(()) && isConnected
                && socket == Some(AfterHandshake(id, pipes[Discovery.PipeName(k)], parse))
                && probed == Upto(k + 1)
              case None =>
                && r == Err(DiscordNotFound) && !isConnected
                && socket == (if SomePipeOpens(pipes, Discovery.PipeCount) then None else old(socket))
                && probed == Upto(Discovery.PipeCount)
    {
      probed := [];
      var i := 0;
      while i < Discovery.PipeCount
        invariant 0 <= i <= Discovery.PipeCount
        invariant id == old(id)
        invariant probed == Upto(i)
        invariant FirstConnectable(id, pipes, parse, 0) == FirstConnectable(id, pipes, parse, i)
        invariant socket == (if SomePipeOpens(pipes, i) then None else old(socket))
      {
        probed := probed + [i];
        var name := Discovery.PipeName(i);
        if name in pipes {
          socket := Some(pipes[name]);
          var h := Handshake(parse);
          assert h.Ok? <==> PipeConnects(id, pipes, parse, i);
          if h.Ok? {
            assert FirstConnectable(id, pipes, parse, i) == Some(i);
            isConnected := true;
            return Ok(()), probed;
          }
          socket := None;
        }
        assert SomePipeOpens(pipes, i + 1) <==> SomePipeOpens(pipes, i) || name in pipes;
        i := i + 1;
      }
      isConnected := false;
      r := Err(DiscordNotFound);
    }

    /**
     * `send_payload`: wrap the payload in a SET_ACTIVITY command carrying the
     * process id and a nonce, send it as a MESSAGE frame, return the reply.
     */
    method SendPayload(payload: Envelope.Payload, pid: U32, nonce: string, parse: Transport.Parser)
      returns (r: Result<(U32, Json.Value), IoError>)
      requires socket.Some?
      modifies this
      ensures Valid() && id == old(id) && isConnected == old(isConnected)
      ensures socket.Some? && (socket.value, r) == Transport.Exchange(old(socket).value, Envelope.MessageFrame(pid, payload, nonce), parse)
    {
      r := Send(Envelope.MessageBody(pid, payload, nonce), Envelope.MESSAGE, parse);
    }

    /** `handshake`: send `{"v":1,"client_id":id}` as a HANDSHAKE frame, return the reply. */
    method Handshake(parse: Transport.Parser) returns (r: Result<(U32, Json.Value), IoError>)
      requires socket.Some?
      modifies this
      ensures Valid() && id == old(id) && isConnected == old(isConnected)
      ensures socket.Some? && (socket.value, r) == Transport.Exchange(old(socket).value, Envelope.HandshakeFrame(id), parse)
    {
      r := Send(Envelope.HandshakeBody(id), Envelope.HANDSHAKE, parse);
    }

    /**
     * `send`: serialise the document, build the frame piece by piece (opcode,
     * byte length, body), write it and receive one reply.
     */
    method Send(payload: Json.Value, opcode: U8, parse: Transport.Parser)
      returns (r: Result<(U32, Json.Value), IoError>)
      requires socket.Some?
      modifies this
      ensures Valid() && id == old(id) && isConnected == old(isConnected)
      ensures socket.Some? && (socket.value, r)
              == Transport.Exchange(old(socket).value, Frame.EncodeFrame(opcode, Json.Serialize(payload)), parse)
    {
      var text := Json.Serialize(payload);
      var body := Utf8.Encode(text);
      var data: seq<Byte> := [];
      data := data + Frame.Le32(opcode);
      data := data + Frame.Le32(|body| % 0x1_0000_0000);
      data := data + body;
      assert data == Frame.EncodeFrame(opcode, text);
      var (st, ok) := Transport.WriteAll(Socket(), data);
      socket := Some(st);
      if !ok {
        return Err(WriteFailed);
      }
      r := Recv(parse);
    }

    /** `recv`: one read into a 2048-byte buffer, then decode exactly those bytes. */
    method Recv(parse: Transport.Parser) returns (r: Result<(U32, Json.Value), IoError>)
      requires socket.Some?
      modifies this
      ensures Valid() && id == old(id) && isConnected == old(isConnected)
      ensures socket.Some? && (socket.value, r) == Transport.Receive(old(socket).value, parse)
    {
      var (st, got) := Transport.Read(Socket(), Transport.RecvBufferSize);
      socket := Some(st);
      if got.None? {
        return Err(ReadFailed);
      }
      var frame := ExtractPayload(got.value);
      if frame.Err? {
        return Err(frame.error);
      }
      var (opcode, text) := frame.value;
      var doc := parse(text);
      if doc.None? {
        return Err(MalformedJson);
      }
      r := Ok((opcode, doc.value));
    }

    /**
     * `extract_payload`: read the opcode and the declared length off the
     * front of the slice, then the rest of the slice as UTF-8 text.
     */
    method ExtractPayload(data: seq<Byte>) returns (r: Result<(U32, string), IoError>)
      ensures r == Frame.ParseFrame(data)
    {
      var cursor := data;
      var first := Frame.ReadU32(cursor);
      if first.None? {
        return Err(UnexpectedEof);
      }
      var opcode := first.value.0;
      cursor := first.value.1;
      var second := Frame.ReadU32(cursor);
      if second.None? {
        return Err(UnexpectedEof);
      }
      // The declared length only sizes the string buffer; it is never checked.
      var payloadLen := second.value.0;
      cursor := second.value.1;
      assert data == Frame.Le32(opcode) + Frame.Le32(payloadLen) + cursor;
      assert data[..4] == Frame.Le32(opcode) && cursor == data[Frame.HeaderSize..];
      Frame.Le32ValueOfLe32(opcode);
      var text := Utf8.Decode(cursor);
      if text.None? {
        return Err(InvalidUtf8);
      }
      r := Ok((opcode, text.value));
    }
  }
}
