# Discord IPC client, modelled in Dafny

This project models the IPC client of Discord-RPC-RS (`DiscordClient` in
`src/client/ipc.rs`). The client talks to the Discord desktop application
over a local transport: a Unix domain socket, or a Windows named pipe. It
works in four steps:

- **Discovery** finds the endpoint. On Unix it is one socket path built from
  the first of `XDG_RUNTIME_DIR`, `TMPDIR`, `TMP` that is set. On Windows it
  is one of the ten pipes `\\.\pipe\discord-ipc-0` to `-9`.
- **Connect** opens the endpoint and performs the handshake, which sends
  `{"v":1,"client_id":<id>}` with opcode HANDSHAKE.
- **Send payload** wraps a caller's event in a `SET_ACTIVITY` command with
  the process id and a nonce, and sends it with opcode MESSAGE.
- **The frame codec** writes a little-endian u32 opcode, a little-endian
  u32 body length and the UTF-8 body. It reads back the opcode and every
  byte after the 8-byte header as the body.

Modules, one per concern:

- `Base`: byte and integer widths, `Option`, `Result` and the error kinds.
- `Utf8`: UTF-8 encoding (`str::as_bytes`) and validating decoding
  (`str::from_utf8`, which `read_to_string` uses), with round-trip proofs in
  both directions.
- `Frame`: `write_u32`/`read_u32` in little-endian order, the frame `send`
  builds, and what `extract_payload` computes from a buffer.
- `Json`: JSON values, object insertion as the `json!` macro does it, and the
  compact serialiser.
- `Envelope`: the handshake and command documents and their frames.
- `Transport`: the transport handle as a value. It holds a log of written
  buffers and a script of what successive reads return. It also defines one
  write-then-read exchange.
- `Discovery`: the environment lookup, `PathBuf::join` and the pipe names.
- `Ipc`: the `DiscordClient` class (fields `id`, `isConnected`, `socket`).
  Its methods mirror the source's, and Windows probing is specified by the
  function `FirstConnectable`.

Behaviour of the code that the model keeps as written, though a reader of
the protocol might expect otherwise:

- An environment variable set to the empty string counts as set. It hides
  the later variables, and the path becomes the bare relative
  `discord-ipc-0`.
- `extract_payload` never checks the declared length. The body is every
  byte after the header, so a length field that disagrees with the body is
  not rejected. `Frame.ParseIgnoresDeclaredLength` states this.
- Sending without a transport is not a clean failure. `socket()` unwraps, so
  it panics. In the model this is a precondition.
- On Unix a failed handshake is not returned as an error. `expect` panics
  instead. In the model this is a precondition of `ConnectUnix`.
- A response longer than 2048 bytes is cut to its first 2048 bytes.
  `Transport.LongReplyIsCut` states this.

## Model

| member | source | states |
|---|---|---|
| `Utf8.DecodeEncode` | src/client/ipc.rs:185 | decoding the bytes of any string (as `as_bytes` writes them) gives that string back |
| `Utf8.EncodeDecode` | src/client/ipc.rs:185 | every byte sequence `read_to_string` accepts is exactly the encoding of the string it returns |
| `Utf8.DecodeSucceedsIffValid` | src/client/ipc.rs:185 | `read_to_string` succeeds if and only if the bytes are well-formed UTF-8 (the encoding of some string) |
| `Utf8.EncodeCharDecodeFirst` | src/client/ipc.rs:185 | each character the decoder accepts re-encodes to exactly the bytes it consumed (no overlong forms, no surrogates) |
| `Utf8.DecodeFirstEncodeChar` | src/client/ipc.rs:163 | the decoder reads back each character's encoding as that character and its width |
| `Frame.Le32ValueOfLe32` | src/client/ipc.rs:161-162 | reading four little-endian bytes back gives the u32 that was written |
| `Frame.Le32OfLe32Value` | src/client/ipc.rs:182-183 | every four bytes are the little-endian encoding of the u32 they are read as |
| `Frame.ReadU32` | src/client/ipc.rs:182-183 | `read_u32` fails exactly when fewer than 4 bytes remain, and otherwise consumes exactly the 4 bytes encoding the value |
| `Frame.FrameLayout` | src/client/ipc.rs:157-163 | a frame is 8 + body bytes long, its opcode field is below 256 with three zero high bytes, its length field equals the body length whenever that fits a u32, and its tail is the body |
| `Frame.ParseEncodeFrame` | src/client/ipc.rs:157-188 | decoding the frame `send` builds gives back its opcode and text, for every text, with no length precondition |
| `Frame.EncodeParseFrame` | src/client/ipc.rs:181-188 | a buffer that decodes is its opcode's encoding, its 4 length bytes and the encoding of the decoded text |
| `Frame.ParseFrameFailures` | src/client/ipc.rs:181-188 | decoding fails with end-of-input exactly when the buffer is shorter than 8 bytes, and with invalid UTF-8 exactly when the bytes after the header are not UTF-8 |
| `Frame.ParseIgnoresDeclaredLength` | src/client/ipc.rs:183-186 | replacing the declared length by any 4 bytes leaves the decoded result unchanged |
| `Json.InsertGet` | src/client/ipc.rs:106-113 | after `json!` inserts a key, it holds the new value, other keys are unchanged, and the object grows only for a new key |
| `Json.InsertKeepsKeysUnique` | src/client/ipc.rs:106-113 | inserting into an object whose keys are unique keeps them unique |
| `Json.InsertNew` | src/client/ipc.rs:106-113 | inserting a key the object lacks appends it after the existing members |
| `Json.EscapeProperties` | src/client/ipc.rs:158 | serialised string contents contain no raw control character, and text without quotes, backslashes or control characters is written unchanged |
| `Envelope.HandshakeBody` | src/client/ipc.rs:152 | the handshake document has exactly the keys `v` and `client_id`, holding 1 and the client's id |
| `Envelope.Args` | src/client/ipc.rs:108-111 | the `args` object has unique keys, maps the event name to the event data, holds the process id under `pid` unless the event is itself named `pid` |
| `Envelope.MessageBody` | src/client/ipc.rs:106-113 | the command document has exactly the keys `cmd`, `args`, `nonce`, holding `SET_ACTIVITY`, the arguments and the nonce |
| `Envelope.EventNamedPidOverridesPid` | src/client/ipc.rs:109-110 | an event named `pid` replaces the process id: the later key wins |
| `Envelope.EnvelopeFramesDecode` | src/client/ipc.rs:105-155 | the handshake frame decodes to opcode HANDSHAKE and the command frame to opcode MESSAGE, each with its serialised document; the two opcodes differ |
| `Transport.WriteAll` | src/client/ipc.rs:165 | a write the peer accepts appends exactly the whole buffer to the log and uses up one write of the peer's allowance; a refused write fails and changes nothing |
| `Transport.Read` | src/client/ipc.rs:170-172 | one read returns at most the buffer's capacity and leaves the write log and the write allowance alone |
| `Transport.ReadConservesBytes` | src/client/ipc.rs:170-172 | the bytes a read returns followed by the bytes still pending are the bytes pending before |
| `Transport.ExchangeWritesFrame` | src/client/ipc.rs:165-166 | an exchange on a transport that accepts the write logs exactly the frame; one whose peer refuses it fails with a write error and changes nothing |
| `Transport.ReceiveFrame` | src/client/ipc.rs:169-178 | a reply arriving as one frame of at most 2048 bytes is received as its opcode and document, and removed from the stream |
| `Transport.LongReplyIsCut` | src/client/ipc.rs:170-173 | a reply longer than 2048 bytes is decoded from its first 2048 bytes only; the rest stays in the stream |
| `Discovery.FirstSet` | src/client/ipc.rs:132-140 | the result is present if and only if some key's variable is usable, and is then the value of the first usable one |
| `Discovery.Join` | src/client/ipc.rs:51 | the joined path is the base, a '/' only when the base is non-empty and does not end in '/', then the name |
| `Discovery.UnixEndpointWhenUnset` | src/client/ipc.rs:130-142 | with none of the three variables usable, the socket path is the bare `discord-ipc-0` |
| `Discovery.EmptyValueCountsAsSet` | src/client/ipc.rs:133-136 | `XDG_RUNTIME_DIR` set to the empty string yields an empty base and the bare `discord-ipc-0`, whatever the later variables hold |
| `Discovery.BaseDirIsFirstUsable` | src/client/ipc.rs:132-140 | the base directory is the value of the first usable variable, whatever later variables hold |
| `Discovery.PipeNamesDistinct` | src/client/ipc.rs:71-72 | the ten probed pipe names are pairwise different |
| `Ipc.FirstConnectable` | src/client/ipc.rs:71-99 | the chosen pipe is the lowest-numbered one that opens and accepts the handshake; none is chosen exactly when no pipe does |
| `Ipc.AcceptedHandshakeWritesHandshakeFrame` | src/client/ipc.rs:151-155 | an accepted handshake needs a transport that accepts a write and writes exactly the handshake frame to it |
| `Ipc.WriteCanFailAfterHandshake` | src/client/ipc.rs:165 | a connected client's later write can still fail: when the peer accepts only one write, the handshake succeeds and the next exchange fails with a write error |
| `Ipc.ReadyHostAcceptsHandshake` | src/client/ipc.rs:151-155 | a transport that accepts a write and whose next arrival is one whole well-formed reply frame accepts the handshake and returns that reply |
| `Ipc.DiscordClient.constructor` | src/client/ipc.rs:40-46 | a new client has the given id, is not connected and holds no transport |
| `Ipc.DiscordClient.Socket` | src/client/ipc.rs:118-126 | the held transport; there must be one (the source unwraps) |
| `Ipc.DiscordClient.FetchProcessPathbuf` | src/client/ipc.rs:128-143 | the loop over the three variables returns the value of the first usable one, or the empty string |
| `Ipc.DiscordClient.ConnectUnix` | src/client/ipc.rs:50-65 | if the socket path opens, the client is connected with the transport after the handshake; otherwise it returns DiscordNotFound, is not connected and keeps its old transport |
| `Ipc.DiscordClient.ConnectWindows` | src/client/ipc.rs:69-103 | probes pipes 0, 1, ... in order and stops at the first that opens and accepts the handshake, connecting with it; if none does, returns DiscordNotFound, not connected, with no transport if any pipe opened and the old one otherwise |
| `Ipc.DiscordClient.SendPayload` | src/client/ipc.rs:105-116 | writes the MESSAGE frame of the command envelope and returns the reply the exchange yields; connection flag and id unchanged |
| `Ipc.DiscordClient.Handshake` | src/client/ipc.rs:151-155 | writes the HANDSHAKE frame of `{"v":1,"client_id":id}` and returns the reply the exchange yields |
| `Ipc.DiscordClient.Send` | src/client/ipc.rs:157-167 | the buffer built field by field is the frame of the serialised document; it is written, then one reply is received |
| `Ipc.DiscordClient.Recv` | src/client/ipc.rs:169-179 | one read into a 2048-byte buffer, then the frame and the JSON of exactly those bytes |
| `Ipc.DiscordClient.ExtractPayload` | src/client/ipc.rs:181-188 | the cursor-based parse equals the frame decoding: opcode from the first 4 bytes, body from every byte after 8 |

## Left out

- Real transport I/O is not modelled. This covers `UnixStream::connect`, `OpenOptions` with the overlapped flag, `write_all` and `read`. Opening is a map from path or pipe name to the stream found there. A stream is a count of the writes the peer still accepts (or no limit), a write log and a script of read results.
- `Transport.Read`: an exhausted read script stands for a peer that closed the stream, so the read returns no bytes and `recv` reports end of input. A peer that stays open but never replies, on which the real `read` at src/client/ipc.rs:172 blocks forever, is not modelled.
- `Transport.WriteAll`: a peer refuses writes only after a fixed number of accepted ones. Once it refuses one write it refuses every later one, so a transport that recovers is not modelled.
- A failed `write_all` is modelled as writing nothing. Partial writes before an error are not modelled.
- Closing a transport that is dropped or replaced is not modelled.
- `serde_json::from_str` is a parameter of the receiving operations (`Transport.Parser`). Its internals are not part of this model.
- The serialiser writes object members in insertion order. serde_json built without `preserve_order` writes keys sorted instead. The host protocol does not depend on key order.
- JSON numbers are integers only. The client builds no floating-point values, and reply documents come from the parser parameter.
- `std::process::id()` and `uuid::Uuid::new_v4()` are parameters (`pid`, `nonce`).
- The `OpCode`, `Commands` and `Payload` definitions live in `crate::models`, which is not part of this model. HANDSHAKE = 0, MESSAGE = 1 and the command name `SET_ACTIVITY` are taken from the host protocol.
- The Windows `fetch_process_pathbuf` (src/client/ipc.rs:146-149) is not modelled. Nothing calls it, and it returns an empty path.
- The heap allocation of `String::with_capacity(payload_len)` is not modelled. A huge declared length could exhaust memory there.
- `debug!` logging is not modelled.
- Panics are preconditions, not errors. `socket()` unwraps, so `Send`, `Recv`, `Handshake` and `SendPayload` require a transport. The Unix `expect` on the handshake becomes a precondition of `ConnectUnix`.
- The `examples/*.rs` demo programs are not modelled. They have no logic of their own.
- The choice between the Unix and Windows build is not modelled. Both `connect` variants are methods of the one class.
