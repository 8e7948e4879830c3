/**
 * The two documents the client sends: the handshake (`handshake`) and the
 * SET_ACTIVITY command wrapping a caller's payload (`send_payload`), and the
 * frames that carry them.
 */
module Envelope {
  import opened Base
  import Json
  import Frame

  /** Opcodes of the host protocol; the client sends only these two. */
  const HANDSHAKE: U8 := 0
  const MESSAGE: U8 := 1

  /** The protocol version the handshake announces. */
  const PROTOCOL_VERSION := 1

  /** The command name `send_payload` puts under "cmd". */
  const SET_ACTIVITY := "SET_ACTIVITY"

  /** What a caller hands to `send_payload`: an event name and the JSON data for it. */
  datatype Payload = Payload(eventName: string, eventData: Json.Value)

  /** `json!({ "v": 1, "client_id": id })`. */
  function HandshakeBody(id: string): (v: Json.Value)
    ensures v.Object? && Json.UniqueKeys(v.members)
    ensures Json.Keys(v.members) == ["v", "client_id"]
    ensures Json.Get(v.members, "v") == Some(Json.Number(PROTOCOL_VERSION))
    ensures Json.Get(v.members, "client_id") == Some(Json.String(id))
  {
    var m1 := Json.Insert([], "v", Json.Number(PROTOCOL_VERSION));
    Json.InsertGet([], "v", Json.Number(PROTOCOL_VERSION), "client_id");
    Json.InsertGet(m1, "client_id", Json.String(id), "v");
    Json.InsertKeepsKeysUnique(m1, "client_id", Json.String(id));
    assert "v"[0] != "client_id"[0];
    Json.InsertNew(m1, "client_id", Json.String(id));
    assert Json.Insert(m1, "client_id", Json.String(id))
        == [Json.Member("v", Json.Number(PROTOCOL_VERSION)), Json.Member("client_id", Json.String(id))];
    Json.Object(Json.Insert(m1, "client_id", Json.String(id)))
  }

  /** `json!({ "pid": pid, event_name: event_data })`. */
  function Args(pid: U32, payload: Payload): (a: seq<Json.Member>)
    ensures Json.UniqueKeys(a)
    ensures Json.Get(a, payload.eventName) == Some(payload.eventData)
    ensures payload.eventName != "pid" ==> Json.Get(a, "pid") == Some(Json.Number(pid))
    ensures Json.Keys(a) == if payload.eventName == "pid" then ["pid"] else ["pid", payload.eventName]
  {
    var m1 := Json.Insert([], "pid", Json.Number(pid));
    Json.InsertGet([], "pid", Json.Number(pid), payload.eventName);
    Json.InsertGet(m1, payload.eventName, payload.eventData, "pid");
    Json.InsertKeepsKeysUnique(m1, payload.eventName, payload.eventData);
    Json.Insert(m1, payload.eventName, payload.eventData)
  }

  /** The command envelope `send_payload` builds around a payload. */
  function MessageBody(pid: U32, payload: Payload, nonce: string): (v: Json.Value)
    ensures v.Object? && Json.UniqueKeys(v.members)
    ensures Json.Keys(v.members) == ["cmd", "args", "nonce"]
    ensures Json.Get(v.members, "cmd") == Some(Json.String(SET_ACTIVITY))
    ensures Json.Get(v.members, "args") == Some(Json.Object(Args(pid, payload)))
    ensures Json.Get(v.members, "nonce") == Some(Json.String(nonce))
  {
    assert "cmd"[0] != "args"[0] && "nonce"[0] != "cmd"[0] && "nonce"[0] != "args"[0];
    var cmd := Json.String(SET_ACTIVITY);
    var args := Json.Object(Args(pid, payload));
    var m1 := Json.Insert([], "cmd", cmd);
    var m2 := Json.Insert(m1, "args", args);
    Json.InsertGet([], "cmd", cmd, "args");
    Json.InsertGet(m1, "args", args, "cmd");
    Json.InsertGet(m2, "nonce", Json.String(nonce), "cmd");
    Json.InsertGet(m2, "nonce", Json.String(nonce), "args");
    Json.InsertKeepsKeysUnique(m2, "nonce", Json.String(nonce));
    Json.InsertGet([], "cmd", cmd, "nonce");
    Json.InsertGet(m1, "args", args, "nonce");
    Json.InsertNew([], "cmd", cmd);
    Json.InsertNew(m1, "args", args);
    Json.InsertNew(m2, "nonce", Json.String(nonce));
    assert Json.Insert(m2, "nonce", Json.String(nonce))
        == [Json.Member("cmd", cmd), Json.Member("args", args), Json.Member("nonce", Json.String(nonce))];
    Json.Object(Json.Insert(m2, "nonce", Json.String(nonce)))
  }

  /** The frame `handshake` writes. */
  function HandshakeFrame(id: string): seq<Byte> {
    Frame.EncodeFrame(HANDSHAKE, Json.Serialize(HandshakeBody(id)))
  }

  /** The frame `send_payload` writes. */
  function MessageFrame(pid: U32, payload: Payload, nonce: string): seq<Byte> {
    Frame.EncodeFrame(MESSAGE, Json.Serialize(MessageBody(pid, payload, nonce)))
  }

  /** A payload whose event name is "pid" replaces the process id in "args": the later key wins. */
  lemma EventNamedPidOverridesPid(pid: U32, data: Json.Value)
    ensures Args(pid, Payload("pid", data)) == [Json.Member("pid", data)]
  {
  }

  /**
   * Decoding either frame gives back its opcode and the serialised document:
   * HANDSHAKE for the handshake, MESSAGE for a command.
   */
  lemma EnvelopeFramesDecode(id: string, pid: U32, payload: Payload, nonce: string)
    ensures Frame.ParseFrame(HandshakeFrame(id)) == Ok((HANDSHAKE as U32, Json.Serialize(HandshakeBody(id))))
    ensures Frame.ParseFrame(MessageFrame(pid, payload, nonce))
            == Ok((MESSAGE as U32, Json.Serialize(MessageBody(pid, payload, nonce))))
    ensures HANDSHAKE != MESSAGE
  {
    Frame.ParseEncodeFrame(HANDSHAKE, Json.Serialize(HandshakeBody(id)));
    Frame.ParseEncodeFrame(MESSAGE, Json.Serialize(MessageBody(pid, payload, nonce)));
  }
}
