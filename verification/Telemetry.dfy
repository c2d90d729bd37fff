// The status-request branch of the telemetry task: the inbound message is
// classified, its uuid copied into fixed storage, and the answer formatted into a
// fixed buffer.

module Telemetry {
  import opened Prelude
  import opened ScanSpec
  import opened StatusResponse
  import Door
  import Scanner
  import Utf8

  const UUID_MAX: nat := 64
  const PAYLOAD_MAX: nat := 160

  const TOPIC_TRIGGER: string := "garagedoor/trigger"
  const TOPIC_STATUS: string := "garagedoor/status"
  const TOPIC_RESET: string := "garagedoor/reset"

  // A status request owns the storage its uuid was copied to.
  datatype Action = Trigger | Reset | Status(uuid: seq<byte>, uuidLen: nat) | Unknown

  // The action a message deserves, and for a status request the uuid it carries.
  predicate Deserves(topic: string, payload: seq<byte>, a: Action) {
    if topic == TOPIC_TRIGGER then a == Trigger
    else if topic == TOPIC_RESET then a == Reset
    else if topic == TOPIC_STATUS && StatusRequest(payload).Ok? && |StatusRequest(payload).value| <= UUID_MAX then
      a.Status? && a.uuidLen <= |a.uuid| == UUID_MAX && a.uuid[..a.uuidLen] == StatusRequest(payload).value
    else a == Unknown
  }

  method Classify(topic: string, payload: seq<byte>) returns (a: Action)
    ensures Deserves(topic, payload, a)
  {
    if topic == TOPIC_TRIGGER {
      a := Trigger;
    } else if topic == TOPIC_RESET {
      a := Reset;
    } else if topic == TOPIC_STATUS {
      var parsed := Scanner.ParseStatusRequest(payload);
      match parsed
      case Ok(bytes) =>
        if |bytes| > UUID_MAX {
          a := Unknown;
        } else {
          var uuid := new byte[UUID_MAX](_ => 0);
          forall k | 0 <= k < |bytes| {
            uuid[k] := bytes[k];
          }
          assert uuid[..|bytes|] == bytes;
          a := Status(uuid[..], |bytes|);
        }
      case Err(_) => a := Unknown;
    } else {
      a := Unknown;
    }
  }

  // Answers a status action; nothing when the uuid is not UTF-8 or the payload is
  // cut short.
  method Answer(uuid: seq<byte>, uuidLen: nat, current: Option<Door.DoorState>, version: u32)
    returns (r: Option<seq<byte>>)
    requires uuidLen <= |uuid|
    ensures var text := ResponseText(uuid[..uuidLen], current == Some(Door.Open), version);
            r == if Utf8.Valid(uuid[..uuidLen]) && |text| <= PAYLOAD_MAX then Some(text) else None
  {
    var open := match current case Some(state) => state == Door.Open case None => false;
    if !Utf8.Valid(uuid[..uuidLen]) {
      return None;
    }
    var buf := new byte[PAYLOAD_MAX](_ => 0);
    var payload := FormatStatusResponse(buf, uuid[..uuidLen], open, version);
    r := match payload case Ok(text) => Some(text) case Err(_) => None;
  }

  // Every request whose uuid is accepted and at most 64 bytes long is answered, with
  // that uuid, the door state and the version: neither error branch is ever taken.
  method Serve(payload: seq<byte>, current: Option<Door.DoorState>, version: u32) returns (r: Option<seq<byte>>)
    ensures match StatusRequest(payload)
            case Ok(uuid) =>
              r == if |uuid| <= 64 then Some(ResponseText(uuid, current == Some(Door.Open), version)) else None
            case Err(_) => r == None
  {
    hide ResponseText, StatusRequest;
    var a := Classify(TOPIC_STATUS, payload);
    assert TOPIC_STATUS != TOPIC_TRIGGER && TOPIC_STATUS != TOPIC_RESET by {
      assert TOPIC_STATUS[11] == 's' && TOPIC_TRIGGER[11] == 't' && TOPIC_RESET[11] == 'r';
    }
    if !a.Status? {
      return None;
    }
    AcceptedIsBody(payload, a.uuid[..a.uuidLen]);
    ResponseSize(a.uuid[..a.uuidLen], current == Some(Door.Open), version);
    r := Answer(a.uuid, a.uuidLen, current, version);
  }
}
