/** `handleTelemetry` of the dial-out server: one packet from the device,
    unmarshalled and decoded group by group with a name buffer of its own.
    A packet that `proto.Unmarshal` rejects is dropped whole. */
module MdtDialOut {
  import opened MdtFields
  import opened MdtGroup

  /** A packet after `proto.Unmarshal`: the message and whether the
      unmarshal reported an error. */
  datatype Packet = Packet(message: Telemetry, failed: bool)

  /** `handleTelemetry(data)`. */
  method HandleTelemetry(p: Packet, render: Value -> string, timeText: (int, int) -> string)
    returns (out: seq<Measurement>)
    ensures p.failed ==> out == []
    ensures !p.failed ==> out == Measurements(p.message, render, timeText)
  {
    var namebuf := new NameBuffer();
    if p.failed {
      return [];
    }
    out := DecodeMessage(p.message, namebuf, render, timeText);
  }
}
