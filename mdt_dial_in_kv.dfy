/** The message loop of the dial-in KV collector: every message received
    on the subscription channel is decoded, group by group, with one name
    buffer kept for the whole session. A message that `proto.Unmarshal`
    rejects is logged and then decoded all the same, from whatever the
    unmarshal left in it. */
module MdtDialInKv {
  import opened MdtFields
  import opened MdtGroup

  /** A message off the channel after `proto.Unmarshal`: the message as
      decoded (partly, when there was an error) and whether the unmarshal
      reported an error. */
  datatype Received = Received(message: Telemetry, failed: bool)

  /** The `for tele := range ch` loop, with the shared `namebuf`: every
      message is decoded in turn, whether or not its unmarshal failed. */
  method Receive(rs: seq<Received>, render: Value -> string, timeText: (int, int) -> string)
    returns (out: seq<seq<Measurement>>)
    ensures |out| == |rs|
    ensures forall i :: 0 <= i < |rs| ==> out[i] == Measurements(rs[i].message, render, timeText)
  {
    var namebuf := new NameBuffer();
    out := [];
    var i := 0;
    while i < |rs|
      invariant 0 <= i <= |rs|
      invariant namebuf.text == ""
      invariant |out| == i
      invariant forall k :: 0 <= k < i ==> out[k] == Measurements(rs[k].message, render, timeText)
    {
      // an unmarshal error is only logged
      var groups := DecodeMessage(rs[i].message, namebuf, render, timeText);
      out := out + [groups];
      i := i + 1;
    }
  }
}
