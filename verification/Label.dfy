/** The label header of packets (label.go): a marker byte, a length byte and the label. */
module Label {
  import opened Base

  const HAS_LABEL_MSG: byte := 244
  const MAX_SIZE: nat := 255

  function Overhead(name: Bytes): nat { if name == [] then 0 else 2 + |name| }

  function Add(buf: Bytes, name: Bytes): (r: Result<Bytes>)
  {
    if name == [] then Ok(buf)
    else if |name| > MAX_SIZE then Err
    else Ok([HAS_LABEL_MSG, |name|] + name + buf)
  }

  /** The packet without its label, and the label. */
  function Remove(buf: Bytes): (r: Result<(Bytes, Bytes)>)
  {
    if |buf| == 0 || buf[0] != HAS_LABEL_MSG then Ok((buf, []))
    else if |buf| < 2 then Err
    else
      var size: int := buf[1];
      if size < 1 || |buf| < 2 + size then Err
      else Ok((buf[2 + size..], buf[2..2 + size]))
  }

  /** Removing undoes adding exactly if there is a label, or if the packet does not look labelled. */
  lemma RoundTrip(buf: Bytes, name: Bytes)
    requires |name| <= MAX_SIZE
    ensures Remove(Add(buf, name).value) == Ok((buf, name)) <==> name != [] || buf == [] || buf[0] != HAS_LABEL_MSG
    ensures |Add(buf, name).value| == |buf| + Overhead(name)
  {}

  /** Every packet that is accepted is the one that adding the label again gives. */
  lemma Canonical(packet: Bytes)
    requires Remove(packet).Ok?
    ensures var (buf, name) := Remove(packet).value; Add(buf, name) == Ok(packet)
  {
    var (buf, name) := Remove(packet).value;
    if |packet| > 0 && packet[0] == HAS_LABEL_MSG {
      assert packet == [packet[0], packet[1]] + packet[2..2 + |name|] + packet[2 + |name|..];
    }
  }
}
