/** Whole runs of one daemon on the heap against the step functions of Hosts. */
module DaemonRuns {
  import opened Text
  import opened Receiver
  import opened Nacks
  import opened Hosts
  import opened Daemons

  /** What makes a daemon act: an application message, the heartbeat timer, the trim at the end of
      every round of the loop, or a packet with the word that follows it in the buffer. */
  datatype Input = Send(body: Payload, taken: bool) | Beat | Trim | Arrival(p: Packet, stale: int)

  function Step(t: Reading, h: Host, input: Input): (Host, seq<Packet>) {
    match input
    case Send(body, taken) => HandleSend(h, body, taken)
    case Beat => HandleTimer(h)
    case Trim => (HandleTrim(t, h), [])
    case Arrival(p, stale) => Handle(t, h, p, stale)
  }

  function Final(t: Reading, h: Host, inputs: seq<Input>): Host
    decreases |inputs|
  {
    if inputs == [] then h else Final(t, Step(t, h, inputs[0]).0, inputs[1..])
  }

  function Packets(t: Reading, h: Host, inputs: seq<Input>): seq<Packet>
    decreases |inputs|
  {
    if inputs == [] then [] else Step(t, h, inputs[0]).1 + Packets(t, Step(t, h, inputs[0]).0, inputs[1..])
  }

  /** For every run of inputs, the daemon on the heap ends in the state of the step functions and has
      sent the same packets in the same order. */
  method Execute(d: Daemon, inputs: seq<Input>) returns (packets: seq<Packet>)
    requires d.Valid()
    modifies d.out.Repr, d.members, d.members.owned
    ensures d.Valid() && fresh(d.out.Repr - old(d.out.Repr)) && fresh(d.members.owned - old(d.members.owned))
    ensures d.View() == Final(d.text, old(d.View()), inputs) && packets == Packets(d.text, old(d.View()), inputs)
    decreases |inputs|
  {
    packets := [];
    if inputs != [] {
      var first := ExecuteOne(d, inputs[0]);
      var rest := Execute(d, inputs[1..]);
      packets := first + rest;
    }
  }

  /** One step, stated without looking into the daemon. */
  method Act(d: Daemon, input: Input) returns (packets: seq<Packet>)
    requires d.Ready()
    modifies d.Own()
    ensures d.Ready() && fresh(d.Own() - old(d.Own())) && (d.View(), packets) == Step(d.text, old(d.View()), input)
  {
    assert OpenDaemon(0);
    packets := ExecuteOne(d, input);
  }

  method ExecuteOne(d: Daemon, input: Input) returns (packets: seq<Packet>)
    requires d.Valid()
    modifies d.out.Repr, d.members, d.members.owned
    ensures d.Valid() && fresh(d.out.Repr - old(d.out.Repr)) && fresh(d.members.owned - old(d.members.owned))
    ensures (d.View(), packets) == Step(d.text, old(d.View()), input)
  {
    packets := [];
    match input
    case Send(body, taken) =>
      packets := d.SendData(body, taken);
    case Beat =>
      packets := d.SendHeartbeat();
    case Trim =>
      d.TrimByAcks();
    case Arrival(p, stale) =>
      packets := Arrive(d, p, stale);
  }

  method Arrive(d: Daemon, p: Packet, stale: int) returns (packets: seq<Packet>)
    requires d.Valid()
    modifies d.members, d.members.owned
    ensures d.Valid() && fresh(d.members.owned - old(d.members.owned))
    ensures (d.View(), packets) == Handle(d.text, old(d.View()), p, stale)
  {
    packets := [];
    match p
    case Data(src, _, m) =>
      packets := d.OnDataPacket(src, m);
    case Hbeat(src, num, session, acks) =>
      packets := d.OnHeartbeat(src, num, session, acks);
    case Nack(id, _, nums) =>
      packets := d.OnNack(id, Encode(nums) + [stale]);
    case Leave(src) =>
      d.OnLeave(src);
  }
}
