/** What one daemon does with each packet, timer and application message. Every handler
    runs to completion, so each is one step. */
module Hosts {
  import opened Text
  import MQueues
  import opened Receiver
  import opened Sessions
  import opened SenderWindow
  import opened Nacks
  import opened Words

  type Id = int

  datatype Ack = Ack(id: Id, num: int)

  /** Packets on the wire. `Data` is sent to the group or, as a reply, to one host. A `Nack`
      carries the id its sender puts into the header. */
  datatype Packet =
    | Data(src: Id, dst: Option<Id>, msg: Msg)
    | Hbeat(src: Id, num: int, session: int, acks: seq<Ack>)
    | Nack(id: Id, to: Id, nums: seq<int>)
    | Leave(src: Id)

  /** A registered member: its session, its stream, and what it last acknowledged of ours. */
  datatype Peer = Peer(session: int, mem: Member, sync: int)

  /** `peers` is the member table, `order` the member queue. */
  datatype Host = Host(id: Id, session: int, hbAck: bool, snd: Sender, peers: map<Id, Peer>, order: seq<Id>)

  /** The numbers a gap report asks for when `num` has been heard of. */
  function Asked(t: Reading, r: Member, num: int): seq<int> {
    if t.AsMeant? then Missing(r.sequence, num, r.cache.Keys)
    else
      var start, stop := Word(r.sequence + 1), Word(r.sequence - 1);
      RingMissing(start, Rounds(start, stop), r.cache.Keys)
  }

  /** A gap report to `src`: as written its header names the one asked, not the one asking. */
  function GapReport(t: Reading, self: Id, src: Id, r: Member, num: int): Packet {
    Nack(if t.AsWritten? then src else self, src, Asked(t, r, num))
  }

  predicate Gap(r: Member, num: int) {
    r.sequence + 1 != num && r.sequence < num
  }

  function HandleData(t: Reading, h: Host, src: Id, m: Msg): (Host, seq<Packet>) {
    if src !in h.peers then (h, [])
    else
      var p := h.peers[src];
      var mem := OnData(t, p.mem, m);
      (h.(peers := h.peers[src := p.(mem := mem)]),
       if Gap(p.mem, m.num) then [GapReport(t, h.id, src, mem, m.num)] else [])
  }

  /** The acknowledgement a heartbeat carries for `id`: the first entry with that id. */
  function AckFor(acks: seq<Ack>, id: Id): Option<int> {
    if acks == [] then None else if acks[0].id == id then Some(acks[0].num) else AckFor(acks[1..], id)
  }

  /** Registering an unknown member, or restarting a known one whose session changed. */
  function Greet(h: Host, src: Id, num: int, session: int): Host {
    if src !in h.peers then
      h.(peers := h.peers[src := Peer(session, Joined(num - 1), 0)], order := [src] + h.order)
    else if h.peers[src].session != session then
      h.(peers := h.peers[src := h.peers[src].(session := session, mem := Restarted(h.peers[src].mem, num))])
    else h
  }

  function HandleHbeat(t: Reading, h: Host, src: Id, num: int, session: int, acks: seq<Ack>): (Host, seq<Packet>) {
    var g := Greet(h, src, num, session);
    var p := g.peers[src];
    var ack := AckFor(acks, h.id);
    (g.(peers := g.peers[src := if ack.Some? then p.(sync := ack.value) else p]),
     if Gap(p.mem, num) then [GapReport(t, h.id, src, p.mem, num)] else [])
  }

  /** The reply to a gap report: every number asked for that is still in the buffer. */
  function Replies(h: Host, id: Id, nums: seq<int>): seq<Packet> {
    if nums == [] then []
    else
      Replies(h, id, nums[..|nums| - 1]) +
      var q := nums[|nums| - 1]; if q in h.snd.outbuf then [Data(h.id, Some(id), h.snd.outbuf[q])] else []
  }

  /** A member leaves: it goes from the table and, wherever it is, from the queue. This is the
      removal from the queue as meant, in both readings: as written there may be no queue left
      to speak of, which MemberRosters states. */
  function HandleLeave(h: Host, src: Id): Host {
    if src in h.peers then h.(peers := h.peers - {src}, order := MQueues.Without(h.order, src)) else h
  }

  function HandleSend(h: Host, body: Payload, taken: bool): (Host, seq<Packet>) {
    (h.(snd := Send(h.snd, body, taken)), if taken then [Data(h.id, None, Msg(h.snd.next, body))] else [])
  }

  /** What a heartbeat reports about every member in the queue. */
  function AckList(h: Host, order: seq<Id>): seq<Ack> {
    if order == [] then []
    else
      AckList(h, order[..|order| - 1]) +
      var g := order[|order| - 1]; if g in h.peers then [Ack(g, h.peers[g].mem.sequence)] else []
  }

  lemma AckListNext(h: Host, order: seq<Id>, i: nat)
    requires i < |order| && order[i] in h.peers
    ensures AckList(h, order[..i + 1]) == AckList(h, order[..i]) + [Ack(order[i], h.peers[order[i]].mem.sequence)]
  {
    assert order[..i + 1][..i] == order[..i];
  }

  function HandleTimer(h: Host): (Host, seq<Packet>) {
    (h.(snd := Beat(h.snd)), [Hbeat(h.id, h.snd.next, h.session, if h.hbAck then AckList(h, h.order) else [])])
  }

  function Syncs(h: Host, order: seq<Id>): seq<int> {
    if order == [] then []
    else Syncs(h, order[..|order| - 1]) + var g := order[|order| - 1]; if g in h.peers then [h.peers[g].sync] else []
  }

  lemma SyncsNext(h: Host, order: seq<Id>, i: nat)
    requires i < |order| && order[i] in h.peers
    ensures Syncs(h, order[..i + 1]) == Syncs(h, order[..i]) + [h.peers[order[i]].sync]
  {
    assert order[..i + 1][..i] == order[..i];
  }

  function HandleTrim(t: Reading, h: Host): Host {
    if h.hbAck then h.(snd := AckTrim(RuleOf(t), h.snd, Syncs(h, h.order))) else h
  }

  /** A packet's arrival. `stale` is the word that happens to follow a gap report in the buffer it
      is read into; as written it is read as one more number. */
  function Handle(t: Reading, h: Host, p: Packet, stale: int): (Host, seq<Packet>) {
    match p
    case Data(src, _, m) => HandleData(t, h, src, m)
    case Hbeat(src, num, session, acks) => HandleHbeat(t, h, src, num, session, acks)
    case Nack(id, _, nums) => (h, Replies(h, id, Decode(t, Encode(nums) + [stale])))
    case Leave(src) => (HandleLeave(h, src), [])
  }
}
