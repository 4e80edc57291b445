/** Any number of daemons over a network that loses, duplicates and reorders packets. */
module Protocol {
  import opened Text
  import opened Receiver
  import opened SenderWindow
  import opened Nacks
  import opened Hosts

  datatype System = System(hosts: map<Id, Host>, net: multiset<Packet>)

  /** One step of a run: an application message, a heartbeat timer, the trim by
      acknowledgements, a packet arriving somewhere, or the network and its surroundings
      losing, duplicating or making up (gap reports only) a packet. */
  datatype Action =
    | AppSend(h: Id, body: Payload, taken: bool)
    | Timer(h: Id)
    | TrimAcked(h: Id)
    | Quit(h: Id)
    | Deliver(h: Id, p: Packet, stale: int)
    | Lose(p: Packet)
    | Duplicate(p: Packet)
    | Inject(id: Id, to: Id, nums: seq<int>)

  predicate Addressed(p: Packet, h: Id) {
    match p
    case Data(_, dst, _) => dst == None || dst == Some(h)
    case Nack(_, to, _) => to == h
    case _ => true
  }

  /** One host takes a step and puts packets on the network. */
  function Acts(sys: System, h: Id, out: (Host, seq<Packet>)): System {
    System(sys.hosts[h := out.0], sys.net + multiset(out.1))
  }

  /** A step that is not enabled changes nothing. */
  function Next(t: Reading, sys: System, a: Action): System {
    match a
    case AppSend(h, body, taken) => if h in sys.hosts then Acts(sys, h, HandleSend(sys.hosts[h], body, taken)) else sys
    case Timer(h) => if h in sys.hosts then Acts(sys, h, HandleTimer(sys.hosts[h])) else sys
    case TrimAcked(h) => if h in sys.hosts then Acts(sys, h, (HandleTrim(t, sys.hosts[h]), [])) else sys
    case Quit(h) => if h in sys.hosts then Acts(sys, h, (sys.hosts[h], [Leave(h)])) else sys
    case Deliver(h, p, stale) =>
      if h in sys.hosts && p in sys.net && Addressed(p, h) then
        Acts(sys.(net := sys.net - multiset{p}), h, Handle(t, sys.hosts[h], p, stale))
      else sys
    case Lose(p) => sys.(net := sys.net - multiset{p})
    case Duplicate(p) => if p in sys.net then sys.(net := sys.net + multiset{p}) else sys
    case Inject(id, to, nums) => sys.(net := sys.net + multiset{Nack(id, to, nums)})
  }

  function Run(t: Reading, sys: System, acts: seq<Action>): System {
    if acts == [] then sys else Next(t, Run(t, sys, acts[..|acts| - 1]), acts[|acts| - 1])
  }

  lemma {:induction false} RunSplit(t: Reading, sys: System, a: seq<Action>, b: seq<Action>)
    ensures Run(t, sys, a + b) == Run(t, Run(t, sys, a), b)
    decreases |b|
  {
    if b == [] {
      assert a + b == a;
    } else {
      assert (a + b)[..|a + b| - 1] == a + b[..|b| - 1];
      RunSplit(t, sys, a, b[..|b| - 1]);
    }
  }

  /** Hosts that have just started, on a silent network. */
  ghost predicate Init(sys: System) {
    && sys.net == multiset{}
    && forall h :: h in sys.hosts ==>
         var x := sys.hosts[h]; x.id == h && x.peers == map[] && x.order == [] && x.snd == Start(x.snd.sync)
  }

  // ----- The invariant -----

  /** What the sender said under each number. */
  ghost function Said(log: seq<Payload>): int -> Payload {
    k => if 0 <= k < |log| then log[k] else 0
  }

  ghost function UpTo(lo: int, hi: int): (s: set<int>)
    ensures forall k :: k in s <==> lo < k <= hi
    decreases hi - lo
  {
    if hi <= lo then {} else UpTo(lo, hi - 1) + {hi}
  }

  /** The numbers a member has handed up or cached. */
  ghost function Held(r: Member): set<int> {
    UpTo(r.base, r.sequence) + r.cache.Keys
  }

  /** The member's state is settled over the sender's own log. */
  ghost predicate MemberOk(r: Member, log: seq<Payload>) {
    && -1 <= r.base && r.sequence < |log|
    && Settled(r, Held(r), Said(log))
    && forall k :: k in Held(r) ==> 0 <= k < |log|
  }

  ghost predicate SenderOk(s: Sender) {
    |s.log| == s.next && forall k :: k in s.outbuf ==> 0 <= k < s.next && s.outbuf[k] == Msg(k, s.log[k])
  }

  ghost predicate PacketOk(hosts: map<Id, Host>, p: Packet) {
    match p
    case Data(src, _, m) => src in hosts && 0 <= m.num < |hosts[src].snd.log| && m.body == hosts[src].snd.log[m.num]
    case Hbeat(src, num, session, _) => src in hosts && 0 <= num <= |hosts[src].snd.log| && session == hosts[src].session
    case _ => true
  }

  ghost predicate HostOk(hosts: map<Id, Host>, h: Id)
    requires h in hosts
  {
    && hosts[h].id == h && SenderOk(hosts[h].snd)
    && forall g :: g in hosts[h].peers ==>
         g in hosts && hosts[h].peers[g].session == hosts[g].session && MemberOk(hosts[h].peers[g].mem, hosts[g].snd.log)
  }

  ghost predicate Inv(sys: System) {
    && (forall h :: h in sys.hosts ==> HostOk(sys.hosts, h))
    && (forall p :: p in sys.net ==> PacketOk(sys.hosts, p))
  }

  // ----- Members -----

  lemma JoinedOk(num: int, log: seq<Payload>)
    requires 0 <= num <= |log|
    ensures MemberOk(Joined(num - 1), log)
  {
  }

  /** A settled member is settled over just what it holds. */
  lemma HeldSettles(r: Member, arrived: set<int>, body: int -> Payload)
    requires Settled(r, arrived, body)
    ensures Settled(r, Held(r), body) && forall k :: k in Held(r) ==> k in arrived
  {
  }

  lemma OnDataOk(r: Member, log: seq<Payload>, m: Msg)
    requires MemberOk(r, log) && 0 <= m.num < |log| && m.body == log[m.num]
    ensures MemberOk(OnData(AsMeant, r, m), log) && r.sequence <= OnData(AsMeant, r, m).sequence
    ensures OnData(AsMeant, r, m).base == r.base
  {
    OnDataSettles(r, Held(r), Said(log), m);
    var r' := OnData(AsMeant, r, m);
    HeldSettles(r', Held(r) + {m.num}, Said(log));
    assert r'.sequence > r'.base ==> r'.sequence in Held(r');
  }

  lemma LogGrows(r: Member, log: seq<Payload>, log': seq<Payload>)
    requires MemberOk(r, log) && log <= log'
    ensures MemberOk(r, log')
  {
  }

  // ----- Every step keeps the invariant -----

  ghost predicate PeersOk(hosts: map<Id, Host>, peers: map<Id, Peer>) {
    forall g :: g in peers ==>
      g in hosts && peers[g].session == hosts[g].session && MemberOk(peers[g].mem, hosts[g].snd.log)
  }

  lemma PeersGrow(hosts: map<Id, Host>, h: Id, x: Host, peers: map<Id, Peer>)
    requires h in hosts && x.session == hosts[h].session && hosts[h].snd.log <= x.snd.log && PeersOk(hosts, peers)
    ensures PeersOk(hosts[h := x], peers)
  {
    forall g | g in peers
      ensures MemberOk(peers[g].mem, hosts[h := x][g].snd.log)
    {
      LogGrows(peers[g].mem, hosts[g].snd.log, hosts[h := x][g].snd.log);
    }
  }

  /** A host may change its peers, extend its log and send packets that are right afterwards. */
  lemma {:induction false} ActsKeep(sys: System, h: Id, x: Host, out: seq<Packet>)
    requires Inv(sys) && h in sys.hosts && x.id == h && x.session == sys.hosts[h].session
    requires sys.hosts[h].snd.log <= x.snd.log && SenderOk(x.snd)
    requires PeersOk(sys.hosts[h := x], x.peers)
    requires forall p :: p in out ==> PacketOk(sys.hosts[h := x], p)
    ensures Inv(Acts(sys, h, (x, out)))
  {
    var hosts' := sys.hosts[h := x];
    forall g | g in hosts'
      ensures HostOk(hosts', g)
    {
      if g != h {
        assert HostOk(sys.hosts, g);
        PeersGrow(sys.hosts, h, x, hosts'[g].peers);
      }
    }
    forall p | p in sys.net + multiset(out)
      ensures PacketOk(hosts', p)
    {
      assert p in sys.net || p in out;
    }
  }

  lemma {:induction false} DataKeeps(sys: System, h: Id, src: Id, m: Msg)
    requires Inv(sys) && h in sys.hosts && PacketOk(sys.hosts, Data(src, None, m))
    ensures Inv(Acts(sys, h, HandleData(AsMeant, sys.hosts[h], src, m)))
  {
    var x := sys.hosts[h];
    assert HostOk(sys.hosts, h);
    if src in x.peers {
      OnDataOk(x.peers[src].mem, sys.hosts[src].snd.log, m);
    }
    var (x', out) := HandleData(AsMeant, x, src, m);
    assert PeersOk(sys.hosts, x'.peers);
    PeersGrow(sys.hosts, h, x', x'.peers);
    ActsKeep(sys, h, x', out);
  }

  lemma {:induction false} HbeatKeeps(t: Reading, sys: System, h: Id, src: Id, num: int, session: int, acks: seq<Ack>)
    requires Inv(sys) && h in sys.hosts && PacketOk(sys.hosts, Hbeat(src, num, session, acks))
    ensures Inv(Acts(sys, h, HandleHbeat(t, sys.hosts[h], src, num, session, acks)))
  {
    var x := sys.hosts[h];
    assert HostOk(sys.hosts, h);
    if src !in x.peers {
      JoinedOk(num, sys.hosts[src].snd.log);
    }
    var (x', out) := HandleHbeat(t, x, src, num, session, acks);
    assert PeersOk(sys.hosts, x'.peers);
    PeersGrow(sys.hosts, h, x', x'.peers);
    ActsKeep(sys, h, x', out);
  }

  lemma {:induction false} RepliesOk(hosts: map<Id, Host>, h: Id, id: Id, nums: seq<int>)
    requires h in hosts && hosts[h].id == h && SenderOk(hosts[h].snd)
    ensures forall p :: p in Replies(hosts[h], id, nums) ==> PacketOk(hosts, p) && p.Data? && p.dst == Some(id)
  {
    if nums != [] {
      RepliesOk(hosts, h, id, nums[..|nums| - 1]);
    }
  }

  lemma {:induction false} HostKeeps(sys: System, h: Id, x: Host, out: seq<Packet>)
    requires Inv(sys) && h in sys.hosts
    requires x == sys.hosts[h].(snd := x.snd, peers := x.peers, order := x.order) && x.peers.Keys <= sys.hosts[h].peers.Keys
    requires forall g :: g in x.peers ==> x.peers[g] == sys.hosts[h].peers[g]
    requires sys.hosts[h].snd.log <= x.snd.log && SenderOk(x.snd)
    requires forall p :: p in out ==> PacketOk(sys.hosts[h := x], p)
    ensures Inv(Acts(sys, h, (x, out)))
  {
    assert HostOk(sys.hosts, h);
    PeersGrow(sys.hosts, h, x, x.peers);
    ActsKeep(sys, h, x, out);
  }

  lemma {:induction false} HandleKeeps(sys: System, h: Id, p: Packet, stale: int)
    requires Inv(sys) && h in sys.hosts && PacketOk(sys.hosts, p)
    ensures Inv(Acts(sys, h, Handle(AsMeant, sys.hosts[h], p, stale)))
  {
    assert HostOk(sys.hosts, h);
    match p
    case Data(src, _, m) =>
      DataKeeps(sys, h, src, m);
    case Hbeat(src, num, session, acks) =>
      HbeatKeeps(AsMeant, sys, h, src, num, session, acks);
    case Nack(id, _, nums) =>
      DecodeEncode(nums, [stale]);
      RepliesOk(sys.hosts, h, id, nums);
      assert sys.hosts[h := sys.hosts[h]] == sys.hosts;
      HostKeeps(sys, h, sys.hosts[h], Replies(sys.hosts[h], id, nums));
    case Leave(src) =>
      HostKeeps(sys, h, HandleLeave(sys.hosts[h], src), []);
  }

  lemma {:induction false} LocalKeeps(t: Reading, sys: System, a: Action)
    requires Inv(sys) && (a.AppSend? || a.Timer? || a.TrimAcked? || a.Quit?) && a.h in sys.hosts
    ensures Inv(Next(t, sys, a))
  {
    var x := sys.hosts[a.h];
    assert HostOk(sys.hosts, a.h);
    match a
    case AppSend(h, body, taken) =>
      var (x', out) := HandleSend(x, body, taken);
      HostKeeps(sys, h, x', out);
    case Timer(h) =>
      var (x', out) := HandleTimer(x);
      HostKeeps(sys, h, x', out);
    case TrimAcked(h) =>
      HostKeeps(sys, h, HandleTrim(t, x), []);
    case Quit(h) =>
      HostKeeps(sys, h, x, [Leave(h)]);
  }

  lemma {:induction false} NextKeeps(sys: System, a: Action)
    requires Inv(sys)
    ensures Inv(Next(AsMeant, sys, a))
  {
    match a
    case Deliver(h, p, stale) =>
      if h in sys.hosts && p in sys.net && Addressed(p, h) {
        HandleKeeps(sys.(net := sys.net - multiset{p}), h, p, stale);
      }
    case Lose(_) =>
    case Duplicate(_) =>
    case Inject(_, _, _) =>
    case _ =>
      if a.h in sys.hosts {
        LocalKeeps(AsMeant, sys, a);
      }
  }

  lemma {:induction false} RunKeeps(sys: System, acts: seq<Action>)
    requires Init(sys)
    ensures Inv(Run(AsMeant, sys, acts))
  {
    if acts != [] {
      RunKeeps(sys, acts[..|acts| - 1]);
      NextKeeps(Run(AsMeant, sys, acts[..|acts| - 1]), acts[|acts| - 1]);
    }
  }

  // ----- What a run delivers -----

  /** `r` has handed up exactly the log from the number after its base up to `sequence`. */
  ghost predicate Delivered(r: Member, log: seq<Payload>) {
    && -1 <= r.base <= r.sequence < |log|
    && |r.handed| == r.sequence - r.base
    && forall i :: 0 <= i < |r.handed| ==> r.handed[i] == Msg(r.base + 1 + i, log[r.base + 1 + i])
  }

  lemma MemberDelivers(r: Member, log: seq<Payload>)
    requires MemberOk(r, log)
    ensures Delivered(r, log)
  {
  }

  /** As meant, in every run over a network that loses, duplicates and reorders packets: what a
      host has handed up of a member's stream is exactly that member's log from the number
      after its base up to `sequence`, in order, without gap or repeat. */
  lemma {:induction false} StreamDelivered(sys: System, acts: seq<Action>, h: Id, g: Id)
    requires Init(sys)
    requires var s := Run(AsMeant, sys, acts); h in s.hosts && g in s.hosts[h].peers
    ensures var s := Run(AsMeant, sys, acts);
            g in s.hosts && Delivered(s.hosts[h].peers[g].mem, s.hosts[g].snd.log)
  {
    RunKeeps(sys, acts);
    var s := Run(AsMeant, sys, acts);
    assert HostOk(s.hosts, h);
    MemberDelivers(s.hosts[h].peers[g].mem, s.hosts[g].snd.log);
  }

  /** Any two hosts that have handed up the same number of a stream have handed up the same message. */
  lemma {:induction false} ReceiversAgree(sys: System, acts: seq<Action>, h: Id, h': Id, g: Id, k: int)
    requires Init(sys)
    requires var s := Run(AsMeant, sys, acts);
             h in s.hosts && h' in s.hosts && g in s.hosts[h].peers && g in s.hosts[h'].peers
    requires var s := Run(AsMeant, sys, acts);
             s.hosts[h].peers[g].mem.base < k <= s.hosts[h].peers[g].mem.sequence
             && s.hosts[h'].peers[g].mem.base < k <= s.hosts[h'].peers[g].mem.sequence
    ensures var s := Run(AsMeant, sys, acts);
            var r, r' := s.hosts[h].peers[g].mem, s.hosts[h'].peers[g].mem;
            && k - r.base - 1 < |r.handed| && k - r'.base - 1 < |r'.handed|
            && r.handed[k - r.base - 1] == r'.handed[k - r'.base - 1]
  {
    StreamDelivered(sys, acts, h, g);
    StreamDelivered(sys, acts, h', g);
  }
}
