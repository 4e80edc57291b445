/** Acknowledgements end to end: what trimming by them may take from the buffer. */
module Acks {
  import opened Text
  import opened Receiver
  import opened SenderWindow
  import opened Nacks
  import opened Hosts
  import opened Protocol
  import opened Rosters

  /** `g` has come as far as number `n` of `h`'s stream. */
  ghost predicate Reached(hosts: map<Id, Host>, h: Id, g: Id, n: int) {
    n <= 0 || (g in hosts && h in hosts[g].peers && n <= hosts[g].peers[h].mem.sequence)
  }

  /** What members are noted to have acknowledged, and what heartbeats under way say, is true. */
  ghost predicate AcksTrue(sys: System) {
    && (forall h, g :: h in sys.hosts && g in sys.hosts[h].peers ==> Reached(sys.hosts, h, g, sys.hosts[h].peers[g].sync))
    && (forall p, a :: p in sys.net && p.Hbeat? && a in p.acks ==> Reached(sys.hosts, a.id, p.src, a.num))
  }

  /** No member goes back or away. */
  ghost predicate Forward(x: Host, x': Host) {
    forall g :: g in x.peers ==> g in x'.peers && x.peers[g].mem.sequence <= x'.peers[g].mem.sequence
  }

  lemma ReachedStays(hosts: map<Id, Host>, k: Id, x: Host, h: Id, g: Id, n: int)
    requires k in hosts && Forward(hosts[k], x) && Reached(hosts, h, g, n)
    ensures Reached(hosts[k := x], h, g, n)
  {
  }

  lemma ActsKeepAcks(sys: System, k: Id, x: Host, out: seq<Packet>)
    requires AcksTrue(sys) && k in sys.hosts && Forward(sys.hosts[k], x)
    requires forall g :: g in x.peers ==> Reached(sys.hosts[k := x], k, g, x.peers[g].sync)
    requires forall p, a :: p in out && p.Hbeat? && a in p.acks ==> Reached(sys.hosts[k := x], a.id, p.src, a.num)
    ensures AcksTrue(Acts(sys, k, (x, out)))
  {
  }

  lemma {:induction false} AckForIn(acks: seq<Ack>, id: Id)
    requires AckFor(acks, id).Some?
    ensures Ack(id, AckFor(acks, id).value) in acks
  {
    if acks[0].id != id {
      AckForIn(acks[1..], id);
    }
  }

  lemma {:induction false} AckListTrue(h: Host, order: seq<Id>)
    ensures forall a :: a in AckList(h, order) ==> a.id in h.peers && a.num == h.peers[a.id].mem.sequence
  {
    if order != [] {
      AckListTrue(h, order[..|order| - 1]);
    }
  }

  lemma {:induction false} SyncsExactly(h: Host, order: seq<Id>)
    ensures forall g :: g in order && g in h.peers ==> h.peers[g].sync in Syncs(h, order)
    ensures forall a :: a in Syncs(h, order) ==> exists g :: g in order && g in h.peers && h.peers[g].sync == a
  {
    if order != [] {
      var front, g := order[..|order| - 1], order[|order| - 1];
      SyncsExactly(h, front);
      assert order == front + [g];
      var all, before := Syncs(h, order), Syncs(h, front);
      assert forall a :: a in all <==> a in before || (g in h.peers && a == h.peers[g].sync);
    }
  }

  lemma DataForward(x: Host, src: Id, m: Msg, log: seq<Payload>)
    requires 0 <= m.num < |log| && m.body == log[m.num]
    requires src in x.peers ==> MemberOk(x.peers[src].mem, log)
    ensures var (x', out) := HandleData(AsMeant, x, src, m);
            && Forward(x, x')
            && (forall g :: g in x'.peers ==> g in x.peers && x'.peers[g].sync == x.peers[g].sync)
            && (forall p :: p in out ==> !p.Hbeat?)
  {
    if src in x.peers {
      OnDataOk(x.peers[src].mem, log, m);
      assert x.peers[src := x.peers[src].(mem := OnData(AsMeant, x.peers[src].mem, m))].Keys == x.peers.Keys;
    }
  }

  lemma {:induction false} DataKeepsAcks(sys: System, h: Id, src: Id, m: Msg)
    requires Inv(sys) && AcksTrue(sys) && h in sys.hosts && PacketOk(sys.hosts, Data(src, None, m))
    ensures AcksTrue(Acts(sys, h, HandleData(AsMeant, sys.hosts[h], src, m)))
  {
    var x := sys.hosts[h];
    assert HostOk(sys.hosts, h);
    DataForward(x, src, m, sys.hosts[src].snd.log);
    var (x', out) := HandleData(AsMeant, x, src, m);
    forall g | g in x'.peers
      ensures Reached(sys.hosts[h := x'], h, g, x'.peers[g].sync)
    {
      ReachedStays(sys.hosts, h, x', h, g, x.peers[g].sync);
    }
    ActsKeepAcks(sys, h, x', out);
  }

  lemma {:induction false} HbeatKeepsAcks(sys: System, h: Id, src: Id, num: int, session: int, acks: seq<Ack>)
    requires Inv(sys) && AcksTrue(sys) && h in sys.hosts && PacketOk(sys.hosts, Hbeat(src, num, session, acks))
    requires forall a :: a in acks ==> Reached(sys.hosts, a.id, src, a.num)
    ensures AcksTrue(Acts(sys, h, HandleHbeat(AsMeant, sys.hosts[h], src, num, session, acks)))
  {
    var x := sys.hosts[h];
    assert HostOk(sys.hosts, h);
    var (x', out) := HandleHbeat(AsMeant, x, src, num, session, acks);
    assert Forward(x, x');
    if AckFor(acks, h).Some? {
      AckForIn(acks, h);
    }
    forall g | g in x'.peers
      ensures Reached(sys.hosts[h := x'], h, g, x'.peers[g].sync)
    {
      ReachedStays(sys.hosts, h, x', h, g, x'.peers[g].sync);
    }
    ActsKeepAcks(sys, h, x', out);
  }

  /** A step that moves no member and only sends the given packets. */
  lemma SameKeepsAcks(sys: System, h: Id, x: Host, out: seq<Packet>)
    requires AcksTrue(sys) && h in sys.hosts && x.peers == sys.hosts[h].peers
    requires forall p, a :: p in out && p.Hbeat? && a in p.acks ==> Reached(sys.hosts[h := x], a.id, p.src, a.num)
    ensures AcksTrue(Acts(sys, h, (x, out)))
  {
  }

  lemma {:induction false} RepliesAreData(h: Host, id: Id, nums: seq<int>)
    ensures forall p :: p in Replies(h, id, nums) ==> p.Data?
  {
    if nums != [] {
      RepliesAreData(h, id, nums[..|nums| - 1]);
    }
  }

  lemma {:induction false} ReportsReached(hosts: map<Id, Host>, h: Id, acks: seq<Ack>)
    requires h in hosts
    requires forall a :: a in acks ==> a.id in hosts[h].peers && a.num == hosts[h].peers[a.id].mem.sequence
    ensures forall a :: a in acks ==> Reached(hosts, a.id, h, a.num)
  {
  }

  lemma {:induction false} TimerKeepsAcks(sys: System, h: Id)
    requires AcksTrue(sys) && h in sys.hosts && sys.hosts[h].id == h
    ensures AcksTrue(Acts(sys, h, HandleTimer(sys.hosts[h])))
  {
    var x := HandleTimer(sys.hosts[h]).0;
    var acks := if sys.hosts[h].hbAck then AckList(sys.hosts[h], sys.hosts[h].order) else [];
    AckListTrue(sys.hosts[h], sys.hosts[h].order);
    ReportsReached(sys.hosts[h := x], h, acks);
    SameKeepsAcks(sys, h, x, [Hbeat(h, sys.hosts[h].snd.next, sys.hosts[h].session, acks)]);
  }

  lemma {:induction false} NextKeepsAcks(sys: System, a: Action)
    requires Inv(sys) && AcksTrue(sys) && !(a.Deliver? && a.p.Leave?)
    ensures AcksTrue(Next(AsMeant, sys, a))
  {
    match a
    case AppSend(h, body, taken) =>
      if h in sys.hosts {
        SameKeepsAcks(sys, h, HandleSend(sys.hosts[h], body, taken).0, HandleSend(sys.hosts[h], body, taken).1);
      }
    case Timer(h) =>
      if h in sys.hosts {
        assert HostOk(sys.hosts, h);
        TimerKeepsAcks(sys, h);
      }
    case TrimAcked(h) =>
      if h in sys.hosts { SameKeepsAcks(sys, h, HandleTrim(AsMeant, sys.hosts[h]), []); }
    case Quit(h) =>
      if h in sys.hosts { SameKeepsAcks(sys, h, sys.hosts[h], [Leave(h)]); }
    case Deliver(h, p, stale) =>
      if h in sys.hosts && p in sys.net && Addressed(p, h) { DeliverKeepsAcks(sys, h, p, stale); }
    case _ =>
      NetKeepsAcks(sys, a);
  }

  lemma NetKeepsAcks(sys: System, a: Action)
    requires AcksTrue(sys) && (a.Lose? || a.Duplicate? || a.Inject?)
    ensures AcksTrue(Next(AsMeant, sys, a))
  {
  }

  lemma TakenOff(sys: System, p: Packet)
    requires Inv(sys) && AcksTrue(sys) && p in sys.net
    ensures var rest := sys.(net := sys.net - multiset{p}); Inv(rest) && AcksTrue(rest)
    ensures PacketOk(sys.hosts, p) && (p.Hbeat? ==> forall a :: a in p.acks ==> Reached(sys.hosts, a.id, p.src, a.num))
  {
  }

  lemma {:induction false} DeliverKeepsAcks(sys: System, h: Id, p: Packet, stale: int)
    requires Inv(sys) && AcksTrue(sys) && h in sys.hosts && p in sys.net && Addressed(p, h) && !p.Leave?
    ensures AcksTrue(Next(AsMeant, sys, Deliver(h, p, stale)))
  {
    var rest := sys.(net := sys.net - multiset{p});
    TakenOff(sys, p);
    match p
    case Data(src, _, m) => DataKeepsAcks(rest, h, src, m);
    case Hbeat(src, num, session, acks) => HbeatKeepsAcks(rest, h, src, num, session, acks);
    case Nack(id, _, nums) => NackKeepsAcks(rest, h, id, nums, stale);
  }

  lemma {:induction false} NackKeepsAcks(sys: System, h: Id, id: Id, nums: seq<int>, stale: int)
    requires AcksTrue(sys) && h in sys.hosts
    ensures AcksTrue(Acts(sys, h, Handle(AsMeant, sys.hosts[h], Nack(id, h, nums), stale)))
  {
    DecodeEncode(nums, [stale]);
    RepliesAreData(sys.hosts[h], id, nums);
    SameKeepsAcks(sys, h, sys.hosts[h], Replies(sys.hosts[h], id, nums));
  }

  lemma {:induction false} RunKeepsAcks(sys: System, acts: seq<Action>)
    requires Init(sys) && forall a :: a in acts ==> !(a.Deliver? && a.p.Leave?)
    ensures AcksTrue(Run(AsMeant, sys, acts))
  {
    if acts != [] {
      assert acts[|acts| - 1] in acts;
      RunKeepsAcks(sys, acts[..|acts| - 1]);
      RunKeeps(sys, acts[..|acts| - 1]);
      NextKeepsAcks(Run(AsMeant, sys, acts[..|acts| - 1]), acts[|acts| - 1]);
    }
  }

  /** As meant, in every run: trimming by acknowledgements takes message `q` exactly when there are
      members, every one of them has acknowledged more, and it is not older than what is kept. */
  lemma {:induction false} TrimExactInRun(sys: System, acts: seq<Action>, h: Id, q: int)
    requires Init(sys)
    requires var s := Run(AsMeant, sys, acts); h in s.hosts && q in s.hosts[h].snd.outbuf
    ensures var x := Run(AsMeant, sys, acts).hosts[h];
            q !in HandleTrim(AsMeant, x).snd.outbuf
            <==> && x.hbAck && x.peers != map[] && x.snd.oldest <= q
                 && forall g :: g in x.peers ==> q < x.peers[g].sync
  {
    RunKeepsRoster(sys, acts);
    TrimExact(Run(AsMeant, sys, acts).hosts[h], q);
  }

  lemma TrimExact(x: Host, q: int)
    requires RosterOk(x) && q in x.snd.outbuf
    ensures q !in HandleTrim(AsMeant, x).snd.outbuf
            <==> && x.hbAck && x.peers != map[] && x.snd.oldest <= q
                 && forall g :: g in x.peers ==> q < x.peers[g].sync
  {
    var acks := Syncs(x, x.order);
    SyncsExactly(x, x.order);
    AckTrimExact(x.snd, acks, q);
    if forall g :: g !in x.peers {
      assert x.peers.Keys == {};
      assert forall a :: a !in acks;
    } else {
      var g :| g in x.peers;
      assert x.peers[g].sync in acks;
    }
  }

  /** As meant, in every run in which nobody leaves: when trimming by acknowledgements takes
      message `q` of host `h`, every member registered there has come past `q`; it joined
      later than `q` or has handed `q` up. */
  lemma {:induction false} TrimTakesOnlyDelivered(sys: System, acts: seq<Action>, h: Id, g: Id, q: int)
    requires Init(sys) && forall a :: a in acts ==> !(a.Deliver? && a.p.Leave?)
    requires var s := Run(AsMeant, sys, acts);
             h in s.hosts && g in s.hosts[h].peers
             && q in s.hosts[h].snd.outbuf && q !in HandleTrim(AsMeant, s.hosts[h]).snd.outbuf
    ensures var s := Run(AsMeant, sys, acts);
            && g in s.hosts && h in s.hosts[g].peers && var r := s.hosts[g].peers[h].mem;
            && 0 <= q < r.sequence && q < |s.hosts[h].snd.log|
            && (q > r.base ==> Msg(q, s.hosts[h].snd.log[q]) in r.handed)
  {
    RunKeeps(sys, acts);
    RunKeepsAcks(sys, acts);
    TrimExactInRun(sys, acts, h, q);
    var s := Run(AsMeant, sys, acts);
    var x := s.hosts[h];
    assert HostOk(s.hosts, h) && HostOk(s.hosts, g);
    assert q < x.peers[g].sync;
    var r := s.hosts[g].peers[h].mem;
    MemberDelivers(r, x.snd.log);
    if q > r.base {
      assert r.handed[q - r.base - 1] == Msg(q, x.snd.log[q]);
    }
  }
}
