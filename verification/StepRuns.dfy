/** What the single steps mean in a run: a message sent is handed up, a new session starts afresh,
    a member that left is forgotten. */
module StepRuns {
  import opened Text
  import opened Receiver
  import opened Sessions
  import opened Hosts
  import opened Protocol
  import opened Rosters
  import opened Acks
  import opened Steps

  lemma RunOne(t: Reading, sys: System, acts: seq<Action>, a: Action)
    ensures Run(t, sys, acts + [a]) == Next(t, Run(t, sys, acts), a)
  {
    assert (acts + [a])[..|acts|] == acts;
  }

  // ----- Sending -----

  /** As meant, in every run: an application message the network took changes the network by exactly one packet
      of that host, for everybody, numbered with the length of its log and carrying the
      message; one it did not take changes nothing. */
  lemma {:induction false} SentInRun(sys: System, acts: seq<Action>, g: Id, body: Payload)
    requires Init(sys) && g in Run(AsMeant, sys, acts).hosts
    ensures var s, s' := Run(AsMeant, sys, acts), Run(AsMeant, sys, acts + [AppSend(g, body, true)]);
            && OnlyAt(s, s', g, s.net, [Data(g, None, Msg(|s.hosts[g].snd.log|, body))])
            && s'.hosts[g].snd.log == s.hosts[g].snd.log + [body] && s'.hosts[g].peers == s.hosts[g].peers
    ensures Run(AsMeant, sys, acts + [AppSend(g, body, false)]) == Run(AsMeant, sys, acts)
  {
    var s := Run(AsMeant, sys, acts);
    RunKeeps(sys, acts);
    assert HostOk(s.hosts, g);
    RunOne(AsMeant, sys, acts, AppSend(g, body, true));
    RunOne(AsMeant, sys, acts, AppSend(g, body, false));
    SendStep(AsMeant, s, g, body, true);
    SendStep(AsMeant, s, g, body, false);
  }

  /** A message that is next in order is handed up. */
  lemma {:induction false} NextIsHandedUp(t: Reading, s: System, k: Id, p: Packet, stale: int)
    requires k in s.hosts && p in s.net && p.Data? && (p.dst == None || p.dst == Some(k))
    requires p.src in s.hosts[k].peers && s.hosts[k].peers[p.src].mem.sequence == p.msg.num - 1
    ensures var s' := Next(t, s, Deliver(k, p, stale));
            && (forall g :: g in s.hosts ==> g in s'.hosts && s'.hosts[g].snd == s.hosts[g].snd)
            && p.src in s'.hosts[k].peers && var r, r' := s.hosts[k].peers[p.src].mem, s'.hosts[k].peers[p.src].mem;
            r'.base == r.base && r.handed + [p.msg] <= r'.handed
  {
    assert p == Data(p.src, p.dst, p.msg);
    var out := DataStep(t, s, k, p.src, p.dst, p.msg, stale);
    NextTook(t, s.hosts[k].peers[p.src].mem, Next(t, s, Deliver(k, p, stale)).hosts[k].peers[p.src].mem, p.msg);
  }

  lemma NextTook(t: Reading, r: Member, r': Member, m: Msg)
    requires StreamTook(t, r, r', m) && m.num == r.sequence + 1
    ensures r'.base == r.base && r.handed + [m] <= r'.handed
  {
    var first := if t.AsMeant? then m.num + 1 else m.num;
    var n: nat :| Took(HandedUp(r, m), r', first, n);
    TookKeeps(HandedUp(r, m), r', first, n);
  }

  /** As meant, in every run, whatever has happened since the message was sent: as long as its packet is under
      way, a host that holds the sender at the number before hands the message up when it arrives. */
  lemma {:induction false} SentIsHandedUp(sys: System, acts: seq<Action>, g: Id, body: Payload, more: seq<Action>,
                                          k: Id, stale: int)
    requires Init(sys) && g in Run(AsMeant, sys, acts).hosts
    requires var n := |Run(AsMeant, sys, acts).hosts[g].snd.log|;
             var s := Run(AsMeant, sys, acts + [AppSend(g, body, true)] + more);
             && Data(g, None, Msg(n, body)) in s.net
             && k in s.hosts && g in s.hosts[k].peers && s.hosts[k].peers[g].mem.sequence == n - 1
    ensures var n := |Run(AsMeant, sys, acts).hosts[g].snd.log|;
            var before, arrival := acts + [AppSend(g, body, true)] + more, Deliver(k, Data(g, None, Msg(n, body)), stale);
            var s, s' := Run(AsMeant, sys, before), Run(AsMeant, sys, before + [arrival]);
            && k in s'.hosts && g in s'.hosts[k].peers
            && s.hosts[k].peers[g].mem.handed + [Msg(n, body)] <= s'.hosts[k].peers[g].mem.handed
  {
    var n := |Run(AsMeant, sys, acts).hosts[g].snd.log|;
    var before := acts + [AppSend(g, body, true)] + more;
    RunOne(AsMeant, sys, before, Deliver(k, Data(g, None, Msg(n, body)), stale));
    NextIsHandedUp(AsMeant, Run(AsMeant, sys, before), k, Data(g, None, Msg(n, body)), stale);
  }

  /** The packet is under way right after it was sent, so a member that is up to date hands the message up,
      and nothing besides, when the packet arrives. */
  lemma {:induction false} SentArrives(sys: System, acts: seq<Action>, g: Id, body: Payload, k: Id, stale: int)
    requires Init(sys) && g in Run(AsMeant, sys, acts).hosts
    requires var s := Run(AsMeant, sys, acts);
             k in s.hosts && g in s.hosts[k].peers && s.hosts[k].peers[g].mem.sequence == |s.hosts[g].snd.log| - 1
    ensures var s := Run(AsMeant, sys, acts); var m := Msg(|s.hosts[g].snd.log|, body);
            var s' := Run(AsMeant, sys, acts + [AppSend(g, body, true), Deliver(k, Data(g, None, m), stale)]);
            && k in s'.hosts && g in s'.hosts[k].peers
            && s'.hosts[k].peers[g].mem.handed == s.hosts[k].peers[g].mem.handed + [m]
            && s'.hosts[k].peers[g].mem.sequence == m.num
  {
    var s := Run(AsMeant, sys, acts);
    var m := Msg(|s.hosts[g].snd.log|, body);
    var p, sent := Data(g, None, m), acts + [AppSend(g, body, true)];
    SentInRun(sys, acts, g, body);
    var s1 := Run(AsMeant, sys, sent);
    assert p in [p] && p in s1.net;
    assert acts + [AppSend(g, body, true), Deliver(k, p, stale)] == sent + [Deliver(k, p, stale)];
    RunOne(AsMeant, sys, sent, Deliver(k, p, stale));
    NextIsHandedUp(AsMeant, s1, k, p, stale);
    StreamDelivered(sys, sent + [Deliver(k, p, stale)], k, g);
    StreamDelivered(sys, acts, k, g);
  }

  // ----- New sessions -----

  /** The messages `ms` of `src` arriving one after the other. */
  function Hears(t: Reading, x: Host, src: Id, ms: seq<Msg>): Host {
    if ms == [] then x else Handle(t, Hears(t, x, src, ms[..|ms| - 1]), Data(src, None, ms[|ms| - 1]), 0).0
  }

  /** What `x` has handed up of the stream of `src`. */
  function HandedOf(x: Host, src: Id): seq<Msg> {
    if src in x.peers then x.peers[src].mem.handed else []
  }

  lemma {:induction false} HearsReceives(t: Reading, x: Host, src: Id, ms: seq<Msg>)
    requires src in x.peers
    ensures src in Hears(t, x, src, ms).peers && Hears(t, x, src, ms).peers[src].mem == Receive(t, x.peers[src].mem, ms)
  {
    if ms != [] {
      HearsReceives(t, x, src, ms[..|ms| - 1]);
    }
  }

  /** Both hosts hand up the same of whatever arrives from `src`. */
  ghost predicate HandUpAlike(t: Reading, x: Host, y: Host, src: Id, ms: seq<Msg>) {
    HandedOf(Hears(t, x, src, ms), src) == HandedOf(Hears(t, y, src, ms), src)
  }

  /** A known member starts a new session with the heartbeat `p`. From then on, whatever arrives, the host
      hands up what it would have if it had not known the member before, exactly when the
      cache it kept holds nothing above the heartbeat's number; with the drain as written,
      nothing from that number on. */
  lemma {:induction false} NewSessionExact(t: Reading, x: Host, src: Id, num: int, session: int, acks: seq<Ack>)
    requires src in x.peers && x.peers[src].session != session
    ensures var p := Hbeat(src, num, session, acks);
            var known, stranger := Handle(t, x, p, 0).0, Handle(t, x.(peers := x.peers - {src}), p, 0).0;
            (forall ms :: HandUpAlike(t, known, stranger, src, ms))
            <==> forall k :: k in x.peers[src].mem.cache ==> if t.AsMeant? then k <= num else k < num
  {
    var p := Hbeat(src, num, session, acks);
    var known, stranger := Handle(t, x, p, 0).0, Handle(t, x.(peers := x.peers - {src}), p, 0).0;
    var r := x.peers[src].mem;
    HeartbeatHandled(t, x, src, num, session, acks);
    HeartbeatHandled(t, x.(peers := x.peers - {src}), src, num, session, acks);
    forall ms: seq<Msg>
      ensures HandUpAlike(t, known, stranger, src, ms) <==> HandsUpAlike(t, r, num, ms)
    {
      HearsReceives(t, known, src, ms);
      HearsReceives(t, stranger, src, ms);
      assert known.peers[src].mem == Restarted(r, num) && stranger.peers[src].mem == Joined(num - 1);
    }
    RestartExact(t, r, num);
  }

  // ----- Leaving -----

  /** As meant, in every run: once a leave of `src` has arrived, `src` is in neither table nor queue, and
      trimming by acknowledgements waits for the other members alone. */
  lemma {:induction false} LeaverForgotten(sys: System, acts: seq<Action>, h: Id, src: Id, stale: int, q: int)
    requires Init(sys)
    requires var s := Run(AsMeant, sys, acts); h in s.hosts && Leave(src) in s.net && q in s.hosts[h].snd.outbuf
    ensures var s, s' := Run(AsMeant, sys, acts), Run(AsMeant, sys, acts + [Deliver(h, Leave(src), stale)]);
            && OnlyAt(s, s', h, s.net - multiset{Leave(src)}, []) && var x, x' := s.hosts[h], s'.hosts[h];
            && src !in x'.peers && src !in x'.order && OthersKept(x, x', src) && TakenOut(x.order, x'.order, src)
            && var trimmed := Run(AsMeant, sys, acts + [Deliver(h, Leave(src), stale), TrimAcked(h)]);
            && h in trimmed.hosts
            && (q !in trimmed.hosts[h].snd.outbuf
                <==> && x.hbAck && x.snd.oldest <= q && (exists g :: g in x.peers && g != src)
                     && forall g :: g in x.peers && g != src ==> q < x.peers[g].sync)
  {
    var s, left := Run(AsMeant, sys, acts), acts + [Deliver(h, Leave(src), stale)];
    RunOne(AsMeant, sys, acts, Deliver(h, Leave(src), stale));
    LeaveStep(AsMeant, s, h, src, stale);
    RunKeepsRoster(sys, acts);
    RunKeepsRoster(sys, left);
    var s' := Run(AsMeant, sys, left);
    assert RosterOk(s.hosts[h]) && RosterOk(s'.hosts[h]);
    assert left + [TrimAcked(h)] == acts + [Deliver(h, Leave(src), stale), TrimAcked(h)];
    RunOne(AsMeant, sys, left, TrimAcked(h));
    TrimExactInRun(sys, left, h, q);
    OthersTrim(s.hosts[h], s'.hosts[h], src, q);
  }

  lemma OthersTrim(x: Host, x': Host, src: Id, q: int)
    requires OthersKept(x, x', src) && src !in x'.peers
    ensures x'.peers != map[] <==> exists g :: g in x.peers && g != src
    ensures (forall g :: g in x'.peers ==> q < x'.peers[g].sync)
            <==> forall g :: g in x.peers && g != src ==> q < x.peers[g].sync
  {
    if forall g :: g !in x'.peers {
      assert x'.peers == map[];
    }
    forall g | g in x.peers && g != src
      ensures g in x'.peers && x'.peers[g].sync == x.peers[g].sync
    {
    }
  }
}
