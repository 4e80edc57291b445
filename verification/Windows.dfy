/** The sender's buffer of every host over whole runs. */
module Windows {
  import opened Text
  import opened Receiver
  import opened SenderWindow
  import opened Nacks
  import opened Hosts
  import opened Protocol
  import opened Acks
  import Recovery

  /** `n` is not beyond what `h`, if there is such a host, has sent. */
  ghost predicate SentUpTo(hosts: map<Id, Host>, h: Id, n: int) {
    h in hosts ==> n <= |hosts[h].snd.log|
  }

  ghost predicate HostBounded(hosts: map<Id, Host>, h: Id)
    requires h in hosts
  {
    Window(hosts[h].snd) && forall g :: g in hosts[h].peers ==> SentUpTo(hosts, h, hosts[h].peers[g].sync)
  }

  /** No acknowledgement, noted or under way, is beyond what was sent, and every buffer is an interval. */
  ghost predicate Bounded(sys: System) {
    && (forall h :: h in sys.hosts ==> HostBounded(sys.hosts, h))
    && (forall p, a :: p in sys.net && p.Hbeat? && a in p.acks ==> SentUpTo(sys.hosts, a.id, a.num))
  }

  lemma {:induction false} ActsBounded(sys: System, k: Id, x: Host, out: seq<Packet>)
    requires Bounded(sys) && k in sys.hosts && Window(x.snd) && sys.hosts[k].snd.log <= x.snd.log
    requires forall g :: g in x.peers ==> x.peers[g].sync <= |x.snd.log|
    requires forall p, a :: p in out && p.Hbeat? && a in p.acks ==> SentUpTo(sys.hosts[k := x], a.id, a.num)
    ensures Bounded(Acts(sys, k, (x, out)))
  {
    var hosts' := sys.hosts[k := x];
    forall h | h in hosts'
      ensures HostBounded(hosts', h)
    {
      assert h != k ==> HostBounded(sys.hosts, h);
    }
    forall p, a | p in sys.net + multiset(out) && p.Hbeat? && a in p.acks
      ensures SentUpTo(hosts', a.id, a.num)
    {
      assert p in sys.net || p in out;
    }
  }

  lemma {:induction false} HbeatBounded(sys: System, h: Id, src: Id, num: int, session: int, acks: seq<Ack>)
    requires Bounded(sys) && h in sys.hosts && sys.hosts[h].id == h
    requires forall a :: a in acks ==> SentUpTo(sys.hosts, a.id, a.num)
    ensures Bounded(Acts(sys, h, HandleHbeat(AsMeant, sys.hosts[h], src, num, session, acks)))
  {
    assert HostBounded(sys.hosts, h);
    if AckFor(acks, h).Some? {
      AckForIn(acks, h);
    }
    var (x, out) := HandleHbeat(AsMeant, sys.hosts[h], src, num, session, acks);
    ActsBounded(sys, h, x, out);
  }

  lemma {:induction false} DeliverBounded(sys: System, h: Id, p: Packet, stale: int)
    requires Bounded(sys) && h in sys.hosts && sys.hosts[h].id == h && p in sys.net && Addressed(p, h)
    ensures Bounded(Next(AsMeant, sys, Deliver(h, p, stale)))
  {
    var rest := sys.(net := sys.net - multiset{p});
    assert HostBounded(sys.hosts, h) && Bounded(rest);
    match p
    case Data(src, _, m) =>
      var (x, out) := HandleData(AsMeant, sys.hosts[h], src, m);
      ActsBounded(rest, h, x, out);
    case Hbeat(src, num, session, acks) =>
      HbeatBounded(rest, h, src, num, session, acks);
    case Nack(id, _, nums) =>
      DecodeEncode(nums, [stale]);
      RepliesAreData(sys.hosts[h], id, nums);
      ActsBounded(rest, h, sys.hosts[h], Replies(sys.hosts[h], id, nums));
    case Leave(src) =>
      ActsBounded(rest, h, HandleLeave(sys.hosts[h], src), []);
  }

  lemma {:induction false} TimerBounded(sys: System, h: Id)
    requires Inv(sys) && Bounded(sys) && h in sys.hosts
    ensures Bounded(Next(AsMeant, sys, Timer(h)))
  {
    var x := sys.hosts[h];
    assert HostOk(sys.hosts, h) && HostBounded(sys.hosts, h);
    var (x', out) := HandleTimer(x);
    BeatWindow(x.snd);
    AckListTrue(x, x.order);
    forall a | a in out[0].acks
      ensures SentUpTo(sys.hosts[h := x'], a.id, a.num)
    {
      assert MemberOk(x.peers[a.id].mem, sys.hosts[a.id].snd.log);
    }
    ActsBounded(sys, h, x', out);
  }

  lemma {:induction false} TrimBounded(sys: System, h: Id)
    requires Bounded(sys) && h in sys.hosts
    ensures Bounded(Next(AsMeant, sys, TrimAcked(h)))
  {
    var x := sys.hosts[h];
    assert HostBounded(sys.hosts, h);
    var acks := Syncs(x, x.order);
    SyncsExactly(x, x.order);
    AcknowledgedLeast(FreshLeast, x.snd.sync, acks);
    AckTrimWindow(FreshLeast, x.snd, acks);
    ActsBounded(sys, h, HandleTrim(AsMeant, x), []);
  }

  lemma {:induction false} NextBounded(sys: System, a: Action)
    requires Inv(sys) && Bounded(sys)
    ensures Bounded(Next(AsMeant, sys, a))
  {
    match a
    case AppSend(h, body, taken) =>
      if h in sys.hosts {
        assert HostBounded(sys.hosts, h);
        SendWindow(sys.hosts[h].snd, body, taken);
        ActsBounded(sys, h, HandleSend(sys.hosts[h], body, taken).0, HandleSend(sys.hosts[h], body, taken).1);
      }
    case Timer(h) =>
      if h in sys.hosts { TimerBounded(sys, h); }
    case TrimAcked(h) =>
      if h in sys.hosts { TrimBounded(sys, h); }
    case Quit(h) =>
      if h in sys.hosts {
        assert HostBounded(sys.hosts, h);
        ActsBounded(sys, h, sys.hosts[h], [Leave(h)]);
      }
    case Deliver(h, p, stale) =>
      if h in sys.hosts && p in sys.net && Addressed(p, h) {
        assert HostOk(sys.hosts, h);
        DeliverBounded(sys, h, p, stale);
      }
    case _ =>
      NetBounded(sys, a);
  }

  lemma NetBounded(sys: System, a: Action)
    requires Bounded(sys) && (a.Lose? || a.Duplicate? || a.Inject?)
    ensures Bounded(Next(AsMeant, sys, a))
  {
  }

  lemma {:induction false} RunBounded(sys: System, acts: seq<Action>)
    requires Init(sys)
    ensures Bounded(Run(AsMeant, sys, acts))
  {
    if acts == [] {
      assert forall h :: h in sys.hosts ==> HostBounded(sys.hosts, h);
    } else {
      RunKeeps(sys, acts[..|acts| - 1]);
      RunBounded(sys, acts[..|acts| - 1]);
      NextBounded(Run(AsMeant, sys, acts[..|acts| - 1]), acts[|acts| - 1]);
    }
  }

  /** As meant, in every run, leaves included: every host buffers exactly the messages from its oldest up to
      the next number, each as it was sent, and no acknowledgement is beyond what was sent. */
  lemma {:induction false} WindowInRun(sys: System, acts: seq<Action>, h: Id)
    requires Init(sys) && h in Run(AsMeant, sys, acts).hosts
    ensures var x := Run(AsMeant, sys, acts).hosts[h];
            Window(x.snd) && forall g :: g in x.peers ==> x.peers[g].sync <= x.snd.next
  {
    RunBounded(sys, acts);
    assert HostBounded(Run(AsMeant, sys, acts).hosts, h);
  }

  /** So in every run a round of recovery from the heartbeat of `g` makes up for everything a member lacks exactly
      when all of it was sent at or after the heartbeat before the last, and not trimmed since. */
  lemma {:induction false} RecoverableByAge(sys: System, acts: seq<Action>, g: Id, r: Member)
    requires Init(sys) && g in Run(AsMeant, sys, acts).hosts
    ensures var y := Run(AsMeant, sys, acts).hosts[g];
            Recovery.StillBuffered(y, r)
            <==> forall k :: r.sequence < k < y.snd.next && k !in r.cache ==> y.snd.p2 <= k && y.snd.oldest <= k
  {
    WindowInRun(sys, acts, g);
    Recovery.BufferedByAge(Run(AsMeant, sys, acts).hosts[g], r);
  }
}
