/** One round that starts with a data packet ahead of the stream: gap report and replies without loss. */
module DataRound {
  import opened Text
  import opened Receiver
  import opened Nacks
  import opened Hosts
  import opened Protocol
  import opened Recovery

  /** The scan does not look at what is cached from `hi` on. */
  lemma {:induction false} MissingSame(lo: int, hi: int, cached: set<int>, cached': set<int>)
    requires forall k :: lo < k < hi ==> (k in cached <==> k in cached')
    ensures Missing(lo, hi, cached) == Missing(lo, hi, cached')
    decreases hi - lo
  {
    if hi > lo + 1 {
      MissingSame(lo, hi - 1, cached, cached');
    }
  }

  /** The receiver can come past `k`: it has it cached, or asked for it and the sender still buffers it. */
  ghost predicate AtHand(r: Member, num: int, buffered: set<int>, k: int) {
    k in r.cache || k == num || (k < num && k in buffered)
  }

  /** `r'` is `r` advanced as far as everything is at hand, and no further. */
  ghost predicate Advanced(r: Member, r': Member, num: int, buffered: set<int>) {
    && r.sequence <= r'.sequence && (forall k :: r.sequence < k <= r'.sequence ==> AtHand(r, num, buffered, k))
    && !AtHand(r, num, buffered, r'.sequence + 1)
  }

  /** It has come to `num` exactly when all it lacked before was still buffered. */
  lemma AdvancedExactly(r: Member, r': Member, num: int, buffered: set<int>)
    requires Advanced(r, r', num, buffered) && r.sequence < num
    ensures r'.sequence >= num <==> forall k :: r.sequence < k < num && k !in r.cache ==> k in buffered
  {
    if r'.sequence >= num {
      forall k | r.sequence < k < num && k !in r.cache
        ensures k in buffered
      {
        assert AtHand(r, num, buffered, k);
      }
    }
  }

  /** What the sender `y` sends back to `x` when asked for everything missing before `num`. */
  function DataReplies(y: Host, x: Host, num: int): seq<Packet>
    requires y.id in x.peers
  {
    var r := x.peers[y.id].mem;
    Replies(y, x.id, Missing(r.sequence, num, r.cache.Keys))
  }

  lemma {:induction false} RepliesArrive(y: Host, x: Host, num: int, ps: seq<Packet>, k: int)
    requires SenderOk(y.snd) && y.id in x.peers && MemberOk(x.peers[y.id].mem, y.snd.log)
    requires (forall p :: p in ps <==> p in DataReplies(y, x, num)) && forall p :: p in ps ==> p.Data?
    requires k > x.peers[y.id].mem.sequence
    ensures var r := x.peers[y.id].mem;
            k in Held(r) + PacketNums(ps) <==> k in r.cache || (k < num && k in y.snd.outbuf)
  {
    var r := x.peers[y.id].mem;
    var nums := Missing(r.sequence, num, r.cache.Keys);
    MissingExactly(r.sequence, num, r.cache.Keys);
    RepliesExactly(y, x.id, nums);
    if k !in r.cache && k < num && k in y.snd.outbuf {
      assert k in nums;
      var p :| p in Replies(y, x.id, nums) && p.Data? && p.msg.num == k;
      assert p in ps;
    }
  }

  /** Once the replies have arrived, in whatever order and however often, the receiver, which has `num`
      itself cached, is as far as everything is at hand. */
  lemma {:induction false} RepliesAdvance(y: Host, x: Host, num: int, ps: seq<Packet>)
    requires SenderOk(y.snd) && y.id in x.peers && MemberOk(x.peers[y.id].mem, y.snd.log)
    requires num in x.peers[y.id].mem.cache
    requires forall p :: p in ps <==> p in DataReplies(y, x, num)
    ensures forall p :: p in ps ==> p.Data?
    ensures var after := Absorb(AsMeant, x, y.id, ps);
            y.id in after.peers && Advanced(x.peers[y.id].mem, after.peers[y.id].mem, num, y.snd.outbuf.Keys)
  {
    var r := x.peers[y.id].mem;
    RepliesExactly(y, x.id, Missing(r.sequence, num, r.cache.Keys));
    AbsorbSettles(x, y.id, ps, Held(r), Said(y.snd.log));
    var r' := Absorb(AsMeant, x, y.id, ps).peers[y.id].mem;
    forall k | r.sequence < k
      ensures k in Held(r) + PacketNums(ps) <==> AtHand(r, num, y.snd.outbuf.Keys, k)
    {
      RepliesArrive(y, x, num, ps, k);
    }
  }

  // ----- The round as part of a run -----

  /** A data packet of `g` arrives at `h`, and the gap report of `h` arrives at `g`. */
  function DataRoundActs(s: System, h: Id, g: Id, p: Packet): seq<Action>
    requires h in s.hosts && g in s.hosts[h].peers && p.Data?
  {
    var r := s.hosts[h].peers[g].mem;
    [Deliver(h, p, 0), Deliver(g, Nack(h, g, Missing(r.sequence, p.msg.num, r.cache.Keys)), 0)]
  }

  /** The packet arrives: it is cached, and a gap report is on the network. */
  lemma {:induction false} AheadArrives(s: System, h: Id, g: Id, p: Packet)
    requires h in s.hosts && s.hosts[h].id == h && g in s.hosts[h].peers
    requires p in s.net && p.Data? && p.src == g && Addressed(p, h) && s.hosts[h].peers[g].mem.sequence + 1 < p.msg.num
    ensures var r := s.hosts[h].peers[g].mem; var s' := Next(AsMeant, s, Deliver(h, p, 0));
            && s'.hosts.Keys == s.hosts.Keys && (forall k :: k in s.hosts && k != h ==> s'.hosts[k] == s.hosts[k])
            && s'.hosts[h].id == h && g in s'.hosts[h].peers
            && s'.hosts[h].peers[g].mem == OnData(AsMeant, r, p.msg)
            && Nack(h, g, Missing(r.sequence, p.msg.num, r.cache.Keys)) in s'.net
  {
    var x, r := s.hosts[h], s.hosts[h].peers[g].mem;
    var out := HandleData(AsMeant, x, g, p.msg);
    var r' := OnData(AsMeant, r, p.msg);
    MissingSame(r.sequence, p.msg.num, r.cache.Keys, r'.cache.Keys);
    assert out.1[0] == Nack(h, g, Missing(r.sequence, p.msg.num, r.cache.Keys)) && out.1[0] in out.1;
    SentIsThere(s.(net := s.net - multiset{p}), h, out);
  }

  lemma RunTwo(s: System, a: Action, b: Action)
    ensures Run(AsMeant, s, [a, b]) == Next(AsMeant, Next(AsMeant, s, a), b)
  {
    assert [a, b][..1] == [a] && [a][..0] == [];
    assert Run(AsMeant, s, []) == s;
    assert Run(AsMeant, s, [a]) == Next(AsMeant, s, a);
  }

  /** After the two steps the packet is cached, the sender has not moved, and the replies are on the network. */
  lemma {:induction false} DataRoundRuns(s: System, h: Id, g: Id, p: Packet)
    requires Inv(s) && h in s.hosts && g in s.hosts && h != g && g in s.hosts[h].peers
    requires p in s.net && p.Data? && p.src == g && Addressed(p, h) && s.hosts[h].peers[g].mem.sequence + 1 < p.msg.num
    ensures var s' := Run(AsMeant, s, DataRoundActs(s, h, g, p));
            && Inv(s') && h in s'.hosts && g in s'.hosts && s'.hosts[g] == s.hosts[g]
            && g in s'.hosts[h].peers && s'.hosts[h].peers[g].mem == OnData(AsMeant, s.hosts[h].peers[g].mem, p.msg)
            && forall q :: q in DataReplies(s.hosts[g], s.hosts[h], p.msg.num) ==> q in s'.net
  {
    assert HostOk(s.hosts, h) && HostOk(s.hosts, g);
    var acts := DataRoundActs(s, h, g, p);
    RunTwo(s, acts[0], acts[1]);
    AheadArrives(s, h, g, p);
    NextKeeps(s, acts[0]);
    var s1 := Next(AsMeant, s, acts[0]);
    ReportArrives(s1, g, acts[1].p);
    NextKeeps(s1, acts[1]);
  }

  lemma {:induction false} DataRepliesFor(y: Host, x: Host, num: int)
    requires y.id in x.peers
    ensures DataFor(DataReplies(y, x, num), x.id, y.id)
  {
    var r := x.peers[y.id].mem;
    RepliesAddressed(y, x.id, Missing(r.sequence, num, r.cache.Keys));
  }

  /** In every run, and whatever else is on the network: after a data packet of `g` ahead of its stream
      arrives at `h` and a gap report arrives at `g`, once every reply has arrived, in whatever
      order and however often, `h` has come as far as it has everything cached or `g` still
      buffers it, and no further; so it has come to the packet's number exactly when
      everything it lacked before was still in the buffer of `g`. */
  lemma {:induction false} DataRoundInRun(sys: System, acts: seq<Action>, h: Id, g: Id, p: Packet, ds: seq<Action>)
    requires Init(sys) && h != g && p.Data? && p.src == g && Addressed(p, h)
    requires var s := Run(AsMeant, sys, acts);
             && h in s.hosts && g in s.hosts && s.hosts[g].id == g && g in s.hosts[h].peers
             && p in s.net && s.hosts[h].peers[g].mem.sequence + 1 < p.msg.num
    requires var s := Run(AsMeant, sys, acts); var replies := DataReplies(s.hosts[g], s.hosts[h], p.msg.num);
             && OnlyMoves(ds, h, replies)
             && forall q :: q in replies ==> q in Arrived(Run(AsMeant, s, DataRoundActs(s, h, g, p)), h, ds)
    ensures var s := Run(AsMeant, sys, acts); var after := Run(AsMeant, sys, acts + DataRoundActs(s, h, g, p) + ds);
            && h in after.hosts && g in after.hosts[h].peers
            && var r, r' := s.hosts[h].peers[g].mem, after.hosts[h].peers[g].mem; var out := s.hosts[g].snd.outbuf;
            && Advanced(r, r', p.msg.num, out.Keys)
            && (r'.sequence >= p.msg.num <==> forall k :: r.sequence < k < p.msg.num && k !in r.cache ==> k in out)
  {
    var s := Run(AsMeant, sys, acts);
    RunKeeps(sys, acts);
    RunSplit(AsMeant, sys, acts, DataRoundActs(s, h, g, p));
    RunSplit(AsMeant, sys, acts + DataRoundActs(s, h, g, p), ds);
    DataRoundRuns(s, h, g, p);
    AfterReplies(s, Run(AsMeant, s, DataRoundActs(s, h, g, p)), h, g, p, ds);
  }

  lemma {:induction false} AfterReplies(s: System, mid: System, h: Id, g: Id, p: Packet, ds: seq<Action>)
    requires Inv(s) && Inv(mid) && h in s.hosts && g in s.hosts && s.hosts[g].id == g && g in s.hosts[h].peers
    requires h in mid.hosts && g in mid.hosts && mid.hosts[g] == s.hosts[g] && g in mid.hosts[h].peers
    requires p.Data? && s.hosts[h].peers[g].mem.sequence + 1 < p.msg.num
    requires mid.hosts[h].peers[g].mem == OnData(AsMeant, s.hosts[h].peers[g].mem, p.msg)
    requires var replies := DataReplies(s.hosts[g], s.hosts[h], p.msg.num);
             OnlyMoves(ds, h, replies) && forall q :: q in replies ==> q in Arrived(mid, h, ds)
    ensures var after := Run(AsMeant, mid, ds);
            && h in after.hosts && g in after.hosts[h].peers
            && var r, r' := s.hosts[h].peers[g].mem, after.hosts[h].peers[g].mem; var out := s.hosts[g].snd.outbuf;
            && Advanced(r, r', p.msg.num, out.Keys)
            && (r'.sequence >= p.msg.num <==> forall k :: r.sequence < k < p.msg.num && k !in r.cache ==> k in out)
  {
    assert HostOk(s.hosts, h) && HostOk(mid.hosts, h) && HostOk(mid.hosts, g);
    var r, r1 := s.hosts[h].peers[g].mem, mid.hosts[h].peers[g].mem;
    var replies := DataReplies(s.hosts[g], s.hosts[h], p.msg.num);
    MissingSame(r.sequence, p.msg.num, r.cache.Keys, r1.cache.Keys);
    assert replies == DataReplies(mid.hosts[g], mid.hosts[h], p.msg.num);
    DataRepliesFor(mid.hosts[g], mid.hosts[h], p.msg.num);
    MovesAbsorb(mid, h, g, ds, replies);
    RepliesAdvance(mid.hosts[g], mid.hosts[h], p.msg.num, Arrived(mid, h, ds));
    var r' := Absorb(AsMeant, mid.hosts[h], g, Arrived(mid, h, ds)).peers[g].mem;
    StillAdvanced(r, r1, r', p.msg, s.hosts[g].snd.outbuf.Keys);
    AdvancedExactly(r, r', p.msg.num, s.hosts[g].snd.outbuf.Keys);
  }

  /** Whether `num` is already cached or has just arrived makes no difference. */
  lemma StillAdvanced(r: Member, r1: Member, r': Member, m: Msg, buffered: set<int>)
    requires r.sequence + 1 < m.num && r1 == OnData(AsMeant, r, m) && Advanced(r1, r', m.num, buffered)
    ensures Advanced(r, r', m.num, buffered)
  {
    assert forall k :: AtHand(r1, m.num, buffered, k) <==> AtHand(r, m.num, buffered, k);
  }
}
