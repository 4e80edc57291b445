/** One round of heartbeat, gap report and replies without loss. */
module Recovery {
  import opened Text
  import opened Receiver
  import opened SenderWindow
  import opened Nacks
  import opened Hosts
  import opened Protocol

  /** Data packets arriving one after the other. */
  function Absorb(t: Reading, h: Host, src: Id, ps: seq<Packet>): Host
    requires forall p :: p in ps ==> p.Data?
  {
    if ps == [] then h
    else HandleData(t, Absorb(t, h, src, ps[..|ps| - 1]), src, ps[|ps| - 1].msg).0
  }

  ghost function PacketNums(ps: seq<Packet>): set<int>
    requires forall p :: p in ps ==> p.Data?
  {
    set p | p in ps :: p.msg.num
  }

  lemma {:induction false} AbsorbSettles(h: Host, src: Id, ps: seq<Packet>, arrived: set<int>, body: int -> Payload)
    requires forall p :: p in ps ==> p.Data? && p.msg.body == body(p.msg.num)
    requires src in h.peers && Settled(h.peers[src].mem, arrived, body)
    ensures src in Absorb(AsMeant, h, src, ps).peers
    ensures var r := Absorb(AsMeant, h, src, ps).peers[src].mem;
            Settled(r, arrived + PacketNums(ps), body) && r.sequence >= h.peers[src].mem.sequence &&
            r.base == h.peers[src].mem.base
  {
    if ps == [] {
      assert arrived + PacketNums(ps) == arrived;
    } else {
      var front, p := ps[..|ps| - 1], ps[|ps| - 1];
      assert p in ps;
      AbsorbSettles(h, src, front, arrived, body);
      OnDataSettles(Absorb(AsMeant, h, src, front).peers[src].mem, arrived + PacketNums(front), body, p.msg);
      assert ps == front + [p];
      assert arrived + PacketNums(front) + {p.msg.num} == arrived + PacketNums(ps);
    }
  }

  lemma {:induction false} RepliesExactly(g: Host, id: Id, nums: seq<int>)
    requires SenderOk(g.snd)
    ensures forall p :: p in Replies(g, id, nums) ==>
              p.Data? && p.msg.num in nums && p.msg.num in g.snd.outbuf && p.msg == Msg(p.msg.num, g.snd.log[p.msg.num])
    ensures forall q :: q in nums && q in g.snd.outbuf ==> exists p :: p in Replies(g, id, nums) && p.Data? && p.msg.num == q
  {
    if nums != [] {
      var front, q := nums[..|nums| - 1], nums[|nums| - 1];
      RepliesExactly(g, id, front);
      assert nums == front + [q];
      var all := Replies(g, id, nums);
      if q in g.snd.outbuf {
        assert all[|all| - 1] in all;
      }
      forall x | x in nums && x in g.snd.outbuf
        ensures exists p :: p in all && p.Data? && p.msg.num == x
      {
        if x != q {
          var p :| p in Replies(g, id, front) && p.Data? && p.msg.num == x;
          assert p in all;
        } else {
          assert all[|all| - 1].msg.num == x;
        }
      }
    }
  }

  /** The packets the sender `g` sends back to `h` in a round that starts with its heartbeat. */
  function RoundReplies(g: Host, h: Host): seq<Packet>
    requires g.id in h.peers
  {
    var beaten := HandleTimer(g).0;
    var r := h.peers[g.id].mem;
    if Gap(r, g.snd.next) then Replies(beaten, h.id, Asked(AsMeant, r, g.snd.next)) else []
  }

  /** That is what the handlers make of it: the heartbeat makes the receiver report its gap,
      the report makes the sender reply, and the receiver's state has not moved meanwhile. */
  lemma RoundIsHandlers(g: Host, h: Host, stale: int)
    requires g.id in h.peers && h.peers[g.id].session == g.session
    ensures var (beaten, hbs) := HandleTimer(g);
            && |hbs| == 1 && hbs[0].Hbeat?
            && var (h1, reports) := Handle(AsMeant, h, hbs[0], stale);
               && g.id in h1.peers && h1.peers[g.id].mem == h.peers[g.id].mem
               && RoundReplies(g, h) == if reports == [] then [] else Handle(AsMeant, beaten, reports[0], stale).1
  {
    DecodeEncode(Asked(AsMeant, h.peers[g.id].mem, g.snd.next), [stale]);
  }

  /** Every number the receiver lacks is still in the sender's buffer after the heartbeat. */
  ghost predicate StillBuffered(g: Host, r: Member) {
    forall k :: r.sequence < k < g.snd.next && k !in r.cache ==> k in HandleTimer(g).0.snd.outbuf
  }

  /** After the round, with the replies arriving in any order and any number of times, the
      receiver is at the sender's last number with nothing cached, exactly when everything
      it lacked was still in the sender's buffer. */
  lemma {:induction false} OneRound(g: Host, h: Host, ps: seq<Packet>)
    requires SenderOk(g.snd) && g.id in h.peers && MemberOk(h.peers[g.id].mem, g.snd.log)
    requires forall p :: p in ps <==> p in RoundReplies(g, h)
    ensures forall p :: p in ps ==> p.Data?
    ensures var after := Absorb(AsMeant, h, g.id, ps);
            && g.id in after.peers && var r := after.peers[g.id].mem;
            r.sequence == g.snd.next - 1 && r.cache == map[] <==> StillBuffered(g, h.peers[g.id].mem)
  {
    var r := h.peers[g.id].mem;
    var beaten := HandleTimer(g).0;
    var body := Said(g.snd.log);
    var nums := Asked(AsMeant, r, g.snd.next);
    assert SenderOk(beaten.snd) && beaten.snd.log == g.snd.log;
    MissingExactly(r.sequence, g.snd.next, r.cache.Keys);
    RepliesExactly(beaten, h.id, nums);
    AbsorbSettles(h, g.id, ps, Held(r), body);
    var arrived := Held(r) + PacketNums(ps);
    forall k | r.sequence < k
      ensures k in arrived <==> k in r.cache || (k < g.snd.next && k in beaten.snd.outbuf)
    {
      ArrivesExactly(g, h, ps, k);
    }
    RoundOutcome(r, Absorb(AsMeant, h, g.id, ps).peers[g.id].mem, arrived, body, g.snd.next, beaten.snd.outbuf.Keys);
  }

  lemma ArrivesExactly(g: Host, h: Host, ps: seq<Packet>, k: int)
    requires SenderOk(g.snd) && g.id in h.peers && MemberOk(h.peers[g.id].mem, g.snd.log)
    requires forall p :: p in ps <==> p in RoundReplies(g, h)
    requires forall p :: p in ps ==> p.Data?
    requires k > h.peers[g.id].mem.sequence
    ensures k in Held(h.peers[g.id].mem) + PacketNums(ps)
            <==> k in h.peers[g.id].mem.cache || (k < g.snd.next && k in HandleTimer(g).0.snd.outbuf)
  {
    var r := h.peers[g.id].mem;
    var beaten := HandleTimer(g).0;
    var nums := Asked(AsMeant, r, g.snd.next);
    MissingExactly(r.sequence, g.snd.next, r.cache.Keys);
    assert SenderOk(beaten.snd);
    RepliesExactly(beaten, h.id, nums);
    if k !in r.cache && k < g.snd.next && k in beaten.snd.outbuf {
      assert k in nums;
      var p :| p in Replies(beaten, h.id, nums) && p.Data? && p.msg.num == k;
      assert p in ps;
    }
  }

  lemma RoundOutcome(r: Member, r': Member, arrived: set<int>, body: int -> Payload, next: int, buffered: set<int>)
    requires Settled(r', arrived, body) && r'.base == r.base <= r.sequence <= r'.sequence && r.sequence < next
    requires forall k :: k in arrived ==> k < next
    requires forall k :: k in r.cache ==> k > r.sequence
    requires forall k :: r.sequence < k ==> (k in arrived <==> k in r.cache || (k < next && k in buffered))
    ensures r'.sequence == next - 1 && r'.cache == map[]
            <==> forall k :: r.sequence < k < next && k !in r.cache ==> k in buffered
  {
    if forall k :: r.sequence < k < next && k !in r.cache ==> k in buffered {
      assert r'.sequence + 1 !in arrived;
      assert r'.sequence >= next - 1;
      assert r'.sequence > r'.base ==> r'.sequence in arrived;
      assert r'.sequence == next - 1;
      assert forall k :: k in r'.cache ==> k in arrived && k > r'.sequence;
      assert r'.cache.Keys == {};
    }
  }

  /** In a sender that trims by heartbeats, what it takes is that everything lacking was sent
      at or after the heartbeat before the last one. */
  lemma BufferedByAge(g: Host, r: Member)
    requires Window(g.snd)
    ensures StillBuffered(g, r)
            <==> forall k :: r.sequence < k < g.snd.next && k !in r.cache ==> g.snd.p2 <= k && g.snd.oldest <= k
  {
  }

  // ----- The round as part of a run -----

  /** The round as steps of the network: the heartbeat of `g` goes out and arrives at `h`, and the
      gap report of `h` arrives at `g`. */
  function RoundActs(s: System, h: Id, g: Id): seq<Action>
    requires h in s.hosts && g in s.hosts && g in s.hosts[h].peers
  {
    var r, next := s.hosts[h].peers[g].mem, s.hosts[g].snd.next;
    [Timer(g), Deliver(h, HandleTimer(s.hosts[g]).1[0], 0), Deliver(g, GapReport(AsMeant, h, g, r, next), 0)]
  }

  /** What the network then does with the packets `ps`: any of them may reach `h`, be duplicated or be lost. */
  ghost predicate Moves(a: Action, h: Id, ps: seq<Packet>) {
    match a
    case Deliver(x, p, _) => x == h && p in ps
    case Duplicate(p) => p in ps
    case Lose(p) => p in ps
    case _ => false
  }

  ghost predicate OnlyMoves(ds: seq<Action>, h: Id, ps: seq<Packet>) {
    forall a :: a in ds ==> Moves(a, h, ps)
  }

  /** The packets that have really arrived at `h`, in order. */
  function Arrived(s: System, h: Id, ds: seq<Action>): seq<Packet> {
    if ds == [] then []
    else
      var front, a := ds[..|ds| - 1], ds[|ds| - 1];
      Arrived(s, h, front) + if a.Deliver? && a.p in Run(AsMeant, s, front).net then [a.p] else []
  }

  /** All these packets are data packets of `g` for `h`. */
  ghost predicate DataFor(ps: seq<Packet>, h: Id, g: Id) {
    forall p :: p in ps ==> p.Data? && p.src == g && Addressed(p, h)
  }

  lemma MoveAbsorbs(s: System, h: Id, g: Id, a: Action, ps: seq<Packet>)
    requires h in s.hosts && Moves(a, h, ps) && DataFor(ps, h, g)
    ensures a.Deliver? ==> a.p in ps && a.p.Data?
    ensures Next(AsMeant, s, a).hosts
            == if a.Deliver? && a.p in s.net then s.hosts[h := HandleData(AsMeant, s.hosts[h], g, a.p.msg).0] else s.hosts
  {
  }

  lemma AbsorbNext(h: Host, g: Id, ps: seq<Packet>, p: Packet)
    requires p.Data? && forall q :: q in ps ==> q.Data?
    ensures Absorb(AsMeant, h, g, ps + [p]) == HandleData(AsMeant, Absorb(AsMeant, h, g, ps), g, p.msg).0
  {
    assert (ps + [p])[..|ps|] == ps;
  }

  lemma {:induction false} MovesAbsorb(s: System, h: Id, g: Id, ds: seq<Action>, ps: seq<Packet>)
    requires h in s.hosts && OnlyMoves(ds, h, ps) && DataFor(ps, h, g)
    ensures forall p :: p in Arrived(s, h, ds) ==> p in ps
    ensures Run(AsMeant, s, ds).hosts == s.hosts[h := Absorb(AsMeant, s.hosts[h], g, Arrived(s, h, ds))]
  {
    if ds == [] {
      assert s.hosts[h := s.hosts[h]] == s.hosts;
    } else {
      var front, a := ds[..|ds| - 1], ds[|ds| - 1];
      assert a in ds && forall x :: x in front ==> x in ds;
      MovesAbsorb(s, h, g, front, ps);
      MovesNext(s, Run(AsMeant, s, front), h, g, a, ps, Arrived(s, h, front));
    }
  }

  lemma {:induction false} MovesNext(s: System, mid: System, h: Id, g: Id, a: Action, ps: seq<Packet>, before: seq<Packet>)
    requires h in s.hosts && Moves(a, h, ps) && DataFor(ps, h, g) && forall p :: p in before ==> p in ps
    requires mid.hosts == s.hosts[h := Absorb(AsMeant, s.hosts[h], g, before)]
    ensures a.Deliver? ==> a.p in ps && a.p.Data?
    ensures var now := before + if a.Deliver? && a.p in mid.net then [a.p] else [];
            && (forall p :: p in now ==> p in ps)
            && Next(AsMeant, mid, a).hosts == s.hosts[h := Absorb(AsMeant, s.hosts[h], g, now)]
  {
    MoveAbsorbs(mid, h, g, a, ps);
    if a.Deliver? && a.p in mid.net {
      AbsorbNext(s.hosts[h], g, before, a.p);
    } else {
      assert before + [] == before;
    }
  }

  lemma RunThree(s: System, a: Action, b: Action, c: Action)
    ensures Run(AsMeant, s, [a, b, c]) == Next(AsMeant, Next(AsMeant, Next(AsMeant, s, a), b), c)
  {
    assert [a, b, c][..2] == [a, b] && [a, b][..1] == [a] && [a][..0] == [];
    assert Run(AsMeant, s, []) == s;
    assert Run(AsMeant, s, [a]) == Next(AsMeant, s, a);
    assert Run(AsMeant, s, [a, b]) == Next(AsMeant, Next(AsMeant, s, a), b);
  }

  lemma SentIsThere(sys: System, h: Id, out: (Host, seq<Packet>))
    ensures forall p :: p in out.1 ==> p in Acts(sys, h, out).net
  {
  }

  /** The heartbeat arrives: the receiver's stream has not moved, and a gap has been reported. */
  lemma {:induction false} BeatArrives(s: System, h: Id, y: Host)
    requires h in s.hosts && s.hosts[h].id == h && y.id in s.hosts[h].peers
    requires s.hosts[h].peers[y.id].session == y.session && HandleTimer(y).1[0] in s.net
    ensures var r := s.hosts[h].peers[y.id].mem;
            var s' := Next(AsMeant, s, Deliver(h, HandleTimer(y).1[0], 0));
            && s'.hosts.Keys == s.hosts.Keys && (forall g :: g in s.hosts && g != h ==> s'.hosts[g] == s.hosts[g])
            && s'.hosts[h].id == h && y.id in s'.hosts[h].peers && s'.hosts[h].peers[y.id].mem == r
            && (Gap(r, y.snd.next) ==> GapReport(AsMeant, h, y.id, r, y.snd.next) in s'.net)
  {
    var hb := HandleTimer(y).1[0];
    BeatHandled(s.hosts[h], y);
    SentIsThere(s.(net := s.net - multiset{hb}), h, Handle(AsMeant, s.hosts[h], hb, 0));
  }

  lemma BeatHandled(x: Host, y: Host)
    requires y.id in x.peers && x.peers[y.id].session == y.session
    ensures var r := x.peers[y.id].mem;
            var (x', out) := Handle(AsMeant, x, HandleTimer(y).1[0], 0);
            && x'.id == x.id && y.id in x'.peers && x'.peers[y.id].mem == r
            && (Gap(r, y.snd.next) ==> GapReport(AsMeant, x.id, y.id, r, y.snd.next) in out)
  {
    var (x', out) := Handle(AsMeant, x, HandleTimer(y).1[0], 0);
    if Gap(x.peers[y.id].mem, y.snd.next) {
      assert out[0] in out;
    }
  }

  /** The gap report arrives: the replies are sent. */
  lemma {:induction false} ReportArrives(s: System, g: Id, p: Packet)
    requires g in s.hosts && p.Nack? && p.to == g
    ensures var s' := Next(AsMeant, s, Deliver(g, p, 0));
            && s'.hosts == s.hosts
            && (p in s.net ==> forall q :: q in Replies(s.hosts[g], p.id, p.nums) ==> q in s'.net)
  {
    DecodeEncode(p.nums, [0]);
    SentIsThere(s.(net := s.net - multiset{p}), g, (s.hosts[g], Replies(s.hosts[g], p.id, p.nums)));
    assert s.hosts[g := s.hosts[g]] == s.hosts;
  }

  lemma {:induction false} BeatGoesOut(s: System, g: Id)
    requires g in s.hosts
    ensures var s' := Next(AsMeant, s, Timer(g));
            s'.hosts == s.hosts[g := HandleTimer(s.hosts[g]).0] && HandleTimer(s.hosts[g]).1[0] in s'.net
  {
    SentIsThere(s, g, HandleTimer(s.hosts[g]));
    assert HandleTimer(s.hosts[g]).1[0] in HandleTimer(s.hosts[g]).1;
  }

  /** After the round's three steps the receiver's stream has not moved, and the replies are on the network. */
  lemma {:induction false} RoundRuns(s: System, h: Id, g: Id)
    requires h in s.hosts && g in s.hosts && g in s.hosts[h].peers && h != g
    requires s.hosts[g].id == g && s.hosts[h].id == h && s.hosts[h].peers[g].session == s.hosts[g].session
    ensures var s' := Run(AsMeant, s, RoundActs(s, h, g));
            && h in s'.hosts && s'.hosts[h].id == h && g in s'.hosts[h].peers
            && s'.hosts[h].peers[g].mem == s.hosts[h].peers[g].mem
            && forall p :: p in RoundReplies(s.hosts[g], s.hosts[h]) ==> p in s'.net
  {
    var acts := RoundActs(s, h, g);
    RunThree(s, acts[0], acts[1], acts[2]);
    BeatGoesOut(s, g);
    var s1 := Next(AsMeant, s, acts[0]);
    BeatArrives(s1, h, s.hosts[g]);
    var s2 := Next(AsMeant, s1, acts[1]);
    ReportArrives(s2, g, acts[2].p);
  }

  lemma {:induction false} RoundRepliesFor(s: System, h: Id, g: Id)
    requires Inv(s) && h in s.hosts && g in s.hosts && g in s.hosts[h].peers
    ensures DataFor(RoundReplies(s.hosts[g], s.hosts[h]), h, g)
  {
    assert HostOk(s.hosts, h) && HostOk(s.hosts, g);
    var beaten := HandleTimer(s.hosts[g]).0;
    RepliesAddressed(beaten, h, Asked(AsMeant, s.hosts[h].peers[g].mem, s.hosts[g].snd.next));
  }

  lemma {:induction false} RepliesAddressed(g: Host, id: Id, nums: seq<int>)
    ensures forall p :: p in Replies(g, id, nums) ==> p.Data? && p.src == g.id && p.dst == Some(id)
  {
    if nums != [] {
      RepliesAddressed(g, id, nums[..|nums| - 1]);
    }
  }

  /** In every run, and whatever else is on the network: after a heartbeat of `g` that arrives at
      `h` and a gap report that arrives at `g`, once every reply has arrived, in whatever order
      and however often, `h` is at the last number of `g` with nothing cached exactly when
      everything it lacked was still in the buffer of `g`. Nobody hears itself. */
  lemma {:induction false} OneRoundInRun(sys: System, acts: seq<Action>, h: Id, g: Id, ds: seq<Action>)
    requires Init(sys) && h != g
    requires var s := Run(AsMeant, sys, acts);
             h in s.hosts && g in s.hosts && g in s.hosts[h].peers && s.hosts[g].id == g
    requires var s := Run(AsMeant, sys, acts); var replies := RoundReplies(s.hosts[g], s.hosts[h]);
             && OnlyMoves(ds, h, replies)
             && forall p :: p in replies ==> p in Arrived(Run(AsMeant, s, RoundActs(s, h, g)), h, ds)
    ensures var s := Run(AsMeant, sys, acts);
            var after := Run(AsMeant, sys, acts + RoundActs(s, h, g) + ds);
            && h in after.hosts && g in after.hosts[h].peers && var r := after.hosts[h].peers[g].mem;
            r.sequence == s.hosts[g].snd.next - 1 && r.cache == map[] <==> StillBuffered(s.hosts[g], s.hosts[h].peers[g].mem)
  {
    var s := Run(AsMeant, sys, acts);
    var mid := Run(AsMeant, s, RoundActs(s, h, g));
    var replies := RoundReplies(s.hosts[g], s.hosts[h]);
    RunKeeps(sys, acts);
    assert HostOk(s.hosts, h) && HostOk(s.hosts, g);
    RunSplit(AsMeant, sys, acts, RoundActs(s, h, g));
    RunSplit(AsMeant, sys, acts + RoundActs(s, h, g), ds);
    RoundRuns(s, h, g);
    RoundRepliesFor(s, h, g);
    MovesAbsorb(mid, h, g, ds, replies);
    assert RoundReplies(s.hosts[g], mid.hosts[h]) == replies;
    OneRound(s.hosts[g], mid.hosts[h], Arrived(mid, h, ds));
  }

  // ----- As written: nobody is ever answered -----

  /** A gap report names the host it goes to, and a reply goes back to its own sender. */
  ghost predicate Astray(p: Packet) {
    (p.Nack? ==> p.id == p.to) && (p.Data? && p.dst.Some? ==> p.dst == Some(p.src))
  }

  ghost predicate AllAstray(sys: System) {
    (forall h :: h in sys.hosts ==> sys.hosts[h].id == h) && forall p :: p in sys.net ==> Astray(p)
  }

  lemma ActsAstray(sys: System, h: Id, x: Host, out: seq<Packet>)
    requires AllAstray(sys) && x.id == h && forall p :: p in out ==> Astray(p)
    ensures AllAstray(Acts(sys, h, (x, out)))
  {
    forall p | p in sys.net + multiset(out)
      ensures Astray(p)
    {
      assert p in sys.net || p in out;
    }
  }

  lemma HandleAstray(h: Host, p: Packet, stale: int)
    requires Astray(p) && Addressed(p, h.id)
    ensures var (x, out) := Handle(AsWritten, h, p, stale); x.id == h.id && forall q :: q in out ==> Astray(q)
  {
    match p
    case Data(_, _, _) =>
    case Hbeat(_, _, _, _) =>
    case Nack(id, _, nums) => RepliesAddressed(h, id, Decode(AsWritten, Encode(nums) + [stale]));
    case Leave(_) =>
  }

  lemma {:induction false} NextAstray(sys: System, a: Action)
    requires AllAstray(sys) && !a.Inject?
    ensures AllAstray(Next(AsWritten, sys, a))
  {
    match a
    case AppSend(h, body, taken) =>
      if h in sys.hosts {
        ActsAstray(sys, h, HandleSend(sys.hosts[h], body, taken).0, HandleSend(sys.hosts[h], body, taken).1);
      }
    case Timer(h) =>
      if h in sys.hosts { ActsAstray(sys, h, HandleTimer(sys.hosts[h]).0, HandleTimer(sys.hosts[h]).1); }
    case TrimAcked(h) =>
      if h in sys.hosts { ActsAstray(sys, h, HandleTrim(AsWritten, sys.hosts[h]), []); }
    case Quit(h) =>
      if h in sys.hosts { ActsAstray(sys, h, sys.hosts[h], [Leave(h)]); }
    case Deliver(h, p, stale) =>
      if h in sys.hosts && p in sys.net && Addressed(p, h) { DeliverAstray(sys, h, p, stale); }
    case Lose(_) =>
    case Duplicate(_) =>
  }

  lemma {:induction false} DeliverAstray(sys: System, h: Id, p: Packet, stale: int)
    requires AllAstray(sys) && h in sys.hosts && p in sys.net && Addressed(p, h)
    ensures AllAstray(Next(AsWritten, sys, Deliver(h, p, stale)))
  {
    var (x, out) := Handle(AsWritten, sys.hosts[h], p, stale);
    HandleAstray(sys.hosts[h], p, stale);
    ActsAstray(sys.(net := sys.net - multiset{p}), h, x, out);
  }

  /** As written, in every run in which gap reports come from the hosts alone: whatever data packet
      can reach a host other than its sender is an original, so nobody ever recovers anything. */
  lemma {:induction false} NobodyIsAnswered(sys: System, acts: seq<Action>)
    requires Init(sys) && forall a :: a in acts ==> !a.Inject?
    ensures AllAstray(Run(AsWritten, sys, acts))
    ensures forall p, h :: p in Run(AsWritten, sys, acts).net && p.Data? && h != p.src && Addressed(p, h) ==> p.dst == None
  {
    if acts != [] {
      assert acts[|acts| - 1] in acts;
      NobodyIsAnswered(sys, acts[..|acts| - 1]);
      NextAstray(Run(AsWritten, sys, acts[..|acts| - 1]), acts[|acts| - 1]);
    }
  }
}
