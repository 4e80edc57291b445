/** The member table and the member queue of every host over whole runs. */
module Rosters {
  import opened Text
  import MQueues
  import opened Hosts
  import opened Protocol

  /** The member queue lists the member table, each member once. */
  ghost predicate RosterOk(h: Host) {
    (forall g :: g in h.order <==> g in h.peers) && NoRepeat(h.order)
  }

  lemma {:induction false} WithoutHas(order: seq<Id>, id: Id)
    requires NoRepeat(order)
    ensures forall g :: g in MQueues.Without(order, id) <==> g in order && g != id
    ensures NoRepeat(MQueues.Without(order, id))
  {
    if order != [] {
      var tail, rest := order[1..], MQueues.Without(order[1..], id);
      WithoutHas(tail, id);
      assert forall g :: g in rest <==> g in tail && g != id;
      assert order == [order[0]] + tail && order[0] !in tail;
      if order[0] != id {
        assert forall g :: g in [order[0]] + rest <==> g == order[0] || g in rest;
        assert order[0] !in rest && NoRepeat(rest);
      }
    }
  }

  lemma HandleRoster(h: Host, p: Packet, stale: int)
    requires RosterOk(h)
    ensures RosterOk(Handle(AsMeant, h, p, stale).0)
  {
    match p
    case Data(_, _, _) =>
    case Hbeat(src, num, session, acks) =>
      GreetRoster(h, src, num, session);
      var g := Greet(h, src, num, session);
      var x := HandleHbeat(AsMeant, h, src, num, session, acks).0;
      assert x.order == g.order && x.peers.Keys == g.peers.Keys;
    case Nack(_, _, _) =>
    case Leave(src) =>
      WithoutHas(h.order, src);
      var x := HandleLeave(h, src);
      assert forall g :: g in x.peers <==> g in h.peers && g != src;
  }

  lemma GreetRoster(h: Host, src: Id, num: int, session: int)
    requires RosterOk(h)
    ensures RosterOk(Greet(h, src, num, session))
  {
  }

  ghost predicate RostersOk(sys: System) {
    forall h :: h in sys.hosts ==> RosterOk(sys.hosts[h])
  }

  lemma {:induction false} NextRoster(sys: System, a: Action)
    requires RostersOk(sys)
    ensures RostersOk(Next(AsMeant, sys, a))
  {
    match a
    case AppSend(h, body, taken) =>
      if h in sys.hosts { assert RosterOk(HandleSend(sys.hosts[h], body, taken).0); }
    case Timer(h) =>
      if h in sys.hosts { assert RosterOk(HandleTimer(sys.hosts[h]).0); }
    case TrimAcked(h) =>
      if h in sys.hosts { assert RosterOk(HandleTrim(AsMeant, sys.hosts[h])); }
    case Deliver(h, p, stale) =>
      if h in sys.hosts { HandleRoster(sys.hosts[h], p, stale); }
    case _ =>
  }

  /** As meant, in every run, leaves included: every host's member queue lists exactly its member
      table, each member once. What a leave does as written is in MemberRosters. */
  lemma {:induction false} RunKeepsRoster(sys: System, acts: seq<Action>)
    requires Init(sys)
    ensures RostersOk(Run(AsMeant, sys, acts))
  {
    if acts != [] {
      RunKeepsRoster(sys, acts[..|acts| - 1]);
      NextRoster(Run(AsMeant, sys, acts[..|acts| - 1]), acts[|acts| - 1]);
    }
  }
}
