/** A whole network of daemons on the heap against the runs of Protocol. */
module NetRuns {
  import opened Text
  import Entries
  import SenderWindow
  import Windows
  import opened Hosts
  import opened Daemons
  import opened DaemonRuns
  import opened Protocol

  /** The key to what this module closes: a predicate of the form `forall d :: OpenNet(d) ==> P` is passed
      on as a whole by proofs that do not mention the key, and `assert OpenNet(0)` looks into it. */
  ghost predicate OpenNet(d: nat) {
    d >= 0
  }

  /** The daemon is in order, within `owned`, and stands for `x`. */
  ghost predicate Sound(t: Reading, d: Daemon, x: Host, owned: set<object>)
    reads owned
  {
    d.out in owned && d.members in owned && d.Own() <= owned && d.text == t && d.Ready() && d.View() == x
  }

  /** The daemons are in order, share nothing, and stand for `hosts`. */
  ghost predicate Apart(t: Reading, ds: map<Id, Daemon>, hosts: map<Id, Host>, owned: set<object>)
    reads owned
  {
    && ds.Keys == hosts.Keys && (forall h :: h in ds ==> Sound(t, ds[h], hosts[h], owned))
    && (forall h, g :: h in ds && g in ds && h != g ==> ds[h].Own() !! ds[g].Own())
  }

  ghost predicate Stand(t: Reading, ds: map<Id, Daemon>, hosts: map<Id, Host>, owned: set<object>)
    reads owned
  {
    ds.Keys == hosts.Keys && forall d: nat {:trigger OpenNet(d)} :: OpenNet(d) ==> Apart(t, ds, hosts, owned)
  }

  ghost predicate AllApart(own: map<Id, set<object>>, owned: set<object>) {
    && (forall h :: h in own ==> own[h] <= owned)
    && (forall h, g :: h in own && g in own && h != g ==> own[h] !! own[g])
  }

  /** If one of them takes in only what nobody owned, they still share nothing. */
  lemma StillApart(own: map<Id, set<object>>, owned: set<object>, h: Id, now: set<object>)
    requires AllApart(own, owned) && h in own && (now - own[h]) !! owned
    ensures AllApart(own[h := now], owned + now)
  {
  }

  method StepInside(ghost t: Reading, ds: map<Id, Daemon>, ghost hosts: map<Id, Host>, ghost owned: set<object>,
                    h: Id, input: Input)
    returns (packets: seq<Packet>, ghost x: Host, ghost owned': set<object>)
    requires Apart(t, ds, hosts, owned) && h in ds
    modifies ds[h].Own()
    ensures Apart(t, ds, hosts[h := x], owned') && fresh(owned' - owned) && (x, packets) == Step(t, hosts[h], input)
  {
    ghost var own := map g | g in ds :: ds[g].Own();
    SharesNothing(t, ds, hosts, owned, own);
    ghost var now;
    packets, x, now := StepAmong(t, ds, hosts, owned, own, h, input);
    owned' := owned + now;
    Reassemble(t, ds, hosts, owned, own, h, x, now);
  }

  lemma SharesNothing(t: Reading, ds: map<Id, Daemon>, hosts: map<Id, Host>, owned: set<object>,
                      own: map<Id, set<object>>)
    requires Apart(t, ds, hosts, owned) && own.Keys == ds.Keys && forall h :: h in ds ==> ds[h].Own() == own[h]
    ensures AllApart(own, owned)
  {
  }

  /** One daemon has changed, and taken in only what nobody owned. */
  lemma Reassemble(t: Reading, ds: map<Id, Daemon>, hosts: map<Id, Host>, owned: set<object>, own: map<Id, set<object>>,
                   h: Id, x: Host, now: set<object>)
    requires ds.Keys == hosts.Keys == own.Keys && h in ds && AllApart(own, owned) && (now - own[h]) !! owned
    requires forall g :: g in ds && g != h ==> Sound(t, ds[g], hosts[g], owned + now) && ds[g].Own() == own[g]
    requires Sound(t, ds[h], x, owned + now) && ds[h].Own() == now
    ensures Apart(t, ds, hosts[h := x], owned + now)
  {
    StillApart(own, owned, h, now);
    var own' := own[h := now];
    assert forall g :: g in ds ==> ds[g].Own() == own'[g];
  }

  /** The others are as they were. */
  method StepAmong(ghost t: Reading, ds: map<Id, Daemon>, ghost hosts: map<Id, Host>, ghost owned: set<object>,
                   ghost own: map<Id, set<object>>, h: Id, input: Input)
    returns (packets: seq<Packet>, ghost x: Host, ghost now: set<object>)
    requires Apart(t, ds, hosts, owned) && h in ds
    requires own.Keys == ds.Keys && forall g :: g in ds ==> ds[g].Own() == own[g]
    modifies ds[h].Own()
    ensures forall g :: g in ds && g != h ==> Sound(t, ds[g], hosts[g], owned + now) && ds[g].Own() == own[g]
    ensures Sound(t, ds[h], x, owned + now) && ds[h].Own() == now
    ensures (x, packets) == Step(t, hosts[h], input) && fresh(now - own[h])
  {
    packets := Act(ds[h], input);
    x, now := ds[h].View(), ds[h].Own();
    forall g | g in ds && g != h
      ensures Sound(t, ds[g], hosts[g], owned + now) && ds[g].Own() == own[g]
    {
      assert old(Sound(t, ds[g], hosts[g], owned)) && old(ds[g].Own() !! ds[h].Own());
    }
  }

  /** One daemon takes a step, the others do not notice. */
  method StepAt(ghost t: Reading, ds: map<Id, Daemon>, ghost hosts: map<Id, Host>, ghost owned: set<object>,
                h: Id, input: Input)
    returns (packets: seq<Packet>, ghost x: Host, ghost owned': set<object>)
    requires Stand(t, ds, hosts, owned) && h in ds
    modifies owned
    ensures Stand(t, ds, hosts[h := x], owned') && fresh(owned' - owned) && (x, packets) == Step(t, hosts[h], input)
  {
    assert OpenNet(0);
    packets, x, owned' := StepInside(t, ds, hosts, owned, h, input);
  }

  /** A daemon acts on an input and its packets go onto the network. */
  method Acting(ghost t: Reading, ds: map<Id, Daemon>, ghost hosts: map<Id, Host>, ghost owned: set<object>,
                net: multiset<Packet>, h: Id, input: Input)
    returns (net': multiset<Packet>, ghost hosts': map<Id, Host>, ghost owned': set<object>)
    requires Stand(t, ds, hosts, owned) && h in ds
    modifies owned
    ensures Stand(t, ds, hosts', owned') && fresh(owned' - owned)
    ensures System(hosts', net') == Acts(System(hosts, net), h, Step(t, hosts[h], input))
  {
    var packets;
    ghost var x;
    packets, x, owned' := StepAt(t, ds, hosts, owned, h, input);
    net' := net + multiset(packets);
    hosts' := hosts[h := x];
  }

  /** The network takes one of its own steps. */
  method Moving(net: multiset<Packet>, a: Action, ghost t: Reading, ghost hosts: map<Id, Host>)
    returns (net': multiset<Packet>)
    requires a.Lose? || a.Duplicate? || a.Inject? || (a.Quit? && a.h in hosts)
    ensures System(hosts, net') == Next(t, System(hosts, net), a)
  {
    match a
    case Lose(p) => net' := net - multiset{p};
    case Duplicate(p) => net' := if p in net then net + multiset{p} else net;
    case Inject(id, to, nums) => net' := net + multiset{Nack(id, to, nums)};
    case Quit(h) =>
      assert hosts[h := hosts[h]] == hosts;
      net' := net + multiset{Leave(h)};
  }

  /** What an action makes a daemon do, if it makes one do anything. */
  function InputOf(a: Action): Option<Input> {
    match a
    case AppSend(_, body, taken) => Some(Send(body, taken))
    case Timer(_) => Some(Beat)
    case TrimAcked(_) => Some(Trim)
    case Deliver(_, p, stale) => Some(Arrival(p, stale))
    case _ => None
  }

  lemma NextActs(t: Reading, sys: System, a: Action)
    requires InputOf(a).Some? && a.h in sys.hosts && (a.Deliver? ==> a.p in sys.net && Addressed(a.p, a.h))
    ensures var rest := if a.Deliver? then sys.(net := sys.net - multiset{a.p}) else sys;
            Next(t, sys, a) == Acts(rest, a.h, Step(t, sys.hosts[a.h], InputOf(a).value))
  {
  }

  /** One action on a network of daemons on the heap is one step of the protocol. */
  method Perform(ghost t: Reading, ds: map<Id, Daemon>, ghost hosts: map<Id, Host>, ghost owned: set<object>,
                 net: multiset<Packet>, a: Action)
    returns (net': multiset<Packet>, ghost hosts': map<Id, Host>, ghost owned': set<object>)
    requires Stand(t, ds, hosts, owned)
    modifies owned
    ensures Stand(t, ds, hosts', owned') && fresh(owned' - owned)
    ensures System(hosts', net') == Next(t, System(hosts, net), a)
  {
    net', hosts', owned' := net, hosts, owned;
    if a.Lose? || a.Duplicate? || a.Inject? || (a.Quit? && a.h in ds) {
      net' := Moving(net, a, t, hosts);
    } else if !a.Quit? && a.h in ds && (a.Deliver? ==> a.p in net && Addressed(a.p, a.h)) {
      NextActs(t, System(hosts, net), a);
      var rest := if a.Deliver? then net - multiset{a.p} else net;
      net', hosts', owned' := Acting(t, ds, hosts, owned, rest, a.h, InputOf(a).value);
    }
  }

  /** For every run of the protocol, the daemons on the heap and the network between them end in the
      state the run ends in. */
  method Execute(ghost t: Reading, ds: map<Id, Daemon>, ghost hosts: map<Id, Host>, ghost owned: set<object>,
                 net: multiset<Packet>, acts: seq<Action>)
    returns (net': multiset<Packet>, ghost hosts': map<Id, Host>, ghost owned': set<object>)
    requires Stand(t, ds, hosts, owned)
    modifies owned
    ensures Stand(t, ds, hosts', owned') && fresh(owned' - owned)
    ensures System(hosts', net') == Run(t, System(hosts, net), acts)
    decreases |acts|
  {
    net', hosts', owned' := net, hosts, owned;
    if acts != [] {
      net', hosts', owned' := Execute(t, ds, hosts, owned, net, acts[..|acts| - 1]);
      net', hosts', owned' := Perform(t, ds, hosts', owned', net', acts[|acts| - 1]);
    }
  }

  /** All hosts have handed up what the others sent. */
  ghost predicate HostsDelivered(hosts: map<Id, Host>) {
    forall h, g :: h in hosts && g in hosts[h].peers ==>
      g in hosts && Delivered(hosts[h].peers[g].mem, hosts[g].snd.log)
  }

  lemma {:induction false} RunDelivers(sys: System, acts: seq<Action>)
    requires Init(sys)
    ensures HostsDelivered(Run(AsMeant, sys, acts).hosts)
  {
    var hosts := Run(AsMeant, sys, acts).hosts;
    forall h, g | h in hosts && g in hosts[h].peers
      ensures g in hosts && Delivered(hosts[h].peers[g].mem, hosts[g].snd.log)
    {
      StreamDelivered(sys, acts, h, g);
    }
  }

  /** All daemons have handed up what the others sent. */
  ghost predicate AllDelivered(ds: map<Id, Daemon>, owned: set<object>)
    reads owned
  {
    && (forall h :: h in ds ==> ds[h].members in owned && ds[h].out in owned)
    && (forall h, g :: h in ds && g in ds[h].members.peers ==>
          g in ds && Delivered(ds[h].members.peers[g].mem, ds[g].out.log))
  }

  lemma {:induction false} NetDelivers(ds: map<Id, Daemon>, hosts: map<Id, Host>, owned: set<object>)
    requires Stand(AsMeant, ds, hosts, owned) && HostsDelivered(hosts)
    ensures AllDelivered(ds, owned)
  {
    assert OpenNet(0);
    assert forall h :: h in ds ==> ds[h].View() == hosts[h];
    assert forall h :: h in ds ==> ds[h].members.peers == hosts[h].peers && ds[h].out.log == hosts[h].snd.log;
  }

  /** As meant, after every run of daemons on the heap that started together: what each has handed up
      of another's stream is that one's log from the base on, in order, without gap or repeat. */
  method ExecuteDelivers(ds: map<Id, Daemon>, ghost hosts: map<Id, Host>, ghost owned: set<object>, acts: seq<Action>)
    returns (net': multiset<Packet>, ghost hosts': map<Id, Host>, ghost owned': set<object>)
    requires Stand(AsMeant, ds, hosts, owned) && Init(System(hosts, multiset{}))
    modifies owned
    ensures Stand(AsMeant, ds, hosts', owned') && fresh(owned' - owned) && AllDelivered(ds, owned')
  {
    net', hosts', owned' := Execute(AsMeant, ds, hosts, owned, multiset{}, acts);
    RunDelivers(System(hosts, multiset{}), acts);
    NetDelivers(ds, hosts', owned');
  }

  /** As meant, after every run of daemons on the heap: a daemon that buffers at most 50 messages has no two of
      them in the same bucket of its table. */
  lemma {:induction false} NetShortChains(ds: map<Id, Daemon>, hosts: map<Id, Host>, owned: set<object>,
                                          sys: System, acts: seq<Action>, h: Id)
    requires Stand(AsMeant, ds, hosts, owned) && Init(sys) && Run(AsMeant, sys, acts).hosts == hosts
    requires h in ds && |hosts[h].snd.outbuf| <= 50 && hosts[h].snd.next <= Entries.WORD
    ensures var rows := ds[h].out.outbuf.table.bk.rows; forall b :: 0 <= b < |rows| ==> |rows[b]| <= 1
  {
    assert OpenNet(0) && OpenDaemon(0);
    assert ds[h].View() == hosts[h] && ds[h].Ready();
    Windows.WindowInRun(sys, acts, h);
    ds[h].out.ShortChains();
  }

  /** A daemon that has just started. */
  method Fresh(t: Reading, id: Id, session: int, hbAck: bool) returns (d: Daemon)
    ensures d.text == t && d.Ready() && fresh(d.Own())
    ensures d.View() == Host(id, session, hbAck, SenderWindow.Start(0), map[], [])
  {
    d := new Daemon(t, id, session, hbAck, 0);
  }

  /** One more daemon beside the others. */
  method Launch(t: Reading, ds: map<Id, Daemon>, ghost hosts: map<Id, Host>, ghost owned: set<object>,
                id: Id, session: int, hbAck: bool)
    returns (d: Daemon, ghost owned': set<object>)
    requires Stand(t, ds, hosts, owned) && id !in ds
    ensures Stand(t, ds[id := d], hosts[id := Host(id, session, hbAck, SenderWindow.Start(0), map[], [])], owned')
    ensures fresh(owned' - owned)
  {
    assert OpenNet(0);
    d := Fresh(t, id, session, hbAck);
    owned' := owned + d.Own();
  }

  /** Daemons that have just started, one for each id. */
  method Start(t: Reading, ids: seq<Id>, session: int, hbAck: bool)
    returns (ds: map<Id, Daemon>, ghost hosts: map<Id, Host>, ghost owned: set<object>)
    ensures Stand(t, ds, hosts, owned) && Init(System(hosts, multiset{})) && fresh(owned)
    ensures forall h :: h in ds <==> h in ids
  {
    ds, hosts, owned := map[], map[], {};
    for i := 0 to |ids|
      invariant Stand(t, ds, hosts, owned) && Init(System(hosts, multiset{})) && fresh(owned)
      invariant forall h :: h in ds <==> h in ids[..i]
    {
      if ids[i] !in ds {
        var d;
        d, owned := Launch(t, ds, hosts, owned, ids[i], session, hbAck);
        hosts := hosts[ids[i] := Host(ids[i], session, hbAck, SenderWindow.Start(0), map[], [])];
        ds := ds[ids[i] := d];
      }
    }
  }
}
