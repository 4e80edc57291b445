/** A run of two hosts in which trimming by acknowledgements takes a message. */
module AckWitness {
  import opened Text
  import opened Receiver
  import opened SenderWindow
  import opened Hosts
  import opened Protocol
  import opened Acks

  /** Two hosts, the first with the given sender and noted acknowledgement, the second at
      number `n` of the first one's stream. */
  function Pair(snd: Sender, noted: int, r: Member): System {
    var host1 := Host(1, 5, true, snd, map[2 := Peer(6, Joined(-1), noted)], [2]);
    var host2 := Host(2, 6, true, Start(0), map[1 := Peer(5, r, 0)], [1]);
    System(map[1 := host1, 2 := host2], multiset{})
  }

  lemma PairSends(snd: Sender, noted: int, r: Member, body: Payload)
    requires r.sequence + 1 == snd.next && r.cache == map[]
    ensures var m := Msg(snd.next, body);
            var s := Next(AsMeant, Pair(snd, noted, r), AppSend(1, body, true));
            Next(AsMeant, s, Deliver(2, Data(1, None, m), 0))
            == Pair(Send(snd, body, true), noted, r.(sequence := snd.next, handed := r.handed + [m]))
  {
    var m := Msg(snd.next, body);
    var sys := Pair(snd, noted, r);
    var s := Next(AsMeant, sys, AppSend(1, body, true));
    var r' := r.(sequence := snd.next, handed := r.handed + [m]);
    assert Drain(AsMeant, r') == r';
    assert s.net == multiset{Data(1, None, m)};
    var s' := Next(AsMeant, s, Deliver(2, Data(1, None, m), 0));
    assert s'.net == multiset{};
    assert map[1 := Peer(5, r, 0)][1 := Peer(5, r', 0)] == map[1 := Peer(5, r', 0)];
    assert s'.hosts[1] == Pair(Send(snd, body, true), noted, r').hosts[1];
    assert OnData(AsMeant, r, m) == r';
    assert s'.hosts[2] == Pair(Send(snd, body, true), noted, r').hosts[2];
  }

  /** The second host's heartbeat tells the first how far it has come. */
  lemma PairAcks(snd: Sender, noted: int, r: Member)
    ensures var s := Next(AsMeant, Pair(snd, noted, r), Timer(2));
            Next(AsMeant, s, Deliver(1, Hbeat(2, 0, 6, [Ack(1, r.sequence)]), 0)) == Pair(snd, r.sequence, r)
  {
    var sys := Pair(snd, noted, r);
    var s := Next(AsMeant, sys, Timer(2));
    var hb := Hbeat(2, 0, 6, [Ack(1, r.sequence)]);
    assert [1][..0] == [];
    assert AckList(sys.hosts[2], [1]) == [Ack(1, r.sequence)];
    assert s.hosts[2] == sys.hosts[2] && s.hosts[1] == sys.hosts[1];
    assert s.net == multiset{hb};
    var s' := Next(AsMeant, s, Deliver(1, hb, 0));
    var peer := Peer(6, Joined(-1), r.sequence);
    assert map[2 := Peer(6, Joined(-1), noted)][2 := peer] == map[2 := peer];
    assert s'.net == multiset{};
    assert s'.hosts[1] == Pair(snd, r.sequence, r).hosts[1];
    assert s'.hosts[2] == Pair(snd, r.sequence, r).hosts[2];
  }

  /** Two hosts that have just started. */
  function Alone(): System {
    System(map[1 := Host(1, 5, true, Start(0), map[], []), 2 := Host(2, 6, true, Start(0), map[], [])], multiset{})
  }

  /** Two hosts of which only the second knows the first. */
  function HalfMet(): System {
    System(map[1 := Alone().hosts[1], 2 := Pair(Start(0), -1, Joined(-1)).hosts[2]], multiset{})
  }

  /** They come to know each other by their heartbeats. */
  lemma FirstMeets()
    ensures Next(AsMeant, Next(AsMeant, Alone(), Timer(1)), Deliver(2, Hbeat(1, 0, 5, []), 0)) == HalfMet()
  {
    var s1 := Next(AsMeant, Alone(), Timer(1));
    assert s1.hosts == Alone().hosts && s1.net == multiset{Hbeat(1, 0, 5, [])};
    var s2 := Next(AsMeant, s1, Deliver(2, Hbeat(1, 0, 5, []), 0));
    var peer := Peer(5, Joined(-1), 0);
    assert map[][1 := peer][1 := peer] == map[1 := peer];
    assert s2.hosts[2] == HalfMet().hosts[2];
    assert s2.net == multiset{} && s2.hosts[1] == HalfMet().hosts[1];
  }

  lemma SecondMeets()
    ensures Next(AsMeant, Next(AsMeant, HalfMet(), Timer(2)), Deliver(1, Hbeat(2, 0, 6, [Ack(1, -1)]), 0))
            == Pair(Start(0), -1, Joined(-1))
  {
    var pair, hb := Pair(Start(0), -1, Joined(-1)), Hbeat(2, 0, 6, [Ack(1, -1)]);
    var s3 := Next(AsMeant, HalfMet(), Timer(2));
    assert [1][..0] == [] && AckList(HalfMet().hosts[2], [1]) == [Ack(1, -1)];
    assert s3.hosts == HalfMet().hosts && s3.net == multiset{hb};
    var s4 := Next(AsMeant, s3, Deliver(1, hb, 0));
    assert map[][2 := Peer(6, Joined(-1), 0)][2 := Peer(6, Joined(-1), -1)] == map[2 := Peer(6, Joined(-1), -1)];
    assert s4.net == multiset{} && s4.hosts[1] == pair.hosts[1] && s4.hosts[2] == pair.hosts[2];
  }

  lemma TwoMore(sys: System, acts: seq<Action>, mid: System, a: Action, b: Action, s: System)
    requires Run(AsMeant, sys, acts) == mid && Next(AsMeant, Next(AsMeant, mid, a), b) == s
    ensures Run(AsMeant, sys, acts + [a, b]) == s
  {
    var two := acts + [a, b];
    assert two[..|acts| + 1] == acts + [a] && (acts + [a])[..|acts|] == acts;
    assert Run(AsMeant, sys, acts + [a]) == Next(AsMeant, mid, a);
  }

  function Meeting(): seq<Action> {
    [] + [Timer(1), Deliver(2, Hbeat(1, 0, 5, []), 0)] + [Timer(2), Deliver(1, Hbeat(2, 0, 6, [Ack(1, -1)]), 0)]
  }

  lemma MeetingRuns()
    ensures Run(AsMeant, Alone(), Meeting()) == Pair(Start(0), -1, Joined(-1))
  {
    FirstMeets();
    TwoMore(Alone(), [], Alone(), Timer(1), Deliver(2, Hbeat(1, 0, 5, []), 0), HalfMet());
    SecondMeets();
    TwoMore(Alone(), [] + [Timer(1), Deliver(2, Hbeat(1, 0, 5, []), 0)], HalfMet(),
            Timer(2), Deliver(1, Hbeat(2, 0, 6, [Ack(1, -1)]), 0), Pair(Start(0), -1, Joined(-1)));
  }

  lemma SendRuns(acts: seq<Action>, snd: Sender, r: Member, body: Payload) returns (acts': seq<Action>)
    requires Run(AsMeant, Alone(), acts) == Pair(snd, -1, r) && r.sequence + 1 == snd.next && r.cache == map[]
    ensures Run(AsMeant, Alone(), acts')
            == Pair(Send(snd, body, true), -1, r.(sequence := snd.next, handed := r.handed + [Msg(snd.next, body)]))
  {
    var a, b := AppSend(1, body, true), Deliver(2, Data(1, None, Msg(snd.next, body)), 0);
    PairSends(snd, -1, r, body);
    TwoMore(Alone(), acts, Pair(snd, -1, r), a, b,
            Pair(Send(snd, body, true), -1, r.(sequence := snd.next, handed := r.handed + [Msg(snd.next, body)])));
    acts' := acts + [a, b];
  }

  lemma AckRuns(acts: seq<Action>, snd: Sender, r: Member) returns (acts': seq<Action>)
    requires Run(AsMeant, Alone(), acts) == Pair(snd, -1, r)
    ensures Run(AsMeant, Alone(), acts') == Pair(snd, r.sequence, r)
  {
    var a, b := Timer(2), Deliver(1, Hbeat(2, 0, 6, [Ack(1, r.sequence)]), 0);
    PairAcks(snd, -1, r);
    TwoMore(Alone(), acts, Pair(snd, -1, r), a, b, Pair(snd, r.sequence, r));
    acts' := acts + [a, b];
  }

  lemma PairTrims(snd: Sender, n: int, r: Member, q: int)
    requires q in snd.outbuf && snd.oldest <= q < n
    ensures q !in HandleTrim(AsMeant, Pair(snd, n, r).hosts[1]).snd.outbuf
  {
    var x := Pair(snd, n, r).hosts[1];
    assert 2 in x.peers;
    TrimExact(x, q);
  }

  /** Two hosts that have just started have a run after which trimming takes a message: they meet,
      the first sends two messages that the second receives, and the second acknowledges them. */
  lemma TrimHappens(body: Payload) returns (acts: seq<Action>)
    ensures Init(Alone())
    ensures var s := Run(AsMeant, Alone(), acts);
            1 in s.hosts && 0 in s.hosts[1].snd.outbuf && 0 !in HandleTrim(AsMeant, s.hosts[1]).snd.outbuf
  {
    var s1 := Send(Start(0), body, true);
    var r1 := Joined(-1).(sequence := 0, handed := [] + [Msg(0, body)]);
    MeetingRuns();
    acts := SendRuns(Meeting(), Start(0), Joined(-1), body);
    acts := SendRuns(acts, s1, r1, body);
    var s2 := Send(s1, body, true);
    var r2 := r1.(sequence := 1, handed := r1.handed + [Msg(1, body)]);
    acts := AckRuns(acts, s2, r2);
    PairTrims(s2, 1, r2, 0);
  }
}
