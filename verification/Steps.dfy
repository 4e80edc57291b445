/** What every step of the network does, field by field and packet by packet: which host changes,
    in what, and what is on the network afterwards. Stated for every system, reachable or
    not, and without the functions that define the steps. */
module Steps {
  import opened Text
  import opened Receiver
  import opened SenderWindow
  import W = Words
  import MQueues
  import opened Nacks
  import opened Hosts
  import opened Protocol

  // ----- What stays -----

  /** `x'` is the same host as `x`. */
  ghost predicate SameHost(x: Host, x': Host) {
    x'.id == x.id && x'.session == x.session && x'.hbAck == x.hbAck
  }

  /** All members but `src` are as they were. */
  ghost predicate OthersKept(x: Host, x': Host, src: Id) {
    forall g :: g != src ==> (g in x'.peers <==> g in x.peers) && (g in x.peers ==> x'.peers[g] == x.peers[g])
  }

  /** Host `h` alone has changed; `out` has come onto the network, on which `net` was left. */
  ghost predicate OnlyAt(s: System, s': System, h: Id, net: multiset<Packet>, out: seq<Packet>) {
    && h in s.hosts && s'.hosts.Keys == s.hosts.Keys && SameHost(s.hosts[h], s'.hosts[h])
    && (forall g :: g in s.hosts && g != h ==> s'.hosts[g] == s.hosts[g])
    && s'.net == net + multiset(out)
  }

  // ----- Gap reports -----

  /** Every word that is not cached but `sequence` and the one before it, in the order of the ring. */
  ghost predicate AroundTheRing(nums: seq<int>, sequence: int, cached: set<int>) {
    && (forall k :: k in nums <==>
          0 <= k < W.WORD && k !in cached && k != W.Word(sequence) && k != W.Word(sequence - 1))
    && (forall i, j :: 0 <= i < j < |nums| ==> W.Word(nums[i] - (sequence + 1)) < W.Word(nums[j] - (sequence + 1)))
  }

  /** `p` asks `src` for what is missing before `num`: as meant it names the one who asks and
      lists, rising, exactly the numbers after `sequence` that are not cached. As written it
      names the one asked, and goes around the ring. */
  ghost predicate AsksFor(t: Reading, p: Packet, self: Id, src: Id, sequence: int, cached: set<int>, num: int) {
    && p.Nack? && p.to == src && p.id == (if t.AsMeant? then self else src)
    && (t.AsMeant? ==> Rising(p.nums) && forall k :: k in p.nums <==> sequence < k < num && k !in cached)
    && (t.AsWritten? && -1 <= sequence < W.HALF ==> AroundTheRing(p.nums, sequence, cached))
  }

  lemma {:induction false} RingAsks(sequence: int, cached: set<int>)
    requires -1 <= sequence < W.HALF
    ensures var start := W.Word(sequence + 1);
            AroundTheRing(RingMissing(start, Rounds(start, W.Word(sequence - 1)), cached), sequence, cached)
  {
    var start := W.Word(sequence + 1);
    assert start == sequence + 1;
    RingRises(start, Rounds(start, W.Word(sequence - 1)), cached);
    FirstVersionScan(sequence, cached);
  }

  lemma {:induction false} ReportAsks(t: Reading, self: Id, src: Id, r: Member, num: int)
    ensures AsksFor(t, GapReport(t, self, src, r, num), self, src, r.sequence, r.cache.Keys, num)
  {
    if t.AsMeant? {
      MissingExactly(r.sequence, num, r.cache.Keys);
    } else if -1 <= r.sequence < W.HALF {
      RingAsks(r.sequence, r.cache.Keys);
      assert GapReport(t, self, src, r, num).nums
          == RingMissing(W.Word(r.sequence + 1), Rounds(W.Word(r.sequence + 1), W.Word(r.sequence - 1)), r.cache.Keys);
    }
  }

  // ----- Data -----

  /** The stream `r` with `m` handed up. */
  function HandedUp(r: Member, m: Msg): Member {
    r.(sequence := r.sequence + 1, handed := r.handed + [m])
  }

  /** What the arrival of `m` makes of a member's stream: it is handed up, and with it the cached messages
      that follow; or it is kept, unless its number is kept already; or it is old. */
  ghost predicate StreamTook(t: Reading, r: Member, r': Member, m: Msg) {
    if m.num == r.sequence + 1 then
      var first := if t.AsMeant? then m.num + 1 else m.num;
      exists n: nat :: Took(HandedUp(r, m), r', first, n) && first + n !in r.cache
    else if m.num > r.sequence then
      && r'.base == r.base && r'.sequence == r.sequence && r'.handed == r.handed
      && (forall k :: k in r'.cache <==> k in r.cache || k == m.num)
      && (forall k :: k in r.cache ==> r'.cache[k] == r.cache[k]) && (m.num !in r.cache ==> r'.cache[m.num] == m)
    else r' == r
  }

  lemma OnDataTook(t: Reading, r: Member, m: Msg)
    ensures StreamTook(t, r, OnData(t, r, m), m)
  {
    if m.num == r.sequence + 1 {
      var n := DrainTakesRun(t, HandedUp(r, m));
      assert Took(HandedUp(r, m), OnData(t, r, m), if t.AsMeant? then m.num + 1 else m.num, n);
    }
  }

  /** A data packet from a member is taken into its stream, and answered by a gap report exactly when
      it is ahead of the stream; one from an unknown host is dropped. */
  ghost predicate DataTaken(t: Reading, x: Host, x': Host, out: seq<Packet>, src: Id, m: Msg) {
    && x'.snd == x.snd && x'.order == x.order && OthersKept(x, x', src) && (src in x'.peers <==> src in x.peers)
    && if src !in x.peers then out == []
       else
         var r, r' := x.peers[src].mem, x'.peers[src].mem;
         && x'.peers[src].session == x.peers[src].session && x'.peers[src].sync == x.peers[src].sync
         && StreamTook(t, r, r', m)
         && if r.sequence + 1 < m.num then |out| == 1 && AsksFor(t, out[0], x.id, src, r.sequence, r'.cache.Keys, m.num)
            else out == []
  }

  lemma {:induction false} DataHandled(t: Reading, x: Host, src: Id, m: Msg)
    ensures var (x', out) := HandleData(t, x, src, m); SameHost(x, x') && DataTaken(t, x, x', out, src, m)
  {
    if src in x.peers {
      var r := x.peers[src].mem;
      OnDataTook(t, r, m);
      ReportAsks(t, x.id, src, OnData(t, r, m), m.num);
    }
  }

  lemma {:induction false} DataStep(t: Reading, s: System, h: Id, src: Id, dst: Option<Id>, m: Msg, stale: int)
    returns (out: seq<Packet>)
    requires h in s.hosts && Data(src, dst, m) in s.net && (dst == None || dst == Some(h))
    ensures var p := Data(src, dst, m); var s' := Next(t, s, Deliver(h, p, stale));
            OnlyAt(s, s', h, s.net - multiset{p}, out) && DataTaken(t, s.hosts[h], s'.hosts[h], out, src, m)
  {
    DataHandled(t, s.hosts[h], src, m);
    out := HandleData(t, s.hosts[h], src, m).1;
  }

  // ----- Heartbeats -----

  /** The first of the acknowledgements that is for `id`. */
  ghost predicate FirstFor(acks: seq<Ack>, id: Id, i: int) {
    0 <= i < |acks| && acks[i].id == id && forall j :: 0 <= j < i ==> acks[j].id != id
  }

  lemma {:induction false} AckForFirst(acks: seq<Ack>, id: Id)
    ensures forall i :: FirstFor(acks, id, i) ==> AckFor(acks, id) == Some(acks[i].num)
    ensures (forall i :: 0 <= i < |acks| ==> acks[i].id != id) ==> AckFor(acks, id) == None
    decreases |acks|
  {
    if acks != [] && acks[0].id != id {
      AckForFirst(acks[1..], id);
      forall i | FirstFor(acks, id, i)
        ensures AckFor(acks, id) == Some(acks[i].num)
      {
        assert forall j :: 0 <= j < i - 1 ==> acks[1..][j] == acks[j + 1];
        assert FirstFor(acks[1..], id, i - 1);
      }
    }
  }

  /** What is noted of an acknowledgement: the first one for this host, or else what was noted before. */
  ghost predicate AckNoted(acks: seq<Ack>, id: Id, before: int, after: int) {
    && (forall i :: FirstFor(acks, id, i) ==> after == acks[i].num)
    && ((forall i :: 0 <= i < |acks| ==> acks[i].id != id) ==> after == before)
  }

  /** A heartbeat registers an unknown member and restarts one whose session is new, at the number
      before its own; it notes the acknowledgement for this host; and it is answered by a gap
      report exactly when the member was known with that session and has fallen behind. */
  ghost predicate HeartbeatTaken(t: Reading, x: Host, x': Host, out: seq<Packet>, src: Id, num: int, session: int,
                                 acks: seq<Ack>) {
    && x'.snd == x.snd && OthersKept(x, x', src) && src in x'.peers && x'.peers[src].session == session
    && x'.order == (if src in x.peers then x.order else [src] + x.order)
    && AckNoted(acks, x.id, if src in x.peers then x.peers[src].sync else 0, x'.peers[src].sync)
    && var r' := x'.peers[src].mem;
       if src in x.peers && x.peers[src].session == session then
         && r' == x.peers[src].mem
         && if r'.sequence + 1 < num then |out| == 1 && AsksFor(t, out[0], x.id, src, r'.sequence, r'.cache.Keys, num)
            else out == []
       else
         && r'.base == r'.sequence == num - 1 && r'.handed == []
         && r'.cache == (if src in x.peers then x.peers[src].mem.cache else map[])
         && out == []
  }

  lemma {:induction false} HeartbeatHandled(t: Reading, x: Host, src: Id, num: int, session: int, acks: seq<Ack>)
    ensures var (x', out) := HandleHbeat(t, x, src, num, session, acks);
            SameHost(x, x') && HeartbeatTaken(t, x, x', out, src, num, session, acks)
  {
    AckForFirst(acks, x.id);
    if src in x.peers {
      ReportAsks(t, x.id, src, x.peers[src].mem, num);
    }
  }

  lemma {:induction false} HeartbeatStep(t: Reading, s: System, h: Id, src: Id, num: int, session: int, acks: seq<Ack>,
                                         stale: int)
    returns (out: seq<Packet>)
    requires h in s.hosts && Hbeat(src, num, session, acks) in s.net
    ensures var p := Hbeat(src, num, session, acks); var s' := Next(t, s, Deliver(h, p, stale));
            && OnlyAt(s, s', h, s.net - multiset{p}, out)
            && HeartbeatTaken(t, s.hosts[h], s'.hosts[h], out, src, num, session, acks)
  {
    HeartbeatHandled(t, s.hosts[h], src, num, session, acks);
    out := HandleHbeat(t, s.hosts[h], src, num, session, acks).1;
  }

  // ----- Gap reports arriving -----

  /** The numbers read from a gap report: as written one word more than was written. */
  function Read(t: Reading, nums: seq<int>, stale: int): seq<int> {
    if t.AsMeant? then nums else nums + [stale]
  }

  /** `q` is a reply of `x` to `id`: a message still buffered, under its number. */
  predicate IsReply(x: Host, id: Id, q: Packet) {
    q.Data? && q.src == x.id && q.dst == Some(id) && q.msg.num in x.snd.outbuf && q.msg == x.snd.outbuf[q.msg.num]
  }

  /** How often `q` is sent in reply: as often as its number was asked for. */
  function Answered(x: Host, id: Id, nums: seq<int>, q: Packet): nat {
    if IsReply(x, id, q) then multiset(nums)[q.msg.num] else 0
  }

  lemma OneReply(x: Host, id: Id, q: int, p: Packet)
    requires forall k :: k in x.snd.outbuf ==> x.snd.outbuf[k].num == k
    ensures var last := if q in x.snd.outbuf then [Data(x.id, Some(id), x.snd.outbuf[q])] else [];
            multiset(last)[p] == if IsReply(x, id, p) && p.msg.num == q then 1 else 0
  {
  }

  lemma {:induction false} RepliesCounted(x: Host, id: Id, nums: seq<int>, p: Packet)
    requires forall k :: k in x.snd.outbuf ==> x.snd.outbuf[k].num == k
    ensures multiset(Replies(x, id, nums))[p] == Answered(x, id, nums, p)
  {
    if nums != [] {
      var front, q := nums[..|nums| - 1], nums[|nums| - 1];
      RepliesCounted(x, id, front, p);
      var last := if q in x.snd.outbuf then [Data(x.id, Some(id), x.snd.outbuf[q])] else [];
      assert Replies(x, id, nums) == Replies(x, id, front) + last;
      CountSplit(Replies(x, id, front), last, p);
      OneReply(x, id, q, p);
      if IsReply(x, id, p) {
        CountNext(front, q, nums, p.msg.num);
      }
    }
  }

  lemma CountSplit(a: seq<Packet>, b: seq<Packet>, p: Packet)
    ensures multiset(a + b)[p] == multiset(a)[p] + multiset(b)[p]
  {
  }

  lemma CountNext(front: seq<int>, q: int, nums: seq<int>, k: int)
    requires nums == front + [q]
    ensures multiset(nums)[k] == multiset(front)[k] + if k == q then 1 else 0
  {
  }

  lemma NackActs(t: Reading, s: System, h: Id, id: Id, nums: seq<int>, stale: int)
    requires h in s.hosts && Nack(id, h, nums) in s.net
    ensures var p := Nack(id, h, nums); var x := s.hosts[h];
            Next(t, s, Deliver(h, p, stale))
            == System(s.hosts[h := x], s.net - multiset{p} + multiset(Replies(x, id, Read(t, nums, stale))))
  {
    DecodeEncode(nums, [stale]);
  }

  /** A gap report changes no host. Every number read from it that is still buffered is sent, as often
      as it was asked for, to the host named in it, and nothing else is. */
  lemma {:induction false} NackStep(t: Reading, s: System, h: Id, id: Id, nums: seq<int>, stale: int, q: Packet)
    requires h in s.hosts && Nack(id, h, nums) in s.net
    requires forall k :: k in s.hosts[h].snd.outbuf ==> s.hosts[h].snd.outbuf[k].num == k
    ensures var p := Nack(id, h, nums); var s' := Next(t, s, Deliver(h, p, stale));
            && s'.hosts == s.hosts
            && s'.net[q] == (s.net - multiset{p})[q] + Answered(s.hosts[h], id, Read(t, nums, stale), q)
  {
    NackActs(t, s, h, id, nums, stale);
    assert s.hosts[h := s.hosts[h]] == s.hosts;
    RepliesCounted(s.hosts[h], id, Read(t, nums, stale), q);
  }

  // ----- Leaves -----

  /** `after` is `before` with its first entry for `src` taken out, if it has one. */
  ghost predicate TakenOut(before: seq<Id>, after: seq<Id>, src: Id) {
    if src in before then
      exists i :: 0 <= i < |before| && before[i] == src && src !in before[..i] && after == before[..i] + before[i + 1..]
    else after == before
  }

  lemma {:induction false} FirstAt(order: seq<Id>, src: Id) returns (i: nat)
    requires src in order
    ensures i < |order| && order[i] == src && src !in order[..i]
  {
    i := 0;
    if order[0] != src {
      var j := FirstAt(order[1..], src);
      i := j + 1;
      assert order[..i] == [order[0]] + order[1..][..j];
    }
  }

  lemma {:induction false} WithoutTakesOut(order: seq<Id>, src: Id)
    ensures TakenOut(order, MQueues.Without(order, src), src)
  {
    if src in order {
      var i := FirstAt(order, src);
      MQueues.WithoutAt(order, src, i);
    } else {
      MQueues.WithoutAbsent(order, src);
    }
  }

  /** A leave takes the member from the table and its place from the queue, and nothing else. */
  lemma {:induction false} LeaveStep(t: Reading, s: System, h: Id, src: Id, stale: int)
    requires h in s.hosts && Leave(src) in s.net
    ensures var s' := Next(t, s, Deliver(h, Leave(src), stale));
            && OnlyAt(s, s', h, s.net - multiset{Leave(src)}, []) && var x, x' := s.hosts[h], s'.hosts[h];
            && x'.snd == x.snd && OthersKept(x, x', src) && src !in x'.peers
            && (if src in x.peers then TakenOut(x.order, x'.order, src) else x'.order == x.order)
  {
    WithoutTakesOut(s.hosts[h].order, src);
  }

  // ----- What a host does of its own -----

  /** A message the network took goes out once, to the group, under the next number, and is buffered under
      it, whatever acknowledgements are for; one it did not take leaves everything as it was. */
  lemma {:induction false} SendStep(t: Reading, s: System, h: Id, body: Payload, taken: bool)
    requires h in s.hosts
    ensures !taken ==> Next(t, s, AppSend(h, body, taken)) == s
    ensures taken ==>
              var s' := Next(t, s, AppSend(h, body, taken)); var m := Msg(s.hosts[h].snd.next, body);
              && OnlyAt(s, s', h, s.net, [Data(s.hosts[h].id, None, m)]) && var x, x' := s.hosts[h], s'.hosts[h];
              && x'.peers == x.peers && x'.order == x.order
              && x'.snd.log == x.snd.log + [body] && x'.snd.next == m.num + 1
              && x'.snd.outbuf == x.snd.outbuf[m.num := m]
              && x'.snd == x.snd.(log := x'.snd.log, next := x'.snd.next, outbuf := x'.snd.outbuf)
  {
    if !taken {
      assert s.hosts[h := s.hosts[h]] == s.hosts && s.net + multiset([]) == s.net;
    }
  }

  /** `after` is `before` without the messages from its oldest up to `bound`. */
  ghost predicate Dropped(before: Sender, after: Sender, bound: int) {
    && after.next == before.next && after.log == before.log
    && after.oldest == (if before.oldest < bound then bound else before.oldest)
    && (forall k :: k in after.outbuf <==> k in before.outbuf && !(before.oldest <= k < bound))
    && (forall k :: k in after.outbuf ==> after.outbuf[k] == before.outbuf[k])
  }

  /** The report on the members: each one in the queue, in its order, with the last number handed up. */
  ghost predicate ReportsAll(x: Host, acks: seq<Ack>) {
    && |acks| == |x.order|
    && forall i :: 0 <= i < |acks| ==>
         x.order[i] in x.peers && acks[i] == Ack(x.order[i], x.peers[x.order[i]].mem.sequence)
  }

  lemma {:induction false} AckListAll(x: Host, n: nat)
    requires n <= |x.order| && forall g :: g in x.order ==> g in x.peers
    ensures var acks := AckList(x, x.order[..n]);
            && |acks| == n
            && forall i :: 0 <= i < n ==>
                 x.order[i] in x.peers && acks[i] == Ack(x.order[i], x.peers[x.order[i]].mem.sequence)
  {
    if n > 0 {
      AckListAll(x, n - 1);
      AckListNext(x, x.order, n - 1);
    }
  }

  /** A heartbeat goes out once, with the next number, the session and, if acknowledgements are on, a
      report on every member; the three marks move on, and what is older than three heartbeats goes. */
  lemma {:induction false} TimerStep(t: Reading, s: System, h: Id) returns (acks: seq<Ack>)
    requires h in s.hosts && forall g :: g in s.hosts[h].order ==> g in s.hosts[h].peers
    ensures if s.hosts[h].hbAck then ReportsAll(s.hosts[h], acks) else acks == []
    ensures var s' := Next(t, s, Timer(h)); var x := s.hosts[h];
            && OnlyAt(s, s', h, s.net, [Hbeat(x.id, x.snd.next, x.session, acks)]) && var x' := s'.hosts[h];
            && x'.peers == x.peers && x'.order == x.order
            && x'.snd.p1 == x.snd.next && x'.snd.p2 == x.snd.p1 && x'.snd.p3 == x.snd.p2 && x'.snd.sync == x.snd.sync
            && Dropped(x.snd, x'.snd, x.snd.p2)
  {
    var x := s.hosts[h];
    acks := if x.hbAck then AckList(x, x.order) else [];
    AckListAll(x, |x.order|);
    assert x.order[..|x.order|] == x.order;
  }

  /** `bound` is the number to trim to: as meant the least of the members' acknowledgements, as written
      the last one in the queue, or what was noted before if there is none. */
  ghost predicate TrimBound(t: Reading, x: Host, bound: int)
    requires forall g :: g in x.order ==> g in x.peers
  {
    if t.AsMeant? then
      (exists g :: g in x.order && x.peers[g].sync == bound) && forall g :: g in x.order ==> bound <= x.peers[g].sync
    else if x.order == [] then bound == x.snd.sync
    else var last := x.order[|x.order| - 1]; last in x.peers && bound == x.peers[last].sync
  }

  /** What each member acknowledged, in the order of the queue. */
  ghost predicate InQueueOrder(x: Host, acks: seq<int>) {
    |acks| == |x.order| && forall i :: 0 <= i < |acks| ==> x.order[i] in x.peers && acks[i] == x.peers[x.order[i]].sync
  }

  lemma {:induction false} LeastBound(x: Host, acks: seq<int>)
    requires (forall g :: g in x.order ==> g in x.peers) && x.order != [] && InQueueOrder(x, acks)
    ensures TrimBound(AsMeant, x, Acknowledged(FreshLeast, x.snd.sync, acks))
  {
    AcknowledgedLeast(FreshLeast, x.snd.sync, acks);
    var least := Acknowledged(FreshLeast, x.snd.sync, acks);
    forall g | g in x.order
      ensures least <= x.peers[g].sync
    {
      var j :| 0 <= j < |x.order| && x.order[j] == g;
      assert acks[j] in acks;
    }
    assert acks != [] && least in acks;
    var i :| 0 <= i < |acks| && acks[i] == least;
    var g := x.order[i];
    assert g in x.order && x.peers[g].sync == least;
  }

  lemma {:induction false} LastBound(x: Host, acks: seq<int>)
    requires (forall g :: g in x.order ==> g in x.peers) && InQueueOrder(x, acks)
    ensures TrimBound(AsWritten, x, Acknowledged(LastWins, x.snd.sync, acks))
  {
    AcknowledgedLast(x.snd.sync, acks);
    if x.order == [] {
      assert acks == [];
    } else {
      assert acks[|acks| - 1] == x.peers[x.order[|acks| - 1]].sync;
    }
  }

  lemma {:induction false} AcknowledgedBound(t: Reading, x: Host)
    requires (forall g :: g in x.order ==> g in x.peers) && (t.AsMeant? ==> x.order != [])
    ensures TrimBound(t, x, Acknowledged(RuleOf(t), x.snd.sync, Syncs(x, x.order)))
    ensures |Syncs(x, x.order)| == |x.order|
  {
    SyncsAll(x, |x.order|);
    assert x.order[..|x.order|] == x.order;
    if t.AsMeant? {
      LeastBound(x, Syncs(x, x.order));
    } else {
      LastBound(x, Syncs(x, x.order));
    }
  }

  lemma TrimDrops(s: Sender, bound: int)
    ensures Dropped(s, Trim(s, bound), bound)
  {
  }

  /** Trimming by acknowledgements sends nothing. It takes exactly what is below the bound; as meant
      there is none without members. */
  lemma {:induction false} TrimStep(t: Reading, s: System, h: Id)
    requires h in s.hosts && forall g :: g in s.hosts[h].order ==> g in s.hosts[h].peers
    ensures var s' := Next(t, s, TrimAcked(h));
            && OnlyAt(s, s', h, s.net, []) && var x, x' := s.hosts[h], s'.hosts[h];
            && x'.peers == x.peers && x'.order == x.order
            && x'.snd.p1 == x.snd.p1 && x'.snd.p2 == x.snd.p2 && x'.snd.p3 == x.snd.p3
            && if !x.hbAck || (t.AsMeant? && x.order == []) then x'.snd == x.snd
               else TrimBound(t, x, x'.snd.sync) && Dropped(x.snd, x'.snd, x'.snd.sync)
  {
    var x := s.hosts[h];
    if t.AsMeant? && x.order == [] {
      assert Syncs(x, x.order) == [];
    } else {
      AcknowledgedBound(t, x);
      var sync := Acknowledged(RuleOf(t), x.snd.sync, Syncs(x, x.order));
      TrimDrops(x.snd.(sync := sync), sync);
    }
  }

  lemma {:induction false} SyncsAll(x: Host, n: nat)
    requires n <= |x.order| && forall g :: g in x.order ==> g in x.peers
    ensures var acks := Syncs(x, x.order[..n]);
            |acks| == n && forall i :: 0 <= i < n ==> x.order[i] in x.peers && acks[i] == x.peers[x.order[i]].sync
  {
    if n > 0 {
      SyncsAll(x, n - 1);
      SyncsNext(x, x.order, n - 1);
    }
  }

  /** Quitting sends one leave to everybody. */
  lemma QuitStep(t: Reading, s: System, h: Id)
    requires h in s.hosts
    ensures Next(t, s, Quit(h)) == System(s.hosts, s.net + multiset{Leave(h)})
  {
    assert s.hosts[h := s.hosts[h]] == s.hosts && multiset([Leave(h)]) == multiset{Leave(h)};
  }

  // ----- What the network does -----

  /** Losing takes one copy of a packet, duplicating adds one to a packet that is there, and making up a
      gap report adds one; nothing else changes. */
  lemma NetworkStep(t: Reading, s: System, p: Packet, q: Packet)
    ensures var s' := Next(t, s, Lose(p));
            s'.hosts == s.hosts && s'.net[q] == if q == p && s.net[q] > 0 then s.net[q] - 1 else s.net[q]
    ensures var s' := Next(t, s, Duplicate(p));
            s'.hosts == s.hosts && s'.net[q] == if q == p && s.net[q] > 0 then s.net[q] + 1 else s.net[q]
    ensures p.Nack? ==> var s' := Next(t, s, Inject(p.id, p.to, p.nums));
                        s'.hosts == s.hosts && s'.net[q] == if q == p then s.net[q] + 1 else s.net[q]
  {
  }

  /** Nothing happens with a packet that is not there, or is for another host. */
  lemma IdlePacket(t: Reading, s: System, h: Id, p: Packet, stale: int)
    requires h !in s.hosts || p !in s.net || (p.Data? && p.dst.Some? && p.dst.value != h) || (p.Nack? && p.to != h)
    ensures Next(t, s, Deliver(h, p, stale)) == s
  {
  }

  /** Nothing happens at a host that is not there. */
  lemma IdleHost(t: Reading, s: System, h: Id, body: Payload, taken: bool)
    requires h !in s.hosts
    ensures Next(t, s, AppSend(h, body, taken)) == s && Next(t, s, Timer(h)) == s
    ensures Next(t, s, TrimAcked(h)) == s && Next(t, s, Quit(h)) == s
  {
  }
}
