/** The daemon's handlers on the control block, whose buffers, caches and member table are hash
    tables and whose member queue is a linked queue, against the step functions of Hosts. The
    pool of the buffer and the removal from the queue are taken as meant in both readings. */
module Daemons {
  import opened Text
  import opened Receiver
  import opened SenderWindow
  import opened Nacks
  import opened Hosts
  import opened Outboxes
  import opened MemberLists

  /** The key to what this module closes: a predicate of the form `forall d :: OpenDaemon(d) ==> P` is passed
      on as a whole by proofs that do not mention the key, and `assert OpenDaemon(0)` looks into it. */
  ghost predicate OpenDaemon(d: nat) {
    d >= 0
  }

  class Daemon {
    const text: Reading
    const id: Id
    const session: int
    const hbAck: bool
    const out: Outbox
    const members: Members

    ghost predicate Valid()
      reads out, out.Repr, members, members.owned
    {
      && out.Valid() && members.Valid() && members.text == text
      && out.Repr !! members.owned && members !in out.Repr
    }

    /** Everything the daemon may write to. */
    ghost function Own(): set<object>
      reads out, members
    {
      {out, members} + out.Repr + members.owned
    }

    /** Closed to those who just pass the daemon on. */
    ghost predicate Ready()
      reads out, members, Own()
    {
      forall d: nat {:trigger OpenDaemon(d)} :: OpenDaemon(d) ==> Valid()
    }

    /** The host this control block stands for. */
    ghost function View(): Host
      reads out, members
    {
      Host(id, session, hbAck, out.Sending(), members.peers, members.order)
    }

    constructor (text: Reading, id: Id, session: int, hbAck: bool, sync: int)
      ensures Valid() && fresh(out.Repr) && fresh(members) && fresh(members.owned) && this.text == text
      ensures View() == Host(id, session, hbAck, Start(sync), map[], [])
    {
      var o := new Outbox(sync);
      var m := new Members(text);
      this.text, this.id, this.session, this.hbAck := text, id, session, hbAck;
      out, members := o, m;
    }

    /** Sending an application message. */
    method SendData(body: Payload, taken: bool) returns (packets: seq<Packet>)
      requires Valid()
      modifies out.Repr
      ensures Valid() && fresh(out.Repr - old(out.Repr)) && (View(), packets) == HandleSend(old(View()), body, taken)
    {
      packets := if taken then [Data(id, None, Msg(out.next, body))] else [];
      out.Put(body, taken);
    }

    /** A heartbeat: the report on every member, the shift of the three marks, and the trim. */
    method SendHeartbeat() returns (packets: seq<Packet>)
      requires Valid()
      modifies out.Repr, members, members.owned
      ensures Valid() && out.Repr == old(out.Repr) && members.owned == old(members.owned)
      ensures (View(), packets) == HandleTimer(old(View()))
    {
      var acks: seq<Ack> := [];
      if hbAck {
        acks := CollectAcks();
      }
      packets := [Hbeat(id, out.next, session, acks)];
      out.Mark();
    }

    /** The loop over the member queue. */
    method CollectAcks() returns (acks: seq<Ack>)
      requires Valid()
      modifies members, members.owned
      ensures Valid() && members.owned == old(members.owned) && View() == old(View())
      ensures acks == AckList(View(), members.order)
    {
      acks := [];
      ghost var h := View();
      var n := members.Size();
      var itr := 0;
      while itr < n
        invariant 0 <= itr <= n == |members.order| && Valid() && members.owned == old(members.owned) && View() == h
        invariant acks == AckList(h, h.order[..itr])
      {
        var g, sequence, _ := members.At(itr);
        AckListNext(h, h.order, itr);
        acks := acks + [Ack(g, sequence)];
        itr := itr + 1;
      }
      assert h.order[..itr] == h.order;
    }

    /** Trimming by acknowledgements. As meant, a host without members does not trim. */
    method TrimByAcks()
      requires Valid()
      modifies out.Repr, members, members.owned
      ensures Valid() && out.Repr == old(out.Repr) && members.owned == old(members.owned)
      ensures View() == HandleTrim(text, old(View()))
    {
      if hbAck {
        var n, sync := TakeAcks();
        if text.AsWritten? || n > 0 {
          out.TrimToSync(sync);
        }
      }
    }

    /** The loop over the members' acknowledgements: as written the test's branch is empty and the
        assignment unconditional, as meant the least of this round is taken. */
    method TakeAcks() returns (n: int, sync: int)
      requires Valid()
      modifies members, members.owned
      ensures Valid() && members.owned == old(members.owned) && View() == old(View())
      ensures n == |Syncs(View(), members.order)|
      ensures sync == Acknowledged(RuleOf(text), out.sync, Syncs(View(), members.order))
    {
      ghost var h := View();
      n := members.Size();
      sync := out.sync;
      var itr := 0;
      while itr < n
        invariant 0 <= itr <= n == |members.order| && Valid() && members.owned == old(members.owned) && View() == h
        invariant |Syncs(h, h.order[..itr])| == itr
        invariant sync == Acknowledged(RuleOf(text), h.snd.sync, Syncs(h, h.order[..itr]))
      {
        var _, _, a := members.At(itr);
        SyncsNext(h, h.order, itr);
        AcknowledgedNext(RuleOf(text), h.snd.sync, Syncs(h, h.order[..itr]), a);
        if text.AsWritten? || itr == 0 || a < sync {
          sync := a;
        }
        itr := itr + 1;
      }
      assert h.order[..itr] == h.order;
    }

    /** The reply loop to a gap report: a count, the numbers, and whatever follows in the buffer. As
        written the count is taken not to include its own word. */
    method OnNack(dest: Id, words: seq<int>) returns (packets: seq<Packet>)
      requires Valid() && |words| > 0 && 1 <= words[0] < |words|
      ensures packets == Replies(View(), dest, Decode(text, words))
    {
      packets := [];
      var count := if text.AsWritten? then words[0] + 1 else words[0];
      ghost var nums := Decode(text, words);
      var itr := 1;
      while itr < count
        invariant 1 <= itr <= count == |nums| + 1 && packets == Replies(View(), dest, nums[..itr - 1])
      {
        assert nums[..itr][..itr - 1] == nums[..itr - 1] && nums[itr - 1] == words[itr];
        var m := out.Find(words[itr]);
        if m.Some? {
          packets := packets + [Data(id, Some(dest), m.value)];
        }
        itr := itr + 1;
      }
      assert nums[..itr - 1] == nums;
    }

    /** The gap report: as meant the scan covers the gap, as written it goes around the ring. */
    method Report(src: Id, num: int) returns (p: Packet)
      requires Valid() && src in members.peers
      ensures p == GapReport(text, id, src, members.peers[src].mem, num)
    {
      var list := members.ToAsk(src, num);
      p := Nack(if text.AsWritten? then src else id, src, list);
    }

    /** A data packet. */
    method OnDataPacket(src: Id, m: Msg) returns (packets: seq<Packet>)
      requires Valid()
      modifies members, members.owned
      ensures Valid() && fresh(members.owned - old(members.owned))
      ensures (View(), packets) == HandleData(text, old(View()), src, m)
    {
      packets := [];
      var known, gap := members.Receive(src, m);
      if gap {
        var p := Report(src, m.num);
        packets := [p];
      }
    }

    /** The first acknowledgement for this host in a heartbeat. */
    method FindAck(acks: seq<Ack>) returns (r: Option<int>)
      ensures r == AckFor(acks, id)
    {
      r := None;
      var itr := 0;
      while itr < |acks|
        invariant 0 <= itr <= |acks| && r == None && AckFor(acks, id) == AckFor(acks[itr..], id)
      {
        if acks[itr].id == id {
          return Some(acks[itr].num);
        }
        assert acks[itr..][1..] == acks[itr + 1..];
        itr := itr + 1;
      }
    }

    /** Registering an unknown member, or restarting a known one whose session changed. */
    method Register(src: Id, num: int, session: int)
      requires Valid()
      modifies members, members.owned
      ensures Valid() && fresh(members.owned - old(members.owned))
      ensures View() == Greet(old(View()), src, num, session) && src in members.peers
    {
      members.Register(src, num, session);
    }

    /** Noting the acknowledgement, if there is one. */
    method NoteAck(src: Id, ack: Option<int>)
      requires Valid() && src in members.peers
      modifies members, members.owned
      ensures Valid() && members.owned == old(members.owned)
      ensures var p := old(members.peers)[src];
              View() == old(View()).(peers := old(members.peers)[src := if ack.Some? then p.(sync := ack.value) else p])
    {
      if ack.Some? {
        members.NoteAck(src, ack.value);
      } else {
        assert members.peers[src := members.peers[src]] == members.peers;
      }
    }

    /** The gap report of a heartbeat, if there is a gap. */
    method ReportGap(src: Id, num: int) returns (packets: seq<Packet>)
      requires Valid() && src in members.peers
      ensures var r := members.peers[src].mem;
              packets == if Gap(r, num) then [GapReport(text, id, src, r, num)] else []
    {
      packets := [];
      var gap := members.IsGap(src, num);
      if gap {
        var p := Report(src, num);
        packets := [p];
      }
    }

    /** A heartbeat from another host. */
    method OnHeartbeat(src: Id, num: int, session: int, acks: seq<Ack>) returns (packets: seq<Packet>)
      requires Valid()
      modifies members, members.owned
      ensures Valid() && fresh(members.owned - old(members.owned))
      ensures (View(), packets) == HandleHbeat(text, old(View()), src, num, session, acks)
    {
      Register(src, num, session);
      var ack := FindAck(acks);
      packets := ReportGap(src, num);
      NoteAck(src, ack);
    }

    /** A member leaves: it goes from the table and from the queue. */
    method OnLeave(src: Id)
      requires Valid()
      modifies members, members.owned
      ensures Valid() && members.owned == old(members.owned) && View() == HandleLeave(old(View()), src)
    {
      members.Leave(src);
    }
  }
}
