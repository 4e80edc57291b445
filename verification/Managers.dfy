/** The data branch of the manager, which keeps one mark for what was last heard and one for
    what was handed up, and drains its cache by the wrong one. */
module Managers {
  import opened Text
  import opened Receiver

  /** The arrival of a data message at the manager: the drain looks up the arriving number
      again and again, so at most one cached message goes. */
  function OnDataManager(r: Member, m: Msg): Member {
    if m.num == r.sequence + 1 then
      var r1 := r.(sequence := m.num, handed := r.handed + [m]);
      if m.num in r.cache then
        r1.(sequence := m.num + 1, cache := r.cache - {m.num}, handed := r1.handed + [r.cache[m.num]])
      else r1
    else if r.sequence < m.num then
      r.(cache := if m.num in r.cache then r.cache else r.cache[m.num := m])
    else r
  }

  function ReceiveManager(r: Member, ms: seq<Msg>): Member {
    if ms == [] then r else OnDataManager(ReceiveManager(r, ms[..|ms| - 1]), ms[|ms| - 1])
  }

  /** The manager's record of a peer: the marks `sequence_sent` and `sequence_rcvd` and the cache. */
  class PeerRecord {
    var sent: int
    var rcvd: int
    var unseq: map<int, Msg>

    ghost var base: int
    ghost var handed: seq<Msg>

    ghost function Stream(): Member
      reads this
    {
      Member(base, rcvd, unseq, handed)
    }

    /** The mark of what was heard does not move while draining, so the loop ends after one round. */
    method Receive(m: Msg)
      modifies this
      ensures Stream() == OnDataManager(old(Stream()), m) && sent == m.num
    {
      sent := m.num;
      if rcvd + 1 != m.num {
        if rcvd < m.num && m.num !in unseq {
          unseq := unseq[m.num := m];
        }
      } else {
        handed := handed + [m];
        rcvd := rcvd + 1;
        ghost var first := Stream();
        while sent in unseq
          invariant sent == m.num && base == old(base)
          invariant if m.num in unseq then Stream() == first
                    else Stream() == OnDataManager(old(Stream()), m)
          decreases unseq.Keys
        {
          handed := handed + [unseq[sent]];
          unseq := unseq - {sent};
          rcvd := rcvd + 1;
        }
      }
    }
  }

  lemma ManagerGrows(r: Member, m: Msg)
    ensures var r' := OnDataManager(r, m); r'.base == r.base && r.handed <= r'.handed
  {
  }

  /** As long as the log is in order, the manager and version 0.1 are in the same state. */
  lemma ManagerStep(r: Member, m: Msg)
    requires Steady(r) && InOrder(r)
    ensures InOrder(OnDataManager(r, m)) <==> !(m.num == r.sequence + 1 && m.num in r.cache)
    ensures InOrder(OnDataManager(r, m)) ==> OnDataManager(r, m) == OnData(AsWritten, r, m)
  {
    var r' := OnDataManager(r, m);
    if m.num == r.sequence + 1 {
      var r1 := r.(sequence := m.num, handed := r.handed + [m]);
      if m.num in r.cache {
        assert r'.handed[|r.handed| + 1].num == m.num;
      } else {
        assert Drain(AsWritten, r1) == r1;
      }
    }
  }

  /** The manager's log of a whole run is in order exactly when no arrival is both next in order
      and a repeat, just as in version 0.1; and then every early message is stuck in its cache. */
  lemma {:induction false} ManagerExact(base: int, ms: seq<Msg>)
    ensures var r := ReceiveManager(Joined(base), ms);
            && (InOrder(r) <==> forall i :: 0 <= i < |ms| ==> !RepeatInOrder(base, ms, i))
            && (InOrder(r) ==> r == Receive(AsWritten, Joined(base), ms) && Stuck(r, base, ms))
            && r.base == base
  {
    AsWrittenExact(base, ms);
    if ms != [] {
      var front, m := ms[..|ms| - 1], ms[|ms| - 1];
      var r := ReceiveManager(Joined(base), front);
      ManagerExact(base, front);
      AsWrittenExact(base, front);
      ManagerGrows(r, m);
      if InOrder(r) {
        ManagerStep(r, m);
        OnDataExact(r, m);
      } else {
        var i :| 0 <= i < |r.handed| && r.handed[i].num != base + 1 + i;
        assert OnDataManager(r, m).handed[i] == r.handed[i];
        var j :| 0 <= j < |front| && RepeatInOrder(base, front, j);
        assert front[..j] == ms[..j];
        assert RepeatInOrder(base, ms, j);
      }
    }
  }

  /** With base 0 and arrivals 3, 2, 1, 2 version 0.1 goes on to drain message 3; the manager does not. */
  lemma ManagerStopsShort(a: Payload, b: Payload, c: Payload)
    ensures var m1, m2, m3 := Msg(1, a), Msg(2, b), Msg(3, c);
            var r := Member(0, 1, map[2 := m2, 3 := m3], [m1]);
            && OnDataManager(r, m2) == Member(0, 3, map[3 := m3], [m1, m2, m2])
            && OnData(AsWritten, r, m2) == Member(0, 4, map[], [m1, m2, m2, m3])
  {
    var m1, m2, m3 := Msg(1, a), Msg(2, b), Msg(3, c);
    var both, late := map[2 := m2, 3 := m3], map[3 := m3];
    assert both - {2} == late && late - {3} == map[];
    assert [m1] + [m2] == [m1, m2] && [m1, m2] + [m2] == [m1, m2, m2] && [m1, m2, m2] + [m3] == [m1, m2, m2, m3];
    assert Drain(AsWritten, Member(0, 4, map[], [m1, m2, m2, m3])) == Member(0, 4, map[], [m1, m2, m2, m3]);
    assert Drain(AsWritten, Member(0, 3, late, [m1, m2, m2])) == Member(0, 4, map[], [m1, m2, m2, m3]);
    assert Drain(AsWritten, Member(0, 2, both, [m1, m2])) == Member(0, 4, map[], [m1, m2, m2, m3]);
  }
}
