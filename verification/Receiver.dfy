/** One receiver's view of one sender: what it hands up and what it keeps for later. */
module Receiver {
  import opened Text

  type Payload = int

  /** A data message with the number its header carries. */
  datatype Msg = Msg(num: int, body: Payload)

  /** `sequence` is the last number handed up and starts at `base`; `cache` is
      `unseq_msgs`; `handed` is what has been written to the application, in order. */
  datatype Member = Member(base: int, sequence: int, cache: map<int, Msg>, handed: seq<Msg>)

  function Joined(base: int): Member {
    Member(base, base, map[], [])
  }

  /** The number the drain loop looks up: as written it is the one just handed up. */
  function Wanted(t: Reading, sequence: int): int {
    if t.AsWritten? then sequence else sequence + 1
  }

  /** Handing up cached messages as long as the wanted number is cached. */
  function Drain(t: Reading, r: Member): Member
    decreases r.cache.Keys
  {
    var k := Wanted(t, r.sequence);
    if k in r.cache then
      Drain(t, r.(sequence := r.sequence + 1, cache := r.cache - {k}, handed := r.handed + [r.cache[k]]))
    else r
  }

  /** The arrival of a data message. */
  function OnData(t: Reading, r: Member, m: Msg): Member {
    if m.num == r.sequence + 1 then
      Drain(t, r.(sequence := r.sequence + 1, handed := r.handed + [m]))
    else if r.sequence < m.num then
      r.(cache := if m.num in r.cache then r.cache else r.cache[m.num := m])
    else r
  }

  /** The arrival of `ms`, one after the other. */
  function Receive(t: Reading, r: Member, ms: seq<Msg>): Member {
    if ms == [] then r else OnData(t, Receive(t, r, ms[..|ms| - 1]), ms[|ms| - 1])
  }

  ghost function Nums(ms: seq<Msg>): set<int> {
    set m | m in ms :: m.num
  }

  // ----- What one drain takes, in either reading -----

  /** `r'` is `r` after handing up the `n` cached messages numbered from `first` on. */
  ghost predicate Took(r: Member, r': Member, first: int, n: nat) {
    && r'.base == r.base && r'.sequence == r.sequence + n && |r'.handed| == |r.handed| + n && r.handed <= r'.handed
    && (forall k :: first <= k < first + n ==> k in r.cache && r'.handed[|r.handed| + k - first] == r.cache[k])
    && (forall k :: k in r'.cache <==> k in r.cache && !(first <= k < first + n))
    && (forall k :: k in r'.cache ==> r'.cache[k] == r.cache[k])
  }

  lemma TookKeeps(r: Member, r': Member, first: int, n: nat)
    requires Took(r, r', first, n)
    ensures r'.base == r.base && r.handed <= r'.handed
  {
  }

  /** The drain hands up, in order, the cached messages with consecutive numbers, as meant from the
      next number on and as written from the last one, up to the first that is not there. */
  lemma {:induction false} DrainTakesRun(t: Reading, r: Member) returns (n: nat)
    ensures var first := if t.AsMeant? then r.sequence + 1 else r.sequence;
            Took(r, Drain(t, r), first, n) && first + n !in r.cache
    decreases r.cache.Keys
  {
    n := 0;
    var k := Wanted(t, r.sequence);
    if k in r.cache {
      var r1 := r.(sequence := r.sequence + 1, cache := r.cache - {k}, handed := r.handed + [r.cache[k]]);
      assert Drain(t, r) == Drain(t, r1);
      var n1 := DrainTakesRun(t, r1);
      n := n1 + 1;
      TookOneMore(r, r1, Drain(t, r1), k, n1);
    } else {
      assert Drain(t, r) == r;
    }
  }

  lemma TookOneMore(r: Member, r1: Member, r': Member, k: int, n: nat)
    requires k in r.cache
    requires r1 == r.(sequence := r.sequence + 1, cache := r.cache - {k}, handed := r.handed + [r.cache[k]])
    requires Took(r1, r', k + 1, n)
    ensures Took(r, r', k, n + 1)
  {
    assert r.handed <= r1.handed <= r'.handed;
    forall x | k <= x < k + n + 1
      ensures x in r.cache && r'.handed[|r.handed| + x - k] == r.cache[x]
    {
      if x == k {
        assert r'.handed[|r.handed|] == r1.handed[|r.handed|];
      } else {
        assert x in r1.cache;
      }
    }
  }

  // ----- As meant: the state is a function of the set of arrived numbers -----

  ghost predicate Authentic(ms: seq<Msg>, body: int -> Payload) {
    forall m :: m in ms ==> m.body == body(m.num)
  }

  /** All numbers after `base` up to `sequence` arrived and were handed up in order;
      what arrived beyond is cached, and nothing else is. */
  ghost predicate Accounted(r: Member, arrived: set<int>, body: int -> Payload) {
    && r.base <= r.sequence
    && (forall k :: r.base < k <= r.sequence ==> k in arrived)
    && (forall k :: k in r.cache <==> k in arrived && k > r.sequence)
    && (forall k :: k in r.cache ==> r.cache[k] == Msg(k, body(k)))
    && |r.handed| == r.sequence - r.base
    && (forall i :: 0 <= i < |r.handed| ==> r.handed[i] == Msg(r.base + 1 + i, body(r.base + 1 + i)))
  }

  /** Besides, the next number has not arrived, so `sequence` is the largest possible. */
  ghost predicate Settled(r: Member, arrived: set<int>, body: int -> Payload) {
    Accounted(r, arrived, body) && r.sequence + 1 !in arrived
  }

  lemma {:induction false} DrainSettles(r: Member, arrived: set<int>, body: int -> Payload)
    requires Accounted(r, arrived, body)
    ensures Settled(Drain(AsMeant, r), arrived, body) && Drain(AsMeant, r).base == r.base
    ensures r.sequence <= Drain(AsMeant, r).sequence
    decreases r.cache.Keys
  {
    var k := r.sequence + 1;
    if k in r.cache {
      DrainSettles(r.(sequence := k, cache := r.cache - {k}, handed := r.handed + [r.cache[k]]), arrived, body);
    }
  }

  lemma OnDataSettles(r: Member, arrived: set<int>, body: int -> Payload, m: Msg)
    requires Settled(r, arrived, body) && m.body == body(m.num)
    ensures Settled(OnData(AsMeant, r, m), arrived + {m.num}, body)
    ensures OnData(AsMeant, r, m).base == r.base && r.sequence <= OnData(AsMeant, r, m).sequence
  {
    if m.num == r.sequence + 1 {
      DrainSettles(r.(sequence := r.sequence + 1, handed := r.handed + [m]), arrived + {m.num}, body);
    }
  }

  lemma NumsNext(ms: seq<Msg>)
    requires ms != []
    ensures Nums(ms) == Nums(ms[..|ms| - 1]) + {ms[|ms| - 1].num}
  {
  }

  /** As meant, after any arrivals in any order and multiplicity: `sequence` is the
      largest number up to which everything arrived, the cache is exactly the arrivals
      beyond it, and what was handed up is everything up to it, once and in order. */
  lemma {:induction false} ReceiveSettles(base: int, ms: seq<Msg>, body: int -> Payload)
    requires Authentic(ms, body)
    ensures Settled(Receive(AsMeant, Joined(base), ms), Nums(ms), body)
    ensures Receive(AsMeant, Joined(base), ms).base == base
  {
    if ms != [] {
      var front := ms[..|ms| - 1];
      ReceiveSettles(base, front, body);
      assert ms[|ms| - 1] in ms;
      OnDataSettles(Receive(AsMeant, Joined(base), front), Nums(front), body, ms[|ms| - 1]);
      NumsNext(ms);
    }
  }

  lemma SettledUnique(r: Member, r': Member, arrived: set<int>, body: int -> Payload)
    requires Settled(r, arrived, body) && Settled(r', arrived, body) && r.base == r'.base
    ensures r == r'
  {
    assert r.sequence + 1 !in arrived && r'.sequence + 1 !in arrived;
    assert r.sequence == r'.sequence;
    forall k
      ensures k in r.cache <==> k in r'.cache
      ensures k in r.cache ==> r.cache[k] == r'.cache[k]
    {
      assert k in r.cache <==> k in arrived && k > r.sequence;
    }
    assert r.cache == r'.cache;
    assert r.handed == r'.handed;
  }

  /** As meant, order and multiplicity of the arrivals do not matter. */
  lemma {:induction false} OrderIrrelevant(base: int, ms: seq<Msg>, ms': seq<Msg>, body: int -> Payload)
    requires Authentic(ms, body) && Authentic(ms', body) && Nums(ms) == Nums(ms')
    ensures Receive(AsMeant, Joined(base), ms) == Receive(AsMeant, Joined(base), ms')
  {
    ReceiveSettles(base, ms, body);
    ReceiveSettles(base, ms', body);
    SettledUnique(Receive(AsMeant, Joined(base), ms), Receive(AsMeant, Joined(base), ms'), Nums(ms), body);
  }

  // ----- As written: line 410 looks up the number just handed up -----

  /** What every run as written keeps. */
  ghost predicate Steady(r: Member) {
    && |r.handed| == r.sequence - r.base
    && (forall k :: k in r.cache ==> k > r.sequence && r.cache[k].num == k)
  }

  lemma {:induction false} DrainSteady(r: Member)
    requires |r.handed| == r.sequence - r.base
    requires forall k :: k in r.cache ==> k >= r.sequence && r.cache[k].num == k
    ensures Steady(Drain(AsWritten, r)) && Drain(AsWritten, r).base == r.base
    ensures r.handed <= Drain(AsWritten, r).handed
    decreases r.cache.Keys
  {
    var k := r.sequence;
    if k in r.cache {
      DrainSteady(r.(sequence := k + 1, cache := r.cache - {k}, handed := r.handed + [r.cache[k]]));
    }
  }

  /** As written: `sequence` rises by exactly one for each payload handed up, and every
      cached number stays above it. */
  lemma OnDataSteady(r: Member, m: Msg)
    requires Steady(r)
    ensures var r' := OnData(AsWritten, r, m);
            Steady(r') && r'.base == r.base && r.handed <= r'.handed
            && r'.sequence - r.sequence == |r'.handed| - |r.handed|
  {
    if m.num == r.sequence + 1 {
      DrainSteady(r.(sequence := r.sequence + 1, handed := r.handed + [m]));
    }
  }

  lemma {:induction false} ReceiveSteady(base: int, ms: seq<Msg>)
    ensures Steady(Receive(AsWritten, Joined(base), ms)) && Receive(AsWritten, Joined(base), ms).base == base
  {
    if ms != [] {
      ReceiveSteady(base, ms[..|ms| - 1]);
      OnDataSteady(Receive(AsWritten, Joined(base), ms[..|ms| - 1]), ms[|ms| - 1]);
    }
  }

  /** The log handed up is gap-free and repeat-free: numbers `base + 1`, `base + 2`, and so on. */
  ghost predicate InOrder(r: Member) {
    forall i :: 0 <= i < |r.handed| ==> r.handed[i].num == r.base + 1 + i
  }

  /** One arrival as written keeps the log in order exactly when it is not an in-order
      message whose number is already cached. */
  lemma OnDataExact(r: Member, m: Msg)
    requires Steady(r) && InOrder(r)
    ensures InOrder(OnData(AsWritten, r, m)) <==> !(m.num == r.sequence + 1 && m.num in r.cache)
  {
    if m.num == r.sequence + 1 {
      var r1 := r.(sequence := m.num, handed := r.handed + [m]);
      if m.num in r.cache {
        var r2 := r1.(sequence := m.num + 1, cache := r1.cache - {m.num}, handed := r1.handed + [r1.cache[m.num]]);
        DrainSteady(r2);
        assert Drain(AsWritten, r1) == Drain(AsWritten, r2);
        var bad := |r.handed| + 1;
        assert r2.handed[bad].num == m.num;
        assert Drain(AsWritten, r2).handed[bad] == r2.handed[bad];
      } else {
        assert Drain(AsWritten, r1) == r1;
      }
    }
  }

  /** The last number a receiver without any cache would have handed up. */
  function Cacheless(base: int, ms: seq<Msg>): int {
    if ms == [] then base
    else var s := Cacheless(base, ms[..|ms| - 1]); if ms[|ms| - 1].num == s + 1 then s + 1 else s
  }

  /** Message `i` is the next one for the receiver without a cache, and arrived before. */
  ghost predicate RepeatInOrder(base: int, ms: seq<Msg>, i: nat)
    requires i < |ms|
  {
    ms[i].num == Cacheless(base, ms[..i]) + 1 && ms[i].num in Nums(ms[..i])
  }

  /** As long as nothing is handed up twice, the receiver as written never gets past what
      a receiver without a cache reaches, and keeps every early message for good. */
  ghost predicate Stuck(r: Member, base: int, ms: seq<Msg>) {
    && r.base == base && Steady(r) && InOrder(r)
    && r.sequence == Cacheless(base, ms)
    && (forall k :: k in r.cache <==> k in Nums(ms) && k > r.sequence)
  }

  /** As written, the log of a whole run is in order exactly when no arrival is both next
      in order and a repeat; and then the cache never served any purpose. */
  lemma {:induction false} AsWrittenExact(base: int, ms: seq<Msg>)
    ensures var r := Receive(AsWritten, Joined(base), ms);
            InOrder(r) <==> forall i :: 0 <= i < |ms| ==> !RepeatInOrder(base, ms, i)
    ensures var r := Receive(AsWritten, Joined(base), ms); InOrder(r) ==> Stuck(r, base, ms)
  {
    if ms != [] {
      var front, m := ms[..|ms| - 1], ms[|ms| - 1];
      var r := Receive(AsWritten, Joined(base), front);
      AsWrittenExact(base, front);
      ReceiveSteady(base, front);
      OnDataSteady(r, m);
      NumsNext(ms);
      forall i | 0 <= i < |front|
        ensures RepeatInOrder(base, front, i) <==> RepeatInOrder(base, ms, i)
      {
        assert front[..i] == ms[..i];
      }
      if InOrder(r) {
        OnDataExact(r, m);
        assert m.num == r.sequence + 1 && m.num in r.cache <==> RepeatInOrder(base, ms, |front|);
      } else {
        var i :| 0 <= i < |r.handed| && r.handed[i].num != base + 1 + i;
        assert OnData(AsWritten, r, m).handed[i] == r.handed[i];
      }
    }
  }

  /** With base 0 and arrivals 1, 3, 2, 3 the receiver as written hands up 1, 2, 3, 3 and
      goes on to wait for 5; as meant it hands up 1, 2, 3. */
  lemma AsWrittenRepeats(a: Payload, b: Payload, c: Payload)
    ensures var ms := [Msg(1, a), Msg(3, c), Msg(2, b), Msg(3, c)];
            && Receive(AsWritten, Joined(0), ms) == Member(0, 4, map[], [Msg(1, a), Msg(2, b), Msg(3, c), Msg(3, c)])
            && Receive(AsMeant, Joined(0), ms) == Member(0, 3, map[], [Msg(1, a), Msg(2, b), Msg(3, c)])
  {
    var m1, m2, m3 := Msg(1, a), Msg(2, b), Msg(3, c);
    var ms := [m1, m3, m2, m3];
    assert ms[..3] == [m1, m3, m2] && [m1, m3, m2][..2] == [m1, m3] && [m1, m3][..1] == [m1] && [m1][..0] == [];
    var early := map[3 := m3];
    assert early - {3} == map[];
    forall t: Reading
      ensures Receive(t, Joined(0), [m1, m3]) == Member(0, 1, early, [m1])
    {
      assert Receive(t, Joined(0), [m1]) == Member(0, 1, map[], [m1]);
    }
    var w := Member(0, 2, early, [m1, m2]);
    assert [m1] + [m2] == [m1, m2] && [m1, m2] + [m3] == [m1, m2, m3] && [m1, m2, m3] + [m3] == [m1, m2, m3, m3];
    assert Drain(AsWritten, w) == w;
    assert Drain(AsWritten, Member(0, 3, early, [m1, m2, m3])) == Member(0, 4, map[], [m1, m2, m3, m3]);
    assert Drain(AsMeant, w) == Member(0, 3, map[], [m1, m2, m3]);
    assert Receive(AsMeant, Joined(0), [m1, m3, m2]) == Member(0, 3, map[], [m1, m2, m3]);
    assert Receive(AsWritten, Joined(0), [m1, m3, m2]) == w;
  }

  /** Message `i` is the next one for the receiver without a cache, and its successor arrived before. */
  ghost predicate FillsGap(base: int, ms: seq<Msg>, i: nat)
    requires i < |ms|
  {
    ms[i].num == Cacheless(base, ms[..i]) + 1 && ms[i].num + 1 in Nums(ms[..i])
  }

  /** A number that arrived early stays in the way: as written the receiver waits below it
      or has handed something up twice. */
  ghost predicate Blocked(r: Member, x: int) {
    Steady(r) && (InOrder(r) ==> x in r.cache)
  }

  lemma OnDataBlocked(r: Member, m: Msg, x: int)
    requires Blocked(r, x)
    ensures Blocked(OnData(AsWritten, r, m), x)
  {
    OnDataSteady(r, m);
    if InOrder(r) {
      OnDataExact(r, m);
      if m.num == r.sequence + 1 && m.num !in r.cache {
        var r1 := r.(sequence := m.num, handed := r.handed + [m]);
        assert Drain(AsWritten, r1) == r1;
      }
    } else {
      var i :| 0 <= i < |r.handed| && r.handed[i].num != r.base + 1 + i;
      assert OnData(AsWritten, r, m).handed[i] == r.handed[i];
    }
  }

  lemma SettledSteady(r: Member, arrived: set<int>, body: int -> Payload)
    requires Settled(r, arrived, body)
    ensures Steady(r) && InOrder(r)
  {
  }

  /** From a common state, the readings part exactly when the next number arrives and its successor is cached. */
  lemma PartingStep(r: Member, arrived: set<int>, body: int -> Payload, m: Msg)
    requires Settled(r, arrived, body) && m.body == body(m.num)
    ensures var w', r' := OnData(AsWritten, r, m), OnData(AsMeant, r, m);
            && (w' == r' <==> !(m.num == r.sequence + 1 && m.num + 1 in arrived))
            && (w' != r' ==> Blocked(w', m.num + 1) && m.num + 1 <= r'.sequence)
            && (w' == r' ==> r'.sequence == if m.num == r.sequence + 1 then m.num else r.sequence)
  {
    SettledSteady(r, arrived, body);
    OnDataSteady(r, m);
    OnDataSettles(r, arrived, body, m);
    if m.num == r.sequence + 1 {
      var r1 := r.(sequence := m.num, handed := r.handed + [m]);
      assert Drain(AsWritten, r1) == r1;
      if m.num + 1 in arrived {
        assert OnData(AsMeant, r, m).sequence + 1 !in arrived + {m.num};
      } else {
        assert Drain(AsMeant, r1) == r1;
      }
    }
  }

  /** The readings have parted for good: as written the receiver is blocked at a number the other has passed. */
  ghost predicate Parted(w: Member, r: Member) {
    exists x :: Blocked(w, x) && x <= r.sequence
  }

  lemma PartedStays(w: Member, r: Member, arrived: set<int>, body: int -> Payload, m: Msg)
    requires Parted(w, r) && Settled(r, arrived, body) && m.body == body(m.num)
    ensures Parted(OnData(AsWritten, w, m), OnData(AsMeant, r, m))
  {
    var x :| Blocked(w, x) && x <= r.sequence;
    OnDataBlocked(w, m, x);
    OnDataSettles(r, arrived, body, m);
  }

  lemma PartedDiffer(w: Member, r: Member, arrived: set<int>, body: int -> Payload)
    requires Parted(w, r) && Settled(r, arrived, body)
    ensures w != r
  {
  }

  ghost predicate NeverFillsGap(base: int, ms: seq<Msg>) {
    ms != [] ==> NeverFillsGap(base, ms[..|ms| - 1]) && !FillsGap(base, ms, |ms| - 1)
  }

  lemma {:induction false} NeverFillsEach(base: int, ms: seq<Msg>)
    ensures NeverFillsGap(base, ms) <==> forall i :: 0 <= i < |ms| ==> !FillsGap(base, ms, i)
  {
    if ms != [] {
      var front := ms[..|ms| - 1];
      NeverFillsEach(base, front);
      forall i | 0 <= i < |front|
        ensures FillsGap(base, front, i) <==> FillsGap(base, ms, i)
      {
        assert front[..i] == ms[..i];
      }
    }
  }

  lemma {:induction false} AgreeOrPart(base: int, ms: seq<Msg>, body: int -> Payload)
    requires Authentic(ms, body)
    ensures var w, r := Receive(AsWritten, Joined(base), ms), Receive(AsMeant, Joined(base), ms);
            if NeverFillsGap(base, ms) then w == r && r.sequence == Cacheless(base, ms) else Parted(w, r)
  {
    if ms != [] {
      var front, m := ms[..|ms| - 1], ms[|ms| - 1];
      var w, r := Receive(AsWritten, Joined(base), front), Receive(AsMeant, Joined(base), front);
      AgreeOrPart(base, front, body);
      ReceiveSettles(base, front, body);
      assert m in ms;
      if NeverFillsGap(base, front) {
        PartingStep(r, Nums(front), body, m);
      } else {
        PartedStays(w, r, Nums(front), body, m);
      }
    }
  }

  /** Both readings of the drain end in the same state exactly when no in-order arrival
      ever finds its successor waiting, that is, when there is never anything to drain. */
  lemma {:induction false} AsWrittenAgreesExactly(base: int, ms: seq<Msg>, body: int -> Payload)
    requires Authentic(ms, body)
    ensures Receive(AsWritten, Joined(base), ms) == Receive(AsMeant, Joined(base), ms)
            <==> forall i :: 0 <= i < |ms| ==> !FillsGap(base, ms, i)
  {
    AgreeOrPart(base, ms, body);
    NeverFillsEach(base, ms);
    ReceiveSettles(base, ms, body);
    var w, r := Receive(AsWritten, Joined(base), ms), Receive(AsMeant, Joined(base), ms);
    if Parted(w, r) {
      PartedDiffer(w, r, Nums(ms), body);
    }
  }
}
