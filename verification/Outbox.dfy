/** The sending half of the control block, with its buffer in a hash table. */
module Outboxes {
  import opened Text
  import opened Entries
  import opened IntTables
  import opened Receiver
  import opened SenderWindow

  /** The messages a table of buffers keeps. A buffer is filed under the number its header carries
      and not changed while it is, so the pointer to it stands for its payload. */
  ghost function Kept(m: map<int, Ptr>): map<int, Msg> {
    map k | k in m :: Msg(k, m[k])
  }

  lemma KeptChanges(m: map<int, Ptr>, k: int, d: Ptr)
    ensures Kept(m[k := d]) == Kept(m)[k := Msg(k, d)] && Kept(m - {k}) == Kept(m) - {k}
  {
  }

  class Outbox {
    const outbuf: IntTable
    var next: int
    var oldest: int
    var p1: int
    var p2: int
    var p3: int
    var sync: int

    ghost var kept: map<int, Msg>   // what the table stands for
    ghost var log: seq<Payload>     // everything sent
    ghost var Repr: set<object>

    /** No message is buffered under the number `n` or above. */
    ghost predicate Below(n: int)
      reads this, Repr
    {
      && this in Repr && outbuf in Repr && outbuf.Repr <= Repr && this !in outbuf.Repr
      && outbuf.Valid() && outbuf.size == 50 && kept == Kept(outbuf.m) && forall k :: k in kept ==> k < n
    }

    ghost predicate Valid()
      reads this, Repr
    {
      Below(next)
    }

    ghost function Sending(): Sender
      reads this
    {
      Sender(next, kept, oldest, p1, p2, p3, sync, log)
    }

    /** The buffer has 50 buckets and a pool of 20, whose tail is kept as meant. */
    constructor (sync: int)
      ensures Valid() && fresh(Repr) && Sending() == Start(sync)
    {
      var t := new IntTable(AsMeant, 50, 20);
      outbuf := t;
      next, oldest, p1, p2, p3, this.sync := 0, 0, 0, 0, 0, sync;
      kept, log := map[], [];
      Repr := {this} + t.Repr;
    }

    /** As long as the buffer is an interval of at most 50 messages, no two of them share a bucket. */
    lemma ShortChains()
      requires Valid() && Window(Sending()) && |kept| <= 50 && next <= WORD
      ensures forall b :: 0 <= b < |outbuf.table.bk.rows| ==> |outbuf.table.bk.rows[b]| <= 1
    {
      IntervalSize(kept.Keys, oldest, next);
      assert forall k :: k in outbuf.m ==> k in kept;
      outbuf.ShortChains(oldest);
    }

    /** The table refuses a key it has, so that the message is kept hangs on its number being new. */
    method File(body: Payload)
      requires Valid()
      modifies Repr
      ensures Below(next + 1) && fresh(Repr - old(Repr))
      ensures Sending() == old(Sending()).(outbuf := old(kept)[next := Msg(next, body)])
    {
      KeptChanges(outbuf.m, next, body);
      kept := kept[next := Msg(next, body)];
      var _ := outbuf.Put(next, body);
      assert outbuf.Valid() && this !in outbuf.Repr;
      Repr := Repr + outbuf.Repr;
    }

    method Put(body: Payload, taken: bool)
      requires Valid()
      modifies Repr
      ensures Valid() && fresh(Repr - old(Repr)) && Sending() == Send(old(Sending()), body, taken)
    {
      if taken {
        File(body);
        assert outbuf.Valid();
        next := next + 1;
        log := log + [body];
      }
    }

    method Find(num: int) returns (m: Option<Msg>)
      requires Valid()
      ensures m == if num in kept then Some(kept[num]) else None
    {
      var r := outbuf.Get(num);
      m := if r.Some? then Some(Msg(num, r.value)) else None;
    }

    /** One round of the trim. */
    method DropOldest()
      requires Valid()
      modifies Repr
      ensures Valid() && Repr == old(Repr) && Sending() == Trim(old(Sending()), old(oldest) + 1)
    {
      KeptChanges(outbuf.m, oldest, 0);
      kept := kept - {oldest};
      var _ := outbuf.Remove(oldest);
      oldest := oldest + 1;
    }

    /** The loop that drops messages from the buffer, number by number. */
    method TrimTo(bound: int)
      requires Valid()
      modifies Repr
      ensures Valid() && Repr == old(Repr) && Sending() == Trim(old(Sending()), bound)
    {
      ghost var start := Sending();
      while oldest < bound
        invariant Valid() && Repr == old(Repr)
        invariant start.oldest <= oldest && (start.oldest < oldest ==> oldest <= bound)
        invariant Sending() == Trim(start, oldest)
        decreases bound - oldest
      {
        TrimOneMore(start, oldest);
        DropOldest();
      }
    }

    /** Trimming to what was acknowledged. */
    method TrimToSync(sync: int)
      requires Valid()
      modifies Repr
      ensures Valid() && Repr == old(Repr) && Sending() == Trim(old(Sending()).(sync := sync), sync)
    {
      assert outbuf.Valid();
      this.sync := sync;
      TrimTo(sync);
    }

    /** The bookkeeping of a heartbeat: the shift of the three marks, and the trim. */
    method Mark()
      requires Valid()
      modifies Repr
      ensures Valid() && Repr == old(Repr) && Sending() == Beat(old(Sending()))
    {
      p3 := p2;
      p2 := p1;
      p1 := next;
      TrimTo(p3);
    }
  }

  lemma TrimOneMore(s: Sender, n: int)
    requires s.oldest <= n
    ensures Trim(Trim(s, n), n + 1) == Trim(s, n + 1)
  {
  }

  /** An interval has as many numbers as it is long. */
  lemma {:induction false} IntervalSize(s: set<int>, lo: int, hi: int)
    requires lo <= hi && forall k :: k in s <==> lo <= k < hi
    ensures |s| == hi - lo
    decreases hi - lo
  {
    if lo == hi {
      assert forall k :: k !in s;
      assert s == {};
    } else {
      IntervalSize(s - {hi - 1}, lo, hi - 1);
    }
  }
}
