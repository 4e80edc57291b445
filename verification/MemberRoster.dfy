/** The member table and the member queue side by side on the heap, over whole runs. */
module MemberRosters {
  import opened Text
  import opened MQueues
  import opened Queues
  import opened IntTables
  import Rosters

  /** The key to what this module closes: a predicate of the form `forall d :: OpenRoster(d) ==> P` is passed
      on as a whole by proofs that do not mention the key, and `assert OpenRoster(0)` looks into it. */
  ghost predicate OpenRoster(d: nat) {
    d >= 0
  }

  /** Table and queue hold the same member records, each under one id and each once. */
  ghost predicate Same(m: map<int, Ptr>, q: seq<Ptr>) {
    && (forall k :: k in m ==> m[k] in q)
    && (forall p :: p in q ==> exists k :: k in m && m[k] == p)
    && (forall k, k' :: k in m && k' in m && m[k] == m[k'] ==> k == k')
    && NoRepeat(q)
  }

  lemma SameHas(m: map<int, Ptr>, q: seq<Ptr>, p: Ptr) returns (k: int)
    requires Same(m, q) && p in q
    ensures k in m && m[k] == p
  {
    k :| k in m && m[k] == p;
  }

  lemma SameAdd(m: map<int, Ptr>, q: seq<Ptr>, id: int, p: Ptr)
    requires Same(m, q) && id !in m && p !in q
    ensures Same(m[id := p], [p] + q)
  {
    var m' := m[id := p];
    assert m'[id] == p;
    forall x | x in q
      ensures exists k :: k in m' && m'[k] == x
    {
      var k :| k in m && m[k] == x;
      assert m'[k] == x;
    }
  }

  lemma SameRemove(m: map<int, Ptr>, q: seq<Ptr>, id: int)
    requires Same(m, q) && id in m
    ensures Same(m - {id}, Without(q, m[id]))
  {
    Rosters.WithoutHas(q, m[id]);
    forall x | x in Without(q, m[id])
      ensures exists k :: k in m - {id} && (m - {id})[k] == x
    {
      var k :| k in m && m[k] == x;
      assert k in m - {id};
    }
  }

  class Roster {
    const table: IntTable
    const queue: Queue
    ghost var m: map<int, Ptr>   // what the table stands for
    ghost var s: seq<Ptr>        // what the queue stands for
    ghost var Repr: set<object>

    /** Table and queue are in order and share nothing. */
    ghost predicate Parts()
      reads this, table, queue, table.Repr, queue.Repr
    {
      table.Valid() && queue.Valid() && table.Repr !! queue.Repr && this !in table.Repr && this !in queue.Repr
    }

    ghost predicate Inner()
      reads this, Repr
    {
      && this in Repr && table in Repr && queue in Repr && table.Repr <= Repr && queue.Repr <= Repr
      && Parts() && m == table.m && s == queue.s
    }

    /** Table and queue hold the same records. The rest is closed to those who use the roster. */
    ghost predicate Valid()
      reads this, Repr
    {
      this in Repr && Same(m, s) && forall d: nat {:trigger OpenRoster(d)} :: OpenRoster(d) ==> Inner()
    }

    /** Both are set up without a pool. */
    constructor (text: Reading)
      ensures Valid() && fresh(Repr) && m == map[] && s == []
    {
      var t := new IntTable(text, 20, 0);
      var q := new Queue(text, 0);
      table, queue := t, q;
      m, s := map[], [];
      Repr := {this} + t.Repr + q.Repr;
      new;
      assert Parts();
      assert Inner();
    }

    method Find(id: int) returns (mem: Option<Ptr>)
      requires Valid()
      ensures mem == if id in m then Some(m[id]) else None
    {
      assert OpenRoster(0);
      mem := table.Get(id);
    }

    method Size() returns (n: int)
      requires Valid()
      ensures n == |s|
    {
      assert OpenRoster(0);
      n := queue.Size();
    }

    /** The record at position `i` of the queue; only the cursor moves. */
    method RecordAt(i: int) returns (mem: Ptr)
      requires Valid() && 0 <= i < |s|
      modifies Repr
      ensures Valid() && Repr == old(Repr) && m == old(m) && s == old(s) && mem == s[i]
    {
      assert OpenRoster(0);
      mem := queue.PeekAt(i);
    }

    method PutRecord(id: int, mem: Ptr)
      requires Parts() && id !in table.m
      modifies table.Repr
      ensures Parts() && table.m == old(table.m)[id := mem] && fresh(table.Repr - old(table.Repr))
      ensures queue.s == old(queue.s) && queue.Repr == old(queue.Repr)
    {
      var _ := table.Put(id, mem);
    }

    method QueueRecord(mem: Ptr)
      requires Parts()
      modifies queue.Repr
      ensures Parts() && queue.s == [mem] + old(queue.s) && fresh(queue.Repr - old(queue.Repr))
      ensures table.m == old(table.m) && table.Repr == old(table.Repr)
    {
      queue.Add(mem);
    }

    method Enlist(id: int, mem: Ptr)
      requires Inner() && id !in m
      modifies Repr
      ensures Inner() && fresh(Repr - old(Repr)) && m == old(m)[id := mem] && s == [mem] + old(s)
    {
      m, s := m[id := mem], [mem] + s;
      PutRecord(id, mem);
      QueueRecord(mem);
      Repr := Repr + table.Repr + queue.Repr;
    }

    /** A heartbeat from an unknown member, for which the record `mem` was made. */
    method Register(id: int, mem: Ptr)
      requires Valid() && id !in m && mem !in s
      modifies Repr
      ensures Valid() && fresh(Repr - old(Repr)) && m == old(m)[id := mem] && s == [mem] + old(s)
    {
      SameAdd(m, s, id, mem);
      assert OpenRoster(0);
      Enlist(id, mem);
    }

    method TakeRecord(id: int) returns (mem: Option<Ptr>)
      requires Parts()
      modifies table.Repr
      ensures Parts() && table.m == old(table.m) - {id} && table.Repr == old(table.Repr)
      ensures mem == if id in old(table.m) then Some(old(table.m)[id]) else None
      ensures queue.s == old(queue.s) && queue.Repr == old(queue.Repr)
    {
      mem := table.Remove(id);
    }

    method Strike(id: int, mem: Ptr)
      requires Inner() && id in m && mem == m[id]
      modifies Repr
      ensures Inner() && Repr == old(Repr) && m == old(m) - {id} && s == Without(old(s), mem)
    {
      m, s := m - {id}, Without(s, mem);
      var _ := TakeRecord(id);
      queue.RemoveItem(mem);
    }

    /** A leave from `id`: the record goes from the table and, wherever it is, from the queue. */
    method Leave(id: int) returns (mem: Option<Ptr>)
      requires Valid()
      modifies Repr
      ensures Valid() && Repr == old(Repr)
      ensures mem == if id in old(m) then Some(old(m)[id]) else None
      ensures if id in old(m) then m == old(m) - {id} && s == Without(old(s), old(m)[id]) else m == old(m) && s == old(s)
    {
      mem := Find(id);
      if mem.Some? {
        SameRemove(m, s, id);
        assert OpenRoster(0);
        Strike(id, mem.value);
      }
    }

    /** As written a leave of `id` keeps table and queue together: the member is unknown, or is at the
        front of two or more. */
    ghost predicate LeaveSafe(id: int)
      reads this
    {
      id in m ==> |s| >= 2 && s[0] == m[id]
    }

    method IsLeaveSafe(id: int) returns (safe: bool)
      requires Valid()
      modifies Repr
      ensures Valid() && Repr == old(Repr) && m == old(m) && s == old(s) && safe == LeaveSafe(id)
    {
      var known := Find(id);
      var n := Size();
      safe := known.None?;
      if known.Some? && n >= 2 {
        var first := RecordAt(0);
        safe := first == known.value;
      }
    }

    method StrikeAsWritten(id: int, mem: Ptr)
      requires Inner() && id in m && mem == m[id] && mem in s
      modifies Repr
      ensures (exists ns :: queue.list.ListIs(ns) && Spells(ns, Without(old(s), mem))) <==> old(LeaveSafe(id))
      ensures m == table.m == old(m) - {id} && s == Without(old(s), mem) && (old(LeaveSafe(id)) ==> Inner())
      ensures Repr == old(Repr)
    {
      m, s := m - {id}, Without(s, mem);
      var _ := TakeRecord(id);
      queue.RemoveItemAsWritten(mem);
    }

    lemma Readable()
      requires Valid()
      ensures m == table.m && exists ns :: queue.list.ListIs(ns) && Spells(ns, s)
    {
      assert OpenRoster(0);
      queue.Readable();
    }

    /** A leave with removal by content as written: the table loses the record, and the queue is what
        it should be exactly when the leave was safe. */
    method LeaveAsWritten(id: int)
      requires Valid()
      modifies Repr
      ensures if id in old(m) then m == old(m) - {id} && s == Without(old(s), old(m)[id]) else m == old(m) && s == old(s)
      ensures table.m == m && ((exists ns :: queue.list.ListIs(ns) && Spells(ns, s)) <==> old(LeaveSafe(id)))
      ensures Repr == old(Repr) && (old(LeaveSafe(id)) ==> Valid())
    {
      var mem := Find(id);
      if mem.Some? {
        SameRemove(m, s, id);
        assert OpenRoster(0);
        StrikeAsWritten(id, mem.value);
      } else {
        Readable();
      }
    }
  }

  // ----- Runs of first heartbeats and leaves -----

  datatype Op = Join(id: int, mem: Ptr) | Part(id: int)

  datatype State = State(m: map<int, Ptr>, q: seq<Ptr>)

  function Step(s: State, op: Op): State {
    match op
    case Join(id, mem) => if id in s.m then s else State(s.m[id := mem], [mem] + s.q)
    case Part(id) => if id in s.m then State(s.m - {id}, Without(s.q, s.m[id])) else s
  }

  function Final(s: State, ops: seq<Op>): State
    decreases |ops|
  {
    if ops == [] then s else Final(Step(s, ops[0]), ops[1..])
  }

  /** Every new record is made at an address that no record in use has. */
  ghost predicate Addresses(s: State, ops: seq<Op>)
    decreases |ops|
  {
    ops != [] ==>
      && (ops[0].Join? && ops[0].id !in s.m ==> ops[0].mem !in s.q)
      && Addresses(Step(s, ops[0]), ops[1..])
  }

  /** As written no leave of the run is of a member that is not at the front of two or more. */
  predicate LeavesSafe(s: State, ops: seq<Op>)
    decreases |ops|
  {
    ops != [] ==>
      && (ops[0].Part? && ops[0].id in s.m ==> |s.q| >= 2 && s.q[0] == s.m[ops[0].id])
      && LeavesSafe(Step(s, ops[0]), ops[1..])
  }

  ghost function StateOf(r: Roster): State
    reads r
  {
    State(r.m, r.s)
  }

  lemma {:induction false} FinalSplit(s: State, a: seq<Op>, b: seq<Op>)
    ensures Final(s, a + b) == Final(Final(s, a), b)
    decreases |a|
  {
    if a == [] {
      assert a + b == b;
    } else {
      assert (a + b)[1..] == a[1..] + b;
      FinalSplit(Step(s, a[0]), a[1..], b);
    }
  }

  lemma {:induction false} Unmentioned(s: State, ops: seq<Op>, id: int)
    requires forall op :: op in ops ==> op.id != id
    ensures (id in Final(s, ops).m <==> id in s.m) && (id in s.m ==> Final(s, ops).m[id] == s.m[id])
    decreases |ops|
  {
    if ops != [] {
      assert ops[0] in ops;
      Unmentioned(Step(s, ops[0]), ops[1..], id);
    }
  }

  /** After any run, whether somebody is a member is decided by the last thing heard from it: a heartbeat makes it one,
      with a new record unless it has one, and a leave ends that. */
  lemma {:induction false} LastHeardCounts(s: State, a: seq<Op>, op: Op, b: seq<Op>)
    requires forall o :: o in b ==> o.id != op.id
    ensures var before, after := Final(s, a), Final(s, a + [op] + b);
            && (op.id in after.m <==> op.Join?)
            && (op.Join? ==> after.m[op.id] == if op.id in before.m then before.m[op.id] else op.mem)
  {
    FinalSplit(s, a, [op]);
    FinalSplit(s, a + [op], b);
    assert Final(Final(s, a), [op]) == Step(Final(s, a), op);
    Unmentioned(Final(s, a + [op]), b, op.id);
  }

  /** The queue changes only by a first heartbeat, which puts the new record in front, and by a leave of a member,
      which takes its record out and leaves the others in their order. */
  lemma {:induction false} QueueFollows(s: State, a: seq<Op>, op: Op)
    ensures var before, after := Final(s, a), Final(s, a + [op]);
            && (op.Join? && op.id !in before.m ==> after.q == [op.mem] + before.q)
            && (op.Part? && op.id in before.m ==>
                  var mem := before.m[op.id];
                  forall i :: 0 <= i < |before.q| && before.q[i] == mem && mem !in before.q[..i] ==>
                    after.q == before.q[..i] + before.q[i + 1..])
            && (op.Join? == (op.id in before.m) ==> after == before)
  {
    FinalSplit(s, a, [op]);
    var before := Final(s, a);
    assert Final(before, [op]) == Step(before, op);
    if op.Part? && op.id in before.m {
      forall i | 0 <= i < |before.q| && before.q[i] == before.m[op.id] && before.m[op.id] !in before.q[..i]
        ensures Without(before.q, before.m[op.id]) == before.q[..i] + before.q[i + 1..]
      {
        WithoutAt(before.q, before.m[op.id], i);
      }
    }
  }

  /** Through any run of first heartbeats and leaves, table and queue hold the same records, each
      once, and are what a plain map and a plain sequence would be. */
  method Execute(r: Roster, ops: seq<Op>)
    requires r.Valid() && Addresses(StateOf(r), ops)
    modifies r.Repr
    ensures r.Valid() && fresh(r.Repr - old(r.Repr)) && StateOf(r) == Final(old(StateOf(r)), ops)
    decreases |ops|
  {
    if ops != [] {
      ExecuteOne(r, ops[0]);
      Execute(r, ops[1..]);
    }
  }

  method Joins(r: Roster, id: int, mem: Ptr)
    requires r.Valid() && (id !in r.m ==> mem !in r.s)
    modifies r.Repr
    ensures r.Valid() && fresh(r.Repr - old(r.Repr)) && StateOf(r) == Step(old(StateOf(r)), Join(id, mem))
  {
    var known := r.Find(id);
    if known.None? {
      r.Register(id, mem);
    }
  }

  method ExecuteOne(r: Roster, op: Op)
    requires r.Valid() && (op.Join? && op.id !in r.m ==> op.mem !in r.s)
    modifies r.Repr
    ensures r.Valid() && fresh(r.Repr - old(r.Repr)) && StateOf(r) == Step(old(StateOf(r)), op)
  {
    match op
    case Join(id, mem) =>
      Joins(r, id, mem);
    case Part(id) =>
      var _ := r.Leave(id);
  }

  /** The same with removal by content as written, stopped once it has gone wrong: table and queue
      are together at the end, and what they should be, exactly when every leave of the run
      was of an unknown member or of one at the front of two or more. */
  method ExecuteAsWritten(r: Roster, ops: seq<Op>) returns (n: nat)
    requires r.Valid() && Addresses(StateOf(r), ops)
    modifies r.Repr
    ensures n <= |ops| && StateOf(r) == Final(old(StateOf(r)), ops[..n]) && r.table.m == r.m
    ensures (exists ns :: r.queue.list.ListIs(ns) && Spells(ns, r.s)) <==> old(LeavesSafe(StateOf(r), ops))
    ensures old(LeavesSafe(StateOf(r), ops)) ==> n == |ops| && r.Valid()
    decreases |ops|
  {
    if ops == [] {
      r.Readable();
      return 0;
    }
    var safe := StepAsWritten(r, ops[0]);
    if safe {
      var k := ExecuteAsWritten(r, ops[1..]);
      n := k + 1;
      assert ops[..n][1..] == ops[1..][..k];
    } else {
      n := 1;
      assert ops[..1][1..] == [];
    }
  }

  method StepAsWritten(r: Roster, op: Op) returns (safe: bool)
    requires r.Valid() && (op.Join? && op.id !in r.m ==> op.mem !in r.s)
    modifies r.Repr
    ensures safe == (op.Part? ==> old(r.LeaveSafe(op.id)))
    ensures StateOf(r) == Step(old(StateOf(r)), op) && r.table.m == r.m
    ensures (exists ns :: r.queue.list.ListIs(ns) && Spells(ns, r.s)) <==> safe
    ensures safe ==> r.Valid() && fresh(r.Repr - old(r.Repr))
  {
    if op.Join? {
      Joins(r, op.id, op.mem);
      r.Readable();
      safe := true;
    } else {
      safe := r.IsLeaveSafe(op.id);
      r.LeaveAsWritten(op.id);
    }
  }
}
