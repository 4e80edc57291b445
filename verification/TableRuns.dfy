/** Whole runs of the hash table against a finite map. */
module TableRuns {
  import opened Text
  import opened Entries
  import opened HashTables
  import Rehashes

  datatype Op = Put(k: Key, data: Ptr) | Get(k: Key) | Remove(k: Key) | Replace(k: Key, data: Ptr) | Rehash(size: nat)

  /** The return code and the data handed out, if any. */
  datatype Answer = Answer(ret: int, data: Option<Ptr>)

  /** One operation on a finite map from typed keys to data. */
  function Step(m: map<Key, Ptr>, op: Op): (map<Key, Ptr>, Answer) {
    match op
    case Put(k, d) => if k in m then (m, Answer(-1, None)) else (m[k := d], Answer(0, None))
    case Get(k) => (m, if k in m then Answer(1, Some(m[k])) else Answer(0, None))
    case Remove(k) => (m - {k}, if k in m then Answer(1, Some(m[k])) else Answer(0, None))
    case Replace(k, d) => (m[k := d], if k in m then Answer(1, Some(m[k])) else Answer(0, None))
    case Rehash(_) => (m, Answer(0, None))
  }

  function Final(m: map<Key, Ptr>, ops: seq<Op>): map<Key, Ptr>
    decreases |ops|
  {
    if ops == [] then m else Final(Step(m, ops[0]).0, ops[1..])
  }

  function Answers(m: map<Key, Ptr>, ops: seq<Op>): seq<Answer>
    decreases |ops|
  {
    if ops == [] then [] else [Step(m, ops[0]).1] + Answers(Step(m, ops[0]).0, ops[1..])
  }

  /** The table as far as the pool is concerned: its buckets, its parameter and what the pool holds. */
  datatype Pool = Pool(text: Reading, size: nat, init: nat, nbuf: int)

  ghost function PoolOf(t: HTable): Pool
    reads t, t.bk, t.buf
  {
    Pool(t.buf.text, t.bk.size, t.buf.init, t.buf.nbuf)
  }

  /** One entry taken from the pool if there is one. */
  function Taken(p: Pool): Pool {
    if p.init == 0 || p.nbuf == 0 then p else p.(nbuf := p.nbuf - 1)
  }

  /** The pool after one operation on the map `m`. */
  function PoolStep(p: Pool, m: map<Key, Ptr>, op: Op): Pool {
    match op
    case Put(k, _) => if k in m then p else Taken(p)
    case Get(_) => p
    case Remove(k) => if k !in m || p.init == 0 || p.nbuf >= 3 * p.init then p else p.(nbuf := p.nbuf + 1)
    case Replace(k, _) => if k in m then p else Taken(p)
    case Rehash(size) =>
      p.(size := size, nbuf := if size == p.size || m == map[] then p.nbuf else AfterSwap(p.init, p.nbuf))
  }

  /** As written the operation does not lose the pool's tail: it is no removal that finds the pool
      neither empty nor full, and no move to other buckets with more than one entry in the pool. */
  predicate TailSafe(p: Pool, m: map<Key, Ptr>, op: Op) {
    p.text.AsMeant? || p.init == 0 ||
    match op
    case Remove(k) => k !in m || p.nbuf == 0 || p.nbuf >= 3 * p.init
    case Rehash(size) => size == p.size || m == map[] || p.nbuf <= 1
    case _ => true
  }

  /** How many operations of a run go by before the first that loses the tail. */
  function Reach(p: Pool, m: map<Key, Ptr>, ops: seq<Op>): (n: nat)
    ensures n <= |ops|
    decreases |ops|
  {
    if ops == [] || !TailSafe(p, m, ops[0]) then 0
    else 1 + Reach(PoolStep(p, m, ops[0]), Step(m, ops[0]).0, ops[1..])
  }

  /** As meant, or without a pool, no run ever loses the tail. */
  lemma {:induction false} TailAlwaysKept(p: Pool, m: map<Key, Ptr>, ops: seq<Op>)
    requires p.text.AsMeant? || p.init == 0
    ensures Reach(p, m, ops) == |ops|
    decreases |ops|
  {
    if ops != [] {
      TailAlwaysKept(PoolStep(p, m, ops[0]), Step(m, ops[0]).0, ops[1..]);
    }
  }

  /** A run, up to some operation, is its first operation and what follows. */
  lemma RunFrom(m: map<Key, Ptr>, ops: seq<Op>, n: nat)
    requires n < |ops|
    ensures var m' := Step(m, ops[0]).0;
            && Answers(m, ops[..n + 1]) == [Step(m, ops[0]).1] + Answers(m', ops[1..][..n])
            && Final(m, ops[..n + 1]) == Final(m', ops[1..][..n])
  {
    assert ops[..n + 1][1..] == ops[1..][..n];
  }

  /** The operation stores or removes something under the key `k`. */
  predicate Touches(op: Op, k: Key) {
    (op.Put? || op.Remove? || op.Replace?) && op.k == k
  }

  lemma {:induction false} RunSplit(m: map<Key, Ptr>, a: seq<Op>, b: seq<Op>)
    ensures Final(m, a + b) == Final(Final(m, a), b) && Answers(m, a + b) == Answers(m, a) + Answers(Final(m, a), b)
    ensures |Answers(m, a)| == |a|
    decreases |a|
  {
    if a == [] {
      assert a + b == b;
    } else {
      assert (a + b)[1..] == a[1..] + b;
      RunSplit(Step(m, a[0]).0, a[1..], b);
    }
  }

  /** What is stored under a key that no operation touches stays. */
  lemma {:induction false} Untouched(m: map<Key, Ptr>, ops: seq<Op>, k: Key)
    requires forall op :: op in ops ==> !Touches(op, k)
    ensures (k in Final(m, ops) <==> k in m) && (k in m ==> Final(m, ops)[k] == m[k])
    decreases |ops|
  {
    if ops != [] {
      assert ops[0] in ops;
      Untouched(Step(m, ops[0]).0, ops[1..], k);
    }
  }

  /** After any run, what is stored under a key is decided by the last operation that touched it: a removal leaves
      nothing, a replacement its data, and a put its data or, if there was any, what was there before. */
  lemma {:induction false} LastTouchCounts(m: map<Key, Ptr>, a: seq<Op>, op: Op, b: seq<Op>, k: Key)
    requires Touches(op, k) && forall o :: o in b ==> !Touches(o, k)
    ensures var before, after := Final(m, a), Final(m, a + [op] + b);
            && (k in after <==> !op.Remove?)
            && (op.Replace? ==> after[k] == op.data)
            && (op.Put? ==> after[k] == if k in before then before[k] else op.data)
  {
    RunSplit(m, a, [op]);
    RunSplit(m, a + [op], b);
    assert Final(Final(m, a), [op]) == Step(Final(m, a), op).0;
    Untouched(Final(m, a + [op]), b, k);
  }

  /** Every answer of a run tells what was stored under the key at that point: a look-up, a removal and a replacement
      hand it out and return whether there was any, and a put is refused if there was. */
  lemma {:induction false} AnswersTell(m: map<Key, Ptr>, a: seq<Op>, op: Op, b: seq<Op>)
    ensures var before, answers := Final(m, a), Answers(m, a + [op] + b);
            && |answers| == |a| + 1 + |b| && var answer := answers[|a|];
            && (op.Rehash? ==> answer == Answer(0, None))
            && (op.Put? ==> answer == Answer(if op.k in before then -1 else 0, None))
            && (op.Get? || op.Remove? || op.Replace? ==>
                  answer == if op.k in before then Answer(1, Some(before[op.k])) else Answer(0, None))
  {
    RunSplit(m, a, [op] + b);
    assert a + [op] + b == a + ([op] + b);
    assert ([op] + b)[1..] == b;
    RunSplit(Step(Final(m, a), op).0, b, []);
    assert Answers(Final(m, a), [op] + b)[0] == Step(Final(m, a), op).1;
  }

  /** A run of operations on int and string keys, rehashes to positive sizes included, up to and
      including the first one that loses the pool's tail. Before that one, the map and the
      answers are those of a finite map; and the table is in order at the end exactly when,
      as written, no removal found the pool neither empty nor full and no rehash moved entries
      with more than one in the pool. */
  method Execute(t: HTable, ops: seq<Op>) returns (answers: seq<Answer>)
    requires t.Valid()
    requires forall op :: op in ops && op.Rehash? ==> op.size > 0
    modifies t, t.bk, t.bk.entries, t.bk.lens, t.buf, t.buf.ours
    ensures |answers| == old(Reach(PoolOf(t), t.M, ops)) && answers == Answers(old(t.M), ops[..|answers|])
    ensures t.Valid() <==> |answers| == |ops|
    ensures t.Valid() ==> t.M == Final(old(t.M), ops) && t.buf.init == old(t.buf.init)
    ensures t.Valid() ==> forall x :: x in t.buf.ours ==> x in old(t.buf.ours) || fresh(x)
    ensures t.Valid() ==> t.bk == old(t.bk) || (fresh(t.bk) && fresh(t.bk.entries) && fresh(t.bk.lens))
    decreases |ops|
  {
    answers := [];
    if ops == [] {
      return;
    }
    assert ops[0] in ops;
    var safe := IsSafe(t, ops[0]);
    if safe {
      var a := ExecuteOne(t, ops[0]);
      var rest := Execute(t, ops[1..]);
      RunFrom(old(t.M), ops, |rest|);
      answers := [a] + rest;
    } else {
      ExecuteLast(t, ops[0]);
    }
  }

  method IsSafe(t: HTable, op: Op) returns (safe: bool)
    requires t.Valid()
    ensures safe == TailSafe(PoolOf(t), t.M, op)
  {
    safe := t.buf.text.AsMeant? || t.buf.init == 0 || t.buf.nbuf == 0;
    if op.Remove? {
      var r := t.Get(op.k);
      safe := safe || r.None? || t.buf.nbuf >= 3 * t.buf.init;
    } else if op.Rehash? {
      safe := safe || t.n == 0 || op.size == t.bk.size || t.buf.nbuf <= 1;
    } else {
      safe := true;
    }
  }

  /** An operation that keeps the tail. */
  method ExecuteOne(t: HTable, op: Op) returns (a: Answer)
    requires t.Valid() && TailSafe(PoolOf(t), t.M, op) && (op.Rehash? ==> op.size > 0)
    modifies t, t.bk, t.bk.entries, t.bk.lens, t.buf, t.buf.ours
    ensures t.Valid() && PoolOf(t) == PoolStep(old(PoolOf(t)), old(t.M), op)
    ensures (t.M, a) == Step(old(t.M), op)
    ensures forall x :: x in t.buf.ours ==> x in old(t.buf.ours) || fresh(x)
    ensures t.bk == old(t.bk) || (fresh(t.bk) && fresh(t.bk.entries) && fresh(t.bk.lens))
  {
    if op.Rehash? {
      Rehashes.Rehash(t, op.size);
      a := Answer(0, None);
    } else {
      a := ExecuteKeyed(t, op);
    }
  }

  method ExecuteKeyed(t: HTable, op: Op) returns (a: Answer)
    requires t.Valid() && TailSafe(PoolOf(t), t.M, op) && !op.Rehash?
    modifies t, t.bk, t.bk.entries, t.bk.lens, t.buf, t.buf.ours
    ensures t.Valid() && PoolOf(t) == PoolStep(old(PoolOf(t)), old(t.M), op)
    ensures (t.M, a) == Step(old(t.M), op) && t.bk == old(t.bk)
    ensures forall x :: x in t.buf.ours ==> x in old(t.buf.ours) || fresh(x)
  {
    match op {
      case Put(k, d) =>
        var r := t.Put(k, d);
        a := Answer(r, None);
      case Get(k) =>
        var r := t.Get(k);
        a := Answer(if r.Some? then 1 else 0, r);
      case Remove(k) =>
        var r := t.Remove(k);
        a := Answer(if r.Some? then 1 else 0, r);
      case Replace(k, d) =>
        var ret, r := t.Replace(k, d);
        a := Answer(ret, r);
    }
  }

  /** An operation that loses the tail, a rehash up to the moment it does so. */
  method ExecuteLast(t: HTable, op: Op)
    requires t.Valid() && !TailSafe(PoolOf(t), t.M, op) && (op.Rehash? ==> op.size > 0)
    modifies t, t.bk, t.bk.entries, t.bk.lens, t.buf, t.buf.ours
    ensures !t.Valid()
  {
    if op.Remove? {
      var _ := t.Remove(op.k);
    } else {
      Rehashes.LosesTail(t, op.size);
    }
  }

  /** The sender's buffer has a pool of 20: as written, its first removal already loses the pool's tail. */
  method PoolTailLost() returns (t: HTable)
    ensures fresh(t) && t.buf.text == AsWritten && t.TableOk() && !t.buf.Valid()
  {
    t := new HTable(AsWritten, 50, 20);
    var _ := t.Put(IntKey(1), 10);
    var _ := t.Remove(IntKey(1));
  }
}
