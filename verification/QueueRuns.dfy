/** Whole runs of the linked queue against a plain sequence. */
module QueueRuns {
  import opened Text
  import opened MQueues

  datatype Op = Add(c: Ptr) | Append(c: Ptr) | Remove | Peek(i: nat)

  /** What one operation leaves behind and what it answers, on a plain sequence. */
  function Step(s: seq<Ptr>, op: Op): (seq<Ptr>, Option<Ptr>) {
    match op
    case Add(c) => ([c] + s, None)
    case Append(c) => (s + [c], None)
    case Remove => if s == [] then (s, None) else (s[1..], Some(s[0]))
    case Peek(i) => (s, if i < |s| then Some(s[i]) else None)
  }

  /** The content after a run. */
  function Final(s: seq<Ptr>, ops: seq<Op>): seq<Ptr>
    decreases |ops|
  {
    if ops == [] then s else Final(Step(s, ops[0]).0, ops[1..])
  }

  /** The answers of a run, one for each operation. */
  function Answers(s: seq<Ptr>, ops: seq<Op>): seq<Option<Ptr>>
    decreases |ops|
  {
    if ops == [] then [] else [Step(s, ops[0]).1] + Answers(Step(s, ops[0]).0, ops[1..])
  }

  /** The number of nodes in the pool after one operation: an insertion takes one if there is one,
      a removal gives one back up to three times the parameter. */
  function Pooled(init: nat, nbuf: int, s: seq<Ptr>, op: Op): int {
    match op
    case Add(_) => if init == 0 || nbuf == 0 then nbuf else nbuf - 1
    case Append(_) => if init == 0 || nbuf == 0 then nbuf else nbuf - 1
    case Remove => if s == [] || init == 0 || nbuf >= 3 * init then nbuf else nbuf + 1
    case Peek(_) => nbuf
  }

  /** As written the operation does not lose the pool's tail: it is no removal that finds the
      pool neither empty nor full. */
  predicate TailSafe(t: Reading, init: nat, nbuf: int, s: seq<Ptr>, op: Op) {
    op.Remove? && s != [] ==> t.AsMeant? || init == 0 || nbuf == 0 || nbuf >= 3 * init
  }

  /** How many operations of a run go by up to and including the first that loses the tail. */
  function Reach(t: Reading, init: nat, nbuf: int, s: seq<Ptr>, ops: seq<Op>): (n: nat)
    ensures n <= |ops|
    decreases |ops|
  {
    if ops == [] then 0
    else if !TailSafe(t, init, nbuf, s, ops[0]) then 1
    else 1 + Reach(t, init, Pooled(init, nbuf, s, ops[0]), Step(s, ops[0]).0, ops[1..])
  }

  /** No operation of the run loses the tail. */
  predicate TailKept(t: Reading, init: nat, nbuf: int, s: seq<Ptr>, ops: seq<Op>)
    decreases |ops|
  {
    ops != [] ==>
      && TailSafe(t, init, nbuf, s, ops[0])
      && TailKept(t, init, Pooled(init, nbuf, s, ops[0]), Step(s, ops[0]).0, ops[1..])
  }

  /** As meant, or without a pool, no run ever loses the tail. */
  lemma {:induction false} TailAlwaysKept(t: Reading, init: nat, nbuf: int, s: seq<Ptr>, ops: seq<Op>)
    requires t.AsMeant? || init == 0
    ensures TailKept(t, init, nbuf, s, ops) && Reach(t, init, nbuf, s, ops) == |ops|
    decreases |ops|
  {
    if ops != [] {
      TailAlwaysKept(t, init, Pooled(init, nbuf, s, ops[0]), Step(s, ops[0]).0, ops[1..]);
    }
  }

  /** A run, up to some operation, is its first operation and what follows. */
  lemma RunFrom(s: seq<Ptr>, ops: seq<Op>, n: nat)
    requires n < |ops|
    ensures var s' := Step(s, ops[0]).0;
            && Answers(s, ops[..n + 1]) == [Step(s, ops[0]).1] + Answers(s', ops[1..][..n])
            && Final(s, ops[..n + 1]) == Final(s', ops[1..][..n])
  {
    assert ops[..n + 1][1..] == ops[1..][..n];
  }

  /** A run on the heap, stopped once the pool has lost its tail. Up to and including the operation
      that does so, the content and the answers are those of the plain sequence, whatever the
      cursor and the pool do; and the queue is in order at the end exactly when no removal of
      the run found the pool, as written, neither empty nor full. */
  method Execute(q: MQueue, ops: seq<Op>) returns (answers: seq<Option<Ptr>>)
    requires q.Valid()
    modifies q, q.buf, q.Footprint()
    ensures q.ListOk() && q.buf.init == old(q.buf.init)
    ensures q.Valid() <==> old(TailKept(q.buf.text, q.buf.init, q.buf.nbuf, q.Contents(), ops))
    ensures |answers| == old(Reach(q.buf.text, q.buf.init, q.buf.nbuf, q.Contents(), ops))
    ensures answers == Answers(old(q.Contents()), ops[..|answers|])
    ensures q.Contents() == Final(old(q.Contents()), ops[..|answers|])
    ensures q.Valid() ==> |answers| == |ops| && forall x :: x in q.Footprint() ==> x in old(q.Footprint()) || fresh(x)
    decreases |ops|
  {
    if ops == [] {
      answers := [];
      return;
    }
    ghost var s := q.Contents();
    var a, kept := ExecuteOne(q, ops[0]);
    answers := [a];
    if kept {
      var rest := Execute(q, ops[1..]);
      RunFrom(s, ops, |rest|);
      answers := [a] + rest;
    } else {
      RunFrom(s, ops, 0);
    }
  }

  method ExecuteOne(q: MQueue, op: Op) returns (a: Option<Ptr>, kept: bool)
    requires q.Valid()
    modifies q, q.buf, q.Footprint()
    ensures q.ListOk() && q.buf.init == old(q.buf.init)
    ensures kept == old(TailSafe(q.buf.text, q.buf.init, q.buf.nbuf, q.Contents(), op)) == q.buf.Valid()
    ensures q.buf.nbuf == old(Pooled(q.buf.init, q.buf.nbuf, q.Contents(), op))
    ensures (q.Contents(), a) == Step(old(q.Contents()), op)
    ensures forall x :: x in q.Footprint() ==> x in old(q.Footprint()) || fresh(x)
  {
    var init, nbuf := q.buf.init, q.buf.nbuf;
    kept := !op.Remove? || q.first == null || q.buf.text.AsMeant? || init == 0 || nbuf == 0 || nbuf >= 3 * init;
    a := None;
    match op
    case Add(c) =>
      q.Add(c);
    case Append(c) =>
      q.Append(c);
    case Remove =>
      a := q.Remove();
    case Peek(i) =>
      a := q.PeekAt(i);
  }

  /** The values handed out by the removals of a run. */
  function Taken(s: seq<Ptr>, ops: seq<Op>): seq<Ptr>
    decreases |ops|
  {
    if ops == [] then []
    else (if ops[0].Remove? && s != [] then [s[0]] else []) + Taken(Step(s, ops[0]).0, ops[1..])
  }

  function Appended(ops: seq<Op>): seq<Ptr>
  {
    if ops == [] then []
    else (if ops[0].Append? then [ops[0].c] else []) + Appended(ops[1..])
  }

  /** Without front insertion the queue is first in, first out: what was taken,
      followed by what is left, is what was there followed by what was appended. */
  lemma {:induction false} FirstInFirstOut(s: seq<Ptr>, ops: seq<Op>)
    requires forall op :: op in ops ==> !op.Add?
    ensures Taken(s, ops) + Final(s, ops) == s + Appended(ops)
    decreases |ops|
  {
    if ops != [] {
      assert ops[0] in ops;
      var s', later := Step(s, ops[0]).0, ops[1..];
      var out := if ops[0].Remove? && s != [] then [s[0]] else [];
      var added := if ops[0].Append? then [ops[0].c] else [];
      calc {
        out + Taken(s', later) + Final(s', later);
        out + (Taken(s', later) + Final(s', later));
        { FirstInFirstOut(s', later); }
        out + (s' + Appended(later));
        { assert out + s' == s + added; }
        s + added + Appended(later);
        s + (added + Appended(later));
      }
    }
  }

  /** Running on top of `below` never reaches into it as long as no removal finds nothing. */
  ghost predicate NeverEmptyHanded(s: seq<Ptr>, ops: seq<Op>)
    decreases |ops|
  {
    ops != [] ==> (ops[0].Remove? ==> s != []) && NeverEmptyHanded(Step(s, ops[0]).0, ops[1..])
  }

  lemma {:induction false} RunOnTop(s: seq<Ptr>, below: seq<Ptr>, ops: seq<Op>)
    requires NeverEmptyHanded(s, ops) && forall op :: op in ops ==> op.Add? || op.Remove?
    ensures Final(s + below, ops) == Final(s, ops) + below
    ensures Taken(s + below, ops) == Taken(s, ops)
    decreases |ops|
  {
    if ops != [] {
      assert ops[0] in ops;
      var s' := Step(s, ops[0]).0;
      assert Step(s + below, ops[0]).0 == s' + below;
      RunOnTop(s', below, ops[1..]);
    }
  }

  lemma {:induction false} RunSplit(s: seq<Ptr>, a: seq<Op>, b: seq<Op>)
    ensures Final(s, a + b) == Final(Final(s, a), b)
    ensures Taken(s, a + b) == Taken(s, a) + Taken(Final(s, a), b)
    decreases |a|
  {
    if a == [] {
      assert a + b == b;
    } else {
      assert (a + b)[1..] == a[1..] + b;
      RunSplit(Step(s, a[0]).0, a[1..], b);
    }
  }

  lemma {:induction false} AnswersSplit(s: seq<Ptr>, a: seq<Op>, b: seq<Op>)
    ensures Answers(s, a + b) == Answers(s, a) + Answers(Final(s, a), b) && |Answers(s, a)| == |a|
    decreases |a|
  {
    if a == [] {
      assert a + b == b;
    } else {
      assert (a + b)[1..] == a[1..] + b;
      AnswersSplit(Step(s, a[0]).0, a[1..], b);
    }
  }

  /** Every answer of a run tells what was in the queue at that point: a removal hands out the front, if there is one,
      and a peek the item at its position. Insertions answer nothing. */
  lemma {:induction false} AnswersTell(s: seq<Ptr>, a: seq<Op>, op: Op, b: seq<Op>)
    ensures var before, answers := Final(s, a), Answers(s, a + [op] + b);
            && |answers| == |a| + 1 + |b| && var answer := answers[|a|];
            && (op.Add? || op.Append? ==> answer == None)
            && (op.Remove? ==> answer == if before == [] then None else Some(before[0]))
            && (op.Peek? ==> answer == if op.i < |before| then Some(before[op.i]) else None)
  {
    AnswersSplit(s, a, [op] + b);
    assert a + [op] + b == a + ([op] + b);
    assert ([op] + b)[1..] == b;
    AnswersSplit(Step(Final(s, a), op).0, b, []);
    assert Answers(Final(s, a), [op] + b)[0] == Step(Final(s, a), op).1;
  }

  /** What any operation of a run makes of the queue. */
  lemma {:induction false} FinalTells(s: seq<Ptr>, a: seq<Op>, op: Op)
    ensures var before, after := Final(s, a), Final(s, a + [op]);
            && (op.Add? ==> after == [op.c] + before) && (op.Append? ==> after == before + [op.c])
            && (op.Remove? ==> after == if before == [] then [] else before[1..]) && (op.Peek? ==> after == before)
  {
    RunSplit(s, a, [op]);
    assert Final(Final(s, a), [op]) == Step(Final(s, a), op).0;
  }

  /** With front insertion and removal alone the queue is a stack: after an insertion
      and any run that gives back all it put in, the removal returns that insertion. */
  lemma LastInFirstOut(s: seq<Ptr>, c: Ptr, mid: seq<Op>)
    requires forall op :: op in mid ==> op.Add? || op.Remove?
    requires NeverEmptyHanded([], mid) && Final([], mid) == []
    ensures Final(s, [Add(c)] + mid + [Remove]) == s
    ensures Taken(s, [Add(c)] + mid + [Remove]) == Taken([], mid) + [c]
  {
    var top := [c] + s;
    RunOnTop([], top, mid);
    assert [] + top == top;
    RunSplit(top, mid, [Remove]);
    var all := [Add(c)] + mid + [Remove];
    assert all[0] == Add(c) && all[1..] == mid + [Remove];
    assert Taken(top, [Remove]) == [c] + Taken(s, []);
  }

  /** What the bare code answers from a queue whose pool is `n1`, `n2` but has lost its tail. */
  method AnswersAfterLoss(q: MQueue, n1: Node, n2: Node, n3: Node) returns (answers: seq<Option<Ptr>>)
    requires q.buf.text == AsWritten && q.buf.init == 1 && q.buf.nbuf == 2 && q.buf.front == n1 == q.buf.back
    requires n1 != n2 && n1 != n3 && n2 != n3 && n1.next == n2
    requires q.count == 1 && q.first == n3 == q.last && n3.next == null && n3.content == 30
    modifies q, q.buf, n1, n2, n3
    ensures answers == [None, Some(30), Some(40), Some(30)]
  {
    q.AppendCode(40);
    var a := q.RemoveCode();
    var b := q.RemoveCode();
    var c := q.RemoveCode();
    answers := [None, a, b, c];
  }

  method LoseTail() returns (q: MQueue, n1: Node, n2: Node, n3: Node, answers: seq<Option<Ptr>>)
    ensures fresh(q) && fresh(q.buf) && fresh(n1) && fresh(n2) && fresh(n3)
    ensures q.buf.text == AsWritten && q.buf.init == 1 && q.buf.nbuf == 2 && q.buf.front == n1 == q.buf.back
    ensures n1 != n2 && n1 != n3 && n2 != n3 && n1.next == n2
    ensures q.count == 1 && q.first == n3 == q.last && n3.next == null && n3.content == 30
    ensures answers == [None, None, None, Some(10), Some(20)]
  {
    q := new MQueue(AsWritten, 1);
    assert OpenPool(0);
    assert q.buf.front == q.buf.spare[0] && q.buf.front in q.Footprint();
    n1 := q.buf.front;
    q.AppendCode(10);
    q.AppendCode(20);
    n2 := q.last;
    q.AppendCode(30);
    n3 := q.last;
    var a := q.RemoveCode();
    var b := q.RemoveCode();
    answers := [None, None, None, a, b];
  }

  /** A run with a wrong answer: as written, with a pool of one, five operations are answered rightly
      and leave 30 in the queue; after four more, the last of which finds the queue empty, 30 has
      been returned twice. */
  method WrongAnswer() returns (first: seq<Option<Ptr>>, rest: seq<Option<Ptr>>)
    ensures var ops := [Append(10), Append(20), Append(30), Remove, Remove];
            first == Answers([], ops) && Final([], ops) == [30]
    ensures var ops := [Append(40), Remove, Remove, Remove];
            rest == [None, Some(30), Some(40), Some(30)] && Answers([30], ops) == [None, Some(30), Some(40), None]
  {
    var q, n1, n2, n3, answers := LoseTail();
    first := answers;
    rest := AnswersAfterLoss(q, n1, n2, n3);
    AnswersBefore();
    AnswersAfter();
  }

  lemma RunCons(s: seq<Ptr>, op: Op, ops: seq<Op>)
    ensures Answers(s, [op] + ops) == [Step(s, op).1] + Answers(Step(s, op).0, ops)
    ensures Final(s, [op] + ops) == Final(Step(s, op).0, ops)
  {
    assert ([op] + ops)[1..] == ops;
  }

  lemma AnswersBefore()
    ensures var ops := [Append(10), Append(20), Append(30), Remove, Remove];
            Answers([], ops) == [None, None, None, Some(10), Some(20)] && Final([], ops) == [30]
  {
    var none: seq<Op> := [];
    RunCons([20, 30], Remove, none);
    RunCons([10, 20, 30], Remove, [Remove] + none);
    RunCons([10, 20], Append(30), [Remove] + ([Remove] + none));
    RunCons([10], Append(20), [Append(30)] + ([Remove] + ([Remove] + none)));
    RunCons([], Append(10), [Append(20)] + ([Append(30)] + ([Remove] + ([Remove] + none))));
    assert [Append(10)] + ([Append(20)] + ([Append(30)] + ([Remove] + ([Remove] + none))))
        == [Append(10), Append(20), Append(30), Remove, Remove];
  }

  lemma AnswersAfter()
    ensures Answers([30], [Append(40), Remove, Remove, Remove]) == [None, Some(30), Some(40), None]
  {
    var none: seq<Op> := [];
    RunCons([], Remove, none);
    RunCons([40], Remove, [Remove] + none);
    RunCons([30, 40], Remove, [Remove] + ([Remove] + none));
    RunCons([30], Append(40), [Remove] + ([Remove] + ([Remove] + none)));
    assert [Append(40)] + ([Remove] + ([Remove] + ([Remove] + none))) == [Append(40), Remove, Remove, Remove];
  }

  /** Removing the front of two items as written leaves a right list, but the cursor on the freed
      node: peeking at the front then returns the item that was removed. */
  method StalePeek(q: MQueue) returns (r: Option<Ptr>)
    requires q.Valid() && q.Contents() == [10, 20]
    modifies q, q.buf, q.Footprint()
    ensures r == Some(10)
    ensures q.ListIs(q.nodes) && Spells(q.nodes, [20]) && q.indexed != null && q.indexed !in q.buf.live
  {
    var _ := q.RemoveAtAsWritten(0);
    // the cursor is at position 0, so the peek does not walk
    r := Some(q.indexed.content);
  }

  /** Two removals in a row from a queue with a pool lose the pool's tail as written. */
  method PoolTailLost() returns (q: MQueue)
    ensures fresh(q) && q.buf.text == AsWritten && q.ListOk() && !q.buf.Valid()
  {
    q := new MQueue(AsWritten, 1);
    q.Add(10);
    q.Add(20);
    var _ := q.Remove();
    var _ := q.Remove();
  }

  /** Removing the second of three items as written leaves no chain holding the other two. */
  method MiddleRemovalLost(q: MQueue)
    requires q.Valid() && q.Contents() == [10, 20, 30]
    modifies q, q.buf, q.Footprint()
    ensures !exists ns :: q.ListIs(ns) && Spells(ns, [10, 30])
  {
    WithoutAt([10, 20, 30], 20, 1);
    var _ := q.RemoveItemAsWritten(20);
  }
}
