/** A linked queue together with everything it may write to, for use inside larger structures. */
module Queues {
  import opened Text
  import opened MQueues

  /** The key to what this module closes: a predicate of the form `forall d :: OpenQueue(d) ==> P` is passed
      on as a whole by proofs that do not mention the key, and `assert OpenQueue(0)` looks into it. */
  ghost predicate OpenQueue(d: nat) {
    d >= 0
  }

  class Queue {
    const list: MQueue
    ghost var s: seq<Ptr>
    ghost var Repr: set<object>

    /** The pool is as meant or has size 0, so that every operation keeps it. */
    ghost predicate Inner()
      reads this, Repr
    {
      && this in Repr && list in Repr && list.buf in Repr && list.Footprint() <= Repr
      && list.Valid() && (list.buf.text.AsMeant? || list.buf.init == 0) && s == list.Contents()
    }

    /** Closed to those who use the queue. */
    ghost predicate Valid()
      reads this, Repr
    {
      this in Repr && forall d: nat {:trigger OpenQueue(d)} :: OpenQueue(d) ==> Inner()
    }

    constructor (text: Reading, pool: nat)
      requires text.AsMeant? || pool == 0
      ensures Valid() && fresh(Repr) && s == []
    {
      var q := new MQueue(text, pool);
      list := q;
      s := [];
      Repr := {this, q, q.buf} + q.Footprint();
    }

    lemma Readable()
      requires Valid()
      ensures exists ns :: list.ListIs(ns) && Spells(ns, s)
    {
      assert OpenQueue(0);
      assert list.ListIs(list.nodes) && Spells(list.nodes, s);
    }

    method Add(c: Ptr)
      requires Valid()
      modifies Repr
      ensures Valid() && fresh(Repr - old(Repr)) && s == [c] + old(s)
    {
      assert OpenQueue(0);
      list.Add(c);
      s := [c] + s;
      Repr := Repr + list.Footprint();
    }

    method Size() returns (n: int)
      requires Valid()
      ensures n == |s|
    {
      assert OpenQueue(0);
      n := list.count;
    }

    method PeekAt(i: int) returns (c: Ptr)
      requires Valid() && 0 <= i < |s|
      modifies Repr
      ensures Valid() && Repr == old(Repr) && s == old(s) && c == s[i]
    {
      assert OpenQueue(0);
      var r := list.PeekAt(i);
      c := r.value;
    }

    method RemoveItem(c: Ptr)
      requires Valid()
      modifies Repr
      ensures Valid() && Repr == old(Repr) && s == Without(old(s), c)
    {
      assert OpenQueue(0);
      var _ := list.RemoveItem(c);
      s := list.Contents();
    }

    ghost predicate FrontOrAbsent(c: Ptr)
      reads this
    {
      c !in s || (|s| >= 2 && s[0] == c)
    }

    /** The removal as written: the queue is in order exactly when the item was absent or at the front of two or more. */
    method RemoveItemAsWritten(c: Ptr)
      requires Valid()
      modifies Repr
      ensures (exists ns :: list.ListIs(ns) && Spells(ns, Without(old(s), c))) <==> old(FrontOrAbsent(c))
      ensures old(FrontOrAbsent(c)) ==> Valid() && s == Without(old(s), c)
      ensures Repr == old(Repr)
    {
      assert OpenQueue(0);
      s := Without(s, c);
      var _ := list.RemoveItemAsWritten(c);
    }
  }
}
