/** A hash table of int keys together with everything it may write to, for use inside larger structures. */
module IntTables {
  import opened Text
  import opened Entries
  import opened HashTables
  import opened Cleanups
  import opened BucketArrays
  import opened Spreads

  /** The key to what this module closes: a predicate of the form `forall d :: OpenTable(d) ==> P` is passed
      on as a whole by proofs that do not mention the key, and `assert OpenTable(0)` looks into it. */
  ghost predicate OpenTable(d: nat) {
    d >= 0
  }

  /** The table, all of whose keys are ints, stands for the map `m`. */
  ghost predicate Stands(all: map<Key, Ptr>, m: map<int, Ptr>) {
    && (forall k :: k in all ==> k.IntKey? && k.i in m && m[k.i] == all[k])
    && (forall i :: i in m ==> IntKey(i) in all)
  }

  lemma StandsPut(all: map<Key, Ptr>, m: map<int, Ptr>, i: int, d: Ptr)
    requires Stands(all, m)
    ensures Stands(all[IntKey(i) := d], m[i := d]) && Stands(all - {IntKey(i)}, m - {i})
  {
  }

  /** `bufs` is what was stored under the keys of `m`, each once. */
  ghost predicate EachOnce(m: map<int, Ptr>, bufs: seq<Ptr>, ks: seq<int>) {
    && NoRepeat(ks) && |ks| == |bufs| && (forall k :: k in ks <==> k in m)
    && forall j :: 0 <= j < |ks| ==> ks[j] in m && bufs[j] == m[ks[j]]
  }

  lemma HandsBackEachOnce(all: map<Key, Ptr>, m: map<int, Ptr>, rest: map<Key, Ptr>, ks: seq<Key>, bufs: seq<Ptr>)
    returns (ids: seq<int>)
    requires Stands(all, m) && HandedBack(all, rest, ks, bufs) && forall k :: k in rest ==> k.StrKey?
    ensures rest == map[] && EachOnce(m, bufs, ids)
  {
    assert forall k :: k in rest ==> k in all;
    assert rest.Keys == {};
    ids := seq(|ks|, j requires 0 <= j < |ks| => if ks[j].IntKey? then ks[j].i else 0);
    assert forall j :: 0 <= j < |ids| ==> ks[j] == IntKey(ids[j]);
    forall i
      ensures i in ids <==> i in m
    {
      if i in m {
        assert IntKey(i) in ks;
        var j :| 0 <= j < |ks| && ks[j] == IntKey(i);
        assert ids[j] == i;
      }
    }
  }

  /** Everything the table's validity depends on is in `repr`. */
  ghost predicate Covers(repr: set<object>, t: HTable)
    reads t, t.bk, t.buf
  {
    && t in repr && t.bk in repr && t.buf in repr && t.bk.entries in repr && t.bk.lens in repr
    && t.buf.ours <= repr && t.bk.own <= t.buf.ours
    && forall i :: 0 <= i < |t.buf.spare| ==> t.buf.spare[i] in t.buf.ours
  }

  method PutInto(t: HTable, k: int, d: Ptr) returns (ret: int)
    requires t.Valid()
    modifies t, t.bk, t.bk.entries, t.bk.lens, t.buf, t.buf.ours
    ensures t.Valid() && t.buf.init == old(t.buf.init) && t.bk == old(t.bk)
    ensures if IntKey(k) in old(t.M) then ret == -1 && t.M == old(t.M) else ret == 0 && t.M == old(t.M)[IntKey(k) := d]
    ensures forall e :: e in t.buf.ours ==> e in old(t.buf.ours) || fresh(e)
    ensures t.bk.own <= t.buf.ours && forall i :: 0 <= i < |t.buf.spare| ==> t.buf.spare[i] in t.buf.ours
  {
    ret := t.Put(IntKey(k), d);
  }

  method TakeFrom(t: HTable, k: int) returns (r: Option<Ptr>)
    requires t.Valid() && t.buf.ReleaseAlwaysKeepsPool()
    modifies t, t.bk, t.bk.entries, t.bk.lens, t.buf, t.buf.ours
    ensures t.Valid() && t.buf.init == old(t.buf.init) && t.bk == old(t.bk) && t.buf.ours == old(t.buf.ours)
    ensures r == (if IntKey(k) in old(t.M) then Some(old(t.M)[IntKey(k)]) else None) && t.M == old(t.M) - {IntKey(k)}
    ensures t.bk.own <= t.buf.ours && forall i :: 0 <= i < |t.buf.spare| ==> t.buf.spare[i] in t.buf.ours
  {
    r := t.Remove(IntKey(k));
  }

  method EmptyOut(t: HTable, ghost m: map<int, Ptr>) returns (bufs: seq<Ptr>, ghost ks: seq<int>)
    requires t.Valid() && t.buf.ReleaseAlwaysKeepsPool() && Stands(t.M, m)
    modifies t, t.bk, t.bk.entries, t.bk.lens, t.buf, t.buf.ours
    ensures t.Valid() && t.buf.init == old(t.buf.init) && t.bk == old(t.bk) && t.buf.ours == old(t.buf.ours)
    ensures t.M == map[] && EachOnce(m, bufs, ks)
    ensures t.bk.own <= t.buf.ours && forall i :: 0 <= i < |t.buf.spare| ==> t.buf.spare[i] in t.buf.ours
  {
    ghost var keys;
    bufs, keys := Cleanup(t);
    ks := HandsBackEachOnce(old(t.M), m, t.M, keys, bufs);
  }

  lemma SizeIsRows(t: HTable)
    requires t.Valid()
    ensures |t.bk.rows| == t.bk.size
  {
    assert OpenBuckets(0);
  }

  class IntTable {
    const table: HTable
    ghost const size: nat
    ghost var m: map<int, Ptr>
    ghost var Repr: set<object>

    /** The pool is as meant or has size 0, so that every operation keeps it. */
    ghost predicate Inner()
      reads this, Repr
    {
      && this in Repr && table in Repr && table.bk in Repr && table.buf in Repr && Covers(Repr, table)
      && table.Valid() && table.buf.ReleaseAlwaysKeepsPool() && Stands(table.M, m) && table.bk.size == size
    }

    /** Closed to those who use the table. */
    ghost predicate Valid()
      reads this, Repr
    {
      this in Repr && forall d: nat {:trigger OpenTable(d)} :: OpenTable(d) ==> Inner()
    }

    constructor (text: Reading, size: nat, pool: nat)
      requires size > 0 && (text.AsMeant? || pool == 0)
      ensures Valid() && fresh(Repr) && m == map[] && this.size == size
    {
      var t := new HTable(text, size, pool);
      table, this.size := t, size;
      m := map[];
      Repr := {this, t, t.bk, t.buf, t.bk.entries, t.bk.lens} + t.buf.ours;
    }

    /** Consecutive numbers, at most as many as there are buckets, never share one. */
    lemma ShortChains(lo: int)
      requires Valid() && forall k :: k in m ==> 0 <= k < WORD && lo <= k < lo + size
      ensures forall b :: 0 <= b < |table.bk.rows| ==> |table.bk.rows[b]| <= 1
    {
      assert OpenTable(0);
      forall b | 0 <= b < |table.bk.rows|
        ensures |table.bk.rows[b]| <= 1
      {
        SizeIsRows(table);
        ConsecutiveApart(table.bk.rows, table.M, lo, b);
      }
    }

    method Put(k: int, d: Ptr) returns (ret: int)
      requires Valid()
      modifies Repr
      ensures Valid() && fresh(Repr - old(Repr))
      ensures if k in old(m) then ret == -1 && m == old(m) else ret == 0 && m == old(m)[k := d]
    {
      assert OpenTable(0);
      ret := PutInside(k, d);
    }

    method PutInside(k: int, d: Ptr) returns (ret: int)
      requires Inner()
      modifies Repr
      ensures Inner() && fresh(Repr - old(Repr))
      ensures if k in old(m) then ret == -1 && m == old(m) else ret == 0 && m == old(m)[k := d]
    {
      StandsPut(table.M, m, k, d);
      m := if k in m then m else m[k := d];
      ret := PutInto(table, k, d);
      Repr := Repr + table.buf.ours;
    }

    method Get(k: int) returns (r: Option<Ptr>)
      requires Valid()
      ensures r == if k in m then Some(m[k]) else None
    {
      assert OpenTable(0);
      r := table.Get(IntKey(k));
    }

    method Remove(k: int) returns (r: Option<Ptr>)
      requires Valid()
      modifies Repr
      ensures Valid() && Repr == old(Repr)
      ensures r == (if k in old(m) then Some(old(m)[k]) else None) && m == old(m) - {k}
    {
      assert OpenTable(0);
      r := RemoveInside(k);
    }

    method RemoveInside(k: int) returns (r: Option<Ptr>)
      requires Inner()
      modifies Repr
      ensures Inner() && Repr == old(Repr)
      ensures r == (if k in old(m) then Some(old(m)[k]) else None) && m == old(m) - {k}
    {
      StandsPut(table.M, m, k, 0);
      m := m - {k};
      r := TakeFrom(table, k);
    }

    /** Count, enumerate, remove each: the table is empty, and each stored buffer handed back once. */
    method Empty() returns (bufs: seq<Ptr>, ghost ks: seq<int>)
      requires Valid()
      modifies Repr
      ensures Valid() && Repr == old(Repr) && m == map[] && EachOnce(old(m), bufs, ks)
    {
      assert OpenTable(0);
      bufs, ks := EmptyInside();
    }

    method EmptyInside() returns (bufs: seq<Ptr>, ghost ks: seq<int>)
      requires Inner()
      modifies Repr
      ensures Inner() && Repr == old(Repr) && m == map[] && EachOnce(old(m), bufs, ks)
    {
      ghost var was := m;
      m := map[];
      bufs, ks := EmptyOut(table, was);
    }
  }
}
