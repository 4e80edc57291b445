/** Rehashing: every entry is copied into new buckets while the old chains are consumed. */
module Rehashes {
  import opened Entries
  import opened TableRows
  import opened BucketArrays
  import opened HashTables

  /** One step of the rehash: the entry is copied into the table and given back. */
  method MoveOne(t: HTable, e: Entry) returns (next: Entry?)
    requires t.Valid() && t.buf.SwapKeepsPool() && e in t.buf.live && e !in t.bk.own && e.key !in t.M
    modifies t, t.bk, t.bk.entries, t.bk.lens, t.buf, t.buf.spare, e`next
    ensures t.Valid() && t.bk == old(t.bk) && t.buf.init == old(t.buf.init)
    ensures t.M == old(t.M)[e.key := e.data] && next == old(e.next)
    ensures t.buf.SwapKeepsPool() && t.buf.nbuf == AfterSwap(t.buf.init, old(t.buf.nbuf))
    ensures forall x :: x in old(t.buf.live) && x != e ==> x in t.buf.live && (x in t.bk.own ==> x in old(t.bk.own))
    ensures forall x :: x in t.buf.spare ==> x in old(t.buf.spare) || x == e
    ensures forall x :: x in t.buf.ours ==> x in old(t.buf.ours) || fresh(x)
  {
    t.Insert(e.key, e.data);
    next := e.next;
    assert t.buf.nbuf > 0 ==> t.buf.spare[|t.buf.spare| - 1] in t.buf.spare;
    t.GiveBack(e);
  }

  /** The entries `rest` are in use, but not by the table. */
  ghost predicate Aside(t: HTable, rest: set<Entry>)
    reads t, t.bk, t.buf
  {
    rest <= t.buf.live && rest !! t.bk.own
  }

  /** The chain `ns` from position `j` on is in use, but not by the table, which lacks its keys. */
  ghost predicate Pending(t: HTable, ns: seq<Entry>, row: seq<Pair>, j: nat)
    requires |ns| == |row|
    reads t, t.bk, t.buf
  {
    forall i :: j <= i < |ns| ==> ns[i] in t.buf.live && ns[i] !in t.bk.own && row[i].key !in t.M
  }

  method MoveAt(t: HTable, e: Entry, ghost ns: seq<Entry>, ghost j: nat, ghost row: seq<Pair>, ghost b: int,
                ghost rest: set<Entry>, ghost area: set<Entry>)
    returns (next: Entry?)
    requires t.Valid() && t.buf.SwapKeepsPool() && j < |ns| == |row| && Hangs(ns[j..], e, row[j..], b)
    requires Pending(t, ns, row, j) && Aside(t, rest) && ns[j] !in rest
    requires forall i, j :: 0 <= i < j < |row| ==> row[i].key != row[j].key
    requires ns[j] in area && forall x :: x in t.buf.spare ==> x in area
    modifies t, t.bk, t.bk.entries, t.bk.lens, t.buf, area
    ensures t.Valid() && t.bk == old(t.bk) && t.buf.init == old(t.buf.init)
    ensures t.M == old(t.M)[row[j].key := row[j].data] && Hangs(ns[j + 1..], next, row[j + 1..], b)
    ensures t.buf.SwapKeepsPool() && t.buf.nbuf == AfterSwap(t.buf.init, old(t.buf.nbuf))
    ensures Pending(t, ns, row, j + 1) && Aside(t, rest)
    ensures forall x :: x in t.buf.spare ==> x in area
    ensures forall x :: x in t.buf.ours ==> x in old(t.buf.ours) || fresh(x)
  {
    HangsTail(ns, j, row, b);
    next := MoveOne(t, e);
  }

  /** Moving one old chain into the table, each entry given back once it is copied. */
  method MoveChain(t: HTable, head: Entry?, ghost ns: seq<Entry>, ghost row: seq<Pair>, ghost b: int,
                   ghost rest: set<Entry>, ghost area: set<Entry>)
    requires t.Valid() && t.buf.SwapKeepsPool() && Hangs(ns, head, row, b)
    requires Pending(t, ns, row, 0) && Aside(t, rest)
    requires forall i, j :: 0 <= i < j < |row| ==> row[i].key != row[j].key
    requires forall i :: 0 <= i < |ns| ==> ns[i] in area && ns[i] !in rest
    requires forall x :: x in t.buf.spare ==> x in area
    modifies t, t.bk, t.bk.entries, t.bk.lens, t.buf, area
    ensures t.Valid() && t.bk == old(t.bk) && t.buf.init == old(t.buf.init) && t.M == old(t.M) + RowMap(row)
    ensures t.buf.SwapKeepsPool() && Aside(t, rest)
    ensures t.buf.nbuf == if row == [] then old(t.buf.nbuf) else AfterSwap(t.buf.init, old(t.buf.nbuf))
    ensures forall x :: x in t.buf.spare ==> x in area
    ensures forall x :: x in t.buf.ours ==> x in old(t.buf.ours) || fresh(x)
  {
    ghost var j := 0;
    var e := head;
    while e != null
      invariant 0 <= j <= |ns|
      invariant t.Valid() && t.bk == old(t.bk) && t.buf.init == old(t.buf.init)
      invariant Hangs(ns[j..], e, row[j..], b) && Pending(t, ns, row, j)
      invariant t.buf.SwapKeepsPool() && Aside(t, rest)
      invariant t.M == old(t.M) + RowMap(row[..j])
      invariant t.buf.nbuf == if j == 0 then old(t.buf.nbuf) else AfterSwap(t.buf.init, old(t.buf.nbuf))
      invariant forall x :: x in t.buf.spare ==> x in area
      invariant forall x :: x in t.buf.ours ==> x in old(t.buf.ours) || fresh(x)
      decreases |ns| - j
    {
      assert j < |ns| && e == ns[j];
      e := MoveAt(t, e, ns, j, row, b, rest, area);
      RowMapNext(old(t.M), row, j);
      j := j + 1;
    }
    assert row[..j] == row;
  }

  /** The same, stated without naming the area; entries in use elsewhere are untouched. */
  method MoveList(t: HTable, head: Entry?, ghost ns: seq<Entry>, ghost row: seq<Pair>, ghost b: int)
    requires t.Valid() && t.buf.SwapKeepsPool() && Hangs(ns, head, row, b) && Pending(t, ns, row, 0)
    requires forall i, j :: 0 <= i < j < |row| ==> row[i].key != row[j].key
    modifies t, t.bk, t.bk.entries, t.bk.lens, t.buf, t.buf.spare, ns
    ensures t.Valid() && t.bk == old(t.bk) && t.buf.init == old(t.buf.init) && t.M == old(t.M) + RowMap(row)
    ensures t.buf.SwapKeepsPool()
    ensures t.buf.nbuf == if row == [] then old(t.buf.nbuf) else AfterSwap(t.buf.init, old(t.buf.nbuf))
    ensures forall x :: x in old(t.buf.live) && x !in old(t.bk.own) && x !in ns ==>
              unchanged(x) && x in t.buf.live && x !in t.bk.own
    ensures forall x :: x in t.buf.spare ==> x in old(t.buf.spare) || x in ns
    ensures forall x :: x in t.buf.ours ==> x in old(t.buf.ours) || fresh(x)
  {
    ghost var area := (set x | x in t.buf.spare) + (set x | x in ns);
    ghost var rest := t.buf.live - t.bk.own - area;
    assert forall x :: x in t.buf.live && x !in t.bk.own && x !in ns ==> x in rest;
    MoveChain(t, head, ns, row, b, rest, area);
  }

  method MoveBucket(t: HTable, ob: Buckets, b: nat)
    requires t.Valid() && t.buf.SwapKeepsPool() && b < ob.size && t.Waiting(ob, b)
    requires ob != t.bk && ob.entries != t.bk.entries
    requires forall i :: 0 <= i < |ob.rows[b]| ==> ob.rows[b][i].key !in t.M
    requires forall i, j :: 0 <= i < j < |ob.rows[b]| ==> ob.rows[b][i].key != ob.rows[b][j].key
    modifies t, t.bk, t.bk.entries, t.bk.lens, t.buf, t.buf.spare, ob.own
    ensures t.Valid() && t.bk == old(t.bk) && t.buf.init == old(t.buf.init) && t.M == old(t.M) + RowMap(ob.rows[b])
    ensures t.buf.SwapKeepsPool()
    ensures t.buf.nbuf == if ob.rows[b] == [] then old(t.buf.nbuf) else AfterSwap(t.buf.init, old(t.buf.nbuf))
    ensures t.Waiting(ob, b + 1)
    ensures forall x :: x in t.buf.spare ==> x in old(t.buf.spare) || x in ob.own
    ensures forall x :: x in t.buf.ours ==> x in old(t.buf.ours) || fresh(x)
  {
    ghost var ns := ob.chains[b];
    assert forall c, i :: b < c < ob.size && 0 <= i < |ob.chains[c]| ==>
        ob.chains[c][i] in t.buf.live && ob.chains[c][i] !in t.bk.own && ob.chains[c][i] !in ns;
    MoveList(t, ob.entries[b], ns, ob.rows[b], b);
  }

  /** There is nothing to move, or moving keeps the pool. */
  ghost predicate Movable(t: HTable, m: map<Key, Ptr>)
    reads t, t.buf
  {
    m == map[] || t.buf.SwapKeepsPool()
  }

  method MoveNext(t: HTable, ob: Buckets, b: nat, ghost m: map<Key, Ptr>)
    requires t.Valid() && Movable(t, m) && b < ob.size && t.Waiting(ob, b)
    requires ob != t.bk && ob.entries != t.bk.entries && Represents(ob.rows, m) && t.M == Below(m, ob.size, b)
    modifies t, t.bk, t.bk.entries, t.bk.lens, t.buf, t.buf.spare, ob.own
    ensures t.Valid() && t.bk == old(t.bk) && t.buf.init == old(t.buf.init) && t.M == Below(m, ob.size, b + 1)
    ensures Movable(t, m) && t.Waiting(ob, b + 1)
    ensures t.buf.nbuf == if t.M == old(t.M) then old(t.buf.nbuf) else AfterSwap(t.buf.init, old(t.buf.nbuf))
    ensures old(t.M) != map[] ==> t.M != map[]
    ensures forall x :: x in t.buf.spare ==> x in old(t.buf.spare) || x in ob.own
    ensures forall x :: x in t.buf.ours ==> x in old(t.buf.ours) || fresh(x)
  {
    BelowNext(ob.rows, m, b);
    assert Hangs(ob.chains[b], ob.entries[b], ob.rows[b], b);
    if ob.entries[b] != null {
      MoveBucket(t, ob, b);
    }
  }

  method MoveOn(t: HTable, ob: Buckets, b: nat, ghost m: map<Key, Ptr>, ghost init: nat, ghost nbuf: int)
    requires b < ob.size && t.Midway(ob, b, m, init, nbuf)
    modifies t, t.bk, t.bk.entries, t.bk.lens, t.buf, t.buf.spare, ob.own
    ensures t.Midway(ob, b + 1, m, init, nbuf) && t.bk == old(t.bk)
    ensures forall x :: x in t.buf.spare ==> x in old(t.buf.spare) || x in ob.own
    ensures forall x :: x in t.buf.ours ==> x in old(t.buf.ours) || fresh(x)
  {
    MoveNext(t, ob, b, m);
  }

  method MoveAll(t: HTable, ob: Buckets, ghost m: map<Key, Ptr>)
    requires t.M == map[] && t.Midway(ob, 0, m, t.buf.init, t.buf.nbuf)
    modifies t, t.bk, t.bk.entries, t.bk.lens, t.buf, t.buf.spare, ob.own
    ensures t.bk == old(t.bk) && t.Midway(ob, ob.size, m, old(t.buf.init), old(t.buf.nbuf))
    ensures forall x :: x in t.buf.ours ==> x in old(t.buf.ours) || fresh(x)
  {
    var b := 0;
    while b < ob.size
      invariant 0 <= b <= ob.size && t.bk == old(t.bk) && t.Midway(ob, b, m, old(t.buf.init), old(t.buf.nbuf))
      invariant forall x :: x in t.buf.spare ==> x in old(t.buf.spare) || x in ob.own
      invariant forall x :: x in t.buf.ours ==> x in old(t.buf.ours) || fresh(x)
    {
      MoveOn(t, ob, b, m, old(t.buf.init), old(t.buf.nbuf));
      b := b + 1;
    }
  }

  /** Rehashing to any positive size keeps the whole map and the count, although
      the old chains are consumed while they are walked. As written the pool survives that
      if there is nothing to move, or at most one entry in the pool; see `LosesTail`. */
  method Rehash(t: HTable, newsize: nat)
    requires t.Valid() && newsize > 0 && (newsize == t.bk.size || Movable(t, t.M))
    modifies t, t.buf, t.buf.ours
    ensures t.Valid() && t.buf.init == old(t.buf.init)
    ensures t.M == old(t.M) && t.n == old(t.n) && t.bk.size == newsize
    ensures t.bk == old(t.bk) || (fresh(t.bk) && fresh(t.bk.entries) && fresh(t.bk.lens))
    ensures t.buf.nbuf == if newsize == old(t.bk.size) || t.M == map[] then old(t.buf.nbuf)
                          else AfterSwap(t.buf.init, old(t.buf.nbuf))
    ensures forall x :: x in t.buf.ours ==> x in old(t.buf.ours) || fresh(x)
  {
    if newsize == t.bk.size {
      return;
    }
    ghost var m := t.M;
    var ob := Restart(t, newsize);
    BelowEnds(m, ob.size);
    MoveAll(t, ob, m);
  }

  /** An empty table of the new size, with the old buckets waiting to be moved. */
  method Restart(t: HTable, newsize: nat) returns (ob: Buckets)
    requires t.Valid() && newsize > 0
    modifies t
    ensures t.Valid() && t.M == map[] && t.bk.size == newsize && fresh(t.bk) && fresh(t.bk.entries) && fresh(t.bk.lens)
    ensures ob == old(t.bk) && Represents(ob.rows, old(t.M)) && t.Waiting(ob, 0) && ob.own <= t.buf.ours
  {
    ob := t.bk;
    var nb := new Buckets(t.buf, newsize);
    RowsFromEach(nb.rows, 0, map[]);
    SwapIn(t, nb);
  }

  method SwapIn(t: HTable, nb: Buckets)
    requires t.Valid() && nb.buf == t.buf && nb.HeapOk() && nb.own == {} && Represents(nb.rows, map[])
    modifies t
    ensures t.Valid() && t.M == map[] && t.bk == nb && t.Waiting(old(t.bk), 0)
  {
    ghost var ob := t.bk;
    t.n := 0;
    t.M := map[];
    t.bk := nb;
    assert OpenBuckets(0);
    assert ob.HeapOk();
  }

  // ----- As written, with more than one entry in the pool -----

  /** The first entry moved already loses the pool's tail. */
  method MoveLosesTail(t: HTable, e: Entry)
    requires t.Valid() && !t.buf.SwapKeepsPool() && e in t.buf.live && e !in t.bk.own && e.key !in t.M
    modifies t, t.bk, t.bk.entries, t.bk.lens, t.buf, t.buf.ours
    ensures !t.buf.Valid()
  {
    t.Insert(e.key, e.data);
    t.buf.Release(e);
  }

  /** The rehash of a table that is not empty, up to and including the first entry moved. */
  method LosesTail(t: HTable, newsize: nat)
    requires t.Valid() && newsize > 0 && newsize != t.bk.size && !Movable(t, t.M)
    modifies t, t.buf, t.buf.ours
    ensures !t.buf.Valid()
  {
    ghost var m := t.M;
    var ob := Restart(t, newsize);
    var b := FirstBucket(t, ob, m);
    assert Hangs(ob.chains[b], ob.entries[b], ob.rows[b], b);
    assert ob.entries[b] == ob.chains[b][0];
    MoveLosesTail(t, ob.entries[b]);
  }

  /** The first bucket of the old ones that is not empty. */
  method FirstBucket(t: HTable, ob: Buckets, ghost m: map<Key, Ptr>) returns (b: nat)
    requires Represents(ob.rows, m) && m != map[] && t.Waiting(ob, 0)
    ensures b < ob.size && ob.entries[b] != null
  {
    BelowEnds(m, ob.size);
    b := 0;
    while ob.entries[b] == null
      invariant b < ob.size && Below(m, ob.size, b) == map[]
      decreases ob.size - b
    {
      assert Hangs(ob.chains[b], ob.entries[b], ob.rows[b], b);
      BelowNext(ob.rows, m, b);
      b := b + 1;
    }
  }
}
