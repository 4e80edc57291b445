/** Enumerating the keys of a table, and emptying it by enumerating them. */
module Cleanups {
  import opened Text
  import opened Entries
  import opened RowSums
  import opened HashTables

  /** From `m0` to `m` exactly the int keys `ks` went, each once, and `bufs` is what they stored. */
  ghost predicate HandedBack(m0: map<Key, Ptr>, m: map<Key, Ptr>, ks: seq<Key>, bufs: seq<Ptr>) {
    && |bufs| == |ks|
    && (forall i, j :: 0 <= i < j < |ks| ==> ks[i] != ks[j])
    && (forall i :: 0 <= i < |ks| ==> ks[i].IntKey? && ks[i] in m0 && ks[i] !in m && bufs[i] == m0[ks[i]])
    && (forall k :: k in m0 ==> k in m || k in ks)
    && (forall k :: k in m ==> k in m0 && m[k] == m0[k])
  }

  lemma HandBackNext(m0: map<Key, Ptr>, m: map<Key, Ptr>, ks: seq<Key>, bufs: seq<Ptr>, k: Key)
    requires HandedBack(m0, m, ks, bufs) && k.IntKey?
    ensures if k in m then HandedBack(m0, m - {k}, ks + [k], bufs + [m[k]]) else HandedBack(m0, m - {k}, ks, bufs)
  {
  }

  /** With a capacity of at least the count, the enumeration lists every key of the table exactly
      once, an int key as itself and a string key as 0. */
  method AllIntKeys(t: HTable, cap: int) returns (keys: seq<int>, ghost ks: seq<Key>)
    requires t.TableOk() && cap >= t.n
    ensures |keys| == |ks| == t.n && NoRepeat(ks) && forall k :: k in ks <==> k in t.M
    ensures forall i :: 0 <= i < t.n ==> keys[i] == Code(ks[i])
    ensures (forall k :: k in t.M ==> k.IntKey?) ==> NoRepeat(keys)
    ensures forall k :: k in t.M && k.IntKey? ==> k.i in keys
  {
    EnumeratesEachOnce(t.bk.rows, t.M, cap);
    keys := t.bk.EnumIntKeys(cap);
    ks := KeysOf(Enumerated(t.bk.rows, cap));
  }

  method TakeOut(t: HTable, key: int, bufs: seq<Ptr>, ghost ks: seq<Key>, ghost m0: map<Key, Ptr>)
    returns (bufs': seq<Ptr>, ghost ks': seq<Key>)
    requires t.Valid() && t.buf.ReleaseAlwaysKeepsPool() && HandedBack(m0, t.M, ks, bufs)
    modifies t, t.bk, t.bk.entries, t.bk.lens, t.buf, t.buf.ours
    ensures t.Valid() && t.bk == old(t.bk) && t.buf.init == old(t.buf.init) && t.buf.ours == old(t.buf.ours)
    ensures t.M == old(t.M) - {IntKey(key)} && HandedBack(m0, t.M, ks', bufs')
  {
    bufs', ks' := bufs, ks;
    HandBackNext(m0, t.M, ks, bufs, IntKey(key));
    var r := t.Remove(IntKey(key));
    if r.Some? {
      bufs' := bufs + [r.value];
      ks' := ks + [IntKey(key)];
    }
  }

  /** The first `n` of the numbers are no keys of `m`. */
  ghost predicate Gone(keys: seq<int>, n: nat, m: map<Key, Ptr>) {
    n <= |keys| && forall j :: 0 <= j < n ==> IntKey(keys[j]) !in m
  }

  lemma GoneNext(keys: seq<int>, n: nat, m: map<Key, Ptr>)
    requires n < |keys| && Gone(keys, n, m)
    ensures Gone(keys, n + 1, m - {IntKey(keys[n])})
  {
  }

  /** Count, enumerate, remove each: every int key goes, and each of their stored
      buffers is handed back exactly once. String keys stay. */
  method Cleanup(t: HTable) returns (bufs: seq<Ptr>, ghost ks: seq<Key>)
    requires t.Valid() && t.buf.ReleaseAlwaysKeepsPool()
    modifies t, t.bk, t.bk.entries, t.bk.lens, t.buf, t.buf.ours
    ensures t.Valid() && t.bk == old(t.bk) && t.buf.init == old(t.buf.init) && t.buf.ours == old(t.buf.ours)
    ensures HandedBack(old(t.M), t.M, ks, bufs)
    ensures forall k :: k in t.M ==> k.StrKey?
  {
    bufs, ks := [], [];
    var keys, _ := AllIntKeys(t, t.n);
    var itr := 0;
    while itr < |keys|
      invariant Gone(keys, itr, t.M) && t.bk == old(t.bk) && t.buf.init == old(t.buf.init)
      invariant t.Valid() && t.buf.ReleaseAlwaysKeepsPool() && t.buf.ours == old(t.buf.ours)
      invariant HandedBack(old(t.M), t.M, ks, bufs)
    {
      GoneNext(keys, itr, t.M);
      bufs, ks := TakeOut(t, keys[itr], bufs, ks, old(t.M));
      itr := itr + 1;
    }
  }
}
