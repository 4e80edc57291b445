/** The chained hash table with int and string keys and a pool of recycled entries. */
module HashTables {
  import opened Text
  import opened Entries
  import opened TableRows
  import opened RowSums
  import opened BucketArrays

  class HTable {
    const buf: EntryPool
    var bk: Buckets
    var n: int

    ghost var M: map<Key, Ptr>   // what the table stands for

    /** The buckets hold exactly `M`, every key once and in the bucket it hashes to. */
    ghost predicate TableOk()
      reads this, bk, bk.entries, bk.lens, buf, bk.own
    {
      bk.buf == buf && bk.HeapOk() && Represents(bk.rows, M) && n == |M|
    }

    ghost predicate Valid()
      reads this, bk, bk.entries, bk.lens, buf, bk.own, buf.spare
    {
      TableOk() && buf.Valid()
    }

    constructor (text: Reading, init: nat, initbuf: nat)
      requires init > 0
      ensures Valid() && M == map[] && bk.size == init
      ensures buf.text == text && buf.init == initbuf && buf.nbuf == initbuf
      ensures fresh(buf) && fresh(bk) && fresh(bk.entries) && fresh(bk.lens) && fresh(buf.ours)
    {
      var pool := new EntryPool(text, initbuf);
      var b := new Buckets(pool, init);
      buf := pool;
      bk := b;
      n := 0;
      M := map[];
      new;
      RowsFromEach(bk.rows, 0, M);
    }

    method Find(k: Key) returns (prev: Entry?, e: Entry?, ghost i: nat)
      requires TableOk()
      ensures e == null <==> k !in M
      ensures e != null ==> var h := Slot(k, bk.size);
              && i < |bk.chains[h]| && e == bk.chains[h][i] && bk.rows[h][i] == Pair(k, M[k]) && e.data == M[k]
              && prev == (if i == 0 then null else bk.chains[h][i - 1])
    {
      RepresentsAt(bk.rows, M, Slot(k, bk.size));
      prev, e, i := bk.Walk(Slot(k, bk.size), k);
    }

    /** Storing a new key: nothing is overwritten. */
    method Put(k: Key, data: Ptr) returns (ret: int)
      requires Valid()
      modifies this, bk, bk.entries, bk.lens, buf, buf.spare
      ensures Valid() && buf.init == old(buf.init) && bk == old(bk)
      ensures if k in old(M) then ret == -1 && M == old(M) && unchanged(bk) else ret == 0 && M == old(M)[k := data]
      ensures k !in old(M) ==> PutInFront(old(bk.rows), bk.rows, k, data)
      ensures buf.nbuf == old(if k in M || buf.init == 0 || buf.nbuf == 0 then buf.nbuf else buf.nbuf - 1)
      ensures old(buf.live) <= buf.live && forall e :: e in buf.ours ==> e in old(buf.ours) || fresh(e)
      ensures forall e :: e in bk.own ==> e in old(bk.own) || e !in old(buf.live)
      ensures forall e :: e in buf.spare ==> e in old(buf.spare)
    {
      var _, e, _ := Find(k);
      if e != null {
        return -1;
      }
      Insert(k, data);
      ret := 0;
    }

    method Insert(k: Key, data: Ptr)
      requires Valid() && k !in M
      modifies this, bk, bk.entries, bk.lens, buf, buf.spare
      ensures Valid() && buf.init == old(buf.init) && bk == old(bk) && M == old(M)[k := data]
      ensures PutInFront(old(bk.rows), bk.rows, k, data)
      ensures buf.nbuf == old(if buf.init == 0 || buf.nbuf == 0 then buf.nbuf else buf.nbuf - 1)
      ensures old(buf.live) <= buf.live
      ensures forall e :: e in buf.ours ==> e in old(buf.ours) || fresh(e)
      ensures forall e :: e in bk.own ==> e in old(bk.own) || e !in old(buf.live)
      ensures forall e :: e in buf.spare ==> e in old(buf.spare)
    {
      PushRepresents(bk.rows, M, k, data);
      PushInFront(bk.rows, k, data);
      bk.Push(Slot(k, bk.size), k, data);
      n := n + 1;
      M := M[k := data];
    }

    method Get(k: Key) returns (r: Option<Ptr>)
      requires TableOk()
      ensures r == if k in M then Some(M[k]) else None
    {
      var _, e, _ := Find(k);
      r := if e != null then Some(e.data) else None;
    }

    /** Removal hands back the stored data. The pool survives exactly as `EntryPool.Release` says. */
    method Remove(k: Key) returns (r: Option<Ptr>)
      requires Valid()
      modifies this, bk, bk.entries, bk.lens, buf, bk.own, buf.spare
      ensures TableOk() && buf.init == old(buf.init) && bk == old(bk)
      ensures r == (if k in old(M) then Some(old(M)[k]) else None) && M == old(M) - {k}
      ensures buf.Valid() <==> (k !in old(M) || old(buf.ReleaseKeepsPool()))
      ensures buf.nbuf == old(if k !in M || buf.init == 0 || buf.nbuf >= 3 * buf.init then buf.nbuf else buf.nbuf + 1)
      ensures buf.ours == old(buf.ours)
    {
      r := None;
      var prev, e, i := Find(k);
      if e != null {
        r := Some(e.data);
        Detach(k, prev, e, i);
      }
    }

    method Detach(k: Key, prev: Entry?, e: Entry, ghost i: nat)
      requires Valid() && var h := Slot(k, bk.size); i < |bk.chains[h]| && e == bk.chains[h][i] && bk.rows[h][i].key == k
      requires prev == if i == 0 then null else bk.chains[Slot(k, bk.size)][i - 1]
      modifies this, bk, bk.entries, bk.lens, buf, bk.own, buf.spare
      ensures TableOk() && buf.init == old(buf.init) && bk == old(bk) && M == old(M) - {k}
      ensures buf.Valid() <==> old(buf.ReleaseKeepsPool())
      ensures buf.nbuf == old(if buf.init == 0 || buf.nbuf >= 3 * buf.init then buf.nbuf else buf.nbuf + 1)
      ensures buf.ours == old(buf.ours)
    {
      CutFacts(bk.rows, M, k, i);
      n := n - 1;
      M := M - {k};
      bk.Drop(Slot(k, bk.size), prev, e, i);
    }

    method Overwrite(k: Key, data: Ptr) returns (was: Ptr)
      requires Valid() && k in M
      modifies this, bk, bk.own
      ensures Valid() && bk == old(bk) && M == old(M)[k := data] && was == old(M)[k]
    {
      var _, e, i := Find(k);
      was := e.data;
      Refresh(k, e, i, data);
    }

    method Refresh(k: Key, e: Entry, ghost i: nat, data: Ptr)
      requires Valid() && var h := Slot(k, bk.size); i < |bk.chains[h]| && e == bk.chains[h][i] && bk.rows[h][i].key == k
      modifies this, bk, e`data
      ensures Valid() && bk == old(bk) && M == old(M)[k := data]
    {
      ghost var h := Slot(k, bk.size);
      SetFacts(bk.rows, M, h, i, data);
      M := M[k := data];
      bk.SetData(e, data, h, i);
    }

    /** Storing whether or not the key is there; what it replaces is handed back. */
    method Replace(k: Key, data: Ptr) returns (ret: int, replaced: Option<Ptr>)
      requires Valid()
      modifies this, bk, bk.entries, bk.lens, buf, bk.own, buf.spare
      ensures Valid() && buf.init == old(buf.init) && bk == old(bk)
      ensures M == old(M)[k := data]
      ensures if k in old(M) then ret == 1 && replaced == Some(old(M)[k]) else ret == 0 && replaced == None
      ensures buf.nbuf == old(if k in M || buf.init == 0 || buf.nbuf == 0 then buf.nbuf else buf.nbuf - 1)
      ensures forall e :: e in buf.ours ==> e in old(buf.ours) || fresh(e)
    {
      ret, replaced := 0, None;
      var put := Put(k, data);
      if put < 0 {
        var was := Overwrite(k, data);
        ret, replaced := 1, Some(was);
      }
    }

    /** Giving back an entry that no bucket holds leaves the table alone. */
    method GiveBack(e: Entry)
      requires Valid() && e in buf.live && e !in bk.own && buf.ReleaseKeepsPool()
      modifies buf, e`next, if buf.nbuf == 0 then {} else {buf.spare[|buf.spare| - 1]}`next
      ensures Valid() && buf.init == old(buf.init) && buf.live == old(buf.live) - {e} && buf.ours == old(buf.ours)
      ensures forall x :: x in buf.spare ==> x == e || x in old(buf.spare)
      ensures buf.nbuf == old(if buf.init == 0 || buf.nbuf >= 3 * buf.init then buf.nbuf else buf.nbuf + 1)
    {
      bk.GiveBack(e);
    }

    /** The buckets of `ob` from `b` on still hang their rows on entries in use that the table does not hold. */
    ghost predicate Waiting(ob: Buckets, b: nat)
      reads this, bk, buf, ob, ob.entries, ob.own
    {
      && ob.entries.Length == ob.size && |ob.chains| == ob.size && |ob.rows| == ob.size && b <= ob.size
      && (forall c, i :: b <= c < ob.size && 0 <= i < |ob.chains[c]| ==>
            ob.chains[c][i] in ob.own && ob.chains[c][i] in buf.live && ob.chains[c][i] !in bk.own)
      && (forall c :: b <= c < ob.size ==> Hangs(ob.chains[c], ob.entries[c], ob.rows[c], c))
    }

    /** In the middle of a rehash of the buckets `ob`, which hold `m`: the first `b` of them are moved. */
    ghost predicate Midway(ob: Buckets, b: nat, m: map<Key, Ptr>, init: nat, nbuf: int)
      reads this, bk, bk.entries, bk.lens, buf, bk.own, buf.spare, ob, ob.entries, ob.own
    {
      && Valid() && ob != bk && ob.entries != bk.entries
      && 0 < ob.size && Represents(ob.rows, m) && Waiting(ob, b) && M == Below(m, ob.size, b)
      && (m == map[] || buf.SwapKeepsPool())
      && buf.init == init && buf.nbuf == if M == map[] then nbuf else AfterSwap(init, nbuf)
    }

    /** The stored chain lengths add up to the number of entries. */
    lemma LengthsAddUp()
      requires TableOk()
      ensures n == Total(bk.rows)
      ensures forall b :: 0 <= b < bk.size ==> bk.lens[b] == |bk.rows[b]|
    {
      assert OpenBuckets(0);
      TotalIsCount(bk.rows, M);
    }
  }
}
