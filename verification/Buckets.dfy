/** The bucket array of the hash table: chains of entries with their stored lengths. */
module BucketArrays {
  import opened Text
  import opened Entries
  import opened TableRows
  import opened RowSums

  /** The entries `ns` hang on `head`, spell out `row`, and are marked with bucket `b`. */
  ghost predicate Hangs(ns: seq<Entry>, head: Entry?, row: seq<Pair>, b: int)
    reads ns
  {
    && Linked(ns, head)
    && |ns| == |row|
    && (forall i {:trigger ns[i]} :: 0 <= i < |ns| ==>
          ns[i].key == row[i].key && ns[i].data == row[i].data && ns[i].hash == b)
  }

  lemma CutHangs(ns: seq<Entry>, k: nat, head: Entry?, row: seq<Pair>, b: int)
    requires k < |ns| == |row|
    requires forall i {:trigger ns[i].next} :: 0 <= i < |ns| && i != k - 1 && i != k ==>
               ns[i].next == if i + 1 < |ns| then ns[i + 1] else null
    requires k > 0 ==> ns[k - 1].next == if k + 1 < |ns| then ns[k + 1] else null
    requires head == if k > 0 then ns[0] else if |ns| > 1 then ns[1] else null
    requires forall i {:trigger ns[i]} :: 0 <= i < |ns| ==>
               ns[i].key == row[i].key && ns[i].data == row[i].data && ns[i].hash == b
    ensures Hangs(ns[..k] + ns[k + 1..], head, row[..k] + row[k + 1..], b)
  {
  }

  lemma HangsTail(ns: seq<Entry>, j: nat, row: seq<Pair>, b: int)
    requires j < |ns| == |row| && Hangs(ns[j..], ns[j], row[j..], b)
    requires forall i, j :: 0 <= i < j < |row| ==> row[i].key != row[j].key
    ensures Hangs(ns[j + 1..], ns[j].next, row[j + 1..], b)
    ensures ns[j].key == row[j].key && ns[j].data == row[j].data
    ensures forall i :: j < i < |ns| ==> ns[i] != ns[j]
  {
  }

  /** The key to what this module closes: a predicate of the form `forall d :: OpenBuckets(d) ==> P` is passed
      on as a whole by proofs that do not mention the key, and `assert OpenBuckets(0)` looks into it. */
  ghost predicate OpenBuckets(d: nat) {
    d >= 0
  }

  class Buckets {
    const buf: EntryPool
    const size: nat
    const entries: array<Entry?>
    const lens: array<int>

    ghost var chains: seq<seq<Entry>>   // the entries of every bucket
    ghost var rows: Rows                // what they spell out
    ghost var own: set<Entry>           // all of them

    /** Every bucket has a chain of own entries, as long as its row. */
    ghost predicate Shape()
      reads this
    {
      && size > 0 && entries.Length == size && lens.Length == size && |chains| == size && |rows| == size
      && (forall b :: 0 <= b < size ==> |chains[b]| == |rows[b]|)
      && (forall b, i :: 0 <= b < size && 0 <= i < |chains[b]| ==> chains[b][i] in own)
    }

    /** The chains hang the rows on the buckets, with their lengths stored. */
    ghost predicate Linkage()
      requires Shape()
      reads this, entries, lens, own
    {
      && (forall b :: 0 <= b < size ==> Hangs(chains[b], entries[b], rows[b], b))
      && (forall b :: 0 <= b < size ==> lens[b] == |rows[b]|)
    }

    /** All own entries are in use. How they are linked is closed. */
    ghost predicate HeapOk()
      reads this, entries, lens, buf, own
    {
      Shape() && own <= buf.live && forall d: nat {:trigger OpenBuckets(d)} :: OpenBuckets(d) ==> Linkage()
    }

    ghost predicate Valid()
      reads this, entries, lens, buf, own, buf.spare
    {
      HeapOk() && buf.Valid()
    }

    constructor (buf: EntryPool, init: nat)
      requires init > 0 && buf.Valid()
      ensures Valid() && this.buf == buf && size == init && rows == seq(init, _ => []) && own == {}
      ensures fresh(entries) && fresh(lens)
    {
      this.buf := buf;
      size := init;
      entries := new Entry?[init](_ => null);
      lens := new int[init](_ => 0);
      chains := seq(init, _ => []);
      rows := seq(init, _ => []);
      own := {};
    }

    /** The walk along a chain, with the entry before the one found. */
    method Walk(h: nat, k: Key) returns (prev: Entry?, e: Entry?, ghost i: nat)
      requires HeapOk() && h < size
      ensures e == null <==> !HasKey(rows[h], k)
      ensures e != null ==> i < |chains[h]| && e == chains[h][i] && e.key == k && rows[h][i] == Pair(k, e.data)
      ensures e != null ==> prev == if i == 0 then null else chains[h][i - 1]
    {
      assert OpenBuckets(0);
      ghost var ns := chains[h];
      assert Hangs(ns, entries[h], rows[h], h);
      prev, e, i := null, entries[h], 0;
      while e != null && e.key != k
        invariant 0 <= i <= |ns|
        invariant e == if i < |ns| then ns[i] else null
        invariant prev == if i == 0 then null else ns[i - 1]
        invariant forall j :: 0 <= j < i ==> rows[h][j].key != k
        decreases |ns| - i
      {
        prev, e, i := e, e.next, i + 1;
      }
    }

    /** Filling in an entry that no bucket holds. */
    method Fill(e: Entry, h: nat, k: Key, data: Ptr)
      requires HeapOk() && h < size && e !in own
      modifies e
      ensures HeapOk() && e.key == k && e.hash == h && e.data == data && e.next == entries[h]
    {
      assert OpenBuckets(0);
      e.key := k;
      e.hash := h;
      e.data := data;
      e.next := entries[h];
    }

    /** Linking such an entry at the front of its bucket. */
    method HangFront(e: Entry, h: nat, k: Key, data: Ptr)
      requires HeapOk() && h < size && e in buf.live && e !in own
      requires e.key == k && e.hash == h && e.data == data && e.next == entries[h]
      modifies this, entries, lens
      ensures HeapOk() && own == old(own) + {e}
      ensures rows == old(rows)[h := [Pair(k, data)] + old(rows)[h]]
    {
      assert OpenBuckets(0);
      ghost var ns, row := [e] + chains[h], [Pair(k, data)] + rows[h];
      assert Hangs(chains[h], entries[h], rows[h], h);
      assert Hangs(ns, e, row, h);
      entries[h] := e;
      lens[h] := lens[h] + 1;
      chains := chains[h := ns];
      rows := rows[h := row];
      own := own + {e};
    }

    /** A new entry at the front of bucket `h`. */
    method Push(h: nat, k: Key, data: Ptr)
      requires Valid() && h < size
      modifies this, entries, lens, buf, buf.spare
      ensures Valid() && rows == old(rows)[h := [Pair(k, data)] + old(rows)[h]]
      ensures buf.init == old(buf.init) && old(buf.live) <= buf.live
      ensures buf.nbuf == old(if buf.init == 0 || buf.nbuf == 0 then buf.nbuf else buf.nbuf - 1)
      ensures forall e :: e in buf.ours ==> e in old(buf.ours) || fresh(e)
      ensures forall e :: e in own ==> e in old(own) || e !in old(buf.live)
      ensures forall e :: e in buf.spare ==> e in old(buf.spare)
    {
      var e := buf.Alloc();
      assert HeapOk();
      Fill(e, h, k, data);
      HangFront(e, h, k, data);
    }

    /** Unlinking the entry at position `i` of bucket `h`: the heap part. */
    method Unhang(h: nat, prev: Entry?, e: Entry, ghost i: nat)
      requires HeapOk() && buf.Valid() && h < size && i < |chains[h]| && e == chains[h][i]
      requires prev == if i == 0 then null else chains[h][i - 1]
      requires forall j, k :: 0 <= j < k < |rows[h]| ==> rows[h][j].key != rows[h][k].key
      modifies this, entries, lens
      modifies if prev == null then {} else {prev}`next
      ensures HeapOk() && buf.Valid()
      ensures rows == old(rows)[h := old(rows)[h][..i] + old(rows)[h][i + 1..]]
      ensures own == old(own) - {e} && e in old(own)
    {
      assert OpenBuckets(0);
      CutBucket(h, prev, e, i);
      ghost var ns, row := chains[h][..i] + chains[h][i + 1..], rows[h][..i] + rows[h][i + 1..];
      assert forall j :: 0 <= j < |ns| ==> ns[j] in own && ns[j] != e;
      Shrink(h, e, ns, row);
    }

    /** Bucket `h` is one entry shorter. */
    method Shrink(h: nat, ghost e: Entry, ghost ns: seq<Entry>, ghost row: seq<Pair>)
      requires size > 0 && entries.Length == size && lens.Length == size && |chains| == size && |rows| == size
      requires own <= buf.live
      requires forall b, i :: 0 <= b < size && 0 <= i < |chains[b]| ==> chains[b][i] in own && (b != h ==> chains[b][i] != e)
      requires forall b :: 0 <= b < size && b != h ==> Hangs(chains[b], entries[b], rows[b], b)
      requires forall b :: 0 <= b < size ==> lens[b] == |rows[b]|
      requires h < size && Hangs(ns, entries[h], row, h) && |row| == lens[h] - 1
      requires forall j :: 0 <= j < |ns| ==> ns[j] in own && ns[j] != e
      modifies this, lens
      ensures HeapOk() && rows == old(rows)[h := row] && own == old(own) - {e}
    {
      lens[h] := lens[h] - 1;
      chains := chains[h := ns];
      rows := rows[h := row];
      own := own - {e};
    }

    method CutBucket(h: nat, prev: Entry?, e: Entry, ghost i: nat)
      requires HeapOk() && buf.Valid() && h < size && i < |chains[h]| && e == chains[h][i]
      requires prev == if i == 0 then null else chains[h][i - 1]
      requires forall j, k :: 0 <= j < k < |rows[h]| ==> rows[h][j].key != rows[h][k].key
      modifies entries
      modifies if prev == null then {} else {prev}`next
      ensures buf.Valid()
      ensures forall b :: 0 <= b < size && b != h ==> Hangs(chains[b], entries[b], rows[b], b)
      ensures Hangs(chains[h][..i] + chains[h][i + 1..], entries[h], rows[h][..i] + rows[h][i + 1..], h)
      ensures forall b, j :: 0 <= b < size && 0 <= j < |chains[b]| && chains[b][j] == e ==> b == h && j == i
    {
      assert OpenBuckets(0);
      ghost var ns := chains[h];
      assert Hangs(ns, entries[h], rows[h], h);
      assert forall j, k :: 0 <= j < k < |ns| ==> ns[j] != ns[k];
      Redirect(h, prev, e, i);
      CutHangs(ns, i, entries[h], rows[h], h);
      assert buf.Valid();
    }

    method Redirect(h: nat, prev: Entry?, e: Entry, ghost i: nat)
      requires HeapOk() && h < size && i < |chains[h]| && e == chains[h][i]
      requires prev == if i == 0 then null else chains[h][i - 1]
      modifies entries
      modifies if prev == null then {} else {prev}`next
      ensures forall b :: 0 <= b < size && b != h ==> Hangs(chains[b], entries[b], rows[b], b)
      ensures entries[h] == if i > 0 then old(entries[h]) else e.next
      ensures i > 0 ==> prev.next == e.next
    {
      assert OpenBuckets(0);
      if prev != null {
        assert prev.hash == h;
        prev.next := e.next;
      } else {
        entries[h] := e.next;
      }
    }

    /** The entry at position `i` of bucket `h` is unlinked and given back. */
    method Drop(h: nat, prev: Entry?, e: Entry, ghost i: nat)
      requires Valid() && h < size && i < |chains[h]| && e == chains[h][i]
      requires prev == if i == 0 then null else chains[h][i - 1]
      requires forall j, k :: 0 <= j < k < |rows[h]| ==> rows[h][j].key != rows[h][k].key
      modifies this, entries, lens, buf, own, buf.spare
      ensures HeapOk() && rows == old(rows)[h := old(rows)[h][..i] + old(rows)[h][i + 1..]]
      ensures buf.init == old(buf.init) && buf.live == old(buf.live) - {e} && own <= old(own) && buf.ours == old(buf.ours)
      ensures buf.Valid() <==> old(buf.ReleaseKeepsPool())
      ensures buf.nbuf == old(if buf.init == 0 || buf.nbuf >= 3 * buf.init then buf.nbuf else buf.nbuf + 1)
      ensures forall x :: x in buf.spare ==> x == e || x in old(buf.spare)
    {
      Unhang(h, prev, e, i);
      GiveBack(e);
    }

    /** Giving back an entry that no bucket holds leaves the buckets alone. */
    method GiveBack(e: Entry)
      requires Valid() && e in buf.live && e !in own
      modifies buf, e`next, if buf.nbuf == 0 then {} else {buf.spare[|buf.spare| - 1]}`next
      ensures HeapOk() && (buf.Valid() <==> old(buf.ReleaseKeepsPool()))
      ensures buf.init == old(buf.init) && buf.live == old(buf.live) - {e} && buf.ours == old(buf.ours)
      ensures forall x :: x in buf.spare ==> x == e || x in old(buf.spare)
      ensures buf.nbuf == old(if buf.init == 0 || buf.nbuf >= 3 * buf.init then buf.nbuf else buf.nbuf + 1)
    {
      assert OpenBuckets(0);
      buf.Release(e);
    }

    /** Overwriting the data of a stored key: the heap part. */
    method SetData(e: Entry, data: Ptr, ghost h: nat, ghost i: nat)
      requires HeapOk() && h < size && i < |chains[h]| && e == chains[h][i]
      requires forall j, k :: 0 <= j < k < |rows[h]| ==> rows[h][j].key != rows[h][k].key
      modifies this, e`data
      ensures HeapOk() && own == old(own)
      ensures rows == old(rows)[h := old(rows)[h][i := Pair(old(rows)[h][i].key, data)]]
    {
      assert OpenBuckets(0);
      assert Hangs(chains[h], entries[h], rows[h], h);
      assert forall b, j :: 0 <= b < size && 0 <= j < |chains[b]| && chains[b][j] == e ==> b == h && j == i;
      e.data := data;
      rows := rows[h := rows[h][i := Pair(rows[h][i].key, data)]];
      assert Hangs(chains[h], entries[h], rows[h], h);
    }

    method EmptySlots() returns (r: int)
      requires HeapOk()
      ensures r == size - NonEmpty(rows)
    {
      assert OpenBuckets(0);
      r := 0;
      for b := 0 to size
        invariant r == b - NonEmpty(rows[..b])
      {
        assert Hangs(chains[b], entries[b], rows[b], b);
        PrefixNext(rows, b);
        if entries[b] == null {
          r := r + 1;
        }
      }
      assert rows[..size] == rows;
    }

    /** The longest chain and the first bucket that has it; an empty table has no such bucket. */
    method LongestChain() returns (longest: int, index: Option<int>)
      requires HeapOk()
      ensures forall b :: 0 <= b < size ==> |rows[b]| <= longest
      ensures if Total(rows) == 0 then longest == 0 && index == None
              else index.Some? && 0 <= index.value < size && |rows[index.value]| == longest > 0
                   && forall b :: 0 <= b < index.value ==> |rows[b]| < longest
      ensures Total(rows) <= longest * NonEmpty(rows)
    {
      assert OpenBuckets(0);
      longest, index := 0, None;
      for b := 0 to size
        invariant forall c :: 0 <= c < b ==> |rows[c]| <= longest
        invariant if Total(rows[..b]) == 0 then longest == 0 && index == None
                  else index.Some? && 0 <= index.value < b && |rows[index.value]| == longest > 0
                       && forall c :: 0 <= c < index.value ==> |rows[c]| < longest
      {
        PrefixNext(rows, b);
        if lens[b] > longest {
          longest := lens[b];
          index := Some(b);
        }
      }
      assert rows[..size] == rows;
      TotalBound(rows, longest);
    }

    /** The inner loop of the enumeration: bucket `b` with `room` slots left. */
    method EnumChain(b: nat, room: int) returns (ks: seq<int>)
      requires HeapOk() && b < size
      ensures ks == Codes(rows[b][..Take(|rows[b]|, room)])
    {
      assert OpenBuckets(0);
      ks := [];
      ghost var ns := chains[b];
      assert Hangs(ns, entries[b], rows[b], b);
      var e := entries[b];
      while e != null
        invariant |ks| <= |ns| && e == (if |ks| < |ns| then ns[|ks|] else null)
        invariant ks == Codes(rows[b][..|ks|])
        invariant e != null ==> |ks| == 0 || |ks| < room
        invariant e == null ==> |ks| == Take(|rows[b]|, room)
        decreases |ns| - |ks|
      {
        ks := ks + [match e.key case IntKey(i) => i case StrKey(_) => 0];
        e := e.next;
        if |ks| >= room {
          break;
        }
      }
    }

    /** Enumerating the keys with capacity `cap`: an int key as itself, a string key as 0. */
    method EnumIntKeys(cap: int) returns (ks: seq<int>)
      requires HeapOk()
      ensures ks == Codes(Enumerated(rows, cap))
    {
      assert OpenBuckets(0);
      ks := [];
      for b := 0 to size
        invariant ks == Codes(Enumerated(rows[..b], cap))
      {
        var more := EnumChain(b, cap - |ks|);
        ghost var done := Enumerated(rows[..b], cap);
        assert rows[..b + 1][..b] == rows[..b];
        ks := ks + more;
      }
      assert rows[..size] == rows;
    }
  }
}
