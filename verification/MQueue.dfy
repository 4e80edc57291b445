/** The linked queue with a cached cursor and a pool of recycled nodes. */
module MQueues {
  import opened Text

  /** What the queue stores is a pointer that it never looks behind. */
  type Ptr = int

  class Node {
    var content: Ptr
    var next: Node?

    constructor ()
      ensures next == null
    {
      next := null;
    }
  }

  /** `ns` lists, in order, the nodes met when following `next` from `head` to the null at the end. */
  ghost predicate Linked(ns: seq<Node>, head: Node?)
    reads ns
  {
    && head == (if |ns| == 0 then null else ns[0])
    && (forall i {:trigger ns[i].next} :: 0 <= i < |ns| - 1 ==> ns[i].next == ns[i + 1])
    && (|ns| > 0 ==> ns[|ns| - 1].next == null)
  }

  /** The nodes `ns` hold the contents `vs`. */
  ghost predicate Spells(ns: seq<Node>, vs: seq<Ptr>)
    reads ns
  {
    |vs| == |ns| && forall i :: 0 <= i < |ns| ==> ns[i].content == vs[i]
  }

  /** The nodes reached from a head are determined by the head. */
  lemma {:induction false} LinkedUnique(ms: seq<Node>, ns: seq<Node>, head: Node?)
    requires Linked(ms, head) && Linked(ns, head)
    ensures ms == ns
    decreases |ms|
  {
    if |ms| > 0 {
      LinkedUnique(ms[1..], ns[1..], ms[0].next);
      assert ms == [ms[0]] + ms[1..] && ns == [ns[0]] + ns[1..];
    }
  }

  /** A chain that ends in null visits no node twice. */
  lemma LinkedDistinct(ns: seq<Node>, head: Node?)
    requires Linked(ns, head)
    ensures NoRepeat(ns)
  {
    forall i, j | 0 <= i < j < |ns|
      ensures ns[i] != ns[j]
    {
      if ns[i] == ns[j] {
        LinkedUnique(ns[i..], ns[j..], ns[i]);
        assert false;
      }
    }
  }

  /** Redirecting the node before position `k` past it cuts that node out of the chain. */
  lemma CutLinked(ns: seq<Node>, k: nat)
    requires k < |ns|
    requires forall i {:trigger ns[i].next} :: 0 <= i < |ns| && i != k - 1 && i != k ==>
               ns[i].next == if i + 1 < |ns| then ns[i + 1] else null
    requires k > 0 ==> ns[k - 1].next == if k + 1 < |ns| then ns[k + 1] else null
    ensures var cut := ns[..k] + ns[k + 1..]; Linked(cut, if cut == [] then null else cut[0])
  {
  }

  lemma CutSpells(ns: seq<Node>, vs: seq<Ptr>, k: nat)
    requires k < |ns| && Spells(ns, vs)
    ensures Spells(ns[..k] + ns[k + 1..], vs[..k] + vs[k + 1..])
  {
  }

  /** `s` without the first occurrence of `c`. */
  function Without(s: seq<Ptr>, c: Ptr): seq<Ptr>
  {
    if s == [] then [] else if s[0] == c then s[1..] else [s[0]] + Without(s[1..], c)
  }

  lemma {:induction false} WithoutAt(s: seq<Ptr>, c: Ptr, i: nat)
    requires i < |s| && s[i] == c && c !in s[..i]
    ensures Without(s, c) == s[..i] + s[i + 1..]
  {
    if i > 0 {
      assert s[0] in s[..i];
      assert s[1..][..i - 1] == s[..i][1..];
      WithoutAt(s[1..], c, i - 1);
      assert s[..i] == [s[0]] + s[1..][..i - 1];
      assert s[i + 1..] == s[1..][i..];
    }
  }

  lemma {:induction false} WithoutAbsent(s: seq<Ptr>, c: Ptr)
    requires c !in s
    ensures Without(s, c) == s
  {
    if s != [] {
      WithoutAbsent(s[1..], c);
    }
  }

  lemma {:induction false} WithoutShorter(s: seq<Ptr>, c: Ptr)
    requires c in s
    ensures |Without(s, c)| == |s| - 1
  {
    if s[0] != c {
      assert c in s[1..];
      WithoutShorter(s[1..], c);
    }
  }

  /** The key to what this module closes: a predicate of the form `forall d :: OpenPool(d) ==> P` is
      passed on as a whole by proofs that do not mention the key, and `assert OpenPool(0)` looks into it. */
  ghost predicate OpenPool(d: nat) {
    d >= 0
  }

  /** The recycled nodes: the source's `init`, `nbuf`, `buf_front` and `buf_back`. */
  class NodePool {
    const text: Reading
    var init: nat
    var nbuf: int
    var front: Node?
    var back: Node?

    ghost var spare: seq<Node>   // the nodes of the pool, in order
    ghost var live: set<Node>    // handed out and not yet given back

    /** The pool is the list `ps`; it ends at the tail pointer and never holds more than three times
        its parameter. */
    ghost predicate PoolIs(ps: seq<Node>)
      reads this, ps
    {
      && nbuf == |ps| <= 3 * init
      && Linked(ps, front)
      && back == (if |ps| == 0 then null else ps[|ps| - 1])
    }

    /** The pool holds nodes not in use. How they are linked is closed. */
    ghost predicate Valid()
      reads this, spare
    {
      && nbuf == |spare| && (forall i :: 0 <= i < |spare| ==> spare[i] !in live)
      && forall d: nat {:trigger OpenPool(d)} :: OpenPool(d) ==> PoolIs(spare)
    }

    /** Exactly when this fails does giving a node back lose the pool's tail. */
    ghost predicate ReleaseKeepsPool()
      reads this
    {
      text.AsMeant? || init == 0 || nbuf >= 3 * init || nbuf == 0
    }

    constructor (text: Reading, nitems: nat)
      ensures this.text == text && init == nitems && nbuf == nitems
      ensures Valid() && fresh(spare) && live == {}
    {
      this.text := text;
      init, nbuf := nitems, 0;
      front, back := null, null;
      spare, live := [], {};
      new;
      if init > 0 {
        front := new Node();
        back := front;
        nbuf := 1;
        spare := [front];
        while nbuf < init
          invariant 1 <= nbuf <= init == nitems
          invariant fresh(spare) && PoolIs(spare) && live == {}
        {
          Grow();
        }
      }
    }

    method Grow()
      requires PoolIs(spare) && 0 < nbuf < init
      modifies this`nbuf, this`back, this`spare, back`next
      ensures PoolIs(spare) && nbuf == old(nbuf) + 1
      ensures |spare| == |old(spare)| + 1 && spare[..|spare| - 1] == old(spare) && fresh(spare[|spare| - 1])
    {
      var n := new Node();
      back.next := n;
      back := n;
      nbuf := nbuf + 1;
      spare := spare + [n];
      assert Linked(spare, front);
    }

    /** The bare code of `mqueue_alloc_item`, which needs no invariant to be described. */
    method AllocCode() returns (item: Node)
      modifies this`nbuf, this`front, this`back
      ensures if old(init != 0 && front != null) then
                item == old(front) && front == old(front.next) && nbuf == old(nbuf) - 1
                && back == if front == null then null else old(back)
              else fresh(item) && front == old(front) && back == old(back) && nbuf == old(nbuf)
    {
      if init != 0 && front != null {
        item := front;
        front := front.next;
        nbuf := nbuf - 1;
        if front == null {
          back := null;
        }
      } else {
        item := new Node();
      }
    }

    method Alloc() returns (item: Node)
      requires Valid()
      modifies this
      ensures Valid() && init == old(init)
      ensures item !in old(live) && live == old(live) + {item} && item !in spare
      ensures if old(init == 0 || nbuf == 0) then nbuf == old(nbuf) && fresh(item)
              else nbuf == old(nbuf) - 1 && item in old(spare)
      ensures forall n :: n in spare ==> n in old(spare)
    {
      assert OpenPool(0);
      LinkedDistinct(spare, front);
      item := AllocCode();
      if nbuf < |spare| {
        spare := spare[1..];
      }
      live := live + {item};
    }

    /** The bare code of `mqueue_free_item`: as written the tail is not advanced. */
    method ReleaseCode(item: Node)
      modifies this`nbuf, this`front, this`back, item`next, (if back == null then {} else {back})`next
      ensures if old(init == 0 || nbuf >= 3 * init) then
                item.next == null && front == old(front) && back == old(back) && nbuf == old(nbuf)
                && (old(back) != null && old(back) != item ==> old(back).next == old(back.next))
              else if old(back) == null then
                item.next == null && front == item && back == item && nbuf == old(nbuf) + 1
              else
                (item != old(back) ==> item.next == null) && front == old(front) && nbuf == old(nbuf) + 1
                && old(back).next == item && back == if text.AsMeant? then item else old(back)
    {
      item.next := null;
      if init != 0 && nbuf < 3 * init {
        if back != null {
          back.next := item;
          if text.AsMeant? {
            back := item;
          }
        } else {
          front := item;
          back := item;
        }
        nbuf := nbuf + 1;
      }
    }

    /** Giving a node back. What hangs on `front` is then the list `spare`, and it
        ends at the tail pointer exactly when `ReleaseKeepsPool` held. */
    method Release(item: Node)
      requires Valid() && item in live
      modifies this, item`next, if |spare| == 0 then {} else {spare[|spare| - 1]}
      ensures live == old(live) - {item} && init == old(init)
      ensures Linked(spare, front)
      ensures Valid() <==> old(ReleaseKeepsPool())
      ensures spare == if old(init != 0 && nbuf < 3 * init) then old(spare) + [item] else old(spare)
      ensures nbuf == |spare|
    {
      assert OpenPool(0);
      ReleaseCode(item);
      if |spare| < nbuf {
        spare := spare + [item];
      }
      live := live - {item};
      assert Linked(spare, front);
    }
  }

  class MQueue {
    const buf: NodePool

    var count: int

    // the cursor: `indexed` caches the node at position `index`
    var index: int
    var indexed: Node?

    var first: Node?
    var last: Node?

    ghost var nodes: seq<Node>   // the chain from `first` to `last`
    ghost var vals: seq<Ptr>     // and what it holds

    /** `first` and `last` delimit one acyclic chain of `count` nodes in use, namely `ns`. */
    ghost predicate ListIs(ns: seq<Node>)
      reads this`count, this`first, this`last, buf, ns
    {
      && count == |ns|
      && Linked(ns, first)
      && last == (if |ns| == 0 then null else ns[|ns| - 1])
      && (forall i :: 0 <= i < |ns| ==> ns[i] in buf.live)
    }

    ghost predicate CursorIs(ns: seq<Node>)
      reads this
    {
      if |ns| == 0 then indexed == null else 0 <= index < |ns| && indexed == ns[index]
    }

    ghost predicate ListOk()
      reads this, buf, nodes
    {
      ListIs(nodes) && CursorIs(nodes) && Spells(nodes, vals)
    }

    ghost predicate Valid()
      reads this, buf, nodes, buf.spare
    {
      ListOk() && buf.Valid()
    }

    ghost function Contents(): seq<Ptr>
      reads this
    {
      vals
    }

    ghost function Footprint(): set<Node>
      reads this, buf
    {
      (set n | n in nodes) + (set n | n in buf.spare)
    }

    constructor (text: Reading, nitems: nat)
      ensures Valid() && Contents() == []
      ensures buf.text == text && buf.init == nitems && buf.nbuf == nitems
      ensures fresh(buf) && fresh(Footprint())
    {
      buf := new NodePool(text, nitems);
      count := 0;
      first, last := null, null;
      index, indexed := 0, null;
      nodes, vals := [], [];
    }

    /** A node for `c`, not linked yet. */
    method NewNode(c: Ptr) returns (item: Node)
      requires Valid()
      modifies buf, buf.spare
      ensures Valid() && Contents() == old(Contents()) && buf.init == old(buf.init)
      ensures item in buf.live && item !in nodes && item !in buf.spare
      ensures item.content == c && item.next == null
      ensures item in old(buf.spare) || fresh(item)
      ensures forall n :: n in buf.spare ==> n in old(buf.spare)
      ensures buf.nbuf == old(if buf.init == 0 || buf.nbuf == 0 then buf.nbuf else buf.nbuf - 1)
    {
      item := buf.Alloc();
      item.content := c;
      item.next := null;
      assert ListIs(nodes);
    }

    /** `mqueue_add` once the node has been obtained. */
    method LinkFront(item: Node)
      requires ListOk() && item in buf.live && item !in nodes && item.next == null
      modifies this`first, this`last, this`index, this`indexed, this`count, this`nodes, this`vals, item`next
      ensures ListOk() && nodes == [item] + old(nodes)
      ensures Contents() == [item.content] + old(Contents())
    {
      if last == null {
        last := item;
        first := item;
        index := 0;
        indexed := first;
      } else {
        item.next := first;
        first := item;
        index := index + 1;
      }
      count := count + 1;
      nodes, vals := [item] + nodes, [item.content] + vals;
      assert Linked(nodes, first);
    }

    /** The bare code of `mqueue_append` once the node has been obtained. */
    method LinkBackCode(item: Node)
      modifies this`first, this`last, this`index, this`indexed, this`count
      modifies (if last == null then {} else {last})`next
      ensures count == old(count) + 1 && last == item
      ensures if old(last) == null then first == item && index == 0 && indexed == item
              else old(last).next == item && first == old(first) && index == old(index) && indexed == old(indexed)
    {
      if last == null {
        last := item;
        first := item;
        index := 0;
        indexed := first;
      } else {
        last.next := item;
        last := item;
      }
      count := count + 1;
    }

    method LinkBack(item: Node)
      requires ListOk() && item in buf.live && item !in nodes && item.next == null
      modifies this`first, this`last, this`index, this`indexed, this`count, this`nodes, this`vals
      modifies (if last == null then {} else {last})`next
      ensures ListOk() && nodes == old(nodes) + [item]
      ensures Contents() == old(Contents()) + [item.content]
    {
      LinkBackCode(item);
      nodes, vals := nodes + [item], vals + [item.content];
      assert Linked(nodes, first);
    }

    method Add(c: Ptr)
      requires Valid()
      modifies this, buf, Footprint()
      ensures Valid() && Contents() == [c] + old(Contents()) && buf.init == old(buf.init)
      ensures forall n :: n in nodes ==> n in old(nodes) || n in old(buf.spare) || fresh(n)
      ensures forall n :: n in buf.spare ==> n in old(buf.spare)
      ensures buf.nbuf == old(if buf.init == 0 || buf.nbuf == 0 then buf.nbuf else buf.nbuf - 1)
    {
      var item := NewNode(c);
      ghost var ps := buf.spare;
      assert forall i :: 0 <= i < |ps| ==> ps[i] != item;
      LinkFront(item);
      assert buf.Valid();
    }

    method Append(c: Ptr)
      requires Valid()
      modifies this, buf, Footprint()
      ensures Valid() && Contents() == old(Contents()) + [c] && buf.init == old(buf.init)
      ensures forall n :: n in nodes ==> n in old(nodes) || n in old(buf.spare) || fresh(n)
      ensures forall n :: n in buf.spare ==> n in old(buf.spare)
      ensures buf.nbuf == old(if buf.init == 0 || buf.nbuf == 0 then buf.nbuf else buf.nbuf - 1)
    {
      var item := NewNode(c);
      Attach(item);
    }

    /** Linking at the end leaves the pool alone. */
    method Attach(item: Node)
      requires Valid() && item in buf.live && item !in nodes && item !in buf.spare && item.next == null
      modifies this`first, this`last, this`index, this`indexed, this`count, this`nodes, this`vals
      modifies (if last == null then {} else {last})`next
      ensures Valid() && nodes == old(nodes) + [item]
      ensures Contents() == old(Contents()) + [item.content]
    {
      ghost var ps := buf.spare;
      assert last != null ==> last in buf.live;
      assert forall i :: 0 <= i < |ps| ==> ps[i] != item && ps[i] != last;
      LinkBack(item);
      assert buf.Valid();
    }

    /** The bare code of `mqueue_remove` on a queue that is not empty, up to giving back the node. */
    method UnlinkCode() returns (item: Node)
      requires first != null
      modifies this`first, this`last, this`index, this`indexed, this`count
      ensures item == old(first) && first == old(first.next) && count == old(count) - 1
      ensures last == (if first == null then null else old(last)) && index == 0 && indexed == first
    {
      item := first;
      first := item.next;
      if first == null {
        last := null;
      }
      index := 0;
      indexed := first;
      count := count - 1;
    }

    method UnlinkFront() returns (item: Node)
      requires ListOk() && count > 0
      modifies this`first, this`last, this`index, this`indexed, this`count, this`nodes, this`vals
      ensures ListOk() && nodes == old(nodes)[1..]
      ensures item == old(nodes)[0] && item !in nodes
      ensures Contents() == old(Contents())[1..]
    {
      LinkedDistinct(nodes, first);
      item := UnlinkCode();
      nodes, vals := nodes[1..], vals[1..];
    }

    /** Giving back a node that is no longer linked leaves the list alone. */
    method GiveBack(item: Node)
      requires Valid() && item in buf.live && item !in nodes
      modifies buf, item`next, if buf.nbuf == 0 then {} else {buf.spare[|buf.spare| - 1]}
      ensures ListOk() && Contents() == old(Contents()) && buf.init == old(buf.init)
      ensures buf.Valid() <==> old(buf.ReleaseKeepsPool())
      ensures buf.nbuf == old(if buf.init == 0 || buf.nbuf >= 3 * buf.init then buf.nbuf else buf.nbuf + 1)
      ensures Footprint() <= old(Footprint()) + {item}
    {
      buf.Release(item);
      assert ListIs(nodes);
    }

    /** Removal from the front. The pool survives exactly as `NodePool.Release` says. */
    method Remove() returns (r: Option<Ptr>)
      requires Valid()
      modifies this, buf, Footprint()
      ensures ListOk() && buf.init == old(buf.init)
      ensures if old(Contents()) == [] then r == None && Contents() == []
              else r == Some(old(Contents())[0]) && Contents() == old(Contents())[1..]
      ensures buf.Valid() <==> old(Contents() == [] || buf.ReleaseKeepsPool())
      ensures buf.nbuf == old(if Contents() == [] || buf.init == 0 || buf.nbuf >= 3 * buf.init
                              then buf.nbuf else buf.nbuf + 1)
      ensures Footprint() <= old(Footprint())
    {
      r := None;
      if first != null {
        var c := TakeFirst();
        r := Some(c);
      }
    }

    method TakeFirst() returns (c: Ptr)
      requires Valid() && count > 0
      modifies this, buf, buf.spare, nodes
      ensures ListOk() && buf.init == old(buf.init)
      ensures c == old(Contents())[0] && Contents() == old(Contents())[1..]
      ensures buf.Valid() <==> old(buf.ReleaseKeepsPool())
      ensures buf.nbuf == old(if buf.init == 0 || buf.nbuf >= 3 * buf.init then buf.nbuf else buf.nbuf + 1)
      ensures Footprint() <= old(Footprint())
    {
      c := first.content;
      var item := UnlinkFront();
      assert buf.Valid();
      GiveBack(item);
    }

    /** Peeking walks from the cached cursor, yet equals plain indexing.
        A negative position counts as the front; past the end there is nothing. */
    method PeekAt(i: int) returns (r: Option<Ptr>)
      requires Valid() && (i >= 0 || count > 0)
      modifies this`index, this`indexed
      ensures Valid()
      ensures r == if i < count then Some(Contents()[if i < 0 then 0 else i]) else None
      ensures if i < count then index == (if i < 0 then 0 else i) else index == old(index)
    {
      r := None;
      if i < count {
        if index > i {
          indexed := first;
          index := 0;
        }
        while index < i
          invariant ListOk() && index <= (if i < 0 then 0 else i)
        {
          indexed := indexed.next;
          index := index + 1;
        }
        r := Some(indexed.content);
      }
    }

    /** The walk of `mqueue_remove_at_index`, which borrows the cursor as its walker. */
    method Walk(i: int) returns (prev: Node?, item: Node)
      requires ListIs(nodes) && i < count && count > 0
      modifies this`indexed
      ensures ListIs(nodes)
      ensures var k := if i < 0 then 0 else i;
              item == nodes[k] && prev == (if k == 0 then null else nodes[k - 1])
    {
      indexed := first;
      prev := null;
      var ix := 0;
      while ix < i
        invariant 0 <= ix <= (if i < 0 then 0 else i)
        invariant indexed == nodes[ix]
        invariant prev == if ix == i && i > 0 then nodes[i - 1] else null
      {
        if ix == i - 1 {
          prev := indexed;
        }
        indexed := indexed.next;
        ix := ix + 1;
      }
      item := indexed;
    }

    /** Unlinking the node at `k`, with `first`, `last`, `count` and the cursor kept consistent. */
    method Redirect(prev: Node?, item: Node, ghost k: nat)
      requires ListIs(nodes) && k < count && item == nodes[k]
      requires prev == if k == 0 then null else nodes[k - 1]
      modifies this`first, this`last, this`index, this`indexed, this`count, this`nodes
      modifies if prev == null then {} else {prev}`next
      ensures ListIs(nodes) && CursorIs(nodes) && nodes == old(nodes)[..k] + old(nodes)[k + 1..] && item !in nodes
    {
      LinkedDistinct(nodes, first);
      ghost var ns := nodes;
      if prev != null {
        prev.next := item.next;
      } else {
        first := item.next;
      }
      if item == last {
        last := prev;
      }
      count := count - 1;
      CutLinked(ns, k);
      nodes := ns[..k] + ns[k + 1..];
      indexed := first;
      index := 0;
      assert ListIs(nodes);
    }

    method UnlinkAt(prev: Node?, item: Node, ghost k: nat)
      requires ListIs(nodes) && Spells(nodes, vals) && buf.Valid() && k < count && item == nodes[k]
      requires prev == if k == 0 then null else nodes[k - 1]
      modifies this`first, this`last, this`index, this`indexed, this`count, this`nodes, this`vals
      modifies if prev == null then {} else {prev}`next
      ensures Valid() && item !in nodes && nodes == old(nodes)[..k] + old(nodes)[k + 1..]
      ensures Contents() == old(Contents())[..k] + old(Contents())[k + 1..]
    {
      CutSpells(nodes, vals, k);
      vals := vals[..k] + vals[k + 1..];
      Redirect(prev, item, k);
      assert buf.Valid();
    }

    method Extract(i: int, ghost k: nat) returns (item: Node)
      requires Valid() && i < count && k < count && k == if i < 0 then 0 else i
      modifies this`first, this`last, this`index, this`indexed, this`count, this`nodes, this`vals, nodes`next
      ensures Valid() && item !in nodes && item in buf.live && item in old(nodes)
      ensures item.content == old(Contents())[k]
      ensures Contents() == old(Contents())[..k] + old(Contents())[k + 1..]
      ensures forall n :: n in nodes ==> n in old(nodes)
    {
      var prev, it := Walk(i);
      item := it;
      assert item == nodes[k];
      assert buf.Valid();
      UnlinkAt(prev, item, k);
    }

    /** Removal by position, with the node found by the walk unlinked. */
    method RemoveAt(i: int) returns (r: Option<Ptr>)
      requires Valid() && (i >= 0 || count > 0)
      modifies this, buf, Footprint()
      ensures ListOk() && buf.init == old(buf.init)
      ensures if i >= old(count) then r == None && Contents() == old(Contents())
              else var k := if i < 0 then 0 else i;
                   r == Some(old(Contents())[k]) && Contents() == old(Contents())[..k] + old(Contents())[k + 1..]
      ensures buf.Valid() <==> (i >= old(count) || old(buf.ReleaseKeepsPool()))
      ensures Footprint() <= old(Footprint())
    {
      r := None;
      if i < count {
        var item := Extract(i, if i < 0 then 0 else i);
        r := Some(item.content);
        GiveBack(item);
      }
    }

    /** The redirection as written, past the front whatever the position. */
    method Bypass(prev: Node?, item: Node, ghost i: int)
      requires ListIs(nodes) && Spells(nodes, vals) && buf.Valid() && count > 0 && item == nodes[0]
      requires prev != null <==> i > 0
      requires prev != null ==> prev in nodes
      modifies this`first, (if prev == null then {} else {prev})`next
      ensures first == if i > 0 then item else if count > 1 then nodes[1] else null
      ensures i <= 0 ==> Linked(nodes, item)
      ensures Spells(nodes, vals) && buf.Valid()
    {
      assert prev != null ==> prev !in buf.spare;
      if prev != null {
        prev.next := item.next;
      } else {
        first := item.next;
      }
    }

    /** The unlinking as written: the cursor goes back to the front before it is used. */
    method ExtractAsWritten(i: int) returns (item: Node)
      requires Valid() && i < count && count > 0
      modifies this`first, this`index, this`indexed, nodes`next
      ensures item == nodes[0] == indexed && index == 0 && buf.Valid()
      ensures first == if i > 0 then item else if count > 1 then nodes[1] else null
      ensures i <= 0 ==> Linked(nodes, item)
      ensures Spells(nodes, vals)
    {
      var prev, _ := Walk(i);
      assert buf.Valid();
      indexed := first;
      index := 0;
      item := indexed;
      Bypass(prev, item, i);
    }

    /** A freed node at the front, or a `last` in an empty queue, is not repaired by any reading of the chain. */
    lemma NoListWhenBroken()
      requires (count > 0 && first != null && first !in buf.live) || (count == 0 && last != null)
      ensures !exists ns :: ListIs(ns)
    {
    }

    /** Leaving the queue alone is the right removal exactly when there is nothing to remove. */
    lemma KeptExactlyWhenAbsent(c: Ptr)
      requires ListIs(nodes) && Spells(nodes, vals)
      ensures (exists ns :: ListIs(ns) && Spells(ns, Without(Contents(), c))) <==> c !in Contents()
    {
      if c in Contents() {
        WithoutShorter(Contents(), c);
        forall ns | ListIs(ns)
          ensures !Spells(ns, Without(Contents(), c))
        {
        }
      } else {
        WithoutAbsent(Contents(), c);
      }
    }

    /** Giving back a node, whatever has become of the list. */
    method Discard(item: Node)
      requires buf.Valid() && item in buf.live && item !in nodes && forall n :: n in nodes ==> n in buf.live
      modifies buf, buf.spare, item`next
      ensures item !in buf.live && buf.init == old(buf.init) && (buf.Valid() <==> old(buf.ReleaseKeepsPool()))
      ensures forall n :: n in buf.spare ==> n == item || n in old(buf.spare)
      ensures forall n :: n in nodes ==> n in buf.live && unchanged(n)
    {
      buf.Release(item);
    }

    method DropFrontAsWritten(i: int, item: Node)
      requires buf.Valid() && count == |nodes| > 0 && item == nodes[0] && NoRepeat(nodes)
      requires first == if i > 0 then item else if count > 1 then nodes[1] else null
      requires i <= 0 ==> Linked(nodes, item)
      requires Spells(nodes, vals) && forall n :: n in nodes ==> n in buf.live
      modifies this`count, this`nodes, this`vals, buf, buf.spare, item`next
      ensures count == old(count) - 1 && nodes == old(nodes)[1..] && item !in buf.live
      ensures buf.init == old(buf.init) && (buf.Valid() <==> old(buf.ReleaseKeepsPool()))
      ensures forall n :: n in buf.spare ==> n == item || n in old(buf.spare)
      ensures if i > 0 then first !in buf.live else Linked(nodes, first)
      ensures forall n :: n in nodes ==> n in buf.live
      ensures Contents() == old(Contents())[1..] && Spells(nodes, vals)
    {
      ghost var rest := nodes[1..];
      assert forall n :: n in rest ==> n in nodes && n != item && n in buf.live;
      assert i <= 0 ==> Linked(rest, first);
      nodes, vals := rest, vals[1..];
      count := count - 1;
      Discard(item);
    }

    method TakeAsWritten(i: int) returns (r: Ptr)
      requires Valid() && i < count && count > 0
      modifies this, buf, buf.spare, nodes
      ensures r == old(Contents())[0] && count == old(count) - 1 && nodes == old(nodes)[1..] && last == old(last)
      ensures index == 0 && indexed == old(nodes)[0] && indexed !in buf.live && indexed.content == r
      ensures buf.init == old(buf.init) && (buf.Valid() <==> old(buf.ReleaseKeepsPool()))
      ensures Footprint() <= old(Footprint())
      ensures if i > 0 then first != null && first !in buf.live else Linked(nodes, first)
      ensures forall n :: n in nodes ==> n in buf.live
      ensures Contents() == old(Contents())[1..] && Spells(nodes, vals)
    {
      LinkedDistinct(nodes, first);
      var item := ExtractAsWritten(i);
      r := item.content;
      DropFrontAsWritten(i, item);
    }

    /** Removal by position as written. The front content is returned whatever the
        position, and `first` and `last` still delimit a chain of `count` nodes in use
        exactly for the front of a queue of two or more (or a position past the end). Even
        then the cursor is left on the freed node: list and cursor are in order exactly when
        there was nothing to remove. */
    method RemoveAtAsWritten(i: int) returns (r: Option<Ptr>)
      requires Valid() && (i >= 0 || count > 0)
      modifies this, buf, buf.spare, nodes
      ensures i >= old(count) ==> r == None && Valid() && Contents() == old(Contents())
      ensures i < old(count) ==> r == Some(old(Contents())[0])
      ensures (exists ns :: ListIs(ns)) <==> (i >= old(count) || (i <= 0 && old(count) >= 2))
      ensures i <= 0 && old(count) >= 2 ==> ListIs(nodes) && Spells(nodes, old(Contents())[1..])
      ensures (exists ns :: ListIs(ns) && CursorIs(ns)) <==> i >= old(count)
      ensures i < old(count) ==> index == 0 && indexed != null && indexed !in buf.live && Some(indexed.content) == r
      ensures i < old(count) ==> vals == old(vals)[1..]
      ensures buf.init == old(buf.init) && (buf.Valid() <==> (i >= old(count) || old(buf.ReleaseKeepsPool())))
      ensures Footprint() <= old(Footprint())
    {
      r := None;
      if i < count {
        var c := TakeInRangeAsWritten(i);
        r := Some(c);
      } else {
        assert ListIs(nodes) && CursorIs(nodes);
      }
    }

    method TakeInRangeAsWritten(i: int) returns (r: Ptr)
      requires Valid() && i < count && count > 0
      modifies this, buf, buf.spare, nodes
      ensures r == old(Contents())[0]
      ensures (exists ns :: ListIs(ns)) <==> (i <= 0 && old(count) >= 2)
      ensures i <= 0 && old(count) >= 2 ==> ListIs(nodes) && Spells(nodes, old(Contents())[1..])
      ensures !exists ns :: ListIs(ns) && CursorIs(ns)
      ensures index == 0 && indexed != null && indexed !in buf.live && indexed.content == r
      ensures vals == old(vals)[1..]
      ensures buf.init == old(buf.init) && (buf.Valid() <==> old(buf.ReleaseKeepsPool()))
      ensures Footprint() <= old(Footprint())
    {
      r := TakeAsWritten(i);
      if i <= 0 && count > 0 {
        assert ListIs(nodes);
      } else {
        NoListWhenBroken();
      }
    }

    /** Removal of the first node holding `c`, wherever it is. */
    method RemoveItem(c: Ptr) returns (r: Option<Ptr>)
      requires Valid()
      modifies this, buf, Footprint()
      ensures ListOk() && buf.init == old(buf.init) && Contents() == Without(old(Contents()), c)
      ensures r == if c in old(Contents()) then Some(c) else None
      ensures buf.Valid() <==> (c !in old(Contents()) || old(buf.ReleaseKeepsPool()))
      ensures Footprint() <= old(Footprint())
    {
      r := None;
      var i, item := 0, first;
      while item != null && item.content != c
        invariant ListOk() && 0 <= i <= count
        invariant item == if i < count then nodes[i] else null
        invariant c !in Contents()[..i]
        decreases count - i
      {
        assert Contents()[..i + 1] == Contents()[..i] + [nodes[i].content];
        i := i + 1;
        item := item.next;
      }
      if item != null {
        WithoutAt(Contents(), c, i);
        r := RemoveAt(i);
      } else {
        assert Contents()[..i] == Contents();
        WithoutAbsent(Contents(), c);
        index := 0;
        indexed := first;
      }
    }

    /** The search as written never inspects the last node. */
    method SearchAsWritten(c: Ptr) returns (found: bool, i: nat)
      requires ListIs(nodes) && Spells(nodes, vals)
      ensures found ==> i < count - 1 && Contents()[i] == c && c !in Contents()[..i]
      ensures !found && count > 0 ==> c !in Contents()[..count - 1]
    {
      var item := first;
      i := 0;
      while item != last && item.content != c
        invariant ListIs(nodes) && 0 <= i <= count
        invariant count > 0 ==> i < count && item == nodes[i]
        invariant count == 0 ==> item == null
        invariant c !in Contents()[..i]
        decreases count - i
      {
        assert Contents()[..i + 1] == Contents()[..i] + [nodes[i].content];
        i := i + 1;
        item := item.next;
      }
      found := item != last;
      LinkedDistinct(nodes, first);
    }

    /** Removal of an item as written does what it should: the item is absent, or is at the front
        of a queue of two or more. */
    ghost predicate FrontOrAbsent(c: Ptr)
      reads this
    {
      c !in Contents() || (|Contents()| >= 2 && Contents()[0] == c)
    }

    /** The cursor plays no part in what the queue holds. */
    method ResetCursor(ghost vs: seq<Ptr>)
      modifies this`index, this`indexed
      ensures index == 0 && indexed == first
      ensures (exists ns :: ListIs(ns) && Spells(ns, vs)) <==> old(exists ns :: ListIs(ns) && Spells(ns, vs))
      ensures old(ListIs(nodes) && Spells(nodes, vals) && buf.Valid()) ==> Valid()
    {
      index := 0;
      indexed := first;
      assert forall ns: seq<Node> :: ListIs(ns) == old(ListIs(ns)) && Spells(ns, vs) == old(Spells(ns, vs));
    }

    method SearchAndRemoveAsWritten(c: Ptr) returns (r: Option<Ptr>)
      requires Valid()
      modifies this, buf, Footprint()
      ensures (exists ns :: ListIs(ns) && Spells(ns, Without(old(Contents()), c))) <==> old(FrontOrAbsent(c))
      ensures r == if old(count) > 0 && c in old(Contents())[..old(count) - 1] then Some(old(Contents())[0]) else None
      ensures old(FrontOrAbsent(c)) ==> ListIs(nodes) && Spells(nodes, vals) && Contents() == Without(old(Contents()), c)
      ensures buf.init == old(buf.init) && (old(buf.ReleaseKeepsPool()) ==> buf.Valid())
      ensures Footprint() <= old(Footprint())
    {
      ghost var all := Contents();
      r := None;
      var found, i := SearchAsWritten(c);
      if found {
        assert all[i] == c == all[..|all| - 1][i] && c in all;
        r := RemoveAtAsWritten(i);
        if i == 0 {
          assert Without(all, c) == all[1..];
        } else {
          assert all[0] in all[..i];
        }
      } else {
        assert all != [] ==> all == all[..|all| - 1] + [all[|all| - 1]];
        KeptExactlyWhenAbsent(c);
        if c !in all {
          WithoutAbsent(all, c);
        }
      }
    }

    /** Removal of an item as written: the search stops before the last node, and the
        removal behind it works only at the front. The queue ends up being its old
        content without the first `c` exactly when `c` is absent, or is at the front
        of a queue of two or more; then, if the pool survives, the queue is in order. What
        is returned is the front's content, and nothing that was ever set if the search
        found nothing, which is `None` here. */
    method RemoveItemAsWritten(c: Ptr) returns (r: Option<Ptr>)
      requires Valid()
      modifies this, buf, Footprint()
      ensures (exists ns :: ListIs(ns) && Spells(ns, Without(old(Contents()), c))) <==> old(FrontOrAbsent(c))
      ensures r == if old(count) > 0 && c in old(Contents())[..old(count) - 1] then Some(old(Contents())[0]) else None
      ensures old(FrontOrAbsent(c) && buf.ReleaseKeepsPool()) ==> Valid() && Contents() == Without(old(Contents()), c)
      ensures buf.init == old(buf.init) && Footprint() <= old(Footprint())
    {
      r := SearchAndRemoveAsWritten(c);
      ResetCursor(Without(old(Contents()), c));
    }

    // ----- The bare code, for runs in which the invariant is already lost -----

    /** `mqueue_append`. */
    method AppendCode(c: Ptr)
      modifies this, buf, (if last == null then {} else {last})`next
      modifies if buf.front == null then {} else {buf.front}
      ensures last != null && last.content == c && count == old(count) + 1
      ensures buf.init == old(buf.init)
      ensures if old(buf.init != 0 && buf.front != null) then
                last == old(buf.front) && buf.front == old(buf.front.next) && buf.nbuf == old(buf.nbuf) - 1
                && buf.back == if buf.front == null then null else old(buf.back)
              else fresh(last) && buf.front == old(buf.front) && buf.back == old(buf.back) && buf.nbuf == old(buf.nbuf)
      ensures if old(last) == null then first == last
              else first == old(first) && old(last).next == last
      ensures last != old(last) ==> last.next == null
    {
      var item := buf.AllocCode();
      item.content := c;
      item.next := null;
      LinkBackCode(item);
    }

    /** `mqueue_remove`. */
    method RemoveCode() returns (r: Option<Ptr>)
      modifies this, buf, (if first == null then {} else {first})`next, (if buf.back == null then {} else {buf.back})`next
      ensures buf.init == old(buf.init)
      ensures old(first) == null ==> r == None
      ensures old(first) != null ==>
                && r == Some(old(first.content)) && first == old(first.next) && count == old(count) - 1
                && last == if first == null then null else old(last)
      ensures old(first != null && buf.init != 0 && buf.nbuf < 3 * buf.init) ==>
                && buf.nbuf == old(buf.nbuf) + 1
                && if old(buf.back) == null then
                     old(first).next == null && buf.front == old(first) && buf.back == old(first)
                   else
                     (old(first) != old(buf.back) ==> old(first).next == null) && old(buf.back).next == old(first)
                     && buf.front == old(buf.front) && buf.back == if buf.text.AsMeant? then old(first) else old(buf.back)
    {
      r := None;
      if first != null {
        r := Some(first.content);
        var item := UnlinkCode();
        buf.ReleaseCode(item);
      }
    }
  }
}
