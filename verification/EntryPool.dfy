/** The entries of the hash table and the pool that recycles them. */
module Entries {
  import opened Text

  /** Stored data is a pointer that the table never looks behind. */
  type Ptr = int

  /** A key together with its type tag. A string is its character codes up to the
      terminator, on which `strcmp` is equality. */
  datatype Key = IntKey(i: int) | StrKey(s: seq<int>)

  const WORD: nat := 0x1_0000_0000

  /** The unsigned 32-bit accumulator of `hash_string` after reading `s`. */
  function StringCode(s: seq<int>): (h: nat)
    ensures h < WORD
  {
    if s == [] then 0 else (131 * StringCode(s[..|s| - 1]) + s[|s| - 1]) % WORD
  }

  /** The loop of `hash_string`. */
  method HashString(str: seq<int>, m: nat) returns (h: nat)
    requires m > 0
    ensures h == Slot(StrKey(str), m) == Base131(str) % WORD % m
  {
    var i := 0;
    for n := 0 to |str|
      invariant i == StringCode(str[..n])
    {
      assert str[..n + 1][..n] == str[..n];
      i := (131 * i + str[n]) % WORD;
    }
    assert str[..|str|] == str;
    StringCodeIsBase131(str);
    h := i % m;
  }

  /** The string as a number in base 131, with no limit on its size. */
  function Base131(s: seq<int>): int {
    if s == [] then 0 else 131 * Base131(s[..|s| - 1]) + s[|s| - 1]
  }

  /** Reducing the accumulator in every round is the same as reducing the whole number once. */
  lemma {:induction false} StringCodeIsBase131(s: seq<int>)
    ensures StringCode(s) == Base131(s) % WORD
  {
    if s != [] {
      var front, c := s[..|s| - 1], s[|s| - 1];
      StringCodeIsBase131(front);
      var q := Base131(front) / WORD;
      assert Base131(front) == q * WORD + StringCode(front);
      assert 131 * Base131(front) + c == (131 * q) * WORD + (131 * StringCode(front) + c);
      ModCancels(131 * StringCode(front) + c, 131 * q);
    }
  }

  lemma ModCancels(x: int, q: int)
    ensures (q * WORD + x) % WORD == x % WORD
  {
  }

  function Slot(k: Key, m: nat): (h: nat)
    requires m > 0
    ensures h < m
  {
    (match k case IntKey(i) => i % WORD case StrKey(s) => StringCode(s)) % m
  }

  class Entry {
    var key: Key
    var hash: int
    var data: Ptr
    var next: Entry?

    constructor ()
      ensures next == null
    {
      key := IntKey(0);
      next := null;
    }
  }

  /** `ns` lists, in order, the entries met when following `next` from `head` to the null at the end. */
  ghost predicate Linked(ns: seq<Entry>, head: Entry?)
    reads ns
  {
    && head == (if |ns| == 0 then null else ns[0])
    && (forall i {:trigger ns[i].next} :: 0 <= i < |ns| - 1 ==> ns[i].next == ns[i + 1])
    && (|ns| > 0 ==> ns[|ns| - 1].next == null)
  }

  /** The entries reached from a head are determined by the head. */
  lemma {:induction false} LinkedUnique(ms: seq<Entry>, ns: seq<Entry>, head: Entry?)
    requires Linked(ms, head) && Linked(ns, head)
    ensures ms == ns
    decreases |ms|
  {
    if |ms| > 0 {
      LinkedUnique(ms[1..], ns[1..], ms[0].next);
      assert ms == [ms[0]] + ms[1..] && ns == [ns[0]] + ns[1..];
    }
  }

  /** A chain that ends in null visits no entry twice. */
  lemma LinkedDistinct(ns: seq<Entry>, head: Entry?)
    requires Linked(ns, head)
    ensures NoRepeat(ns)
  {
    forall i, j | 0 <= i < j < |ns|
      ensures ns[i] != ns[j]
    {
      if ns[i] == ns[j] {
        LinkedUnique(ns[i..], ns[j..], ns[i]);
        assert false;
      }
    }
  }

  /** The size of a pool after an entry was taken and another one given back. */
  function AfterSwap(init: nat, nbuf: int): int {
    if init == 0 || nbuf > 0 then nbuf else 1
  }

  /** The recycled entries: the source's `initbuf`, `nbuf`, `entry_front` and `entry_back`. */
  class EntryPool {
    const text: Reading
    var init: nat
    var nbuf: int
    var front: Entry?
    var back: Entry?

    ghost var spare: seq<Entry>   // the entries of the pool, in order
    ghost var live: set<Entry>    // handed out and not yet given back
    ghost var ours: set<Entry>    // every entry that ever went through this pool

    /** The pool is the acyclic list `ps` of entries not in use; it ends at the tail pointer
        and never holds more than three times its parameter. */
    ghost predicate PoolIs(ps: seq<Entry>)
      reads this, ps
    {
      && nbuf == |ps| <= 3 * init
      && Linked(ps, front)
      && back == (if |ps| == 0 then null else ps[|ps| - 1])
      && (forall i :: 0 <= i < |ps| ==> ps[i] !in live && ps[i] in ours)
      && live <= ours
    }

    ghost predicate Valid()
      reads this, spare
    {
      PoolIs(spare)
    }

    /** Exactly when this fails does giving an entry back lose the pool's tail. */
    ghost predicate ReleaseKeepsPool()
      reads this
    {
      text.AsMeant? || init == 0 || nbuf >= 3 * init || nbuf == 0
    }

    /** The pool as meant, or a pool of size 0. */
    ghost predicate ReleaseAlwaysKeepsPool()
      reads this
    {
      text.AsMeant? || init == 0
    }

    /** Exactly when this fails does taking an entry and giving back another lose the pool's tail. */
    ghost predicate SwapKeepsPool()
      reads this
    {
      text.AsMeant? || init == 0 || nbuf <= 1
    }

    constructor (text: Reading, nitems: nat)
      ensures this.text == text && init == nitems && nbuf == nitems
      ensures Valid() && fresh(spare) && fresh(ours) && live == {}
    {
      this.text := text;
      init, nbuf := nitems, 0;
      front, back := null, null;
      spare, live, ours := [], {}, {};
      new;
      if init > 0 {
        front := new Entry();
        back := front;
        nbuf := 1;
        spare, ours := [front], {front};
        while nbuf < init
          invariant 1 <= nbuf <= init == nitems
          invariant fresh(spare) && fresh(ours) && Valid() && live == {}
        {
          Grow();
        }
      }
    }

    method Grow()
      requires Valid() && 0 < nbuf < init
      modifies this`nbuf, this`back, this`spare, this`ours, back`next
      ensures Valid() && nbuf == old(nbuf) + 1
      ensures |spare| == |old(spare)| + 1 && spare[..|spare| - 1] == old(spare) && fresh(spare[|spare| - 1])
      ensures ours == old(ours) + {spare[|spare| - 1]}
    {
      var n := new Entry();
      back.next := n;
      back := n;
      nbuf := nbuf + 1;
      spare, ours := spare + [n], ours + {n};
      assert Linked(spare, front);
    }

    method Alloc() returns (e: Entry)
      requires Valid()
      modifies this
      ensures Valid() && init == old(init)
      ensures e !in old(live) && live == old(live) + {e} && e !in spare && ours == old(ours) + {e}
      ensures if old(init == 0 || nbuf == 0) then nbuf == old(nbuf) && fresh(e)
              else nbuf == old(nbuf) - 1 && e in old(spare)
      ensures forall n :: n in spare ==> n in old(spare)
    {
      if init != 0 && front != null {
        LinkedDistinct(spare, front);
        e := front;
        front := front.next;
        nbuf := nbuf - 1;
        if front == null {
          back := null;
        }
        spare := spare[1..];
      } else {
        e := new Entry();
      }
      live, ours := live + {e}, ours + {e};
    }

    /** Giving an entry back. What hangs on `front` is then the list `spare`, and it
        ends at the tail pointer exactly when `ReleaseKeepsPool` held: as written,
        the tail is not advanced. */
    method Release(e: Entry)
      requires Valid() && e in live
      modifies this, e`next, if |spare| == 0 then {} else {spare[|spare| - 1]}`next
      ensures live == old(live) - {e} && init == old(init) && ours == old(ours)
      ensures Linked(spare, front)
      ensures Valid() <==> old(ReleaseKeepsPool())
      ensures spare == if old(init != 0 && nbuf < 3 * init) then old(spare) + [e] else old(spare)
      ensures nbuf == |spare|
    {
      e.next := null;
      if init != 0 && nbuf < 3 * init {
        if back != null {
          back.next := e;
          if text.AsMeant? {
            back := e;
          }
        } else {
          front := e;
          back := e;
        }
        nbuf := nbuf + 1;
        spare := spare + [e];
      }
      live := live - {e};
      assert Linked(spare, front);
    }
  }
}
