/** Counting and enumerating the rows of a table. */
module RowSums {
  import opened Text
  import opened Entries
  import opened TableRows

  /** The number of pairs in all rows. */
  function Total(rows: Rows): nat {
    if rows == [] then 0 else Total(rows[..|rows| - 1]) + |rows[|rows| - 1]|
  }

  function NonEmpty(rows: Rows): nat {
    if rows == [] then 0 else NonEmpty(rows[..|rows| - 1]) + if rows[|rows| - 1] == [] then 0 else 1
  }

  /** All pairs, bucket after bucket. */
  function Flat(rows: Rows): seq<Pair> {
    if rows == [] then [] else Flat(rows[..|rows| - 1]) + rows[|rows| - 1]
  }

  lemma PrefixNext(rows: Rows, b: nat)
    requires b < |rows|
    ensures rows[..b + 1][..b] == rows[..b] && rows[..b + 1][b] == rows[b]
    ensures Total(rows[..b + 1]) == Total(rows[..b]) + |rows[b]|
    ensures NonEmpty(rows[..b + 1]) == NonEmpty(rows[..b]) + if rows[b] == [] then 0 else 1
    ensures Flat(rows[..b + 1]) == Flat(rows[..b]) + rows[b]
  {
  }

  lemma {:induction false} FlatLength(rows: Rows)
    ensures |Flat(rows)| == Total(rows)
  {
    if rows != [] {
      FlatLength(rows[..|rows| - 1]);
    }
  }

  ghost predicate DistinctKeys(ps: seq<Pair>) {
    forall i, j :: 0 <= i < j < |ps| ==> ps[i].key != ps[j].key
  }

  lemma HasKeyConcat(a: seq<Pair>, c: seq<Pair>, k: Key)
    ensures HasKey(a + c, k) <==> HasKey(a, k) || HasKey(c, k)
  {
    if HasKey(a, k) {
      var i :| 0 <= i < |a| && a[i].key == k;
      assert (a + c)[i].key == k;
    }
    if HasKey(c, k) {
      var i :| 0 <= i < |c| && c[i].key == k;
      assert (a + c)[|a| + i].key == k;
    }
    if HasKey(a + c, k) {
      var i :| 0 <= i < |a + c| && (a + c)[i].key == k;
      assert if i < |a| then a[i].key == k else c[i - |a|].key == k;
    }
  }

  /** The first `b` rows list the keys of the first `b` buckets, each once. */
  lemma {:induction false} FlatBelow(rows: Rows, m: map<Key, Ptr>, b: nat)
    requires Represents(rows, m) && b <= |rows|
    ensures DistinctKeys(Flat(rows[..b]))
    ensures forall k :: HasKey(Flat(rows[..b]), k) <==> k in m && Slot(k, |rows|) < b
  {
    if b > 0 {
      FlatBelow(rows, m, b - 1);
      PrefixNext(rows, b - 1);
      var front, row := Flat(rows[..b - 1]), rows[b - 1];
      RepresentsAt(rows, m, b - 1);
      forall k
        ensures HasKey(Flat(rows[..b]), k) <==> k in m && Slot(k, |rows|) < b
      {
        HasKeyConcat(front, row, k);
      }
      forall i | 0 <= i < |front|
        ensures Slot(front[i].key, |rows|) < b - 1
      {
        assert HasKey(front, front[i].key);
      }
    }
  }

  /** The rows list every key of the map exactly once. */
  lemma FlatIsMap(rows: Rows, m: map<Key, Ptr>)
    requires Represents(rows, m)
    ensures DistinctKeys(Flat(rows))
    ensures forall k :: HasKey(Flat(rows), k) <==> k in m
  {
    FlatBelow(rows, m, |rows|);
    assert rows[..|rows|] == rows;
  }

  lemma {:induction false} KeyCount(ps: seq<Pair>)
    requires DistinctKeys(ps)
    ensures |set k | k in RowMap(ps)| == |ps|
  {
    if ps != [] {
      var init, last := ps[..|ps| - 1], ps[|ps| - 1];
      KeyCount(init);
      RowMapKeys(init);
      assert last.key !in RowMap(init);
      assert (set k | k in RowMap(ps)) == (set k | k in RowMap(init)) + {last.key};
    }
  }

  /** The lengths of the chains add up to the number of entries. */
  lemma TotalIsCount(rows: Rows, m: map<Key, Ptr>)
    requires Represents(rows, m)
    ensures Total(rows) == |m|
  {
    FlatIsMap(rows, m);
    FlatLength(rows);
    KeyCount(Flat(rows));
    RowMapKeys(Flat(rows));
    assert (set k | k in RowMap(Flat(rows))) == m.Keys;
  }

  /** No table holds more than its longest chain times its non-empty buckets. */
  lemma {:induction false} TotalBound(rows: Rows, longest: nat)
    requires forall b :: 0 <= b < |rows| ==> |rows[b]| <= longest
    ensures Total(rows) <= longest * NonEmpty(rows)
  {
    if rows != [] {
      var front := rows[..|rows| - 1];
      TotalBound(front, longest);
      assert longest * (NonEmpty(front) + 1) == longest * NonEmpty(front) + longest;
    }
  }

  /** How many of `len` entries one inner loop of the enumeration writes when `room` slots are left. */
  function Take(len: nat, room: int): (t: nat)
    ensures t <= len
  {
    if len == 0 then 0 else if room <= 1 then 1 else if room < len then room else len
  }

  /** What the enumeration with capacity `cap` writes: the break leaves only the inner loop. */
  function Enumerated(rows: Rows, cap: int): seq<Pair> {
    if rows == [] then []
    else
      var done, row := Enumerated(rows[..|rows| - 1], cap), rows[|rows| - 1];
      done + row[..Take(|row|, cap - |done|)]
  }

  /** The int that the enumeration writes for a key. */
  function Code(k: Key): int {
    match k case IntKey(i) => i case StrKey(_) => 0
  }

  function Codes(ps: seq<Pair>): (ks: seq<int>)
    ensures |ks| == |ps|
    ensures forall i :: 0 <= i < |ps| ==> ks[i] == Code(ps[i].key)
  {
    seq(|ps|, i requires 0 <= i < |ps| => Code(ps[i].key))
  }

  /** With room for every entry the enumeration lists them all. */
  lemma {:induction false} EnumeratesAll(rows: Rows, cap: int)
    requires cap >= Total(rows)
    ensures Enumerated(rows, cap) == Flat(rows)
  {
    if rows != [] {
      var front := rows[..|rows| - 1];
      EnumeratesAll(front, cap);
      FlatLength(front);
    }
  }

  function KeysOf(ps: seq<Pair>): (ks: seq<Key>)
    ensures |ks| == |ps| && forall i :: 0 <= i < |ps| ==> ks[i] == ps[i].key
  {
    seq(|ps|, i requires 0 <= i < |ps| => ps[i].key)
  }

  lemma KeysOfHas(ps: seq<Pair>, k: Key)
    ensures k in KeysOf(ps) <==> HasKey(ps, k)
  {
    if HasKey(ps, k) {
      var i :| 0 <= i < |ps| && ps[i].key == k;
      assert KeysOf(ps)[i] == k;
    }
  }

  /** With a capacity of at least the number of entries, every key is listed exactly once; if all
      are int keys, every number written is a key and none is written twice. */
  lemma EnumeratesEachOnce(rows: Rows, m: map<Key, Ptr>, cap: int)
    requires Represents(rows, m) && cap >= |m|
    ensures var ps := Enumerated(rows, cap);
            && |ps| == |m| && NoRepeat(KeysOf(ps)) && (forall k :: k in KeysOf(ps) <==> k in m)
            && ((forall k :: k in m ==> k.IntKey?) ==> NoRepeat(Codes(ps)))
            && (forall k :: k in m && k.IntKey? ==> k.i in Codes(ps))
  {
    TotalIsCount(rows, m);
    EnumeratesAll(rows, cap);
    FlatIsMap(rows, m);
    FlatLength(rows);
    ListedOnce(Flat(rows), m);
  }

  /** Pairs with distinct keys, those of `m`, as a list of keys and of numbers. */
  lemma ListedOnce(ps: seq<Pair>, m: map<Key, Ptr>)
    requires DistinctKeys(ps) && forall k :: HasKey(ps, k) <==> k in m
    ensures NoRepeat(KeysOf(ps)) && (forall k :: k in KeysOf(ps) <==> k in m)
    ensures ((forall k :: k in m ==> k.IntKey?) ==> NoRepeat(Codes(ps)))
    ensures forall k :: k in m && k.IntKey? ==> k.i in Codes(ps)
  {
    forall k
      ensures k in KeysOf(ps) <==> k in m
      ensures k in m && k.IntKey? ==> k.i in Codes(ps)
    {
      KeysOfHas(ps, k);
      if k in m && k.IntKey? {
        var i :| 0 <= i < |ps| && KeysOf(ps)[i] == k;
        assert Codes(ps)[i] == k.i;
      }
    }
    assert forall i :: 0 <= i < |ps| ==> KeysOf(ps)[i] in KeysOf(ps);
  }

  /** The enumeration counts what it writes, up to its capacity, until a later bucket makes it overrun. */
  lemma {:induction false} EnumeratedCount(rows: Rows, cap: int)
    ensures |Enumerated(rows, cap)| <= cap ==>
              |Enumerated(rows, cap)| == if Total(rows) <= cap then Total(rows) else cap
    ensures |Enumerated(rows, cap)| >= cap || |Enumerated(rows, cap)| == Total(rows)
  {
    if rows != [] {
      EnumeratedCount(rows[..|rows| - 1], cap);
    }
  }

  /** Every non-empty bucket comes after fewer than `cap` entries. */
  ghost predicate RoomAtEveryBucket(rows: Rows, cap: int) {
    forall b :: 0 <= b < |rows| && rows[b] != [] ==> Total(rows[..b]) < cap
  }

  lemma RoomNext(rows: Rows, cap: int)
    requires rows != []
    ensures var front, row := rows[..|rows| - 1], rows[|rows| - 1];
            RoomAtEveryBucket(rows, cap) <==> RoomAtEveryBucket(front, cap) && (row == [] || Total(front) < cap)
  {
    var front := rows[..|rows| - 1];
    forall b | 0 <= b < |front|
      ensures front[..b] == rows[..b] && front[b] == rows[b]
    {
    }
  }

  /** The enumeration stays within its capacity exactly when every non-empty bucket
      is reached with room left; otherwise it writes past the caller's array. */
  lemma {:induction false} EnumerationFits(rows: Rows, cap: int)
    requires cap >= 0
    ensures |Enumerated(rows, cap)| <= cap <==> RoomAtEveryBucket(rows, cap)
  {
    if rows != [] {
      EnumerationFits(rows[..|rows| - 1], cap);
      EnumeratedCount(rows[..|rows| - 1], cap);
      RoomNext(rows, cap);
    }
  }
}
