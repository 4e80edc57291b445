/** Which buckets the int keys of a table are in, and how they spread over them. */
module Spreads {
  import opened Entries
  import opened TableRows

  /** An int key from 0 up to 2^32 is in the bucket of its remainder, and a negative one in that of the
      unsigned word it stands for; and in no other. */
  lemma {:induction false} IntKeyAt(rows: Rows, m: map<Key, Ptr>, i: int)
    requires Represents(rows, m) && IntKey(i) in m && -0x8000_0000 <= i < WORD
    ensures var b := (if i >= 0 then i else i + WORD) % |rows|;
            HasKey(rows[b], IntKey(i)) && forall c :: 0 <= c < |rows| && c != b ==> !HasKey(rows[c], IntKey(i))
  {
    var b := (if i >= 0 then i else i + WORD) % |rows|;
    assert Slot(IntKey(i), |rows|) == b;
    RepresentsAt(rows, m, b);
    forall c | 0 <= c < |rows| && c != b
      ensures !HasKey(rows[c], IntKey(i))
    {
      RepresentsAt(rows, m, c);
    }
  }

  lemma SameRemainder(i: int, j: int, n: int)
    requires n > 0 && i <= j < i + n && i % n == j % n
    ensures i == j
  {
    var d := j / n - i / n;
    assert j - i == d * n;
    assert d >= 1 ==> d * n >= n;
    assert d <= -1 ==> d * n <= -n;
  }

  lemma NearApart(i: int, j: int, n: nat)
    requires n > 0 && 0 <= i < WORD && 0 <= j < WORD && i < j < i + n
    ensures Slot(IntKey(i), n) != Slot(IntKey(j), n)
  {
    if i % n == j % n {
      SameRemainder(i, j, n);
    }
  }

  /** The keys are numbers from `lo` on, no more than there are buckets. */
  ghost predicate Consecutive(m: map<Key, Ptr>, lo: int, n: nat) {
    forall k :: k in m ==> k.IntKey? && 0 <= k.i < WORD && lo <= k.i < lo + n
  }

  /** Consecutive numbers, at most as many as there are buckets, never share one. */
  lemma {:induction false} ConsecutiveApart(rows: Rows, m: map<Key, Ptr>, lo: int, b: nat)
    requires Represents(rows, m) && Consecutive(m, lo, |rows|) && b < |rows|
    ensures |rows[b]| <= 1
  {
    RepresentsAt(rows, m, b);
    if |rows[b]| > 1 {
      var k, k' := rows[b][0].key, rows[b][1].key;
      assert k != k' && k in m && k' in m;
      if k.i < k'.i {
        NearApart(k.i, k'.i, |rows|);
      } else {
        NearApart(k'.i, k.i, |rows|);
      }
    }
  }
}
