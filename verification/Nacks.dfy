/** The scan for missing numbers and the request that carries them. */
module Nacks {
  import opened Text
  import opened Receiver
  import opened IntTables
  import opened Words

  /** The numbers strictly between `lo` and `hi` that are not cached, in rising order. */
  function Missing(lo: int, hi: int, cached: set<int>): seq<int>
    decreases hi - lo
  {
    if hi <= lo + 1 then []
    else Missing(lo, hi - 1, cached) + if hi - 1 in cached then [] else [hi - 1]
  }

  ghost predicate Rising(s: seq<int>) {
    forall i, j :: 0 <= i < j < |s| ==> s[i] < s[j]
  }

  lemma {:induction false} MissingExactly(lo: int, hi: int, cached: set<int>)
    ensures Rising(Missing(lo, hi, cached))
    ensures forall x :: x in Missing(lo, hi, cached) <==> lo < x < hi && x !in cached
    decreases hi - lo
  {
    if hi > lo + 1 {
      MissingExactly(lo, hi - 1, cached);
      var front := Missing(lo, hi - 1, cached);
      assert forall i :: 0 <= i < |front| ==> front[i] in front;
    }
  }

  /** The scan over the range that is meant. */
  method ScanGap(sequence: int, heard: int, cache: IntTable) returns (list: seq<int>, lost: nat)
    requires cache.Valid()
    ensures list == Missing(sequence, heard, cache.m.Keys) && lost == |list|
  {
    list, lost := [], 0;
    var itr := sequence + 1;
    while itr < heard
      invariant itr <= heard || itr == sequence + 1
      invariant sequence < itr && list == Missing(sequence, itr, cache.m.Keys) && lost == |list|
    {
      var cached := cache.Get(itr);
      if cached.None? {
        list := list + [itr];
        lost := lost + 1;
      }
      itr := itr + 1;
    }
    if heard < itr {
      assert Missing(sequence, heard, cache.m.Keys) == [];
    }
  }

  /** Between the base and the highest number heard, every number has been handed up, is
      cached, or is listed, and never two of these. */
  lemma ScanPartitions(r: Member, arrived: set<int>, body: int -> Payload, heard: int)
    requires Settled(r, arrived, body)
    ensures var list := Missing(r.sequence, heard, r.cache.Keys);
            forall k :: r.base < k < heard ==>
              && (k <= r.sequence || k in r.cache || k in list)
              && !(k <= r.sequence && k in r.cache) && !(k <= r.sequence && k in list) && !(k in r.cache && k in list)
  {
    MissingExactly(r.sequence, heard, r.cache.Keys);
  }

  // ----- The scan as written, on words -----

  /** The numbers not cached among the `k` words from `start` on, wrapping around. */
  function RingMissing(start: int, k: nat, cached: set<int>): seq<int> {
    if k == 0 then []
    else RingMissing(start, k - 1, cached) + var x := Word(start + k - 1); if x in cached then [] else [x]
  }

  /** How often a loop that counts words from `start` until it meets `stop` runs. */
  function Rounds(start: int, stop: int): nat {
    Word(stop - start)
  }

  lemma RoundsNext(start: int, stop: int)
    requires 0 <= start < WORD && 0 <= stop < WORD && start != stop
    ensures Rounds(Word(start + 1), stop) == Rounds(start, stop) - 1
  {
  }

  /** One more word of the scan. */
  lemma RingNext(start: int, k: nat, cached: set<int>)
    requires 0 <= start < WORD
    ensures Word(Word(start + k) + 1) == Word(start + k + 1)
    ensures RingMissing(start, k + 1, cached)
            == RingMissing(start, k, cached) + if Word(start + k) in cached then [] else [Word(start + k)]
  {
  }

  /** The loop of `send_nack`: it stops only on meeting `stop`, so it always ends, but may go
      all the way around. What it lists it also adds to the count of lost messages. */
  method ScanRing(start: int, stop: int, cache: IntTable) returns (list: seq<int>, lost: nat)
    requires cache.Valid() && 0 <= start < WORD && 0 <= stop < WORD
    ensures list == RingMissing(start, Rounds(start, stop), cache.m.Keys) && lost == |list|
  {
    list, lost := [], 0;
    var itr := start;
    ghost var k := 0;
    while itr != stop
      invariant 0 <= itr < WORD && itr == Word(start + k) && 0 <= k
      invariant k + Rounds(itr, stop) == Rounds(start, stop)
      invariant list == RingMissing(start, k, cache.m.Keys) && lost == |list|
      decreases Rounds(itr, stop)
    {
      RoundsNext(itr, stop);
      RingNext(start, k, cache.m.Keys);
      var cached := cache.Get(itr);
      if cached.None? {
        list := list + [itr];
        lost := lost + 1;
      }
      itr := Word(itr + 1);
      k := k + 1;
    }
  }

  lemma {:induction false} RingIsMissing(start: int, k: nat, cached: set<int>)
    requires 0 <= start && start + k <= WORD
    ensures RingMissing(start, k, cached) == Missing(start - 1, start + k, cached)
    decreases k
  {
    if k > 0 {
      RingIsMissing(start, k - 1, cached);
    }
  }

  /** The manager's scan runs from `rcvd + 1` until `sent - 1`. It covers just the gap exactly
      when `sent >= rcvd + 2`; otherwise it goes around nearly half the ring or more. */
  lemma ManagerRounds(rcvd: int, sent: int)
    requires 0 <= rcvd < HALF && 0 <= sent < HALF
    ensures Rounds(Word(rcvd + 1), Word(sent - 1)) == sent - rcvd - 2 <==> sent >= rcvd + 2
    ensures sent < rcvd + 2 ==> Rounds(Word(rcvd + 1), Word(sent - 1)) >= HALF - 1
  {
  }

  /** In range, the manager lists exactly the missing numbers up to `sent - 2`, and so
      everything missing before `sent` exactly when `sent - 1` is not missing. */
  lemma ManagerScan(rcvd: int, sent: int, cached: set<int>)
    requires 0 <= rcvd && rcvd + 2 <= sent < HALF
    ensures var list := RingMissing(Word(rcvd + 1), Rounds(Word(rcvd + 1), Word(sent - 1)), cached);
            && list == Missing(rcvd, sent - 1, cached)
            && (list == Missing(rcvd, sent, cached) <==> sent - 1 in cached)
  {
    ManagerRounds(rcvd, sent);
    RingIsMissing(rcvd + 1, sent - rcvd - 2, cached);
    assert Word(rcvd + 1) == rcvd + 1;
    assert sent - 1 in cached ==> Missing(rcvd, sent, cached) == Missing(rcvd, sent - 1, cached);
    assert sent - 1 !in cached ==> |Missing(rcvd, sent, cached)| == |Missing(rcvd, sent - 1, cached)| + 1;
  }

  lemma RoundsReach(start: int, k: nat, x: int)
    requires 0 <= start < WORD && k < WORD && 0 <= x < WORD
    ensures x == Word(start + k) <==> Rounds(start, x) == k
  {
  }

  lemma {:induction false} RingExactly(start: int, k: nat, cached: set<int>, x: int)
    requires 0 <= start < WORD && k <= WORD
    ensures x in RingMissing(start, k, cached) <==> 0 <= x < WORD && x !in cached && Rounds(start, x) < k
    decreases k
  {
    if k > 0 {
      RingExactly(start, k - 1, cached, x);
      if 0 <= x < WORD {
        RoundsReach(start, k - 1, x);
      }
    }
  }

  /** The scan lists every word once, in the order in which it meets them. */
  lemma {:induction false} RingRises(start: int, k: nat, cached: set<int>)
    requires 0 <= start < WORD && k <= WORD
    ensures var list := RingMissing(start, k, cached);
            forall i, j :: 0 <= i < j < |list| ==> Rounds(start, list[i]) < Rounds(start, list[j])
    decreases k
  {
    if k > 0 {
      var list, front := RingMissing(start, k, cached), RingMissing(start, k - 1, cached);
      RingRises(start, k - 1, cached);
      RoundsReach(start, k - 1, Word(start + k - 1));
      forall i, j | 0 <= i < j < |list|
        ensures Rounds(start, list[i]) < Rounds(start, list[j])
      {
        assert front[i] in front;
        RingExactly(start, k - 1, cached, front[i]);
      }
    }
  }

  /** The scan of version 0.1 stops two behind its start: it asks for every word that is not
      cached except the last number handed up and the one before it. */
  lemma FirstVersionScan(sequence: int, cached: set<int>)
    requires -1 <= sequence < HALF
    ensures var list := RingMissing(Word(sequence + 1), Rounds(Word(sequence + 1), Word(sequence - 1)), cached);
            forall x :: x in list <==>
              0 <= x < WORD && x !in cached && x != Word(sequence) && x != Word(sequence - 1)
  {
    var start, k := sequence + 1, WORD - 2;
    assert Word(sequence + 1) == start && Rounds(start, Word(sequence - 1)) == k;
    forall x
      ensures x in RingMissing(start, k, cached) <==>
                0 <= x < WORD && x !in cached && x != Word(sequence) && x != Word(sequence - 1)
    {
      RingExactly(start, k, cached, x);
      if 0 <= x < WORD {
        SkippedWords(sequence, x);
      }
    }
  }

  lemma SkippedWords(sequence: int, x: int)
    requires -1 <= sequence < HALF && 0 <= x < WORD
    ensures Rounds(sequence + 1, x) < WORD - 2 <==> x != Word(sequence) && x != Word(sequence - 1)
  {
  }

  // ----- The request -----

  /** The words written: a count that includes its own slot, then the numbers. */
  function Encode(list: seq<int>): seq<int> {
    [|list| + 1] + list
  }

  /** The numbers read: as written, one slot more than was filled. */
  function Decode(t: Reading, words: seq<int>): seq<int>
    requires |words| > 0 && 1 <= words[0] < |words|
  {
    if t.AsWritten? then words[1..words[0] + 1] else words[1..words[0]]
  }

  /** As meant the request round-trips; as written whatever follows it in the buffer is read as one more number. */
  lemma DecodeEncode(list: seq<int>, rest: seq<int>)
    requires rest != []
    ensures Decode(AsMeant, Encode(list) + rest) == list
    ensures Decode(AsWritten, Encode(list) + rest) == list + [rest[0]]
  {
  }

  /** The word that four bytes stand for in network byte order, and in the opposite order. */
  function BigEndian(b: seq<int>): int
    requires |b| == 4
  {
    ((b[0] * 0x100 + b[1]) * 0x100 + b[2]) * 0x100 + b[3]
  }

  function LittleEndian(b: seq<int>): int
    requires |b| == 4
  {
    ((b[3] * 0x100 + b[2]) * 0x100 + b[1]) * 0x100 + b[0]
  }

  /** The count is written in network byte order and read without converting it. On a host of
      the opposite order it comes out right exactly when its bytes read the same both ways; and
      a count that fits into a request comes out beyond everything a request can hold. */
  lemma CountUnconverted(b: seq<int>)
    requires |b| == 4 && forall i :: 0 <= i < 4 ==> 0 <= b[i] < 0x100
    ensures LittleEndian(b) == BigEndian(b) <==> b[0] == b[3] && b[1] == b[2]
    ensures 0 < BigEndian(b) < 0x1_0000 ==> LittleEndian(b) >= 0x1_0000
  {
    var b0, b1, b2, b3 := b[0], b[1], b[2], b[3];
    assert LittleEndian(b) - BigEndian(b) == (b3 - b0) * 0xFF_FFFF + (b2 - b1) * 0xFF00;
    assert b0 < b3 || b0 == b3 || b0 > b3;
  }
}
