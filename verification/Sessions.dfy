/** A heartbeat with a new session number restarts the count but keeps the old cache. */
module Sessions {
  import opened Text
  import opened Receiver

  /** The restart as written: numbering goes back to before `n`, the cache stays. */
  function Restarted(r: Member, n: int): Member {
    Member(n - 1, n - 1, r.cache, [])
  }

  /** Cached numbers up to this one are never looked up after a restart at `n`. */
  function Harmless(t: Reading, n: int): int {
    if t.AsWritten? then n - 1 else n
  }

  /** `w` is `r` with harmless leftovers in its cache, which `r` itself has none of. */
  ghost predicate WithLeftovers(t: Reading, w: Member, r: Member, left: map<int, Msg>, n: int) {
    && w == r.(cache := left + r.cache)
    && r.sequence >= n - 1
    && (forall k :: k in left ==> k <= Harmless(t, n))
    && (forall k :: k in r.cache ==> k > n)
  }

  lemma {:induction false} DrainIgnores(t: Reading, w: Member, r: Member, left: map<int, Msg>, n: int)
    requires WithLeftovers(t, w, r, left, n) && r.sequence >= n
    ensures WithLeftovers(t, Drain(t, w), Drain(t, r), left, n)
    decreases r.cache.Keys
  {
    var k := Wanted(t, r.sequence);
    if k in r.cache {
      var w' := w.(sequence := r.sequence + 1, cache := w.cache - {k}, handed := w.handed + [w.cache[k]]);
      var r' := r.(sequence := r.sequence + 1, cache := r.cache - {k}, handed := r.handed + [r.cache[k]]);
      assert w'.cache == left + r'.cache;
      DrainIgnores(t, w', r', left, n);
    }
  }

  lemma OnDataIgnores(t: Reading, w: Member, r: Member, left: map<int, Msg>, n: int, m: Msg)
    requires WithLeftovers(t, w, r, left, n)
    ensures WithLeftovers(t, OnData(t, w, m), OnData(t, r, m), left, n)
  {
    if m.num == r.sequence + 1 {
      DrainIgnores(t, w.(sequence := m.num, handed := w.handed + [m]),
                   r.(sequence := m.num, handed := r.handed + [m]), left, n);
    } else if r.sequence < m.num && m.num !in r.cache {
      assert left + r.cache[m.num := m] == (left + r.cache)[m.num := m];
    }
  }

  lemma {:induction false} ReceiveIgnores(t: Reading, r: Member, n: int, ms: seq<Msg>)
    requires forall k :: k in r.cache ==> k <= Harmless(t, n)
    ensures WithLeftovers(t, Receive(t, Restarted(r, n), ms), Receive(t, Joined(n - 1), ms), r.cache, n)
  {
    if ms == [] {
      assert r.cache + map[] == r.cache;
    } else {
      var front := ms[..|ms| - 1];
      ReceiveIgnores(t, r, n, front);
      OnDataIgnores(t, Receive(t, Restarted(r, n), front), Receive(t, Joined(n - 1), front), r.cache, n, ms[|ms| - 1]);
    }
  }

  /** The messages numbered `n` up to, but not including, `k`. */
  function Span(n: int, k: int): seq<Msg>
    requires n <= k
  {
    seq(k - n, i => Msg(n + i, 0))
  }

  lemma SpanNext(n: int, k: int)
    requires n < k
    ensures Span(n, k)[..k - n - 1] == Span(n, k - 1) && Span(n, k)[k - n - 1] == Msg(k - 1, 0)
    ensures Span(n, k - 1) + [Msg(k - 1, 0)] == Span(n, k)
  {
  }

  /** What a restarted member makes of a span none of whose look-ups finds anything: it hands up
      exactly the span. For a fresh member, whose cache is empty, that is every span. */
  lemma {:induction false} QuietSpan(t: Reading, r: Member, n: int, k: int)
    requires n <= k && forall i :: n <= i < k ==> Wanted(t, i) !in r.cache
    ensures Receive(t, Restarted(r, n), Span(n, k)) == Member(n - 1, k - 1, r.cache, Span(n, k))
    decreases k - n
  {
    if n < k {
      SpanNext(n, k);
      QuietSpan(t, r, n, k - 1);
      var r1 := Member(n - 1, k - 1, r.cache, Span(n, k));
      assert Wanted(t, k - 1) !in r.cache;
      assert Drain(t, r1) == r1;
    }
  }

  lemma {:induction false} DrainGrows(t: Reading, r: Member)
    ensures |r.handed| <= |Drain(t, r).handed|
    decreases r.cache.Keys
  {
    var k := Wanted(t, r.sequence);
    if k in r.cache {
      DrainGrows(t, r.(sequence := r.sequence + 1, cache := r.cache - {k}, handed := r.handed + [r.cache[k]]));
    }
  }

  /** The least of the numbers above `n`. */
  lemma {:induction false} LeastAbove(keys: set<int>, n: int, x: int) returns (y: int)
    requires x in keys && x > n
    ensures y in keys && y > n && forall k :: k in keys && k > n ==> y <= k
    decreases x - n
  {
    y := x;
    if z :| z in keys && n < z < x {
      y := LeastAbove(keys, n, z);
    }
  }

  /** On the arrivals `ms` the restarted receiver hands up what one that just joined would. */
  ghost predicate HandsUpAlike(t: Reading, r: Member, n: int, ms: seq<Msg>) {
    Receive(t, Restarted(r, n), ms).handed == Receive(t, Joined(n - 1), ms).handed
  }

  /** If the cache kept something above the harmless numbers, then the span up to the look-up of
      the least of these gives it away. */
  lemma {:induction false} StaleSpan(t: Reading, r: Member, n: int, x: int)
    requires x in r.cache && x > Harmless(t, n)
    ensures exists ms :: !HandsUpAlike(t, r, n, ms)
  {
    var y := LeastAbove(r.cache.Keys, Harmless(t, n), x);
    var k := if t.AsWritten? then y else y - 1;
    QuietSpan(t, r, n, k);
    var r1 := Member(n - 1, k, r.cache, Span(n, k + 1));
    SpanNext(n, k + 1);
    assert Receive(t, Restarted(r, n), Span(n, k + 1)) == Drain(t, r1);
    DrainGrows(t, r1.(sequence := k + 1, cache := r.cache - {y}, handed := r1.handed + [r.cache[y]]));
    QuietSpan(t, Joined(n - 1), n, k + 1);
    assert Restarted(Joined(n - 1), n) == Joined(n - 1);
    assert !HandsUpAlike(t, r, n, Span(n, k + 1));
  }

  /** After a restart at `n` the receiver hands up, for every later run, what one that just
      joined would, exactly when the cache it kept holds nothing above `n`; with the drain as
      written, nothing from `n` on. */
  lemma RestartExact(t: Reading, r: Member, n: int)
    ensures (forall ms :: HandsUpAlike(t, r, n, ms))
            <==> forall k :: k in r.cache ==> k <= Harmless(t, n)
  {
    if forall k :: k in r.cache ==> k <= Harmless(t, n) {
      forall ms
        ensures HandsUpAlike(t, r, n, ms)
      {
        ReceiveIgnores(t, r, n, ms);
      }
    } else {
      var x :| x in r.cache && x > Harmless(t, n);
      StaleSpan(t, r, n, x);
    }
  }

  /** A message of the old session is handed up as one of the new. */
  lemma StaleHandedUp(stale: Msg, first: Msg)
    requires stale.num == 7 && first.num == 6
    ensures var r := Member(2, 4, map[7 := stale], [Msg(3, 0), Msg(4, 0)]);
            Receive(AsMeant, Restarted(r, 6), [first]).handed == [first, stale]
  {
    var r := Member(5, 6, map[7 := stale], [first]);
    assert map[7 := stale] - {7} == map[] && [first] + [stale] == [first, stale] && [] + [first] == [first];
    assert Drain(AsMeant, r) == Member(5, 7, map[], [first, stale]);
    var r0 := Restarted(Member(2, 4, map[7 := stale], [Msg(3, 0), Msg(4, 0)]), 6);
    assert [first][..0] == [] && Receive(AsMeant, r0, []) == r0;
    assert OnData(AsMeant, r0, first) == Drain(AsMeant, r);
  }
}
