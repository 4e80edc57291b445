/** The receiver on unsigned 32-bit words, over whole runs. */
module WordRuns {
  import opened Text
  import opened Receiver
  import opened Words

  /** The drain, with the number kept as a word. */
  function DrainWord(t: Reading, w: Member): Member
    decreases w.cache.Keys
  {
    var k := Word(Wanted(t, w.sequence));
    if k in w.cache then
      DrainWord(t, w.(sequence := Word(w.sequence + 1), cache := w.cache - {k}, handed := w.handed + [w.cache[k]]))
    else w
  }

  /** The arrival of a data message, classed on words. */
  function OnDataWord(t: Reading, w: Member, m: Msg): Member {
    match ClassifyWord(w.sequence, m.num)
    case Next => DrainWord(t, w.(sequence := Word(w.sequence + 1), handed := w.handed + [m]))
    case Early => w.(cache := if m.num in w.cache then w.cache else w.cache[m.num := m])
    case Old => w
  }

  function ReceiveWord(t: Reading, w: Member, ms: seq<Msg>): Member {
    if ms == [] then w else OnDataWord(t, ReceiveWord(t, w, ms[..|ms| - 1]), ms[|ms| - 1])
  }

  /** A member with its number kept as a word. */
  function OnWord(r: Member): Member {
    r.(sequence := Word(r.sequence))
  }

  ghost predicate InRange(r: Member) {
    -1 <= r.sequence <= HALF && forall k :: k in r.cache ==> 0 <= k < HALF
  }

  lemma WordIs(i: int)
    requires 0 <= i < WORD
    ensures Word(i) == i
  {
  }

  /** One message of the drain. */
  function DrainedOne(t: Reading, r: Member): Member
    requires Wanted(t, r.sequence) in r.cache
  {
    var k := Wanted(t, r.sequence);
    r.(sequence := r.sequence + 1, cache := r.cache - {k}, handed := r.handed + [r.cache[k]])
  }

  lemma DrainOneAlike(t: Reading, r: Member)
    requires InRange(r) && r.sequence >= 0 && Wanted(t, r.sequence) in r.cache
    ensures InRange(DrainedOne(t, r)) && DrainWord(t, OnWord(r)) == DrainWord(t, OnWord(DrainedOne(t, r)))
  {
    WordIs(r.sequence);
    WordIs(r.sequence + 1);
  }

  lemma {:induction false} DrainAlike(t: Reading, r: Member)
    requires InRange(r) && r.sequence >= 0
    ensures DrainWord(t, OnWord(r)) == OnWord(Drain(t, r)) && InRange(Drain(t, r)) && Drain(t, r).sequence >= 0
    decreases r.cache.Keys
  {
    if Wanted(t, r.sequence) in r.cache {
      DrainOneAlike(t, r);
      DrainAlike(t, DrainedOne(t, r));
      assert Drain(t, r) == Drain(t, DrainedOne(t, r));
    } else {
      WordIs(r.sequence);
      WordIs(Wanted(t, r.sequence));
    }
  }

  lemma NextWord(i: int)
    requires -1 <= i < HALF
    ensures Word(Word(i) + 1) == i + 1
  {
  }

  lemma NextAlike(t: Reading, r: Member, m: Msg)
    requires InRange(r) && 0 <= m.num < HALF && m.num == r.sequence + 1
    ensures OnDataWord(t, OnWord(r), m) == OnWord(OnData(t, r, m))
    ensures InRange(OnData(t, r, m)) && OnData(t, r, m).sequence >= 0
  {
    var r1 := r.(sequence := m.num, handed := r.handed + [m]);
    DrainAlike(t, r1);
    NextWord(r.sequence);
    WordIs(m.num);
    assert OnDataWord(t, OnWord(r), m) == DrainWord(t, OnWord(r1));
  }

  lemma OnDataAlike(t: Reading, r: Member, m: Msg)
    requires InRange(r) && 0 <= m.num < HALF && (r.sequence >= 0 || m.num == 0)
    ensures OnDataWord(t, OnWord(r), m) == OnWord(OnData(t, r, m))
    ensures InRange(OnData(t, r, m)) && OnData(t, r, m).sequence >= 0
  {
    ClassifyWordExact(r.sequence, m.num);
    if m.num == r.sequence + 1 {
      NextAlike(t, r, m);
    } else {
      assert OnData(t, r, m).sequence == r.sequence >= 0;
    }
  }

  /** What a receiver that joined at `base` takes notice of: everything, unless it joined at
      number 0 and so has the word for -1; then everything from the first message 0 on. */
  function Noticed(base: int, ms: seq<Msg>): seq<Msg> {
    if ms == [] then []
    else
      var front, m := Noticed(base, ms[..|ms| - 1]), ms[|ms| - 1];
      if base < 0 && front == [] && m.num != 0 then [] else front + [m]
  }

  /** On words the receiver does, over every run, what one on whole numbers would do if the
      messages before the first message 0 had never arrived. */
  lemma {:induction false} WordReceiverExact(t: Reading, base: int, ms: seq<Msg>)
    requires -1 <= base < HALF && forall m :: m in ms ==> 0 <= m.num < HALF
    ensures ReceiveWord(t, OnWord(Joined(base)), ms) == OnWord(Receive(t, Joined(base), Noticed(base, ms)))
    ensures var r := Receive(t, Joined(base), Noticed(base, ms));
            InRange(r) && (Noticed(base, ms) != [] ==> r.sequence >= 0)
  {
    if ms != [] {
      var front, m := ms[..|ms| - 1], ms[|ms| - 1];
      WordReceiverExact(t, base, front);
      assert m in ms;
      var seen := Noticed(base, front);
      if base < 0 && seen == [] && m.num != 0 {
        ClassifyWordExact(-1, m.num);
      } else {
        OnDataAlike(t, Receive(t, Joined(base), seen), m);
        assert (seen + [m])[..|seen|] == seen;
      }
    }
  }

  /** The gap test of a heartbeat and of a data message, on words. */
  predicate GapWord(sequence: int, num: int) {
    Word(sequence + 1) != num && sequence < num
  }

  /** It finds the gap exactly when something was handed up before or the stream did not start at 0. */
  lemma GapWordExact(sequence: int, num: int)
    requires -1 <= sequence < HALF && 0 <= num < HALF
    ensures GapWord(Word(sequence), num) <==> sequence >= 0 && sequence + 1 < num
  {
  }

  /** A receiver that joined at number 0 and lost message 0 never hands up or caches anything,
      and never asks for anything, whatever arrives and whatever is heard of. */
  lemma {:induction false} FirstLostForGood(t: Reading, ms: seq<Msg>, num: int)
    requires forall m :: m in ms ==> 0 < m.num < HALF
    requires 0 <= num < HALF
    ensures var w := ReceiveWord(t, OnWord(Joined(-1)), ms);
            w == OnWord(Joined(-1)) && !GapWord(w.sequence, num)
  {
    if ms != [] {
      FirstLostForGood(t, ms[..|ms| - 1], num);
      assert ms[|ms| - 1] in ms;
      ClassifyWordExact(-1, ms[|ms| - 1].num);
    } else {
      GapWordExact(-1, num);
    }
  }
}
