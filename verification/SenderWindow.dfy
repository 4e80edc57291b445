/** The sender's numbering, its buffer of sent messages and the two ways it is trimmed. */
module SenderWindow {
  import opened Text
  import opened Receiver

  /** `next` is the number of the next message and `outbuf` the table of messages kept for
      retransmission; `p1`, `p2`, `p3` are `next` at the last three heartbeats; `sync` is
      the acknowledged number. `log` is everything ever sent. */
  datatype Sender = Sender(next: int, outbuf: map<int, Msg>, oldest: int, p1: int, p2: int, p3: int,
                           sync: int, log: seq<Payload>)

  /** The start of a session; `sync` is 0 after start-up and 99999999 after a leave. */
  function Start(sync: int): Sender {
    Sender(0, map[], 0, 0, 0, 0, sync, [])
  }

  /** Sending a message: it is numbered and kept only if the network took it. */
  function Send(s: Sender, body: Payload, taken: bool): Sender {
    if taken then s.(next := s.next + 1, outbuf := s.outbuf[s.next := Msg(s.next, body)], log := s.log + [body]) else s
  }

  /** Dropping the messages numbered from `oldest` up to `bound`. */
  function Trim(s: Sender, bound: int): Sender {
    if s.oldest < bound then
      s.(oldest := bound, outbuf := map k | k in s.outbuf && !(s.oldest <= k < bound) :: s.outbuf[k])
    else s
  }

  /** The bookkeeping of a heartbeat. */
  function Beat(s: Sender): Sender {
    Trim(s.(p3 := s.p2, p2 := s.p1, p1 := s.next), s.p2)
  }

  /** How the members' acknowledgements become one number. The text lets the last one win.
      Without the stray semicolon it would be the least one, but still counting the number of
      the round before. Meant is the least one of this round. */
  datatype AckRule = LastWins | RunningLeast | FreshLeast

  function RuleOf(t: Reading): AckRule {
    if t.AsWritten? then LastWins else FreshLeast
  }

  /** The loop over the members' acknowledgements; without members the number stays. */
  function Acknowledged(rule: AckRule, sync: int, acks: seq<int>): int {
    if acks == [] then sync
    else
      var before, a := Acknowledged(rule, sync, acks[..|acks| - 1]), acks[|acks| - 1];
      if rule.LastWins? || (rule.FreshLeast? && |acks| == 1) || a < before then a else before
  }

  /** One more acknowledgement. */
  lemma AcknowledgedNext(rule: AckRule, sync: int, acks: seq<int>, a: int)
    ensures var before := Acknowledged(rule, sync, acks);
            Acknowledged(rule, sync, acks + [a])
            == if rule.LastWins? || (rule.FreshLeast? && acks == []) || a < before then a else before
  {
    assert (acks + [a])[..|acks|] == acks;
  }

  /** Trimming by acknowledgements. As meant, a host without members has no bound to trim to. */
  function AckTrim(rule: AckRule, s: Sender, acks: seq<int>): Sender {
    if rule.FreshLeast? && acks == [] then s
    else
      var sync := Acknowledged(rule, s.sync, acks);
      Trim(s.(sync := sync), sync)
  }

  // ----- What the buffer holds -----

  /** The buffer holds exactly the messages from `oldest` up to `next`, each as it was sent. */
  ghost predicate Window(s: Sender) {
    && |s.log| == s.next
    && 0 <= s.p3 <= s.p2 <= s.p1 <= s.next
    && s.p3 <= s.oldest <= s.next
    && (forall k :: k in s.outbuf <==> s.oldest <= k < s.next)
    && (forall k :: k in s.outbuf ==> s.outbuf[k] == Msg(k, s.log[k]))
  }

  lemma TrimWindow(s: Sender, bound: int)
    requires Window(s)
    ensures Window(Trim(s, bound)) <==> bound <= s.next
  {
  }

  lemma SendWindow(s: Sender, body: Payload, taken: bool)
    requires Window(s)
    ensures Window(Send(s, body, taken))
  {
  }

  lemma BeatWindow(s: Sender)
    requires Window(s)
    ensures Window(Beat(s))
  {
  }

  /** The acknowledged number, if there is one, is not above the next number to be sent. */
  ghost predicate AckBounded(rule: AckRule, s: Sender, acks: seq<int>) {
    (rule.FreshLeast? && acks == []) || Acknowledged(rule, s.sync, acks) <= s.next
  }

  /** Trimming by acknowledgements keeps the window exactly when it is not driven past `next`. */
  lemma AckTrimWindow(rule: AckRule, s: Sender, acks: seq<int>)
    requires Window(s)
    ensures Window(AckTrim(rule, s, acks)) <==> AckBounded(rule, s, acks)
  {
  }

  // ----- The three-heartbeat window over whole runs -----

  datatype Event = Sent(body: Payload, taken: bool) | Beaten | Acked(acks: seq<int>)

  function Apply(rule: AckRule, s: Sender, e: Event): Sender {
    match e
    case Sent(body, taken) => Send(s, body, taken)
    case Beaten => Beat(s)
    case Acked(acks) => AckTrim(rule, s, acks)
  }

  function After(rule: AckRule, s: Sender, es: seq<Event>): Sender {
    if es == [] then s else Apply(rule, After(rule, s, es[..|es| - 1]), es[|es| - 1])
  }

  /** Throughout the run no acknowledged number is above the next one to be sent. */
  ghost predicate AcksBounded(rule: AckRule, s: Sender, es: seq<Event>) {
    es != [] ==>
      var front, e := es[..|es| - 1], es[|es| - 1];
      && AcksBounded(rule, s, front)
      && (e.Acked? ==> AckBounded(rule, After(rule, s, front), e.acks))
  }

  ghost predicate WindowThroughout(rule: AckRule, s: Sender, es: seq<Event>) {
    Window(After(rule, s, es)) && (es != [] ==> WindowThroughout(rule, s, es[..|es| - 1]))
  }

  /** Across sends, heartbeats and both trims, whatever the rule: the buffer is always
      exactly the interval from `oldest` up to `next`, with the marks in order, if and only if
      acknowledgements never run ahead of what was sent. */
  lemma {:induction false} IntervalExact(rule: AckRule, sync: int, es: seq<Event>)
    ensures WindowThroughout(rule, Start(sync), es) <==> AcksBounded(rule, Start(sync), es)
  {
    if es != [] {
      var front, e := es[..|es| - 1], es[|es| - 1];
      IntervalExact(rule, sync, front);
      var s := After(rule, Start(sync), front);
      if Window(s) {
        match e
        case Sent(body, taken) => SendWindow(s, body, taken);
        case Beaten => BeatWindow(s);
        case Acked(acks) => AckTrimWindow(rule, s, acks);
      }
    }
  }

  /** The number of messages sent, and of heartbeats, in a run. */
  function Sends(es: seq<Event>): nat {
    if es == [] then 0 else Sends(es[..|es| - 1]) + if es[|es| - 1].Sent? && es[|es| - 1].taken then 1 else 0
  }

  function Beats(es: seq<Event>): nat {
    if es == [] then 0 else Beats(es[..|es| - 1]) + if es[|es| - 1].Beaten? then 1 else 0
  }

  /** Messages with at least one, two or three heartbeats behind them are those below `p1`, `p2`, `p3`. */
  ghost predicate Aged(s: Sender, es: seq<Event>, i: nat)
    requires i < |es|
  {
    es[i].Sent? && es[i].taken ==>
      var q, beats := Sends(es[..i]), Beats(es[i + 1..]);
      && 0 <= q < |s.log| && s.log[q] == es[i].body
      && (q < s.p1 <==> beats >= 1) && (q < s.p2 <==> beats >= 2) && (q < s.p3 <==> beats >= 3)
  }

  ghost predicate Tracks(s: Sender, es: seq<Event>) {
    Window(s) && s.next == Sends(es) && s.oldest == s.p3 && forall i :: 0 <= i < |es| ==> Aged(s, es, i)
  }

  lemma {:induction false} RunTracks(rule: AckRule, sync: int, es: seq<Event>)
    requires forall e :: e in es ==> !e.Acked?
    ensures Tracks(After(rule, Start(sync), es), es)
  {
    if es != [] {
      assert es[|es| - 1] in es && forall e :: e in es[..|es| - 1] ==> e in es;
      RunTracks(rule, sync, es[..|es| - 1]);
      TracksNext(rule, After(rule, Start(sync), es[..|es| - 1]), es);
    }
  }

  lemma {:induction false} TracksNext(rule: AckRule, s: Sender, es: seq<Event>)
    requires es != [] && Tracks(s, es[..|es| - 1]) && !es[|es| - 1].Acked?
    ensures Tracks(Apply(rule, s, es[|es| - 1]), es)
  {
    var n := |es| - 1;
    var s' := Apply(rule, s, es[n]);
    match es[n] {
      case Sent(body, taken) => SendWindow(s, body, taken);
      case Beaten => BeatWindow(s);
    }
    forall i | 0 <= i < |es|
      ensures Aged(s', es, i)
    {
      if i < n {
        assert Aged(s, es[..n], i);
        AgedNext(rule, s, es, i);
      }
    }
  }

  lemma {:induction false} AgedNext(rule: AckRule, s: Sender, es: seq<Event>, i: nat)
    requires i < |es| - 1 && Window(s) && Aged(s, es[..|es| - 1], i) && !es[|es| - 1].Acked?
    ensures Aged(Apply(rule, s, es[|es| - 1]), es, i)
  {
    var n := |es| - 1;
    assert es[..n][..i] == es[..i];
    assert es[i + 1..][..n - i - 1] == es[..n][i + 1..];
    assert Beats(es[i + 1..]) == Beats(es[..n][i + 1..]) + if es[n].Beaten? then 1 else 0;
  }

  /** With trimming by heartbeats alone, for every interleaving of sends and heartbeats: the
      message sent by event `i` is in the buffer, under its own number and as it was sent,
      exactly as long as fewer than three heartbeats followed. */
  lemma ThirdHeartbeatDrops(rule: AckRule, sync: int, es: seq<Event>, i: nat)
    requires i < |es| && es[i].Sent? && es[i].taken && forall e :: e in es ==> !e.Acked?
    ensures var out := After(rule, Start(sync), es).outbuf; var q := Sends(es[..i]);
            && (q in out <==> Beats(es[i + 1..]) < 3)
            && (q in out ==> out[q] == Msg(q, es[i].body))
  {
    RunTracks(rule, sync, es);
    assert Aged(After(rule, Start(sync), es), es, i);
  }

  // ----- Trimming by acknowledgements -----

  lemma {:induction false} AcknowledgedLast(sync: int, acks: seq<int>)
    ensures Acknowledged(LastWins, sync, acks) == if acks == [] then sync else acks[|acks| - 1]
  {
  }

  lemma {:induction false} AcknowledgedLeast(rule: AckRule, sync: int, acks: seq<int>)
    requires !rule.LastWins?
    ensures var least := Acknowledged(rule, sync, acks);
            && (forall a :: a in acks ==> least <= a)
            && (least == sync || least in acks)
            && (rule.RunningLeast? ==> least <= sync)
            && (rule.FreshLeast? && acks != [] ==> least in acks)
  {
    if acks != [] {
      var front, a := acks[..|acks| - 1], acks[|acks| - 1];
      AcknowledgedLeast(rule, sync, front);
      assert acks == front + [a];
      assert forall x :: x in acks <==> x in front || x == a;
    }
  }

  /** Every message dropped has a number below every member's acknowledgement. */
  ghost predicate DropsOnlyAcknowledged(s: Sender, s': Sender, acks: seq<int>) {
    forall q, a :: q in s.outbuf && q !in s'.outbuf && a in acks ==> q < a
  }

  /** As meant, a message goes exactly when it is not older than the oldest one kept and every
      member, and there is one, has acknowledged more. */
  lemma AckTrimExact(s: Sender, acks: seq<int>, q: int)
    requires q in s.outbuf
    ensures q !in AckTrim(FreshLeast, s, acks).outbuf
            <==> acks != [] && s.oldest <= q && forall a :: a in acks ==> q < a
  {
    AcknowledgedLeast(FreshLeast, s.sync, acks);
  }

  /** `s` and `s'` differ at most in the acknowledged number. */
  ghost predicate SameButSync(s: Sender, s': Sender) {
    s == s'.(sync := s.sync)
  }

  function WithoutAcks(es: seq<Event>): seq<Event> {
    if es == [] then [] else WithoutAcks(es[..|es| - 1]) + if es[|es| - 1].Acked? then [] else [es[|es| - 1]]
  }

  /** With the semicolon removed and nothing else changed, the least acknowledgement includes its
      own last value. Started at 0, the number `rmcast_init` sets, no run ever trims by
      acknowledgements: the buffer is always what it is without them. */
  lemma {:induction false} RunningLeastNeverTrims(es: seq<Event>)
    ensures var s := After(RunningLeast, Start(0), es);
            s.sync <= 0 <= s.oldest && SameButSync(s, After(RunningLeast, Start(0), WithoutAcks(es)))
  {
    if es != [] {
      var front, e := es[..|es| - 1], es[|es| - 1];
      RunningLeastNeverTrims(front);
      RunningStep(After(RunningLeast, Start(0), front), After(RunningLeast, Start(0), WithoutAcks(front)), e);
      if !e.Acked? {
        assert WithoutAcks(es) == WithoutAcks(front) + [e];
        assert WithoutAcks(es)[..|WithoutAcks(front)|] == WithoutAcks(front);
      } else {
        assert WithoutAcks(es) == WithoutAcks(front);
      }
    }
  }

  lemma RunningStep(s: Sender, plain: Sender, e: Event)
    requires s.sync <= 0 <= s.oldest && SameButSync(s, plain)
    ensures var s' := Apply(RunningLeast, s, e);
            && s'.sync <= 0 <= s'.oldest
            && SameButSync(s', if e.Acked? then plain else Apply(RunningLeast, plain, e))
  {
    if e.Acked? {
      AcknowledgedLeast(RunningLeast, s.sync, e.acks);
    }
  }

  /** Whatever number it starts at, it never rises: a round takes only messages that every member has
      acknowledged, and none at or above the start. */
  lemma {:induction false} RunningLeastOnlyFalls(sync: int, es: seq<Event>, acks: seq<int>, q: int)
    ensures var s := After(RunningLeast, Start(sync), es); var s' := AckTrim(RunningLeast, s, acks);
            && s.sync <= sync && DropsOnlyAcknowledged(s, s', acks)
            && (q in s.outbuf && q !in s'.outbuf ==> q < sync)
  {
    if es != [] {
      var s := After(RunningLeast, Start(sync), es[..|es| - 1]);
      RunningLeastOnlyFalls(sync, es[..|es| - 1], acks, q);
      if es[|es| - 1].Acked? {
        AcknowledgedLeast(RunningLeast, s.sync, es[|es| - 1].acks);
      }
    }
    AcknowledgedLeast(RunningLeast, After(RunningLeast, Start(sync), es).sync, acks);
  }

  /** As written it takes the last member's word alone: it drops only acknowledged messages
      exactly when the last acknowledgement, capped by `next`, reaches none that is still
      buffered or is not above any other acknowledgement. */
  lemma AckTrimAsWrittenExact(s: Sender, acks: seq<int>)
    requires Window(s) && acks != []
    ensures var last := acks[|acks| - 1]; var bound := if last < s.next then last else s.next;
            DropsOnlyAcknowledged(s, AckTrim(LastWins, s, acks), acks)
            <==> bound <= s.oldest || forall a :: a in acks ==> bound <= a
  {
    AcknowledgedLast(s.sync, acks);
    var last := acks[|acks| - 1];
    var bound := if last < s.next then last else s.next;
    var s' := AckTrim(LastWins, s, acks);
    if bound > s.oldest {
      assert bound - 1 in s.outbuf && bound - 1 !in s'.outbuf;
    }
  }

  /** Two members, the first still waiting for message 0: as written message 0 goes. */
  lemma AckTrimAsWrittenDrops(body: Payload)
    ensures var s := Send(Start(0), body, true);
            0 in s.outbuf && 0 !in AckTrim(LastWins, s, [0, 1]).outbuf
            && !DropsOnlyAcknowledged(s, AckTrim(LastWins, s, [0, 1]), [0, 1])
  {
    AcknowledgedLast(0, [0, 1]);
    assert 0 in [0, 1];
  }
}
