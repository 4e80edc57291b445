/** The receiving half of the control block: a record for every member, found through the member
    table and listed in the member queue. */
module MemberLists {
  import opened Text
  import opened MQueues
  import opened IntTables
  import opened MemberRosters
  import Rosters
  import opened Outboxes
  import opened Receiver
  import opened Sessions
  import opened Nacks
  import opened Words
  import opened Hosts

  /** The key to what this module closes: a predicate of the form `forall d :: OpenMembers(d) ==> P` is passed
      on as a whole by proofs that do not mention the key, and `assert OpenMembers(0)` looks into it. */
  ghost predicate OpenMembers(d: nat) {
    d >= 0
  }

  /** The wanted message is handed up. */
  ghost function HandedUp(t: Reading, r: Member): Member
    requires Wanted(t, r.sequence) in r.cache
  {
    var k := Wanted(t, r.sequence);
    r.(sequence := r.sequence + 1, cache := r.cache - {k}, handed := r.handed + [r.cache[k]])
  }

  lemma DrainRound(t: Reading, r: Member)
    ensures if Wanted(t, r.sequence) in r.cache then Drain(t, r) == Drain(t, HandedUp(t, r)) else Drain(t, r) == r
  {
  }

  /** One registered member: the source's `rmc_member`. */
  class MemberRecord {
    const id: Id
    const unseq: IntTable
    var session: int
    var sequence: int
    var sync: int

    ghost var cache: map<int, Msg>   // what the table stands for
    ghost var base: int              // where the numbering started
    ghost var handed: seq<Msg>       // what has been written to the application
    ghost var Repr: set<object>

    ghost predicate Valid()
      reads this, Repr
    {
      this in Repr && unseq in Repr && unseq.Repr <= Repr && this !in unseq.Repr && unseq.Valid()
      && cache == Kept(unseq.m)
    }

    ghost function Stream(): Member
      reads this
    {
      Member(base, sequence, cache, handed)
    }

    ghost function View(): Peer
      reads this
    {
      Peer(session, Stream(), sync)
    }

    /** The cache has 10 buckets and no pool. */
    constructor (text: Reading, id: Id, session: int, sequence: int)
      ensures Valid() && fresh(Repr) && this.id == id && View() == Peer(session, Joined(sequence), 0)
    {
      var t := new IntTable(text, 10, 0);
      this.id, unseq := id, t;
      this.session, this.sequence, sync := session, sequence, 0;
      cache, base, handed := map[], sequence, [];
      Repr := {this} + t.Repr;
    }

    /** The data case for a registered member: cache, drop, or hand up and drain. */
    method Receive(t: Reading, m: Msg) returns (gap: bool)
      requires Valid()
      modifies Repr
      ensures Valid() && fresh(Repr - old(Repr)) && View() == old(View()).(mem := OnData(t, old(Stream()), m))
      ensures gap <==> Gap(old(Stream()), m.num)
    {
      gap := false;
      if sequence + 1 != m.num {
        if sequence < m.num {
          Cache(m);
          gap := true;
        }
      } else {
        Advance(m);
        DrainCache(t);
      }
    }

    /** A new session restarts the numbering and keeps the cache. */
    method Restart(session: int, num: int)
      requires Valid()
      modifies this
      ensures Valid() && Repr == old(Repr)
      ensures View() == old(View()).(session := session, mem := Restarted(old(Stream()), num))
    {
      assert unseq.Valid();
      this.session, sequence := session, num - 1;
      base, handed := num - 1, [];
    }

    method NoteAck(ack: int)
      requires Valid()
      modifies this
      ensures Valid() && Repr == old(Repr) && View() == old(View()).(sync := ack)
    {
      assert unseq.Valid();
      sync := ack;
    }

    /** Before the record goes, its cache is emptied: every buffer in it is handed back once. */
    method Empty() returns (bufs: seq<Payload>, ghost nums: seq<int>)
      requires Valid()
      modifies Repr
      ensures Valid() && Repr == old(Repr) && EachOnce(old(unseq.m), bufs, nums) && cache == map[]
    {
      cache := map[];
      bufs, nums := unseq.Empty();
    }

    /** A message whose number is cached already is refused by the table. */
    method Cache(m: Msg)
      requires Valid()
      modifies Repr
      ensures Valid() && fresh(Repr - old(Repr)) && session == old(session) && sync == old(sync)
      ensures Stream() == old(Stream()).(cache := if m.num in old(cache) then old(cache) else old(cache)[m.num := m])
    {
      KeptChanges(unseq.m, m.num, m.body);
      cache := if m.num in cache then cache else cache[m.num := m];
      var _ := unseq.Put(m.num, m.body);
      assert unseq.Valid() && this !in unseq.Repr;
      Repr := Repr + unseq.Repr;
    }

    /** Handing up one message. */
    method Advance(m: Msg)
      requires Valid()
      modifies this`handed, this`sequence
      ensures Valid() && Stream() == old(Stream()).(sequence := old(sequence) + 1, handed := old(handed) + [m])
    {
      handed := handed + [m];
      sequence := sequence + 1;
    }

    /** The numbers a gap report asks for when `num` has been heard of. */
    method ToAsk(t: Reading, num: int) returns (list: seq<int>)
      requires Valid()
      ensures list == Asked(t, Stream(), num)
    {
      assert unseq.m.Keys == cache.Keys;
      var lost: nat;
      if t.AsMeant? {
        list, lost := ScanGap(sequence, num, unseq);
      } else {
        list, lost := ScanRing(Word(sequence + 1), Word(sequence - 1), unseq);
      }
    }

    /** Removing the wanted message, if it is cached. */
    method TakeWanted(t: Reading) returns (m: Option<Msg>)
      requires Valid()
      modifies Repr
      ensures Valid() && Repr == old(Repr) && session == old(session) && sync == old(sync)
      ensures var k := Wanted(t, old(sequence));
              && m == (if k in old(cache) then Some(old(cache)[k]) else None)
              && Stream() == old(Stream()).(cache := old(cache) - {k})
    {
      var k := Wanted(t, sequence);
      KeptChanges(unseq.m, k, 0);
      cache := cache - {k};
      var r := unseq.Remove(k);
      m := if r.Some? then Some(Msg(k, r.value)) else None;
    }

    /** One round of the drain: the wanted message, if it can be removed, is handed up. */
    method HandUp(t: Reading) returns (found: bool)
      requires Valid()
      modifies Repr
      ensures Valid() && Repr == old(Repr) && session == old(session) && sync == old(sync)
      ensures found == (Wanted(t, old(sequence)) in old(cache))
      ensures Stream() == if found then HandedUp(t, old(Stream())) else old(Stream())
    {
      var m := TakeWanted(t);
      found := m.Some?;
      if found {
        Advance(m.value);
      } else {
        assert cache == old(cache);
      }
    }

    method DrainCache(t: Reading)
      requires Valid()
      modifies Repr
      ensures Valid() && Repr == old(Repr) && session == old(session) && sync == old(sync)
      ensures Stream() == Drain(t, old(Stream()))
    {
      DrainRound(t, Stream());
      var found := HandUp(t);
      while found
        invariant Valid() && Repr == old(Repr) && session == old(session) && sync == old(sync)
        invariant Drain(t, Stream()) == Drain(t, old(Stream()))
        invariant !found ==> Wanted(t, sequence) !in cache
        decreases cache.Keys, found
      {
        DrainRound(t, Stream());
        found := HandUp(t);
      }
    }
  }

  /** The roster and the records `recs` are in order and share nothing with one another or with
      `me`; they are all of `owned`, and the records stand for `views`. */
  ghost predicate Apart(me: object, roster: Roster, recs: map<Ptr, MemberRecord>, views: map<Ptr, Peer>, owned: set<object>)
    reads owned
  {
    && me !in owned && roster in owned && roster.Repr <= owned && roster.Valid()
    && recs.Keys == views.Keys
    && (forall p :: p in recs ==> recs[p] in owned && recs[p].Repr <= owned && recs[p].Repr !! roster.Repr)
    && (forall p :: p in recs ==> recs[p].Valid() && recs[p].View() == views[p])
    && (forall p, p' :: p in recs && p' in recs && p != p' ==> recs[p].Repr !! recs[p'].Repr)
  }

  /** The same, closed to those who just pass it on. */
  ghost predicate Held(me: object, roster: Roster, recs: map<Ptr, MemberRecord>, views: map<Ptr, Peer>, owned: set<object>)
    reads owned
  {
    && me !in owned && roster in owned && recs.Keys == views.Keys
    && forall d: nat {:trigger OpenMembers(d)} :: OpenMembers(d) ==> Apart(me, roster, recs, views, owned)
  }

  lemma HeldSame(me: object, roster: Roster, recs: map<Ptr, MemberRecord>, views: map<Ptr, Peer>, owned: set<object>)
    requires Held(me, roster, recs, views, owned)
    ensures Same(roster.m, roster.s)
  {
    assert OpenMembers(0);
  }

  /** One record takes a step, the others and the roster do not notice. */
  method ReceiveAt(ghost me: object, ghost roster: Roster, recs: map<Ptr, MemberRecord>, ghost views: map<Ptr, Peer>,
                   ghost owned: set<object>, p: Ptr, t: Reading, m: Msg)
    returns (gap: bool, ghost owned': set<object>)
    requires Held(me, roster, recs, views, owned) && p in recs
    modifies owned
    ensures gap <==> Gap(views[p].mem, m.num)
    ensures Held(me, roster, recs, views[p := views[p].(mem := OnData(t, views[p].mem, m))], owned')
    ensures owned <= owned' && fresh(owned' - owned) && roster.m == old(roster.m) && roster.s == old(roster.s)
  {
    assert OpenMembers(0);
    gap, owned' := ReceiveInside(me, roster, recs, views, owned, p, t, m);
  }

  method ReceiveInside(ghost me: object, ghost roster: Roster, recs: map<Ptr, MemberRecord>, ghost views: map<Ptr, Peer>,
                       ghost owned: set<object>, p: Ptr, t: Reading, m: Msg)
    returns (gap: bool, ghost owned': set<object>)
    requires Apart(me, roster, recs, views, owned) && p in recs
    modifies recs[p].Repr
    ensures gap <==> Gap(views[p].mem, m.num)
    ensures Apart(me, roster, recs, views[p := views[p].(mem := OnData(t, views[p].mem, m))], owned')
    ensures owned <= owned' && fresh(owned' - owned) && roster.m == old(roster.m) && roster.s == old(roster.s)
  {
    gap := recs[p].Receive(t, m);
    owned' := owned + recs[p].Repr;
  }

  method RestartAt(ghost me: object, ghost roster: Roster, recs: map<Ptr, MemberRecord>, ghost views: map<Ptr, Peer>,
                   ghost owned: set<object>, p: Ptr, session: int, num: int)
    requires Held(me, roster, recs, views, owned) && p in recs
    modifies owned
    ensures Held(me, roster, recs, views[p := views[p].(session := session, mem := Restarted(views[p].mem, num))], owned)
    ensures roster.m == old(roster.m) && roster.s == old(roster.s)
  {
    assert OpenMembers(0);
    recs[p].Restart(session, num);
  }

  method NoteAt(ghost me: object, ghost roster: Roster, recs: map<Ptr, MemberRecord>, ghost views: map<Ptr, Peer>,
                ghost owned: set<object>, p: Ptr, ack: int)
    requires Held(me, roster, recs, views, owned) && p in recs
    modifies owned
    ensures Held(me, roster, recs, views[p := views[p].(sync := ack)], owned)
    ensures roster.m == old(roster.m) && roster.s == old(roster.s)
  {
    assert OpenMembers(0);
    recs[p].NoteAck(ack);
  }

  /** Looking up a position of the queue moves nothing but the cursor. */
  method PeekHeld(ghost me: object, roster: Roster, ghost recs: map<Ptr, MemberRecord>, ghost views: map<Ptr, Peer>,
                  ghost owned: set<object>, i: int) returns (p: Ptr)
    requires Held(me, roster, recs, views, owned) && 0 <= i < |roster.s|
    modifies owned
    ensures Held(me, roster, recs, views, owned)
    ensures roster.m == old(roster.m) && roster.s == old(roster.s) && p == roster.s[i]
  {
    assert OpenMembers(0);
    p := roster.RecordAt(i);
  }

  method EnrollInside(ghost me: object, roster: Roster, ghost recs: map<Ptr, MemberRecord>, ghost views: map<Ptr, Peer>,
                      ghost owned: set<object>, p: Ptr, mem: MemberRecord)
    returns (ghost owned': set<object>)
    requires Apart(me, roster, recs, views, owned) && p !in recs && p !in roster.s && mem.id !in roster.m
    requires mem.Valid() && me !in mem.Repr && mem.Repr !! owned
    modifies roster.Repr
    ensures Apart(me, roster, recs[p := mem], views[p := mem.View()], owned') && fresh(owned' - owned - mem.Repr)
    ensures roster.m == old(roster.m)[mem.id := p] && roster.s == [p] + old(roster.s) && mem.View() == old(mem.View())
  {
    roster.Register(mem.id, p);
    owned' := owned + roster.Repr + mem.Repr;
  }

  /** A new record joins the others. */
  method EnrollAt(ghost me: object, roster: Roster, ghost recs: map<Ptr, MemberRecord>, ghost views: map<Ptr, Peer>,
                  ghost owned: set<object>, p: Ptr, mem: MemberRecord)
    returns (ghost owned': set<object>)
    requires Held(me, roster, recs, views, owned) && p !in recs && p !in roster.s && mem.id !in roster.m
    requires mem.Valid() && me !in mem.Repr && mem.Repr !! owned
    modifies owned
    ensures Held(me, roster, recs[p := mem], views[p := old(mem.View())], owned') && fresh(owned' - owned - mem.Repr)
    ensures roster.m == old(roster.m)[mem.id := p] && roster.s == [p] + old(roster.s)
  {
    assert OpenMembers(0);
    owned' := EnrollInside(me, roster, recs, views, owned, p, mem);
  }

  /** A record leaves the others. */
  method StrikeAt(ghost me: object, roster: Roster, recs: map<Ptr, MemberRecord>, ghost views: map<Ptr, Peer>,
                  ghost owned: set<object>, src: Id, p: Ptr)
    returns (bufs: seq<Payload>, ghost nums: seq<int>)
    requires Held(me, roster, recs, views, owned) && p in recs && src in roster.m && roster.m[src] == p
    modifies owned
    ensures Held(me, roster, recs - {p}, views - {p}, owned)
    ensures roster.m == old(roster.m) - {src} && roster.s == Without(old(roster.s), p)
    ensures |bufs| == |nums| && NoRepeat(nums) && forall k :: k in nums <==> k in views[p].mem.cache
    ensures forall j :: 0 <= j < |nums| ==>
              nums[j] in views[p].mem.cache && views[p].mem.cache[nums[j]] == Msg(nums[j], bufs[j])
  {
    assert OpenMembers(0);
    bufs, nums := recs[p].Empty();
    var _ := roster.Leave(src);
  }

  /** Table, queue and records agree, and stand for `peers` and `order`. */
  ghost predicate Agree(m: map<int, Ptr>, s: seq<Ptr>, recs: map<Ptr, MemberRecord>, views: map<Ptr, Peer>,
                        peers: map<Id, Peer>, order: seq<Id>)
  {
    && (forall p :: p in recs <==> p in s)
    && (forall g :: g in peers <==> g in m)
    && (forall g :: g in m ==> var p := m[g]; p in recs && recs[p].id == g && p in views && views[p] == peers[g])
    && |order| == |s|
    && (forall i :: 0 <= i < |order| ==> s[i] in recs && recs[s[i]].id == order[i])
  }

  /** The same, closed to those who just pass it on. */
  ghost predicate Agreed(m: map<int, Ptr>, s: seq<Ptr>, recs: map<Ptr, MemberRecord>, views: map<Ptr, Peer>,
                         peers: map<Id, Peer>, order: seq<Id>)
  {
    forall d: nat {:trigger OpenMembers(d)} :: OpenMembers(d) ==> Agree(m, s, recs, views, peers, order)
  }

  lemma AgreeKeys(m: map<int, Ptr>, s: seq<Ptr>, recs: map<Ptr, MemberRecord>, views: map<Ptr, Peer>,
                  peers: map<Id, Peer>, order: seq<Id>)
    requires Agreed(m, s, recs, views, peers, order)
    ensures |order| == |s| && forall g :: g in peers <==> g in m
  {
    assert OpenMembers(0);
  }

  /** A change of one record. */
  lemma AgreeAt(m: map<int, Ptr>, s: seq<Ptr>, recs: map<Ptr, MemberRecord>, views: map<Ptr, Peer>,
                peers: map<Id, Peer>, order: seq<Id>, g: Id, v: Peer)
    requires Agreed(m, s, recs, views, peers, order) && g in m
    ensures Agreed(m, s, recs, views[m[g] := v], peers[g := v], order)
  {
  }

  lemma AgreeEnroll(m: map<int, Ptr>, s: seq<Ptr>, recs: map<Ptr, MemberRecord>, views: map<Ptr, Peer>,
                    peers: map<Id, Peer>, order: seq<Id>, p: Ptr, mem: MemberRecord, v: Peer)
    requires Agreed(m, s, recs, views, peers, order) && p !in recs && mem.id !in m
    ensures Agreed(m[mem.id := p], [p] + s, recs[p := mem], views[p := v], peers[mem.id := v], [mem.id] + order)
    ensures p !in s
  {
    assert OpenMembers(0);
  }

  /** What the queue lists at a position is the record the table has for that id. */
  lemma AgreeEntry(m: map<int, Ptr>, s: seq<Ptr>, recs: map<Ptr, MemberRecord>, views: map<Ptr, Peer>,
                   peers: map<Id, Peer>, order: seq<Id>, i: int)
    requires Same(m, s) && Agreed(m, s, recs, views, peers, order) && 0 <= i < |s|
    ensures |order| == |s| && s[i] in recs && s[i] in views && order[i] in m && m[order[i]] == s[i]
    ensures recs[s[i]].id == order[i] && order[i] in peers && peers[order[i]] == views[s[i]]
  {
    assert OpenMembers(0);
    var k := SameHas(m, s, s[i]);
  }

  /** Leaving out the same position of two sequences. */
  lemma {:induction false} WithoutAlike(s: seq<Ptr>, p: Ptr, order: seq<Id>, g: Id, recs: map<Ptr, MemberRecord>)
    requires |s| == |order| && forall i :: 0 <= i < |s| ==> s[i] in recs && recs[s[i]].id == order[i]
    requires forall i :: 0 <= i < |s| ==> (s[i] == p <==> order[i] == g)
    ensures var s', order' := Without(s, p), Without(order, g);
            |s'| == |order'| && forall i :: 0 <= i < |s'| ==> s'[i] in recs && recs[s'[i]].id == order'[i]
  {
    if s != [] && s[0] != p {
      WithoutAlike(s[1..], p, order[1..], g, recs);
    }
  }

  /** The other members keep their records. */
  lemma StrikeKeeps(m: map<int, Ptr>, s: seq<Ptr>, recs: map<Ptr, MemberRecord>, views: map<Ptr, Peer>,
                    peers: map<Id, Peer>, order: seq<Id>, g: Id)
    requires Agree(m, s, recs, views, peers, order) && g in m
    ensures forall h :: h in m - {g} ==>
              var p := m[h]; p != m[g] && p in recs && recs[p].id == h && p in views && views[p] == peers[h]
  {
  }

  /** Taken out of the queue, the record is in it no more. */
  lemma StrikeQueue(s: seq<Ptr>, recs: map<Ptr, MemberRecord>, order': seq<Id>, p: Ptr)
    requires NoRepeat(s) && (forall q :: q in recs <==> q in s)
    requires var s' := Without(s, p);
             |s'| == |order'| && forall i :: 0 <= i < |s'| ==> s'[i] in recs && recs[s'[i]].id == order'[i]
    ensures var s' := Without(s, p);
            && (forall q :: q in recs - {p} <==> q in s')
            && (forall i :: 0 <= i < |order'| ==> s'[i] in recs - {p} && (recs - {p})[s'[i]].id == order'[i])
  {
    Rosters.WithoutHas(s, p);
  }

  lemma AgreeStrike(m: map<int, Ptr>, s: seq<Ptr>, recs: map<Ptr, MemberRecord>, views: map<Ptr, Peer>,
                    peers: map<Id, Peer>, order: seq<Id>, g: Id)
    requires Same(m, s) && Agreed(m, s, recs, views, peers, order) && g in m
    ensures var p := m[g];
            Agreed(m - {g}, Without(s, p), recs - {p}, views - {p}, peers - {g}, Without(order, g))
  {
    assert OpenMembers(0);
    var p := m[g];
    forall i | 0 <= i < |s|
      ensures s[i] == p <==> order[i] == g
    {
      AgreeEntry(m, s, recs, views, peers, order, i);
    }
    WithoutAlike(s, p, order, g, recs);
    StrikeQueue(s, recs, Without(order, g), p);
    StrikeKeeps(m, s, recs, views, peers, order, g);
    assert Agree(m - {g}, Without(s, p), recs - {p}, views - {p}, peers - {g}, Without(order, g));
  }

  /** The members as a map from ids to records, and in the order of the queue. */
  class Members {
    const text: Reading
    const roster: Roster
    var recs: map<Ptr, MemberRecord>   // the records in use, by their addresses
    var top: Ptr                       // an address above all of these

    ghost var views: map<Ptr, Peer>    // what the records stand for
    ghost var peers: map<Id, Peer>     // the same by id, through the table
    ghost var order: seq<Id>           // what the queue stands for
    ghost var owned: set<object>

    ghost predicate Valid()
      reads this, owned
    {
      && Held(this, roster, recs, views, owned) && Agreed(roster.m, roster.s, recs, views, peers, order)
      && forall p :: p in recs ==> p < top
    }

    constructor (text: Reading)
      ensures Valid() && fresh(owned) && peers == map[] && order == [] && this.text == text
    {
      var r := new Roster(text);
      this.text := text;
      roster := r;
      recs, top := map[], 0;
      views, peers, order := map[], map[], [];
      owned := r.Repr;
    }

    /** The address of a member's record, if it is registered. */
    method Find(src: Id) returns (p: Option<Ptr>)
      requires Valid()
      ensures if src in peers then p.Some? && src in roster.m && p.value == roster.m[src] && p.value in recs
                                   && recs[p.value].id == src && p.value in views
                                   && views[p.value] == recs[p.value].View() == peers[src]
              else p == None
    {
      assert OpenMembers(0);
      p := roster.Find(src);
    }

    ghost method Adopt(vs: map<Ptr, Peer>, ps: map<Id, Peer>, ids: seq<Id>, bigger: set<object>)
      requires Held(this, roster, recs, vs, bigger)
      modifies this`views, this`peers, this`order, this`owned
      ensures Held(this, roster, recs, views, owned) && views == vs && peers == ps && order == ids && owned == bigger
    {
      views, peers, order, owned := vs, ps, ids, bigger;
    }

    method SetRecords(rs: map<Ptr, MemberRecord>, t: Ptr, ghost vs: map<Ptr, Peer>, ghost bigger: set<object>)
      requires Held(this, roster, rs, vs, bigger)
      modifies this`recs, this`top
      ensures recs == rs && top == t && Held(this, roster, recs, vs, bigger)
    {
      recs, top := rs, t;
    }

    /** The data case: a registered member's record takes the receiver's step. */
    method Receive(src: Id, m: Msg) returns (known: bool, gap: bool)
      requires Valid()
      modifies this, owned
      ensures Valid() && fresh(owned - old(owned)) && order == old(order) && known == (src in old(peers))
      ensures if known then
                && peers == old(peers)[src := old(peers)[src].(mem := OnData(text, old(peers)[src].mem, m))]
                && (gap <==> Gap(old(peers)[src].mem, m.num))
              else peers == old(peers) && !gap
    {
      gap := false;
      var p := Find(src);
      known := p.Some?;
      if known {
        ghost var v := views[p.value].(mem := OnData(text, views[p.value].mem, m));
        AgreeAt(roster.m, roster.s, recs, views, peers, order, src, v);
        ghost var bigger;
        gap, bigger := ReceiveAt(this, roster, recs, views, owned, p.value, text, m);
        Adopt(views[p.value := v], peers[src := v], order, bigger);
      }
    }

    /** A new session of a known member. */
    method Restart(src: Id, p: Ptr, num: int, session: int)
      requires Valid() && src in peers && src in roster.m && p == roster.m[src]
      modifies this, owned
      ensures Valid() && owned == old(owned) && order == old(order)
      ensures var old_ := old(peers)[src];
              peers == old(peers)[src := old_.(session := session, mem := Restarted(old_.mem, num))]
    {
      assert OpenMembers(0);
      ghost var v := views[p].(session := session, mem := Restarted(views[p].mem, num));
      AgreeAt(roster.m, roster.s, recs, views, peers, order, src, v);
      RestartAt(this, roster, recs, views, owned, p, session, num);
      Adopt(views[p := v], peers[src := v], order, owned);
    }

    /** A member not heard of before: its record is made and goes into table and queue. */
    method Enroll(src: Id, num: int, session: int)
      requires Valid() && src !in peers
      modifies this, owned
      ensures Valid() && fresh(owned - old(owned))
      ensures peers == old(peers)[src := Peer(session, Joined(num - 1), 0)] && order == [src] + old(order)
    {
      AgreeKeys(roster.m, roster.s, recs, views, peers, order);
      var mem := new MemberRecord(text, src, session, num - 1);
      var p := top;
      ghost var v := mem.View();
      AgreeEnroll(roster.m, roster.s, recs, views, peers, order, p, mem, v);
      ghost var bigger := EnrollAt(this, roster, recs, views, owned, p, mem);
      SetRecords(recs[p := mem], top + 1, views[p := v], bigger);
      Adopt(views[p := v], peers[src := v], [src] + order, bigger);
    }

    /** The registration part of a heartbeat. */
    method Register(src: Id, num: int, session: int)
      requires Valid()
      modifies this, owned
      ensures Valid() && fresh(owned - old(owned)) && src in peers
      ensures if src !in old(peers) then
                peers == old(peers)[src := Peer(session, Joined(num - 1), 0)] && order == [src] + old(order)
              else
                && order == old(order)
                && var was := old(peers)[src];
                   peers == if was.session != session
                            then old(peers)[src := was.(session := session, mem := Restarted(was.mem, num))] else old(peers)
    {
      var p := Find(src);
      if p.None? {
        Enroll(src, num, session);
      } else if recs[p.value].session != session {
        Restart(src, p.value, num, session);
      }
    }

    method NoteAck(src: Id, ack: int)
      requires Valid() && src in peers
      modifies this, owned
      ensures Valid() && owned == old(owned) && order == old(order)
      ensures peers == old(peers)[src := old(peers)[src].(sync := ack)]
    {
      var p := Find(src);
      ghost var v := views[p.value].(sync := ack);
      AgreeAt(roster.m, roster.s, recs, views, peers, order, src, v);
      NoteAt(this, roster, recs, views, owned, p.value, ack);
      Adopt(views[p.value := v], peers[src := v], order, owned);
    }

    /** A member leaves: its cache is emptied, and its record goes from table and queue. */
    method Leave(src: Id)
      requires Valid()
      modifies this, owned
      ensures Valid() && owned == old(owned)
      ensures if src in old(peers) then peers == old(peers) - {src} && order == Without(old(order), src)
              else peers == old(peers) && order == old(order)
    {
      var p := Find(src);
      if p.Some? {
        HeldSame(this, roster, recs, views, owned);
        AgreeStrike(roster.m, roster.s, recs, views, peers, order, src);
        var _, _ := StrikeAt(this, roster, recs, views, owned, src, p.value);
        SetRecords(recs - {p.value}, top, views - {p.value}, owned);
        Adopt(views - {p.value}, peers - {src}, Without(order, src), owned);
      }
    }

    /** Whether a number heard of is ahead of a registered member's stream. */
    method IsGap(src: Id, num: int) returns (gap: bool)
      requires Valid() && src in peers
      ensures gap == Gap(peers[src].mem, num)
    {
      var p := Find(src);
      var mem := recs[p.value];
      gap := mem.sequence + 1 != num && mem.sequence < num;
    }

    /** What to ask a registered member for. */
    method ToAsk(src: Id, num: int) returns (list: seq<int>)
      requires Valid() && src in peers
      ensures list == Asked(text, peers[src].mem, num)
    {
      assert OpenMembers(0);
      var p := Find(src);
      list := recs[p.value].ToAsk(text, num);
    }

    method Size() returns (n: int)
      requires Valid()
      ensures n == |order|
    {
      assert OpenMembers(0);
      n := roster.Size();
    }

    /** The member at position `i` of the queue: its id, its number and what it acknowledged. */
    method At(i: int) returns (id: Id, sequence: int, sync: int)
      requires Valid() && 0 <= i < |order|
      modifies this, owned
      ensures Valid() && owned == old(owned) && peers == old(peers) && order == old(order)
      ensures id == order[i] && id in peers && sequence == peers[id].mem.sequence && sync == peers[id].sync
    {
      assert OpenMembers(0);
      AgreeEntry(roster.m, roster.s, recs, views, peers, order, i);
      var p := PeekHeld(this, roster, recs, views, owned, i);
      id, sequence, sync := recs[p].id, recs[p].sequence, recs[p].sync;
    }
  }
}
