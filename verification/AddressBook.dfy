/**
 The book of peers: at most 32 addresses with the time each was last heard, refreshed by every
 message and swept of the silent ones. Times are milliseconds.
 */
module AddressBook {
  import opened Collections
  import opened Handover

  const ENTRIES := 32
  const LIFETIME := 20_000

  datatype Entry = Entry(addr: Addr, heard: int)

  ghost predicate IsBook(book: seq<Entry>) {
    |book| <= ENTRIES && forall i, j :: 0 <= i < j < |book| ==> book[i].addr != book[j].addr
  }

  ghost predicate Knows(book: seq<Entry>, a: Addr) {
    exists i :: 0 <= i < |book| && book[i].addr == a
  }

  /** The peer is in the book and was last heard at `t` or later. */
  ghost predicate HeardSince(book: seq<Entry>, a: Addr, t: int) {
    exists i :: 0 <= i < |book| && book[i].addr == a && book[i].heard >= t
  }

  function Find(book: seq<Entry>, a: Addr): (i: nat)
    ensures i <= |book|
    ensures i < |book| ==> book[i].addr == a
    ensures forall j :: 0 <= j < i ==> book[j].addr != a
  {
    if book == [] || book[0].addr == a then 0 else 1 + Find(book[1..], a)
  }

  /** Whether there is a place for the address. */
  predicate HasPlace(book: seq<Entry>, a: Addr) {
    Find(book, a) < |book| || |book| < ENTRIES
  }

  function Insert(book: seq<Entry>, a: Addr, now: int): seq<Entry> {
    var i := Find(book, a);
    if i < |book| then book[i := Entry(a, now)]
    else if |book| < ENTRIES then book + [Entry(a, now)]
    else book
  }

  /** Whole seconds since the peer was heard, as the sweep compares them. */
  function Seconds(now: int, heard: int): int {
    (now - heard) / 1000
  }

  function Sweep(book: seq<Entry>, now: int): seq<Entry> {
    if book == [] then []
    else
      var kept := Sweep(book[..|book| - 1], now);
      var last := book[|book| - 1];
      if Seconds(now, last.heard) < 20 then kept + [last] else kept
  }

  class Book {
    var entries: seq<Entry>

    constructor ()
      ensures entries == []
    {
      entries := [];
    }

    method Hear(a: Addr, now: int) returns (ok: bool)
      modifies this
      ensures entries == Insert(old(entries), a, now)
      ensures ok == HasPlace(old(entries), a)
    {
      var i := 0;
      while i < |entries| && entries[i].addr != a
        invariant 0 <= i <= |entries| && entries == old(entries)
        invariant forall j :: 0 <= j < i ==> entries[j].addr != a
      {
        i := i + 1;
      }
      ok := true;
      if i < |entries| {
        entries := entries[i := Entry(a, now)];
      } else if |entries| < ENTRIES {
        entries := entries + [Entry(a, now)];
      } else {
        ok := false;
      }
    }

    method Retain(now: int)
      modifies this
      ensures entries == Sweep(old(entries), now)
    {
      var kept := [];
      for i := 0 to |entries|
        invariant entries == old(entries)
        invariant kept == Sweep(entries[..i], now)
      {
        assert entries[..i + 1][..i] == entries[..i];
        if (now - entries[i].heard) / 1000 < 20 {
          kept := kept + [entries[i]];
        }
      }
      assert entries[..|entries|] == entries;
      entries := kept;
    }
  }

  // ---------- Timed runs ----------

  datatype Event = Hear(addr: Addr, now: int) | Expire(now: int)

  function Step(book: seq<Entry>, e: Event): seq<Entry> {
    match e
    case Hear(a, now) => Insert(book, a, now)
    case Expire(now) => Sweep(book, now)
  }

  function Run(book: seq<Entry>, events: seq<Event>): seq<Entry>
    decreases events
  {
    if events == [] then book else Run(Step(book, events[0]), events[1..])
  }

  /** Time does not run backwards, and never gets more than `period` past the last sweep. */
  ghost predicate IsTimed(events: seq<Event>, swept: int, clock: int, period: nat)
    decreases events
  {
    events == [] ||
    (var now := events[0].now;
     && clock <= now <= swept + period
     && IsTimed(events[1..], if events[0].Expire? then now else swept, now, period))
  }

  ghost function LastSweep(events: seq<Event>, swept: int): int {
    if events == [] then swept
    else LastSweep(events[1..], if events[0].Expire? then events[0].now else swept)
  }

  lemma InsertKeepsBook(book: seq<Entry>, a: Addr, now: int)
    requires IsBook(book)
    ensures IsBook(Insert(book, a, now))
    ensures HasPlace(book, a) ==> HeardSince(Insert(book, a, now), a, now)
    ensures !HasPlace(book, a) ==> Insert(book, a, now) == book
    ensures |book| <= |Insert(book, a, now)|
    ensures forall i :: 0 <= i < |book| ==>
              Insert(book, a, now)[i] == if book[i].addr == a then Entry(a, now) else book[i]
  {
    var i := Find(book, a);
    if HasPlace(book, a) {
      assert Insert(book, a, now)[i] == Entry(a, now);
    }
  }

  lemma {:induction false} SweepKeepsExactlyTheRecent(book: seq<Entry>, now: int)
    ensures forall e :: e in Sweep(book, now) <==> e in book && now - e.heard < LIFETIME
    ensures |Sweep(book, now)| <= |book|
    ensures IsBook(book) ==> IsBook(Sweep(book, now))
  {
    if book != [] {
      var init, last := book[..|book| - 1], book[|book| - 1];
      SweepKeepsExactlyTheRecent(init, now);
      assert book == init + [last];
      assert last in book;
      if IsBook(book) {
        assert forall e :: e in Sweep(init, now) ==> e in init;
        assert forall e :: e in init ==> e.addr != last.addr;
      }
    }
  }

  ghost predicate AllHeardAfter(book: seq<Entry>, t: int) {
    forall e :: e in book ==> e.heard > t
  }

  /**
   Over every timed run the book has at most 32 entries with different addresses, and no entry is
   older than the lifetime plus the time since the last sweep.
   */
  lemma {:induction false} BookStaysBounded(book: seq<Entry>, events: seq<Event>, swept: int, clock: int, period: nat)
    requires IsBook(book) && AllHeardAfter(book, swept - LIFETIME) && swept <= clock
    requires IsTimed(events, swept, clock, period)
    ensures IsBook(Run(book, events))
    ensures AllHeardAfter(Run(book, events), LastSweep(events, swept) - LIFETIME)
    decreases events
  {
    if events != [] {
      match events[0] {
        case Hear(a, now) => InsertKeepsBook(book, a, now);
        case Expire(now) => SweepKeepsExactlyTheRecent(book, now);
      }
      BookStaysBounded(Step(book, events[0]), events[1..],
                       if events[0].Expire? then events[0].now else swept, events[0].now, period);
    }
  }

  /** Just before each event of a timed run, every entry is younger than lifetime plus period. */
  lemma EntriesAreNeverTooOld(book: seq<Entry>, events: seq<Event>, next: Event, swept: int, clock: int, period: nat)
    requires IsBook(book) && AllHeardAfter(book, swept - LIFETIME) && swept <= clock
    requires IsTimed(events + [next], swept, clock, period)
    ensures forall e :: e in Run(book, events) ==> next.now - e.heard < LIFETIME + period
  {
    TimedPrefix(events, next, swept, clock, period);
    BookStaysBounded(book, events, swept, clock, period);
  }

  lemma {:induction false} TimedPrefix(events: seq<Event>, next: Event, swept: int, clock: int, period: nat)
    requires IsTimed(events + [next], swept, clock, period)
    ensures IsTimed(events, swept, clock, period)
    ensures next.now <= LastSweep(events, swept) + period
    decreases events
  {
    if events == [] {
      assert (events + [next])[0] == next;
    } else {
      assert (events + [next])[1..] == events[1..] + [next];
      TimedPrefix(events[1..], next, if events[0].Expire? then events[0].now else swept, events[0].now, period);
    }
  }

  /** A peer that was heard is in the book at least as long as the lifetime. */
  lemma {:induction false} RecentPeerIsNotEvicted(book: seq<Entry>, events: seq<Event>, a: Addr, t: int)
    requires IsBook(book) && HeardSince(book, a, t)
    requires forall e :: e in events ==> t <= e.now < t + LIFETIME
    ensures HeardSince(Run(book, events), a, t)
    decreases events
  {
    if events != [] {
      assert events[0] in events;
      var i :| 0 <= i < |book| && book[i].addr == a && book[i].heard >= t;
      var book' := Step(book, events[0]);
      match events[0] {
        case Hear(b, now) =>
          InsertKeepsBook(book, b, now);
          assert book'[i].addr == a && book'[i].heard >= t;
        case Expire(now) =>
          SweepKeepsExactlyTheRecent(book, now);
          assert book[i] in book';
      }
      RecentPeerIsNotEvicted(book', events[1..], a, t);
    }
  }

  /** Refreshing a known peer always succeeds, even in a full book. */
  lemma KnownPeerHasPlace(book: seq<Entry>, a: Addr)
    requires Knows(book, a)
    ensures HasPlace(book, a)
  {
    var i :| 0 <= i < |book| && book[i].addr == a;
    assert Find(book, a) <= i;
  }

  // ---------- Exactly the peers heard recently ----------

  ghost predicate RunsForward(events: seq<Event>, clock: int)
    decreases events
  {
    events == [] || (clock <= events[0].now && RunsForward(events[1..], events[0].now))
  }

  ghost function Note(heard: map<Addr, int>, e: Event): map<Addr, int> {
    if e.Hear? then heard[e.addr := e.now] else heard
  }

  /** The times at which the senders of a run were heard last, on top of those already known. */
  ghost function Log(heard: map<Addr, int>, events: seq<Event>): map<Addr, int>
    decreases events
  {
    if events == [] then heard else Log(Note(heard, events[0]), events[1..])
  }

  ghost predicate IsHeardWithin(events: seq<Event>, a: Addr, now: int) {
    exists e :: e in events && e.Hear? && e.addr == a && now - e.now < LIFETIME
  }

  ghost function Senders(events: seq<Event>): set<Addr> {
    set e | e in events && e.Hear? :: e.addr
  }

  ghost function Names(book: seq<Entry>): seq<Addr> {
    seq(|book|, i requires 0 <= i < |book| => book[i].addr)
  }

  /** Each entry has the last time its peer was heard, and the peers without one were heard long ago. */
  ghost predicate IsCurrent(book: seq<Entry>, heard: map<Addr, int>, clock: int) {
    && IsBook(book)
    && (forall e :: e in book ==> e.addr in heard && heard[e.addr] == e.heard)
    && (forall a :: a in heard ==> Entry(a, heard[a]) in book || clock - heard[a] >= LIFETIME)
  }

  lemma NoteMovesSender(heard: map<Addr, int>, events: seq<Event>)
    requires events != []
    ensures Note(heard, events[0]).Keys + Senders(events[1..]) == heard.Keys + Senders(events)
  {
    assert forall e :: e in events <==> e == events[0] || e in events[1..];
  }

  /** A book that lacks a peer which was heard has fewer entries than peers were heard. */
  lemma PlaceForPeer(book: seq<Entry>, heard: map<Addr, int>, clock: int, a: Addr)
    requires IsCurrent(book, heard, clock) && |heard.Keys + {a}| <= ENTRIES
    ensures HasPlace(book, a)
  {
    if Find(book, a) == |book| {
      var names := ToSet(Names(book));
      NamesAreDistinct(book);
      forall b | b in names
        ensures b in heard.Keys && b != a
      {
        var i :| 0 <= i < |book| && Names(book)[i] == b;
        assert book[i] in book;
      }
      StrictSubsetIsSmaller(names, heard.Keys + {a}, a);
    }
  }

  lemma {:induction false} NamesAreDistinct(book: seq<Entry>)
    requires forall i, j :: 0 <= i < j < |book| ==> book[i].addr != book[j].addr
    ensures |ToSet(Names(book))| == |book|
  {
    if book != [] {
      var init, last := book[..|book| - 1], book[|book| - 1];
      NamesAreDistinct(init);
      assert Names(book) == Names(init) + [last.addr];
      assert ToSet(Names(book)) == ToSet(Names(init)) + {last.addr};
      assert last.addr !in Names(init);
    }
  }

  lemma HearStaysCurrent(book: seq<Entry>, heard: map<Addr, int>, clock: int, a: Addr, now: int)
    requires IsCurrent(book, heard, clock) && clock <= now && |heard.Keys + {a}| <= ENTRIES
    ensures IsCurrent(Insert(book, a, now), heard[a := now], now)
  {
    PlaceForPeer(book, heard, clock, a);
    InsertKeepsBook(book, a, now);
    var i, book' := Find(book, a), Insert(book, a, now);
    assert book'[i] == Entry(a, now);
    forall e | e in book'
      ensures e.addr in heard[a := now] && heard[a := now][e.addr] == e.heard
    {
      var j :| 0 <= j < |book'| && book'[j] == e;
      assert j != i ==> book[j] == e && e.addr != a;
    }
    forall b | b in heard && b != a && Entry(b, heard[b]) in book
      ensures Entry(b, heard[b]) in book'
    {
      var j :| 0 <= j < |book| && book[j] == Entry(b, heard[b]);
      assert book'[j] == book[j];
    }
  }

  lemma StepStaysCurrent(book: seq<Entry>, heard: map<Addr, int>, clock: int, e: Event)
    requires IsCurrent(book, heard, clock) && clock <= e.now && |Note(heard, e).Keys| <= ENTRIES
    ensures IsCurrent(Step(book, e), Note(heard, e), e.now)
  {
    match e {
      case Hear(a, now) =>
        assert Note(heard, e).Keys == heard.Keys + {a};
        HearStaysCurrent(book, heard, clock, a, now);
      case Expire(now) =>
        SweepKeepsExactlyTheRecent(book, now);
    }
  }

  lemma {:induction false} RunStaysCurrent(book: seq<Entry>, heard: map<Addr, int>, clock: int, events: seq<Event>)
    requires IsCurrent(book, heard, clock) && RunsForward(events, clock)
    requires |heard.Keys + Senders(events)| <= ENTRIES
    ensures IsCurrent(Run(book, events), Log(heard, events), if events == [] then clock else events[|events| - 1].now)
    decreases events
  {
    hide IsCurrent, Step, Note, Senders;
    if events != [] {
      NoteMovesSender(heard, events);
      SubsetIsNoLarger(Note(heard, events[0]).Keys, heard.Keys + Senders(events));
      StepStaysCurrent(book, heard, clock, events[0]);
      RunStaysCurrent(Step(book, events[0]), Note(heard, events[0]), events[0].now, events[1..]);
    }
  }

  /** Times do not run backwards, so the last time a peer was heard is the latest. */
  lemma {:induction false} LogIsLatest(heard: map<Addr, int>, clock: int, events: seq<Event>, a: Addr, now: int)
    requires RunsForward(events, clock) && forall b :: b in heard ==> heard[b] <= clock
    ensures a in Log(heard, events) && now - Log(heard, events)[a] < LIFETIME
       <==> (a in heard && now - heard[a] < LIFETIME) || IsHeardWithin(events, a, now)
    decreases events
  {
    if events != [] {
      LogIsLatest(Note(heard, events[0]), events[0].now, events[1..], a, now);
      assert forall e :: e in events <==> e == events[0] || e in events[1..];
      var isFirst := events[0].Hear? && events[0].addr == a && now - events[0].now < LIFETIME;
      assert IsHeardWithin(events, a, now) <==> isFirst || IsHeardWithin(events[1..], a, now);
    }
  }

  /**
   From boot, with at most 32 senders, the book after a sweep names exactly the peers heard less
   than the lifetime ago.
   */
  lemma SweptBookNamesExactlyTheRecent(events: seq<Event>, clock: int, now: int, a: Addr)
    requires RunsForward(events + [Expire(now)], clock)
    requires |Senders(events)| <= ENTRIES
    ensures a in Names(Sweep(Run([], events), now)) <==> IsHeardWithin(events, a, now)
  {
    ForwardPrefix(events, now, clock);
    var nobody: map<Addr, int> := map[];
    assert nobody.Keys + Senders(events) == Senders(events);
    RunStaysCurrent([], nobody, clock, events);
    var book, heard := Run([], events), Log(nobody, events);
    SweepKeepsExactlyTheRecent(book, now);
    LogIsLatest(nobody, clock, events, a, now);
    NamedIffEntry(Sweep(book, now), a);
    assert a in heard && now - heard[a] < LIFETIME ==> Entry(a, heard[a]) in Sweep(book, now);
  }

  lemma NamedIffEntry(book: seq<Entry>, a: Addr)
    ensures a in Names(book) <==> exists e :: e in book && e.addr == a
  {
    if a in Names(book) {
      var i :| 0 <= i < |book| && Names(book)[i] == a;
      assert book[i] in book && book[i].addr == a;
    }
    if exists e :: e in book && e.addr == a {
      var e :| e in book && e.addr == a;
      var i :| 0 <= i < |book| && book[i] == e;
      assert Names(book)[i] == a;
    }
  }

  lemma {:induction false} ForwardPrefix(events: seq<Event>, now: int, clock: int)
    requires RunsForward(events + [Expire(now)], clock)
    ensures RunsForward(events, clock)
    ensures now >= if events == [] then clock else events[|events| - 1].now
    decreases events
  {
    if events != [] {
      assert (events + [Expire(now)])[1..] == events[1..] + [Expire(now)];
      ForwardPrefix(events[1..], now, events[0].now);
    }
  }

  /**
   Where the ring's assumption on books comes from: if the senders of the last 20 seconds are just
   the other members, the swept book names just the other members.
   */
  lemma HeartbeatsMakeCoveringBook(events: seq<Event>, clock: int, now: int, members: set<Addr>, me: Addr)
    requires RunsForward(events + [Expire(now)], clock) && |Senders(events)| <= ENTRIES
    requires forall a :: IsHeardWithin(events, a, now) <==> a in members - {me}
    ensures Covers(Names(Sweep(Run([], events), now)), members, me)
  {
    var names := Names(Sweep(Run([], events), now));
    forall a
      ensures a in names <==> a in members - {me}
    {
      SweptBookNamesExactlyTheRecent(events, clock, now, a);
    }
    assert ToSet(names) == members - {me};
  }
}
