/**
 The handover rule inside the running protocol: which machine owns the ledger after so many
 handovers, and that on a ring every machine gets its turn.
 */
module Rotation {
  import opened Handover
  import opened Ring
  import opened JobProtocol

  /** Every machine keeps the book it has. */
  ghost predicate KeepsBooks(events: seq<Event>, books: map<Addr, seq<Addr>>) {
    forall e :: e in events && e.Iterate? ==> e.at in books && e.scene.book == books[e.at]
  }

  /** The event is an iteration in which the owner names its successor. */
  ghost predicate IsPass(sys: System, e: Event) {
    && e.Iterate? && e.at in sys.machines && e.scene.hasAddress && e.scene.book != []
    && sys.machines[e.at].Owns() && sys.machines[e.at].observed
  }

  ghost function Passes(sys: System, events: seq<Event>, n: nat): nat
    requires n <= |events|
    decreases n
  {
    if n == 0 then 0
    else Advance(sys, events[0]) + Passes(Step(sys, events[0]), events[1..], n - 1)
  }

  lemma StepMovesOwner(sys: System, e: Event, owner: Addr)
    requires Agreed(sys, owner) && Enabled(sys, e)
    ensures Step(sys, e).machines.Keys == sys.machines.Keys
    ensures Agreed(Step(sys, e), if IsPass(sys, e) then NextOwner(e.scene.book, owner) else owner)
  {
    StepKeepsMembers(sys, e);
    if e.Iterate? {
      if e.at != owner {
        OthersDoNothing(sys, owner, e.at, e.scene);
      } else if e.scene.hasAddress && sys.machines[owner].observed {
        OwnerPasses(sys, owner, e.scene);
      } else {
        OwnerWaits(sys, owner, e.scene);
      }
    }
  }

  lemma PassIsByOwner(sys: System, e: Event, owner: Addr)
    requires Agreed(sys, owner) && IsPass(sys, e)
    ensures e.at == owner
  {
  }

  ghost function Advance(sys: System, e: Event): nat {
    if IsPass(sys, e) then 1 else 0
  }

  lemma StepWalks(sys: System, e: Event, books: map<Addr, seq<Addr>>, start: Addr, k: nat)
    requires IsClosed(books) && start in books.Keys
    requires Agreed(sys, Walk(books, start, k)) && Enabled(sys, e)
    requires e.Iterate? ==> e.at in books && e.scene.book == books[e.at]
    ensures Step(sys, e).machines.Keys == sys.machines.Keys
    ensures Agreed(Step(sys, e), Walk(books, start, k + Advance(sys, e)))
  {
    hide Step, Enabled, Agreed, IsClosed, NextOwner;
    StepMovesOwner(sys, e, Walk(books, start, k));
    if IsPass(sys, e) {
      PassIsByOwner(sys, e, Walk(books, start, k));
    }
  }

  /** After any run the owner is as many steps along the walk as there were handovers. */
  lemma {:induction false} OwnerWalks(sys: System, events: seq<Event>, n: nat, books: map<Addr, seq<Addr>>,
                                      start: Addr, k: nat)
    requires IsClosed(books) && start in books.Keys
    requires Agreed(sys, Walk(books, start, k))
    requires IsRun(sys, events) && KeepsBooks(events, books) && n <= |events|
    ensures Agreed(State(sys, events, n), Walk(books, start, k + Passes(sys, events, n)))
    decreases n
  {
    hide Step, Enabled, Agreed, IsClosed, IsPass, Walk;
    if n > 0 {
      var e := events[0];
      StepWalks(sys, e, books, start, k);
      OwnerWalks(Step(sys, e), events[1..], n - 1, books, start, k + Advance(sys, e));
    }
  }

  /** Handovers are counted one at a time, so every number up to the total is reached. */
  lemma {:induction false} PassesReach(sys: System, events: seq<Event>, n: nat, k: nat) returns (m: nat)
    requires n <= |events| && k <= Passes(sys, events, n)
    ensures m <= n && Passes(sys, events, m) == k
    decreases n
  {
    hide Step, IsPass;
    if k == 0 {
      m := 0;
    } else {
      var later := PassesReach(Step(sys, events[0]), events[1..], n - 1, k - Advance(sys, events[0]));
      m := later + 1;
    }
  }

  /**
   On a ring, one handover less than there are members is enough: by then every member has owned
   the ledger.
   */
  lemma EveryMemberGetsItsTurn(sys: System, events: seq<Event>, books: map<Addr, seq<Addr>>, start: Addr, a: Addr)
    returns (m: nat)
    requires IsRing(books) && start in books.Keys && a in books.Keys
    requires Agreed(sys, start) && IsRun(sys, events) && KeepsBooks(events, books)
    requires Passes(sys, events, |events|) >= |books.Keys| - 1
    ensures m <= |events| && Agreed(State(sys, events, m), a)
  {
    hide Agreed, IsRun, State, Passes, IsRing, IsClosed, KeepsBooks, NamesNext;
    var top := RingNamesNext(books);
    var k := WalkReaches(books, top, start, 0, a);
    m := PassesReach(sys, events, |events|, k);
    assert Walk(books, start, 0) == start;
    OwnerWalks(sys, events, m, books, start, 0);
  }
}
