/**
 The job ledger over a network that delivers every broadcast to every other machine at once, with
 a fixed set of machines: what happens to each submitted job, over every run.

 A submission by a machine that does not own the ledger has two steps in the code, the check under
 the lock and the announcement after it, and other machines may act in between; both are events.
 */
module JobProtocol {
  import opened Collections
  import opened Wrappers
  import opened Handover
  import opened Uuids
  import opened JobSets
  import opened Ledgers

  /** `lost` records the submissions that no ledger took up; the other fields are real state. */
  datatype System = System(machines: map<Addr, Machine>, announcing: map<Uuid, Addr>,
                           submitted: set<Uuid>, printed: seq<Uuid>, lost: set<Uuid>)

  datatype Event =
    | Iterate(at: Addr, scene: Scene)
    | Submit(at: Addr, guid: Uuid, bookIsEmpty: bool)
    | Announce(guid: Uuid, now: int)

  /** Everyone but the sender handles the message. */
  function Hear(machines: map<Addr, Machine>, from: Addr, p: Payload, now: int): map<Addr, Machine> {
    map b | b in machines :: if b == from then machines[b] else Receive(machines[b], p, now)
  }

  function HearAll(machines: map<Addr, Machine>, from: Addr, ps: seq<Payload>, now: int): (r: map<Addr, Machine>)
    ensures r.Keys == machines.Keys
    decreases ps
  {
    if ps == [] then machines else HearAll(Hear(machines, from, ps[0], now), from, ps[1..], now)
  }

  /** Some machine other than `from` owns the ledger and has room for one more job. */
  ghost predicate IsTakenUp(sys: System, from: Addr) {
    exists b :: b in sys.machines && b != from && sys.machines[b].Owns() && |sys.machines[b].Jobs()| < CAPACITY
  }

  ghost function Step(sys: System, e: Event): System {
    match e
    case Iterate(a, scene) =>
      if a !in sys.machines then sys
      else
        var o := Manage(sys.machines[a], scene);
        sys.(machines := HearAll(sys.machines[a := o.machine], a, o.sent, scene.now),
             printed := sys.printed + if o.printed.Some? then [o.printed.value] else [])
    case Submit(a, g, bookIsEmpty) =>
      if a !in sys.machines then sys
      else
        var m := sys.machines[a];
        var after := sys.(submitted := sys.submitted + {g}, machines := sys.machines[a := Record(m, g)]);
        if m.Owns() && |m.Jobs()| < CAPACITY then after
        else if m.Owns() || bookIsEmpty then after.(lost := sys.lost + {g})
        else after.(announcing := sys.announcing[g := a])
    case Announce(g, now) =>
      if g !in sys.announcing then sys
      else
        var from := sys.announcing[g];
        sys.(machines := Hear(sys.machines, from, NewJob(g), now),
             announcing := sys.announcing - {g},
             lost := sys.lost + if IsTakenUp(sys, from) then {} else {g})
  }

  /**
   The assumptions on a run. A book names members only; if it is empty or names the machine itself,
   the machine does not find the ledger of another one stale. Identifiers are fresh.
   */
  ghost predicate Enabled(sys: System, e: Event) {
    match e
    case Iterate(a, scene) =>
      && a in sys.machines && ToSet(scene.book) <= sys.machines.Keys
      && var m := sys.machines[a];
         (scene.book != [] && a !in scene.book) || m.state.None? || m.Owns() || !IsStale(m, scene.now)
    case Submit(a, g, _) => a in sys.machines && g !in sys.submitted
    case Announce(g, _) => g in sys.announcing
  }

  ghost function State(sys: System, events: seq<Event>, n: nat): System
    requires n <= |events|
    decreases n
  {
    if n == 0 then sys else State(Step(sys, events[0]), events[1..], n - 1)
  }

  ghost predicate IsRun(sys: System, events: seq<Event>)
    decreases events
  {
    events == [] || (Enabled(sys, events[0]) && IsRun(Step(sys, events[0]), events[1..]))
  }

  ghost function Start(members: set<Addr>): System {
    System(map a | a in members :: Machine(a, None, false), map[], {}, [], {})
  }

  // ---------- The invariant ----------

  /** Each submitted job is in exactly one place, and in that place once. */
  ghost predicate Conserved(sys: System, pending: seq<Uuid>) {
    && sys.submitted == ToSet(sys.printed) + ToSet(pending) + sys.announcing.Keys + sys.lost
    && ToSet(sys.printed) !! ToSet(pending) !! sys.announcing.Keys !! sys.lost
    && NoDuplicates(sys.printed) && NoDuplicates(pending)
  }

  ghost predicate Unstarted(sys: System) {
    forall b :: b in sys.machines ==> sys.machines[b] == Machine(b, None, false)
  }

  /** All machines name the same owner, and only the owner can have observed its ownership. */
  ghost predicate Agreed(sys: System, owner: Addr) {
    && owner in sys.machines
    && forall b :: b in sys.machines ==>
         var m := sys.machines[b];
         m.addr == b && m.state.Some? && m.Ledger().owner == owner && (m.observed ==> b == owner)
  }

  ghost predicate NoneObserved(sys: System) {
    forall b :: b in sys.machines ==> !sys.machines[b].observed
  }

  ghost predicate Inv(sys: System) {
    || (Unstarted(sys) && Conserved(sys, []))
    || exists owner :: Agreed(sys, owner) && Conserved(sys, sys.machines[owner].Jobs())
  }

  // ---------- One step ----------

  lemma HearOne(machines: map<Addr, Machine>, from: Addr, p: Payload, now: int)
    ensures HearAll(machines, from, [p], now) == Hear(machines, from, p, now)
  {
    assert [p][1..] == [];
  }

  lemma HearLogFirst(machines: map<Addr, Machine>, from: Addr, p: Payload, now: int)
    ensures HearAll(machines, from, [LogLine, p], now) == Hear(machines, from, p, now)
  {
    assert [LogLine, p][1..] == [p];
    assert Hear(machines, from, LogLine, now) == machines;
    HearOne(machines, from, p, now);
  }

  lemma CreationStarts(sys: System, a: Addr, scene: Scene)
    requires Unstarted(sys) && Conserved(sys, []) && a in sys.machines && scene.hasAddress
    ensures var sys' := Step(sys, Iterate(a, scene));
            && Agreed(sys', a) && NoneObserved(sys')
            && sys'.machines[a] == Machine(a, Some(LedgerState(Ledger(a, []), scene.now)), false)
  {
    var o := Manage(sys.machines[a], scene);
    HearOne(sys.machines[a := o.machine], a, o.sent[0], scene.now);
    assert o.sent == [o.sent[0]];
  }

  lemma OthersDoNothing(sys: System, owner: Addr, a: Addr, scene: Scene)
    requires Agreed(sys, owner) && a != owner && Enabled(sys, Iterate(a, scene))
    ensures Manage(sys.machines[a], scene) == Outcome(sys.machines[a], [], None)
    ensures Step(sys, Iterate(a, scene)) == sys
  {
    var m := sys.machines[a];
    assert TakeOver(m, scene) == m;
    assert sys.machines[a := m] == sys.machines;
  }

  /** Who owns the ledger after a turn of `me`: a machine that knows nobody keeps it. */
  function Successor(book: seq<Addr>, me: Addr): Addr {
    if book == [] then me else NextOwner(book, me)
  }

  lemma OwnerTakesItsTurn(m: Machine, scene: Scene)
    requires m.Owns() && m.observed && scene.hasAddress
    ensures var o := Manage(m, scene);
            && (o.printed.Some? ==> o.printed.value in m.Jobs())
            && o.machine.state.Some? && o.machine.addr == m.addr && (o.machine.observed <==> scene.book == [])
            && o.machine.state.value.received == m.state.value.received
            && o.machine.Ledger() == Ledger(Successor(scene.book, m.addr),
                                            if o.printed.Some? then SwapRemove(m.Jobs(), o.printed.value) else m.Jobs())
            && o.sent == (if o.printed.Some? then [LogLine] else []) + [LedgerUpdate(o.machine.Ledger())]
  {
    assert TakeOver(m, scene) == m;
  }

  /** What an iteration of the owner does once it has observed its ownership. */
  lemma OwnerPasses(sys: System, owner: Addr, scene: Scene)
    requires Agreed(sys, owner) && Enabled(sys, Iterate(owner, scene))
    requires scene.hasAddress && sys.machines[owner].observed
    ensures var m, o := sys.machines[owner], Manage(sys.machines[owner], scene);
            var next := Successor(scene.book, owner);
            && next in sys.machines
            && (o.printed.Some? ==> o.printed.value in m.Jobs())
            && o.machine.state.Some?
            && o.machine.Ledger()
            == Ledger(next, if o.printed.Some? then SwapRemove(m.Jobs(), o.printed.value) else m.Jobs())
            && Agreed(Step(sys, Iterate(owner, scene)), next)
            && (scene.book != [] ==> NoneObserved(Step(sys, Iterate(owner, scene))))
            && forall b :: b in Step(sys, Iterate(owner, scene)).machines ==>
                 Step(sys, Iterate(owner, scene)).machines[b].Ledger() == o.machine.Ledger()
  {
    var m, o := sys.machines[owner], Manage(sys.machines[owner], scene);
    OwnerTakesItsTurn(m, scene);
    TurnIsHeard(sys, owner, scene);
    hide Manage, SwapRemove, NextOwner, Step, Hear;
    if scene.book != [] {
      NextOwnerIsInBook(scene.book, owner);
      assert NextOwner(scene.book, owner) in ToSet(scene.book);
    }
  }

  /** Everyone else takes over the ledger that ends the owner's turn, and keeps the rest of its state. */
  lemma TurnIsHeard(sys: System, owner: Addr, scene: Scene)
    requires Agreed(sys, owner) && scene.hasAddress && sys.machines[owner].observed
    ensures var o := Manage(sys.machines[owner], scene);
            var machines := Step(sys, Iterate(owner, scene)).machines;
            && machines.Keys == sys.machines.Keys && machines[owner] == o.machine && o.machine.state.Some?
            && forall b :: b in machines && b != owner ==>
                 machines[b] == sys.machines[b].(state := Some(LedgerState(o.machine.Ledger(), scene.now)))
  {
    var o := Manage(sys.machines[owner], scene);
    OwnerTakesItsTurn(sys.machines[owner], scene);
    hide Manage, SwapRemove, Successor;
    var p := LedgerUpdate(o.machine.Ledger());
    var machines := sys.machines[owner := o.machine];
    if o.printed.Some? {
      assert o.sent == [LogLine, p];
      HearLogFirst(machines, owner, p, scene.now);
    } else {
      assert o.sent == [p];
      HearOne(machines, owner, p, scene.now);
    }
  }

  lemma OwnerWaits(sys: System, owner: Addr, scene: Scene)
    requires Agreed(sys, owner) && Enabled(sys, Iterate(owner, scene))
    requires !scene.hasAddress || !sys.machines[owner].observed
    ensures var sys' := Step(sys, Iterate(owner, scene));
            && Agreed(sys', owner) && sys'.machines[owner].Jobs() == sys.machines[owner].Jobs()
            && sys' == sys.(machines := sys'.machines)
  {
    assert TakeOver(sys.machines[owner], scene) == sys.machines[owner];
    assert sys.printed + [] == sys.printed;
  }

  lemma PrintingConserves(sys: System, jobs: seq<Uuid>, sys': System, g: Uuid)
    requires Conserved(sys, jobs) && g in jobs
    requires sys' == sys.(machines := sys'.machines, printed := sys.printed + [g])
    ensures Conserved(sys', SwapRemove(jobs, g))
  {
    SwapRemoveTakesOneOut(jobs, g);
    assert g in ToSet(jobs);
    assert ToSet(sys'.printed) == ToSet(sys.printed) + {g};
  }

  lemma OwnerIterates(sys: System, owner: Addr, scene: Scene)
    requires Agreed(sys, owner) && Conserved(sys, sys.machines[owner].Jobs())
    requires Enabled(sys, Iterate(owner, scene))
    ensures Inv(Step(sys, Iterate(owner, scene)))
  {
    hide Conserved, SwapRemove, Enabled;
    var sys' := Step(sys, Iterate(owner, scene));
    if !scene.hasAddress || !sys.machines[owner].observed {
      OwnerWaits(sys, owner, scene);
      ConservedAlike(sys, sys', sys.machines[owner].Jobs());
      assert Agreed(sys', owner) && Conserved(sys', sys'.machines[owner].Jobs());
    } else {
      OwnerPasses(sys, owner, scene);
      var jobs, o := sys.machines[owner].Jobs(), Manage(sys.machines[owner], scene);
      if o.printed.Some? {
        PrintingConserves(sys, jobs, sys', o.printed.value);
      } else {
        assert sys'.printed == sys.printed;
        ConservedAlike(sys, sys', jobs);
      }
      var next := Successor(scene.book, owner);
      assert Agreed(sys', next) && Conserved(sys', sys'.machines[next].Jobs());
    }
  }

  lemma ConservedAlike(sys: System, sys': System, pending: seq<Uuid>)
    requires Conserved(sys, pending) && sys' == sys.(machines := sys'.machines)
    ensures Conserved(sys', pending)
  {
  }

  lemma SubmitConserves(sys: System, owner: Addr, e: Event)
    requires Agreed(sys, owner) && Conserved(sys, sys.machines[owner].Jobs())
    requires e.Submit? && Enabled(sys, e)
    ensures var sys' := Step(sys, e); Agreed(sys', owner) && Conserved(sys', sys'.machines[owner].Jobs())
  {
    var jobs := sys.machines[owner].Jobs();
    InsertAddsWhenThereIsRoom(jobs, e.guid);
    assert e.guid !in ToSet(jobs);
  }

  lemma AnnounceConserves(sys: System, owner: Addr, e: Event)
    requires Agreed(sys, owner) && Conserved(sys, sys.machines[owner].Jobs())
    requires e.Announce? && Enabled(sys, e)
    ensures var sys' := Step(sys, e); Agreed(sys', owner) && Conserved(sys', sys'.machines[owner].Jobs())
  {
    var jobs, from, sys' := sys.machines[owner].Jobs(), sys.announcing[e.guid], Step(sys, e);
    InsertAddsWhenThereIsRoom(jobs, e.guid);
    assert e.guid !in ToSet(jobs);
    assert IsTakenUp(sys, from) <==> from != owner && |jobs| < CAPACITY;
    assert sys'.announcing.Keys == sys.announcing.Keys - {e.guid};
  }

  lemma UnstartedStep(sys: System, e: Event)
    requires Unstarted(sys) && Conserved(sys, []) && Enabled(sys, e)
    ensures Inv(Step(sys, e))
  {
    var sys' := Step(sys, e);
    match e {
      case Iterate(a, scene) =>
        if scene.hasAddress {
          CreationStarts(sys, a, scene);
          assert Agreed(sys', a) && Conserved(sys', sys'.machines[a].Jobs());
        } else {
          assert sys.machines[a := sys.machines[a]] == sys.machines;
        }
      case Submit(a, g, _) =>
        assert sys.machines[a := sys.machines[a]] == sys.machines;
      case Announce(g, _) =>
        assert sys'.machines == sys.machines;
        assert sys'.announcing.Keys == sys.announcing.Keys - {g};
    }
  }

  lemma StepKeepsInv(sys: System, e: Event)
    requires Inv(sys) && Enabled(sys, e)
    ensures Inv(Step(sys, e))
  {
    if Unstarted(sys) && Conserved(sys, []) {
      UnstartedStep(sys, e);
    } else {
      var owner :| Agreed(sys, owner) && Conserved(sys, sys.machines[owner].Jobs());
      match e {
        case Iterate(a, scene) =>
          if a == owner {
            OwnerIterates(sys, owner, scene);
          } else {
            OthersDoNothing(sys, owner, a, scene);
          }
        case Submit(_, _, _) => SubmitConserves(sys, owner, e);
        case Announce(_, _) => AnnounceConserves(sys, owner, e);
      }
    }
  }

  // ---------- Every run ----------

  lemma {:induction false} RunKeepsInv(sys: System, events: seq<Event>, n: nat)
    requires Inv(sys) && IsRun(sys, events) && n <= |events|
    ensures Inv(State(sys, events, n))
    decreases n
  {
    hide Inv, Enabled, Step;
    if n > 0 {
      StepKeepsInv(sys, events[0]);
      RunKeepsInv(Step(sys, events[0]), events[1..], n - 1);
    }
  }

  /**
   Job conservation: at every point of every run the submitted jobs are the disjoint union of the
   printed ones, the ones pending in the ledger of the one owner, the ones still to be announced
   and the ones that no ledger took up.
   */
  lemma JobsAreConserved(members: set<Addr>, events: seq<Event>, n: nat)
    requires IsRun(Start(members), events) && n <= |events|
    ensures Inv(State(Start(members), events, n))
  {
    assert Conserved(Start(members), []);
    RunKeepsInv(Start(members), events, n);
  }

  /** At most once: no identifier is printed twice, and nothing is printed that was not submitted. */
  lemma NoJobIsPrintedTwice(members: set<Addr>, events: seq<Event>, n: nat)
    requires IsRun(Start(members), events) && n <= |events|
    ensures NoDuplicates(State(Start(members), events, n).printed)
    ensures ToSet(State(Start(members), events, n).printed) <= State(Start(members), events, n).submitted
  {
    JobsAreConserved(members, events, n);
  }

  /** No submission so far missed the ledger. */
  ghost predicate AllTakenUp(sys: System, events: seq<Event>, n: nat)
    requires n <= |events|
    decreases n
  {
    n == 0 ||
    (var e := events[0];
     && (e.Submit? && e.at in sys.machines ==>
           if sys.machines[e.at].Owns() then |sys.machines[e.at].Jobs()| < CAPACITY else !e.bookIsEmpty)
     && (e.Announce? && e.guid in sys.announcing ==> IsTakenUp(sys, sys.announcing[e.guid]))
     && AllTakenUp(Step(sys, e), events[1..], n - 1))
  }

  lemma {:induction false} UnlostIffAllTakenUp(sys: System, events: seq<Event>, n: nat)
    requires sys.lost == {} && IsRun(sys, events) && n <= |events|
    ensures State(sys, events, n).lost == {} <==> AllTakenUp(sys, events, n)
    decreases n
  {
    if n > 0 {
      var sys' := Step(sys, events[0]);
      if sys'.lost == {} {
        UnlostIffAllTakenUp(sys', events[1..], n - 1);
      } else {
        LostStaysLost(sys', events[1..], n - 1);
      }
    }
  }

  lemma {:induction false} LostStaysLost(sys: System, events: seq<Event>, n: nat)
    requires n <= |events|
    ensures sys.lost <= State(sys, events, n).lost
    decreases n
  {
    if n > 0 {
      LostStaysLost(Step(sys, events[0]), events[1..], n - 1);
    }
  }

  /**
   Exactly when no job is lost: at every point of every run, each submitted job is printed, pending
   at the owner or still to be announced if and only if every submission found an owner with room.
   */
  lemma NothingLostIffAllTakenUp(members: set<Addr>, events: seq<Event>, n: nat, owner: Addr)
    requires IsRun(Start(members), events) && n <= |events|
    requires Agreed(State(Start(members), events, n), owner)
    ensures var sys := State(Start(members), events, n);
            sys.submitted == ToSet(sys.printed) + ToSet(sys.machines[owner].Jobs()) + sys.announcing.Keys
            <==> AllTakenUp(Start(members), events, n)
  {
    hide AllTakenUp, State, IsRun;
    JobsAreConserved(members, events, n);
    UnlostIffAllTakenUp(Start(members), events, n);
    LostIsTheRest(State(Start(members), events, n), owner);
  }

  lemma LostIsTheRest(sys: System, owner: Addr)
    requires Inv(sys) && Agreed(sys, owner)
    ensures sys.submitted == ToSet(sys.printed) + ToSet(sys.machines[owner].Jobs()) + sys.announcing.Keys
       <==> sys.lost == {}
  {
    assert !Unstarted(sys);
    var o :| Agreed(sys, o) && Conserved(sys, sys.machines[o].Jobs());
    assert o == owner;
    var kept := ToSet(sys.printed) + ToSet(sys.machines[owner].Jobs()) + sys.announcing.Keys;
    assert kept !! sys.lost && sys.submitted == kept + sys.lost;
  }

  lemma StepKeepsMembers(sys: System, e: Event)
    ensures Step(sys, e).machines.Keys == sys.machines.Keys
  {
  }

  ghost predicate HasRoom(m: Machine) {
    m.state.Some? && NoDuplicates(m.Jobs()) && |m.Jobs()| < 8
  }

  /** An announced job is recorded by every machine that has a ledger with room, not only by the owner. */
  lemma EveryoneRecordsTheAnnounced(sys: System, g: Uuid, now: int)
    requires Enabled(sys, Announce(g, now))
    ensures var machines := Step(sys, Announce(g, now)).machines;
            forall b :: b in sys.machines && b != sys.announcing[g] && HasRoom(sys.machines[b]) ==>
              && b in machines && machines[b].state.Some?
              && ToSet(machines[b].Jobs()) == ToSet(sys.machines[b].Jobs()) + {g}
  {
    forall b | b in sys.machines && HasRoom(sys.machines[b])
      ensures var r := Receive(sys.machines[b], NewJob(g), now);
              r.state.Some? && ToSet(r.Jobs()) == ToSet(sys.machines[b].Jobs()) + {g}
    {
      MessagesAreTakenIn(sys.machines[b], NewJob(g), now);
    }
  }

  /** A lost job is gone for good: the owner's next turn wipes the copies that heard of it. */
  lemma LostJobIsWiped(sys: System, owner: Addr, scene: Scene, g: Uuid)
    requires Agreed(sys, owner) && Conserved(sys, sys.machines[owner].Jobs()) && g in sys.lost
    requires Enabled(sys, Iterate(owner, scene)) && scene.hasAddress && sys.machines[owner].observed
    ensures var machines := Step(sys, Iterate(owner, scene)).machines;
            forall b :: b in machines ==> machines[b].state.Some? && g !in machines[b].Jobs()
  {
    OwnerPasses(sys, owner, scene);
    assert g !in ToSet(sys.machines[owner].Jobs());
    var o := Manage(sys.machines[owner], scene);
    if o.printed.Some? {
      SwapRemoveTakesOneOut(sys.machines[owner].Jobs(), o.printed.value);
      assert g !in ToSet(SwapRemove(sys.machines[owner].Jobs(), o.printed.value));
    }
  }

  /**
   The race that loses a job: `b` checks that it is not the owner, is then handed the ledger, and
   announces the job to everyone but itself.
   */
  function Race(a: Addr, b: Addr, g: Uuid): seq<Event> {
    [Iterate(a, Quiet([b])), Submit(b, g, false), Iterate(a, Quiet([b])), Iterate(a, Quiet([b])), Announce(g, 0)]
  }

  lemma RaceSetsOut(a: Addr, b: Addr, g: Uuid) returns (s3: System)
    requires a != b
    ensures var e, s0 := Race(a, b, g), Start({a, b});
            && Enabled(s0, e[0]) && Enabled(Step(s0, e[0]), e[1]) && Enabled(Step(Step(s0, e[0]), e[1]), e[2])
            && s3 == Step(Step(Step(s0, e[0]), e[1]), e[2])
    ensures Agreed(s3, a) && s3.machines.Keys == {a, b} && s3.announcing == map[g := b] && s3.lost == {}
    ensures s3.machines[a].observed
  {
    var e, s0 := Race(a, b, g), Start({a, b});
    assert ToSet([b]) == {b} && Conserved(s0, []);
    CreationStarts(s0, a, Quiet([b]));
    var s1 := Step(s0, e[0]);
    var s2 := Step(s1, e[1]);
    assert Agreed(s2, a) && s2.announcing == map[g := b];
    s3 := Step(s2, e[2]);
    assert s3.machines[a] == s2.machines[a].(observed := true);
    StepKeepsMembers(s2, e[2]);
  }

  lemma RaceIsLost(s3: System, a: Addr, b: Addr, g: Uuid)
    requires a != b && Agreed(s3, a) && s3.machines.Keys == {a, b} && s3.announcing == map[g := b] && s3.lost == {}
    requires s3.machines[a].observed
    ensures var s4 := Step(s3, Iterate(a, Quiet([b])));
            && Enabled(s3, Iterate(a, Quiet([b]))) && Enabled(s4, Announce(g, 0))
            && Step(s4, Announce(g, 0)).lost == {g}
  {
    assert ToSet([b]) == {b};
    OwnerPasses(s3, a, Quiet([b]));
    NextOwnerIsInBook([b], a);
    assert !IsTakenUp(Step(s3, Iterate(a, Quiet([b]))), b);
  }

  lemma ARaceLosesTheJob(a: Addr, b: Addr, g: Uuid)
    requires a != b
    ensures IsRun(Start({a, b}), Race(a, b, g))
    ensures State(Start({a, b}), Race(a, b, g), 5).lost == {g}
  {
    hide Step, Enabled, Agreed;
    var s3 := RaceSetsOut(a, b, g);
    RaceIsLost(s3, a, b, g);
    FiveSteps(Start({a, b}), Race(a, b, g));
  }

  lemma FiveSteps(s0: System, e: seq<Event>)
    requires |e| == 5
    requires Enabled(s0, e[0])
    requires Enabled(Step(s0, e[0]), e[1])
    requires Enabled(Step(Step(s0, e[0]), e[1]), e[2])
    requires Enabled(Step(Step(Step(s0, e[0]), e[1]), e[2]), e[3])
    requires Enabled(Step(Step(Step(Step(s0, e[0]), e[1]), e[2]), e[3]), e[4])
    ensures IsRun(s0, e)
    ensures State(s0, e, 5) == Step(Step(Step(Step(Step(s0, e[0]), e[1]), e[2]), e[3]), e[4])
  {
    hide Step, Enabled;
    var s2 := Step(Step(s0, e[0]), e[1]);
    var s4 := Step(Step(s2, e[2]), e[3]);
    assert IsRun(s4, e[4..]) && State(s4, e[4..], 1) == Step(s4, e[4]);
    assert e[2..][1..] == e[3..] && e[3..][1..] == e[4..];
    assert IsRun(Step(s2, e[2]), e[3..]) && State(Step(s2, e[2]), e[3..], 2) == Step(s4, e[4]);
    assert IsRun(s2, e[2..]) && State(s2, e[2..], 3) == Step(s4, e[4]);
    assert e[1..][1..] == e[2..];
    assert IsRun(Step(s0, e[0]), e[1..]) && State(Step(s0, e[0]), e[1..], 4) == Step(s4, e[4]);
  }

  // ---------- Observe before act ----------

  lemma {:induction false} StateStep(sys: System, events: seq<Event>, n: nat)
    requires IsRun(sys, events) && n < |events|
    ensures Enabled(State(sys, events, n), events[n])
    ensures State(sys, events, n + 1) == Step(State(sys, events, n), events[n])
    decreases n
  {
    if n > 0 {
      StateStep(Step(sys, events[0]), events[1..], n - 1);
    }
  }

  ghost predicate OwnsAt(sys: System, events: seq<Event>, n: nat, a: Addr)
    requires n <= |events|
  {
    a in State(sys, events, n).machines && State(sys, events, n).machines[a].Owns()
  }

  /** The event takes a job or names the next owner. */
  ghost predicate Acts(sys: System, e: Event) {
    && e.Iterate? && e.at in sys.machines && sys.machines[e.at].state.Some?
    && var o := Manage(sys.machines[e.at], e.scene); o.printed.Some? || o.sent != []
  }

  /** Only an iteration of the owner itself sets its flag, and it does nothing else then. */
  lemma FlagIsSetByOwnIteration(sys: System, e: Event, a: Addr)
    requires Inv(sys) && Enabled(sys, e) && a in sys.machines && a in Step(sys, e).machines
    requires Step(sys, e).machines[a].observed
    ensures sys.machines[a].Owns()
    ensures !sys.machines[a].observed ==> e.Iterate? && e.at == a && !Acts(sys, e)
  {
    if Unstarted(sys) && Conserved(sys, []) {
      if e.Iterate? && e.scene.hasAddress {
        CreationStarts(sys, e.at, e.scene);
      }
    } else {
      var owner :| Agreed(sys, owner) && Conserved(sys, sys.machines[owner].Jobs());
      if e.Iterate? {
        if e.at != owner {
          OthersDoNothing(sys, owner, e.at, e.scene);
        } else if e.scene.hasAddress && sys.machines[owner].observed {
          OwnerPasses(sys, owner, e.scene);
        } else {
          assert TakeOver(sys.machines[owner], e.scene) == sys.machines[owner];
        }
      }
    }
  }

  lemma ActingNeedsFlag(sys: System, e: Event)
    requires Inv(sys) && Enabled(sys, e) && Acts(sys, e)
    ensures sys.machines[e.at].observed
  {
    if !(Unstarted(sys) && Conserved(sys, [])) {
      var owner :| Agreed(sys, owner) && Conserved(sys, sys.machines[owner].Jobs());
      if e.at != owner {
        OthersDoNothing(sys, owner, e.at, e.scene);
      }
    }
  }

  /**
   Where the flag is set, there was an iteration of that machine that did nothing but observe, and
   the machine has owned the ledger without a break since before that iteration.
   */
  lemma {:induction false} FlagHasObserved(members: set<Addr>, events: seq<Event>, n: nat, a: Addr) returns (j: nat)
    requires IsRun(Start(members), events) && n <= |events|
    requires a in State(Start(members), events, n).machines && State(Start(members), events, n).machines[a].observed
    ensures j < n && events[j].Iterate? && events[j].at == a && !Acts(State(Start(members), events, j), events[j])
    ensures forall k: nat :: j <= k <= n ==> OwnsAt(Start(members), events, k, a)
  {
    hide Inv, Enabled, Step, State, IsRun;
    JobsAreConserved(members, events, n);
    if n == 0 {
      j := 0;
      NoFlagAtStart(members, events, a);
      assert false;
    } else {
      var sys := State(Start(members), events, n - 1);
      JobsAreConserved(members, events, n - 1);
      StateStep(Start(members), events, n - 1);
      StepKeepsMembers(sys, events[n - 1]);
      FlagIsSetByOwnIteration(sys, events[n - 1], a);
      FlaggedOwns(State(Start(members), events, n), a);
      if sys.machines[a].observed {
        j := FlagHasObserved(members, events, n - 1, a);
      } else {
        j := n - 1;
      }
    }
  }

  lemma NoFlagAtStart(members: set<Addr>, events: seq<Event>, a: Addr)
    requires a in State(Start(members), events, 0).machines
    ensures !State(Start(members), events, 0).machines[a].observed
  {
  }

  lemma FlaggedOwns(sys: System, a: Addr)
    requires Inv(sys) && a in sys.machines && sys.machines[a].observed
    ensures sys.machines[a].Owns()
  {
  }

  /**
   Observe before act: a machine that takes a job or passes the ledger on has completed an earlier
   iteration, which did neither, while it owned the ledger, and has owned it ever since.
   */
  lemma ObserveBeforeAct(members: set<Addr>, events: seq<Event>, n: nat) returns (j: nat)
    requires IsRun(Start(members), events) && n < |events|
    requires Acts(State(Start(members), events, n), events[n])
    ensures j < n && events[j].Iterate? && events[j].at == events[n].at
    ensures !Acts(State(Start(members), events, j), events[j])
    ensures forall k: nat :: j <= k <= n ==> OwnsAt(Start(members), events, k, events[n].at)
  {
    JobsAreConserved(members, events, n);
    StateStep(Start(members), events, n);
    ActingNeedsFlag(State(Start(members), events, n), events[n]);
    j := FlagHasObserved(members, events, n, events[n].at);
  }
}
