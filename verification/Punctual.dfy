/**
 Books that name their own machine. The atomic model of the job ledger assumes that such a machine
 never finds another machine's ledger stale; here that follows from timing: if the owner always
 iterates again within a quarter of the 45 seconds, no ledger is ever claimed.
 */
module Punctual {
  import opened Collections
  import opened Handover
  import opened Ledgers
  import opened JobProtocol

  /** An event whose book is not empty, names members only, and makes the machine pass to another one. */
  ghost predicate IsFair(sys: System, e: Event) {
    match e
    case Iterate(a, scene) =>
      && a in sys.machines && scene.book != [] && ToSet(scene.book) <= sys.machines.Keys
      && NextOwner(scene.book, a) != a
    case _ => Enabled(sys, e)
  }

  /** The event is an iteration that creates the ledger or is done by its owner. */
  ghost predicate IsTurn(sys: System, e: Event) {
    && e.Iterate? && e.at in sys.machines && e.scene.hasAddress
    && (sys.machines[e.at].state.None? || sys.machines[e.at].Owns())
  }

  ghost function NextDue(sys: System, e: Event, due: int): int {
    if IsTurn(sys, e) then e.scene.now else due
  }

  /** `due` is the time of the last turn; once there is a ledger no iteration comes later than `due + limit`. */
  ghost predicate IsPunctual(sys: System, events: seq<Event>, due: int, limit: nat)
    decreases events
  {
    events == [] ||
    (var e := events[0];
     && IsFair(sys, e)
     && (e.Iterate? && sys.machines[e.at].state.Some? ==> e.scene.now <= due + limit)
     && IsPunctual(Step(sys, e), events[1..], NextDue(sys, e, due), limit))
  }

  function Received(m: Machine): int
    requires m.state.Some?
  {
    m.state.value.received
  }

  /** The last broadcast of the ledger, at time `sent`, refreshed everyone but its sender. */
  ghost predicate Refreshed(sys: System, owner: Addr, passer: Addr, sent: int, limit: nat)
    requires Agreed(sys, owner)
  {
    && Received(sys.machines[owner]) == sent
    && forall b :: b in sys.machines ==>
         if b == passer then Received(sys.machines[b]) >= sent - 2 * limit else Received(sys.machines[b]) == sent
  }

  ghost predicate OnTime(sys: System, owner: Addr, passer: Addr, sent: int, due: int, limit: nat) {
    && Agreed(sys, owner) && Refreshed(sys, owner, passer, sent, limit)
    && due <= sent + limit && (!sys.machines[owner].observed ==> due == sent)
  }

  ghost predicate TimedInv(sys: System, due: int, limit: nat) {
    Unstarted(sys) || exists owner, passer, sent :: OnTime(sys, owner, passer, sent, due, limit)
  }

  lemma NothingIsStale(sys: System, owner: Addr, passer: Addr, sent: int, due: int, limit: nat, e: Event)
    requires OnTime(sys, owner, passer, sent, due, limit) && 4 * limit <= STALE_MS
    requires e.Iterate? && IsFair(sys, e) && e.scene.now <= due + limit
    ensures Enabled(sys, e)
  {
    assert Received(sys.machines[e.at]) >= sent - 2 * limit;
  }

  lemma CreationIsOnTime(sys: System, a: Addr, scene: Scene, limit: nat)
    requires Unstarted(sys) && a in sys.machines && scene.hasAddress
    ensures OnTime(Step(sys, Iterate(a, scene)), a, a, scene.now, scene.now, limit)
  {
    var o := Manage(sys.machines[a], scene);
    assert o.sent == [o.sent[0]];
    HearOne(sys.machines[a := o.machine], a, o.sent[0], scene.now);
  }

  lemma PassRefreshes(sys: System, owner: Addr, scene: Scene)
    requires Agreed(sys, owner) && Enabled(sys, Iterate(owner, scene))
    requires scene.hasAddress && sys.machines[owner].observed
    ensures var machines := Step(sys, Iterate(owner, scene)).machines;
            && machines.Keys == sys.machines.Keys
            && forall b :: b in machines ==>
                 && machines[b].state.Some?
                 && Received(machines[b]) == if b == owner then Received(sys.machines[owner]) else scene.now
  {
    TurnIsHeard(sys, owner, scene);
    OwnerTakesItsTurn(sys.machines[owner], scene);
    hide Step, Manage, NextOwner;
  }

  lemma OwnerStaysOnTime(sys: System, owner: Addr, passer: Addr, sent: int, due: int, limit: nat, scene: Scene)
    requires OnTime(sys, owner, passer, sent, due, limit)
    requires IsFair(sys, Iterate(owner, scene)) && Enabled(sys, Iterate(owner, scene))
    requires scene.hasAddress && scene.now <= due + limit
    ensures TimedInv(Step(sys, Iterate(owner, scene)), scene.now, limit)
  {
    var sys' := Step(sys, Iterate(owner, scene));
    var m := sys.machines[owner];
    assert TakeOver(m, scene) == m;
    if m.observed {
      PassRefreshes(sys, owner, scene);
      OwnerPasses(sys, owner, scene);
      var next := NextOwner(scene.book, owner);
      assert OnTime(sys', next, owner, scene.now, scene.now, limit);
    } else {
      assert OnTime(sys', owner, passer, sent, scene.now, limit);
    }
  }

  lemma StartedStaysOnTime(sys: System, owner: Addr, passer: Addr, sent: int, due: int, limit: nat, e: Event)
    requires OnTime(sys, owner, passer, sent, due, limit)
    requires IsFair(sys, e) && Enabled(sys, e)
    requires e.Iterate? && sys.machines[e.at].state.Some? ==> e.scene.now <= due + limit
    ensures TimedInv(Step(sys, e), NextDue(sys, e, due), limit)
  {
    if !e.Iterate? {
      assert OnTime(Step(sys, e), owner, passer, sent, due, limit);
    } else if e.at != owner {
      OthersDoNothing(sys, owner, e.at, e.scene);
      assert OnTime(Step(sys, e), owner, passer, sent, due, limit);
    } else if e.scene.hasAddress {
      OwnerStaysOnTime(sys, owner, passer, sent, due, limit, e.scene);
    } else {
      assert sys.machines[owner := sys.machines[owner]] == sys.machines;
      assert OnTime(Step(sys, e), owner, passer, sent, due, limit);
    }
  }

  lemma StepStaysOnTime(sys: System, e: Event, due: int, limit: nat)
    requires TimedInv(sys, due, limit) && 4 * limit <= STALE_MS
    requires IsFair(sys, e)
    requires e.Iterate? && sys.machines[e.at].state.Some? ==> e.scene.now <= due + limit
    ensures Enabled(sys, e)
    ensures TimedInv(Step(sys, e), NextDue(sys, e, due), limit)
  {
    hide Step, NextDue;
    if Unstarted(sys) {
      UnstartedStaysOnTime(sys, e, due, limit);
    } else {
      var owner, passer, sent :| OnTime(sys, owner, passer, sent, due, limit);
      if e.Iterate? {
        NothingIsStale(sys, owner, passer, sent, due, limit, e);
      }
      StartedStaysOnTime(sys, owner, passer, sent, due, limit, e);
    }
  }

  lemma UnstartedStaysOnTime(sys: System, e: Event, due: int, limit: nat)
    requires Unstarted(sys) && IsFair(sys, e)
    ensures Enabled(sys, e)
    ensures TimedInv(Step(sys, e), NextDue(sys, e, due), limit)
  {
    if e.Iterate? {
      if e.scene.hasAddress {
        CreationIsOnTime(sys, e.at, e.scene, limit);
      } else {
        assert sys.machines[e.at := sys.machines[e.at]] == sys.machines;
      }
    } else {
      assert Unstarted(Step(sys, e));
    }
  }

  /** With punctual owners no ledger goes stale, so every result about runs covers self-naming books. */
  lemma {:induction false} PunctualRunsAreRuns(sys: System, events: seq<Event>, due: int, limit: nat)
    requires TimedInv(sys, due, limit) && 4 * limit <= STALE_MS
    requires IsPunctual(sys, events, due, limit)
    ensures IsRun(sys, events)
    decreases events
  {
    hide TimedInv, Step, Enabled, NextDue;
    if events != [] {
      StepStaysOnTime(sys, events[0], due, limit);
      PunctualRunsAreRuns(Step(sys, events[0]), events[1..], NextDue(sys, events[0], due), limit);
    }
  }

  /** Job conservation when each machine's book may name the machine itself. */
  lemma PunctualJobsAreConserved(members: set<Addr>, events: seq<Event>, n: nat, limit: nat)
    requires 4 * limit <= STALE_MS && n <= |events|
    requires IsPunctual(Start(members), events, 0, limit)
    ensures JobProtocol.Inv(State(Start(members), events, n))
  {
    PunctualRunsAreRuns(Start(members), events, 0, limit);
    JobsAreConserved(members, events, n);
  }
}
