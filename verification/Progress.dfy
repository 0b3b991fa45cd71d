/**
 That jobs do get printed: in any run of the job ledger each willing turn takes a job off the owner's
 pending ones, so pending jobs drain. Which of them goes first is another matter: a job can be
 overtaken for ever.
 */
module Progress {
  import opened Arithmetic
  import opened Collections
  import opened Wrappers
  import opened Handover
  import opened Uuids
  import opened JobSets
  import opened Marlin
  import opened Ledgers
  import opened JobProtocol

  /** The owner acts, is ready, has an engine that takes everything, and has the files of all its jobs. */
  ghost predicate IsWilling(sys: System, e: Event) {
    && e.Iterate? && e.at in sys.machines && HasTurn(sys.machines[e.at], e.scene)
    && e.scene.ready && e.scene.idle && e.scene.replies == Replies(true, true, true)
    && ToSet(sys.machines[e.at].Jobs()) <= e.scene.files
  }

  ghost function WillingTurns(sys: System, events: seq<Event>, n: nat): nat
    requires n <= |events|
    decreases n
  {
    if n == 0 then 0
    else (if IsWilling(sys, events[0]) then 1 else 0) + WillingTurns(Step(sys, events[0]), events[1..], n - 1)
  }

  ghost predicate Owned(sys: System, owner: Addr) {
    Agreed(sys, owner) && Conserved(sys, sys.machines[owner].Jobs())
  }

  /** What one event does to the pending and the printed jobs: one moves over, or none does. */
  ghost predicate Drains(jobs: seq<Uuid>, printed: seq<Uuid>, jobs': seq<Uuid>, printed': seq<Uuid>) {
    if |printed'| == |printed| + 1
    then printed <= printed' && |jobs'| == |jobs| - 1 && ToSet(jobs) == ToSet(jobs') + {printed'[|printed|]}
    else printed' == printed && jobs <= jobs'
  }

  ghost predicate StepDrains(sys: System, owner: Addr, e: Event, owner': Addr)
    requires Owned(sys, owner) && Owned(Step(sys, e), owner')
  {
    var sys' := Step(sys, e);
    var jobs, jobs' := sys.machines[owner].Jobs(), sys'.machines[owner'].Jobs();
    && Drains(jobs, sys.printed, jobs', sys'.printed)
    && (IsWilling(sys, e) && jobs != [] ==> |sys'.printed| == |sys.printed| + 1)
    && (e.Iterate? ==> |sys'.printed| + |jobs'| == |sys.printed| + |jobs|)
  }

  /** The ledger after the owner's iteration: the jobs it had, less the one it took. */
  lemma OwnerTakesAtMostOne(sys: System, owner: Addr, scene: Scene) returns (owner': Addr)
    requires Agreed(sys, owner) && Enabled(sys, Iterate(owner, scene))
    ensures var jobs, sys' := sys.machines[owner].Jobs(), Step(sys, Iterate(owner, scene));
            var o := Manage(sys.machines[owner], scene);
            && Agreed(sys', owner') && (o.printed.Some? ==> o.printed.value in jobs)
            && sys'.machines[owner'].Jobs() == (if o.printed.Some? then SwapRemove(jobs, o.printed.value) else jobs)
            && sys' == sys.(machines := sys'.machines, printed := sys'.printed)
            && sys'.printed == sys.printed + if o.printed.Some? then [o.printed.value] else []
  {
    PrintsTheFirstPrintable(sys.machines[owner], scene);
    if scene.hasAddress && sys.machines[owner].observed {
      OwnerPasses(sys, owner, scene);
      owner' := Successor(scene.book, owner);
    } else {
      OwnerWaits(sys, owner, scene);
      owner' := owner;
    }
  }

  lemma TakingOneDrains(jobs: seq<Uuid>, printed: seq<Uuid>, g: Uuid)
    requires NoDuplicates(jobs) && g in jobs
    ensures Drains(jobs, printed, SwapRemove(jobs, g), printed + [g])
    ensures |SwapRemove(jobs, g)| == |jobs| - 1
  {
    SwapRemoveTakesOneOut(jobs, g);
    assert g in ToSet(jobs);
    assert ToSet(jobs) - {g} + {g} == ToSet(jobs);
  }

  lemma WillingTurnPrints(sys: System, e: Event)
    requires IsWilling(sys, e) && sys.machines[e.at].Jobs() != []
    ensures Manage(sys.machines[e.at], e.scene).printed.Some?
  {
    var jobs := sys.machines[e.at].Jobs();
    assert jobs[0] in ToSet(jobs);
    PrintsTheFirstPrintable(sys.machines[e.at], e.scene);
  }

  lemma OwnerTurnDrains(sys: System, owner: Addr, e: Event) returns (owner': Addr)
    requires Owned(sys, owner) && Enabled(sys, e) && e.Iterate? && e.at == owner
    ensures Owned(Step(sys, e), owner') && StepDrains(sys, owner, e, owner')
  {
    owner' := OwnerTakesAtMostOne(sys, owner, e.scene);
    var jobs, o, sys' := sys.machines[owner].Jobs(), Manage(sys.machines[owner], e.scene), Step(sys, e);
    if IsWilling(sys, e) && jobs != [] {
      WillingTurnPrints(sys, e);
    }
    assert NoDuplicates(jobs);
    hide Manage, Step, Enabled, Agreed, SwapRemove, IsWilling, Drains, Conserved, NoDuplicates;
    if o.printed.Some? {
      PrintingConserves(sys, jobs, sys', o.printed.value);
      TakingOneDrains(jobs, sys.printed, o.printed.value);
    } else {
      ConservedAlike(sys, sys', jobs);
      NothingDrains(jobs, jobs, sys.printed);
    }
  }

  lemma NothingDrains(jobs: seq<Uuid>, jobs': seq<Uuid>, printed: seq<Uuid>)
    requires jobs <= jobs'
    ensures Drains(jobs, printed, jobs', printed)
  {
  }

  lemma EventDrains(sys: System, owner: Addr, e: Event) returns (owner': Addr)
    requires Owned(sys, owner) && Enabled(sys, e)
    ensures Owned(Step(sys, e), owner') && StepDrains(sys, owner, e, owner')
  {
    owner' := owner;
    match e {
      case Iterate(a, scene) =>
        if a == owner {
          owner' := OwnerTurnDrains(sys, owner, e);
        } else {
          OthersDoNothing(sys, owner, a, scene);
          assert !IsWilling(sys, e);
        }
      case Submit(_, g, _) =>
        SubmitConserves(sys, owner, e);
        InsertAddsWhenThereIsRoom(sys.machines[owner].Jobs(), g);
      case Announce(g, _) =>
        AnnounceConserves(sys, owner, e);
        InsertAddsWhenThereIsRoom(sys.machines[owner].Jobs(), g);
    }
  }

  // ---------- Every run ----------

  ghost predicate OnlyIterates(events: seq<Event>, n: nat)
    requires n <= |events|
  {
    forall i :: 0 <= i < n ==> events[i].Iterate?
  }

  /**
   Whatever the run: a pending job stays pending or is printed, and at least as many jobs are printed
   as there are willing turns or were pending jobs. Only submissions and announcements add to them.
   */
  lemma {:induction false} WillingTurnsPrint(sys: System, owner: Addr, events: seq<Event>, n: nat)
    returns (owner': Addr)
    requires Owned(sys, owner) && IsRun(sys, events) && n <= |events|
    ensures var sys' := State(sys, events, n);
            && Owned(sys', owner') && sys.printed <= sys'.printed
            && ToSet(sys.machines[owner].Jobs()) <= ToSet(sys'.printed) + ToSet(sys'.machines[owner'].Jobs())
            && |sys'.printed| >= |sys.printed| + Min(WillingTurns(sys, events, n), |sys.machines[owner].Jobs()|)
            && (OnlyIterates(events, n) ==>
                  |sys'.printed| + |sys'.machines[owner'].Jobs()| == |sys.printed| + |sys.machines[owner].Jobs()|)
    decreases n
  {
    hide Owned, Step, Enabled, IsWilling;
    if n == 0 {
      owner' := owner;
    } else {
      var next := EventDrains(sys, owner, events[0]);
      owner' := WillingTurnsPrint(Step(sys, events[0]), next, events[1..], n - 1);
    }
  }

  /** Once there were as many willing turns as pending jobs and nothing new came in, all are printed. */
  lemma PendingJobsGetPrinted(sys: System, owner: Addr, events: seq<Event>, n: nat)
    requires Owned(sys, owner) && IsRun(sys, events) && n <= |events| && OnlyIterates(events, n)
    requires WillingTurns(sys, events, n) >= |sys.machines[owner].Jobs()|
    ensures ToSet(sys.machines[owner].Jobs()) <= ToSet(State(sys, events, n).printed)
  {
    var owner' := WillingTurnsPrint(sys, owner, events, n);
    assert State(sys, events, n).machines[owner'].Jobs() == [];
  }

  // ---------- But not in their order ----------

  /** One job arrives at the owner, and the owner prints one. */
  function Round(jobs: seq<Uuid>, arrival: Uuid, files: set<Uuid>): seq<Uuid> {
    var all := Insert(jobs, arrival);
    match FirstPrintable(all, files)
    case Some(g) => SwapRemove(all, g)
    case None => all
  }

  function Rounds(jobs: seq<Uuid>, arrivals: seq<Uuid>, files: set<Uuid>): seq<Uuid>
    decreases arrivals
  {
    if arrivals == [] then jobs else Rounds(Round(jobs, arrivals[0], files), arrivals[1..], files)
  }

  /** Removal puts the newest job into the gap, ahead of an older one, which may so wait for ever. */
  lemma {:induction false} AJobCanBeOvertakenForEver(first: Uuid, waiting: Uuid, arrivals: seq<Uuid>, files: set<Uuid>)
    requires NoDuplicates([first, waiting] + arrivals) && ToSet([first, waiting] + arrivals) <= files
    ensures Rounds([first, waiting], arrivals, files) == [([first] + arrivals)[|arrivals|], waiting]
    decreases arrivals
  {
    if arrivals != [] {
      var g, all := arrivals[0], [first, waiting] + arrivals;
      assert g == all[2] && waiting == all[1] && first == all[0];
      assert first in ToSet(all);
      assert Insert([first, waiting], g) == [first, waiting, g];
      assert Round([first, waiting], g, files) == [g, waiting];
      forall i, j | 0 <= i < j < |arrivals| + 1
        ensures ([g, waiting] + arrivals[1..])[i] != ([g, waiting] + arrivals[1..])[j]
      {
        assert ([g, waiting] + arrivals[1..])[i] == all[if i == 0 then 2 else i + 1 - if i == 1 then 1 else 0];
        assert ([g, waiting] + arrivals[1..])[j] == all[if j == 1 then 1 else j + 1];
      }
      assert forall x :: x in [g, waiting] + arrivals[1..] ==> x in all;
      AJobCanBeOvertakenForEver(g, waiting, arrivals[1..], files);
    }
  }
}
