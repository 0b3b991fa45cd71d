/**
 The technician's ready flag under interleaving. The button on the screen loads the flag and stores
 its negation, as two separate atomic operations; the ledger task loads it, offers a job to the
 print engine, and clears it once the job is taken.
 */
module Consent {

  /** The button has been pressed and its load done. */
  datatype Button = Resting | Loaded(flag: bool)

  datatype Task = Idle | SawReady | JobTaken

  /** `sinceJob` counts the presses that turned the flag on since the last job was taken. */
  datatype State = State(ready: bool, button: Button, task: Task, turnedOn: nat, taken: nat, sinceJob: nat)

  datatype Event = ButtonLoad | ButtonStore | CheckReady | EngineReply(takes: bool) | SetOffline

  predicate Enabled(s: State, e: Event) {
    match e
    case ButtonLoad => s.button.Resting?
    case ButtonStore => s.button.Loaded?
    case CheckReady => s.task.Idle?
    case EngineReply(_) => s.task.SawReady?
    case SetOffline => s.task.JobTaken?
  }

  function Step(s: State, e: Event): State
    requires Enabled(s, e)
  {
    match e
    case ButtonLoad => s.(button := Loaded(s.ready))
    case ButtonStore =>
      var on := !s.button.flag;
      var s' := s.(ready := on, button := Resting);
      if on then s'.(turnedOn := s.turnedOn + 1, sinceJob := s.sinceJob + 1) else s'
    case CheckReady => if s.ready then s.(task := SawReady) else s
    case EngineReply(takes) =>
      if takes then s.(task := JobTaken, taken := s.taken + 1, sinceJob := 0) else s.(task := Idle)
    case SetOffline => s.(ready := false, task := Idle)
  }

  ghost predicate IsRun(s: State, events: seq<Event>)
    decreases events
  {
    events == [] || (Enabled(s, events[0]) && IsRun(Step(s, events[0]), events[1..]))
  }

  ghost function Run(s: State, events: seq<Event>): State
    requires IsRun(s, events)
    decreases events
  {
    if events == [] then s else Run(Step(s, events[0]), events[1..])
  }

  /** Boot has cleared the flag; the button may be in the middle of a press. */
  ghost predicate Init(s: State) {
    !s.ready && s.task.Idle? && s.turnedOn == s.taken == s.sinceJob == 0
  }

  ghost predicate Inv(s: State) {
    && s.taken + s.sinceJob <= s.turnedOn
    && (s.task.SawReady? || (s.task.Idle? && s.ready) ==> s.sinceJob > 0)
  }

  lemma {:induction false} RunKeepsInv(s: State, events: seq<Event>)
    requires Inv(s) && IsRun(s, events)
    ensures Inv(Run(s, events))
    decreases events
  {
    if events != [] {
      RunKeepsInv(Step(s, events[0]), events[1..]);
    }
  }

  /** No more jobs are taken than the technician turned the flag on. */
  lemma JobsNeverExceedConsents(s: State, events: seq<Event>)
    requires Init(s) && IsRun(s, events)
    ensures Run(s, events).taken <= Run(s, events).turnedOn
  {
    RunKeepsInv(s, events);
  }

  /** Consent is not carried over: each job taken has a press of its own since the job before it. */
  lemma EachJobHasItsOwnConsent(s: State, events: seq<Event>, takes: bool)
    requires Init(s) && IsRun(s, events)
    requires Enabled(Run(s, events), EngineReply(takes))
    ensures Run(s, events).sinceJob > 0
  {
    RunKeepsInv(s, events);
  }

  // ---------- Withdrawing consent ----------

  ghost predicate ArePresses(events: seq<Event>) {
    forall e :: e in events ==> e.ButtonLoad? || e.ButtonStore?
  }

  function Stores(events: seq<Event>): nat {
    if events == [] then 0 else (if events[0].ButtonStore? then 1 else 0) + Stores(events[1..])
  }

  /** While the flag is up, a press under way has seen it up. */
  ghost predicate ButtonInv(s: State) {
    s.button.Loaded? && s.ready ==> s.button.flag
  }

  lemma {:induction false} RunKeepsButtonInv(s: State, events: seq<Event>)
    requires ButtonInv(s) && IsRun(s, events)
    ensures ButtonInv(Run(s, events))
    decreases events
  {
    if events != [] {
      RunKeepsButtonInv(Step(s, events[0]), events[1..]);
    }
  }

  /** As long as only the button acts, each completed press turns the flag over. */
  lemma {:induction false} PressesAlternate(s: State, presses: seq<Event>)
    requires s.button.Loaded? ==> s.button.flag == s.ready
    requires ArePresses(presses) && IsRun(s, presses)
    ensures Run(s, presses).ready == if Stores(presses) % 2 == 0 then s.ready else !s.ready
    decreases presses
  {
    if presses != [] {
      assert presses[0] in presses;
      PressesAlternate(Step(s, presses[0]), presses[1..]);
    }
  }

  /**
   When a withdrawal shows: after the task has seen the flag up, it is still up when the engine
   answers if and only if an even number of presses were completed in between. With an odd number
   the technician has withdrawn, and the engine is offered the job all the same.
   */
  lemma StillConsentedIffEvenPresses(s: State, events: seq<Event>, presses: seq<Event>)
    requires Init(s) && IsRun(s, events)
    requires Enabled(Run(s, events), CheckReady) && Run(s, events).ready
    requires ArePresses(presses) && IsRun(Step(Run(s, events), CheckReady), presses)
    ensures var seen := Step(Run(s, events), CheckReady);
            && Enabled(Run(seen, presses), EngineReply(true))
            && (Run(seen, presses).ready <==> Stores(presses) % 2 == 0)
  {
    var seen := Step(Run(s, events), CheckReady);
    RunKeepsButtonInv(s, events);
    PressesAlternate(seen, presses);
    PressesLeaveTask(seen, presses);
  }

  lemma {:induction false} PressesLeaveTask(s: State, presses: seq<Event>)
    requires ArePresses(presses) && IsRun(s, presses)
    ensures Run(s, presses).task == s.task
    decreases presses
  {
    if presses != [] {
      assert presses[0] in presses;
      PressesLeaveTask(Step(s, presses[0]), presses[1..]);
    }
  }

  /** A run in which one press in between turns the flag off, and the job is taken. */
  lemma WithdrawalCanComeTooLate()
    ensures var s := State(false, Resting, Idle, 0, 0, 0);
            var events := [ButtonLoad, ButtonStore, CheckReady, ButtonLoad, ButtonStore];
            && Init(s) && IsRun(s, events)
            && !Run(s, events).ready
            && Enabled(Run(s, events), EngineReply(true))
            && Step(Run(s, events), EngineReply(true)).taken == 1
  {
    var s := State(false, Resting, Idle, 0, 0, 0);
    var e := [ButtonLoad, ButtonStore, CheckReady, ButtonLoad, ButtonStore];
    var s2 := State(true, Resting, Idle, 1, 0, 1);
    assert e[1..][1..] == [CheckReady, ButtonLoad, ButtonStore];
    assert e[1..][1..][1..] == [ButtonLoad, ButtonStore];
    assert [ButtonLoad, ButtonStore][1..] == [ButtonStore] && [ButtonStore][1..] == [];
    var s3 := s2.(task := SawReady);
    var last := State(false, Resting, SawReady, 1, 0, 1);
    assert IsRun(s3.(button := Loaded(true)), [ButtonStore]) && Run(s3.(button := Loaded(true)), [ButtonStore]) == last;
    assert IsRun(s3, [ButtonLoad, ButtonStore]) && Run(s3, [ButtonLoad, ButtonStore]) == last;
    assert IsRun(s2, e[1..][1..]) && Run(s2, e[1..][1..]) == last;
    assert IsRun(s.(button := Loaded(false)), e[1..]) && Run(s.(button := Loaded(false)), e[1..]) == last;
  }
}
