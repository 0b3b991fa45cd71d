/**
 One machine's part in the token ring: the iteration of `manage_ledger`, the handling of a
 received message, and the submission of a new job.

 Both mutexes are held from the moment an iteration looks at the ledger until it has sent its
 messages, so an iteration is one step. The functions say what a step does to the machine; the
 class below runs the steps in place.
 */
module Ledgers {
  import opened Wrappers
  import opened Collections
  import opened Handover
  import opened Uuids
  import opened JobSets
  import opened Marlin

  const STALE_MS := 45_000

  datatype Ledger = Ledger(owner: Addr, jobs: seq<Uuid>)

  datatype LedgerState = LedgerState(ledger: Ledger, received: int)

  datatype Payload = Heartbeat | NewJob(guid: Uuid) | LedgerUpdate(ledger: Ledger) | LogLine

  datatype Machine = Machine(addr: Addr, state: Option<LedgerState>, observed: bool) {
    predicate Owns() {
      state.Some? && state.value.ledger.owner == addr
    }

    function Jobs(): seq<Uuid>
      requires state.Some?
    {
      state.value.ledger.jobs
    }

    function Ledger(): Ledger
      requires state.Some?
    {
      state.value.ledger
    }

    function WithOwner(owner: Addr): Machine
      requires state.Some?
    {
      this.(state := Some(state.value.(ledger := state.value.ledger.(owner := owner))))
    }

    function WithJobs(jobs: seq<Uuid>): Machine
      requires state.Some?
    {
      this.(state := Some(state.value.(ledger := state.value.ledger.(jobs := jobs))))
    }
  }

  /** Everything an iteration reads from outside the ledger. `files` are the complete job files. */
  datatype Scene = Scene(hasAddress: bool, book: seq<Addr>, now: int, ready: bool, idle: bool,
                         files: set<Uuid>, replies: Replies)

  /** A machine that is not ready to print, at time zero. */
  function Quiet(book: seq<Addr>): Scene {
    Scene(true, book, 0, false, false, {}, Replies(false, false, false))
  }

  datatype Outcome = Outcome(machine: Machine, sent: seq<Payload>, printed: Option<Uuid>)

  function Manage(m: Machine, s: Scene): Outcome {
    if !s.hasAddress then Outcome(m, [], None)
    else if m.state.None? then
      var ledger := Ledger(m.addr, []);
      Outcome(m.(state := Some(LedgerState(ledger, s.now))), [LedgerUpdate(ledger)], None)
    else
      var m' := TakeOver(m, s);
      if !m'.Owns() then Outcome(m', [], None)
      else if !m'.observed then Outcome(m'.(observed := true), [], None)
      else PassOn(Manufacture(m', s), s)
  }

  predicate IsStale(m: Machine, now: int)
    requires m.state.Some?
  {
    now - m.state.value.received > STALE_MS
  }

  /** A ledger that has not been refreshed is claimed by the lowest address in the book. */
  function TakeOver(m: Machine, s: Scene): Machine
    requires m.state.Some?
  {
    if IsStale(m, s.now) && (s.book == [] || Lowest(s.book) == m.addr) then m.WithOwner(m.addr) else m
  }

  /** The job this iteration would offer to the print engine. */
  function Candidate(m: Machine, s: Scene): Option<Uuid>
    requires m.state.Some?
  {
    if s.ready && s.idle then FirstPrintable(m.Jobs(), s.files) else None
  }

  /** What the engine's queue gains when a job is offered. */
  function Offers(m: Machine, s: Scene): seq<Command>
    requires m.state.Some?
  {
    match Candidate(m, s)
    case Some(g) => Queued(s.replies, true, g)
    case None => []
  }

  /** What the engine's queue gains in an iteration. */
  function Commands(m: Machine, s: Scene): seq<Command> {
    if s.hasAddress && m.state.Some? && m.observed && TakeOver(m, s).Owns() then Offers(m, s) else []
  }

  /** Taking a job removes it from the ledger and tells the network. */
  function Manufacture(m: Machine, s: Scene): Outcome
    requires m.Owns()
  {
    match Candidate(m, s)
    case Some(g) =>
      if Accepts(s.replies, true) then
        Outcome(m.WithJobs(SwapRemove(m.Jobs(), g)), [LogLine], Some(g))
      else Outcome(m, [], None)
    case None => Outcome(m, [], None)
  }

  function PassOn(o: Outcome, s: Scene): Outcome
    requires o.machine.Owns()
  {
    if s.book == [] then o.(sent := o.sent + [LedgerUpdate(o.machine.Ledger())])
    else
      var passed := o.machine.WithOwner(NextOwner(s.book, o.machine.addr));
      o.(machine := passed.(observed := false), sent := o.sent + [LedgerUpdate(passed.Ledger())])
  }

  /** The handling of one message that was not dropped as a duplicate. */
  function Receive(m: Machine, p: Payload, now: int): Machine {
    match p
    case NewJob(g) => if m.state.Some? then m.WithJobs(Insert(m.Jobs(), g)) else m
    case LedgerUpdate(l) => m.(state := Some(LedgerState(l, now)))
    case _ => m
  }

  /** The part of a submission done under the lock: only an owner records the job itself. */
  function Record(m: Machine, g: Uuid): Machine {
    if m.Owns() then m.WithJobs(Insert(m.Jobs(), g)) else m
  }

  // ---------- What one iteration does ----------

  /** A machine that knows nobody, or has the lowest address of a book it is in, finds the ledger stale. */
  ghost predicate Claims(m: Machine, s: Scene) {
    && m.state.Some? && !m.Owns() && s.now - m.state.value.received > 45_000
    && (s.book == [] || (m.addr in s.book && forall a :: a in s.book ==> m.addr <= a))
  }

  lemma ClaimedExactlyByTheLowest(m: Machine, s: Scene)
    requires m.state.Some? && !m.Owns()
    ensures TakeOver(m, s).Owns() <==> Claims(m, s)
  {
  }

  /** The machine has observed its ownership and may act. */
  ghost predicate HasTurn(m: Machine, s: Scene) {
    s.hasAddress && m.state.Some? && m.observed && (m.Owns() || Claims(m, s))
  }

  /** An iteration takes out the job that was printed and no other, whatever else it does. */
  lemma IterationKeepsJobs(m: Machine, s: Scene)
    requires m.state.Some? && NoDuplicates(m.Jobs())
    ensures var o := Manage(m, s);
            && o.machine.state.Some? && NoDuplicates(o.machine.Jobs())
            && ToSet(o.machine.Jobs()) == ToSet(m.Jobs()) - (if o.printed.Some? then {o.printed.value} else {})
            && (o.printed.None? ==> o.machine.Jobs() == m.Jobs())
            && o.machine.state.value.received == m.state.value.received
  {
    var o := Manage(m, s);
    if o.printed.Some? {
      SwapRemoveTakesOneOut(m.Jobs(), o.printed.value);
    }
  }

  /**
   A job is printed exactly if the machine has its turn, the technician and the engine are willing,
   and some job's file is there; and then it is the first such job.
   */
  lemma PrintsTheFirstPrintable(m: Machine, s: Scene)
    requires m.state.Some?
    ensures Manage(m, s).printed.Some?
       <==> && HasTurn(m, s) && s.ready && s.idle && s.replies == Replies(true, true, true)
            && exists g :: g in m.Jobs() && g in s.files
    ensures Manage(m, s).printed.Some? ==>
              exists i :: 0 <= i < |m.Jobs()| && IsFirstIn(m.Jobs(), s.files, i)
                       && m.Jobs()[i] == Manage(m, s).printed.value
  {
    var found := FirstPrintable(m.Jobs(), s.files);
  }

  /**
   A turn ends in a broadcast of the ledger as it then is, behind the log line of a job taken. The
   ledger names the next owner and the flag is cleared, unless the machine knows nobody. Without a
   turn nothing is sent: a stale ledger may be claimed, and an owner sees that it is one.
   */
  lemma TurnEndsInBroadcast(m: Machine, s: Scene)
    requires m.state.Some?
    ensures var o := Manage(m, s);
            && o.machine.addr == m.addr && o.machine.state.Some?
            && (HasTurn(m, s) ==>
                  && o.sent == (if o.printed.Some? then [LogLine] else []) + [LedgerUpdate(o.machine.Ledger())]
                  && o.machine.Ledger().owner == (if s.book == [] then m.addr else NextOwner(s.book, m.addr))
                  && (o.machine.observed <==> s.book == []))
            && (!HasTurn(m, s) ==>
                  && o.sent == [] && o.machine.Jobs() == m.Jobs()
                  && (o.machine.Ledger().owner == if s.hasAddress && Claims(m, s) then m.addr else m.Ledger().owner)
                  && (o.machine.observed <==> m.observed || (s.hasAddress && (m.Owns() || Claims(m, s)))))
  {
    if !m.Owns() {
      ClaimedExactlyByTheLowest(m, s);
    }
  }

  /** A machine without a ledger makes one, empty and its own, and tells everyone. */
  lemma CreatesAnEmptyLedger(m: Machine, s: Scene)
    requires m.state.None?
    ensures var o := Manage(m, s);
            && o.printed.None? && o.machine.addr == m.addr && o.machine.observed == m.observed
            && (o.machine.state.Some? <==> s.hasAddress)
            && (if s.hasAddress then
                  && o.machine.Owns() && o.machine.Jobs() == [] && o.machine.state.value.received == s.now
                  && o.sent == [LedgerUpdate(o.machine.Ledger())]
                else o.sent == [])
  {
  }

  /**
   A new job joins the ledger of every machine that has one and has room, owner or not. No message
   touches the flag, and only a ledger touches the owner and the time.
   */
  lemma MessagesAreTakenIn(m: Machine, p: Payload, now: int)
    requires m.state.Some? && NoDuplicates(m.Jobs())
    ensures var r := Receive(m, p, now);
            && r.addr == m.addr && r.observed == m.observed && r.state.Some?
            && (p.LedgerUpdate? ==> r.Ledger() == p.ledger && r.state.value.received == now)
            && (!p.LedgerUpdate? ==>
                  && r.Ledger().owner == m.Ledger().owner && r.state.value.received == m.state.value.received
                  && NoDuplicates(r.Jobs()) && m.Jobs() <= r.Jobs()
                  && ToSet(r.Jobs()) == ToSet(m.Jobs()) + if p.NewJob? && |m.Jobs()| < 8 then {p.guid} else {})
  {
    if p.NewJob? {
      InsertAddsWhenThereIsRoom(m.Jobs(), p.guid);
    }
  }

  /** A submission at a machine that does not own the ledger leaves the machine as it is. */
  lemma OnlyAnOwnerRecords(m: Machine, g: Uuid)
    requires m.state.Some? ==> NoDuplicates(m.Jobs())
    ensures !m.Owns() ==> Record(m, g) == m
    ensures m.Owns() ==>
              && Record(m, g).Owns() && Record(m, g) == Receive(m, NewJob(g), 0)
              && ToSet(Record(m, g).Jobs()) == ToSet(m.Jobs()) + if |m.Jobs()| < 8 then {g} else {}
  {
    if m.Owns() {
      InsertAddsWhenThereIsRoom(m.Jobs(), g);
    }
  }

  /**
   The engine's queue gains at most the mode command and then a job: the job exactly if it is the one
   printed, and the mode exactly if the engine took it for a job that was offered.
   */
  lemma CommandsMatchPrint(m: Machine, s: Scene)
    ensures var o, c := Manage(m, s), Commands(m, s);
            && c == (if DryRunMode in c then [DryRunMode] else [])
                  + (if o.printed.Some? then [SelectAndPrint(o.printed.value)] else [])
            && (DryRunMode in c <==>
                  && HasTurn(m, s) && s.ready && s.idle && s.replies.idle && s.replies.takesMode
                  && exists g :: g in m.Jobs() && g in s.files)
  {
    if HasTurn(m, s) {
      var found := FirstPrintable(m.Jobs(), s.files);
      if found.Some? {
        QueuedExactly(s.replies, true, found.value);
        hide Queued, FirstPrintable;
      }
    } else {
      assert Commands(m, s) == [];
    }
  }

  /** Machines that know of each other never both claim, whatever else their books hold. */
  lemma TwoMachinesNeverBothClaim(m: Machine, s: Scene, m': Machine, s': Scene)
    requires m.state.Some? && m'.state.Some? && m.addr != m'.addr
    requires !m.Owns() && !m'.Owns()
    requires m'.addr in s.book && m.addr in s'.book
    ensures !(TakeOver(m, s).Owns() && TakeOver(m', s').Owns())
  {
    ClaimedExactlyByTheLowest(m, s);
    ClaimedExactlyByTheLowest(m', s');
  }

  // ---------- The tasks, in place ----------

  class Node {
    const addr: Addr
    const printer: Printer
    var state: Option<LedgerState>
    var observed: bool

    constructor (addr: Addr)
      ensures View() == Machine(addr, None, false)
      ensures fresh(printer) && !printer.ready && printer.commands == []
    {
      this.addr := addr;
      printer := new Printer();
      state := None;
      observed := false;
    }

    function View(): Machine
      reads this
    {
      Machine(addr, state, observed)
    }

    /** One turn of the `manage_ledger` loop. */
    method ManageLedger(s: Scene) returns (sent: seq<Payload>, printed: Option<Uuid>)
      requires s.ready == printer.ready
      modifies this, printer
      ensures Outcome(View(), sent, printed) == Manage(old(View()), s)
      ensures printed.Some? ==> old(printer.ready) && !printer.ready
      ensures printed.None? ==> printer.ready == old(printer.ready)
      ensures printer.commands == old(printer.commands) + Commands(old(View()), s)
    {
      sent, printed := [], None;
      if !s.hasAddress {
        return;
      }
      if state.None? {
        var ledger := Ledger(addr, []);
        state := Some(LedgerState(ledger, s.now));
        sent := [LedgerUpdate(ledger)];
        return;
      }
      ClaimIfStale(s);
      if state.value.ledger.owner != addr {
        return;
      }
      if !observed {
        observed := true;
        return;
      }
      sent, printed := TryPrint(s);
      if s.book == [] {
        sent := sent + [LedgerUpdate(state.value.ledger)];
        return;
      }
      var next := PickNext(s.book, addr);
      SetOwner(next);
      sent := sent + [LedgerUpdate(state.value.ledger)];
      observed := false;
    }

    method SetOwner(owner: Addr)
      requires state.Some?
      modifies this`state
      ensures View() == old(View()).WithOwner(owner)
    {
      state := Some(state.value.(ledger := state.value.ledger.(owner := owner)));
    }

    method ClaimIfStale(s: Scene)
      requires state.Some?
      modifies this`state
      ensures View() == TakeOver(old(View()), s)
    {
      if s.now - state.value.received > STALE_MS {
        if s.book == [] {
          SetOwner(addr);
        } else {
          var low := LowestAddress(s.book);
          if low == addr {
            SetOwner(addr);
          }
        }
      }
    }

    method TryPrint(s: Scene) returns (sent: seq<Payload>, printed: Option<Uuid>)
      requires View().Owns() && s.ready == printer.ready
      modifies this`state, printer
      ensures Outcome(View(), sent, printed) == Manufacture(old(View()), s)
      ensures printed.Some? ==> old(printer.ready) && !printer.ready
      ensures printed.None? ==> printer.ready == old(printer.ready)
      ensures printer.commands == old(printer.commands) + Offers(old(View()), s)
    {
      sent, printed := [], None;
      if s.ready && s.idle {
        var job := FirstPrintable(state.value.ledger.jobs, s.files);
        if job.Some? {
          var ok := printer.Print(job.value, true, s.replies);
          if ok {
            printer.SetOffline();
            var jobs := SwapRemove(state.value.ledger.jobs, job.value);
            state := Some(state.value.(ledger := state.value.ledger.(jobs := jobs)));
            sent, printed := [LogLine], job;
          }
        }
      }
    }

    /** The body of the `udp_receiver` loop after the duplicate check. */
    method Handle(p: Payload, now: int)
      modifies this`state
      ensures View() == Receive(old(View()), p, now)
    {
      match p {
        case NewJob(g) =>
          if state.Some? {
            var jobs := Insert(state.value.ledger.jobs, g);
            state := Some(state.value.(ledger := state.value.ledger.(jobs := jobs)));
          }
        case LedgerUpdate(l) =>
          state := Some(LedgerState(l, now));
        case _ =>
      }
    }

    /** `append_to_ledger`: whether the job still has to be announced. */
    method Append(g: Uuid, bookIsEmpty: bool) returns (announce: bool)
      modifies this`state
      ensures View() == Record(old(View()), g)
      ensures announce == (!old(View()).Owns() && !bookIsEmpty)
    {
      var isOwner := state.Some? && state.value.ledger.owner == addr;
      if isOwner {
        var jobs := Insert(state.value.ledger.jobs, g);
        state := Some(state.value.(ledger := state.value.ledger.(jobs := jobs)));
      }
      announce := !isOwner && !bookIsEmpty;
    }
  }
}
