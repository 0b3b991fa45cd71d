/** The print engine as the firmware sees it: a command queue and the technician's ready flag. */
module Marlin {
  import opened Uuids

  datatype Command = DryRunMode | SelectAndPrint(guid: Uuid)

  /** What the engine answers during one call: whether it is idle, and which commands it takes. */
  datatype Replies = Replies(idle: bool, takesMode: bool, takesJob: bool)

  predicate Accepts(r: Replies, dry: bool) {
    r.idle && (dry ==> r.takesMode) && r.takesJob
  }

  /** The commands queued by one call; a refused mode command stops the job from being offered. */
  function Queued(r: Replies, dry: bool, guid: Uuid): seq<Command> {
    if !r.idle then []
    else
      var mode := if dry && r.takesMode then [DryRunMode] else [];
      mode + if Accepts(r, dry) then [SelectAndPrint(guid)] else []
  }

  class Printer {
    var ready: bool
    var commands: seq<Command>

    /** Boot leaves the machine offline. */
    constructor ()
      ensures !ready && commands == []
    {
      ready := false;
      commands := [];
    }

    method Print(guid: Uuid, dry: bool, r: Replies) returns (ok: bool)
      modifies this`commands
      ensures ok == Accepts(r, dry)
      ensures commands == old(commands) + Queued(r, dry, guid)
    {
      if !r.idle {
        return false;
      }
      if dry {
        if !r.takesMode {
          return false;
        }
        commands := commands + [DryRunMode];
      }
      if r.takesJob {
        commands := commands + [SelectAndPrint(guid)];
      }
      ok := r.takesJob;
    }

    method SetOffline()
      modifies this`ready
      ensures !ready
    {
      ready := false;
    }
  }

  /**
   A busy engine is sent nothing, and a refused mode keeps the job back; what is sent is the mode, if
   it was asked for and taken, and then the job, which is queued exactly when the call succeeds.
   */
  lemma QueuedExactly(r: Replies, dry: bool, guid: Uuid)
    ensures var q := Queued(r, dry, guid);
            && (DryRunMode in q <==> r.idle && dry && r.takesMode)
            && (SelectAndPrint(guid) in q <==> r.idle && !(dry && !r.takesMode) && r.takesJob)
            && (SelectAndPrint(guid) in q <==> Accepts(r, dry))
            && q == (if DryRunMode in q then [DryRunMode] else [])
                  + if SelectAndPrint(guid) in q then [SelectAndPrint(guid)] else []
  {
  }
}
