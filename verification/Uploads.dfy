/**
 Receiving and printing at the same time: the file operations of the upload handler, one at a time,
 interleaved in any way with the ledger task opening complete files and offering them for printing.
 There is one connection worker, so at most one upload is in progress.
 */
module Uploads {
  import opened Arithmetic
  import opened Wrappers
  import opened Uuids
  import opened Text
  import opened Numerals
  import opened PacketBuffers
  import opened Receiver

  /** `body` is everything of the body that has arrived; `left` is the code's counter. */
  datatype Worker = Free | Busy(guid: Uuid, size: nat, left: nat, body: Bytes)

  datatype Delivery = Delivery(guid: Uuid, size: nat, body: Bytes) {
    /** The job file this upload stands for. */
    function Content(): Bytes
      requires |body| >= size
    {
      body[..size]
    }
  }

  /**
   `finished` records the uploads that got their final name, and `prints` what was printed; the
   other fields are real state.
   */
  datatype Disk = Disk(files: map<Bytes, Bytes>, worker: Worker, finished: set<Delivery>, prints: seq<(Uuid, Bytes)>)

  datatype Event =
    | Open(guid: Uuid, size: nat)
    | Arrive(bytes: Bytes)
    | Finish(renames: bool)
    | CutOff
    | Print(job: Uuid)

  /** The order of the handler's own steps; a job is printed only if its complete file opens. */
  predicate Enabled(d: Disk, e: Event) {
    match e
    case Open(_, size) => d.worker.Free? && 0 < size <= MAX_UPLOAD
    case Arrive(_) => d.worker.Busy?
    case Finish(_) => d.worker.Busy? && d.worker.left == 0 && MakePath(d.worker.guid, true) in d.files
    case CutOff => d.worker.Busy? && d.worker.left > 0
    case Print(job) => MakePath(job, false) in d.files
  }

  function Step(d: Disk, e: Event): Disk
    requires Enabled(d, e)
  {
    match e
    case Open(g, size) => d.(files := d.files[MakePath(g, true) := []], worker := Busy(g, size, size, []))
    case Arrive(bytes) =>
      var w := d.worker;
      var n := Min(w.left, |bytes|);
      var partial := MakePath(w.guid, true);
      d.(files := if partial in d.files then Appended(d.files, partial, bytes[..n]) else d.files,
         worker := w.(left := w.left - n, body := w.body + bytes))
    case Finish(renames) =>
      var w := d.worker;
      d.(files := Store(d.files, w.guid, d.files[MakePath(w.guid, true)], renames),
         worker := Free,
         finished := if renames then d.finished + {Delivery(w.guid, w.size, w.body)} else d.finished)
    case CutOff => d.(files := d.files - {MakePath(d.worker.guid, true)}, worker := Free)
    case Print(job) => d.(prints := d.prints + [(job, d.files[MakePath(job, false)])])
  }

  ghost predicate IsRun(d: Disk, events: seq<Event>)
    decreases events
  {
    events == [] || (Enabled(d, events[0]) && IsRun(Step(d, events[0]), events[1..]))
  }

  function Run(d: Disk, events: seq<Event>): Disk
    requires IsRun(d, events)
    decreases events
  {
    if events == [] then d else Run(Step(d, events[0]), events[1..])
  }

  /** Boot has deleted every job file, and nothing has happened yet. */
  ghost predicate Init(d: Disk) {
    && (forall g :: MakePath(g, false) !in d.files)
    && d.worker.Free? && d.finished == {} && d.prints == []
  }

  // ---------- The invariant ----------

  /** The bytes are the first `size` body bytes of a finished upload of the job. */
  ghost predicate IsFrom(finished: set<Delivery>, g: Uuid, content: Bytes) {
    exists u :: u in finished && u.guid == g && |u.body| >= u.size && u.Content() == content
  }

  ghost predicate WorkerInv(d: Disk) {
    d.worker.Busy? ==>
      var w := d.worker;
      && MakePath(w.guid, true) in d.files
      && IsUnderway(w.body, d.files[MakePath(w.guid, true)], w.size, w.left, [])
  }

  ghost predicate FilesInv(d: Disk) {
    forall g :: MakePath(g, false) in d.files ==> IsFrom(d.finished, g, d.files[MakePath(g, false)])
  }

  ghost predicate PrintsInv(d: Disk) {
    forall i :: 0 <= i < |d.prints| ==> IsFrom(d.finished, d.prints[i].0, d.prints[i].1)
  }

  ghost predicate Inv(d: Disk) {
    WorkerInv(d) && FilesInv(d) && PrintsInv(d)
  }

  lemma PathsNeverClash()
    ensures forall g, h :: MakePath(g, true) != MakePath(h, false)
    ensures forall g, h :: MakePath(g, false) == MakePath(h, false) ==> g == h
  {
    forall g, h
      ensures MakePath(g, true) != MakePath(h, false)
      ensures MakePath(g, false) == MakePath(h, false) ==> g == h
    {
      PathsAreDistinct(g, true, h, false);
      PathsAreDistinct(g, false, h, false);
    }
  }

  lemma MoreFinished(d: Disk, more: set<Delivery>, g: Uuid, content: Bytes)
    requires d.finished <= more && IsFrom(d.finished, g, content)
    ensures IsFrom(more, g, content)
  {
  }

  lemma ArriveKeepsInv(d: Disk, bytes: Bytes)
    requires Inv(d) && d.worker.Busy?
    ensures Inv(Step(d, Arrive(bytes)))
  {
    hide MakePath, IsUnderway;
    PathsNeverClash();
    var w := d.worker;
    var written := d.files[MakePath(w.guid, true)];
    ArrivalContinues(w.body, written, w.size, w.left, bytes);
  }

  /** More of the stream has arrived, and what fits of it has been written. */
  lemma ArrivalContinues(body: Bytes, written: Bytes, size: nat, left: nat, bytes: Bytes)
    requires IsUnderway(body, written, size, left, [])
    ensures var n := Min(left, |bytes|); IsUnderway(body + bytes, written + bytes[..n], size, left - n, [])
  {
    var stream := body + bytes;
    assert IsUnderway(stream, written, size, left, bytes + []) by {
      assert written == stream[..|written|];
      assert left > 0 ==> written == body;
      assert bytes + [] == bytes;
    }
    UnderwayContinues(stream, written, size, left, bytes, []);
  }

  lemma FinishKeepsInv(d: Disk, renames: bool)
    requires Inv(d) && Enabled(d, Finish(renames))
    ensures Inv(Step(d, Finish(renames)))
  {
    hide MakePath;
    PathsNeverClash();
    var w, d' := d.worker, Step(d, Finish(renames));
    var u := Delivery(w.guid, w.size, w.body);
    assert u.Content() == d.files[MakePath(w.guid, true)];
    forall g | MakePath(g, false) in d'.files
      ensures IsFrom(d'.finished, g, d'.files[MakePath(g, false)])
    {
      if g == w.guid && renames {
        assert u in d'.finished;
      } else {
        MoreFinished(d, d'.finished, g, d.files[MakePath(g, false)]);
      }
    }
    forall i | 0 <= i < |d.prints|
      ensures IsFrom(d'.finished, d.prints[i].0, d.prints[i].1)
    {
      MoreFinished(d, d'.finished, d.prints[i].0, d.prints[i].1);
    }
  }

  lemma StepKeepsInv(d: Disk, e: Event)
    requires Inv(d) && Enabled(d, e)
    ensures Inv(Step(d, e))
  {
    match e {
      case Arrive(bytes) => ArriveKeepsInv(d, bytes);
      case Finish(renames) => FinishKeepsInv(d, renames);
      case _ =>
        hide MakePath;
        PathsNeverClash();
    }
  }

  lemma {:induction false} RunKeepsInv(d: Disk, events: seq<Event>)
    requires Inv(d) && IsRun(d, events)
    ensures Inv(Run(d, events))
    decreases events
  {
    hide Inv, Step, Enabled;
    if events != [] {
      StepKeepsInv(d, events[0]);
      RunKeepsInv(Step(d, events[0]), events[1..]);
    }
  }

  // ---------- Every interleaving ----------

  /**
   Whatever the interleaving, each file offered for printing holds exactly the first Content-Length
   body bytes of one upload of that job that was received completely and given its final name.
   */
  lemma OnlyCompleteFilesArePrinted(d: Disk, events: seq<Event>)
    requires Init(d) && IsRun(d, events)
    ensures PrintsInv(Run(d, events))
  {
    RunKeepsInv(d, events);
  }

  ghost function PrintsIn(events: seq<Event>): nat {
    if events == [] then 0 else (if events[0].Print? then 1 else 0) + PrintsIn(events[1..])
  }

  /** And every file that was opened for printing is among those printed, in order. */
  lemma {:induction false} EveryPrintIsRecorded(d: Disk, events: seq<Event>)
    requires IsRun(d, events)
    ensures d.prints <= Run(d, events).prints
    ensures |Run(d, events).prints| == |d.prints| + PrintsIn(events)
    decreases events
  {
    hide Enabled, MakePath;
    if events != [] {
      EveryPrintIsRecorded(Step(d, events[0]), events[1..]);
    }
  }

  /** The latest upload of a job that got its final name is what a print of the job reads. */
  lemma FinishedUploadIsWhatPrints(d: Disk)
    requires Inv(d) && Enabled(d, Finish(true))
    ensures var job, d' := d.worker.guid, Step(d, Finish(true));
            && Enabled(d', Print(job))
            && Step(d', Print(job)).prints == d.prints + [(job, d.worker.body[..d.worker.size])]
  {
    hide MakePath;
    PathsNeverClash();
  }

  lemma {:induction false} FinishedHaveFiles(d: Disk, events: seq<Event>)
    requires IsRun(d, events) && forall u :: u in d.finished ==> MakePath(u.guid, false) in d.files
    ensures forall u :: u in Run(d, events).finished ==> MakePath(u.guid, false) in Run(d, events).files
    decreases events
  {
    if events != [] {
      StepKeepsFinished(d, events[0]);
      hide Step, Enabled, MakePath;
      FinishedHaveFiles(Step(d, events[0]), events[1..]);
    }
  }

  lemma StepKeepsFinished(d: Disk, e: Event)
    requires Enabled(d, e) && forall u :: u in d.finished ==> MakePath(u.guid, false) in d.files
    ensures forall u :: u in Step(d, e).finished ==> MakePath(u.guid, false) in Step(d, e).files
  {
    hide MakePath;
    PathsNeverClash();
  }

  /** A job has a job file exactly if one of its uploads was completed and given its final name. */
  lemma JobFileIffFinished(d: Disk, events: seq<Event>, g: Uuid)
    requires Init(d) && IsRun(d, events)
    ensures MakePath(g, false) in Run(d, events).files <==> exists u :: u in Run(d, events).finished && u.guid == g
  {
    RunKeepsInv(d, events);
    FinishedHaveFiles(d, events);
    hide MakePath, Run;
  }

  /** A job none of whose uploads got its final name has no job file, however much of it arrived. */
  lemma CutOffUploadsLeaveNoJobFile(d: Disk, events: seq<Event>, g: Uuid)
    requires Init(d) && IsRun(d, events)
    requires forall u :: u in Run(d, events).finished ==> u.guid != g
    ensures MakePath(g, false) !in Run(d, events).files
  {
    hide MakePath;
    RunKeepsInv(d, events);
  }

  /** And cutting an upload off removes its partial file and touches no other. */
  lemma CutOffCleansUp(d: Disk)
    requires Enabled(d, CutOff)
    ensures MakePath(d.worker.guid, true) !in Step(d, CutOff).files
    ensures forall g :: (MakePath(g, false) in Step(d, CutOff).files <==> MakePath(g, false) in d.files)
    ensures forall g :: MakePath(g, false) in d.files ==>
              Step(d, CutOff).files[MakePath(g, false)] == d.files[MakePath(g, false)]
  {
    hide MakePath;
    PathsNeverClash();
  }

  // ---------- Agreement with the handler ----------

  function Arrivals(chunks: seq<Bytes>): seq<Event> {
    if chunks == [] then [] else [Arrive(chunks[0])] + Arrivals(chunks[1..])
  }

  /** What the handler does once its chunks are used up. */
  function Ending(left: nat, renames: bool): Event {
    if left == 0 then Finish(renames) else CutOff
  }

  /** The upload in progress: what it has written, on top of the files as they were. */
  ghost predicate IsWriting(d: Disk, base: map<Bytes, Bytes>, written: Bytes, guid: Uuid, size: nat, body: Bytes) {
    && d.worker.Busy? && d.worker.guid == guid && d.worker.size == size && d.worker.body == body
    && MakePath(guid, true) in base
    && d.files == Appended(base, MakePath(guid, true), written)
    && IsUnderway(body, written, size, d.worker.left, [])
  }

  lemma ArriveWrites(d: Disk, base: map<Bytes, Bytes>, written: Bytes, guid: Uuid, size: nat, body: Bytes, bytes: Bytes)
    returns (written': Bytes)
    requires IsWriting(d, base, written, guid, size, body)
    ensures Enabled(d, Arrive(bytes))
    ensures IsWriting(Step(d, Arrive(bytes)), base, written', guid, size, body + bytes)
  {
    hide MakePath, Appended, IsUnderway;
    var n := Min(d.worker.left, |bytes|);
    AppendedTwice(base, MakePath(guid, true), written, bytes[..n]);
    ArrivalContinues(body, written, size, d.worker.left, bytes);
    written' := written + bytes[..n];
  }

  lemma RunArrives(d: Disk, chunks: seq<Bytes>)
    requires chunks != [] && Enabled(d, Arrive(chunks[0]))
    requires IsRun(Step(d, Arrive(chunks[0])), Arrivals(chunks[1..]))
    ensures IsRun(d, Arrivals(chunks))
    ensures Run(d, Arrivals(chunks)) == Run(Step(d, Arrive(chunks[0])), Arrivals(chunks[1..]))
  {
    hide Enabled, Step;
    assert Arrivals(chunks)[1..] == Arrivals(chunks[1..]);
  }

  lemma {:induction false} ArrivalsWrite(d: Disk, base: map<Bytes, Bytes>, written: Bytes, guid: Uuid, size: nat,
                                         body: Bytes, chunks: seq<Bytes>) returns (written': Bytes)
    requires IsWriting(d, base, written, guid, size, body)
    ensures IsRun(d, Arrivals(chunks))
    ensures IsWriting(Run(d, Arrivals(chunks)), base, written', guid, size, body + Flatten(chunks))
    decreases chunks
  {
    hide IsWriting, Enabled, Step;
    if chunks == [] {
      assert body + [] == body;
      written' := written;
    } else {
      var more := ArriveWrites(d, base, written, guid, size, body, chunks[0]);
      written' := ArrivalsWrite(Step(d, Arrive(chunks[0])), base, more, guid, size, body + chunks[0], chunks[1..]);
      RunArrives(d, chunks);
      assert body + chunks[0] + Flatten(chunks[1..]) == body + Flatten(chunks);
    }
  }

  /** The end of an upload leaves the files as the handler is proved to leave them. */
  lemma EndingMatches(d: Disk, files: map<Bytes, Bytes>, written: Bytes, guid: Uuid, size: nat, stream: Bytes,
                      renames: bool)
    requires size > 0 && IsWriting(d, files[MakePath(guid, true) := []], written, guid, size, stream)
    ensures Enabled(d, Ending(d.worker.left, renames))
    ensures Step(d, Ending(d.worker.left, renames)).files
         == Receive(files, Demand.Upload(Some(guid), size, []), stream, Env(true, renames, guid)).files
  {
    hide MakePath, Appended, IsUnderway;
    PathsNeverClash();
    var base, path := files[MakePath(guid, true) := []], MakePath(guid, true);
    if d.worker.left == 0 {
      Finished(stream, written, size, [], base, path);
    } else {
      CutShort(stream, written, size, d.worker.left, base, path);
    }
  }

  /** Left alone, the steps of one upload add up to what the handler is proved to do. */
  lemma UploadStepsAreTheHandler(d: Disk, guid: Uuid, size: nat, chunks: seq<Bytes>, renames: bool)
    requires d.worker.Free? && 0 < size <= MAX_UPLOAD
    ensures Enabled(d, Open(guid, size))
    ensures var d1 := Step(d, Open(guid, size));
            && IsRun(d1, Arrivals(chunks))
            && var d2 := Run(d1, Arrivals(chunks));
               && d2.worker.Busy? && Enabled(d2, Ending(d2.worker.left, renames))
               && Step(d2, Ending(d2.worker.left, renames)).files
               == Receive(d.files, Demand.Upload(Some(guid), size, []), Flatten(chunks), Env(true, renames, guid)).files
  {
    var d1 := Step(d, Open(guid, size));
    var base := d.files[MakePath(guid, true) := []];
    assert IsWriting(d1, base, [], guid, size, []) by {
      AppendedTwice(base, MakePath(guid, true), [], []);
      assert IsUnderway([], [], size, size, []);
    }
    hide IsWriting, Step, Enabled, MakePath, Receive;
    var written := ArrivalsWrite(d1, base, [], guid, size, [], chunks);
    assert [] + Flatten(chunks) == Flatten(chunks);
    var d2 := Run(d1, Arrivals(chunks));
    WritingIsBusy(d2, base, written, guid, size, Flatten(chunks));
    EndingMatches(d2, d.files, written, guid, size, Flatten(chunks), renames);
  }

  lemma WritingIsBusy(d: Disk, base: map<Bytes, Bytes>, written: Bytes, guid: Uuid, size: nat, body: Bytes)
    requires IsWriting(d, base, written, guid, size, body)
    ensures d.worker.Busy?
  {
  }
}
