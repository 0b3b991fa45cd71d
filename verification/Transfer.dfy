/** A job file from one machine's storage to another's: the sender and the receiver together. */
module Transfer {
  import opened Wrappers
  import opened Uuids
  import opened Text
  import opened Numerals
  import opened Requests
  import opened PutHeader
  import opened PutSender
  import opened PacketBuffers
  import Receiver

  /** The first chunk that arrives holds the whole header. */
  ghost predicate HasWholeHeader(packets: seq<seq<Bytes>>, guid: Uuid, size: nat) {
    packets != [] && packets[0] != [] && |packets[0][0]| >= |PutRequestHeader(guid, size)|
  }

  lemma HeaderIsUnderstood(guid: Uuid, size: nat, body: Bytes)
    requires size <= USIZE_MAX
    ensures Receiver.Triage(PutRequestHeader(guid, size) + body)
         == if 1 <= size <= Receiver.MAX_UPLOAD then Receiver.Upload(Some(guid), size, body)
            else Receiver.Refuse(Receiver.Malformed)
  {
    hide SplitRequest, ReadPutHeader, CheckStartLine, PutRequestHeader;
    HeaderRoundTrip(guid, size, body);
  }

  lemma TruncatedHeaderIsRefused(guid: Uuid, size: nat, chunk: Bytes)
    requires chunk < PutRequestHeader(guid, size)
    ensures Receiver.Triage(chunk) == Receiver.Refuse(Receiver.Malformed)
  {
    TruncatedHeaderIsRejected(guid, size, |chunk|);
    hide SplitRequest;
    assert chunk == PutRequestHeader(guid, size)[..|chunk|];
  }

  /** What the receiver makes of a prefix `sent` of the request, in packets of any shape. */
  lemma PrefixIsHandled(files: map<Bytes, Bytes>, guid: Uuid, file: Bytes, sent: Bytes, packets: seq<seq<Bytes>>,
                        e: Receiver.Env)
    requires |file| <= USIZE_MAX && sent <= PutRequestHeader(guid, |file|) + file
    requires packets != [] && packets[0] != [] && packets[0][0] <= sent && Receiver.FlattenAll(packets) == sent
    ensures Receiver.Handle(files, packets, e)
         == if HasWholeHeader(packets, guid, |file|) && 1 <= |file| <= Receiver.MAX_UPLOAD
            then Receiver.Receive(files, Receiver.Upload(Some(guid), |file|, []),
                                  sent[|PutRequestHeader(guid, |file|)|..], e)
            else Receiver.Result(files, Some(Receiver.Malformed), None)
  {
    hide PutRequestHeader, Receiver.Triage, Receiver.Store, MakePath;
    var h, c := PutRequestHeader(guid, |file|), packets[0][0];
    var chain, later := Flatten(packets[0][1..]), Receiver.FlattenAll(packets[1..]);
    assert sent == c + (chain + later);
    CutAtHeader(h, file, c, chain + later);
    if |c| >= |h| {
      HeaderIsUnderstood(guid, |file|, c[|h|..]);
      assert sent[|h|..] == c[|h|..] + chain + later;
    } else {
      TruncatedHeaderIsRefused(guid, |file|, c);
    }
  }

  lemma CutAtHeader(h: Bytes, file: Bytes, c: Bytes, rest: Bytes)
    requires c + rest <= h + file
    ensures |c| >= |h| ==> c == h + c[|h|..] && (c + rest)[|h|..] == c[|h|..] + rest
    ensures |c| < |h| ==> c < h
  {
    assert c == (h + file)[..|c|];
  }

  /**
   End to end. Whatever the send buffers, reads and write errors on one side, and however TCP cuts
   the stream into packets and chunks on the other: a request is understood exactly when the first
   chunk holds the whole header and the size is within the limit. It is then answered with Okay
   exactly when the file opens and the whole request was handed over, and an Okay leaves the sender's
   bytes under the sender's identifier, at the final path if the rename works. Otherwise no complete
   file changes.
   */
  lemma TransferIsAllOrNothing(files: map<Bytes, Bytes>, guid: Uuid, file: Bytes, envs: seq<Env>,
                               packets: seq<seq<Bytes>>, e: Receiver.Env)
    requires |file| <= USIZE_MAX
    requires packets != [] && packets[0] != []
    requires Receiver.FlattenAll(packets) == PumpAll(Begin(guid, file), envs).sent
    ensures var r := Receiver.Handle(files, packets, e);
            if HasWholeHeader(packets, guid, |file|) && 1 <= |file| <= Receiver.MAX_UPLOAD then
              && (r.reply == Some(Receiver.Okay) <==> e.opens && PumpAll(Begin(guid, file), envs).Left() == 0)
              && (r.reply == Some(Receiver.Okay) ==>
                    r == Receiver.Result(Receiver.Store(files, guid, file, e.renames), Some(Receiver.Okay), None))
              && (r.reply != Some(Receiver.Okay) ==>
                    r.announced == None && (r.files == files || r.files == files - {MakePath(guid, true)}))
            else
              r == Receiver.Result(files, Some(Receiver.Malformed), None)
  {
    hide PutRequestHeader, PumpAll, Receiver.Handle, Receiver.Store, MakePath;
    var h, s := PutRequestHeader(guid, |file|), PumpAll(Begin(guid, file), envs);
    SentIsPrefixOfRequest(guid, file, envs);
    FirstChunkIsPrefix(packets);
    PrefixIsHandled(files, guid, file, s.sent, packets, e);
    if HasWholeHeader(packets, guid, |file|) {
      assert |s.sent| >= |h|;
      assert s.Left() == 0 <==> |s.sent[|h|..]| == |file|;
      assert s.Left() == 0 ==> s.sent[|h|..] == file && file[..|file|] == file;
    }
  }

  lemma FirstChunkIsPrefix(packets: seq<seq<Bytes>>)
    requires packets != [] && packets[0] != []
    ensures packets[0][0] <= Receiver.FlattenAll(packets)
  {
  }
}
