/**
 The submission server's handling of one connection: parse the request, write the body to a
 partial file across packets and chunks, and give the file its final name when it is complete.
 */
module Receiver {
  import opened Arithmetic
  import opened Wrappers
  import opened Uuids
  import opened Text
  import opened Numerals
  import opened Requests
  import opened PacketBuffers

  const MAX_UPLOAD := 1_000_000

  datatype Reply = IndexPage | Okay | Malformed | NotAllowed | InternalError

  /** What the file system and the generator of identifiers answer during one connection. */
  datatype Env = Env(opens: bool, renames: bool, generated: Uuid)

  datatype Result = Result(files: map<Bytes, Bytes>, reply: Option<Reply>, announced: Option<Uuid>)

  /** What the first chunk asks for. */
  datatype Demand = Refuse(reply: Reply) | Page | Upload(guid: Option<Uuid>, size: nat, body: Bytes)

  function Triage(chunk: Bytes): Demand {
    match SplitRequest(chunk)
    case None => Refuse(Malformed)
    case Some(r) =>
      match CheckStartLine(r.startLine)
      case MethodNotAllowed => Refuse(NotAllowed)
      case BadRequest => Refuse(Malformed)
      case Accepted(Get) => Page
      case Accepted(Put) =>
        var info := ReadPutHeader(r.headers);
        if !info.isGcode || info.size.None? || info.size.value == 0 || info.size.value > MAX_UPLOAD
        then Refuse(Malformed)
        else Upload(info.guid, info.size.value, r.body)
  }

  /** A complete upload is stored under its final name; without the rename it stays partial. */
  function Store(files: map<Bytes, Bytes>, guid: Uuid, content: Bytes, renames: bool): map<Bytes, Bytes> {
    var partial := MakePath(guid, true);
    if renames then (files - {partial})[MakePath(guid, false) := content] else files[partial := content]
  }

  /**
   The outcome of an upload, in terms of the bytes of the stream alone: its first `size` bytes are
   stored if there are that many, and otherwise nothing is left of it.
   */
  function Receive(files: map<Bytes, Bytes>, d: Demand, stream: Bytes, e: Env): Result
    requires d.Upload?
  {
    var guid := if d.guid.Some? then d.guid.value else e.generated;
    if !e.opens then Result(files, Some(InternalError), None)
    else if |stream| < d.size then Result(files - {MakePath(guid, true)}, None, None)
    else Result(Store(files, guid, stream[..d.size], e.renames), Some(Okay), if d.guid.None? then Some(guid) else None)
  }

  /**
   What an Okay reply is worth: all of the body arrived, and it is at the final path if the rename
   worked; if it failed, the final path is as it was before and the body stays at the partial path.
   */
  lemma OkayMeansStoredIfRenamed(files: map<Bytes, Bytes>, d: Demand, stream: Bytes, e: Env)
    requires d.Upload?
    ensures var r := Receive(files, d, stream, e);
            var guid := if d.guid.Some? then d.guid.value else e.generated;
            var final, partial := MakePath(guid, false), MakePath(guid, true);
            && (r.reply == Some(Okay) <==> e.opens && |stream| >= d.size)
            && (r.reply == Some(Okay) && e.renames ==>
                  final in r.files && r.files[final] == stream[..d.size] && partial !in r.files)
            && (r.reply == Some(Okay) && !e.renames ==>
                  && (final in r.files <==> final in files)
                  && (final in files ==> r.files[final] == files[final])
                  && partial in r.files && r.files[partial] == stream[..d.size])
  {
    hide MakePath;
    var guid := if d.guid.Some? then d.guid.value else e.generated;
    PathsAreDistinct(guid, true, guid, false);
  }

  /**
   The answer to an upload, who hears of it, and that it touches no other file: it is announced
   exactly if it is answered with OK and came without an identifier, under the one made for it.
   */
  lemma UploadIsAnswered(files: map<Bytes, Bytes>, d: Demand, stream: Bytes, e: Env)
    requires d.Upload?
    ensures var r := Receive(files, d, stream, e);
            var guid := if d.guid.Some? then d.guid.value else e.generated;
            var final, partial := MakePath(guid, false), MakePath(guid, true);
            && r.announced == (if r.reply == Some(Okay) && d.guid.None? then Some(e.generated) else None)
            && (r.reply == Some(InternalError) <==> !e.opens)
            && (r.reply == None <==> e.opens && |stream| < d.size)
            && (r.reply == None ==> r.files == files - {partial})
            && (r.reply == Some(InternalError) ==> r.files == files)
            && (r.reply.None? || r.reply.value.Okay? || r.reply.value.InternalError?)
            && forall p :: p != final && p != partial ==>
                 (p in r.files <==> p in files) && (p in files ==> r.files[p] == files[p])
  {
  }

  // ---------- What a first chunk asks for ----------

  /** The chunk is a start line, header lines and the beginning of a body, as the separators cut it. */
  ghost predicate IsRequest(chunk: Bytes, start: Bytes, headers: Bytes, body: Bytes) {
    && chunk == start + CRLF + (headers + BLANK_LINE + body)
    && IsSplit(Request(start, headers, body))
  }

  /** A PUT of the root that declares G-code and a size within the limit, and what it says of itself. */
  ghost predicate AsksForUpload(start: Bytes, headers: Bytes, guid: Option<Uuid>, size: nat) {
    && StartsWithToken(start, Ascii("PUT") + [SP] + Ascii("/"))
    && SaysGcode(Lines(headers)) && SaysSize(Lines(headers), Some(size)) && SaysGuid(Lines(headers), guid)
    && 1 <= size <= 1_000_000
  }

  lemma UploadIsExact(chunk: Bytes, guid: Option<Uuid>, size: nat, body: Bytes)
    ensures Triage(chunk) == Upload(guid, size, body)
       <==> exists start, headers :: IsRequest(chunk, start, headers, body) && AsksForUpload(start, headers, guid, size)
  {
    hide Ascii, SplitRequest, IsSplit, CheckStartLine, StartsWithToken;
    hide SaysGcode, SaysSize, SaysGuid, Lines, ReadPutHeader;
    if Triage(chunk) == Upload(guid, size, body) {
      var r := SplitRequest(chunk).value;
      SplitIsExact(chunk, r);
      StartLineIsExact(r.startLine);
      HeaderIsExact(r.headers, ReadPutHeader(r.headers));
      assert IsRequest(chunk, r.startLine, r.headers, body) && AsksForUpload(r.startLine, r.headers, guid, size);
    }
    if start, headers :| IsRequest(chunk, start, headers, body) && AsksForUpload(start, headers, guid, size) {
      SplitIsExact(chunk, Request(start, headers, body));
      StartLineIsExact(start);
      HeaderIsExact(headers, PutInfo(Some(size), guid, true));
    }
  }

  /** The page is for GET of the root, and only another verb is not allowed; all else is malformed. */
  lemma OtherDemandsAreExact(chunk: Bytes)
    ensures Triage(chunk) == Page
       <==> exists start, headers, body ::
              IsRequest(chunk, start, headers, body) && StartsWithToken(start, Ascii("GET") + [SP] + Ascii("/"))
    ensures Triage(chunk) == Refuse(NotAllowed)
       <==> exists start, headers, body ::
              && IsRequest(chunk, start, headers, body)
              && !StartsWithToken(start, Ascii("GET")) && !StartsWithToken(start, Ascii("PUT"))
    ensures Triage(chunk).Refuse? ==> Triage(chunk).reply.Malformed? || Triage(chunk).reply.NotAllowed?
  {
    hide Ascii, SplitRequest, IsSplit, CheckStartLine, StartsWithToken, ReadPutHeader;
    if SplitRequest(chunk).Some? {
      var r := SplitRequest(chunk).value;
      SplitIsExact(chunk, r);
      StartLineIsExact(r.startLine);
      assert IsRequest(chunk, r.startLine, r.headers, r.body);
    }
    forall start, headers, body | IsRequest(chunk, start, headers, body)
      ensures SplitRequest(chunk) == Some(Request(start, headers, body))
    {
      SplitIsExact(chunk, Request(start, headers, body));
    }
  }

  function FlattenAll(packets: seq<seq<Bytes>>): Bytes {
    if packets == [] then [] else Flatten(packets[0]) + FlattenAll(packets[1..])
  }

  /** One connection on which the given packets, each a chain of chunks, arrive before it closes. */
  function Handle(files: map<Bytes, Bytes>, packets: seq<seq<Bytes>>, e: Env): Result {
    if packets == [] then Result(files, None, None)
    else if packets[0] == [] then Result(files, Some(Malformed), None)
    else
      var d := Triage(packets[0][0]);
      match d
      case Refuse(reply) => Result(files, Some(reply), None)
      case Page => Result(files, Some(IndexPage), None)
      case Upload(_, _, body) =>
        Receive(files, d, body + Flatten(packets[0][1..]) + FlattenAll(packets[1..]), e)
  }

  /**
   A whole connection: only an upload that is answered with OK is ever announced, exactly if no line
   of its header gives an identifier, and every refusal and the page leave the files alone.
   */
  lemma AnnouncedIffNewUpload(files: map<Bytes, Bytes>, packets: seq<seq<Bytes>>, e: Env)
    requires packets != [] && packets[0] != []
    ensures var r := Handle(files, packets, e);
            && (r.announced.Some? <==> r.reply == Some(Okay) && LacksGuid(packets[0][0]))
            && (r.announced.Some? ==> r.announced.value == e.generated)
            && (r.reply.Some? && r.reply != Some(Okay) ==> r.files == files)
            && (Triage(packets[0][0]).Refuse? ==> r.reply == Some(Triage(packets[0][0]).reply))
            && (Triage(packets[0][0]) == Page <==> r.reply == Some(IndexPage))
  {
    hide Triage, AsksForUpload, IsRequest, Receive, MakePath;
    var d := Triage(packets[0][0]);
    OtherDemandsAreExact(packets[0][0]);
    if d.Upload? {
      UploadIsExact(packets[0][0], d.guid, d.size, d.body);
      var stream := d.body + Flatten(packets[0][1..]) + FlattenAll(packets[1..]);
      UploadIsAnswered(files, d, stream, e);
      OneIdentifier(packets[0][0], d);
    }
  }

  /** The chunk asks for an upload, and its header gives no identifier that can be read. */
  ghost predicate LacksGuid(chunk: Bytes) {
    exists start, headers, body, size ::
      IsRequest(chunk, start, headers, body) && AsksForUpload(start, headers, None, size)
  }

  lemma OneIdentifier(chunk: Bytes, d: Demand)
    requires d == Triage(chunk) && d.Upload?
    ensures d.guid.None? <==> LacksGuid(chunk)
  {
    hide Triage, AsksForUpload, IsRequest;
    UploadIsExact(chunk, d.guid, d.size, d.body);
    forall start, headers, body, size
      | IsRequest(chunk, start, headers, body) && AsksForUpload(start, headers, None, size)
      ensures d.guid.None?
    {
      UploadIsExact(chunk, None, size, body);
    }
  }

  /** A peer that closes without a word gets no answer, and a packet without chunks a refusal. */
  lemma NothingToHandle(files: map<Bytes, Bytes>, packets: seq<seq<Bytes>>, e: Env)
    requires packets == [] || packets[0] == []
    ensures var r := Handle(files, packets, e);
            r.files == files && r.announced == None && r.reply == if packets == [] then None else Some(Malformed)
  {
  }

  // ---------- The server, in place ----------

  function Appended(files: map<Bytes, Bytes>, path: Bytes, bytes: Bytes): (r: map<Bytes, Bytes>)
    requires path in files
    ensures r.Keys == files.Keys && r[path] == files[path] + bytes
  {
    files[path := files[path] + bytes]
  }

  lemma AppendedTwice(files: map<Bytes, Bytes>, path: Bytes, a: Bytes, b: Bytes)
    requires path in files
    ensures Appended(Appended(files, path, a), path, b) == Appended(files, path, a + b)
    ensures Appended(files, path, []) == files
  {
    assert files[path] + a + b == files[path] + (a + b);
    assert files[path] + [] == files[path];
  }

  class FileSystem {
    var files: map<Bytes, Bytes>

    constructor ()
      ensures files == map[]
    {
      files := map[];
    }

    /** Opening for writing empties the file. */
    method OpenForWriting(path: Bytes, opens: bool) returns (ok: bool)
      modifies this
      ensures ok == opens
      ensures files == if opens then old(files)[path := []] else old(files)
    {
      ok := opens;
      if opens {
        files := files[path := []];
      }
    }

    method Write(path: Bytes, bytes: Bytes)
      requires path in files
      modifies this
      ensures files == Appended(old(files), path, bytes)
    {
      files := files[path := files[path] + bytes];
    }

    method Delete(path: Bytes)
      modifies this
      ensures files == old(files) - {path}
    {
      files := files - {path};
    }

    method Rename(from: Bytes, to: Bytes, renames: bool)
      requires from in files && from != to
      modifies this
      ensures files == if renames then (old(files) - {from})[to := old(files)[from]] else old(files)
    {
      if renames {
        files := (files - {from})[to := files[from]];
      }
    }
  }

  /** The packets that will arrive on a connection before the peer closes it, and the reply sent. */
  class Connection {
    var arriving: seq<Pbuf>
    var reply: Option<Reply>

    constructor (packets: seq<Pbuf>)
      ensures arriving == packets && reply == None
    {
      arriving, reply := packets, None;
    }

    method Next() returns (packet: Pbuf?)
      modifies this`arriving
      ensures old(arriving) == [] ==> packet == null && arriving == []
      ensures old(arriving) != [] ==> packet == old(arriving)[0] && arriving == old(arriving)[1..]
    {
      if arriving == [] {
        return null;
      }
      packet := arriving[0];
      arriving := arriving[1..];
    }

    method Respond(r: Reply)
      modifies this`reply
      ensures reply == Some(r)
    {
      reply := Some(r);
    }
  }

  ghost predicate AreValid(packets: seq<Pbuf>) {
    forall i :: 0 <= i < |packets| ==> packets[i].Valid()
  }

  ghost function ChunksOf(packets: seq<Pbuf>): seq<seq<Bytes>>
    requires AreValid(packets)
  {
    seq(|packets|, i requires 0 <= i < |packets| => packets[i].Chunks())
  }

  /** Writes the rest of a chain, counting the outstanding length down, until either is used up. */
  method AbsorbChain(fs: FileSystem, path: Bytes, iter: PacketBufferIterator, length: nat) returns (left: nat)
    requires iter.Valid() && path in fs.files
    modifies fs, iter
    ensures iter.Valid()
    ensures var all := Flatten(old(iter.Remaining()));
            && left == length - Min(length, |all|)
            && fs.files == Appended(old(fs.files), path, all[..Min(length, |all|)])
  {
    hide Appended;
    left := length;
    ghost var before := fs.files;
    ghost var done: Bytes := [];
    ghost var all := Flatten(iter.Remaining());
    AppendedTwice(before, path, [], []);
    var more := true;
    while more
      invariant iter.Valid()
      invariant |done| + left == length
      invariant fs.files == Appended(before, path, done)
      invariant more ==> all == done + Flatten(iter.Remaining())
      invariant !more ==> done == all[..Min(length, |all|)]
      decreases more, |iter.Remaining()|
    {
      ghost var rest := iter.Remaining();
      var chunk := iter.Next();
      match chunk {
        case None =>
          assert all == done;
          more := false;
        case Some(bytes) =>
          assert rest[1..] == iter.Remaining();
          assert all == done + (bytes + Flatten(iter.Remaining()));
          var toWrite := Min(left, |bytes|);
          fs.Write(path, bytes[..toWrite]);
          AppendedTwice(before, path, done, bytes[..toWrite]);
          PrefixGrows(all, done, bytes, Flatten(iter.Remaining()), left);
          done := done + bytes[..toWrite];
          left := left - toWrite;
          if left == 0 {
            more := false;
          }
      }
    }
  }

  /** Writing what fits of `more` behind `written` continues a prefix of the stream. */
  lemma PrefixGrows(stream: Bytes, written: Bytes, more: Bytes, rest: Bytes, left: nat)
    requires stream == written + (more + rest)
    ensures var n := Min(left, |more|);
            && written + more[..n] == stream[..|written| + n]
            && (n == |more| ==> stream == (written + more[..n]) + rest)
  {
    var n := Min(left, |more|);
    assert more == more[..n] + more[n..];
  }

  /** The body written so far is a prefix of the stream, and the counter is what it still lacks. */
  ghost predicate IsUnderway(stream: Bytes, written: Bytes, size: nat, left: nat, rest: Bytes) {
    && |written| + left == size && |written| <= |stream| && written == stream[..|written|]
    && (left > 0 ==> stream == written + rest)
  }

  lemma UnderwayContinues(stream: Bytes, written: Bytes, size: nat, left: nat, more: Bytes, rest: Bytes)
    requires IsUnderway(stream, written, size, left, more + rest)
    ensures var n := Min(left, |more|); IsUnderway(stream, written + more[..n], size, left - n, rest)
  {
    if left > 0 {
      PrefixGrows(stream, written, more, rest, left);
    } else {
      assert written + more[..0] == written;
    }
  }

  lemma ChunksOfTail(packets: seq<Pbuf>)
    requires AreValid(packets) && packets != []
    ensures AreValid(packets[1..])
    ensures FlattenAll(ChunksOf(packets)) == Flatten(packets[0].Chunks()) + FlattenAll(ChunksOf(packets[1..]))
  {
    assert ChunksOf(packets)[1..] == ChunksOf(packets[1..]);
  }

  /** The body bytes in the chunk of the header, and the rest of the chain it came in. */
  method ReceiveFirstChain(fs: FileSystem, path: Bytes, iter: PacketBufferIterator, body: Bytes, size: nat,
                           ghost later: Bytes) returns (left: nat, ghost written: Bytes)
    requires path in fs.files && iter.Valid()
    modifies fs, iter
    ensures fs.files == Appended(old(fs.files), path, written)
    ensures IsUnderway(body + Flatten(old(iter.Remaining())) + later, written, size, left, later)
  {
    hide Appended, IsUnderway;
    ghost var before := fs.files;
    ghost var chain := Flatten(iter.Remaining());
    ghost var stream := body + chain + later;
    StartsUnderway(stream, size, body, chain, later);
    UnderwayContinues(stream, [], size, size, body, chain + later);
    var toWrite := Min(size, |body|);
    fs.Write(path, body[..toWrite]);
    left := size - toWrite;
    assert [] + body[..toWrite] == body[..toWrite];
    UnderwayContinues(stream, body[..toWrite], size, left, chain, later);
    AppendedTwice(before, path, body[..toWrite], chain[..Min(left, |chain|)]);
    written := body[..toWrite] + chain[..Min(left, |chain|)];
    left := AbsorbChain(fs, path, iter, left);
  }

  /** Later packets, as long as any of the body is outstanding; false if the peer closes first. */
  method ReceiveRest(fs: FileSystem, conn: Connection, path: Bytes, size: nat, outstanding: nat,
                     ghost before: map<Bytes, Bytes>, ghost stream: Bytes, ghost soFar: Bytes)
    returns (complete: bool)
    requires path in before && before[path] == [] && fs.files == Appended(before, path, soFar)
    requires AreValid(conn.arriving)
    requires IsUnderway(stream, soFar, size, outstanding, FlattenAll(ChunksOf(conn.arriving)))
    modifies fs, conn`arriving
    ensures complete == (|stream| >= size)
    ensures fs.files == if complete then before[path := stream[..size]] else before - {path}
  {
    hide Appended, IsUnderway;
    var left := outstanding;
    ghost var written := soFar;
    while left > 0
      invariant AreValid(conn.arriving)
      invariant fs.files == Appended(before, path, written)
      invariant IsUnderway(stream, written, size, left, FlattenAll(ChunksOf(conn.arriving)))
      decreases |conn.arriving|
    {
      ghost var packets := conn.arriving;
      var packet := conn.Next();
      if packet == null {
        assert packets == [] && FlattenAll(ChunksOf(packets)) == [];
        fs.Delete(path);
        CutShort(stream, written, size, left, before, path);
        return false;
      }
      var chunks := new PacketBufferIterator(packet);
      ghost var more := Flatten(packet.Chunks());
      ChunksOfTail(packets);
      UnderwayContinues(stream, written, size, left, more, FlattenAll(ChunksOf(conn.arriving)));
      AppendedTwice(before, path, written, more[..Min(left, |more|)]);
      written := written + more[..Min(left, |more|)];
      left := AbsorbChain(fs, path, chunks, left);
    }
    Finished(stream, written, size, FlattenAll(ChunksOf(conn.arriving)), before, path);
    complete := true;
  }

  /** Receives a body into the open partial file; false if the peer closes before it is complete. */
  method ReceiveBody(fs: FileSystem, conn: Connection, path: Bytes, iter: PacketBufferIterator, body: Bytes, size: nat)
    returns (complete: bool)
    requires path in fs.files && fs.files[path] == []
    requires iter.Valid() && AreValid(conn.arriving)
    modifies fs, iter, conn`arriving
    ensures var stream := body + Flatten(old(iter.Remaining())) + FlattenAll(ChunksOf(old(conn.arriving)));
            && complete == (|stream| >= size)
            && fs.files == if complete then old(fs.files)[path := stream[..size]] else old(fs.files) - {path}
  {
    hide Appended, IsUnderway;
    ghost var before, later := fs.files, FlattenAll(ChunksOf(conn.arriving));
    ghost var stream := body + Flatten(iter.Remaining()) + later;
    var left, written := ReceiveFirstChain(fs, path, iter, body, size, later);
    complete := ReceiveRest(fs, conn, path, size, left, before, stream, written);
  }

  lemma StartsUnderway(stream: Bytes, size: nat, body: Bytes, chain: Bytes, later: Bytes)
    requires stream == body + chain + later
    ensures IsUnderway(stream, [], size, size, body + (chain + later))
  {
    assert stream == [] + (body + (chain + later));
  }

  lemma CutShort(stream: Bytes, written: Bytes, size: nat, left: nat, before: map<Bytes, Bytes>, path: Bytes)
    requires left > 0 && IsUnderway(stream, written, size, left, []) && path in before
    ensures |stream| < size
    ensures Appended(before, path, written) - {path} == before - {path}
  {
  }

  lemma Finished(stream: Bytes, written: Bytes, size: nat, rest: Bytes, before: map<Bytes, Bytes>, path: Bytes)
    requires IsUnderway(stream, written, size, 0, rest) && path in before && before[path] == []
    ensures |stream| >= size
    ensures Appended(before, path, written) == before[path := stream[..size]]
  {
    assert [] + written == written;
  }

  /** The whole of `handle_conn`: returns the identifier to announce, if the upload is a new job. */
  method HandleConnection(fs: FileSystem, conn: Connection, e: Env) returns (announced: Option<Uuid>)
    requires AreValid(conn.arriving) && conn.reply == None
    modifies fs, conn
    ensures Result(fs.files, conn.reply, announced) == Handle(old(fs.files), ChunksOf(old(conn.arriving)), e)
  {
    hide Triage;
    announced := None;
    ghost var packets := conn.arriving;
    var packet := conn.Next();
    if packet == null {
      return;
    }
    ChunksOfTail(packets);
    assert ChunksOf(packets)[1..] == ChunksOf(packets[1..]);
    var iter := new PacketBufferIterator(packet);
    var chunk := iter.Next();
    assert ChunksOf(packets)[0] == [chunk.value] + iter.Remaining();
    var demand := Triage(chunk.value);
    match demand {
      case Refuse(reply) => conn.Respond(reply);
      case Page => conn.Respond(IndexPage);
      case Upload(_, _, _) => announced := HandleUpload(fs, conn, demand, iter, e);
    }
  }

  method HandleUpload(fs: FileSystem, conn: Connection, d: Demand, iter: PacketBufferIterator, e: Env)
    returns (announced: Option<Uuid>)
    requires d.Upload? && conn.reply == None
    requires iter.Valid() && AreValid(conn.arriving)
    modifies fs, conn, iter
    ensures var stream := d.body + Flatten(old(iter.Remaining())) + FlattenAll(ChunksOf(old(conn.arriving)));
            Result(fs.files, conn.reply, announced) == Receive(old(fs.files), d, stream, e)
  {
    hide MakePath;
    announced := None;
    var guid := if d.guid.Some? then d.guid.value else e.generated;
    PathsAreDistinct(guid, true, guid, false);
    var path := MakePath(guid, true);
    var isOpen := fs.OpenForWriting(path, e.opens);
    if !isOpen {
      conn.Respond(InternalError);
      return;
    }
    var complete := ReceiveBody(fs, conn, path, iter, d.body, d.size);
    if !complete {
      return;
    }
    fs.Rename(path, MakePath(guid, false), e.renames);
    conn.Respond(Okay);
    if d.guid.None? {
      announced := Some(guid);
    }
  }
}
