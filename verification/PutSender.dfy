/**
 The sender of a job file: header and file bytes go through a 1024-byte staging buffer into a TCP
 send buffer whose free space changes between callbacks.
 */
module PutSender {
  import opened Arithmetic
  import opened Wrappers
  import opened Uuids
  import opened Text
  import opened Numerals
  import opened PutHeader

  const BUF_CAP := 1024
  const U16 := 0x1_0000

  datatype WriteResult = Ok | Mem | Failed

  /** What one callback meets: how much a read returns, the free send buffer, the answer of the write. */
  datatype Env = Env(readLen: nat, sndbuf: nat, write: WriteResult)

  /** Where the bytes of the request are: accepted by TCP, staged, or not yet read from the file. */
  datatype Stream = Stream(sent: Bytes, buf: Bytes, unread: Bytes) {
    function Whole(): Bytes {
      sent + buf + unread
    }

    function Left(): nat {
      |buf| + |unread|
    }
  }

  /** A read returns no more than was asked for, and no more than the file still has. */
  function ReadCount(s: Stream, e: Env): nat
    requires |s.buf| <= BUF_CAP
  {
    Min(e.readLen, Min(BUF_CAP - |s.buf|, |s.unread|))
  }

  function TopUp(s: Stream, e: Env): Stream
    requires |s.buf| <= BUF_CAP
  {
    var n := ReadCount(s, e);
    s.(buf := s.buf + s.unread[..n], unread := s.unread[n..])
  }

  function Offered(s: Stream, e: Env): nat
    requires |s.buf| <= BUF_CAP
  {
    Min(|TopUp(s, e).buf|, e.sndbuf)
  }

  function Pump(s: Stream, e: Env): (r: Stream)
    requires |s.buf| <= BUF_CAP
    ensures |r.buf| <= BUF_CAP
  {
    var t, n := TopUp(s, e), Offered(s, e);
    if n == 0 || e.write != Ok then t else t.(sent := t.sent + t.buf[..n], buf := t.buf[n..])
  }

  /** Only an error other than out of memory is reported, and only if something was offered. */
  predicate PumpFails(s: Stream, e: Env)
    requires |s.buf| <= BUF_CAP
  {
    Offered(s, e) > 0 && e.write == Failed
  }

  /** The request as it stands when the connection comes up. */
  function WithHeader(s: Stream, guid: Uuid, size: nat): (r: Stream)
    requires size <= USIZE_MAX
    ensures |r.buf| <= BUF_CAP
  {
    HeaderFits(guid, size);
    s.(buf := PutRequestHeader(guid, size))
  }

  // ---------- The request, in place ----------

  class PutRequest {
    const guid: Uuid
    const fsize: nat
    const buf: array<Byte>
    var len: nat
    var unread: Bytes
    var accepted: Bytes
    var signalled: Option<WriteResult>

    ghost predicate Valid()
      reads this
    {
      buf.Length == BUF_CAP && len <= BUF_CAP
    }

    function View(): Stream
      requires Valid()
      reads this, buf
    {
      Stream(accepted, buf[..len], unread)
    }

    constructor (guid: Uuid, fsize: nat, file: Bytes)
      ensures Valid() && fresh(buf) && this.guid == guid && this.fsize == fsize
      ensures View() == Stream([], [], file) && signalled == None
    {
      this.guid, this.fsize := guid, fsize;
      buf := new Byte[BUF_CAP];
      len, unread, accepted, signalled := 0, file, [], None;
    }

    /** Appends bytes behind the staged ones; the caller has checked that they fit. */
    method Append(bytes: Bytes)
      requires Valid() && len + |bytes| <= BUF_CAP
      modifies this`len, buf
      ensures Valid() && buf[..len] == old(buf[..len]) + bytes
    {
      for i := 0 to |bytes|
        modifies buf
        invariant buf[..len + i] == old(buf[..len]) + bytes[..i]
      {
        buf[len + i] := bytes[i];
        assert buf[..len + i + 1] == buf[..len + i] + [bytes[i]];
        assert bytes[..i + 1] == bytes[..i] + [bytes[i]];
      }
      assert bytes[..|bytes|] == bytes;
      len := len + |bytes|;
    }

    /** Drops the first `n` staged bytes and moves the rest down. */
    method ShiftDown(n: nat)
      requires Valid() && n <= len
      modifies this`len, buf
      ensures Valid() && buf[..len] == old(buf[..len])[n..]
    {
      for i := 0 to len - n
        modifies buf
        invariant forall j :: 0 <= j < i ==> buf[j] == old(buf[j + n])
        invariant forall j :: i <= j < len ==> buf[j] == old(buf[j])
      {
        buf[i] := buf[i + n];
      }
      len := len - n;
    }

    /** Tops the staging buffer up from the file. */
    method Refill(e: Env)
      requires Valid()
      modifies this`len, this`unread, buf
      ensures Valid() && View() == TopUp(old(View()), e)
    {
      var space := BUF_CAP - len;
      if space > 0 {
        var n := Min(e.readLen, Min(space, |unread|));
        Append(unread[..n]);
        unread := unread[n..];
      }
    }

    /** TCP has copied the first `n` staged bytes: drop them and move the rest down. */
    method HandOver(n: nat)
      requires Valid() && n <= len
      modifies this`len, this`accepted, buf
      ensures Valid() && View() == Stream(old(accepted) + old(buf[..len])[..n], old(buf[..len])[n..], unread)
    {
      // The length is passed as a 16-bit number.
      var length := n % U16;
      accepted := accepted + buf[..length];
      assert buf[..length] == buf[..len][..n];
      ShiftDown(n);
    }

    method PumpOnce(e: Env) returns (ok: bool)
      requires Valid()
      modifies this`len, this`unread, this`accepted, buf
      ensures Valid() && View() == Pump(old(View()), e)
      ensures ok == !PumpFails(old(View()), e)
    {
      hide TopUp;
      ghost var s := View();
      Refill(e);
      ghost var t := TopUp(s, e);
      assert View() == t;
      var toSend := Min(len, e.sndbuf);
      assert toSend == Offered(s, e);
      if toSend == 0 {
        return true;
      }
      if e.write != Ok {
        return e.write == Mem;
      }
      HandOver(toSend);
      ok := true;
    }

    /** The connection is up: stage the header and start pumping. */
    method Connected(e: Env)
      requires Valid() && len == 0 && fsize <= USIZE_MAX
      modifies this, buf
      ensures Valid()
      ensures View() == Pump(WithHeader(old(View()), guid, fsize), e)
      ensures signalled == if PumpFails(WithHeader(old(View()), guid, fsize), e) then Some(Failed) else old(signalled)
    {
      hide Pump, PumpFails, PutRequestHeader;
      HeaderFits(guid, fsize);
      Append(PutRequestHeader(guid, fsize));
      assert View() == WithHeader(old(View()), guid, fsize);
      var ok := PumpOnce(e);
      if !ok {
        signalled := Some(Failed);
      }
    }

    /** TCP has had bytes acknowledged, so there is room again. */
    method Sent(e: Env)
      requires Valid()
      modifies this, buf
      ensures Valid()
      ensures View() == Pump(old(View()), e)
      ensures signalled == if PumpFails(old(View()), e) then Some(Failed) else old(signalled)
    {
      hide Pump, PumpFails;
      var ok := PumpOnce(e);
      if !ok {
        signalled := Some(Failed);
      }
    }
  }

  // ---------- Every run of callbacks ----------

  function PumpAll(s: Stream, envs: seq<Env>): (r: Stream)
    requires |s.buf| <= BUF_CAP
    ensures |r.buf| <= BUF_CAP
    decreases envs
  {
    if envs == [] then s else PumpAll(Pump(s, envs[0]), envs[1..])
  }

  function Begin(guid: Uuid, file: Bytes): (s: Stream)
    requires |file| <= USIZE_MAX
    ensures |s.buf| <= BUF_CAP
  {
    WithHeader(Stream([], [], file), guid, |file|)
  }

  lemma PumpKeepsStream(s: Stream, e: Env)
    requires |s.buf| <= BUF_CAP
    ensures Pump(s, e).Whole() == s.Whole()
    ensures s.sent <= Pump(s, e).sent
    ensures e.write != Ok ==> Pump(s, e).sent == s.sent
  {
    var t, n := TopUp(s, e), Offered(s, e);
    var k := ReadCount(s, e);
    assert s.unread == s.unread[..k] + s.unread[k..];
    assert t.buf == t.buf[..n] + t.buf[n..];
    assert t.Whole() == s.Whole();
  }

  /**
   A pump does as much as it can: it reads until the staging buffer is full, the file is used up or
   the read gives no more, and an accepted write takes all that is staged or all there is room for.
   */
  lemma PumpIsGreedy(s: Stream, e: Env)
    requires |s.buf| <= BUF_CAP
    ensures var r := Pump(s, e);
            var taken, given := |s.unread| - |r.unread|, |r.sent| - |s.sent|;
            && 0 <= taken <= e.readLen && |s.buf| + taken <= 1024
            && (taken == e.readLen || |s.buf| + taken == 1024 || r.unread == [])
            && 0 <= given <= e.sndbuf
            && (e.write == Ok ==> given == e.sndbuf || r.buf == [])
            && (e.write != Ok ==> given == 0)
  {
  }

  /** An error is reported exactly if bytes were offered and the write failed for good. */
  lemma FailsExactly(s: Stream, e: Env)
    requires |s.buf| <= BUF_CAP
    ensures PumpFails(s, e) <==> e.write == Failed && e.sndbuf > 0 && Pump(s, e).buf != []
  {
    assert e.write != Ok ==> Pump(s, e) == TopUp(s, e);
  }

  /** After any callbacks, the accepted, staged and unread bytes in order are header and file. */
  lemma {:induction false} StreamIsKept(s: Stream, envs: seq<Env>)
    requires |s.buf| <= BUF_CAP
    ensures PumpAll(s, envs).Whole() == s.Whole()
    decreases envs
  {
    if envs != [] {
      PumpKeepsStream(s, envs[0]);
      StreamIsKept(Pump(s, envs[0]), envs[1..]);
    }
  }

  /** TCP is only ever given a prefix of the request, and all of it once nothing is left. */
  lemma SentIsPrefixOfRequest(guid: Uuid, file: Bytes, envs: seq<Env>)
    requires |file| <= USIZE_MAX
    ensures var r := PumpAll(Begin(guid, file), envs);
            && r.sent <= PutRequestHeader(guid, |file|) + file
            && (r.Left() == 0 <==> r.sent == PutRequestHeader(guid, |file|) + file)
  {
    hide PumpAll, PutRequestHeader;
    var r, whole := PumpAll(Begin(guid, file), envs), PutRequestHeader(guid, |file|) + file;
    StreamIsKept(Begin(guid, file), envs);
    assert Begin(guid, file).Whole() == whole;
    assert r.Whole() == r.sent + (r.buf + r.unread);
  }

  // ---------- Progress ----------

  /** Room in the send buffer, an accepted write, and a read that returns something if it can. */
  ghost predicate IsHealthy(e: Env) {
    e.sndbuf > 0 && e.write == Ok && e.readLen > 0
  }

  /** Bytes are left, but nothing is in flight whose acknowledgement would call the pump again. */
  ghost predicate IsStalled(s: Stream, acked: nat) {
    s.Left() > 0 && |s.sent| == acked
  }

  /**
   Exactly when a pump leaves the request stalled. Without a word: the send buffer is full, the
   write found no memory, or there was nothing to offer. With an error, which `send` returns: a
   write that failed otherwise.
   */
  lemma StallsExactly(s: Stream, e: Env, acked: nat)
    requires |s.buf| <= BUF_CAP && acked <= |s.sent|
    ensures IsStalled(Pump(s, e), acked) && !PumpFails(s, e)
       <==> |s.sent| == acked && s.Left() > 0
            && (e.sndbuf == 0 || e.write == Mem || (s.buf == [] && e.readLen == 0))
    ensures IsStalled(Pump(s, e), acked) && PumpFails(s, e)
       <==> |s.sent| == acked && s.Left() > 0
            && e.sndbuf > 0 && e.write == Failed && !(s.buf == [] && e.readLen == 0)
  {
    assert TopUp(s, e).Left() == s.Left();
  }

  /** A healthy pump with data left hands some over, so the request never stalls and always shrinks. */
  lemma HealthyPumpProgresses(s: Stream, e: Env, acked: nat)
    requires |s.buf| <= BUF_CAP && acked <= |s.sent| && IsHealthy(e)
    ensures !IsStalled(Pump(s, e), acked)
    ensures s.Left() > 0 ==> Pump(s, e).Left() < s.Left()
  {
    StallsExactly(s, e, acked);
    var t := TopUp(s, e);
    assert t.Left() == s.Left();
  }

  /** As many healthy callbacks as there are bytes are always enough to hand over the whole request. */
  lemma {:induction false} HealthyRunFinishes(s: Stream, envs: seq<Env>)
    requires |s.buf| <= BUF_CAP && |envs| >= s.Left()
    requires forall i :: 0 <= i < |envs| ==> IsHealthy(envs[i])
    ensures PumpAll(s, envs).Left() == 0
    decreases envs
  {
    if envs != [] {
      var s' := Pump(s, envs[0]);
      HealthyPumpProgresses(s, envs[0], 0);
      assert s.Left() == 0 ==> s'.Left() == 0;
      HealthyRunFinishes(s', envs[1..]);
    }
  }

  // ---------- The closed loop of acknowledgements and pumps ----------

  /** A request on its connection, with the bytes acknowledged so far. */
  datatype Flight = Flight(stream: Stream, acked: nat) {
    ghost predicate Valid() {
      |stream.buf| <= BUF_CAP && acked <= |stream.sent|
    }

    function InFlight(): int {
      |stream.sent| - acked
    }
  }

  /** TCP acknowledges some of the bytes in flight and calls the pump; it has no other reason to. */
  datatype Ack = Ack(count: nat, env: Env)

  ghost predicate CanAck(f: Flight, a: Ack) {
    0 < a.count <= f.InFlight() && IsHealthy(a.env)
  }

  function OnAck(f: Flight, a: Ack): Flight
    requires |f.stream.buf| <= BUF_CAP
  {
    Flight(Pump(f.stream, a.env), f.acked + a.count)
  }

  ghost predicate IsFlightRun(f: Flight, acks: seq<Ack>)
    requires f.Valid()
    decreases acks
  {
    acks == [] || (CanAck(f, acks[0]) && OnAck(f, acks[0]).Valid() && IsFlightRun(OnAck(f, acks[0]), acks[1..]))
  }

  ghost function FlyAll(f: Flight, acks: seq<Ack>): (r: Flight)
    requires f.Valid() && IsFlightRun(f, acks)
    ensures r.Valid()
    decreases acks
  {
    if acks == [] then f else FlyAll(OnAck(f, acks[0]), acks[1..])
  }

  lemma AckIsValid(f: Flight, a: Ack)
    requires f.Valid() && CanAck(f, a)
    ensures OnAck(f, a).Valid()
    ensures OnAck(f, a).stream.Left() == 0 || OnAck(f, a).InFlight() > 0
    ensures f.stream.Left() > 0 ==> OnAck(f, a).stream.Left() < f.stream.Left()
    ensures f.stream.Left() == 0 ==> OnAck(f, a).stream.Left() == 0
  {
    PumpKeepsStream(f.stream, a.env);
    HealthyPumpProgresses(f.stream, a.env, f.acked + a.count);
    PumpNeverAdds(f.stream, a.env);
  }

  /**
   The stall at an input: if the first pump meets a full send buffer or finds no memory, nothing is
   reported, nothing is in flight, and no acknowledgement can ever pump again.
   */
  lemma FirstPumpCanStallForGood(guid: Uuid, file: Bytes, e: Env)
    requires |file| <= USIZE_MAX && (e.sndbuf == 0 || e.write == Mem)
    ensures var f := Flight(Pump(Begin(guid, file), e), 0);
            && f.Valid() && IsStalled(f.stream, 0) && !PumpFails(Begin(guid, file), e)
            && forall a :: !CanAck(f, a)
  {
    HeaderIsNotEmpty(guid, |file|);
    hide PutRequestHeader;
    StallsExactly(Begin(guid, file), e, 0);
  }

  lemma HeaderIsNotEmpty(guid: Uuid, size: nat)
    ensures PutRequestHeader(guid, size) != []
  {
    hide Ascii, UuidText, DecimalText;
    assert |PutRequestHeader(guid, size)| >= |CRLF|;
  }

  lemma PumpNeverAdds(s: Stream, e: Env)
    requires |s.buf| <= BUF_CAP
    ensures Pump(s, e).Left() <= s.Left()
  {
    assert TopUp(s, e).Left() == s.Left();
  }

  /**
   No deadlock and no livelock: in a run of healthy acknowledgements, after each of them either the
   whole request has been handed over or bytes are in flight whose acknowledgement will pump again,
   and every acknowledgement takes the request at least one byte further.
   */
  lemma {:induction false} HealthyFlightNeverDeadlocks(f: Flight, acks: seq<Ack>)
    requires f.Valid() && IsFlightRun(f, acks)
    requires f.stream.Left() == 0 || f.InFlight() > 0
    ensures var r := FlyAll(f, acks);
            && (r.stream.Left() == 0 || r.InFlight() > 0)
            && (r.stream.Left() == 0 || r.stream.Left() + |acks| <= f.stream.Left())
    decreases acks
  {
    hide CanAck, OnAck, Pump;
    if acks != [] {
      AckIsValid(f, acks[0]);
      HealthyFlightNeverDeadlocks(OnAck(f, acks[0]), acks[1..]);
    }
  }

  /** From a healthy first pump on, whatever is acknowledged and when, the request gets across. */
  lemma HealthyRequestGetsAcross(guid: Uuid, file: Bytes, first: Env, acks: seq<Ack>)
    requires |file| <= USIZE_MAX && IsHealthy(first)
    requires var f := Flight(Pump(Begin(guid, file), first), 0); f.Valid() && IsFlightRun(f, acks)
    ensures var r := FlyAll(Flight(Pump(Begin(guid, file), first), 0), acks);
            && (r.stream.Left() == 0 || exists a :: CanAck(r, a))
            && (|acks| >= |PutRequestHeader(guid, |file|)| + |file| ==> r.stream.Left() == 0)
  {
    var s := Begin(guid, file);
    var f := Flight(Pump(s, first), 0);
    HealthyPumpProgresses(s, first, 0);
    PumpNeverAdds(s, first);
    hide Pump, Begin, PutRequestHeader;
    HealthyFlightNeverDeadlocks(f, acks);
    var r := FlyAll(f, acks);
    if r.stream.Left() > 0 {
      assert CanAck(r, Ack(1, first));
    }
  }
}
