/**
 The adapter between lwIP's receive callbacks and the server's `receive`: hold, attach, drain and
 close, with a bounded queue in between and the receive window paid back as packets are taken.

 lwIP keeps at most one packet that the callback refused, and offers nothing else until that one is
 taken. A packet is its bytes.
 */
module TcpAdapter {
  import opened Wrappers
  import opened Text

  const CHANNEL_SIZE := 12

  datatype Callback = Holding | Attached | Detached

  /** `held` has left the queue in a `receive` that has not yet acknowledged it. */
  datatype Link = Link(callback: Callback, live: bool, refused: Option<Bytes>, channel: seq<Option<Bytes>>,
                       held: Option<Bytes>, acked: nat, arrived: seq<Bytes>, delivered: seq<Bytes>,
                       returned: seq<Bytes>)

  datatype Event =
    | Arrive(packet: Bytes)
    | Retry
    | Attach
    | PeerCloses
    | Fail
    | StartReceive
    | FinishReceive
    | Close

  predicate HasRoom(l: Link) {
    |l.channel| < CHANNEL_SIZE
  }

  /**
   What lwIP and the tasks may do. A delivery needs room in the queue; the connection is dropped
   only between receives.
   */
  predicate Enabled(l: Link, e: Event) {
    match e
    case Arrive(_) => l.live && !l.callback.Detached? && l.refused.None? && (l.callback.Attached? ==> HasRoom(l))
    case Retry => l.live && !l.callback.Detached? && l.refused.Some? && (l.callback.Attached? ==> HasRoom(l))
    case Attach => l.live && l.callback.Holding? && HasRoom(l)
    case PeerCloses => l.live && !l.callback.Detached?
    case Fail => l.live && l.callback.Attached?
    case StartReceive => l.callback.Attached? && l.held.None? && l.channel != []
    case FinishReceive => l.held.Some?
    case Close => l.callback.Attached? && l.held.None? && (l.refused.Some? ==> HasRoom(l))
  }

  /** The callback in place is offered a packet: the holding one refuses, the real one queues. */
  function Offer(l: Link, packet: Bytes): Link {
    if l.callback.Attached?
    then l.(refused := None, channel := l.channel + [Some(packet)], delivered := l.delivered + [packet])
    else l.(refused := Some(packet))
  }

  function TakeRefused(l: Link): Link {
    if l.refused.Some? then Offer(l, l.refused.value) else l
  }

  /** The end of the stream is queued if there is room. */
  function PushEnd(l: Link): Link {
    if HasRoom(l) then l.(channel := l.channel + [None]) else l
  }

  function Step(l: Link, e: Event): Link
    requires Enabled(l, e)
  {
    match e
    case Arrive(p) => Offer(l.(arrived := l.arrived + [p]), p)
    case Retry => Offer(l, l.refused.value)
    case Attach => TakeRefused(l.(callback := Attached))
    case PeerCloses => if l.callback.Attached? then PushEnd(l) else l
    case Fail => PushEnd(l.(live := false))
    case StartReceive => l.(channel := l.channel[1..], held := l.channel[0])
    case FinishReceive =>
      l.(held := None, returned := l.returned + [l.held.value],
         acked := l.acked + if l.live then |l.held.value| else 0)
    case Close =>
      var d := if l.live then TakeRefused(l) else l;
      d.(callback := Detached, live := false, channel := [],
         acked := d.acked + if l.live then Size(Packets(d.channel)) else 0)
  }

  /** The packets among the queue's entries, without the end-of-stream marks. */
  function Packets(channel: seq<Option<Bytes>>): seq<Bytes> {
    if channel == [] then []
    else (if channel[0].Some? then [channel[0].value] else []) + Packets(channel[1..])
  }

  function Size(packets: seq<Bytes>): nat {
    if packets == [] then 0 else |packets[0]| + Size(packets[1..])
  }

  function AsSeq(p: Option<Bytes>): seq<Bytes> {
    if p.Some? then [p.value] else []
  }

  // ---------- The connection, in place ----------

  /** lwIP's side of the connection: the refused packet, and the bytes given back to the window. */
  class Pcb {
    var refused: Option<Bytes>
    var acked: nat
    var callback: Callback

    constructor ()
      ensures refused == None && acked == 0 && callback == Holding
    {
      refused, acked, callback := None, 0, Holding;
    }

    method Recved(n: nat)
      modifies this`acked
      ensures acked == old(acked) + n
    {
      acked := acked + n;
    }
  }

  class TcpConnection {
    const lwip: Pcb
    var live: bool
    var channel: seq<Option<Bytes>>
    var held: Option<Bytes>
    ghost var arrived: seq<Bytes>
    ghost var delivered: seq<Bytes>
    ghost var returned: seq<Bytes>

    ghost function View(): Link
      reads this, lwip
    {
      Link(lwip.callback, live, lwip.refused, channel, held, lwip.acked, arrived, delivered, returned)
    }

    constructor ()
      ensures View() == Link(Holding, true, None, [], None, 0, [], [], []) && fresh(lwip)
    {
      lwip := new Pcb();
      live, channel, held := true, [], None;
      arrived, delivered, returned := [], [], [];
    }

    /** The real callback: queue the packet, or report that there is no memory for it. */
    method OnReceive(packet: Bytes) returns (ok: bool)
      modifies this`channel, this`delivered
      ensures ok == (|old(channel)| < CHANNEL_SIZE)
      ensures channel == if ok then old(channel) + [Some(packet)] else old(channel)
      ensures delivered == if ok then old(delivered) + [packet] else old(delivered)
    {
      ok := |channel| < CHANNEL_SIZE;
      if ok {
        channel := channel + [Some(packet)];
        delivered := delivered + [packet];
      }
    }

    /** The callback of a connection that nobody has taken yet: it refuses everything. */
    method OnHold(packet: Bytes) returns (ok: bool)
      ensures !ok
    {
      ok := false;
    }

    /** lwIP offers a packet to the callback in place and keeps it if it is refused. */
    method LwipOffers(packet: Bytes)
      requires lwip.callback.Attached? ==> HasRoom(View())
      modifies this, lwip
      ensures View() == Offer(old(View()), packet)
    {
      var ok;
      if lwip.callback.Attached? {
        ok := OnReceive(packet);
      } else {
        ok := OnHold(packet);
      }
      lwip.refused := if ok then None else Some(packet);
    }

    method AttachCallbacks()
      requires Enabled(View(), Attach)
      modifies this, lwip
      ensures View() == Step(old(View()), Attach)
    {
      lwip.callback := Attached;
      if lwip.refused.Some? {
        LwipOffers(lwip.refused.value);
      }
    }

    /** The peer has closed: the callback in place is told, and only the real one passes it on. */
    method OnClosed()
      requires Enabled(View(), PeerCloses)
      modifies this
      ensures View() == Step(old(View()), PeerCloses)
      ensures channel == old(channel) + if lwip.callback.Attached? && |old(channel)| < CHANNEL_SIZE then [None] else []
    {
      if lwip.callback.Attached? && |channel| < CHANNEL_SIZE {
        channel := channel + [None];
      }
    }

    method OnError()
      requires Enabled(View(), Fail)
      modifies this
      ensures View() == Step(old(View()), Fail)
      ensures !live && channel == old(channel) + if |old(channel)| < CHANNEL_SIZE then [None] else []
    {
      live := false;
      if |channel| < CHANNEL_SIZE {
        channel := channel + [None];
      }
    }

    /** The first half of `receive`: take the head of the queue. */
    method StartReceiving()
      requires Enabled(View(), StartReceive)
      modifies this
      ensures View() == Step(old(View()), StartReceive)
    {
      held := channel[0];
      channel := channel[1..];
    }

    /** The second half, on lwIP's thread: the connection may have failed in between. */
    method FinishReceiving() returns (packet: Bytes)
      requires Enabled(View(), FinishReceive)
      modifies this, lwip
      ensures View() == Step(old(View()), FinishReceive) && Some(packet) == old(held)
    {
      packet := held.value;
      if live {
        lwip.Recved(|packet|);
      }
      held := None;
      returned := returned + [packet];
    }

    /** `drop`: the last refused packet is taken in, the queue is drained, and the callbacks removed. */
    method Drop()
      requires Enabled(View(), Close)
      modifies this, lwip
      ensures View() == Step(old(View()), Close)
    {
      if live {
        if lwip.refused.Some? {
          LwipOffers(lwip.refused.value);
        }
        live := false;
        Drain();
      }
      lwip.callback := Detached;
      channel := [];
    }

    method Drain()
      modifies this`channel, lwip`acked
      ensures channel == [] && lwip.acked == old(lwip.acked + Size(Packets(channel)))
    {
      while channel != []
        invariant lwip.acked + Size(Packets(channel)) == old(lwip.acked + Size(Packets(channel)))
        decreases |channel|
      {
        var item := channel[0];
        SizeAppends(AsSeq(item), Packets(channel[1..]));
        assert Packets(channel) == AsSeq(item) + Packets(channel[1..]);
        assert item.Some? ==> Size([item.value]) == |item.value|;
        channel := channel[1..];
        if item.Some? {
          lwip.Recved(|item.value|);
        }
      }
    }
  }

  // ---------- Every run ----------

  ghost predicate IsRun(l: Link, events: seq<Event>)
    decreases events
  {
    events == [] || (Enabled(l, events[0]) && IsRun(Step(l, events[0]), events[1..]))
  }

  function Run(l: Link, events: seq<Event>): Link
    requires IsRun(l, events)
    decreases events
  {
    if events == [] then l else Run(Step(l, events[0]), events[1..])
  }

  const ACCEPTED := Link(Holding, true, None, [], None, 0, [], [], [])

  /** Nothing is lost or reordered between lwIP and the caller, across hold, attach and failure. */
  ghost predicate InOrder(l: Link) {
    && l.arrived == l.delivered + AsSeq(l.refused)
    && (!l.callback.Detached? ==> l.delivered == l.returned + AsSeq(l.held) + Packets(l.channel))
    && l.returned <= l.delivered
  }

  /** Every byte delivered is acknowledged, queued, or in a receive under way. */
  ghost predicate WindowIsConserved(l: Link) {
    l.live ==> Size(l.delivered) == l.acked + Size(AsSeq(l.held)) + Size(Packets(l.channel))
  }

  /** The holding callback queues nothing; the real one never leaves a packet behind. */
  ghost predicate PhaseInv(l: Link) {
    && (l.callback.Holding? ==> l.channel == [] && l.held == None)
    && (l.callback.Attached? ==> l.refused == None)
    && (l.callback.Detached? ==> !l.live && l.channel == [] && l.held == None)
  }

  ghost predicate Inv(l: Link) {
    InOrder(l) && WindowIsConserved(l) && PhaseInv(l)
  }

  lemma {:induction false} SizeAppends(a: seq<Bytes>, b: seq<Bytes>)
    ensures Size(a + b) == Size(a) + Size(b)
  {
    if a == [] {
      assert a + b == b;
    } else {
      assert (a + b)[1..] == a[1..] + b;
      SizeAppends(a[1..], b);
    }
  }

  lemma {:induction false} PacketsAppend(c: seq<Option<Bytes>>, item: Option<Bytes>)
    ensures Packets(c + [item]) == Packets(c) + AsSeq(item)
  {
    if c == [] {
      assert c + [item] == [item];
    } else {
      assert (c + [item])[1..] == c[1..] + [item];
      PacketsAppend(c[1..], item);
    }
  }

  lemma OfferKeepsInv(l: Link, packet: Bytes)
    requires !l.callback.Detached? && WindowIsConserved(l)
    requires l.arrived == l.delivered + [packet]
    requires l.delivered == l.returned + AsSeq(l.held) + Packets(l.channel) && l.returned <= l.delivered
    requires l.callback.Holding? ==> l.channel == [] && l.held == None
    ensures Inv(Offer(l, packet))
  {
    PacketsAppend(l.channel, Some(packet));
    SizeAppends(l.delivered, [packet]);
    SizeAppends(Packets(l.channel), [packet]);
    assert Size([packet]) == |packet|;
  }

  lemma PushEndKeepsInv(l: Link)
    requires Inv(l) && l.callback.Attached?
    ensures Inv(PushEnd(l))
  {
    PacketsAppend(l.channel, None);
    assert Packets(l.channel) + [] == Packets(l.channel);
  }

  lemma ReceiveKeepsInv(l: Link, e: Event)
    requires Inv(l) && Enabled(l, e) && (e.StartReceive? || e.FinishReceive?)
    ensures Inv(Step(l, e))
  {
    if e.StartReceive? {
      assert l.delivered == l.returned + AsSeq(l.channel[0]) + Packets(l.channel[1..]);
      SizeAppends(AsSeq(l.channel[0]), Packets(l.channel[1..]));
    } else {
      assert Size([l.held.value]) == |l.held.value|;
      assert l.delivered == l.returned + [l.held.value] + [] + Packets(l.channel);
    }
  }

  lemma StepKeepsInv(l: Link, e: Event)
    requires Inv(l) && Enabled(l, e)
    ensures Inv(Step(l, e))
  {
    match e {
      case Arrive(p) => OfferKeepsInv(l.(arrived := l.arrived + [p]), p);
      case Retry => OfferKeepsInv(l, l.refused.value);
      case Attach =>
        if l.refused.Some? {
          OfferKeepsInv(l.(callback := Attached), l.refused.value);
        }
      case PeerCloses =>
        if l.callback.Attached? {
          PushEndKeepsInv(l);
        }
      case Fail => PushEndKeepsInv(l.(live := false));
      case StartReceive => ReceiveKeepsInv(l, e);
      case FinishReceive => ReceiveKeepsInv(l, e);
      case Close =>
    }
  }

  /**
   Over every run: packets leave in the order they arrived with none missing, and while the
   connection lives the bytes delivered are those acknowledged, queued or being received.
   */
  lemma {:induction false} ConnectionIsFaithful(l: Link, events: seq<Event>)
    requires Inv(l) && IsRun(l, events)
    ensures Inv(Run(l, events))
    decreases events
  {
    hide Inv, Enabled, Step;
    if events != [] {
      StepKeepsInv(l, events[0]);
      ConnectionIsFaithful(Step(l, events[0]), events[1..]);
    }
  }

  lemma FreshConnectionIsFaithful(events: seq<Event>)
    requires IsRun(ACCEPTED, events)
    ensures Inv(Run(ACCEPTED, events))
  {
    ConnectionIsFaithful(ACCEPTED, events);
  }

  /** Whatever the link: a live connection takes a refused packet in before it closes, and pays all back. */
  lemma CloseTakesTheRefused(l: Link)
    requires Enabled(l, Close) && l.live
    ensures var d := Step(l, Close);
            && d.delivered == l.delivered + AsSeq(l.refused) && d.refused == None
            && d.acked == l.acked + Size(Packets(l.channel)) + Size(AsSeq(l.refused))
            && d.callback.Detached? && !d.live && d.channel == [] && d.returned == l.returned
  {
    if l.refused.Some? {
      PacketsAppend(l.channel, l.refused);
      SizeAppends(Packets(l.channel), [l.refused.value]);
    } else {
      assert l.delivered + [] == l.delivered;
    }
  }

  /** When a live connection is dropped, nothing delivered is left unacknowledged. */
  lemma ClosePaysBackTheWindow(events: seq<Event>)
    requires IsRun(ACCEPTED, events) && Enabled(Run(ACCEPTED, events), Close) && Run(ACCEPTED, events).live
    ensures var l := Step(Run(ACCEPTED, events), Close);
            l.acked == Size(l.delivered) && l.delivered == l.arrived
  {
    FreshConnectionIsFaithful(events);
    var l := Run(ACCEPTED, events);
    assert l.arrived == l.delivered + [];
  }

  /** lwIP has freed a connection that failed or was closed: nothing is acknowledged on it any more. */
  lemma {:induction false} DeadConnectionIsLeftAlone(l: Link, events: seq<Event>)
    requires !l.live && IsRun(l, events)
    ensures !Run(l, events).live && Run(l, events).acked == l.acked
    decreases events
  {
    if events != [] {
      DeadConnectionIsLeftAlone(Step(l, events[0]), events[1..]);
    }
  }

  // ---------- The end of the stream ----------

  predicate IsEnding(e: Event) {
    e.PeerCloses? || e.Fail?
  }

  /** The connection is told of an end of the stream and has a place for the mark. */
  predicate HearsEnd(l: Link, e: Event) {
    IsEnding(e) && l.callback.Attached? && |l.channel| < CHANNEL_SIZE
  }

  /** The reader takes an end mark from the queue. */
  predicate TakesEnd(l: Link, e: Event) {
    e.StartReceive? && l.channel != [] && l.channel[0].None?
  }

  /** An end is queued behind what is there exactly if there is room; otherwise nobody is told. */
  lemma EndIsQueuedIffRoom(l: Link, e: Event)
    requires Enabled(l, e) && IsEnding(e)
    ensures Step(l, e).channel == l.channel + if HearsEnd(l, e) then [None] else []
    ensures Step(l, e).live <==> !e.Fail?
    ensures Packets(Step(l, e).channel) == Packets(l.channel)
  {
    PacketsAppend(l.channel, None);
    assert Packets(l.channel) + [] == Packets(l.channel);
    assert l.channel + [] == l.channel;
  }

  ghost function Ends(channel: seq<Option<Bytes>>): nat {
    if channel == [] then 0 else (if channel[0].None? then 1 else 0) + Ends(channel[1..])
  }

  lemma {:induction false} EndsAppend(c: seq<Option<Bytes>>, item: Option<Bytes>)
    ensures Ends(c + [item]) == Ends(c) + if item.None? then 1 else 0
  {
    if c == [] {
      assert c + [item] == [item];
    } else {
      assert (c + [item])[1..] == c[1..] + [item];
      EndsAppend(c[1..], item);
    }
  }

  /** How many ends the connection heard of in a run, less those the reader has taken. */
  ghost function EndsOwed(l: Link, events: seq<Event>): int
    requires IsRun(l, events)
    decreases events
  {
    if events == [] then 0
    else
      (if HearsEnd(l, events[0]) then 1 else 0) - (if TakesEnd(l, events[0]) then 1 else 0)
      + EndsOwed(Step(l, events[0]), events[1..])
  }

  lemma StepKeepsEnds(l: Link, e: Event)
    requires Enabled(l, e) && !e.Close?
    ensures Ends(Step(l, e).channel) + (if TakesEnd(l, e) then 1 else 0)
         == Ends(l.channel) + if HearsEnd(l, e) then 1 else 0
  {
    EndsAppend(l.channel, None);
    match e {
      case Arrive(p) => EndsAppend(l.channel, Some(p));
      case Retry => EndsAppend(l.channel, l.refused);
      case Attach => EndsAppend(l.channel, l.refused);
      case _ =>
    }
  }

  lemma {:induction false} EndsAreConserved(l: Link, events: seq<Event>)
    requires IsRun(l, events) && forall e :: e in events ==> !e.Close?
    ensures Ends(Run(l, events).channel) == Ends(l.channel) + EndsOwed(l, events)
    decreases events
  {
    hide Step, Enabled, HearsEnd, TakesEnd;
    if events != [] {
      assert events[0] in events;
      StepKeepsEnds(l, events[0]);
      EndsAreConserved(Step(l, events[0]), events[1..]);
    }
  }

  lemma {:induction false} AllAreEnds(c: seq<Option<Bytes>>)
    requires Packets(c) == [] && c != []
    ensures c[0] == None
  {
  }

  /**
   The reader learns of the end: as long as one that was heard of has not been taken, there is a
   mark in the queue, and it is what a reader that has had all the packets finds next.
   */
  lemma ReaderFindsTheEnd(events: seq<Event>)
    requires IsRun(ACCEPTED, events) && forall e :: e in events ==> !e.Close?
    requires EndsOwed(ACCEPTED, events) > 0
    ensures var l := Run(ACCEPTED, events);
            && l.channel != []
            && (l.callback.Attached? && l.returned + AsSeq(l.held) == l.arrived ==> l.channel[0] == None)
  {
    EndsAreConserved(ACCEPTED, events);
    FreshConnectionIsFaithful(events);
    var l := Run(ACCEPTED, events);
    hide Run;
    if l.callback.Attached? && l.returned + AsSeq(l.held) == l.arrived {
      assert l.delivered == l.arrived by {
        assert l.delivered + [] == l.delivered;
      }
      assert |Packets(l.channel)| == 0;
      AllAreEnds(l.channel);
    }
  }

  // ---------- An end that nobody hears of ----------

  function Packed(n: nat): seq<Event> {
    if n == 0 then [] else [Arrive([])] + Packed(n - 1)
  }

  lemma {:induction false} QueueFills(l: Link, n: nat)
    requires l.live && l.callback.Attached? && l.refused.None? && |l.channel| + n <= CHANNEL_SIZE
    ensures IsRun(l, Packed(n) + [PeerCloses])
    ensures |l.channel| + n == CHANNEL_SIZE ==> EndsOwed(l, Packed(n) + [PeerCloses]) == 0
    decreases n
  {
    var e := Packed(n) + [PeerCloses];
    if n == 0 {
      assert e == [PeerCloses] && e[1..] == [];
    } else {
      assert e[0] == Arrive([]) && e[1..] == Packed(n - 1) + [PeerCloses];
      QueueFills(Step(l, Arrive([])), n - 1);
    }
  }

  /** With twelve packets waiting, the close of the peer leaves no mark, so the reader is never told. */
  lemma AFullQueueMissesTheEnd()
    ensures var events := [Attach] + (Packed(CHANNEL_SIZE) + [PeerCloses]);
            && IsRun(ACCEPTED, events) && EndsOwed(ACCEPTED, events) == 0
            && Ends(Run(ACCEPTED, events).channel) == 0
  {
    var l := Step(ACCEPTED, Attach);
    QueueFills(l, CHANNEL_SIZE);
    var rest := Packed(CHANNEL_SIZE) + [PeerCloses];
    assert ([Attach] + rest)[1..] == rest;
    hide Packed;
    forall e | e in [Attach] + rest
      ensures !e.Close?
    {
      NoClose(CHANNEL_SIZE);
    }
    EndsAreConserved(ACCEPTED, [Attach] + rest);
  }

  lemma {:induction false} NoClose(n: nat)
    ensures forall e :: e in Packed(n) ==> !e.Close?
  {
    if n > 0 {
      NoClose(n - 1);
    }
  }
}
