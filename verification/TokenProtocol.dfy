/**
 The token ring over an asynchronous network that loses, delays, reorders and repeats datagrams.

 The network is the list of everything ever sent; a message's place in that list is its
 idempotency key, so the repeats of one send share a key and keys are never reused. Delivery picks
 any message of another machine, any number of times, or never. No machine hears itself.
 */
module TokenProtocol {
  import opened Collections
  import opened Wrappers
  import opened Handover
  import opened Uuids
  import opened Ledgers
  import opened Dedup

  datatype Message = Message(sender: Addr, payload: Payload) {
    /** The sender gives the ledger to another machine. */
    predicate IsHandover() {
      payload.LedgerUpdate? && payload.ledger.owner != sender
    }
  }

  datatype Peer = Peer(machine: Machine, accepted: seq<nat>)

  datatype Net = Net(peers: map<Addr, Peer>, sent: seq<Message>)

  datatype Event =
    | Iterate(at: Addr, scene: Scene)
    | Submit(at: Addr, guid: Uuid)
    | Say(at: Addr, payload: Payload)
    | Deliver(at: Addr, key: nat, now: int)

  function Send(net: Net, a: Addr, payloads: seq<Payload>): Net
    decreases payloads
  {
    if payloads == [] then net
    else Send(net.(sent := net.sent + [Message(a, payloads[0])]), a, payloads[1..])
  }

  function SetMachine(net: Net, a: Addr, m: Machine): Net
    requires a in net.peers
  {
    net.(peers := net.peers[a := net.peers[a].(machine := m)])
  }

  /** A delivery that the receiver's history does not drop. */
  predicate Accepts(net: Net, a: Addr, key: nat) {
    && a in net.peers && key < |net.sent| && net.sent[key].sender != a
    && key !in Window(net.peers[a].accepted)
  }

  /** Events that the code does not allow leave the network alone. */
  function Step(net: Net, e: Event): Net {
    if e.at !in net.peers then net
    else
      var p := net.peers[e.at];
      match e
      case Iterate(a, scene) =>
        var o := Manage(p.machine, scene);
        Send(SetMachine(net, a, o.machine), a, o.sent)
      case Submit(a, g) => SetMachine(net, a, Record(p.machine, g))
      case Say(a, payload) => if payload.LedgerUpdate? then net else Send(net, a, [payload])
      case Deliver(a, key, now) =>
        if !Accepts(net, a, key) then net
        else net.(peers := net.peers[a := Peer(Receive(p.machine, net.sent[key].payload, now), p.accepted + [key])])
  }

  function Run(net: Net, events: seq<Event>): Net
    decreases events
  {
    if events == [] then net else Run(Step(net, events[0]), events[1..])
  }

  /** Every machine has just started. */
  ghost predicate Init(net: Net) {
    && net.sent == []
    && forall a :: a in net.peers ==> net.peers[a] == Peer(Machine(a, None, false), [])
  }

  // ---------- Counting tokens ----------

  /** The machines that believe they own the ledger. */
  ghost function Owners(net: Net): set<Addr> {
    set a | a in net.peers && net.peers[a].machine.Owns()
  }

  ghost predicate Awaited(net: Net, key: nat)
    requires key < |net.sent|
  {
    && net.sent[key].IsHandover()
    && var target := net.sent[key].payload.ledger.owner;
       !(target in net.peers && key in net.peers[target].accepted)
  }

  /** The handovers that the machine they name has not yet processed. */
  ghost function Pending(net: Net): set<nat> {
    set key | 0 <= key < |net.sent| && Awaited(net, key)
  }

  /**
   What happened to tokens so far: made by a machine without a ledger, claimed from a stale ledger,
   made again by a late copy of an old handover, and destroyed because an owner was overwritten or
   was handed a second one.
   */
  datatype Tally = Tally(created: nat, taken: nat, replayed: nat, destroyed: nat)

  function Bit(b: bool): nat {
    if b then 1 else 0
  }

  function Count(net: Net, e: Event, t: Tally): Tally {
    if e.at !in net.peers then t
    else
      var m := net.peers[e.at].machine;
      match e
      case Iterate(a, scene) =>
        if !scene.hasAddress then t
        else if m.state.None? then t.(created := t.created + 1)
        else t.(taken := t.taken + Bit(!m.Owns() && TakeOver(m, scene).Owns()))
      case Deliver(a, key, now) =>
        if !Accepts(net, a, key) || !net.sent[key].payload.LedgerUpdate? then t
        else
          var toMe := net.sent[key].payload.ledger.owner == a;
          var again := key in net.peers[a].accepted;
          t.(replayed := t.replayed + Bit(toMe && again && !m.Owns()),
             destroyed := t.destroyed + Bit(m.Owns() && !(toMe && again)))
      case _ => t
  }

  function CountAll(net: Net, events: seq<Event>, t: Tally): Tally
    decreases events
  {
    if events == [] then t else CountAll(Step(net, events[0]), events[1..], Count(net, events[0], t))
  }

  ghost predicate WellFormed(net: Net) {
    forall a :: a in net.peers ==>
      && net.peers[a].machine.addr == a
      && forall key :: key in net.peers[a].accepted ==> key < |net.sent|
  }

  ghost predicate Balanced(net: Net, t: Tally) {
    |Owners(net)| + |Pending(net)| + t.destroyed == t.created + t.taken + t.replayed
  }

  /**
   What the tally counts, by its effects: a creation is an iteration that leaves a machine with its
   first ledger, a takeover one that changes anything although another machine's ledger was held,
   and a token is destroyed when a ledger costs its owner the ownership, or is a second one for it.
   */
  lemma TallyCountsEffects(net: Net, e: Event, t: Tally)
    requires WellFormed(net) && e.at in net.peers
    ensures e.at in Step(net, e).peers
    ensures var m, m', t' := net.peers[e.at].machine, Step(net, e).peers[e.at].machine, Count(net, e, t);
            && t'.created == t.created + Bit(m.state.None? && m'.state.Some? && e.Iterate?)
            && t'.taken == t.taken + Bit(e.Iterate? && m.state.Some? && !m.Owns() && Step(net, e) != net)
            && (t'.destroyed != t.destroyed ==> m.Owns() && e.Deliver? && Accepts(net, e.at, e.key))
            && (m.Owns() && e.Deliver? && !m'.Owns() ==> t'.destroyed == t.destroyed + 1)
  {
    var m := net.peers[e.at].machine;
    if e.Iterate? {
      var o := Manage(m, e.scene);
      SendsAreKept(SetMachine(net, e.at, o.machine), e.at, o.sent);
      assert o == Outcome(m, [], None) ==> SetMachine(net, e.at, m) == net;
    } else if e.Say? && !e.payload.LedgerUpdate? {
      SendsAreKept(net, e.at, [e.payload]);
    }
  }

  /** Jobs reach ledgers that have room: a submission at its owner, an announcement wherever it is accepted. */
  lemma JobsReachLedgers(net: Net, e: Event, g: Uuid)
    requires e.at in net.peers && net.peers[e.at].machine.state.Some? && |net.peers[e.at].machine.Jobs()| < 8
    requires || (e.Submit? && e.guid == g && net.peers[e.at].machine.Owns())
             || (e.Deliver? && Accepts(net, e.at, e.key) && net.sent[e.key].payload == NewJob(g))
    ensures var p := Step(net, e).peers[e.at];
            && p.machine.state.Some? && g in p.machine.Jobs() && net.peers[e.at].machine.Jobs() <= p.machine.Jobs()
            && (p.machine.Owns() <==> net.peers[e.at].machine.Owns())
            && Step(net, e) == net.(peers := net.peers[e.at := p])
  {
    assert e.Submit? ==> Step(net, e).peers[e.at].accepted == net.peers[e.at].accepted;
  }

  lemma {:induction false} SendsAreKept(net: Net, a: Addr, payloads: seq<Payload>)
    ensures Send(net, a, payloads).peers == net.peers
    ensures |Send(net, a, payloads).sent| == |net.sent| + |payloads|
    decreases payloads
  {
    if payloads != [] {
      SendsAreKept(net.(sent := net.sent + [Message(a, payloads[0])]), a, payloads[1..]);
    }
  }

  // ---------- What each step does to the count ----------

  function Handovers(a: Addr, payloads: seq<Payload>): nat {
    if payloads == [] then 0
    else Bit(Message(a, payloads[0]).IsHandover()) + Handovers(a, payloads[1..])
  }

  /** An iteration neither loses nor copies the token: it keeps it or names one other machine. */
  lemma IterationKeepsToken(m: Machine, s: Scene)
    ensures var o := Manage(m, s);
            && o.machine.addr == m.addr
            && Bit(o.machine.Owns()) + Handovers(m.addr, o.sent)
            == Bit(m.Owns()) + Bit(s.hasAddress && (m.state.None? || (!m.Owns() && TakeOver(m, s).Owns())))
  {
    var o := Manage(m, s);
    if o.sent != [] {
      assert Handovers(m.addr, o.sent[1..])
          == if |o.sent| == 1 then 0 else Bit(Message(m.addr, o.sent[1]).IsHandover());
    }
  }

  lemma SetMachineMovesOwnership(net: Net, a: Addr, p: Peer)
    requires a in net.peers
    ensures var net' := net.(peers := net.peers[a := p]);
            |Owners(net')| + Bit(net.peers[a].machine.Owns()) == |Owners(net)| + Bit(p.machine.Owns())
  {
    var net' := net.(peers := net.peers[a := p]);
    assert Owners(net') - {a} == Owners(net) - {a};
    WithoutOne(Owners(net), a);
    WithoutOne(Owners(net'), a);
  }

  lemma WithoutOne<T>(s: set<T>, x: T)
    ensures |s| == |s - {x}| + Bit(x in s)
  {
    assert x !in s ==> s - {x} == s;
  }

  lemma {:induction false} SendAddsHandovers(net: Net, a: Addr, payloads: seq<Payload>)
    requires WellFormed(net)
    ensures WellFormed(Send(net, a, payloads))
    ensures Send(net, a, payloads).peers == net.peers
    ensures |Pending(Send(net, a, payloads))| == |Pending(net)| + Handovers(a, payloads)
    decreases payloads
  {
    if payloads != [] {
      var net' := net.(sent := net.sent + [Message(a, payloads[0])]);
      var key := |net.sent|;
      forall k | 0 <= k < key
        ensures Awaited(net', k) == Awaited(net, k)
      {
      }
      assert Pending(net') - {key} == Pending(net);
      assert Awaited(net', key) == net'.sent[key].IsHandover();
      SendAddsHandovers(net', a, payloads[1..]);
    }
  }

  lemma AcceptChangesOneKey(net: Net, a: Addr, key: nat, p: Peer, k: nat)
    requires a in net.peers && key < |net.sent| && k < |net.sent|
    requires p.accepted == net.peers[a].accepted + [key]
    ensures var net' := net.(peers := net.peers[a := p]);
            && (k != key ==> Awaited(net', k) == Awaited(net, k))
            && (k == key ==> Awaited(net', k) == (Awaited(net, k) && net.sent[k].payload.ledger.owner != a))
  {
  }

  /** Accepting a handover at the machine it names takes it off the pending list, once. */
  lemma AcceptSettlesHandover(net: Net, a: Addr, key: nat, p: Peer)
    requires a in net.peers && key < |net.sent| && net.sent[key].sender != a
    requires p.accepted == net.peers[a].accepted + [key]
    ensures var net' := net.(peers := net.peers[a := p]);
            var first := net.sent[key].payload.LedgerUpdate? && net.sent[key].payload.ledger.owner == a
                      && key !in net.peers[a].accepted;
            |Pending(net')| + Bit(first) == |Pending(net)|
  {
    var net' := net.(peers := net.peers[a := p]);
    var first := net.sent[key].payload.LedgerUpdate? && net.sent[key].payload.ledger.owner == a
              && key !in net.peers[a].accepted;
    assert Awaited(net, key) && net.sent[key].payload.ledger.owner == a <==> first;
    hide Awaited;
    forall k: nat | k < |net.sent|
      ensures k in Pending(net') <==> k in Pending(net) && !(k == key && first)
    {
      AcceptChangesOneKey(net, a, key, p, k);
    }
    assert Pending(net') == if first then Pending(net) - {key} else Pending(net);
  }

  lemma PendingIgnoresMachines(net: Net, a: Addr, m: Machine)
    requires a in net.peers
    ensures Pending(SetMachine(net, a, m)) == Pending(net)
  {
    forall k: nat | k < |net.sent|
      ensures Awaited(SetMachine(net, a, m), k) == Awaited(net, k)
    {
    }
  }

  lemma StepKeepsBalance(net: Net, e: Event, t: Tally)
    requires WellFormed(net) && Balanced(net, t)
    ensures WellFormed(Step(net, e)) && Balanced(Step(net, e), Count(net, e, t))
  {
    if e.at in net.peers {
      match e {
        case Iterate(a, scene) => IterateKeepsBalance(net, a, scene, t);
        case Submit(a, g) =>
          SetMachineMovesOwnership(net, a, net.peers[a].(machine := Record(net.peers[a].machine, g)));
          PendingIgnoresMachines(net, a, Record(net.peers[a].machine, g));
        case Say(a, payload) =>
          SendAddsHandovers(net, a, [payload]);
        case Deliver(a, key, now) =>
          if Accepts(net, a, key) {
            DeliverKeepsBalance(net, a, key, now, t);
          }
      }
    }
  }

  lemma IterateKeepsBalance(net: Net, a: Addr, scene: Scene, t: Tally)
    requires WellFormed(net) && Balanced(net, t) && a in net.peers
    ensures WellFormed(Step(net, Iterate(a, scene)))
    ensures Balanced(Step(net, Iterate(a, scene)), Count(net, Iterate(a, scene), t))
  {
    var m := net.peers[a].machine;
    var o := Manage(m, scene);
    IterationKeepsToken(m, scene);
    SetMachineMovesOwnership(net, a, net.peers[a].(machine := o.machine));
    PendingIgnoresMachines(net, a, o.machine);
    var net' := SetMachine(net, a, o.machine);
    SendAddsHandovers(net', a, o.sent);
    assert Owners(Send(net', a, o.sent)) == Owners(net');
  }

  lemma DeliverKeepsBalance(net: Net, a: Addr, key: nat, now: int, t: Tally)
    requires WellFormed(net) && Balanced(net, t) && Accepts(net, a, key)
    ensures WellFormed(Step(net, Deliver(a, key, now)))
    ensures Balanced(Step(net, Deliver(a, key, now)), Count(net, Deliver(a, key, now), t))
  {
    var p := net.peers[a];
    var p' := Peer(Receive(p.machine, net.sent[key].payload, now), p.accepted + [key]);
    SetMachineMovesOwnership(net, a, p');
    AcceptSettlesHandover(net, a, key, p');
  }

  // ---------- Every run ----------

  /**
   Token accounting, with no assumption on the network: owners, handovers in flight and destroyed
   tokens together are exactly the tokens made.
   */
  lemma {:induction false} TokensAreAccountedFor(net: Net, events: seq<Event>, t: Tally)
    requires WellFormed(net) && Balanced(net, t)
    ensures WellFormed(Run(net, events))
    ensures Balanced(Run(net, events), CountAll(net, events, t))
    decreases events
  {
    if events != [] {
      StepKeepsBalance(net, events[0], t);
      TokensAreAccountedFor(Step(net, events[0]), events[1..], Count(net, events[0], t));
    }
  }

  /**
   A copy of a handover reaches the machine it names, which processed it before, has forgotten its
   key since, and does not own the ledger now.
   */
  ghost predicate IsReplay(net: Net, e: Event) {
    && e.Deliver? && e.at in net.peers && e.key < |net.sent| && net.sent[e.key].sender != e.at
    && net.sent[e.key].payload.LedgerUpdate? && net.sent[e.key].payload.ledger.owner == e.at
    && e.key in net.peers[e.at].accepted && Since(net.peers[e.at].accepted, e.key) >= WINDOW
    && !net.peers[e.at].machine.Owns()
  }

  ghost predicate HasNoReplay(net: Net, events: seq<Event>)
    decreases events
  {
    events == [] || (!IsReplay(net, events[0]) && HasNoReplay(Step(net, events[0]), events[1..]))
  }

  lemma ReplayIsCounted(net: Net, e: Event, t: Tally)
    ensures Count(net, e, t).replayed == t.replayed + Bit(IsReplay(net, e))
  {
    if e.Deliver? && e.at in net.peers && e.key < |net.sent| {
      DroppedIffRecent(net.peers[e.at].accepted, e.key);
    }
  }

  lemma {:induction false} ReplaysOnlyGrow(net: Net, events: seq<Event>, t: Tally)
    ensures CountAll(net, events, t).replayed >= t.replayed
    decreases events
  {
    hide Count, Step;
    if events != [] {
      ReplayIsCounted(net, events[0], t);
      ReplaysOnlyGrow(Step(net, events[0]), events[1..], Count(net, events[0], t));
    }
  }

  /** Tokens are replayed exactly by late copies that reach a machine without the ledger. */
  lemma {:induction false} ReplayedIffLateCopy(net: Net, events: seq<Event>, t: Tally)
    ensures CountAll(net, events, t).replayed == t.replayed <==> HasNoReplay(net, events)
    decreases events
  {
    hide Count, Step, IsReplay;
    if events != [] {
      var net', t' := Step(net, events[0]), Count(net, events[0], t);
      ReplayIsCounted(net, events[0], t);
      ReplayedIffLateCopy(net', events[1..], t');
      ReplaysOnlyGrow(net', events[1..], t');
    }
  }

  const NOTHING_YET := Tally(0, 0, 0, 0)

  /**
   Exactly when owners and handovers in flight stay within the tokens created and claimed: no more
   tokens have been replayed by late copies than destroyed. Loss, delay and reordering do not matter.
   */
  lemma TokensWithinCreationsIff(net: Net, events: seq<Event>)
    requires Init(net)
    ensures var t := CountAll(net, events, NOTHING_YET);
            |Owners(Run(net, events))| + |Pending(Run(net, events))| <= t.created + t.taken
            <==> t.replayed <= t.destroyed
  {
    assert Owners(net) == {} && Pending(net) == {};
    TokensAreAccountedFor(net, events, NOTHING_YET);
  }

  /** Without such late copies there are never more tokens than were created or claimed. */
  lemma TokensNeverExceedCreations(net: Net, events: seq<Event>)
    requires Init(net) && HasNoReplay(net, events)
    ensures var t := CountAll(net, events, NOTHING_YET);
            |Owners(Run(net, events))| + |Pending(Run(net, events))| <= t.created + t.taken
  {
    TokensWithinCreationsIff(net, events);
    ReplayedIffLateCopy(net, events, NOTHING_YET);
  }

  /** With one creation and no takeover, no two machines ever believe they own the ledger. */
  lemma OneCreationMeansOneOwner(net: Net, events: seq<Event>, a: Addr, b: Addr)
    requires Init(net) && HasNoReplay(net, events)
    requires var t := CountAll(net, events, NOTHING_YET); t.created == 1 && t.taken == 0
    requires a in Owners(Run(net, events)) && b in Owners(Run(net, events))
    ensures a == b
  {
    TokensNeverExceedCreations(net, events);
    SubsetIsNoLarger({a, b}, Owners(Run(net, events)));
  }
}
