/**
 Why the token bound needs handovers to arrive in time: a run in which every rule is followed,
 one ledger is created and none is claimed, and yet two machines end up owning it, because a copy
 of an old handover arrives after 24 newer messages.
 */
module LateCopies {
  import opened Wrappers
  import opened Handover
  import opened Ledgers
  import opened Dedup
  import opened TokenProtocol

  function Fresh(a: Addr, b: Addr): Net {
    Net(map[a := Peer(Machine(a, None, false), []), b := Peer(Machine(b, None, false), [])], [])
  }

  /** `x` observes its ownership, hands the ledger to `y` under `key`, and `y` receives it. */
  function Pass(x: Addr, y: Addr, key: nat): seq<Event> {
    [Iterate(x, Quiet([y])), Iterate(x, Quiet([y])), Deliver(y, key, 0)]
  }

  /** `n` heartbeats of `a` under the keys from `key` on, each received by `b`. */
  function Beats(a: Addr, b: Addr, key: nat, n: nat): seq<Event>
    decreases n
  {
    if n == 0 then [] else [Say(a, Heartbeat), Deliver(b, key, 0)] + Beats(a, b, key + 1, n - 1)
  }

  /** Two machines pass the ledger there and back; after 24 heartbeats the first handover is repeated. */
  function Script(a: Addr, b: Addr): seq<Event> {
    [Iterate(a, Quiet([b]))] + ((Pass(a, b, 1) + Pass(b, a, 2)) + (Beats(a, b, 3, WINDOW) + [Deliver(b, 1, 0)]))
  }

  lemma {:induction false} RunAppends(net: Net, e: seq<Event>, f: seq<Event>, t: Tally)
    ensures Run(net, e + f) == Run(Run(net, e), f)
    ensures CountAll(net, e + f, t) == CountAll(Run(net, e), f, CountAll(net, e, t))
    decreases e
  {
    if e == [] {
      assert e + f == f;
    } else {
      assert (e + f)[1..] == e[1..] + f;
      RunAppends(Step(net, e[0]), e[1..], f, Count(net, e[0], t));
    }
  }

  lemma RunOne(net: Net, e: Event, t: Tally)
    ensures Run(net, [e]) == Step(net, e)
    ensures CountAll(net, [e], t) == Count(net, e, t)
  {
    assert [e][1..] == [];
  }

  lemma RunThree(net: Net, e: Event, f: Event, g: Event, t: Tally)
    ensures Run(net, [e, f, g]) == Step(Step(Step(net, e), f), g)
    ensures CountAll(net, [e, f, g], t) == Count(Step(Step(net, e), f), g, Count(Step(net, e), f, Count(net, e, t)))
  {
    assert [e, f, g] == [e] + ([f] + [g]);
    RunAppends(net, [e], [f] + [g], t);
    RunOne(net, e, t);
    RunAppends(Step(net, e), [f], [g], Count(net, e, t));
    RunOne(Step(net, e), f, Count(net, e, t));
    RunOne(Step(Step(net, e), f), g, Count(Step(net, e), f, Count(net, e, t)));
  }

  lemma SendOne(net: Net, a: Addr, p: Payload)
    ensures Send(net, a, [p]) == net.(sent := net.sent + [Message(a, p)])
  {
    assert [p][1..] == [];
  }

  /** `x` has just gained the ledger, and `y` is waiting for it. */
  ghost predicate Holds(net: Net, x: Addr, y: Addr) {
    && WellFormed(net)
    && x in net.peers && y in net.peers && x != y
    && net.peers[x].machine.Owns() && !net.peers[y].machine.Owns()
    && !net.peers[x].machine.observed && !net.peers[y].machine.observed
    && net.peers[x].machine.state.value.received == 0
  }

  /** The two iterations of `x`: it observes, then names `y` in the one message it sends. */
  lemma IterationsHandOver(net: Net, x: Addr, y: Addr, t: Tally) returns (n2: Net, m: Message)
    requires Holds(net, x, y)
    ensures var n1 := Step(net, Iterate(x, Quiet([y])));
            && n2 == Step(n1, Iterate(x, Quiet([y])))
            && Count(n1, Iterate(x, Quiet([y])), Count(net, Iterate(x, Quiet([y])), t)) == t
    ensures n2.sent == net.sent + [m]
    ensures m.sender == x && m.payload.LedgerUpdate? && m.payload.ledger.owner == y
    ensures x in n2.peers && n2.peers == net.peers[x := n2.peers[x]] && n2.peers[x].accepted == net.peers[x].accepted
    ensures var p := n2.peers[x].machine; p.addr == x && !p.Owns() && !p.observed
  {
    var n1 := Step(net, Iterate(x, Quiet([y])));
    assert n1 == SetMachine(net, x, net.peers[x].machine.(observed := true));
    var o := Manage(n1.peers[x].machine, Quiet([y]));
    NextOwnerIsInBook([y], x);
    assert o.sent == [LedgerUpdate(o.machine.Ledger())];
    SendOne(SetMachine(n1, x, o.machine), x, o.sent[0]);
    n2 := Step(n1, Iterate(x, Quiet([y])));
    m := Message(x, o.sent[0]);
  }

  lemma PassMovesLedger(net: Net, x: Addr, y: Addr, t: Tally) returns (net': Net)
    requires Holds(net, x, y)
    ensures net' == Run(net, Pass(x, y, |net.sent|)) && CountAll(net, Pass(x, y, |net.sent|), t) == t
    ensures Holds(net', y, x)
    ensures net'.peers.Keys == net.peers.Keys
    ensures exists m :: net'.sent == net.sent + [m]
                     && m.sender == x && m.payload.LedgerUpdate? && m.payload.ledger.owner == y
    ensures net'.peers[x].accepted == net.peers[x].accepted
    ensures net'.peers[y].accepted == net.peers[y].accepted + [|net.sent|]
  {
    hide Manage;
    var key := |net.sent|;
    RunThree(net, Iterate(x, Quiet([y])), Iterate(x, Quiet([y])), Deliver(y, key, 0), t);
    var n2, m := IterationsHandOver(net, x, y, t);
    assert key !in net.peers[y].accepted;
    assert TokenProtocol.Accepts(n2, y, key);
    net' := Step(n2, Deliver(y, key, 0));
    assert net'.sent == net.sent + [m];
    assert Count(n2, Deliver(y, key, 0), t) == t;
  }

  function Keys(from: nat, n: nat): seq<nat> {
    seq(n, i requires 0 <= i < n => from + i)
  }

  lemma BeatIsHeard(net: Net, a: Addr, b: Addr, t: Tally) returns (net': Net)
    requires WellFormed(net) && a in net.peers && b in net.peers && a != b
    ensures var n1 := Step(net, Say(a, Heartbeat));
            && net' == Step(n1, Deliver(b, |net.sent|, 0))
            && Count(n1, Deliver(b, |net.sent|, 0), Count(net, Say(a, Heartbeat), t)) == t
    ensures WellFormed(net') && net'.sent == net.sent + [Message(a, Heartbeat)]
    ensures net'.peers == net.peers[b := net.peers[b].(accepted := net.peers[b].accepted + [|net.sent|])]
  {
    var key := |net.sent|;
    SendOne(net, a, Heartbeat);
    var n1 := Step(net, Say(a, Heartbeat));
    assert key !in net.peers[b].accepted;
    assert TokenProtocol.Accepts(n1, b, key);
    net' := Step(n1, Deliver(b, key, 0));
  }

  lemma {:induction false} BeatsFillHistory(net: Net, a: Addr, b: Addr, n: nat, t: Tally) returns (net': Net)
    requires WellFormed(net) && a in net.peers && b in net.peers && a != b
    ensures net' == Run(net, Beats(a, b, |net.sent|, n)) && CountAll(net, Beats(a, b, |net.sent|, n), t) == t
    ensures WellFormed(net') && net'.peers.Keys == net.peers.Keys
    ensures net'.peers[a] == net.peers[a] && net'.peers[b].machine == net.peers[b].machine
    ensures net.sent <= net'.sent
    ensures net'.peers[b].accepted == net.peers[b].accepted + Keys(|net.sent|, n)
    decreases n
  {
    hide Step, Count, WellFormed;
    if n == 0 {
      net' := net;
    } else {
      var key, heard := |net.sent|, net.peers[b].accepted;
      var n1 := Step(net, Say(a, Heartbeat));
      var n2 := BeatIsHeard(net, a, b, t);
      var rest := Beats(a, b, key + 1, n - 1);
      assert Beats(a, b, key, n) == [Say(a, Heartbeat)] + ([Deliver(b, key, 0)] + rest);
      RunAppends(net, [Say(a, Heartbeat)], [Deliver(b, key, 0)] + rest, t);
      RunOne(net, Say(a, Heartbeat), t);
      RunAppends(n1, [Deliver(b, key, 0)], rest, Count(net, Say(a, Heartbeat), t));
      RunOne(n1, Deliver(b, key, 0), Count(net, Say(a, Heartbeat), t));
      net' := BeatsFillHistory(n2, a, b, n - 1, t);
      assert heard + Keys(key, n) == heard + [key] + Keys(key + 1, n - 1);
    }
  }

  function Created(a: Addr, b: Addr): Net {
    Step(Fresh(a, b), Iterate(a, Quiet([b])))
  }

  lemma CreationSetsOff(a: Addr, b: Addr)
    requires a != b
    ensures Holds(Created(a, b), a, b) && Created(a, b).peers.Keys == {a, b}
    ensures |Created(a, b).sent| == 1
    ensures Created(a, b).peers[a].accepted == [] && Created(a, b).peers[b].accepted == []
    ensures Count(Fresh(a, b), Iterate(a, Quiet([b])), Tally(0, 0, 0, 0)) == Tally(1, 0, 0, 0)
  {
    var n0, ledger := Fresh(a, b), Ledger(a, []);
    var m := Machine(a, Some(LedgerState(ledger, 0)), false);
    SendOne(SetMachine(n0, a, m), a, LedgerUpdate(ledger));
    assert Manage(n0.peers[a].machine, Quiet([b])) == Outcome(m, [LedgerUpdate(ledger)], None);
  }

  lemma LateCopyIsAccepted(net: Net, a: Addr, b: Addr, t: Tally)
    requires net.peers.Keys == {a, b} && a != b && |net.sent| > 1
    requires net.peers[a].machine.Owns() && !net.peers[b].machine.Owns()
    requires net.peers[b].machine.addr == b
    requires net.peers[b].accepted == [1] + Keys(3, WINDOW)
    requires net.sent[1].sender == a && net.sent[1].payload.LedgerUpdate? && net.sent[1].payload.ledger.owner == b
    ensures Owners(Step(net, Deliver(b, 1, 0))) == {a, b}
    ensures Count(net, Deliver(b, 1, 0), t) == t.(replayed := t.replayed + 1)
  {
    var accepted := net.peers[b].accepted;
    assert Window(accepted) == accepted[1..];
    assert accepted[0] == 1;
    assert Step(net, Deliver(b, 1, 0)).peers[b].machine.Owns();
  }

  /** `a` owns the ledger again, and `b` has processed the handover with key 1. */
  ghost predicate BackHome(net: Net, a: Addr, b: Addr) {
    && Holds(net, a, b)
    && net.peers.Keys == {a, b} && |net.sent| == 3
    && net.peers[b].accepted == [1]
    && net.sent[1].sender == a && net.sent[1].payload.LedgerUpdate? && net.sent[1].payload.ledger.owner == b
  }

  lemma ThereAndBack(a: Addr, b: Addr, t: Tally)
    requires a != b
    ensures BackHome(Run(Created(a, b), Pass(a, b, 1) + Pass(b, a, 2)), a, b)
    ensures CountAll(Created(a, b), Pass(a, b, 1) + Pass(b, a, 2), t) == t
  {
    CreationSetsOff(a, b);
    RunAppends(Created(a, b), Pass(a, b, 1), Pass(b, a, 2), t);
    var n2 := PassMovesLedger(Created(a, b), a, b, t);
    var n3 := PassMovesLedger(n2, b, a, t);
    assert n3.sent[1] == n2.sent[1];
  }

  lemma FloodThenLateCopy(net: Net, a: Addr, b: Addr, t: Tally)
    requires BackHome(net, a, b)
    ensures Owners(Run(net, Beats(a, b, 3, WINDOW) + [Deliver(b, 1, 0)])) == {a, b}
    ensures CountAll(net, Beats(a, b, 3, WINDOW) + [Deliver(b, 1, 0)], t) == t.(replayed := t.replayed + 1)
  {
    RunAppends(net, Beats(a, b, 3, WINDOW), [Deliver(b, 1, 0)], t);
    var net' := BeatsFillHistory(net, a, b, WINDOW, t);
    RunOne(net', Deliver(b, 1, 0), t);
    LateCopyIsAccepted(net', a, b, t);
  }

  /** Two owners from one creation and no takeover: the late copy is what the tally calls a replay. */
  lemma ALateCopyMakesASecondOwner(a: Addr, b: Addr)
    requires a != b
    ensures Init(Fresh(a, b))
    ensures Owners(Run(Fresh(a, b), Script(a, b))) == {a, b}
    ensures CountAll(Fresh(a, b), Script(a, b), Tally(0, 0, 0, 0)) == Tally(1, 0, 1, 0)
  {
    var create := [Iterate(a, Quiet([b]))];
    var passes, rest := Pass(a, b, 1) + Pass(b, a, 2), Beats(a, b, 3, WINDOW) + [Deliver(b, 1, 0)];
    RunAppends(Fresh(a, b), create, passes + rest, Tally(0, 0, 0, 0));
    RunOne(Fresh(a, b), create[0], Tally(0, 0, 0, 0));
    CreationSetsOff(a, b);
    RunAppends(Created(a, b), passes, rest, Tally(1, 0, 0, 0));
    ThereAndBack(a, b, Tally(1, 0, 0, 0));
    FloodThenLateCopy(Run(Created(a, b), passes), a, b, Tally(1, 0, 0, 0));
  }
}
