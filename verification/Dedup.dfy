/**
 Duplicate suppression: a 24-entry history of message keys, kept as a ring in an array, and the
 proof that it is a sliding window over the keys accepted so far.
 */
module Dedup {
  import opened Collections

  const WINDOW := 24

  function Window<K>(accepted: seq<K>): seq<K> {
    if |accepted| <= WINDOW then accepted else accepted[|accepted| - WINDOW..]
  }

  /** The keys accepted once one more message has arrived. */
  function Offer<K(==)>(accepted: seq<K>, key: K): seq<K> {
    if key in Window(accepted) then accepted else accepted + [key]
  }

  /** The keys accepted once a run of messages has arrived. */
  function OfferAll<K(==)>(accepted: seq<K>, arrivals: seq<K>): seq<K>
    decreases arrivals
  {
    if arrivals == [] then accepted else OfferAll(Offer(accepted, arrivals[0]), arrivals[1..])
  }

  class History<K(==, 0)> {
    var data: array<K>
    var writeAt: nat
    var filled: bool
    ghost var written: seq<K>
    ghost var laps: nat

    /** The keys before `writeAt` are from this lap round the ring, the others from the lap before. */
    ghost predicate Valid()
      reads this, data
    {
      && data.Length == WINDOW && writeAt < WINDOW
      && |written| == laps * WINDOW + writeAt
      && filled == (laps > 0)
      && (forall i :: 0 <= i < writeAt ==> data[i] == written[laps * WINDOW + i])
      && (laps > 0 ==> forall i :: writeAt <= i < WINDOW ==> data[i] == written[(laps - 1) * WINDOW + i])
    }

    constructor ()
      ensures Valid() && written == [] && fresh(data)
    {
      data := new K[WINDOW];
      writeAt, filled, written, laps := 0, false, [], 0;
    }

    method Contains(key: K) returns (found: bool)
      requires Valid()
      ensures found <==> key in Window(written)
    {
      var len := if filled then WINDOW else writeAt;
      SlotsAreWindow(key);
      found := false;
      for i := 0 to len
        invariant !found
        invariant forall j :: 0 <= j < i ==> data[j] != key
      {
        if data[i] == key {
          return true;
        }
      }
    }

    /** The slots in use hold the last keys written. */
    lemma SlotsAreWindow(key: K)
      requires Valid()
      ensures key in Window(written) <==> exists i :: 0 <= i < (if filled then WINDOW else writeAt) && data[i] == key
    {
      var w, n := Window(written), |written|;
      assert |w| == if filled then WINDOW else writeAt;
      forall i | 0 <= i < |w|
        ensures data[i] in w
      {
        var p := if i < writeAt then laps * WINDOW + i else (laps - 1) * WINDOW + i;
        assert w[p - (n - |w|)] == data[i];
      }
      forall k | 0 <= k < |w|
        ensures exists i :: 0 <= i < |w| && data[i] == w[k]
      {
        var p := n - |w| + k;
        var i := if p >= laps * WINDOW then p - laps * WINDOW else p - (laps - 1) * WINDOW;
        assert data[i] == w[k];
      }
    }

    method Write(key: K)
      requires Valid()
      modifies this, data
      ensures Valid() && data == old(data)
      ensures written == old(written) + [key]
    {
      data[writeAt] := key;
      writeAt := writeAt + 1;
      written := written + [key];
      if writeAt == WINDOW {
        writeAt := 0;
        filled := true;
        laps := laps + 1;
      }
    }

    /** The first lines of the receive loop: true when the message is to be handled. */
    method Admit(key: K) returns (isNew: bool)
      requires Valid()
      modifies this, data
      ensures Valid() && data == old(data)
      ensures isNew == (key !in Window(old(written)))
      ensures written == Offer(old(written), key)
    {
      var seen := Contains(key);
      if !seen {
        Write(key);
      }
      isNew := !seen;
    }
  }

  /** How many keys were accepted after the last acceptance of `key`. */
  function Since<K(==)>(accepted: seq<K>, key: K): nat
    requires key in accepted
  {
    var last := |accepted| - 1;
    if accepted[last] == key then 0 else 1 + Since(accepted[..last], key)
  }

  /** A copy is dropped exactly when fewer than 24 keys were accepted after its last acceptance. */
  lemma {:induction false} DroppedIffRecent<K>(accepted: seq<K>, key: K)
    ensures key in Window(accepted) <==> key in accepted && Since(accepted, key) < 24
  {
    if key in accepted {
      SinceIsDistance(accepted, key);
      var i := |accepted| - 1 - Since(accepted, key);
      if Since(accepted, key) < WINDOW {
        assert Window(accepted)[i - (|accepted| - |Window(accepted)|)] == key;
      }
    }
  }

  lemma {:induction false} SinceIsDistance<K>(accepted: seq<K>, key: K)
    requires key in accepted
    ensures Since(accepted, key) < |accepted|
    ensures var i := |accepted| - 1 - Since(accepted, key);
            accepted[i] == key && forall j :: i < j < |accepted| ==> accepted[j] != key
  {
    var last := |accepted| - 1;
    if accepted[last] != key {
      SinceIsDistance(accepted[..last], key);
    }
  }

  /** Whatever arrives, the history never holds a key twice. */
  lemma {:induction false} WindowStaysDistinct<K>(accepted: seq<K>, arrivals: seq<K>)
    requires NoDuplicates(Window(accepted))
    ensures NoDuplicates(Window(OfferAll(accepted, arrivals)))
    decreases arrivals
  {
    if arrivals != [] {
      var w, w' := Window(accepted), Window(accepted + [arrivals[0]]);
      assert w' == w[|w| + 1 - |w'|..] + [arrivals[0]];
      WindowStaysDistinct(Offer(accepted, arrivals[0]), arrivals[1..]);
    }
  }

  function Others<K(==)>(arrivals: seq<K>, key: K): nat {
    if arrivals == [] then 0
    else (if arrivals[0] == key then 0 else 1) + Others(arrivals[1..], key)
  }

  /**
   The copies of one send are handled once when they arrive among fewer than 24 other messages:
   of `key` and everything that arrives after it, `key` is accepted exactly once.
   */
  lemma RepeatsAreHandledOnce<K>(accepted: seq<K>, key: K, rest: seq<K>)
    requires key !in Window(accepted)
    requires Others(rest, key) < WINDOW
    ensures exists later :: OfferAll(accepted, [key] + rest) == accepted + [key] + later && key !in later
  {
    assert ([key] + rest)[1..] == rest;
    assert accepted + [key] == accepted + [key] + [];
    var later := OfferAllAfter(accepted, key, [], rest);
    assert OfferAll(accepted, [key] + rest) == accepted + [key] + later;
  }

  lemma {:induction false} OfferAllAfter<K>(accepted: seq<K>, key: K, shorter: seq<K>, rest: seq<K>)
    returns (later: seq<K>)
    requires key !in shorter && |shorter| + Others(rest, key) < WINDOW
    ensures OfferAll(accepted + [key] + shorter, rest) == accepted + [key] + later
    ensures key !in later
    decreases rest
  {
    if rest == [] {
      later := shorter;
    } else {
      var longer := OfferAfter(accepted, key, shorter, rest[0]);
      later := OfferAllAfter(accepted, key, longer, rest[1..]);
    }
  }

  lemma OfferAfter<K>(accepted: seq<K>, key: K, shorter: seq<K>, k: K) returns (later: seq<K>)
    requires key !in shorter && |shorter| < WINDOW
    ensures Offer(accepted + [key] + shorter, k) == accepted + [key] + later
    ensures key !in later && |later| <= |shorter| + if k == key then 0 else 1
  {
    var all := accepted + [key] + shorter;
    if k == key {
      assert Window(all)[|Window(all)| - 1 - |shorter|] == key;
      later := shorter;
    } else {
      later := if k in Window(all) then shorter else shorter + [k];
      assert all + [k] == accepted + [key] + (shorter + [k]);
    }
  }
}
