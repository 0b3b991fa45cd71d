/**
 The time driver: a 64-bit clock kept from a 32-bit tick counter that wraps, and the bounded wait
 computed from it. `total` is the true number of ticks since boot, which the hardware reports
 modulo 2^32.
 */
module TimeDriver {
  import opened Arithmetic

  const WORD := 0x1_0000_0000
  const LONG := 0x1_0000_0000_0000_0000

  datatype Cells = Cells(timekeeper: nat, freeRtosNow: nat)

  /** Subtraction on `u32` that wraps. */
  function WrappingSub(a: nat, b: nat): nat {
    (a - b) % WORD
  }

  /** What one reading of the clock makes of the two cells. */
  function Advance(c: Cells, tick: nat): Cells {
    var diff := WrappingSub(tick, c.freeRtosNow);
    if diff > 0 then Cells((c.timekeeper + diff) % LONG, tick) else c
  }

  class Driver {
    var timekeeper: nat
    var freeRtosNow: nat

    constructor ()
      ensures View() == Cells(0, 0)
    {
      timekeeper, freeRtosNow := 0, 0;
    }

    function View(): Cells
      reads this
    {
      Cells(timekeeper, freeRtosNow)
    }

    method Now(tick: nat) returns (now: nat)
      modifies this
      ensures View() == Advance(old(View()), tick) && now == timekeeper
    {
      var diff := WrappingSub(tick, freeRtosNow);
      if diff > 0 {
        freeRtosNow := tick;
        timekeeper := (timekeeper + diff) % LONG;
      }
      now := timekeeper;
    }

    /**
     The number of ticks the executor asks to sleep. The clock is read three times; the timer queue
     answers `expiry`, which is the largest 64-bit value when nothing is scheduled.
     */
    method WaitForInterruptOrTimeout(tick0: nat, tick1: nat, tick2: nat, expiry: nat) returns (wait: nat)
      requires expiry < LONG
      modifies this
      ensures View() == Advance(Advance(Advance(old(View()), tick0), tick1), tick2)
      ensures var now := Advance(old(View()), tick0).timekeeper;
              && (expiry <= now ==> wait == 0)
              && (expiry > now && expiry - now < WORD ==> now + wait == expiry)
              && (expiry > now && expiry - now >= WORD ==> wait == WORD - 1)
    {
      hide Advance;
      var now := Now(tick0);
      var _ := Now(tick1);
      var diff := SaturatingSub(expiry, now);
      diff := Min(diff, WORD - 1);
      wait := diff % WORD;
      var _ := Now(tick2);
    }
  }

  // ---------- Runs of readings ----------

  function AdvanceAll(c: Cells, totals: seq<nat>): Cells
    decreases totals
  {
    if totals == [] then c else AdvanceAll(Advance(c, totals[0] % WORD), totals[1..])
  }

  /** The readings come at true times that do not decrease, before the 64-bit clock could overflow. */
  ghost predicate IsTimeline(from: nat, totals: seq<nat>)
    decreases totals
  {
    totals == [] || (from <= totals[0] < LONG && IsTimeline(totals[0], totals[1..]))
  }

  function Last(from: nat, totals: seq<nat>): nat {
    if totals == [] then from else totals[|totals| - 1]
  }

  /** The whole wraps of the counter that passed between two consecutive readings. */
  function Missed(from: nat, totals: seq<nat>): int
    decreases totals
  {
    if totals == [] then 0 else (totals[0] - from) / WORD + Missed(totals[0], totals[1..])
  }

  /** The clock is behind the true total by `lag` wraps of the counter. */
  ghost predicate Tracks(c: Cells, total: nat, lag: int) {
    lag >= 0 && total == c.timekeeper + lag * WORD && c.freeRtosNow == total % WORD
  }

  lemma WrappingSubIsGap(total: nat, total': nat)
    requires total <= total'
    ensures WrappingSub(total' % WORD, total % WORD) == (total' - total) % WORD
  {
    assert total' % WORD - total % WORD == (total' - total) - (total' / WORD - total / WORD) * WORD;
  }

  lemma ReadingTracks(c: Cells, total: nat, lag: int, total': nat)
    requires Tracks(c, total, lag) && total <= total' < LONG
    ensures Tracks(Advance(c, total' % WORD), total', lag + (total' - total) / WORD)
    ensures c.timekeeper <= Advance(c, total' % WORD).timekeeper
  {
    WrappingSubIsGap(total, total');
  }

  /**
   The clock over every run of readings: it lags the true total by exactly the wraps that passed
   unseen, so it never passes the total and is congruent to it modulo 2^32.
   */
  lemma {:induction false} ClockLagsByMissedWraps(c: Cells, from: nat, lag: int, totals: seq<nat>)
    requires Tracks(c, from, lag) && IsTimeline(from, totals)
    ensures Tracks(AdvanceAll(c, totals), Last(from, totals), lag + Missed(from, totals))
    ensures c.timekeeper <= AdvanceAll(c, totals).timekeeper <= Last(from, totals)
    decreases totals
  {
    if totals != [] {
      ReadingTracks(c, from, lag, totals[0]);
      ClockLagsByMissedWraps(Advance(c, totals[0] % WORD), totals[0], lag + (totals[0] - from) / WORD, totals[1..]);
    }
  }

  /** Every reading comes less than 2^32 ticks after the one before it. */
  ghost predicate IsFrequent(from: nat, totals: seq<nat>)
    decreases totals
  {
    totals == [] || (totals[0] - from < WORD && IsFrequent(totals[0], totals[1..]))
  }

  lemma {:induction false} MissedNothingIffFrequent(from: nat, totals: seq<nat>)
    requires IsTimeline(from, totals)
    ensures Missed(from, totals) >= 0
    ensures Missed(from, totals) == 0 <==> IsFrequent(from, totals)
    decreases totals
  {
    if totals != [] {
      MissedNothingIffFrequent(totals[0], totals[1..]);
    }
  }

  /** From boot, the clock shows the true time exactly when it is read at least once per wrap. */
  lemma ClockIsExactIffFrequent(totals: seq<nat>)
    requires IsTimeline(0, totals)
    ensures AdvanceAll(Cells(0, 0), totals).timekeeper == Last(0, totals) <==> IsFrequent(0, totals)
  {
    ClockLagsByMissedWraps(Cells(0, 0), 0, 0, totals);
    MissedNothingIffFrequent(0, totals);
  }
}
