/**
 * The backtest engine of src/backtest.py: a three-state position machine
 * (short -1, flat 0, long +1) driven day by day by a z-score series, which
 * emits one P&L value per day after the first.
 *
 * Doubles are modelled as exact reals. A z-score that pandas would hold as
 * NaN is `None`: every comparison with NaN is false, so no threshold fires.
 */
module Backtest {
  import opened Wrappers

  /** A position in units of the spread: -1 short, 0 flat, +1 long. */
  type Position = p: int | -1 <= p <= 1

  function Abs(x: real): real
  {
    if x < 0.0 then -x else x
  }

  /**
   * One step of the transition chain. The entry checks come first (short
   * above `entry`, long below `-entry`), then the exit band; otherwise, and
   * whenever z is missing, the previous position is held.
   */
  function Next(pos: Position, z: Option<real>, entry: real, exit: real): Position
  {
    match z
    case None => pos
    case Some(v) =>
      if v > entry then -1
      else if v < -entry then 1
      else if Abs(v) < exit then 0
      else pos
  }

  /** The position held after day `k`: flat before the loop, then one `Next` per day 1..k. */
  function PositionAt(z: seq<Option<real>>, k: nat, entry: real, exit: real): Position
    requires k < |z|
  {
    if k == 0 then 0 else Next(PositionAt(z, k - 1, entry, exit), z[k], entry, exit)
  }

  /** The flat cost charged on a day whose position differs from the day before. */
  function TradeCost(prev: Position, pos: Position, cost: real): real
  {
    if pos != prev then cost else 0.0
  }

  /**
   * The P&L of day `k` (k >= 1): the position taken that day times the change
   * in the spread since the day before, less the trade cost when the position
   * changed.
   */
  function DailyPnl(spread: seq<real>, z: seq<Option<real>>, k: nat, entry: real, exit: real, cost: real): real
    requires 1 <= k < |spread| <= |z|
  {
    var prev := PositionAt(z, k - 1, entry, exit);
    var pos := PositionAt(z, k, entry, exit);
    pos as real * (spread[k] - spread[k - 1]) - TradeCost(prev, pos, cost)
  }

  /**
   * The simulation loop. Entry `k` of the result belongs to day `k + 1`:
   * the position of that day times the change in the spread, less the trade
   * cost when the position changed.
   */
  method Backtest(spread: seq<real>, z: seq<Option<real>>, entry: real, exit: real, cost: real)
    returns (pnl: seq<real>)
    requires |spread| <= |z|
    ensures |pnl| == if |spread| <= 1 then 0 else |spread| - 1
    ensures forall k :: 0 <= k < |pnl| ==> pnl[k] == DailyPnl(spread, z, k + 1, entry, exit, cost)
    ensures (forall k :: 1 <= k < |spread| ==> z[k].None?) ==> forall k :: 0 <= k < |pnl| ==> pnl[k] == 0.0
  {
    var position: Position := 0;
    pnl := [];
    var i := 1;
    while i < |spread|
      invariant 1 <= i <= if |spread| <= 1 then 1 else |spread|
      invariant |spread| >= 1 ==> position == PositionAt(z, i - 1, entry, exit)
      invariant |pnl| == i - 1
      invariant forall k :: 0 <= k < |pnl| ==> pnl[k] == DailyPnl(spread, z, k + 1, entry, exit, cost)
    {
      var prevPosition := position;
      position := Next(position, z[i], entry, exit);
      var tradeCost := if position != prevPosition then cost else 0.0;
      var dailyPnl := position as real * (spread[i] - spread[i - 1]) - tradeCost;
      assert prevPosition == PositionAt(z, i - 1, entry, exit);
      assert position == PositionAt(z, i, entry, exit);
      assert tradeCost == TradeCost(prevPosition, position, cost);
      assert dailyPnl == DailyPnl(spread, z, i, entry, exit, cost);
      pnl := pnl + [dailyPnl];
      i := i + 1;
    }
    AllMissingZeroPnl(spread, z, entry, exit, cost);
  }

  /** A missing z-score never moves the position. */
  lemma NextHoldsOnMissing(pos: Position, entry: real, exit: real)
    ensures Next(pos, None, entry, exit) == pos
  {
  }

  /** The priority order of the transition chain, on a present z-score `v`. */
  lemma NextPriority(pos: Position, v: real, entry: real, exit: real)
    ensures v > entry ==> Next(pos, Some(v), entry, exit) == -1
    ensures !(v > entry) && v < -entry ==> Next(pos, Some(v), entry, exit) == 1
    ensures !(v > entry) && !(v < -entry) && Abs(v) < exit ==> Next(pos, Some(v), entry, exit) == 0
    ensures !(v > entry) && !(v < -entry) && !(Abs(v) < exit) ==> Next(pos, Some(v), entry, exit) == pos
  {
  }

  /** The previous position matters only when z is missing or inside the hold band. */
  lemma NextForgetsPosition(p: Position, q: Position, v: real, entry: real, exit: real)
    requires v > entry || v < -entry || Abs(v) < exit
    ensures Next(p, Some(v), entry, exit) == Next(q, Some(v), entry, exit)
  {
  }

  /** Re-reading the same z-score changes nothing: a second step is a no-op. */
  lemma NextIdempotent(pos: Position, z: Option<real>, entry: real, exit: real)
    ensures Next(Next(pos, z, entry, exit), z, entry, exit) == Next(pos, z, entry, exit)
  {
  }

  /** Mirror symmetry of the rule: negating z and the position negates the next position. */
  lemma NextMirror(pos: Position, v: real, entry: real, exit: real)
    requires entry >= 0.0
    ensures Next(-pos, Some(-v), entry, exit) == -Next(pos, Some(v), entry, exit)
  {
  }

  /**
   * The position of day `k` depends only on z[1..k+1]: never on z[0], never on a
   * later day, and (by the signature) never on the spread.
   */
  lemma {:induction false} PositionDependsOnlyOnPastZ(z: seq<Option<real>>, z': seq<Option<real>>, k: nat, entry: real, exit: real)
    requires k < |z| && k < |z'|
    requires z[1..k + 1] == z'[1..k + 1]
    ensures PositionAt(z, k, entry, exit) == PositionAt(z', k, entry, exit)
  {
    if k > 0 {
      assert z[1..k] == z[1..k + 1][..k - 1];
      assert z'[1..k] == z'[1..k + 1][..k - 1];
      assert z[k] == z[1..k + 1][k - 1];
      assert z'[k] == z'[1..k + 1][k - 1];
      PositionDependsOnlyOnPastZ(z, z', k - 1, entry, exit);
    }
  }

  /** With every z-score from day 1 on missing, the position stays flat throughout. */
  lemma {:induction false} AllMissingStaysFlat(z: seq<Option<real>>, entry: real, exit: real)
    requires forall k :: 1 <= k < |z| ==> z[k].None?
    ensures forall k :: 0 <= k < |z| ==> PositionAt(z, k, entry, exit) == 0
  {
    forall k | 0 <= k < |z|
      ensures PositionAt(z, k, entry, exit) == 0
    {
      FlatUpTo(z, k, entry, exit);
    }
  }

  /** With z-scores of days 1..k missing, the position of day k is flat. */
  lemma {:induction false} FlatUpTo(z: seq<Option<real>>, k: nat, entry: real, exit: real)
    requires k < |z|
    requires forall j :: 1 <= j <= k ==> z[j].None?
    ensures PositionAt(z, k, entry, exit) == 0
  {
    if k > 0 {
      FlatUpTo(z, k - 1, entry, exit);
    }
  }

  /**
   * With every z-score the loop reads (days 1 .. |spread| - 1) missing, the
   * position stays flat and every day's P&L is 0.
   */
  lemma AllMissingZeroPnl(spread: seq<real>, z: seq<Option<real>>, entry: real, exit: real, cost: real)
    requires |spread| <= |z|
    ensures (forall k :: 1 <= k < |spread| ==> z[k].None?) ==>
      forall k :: 1 <= k < |spread| ==> DailyPnl(spread, z, k, entry, exit, cost) == 0.0
  {
    if forall k :: 1 <= k < |spread| ==> z[k].None? {
      forall k | 1 <= k < |spread| ensures DailyPnl(spread, z, k, entry, exit, cost) == 0.0 {
        FlatUpTo(z, k - 1, entry, exit);
        FlatUpTo(z, k, entry, exit);
      }
    }
  }

  /** A position change costs exactly `cost`, and holding costs nothing. */
  lemma TradeCostCharged(prev: Position, pos: Position, cost: real)
    ensures pos != prev ==> TradeCost(prev, pos, cost) == cost
    ensures pos == prev ==> TradeCost(prev, pos, cost) == 0.0
  {
  }
}
