/** The AVR8X comparator by the values of its registers and inputs: the sense of the comparison, its
    hysteresis and inputs, the delay, and where the output settles. */
module Ac8xValues {
  import opened Bits
  import opened Ac8xEngine
  import opened Ac8xProofs

  /** Hysteresis of 0, 10, 25 or 50 mV by HYSMODE. */
  lemma HysteresisExact(ctrla: bv8)
    ensures var mode := (ctrla >> 1) & 3;
            Hysteresis(ctrla) == if mode == 0 then 0.0 else if mode == 1 then 0.010 else if mode == 2 then 0.025 else 0.050
  {
  }

  /** Not inverted, the comparison is high above the band of hysteresis and low below it; inverted
      the other way round; within the band it is the output. */
  lemma CompareExact(a: Ac, p: real, n: real, h: real)
    requires h == var mode := (a.ctrla >> 1) & 3;
                  if mode == 0 then 0.0 else if mode == 1 then 0.010 else if mode == 2 then 0.025 else 0.050
    ensures p > n + h ==> (Compared(a, p, n) <==> !Has(a.muxctrla, 0x80))
    ensures p <= n - h ==> (Compared(a, p, n) <==> Has(a.muxctrla, 0x80))
    ensures n - h < p <= n + h ==> (Compared(a, p, n) <==> Has(a.status, 0x10))
  {
    HysteresisExact(a.ctrla);
    hide Has, Hysteresis;
  }

  /** The inputs by MUXPOS and MUXNEG; the third negative input is the DAC. */
  lemma InputsExact(u: Unit, a: Ac, env: Env)
    requires env.attached
    ensures Positive(u, a, env) == env.voltage(u.positiveBase + ((a.muxctrla >> 3) & 7) as nat)
    ensures a.muxctrla & 3 != 3 ==> Negative(u, a, env) == env.voltage(u.negativeBase + (a.muxctrla & 3) as nat)
    ensures a.muxctrla & 3 == 3 ==> Negative(u, a, env) == (a.dacctrla as nat) as real * env.vref / 256.0
  {
  }

  lemma NoBankNoInput(u: Unit, a: Ac, env: Env)
    requires !env.attached
    ensures Positive(u, a, env) == 0.0 && Negative(u, a, env) == 0.0
  {
  }

  lemma SettingsExact(u: Unit, a: Ac)
    ensures Enabled(a) <==> Has(a.ctrla, 0x81)
    ensures Delay(u, a) == if Has(a.ctrla, 0x08) then 4 * u.delay else u.delay
    ensures var mode := (a.ctrla >> 4) & 3;
            forall level :: Triggers(a, level) <==> mode == 0 || mode == 3 || (mode == 1 && level) || (mode == 2 && !level)
    ensures Requests(a) <==> Has(a.intctrl, 0x01) && Has(a.status, 0x01)
  {
    hide Has;
  }

  // ---- where the output settles -------------------------------------------------------------

  /** Beyond the hysteresis, the inputs say `level`. */
  predicate Says(s: Ac, p: real, n: real, h: real, level: bool) {
    if level != Has(s.muxctrla, 0x80) then p > n + h else p <= n - h
  }

  /** Operation j, if a tick, finds inputs that say `level`. */
  predicate Insists(u: Unit, a: Ac, ops: seq<Op>, j: nat, h: real, level: bool)
    requires j < |ops|
  {
    var s := At(u, a, ops, j);
    ops[j].Tick? ==> Says(s, Positive(u, s, ops[j].env), Negative(u, s, ops[j].env), h, level)
  }

  predicate HasHysteresis(a: Ac, h: real) {
    var mode := (a.ctrla >> 1) & 3;
    h == if mode == 0 then 0.0 else if mode == 1 then 0.010 else if mode == 2 then 0.025 else 0.050
  }

  lemma InsistentTick(u: Unit, a: Ac, ops: seq<Op>, j: nat, h: real, level: bool)
    requires j < |ops| && LeavesControl(ops) && HasHysteresis(a, h) && Insists(u, a, ops, j, h, level)
    ensures Disagrees(u, a, ops, j) <==> ops[j].Tick? && Output(At(u, a, ops, j)) != level
  {
    var s := At(u, a, ops, j);
    ControlKept(u, a, ops, j);
    hide At, Has, Compared, Positive, Negative;
    if ops[j].Tick? {
      CompareExact(s, Positive(u, s, ops[j].env), Negative(u, s, ops[j].env), h);
    }
  }

  /** While the inputs insist on a level, the output either is there or has disagreed throughout. */
  lemma {:induction false} Approaches(u: Unit, a: Ac, ops: seq<Op>, s: nat, k: nat, h: real, level: bool)
    requires Enabled(a) && a.settle == 0 && LeavesControl(ops) && HasHysteresis(a, h) && s <= k <= |ops|
    requires forall j :: s <= j < k ==> Insists(u, a, ops, j, h, level)
    ensures Output(At(u, a, ops, k)) == level || AllDisagree(u, a, ops, s, k)
  {
    hide Insists, HasHysteresis, Disagrees, At, Output;
    if s < k {
      Approaches(u, a, ops, s, k - 1, h, level);
      InsistentTick(u, a, ops, k - 1, h, level);
      StreakIsHistory(u, a, ops, k - 1);
      OpEffect(u, a, ops, k - 1);
    }
  }

  lemma {:induction false} TicksFromLeft(ops: seq<Op>, s: nat, k: nat)
    requires s < k <= |ops|
    ensures Ticks(ops, s, k) == Ticks(ops, s + 1, k) + if ops[s].Tick? then 1 else 0
  {
    if s + 1 < k {
      TicksFromLeft(ops, s, k - 1);
    }
  }

  lemma {:induction false} TicksReach(ops: seq<Op>, s: nat, k: nat, d: nat)
    requires s <= k <= |ops| && Ticks(ops, s, k) >= d
    ensures exists t: nat :: s <= t <= k && Ticks(ops, t, k) == d
    decreases k - s
  {
    if Ticks(ops, s, k) > d {
      TicksFromLeft(ops, s, k);
      TicksReach(ops, s + 1, k, d);
    }
  }

  /** After D + 1 ticks in a row whose inputs say a level beyond the hysteresis, the output has it,
      whatever it was and whatever came between the ticks. */
  lemma SettlesTo(u: Unit, a: Ac, ops: seq<Op>, s: nat, k: nat, h: real, level: bool)
    requires Has(a.ctrla, 0x81) && a.settle == 0 && LeavesControl(ops) && HasHysteresis(a, h)
    requires s <= k < |ops| && ops[k].Tick?
    requires forall j :: s <= j <= k ==> Insists(u, a, ops, j, h, level)
    requires Ticks(ops, s, k) >= if Has(a.ctrla, 0x08) then 4 * u.delay else u.delay
    ensures Has(At(u, a, ops, k + 1).status, 0x10) == level
  {
    SettingsExact(u, a);
    assert Output(At(u, a, ops, k + 1)) == Has(At(u, a, ops, k + 1).status, 0x10);
    hide Insists, HasHysteresis, Disagrees, At, Output, Delay, Enabled, Has;
    Approaches(u, a, ops, s, k, h, level);
    InsistentTick(u, a, ops, k, h, level);
    StreakIsHistory(u, a, ops, k);
    OpEffect(u, a, ops, k);
    if Output(At(u, a, ops, k)) != level {
      TicksReach(ops, s, k, Delay(u, a));
      DebounceIsHistoryFilter(u, a, ops, k);
    }
  }
}
