/** What every run of the AVR8X comparator guarantees: the output is a history filter of
    the comparison, does not chatter within the hysteresis band, and its events alternate. */
module Ac8xProofs {
  import opened Bits
  import opened Ac8xEngine

  // ---- runs ---------------------------------------------------------------------------------

  datatype Op =
    | Tick(env: Env)
    | UserEvent(env: Env)
    | Store(reg: Register, value: bv8)
    | Acknowledge

  function Applied(u: Unit, a: Ac, op: Op): Ac {
    match op
    case Tick(env) => Ticked(u, a, Positive(u, a, env), Negative(u, a, env))
    case UserEvent(env) =>
      if Enabled(a) then a.(next := Compared(a, Positive(u, a, env), Negative(u, a, env))) else a
    case Store(reg, value) => Written(a, reg, value)
    case Acknowledge => Consumed(a)
  }

  function Run(u: Unit, a: Ac, ops: seq<Op>): Ac {
    if ops == [] then a else Applied(u, Run(u, a, ops[..|ops| - 1]), ops[|ops| - 1])
  }

  lemma StatusBits(status: bv8)
    ensures Has(With(status, STATE), STATE) && !Has(Without(status, STATE), STATE)
    ensures Has(With(status, CMP), STATE) == Has(status, STATE)
    ensures Has(Without(status, CMP), STATE) == Has(status, STATE)
    ensures Has(With(status, CMP), CMP) && !Has(Without(status, CMP), CMP)
  {
  }

  lemma SettledEffect(u: Unit, a: Ac, level: bool)
    ensures var t := Settled(u, a, level);
            && Output(t) == level && t.settle == 0 && t.ctrla == a.ctrla && t.muxctrla == a.muxctrla
            && t.log == if u.published then a.log + [level] else a.log
  {
    StatusBits(a.status);
    StatusBits(Without(a.status, STATE));
    StatusBits(With(a.status, STATE));
    hide Has, With, Without, Triggers;
  }

  lemma TickKeepsRegisters(u: Unit, a: Ac, p: real, n: real)
    ensures Ticked(u, a, p, n).ctrla == a.ctrla && Ticked(u, a, p, n).muxctrla == a.muxctrla
  {
    SettledEffect(u, a, Compared(a, p, n));
    hide Settled, Compared, Delay, Output, Enabled;
  }

  /** An agreeing tick restarts the count. */
  lemma TickAgreeing(u: Unit, a: Ac, p: real, n: real)
    requires Enabled(a) && Compared(a, p, n) == Output(a)
    ensures var t := Ticked(u, a, p, n);
            t.status == a.status && t.log == a.log && t.settle == 0
  {
    hide Settled, Compared, Delay, Output, Enabled;
  }

  /** A disagreeing tick counts, and flips the output when the count runs out. */
  lemma TickDisagreeing(u: Unit, a: Ac, p: real, n: real)
    requires Enabled(a) && Compared(a, p, n) != Output(a)
    ensures var t := Ticked(u, a, p, n);
            if a.settle > 1 then t.status == a.status && t.settle == a.settle - 1
            else if a.settle == 0 && Delay(u, a) > 0 then t.status == a.status && t.settle == Delay(u, a)
            else Output(t) == !Output(a) && t.settle == 0
  {
    SettledEffect(u, a, Compared(a, p, n));
    hide Settled, Compared, Delay, Output, Enabled;
  }

  /** One tick in terms of output and settle count. */
  lemma TickEffect(u: Unit, a: Ac, p: real, n: real)
    requires Enabled(a)
    ensures var t := Ticked(u, a, p, n);
            && Enabled(t) && Delay(u, t) == Delay(u, a)
            && if Compared(a, p, n) == Output(a) then Output(t) == Output(a) && t.settle == 0
               else if a.settle > 1 then Output(t) == Output(a) && t.settle == a.settle - 1
               else if a.settle == 0 && Delay(u, a) > 0 then Output(t) == Output(a) && t.settle == Delay(u, a)
               else Output(t) == !Output(a) && t.settle == 0
  {
    hide Ticked, Has, Compared;
    TickKeepsRegisters(u, a, p, n);
    if Compared(a, p, n) == Output(a) {
      TickAgreeing(u, a, p, n);
    } else {
      TickDisagreeing(u, a, p, n);
    }
  }

  /** The number of disagreeing ticks counted towards the next flip. */
  function Streak(delay: nat, settle: nat): nat {
    if settle == 0 || settle > delay then 0 else delay + 1 - settle
  }

  /** The state before operation k. */
  function At(u: Unit, a: Ac, ops: seq<Op>, k: nat): Ac
    requires k <= |ops|
  {
    Run(u, a, ops[..k])
  }

  /** How many of the operations from s on and before k are ticks. */
  function Ticks(ops: seq<Op>, s: nat, k: nat): nat
    requires k <= |ops|
  {
    if k <= s then 0 else Ticks(ops, s, k - 1) + if ops[k - 1].Tick? then 1 else 0
  }

  lemma {:induction false} MoreTicks(ops: seq<Op>, s: nat, t: nat, k: nat)
    requires s <= t && k <= |ops|
    ensures Ticks(ops, t, k) <= Ticks(ops, s, k)
    ensures s < t <= k && ops[t - 1].Tick? ==> Ticks(ops, t, k) < Ticks(ops, s, k)
  {
    if k > s {
      MoreTicks(ops, s, t, k - 1);
    }
  }

  /** Operation k is a tick on which the comparison differs from the output. */
  predicate Disagrees(u: Unit, a: Ac, ops: seq<Op>, k: nat)
    requires k < |ops|
  {
    var s := At(u, a, ops, k);
    ops[k].Tick? && Compared(s, Positive(u, s, ops[k].env), Negative(u, s, ops[k].env)) != Output(s)
  }

  /** From s on and before k, all ticks disagree with the output there is before k. */
  predicate AllDisagree(u: Unit, a: Ac, ops: seq<Op>, s: nat, k: nat)
    requires k <= |ops|
  {
    forall j :: s <= j < k && ops[j].Tick? ==>
      Disagrees(u, a, ops, j) && Output(At(u, a, ops, j)) == Output(At(u, a, ops, k))
  }

  predicate LeavesControl(ops: seq<Op>) {
    forall i :: 0 <= i < |ops| ==> ops[i].Store? ==> ops[i].reg != CtrlA
  }

  /** A write touches neither output, settle count nor event log. */
  lemma WriteEffect(a: Ac, reg: Register, value: bv8)
    ensures var t := Written(a, reg, value);
            Output(t) == Output(a) && t.settle == a.settle && t.log == a.log && (reg != CtrlA ==> t.ctrla == a.ctrla)
  {
    StatusBits(a.status);
    hide Has, Without;
  }

  lemma ConsumedEffect(a: Ac)
    ensures var t := Consumed(a);
            Output(t) == Output(a) && t.settle == a.settle && t.log == a.log && t.ctrla == a.ctrla
  {
    StatusBits(a.status);
    hide Has, Without;
  }

  /** So do acknowledgements and user events. */
  lemma OtherOpEffect(u: Unit, a: Ac, op: Op)
    requires !op.Tick?
    ensures var t := Applied(u, a, op);
            && Output(t) == Output(a) && t.settle == a.settle && t.log == a.log
            && ((op.Store? ==> op.reg != CtrlA) ==> t.ctrla == a.ctrla)
  {
    hide Has, Written, Consumed, Compared, Positive, Negative;
    match op
    case Store(reg, value) => WriteEffect(a, reg, value);
    case Acknowledge => ConsumedEffect(a);
    case _ =>
  }

  /** The count of disagreeing ticks starts at `from`: at the first operation, or after a tick
      that agreed or flipped the output. */
  predicate StreakFrom(u: Unit, a: Ac, ops: seq<Op>, k: nat, from: nat)
    requires k <= |ops|
  {
    && from <= k && AllDisagree(u, a, ops, from, k)
    && Ticks(ops, from, k) == Streak(Delay(u, a), At(u, a, ops, k).settle)
    && (from > 0 ==> ops[from - 1].Tick?
                     && (!Disagrees(u, a, ops, from - 1) || Output(At(u, a, ops, from - 1)) != Output(At(u, a, ops, k))))
  }

  /** What one operation does to output and settle count. */
  lemma OpEffect(u: Unit, a: Ac, ops: seq<Op>, k: nat)
    requires k < |ops| && Enabled(At(u, a, ops, k)) && LeavesControl(ops)
    ensures var s, t := At(u, a, ops, k), At(u, a, ops, k + 1);
            && Enabled(t) && Delay(u, t) == Delay(u, s)
            && if !ops[k].Tick? then Output(t) == Output(s) && t.settle == s.settle
               else if !Disagrees(u, a, ops, k) then Output(t) == Output(s) && t.settle == 0
               else if s.settle > 1 then Output(t) == Output(s) && t.settle == s.settle - 1
               else if s.settle == 0 && Delay(u, s) > 0 then Output(t) == Output(s) && t.settle == Delay(u, s)
               else Output(t) == !Output(s) && t.settle == 0
  {
    var s, op := At(u, a, ops, k), ops[k];
    assert At(u, a, ops, k + 1) == Applied(u, s, op) by { assert ops[..k + 1][..k] == ops[..k]; }
    if op.Tick? {
      TickEffect(u, s, Positive(u, s, op.env), Negative(u, s, op.env));
    } else {
      OtherOpEffect(u, s, op);
    }
    hide Compared, Has, Run, Positive, Negative, Ticked;
  }

  /** Over all runs that leave CTRLA alone, the settle count is a count of history: of the
      disagreeing ticks since the last agreeing tick or flip. */
  lemma {:induction false} StreakIsHistory(u: Unit, a: Ac, ops: seq<Op>, k: nat)
    requires Enabled(a) && a.settle == 0 && k <= |ops| && LeavesControl(ops)
    ensures var s := At(u, a, ops, k);
            Enabled(s) && Delay(u, s) == Delay(u, a) && s.settle <= Delay(u, a)
    ensures exists from: nat :: StreakFrom(u, a, ops, k, from)
  {
    hide Disagrees, Enabled, Delay, Output;
    if k == 0 {
      assert ops[..0] == [];
      assert StreakFrom(u, a, ops, 0, 0);
    } else {
      StreakIsHistory(u, a, ops, k - 1);
      OpEffect(u, a, ops, k - 1);
      var from: nat :| StreakFrom(u, a, ops, k - 1, from);
      var before, s := At(u, a, ops, k - 1), At(u, a, ops, k);
      hide At;
      if !ops[k - 1].Tick? || (Disagrees(u, a, ops, k - 1) && Output(s) == Output(before)) {
        assert StreakFrom(u, a, ops, k, from);
      } else {
        assert StreakFrom(u, a, ops, k, k);
      }
    }
  }

  /** Over all runs that leave CTRLA alone: the output flips exactly on a tick that disagrees
      with it, as the D ticks before it did, whatever else came between. */
  lemma DebounceIsHistoryFilter(u: Unit, a: Ac, ops: seq<Op>, k: nat)
    requires Enabled(a) && a.settle == 0 && k < |ops| && LeavesControl(ops)
    ensures Output(At(u, a, ops, k + 1)) != Output(At(u, a, ops, k))
            <==> Disagrees(u, a, ops, k)
                 && exists s: nat :: s <= k && Ticks(ops, s, k) == Delay(u, a) && AllDisagree(u, a, ops, s, k)
  {
    StreakIsHistory(u, a, ops, k);
    OpEffect(u, a, ops, k);
    var from: nat :| StreakFrom(u, a, ops, k, from);
    hide At, Delay, Enabled, Output;
    forall s: nat | s <= k && Ticks(ops, s, k) == Delay(u, a) && AllDisagree(u, a, ops, s, k)
      ensures Ticks(ops, from, k) == Delay(u, a) {
      MoreTicks(ops, from, s, k);
      if s < from {
        assert false;
      }
    }
  }

  // ---- the comparison flag ------------------------------------------------------------------

  predicate Flagged(a: Ac) { Has(a.status, CMP) }

  /** Operation k is a tick that flips the output, to a level that CTRLA selects for the flag. */
  predicate Edge(u: Unit, a: Ac, ops: seq<Op>, k: nat)
    requires k < |ops|
  {
    var was, now := Output(At(u, a, ops, k)), Output(At(u, a, ops, k + 1));
    ops[k].Tick? && was != now && Triggers(a, now)
  }

  /** A one written to the flag, or an acknowledgement of the enabled interrupt. */
  predicate ClearsFlag(s: Ac, op: Op) {
    (op.Store? && op.reg == Status && Has(op.value, CMP)) || (op.Acknowledge? && Has(s.intctrl, 0x01))
  }

  /** From s on and before k, nothing clears the flag. */
  predicate Standing(u: Unit, a: Ac, ops: seq<Op>, s: nat, k: nat)
    requires k <= |ops|
  {
    forall j :: s <= j < k ==> !ClearsFlag(At(u, a, ops, j), ops[j])
  }

  lemma SettledFlag(u: Unit, a: Ac, level: bool)
    ensures Flagged(Settled(u, a, level)) == (Flagged(a) || Triggers(a, level))
    ensures Output(Settled(u, a, level)) == level
  {
    assert Has(With(a.status, STATE), CMP) == Has(Without(a.status, STATE), CMP) == Has(a.status, CMP);
    SettledEffect(u, a, level);
    StatusBits(if level then With(a.status, STATE) else Without(a.status, STATE));
    hide Has, With, Without, Triggers;
  }

  lemma TickFlag(u: Unit, a: Ac, p: real, n: real)
    ensures var t := Ticked(u, a, p, n);
            Flagged(t) <==> Flagged(a) || (Output(t) != Output(a) && Triggers(a, Output(t)))
    ensures Ticked(u, a, p, n).ctrla == a.ctrla
  {
    SettledFlag(u, a, Compared(a, p, n));
    TickKeepsRegisters(u, a, p, n);
    hide Has, Settled, Triggers, Compared, Delay, Enabled;
  }

  lemma OtherOpFlag(u: Unit, a: Ac, op: Op)
    requires !op.Tick?
    ensures Flagged(Applied(u, a, op)) <==> Flagged(a) && !ClearsFlag(a, op)
  {
    StatusBits(a.status);
    hide Has, Without, With, Compared, Positive, Negative;
  }

  lemma AtNext(u: Unit, a: Ac, ops: seq<Op>, k: nat)
    requires k < |ops|
    ensures At(u, a, ops, k + 1) == Applied(u, At(u, a, ops, k), ops[k])
  {
    hide Applied;
    assert ops[..k + 1][..k] == ops[..k];
  }

  lemma {:induction false} ControlKept(u: Unit, a: Ac, ops: seq<Op>, k: nat)
    requires k <= |ops| && LeavesControl(ops)
    ensures At(u, a, ops, k).ctrla == a.ctrla
  {
    if k == 0 {
      assert ops[..0] == [];
    } else {
      ControlKept(u, a, ops, k - 1);
      AtNext(u, a, ops, k - 1);
      var s, op := At(u, a, ops, k - 1), ops[k - 1];
      hide At, Applied;
      if op.Tick? {
        TickOpKeepsControl(u, s, op);
      } else {
        OtherOpEffect(u, s, op);
      }
    }
  }

  lemma TickOpKeepsControl(u: Unit, a: Ac, op: Op)
    requires op.Tick?
    ensures Applied(u, a, op).ctrla == a.ctrla
  {
    hide Ticked, Positive, Negative;
    TickKeepsRegisters(u, a, Positive(u, a, op.env), Negative(u, a, op.env));
  }

  lemma FlagStep(u: Unit, a: Ac, ops: seq<Op>, k: nat)
    requires k < |ops| && LeavesControl(ops)
    ensures Flagged(At(u, a, ops, k + 1))
            <==> (Flagged(At(u, a, ops, k)) && !ClearsFlag(At(u, a, ops, k), ops[k])) || Edge(u, a, ops, k)
  {
    var s, op := At(u, a, ops, k), ops[k];
    AtNext(u, a, ops, k);
    ControlKept(u, a, ops, k);
    TriggersByControl(a, s, Output(At(u, a, ops, k + 1)));
    hide At, Flagged, Output, Triggers, Ticked, Has;
    if op.Tick? {
      TickFlag(u, s, Positive(u, s, op.env), Negative(u, s, op.env));
    } else {
      OtherOpFlag(u, s, op);
    }
  }

  /** Over all runs that leave CTRLA alone: the flag is up exactly if the output has made an edge
      of the selected kind, or the flag was up to begin with, and nothing has cleared it since. */
  lemma {:induction false} FlagRemembersEdges(u: Unit, a: Ac, ops: seq<Op>, k: nat)
    requires k <= |ops| && LeavesControl(ops)
    ensures Flagged(At(u, a, ops, k))
            <==> (Flagged(a) && Standing(u, a, ops, 0, k))
                 || exists e: nat :: e < k && Edge(u, a, ops, e) && Standing(u, a, ops, e + 1, k)
  {
    hide Flagged, Edge, ClearsFlag;
    if k == 0 {
      assert ops[..0] == [];
    } else {
      FlagRemembersEdges(u, a, ops, k - 1);
      FlagStep(u, a, ops, k - 1);
      hide At;
      assert Standing(u, a, ops, k, k);
      var clears := ClearsFlag(At(u, a, ops, k - 1), ops[k - 1]);
      forall s: nat | s < k
        ensures Standing(u, a, ops, s, k) <==> Standing(u, a, ops, s, k - 1) && !clears {
      }
      TicksClearNothing(u, a, ops, k - 1);
    }
  }

  lemma TicksClearNothing(u: Unit, a: Ac, ops: seq<Op>, k: nat)
    requires k < |ops|
    ensures Edge(u, a, ops, k) ==> !ClearsFlag(At(u, a, ops, k), ops[k])
  {
    hide At, Output, Triggers;
  }

  lemma TriggersByControl(a: Ac, b: Ac, level: bool)
    requires a.ctrla == b.ctrla
    ensures Triggers(a, level) == Triggers(b, level)
  {
  }

  // ---- hysteresis ---------------------------------------------------------------------------

  /** The same comparator with the opposite output. */
  function Opposite(a: Ac): Ac {
    a.(status := if Output(a) then Without(a.status, STATE) else With(a.status, STATE))
  }

  predicate InBand(a: Ac, p: real, n: real) {
    n - Hysteresis(a.ctrla) < p <= n + Hysteresis(a.ctrla)
  }

  /** The band is exactly where the comparison confirms whatever output it finds. */
  lemma BandExact(a: Ac, p: real, n: real)
    ensures InBand(a, p, n)
            <==> Compared(a, p, n) == Output(a) && Compared(Opposite(a), p, n) == Output(Opposite(a))
  {
    StatusBits(a.status);
    hide Has, With, Without, Hysteresis;
  }

  /** Operation k, if a tick, finds its inputs within the band. */
  predicate Quiet(u: Unit, a: Ac, ops: seq<Op>, k: nat)
    requires k < |ops|
  {
    var s := At(u, a, ops, k);
    ops[k].Tick? ==> InBand(a, Positive(u, s, ops[k].env), Negative(u, s, ops[k].env))
  }

  /** Over all runs that leave CTRLA alone and whose ticks stay within the band, however the inputs
      are switched: the output does not move, nothing is published, the flag is not raised and,
      unless something clears it, not lowered. */
  lemma {:induction false} NoChatter(u: Unit, a: Ac, ops: seq<Op>, k: nat)
    requires k <= |ops| && LeavesControl(ops) && forall j :: 0 <= j < k ==> Quiet(u, a, ops, j)
    ensures var t := At(u, a, ops, k);
            && Output(t) == Output(a) && t.log == a.log
            && (Flagged(t) <==> Flagged(a) && Standing(u, a, ops, 0, k))
  {
    hide ClearsFlag, Output, Flagged;
    if k == 0 {
      assert ops[..0] == [];
    } else {
      NoChatter(u, a, ops, k - 1);
      QuietStep(u, a, ops, k - 1);
      hide At;
    }
  }

  lemma QuietStep(u: Unit, a: Ac, ops: seq<Op>, k: nat)
    requires k < |ops| && LeavesControl(ops) && Quiet(u, a, ops, k)
    ensures var s, t := At(u, a, ops, k), At(u, a, ops, k + 1);
            && Output(t) == Output(s) && t.log == s.log
            && (Flagged(t) <==> Flagged(s) && !ClearsFlag(s, ops[k]))
  {
    var s, op := At(u, a, ops, k), ops[k];
    AtNext(u, a, ops, k);
    ControlKept(u, a, ops, k);
    hide At, Ticked, Has, Positive, Negative;
    if op.Tick? {
      QuietTick(u, s, Positive(u, s, op.env), Negative(u, s, op.env), a);
    } else {
      OtherOpEffect(u, s, op);
      OtherOpFlag(u, s, op);
    }
  }

  lemma QuietTick(u: Unit, a: Ac, p: real, n: real, origin: Ac)
    requires InBand(origin, p, n) && a.ctrla == origin.ctrla
    ensures Ticked(u, a, p, n).status == a.status && Ticked(u, a, p, n).log == a.log
  {
    BandExact(a, p, n);
    hide Compared;
  }

  // ---- events -------------------------------------------------------------------------------

  /** Published levels alternate, starting with high, and the last is the output. */
  predicate Alternating(a: Ac) {
    && (forall i :: 0 <= i < |a.log| ==> a.log[i] == (i % 2 == 0))
    && Output(a) == (|a.log| % 2 == 1)
  }

  /** A tick publishes exactly the flips of the output. */
  lemma TickPublishes(u: Unit, a: Ac, p: real, n: real)
    requires u.published
    ensures var t := Ticked(u, a, p, n);
            t.log == if Output(t) == Output(a) then a.log else a.log + [Output(t)]
  {
    SettledEffect(u, a, Compared(a, p, n));
    hide Settled, Compared, Delay, Has;
  }

  lemma AppliedAlternates(u: Unit, a: Ac, op: Op)
    requires u.published && Alternating(a)
    ensures Alternating(Applied(u, a, op))
  {
    hide Has, Without, Ticked, Compared, Positive, Negative, Output;
    if op.Tick? {
      TickPublishes(u, a, Positive(u, a, op.env), Negative(u, a, op.env));
    } else {
      OtherOpEffect(u, a, op);
      hide Applied;
    }
  }

  /** In every run from power-on, whatever is written in between. */
  lemma {:induction false} EventsAlternate(u: Unit, ops: seq<Op>)
    requires u.published
    ensures Alternating(Run(u, PowerOn(), ops))
  {
    if ops == [] {
      assert !Has(0, STATE);
    } else {
      hide Applied, Alternating;
      EventsAlternate(u, ops[..|ops| - 1]);
      AppliedAlternates(u, Run(u, PowerOn(), ops[..|ops| - 1]), ops[|ops| - 1]);
    }
  }
}
