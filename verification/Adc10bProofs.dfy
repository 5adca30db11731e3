/** The 10-bit converter over whole runs: the busy bit, the schedule in calls, draining. */
module Adc10bProofs {
  import opened Bits
  import opened Common
  import opened ModernAdc
  import opened Adc10bModel

  datatype Op = Tick(signals: Signals) | Store(register: Register, value: bv8) | Acknowledge

  function Applied(m: Machine, op: Op): Machine {
    match op
    case Tick(signals) => Ticked(m, signals)
    case Store(register, value) => Written(m, register, value)
    case Acknowledge => Consumed(m)
  }

  function Run(m: Machine, ops: seq<Op>): Machine {
    if ops == [] then m else Applied(Run(m, ops[..|ops| - 1]), ops[|ops| - 1])
  }

  /** The status is the busy bit alone, set exactly while a conversion has ticks to go, and
      then the converter is enabled. */
  predicate Coupled(m: Machine) {
    && m.status == (if m.converting then 0x01 else 0x00)
    && (m.converting <==> m.remaining > 0)
    && (m.converting ==> m.regs.Enabled())
    && m.sample <= 1023 && m.result <= 1023
  }

  lemma StartedCoupled(m: Machine)
    requires Coupled(m)
    ensures Coupled(Started(m))
  {
    hide Registers.Enabled, Registers.Duration;
  }

  lemma CompletedCoupled(m: Machine, signals: Signals)
    requires Coupled(m) && m.converting
    ensures var n := Completed(m, signals);
            && Coupled(n) && n.regs == m.regs && n.completions == m.completions + 1
            && n.converting == m.regs.FreeRun()
            && n.remaining == (if m.regs.FreeRun() then m.regs.Duration() else 0)
  {
    var raw := Raw(m.regs, signals);
    var result := Resolved(m.regs, raw);
    var done := m.(converting := false, status := Without(m.status, 0x01), remaining := 0,
                   sample := raw % 0x400, result := result,
                   intflags := With(m.intflags, Raised(m.regs, result)), completions := m.completions + 1);
    assert result <= 1023;
    StartedCoupled(done);
    hide Registers.Enabled, Registers.Duration, Registers.FreeRun, Raw, Raised, Resolved;
  }

  lemma StoreCoupled(m: Machine, register: Register, value: bv8)
    requires Coupled(m)
    ensures Coupled(Written(m, register, value))
  {
    if register != CtrlA {
      hide Set, Starts, Started, Without, ControlWritten;
      StartedCoupled(m.(regs := Set(m.regs, register, value)));
    }
  }

  lemma AppliedCoupled(m: Machine, op: Op)
    requires Coupled(m)
    ensures Coupled(Applied(m, op))
  {
    match op
    case Tick(signals) =>
      if m.converting {
        CompletedCoupled(m, signals);
      }
      hide Registers.Enabled, Registers.Duration, Completed;
    case Store(register, value) =>
      StoreCoupled(m, register, value);
      hide Written;
    case Acknowledge => hide Acknowledged, Without;
  }

  /** In every run from power-on. */
  lemma {:induction false} AlwaysCoupled(ops: seq<Op>)
    ensures Coupled(Run(PowerOn(), ops))
  {
    hide Applied, Registers.Enabled;
    if ops != [] {
      AlwaysCoupled(ops[..|ops| - 1]);
      AppliedCoupled(Run(PowerOn(), ops[..|ops| - 1]), ops[|ops| - 1]);
    }
  }

  // ---- time ---------------------------------------------------------------------------------

  /** One call of tick for each element, with the signals of its moment. */
  function TickAll(m: Machine, inputs: seq<Signals>): Machine
    decreases |inputs|
  {
    if inputs == [] then m else TickAll(Ticked(m, inputs[0]), inputs[1..])
  }

  lemma {:induction false} IdleStays(m: Machine, inputs: seq<Signals>)
    requires !m.converting
    ensures TickAll(m, inputs) == m
    decreases |inputs|
  {
    if inputs != [] {
      IdleStays(m, inputs[1..]);
    }
  }

  lemma CallCounts(m: Machine, signals: Signals)
    requires Coupled(m) && m.converting
    ensures var n := Ticked(m, signals);
            && Coupled(n) && n.regs == m.regs
            && (if m.remaining > 1
                then n == m.(remaining := m.remaining - 1)
                else n.completions == m.completions + 1 && n.converting == m.regs.FreeRun()
                     && (n.converting ==> n.remaining == m.regs.Duration()))
  {
    CompletedCoupled(m, signals);
    hide Registers.Enabled, Registers.Duration, Registers.FreeRun, Completed;
  }

  /** The schedule is in calls: the first result when the count runs out, then, free running,
      one a duration. */
  lemma {:induction false} ExactSchedule(m: Machine, inputs: seq<Signals>)
    requires Coupled(m) && m.converting
    ensures TickAll(m, inputs).completions
            == m.completions + ResultsDue(m.regs.FreeRun(), m.remaining, m.regs.Duration(), |inputs|)
    decreases |inputs|
  {
    hide Ticked, Registers.FreeRun, Registers.Duration, Quotient, Registers.Enabled;
    if inputs != [] {
      var n := Ticked(m, inputs[0]);
      CallCounts(m, inputs[0]);
      if m.remaining > 1 || m.regs.FreeRun() {
        DueAdvance(m.regs.FreeRun(), m.remaining, m.regs.Duration(), 1, |inputs| - 1);
        ExactSchedule(n, inputs[1..]);
      } else {
        IdleStays(n, inputs[1..]);
      }
    }
  }

  /** A start command makes the k-th result due with the call that completes k durations. */
  lemma StartSchedule(m: Machine, value: bv8, inputs: seq<Signals>, k: nat)
    requires Coupled(m) && m.regs.Enabled() && value & 7 == 1 && k >= 1
    ensures var n := Written(m, Command, value);
            TickAll(n, inputs).completions >= m.completions + k
            <==> |inputs| >= k * n.regs.Duration() && (k == 1 || n.regs.FreeRun())
  {
    var n := Written(m, Command, value);
    hide Registers.Duration;
    CommandStarts(m, value);
    hide Written, TickAll, ResultsDue, Coupled, Registers.FreeRun, Registers.Enabled;
    StoreCoupled(m, Command, value);
    ExactSchedule(n, inputs);
    DueEvery(n.regs.FreeRun(), n.regs.Duration(), |inputs|, k);
  }

  lemma CommandStarts(m: Machine, value: bv8)
    requires m.regs.Enabled() && value & 7 == 1
    ensures var n := Written(m, Command, value);
            n.converting && n.completions == m.completions && n.remaining == n.regs.Duration()
  {
    hide Registers.Duration;
  }

  // ---- interrupts ---------------------------------------------------------------------------

  /** The interrupts acknowledged until none is requested, and the machine then. */
  function Drained(m: Machine): (Machine, nat)
    decreases Pending(m) as nat
  {
    if Acknowledged(Pending(m)).request == None then (m, 0)
    else
      AcknowledgedIsRequested(Pending(m));
      ConsumedLess(m);
      var (n, count) := Drained(Consumed(m));
      (n, count + 1)
  }

  /** The flags that a vector stands for. */
  function Sources(vector: Vector): bv8 {
    match vector
    case ResultReady => 0x01
    case WindowMatch => 0x04
  }

  /** An acknowledgement reports what is requested, and clears pending flags of the reported
      vector only, at least one if there is a request. */
  lemma AcknowledgedIsRequested(pending: bv8)
    ensures var answer := Acknowledged(pending);
            && answer.request == Requested(pending)
            && (answer.request == None <==> answer.cleared == 0)
            && (answer.request.Some? ==>
                  answer.cleared & pending & Sources(answer.request.value) == answer.cleared)
  {
  }

  lemma ConsumedLess(m: Machine)
    requires Requested(Pending(m)) != None
    ensures Pending(Consumed(m)) == Without(Pending(m), Acknowledged(Pending(m)).cleared)
    ensures Pending(Consumed(m)) as nat < Pending(m) as nat
  {
    var pending, group := Pending(m), Acknowledged(Pending(m)).cleared;
    assert group != 0 && pending & group == group;
    hide Acknowledged, Requested;
    ClearedAlike(m.intflags, m.intctrl, group);
    ClearedLess(pending, group);
  }

  function Groups(pending: bv8): nat {
    (if pending & 0x01 != 0 then 1 else 0) + (if pending & 0x04 != 0 then 1 else 0)
  }

  lemma OneGroupLess(pending: bv8)
    ensures Requested(pending) == None <==> Groups(pending) == 0
    ensures Requested(pending) != None ==> Groups(Without(pending, Acknowledged(pending).cleared)) == Groups(pending) - 1
  {
  }

  /** Draining takes one acknowledgement a pending flag and clears exactly the enabled flags
      that can request; nothing else changes. */
  lemma {:induction false} DrainExact(m: Machine)
    ensures var (n, count) := Drained(m);
            && n == m.(intflags := m.intflags & !(m.intctrl & 0x05))
            && count == Groups(Pending(m)) <= 2
    decreases Pending(m) as nat
  {
    OneGroupLess(Pending(m));
    AcknowledgedIsRequested(Pending(m));
    ClearedInSteps(m.intflags, m.intctrl);
    if Requested(Pending(m)) != None {
      ConsumedLess(m);
      DrainExact(Consumed(m));
    }
    hide Requested, Groups, Acknowledged;
  }

  lemma ClearedInSteps(flags: bv8, enabled: bv8)
    ensures Requested(flags & enabled) == None ==> flags & !(enabled & 0x05) == flags
    ensures Without(flags, Acknowledged(flags & enabled).cleared) & !(enabled & 0x05) == flags & !(enabled & 0x05)
  {
  }

  // ---- codes --------------------------------------------------------------------------------

  /** The eight-bit result is the ten-bit sample without its two lowest bits. */
  lemma ResultOfSample(m: Machine, signals: Signals)
    ensures var n := Completed(m, signals);
            n.result == if m.regs.Resolution() == 8 then n.sample / 4 else n.sample
  {
    var raw := Raw(m.regs, signals);
    assert raw % 0x400 == raw && raw / 4 % 256 == raw / 4;
    hide Raw, Raised, With, Without, Registers.Resolution, Registers.Duration, Registers.Enabled;
  }

  /** The sample is a nearest code to the scaled, clamped input. */
  lemma SampleNearest(r: Registers, volts: nat -> real)
    ensures -0.5 <= Scale(r, volts) - Raw(r, Some(volts)) as real < 0.5
  {
    hide Scale;
  }
}
