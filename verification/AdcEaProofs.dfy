/** The EA converter over whole runs: the busy bit, split ticks, the schedule and draining. */
module AdcEaProofs {
  import opened Bits
  import opened Common
  import opened ModernAdc
  import opened AdcEaModel

  datatype Op =
    | Tick(signals: Signals, elapsed: nat)
    | Store(register: Register, value: bv8)
    | Heat(celsius: real)
    | Acknowledge

  function Applied(m: Machine, op: Op): Machine {
    match op
    case Tick(signals, elapsed) => Ticked(m, signals, elapsed)
    case Store(register, value) => Written(m, register, value)
    case Heat(celsius) => m.(celsius := celsius)
    case Acknowledge => Consumed(m)
  }

  function Run(m: Machine, ops: seq<Op>): Machine {
    if ops == [] then m else Applied(Run(m, ops[..|ops| - 1]), ops[|ops| - 1])
  }

  // ---- the busy bit -------------------------------------------------------------------------

  /** The status is the busy bit alone, set exactly while a conversion has cycles to go, and
      then the converter is enabled; the result and the sample fit their registers. */
  predicate Coupled(m: Machine) {
    && m.status == (if m.converting then 0x01 else 0x00)
    && (m.converting <==> m.remaining > 0)
    && (m.converting ==> m.regs.Enabled())
    && m.sample <= 4095 && m.result < 0x10000
  }

  lemma StartedCoupled(m: Machine)
    requires Coupled(m)
    ensures Coupled(Started(m))
  {
    hide Registers.Enabled, Registers.Duration;
  }

  lemma AdjustedFits(r: Registers, raw: nat)
    requires raw <= r.MaxCode()
    ensures Adjusted(r, raw) < 0x10000
  {
    MulMonotone(raw, r.MaxCode(), r.LeftShift());
    Distribute(r.MaxCode(), 1, r.LeftShift());
    assert r.LeftShift() * (r.MaxCode() + 1) == (r.MaxCode() + 1) * r.LeftShift();
    hide Registers.LeftAdjusted, Registers.Resolution;
  }

  lemma CompletedCoupled(m: Machine, signals: Signals)
    requires Coupled(m) && m.converting
    ensures var n := Completed(m, signals);
            && Coupled(n) && n.regs == m.regs && n.completions == m.completions + 1
            && n.converting == m.regs.FreeRun()
            && n.remaining == (if m.regs.FreeRun() then m.regs.Duration() else 0)
  {
    var raw := Raw(m.regs, signals);
    AdjustedFits(m.regs, raw);
    var done := m.(converting := false, status := Without(m.status, 0x01), remaining := 0, sample := raw,
                   result := Adjusted(m.regs, raw), completions := m.completions + 1,
                   temperature := if m.regs.MeasuresTemperature() then Thermometer(m.celsius) else m.temperature,
                   intflags := With(m.intflags, Raised(m.regs, raw, Adjusted(m.regs, raw))));
    StartedCoupled(done);
    hide Registers.Enabled, Registers.Duration, Registers.FreeRun, Registers.MaxCode, Raw, Raised, Adjusted;
  }

  lemma StoreCoupled(m: Machine, register: Register, value: bv8)
    requires Coupled(m)
    ensures Coupled(Written(m, register, value))
  {
    if register == CtrlA {
      ControlCoupled(m, value);
    } else {
      hide Set, Starts, Started, Without, ControlWritten;
      StartedCoupled(m.(regs := Set(m.regs, register, value)));
    }
  }

  lemma ControlCoupled(m: Machine, value: bv8)
    requires Coupled(m)
    ensures Coupled(ControlWritten(m, value))
  {
    assert (value & 0xA1) & 0x01 == value & 0x01;
  }

  predicate MaskedControl(ctrla: bv8, ctrlb: bv8, ctrlc: bv8, ctrld: bv8, ctrlf: bv8) {
    ctrla & 0x5E == 0 && ctrlb <= 0x0F && ctrlc <= 0x07 && ctrld <= 0x0F && ctrlf <= 0x7F
  }

  /** Bits that the registers do not have stay clear, and the window bounds fit theirs. */
  predicate Masked(r: Registers) {
    MaskedControl(r.ctrla, r.ctrlb, r.ctrlc, r.ctrld, r.ctrlf) && r.winlt < 0x10000 && r.winht < 0x10000
  }

  lemma MaskedBits(value: bv8)
    ensures (value & 0xA1) & 0x5E == 0
    ensures value & 0x0F <= 0x0F && value & 0x07 <= 0x07 && value & 0x7F <= 0x7F
  {
  }

  lemma ControlMasked(r: Registers, value: bv8)
    requires Masked(r)
    ensures Masked(Set(r, CtrlA, value)) && Masked(Set(r, CtrlB, value)) && Masked(Set(r, CtrlC, value))
    ensures Masked(Set(r, CtrlD, value)) && Masked(Set(r, CtrlF, value))
  {
    MaskedBits(value);
  }

  lemma WindowMasked(r: Registers, value: bv8)
    requires Masked(r)
    ensures Masked(Set(r, WinLtLow, value)) && Masked(Set(r, WinLtHigh, value))
    ensures Masked(Set(r, WinHtLow, value)) && Masked(Set(r, WinHtHigh, value))
  {
    hide WithLow, WithHigh, MaskedControl;
  }

  lemma OthersMasked(r: Registers, value: bv8)
    requires Masked(r)
    ensures Masked(Set(r, CtrlE, value)) && Masked(Set(r, PgaCtrl, value)) && Masked(Set(r, MuxPos, value))
  {
    hide MaskedControl;
  }

  lemma RestMasked(r: Registers, value: bv8)
    requires Masked(r)
    ensures Masked(Set(r, MuxNeg, value)) && Masked(Set(r, Command, value)) && Masked(Set(r, DbgCtrl, value))
    ensures Masked(Set(r, IntCtrl, value)) && Masked(Set(r, IntFlags, value))
  {
    hide MaskedControl;
  }

  lemma SetMasked(r: Registers, register: Register, value: bv8)
    requires Masked(r)
    ensures Masked(Set(r, register, value))
  {
    ControlMasked(r, value);
    WindowMasked(r, value);
    OthersMasked(r, value);
    RestMasked(r, value);
    hide Set, Masked;
  }

  lemma AppliedMasked(m: Machine, op: Op)
    requires Masked(m.regs)
    ensures Masked(Applied(m, op).regs)
  {
    hide Masked, Set, Starts, Raw, Raised, Adjusted, With, Without;
    if op.Store? {
      SetMasked(m.regs, op.register, op.value);
    }
  }

  lemma AppliedCoupled(m: Machine, op: Op)
    requires Coupled(m)
    ensures Coupled(Applied(m, op))
  {
    match op
    case Tick(signals, elapsed) =>
      if m.converting {
        CompletedCoupled(m, signals);
      }
      hide Registers.Enabled, Registers.Duration, Completed;
    case Store(register, value) =>
      StoreCoupled(m, register, value);
      hide Written;
    case Heat(_) =>
    case Acknowledge => hide Acknowledged, Without;
  }

  /** In every run from power-on. */
  lemma {:induction false} AlwaysCoupled(ops: seq<Op>)
    ensures Coupled(Run(PowerOn(), ops)) && Masked(Run(PowerOn(), ops).regs)
  {
    hide Applied, Registers.Enabled;
    if ops == [] {
      assert Masked(PowerOn().regs);
    } else {
      hide Masked;
      AlwaysCoupled(ops[..|ops| - 1]);
      AppliedCoupled(Run(PowerOn(), ops[..|ops| - 1]), ops[|ops| - 1]);
      AppliedMasked(Run(PowerOn(), ops[..|ops| - 1]), ops[|ops| - 1]);
    }
  }

  // ---- time ---------------------------------------------------------------------------------

  /** Two ticks are one exactly when no free-running restart falls between them. */
  lemma SplitExact(m: Machine, signals: Signals, x: nat, y: nat)
    requires Coupled(m)
    ensures Ticked(Ticked(m, signals, x), signals, y) == Ticked(m, signals, x + y)
            <==> (!m.converting || !m.regs.FreeRun() || x < m.remaining || y == 0)
  {
    hide Ticked, Registers.FreeRun, Registers.Enabled;
    if !m.converting {
      SplitIdle(m, signals, x, y);
    } else if x < m.remaining {
      SplitBefore(m, signals, x, y);
    } else {
      SplitAfter(m, signals, x, y);
    }
  }

  lemma SplitIdle(m: Machine, signals: Signals, x: nat, y: nat)
    requires !m.converting
    ensures Ticked(Ticked(m, signals, x), signals, y) == Ticked(m, signals, x + y)
  {
    hide Completed, Registers.Enabled;
  }

  lemma SplitBefore(m: Machine, signals: Signals, x: nat, y: nat)
    requires m.converting && x < m.remaining
    ensures Ticked(Ticked(m, signals, x), signals, y) == Ticked(m, signals, x + y)
  {
    hide Completed, Registers.Enabled;
    CompletedIgnoresCount(m, m.remaining - x, signals);
  }

  lemma SplitAfter(m: Machine, signals: Signals, x: nat, y: nat)
    requires Coupled(m) && m.converting && x >= m.remaining
    ensures Ticked(Ticked(m, signals, x), signals, y) == Ticked(m, signals, x + y) <==> !m.regs.FreeRun() || y == 0
  {
    hide Completed, Registers.Duration, Registers.FreeRun, Registers.Enabled;
    var n := Completed(m, signals);
    CompletedCoupled(m, signals);
    if n.converting {
      CompletedCoupled(n, signals);
    }
    assert Ticked(m, signals, x) == n && Ticked(m, signals, x + y) == n;
  }

  lemma CompletedIgnoresCount(m: Machine, remaining: nat, signals: Signals)
    ensures Completed(m.(remaining := remaining), signals) == Completed(m, signals)
  {
    hide With, Without, Raw, Raised, Started;
  }

  /** Free running from power-on: two ticks of a conversion's length and of one cycle are not
      one tick of both. */
  lemma SplitLosesCycle(signals: Signals)
    ensures var m := Run(PowerOn(), [Store(CtrlA, 1), Store(CtrlF, 0x20), Store(Command, 1)]);
            Ticked(Ticked(m, signals, m.remaining), signals, 1) != Ticked(m, signals, m.remaining + 1)
  {
    hide Registers.Duration, Registers.FreeRun, Registers.Enabled;
    var ops := [Store(CtrlA, 1), Store(CtrlF, 0x20), Store(Command, 1)];
    var r := PowerOn().regs;
    var one := PowerOn().(regs := r.(ctrla := 1));
    var two := one.(regs := r.(ctrla := 1, ctrlf := 0x20));
    AlwaysCoupled(ops);
    RunSnoc(PowerOn(), [], ops[0]);
    RunSnoc(PowerOn(), ops[..1], ops[1]);
    RunSnoc(PowerOn(), ops[..2], ops[2]);
    assert [] + [ops[0]] == ops[..1] && ops[..1] + [ops[1]] == ops[..2] && ops[..2] + [ops[2]] == ops;
    assert Run(PowerOn(), []) == PowerOn();
    hide Run, Ticked, Coupled;
    StoreEnables(PowerOn());
    StoreFreeRuns(one);
    StoreStarts(two);
    EnabledByCtrlA(r);
    hide Applied;
    var m := Started(two.(regs := two.regs.(command := 1)));
    SplitExact(m, signals, m.remaining, 1);
  }

  lemma StoreEnables(m: Machine)
    ensures Applied(m, Store(CtrlA, 1)) == m.(regs := m.regs.(ctrla := 1))
  {
    hide Without;
  }

  lemma StoreFreeRuns(m: Machine)
    ensures Applied(m, Store(CtrlF, 0x20)) == m.(regs := m.regs.(ctrlf := 0x20))
  {
    hide Without, Started, ControlWritten;
  }

  lemma StoreStarts(m: Machine)
    ensures Applied(m, Store(Command, 1)) == Started(m.(regs := m.regs.(command := 1)))
  {
    hide Without, Started, ControlWritten;
  }

  lemma EnabledByCtrlA(r: Registers)
    ensures r.(ctrla := 1, ctrlf := 0x20, command := 1).Enabled()
    ensures r.(ctrla := 1, ctrlf := 0x20, command := 1).FreeRun()
  {
  }

  lemma RunSnoc(m: Machine, ops: seq<Op>, op: Op)
    ensures Run(m, ops + [op]) == Applied(Run(m, ops), op)
  {
    hide Applied;
    assert (ops + [op])[..|ops|] == ops;
  }

  datatype Slice = Slice(signals: Signals, elapsed: nat)

  function TickAll(m: Machine, slices: seq<Slice>): Machine
    decreases |slices|
  {
    if slices == [] then m else TickAll(Ticked(m, slices[0].signals, slices[0].elapsed), slices[1..])
  }

  function Total(slices: seq<Slice>): nat
    decreases |slices|
  {
    if slices == [] then 0 else slices[0].elapsed + Total(slices[1..])
  }

  /** Free running, no tick is longer than the count it finds. */
  predicate Fine(m: Machine, slices: seq<Slice>)
    decreases |slices|
  {
    slices == []
    || ((m.regs.FreeRun() ==> slices[0].elapsed <= m.remaining)
        && Fine(Ticked(m, slices[0].signals, slices[0].elapsed), slices[1..]))
  }

  lemma {:induction false} IdleStays(m: Machine, slices: seq<Slice>)
    requires !m.converting
    ensures TickAll(m, slices) == m
    decreases |slices|
  {
    if slices != [] {
      IdleStays(m, slices[1..]);
    }
  }

  lemma SliceCounts(m: Machine, signals: Signals, elapsed: nat)
    requires Coupled(m) && m.converting
    ensures var n := Ticked(m, signals, elapsed);
            && Coupled(n) && n.regs == m.regs
            && (if elapsed < m.remaining
                then n == m.(remaining := m.remaining - elapsed)
                else n.completions == m.completions + 1 && n.converting == m.regs.FreeRun()
                     && (n.converting ==> n.remaining == m.regs.Duration()))
  {
    CompletedCoupled(m, signals);
    hide Registers.Enabled, Registers.Duration, Registers.FreeRun, Completed;
  }

  /** The results over any slices: the first when the count runs out, then, free running, one
      a duration. */
  lemma {:induction false} ExactSchedule(m: Machine, slices: seq<Slice>)
    requires Coupled(m) && m.converting && Fine(m, slices)
    ensures TickAll(m, slices).completions
            == m.completions + ResultsDue(m.regs.FreeRun(), m.remaining, m.regs.Duration(), Total(slices))
    decreases |slices|
  {
    hide Ticked, Registers.FreeRun, Registers.Duration, Quotient, Registers.Enabled;
    if slices != [] {
      var elapsed := slices[0].elapsed;
      var n := Ticked(m, slices[0].signals, elapsed);
      SliceCounts(m, slices[0].signals, elapsed);
      if elapsed < m.remaining || m.regs.FreeRun() {
        DueAdvance(m.regs.FreeRun(), m.remaining, m.regs.Duration(), elapsed, Total(slices[1..]));
        ExactSchedule(n, slices[1..]);
      } else {
        IdleStays(n, slices[1..]);
      }
    }
  }

  /** Whatever the converter was doing, a start command makes the k-th result due k durations
      later; a single conversion has no second one. */
  lemma StartSchedule(m: Machine, value: bv8, slices: seq<Slice>, k: nat)
    requires Coupled(m) && m.regs.Enabled() && value & 7 == 1 && k >= 1
    requires Fine(Written(m, Command, value), slices)
    ensures var n := Written(m, Command, value);
            TickAll(n, slices).completions >= m.completions + k
            <==> Total(slices) >= k * n.regs.Duration() && (k == 1 || n.regs.FreeRun())
  {
    var n := Written(m, Command, value);
    hide Registers.Duration;
    CommandStarts(m, value);
    hide Written, TickAll, Total, Fine, ResultsDue, Coupled, Registers.FreeRun, Registers.Enabled;
    StoreCoupled(m, Command, value);
    ExactSchedule(n, slices);
    DueEvery(n.regs.FreeRun(), n.regs.Duration(), Total(slices), k);
  }

  lemma CommandStarts(m: Machine, value: bv8)
    requires m.regs.Enabled() && value & 7 == 1
    ensures var n := Written(m, Command, value);
            n.converting && n.completions == m.completions && n.remaining == n.regs.Duration()
  {
    hide Registers.Duration;
  }

  // ---- interrupts ---------------------------------------------------------------------------

  /** The interrupts acknowledged until none is requested, and the machine then. */
  function Drained(m: Machine): (Machine, nat)
    decreases Pending(m) as nat
  {
    if Acknowledged(Pending(m)).request == None then (m, 0)
    else
      AcknowledgedIsRequested(Pending(m));
      ConsumedLess(m);
      var (n, count) := Drained(Consumed(m));
      (n, count + 1)
  }

  /** The flags that a vector stands for. */
  function Sources(vector: Vector): bv8 {
    match vector
    case ResultReady => 0x1D
    case SampleReady => 0x02
    case Error => 0x20
  }

  /** An acknowledgement reports what is requested, and clears pending flags of the reported
      vector only, at least one if there is a request. */
  lemma AcknowledgedIsRequested(pending: bv8)
    ensures var answer := Acknowledged(pending);
            && answer.request == Requested(pending)
            && (answer.request == None <==> answer.cleared == 0)
            && (answer.request.Some? ==>
                  answer.cleared & pending & Sources(answer.request.value) == answer.cleared)
  {
  }

  lemma ConsumedLess(m: Machine)
    requires Requested(Pending(m)) != None
    ensures Pending(Consumed(m)) as nat < Pending(m) as nat
  {
    var p, g := Pending(m), Acknowledged(Pending(m)).cleared;
    assert g != 0 && p & g == g;
    ClearedAlike(m.intflags, m.intctrl, g);
    hide Acknowledged, Requested;
    ClearedLess(p, g);
  }

  /** The four groups of flags, in order of priority. */
  function Groups(pending: bv8): (n: nat)
    ensures n <= 4
  {
    (if pending & 0x01 != 0 then 1 else 0) + (if pending & 0x02 != 0 then 1 else 0)
    + (if pending & 0x20 != 0 then 1 else 0) + (if pending & 0x1C != 0 then 1 else 0)
  }

  lemma OneGroupLess(pending: bv8)
    ensures Requested(pending) == None <==> Groups(pending) == 0
    ensures Requested(pending) != None ==> Groups(Without(pending, Acknowledged(pending).cleared)) == Groups(pending) - 1
  {
  }

  /** All flags but the enabled ones that can request. */
  function Unrequested(flags: bv8, enabled: bv8): bv8 { flags & !(enabled & 0x3F) }

  lemma PendingConsumed(m: Machine)
    ensures Pending(Consumed(m)) == Without(Pending(m), Acknowledged(Pending(m)).cleared)
  {
    hide Acknowledged, Without;
    var flags, enabled, group := m.intflags, m.intctrl, Acknowledged(Pending(m)).cleared;
    assert Pending(m) == flags & enabled;
    assert Pending(Consumed(m)) == Without(flags, group) & enabled;
    hide Pending, Consumed;
    ClearedAlike(flags, enabled, group);
  }

  lemma UnrequestedKept(m: Machine)
    ensures Requested(Pending(m)) == None ==> Unrequested(m.intflags, m.intctrl) == m.intflags
    ensures Unrequested(Consumed(m).intflags, m.intctrl) == Unrequested(m.intflags, m.intctrl)
  {
    hide Requested, Acknowledged, Without, Unrequested;
    ClearedInSteps(m.intflags, m.intctrl);
  }

  lemma OneDrained(m: Machine)
    ensures Requested(Pending(m)) == None ==>
              Unrequested(m.intflags, m.intctrl) == m.intflags && Groups(Pending(m)) == 0
    ensures Requested(Pending(m)) != None ==>
              && Groups(Pending(Consumed(m))) == Groups(Pending(m)) - 1
              && Unrequested(Consumed(m).intflags, m.intctrl) == Unrequested(m.intflags, m.intctrl)
  {
    hide Requested, Groups, Acknowledged, Without, Unrequested, Pending, Consumed;
    PendingConsumed(m);
    UnrequestedKept(m);
    OneGroupLess(Pending(m));
  }

  /** Draining takes one acknowledgement a pending group, at most four, and clears exactly the
      enabled flags that can request; nothing else changes. */
  lemma {:induction false} DrainExact(m: Machine)
    ensures var (n, count) := Drained(m);
            && n == m.(intflags := Unrequested(m.intflags, m.intctrl))
            && count == Groups(Pending(m)) <= 4
    decreases Pending(m) as nat
  {
    OneDrained(m);
    AcknowledgedIsRequested(Pending(m));
    assert Consumed(m) == m.(intflags := Consumed(m).intflags);
    if Requested(Pending(m)) != None {
      ConsumedLess(m);
      hide Requested, Groups, Acknowledged, Unrequested, Pending, Consumed;
      DrainExact(Consumed(m));
    }
    hide Requested, Groups, Acknowledged, Unrequested, Pending, Consumed;
  }

  lemma ClearedInSteps(flags: bv8, enabled: bv8)
    ensures Requested(flags & enabled) == None ==> Unrequested(flags, enabled) == flags
    ensures Unrequested(Without(flags, Acknowledged(flags & enabled).cleared), enabled) == Unrequested(flags, enabled)
  {
  }

  // ---- codes --------------------------------------------------------------------------------

  /** A single-ended code is a nearest one to the scaled, clamped input. */
  lemma SingleEndedNearest(r: Registers, volts: nat -> real)
    requires !r.Differential()
    ensures -0.5 <= Scale(r, volts) - Code(r, volts) as real < 0.5
  {
    hide Scale, Registers.MaxCode;
  }

  /** A differential code is not cut off exactly if the difference is below the share of the
      reference that the resolution leaves: all of it at 12 bits, and well below zero else. */
  lemma DifferentialExact(r: Registers, volts: nat -> real)
    requires r.Differential()
    ensures Code(r, volts) == DifferentialCode(r, volts)
            <==> Difference(r, volts) * 2047.0 < (r.MaxCode() - 2047) as real * Reference(r.ctrlc)
  {
    var vin, vref := Difference(r, volts), Reference(r.ctrlc);
    var max: int := r.MaxCode();
    var ratio := vin / vref;
    assert ratio * vref == vin;
    hide Difference, Reference, Registers.MaxCode;
    assert Code(r, volts) == DifferentialCode(r, volts) <==> ratio * 2047.0 < (max - 2047) as real;
    Rescaled(ratio * 2047.0, (max - 2047) as real, vref);
    assert ratio * 2047.0 * vref == vin * 2047.0;
  }

  /** Equal differential inputs read as mid-scale at 12 bits, and as full scale below. */
  lemma DifferentialZero(r: Registers, volts: nat -> real)
    requires r.Differential() && volts((r.muxpos & 0x3F) as nat) == volts((r.muxneg & 0x3F) as nat)
    ensures Code(r, volts) == if r.Resolution() == 12 then 2048 else r.MaxCode()
  {
    var vref := Reference(r.ctrlc);
    assert Difference(r, volts) == 0.0;
    assert 0.0 / vref * 2047.0 + 2048.0 == 2048.0;
    assert DifferentialCode(r, volts) == 2048 by {
      hide Reference;
    }
    hide DifferentialCode;
  }

  /** Within the twelve bits, the temperature bytes are the offset temperature to half a degree. */
  lemma ThermometerReads(celsius: real)
    requires -307.5 <= celsius < 3788.5
    ensures var t := Thermometer(celsius);
            t.low < 256 && t.high < 16 && -0.5 <= celsius + 307.0 - (256 * t.high + t.low) as real < 0.5
    ensures celsius >= 27.0 ==> Thermometer(celsius).deviation == ((celsius - 27.0) * 256.0 + 0.5).Floor % 256
    ensures 27.0 <= celsius < 28.0 - 0.5 / 256.0 ==>
              -0.5 <= (celsius - 27.0) * 256.0 - Thermometer(celsius).deviation as real < 0.5
  {
    var kelvin := Truncated(celsius + 307.0 + 0.5);
    assert 0 <= kelvin < 0x1000 && kelvin == 256 * (kelvin / 256) + kelvin % 256;
  }
}
