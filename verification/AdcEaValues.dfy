/** The settings of the EA converter by their values: codes, results and flags, durations, and
    that registers read back as written. */
module AdcEaValues {
  import opened Bits
  import opened Common
  import opened ModernAdc
  import opened AdcEaModel
  import opened AdcEaProofs

  /** The resolution by the mode bits of COMMAND. */
  lemma ResolutionExact(r: Registers)
    ensures var mode := (r.command >> 4) & 7;
            && r.Resolution() == (if mode == 0 then 8 else if mode == 1 then 10 else 12)
            && r.MaxCode() == (if mode == 0 then 255 else if mode == 1 then 1023 else 4095)
            && r.LeftShift() == (if mode == 0 then 256 else if mode == 1 then 64 else 16)
  {
  }

  lemma GainExact(r: Registers)
    ensures r.Gain() == [1, 2, 4, 8, 16, 1, 1, 1][((r.pgactrl >> 5) & 7) as nat]
  {
  }

  // ---- codes --------------------------------------------------------------------------------

  /** A single-ended code is k exactly if the amplified input is within half a step of the k-th of
      the steps up to the reference; the lowest and the highest code take all that is beyond. */
  lemma SingleEndedExact(r: Registers, volts: nat -> real, gain: nat, ref: real, top: nat, k: nat)
    requires r.command & 0x80 == 0 && k <= top
    requires gain == [1, 2, 4, 8, 16, 1, 1, 1][((r.pgactrl >> 5) & 7) as nat]
    requires ref == var bits := r.ctrlc & 7;
                    if bits == 4 then 1.024 else if bits == 5 then 2.048
                    else if bits == 6 then 4.096 else if bits == 7 then 2.5 else 5.0
    requires top == var mode := (r.command >> 4) & 7; if mode == 0 then 255 else if mode == 1 then 1023 else 4095
    ensures Code(r, volts) == k <==> IsNearest(volts((r.muxpos & 0x3F) as nat) * gain as real, ref, top, k)
  {
    hide Code, IsNearest, Amplified, Reference, Registers.MaxCode, Registers.Gain;
    GainExact(r);
    ReferenceExact(r.ctrlc);
    ResolutionExact(r);
    AmplifiedIs(volts((r.muxpos & 0x3F) as nat), r.Gain());
    SingleEndedNearest(r, volts, k);
  }

  lemma SingleEndedNearest(r: Registers, volts: nat -> real, k: nat)
    requires r.command & 0x80 == 0 && k <= r.MaxCode()
    ensures Code(r, volts) == k
            <==> IsNearest(Amplified(volts((r.muxpos & 0x3F) as nat), r.Gain()), Reference(r.ctrlc), r.MaxCode(), k)
  {
    hide Amplified, Code, Reference, Registers.MaxCode, Registers.Gain, NearestCode, IsNearest;
    SingleEndedIs(r, volts);
    NearestExact(Amplified(volts((r.muxpos & 0x3F) as nat), r.Gain()), Reference(r.ctrlc), r.MaxCode(), k);
  }

  lemma SingleEndedIs(r: Registers, volts: nat -> real)
    requires r.command & 0x80 == 0
    ensures Code(r, volts)
            == NearestCode(Amplified(volts((r.muxpos & 0x3F) as nat), r.Gain()), Reference(r.ctrlc), r.MaxCode())
  {
    hide Amplified, DifferentialCode, Reference, Registers.MaxCode, Registers.Gain, Rounded, Clamped, Portion;
  }

  lemma DifferentialIs(r: Registers, volts: nat -> real)
    requires r.command & 0x80 != 0
    ensures var d := Amplified(volts((r.muxpos & 0x3F) as nat) - volts((r.muxneg & 0x3F) as nat), r.Gain());
            Code(r, volts) == Min(SignedCode(d, Reference(r.ctrlc)), r.MaxCode())
            && SignedCode(d, Reference(r.ctrlc)) == DifferentialCode(r, volts)
  {
    hide Amplified, Scale, Reference, Registers.MaxCode, Registers.Gain, Clamped, Portion;
  }

  /** A differential code is k exactly if the amplified difference is in the k-th of 4095 steps
      from the negative reference to the positive one, with the highest code of the resolution
      taking all above. */
  lemma DifferentialCodeExact(r: Registers, volts: nat -> real, gain: nat, ref: real, top: nat, k: nat)
    requires r.command & 0x80 != 0 && 1 <= k <= top
    requires gain == [1, 2, 4, 8, 16, 1, 1, 1][((r.pgactrl >> 5) & 7) as nat]
    requires ref == var bits := r.ctrlc & 7;
                    if bits == 4 then 1.024 else if bits == 5 then 2.048
                    else if bits == 6 then 4.096 else if bits == 7 then 2.5 else 5.0
    requires top == var mode := (r.command >> 4) & 7; if mode == 0 then 255 else if mode == 1 then 1023 else 4095
    ensures var d := volts((r.muxpos & 0x3F) as nat) - volts((r.muxneg & 0x3F) as nat);
            Code(r, volts) == k <==> IsSignedStep(d * gain as real, ref, top, k)
  {
    hide Code, IsSignedStep, Amplified, Reference, Registers.MaxCode, Registers.Gain;
    GainExact(r);
    ReferenceExact(r.ctrlc);
    ResolutionExact(r);
    AmplifiedIs(volts((r.muxpos & 0x3F) as nat) - volts((r.muxneg & 0x3F) as nat), r.Gain());
    SignedSteps(r, volts, k);
  }

  lemma AmplifiedIs(volts: real, gain: nat)
    ensures Amplified(volts, gain) == volts * gain as real
  {
  }

  lemma SignedSteps(r: Registers, volts: nat -> real, k: nat)
    requires r.command & 0x80 != 0 && 1 <= k <= r.MaxCode()
    ensures var d := volts((r.muxpos & 0x3F) as nat) - volts((r.muxneg & 0x3F) as nat);
            Code(r, volts) == k <==> IsSignedStep(Amplified(d, r.Gain()), Reference(r.ctrlc), r.MaxCode(), k)
  {
    hide Amplified, Code, DifferentialCode, Reference, Registers.MaxCode, Registers.Gain, SignedCode, IsSignedStep;
    DifferentialIs(r, volts);
    var d := volts((r.muxpos & 0x3F) as nat) - volts((r.muxneg & 0x3F) as nat);
    SignedExact(Amplified(d, r.Gain()), Reference(r.ctrlc), r.MaxCode(), k);
  }

  // ---- results ------------------------------------------------------------------------------

  /** What a completion stores: the code as sample, shifted up to bit 15 as a left-adjusted result. */
  lemma ResultExact(m: Machine, signals: Signals)
    ensures var n, code := Completed(m, signals), Raw(m.regs, signals);
            var mode := (m.regs.command >> 4) & 7;
            && n.sample == code
            && n.result == (if m.regs.ctrlf & 0x10 == 0 then code
                            else code * (if mode == 0 then 256 else if mode == 1 then 64 else 16))
            && n.temperature == (if m.regs.ctrla & 0x20 != 0 then Thermometer(m.celsius) else m.temperature)
  {
    ResolutionExact(m.regs);
    hide Raw, Raised, Registers.Resolution, Registers.LeftShift, Thermometer, Registers.Duration, With, Without;
  }

  /** It raises RESRDY, and WCMP if the sample or the result, by CTRLD, meets the window. */
  lemma FlagsExact(m: Machine, signals: Signals)
    ensures var n := Completed(m, signals);
            var compared := if m.regs.ctrld & 0x08 != 0 then n.sample else n.result;
            var met := InWindow(m.regs.ctrld, m.regs.winlt, m.regs.winht, compared);
            n.intflags == m.intflags | (if met then 0x05 else 0x01)
  {
    AdjustedFits(m.regs, Raw(m.regs, signals));
    FlagsByWindow(m, signals);
    hide Raw, Adjusted, InWindow, Registers.Duration, Without, Completed;
  }

  lemma FlagsByWindow(m: Machine, signals: Signals)
    ensures var n, raw := Completed(m, signals), Raw(m.regs, signals);
            && n.sample == raw && n.result == Adjusted(m.regs, raw)
            && n.intflags == With(m.intflags, Raised(m.regs, raw, Adjusted(m.regs, raw)))
  {
    hide Raw, Adjusted, Raised, With, Without, Registers.Duration;
  }

  lemma RawExact(r: Registers, volts: nat -> real)
    ensures Raw(r, Some(volts)) == Code(r, volts) && Raw(r, None) == 0
  {
  }

  // ---- durations ----------------------------------------------------------------------------

  /** Cycles of a conversion: SAMPNUM + 1 samplings of SAMPDUR clocks, at least 2, then 8, 10 or 12
      bits and one clock more, in clocks divided by 2 to 64. */
  function ConversionCycles(r: Registers): int {
    var length := if r.ctrle < 2 then 2 else r.ctrle as nat;
    var mode := (r.command >> 4) & 7;
    var bits := if mode == 0 then 8 else if mode == 1 then 10 else 12;
    var i := (r.ctrlb & 0x0F) as nat;
    var divisor := if i < 8 then 2 * (i + 1) else if i < 12 then 4 * (i - 3) else 8 * (i - 7);
    (length * ((r.ctrlf & 0x0F) as nat + 1) + bits + 1) * divisor
  }

  lemma DurationExact(r: Registers)
    ensures r.Duration() == ConversionCycles(r)
  {
    DivisorExact(r.ctrlb);
    ResolutionExact(r);
    hide Divisor, Registers.Resolution;
  }

  /** The k-th result of a start command comes k conversions after it, only the first without free
      running. */
  lemma StartScheduleExact(m: Machine, value: bv8, slices: seq<Slice>, k: nat)
    requires Coupled(m) && m.regs.ctrla & 0x01 != 0 && value & 7 == 1 && k >= 1
    requires Fine(Written(m, Command, value), slices)
    ensures TickAll(Written(m, Command, value), slices).completions >= m.completions + k
            <==> Total(slices) >= k * ConversionCycles(m.regs.(command := value)) && (k == 1 || m.regs.ctrlf & 0x20 != 0)
  {
    hide Registers.Duration, ConversionCycles, TickAll, Total, Fine, Coupled;
    CommandSettings(m, value);
    hide Written;
    DurationExact(m.regs.(command := value));
    StartSchedule(m, value, slices, k);
  }

  lemma CommandSettings(m: Machine, value: bv8)
    requires m.regs.ctrla & 0x01 != 0 && value & 7 == 1
    ensures Written(m, Command, value).regs == m.regs.(command := value)
  {
    hide Registers.Duration;
  }

  // ---- registers ----------------------------------------------------------------------------

  /** A start is a start command, or a choice of the input while starting on it. */
  lemma StartsExact(m: Machine, register: Register, value: bv8)
    requires !m.converting
    ensures Written(m, register, value).converting
            <==> m.regs.ctrla & 0x01 != 0
                 && ((register == Command && value & 7 == 1) || (register == MuxPos && m.regs.command & 7 == 2))
  {
    hide Registers.Duration, With, Without, Set;
    if Starts(m.regs, register, value) {
      ControlKept(m.regs, register, value);
    }
  }

  lemma ControlKept(r: Registers, register: Register, value: bv8)
    requires register == Command || register == MuxPos
    ensures Set(r, register, value).ctrla == r.ctrla
  {
  }

  /** A byte of the register file. */
  function Byte(r: Registers, register: Register): nat {
    match register
    case CtrlA => r.ctrla as nat
    case CtrlB => r.ctrlb as nat
    case CtrlC => r.ctrlc as nat
    case CtrlD => r.ctrld as nat
    case CtrlE => r.ctrle as nat
    case CtrlF => r.ctrlf as nat
    case DbgCtrl => r.dbgctrl as nat
    case PgaCtrl => r.pgactrl as nat
    case MuxPos => r.muxpos as nat
    case MuxNeg => r.muxneg as nat
    case Command => r.command as nat
    case WinLtLow => r.winlt % 256
    case WinLtHigh => r.winlt / 256
    case WinHtLow => r.winht % 256
    case WinHtHigh => r.winht / 256
    case _ => 0
  }

  /** The bits that a register has. */
  function Mask(register: Register): bv8 {
    match register
    case CtrlA => 0xA1
    case CtrlB => 0x0F
    case CtrlC => 0x07
    case CtrlD => 0x0F
    case CtrlF => 0x7F
    case DbgCtrl => 0x01
    case _ => 0xFF
  }

  predicate IsWindow(register: Register) {
    register == WinLtLow || register == WinLtHigh || register == WinHtLow || register == WinHtHigh
  }

  lemma StoredThere(r: Registers, register: Register, value: bv8)
    requires register != IntCtrl && register != IntFlags && !IsWindow(register)
    ensures Byte(Set(r, register, value), register) == (value & Mask(register)) as nat
  {
    assert value & 0xFF == value;
    hide WithLow, WithHigh;
  }

  lemma NotStoredElsewhere(r: Registers, register: Register, value: bv8, other: Register)
    requires register != other && !IsWindow(register)
    ensures Byte(Set(r, register, value), other) == Byte(r, other)
  {
    hide WithLow, WithHigh;
  }

  lemma WindowStored(r: Registers, register: Register, value: bv8)
    requires IsWindow(register)
    ensures Byte(Set(r, register, value), register) == value as nat
  {
    hide WithLow, WithHigh;
    match register
    case WinLtLow => WordBytes(r.winlt, value);
    case WinLtHigh => WordBytes(r.winlt, value);
    case WinHtLow => WordBytes(r.winht, value);
    case WinHtHigh => WordBytes(r.winht, value);
  }

  lemma WindowNotElsewhere(r: Registers, register: Register, value: bv8, other: Register)
    requires IsWindow(register) && register != other
    ensures Byte(Set(r, register, value), other) == Byte(r, other)
  {
    hide WithLow, WithHigh;
    match register
    case WinLtLow => WordBytes(r.winlt, value);
    case WinLtHigh => WordBytes(r.winlt, value);
    case WinHtLow => WordBytes(r.winht, value);
    case WinHtHigh => WordBytes(r.winht, value);
  }

  /** Each register reads back as written, in the bits it has, and no write shows in another. */
  lemma ReadsBack(r: Registers, register: Register, value: bv8, other: Register)
    requires register != IntCtrl && register != IntFlags
    ensures Byte(Set(r, register, value), register) == (value & Mask(register)) as nat
    ensures register != other ==> Byte(Set(r, register, value), other) == Byte(r, other)
  {
    assert IsWindow(register) ==> value & Mask(register) == value;
    hide Set, Byte, Mask;
    if IsWindow(register) {
      WindowStored(r, register, value);
      if register != other {
        WindowNotElsewhere(r, register, value, other);
      }
    } else {
      StoredThere(r, register, value);
      if register != other {
        NotStoredElsewhere(r, register, value, other);
      }
    }
  }
}
