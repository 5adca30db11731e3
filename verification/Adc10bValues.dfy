/** The settings of the 10-bit converter by their values: codes, results and flags, durations, and
    that registers read back as written. */
module Adc10bValues {
  import opened Bits
  import opened Common
  import opened ModernAdc
  import opened Adc10bModel
  import opened Adc10bProofs

  // ---- codes and results --------------------------------------------------------------------

  /** The sample is the nearest of 1024 codes to the input on the selected channel. */
  lemma SampleExact(r: Registers, volts: nat -> real, ref: real, k: nat)
    requires k <= 1023
    requires ref == var bits := r.ctrlc & 7;
                    if bits == 4 then 1.024 else if bits == 5 then 2.048
                    else if bits == 6 then 4.096 else if bits == 7 then 2.5 else 5.0
    ensures Raw(r, Some(volts)) == k <==> IsNearest(volts(r.muxpos as nat), ref, 1023, k)
  {
    hide Raw, IsNearest, Reference;
    ReferenceExact(r.ctrlc);
    SampleByReference(r, volts, k);
  }

  lemma SampleByReference(r: Registers, volts: nat -> real, k: nat)
    requires k <= 1023
    ensures Raw(r, Some(volts)) == k <==> IsNearest(volts(r.muxpos as nat), Reference(r.ctrlc), 1023, k)
  {
    hide Raw, NearestCode, IsNearest, Reference;
    SampleIs(r, volts);
    NearestExact(volts(r.muxpos as nat), Reference(r.ctrlc), 1023, k);
  }

  lemma SampleIs(r: Registers, volts: nat -> real)
    ensures Raw(r, Some(volts)) == NearestCode(volts(r.muxpos as nat), Reference(r.ctrlc), 1023)
  {
    hide Rounded, Clamped, Reference, Portion;
  }

  lemma NoBankNoCode(r: Registers)
    ensures Raw(r, None) == 0
  {
  }

  /** What a completion stores: the code as sample, without its two lowest bits as an 8-bit result,
      and the flags by the window. */
  lemma ResultExact(m: Machine, signals: Signals)
    ensures var n, code := Completed(m, signals), Raw(m.regs, signals);
            var met := InWindow(m.regs.ctrld, m.regs.winlt, m.regs.winht, n.result);
            && n.sample == code
            && n.result == (if (m.regs.command >> 4) & 7 == 0 then code / 4 else code)
            && n.intflags == m.intflags | (if met then 0x05 else 0x01)
  {
    ByCompletion(m, signals);
    ResolvedExact(m.regs, Raw(m.regs, signals));
    hide Raw, InWindow, Completed, Resolved;
  }

  lemma ResolvedExact(r: Registers, code: nat)
    requires code <= 1023
    ensures code % 0x400 == code
    ensures Resolved(r, code) == if (r.command >> 4) & 7 == 0 then code / 4 else code
  {
    assert code / 4 % 256 == code / 4;
  }

  lemma ByCompletion(m: Machine, signals: Signals)
    ensures var n, code := Completed(m, signals), Raw(m.regs, signals);
            n.sample == code % 0x400 && n.result == Resolved(m.regs, code)
            && n.intflags == With(m.intflags, Raised(m.regs, n.result))
  {
    hide Raw, Resolved, Raised, With, Without, Registers.Duration;
  }

  // ---- durations ----------------------------------------------------------------------------

  /** Calls for a conversion: sampling for SAMPDUR clocks, at least 2, and 8 or 10 bits, in clocks
      divided by 2 to 64, and one call more; all of it as often as SAMPNUM says. */
  function ConversionCalls(r: Registers): int {
    var length := if r.ctrle & 0x1F < 2 then 2 else (r.ctrle & 0x1F) as nat;
    var bits := if (r.command >> 4) & 7 == 0 then 8 else 10;
    var i := (r.ctrlb & 0x0F) as nat;
    var divisor := if i < 8 then 2 * (i + 1) else if i < 12 then 4 * (i - 3) else 8 * (i - 7);
    (length * divisor + bits * divisor + 1) * ((r.ctrlf & 7) as nat + 1)
  }

  lemma DurationExact(r: Registers)
    ensures r.Duration() == ConversionCalls(r)
  {
    DivisorExact(r.ctrlb);
    hide Divisor;
  }

  /** The k-th result of a start command comes with the call that completes k conversions, only
      the first without free running. */
  lemma StartScheduleExact(m: Machine, value: bv8, inputs: seq<Signals>, k: nat)
    requires Coupled(m) && m.regs.ctrla & 0x01 != 0 && value & 7 == 1 && k >= 1
    ensures TickAll(Written(m, Command, value), inputs).completions >= m.completions + k
            <==> |inputs| >= k * ConversionCalls(m.regs.(command := value)) && (k == 1 || m.regs.ctrlf & 0x40 != 0)
  {
    hide Registers.Duration, ConversionCalls, TickAll, Coupled;
    CommandSettings(m, value);
    hide Written;
    DurationExact(m.regs.(command := value));
    StartSchedule(m, value, inputs, k);
  }

  lemma CommandSettings(m: Machine, value: bv8)
    requires m.regs.ctrla & 0x01 != 0 && value & 7 == 1
    ensures Written(m, Command, value).regs == m.regs.(command := value)
  {
    hide Registers.Duration;
  }

  // ---- registers ----------------------------------------------------------------------------

  /** A start is a start command, or a choice of the input while starting on it. */
  lemma StartsExact(m: Machine, register: Register, value: bv8)
    requires !m.converting
    ensures Written(m, register, value).converting
            <==> m.regs.ctrla & 0x01 != 0
                 && ((register == Command && value & 7 == 1) || (register == MuxPos && m.regs.command & 7 == 2))
  {
    hide Registers.Duration, With, Without, Set;
    if Starts(m.regs, register, value) {
      ControlKept(m.regs, register, value);
    }
  }

  lemma ControlKept(r: Registers, register: Register, value: bv8)
    requires register == Command || register == MuxPos
    ensures Set(r, register, value).ctrla == r.ctrla
  {
  }

  /** A byte of the register file. */
  function Byte(r: Registers, register: Register): nat {
    match register
    case CtrlA => r.ctrla as nat
    case CtrlB => r.ctrlb as nat
    case CtrlC => r.ctrlc as nat
    case CtrlD => r.ctrld as nat
    case CtrlE => r.ctrle as nat
    case CtrlF => r.ctrlf as nat
    case DbgCtrl => r.dbgctrl as nat
    case MuxPos => r.muxpos as nat
    case Command => r.command as nat
    case WinLtLow => r.winlt % 256
    case WinLtHigh => r.winlt / 256
    case WinHtLow => r.winht % 256
    case WinHtHigh => r.winht / 256
    case _ => 0
  }

  /** The bits that a register has. */
  function Mask(register: Register): bv8 {
    match register
    case CtrlB => 0x0F
    case CtrlC => 0x07
    case CtrlD => 0x07
    case CtrlE => 0x1F
    case CtrlF => 0x47
    case _ => 0xFF
  }

  predicate IsWindow(register: Register) {
    register == WinLtLow || register == WinLtHigh || register == WinHtLow || register == WinHtHigh
  }

  lemma StoredThere(r: Registers, register: Register, value: bv8)
    requires register != IntCtrl && register != IntFlags && !IsWindow(register)
    ensures Byte(Set(r, register, value), register) == (value & Mask(register)) as nat
  {
    assert value & 0xFF == value;
    hide WithLow, WithHigh;
  }

  lemma NotStoredElsewhere(r: Registers, register: Register, value: bv8, other: Register)
    requires register != other && !IsWindow(register)
    ensures Byte(Set(r, register, value), other) == Byte(r, other)
  {
    hide WithLow, WithHigh;
  }

  lemma WindowStored(r: Registers, register: Register, value: bv8)
    requires IsWindow(register)
    ensures Byte(Set(r, register, value), register) == value as nat
  {
    hide WithLow, WithHigh;
    match register
    case WinLtLow => WordBytes(r.winlt, value);
    case WinLtHigh => WordBytes(r.winlt, value);
    case WinHtLow => WordBytes(r.winht, value);
    case WinHtHigh => WordBytes(r.winht, value);
  }

  lemma WindowNotElsewhere(r: Registers, register: Register, value: bv8, other: Register)
    requires IsWindow(register) && register != other
    ensures Byte(Set(r, register, value), other) == Byte(r, other)
  {
    hide WithLow, WithHigh;
    match register
    case WinLtLow => WordBytes(r.winlt, value);
    case WinLtHigh => WordBytes(r.winlt, value);
    case WinHtLow => WordBytes(r.winht, value);
    case WinHtHigh => WordBytes(r.winht, value);
  }

  /** Each register reads back as written, in the bits it has, and no write shows in another. */
  lemma ReadsBack(r: Registers, register: Register, value: bv8, other: Register)
    requires register != IntCtrl && register != IntFlags
    ensures Byte(Set(r, register, value), register) == (value & Mask(register)) as nat
    ensures register != other ==> Byte(Set(r, register, value), other) == Byte(r, other)
  {
    assert IsWindow(register) ==> value & Mask(register) == value;
    hide Set, Byte, Mask;
    if IsWindow(register) {
      WindowStored(r, register, value);
      if register != other {
        WindowNotElsewhere(r, register, value, other);
      }
    } else {
      StoredThere(r, register, value);
      if register != other {
        NotStoredElsewhere(r, register, value, other);
      }
    }
  }
}
