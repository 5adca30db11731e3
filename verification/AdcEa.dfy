/** The 12-bit ADC of the EA family: conversion, window comparison and interrupt flags. */
module AdcEaModel {
  import opened Bits
  import opened Common
  import opened ModernAdc

  datatype Registers = Registers(
    ctrla: bv8, ctrlb: bv8, ctrlc: bv8, ctrld: bv8, ctrle: bv8, ctrlf: bv8,
    command: bv8, pgactrl: bv8, muxpos: bv8, muxneg: bv8, winlt: nat, winht: nat, dbgctrl: bv8)
  {
    predicate Enabled() { ctrla & 0x01 != 0 }

    predicate FreeRun() { ctrlf & 0x20 != 0 }

    predicate MeasuresTemperature() { ctrla & 0x20 != 0 }

    predicate LeftAdjusted() { ctrlf & 0x10 != 0 }

    predicate Differential() { command & 0x80 != 0 }

    function Resolution(): (bits: nat)
      ensures bits == 8 || bits == 10 || bits == 12
    {
      match (command >> 4) & 7
      case 0 => 8
      case 1 => 10
      case _ => 12
    }

    function MaxCode(): (code: nat)
      ensures code == 255 || code == 1023 || code == 4095
    {
      match Resolution()
      case 8 => 255
      case 10 => 1023
      case _ => 4095
    }

    /** What left adjustment multiplies by: a shift by 16 less the resolution. */
    function LeftShift(): (factor: nat)
      ensures factor * (MaxCode() + 1) == 0x10000
    {
      match Resolution()
      case 8 => 256
      case 10 => 64
      case _ => 16
    }

    function Gain(): nat {
      match (pgactrl >> 5) & 7
      case 1 => 2
      case 2 => 4
      case 3 => 8
      case 4 => 16
      case _ => 1
    }

    function SampleLength(): (n: nat)
      ensures n >= 2
    {
      if ctrle < 2 then 2 else ctrle as nat
    }

    function SampleCount(): (n: nat)
      ensures n >= 1
    {
      (ctrlf & 0x0F) as nat + 1
    }

    /** Cycles of one conversion: the accumulated sampling, the bits and one more clock. */
    function Duration(): (n: nat)
      ensures n > 0
    {
      var sampling := Cycles(SampleLength(), SampleCount());
      Cycles(sampling + Resolution() + 1, Divisor(ctrlb))
    }
  }

  /** The three temperature bytes. */
  datatype Temperature = Temperature(low: nat, high: nat, deviation: nat)

  datatype Machine = Machine(
    regs: Registers, intctrl: bv8, intflags: bv8, status: bv8, result: nat, sample: nat,
    remaining: nat, converting: bool, celsius: real, temperature: Temperature, completions: nat)

  function PowerOn(): Machine {
    Machine(Registers(0, 0, 0, 0, 0, 0, 0, 0, 0, 0, 0, 0, 0), 0, 0, 0, 0, 0, 0, false, 27.0,
            Temperature(0, 0, 0), 0)
  }

  function Started(m: Machine): Machine {
    if !m.regs.Enabled() then m
    else m.(converting := true, status := With(m.status, 0x01), remaining := m.regs.Duration())
  }

  // ---- measuring ----------------------------------------------------------------------------

  function Amplified(volts: real, gain: nat): real { volts * gain as real }

  /** The single-ended input, clamped to the reference and scaled to the codes. */
  function Scale(r: Registers, volts: nat -> real): (exact: real)
    ensures 0.0 <= exact <= r.MaxCode() as real
  {
    var vref := Reference(r.ctrlc);
    var vin := Clamped(Amplified(volts((r.muxpos & 0x3F) as nat), r.Gain()), 0.0, vref);
    Portion(vin, vref, r.MaxCode() as real)
  }

  /** The amplified difference of the inputs, clamped to the reference on either side. */
  function Difference(r: Registers, volts: nat -> real): (vin: real)
    ensures -Reference(r.ctrlc) <= vin <= Reference(r.ctrlc)
  {
    var vref := Reference(r.ctrlc);
    Clamped(Amplified(volts((r.muxpos & 0x3F) as nat) - volts((r.muxneg & 0x3F) as nat), r.Gain()), -vref, vref)
  }

  function DifferentialCode(r: Registers, volts: nat -> real): (code: int)
    ensures 1 <= code <= 4095
  {
    DifferentialRange(Difference(r, volts), Reference(r.ctrlc));
    (Portion(Difference(r, volts), Reference(r.ctrlc), 2047.0) + 2048.0).Floor
  }

  function Code(r: Registers, volts: nat -> real): (code: int)
    ensures 0 <= code <= r.MaxCode()
  {
    if r.Differential() then Min(DifferentialCode(r, volts), r.MaxCode())
    else Rounded(Scale(r, volts), r.MaxCode())
  }

  lemma DifferentialRange(vin: real, vref: real)
    requires 0.0 < vref && -vref <= vin <= vref
    ensures 1 <= (Portion(vin, vref, 2047.0) + 2048.0).Floor <= 4095
  {
    RatioWithin(vin, vref);
    var ratio := vin / vref;
    assert -2047.0 <= ratio * 2047.0 <= 2047.0;
  }

  function Raw(r: Registers, signals: Signals): (code: nat)
    ensures code <= r.MaxCode()
  {
    match signals
    case None => 0
    case Some(volts) => Code(r, volts)
  }

  // ---- steps --------------------------------------------------------------------------------

  function Adjusted(r: Registers, raw: nat): nat {
    if r.LeftAdjusted() then raw * r.LeftShift() else raw
  }

  function Compared(r: Registers, sample: nat, result: nat): nat {
    if r.ctrld & 0x08 != 0 then sample else result % 0x10000
  }

  /** The flags a result raises: RESRDY always, WCMP if it meets the window condition. */
  function Raised(r: Registers, sample: nat, result: nat): bv8 {
    if InWindow(r.ctrld, r.winlt, r.winht, Compared(r, sample, result)) then 0x05 else 0x01
  }

  /** The offset temperature in twelve bits, and eight bits of its distance from 27 degrees in
      1/256 degree. */
  function Thermometer(celsius: real): Temperature {
    var kelvin := Truncated(celsius + 307.0 + 0.5);
    Temperature(kelvin % 256, kelvin / 256 % 16, Truncated((celsius - 27.0) * 256.0 + 0.5) % 256)
  }

  function Completed(m: Machine, signals: Signals): Machine {
    var raw := Raw(m.regs, signals);
    var done := m.(converting := false, status := Without(m.status, 0x01), remaining := 0, sample := raw,
                   result := Adjusted(m.regs, raw), intflags := With(m.intflags, Raised(m.regs, raw, Adjusted(m.regs, raw))),
                   temperature := if m.regs.MeasuresTemperature() then Thermometer(m.celsius) else m.temperature,
                   completions := m.completions + 1);
    if m.regs.FreeRun() then Started(done) else done
  }

  function Ticked(m: Machine, signals: Signals, elapsed: nat): Machine {
    if !m.regs.Enabled() || !m.converting || m.remaining == 0 then m
    else if elapsed >= m.remaining then Completed(m, signals)
    else m.(remaining := m.remaining - elapsed)
  }

  datatype Register =
    | CtrlA | CtrlB | CtrlC | CtrlD | CtrlE | CtrlF | IntCtrl | IntFlags | DbgCtrl | PgaCtrl | MuxPos
    | MuxNeg | Command | WinLtLow | WinLtHigh | WinHtLow | WinHtHigh

  function Set(r: Registers, register: Register, value: bv8): (s: Registers)
    ensures register != CtrlA ==> s.ctrla == r.ctrla
  {
    match register
    case CtrlA => r.(ctrla := value & 0xA1)
    case CtrlB => r.(ctrlb := value & 0x0F)
    case CtrlC => r.(ctrlc := value & 0x07)
    case CtrlD => r.(ctrld := value & 0x0F)
    case CtrlE => r.(ctrle := value)
    case CtrlF => r.(ctrlf := value & 0x7F)
    case DbgCtrl => r.(dbgctrl := value & 0x01)
    case PgaCtrl => r.(pgactrl := value)
    case MuxPos => r.(muxpos := value)
    case MuxNeg => r.(muxneg := value)
    case Command => r.(command := value)
    case WinLtLow => r.(winlt := WithLow(r.winlt, value))
    case WinLtHigh => r.(winlt := WithHigh(r.winlt, value))
    case WinHtLow => r.(winht := WithLow(r.winht, value))
    case WinHtHigh => r.(winht := WithHigh(r.winht, value))
    case _ => r
  }

  /** A store that starts a conversion: the start command, or the positive input while
      starting on its selection. */
  predicate Starts(r: Registers, register: Register, value: bv8) {
    (register == Command && value & 7 == 1) || (register == MuxPos && r.command & 7 == 2)
  }

  /** A write of CTRLA; it ends a conversion if it disables the converter. */
  function ControlWritten(m: Machine, value: bv8): Machine {
    var n := m.(regs := Set(m.regs, CtrlA, value));
    if value & 0x01 == 0 && m.converting then
      n.(converting := false, remaining := 0, status := Without(m.status, 0x01))
    else n
  }

  function Written(m: Machine, register: Register, value: bv8): Machine {
    if register == IntCtrl then m.(intctrl := value)
    else if register == IntFlags then m.(intflags := Without(m.intflags, value))
    else if register == CtrlA then ControlWritten(m, value)
    else
      var n := m.(regs := Set(m.regs, register, value));
      if Starts(m.regs, register, value) then Started(n) else n
  }

  // ---- interrupts ---------------------------------------------------------------------------

  datatype Vector = ResultReady | SampleReady | Error

  function Pending(m: Machine): bv8 { m.intflags & m.intctrl }

  /** What is requested, from the enabled flags. */
  function Requested(pending: bv8): Option<Vector> {
    if pending & 0x01 != 0 then Some(ResultReady)
    else if pending & 0x02 != 0 then Some(SampleReady)
    else if pending & 0x20 != 0 then Some(Error)
    else if pending & 0x1C != 0 then Some(ResultReady)
    else None
  }

  /** The answer to an acknowledgement, and the flags it clears. */
  datatype Answer = Answer(request: Option<Vector>, cleared: bv8)

  function Acknowledged(pending: bv8): Answer {
    if pending & 0x01 != 0 then Answer(Some(ResultReady), 0x01)
    else if pending & 0x02 != 0 then Answer(Some(SampleReady), 0x02)
    else if pending & 0x20 != 0 then Answer(Some(Error), 0x20)
    else if pending & 0x1C != 0 then Answer(Some(ResultReady), pending & 0x1C)
    else Answer(None, 0)
  }

  function Consumed(m: Machine): Machine {
    m.(intflags := Without(m.intflags, Acknowledged(Pending(m)).cleared))
  }

  class AdcEa {
    var regs: Registers
    var intctrl: bv8
    var intflags: bv8
    var status: bv8
    var result: nat
    var sample: nat
    var cyclesRemaining: nat
    var converting: bool
    var celsius: real
    var temperature: Temperature
    ghost var completions: nat

    ghost function View(): Machine
      reads this
    {
      Machine(regs, intctrl, intflags, status, result, sample, cyclesRemaining, converting, celsius, temperature,
              completions)
    }

    constructor ()
      ensures View() == PowerOn()
    {
      regs := Registers(0, 0, 0, 0, 0, 0, 0, 0, 0, 0, 0, 0, 0);
      intctrl, intflags, status, result, sample := 0, 0, 0, 0, 0;
      cyclesRemaining, converting, completions := 0, false, 0;
      celsius, temperature := 27.0, Temperature(0, 0, 0);
    }

    method SetTemperature(celsius: real)
      modifies this`celsius
      ensures View() == old(View()).(celsius := celsius)
    {
      this.celsius := celsius;
    }

    method StartConversion()
      modifies this
      ensures View() == Started(old(View()))
    {
      hide Registers.Duration, Registers.Enabled;
      if !regs.Enabled() {
        return;
      }
      converting := true;
      status := With(status, 0x01);
      cyclesRemaining := regs.Duration();
    }

    method RaiseFlags()
      modifies this`intflags
      ensures intflags == With(old(intflags), Raised(regs, sample, result))
    {
      intflags := With(intflags, 0x01);
      if InWindow(regs.ctrld, regs.winlt, regs.winht, Compared(regs, sample, result)) {
        intflags := With(intflags, 0x04);
      }
    }

    /** The registers that a result of the converter is stored in. */
    method Record(raw: nat)
      modifies this`result, this`sample, this`temperature
      ensures result == Adjusted(regs, raw) && sample == raw
      ensures temperature == if regs.MeasuresTemperature() then Thermometer(celsius) else old(temperature)
    {
      hide Adjusted, Thermometer, Registers.MeasuresTemperature;
      result := Adjusted(regs, raw);
      sample := raw;
      if regs.MeasuresTemperature() {
        temperature := Thermometer(celsius);
      }
    }

    method CompleteConversion(signals: Signals)
      modifies this
      ensures View() == Completed(old(View()), signals)
    {
      hide Started, Raw, Adjusted, Raised, With, Without, Thermometer, Registers.FreeRun, Registers.MeasuresTemperature;
      converting := false;
      status := Without(status, 0x01);
      cyclesRemaining := 0;
      Record(Raw(regs, signals));
      RaiseFlags();
      completions := completions + 1;
      if regs.FreeRun() {
        StartConversion();
      }
    }

    method Tick(signals: Signals, elapsed: nat)
      modifies this
      ensures View() == Ticked(old(View()), signals, elapsed)
    {
      hide Registers.Enabled, Completed;
      if !regs.Enabled() || !converting {
        return;
      }
      if cyclesRemaining > 0 {
        if elapsed >= cyclesRemaining {
          CompleteConversion(signals);
        } else {
          cyclesRemaining := cyclesRemaining - elapsed;
        }
      }
    }

    method WriteControl(value: bv8)
      modifies this
      ensures View() == ControlWritten(old(View()), value)
    {
      hide Set, Without;
      regs := Set(regs, CtrlA, value);
      if value & 0x01 == 0 && converting {
        converting := false;
        cyclesRemaining := 0;
        status := Without(status, 0x01);
      }
    }

    method Write(register: Register, value: bv8)
      modifies this
      ensures View() == Written(old(View()), register, value)
    {
      hide Set, Starts, Started, Without, ControlWritten;
      if register == IntCtrl {
        intctrl := value;
      } else if register == IntFlags {
        intflags := Without(intflags, value);
      } else if register == CtrlA {
        WriteControl(value);
      } else {
        var starts := Starts(regs, register, value);
        regs := Set(regs, register, value);
        if starts {
          StartConversion();
        }
      }
    }

    method PendingInterruptRequest() returns (request: Option<Vector>)
      ensures request == Requested(Pending(View()))
    {
      var pending := intflags & intctrl;
      if pending & 0x01 != 0 {
        return Some(ResultReady);
      }
      if pending & 0x02 != 0 {
        return Some(SampleReady);
      }
      if pending & 0x20 != 0 {
        return Some(Error);
      }
      request := if pending & 0x1C != 0 then Some(ResultReady) else None;
    }

    method ConsumeInterruptRequest() returns (request: Option<Vector>)
      modifies this`intflags
      ensures request == Acknowledged(Pending(old(View()))).request
      ensures View() == Consumed(old(View()))
    {
      var pending := intflags & intctrl;
      request := None;
      if pending & 0x01 != 0 {
        intflags := Without(intflags, 0x01);
        request := Some(ResultReady);
      } else if pending & 0x02 != 0 {
        intflags := Without(intflags, 0x02);
        request := Some(SampleReady);
      } else if pending & 0x20 != 0 {
        intflags := Without(intflags, 0x20);
        request := Some(Error);
      } else if pending & 0x1C != 0 {
        intflags := Without(intflags, pending & 0x1C);
        request := Some(ResultReady);
      }
    }
  }
}
