/** The 10-bit ADC: it counts calls of tick, whatever they say elapsed. */
module Adc10bModel {
  import opened Bits
  import opened Common
  import opened ModernAdc

  datatype Registers = Registers(
    ctrla: bv8, ctrlb: bv8, ctrlc: bv8, ctrld: bv8, ctrle: bv8, ctrlf: bv8,
    command: bv8, muxpos: bv8, winlt: nat, winht: nat, dbgctrl: bv8)
  {
    predicate Enabled() { ctrla & 0x01 != 0 }

    predicate FreeRun() { ctrlf & 0x40 != 0 }

    function Resolution(): (bits: nat)
      ensures bits == 8 || bits == 10
    {
      if (command >> 4) & 7 == 0 then 8 else 10
    }

    function SampleLength(): (n: nat)
      ensures n >= 2
    {
      if ctrle & 0x1F < 2 then 2 else (ctrle & 0x1F) as nat
    }

    function SampleCount(): (n: nat)
      ensures n >= 1
    {
      (ctrlf & 7) as nat + 1
    }

    /** Ticks of one conversion: each sample and its bits in prescaled clocks, and one more. */
    function Duration(): (n: nat)
      ensures n > 0
    {
      var sampling := Cycles(SampleLength(), Divisor(ctrlb));
      var bits := Cycles(Resolution(), Divisor(ctrlb));
      Cycles(sampling + bits + 1, SampleCount())
    }
  }

  datatype Machine = Machine(
    regs: Registers, intctrl: bv8, intflags: bv8, status: bv8, result: nat, sample: nat,
    remaining: nat, converting: bool, completions: nat)

  function PowerOn(): Machine {
    Machine(Registers(0, 0, 0, 0, 0, 0, 0, 0, 0, 0, 0), 0, 0, 0, 0, 0, 0, false, 0)
  }

  function Started(m: Machine): Machine {
    if !m.regs.Enabled() then m
    else m.(converting := true, status := With(m.status, 0x01), remaining := m.regs.Duration())
  }

  /** The input, clamped to the reference and scaled to the codes. */
  function Scale(r: Registers, volts: nat -> real): (exact: real)
    ensures 0.0 <= exact <= 1023.0
  {
    var vref := Reference(r.ctrlc);
    var vin := Clamped(volts(r.muxpos as nat), 0.0, vref);
    Portion(vin, vref, 1023.0)
  }

  /** The sample always has ten bits. */
  function Raw(r: Registers, signals: Signals): (code: nat)
    ensures code <= 1023
  {
    match signals
    case None => 0
    case Some(volts) => Rounded(Scale(r, volts), 1023)
  }

  function Resolved(r: Registers, raw: nat): nat {
    if r.Resolution() == 8 then raw / 4 % 256 else raw % 0x400
  }

  /** The flags a result raises: RESRDY always, WCMP if it meets the window condition. */
  function Raised(r: Registers, result: nat): bv8 {
    if InWindow(r.ctrld, r.winlt, r.winht, result) then 0x05 else 0x01
  }

  function Completed(m: Machine, signals: Signals): Machine {
    var raw := Raw(m.regs, signals);
    var result := Resolved(m.regs, raw);
    var done := m.(converting := false, status := Without(m.status, 0x01), remaining := 0,
                   sample := raw % 0x400, result := result,
                   intflags := With(m.intflags, Raised(m.regs, result)), completions := m.completions + 1);
    if m.regs.FreeRun() then Started(done) else done
  }

  /** One call of tick. */
  function Ticked(m: Machine, signals: Signals): Machine {
    if !m.regs.Enabled() || !m.converting || m.remaining == 0 then m
    else if m.remaining == 1 then Completed(m, signals)
    else m.(remaining := m.remaining - 1)
  }

  datatype Register =
    | CtrlA | CtrlB | CtrlC | CtrlD | CtrlE | CtrlF | IntCtrl | IntFlags | DbgCtrl | MuxPos
    | Command | WinLtLow | WinLtHigh | WinHtLow | WinHtHigh

  function Set(r: Registers, register: Register, value: bv8): (s: Registers)
    ensures register != CtrlA ==> s.ctrla == r.ctrla
  {
    match register
    case CtrlA => r.(ctrla := value)
    case CtrlB => r.(ctrlb := value & 0x0F)
    case CtrlC => r.(ctrlc := value & 0x07)
    case CtrlD => r.(ctrld := value & 0x07)
    case CtrlE => r.(ctrle := value & 0x1F)
    case CtrlF => r.(ctrlf := value & 0x47)
    case DbgCtrl => r.(dbgctrl := value)
    case MuxPos => r.(muxpos := value)
    case Command => r.(command := value)
    case WinLtLow => r.(winlt := WithLow(r.winlt, value))
    case WinLtHigh => r.(winlt := WithHigh(r.winlt, value))
    case WinHtLow => r.(winht := WithLow(r.winht, value))
    case WinHtHigh => r.(winht := WithHigh(r.winht, value))
    case _ => r
  }

  predicate Starts(r: Registers, register: Register, value: bv8) {
    (register == Command && value & 7 == 1) || (register == MuxPos && r.command & 7 == 2)
  }

  /** A write of CTRLA; it ends a conversion if it disables the converter. */
  function ControlWritten(m: Machine, value: bv8): Machine {
    var n := m.(regs := Set(m.regs, CtrlA, value));
    if value & 0x01 == 0 && m.converting then
      n.(converting := false, remaining := 0, status := Without(m.status, 0x01))
    else n
  }

  function Written(m: Machine, register: Register, value: bv8): Machine {
    if register == IntCtrl then m.(intctrl := value)
    else if register == IntFlags then m.(intflags := Without(m.intflags, value))
    else if register == CtrlA then ControlWritten(m, value)
    else
      var n := m.(regs := Set(m.regs, register, value));
      if Starts(m.regs, register, value) then Started(n) else n
  }

  datatype Vector = ResultReady | WindowMatch

  function Pending(m: Machine): bv8 { m.intflags & m.intctrl }

  function Requested(pending: bv8): Option<Vector> {
    if pending & 0x01 != 0 then Some(ResultReady)
    else if pending & 0x04 != 0 then Some(WindowMatch)
    else None
  }

  /** The answer to an acknowledgement, and the flag it clears. */
  datatype Answer = Answer(request: Option<Vector>, cleared: bv8)

  function Acknowledged(pending: bv8): Answer {
    if pending & 0x01 != 0 then Answer(Some(ResultReady), 0x01)
    else if pending & 0x04 != 0 then Answer(Some(WindowMatch), 0x04)
    else Answer(None, 0)
  }

  function Consumed(m: Machine): Machine {
    m.(intflags := Without(m.intflags, Acknowledged(Pending(m)).cleared))
  }

  class Adc10b {
    var regs: Registers
    var intctrl: bv8
    var intflags: bv8
    var status: bv8
    var result: nat
    var sample: nat
    var cyclesRemaining: nat
    var converting: bool
    ghost var completions: nat

    ghost function View(): Machine
      reads this
    {
      Machine(regs, intctrl, intflags, status, result, sample, cyclesRemaining, converting, completions)
    }

    constructor ()
      ensures View() == PowerOn()
    {
      regs := Registers(0, 0, 0, 0, 0, 0, 0, 0, 0, 0, 0);
      intctrl, intflags, status, result, sample := 0, 0, 0, 0, 0;
      cyclesRemaining, converting, completions := 0, false, 0;
    }

    method StartConversion()
      modifies this
      ensures View() == Started(old(View()))
    {
      hide Registers.Duration, Registers.Enabled;
      if !regs.Enabled() {
        return;
      }
      converting := true;
      status := With(status, 0x01);
      cyclesRemaining := regs.Duration();
    }

    method RaiseFlags()
      modifies this`intflags
      ensures intflags == With(old(intflags), Raised(regs, result))
    {
      intflags := With(intflags, 0x01);
      if InWindow(regs.ctrld, regs.winlt, regs.winht, result) {
        intflags := With(intflags, 0x04);
      }
    }

    method CompleteConversion(signals: Signals)
      modifies this
      ensures View() == Completed(old(View()), signals)
    {
      hide Started, Raw, Resolved, Raised, With, Without, Registers.FreeRun;
      converting := false;
      status := Without(status, 0x01);
      cyclesRemaining := 0;
      var raw := Raw(regs, signals);
      result := Resolved(regs, raw);
      sample := raw % 0x400;
      RaiseFlags();
      completions := completions + 1;
      if regs.FreeRun() {
        StartConversion();
      }
    }

    method Tick(signals: Signals, elapsed: nat)
      modifies this
      ensures View() == Ticked(old(View()), signals)
    {
      hide Registers.Enabled, Completed;
      if !regs.Enabled() || !converting {
        return;
      }
      if cyclesRemaining > 0 {
        if cyclesRemaining == 1 {
          CompleteConversion(signals);
        } else {
          cyclesRemaining := cyclesRemaining - 1;
        }
      }
    }

    method WriteControl(value: bv8)
      modifies this
      ensures View() == ControlWritten(old(View()), value)
    {
      hide Set, Without;
      regs := Set(regs, CtrlA, value);
      if value & 0x01 == 0 && converting {
        converting := false;
        cyclesRemaining := 0;
        status := Without(status, 0x01);
      }
    }

    method Write(register: Register, value: bv8)
      modifies this
      ensures View() == Written(old(View()), register, value)
    {
      hide Set, Starts, Started, Without, ControlWritten;
      if register == IntCtrl {
        intctrl := value;
      } else if register == IntFlags {
        intflags := Without(intflags, value);
      } else if register == CtrlA {
        WriteControl(value);
      } else {
        var starts := Starts(regs, register, value);
        regs := Set(regs, register, value);
        if starts {
          StartConversion();
        }
      }
    }

    method PendingInterruptRequest() returns (request: Option<Vector>)
      ensures request == Requested(Pending(View()))
    {
      var pending := intflags & intctrl;
      if pending & 0x01 != 0 {
        return Some(ResultReady);
      }
      request := if pending & 0x04 != 0 then Some(WindowMatch) else None;
    }

    method ConsumeInterruptRequest() returns (request: Option<Vector>)
      modifies this`intflags
      ensures request == Acknowledged(Pending(old(View()))).request
      ensures View() == Consumed(old(View()))
    {
      var pending := intflags & intctrl;
      request := None;
      if pending & 0x01 != 0 {
        intflags := Without(intflags, 0x01);
        request := Some(ResultReady);
      } else if pending & 0x04 != 0 {
        intflags := Without(intflags, 0x04);
        request := Some(WindowMatch);
      }
    }
  }
}
