/** The AVR8X converter: registers, the conversion machine and the peripheral object.

    Machine is the value of the converter without its prescaler: AdcTick is one
    converter clock. Clocked adds the prescaler's leftover cycles: Ticked is what one
    bulk tick of the peripheral does. Class Adc8x does it with the simulator's loop. */
module Adc8xEngine {
  import opened Common
  import ModernAdc

  datatype Phase = Idle | Startup | Sample | Convert

  /** Registers that a tick never writes; the last four only store. */
  datatype Registers = Registers(
    ctrla: bv8, ctrlb: bv8, ctrlc: bv8, ctrle: bv8, sampctrl: bv8, muxpos: bv8,
    evctrl: bv8, intctrl: bv8, winlt: bv16, winht: bv16,
    ctrld: bv8, muxneg: bv8, dbgctrl: bv8, calib: bv8)
  {
    predicate Enabled() { ctrla & 1 != 0 }

    predicate FreeRun() { ctrla & 2 != 0 }

    predicate EightBit() { ctrla & 4 != 0 }

    function Prescaler(): (p: nat)
      ensures p >= 2
    {
      2 * Pow2(((ctrlb >> 4) & 7) as nat)
    }

    function SampleCount(): (n: nat)
      ensures 1 <= n <= 128
    {
      Samples(ctrlb)
    }

    function SampleCycles(): nat { 2 + (sampctrl & 0x1F) as nat }

    /** Converter clocks for one sample: sampling, then 13 clocks of conversion. */
    function SampleTicks(): (k: nat)
      ensures k >= 15
    {
      SampleCycles() + 13
    }

    /** Converter clocks for all samples of one result. */
    function RoundTicks(): (k: nat)
      ensures k >= 15
    {
      MulMonotone(1, SampleCount(), SampleTicks());
      SampleCount() * SampleTicks()
    }
  }

  /** 2^SAMPNUM. */
  function Samples(ctrlb: bv8): (n: nat)
    ensures 1 <= n <= 128
  {
    var k := (ctrlb & 7) as nat;
    assert Pow2(7) == 128;
    Pow2Monotone(k, 7);
    Pow2(k)
  }

  lemma {:induction false} Pow2Monotone(a: nat, b: nat)
    requires a <= b
    ensures Pow2(a) <= Pow2(b)
  {
    if a < b {
      Pow2Monotone(a, b - 1);
    }
  }

  /** One published result: the value, the samples it was made of and what their sum was
      divided by, the window verdict. */
  datatype Publication = Publication(result: nat, samples: seq<nat>, divisor: nat, window: bool)

  /** samples and published record history: the samples taken since the conversion
      started, and every result announced to the event system. */
  datatype Machine = Machine(
    regs: Registers, intflags: bv8,
    res: nat, latch: nat, latchValid: bool,
    phase: Phase, converting: bool, count: nat, sample: nat, acc: nat,
    samples: seq<nat>, published: seq<Publication>)

  /** The machine behind its prescaler; fraction is the cycles not yet handed on. */
  datatype Clocked = Clocked(m: Machine, fraction: nat)

  // ---- analog side -------------------------------------------------------------

  const CHANNELS := 128

  /** Channel voltages; the bank stores no negative value. */
  type Bank = b: seq<real> | |b| == CHANNELS && forall i :: 0 <= i < CHANNELS ==> b[i] >= 0.0
    ghost witness seq(CHANNELS, i => 0.0)

  type Volts = v: real | v > 0.0 witness 5.0

  datatype Env = Env(bank: Option<Bank>, vdd: Volts)

  function Reference(r: Registers, vdd: Volts): Volts {
    match (r.ctrlc & 0x30) >> 4
    case 0 => 1.1
    case 2 => 2.5
    case _ => vdd
  }

  function InputVoltage(r: Registers, env: Env): (v: real)
    ensures v >= 0.0
  {
    if env.bank.Some? && (r.muxpos as nat) < CHANNELS then env.bank.value[r.muxpos as nat] else 0.0
  }

  /** The code one conversion yields with these registers and inputs. */
  function Quantise(r: Registers, env: Env): (code: nat)
    ensures code <= 1023 && (r.EightBit() ==> code <= 255)
  {
    PortionNonNegative(InputVoltage(r, env), Reference(r, env.vdd), 1024.0);
    var raw := Portion(InputVoltage(r, env), Reference(r, env.vdd), 1024.0).Floor;
    var clipped := Min(raw, 1023);
    if r.EightBit() then clipped / 4 else clipped
  }

  // ---- the conversion machine ---------------------------------------------------

  function Started(m: Machine): Machine {
    if m.converting then m
    else m.(converting := true, phase := Startup, count := 2, sample := 0, acc := 0, samples := [])
  }

  predicate InWindow(r: Registers, result: nat) {
    ModernAdc.InWindow(r.ctrle, r.winlt as nat, r.winht as nat, result)
  }

  function Published(m: Machine): Machine {
    var result := Quotient(m.acc, m.regs.SampleCount()) % 0x1_0000;
    var window := InWindow(m.regs, result);
    m.(res := result, latchValid := false,
       intflags := if window then m.intflags | 3 else m.intflags | 1,
       published := m.published + [Publication(result, m.samples, m.regs.SampleCount(), window)])
  }

  /** After a result: the next round if free running, else idle. */
  function EndedRound(m: Machine): Machine {
    if m.regs.FreeRun() then
      m.(phase := Sample, converting := true, sample := 0, acc := 0, samples := [], count := m.regs.SampleCycles())
    else m.(phase := Idle, converting := false)
  }

  /** The end of a conversion that read `code`: next sample, next round or idle. */
  function SampleEnded(m: Machine, code: nat): Machine {
    var taken := m.(acc := m.acc + code, samples := m.samples + [code], sample := m.sample + 1);
    if taken.sample < m.regs.SampleCount() then
      taken.(phase := Sample, count := m.regs.SampleCycles())
    else EndedRound(Published(taken))
  }

  /** One converter clock; code is what a conversion ending now would read. */
  function AdcTick(m: Machine, code: nat): Machine {
    var count := if m.count > 0 then m.count - 1 else 0;
    if count > 0 then m.(count := count)
    else match m.phase
      case Idle => m.(count := 0)
      case Startup => m.(phase := Sample, count := m.regs.SampleCycles())
      case Sample => m.(phase := Convert, count := 13)
      case Convert => SampleEnded(m.(count := 0), code)
  }

  function AdcTicks(m: Machine, codes: seq<nat>): Machine {
    if codes == [] then m
    else AdcTick(AdcTicks(m, codes[..|codes| - 1]), codes[|codes| - 1])
  }

  function Repeat(code: nat, n: nat): seq<nat> {
    seq(n, i => code)
  }

  /** What a bulk tick of `elapsed` clock cycles does. */
  function Ticked(c: Clocked, env: Env, elapsed: nat): Clocked {
    if !c.m.regs.Enabled() then c.(m := c.m.(phase := Idle, converting := false))
    else if c.m.phase == Idle then c
    else
      var total, p := elapsed + c.fraction, c.m.regs.Prescaler();
      Clocked(AdcTicks(c.m, Repeat(Quantise(c.m.regs, env), Quotient(total, p))), Remainder(total, p))
  }

  // ---- bus side -------------------------------------------------------------------

  datatype Register =
    | CtrlA | CtrlB | CtrlC | CtrlD | CtrlE | SampCtrl | MuxPos | MuxNeg | Command | EvCtrl | IntCtrl
    | IntFlags | DbgCtrl | Calib | WinLtLow | WinLtHigh | WinHtLow | WinHtHigh

  function WithLow(word: bv16, value: bv8): bv16 { (word & 0xFF00) | value as bv16 }

  function WithHigh(word: bv16, value: bv8): bv16 { (word & 0x00FF) | (value as bv16 << 8) }

  /** The register file after a write; COMMAND and INTFLAGS store nothing here. */
  function Stored(r: Registers, reg: Register, value: bv8): (s: Registers)
    ensures s.ctrlb == if reg == CtrlB then value else r.ctrlb
  {
    match reg
    case CtrlA => r.(ctrla := value)
    case CtrlB => r.(ctrlb := value)
    case CtrlC => r.(ctrlc := value)
    case CtrlD => r.(ctrld := value)
    case CtrlE => r.(ctrle := value)
    case SampCtrl => r.(sampctrl := value)
    case MuxPos => r.(muxpos := value)
    case MuxNeg => r.(muxneg := value)
    case EvCtrl => r.(evctrl := value)
    case IntCtrl => r.(intctrl := value)
    case DbgCtrl => r.(dbgctrl := value)
    case Calib => r.(calib := value)
    case WinLtLow => r.(winlt := WithLow(r.winlt, value))
    case WinLtHigh => r.(winlt := WithHigh(r.winlt, value))
    case WinHtLow => r.(winht := WithLow(r.winht, value))
    case WinHtHigh => r.(winht := WithHigh(r.winht, value))
    case Command => r
    case IntFlags => r
  }

  function Written(m: Machine, reg: Register, value: bv8): Machine {
    if reg.Command? then (if value & 1 != 0 then Started(m) else m)
    else if reg.IntFlags? then m.(intflags := m.intflags & !value)
    else m.(regs := Stored(m.regs, reg, value))
  }

  function LowOf(word: bv16): bv8 { (word & 0xFF) as bv8 }

  function HighOf(word: bv16): bv8 { (word >> 8) as bv8 }

  /** A byte of the register file; COMMAND stores nothing. */
  function Byte(r: Registers, reg: Register): bv8 {
    match reg
    case CtrlA => r.ctrla
    case CtrlB => r.ctrlb
    case CtrlC => r.ctrlc
    case CtrlD => r.ctrld
    case CtrlE => r.ctrle
    case SampCtrl => r.sampctrl
    case MuxPos => r.muxpos
    case MuxNeg => r.muxneg
    case EvCtrl => r.evctrl
    case IntCtrl => r.intctrl
    case DbgCtrl => r.dbgctrl
    case Calib => r.calib
    case WinLtLow => LowOf(r.winlt)
    case WinLtHigh => HighOf(r.winlt)
    case WinHtLow => LowOf(r.winht)
    case WinHtHigh => HighOf(r.winht)
    case _ => 0
  }

  /** What a read returns that changes nothing. */
  function Loaded(m: Machine, reg: Register): bv8 {
    if reg == IntFlags then m.intflags else Byte(m.regs, reg)
  }

  function LowRead(m: Machine): Machine {
    m.(latch := m.res, latchValid := true, intflags := m.intflags & 0xFE)
  }

  /** The high byte of the result, from the latch while that is valid. */
  function HighByte(m: Machine): nat {
    (if m.latchValid then m.latch else m.res) / 256 % 256
  }

  datatype Source = ResultReady | WindowHit

  function Pending(m: Machine): Option<Source> {
    if m.regs.intctrl & 1 != 0 && m.intflags & 1 != 0 then Some(ResultReady)
    else if m.regs.intctrl & 2 != 0 && m.intflags & 2 != 0 then Some(WindowHit)
    else None
  }

  function Consumed(m: Machine): Machine {
    if Pending(m).None? then m
    else if m.intflags & 1 != 0 then m.(intflags := m.intflags & 0xFE)
    else m.(intflags := m.intflags & 0xFD)
  }

  function PowerOn(): Machine {
    Machine(Registers(0, 0, 0, 0, 0, 0, 0, 0, 0, 0, 0, 0, 0, 0), 0, 0, 0, false, Idle, false, 0, 0, 0, [], [])
  }

  /** The peripheral with its fields, updated step by step. */
  class Adc8x {
    var regs: Registers
    var intflags: bv8
    var res: nat
    var resLatch: nat
    var resLatchValid: bool
    var phase: Phase
    var converting: bool
    var fractionalCycles: nat
    var cyclesInPhase: nat
    var currentSample: nat
    var accumulated: nat
    ghost var samples: seq<nat>
    ghost var published: seq<Publication>

    ghost function View(): Machine
      reads this
    {
      Machine(regs, intflags, res, resLatch, resLatchValid, phase, converting,
              cyclesInPhase, currentSample, accumulated, samples, published)
    }

    constructor ()
      ensures View() == PowerOn() && fractionalCycles == 0
    {
      regs := Registers(0, 0, 0, 0, 0, 0, 0, 0, 0, 0, 0, 0, 0, 0);
      intflags, res, resLatch, resLatchValid := 0, 0, 0, false;
      phase, converting, fractionalCycles, cyclesInPhase, currentSample, accumulated := Idle, false, 0, 0, 0, 0;
      samples, published := [], [];
    }

    method StartConversion()
      modifies this
      ensures View() == Started(old(View()))
      ensures fractionalCycles == old(fractionalCycles)
    {
      if converting {
        return;
      }
      converting := true;
      phase := Startup;
      cyclesInPhase := 2;
      currentSample := 0;
      accumulated := 0;
      samples := [];
    }

    /** A request on the event user channel. */
    method OnUserEvent()
      modifies this
      ensures View() == if regs.ctrla & 1 != 0 && regs.evctrl & 1 != 0 then Started(old(View())) else old(View())
      ensures fractionalCycles == old(fractionalCycles)
    {
      if regs.ctrla & 1 != 0 && regs.evctrl & 1 != 0 {
        StartConversion();
      }
    }

    method CompleteConversion(env: Env)
      modifies this`accumulated, this`samples
      ensures accumulated == old(accumulated) + Quantise(regs, env)
      ensures samples == old(samples) + [Quantise(regs, env)]
    {
      accumulated := accumulated + Quantise(regs, env);
      samples := samples + [Quantise(regs, env)];
    }

    method ProcessSampleResult(rawAccumulated: nat)
      requires rawAccumulated == accumulated
      modifies this`res, this`resLatchValid, this`intflags, this`published
      ensures View() == Published(old(View()))
    {
      res := Quotient(rawAccumulated, regs.SampleCount()) % 0x1_0000;
      resLatchValid := false;
      intflags := intflags | 1;
      var wcomp := InWindow(regs, res);
      if wcomp {
        intflags := intflags | 2;
      }
      published := published + [Publication(res, samples, regs.SampleCount(), wcomp)];
    }

    /** The end of one conversion within the tick loop. */
    method EndSample(env: Env)
      requires cyclesInPhase == 0
      modifies this
      ensures View() == SampleEnded(old(View()), Quantise(old(regs), env)) && regs == old(regs)
      ensures fractionalCycles == old(fractionalCycles)
    {
      hide Quantise, Published, EndedRound;
      CompleteConversion(env);
      currentSample := currentSample + 1;
      if currentSample < regs.SampleCount() {
        phase := Sample;
        cyclesInPhase := regs.SampleCycles();
      } else {
        ProcessSampleResult(accumulated);
        EndRound();
      }
    }

    /** Free running, the next round begins at once. */
    method EndRound()
      modifies this
      ensures View() == EndedRound(old(View())) && regs == old(regs)
      ensures fractionalCycles == old(fractionalCycles)
    {
      hide Registers.FreeRun, Registers.SampleCycles;
      if regs.FreeRun() {
        phase := Sample;
        converting := true;
        currentSample := 0;
        accumulated := 0;
        samples := [];
        cyclesInPhase := regs.SampleCycles();
      } else {
        phase := Idle;
        converting := false;
      }
    }

    /** One pass of the tick loop. */
    method ClockConverter(env: Env)
      modifies this
      ensures View() == AdcTick(old(View()), Quantise(old(regs), env)) && regs == old(regs)
      ensures fractionalCycles == old(fractionalCycles)
    {
      hide Quantise, SampleEnded;
      if cyclesInPhase > 0 {
        cyclesInPhase := cyclesInPhase - 1;
      }
      if cyclesInPhase == 0 {
        match phase
        case Startup =>
          phase := Sample;
          cyclesInPhase := regs.SampleCycles();
        case Sample =>
          phase := Convert;
          cyclesInPhase := 13;
        case Convert =>
          EndSample(env);
        case Idle =>
      }
    }

    method Tick(env: Env, elapsed: nat)
      modifies this
      ensures Clocked(View(), fractionalCycles) == Ticked(Clocked(old(View()), old(fractionalCycles)), env, elapsed)
    {
      if regs.ctrla & 1 == 0 {
        phase := Idle;
        converting := false;
        return;
      }
      if phase == Idle {
        return;
      }
      var prescaler := regs.Prescaler();
      var totalCycles := elapsed + fractionalCycles;
      var adcTicks := Quotient(totalCycles, prescaler);
      fractionalCycles := Remainder(totalCycles, prescaler);

      RunConverter(env, adcTicks);
    }

    method RunConverter(env: Env, adcTicks: nat)
      modifies this
      ensures View() == AdcTicks(old(View()), Repeat(Quantise(old(regs), env), adcTicks))
      ensures fractionalCycles == old(fractionalCycles)
    {
      hide AdcTick, Quantise;
      ghost var code := Quantise(regs, env);
      var t := 0;
      while t < adcTicks
        invariant t <= adcTicks
        invariant View() == AdcTicks(old(View()), Repeat(code, t))
        invariant regs == old(regs) && fractionalCycles == old(fractionalCycles)
      {
        ClockConverter(env);
        assert Repeat(code, t + 1)[..t] == Repeat(code, t);
        t := t + 1;
      }
    }

    method Read(reg: Register) returns (value: bv8)
      ensures value == Loaded(View(), reg)
    {
      hide LowOf, HighOf;
      match reg
      case CtrlA => value := regs.ctrla;
      case CtrlB => value := regs.ctrlb;
      case CtrlC => value := regs.ctrlc;
      case CtrlD => value := regs.ctrld;
      case CtrlE => value := regs.ctrle;
      case SampCtrl => value := regs.sampctrl;
      case MuxPos => value := regs.muxpos;
      case MuxNeg => value := regs.muxneg;
      case Command => value := 0;
      case EvCtrl => value := regs.evctrl;
      case IntCtrl => value := regs.intctrl;
      case IntFlags => value := intflags;
      case DbgCtrl => value := regs.dbgctrl;
      case Calib => value := regs.calib;
      case WinLtLow => value := LowOf(regs.winlt);
      case WinLtHigh => value := HighOf(regs.winlt);
      case WinHtLow => value := LowOf(regs.winht);
      case WinHtHigh => value := HighOf(regs.winht);
    }

    method ReadResultLow() returns (value: nat)
      modifies this`resLatch, this`resLatchValid, this`intflags
      ensures View() == LowRead(old(View())) && value == old(res) % 256
    {
      value := res % 256;
      resLatch := res;
      resLatchValid := true;
      intflags := intflags & 0xFE;
    }

    method ReadResultHigh() returns (value: nat)
      ensures value == HighByte(View())
    {
      value := (if resLatchValid then resLatch else res) / 256 % 256;
    }

    method Write(reg: Register, value: bv8)
      modifies this
      ensures View() == Written(old(View()), reg, value)
      ensures fractionalCycles == old(fractionalCycles)
    {
      hide Stored, Started;
      if reg.Command? {
        if value & 1 != 0 {
          StartConversion();
        }
      } else if reg.IntFlags? {
        intflags := intflags & !value;
      } else {
        regs := Stored(regs, reg, value);
      }
    }

    method ConsumeInterruptRequest() returns (source: Option<Source>)
      modifies this`intflags
      ensures View() == Consumed(old(View())) && source == Pending(old(View()))
    {
      if regs.intctrl & 1 != 0 && intflags & 1 != 0 {
        source := Some(ResultReady);
      } else if regs.intctrl & 2 != 0 && intflags & 2 != 0 {
        source := Some(WindowHit);
      } else {
        return None;
      }
      if intflags & 1 != 0 {
        intflags := intflags & 0xFE;
      } else {
        intflags := intflags & 0xFD;
      }
    }
  }
}
