/** What one sample costs, and runs from power-on in which a property of the AVR8X converter
    that holds only under a condition fails. */
module Adc8xWitnesses {
  import opened Common
  import opened Adc8xEngine
  import opened Adc8xTiming
  import opened Adc8xSchedule
  import opened Adc8xAveraging

  // ---- one sample at a time ---------------------------------------------------------

  lemma {:induction false} Waits(m: Machine, code: nat, n: nat)
    requires n < m.count
    ensures AdcTicks(m, Repeat(code, n)) == m.(count := m.count - n)
  {
    if n > 0 {
      Waits(m, code, n - 1);
      assert Repeat(code, n)[..n - 1] == Repeat(code, n - 1);
    }
  }

  lemma PhaseEnds(m: Machine, code: nat)
    requires m.count >= 1
    ensures AdcTicks(m, Repeat(code, m.count)) == AdcTick(m.(count := 1), code)
  {
    hide AdcTick;
    Waits(m, code, m.count - 1);
    assert Repeat(code, m.count)[..m.count - 1] == Repeat(code, m.count - 1);
  }

  /** A sample begun and not disturbed takes its sampling and conversion clocks. */
  lemma WholeSample(m: Machine, code: nat)
    requires m.phase == Sample && m.count == m.regs.SampleCycles()
    ensures AdcTicks(m, Repeat(code, m.regs.SampleTicks())) == SampleEnded(m.(phase := Convert, count := 0), code)
  {
    hide SampleEnded;
    var converting := m.(phase := Convert, count := 13);
    PhaseEnds(m, code);
    PhaseEnds(converting, code);
    assert AdcTick(m.(count := 1), code) == converting;
    assert Repeat(code, m.regs.SampleTicks()) == Repeat(code, m.count) + Repeat(code, 13);
    AdcTicksCompose(m, Repeat(code, m.count), Repeat(code, 13));
  }

  lemma FirstSample(m: Machine, code: nat)
    requires m.phase == Startup && m.count == 2
    ensures AdcTicks(m, Repeat(code, 2 + m.regs.SampleTicks())) == SampleEnded(m.(phase := Convert, count := 0), code)
  {
    hide SampleEnded, Registers.SampleCycles;
    var sampling := m.(phase := Sample, count := m.regs.SampleCycles());
    PhaseEnds(m, code);
    WholeSample(sampling, code);
    assert Repeat(code, 2 + m.regs.SampleTicks()) == Repeat(code, 2) + Repeat(code, m.regs.SampleTicks());
    AdcTicksCompose(m, Repeat(code, 2), Repeat(code, m.regs.SampleTicks()));
  }

  /** A tick of exactly k periods. */
  lemma WholePeriods(c: Clocked, env: Env, k: nat)
    requires Active(c.m) && c.fraction == 0
    ensures Ticked(c, env, k * c.m.regs.Prescaler())
            == Clocked(AdcTicks(c.m, Repeat(Quantise(c.m.regs, env), k)), 0)
  {
    hide AdcTicks, Quantise, Registers.Prescaler;
    DivModUnique(k * c.m.regs.Prescaler(), c.m.regs.Prescaler(), k, 0);
  }

  // ---- runs -------------------------------------------------------------------------

  lemma {:induction false} RunFrom(c: Clocked, ops: seq<Op>, i: nat)
    requires i < |ops|
    ensures Run(c, ops[i..]) == Run(Applied(c, ops[i]), ops[i + 1..])
    decreases |ops|
  {
    hide Applied;
    var n := |ops| - 1;
    assert ops[i..][..n - i] == ops[..n][i..];
    if i < n {
      assert ops[i + 1..][..n - i - 1] == ops[..n][i + 1..];
      RunFrom(c, ops[..n], i);
    } else {
      assert Run(c, []) == c;
    }
  }

  lemma {:induction false} RunConcat(c: Clocked, a: seq<Op>, b: seq<Op>)
    ensures Run(c, a + b) == Run(Run(c, a), b)
  {
    hide Applied;
    if b == [] {
      assert a + b == a;
    } else {
      RunConcat(c, a, b[..|b| - 1]);
      assert (a + b)[..|a + b| - 1] == a + b[..|b| - 1];
    }
  }

  /** Nothing connected. */
  const DARK := Env(None, 5.0)

  /** Every channel at 1000 of the 1024 steps of the 1.1 V reference. */
  const LIT_VOLTS := 1.1 * 1000.0 / 1024.0

  function LitBank(): (bank: seq<real>)
    ensures |bank| == CHANNELS && forall i :: 0 <= i < CHANNELS ==> bank[i] == LIT_VOLTS
  {
    seq(CHANNELS, i => LIT_VOLTS)
  }

  function Lit(): Env { Env(Some(LitBank()), 5.0) }

  lemma LitCode(r: Registers)
    requires r.ctrlc == 0 && r.muxpos == 0 && !r.EightBit()
    ensures Quantise(r, Lit()) == 1000
  {
    assert InputVoltage(r, Lit()) == LIT_VOLTS;
    assert LIT_VOLTS / 1.1 * 1024.0 == 1000.0;
  }

  lemma DarkCode(r: Registers)
    ensures Quantise(r, DARK) == 0
  {
    assert 0.0 / Reference(r, 5.0) == 0.0;
  }

  /** Enabled and otherwise as reset, but for window and interrupt settings. */
  predicate Plain(r: Registers) {
    r.ctrla == 1 && r.ctrlb == 0 && r.ctrlc == 0 && r.sampctrl == 0 && r.muxpos == 0
  }

  /** One plain conversion, 34 cycles from its start, with the given code. */
  function Measured(m: Machine, code: nat): Machine {
    var window := InWindow(m.regs, code);
    m.(res := code, latchValid := false, intflags := if window then m.intflags | 3 else m.intflags | 1,
       phase := Idle, converting := false, count := 0, sample := 1, acc := code, samples := [code],
       published := m.published + [Publication(code, [code], 1, window)])
  }

  lemma PlainSettings(r: Registers)
    requires Plain(r)
    ensures r.Enabled() && !r.FreeRun() && !r.EightBit() && r.Prescaler() == 2 && r.SampleCount() == 1
    ensures r.SampleCycles() == 2 && r.SampleTicks() == 15 && r.RoundTicks() == 15
  {
    assert Pow2(0) == 1;
  }

  lemma PlainConversion(m: Machine, env: Env)
    requires Plain(m.regs) && !m.converting
    ensures Ticked(Clocked(Started(m), 0), env, 34) == Clocked(Measured(m, Quantise(m.regs, env)), 0)
  {
    hide Quantise, AdcTicks, SampleEnded, Registers.SampleTicks, Registers.Prescaler, Ticked, InWindow,
      Registers.SampleCount, Registers.FreeRun, Registers.SampleCycles, Measured;
    PlainSettings(m.regs);
    var code := Quantise(m.regs, env);
    WholePeriods(Clocked(Started(m), 0), env, 17);
    FirstSample(Started(m), code);
    SampleEndedPlain(Started(m).(phase := Convert, count := 0), code);
    MeasuredAlike(m, code);
  }

  /** A result does not depend on the conversion state it overwrites. */
  lemma MeasuredAlike(m: Machine, code: nat)
    requires !m.converting
    ensures Measured(Started(m).(phase := Convert, count := 0), code) == Measured(m, code)
  {
    hide InWindow;
  }

  lemma SampleEndedPlain(m: Machine, code: nat)
    requires Plain(m.regs) && m.sample == 0 && m.acc == 0 && m.samples == [] && m.count == 0 && code <= 1023
    ensures SampleEnded(m, code) == Measured(m, code)
  {
    PlainSettings(m.regs);
    assert Quotient(code, 1) % 0x1_0000 == code && m.samples + [code] == [code];
    hide InWindow, Registers.SampleCount, Registers.FreeRun, Quotient;
  }

  // ---- batching ---------------------------------------------------------------------

  /** A single conversion has run out after 34 cycles. A cycle more in the same tick is left
      over, in a tick of its own it is not. */
  lemma SplitLeavesTrace(env: Env)
    ensures var c := Run(RESET, [Store(CtrlA, 1), Store(Command, 1)]);
            Ticked(Ticked(c, env, 34), env, 1) != Ticked(c, env, 34 + 1)
  {
    var ops := [Store(CtrlA, 1), Store(Command, 1)];
    RunOfTwo(RESET, ops);
    var c := Run(RESET, ops);
    assert c == Clocked(Started(PowerOn().(regs := PowerOn().regs.(ctrla := 1))), 0);
    PlainSettings(c.m.regs);
    assert Countdown(c.m) == 17;
    BatchingExact(c, env, 34, 1);
    hide Run, Ticked, Countdown;
  }

  // ---- acknowledging ----------------------------------------------------------------

  const WINDOW_READY := PowerOn().(regs := PowerOn().regs.(ctrla := 1, ctrle := 3, intctrl := 2))

  lemma WindowSetUp()
    ensures Run(RESET, [Store(CtrlA, 1), Store(CtrlE, 3), Store(IntCtrl, 2)]) == Clocked(WINDOW_READY, 0)
  {
    RunOfThree(RESET, [Store(CtrlA, 1), Store(CtrlE, 3), Store(IntCtrl, 2)]);
    hide Run, Registers.SampleCount;
  }

  lemma WindowResult()
    ensures var m := Measured(WINDOW_READY, 0);
            && Run(Clocked(WINDOW_READY, 0), [Store(Command, 1), Clock(DARK, 34)]) == Clocked(m, 0)
            && Pending(m) == Some(WindowHit) && m.intflags == 3
            && Consumed(m).intflags == 2 && Pending(Consumed(m)) == Some(WindowHit)
  {
    DarkCode(WINDOW_READY.regs);
    PlainConversion(WINDOW_READY, DARK);
    RunOfTwo(Clocked(WINDOW_READY, 0), [Store(Command, 1), Clock(DARK, 34)]);
    assert InWindow(WINDOW_READY.regs, 0);
    hide Run, Ticked, Quantise, Started;
  }

  /** With the window interrupt alone enabled, a result within the window requests it; the
      acknowledgement clears RESRDY and the request stands. */
  lemma AcknowledgeClearsOther()
    ensures var m := Run(RESET, [Store(CtrlA, 1), Store(CtrlE, 3), Store(IntCtrl, 2),
                                 Store(Command, 1), Clock(DARK, 34)]).m;
            && Pending(m) == Some(WindowHit) && m.intflags == 3
            && Consumed(m).intflags == 2 && Pending(Consumed(m)) == Some(WindowHit)
  {
    var front := [Store(CtrlA, 1), Store(CtrlE, 3), Store(IntCtrl, 2)];
    var back := [Store(Command, 1), Clock(DARK, 34)];
    WindowSetUp();
    WindowResult();
    RunConcat(RESET, front, back);
    assert front + back == [Store(CtrlA, 1), Store(CtrlE, 3), Store(IntCtrl, 2), Store(Command, 1),
                            Clock(DARK, 34)];
    hide Run, Measured, Pending, Consumed;
  }

  // ---- two-byte reads ---------------------------------------------------------------

  const READY := PowerOn().(regs := PowerOn().regs.(ctrla := 1))

  lemma LitResult()
    ensures Run(RESET, [Store(CtrlA, 1), Store(Command, 1), Clock(Lit(), 34)]) == Clocked(Measured(READY, 1000), 0)
  {
    LitCode(READY.regs);
    PlainConversion(READY, Lit());
    RunOfThree(RESET, [Store(CtrlA, 1), Store(Command, 1), Clock(Lit(), 34)]);
    hide Run, Ticked, Quantise, Measured;
  }

  lemma DarkResult(m: Machine)
    requires Plain(m.regs) && !m.converting
    ensures Run(Clocked(m, 0), [ReadLow, Store(Command, 1), Clock(DARK, 34)]) == Clocked(Measured(LowRead(m), 0), 0)
  {
    hide Run, Ticked, Quantise, Measured, Plain, Started;
    DarkCode(m.regs);
    assert Plain(LowRead(m).regs) && !LowRead(m).converting;
    PlainConversion(LowRead(m), DARK);
    RunOfThree(Clocked(m, 0), [ReadLow, Store(Command, 1), Clock(DARK, 34)]);
  }

  /** A result of 1000 is read low byte first, the next of 0 comes in between, and the two
      bytes read are neither. */
  lemma TornRead()
    ensures var c := Run(RESET, [Store(CtrlA, 1), Store(Command, 1), Clock(Lit(), 34)]);
            var n := Run(c, [ReadLow, Store(Command, 1), Clock(DARK, 34)]);
            c.m.res == 1000 && n.m.res == 0 && HighByte(n.m) * 256 + c.m.res % 256 == 232
  {
    hide Run;
    var first := Measured(READY, 1000);
    assert first.res == 1000 && !first.converting && Plain(first.regs);
    assert HighByte(Measured(LowRead(first), 0)) == 0 && Measured(LowRead(first), 0).res == 0;
    hide Measured, HighByte, LowRead;
    LitResult();
    DarkResult(first);
  }

  lemma RunOfTwo(c: Clocked, ops: seq<Op>)
    requires |ops| == 2
    ensures Run(c, ops) == Applied(Applied(c, ops[0]), ops[1])
  {
    hide Applied;
    RunFrom(c, ops, 0);
    RunFrom(Applied(c, ops[0]), ops, 1);
    assert ops[0..] == ops && ops[2..] == [];
  }

  lemma RunOfThree(c: Clocked, ops: seq<Op>)
    requires |ops| == 3
    ensures Run(c, ops) == Applied(Applied(Applied(c, ops[0]), ops[1]), ops[2])
  {
    hide Applied;
    RunFrom(c, ops, 0);
    RunOfTwo(Applied(c, ops[0]), ops[1..]);
    assert ops[0..] == ops;
  }

  // ---- averaging --------------------------------------------------------------------

  /** SAMPNUM lowered from two samples to one after the first: two samples of 1000 are
      announced as 2000. */
  lemma LoweredCountIsNoMean()
    ensures var ops := [Store(CtrlA, 1), Store(CtrlB, 1), Store(Command, 1), Clock(Lit(), 34),
                        Store(CtrlB, 0), Clock(Lit(), 30)];
            var m := Run(RESET, ops).m;
            m.published == [Publication(2000, [1000, 1000], 1, false)] && m.res == 2000
            && !IsMean(m.published[0], 1023)
  {
    var front := [Store(CtrlA, 1), Store(CtrlB, 1), Store(Command, 1)];
    var back := [Clock(Lit(), 34), Store(CtrlB, 0), Clock(Lit(), 30)];
    var r := PowerOn().regs.(ctrla := 1, ctrlb := 1);
    var started := Started(PowerOn().(regs := r));
    RunOfThree(RESET, front);
    assert Run(RESET, front) == Clocked(started, 0) by { hide Run, Registers.SampleCount; }
    OneOfTwo(started);
    var half := started.(phase := Sample, count := 2, sample := 1, acc := 1000, samples := [1000]);
    OneTooMany(half.(regs := r.(ctrlb := 0)));
    RunOfThree(Clocked(started, 0), back);
    RunConcat(RESET, front, back);
    assert front + back == [Store(CtrlA, 1), Store(CtrlB, 1), Store(Command, 1), Clock(Lit(), 34),
                            Store(CtrlB, 0), Clock(Lit(), 30)];
    hide Run, Ticked, Started;
  }

  lemma OneOfTwo(m: Machine)
    requires m.regs == PowerOn().regs.(ctrla := 1, ctrlb := 1)
    requires m.phase == Startup && m.count == 2 && m.sample == 0 && m.acc == 0 && m.samples == []
    ensures Ticked(Clocked(m, 0), Lit(), 34)
            == Clocked(m.(phase := Sample, count := 2, sample := 1, acc := 1000, samples := [1000]), 0)
  {
    assert Pow2(0) == 1 && Pow2(1) == 2;
    assert m.regs.SampleCount() == 2 && m.regs.Prescaler() == 2 && m.regs.SampleTicks() == 15;
    LitCode(m.regs);
    WholePeriods(Clocked(m, 0), Lit(), 17);
    FirstSample(m, 1000);
    assert [] + [1000] == [1000];
    hide Ticked, Quantise, AdcTicks, Published;
  }

  lemma OneTooMany(m: Machine)
    requires m.regs == PowerOn().regs.(ctrla := 1) && m.published == []
    requires m.phase == Sample && m.count == 2 && m.sample == 1 && m.acc == 1000 && m.samples == [1000]
    ensures var n := Ticked(Clocked(m, 0), Lit(), 30).m;
            n.res == 2000 && n.published == [Publication(2000, [1000, 1000], 1, false)]
  {
    PlainSettings(m.regs);
    LitCode(m.regs);
    WholePeriods(Clocked(m, 0), Lit(), 15);
    WholeSample(m, 1000);
    TwoByOne(m.(phase := Convert, count := 0));
    hide Ticked, Quantise, AdcTicks, SampleEnded, Registers.SampleTicks;
  }

  lemma TwoByOne(m: Machine)
    requires m.regs.SampleCount() == 1 && !m.regs.FreeRun() && m.regs.ctrle == 0 && m.published == []
    requires m.sample == 1 && m.acc == 1000 && m.samples == [1000]
    ensures var n := SampleEnded(m, 1000);
            n.res == 2000 && n.published == [Publication(2000, [1000, 1000], 1, false)]
  {
    assert [1000] + [1000] == [1000, 1000] && Quotient(2000, 1) % 0x1_0000 == 2000;
    hide Registers.SampleCount, Registers.FreeRun, Quotient;
  }
}
