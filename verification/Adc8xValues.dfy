/** The settings of the AVR8X converter by their values: which code an input reads as, how long a
    conversion takes, when the window is met, and that registers read back as written. */
module Adc8xValues {
  import opened Common
  import opened Adc8xEngine
  import opened Adc8xTiming
  import opened Adc8xSchedule
  import opened Adc8xWitnesses
  import ModernAdc

  // ---- codes ------------------------------------------------------------------------

  /** In 10-bit mode, with v volts on the selected channel and ref volts of reference, the code
      is k exactly if v is in the k-th of 1024 steps of the reference; above them it is 1023. */
  lemma CodeExact(r: Registers, bank: Bank, vdd: Volts, v: real, ref: real, k: nat)
    requires r.ctrla & 0x04 == 0
    requires v == if r.muxpos < 0x80 then bank[r.muxpos as nat] else 0.0
    requires ref == if r.ctrlc & 0x30 == 0x00 then 1.1 else if r.ctrlc & 0x30 == 0x20 then 2.5 else vdd
    ensures var code := Quantise(r, Env(Some(bank), vdd));
            && (k < 1023 ==> (code == k <==> k as real * ref <= v * 1024.0 < (k + 1) as real * ref))
            && (code == 1023 <==> v * 1024.0 >= 1023.0 * ref)
  {
    ReferenceExact(r, vdd);
    var env := Env(Some(bank), vdd);
    assert InputVoltage(r, env) == v && Reference(r, vdd) == ref;
    FloorAtLeast(v, ref, 1024.0, k);
    FloorAtLeast(v, ref, 1024.0, k + 1);
    FloorAtLeast(v, ref, 1024.0, 1023);
    assert Quantise(r, env) == Min(Portion(v, ref, 1024.0).Floor, 1023);
    hide Quantise, InputVoltage, Reference;
  }

  lemma ReferenceExact(r: Registers, vdd: Volts)
    ensures Reference(r, vdd) == if r.ctrlc & 0x30 == 0x00 then 1.1 else if r.ctrlc & 0x30 == 0x20 then 2.5 else vdd
  {
  }

  /** Without a bank of signals every code is 0. */
  lemma NoBankNoCode(r: Registers, vdd: Volts)
    ensures Quantise(r, Env(None, vdd)) == 0
  {
    FloorAtLeast(0.0, Reference(r, vdd), 1024.0, 1);
  }

  /** In 8-bit mode the code is a quarter of the 10-bit code of the same input. */
  lemma EightBitCode(r: Registers, env: Env)
    requires r.ctrla & 0x04 != 0
    ensures Quantise(r, env) == Quantise(r.(ctrla := r.ctrla & 0xFB), env) / 4
  {
    var ten := r.(ctrla := r.ctrla & 0xFB);
    assert !ten.EightBit() && r.EightBit();
    assert InputVoltage(ten, env) == InputVoltage(r, env) && Reference(ten, env.vdd) == Reference(r, env.vdd);
    hide InputVoltage, Reference, Registers.EightBit;
  }

  // ---- clocks -----------------------------------------------------------------------

  lemma Settings(r: Registers)
    ensures r.Prescaler() == [2, 4, 8, 16, 32, 64, 128, 256][((r.ctrlb >> 4) & 7) as nat]
    ensures r.SampleCount() == [1, 2, 4, 8, 16, 32, 64, 128][(r.ctrlb & 7) as nat]
  {
    PowersOfTwo();
    hide Pow2;
  }

  lemma PowersOfTwo()
    ensures Pow2(0) == 1 && Pow2(1) == 2 && Pow2(2) == 4 && Pow2(3) == 8
    ensures Pow2(4) == 16 && Pow2(5) == 32 && Pow2(6) == 64 && Pow2(7) == 128
  {
  }

  /** From a start on, in register values: with prescaler p, n samples and f cycles left over,
      the first result is announced p * (2 + n * (15 + SAMPLEN)) - f cycles later and, free
      running, one every p * n * (15 + SAMPLEN) cycles after it. */
  lemma StartScheduleExact(c: Clocked, slices: seq<Slice>, p: nat, n: nat, k: nat)
    requires c.m.regs.ctrla & 0x01 != 0 && !c.m.converting && slices != [] && k >= 1
    requires p == [2, 4, 8, 16, 32, 64, 128, 256][((c.m.regs.ctrlb >> 4) & 7) as nat]
    requires n == [1, 2, 4, 8, 16, 32, 64, 128][(c.m.regs.ctrlb & 7) as nat]
    ensures var clocks := n * (15 + (c.m.regs.sampctrl & 0x1F) as nat);
            |TickAll(c.(m := Started(c.m)), slices).m.published| >= |c.m.published| + k
            <==> Total(slices) >= p * (2 + k * clocks) - c.fraction && (k == 1 || c.m.regs.ctrla & 0x02 != 0)
  {
    Settings(c.m.regs);
    hide Registers.Prescaler, Registers.SampleCount, TickAll, Total, Started;
    ScheduleByNumbers(c, slices, p, n * (15 + (c.m.regs.sampctrl & 0x1F) as nat), k);
  }

  lemma ScheduleByNumbers(c: Clocked, slices: seq<Slice>, p: nat, clocks: nat, k: nat)
    requires c.m.regs.ctrla & 0x01 != 0 && !c.m.converting && slices != [] && k >= 1
    requires p == c.m.regs.Prescaler() && clocks == c.m.regs.SampleCount() * (15 + (c.m.regs.sampctrl & 0x1F) as nat)
    ensures |TickAll(c.(m := Started(c.m)), slices).m.published| >= |c.m.published| + k
            <==> Total(slices) >= p * (2 + k * clocks) - c.fraction && (k == 1 || c.m.regs.ctrla & 0x02 != 0)
  {
    hide Registers.Prescaler, Registers.SampleCount, TickAll, Total, ResultsDue, Started;
    StartSchedule(c, slices);
    DueFromFirst(c.m.regs.FreeRun(), p * (2 + clocks) - c.fraction, p * clocks, Total(slices), k);
    FirstAndRounds(p, clocks, k);
  }

  lemma FirstAndRounds(p: nat, clocks: nat, k: nat)
    ensures p * (2 + clocks) + (k - 1) * (p * clocks) == p * (2 + k * clocks)
  {
    Distribute(k, -1, p * clocks);
    assert p * (2 + clocks) == p * 2 + p * clocks && p * (2 + k * clocks) == p * 2 + p * (k * clocks);
    assert p * (k * clocks) == k * (p * clocks);
  }

  /** The k-th result is due k - 1 rounds after the first. */
  lemma DueFromFirst(freeRun: bool, first: int, round: nat, total: nat, k: nat)
    requires round > 0 && k >= 1
    ensures ResultsDue(freeRun, first, round, total) >= k
            <==> total >= first + (k - 1) * round && (k == 1 || freeRun)
  {
    if total >= first {
      DivAtLeast(total - first, round, k - 1);
    } else {
      MulMonotone(0, k - 1, round);
    }
  }

  // ---- results ----------------------------------------------------------------------

  /** A single conversion of a single sample, 2 + 15 + SAMPLEN prescaled clocks after its start:
      the result is the code of the input, RESRDY is raised, and WCMP if the window is met. */
  lemma SingleResult(m: Machine, env: Env, clocks: nat)
    requires m.regs.ctrla & 0x03 == 0x01 && m.regs.ctrlb & 7 == 0 && !m.converting
    requires clocks == 17 + (m.regs.sampctrl & 0x1F) as nat
    ensures var n, code := Ticked(Clocked(Started(m), 0), env, clocks * m.regs.Prescaler()).m, Quantise(m.regs, env);
            var met := ModernAdc.InWindow(m.regs.ctrle, m.regs.winlt as nat, m.regs.winht as nat, code);
            && n.res == code && n.published == m.published + [Publication(code, [code], 1, met)]
            && n.intflags == m.intflags | (if met then 3 else 1)
            && n.phase == Idle && !n.converting
  {
    hide Quantise, Ticked, AdcTicks, Registers.Prescaler, Registers.SampleTicks, Registers.SampleCount,
      Registers.FreeRun, SampleEnded, ModernAdc.InWindow;
    LoneSettings(m.regs);
    var code := Quantise(m.regs, env);
    WholePeriods(Clocked(Started(m), 0), env, clocks);
    FirstSample(Started(m), code);
    LoneSample(Started(m).(phase := Convert, count := 0), code);
  }

  lemma LoneSettings(r: Registers)
    requires r.ctrla & 0x03 == 0x01 && r.ctrlb & 7 == 0
    ensures r.Enabled() && !r.FreeRun() && r.SampleCount() == 1
    ensures r.SampleTicks() == 15 + (r.sampctrl & 0x1F) as nat
  {
    assert Pow2(0) == 1;
    assert r.ctrla & 1 == (r.ctrla & 3) & 1 && r.ctrla & 2 == (r.ctrla & 3) & 2;
  }

  lemma LoneSample(m: Machine, code: nat)
    requires m.regs.SampleCount() == 1 && !m.regs.FreeRun() && m.sample == 0 && m.acc == 0 && m.samples == []
    requires code <= 1023
    ensures var n := SampleEnded(m, code);
            var met := ModernAdc.InWindow(m.regs.ctrle, m.regs.winlt as nat, m.regs.winht as nat, code);
            && n.res == code && n.published == m.published + [Publication(code, [code], 1, met)]
            && n.intflags == m.intflags | (if met then 3 else 1)
            && n.phase == Idle && !n.converting
  {
    assert Quotient(code, 1) % 0x1_0000 == code && m.samples + [code] == [code];
    hide Registers.SampleCount, Registers.FreeRun, Quotient, ModernAdc.InWindow;
  }

  // ---- registers --------------------------------------------------------------------

  lemma BytesOf(word: bv16, value: bv8)
    ensures LowOf(WithLow(word, value)) == value && HighOf(WithLow(word, value)) == HighOf(word)
    ensures LowOf(WithHigh(word, value)) == LowOf(word) && HighOf(WithHigh(word, value)) == value
  {
  }

  predicate IsWindow(reg: Register) {
    reg == WinLtLow || reg == WinLtHigh || reg == WinHtLow || reg == WinHtHigh
  }

  lemma StoredThere(r: Registers, reg: Register, value: bv8)
    requires reg != Command && reg != IntFlags && !IsWindow(reg)
    ensures Byte(Stored(r, reg, value), reg) == value
  {
    hide WithLow, WithHigh, LowOf, HighOf;
  }

  lemma NotStoredElsewhere(r: Registers, reg: Register, value: bv8, other: Register)
    requires reg != other && !IsWindow(reg)
    ensures Byte(Stored(r, reg, value), other) == Byte(r, other)
  {
    hide WithLow, WithHigh, LowOf, HighOf;
  }

  lemma WindowStored(r: Registers, reg: Register, value: bv8)
    requires IsWindow(reg)
    ensures Byte(Stored(r, reg, value), reg) == value
  {
    hide WithLow, WithHigh, LowOf, HighOf;
    match reg
    case WinLtLow => BytesOf(r.winlt, value);
    case WinLtHigh => BytesOf(r.winlt, value);
    case WinHtLow => BytesOf(r.winht, value);
    case WinHtHigh => BytesOf(r.winht, value);
  }

  lemma WindowNotElsewhere(r: Registers, reg: Register, value: bv8, other: Register)
    requires IsWindow(reg) && reg != other
    ensures Byte(Stored(r, reg, value), other) == Byte(r, other)
  {
    hide WithLow, WithHigh, LowOf, HighOf;
    match reg
    case WinLtLow => BytesOf(r.winlt, value);
    case WinLtHigh => BytesOf(r.winlt, value);
    case WinHtLow => BytesOf(r.winht, value);
    case WinHtHigh => BytesOf(r.winht, value);
  }

  lemma StoreReadsBack(r: Registers, reg: Register, value: bv8, other: Register)
    requires reg != Command && reg != IntFlags
    ensures Byte(Stored(r, reg, value), reg) == value
    ensures other != reg ==> Byte(Stored(r, reg, value), other) == Byte(r, other)
  {
    hide Stored, Byte;
    if IsWindow(reg) {
      WindowStored(r, reg, value);
      if other != reg {
        WindowNotElsewhere(r, reg, value, other);
      }
    } else {
      StoredThere(r, reg, value);
      if other != reg {
        NotStoredElsewhere(r, reg, value, other);
      }
    }
  }

  lemma StartKeepsRegisters(m: Machine)
    ensures Started(m).regs == m.regs && Started(m).intflags == m.intflags
  {
  }

  /** Each register reads back as written, flags are cleared by ones, and no write shows in
      another register. */
  lemma ReadsBack(m: Machine, reg: Register, value: bv8, other: Register)
    ensures reg != Command ==>
              Loaded(Written(m, reg, value), reg)
              == if reg == IntFlags then m.intflags & !value else value
    ensures other != reg ==> Loaded(Written(m, reg, value), other) == Loaded(m, other)
  {
    hide Started, Stored, Byte;
    if reg == Command {
      StartKeepsRegisters(m);
    } else if reg != IntFlags {
      StoreReadsBack(m.regs, reg, value, other);
    }
  }

  // ---- interrupts -------------------------------------------------------------------

  /** RESRDY is requested if it is enabled and set, and before WCOMP, which is requested on
      the same terms. */
  lemma RequestExact(m: Machine)
    ensures Pending(m) == Some(ResultReady) <==> m.regs.intctrl & m.intflags & 0x01 != 0
    ensures Pending(m) == Some(WindowHit) <==> m.regs.intctrl & m.intflags & 0x03 == 0x02
  {
  }

  /** Reading the low byte acknowledges RESRDY and no other flag, and holds the result for the
      high byte whatever the result register becomes. */
  lemma LowReadExact(m: Machine, res: nat)
    requires m.res < 0x1_0000
    ensures Pending(LowRead(m)) != Some(ResultReady) && (LowRead(m).intflags ^ m.intflags) & 0xFE == 0
    ensures HighByte(LowRead(m).(res := res)) * 256 + m.res % 256 == m.res
  {
  }
}
