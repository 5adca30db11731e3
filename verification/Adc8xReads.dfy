/** Reading the AVR8X result in two bytes while the converter runs on. */
module Adc8xReads {
  import opened Common
  import opened Adc8xEngine
  import opened Adc8xTiming
  import opened Adc8xSchedule
  import opened Adc8xAveraging
  import opened Adc8xWitnesses

  /** From m to n: either nothing was announced and what the high byte is read from stayed,
      or something was and the latch is off. */
  predicate Since(m: Machine, n: Machine) {
    && |n.published| >= |m.published| && n.latch == m.latch
    && if |n.published| == |m.published| then n.res == m.res && n.latchValid == m.latchValid else !n.latchValid
  }

  lemma TickSince(m: Machine, code: nat)
    ensures Since(m, AdcTick(m, code))
  {
    hide Registers.SampleCount, Registers.FreeRun, Registers.SampleCycles, InWindow, Quotient;
  }

  lemma {:induction false} TicksSince(m: Machine, codes: seq<nat>)
    ensures Since(m, AdcTicks(m, codes))
  {
    hide AdcTick;
    if codes != [] {
      var n := |codes| - 1;
      TicksSince(m, codes[..n]);
      TickSince(AdcTicks(m, codes[..n]), codes[n]);
    }
  }

  lemma OpSince(c: Clocked, op: Op)
    requires !op.ReadLow?
    ensures Since(c.m, Applied(c, op).m)
  {
    hide AdcTicks, Quantise, Registers.Prescaler, Stored;
    if op.Clock? && Active(c.m) {
      TicksSince(c.m, Repeat(Quantise(c.m.regs, op.env), Quotient(op.elapsed + c.fraction, c.m.regs.Prescaler())));
    }
  }

  lemma {:induction false} RunSince(c: Clocked, ops: seq<Op>)
    requires forall i :: 0 <= i < |ops| ==> !ops[i].ReadLow?
    ensures Since(c.m, Run(c, ops).m)
  {
    hide Applied;
    if ops != [] {
      RunSince(c, ops[..|ops| - 1]);
      OpSince(Run(c, ops[..|ops| - 1]), ops[|ops| - 1]);
    }
  }

  /** The low byte now and the high byte after any run without another low read: the latch
      gives the result held now until the next announcement, whose high byte comes then. */
  lemma PairAfterRun(c: Clocked, ops: seq<Op>)
    requires c.m.res < 0x1_0000 && forall i :: 0 <= i < |ops| ==> !ops[i].ReadLow?
    ensures var n := Run(c.(m := LowRead(c.m)), ops).m;
            HighByte(n) == (if |n.published| == |c.m.published| then c.m.res else n.res) / 256 % 256
  {
    RunSince(c.(m := LowRead(c.m)), ops);
    hide Run;
  }

  /** The result always fits its sixteen bits, as the bytes above require. */
  lemma {:induction false} ResultFits(c: Clocked, ops: seq<Op>)
    requires c.m.res < 0x1_0000
    ensures Run(c, ops).m.res < 0x1_0000
  {
    hide Applied;
    if ops != [] {
      ResultFits(c, ops[..|ops| - 1]);
      var before, op := Run(c, ops[..|ops| - 1]), ops[|ops| - 1];
      assert Applied(before, op).m.res < 0x1_0000 by { OpFits(before, op); }
    }
  }

  lemma OpFits(c: Clocked, op: Op)
    requires c.m.res < 0x1_0000
    ensures Applied(c, op).m.res < 0x1_0000
  {
    hide AdcTicks, Quantise, Registers.Prescaler, Stored;
    if op.Clock? && Active(c.m) {
      TicksFit(c.m, Repeat(Quantise(c.m.regs, op.env), Quotient(op.elapsed + c.fraction, c.m.regs.Prescaler())));
    }
  }

  lemma {:induction false} TicksFit(m: Machine, codes: seq<nat>)
    requires m.res < 0x1_0000
    ensures AdcTicks(m, codes).res < 0x1_0000
  {
    hide Registers.SampleCount, Registers.FreeRun, Registers.SampleCycles, InWindow, Quotient;
    if codes != [] {
      TicksFit(m, codes[..|codes| - 1]);
    }
  }

  // ---- when no input can tear the pair ----------------------------------------------

  /** The greatest code: channels beyond the bank read as nothing connected. */
  function Top(r: Registers): (top: nat)
    ensures top <= 1023
  {
    if r.muxpos as nat >= CHANNELS then 0 else if r.EightBit() then 255 else 1023
  }

  lemma CodeAtMostTop(r: Registers, env: Env)
    ensures Quantise(r, env) <= Top(r)
  {
    assert 0.0 / Reference(r, env.vdd) == 0.0;
  }

  function FullBank(): (bank: seq<real>)
    ensures |bank| == CHANNELS && forall i :: 0 <= i < CHANNELS ==> bank[i] == 6.0
  {
    seq(CHANNELS, i => 6.0)
  }

  function Full(): Env { Env(Some(FullBank()), 5.0) }

  lemma FullCode(r: Registers)
    ensures Quantise(r, Full()) == Top(r)
  {
    var reference: real := Reference(r, 5.0);
    if r.muxpos as nat < CHANNELS {
      assert 6.0 / 1.1 * 1024.0 >= 1024.0 && 6.0 / 2.5 * 1024.0 >= 1024.0 && 6.0 / 5.0 * 1024.0 >= 1024.0;
      assert reference == 1.1 || reference == 2.5 || reference == 5.0;
    } else {
      assert 0.0 / reference == 0.0;
    }
  }

  function Cut(value: nat): (r: nat)
    ensures r < 0x1_0000
  {
    value % 0x1_0000
  }

  /** The result after `due` announcements if every sample from now on is x, before it is cut to
      its register. */
  function Uncut(m: Machine, x: nat, due: nat): nat {
    if due == 0 then m.res
    else if due == 1 then Quotient(m.acc + (SamplesAfter(m) + 1) * x, m.regs.SampleCount())
    else x
  }

  function Held(m: Machine, x: nat, due: nat): nat { Cut(Uncut(m, x, due)) }

  /** A value from a to b, cut. */
  predicate CutBetween(result: nat, a: nat, b: nat) {
    exists r: nat :: a <= r <= b && result == Cut(r)
  }

  lemma UncutElse(m: Machine, x: nat)
    ensures Uncut(m, x, 0) == m.res && forall due: nat :: due >= 2 ==> Uncut(m, x, due) == x
  {
  }

  /** n is what m becomes without announcing anything, and what it can hold has narrowed. */
  predicate Narrowed(m: Machine, n: Machine, lo: nat, hi: nat) {
    && n.phase != Idle && n.res == m.res && n.published == m.published
    && Uncut(m, lo, 1) <= Uncut(n, lo, 1) && Uncut(n, hi, 1) <= Uncut(m, hi, 1)
  }

  lemma NoSampleEnds(m: Machine, code: nat, lo: nat, hi: nat)
    requires m.phase != Idle && (m.count > 1 || m.phase != Convert)
    ensures Narrowed(m, AdcTick(m, code), lo, hi)
  {
    hide Registers.SampleCount, Registers.SampleCycles, SampleEnded, Quotient;
  }

  /** What a sample that is not the last leaves to come. */
  lemma SampleEndedKeeps(m: Machine, code: nat)
    requires m.phase == Convert && m.sample + 1 < m.regs.SampleCount()
    ensures var n := SampleEnded(m, code);
            && n.phase == Sample && n.regs == m.regs && n.res == m.res && n.published == m.published
            && n.acc == m.acc + code && SamplesAfter(n) + 1 == SamplesAfter(m)
  {
    hide Registers.SampleCount, Registers.SampleCycles;
  }

  lemma MoreOrLess(acc: nat, k: nat, lo: nat, code: nat, hi: nat, count: nat)
    requires count > 0 && lo <= code <= hi
    ensures Quotient(acc + (k + 1) * lo, count) <= Quotient(acc + code + k * lo, count)
    ensures Quotient(acc + code + k * hi, count) <= Quotient(acc + (k + 1) * hi, count)
  {
    Distribute(k, 1, lo);
    Distribute(k, 1, hi);
    hide Quotient;
    QuotientMonotone(acc + (k + 1) * lo, acc + code + k * lo, count);
    QuotientMonotone(acc + code + k * hi, acc + (k + 1) * hi, count);
  }

  lemma SampleEnds(m: Machine, code: nat, lo: nat, hi: nat)
    requires m.phase == Convert && m.sample + 1 < m.regs.SampleCount() && lo <= code <= hi
    ensures Narrowed(m, SampleEnded(m, code), lo, hi)
  {
    hide SampleEnded, Registers.SampleCount, SamplesAfter, Quotient;
    SampleEndedKeeps(m, code);
    MoreOrLess(m.acc, SamplesAfter(m), lo, code, hi, m.regs.SampleCount());
  }

  /** What the last sample announces and leaves. */
  lemma LastSampleEnds(m: Machine, code: nat)
    requires m.phase == Convert && m.sample + 1 >= m.regs.SampleCount()
    ensures var n := SampleEnded(m, code);
            && n.res == Cut(Quotient(m.acc + code, m.regs.SampleCount())) && n.published != m.published
            && SamplesAfter(m) == 0
            && (m.regs.FreeRun() ==> n.phase == Sample && n.acc == 0 && n.sample == 0)
  {
    hide InWindow, Registers.FreeRun, Registers.SampleCycles, Registers.SampleCount, Quotient;
  }

  lemma LastSample(m: Machine, code: nat, lo: nat, hi: nat)
    requires m.phase == Convert && m.sample + 1 >= m.regs.SampleCount() && lo <= code <= hi
    ensures var n := SampleEnded(m, code);
            && CutBetween(n.res, Uncut(m, lo, 1), Uncut(m, hi, 1)) && n.published != m.published
            && (m.regs.FreeRun() ==> n.phase != Idle && Uncut(n, lo, 1) == lo && Uncut(n, hi, 1) == hi)
  {
    hide SampleEnded, Registers.SampleCount, SamplesAfter, Quotient, Cut;
    LastSampleEnds(m, code);
    QuotientMonotone(m.acc + lo, m.acc + code, m.regs.SampleCount());
    QuotientMonotone(m.acc + code, m.acc + hi, m.regs.SampleCount());
    AllAlike(SampleEnded(m, code), lo);
    AllAlike(SampleEnded(m, code), hi);
    assert Uncut(m, lo, 1) <= Quotient(m.acc + code, m.regs.SampleCount()) <= Uncut(m, hi, 1);
  }

  /** One converter clock, whatever the code. */
  lemma ClockBetween(m: Machine, code: nat, lo: nat, hi: nat)
    requires m.phase != Idle && lo <= code <= hi
    ensures var n := AdcTick(m, code);
            if Countdown(m) > 1 then Narrowed(m, n, lo, hi)
            else
              && CutBetween(n.res, Uncut(m, lo, 1), Uncut(m, hi, 1))
              && (m.regs.FreeRun() ==> n.phase != Idle && Uncut(n, lo, 1) == lo && Uncut(n, hi, 1) == hi)
  {
    hide Registers.SampleCount, Registers.RoundTicks, SampleEnded, Registers.SampleCycles, Countdown, Quotient,
      CutBetween;
    CountdownStep(m, code);
    if m.phase != Convert || m.count > 1 {
      NoSampleEnds(m, code, lo, hi);
    } else if m.sample + 1 < m.regs.SampleCount() {
      SampleEnds(m.(count := 0), code, lo, hi);
    } else {
      LastSample(m.(count := 0), code, lo, hi);
    }
  }

  lemma AllAlike(m: Machine, x: nat)
    ensures m.acc == 0 && m.sample == 0 ==> Uncut(m, x, 1) == x
  {
    hide Registers.SampleCount;
    var n := m.regs.SampleCount();
    assert n * x == x * n;
    DivModUnique(n * x, n, x, 0);
  }

  predicate AllBetween(codes: seq<nat>, lo: nat, hi: nat) {
    forall i :: 0 <= i < |codes| ==> lo <= codes[i] <= hi
  }

  /** Announcements within k converter clocks. */
  function DueWithin(m: Machine, k: nat): nat
    requires m.phase != Idle
  {
    ResultsDue(m.regs.FreeRun(), Countdown(m), m.regs.RoundTicks(), k)
  }

  lemma CutWider(result: nat, a: nat, b: nat, c: nat, d: nat)
    requires CutBetween(result, b, c) && a <= b && c <= d
    ensures CutBetween(result, a, d)
  {
    hide Cut;
  }

  lemma CutOnly(result: nat, x: nat)
    ensures CutBetween(result, x, x) <==> result == Cut(x)
  {
    hide Cut;
    assert x <= x <= x;
  }

  /** The result after any codes lies between those of the least and the greatest code. */
  lemma {:induction false} ResultBetween(m: Machine, codes: seq<nat>, lo: nat, hi: nat)
    requires m.phase != Idle && m.res < 0x1_0000 && AllBetween(codes, lo, hi)
    ensures var due := DueWithin(m, |codes|);
            CutBetween(AdcTicks(m, codes).res, Uncut(m, lo, due), Uncut(m, hi, due))
    decreases |codes|
  {
    hide AdcTick, Registers.FreeRun, Registers.RoundTicks, Countdown, Quotient, Uncut, CutBetween;
    UncutElse(m, lo);
    UncutElse(m, hi);
    if codes == [] {
      NoTicks(m);
      CutOnly(m.res, m.res);
    } else {
      var n, rest, due := AdcTick(m, codes[0]), codes[1..], DueWithin(m, |codes|);
      FirstTick(m, codes);
      CountdownStep(m, codes[0]);
      ClockBetween(m, codes[0], lo, hi);
      DueAdvance(m.regs.FreeRun(), Countdown(m), m.regs.RoundTicks(), 1, |rest|);
      if n.phase != Idle {
        UncutElse(n, lo);
        UncutElse(n, hi);
        var later := DueWithin(n, |rest|);
        assert AllBetween(rest, lo, hi);
        TickFits(m, codes[0]);
        ResultBetween(n, rest, lo, hi);
        hide AdcTicks, AllBetween;
        if Countdown(m) > 1 {
          assert due == later;
          CutWider(AdcTicks(n, rest).res, Uncut(m, lo, due), Uncut(n, lo, due), Uncut(n, hi, due), Uncut(m, hi, due));
        } else {
          assert due == 1 + later;
          if later == 0 {
            CutOnly(AdcTicks(n, rest).res, n.res);
            CutSelf(n.res);
          }
        }
      } else {
        assert due == 1;
        IdleTicks(m, codes[0], rest);
      }
    }
  }

  lemma CutSelf(x: nat)
    ensures x < 0x1_0000 ==> Cut(x) == x
  {
  }

  lemma TickFits(m: Machine, code: nat)
    requires m.res < 0x1_0000
    ensures AdcTick(m, code).res < 0x1_0000
  {
    hide Registers.SampleCount, Registers.FreeRun, Registers.SampleCycles, InWindow, Quotient;
  }

  lemma IdleTicks(m: Machine, code: nat, codes: seq<nat>)
    requires m.phase != Idle && AdcTick(m, code).phase == Idle
    ensures AdcTicks(AdcTick(m, code), codes) == AdcTick(m, code)
  {
    hide AdcTick, AdcTicks;
    AdcTickKeeps(m, code);
    AdcTicksKeep(AdcTick(m, code), codes);
  }

  lemma {:induction false} CodesBetween(c: Clocked, slices: seq<Slice>, lo: nat, hi: nat)
    requires forall i :: 0 <= i < |slices| ==> lo <= Quantise(c.m.regs, slices[i].env) <= hi
    ensures AllBetween(Codes(c, slices), lo, hi)
  {
    hide Quantise, Registers.Prescaler, Quotient, Remainder;
    if slices != [] {
      CodesBetween(c, slices[..|slices| - 1], lo, hi);
    }
  }

  lemma {:induction false} SlicesSince(c: Clocked, slices: seq<Slice>)
    ensures var n := TickAll(c, slices).m;
            Since(c.m, n) && (!Active(c.m) ==> !Active(n) && n.published == c.m.published)
  {
    hide AdcTicks, Quantise, Registers.Prescaler;
    if slices != [] {
      var last, before := slices[|slices| - 1], TickAll(c, slices[..|slices| - 1]);
      SlicesSince(c, slices[..|slices| - 1]);
      OpSince(before, Clock(last.env, last.elapsed));
    }
  }

  /** Announcements within `total` clock cycles. */
  function Due(c: Clocked, total: nat): nat {
    if Active(c.m) then DueWithin(c.m, Quotient(total + c.fraction, c.m.regs.Prescaler())) else 0
  }

  lemma AfterSlices(c: Clocked, slices: seq<Slice>, lo: nat, hi: nat)
    requires slices != [] && c.m.res < 0x1_0000
    requires forall i :: 0 <= i < |slices| ==> lo <= Quantise(c.m.regs, slices[i].env) <= hi
    ensures var n, due := TickAll(c, slices).m, Due(c, Total(slices));
            && |n.published| == |c.m.published| + due
            && CutBetween(n.res, Uncut(c.m, lo, due), Uncut(c.m, hi, due))
  {
    hide TickAll, Codes, AdcTicks, Quantise, Registers.Prescaler, Uncut, Quotient, Countdown, Total, CutBetween;
    SlicesSince(c, slices);
    if Active(c.m) {
      SlicesAreOneRun(c, slices);
      CodesBetween(c, slices, lo, hi);
      ResultsWithin(c.m, Codes(c, slices));
      ResultBetween(c.m, Codes(c, slices), lo, hi);
    } else {
      UncutElse(c.m, lo);
      UncutElse(c.m, hi);
      CutSelf(c.m.res);
      CutOnly(c.m.res, c.m.res);
    }
  }

  /** The low byte read now and the high byte read after the slices. */
  function Pair(c: Clocked, slices: seq<Slice>): nat {
    HighByte(TickAll(c.(m := LowRead(c.m)), slices).m) * 256 + c.m.res % 256
  }

  lemma ReadChangesNothing(c: Clocked, x: nat, due: nat, total: nat)
    ensures var n := c.(m := LowRead(c.m));
            Due(n, total) == Due(c, total) && Uncut(n.m, x, due) == Uncut(c.m, x, due)
  {
    assert Active(LowRead(c.m)) ==> Countdown(LowRead(c.m)) == Countdown(c.m);
    hide ResultsDue, Registers.Prescaler, Registers.RoundTicks, Quotient, Countdown, Registers.SampleCount;
  }

  /** The pair is the result read exactly if the result now there has its high byte or nothing
      was announced. */
  lemma PairByHighByte(c: Clocked, n: Machine)
    requires Since(LowRead(c.m), n) && c.m.res < 0x1_0000 && n.res < 0x1_0000
    ensures HighByte(n) * 256 + c.m.res % 256 == c.m.res
            <==> |n.published| == |c.m.published| || n.res / 256 == c.m.res / 256
  {
  }

  lemma PairAfter(c: Clocked, slices: seq<Slice>, lo: nat, hi: nat)
    requires c.m.res < 0x1_0000 && slices != []
    requires forall i :: 0 <= i < |slices| ==> lo <= Quantise(c.m.regs, slices[i].env) <= hi
    ensures var due, n := Due(c, Total(slices)), TickAll(c.(m := LowRead(c.m)), slices).m;
            && CutBetween(n.res, Uncut(c.m, lo, due), Uncut(c.m, hi, due))
            && (Pair(c, slices) == c.m.res <==> due == 0 || n.res / 256 == c.m.res / 256)
  {
    hide TickAll, Quantise, Uncut, Due, Total, CutBetween, HighByte;
    var due := Due(c, Total(slices));
    ReadChangesNothing(c, lo, due, Total(slices));
    ReadChangesNothing(c, hi, due, Total(slices));
    SlicesSince(c.(m := LowRead(c.m)), slices);
    AfterSlices(c.(m := LowRead(c.m)), slices, lo, hi);
    var n := TickAll(c.(m := LowRead(c.m)), slices).m;
    CutFits(n.res, Uncut(c.m, lo, due), Uncut(c.m, hi, due));
    PairByHighByte(c, n);
  }

  lemma CutFits(result: nat, a: nat, b: nat)
    requires CutBetween(result, a, b)
    ensures result < 0x1_0000
  {
    hide Cut;
  }

  lemma MeanSpan(acc: nat, k: nat, n: nat, x: nat)
    requires 0 < k <= n
    ensures Quotient(acc, n) <= Quotient(acc + k * x, n) <= Quotient(acc, n) + x
  {
    MulMonotone(k, n, x);
    MulMonotone(0, k, x);
    assert acc + n * x == acc + x * n;
    assert Quotient(acc + x * n, n) == Quotient(acc, n) + x by {
      DivModUnique(acc, n, acc / n, acc % n);
      DivModCarry(acc, x * n, n, acc / n, acc % n, x, acc % n);
    }
    hide Quotient;
    QuotientMonotone(acc, acc + k * x, n);
    QuotientMonotone(acc + k * x, acc + x * n, n);
  }

  /** Between the results of code 0 and of code x there are at most x others. */
  lemma SpanAtMost(m: Machine, x: nat, due: nat)
    ensures due == 0 || Uncut(m, 0, due) <= Uncut(m, x, due) <= Uncut(m, 0, due) + x
  {
    MeanSpan(m.acc, SamplesAfter(m) + 1, m.regs.SampleCount(), x);
    hide Registers.SampleCount, SamplesAfter, Quotient;
    assert (SamplesAfter(m) + 1) * 0 == 0;
  }

  lemma Blocks(a: nat, r: nat, b: nat)
    requires a <= r <= b <= a + 1023
    ensures a / 256 <= r / 256 <= b / 256 <= a / 256 + 4
  {
  }

  lemma SameBlock(p: nat, q: nat)
    requires p <= q <= p + 4 && p % 256 == q % 256
    ensures p == q
  {
  }

  lemma HighByteOf(a: nat)
    ensures Cut(a) / 256 == a / 256 % 256
  {
  }

  /** Where the ends of so narrow a span have one high byte, all between have. */
  lemma SameHighByte(a: nat, r: nat, b: nat)
    requires a <= r <= b <= a + 1023 && Cut(a) / 256 == Cut(b) / 256
    ensures Cut(r) / 256 == Cut(a) / 256
  {
    hide Cut;
    HighByteOf(a);
    HighByteOf(r);
    HighByteOf(b);
    Blocks(a, r, b);
    SameBlock(a / 256, b / 256);
  }

  predicate Whole(c: Clocked, slices: seq<Slice>) { Pair(c, slices) == c.m.res }

  /** No result is due within the time, or the least and the greatest result it can be both
      have the high byte of the one read. */
  predicate Safe(c: Clocked, total: nat) {
    var due := Due(c, total);
    due == 0 || Held(c.m, 0, due) / 256 == c.m.res / 256 == Held(c.m, Top(c.m.regs), due) / 256
  }

  lemma SafeHighByte(m: Machine, result: nat, top: nat, due: nat)
    requires due > 0 && top <= 1023 && CutBetween(result, Uncut(m, 0, due), Uncut(m, top, due))
    requires Held(m, 0, due) / 256 == Held(m, top, due) / 256
    ensures result / 256 == Held(m, 0, due) / 256
  {
    hide Uncut, Cut;
    SpanAtMost(m, top, due);
    var r: nat :| Uncut(m, 0, due) <= r <= Uncut(m, top, due) && result == Cut(r);
    SameHighByte(Uncut(m, 0, due), r, Uncut(m, top, due));
  }

  lemma SafeIsWhole(c: Clocked, slices: seq<Slice>)
    requires c.m.res < 0x1_0000 && slices != [] && Safe(c, Total(slices))
    ensures Whole(c, slices)
  {
    hide TickAll, Quantise, Held, Uncut, Due, Total, Pair, CutBetween, Top;
    var due, top := Due(c, Total(slices)), Top(c.m.regs);
    forall i | 0 <= i < |slices| ensures 0 <= Quantise(c.m.regs, slices[i].env) <= top {
      CodeAtMostTop(c.m.regs, slices[i].env);
    }
    PairAfter(c, slices, 0, top);
    if due > 0 {
      SafeHighByte(c.m, TickAll(c.(m := LowRead(c.m)), slices).m.res, top, due);
    }
  }

  lemma OneSlice(env: Env, total: nat)
    ensures Total([Slice(env, total)]) == total
  {
    assert [Slice(env, total)][..0] == [] && Total([]) == 0;
  }

  /** With one code throughout, the pair is whole only if the result with it fits. */
  lemma OneCode(c: Clocked, env: Env, total: nat)
    requires c.m.res < 0x1_0000
    ensures var due := Due(c, total);
            Whole(c, [Slice(env, total)])
            <==> due == 0 || Held(c.m, Quantise(c.m.regs, env), due) / 256 == c.m.res / 256
  {
    hide TickAll, Quantise, Uncut, Due, Total, Pair, CutBetween, Cut;
    var due, code := Due(c, total), Quantise(c.m.regs, env);
    OneSlice(env, total);
    PairAfter(c, [Slice(env, total)], code, code);
    CutOnly(TickAll(c.(m := LowRead(c.m)), [Slice(env, total)]).m.res, Uncut(c.m, code, due));
  }

  /** With the registers held, no slicing of the time until the high read and no input tears
      the pair, if and only if it is safe by what is known at the low read. */
  lemma TwoByteExact(c: Clocked, total: nat)
    requires c.m.res < 0x1_0000
    ensures (forall slices :: slices != [] && Total(slices) == total ==> Whole(c, slices)) <==> Safe(c, total)
  {
    hide Quantise, Held, Due, Total, Whole, Top;
    DarkCode(c.m.regs);
    FullCode(c.m.regs);
    OneSlice(DARK, total);
    OneSlice(Full(), total);
    OneCode(c, DARK, total);
    OneCode(c, Full(), total);
    if Safe(c, total) {
      forall slices: seq<Slice> | slices != [] && Total(slices) == total ensures Whole(c, slices) {
        SafeIsWhole(c, slices);
      }
    }
  }

  /** Before the first sample of a result has ended, on a channel of the bank: the pair is safe
      if and only if nothing is due by the high read, or the converter is in 8-bit mode and
      the result read fits eight bits. */
  lemma FreshReadExact(c: Clocked, total: nat)
    requires Sound(c.m) && c.m.res < 0x1_0000
    requires c.m.sample == 0 && c.m.regs.muxpos as nat < CHANNELS
    ensures (forall slices :: slices != [] && Total(slices) == total ==> Whole(c, slices))
            <==> !Active(c.m) || total + c.fraction < c.m.regs.Prescaler() * Countdown(c.m)
                 || (c.m.regs.EightBit() && c.m.res < 256)
  {
    assert c.m.samples == [] && c.m.acc == 0;
    hide Registers.Prescaler, Registers.RoundTicks, Countdown, Uncut, Whole, Total, Sound, Quotient, Cut;
    var due := Due(c, total);
    TwoByteExact(c, total);
    DueExact(c, total);
    FreshHeld(c.m, 0, due);
    FreshHeld(c.m, Top(c.m.regs), due);
  }

  lemma DueExact(c: Clocked, total: nat)
    ensures Due(c, total) == 0
            <==> !Active(c.m) || total + c.fraction < c.m.regs.Prescaler() * Countdown(c.m)
  {
    hide Registers.Prescaler, Registers.RoundTicks, Countdown;
    if Active(c.m) {
      var p := c.m.regs.Prescaler();
      DivAtLeast(total + c.fraction, p, Countdown(c.m));
      assert Countdown(c.m) * p == p * Countdown(c.m);
    }
  }

  lemma FreshHeld(m: Machine, x: nat, due: nat)
    requires m.acc == 0 && m.sample == 0 && x <= 1023
    ensures due > 0 ==> Held(m, x, due) == x
  {
    AllAlike(m, x);
    UncutElse(m, x);
    CutSelf(x);
    hide Uncut, Cut;
  }

  /** A read during the last of many samples can be safe with a result due in 10-bit mode:
      whatever the sample is, it moves the mean by less than eight. */
  lemma LateReadIsSafe(c: Clocked, total: nat)
    requires Active(c.m) && !c.m.regs.FreeRun() && c.m.regs.SampleCount() == 128
    requires c.m.sample == 127 && c.m.acc == 600 * 127 && c.m.res == 600
    ensures Safe(c, total)
  {
    assert SamplesAfter(c.m) == 0;
    assert Quotient(600 * 127, 128) == 595 && Quotient(600 * 127 + 255, 128) == 597;
    assert Quotient(600 * 127 + 1023, 128) == 603;
    hide Registers.SampleCount, Countdown, Registers.RoundTicks, Registers.Prescaler, Registers.FreeRun, Quotient;
  }
}
