/** What the AVR8X converter announces: the mean of its samples, over every run of
    ticks, register writes, result reads and interrupt acknowledgements. */
module Adc8xAveraging {
  import opened Common
  import opened Adc8xEngine
  import opened Adc8xTiming
  import opened Adc8xSchedule

  datatype Op =
    | Clock(env: Env, elapsed: nat)
    | Store(reg: Register, value: bv8)
    | UserEvent
    | ReadLow
    | Acknowledge

  function Applied(c: Clocked, op: Op): Clocked {
    match op
    case Clock(env, elapsed) => Ticked(c, env, elapsed)
    case Store(reg, value) => c.(m := Written(c.m, reg, value))
    case UserEvent => if c.m.regs.Enabled() && c.m.regs.evctrl & 1 != 0 then c.(m := Started(c.m)) else c
    case ReadLow => c.(m := LowRead(c.m))
    case Acknowledge => c.(m := Consumed(c.m))
  }

  function Run(c: Clocked, ops: seq<Op>): Clocked {
    if ops == [] then c else Applied(Run(c, ops[..|ops| - 1]), ops[|ops| - 1])
  }

  predicate AllAtMost(xs: seq<nat>, top: nat) {
    forall i :: 0 <= i < |xs| ==> xs[i] <= top
  }

  /** The accumulator is the sum of the samples taken. */
  ghost predicate Tallied(m: Machine) {
    m.acc == Sum(m.samples) && m.sample == |m.samples| <= 128 && AllAtMost(m.samples, 1023)
  }

  ghost predicate Sound(m: Machine) {
    && Tallied(m)
    && (m.converting <==> m.phase != Idle)
    && (m.phase != Idle ==> m.sample < 128)
  }

  /** The conversion in progress, if any, has room for the sample under way. */
  predicate InStep(m: Machine) {
    m.phase != Idle ==> m.sample < m.regs.SampleCount()
  }

  /** What every announcement is: at least `divisor` samples, their sum divided by it and cut
      to sixteen bits. */
  ghost predicate Divided(p: Publication) {
    && 0 < p.divisor <= |p.samples| <= 128 && AllAtMost(p.samples, 1023)
    && p.result == Quotient(Sum(p.samples), p.divisor) % 0x1_0000
  }

  /** The announced value is the mean, rounded down, of samples of at most `top`. */
  ghost predicate IsMean(p: Publication, top: nat) {
    && |p.samples| == p.divisor > 0
    && p.result == Quotient(Sum(p.samples), |p.samples|) <= top
    && AllAtMost(p.samples, top)
  }

  /** A division by the number of samples is a mean, and loses nothing to the cut. */
  lemma DividedMean(p: Publication, top: nat)
    requires Divided(p) && p.divisor == |p.samples| && AllAtMost(p.samples, top) && top <= 1023
    ensures IsMean(p, top)
  {
    SumBounds(p.samples, 0, top);
    QuotientBounds(Sum(p.samples), p.divisor, 0, top);
  }

  lemma SoundFits(m: Machine)
    requires Sound(m)
    ensures m.acc < 0x1_0000_0000
  {
    SumBounds(m.samples, 0, 1023);
  }

  /** Wherever the samples lie, the mean lies too. */
  lemma MeanBetween(p: Publication, n: nat, lo: nat, hi: nat)
    requires |p.samples| == n > 0 && p.result == Quotient(Sum(p.samples), n)
    requires forall i :: 0 <= i < n ==> lo <= p.samples[i] <= hi
    ensures lo <= p.result <= hi
  {
    SumBounds(p.samples, lo, hi);
    QuotientBounds(Sum(p.samples), n, lo, hi);
  }

  lemma Tally(m: Machine, code: nat)
    requires Sound(m) && m.phase != Idle && code <= 1023
    ensures Tallied(m.(acc := m.acc + code, samples := m.samples + [code], sample := m.sample + 1))
  {
    SumSnoc(m.samples, code);
  }

  lemma PublishedKeeps(m: Machine)
    ensures var n := Published(m);
            n.acc == m.acc && n.samples == m.samples && n.sample == m.sample && n.phase == m.phase
            && n.converting == m.converting
  {
    hide InWindow, Quotient, Registers.SampleCount;
  }

  lemma SampleEndedSound(m: Machine, code: nat)
    requires Sound(m) && m.phase == Convert && code <= 1023
    ensures Sound(SampleEnded(m, code))
  {
    assert Sum([]) == 0;
    hide Registers.FreeRun, Registers.SampleCycles, Registers.SampleCount, Published, Sum;
    Tally(m, code);
    PublishedKeeps(m.(acc := m.acc + code, samples := m.samples + [code], sample := m.sample + 1));
  }

  lemma AdcTickSound(m: Machine, code: nat)
    requires Sound(m) && code <= 1023
    ensures Sound(AdcTick(m, code))
  {
    hide SampleEnded, Registers.SampleCycles;
    if m.phase == Convert {
      SampleEndedSound(m.(count := 0), code);
    }
  }

  lemma {:induction false} AdcTicksSound(m: Machine, codes: seq<nat>)
    requires Sound(m) && AllAtMost(codes, 1023)
    ensures Sound(AdcTicks(m, codes))
  {
    hide AdcTick;
    if codes != [] {
      var n := |codes| - 1;
      AdcTicksSound(m, codes[..n]);
      AdcTickSound(AdcTicks(m, codes[..n]), codes[n]);
    }
  }

  /** No operation, CTRLB writes included, ever lets the accumulator go astray. */
  lemma AppliedSound(c: Clocked, op: Op)
    requires Sound(c.m)
    ensures Sound(Applied(c, op).m)
  {
    hide AdcTick, Quantise, Registers.Prescaler, Stored;
    if op.Clock? && Active(c.m) {
      var n := Quotient(op.elapsed + c.fraction, c.m.regs.Prescaler());
      AdcTicksSound(c.m, Repeat(Quantise(c.m.regs, op.env), n));
    }
  }

  lemma {:induction false} RunSound(c: Clocked, ops: seq<Op>)
    requires Sound(c.m)
    ensures Sound(Run(c, ops).m) && Run(c, ops).m.acc < 0x1_0000_0000
  {
    hide Applied, Sound;
    if ops != [] {
      RunSound(c, ops[..|ops| - 1]);
      AppliedSound(Run(c, ops[..|ops| - 1]), ops[|ops| - 1]);
    }
    SoundFits(Run(c, ops).m);
  }

  // ---- every announcement of a run ---------------------------------------------------

  /** n extends m by announcements made with m's divisor. Only the first can have more
      samples than that, and it has exactly if m is out of step. */
  ghost predicate Announces(m: Machine, n: Machine) {
    && |m.published| <= |n.published| && n.published[..|m.published|] == m.published
    && forall j {:trigger n.published[j]} :: |m.published| <= j < |n.published| ==>
         && Divided(n.published[j]) && n.published[j].divisor == m.regs.SampleCount()
         && (|n.published[j].samples| == m.regs.SampleCount() <==> j > |m.published| || InStep(m))
  }

  /** From m to n, with the registers held: in step stays in step, and out of step ends with
      the conversion. */
  ghost predicate Steps(m: Machine, n: Machine) {
    InStep(n) <==> InStep(m) || n.phase == Idle || |n.published| > |m.published|
  }

  lemma SampleEndedAnnounces(m: Machine, code: nat)
    requires Sound(m) && m.phase == Convert && code <= 1023
    ensures Announces(m, SampleEnded(m, code)) && Steps(m, SampleEnded(m, code))
  {
    hide Registers.FreeRun, Registers.SampleCycles, InWindow, Registers.SampleCount, Sum;
    var taken := m.(acc := m.acc + code, samples := m.samples + [code], sample := m.sample + 1);
    Tally(m, code);
    if taken.sample >= m.regs.SampleCount() {
      assert Published(taken).published[..|m.published|] == m.published;
    }
  }

  lemma AdcTickAnnounces(m: Machine, code: nat)
    requires Sound(m) && code <= 1023
    ensures Announces(m, AdcTick(m, code)) && Steps(m, AdcTick(m, code))
    ensures Sound(AdcTick(m, code)) && AdcTick(m, code).regs == m.regs
  {
    hide SampleEnded, Registers.SampleCycles, Registers.SampleCount, Divided;
    AdcTickSound(m, code);
    AdcTickKeeps(m, code);
    if m.phase == Convert {
      SampleEndedAnnounces(m.(count := 0), code);
    }
  }

  lemma AnnouncesThenTick(m: Machine, b: Machine, n: Machine)
    requires Announces(m, b) && Steps(m, b) && Announces(b, n) && Steps(b, n)
    requires m.regs == b.regs && (b.phase == Idle ==> n.phase == Idle && n.published == b.published)
    ensures Announces(m, n) && Steps(m, n)
  {
    hide Divided, Registers.SampleCount;
    assert n.published[..|m.published|] == n.published[..|b.published|][..|m.published|];
    forall j | |m.published| <= j < |b.published| ensures n.published[j] == b.published[j] {
      assert n.published[..|b.published|][j] == n.published[j];
    }
  }

  lemma IdleTick(m: Machine, code: nat)
    requires m.phase == Idle
    ensures AdcTick(m, code).phase == Idle && AdcTick(m, code).published == m.published
  {
  }

  lemma {:induction false} AdcTicksAnnounce(m: Machine, codes: seq<nat>)
    requires Sound(m) && AllAtMost(codes, 1023)
    ensures Announces(m, AdcTicks(m, codes)) && Steps(m, AdcTicks(m, codes))
    ensures Sound(AdcTicks(m, codes)) && AdcTicks(m, codes).regs == m.regs
  {
    if codes != [] {
      var n := |codes| - 1;
      var before := AdcTicks(m, codes[..n]);
      AdcTicksAnnounce(m, codes[..n]);
      AdcTickAnnounces(before, codes[n]);
      if before.phase == Idle {
        IdleTick(before, codes[n]);
      }
      hide AdcTick, Announces, Steps, Sound;
      AnnouncesThenTick(m, before, AdcTick(before, codes[n]));
    }
    hide AdcTick, Divided;
  }

  /** A write of CTRLB that leaves room for the sample under way. */
  predicate RoomLeft(m: Machine, value: bv8) {
    m.phase == Idle || m.sample < Samples(value)
  }

  predicate SetsCount(op: Op) { op.Store? && op.reg == CtrlB }

  /** What one operation announces, and exactly when it leaves the machine in step. */
  lemma OpAnnounces(c: Clocked, op: Op)
    requires Sound(c.m)
    ensures Announces(c.m, Applied(c, op).m) && Sound(Applied(c, op).m)
    ensures if SetsCount(op) then InStep(Applied(c, op).m) <==> RoomLeft(c.m, op.value)
            else Steps(c.m, Applied(c, op).m)
  {
    AppliedSound(c, op);
    if op.Clock? && Active(c.m) {
      var codes := Repeat(Quantise(c.m.regs, op.env), Quotient(op.elapsed + c.fraction, c.m.regs.Prescaler()));
      AdcTicksAnnounce(c.m, codes);
      hide AdcTicks, Quantise, Registers.Prescaler, Announces, Steps, Sound;
    } else {
      OtherOps(c, op);
      hide Applied, Sound, Divided, Samples;
    }
  }

  /** n has announced nothing since m and taken no sample. */
  predicate Undone(m: Machine, n: Machine) {
    && n.published == m.published && (n.samples == m.samples || n.samples == [])
    && ((n.phase == m.phase && n.sample == m.sample) || n.phase == Idle || (m.phase == Idle && n.sample == 0))
  }

  lemma StartedUndone(m: Machine)
    requires Sound(m)
    ensures Undone(m, Started(m)) && Started(m).regs == m.regs
  {
    hide Tallied;
  }

  lemma StoreUndone(m: Machine, reg: Register, value: bv8)
    requires Sound(m)
    ensures var n := Written(m, reg, value);
            && Undone(m, n) && n.regs.ctrlb == (if reg == CtrlB then value else m.regs.ctrlb)
            && (reg == CtrlB ==> n.phase == m.phase && n.sample == m.sample)
  {
    StartedUndone(m);
    hide Started, Stored, Sound;
  }

  lemma ClockUndone(c: Clocked, env: Env, elapsed: nat)
    requires !Active(c.m)
    ensures Undone(c.m, Ticked(c, env, elapsed).m) && Ticked(c, env, elapsed).m.regs == c.m.regs
  {
    hide Registers.Prescaler, AdcTicks, Quantise;
  }

  /** Anything but an active tick announces nothing and takes no sample. */
  lemma OtherOps(c: Clocked, op: Op)
    requires Sound(c.m) && !(op.Clock? && Active(c.m))
    ensures var n := Applied(c, op).m;
            && Undone(c.m, n) && n.regs.ctrlb == (if SetsCount(op) then op.value else c.m.regs.ctrlb)
            && (SetsCount(op) ==> n.phase == c.m.phase && n.sample == c.m.sample)
  {
    hide Ticked, Written, Started, LowRead, Consumed, Undone, Sound;
    match op
    case Clock(env, elapsed) => ClockUndone(c, env, elapsed);
    case Store(reg, value) => StoreUndone(c.m, reg, value);
    case UserEvent =>
      StartedUndone(c.m);
      UnchangedUndone(c.m);
    case ReadLow => UnchangedUndone(c.m);
    case Acknowledge => UnchangedUndone(c.m);
  }

  lemma UnchangedUndone(m: Machine)
    ensures Undone(m, m)
    ensures Undone(m, LowRead(m)) && LowRead(m).regs == m.regs
    ensures Undone(m, Consumed(m)) && Consumed(m).regs == m.regs
  {
    hide Pending;
  }

  /** The write of CTRLB in force: the last one during the conversion in progress left room
      for the sample then under way. Without one, the conversion began in step. */
  predicate InForce(c: Clocked, ops: seq<Op>) {
    if ops == [] then true
    else
      var before, op := Run(c, ops[..|ops| - 1]), ops[|ops| - 1];
      var after := Applied(before, op);
      if SetsCount(op) then RoomLeft(before.m, op.value)
      else InForce(c, ops[..|ops| - 1]) || after.m.phase == Idle || |after.m.published| > |before.m.published|
  }

  lemma {:induction false} InForceIsInStep(c: Clocked, ops: seq<Op>)
    requires Sound(c.m) && InStep(c.m)
    ensures Sound(Run(c, ops).m) && (InStep(Run(c, ops).m) <==> InForce(c, ops))
  {
    hide Applied, Sound, InStep, Announces, RoomLeft;
    if ops != [] {
      var n := |ops| - 1;
      InForceIsInStep(c, ops[..n]);
      OpAnnounces(Run(c, ops[..n]), ops[n]);
    }
  }

  lemma {:induction false} PublishedGrow(c: Clocked, ops: seq<Op>, k: nat)
    requires Sound(c.m) && k <= |ops|
    ensures var early, late := Run(c, ops[..k]).m.published, Run(c, ops).m.published;
            |early| <= |late| && late[..|early|] == early
    decreases |ops|
  {
    hide Applied, Sound, Divided;
    if k == |ops| {
      assert ops[..k] == ops;
    } else {
      var n := |ops| - 1;
      PublishedGrow(c, ops[..n], k);
      assert ops[..n][..k] == ops[..k];
      RunSound(c, ops[..n]);
      OpAnnounces(Run(c, ops[..n]), ops[n]);
      var early, middle, late := Run(c, ops[..k]).m.published, Run(c, ops[..n]).m.published, Run(c, ops).m.published;
      assert late[..|early|] == late[..|middle|][..|early|];
    }
  }

  /** In every run of any operations: an announcement is its samples' sum divided by the
      setting of CTRLB at that time, and that is the number of its samples if and only if the
      write of CTRLB in force left room when it was made. Only the first announcement of a
      tick can fail. */
  lemma AnnouncementExact(c: Clocked, ops: seq<Op>, i: nat, j: nat)
    requires Sound(c.m) && InStep(c.m) && i < |ops|
    requires |Run(c, ops[..i]).m.published| <= j < |Run(c, ops[..i + 1]).m.published|
    ensures j < |Run(c, ops).m.published|
    ensures var before, p := Run(c, ops[..i]).m, Run(c, ops).m.published[j];
            && Divided(p) && p.divisor == before.regs.SampleCount()
            && (|p.samples| == p.divisor <==> j > |before.published| || InForce(c, ops[..i]))
  {
    var before, after := Run(c, ops[..i]), Run(c, ops[..i + 1]);
    assert ops[..i + 1][..i] == ops[..i];
    InForceIsInStep(c, ops[..i]);
    OpAnnounces(before, ops[i]);
    PublishedGrow(c, ops, i + 1);
    hide Run, Applied, Divided, InForce, Sound, InStep, Registers.SampleCount;
    assert Run(c, ops).m.published[j] == after.m.published[j] by {
      assert Run(c, ops).m.published[..|after.m.published|][j] == Run(c, ops).m.published[j];
    }
  }

  /** Divided by less than the number of its samples, a result is above their mean, unless that
      mean is below the divisor or the result does not fit its register. */
  lemma WrongDivisorShows(p: Publication)
    requires Divided(p) && p.divisor < |p.samples| && Quotient(Sum(p.samples), p.divisor) < 0x1_0000
    requires Quotient(Sum(p.samples), |p.samples|) >= p.divisor
    ensures p.result > Quotient(Sum(p.samples), |p.samples|)
  {
    hide Quotient;
    LargerQuotient(Sum(p.samples), |p.samples|, p.divisor);
    assert Quotient(Sum(p.samples), p.divisor) % 0x1_0000 == Quotient(Sum(p.samples), p.divisor);
  }

  /** A setting too low for the conversion in progress does no harm if it is raised in time. */
  lemma LoweredAndRaised(m: Machine, low: bv8, high: bv8)
    requires m.phase != Idle && Samples(low) <= m.sample < Samples(high)
    ensures !InStep(Written(m, CtrlB, low)) && InStep(Written(Written(m, CtrlB, low), CtrlB, high))
  {
    hide Samples;
  }

  // ---- means ------------------------------------------------------------------------

  /** The samples so far are at most `top`. */
  ghost predicate Ready(m: Machine, top: nat) {
    Sound(m) && InStep(m) && AllAtMost(m.samples, top)
  }

  ghost predicate MeansSince(m: Machine, n: Machine, top: nat) {
    && |m.published| <= |n.published| && n.published[..|m.published|] == m.published
    && forall i :: |m.published| <= i < |n.published| ==> IsMean(n.published[i], top)
  }

  lemma MeansCompose(a: Machine, b: Machine, c: Machine, top: nat)
    requires MeansSince(a, b, top) && MeansSince(b, c, top)
    ensures MeansSince(a, c, top)
  {
    hide IsMean;
    assert c.published[..|a.published|] == c.published[..|b.published|][..|a.published|];
    forall i | |a.published| <= i < |c.published| ensures IsMean(c.published[i], top) {
      if i < |b.published| {
        assert c.published[..|b.published|][i] == c.published[i];
      }
    }
  }

  lemma SampleEndedMean(m: Machine, code: nat, top: nat)
    requires Ready(m, top) && m.phase == Convert && code <= top <= 1023
    ensures Ready(SampleEnded(m, code), top) && MeansSince(m, SampleEnded(m, code), top)
  {
    SampleEndedSound(m, code);
    SampleEndedAnnounces(m, code);
    var n := SampleEnded(m, code);
    assert |n.published| > |m.published| ==>
      |n.published| == |m.published| + 1 && n.published[|m.published|].samples == m.samples + [code] by {
      hide Registers.FreeRun, Registers.SampleCycles, InWindow, Quotient, Registers.SampleCount, Sum;
    }
    if |n.published| > |m.published| {
      hide Divided, Sound, SampleEnded;
      DividedMean(n.published[|m.published|], top);
    }
    hide Registers.FreeRun, Registers.SampleCycles, InWindow, Quotient, Registers.SampleCount, IsMean, Sum, Sound, Divided;
  }

  lemma AdcTickMean(m: Machine, code: nat, top: nat)
    requires Ready(m, top) && code <= top <= 1023
    ensures Ready(AdcTick(m, code), top) && MeansSince(m, AdcTick(m, code), top)
  {
    hide SampleEnded, Registers.SampleCycles, Registers.SampleCount, IsMean;
    AdcTickKeeps(m, code);
    if m.phase == Convert {
      SampleEndedMean(m.(count := 0), code, top);
    }
  }

  lemma {:induction false} AdcTicksMean(m: Machine, codes: seq<nat>, top: nat)
    requires Ready(m, top) && AllAtMost(codes, top) && top <= 1023
    ensures Ready(AdcTicks(m, codes), top) && MeansSince(m, AdcTicks(m, codes), top)
  {
    if codes == [] {
      MeansSame(m, m, top);
      hide Ready, MeansSince;
    } else {
      hide AdcTick, Ready, MeansSince;
      var n := |codes| - 1;
      var before := AdcTicks(m, codes[..n]);
      AdcTicksMean(m, codes[..n], top);
      AdcTickMean(before, codes[n], top);
      MeansCompose(m, before, AdcTick(before, codes[n]), top);
    }
  }

  lemma MeansSame(m: Machine, n: Machine, top: nat)
    requires n.published == m.published
    ensures MeansSince(m, n, top)
  {
  }

  /** Each write of CTRLB leaves room, and for the lower bound the converter clocks only in
      8-bit mode; all else is free. */
  predicate Admits(c: Clocked, op: Op, top: nat) {
    && (SetsCount(op) ==> RoomLeft(c.m, op.value))
    && (top == 1023 || (top == 255 && (op.Clock? && Active(c.m) ==> c.m.regs.EightBit())))
  }

  lemma AppliedMean(c: Clocked, op: Op, top: nat)
    requires Ready(c.m, top) && Admits(c, op, top)
    ensures Ready(Applied(c, op).m, top) && MeansSince(c.m, Applied(c, op).m, top)
  {
    if op.Clock? && Active(c.m) {
      hide AdcTick, AdcTicks, Quantise, Registers.Prescaler, MeansSince, Ready;
      AdcTicksMean(c.m, Repeat(Quantise(c.m.regs, op.env), Quotient(op.elapsed + c.fraction, c.m.regs.Prescaler())), top);
    } else {
      OtherMean(c, op, top);
      hide Applied, Ready, MeansSince;
    }
  }

  lemma OtherMean(c: Clocked, op: Op, top: nat)
    requires Ready(c.m, top) && Admits(c, op, top) && !(op.Clock? && Active(c.m))
    ensures Ready(Applied(c, op).m, top) && MeansSince(c.m, Applied(c, op).m, top)
  {
    OpAnnounces(c, op);
    OtherOps(c, op);
    hide Applied, Sound, IsMean, InStep, Announces;
    MeansSame(c.m, Applied(c, op).m, top);
  }

  predicate AllAdmitted(c: Clocked, ops: seq<Op>, top: nat) {
    forall i :: 0 <= i < |ops| ==> Admits(Run(c, ops[..i]), ops[i], top)
  }

  /** In every run whose writes of CTRLB leave room, each announced result is the mean of its
      samples, rounded down; at most 1023, or 255 if it clocks in 8-bit mode only. */
  lemma {:induction false} EveryResultIsMean(c: Clocked, ops: seq<Op>, top: nat)
    requires Ready(c.m, top) && AllAdmitted(c, ops, top)
    ensures Ready(Run(c, ops).m, top) && MeansSince(c.m, Run(c, ops).m, top)
  {
    hide Applied, Ready, MeansSince, Admits;
    if ops == [] {
      MeansSame(c.m, c.m, top);
    } else {
      var n := |ops| - 1;
      var before := Run(c, ops[..n]);
      assert AllAdmitted(c, ops[..n], top) by {
        forall i | 0 <= i < n ensures ops[..n][..i] == ops[..i] {}
      }
      EveryResultIsMean(c, ops[..n], top);
      AppliedMean(before, ops[n], top);
      MeansCompose(c.m, before.m, Applied(before, ops[n]).m, top);
    }
  }

  const RESET := Clocked(PowerOn(), 0)

  /** From power-on. */
  lemma EveryResultFromPowerOn(ops: seq<Op>, top: nat, j: nat)
    requires AllAdmitted(RESET, ops, top) && j < |Run(RESET, ops).m.published|
    ensures IsMean(Run(RESET, ops).m.published[j], top)
  {
    assert Ready(PowerOn(), top);
    EveryResultIsMean(RESET, ops, top);
    hide Run, IsMean, AllAdmitted;
  }

  // ---- acknowledging interrupts -----------------------------------------------------

  function FlagOf(source: Source): bv8 {
    if source == ResultReady then 1 else 2
  }

  /** An acknowledgement clears exactly the flag it reports if and only if RESRDY is
      enabled whenever it is set. */
  lemma AcknowledgeExact(m: Machine)
    requires Pending(m).Some?
    ensures Consumed(m).intflags == m.intflags & !FlagOf(Pending(m).value)
            <==> (m.intflags & 1 != 0 ==> m.regs.intctrl & 1 != 0)
  {
  }

  /** Otherwise the window interrupt is reported a second time; two acknowledgements
      always leave nothing pending. */
  lemma AcknowledgeDrains(m: Machine)
    ensures Pending(m).Some? && m.intflags & 1 != 0 && m.regs.intctrl & 1 == 0
            ==> Pending(m) == Pending(Consumed(m)) == Some(WindowHit)
    ensures Pending(Consumed(Consumed(m))).None?
  {
  }
}
