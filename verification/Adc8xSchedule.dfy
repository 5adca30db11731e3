/** The exact clock cycle at which the AVR8X converter announces each result, for
    every way of slicing time into ticks. */
module Adc8xSchedule {
  import opened Common
  import opened Adc8xEngine
  import opened Adc8xTiming

  /** Samples still to come after the one in progress. */
  function SamplesAfter(m: Machine): (n: nat) {
    if m.sample + 1 < m.regs.SampleCount() then m.regs.SampleCount() - 1 - m.sample else 0
  }

  /** Converter clocks until the conversion in progress announces its result. */
  function Countdown(m: Machine): (k: int)
    requires m.phase != Idle
    ensures k >= 1
  {
    var left := if m.count > 0 then m.count else 1;
    var later := SamplesAfter(m) * m.regs.SampleTicks();
    MulMonotone(0, SamplesAfter(m), m.regs.SampleTicks());
    match m.phase
    case Startup => left + m.regs.SampleTicks() + later
    case Sample => left + 13 + later
    case Convert => left + later
  }

  lemma RoundSplits(r: Registers, sample: int)
    ensures (r.SampleCount() - 1 - sample) * r.SampleTicks()
            == r.SampleTicks() + (r.SampleCount() - 1 - (sample + 1)) * r.SampleTicks()
    ensures r.RoundTicks() == r.SampleTicks() + (r.SampleCount() - 1) * r.SampleTicks()
  {
    hide Registers.SampleCount, Registers.SampleTicks;
    Distribute(r.SampleCount() - 2 - sample, 1, r.SampleTicks());
    Distribute(r.SampleCount() - 1, 1, r.SampleTicks());
  }

  lemma SampleEndedCounts(m: Machine, code: nat)
    requires m.phase == Convert && m.count == 0
    ensures var n := SampleEnded(m, code);
            if m.sample + 1 < m.regs.SampleCount() then
              n.phase == Sample && n.sample == m.sample + 1 && n.count == m.regs.SampleCycles()
              && n.regs == m.regs && n.published == m.published && n.intflags == m.intflags
            else
              n.regs == m.regs && |n.published| == |m.published| + 1 && n.intflags & 1 != 0
              && (if m.regs.FreeRun() then n.phase == Sample && n.sample == 0 && n.count == m.regs.SampleCycles()
                  else n.phase == Idle)
  {
    hide Registers.SampleCount, Registers.FreeRun, Registers.SampleCycles, InWindow, Quotient;
  }

  /** One converter clock brings the result one clock nearer, or announces it. */
  lemma CountdownStep(m: Machine, code: nat)
    requires m.phase != Idle
    ensures var n := AdcTick(m, code);
            n.regs == m.regs
            && (if Countdown(m) > 1 then
                  n.phase != Idle && Countdown(n) == Countdown(m) - 1
                  && n.published == m.published && n.intflags == m.intflags
                else
                  |n.published| == |m.published| + 1 && n.intflags & 1 != 0
                  && (if m.regs.FreeRun() then n.phase != Idle && Countdown(n) == m.regs.RoundTicks()
                      else n.phase == Idle))
  {
    hide Registers.SampleCount, Registers.FreeRun, Registers.RoundTicks, SampleEnded;
    RoundSplits(m.regs, m.sample);
    RoundSplits(m.regs, 0);
    MulMonotone(0, m.regs.SampleCount() - 2 - m.sample, m.regs.SampleTicks());
    if m.count <= 1 && m.phase == Convert {
      SampleEndedCounts(m.(count := 0), code);
    }
  }

  lemma {:induction false} ResultsWithin(m: Machine, codes: seq<nat>)
    requires m.phase != Idle
    ensures var n, due := AdcTicks(m, codes), ResultsDue(m.regs.FreeRun(), Countdown(m), m.regs.RoundTicks(), |codes|);
            |n.published| == |m.published| + due
            && (if due == 0 then n.intflags == m.intflags else n.intflags & 1 != 0)
    decreases |codes|
  {
    hide AdcTick, Registers.FreeRun, Registers.RoundTicks, Countdown, Quotient;
    if codes != [] {
      var n := AdcTick(m, codes[0]);
      FirstTick(m, codes);
      CountdownStep(m, codes[0]);
      DueAdvance(m.regs.FreeRun(), Countdown(m), m.regs.RoundTicks(), 1, |codes| - 1);
      if n.phase != Idle {
        ResultsWithin(n, codes[1..]);
      } else {
        AdcTickKeeps(m, codes[0]);
        AdcTicksKeep(n, codes[1..]);
      }
    }
  }

  /** A conversion ends in idle exactly if it is not free running and its countdown has
      run out. */
  lemma {:induction false} IdleExact(m: Machine, codes: seq<nat>)
    requires m.phase != Idle
    ensures AdcTicks(m, codes).phase == Idle <==> !m.regs.FreeRun() && |codes| >= Countdown(m)
    decreases |codes|
  {
    hide AdcTick, Registers.FreeRun, Registers.RoundTicks, Countdown;
    if codes != [] {
      var n := AdcTick(m, codes[0]);
      FirstTick(m, codes);
      CountdownStep(m, codes[0]);
      if n.phase != Idle {
        IdleExact(n, codes[1..]);
      } else {
        AdcTickKeeps(m, codes[0]);
        AdcTicksKeep(n, codes[1..]);
      }
    }
  }

  /** Exactly when splitting a tick leaves no trace at all, from what is known before it:
      always, unless the first part runs a single conversion out and the second is no whole
      number of periods. */
  lemma BatchingExact(c: Clocked, env: Env, a: nat, b: nat)
    ensures Ticked(Ticked(c, env, a), env, b) == Ticked(c, env, a + b)
            <==> !Active(c.m) || c.m.regs.FreeRun() || a + c.fraction < c.m.regs.Prescaler() * Countdown(c.m)
                 || Remainder(b, c.m.regs.Prescaler()) == 0
  {
    hide AdcTick, Quantise, Registers.Prescaler, Registers.FreeRun, Remainder, Countdown;
    SplitByState(c, env, a, b);
    if Active(c.m) {
      var p, code := c.m.regs.Prescaler(), Quantise(c.m.regs, env);
      var codes := Repeat(code, Quotient(a + c.fraction, p));
      AdcTicksKeep(c.m, codes);
      IdleExact(c.m, codes);
      DivAtLeast(a + c.fraction, p, Countdown(c.m));
      assert Countdown(c.m) * p == p * Countdown(c.m);
    }
  }

  // ---- slices of time ---------------------------------------------------------------

  /** One tick of the peripheral with the inputs of its moment. */
  datatype Slice = Slice(env: Env, elapsed: nat)

  function Total(slices: seq<Slice>): nat {
    if slices == [] then 0 else Total(slices[..|slices| - 1]) + slices[|slices| - 1].elapsed
  }

  function TickAll(c: Clocked, slices: seq<Slice>): Clocked {
    if slices == [] then c
    else
      var last := slices[|slices| - 1];
      Ticked(TickAll(c, slices[..|slices| - 1]), last.env, last.elapsed)
  }

  function FractionAfter(c: Clocked, slices: seq<Slice>): nat {
    if slices == [] then c.fraction else Remainder(Total(slices) + c.fraction, c.m.regs.Prescaler())
  }

  /** What each converter clock of the slices would read. */
  function Codes(c: Clocked, slices: seq<Slice>): seq<nat> {
    if slices == [] then []
    else
      var front, last := slices[..|slices| - 1], slices[|slices| - 1];
      Codes(c, front) + Repeat(Quantise(c.m.regs, last.env),
                               Quotient(last.elapsed + FractionAfter(c, front), c.m.regs.Prescaler()))
  }

  lemma {:induction false} SlicesAreOneRun(c: Clocked, slices: seq<Slice>)
    requires Active(c.m)
    ensures TickAll(c, slices).m == AdcTicks(c.m, Codes(c, slices))
    ensures TickAll(c, slices).m.phase != Idle ==> TickAll(c, slices).fraction == FractionAfter(c, slices)
    ensures slices != [] ==> |Codes(c, slices)| == Quotient(Total(slices) + c.fraction, c.m.regs.Prescaler())
  {
    hide AdcTick, AdcTicks, Registers.Prescaler, Quantise;
    NoTicks(c.m);
    if slices != [] {
      var n := |slices| - 1;
      var front, last := slices[..n], slices[n];
      SlicesAreOneRun(c, front);
      DivModSplit(Total(front) + c.fraction, last.elapsed, c.m.regs.Prescaler());
      AdcTicksKeep(c.m, Codes(c, front));
      var more := Repeat(Quantise(c.m.regs, last.env),
                         Quotient(last.elapsed + FractionAfter(c, front), c.m.regs.Prescaler()));
      AdcTicksCompose(c.m, Codes(c, front), more);
      AdcTicksKeep(AdcTicks(c.m, Codes(c, front)), more);
    }
  }

  /** Results announced within T cycles when the first is due after `first` cycles. */
  lemma DueInCycles(freeRun: bool, k: nat, round: nat, p: nat, total: nat)
    requires p > 0 && round > 0
    ensures p * round > 0
    ensures ResultsDue(freeRun, k, round, Quotient(total, p)) == ResultsDue(freeRun, p * k, p * round, total)
  {
    MulMonotone(1, round, p);
    assert p * round == round * p && p * k == k * p;
    DivAtLeast(total, p, k);
    if total >= k * p {
      DivModSplit(k * p, total - k * p, p);
      DivModUnique(k * p, p, k, 0);
      NestedQuotient(total - k * p, p, round);
    }
  }

  lemma NestedQuotient(n: nat, p: nat, round: nat)
    requires p > 0 && round > 0 && p * round > 0
    ensures Quotient(Quotient(n, p), round) == Quotient(n, p * round)
  {
    var q, f := n / p, n % p;
    var r, g := q / round, q % round;
    assert n == (r * round + g) * p + f;
    assert (r * round + g) * p == r * (p * round) + g * p by {
      Distribute(r * round, g, p);
      assert (r * round) * p == r * (p * round);
    }
    MulMonotone(g + 1, round, p);
    Distribute(g, 1, p);
    assert round * p == p * round;
    DivModUnique(n, p * round, r, g * p + f);
  }

  /** The number of results announced over any slices of total length T is that of the
      closed form: the first p * Countdown - f cycles from now, then one a round. */
  lemma ExactSchedule(c: Clocked, slices: seq<Slice>)
    requires Active(c.m) && slices != []
    ensures var p := c.m.regs.Prescaler();
            p * c.m.regs.RoundTicks() > 0
            && var due := ResultsDue(c.m.regs.FreeRun(), p * Countdown(c.m) - c.fraction, p * c.m.regs.RoundTicks(), Total(slices));
               var n := TickAll(c, slices).m;
               |n.published| == |c.m.published| + due
               && (if due == 0 then n.intflags == c.m.intflags else n.intflags & 1 != 0)
  {
    hide AdcTick, AdcTicks, TickAll, Registers.Prescaler, Registers.FreeRun, Registers.RoundTicks, Countdown, Codes,
      Quotient;
    SlicesAreOneRun(c, slices);
    ResultsWithin(c.m, Codes(c, slices));
    DueInCycles(c.m.regs.FreeRun(), Countdown(c.m), c.m.regs.RoundTicks(), c.m.regs.Prescaler(), Total(slices) + c.fraction);
  }

  /** From a start on: with prescaler p, N samples of 15 + L clocks and f cycles left
      over, the first result is announced p * (2 + N * (15 + L)) - f cycles later. */
  lemma StartSchedule(c: Clocked, slices: seq<Slice>)
    requires c.m.regs.Enabled() && !c.m.converting && slices != []
    ensures var r := c.m.regs;
            var p, round := r.Prescaler(), r.SampleCount() * (15 + (r.sampctrl & 0x1F) as nat);
            p * round > 0
            && |TickAll(c.(m := Started(c.m)), slices).m.published|
               == |c.m.published| + ResultsDue(r.FreeRun(), p * (2 + round) - c.fraction, p * round, Total(slices))
  {
    hide TickAll, Total, ResultsDue, Registers.Prescaler, Registers.FreeRun;
    var started := c.(m := Started(c.m));
    ExactSchedule(started, slices);
    RoundSplits(c.m.regs, 0);
    assert Countdown(started.m) == 2 + c.m.regs.RoundTicks();
  }
}
