/** What the AVR8X converter does over time: bulk ticks against single clock cycles,
    and the exact clock cycle of every result. */
module Adc8xTiming {
  import opened Common
  import opened Adc8xEngine

  predicate Active(m: Machine) {
    m.regs.Enabled() && m.phase != Idle
  }

  /** Equal, except that an idle converter may hold another leftover fraction. */
  predicate Agree(a: Clocked, b: Clocked) {
    a.m == b.m && (a.m.phase != Idle ==> a.fraction == b.fraction)
  }

  // ---- converter clocks compose ---------------------------------------------------

  lemma NoTicks(m: Machine)
    ensures AdcTicks(m, []) == m
  {
  }

  lemma {:induction false} AdcTicksCompose(m: Machine, first: seq<nat>, second: seq<nat>)
    ensures AdcTicks(m, first + second) == AdcTicks(AdcTicks(m, first), second)
  {
    hide AdcTick;
    if second == [] {
      assert first + second == first;
    } else {
      var n := |second| - 1;
      AdcTicksCompose(m, first, second[..n]);
      assert (first + second)[..|first + second| - 1] == first + second[..n];
    }
  }

  /** The first of the converter clocks, and the rest. */
  lemma FirstTick(m: Machine, codes: seq<nat>)
    requires codes != []
    ensures AdcTicks(m, codes) == AdcTicks(AdcTick(m, codes[0]), codes[1..])
  {
    hide AdcTick;
    assert codes == [codes[0]] + codes[1..] && [codes[0]][..0] == [];
    AdcTicksCompose(m, [codes[0]], codes[1..]);
    NoTicks(m);
  }

  lemma AdcTickKeeps(m: Machine, code: nat)
    ensures AdcTick(m, code).regs == m.regs
    ensures m.phase == Idle && m.count == 0 ==> AdcTick(m, code) == m
    ensures m.phase != Idle && AdcTick(m, code).phase == Idle ==> AdcTick(m, code).count == 0
  {
    hide Registers.SampleCount, Registers.FreeRun, Registers.SampleCycles, InWindow, Quotient;
  }

  /** Converter clocks leave the registers alone, and an idle converter altogether. */
  lemma {:induction false} AdcTicksKeep(m: Machine, codes: seq<nat>)
    ensures AdcTicks(m, codes).regs == m.regs
    ensures m.phase == Idle && m.count == 0 ==> AdcTicks(m, codes) == m
    ensures m.phase != Idle && AdcTicks(m, codes).phase == Idle ==> AdcTicks(m, codes).count == 0
  {
    hide AdcTick;
    if codes != [] {
      var n := |codes| - 1;
      AdcTicksKeep(m, codes[..n]);
      AdcTickKeeps(AdcTicks(m, codes[..n]), codes[n]);
    }
  }

  /** Once a conversion has ended in idle, further converter clocks change nothing. */
  lemma IdleStays(m: Machine, first: seq<nat>, second: seq<nat>)
    requires m.phase != Idle && AdcTicks(m, first).phase == Idle
    ensures AdcTicks(m, first + second) == AdcTicks(m, first)
  {
    AdcTicksCompose(m, first, second);
    AdcTicksKeep(m, first);
    AdcTicksKeep(AdcTicks(m, first), second);
  }

  // ---- batching -------------------------------------------------------------------

  /** Two ticks in a row and one tick of their sum agree. */
  lemma Batching(c: Clocked, env: Env, a: nat, b: nat)
    ensures Agree(Ticked(Ticked(c, env, a), env, b), Ticked(c, env, a + b))
    ensures Active(Ticked(c, env, a).m) ==> Ticked(Ticked(c, env, a), env, b) == Ticked(c, env, a + b)
  {
    hide AdcTick, Quantise, Registers.Prescaler;
    if Active(c.m) {
      var p, code := c.m.regs.Prescaler(), Quantise(c.m.regs, env);
      var q, f := Quotient(a + c.fraction, p), Remainder(a + c.fraction, p);
      var r := Quotient(b + f, p);
      DivModSplit(a + c.fraction, b, p);
      assert Repeat(code, q) + Repeat(code, r) == Repeat(code, q + r);
      AdcTicksKeep(c.m, Repeat(code, q));
      if AdcTicks(c.m, Repeat(code, q)).phase == Idle {
        IdleStays(c.m, Repeat(code, q), Repeat(code, r));
      } else {
        AdcTicksCompose(c.m, Repeat(code, q), Repeat(code, r));
      }
    }
  }

  /** Splitting a tick leaves no trace exactly unless the machine goes idle in the first part
      and the second is no whole number of periods. */
  lemma SplitByState(c: Clocked, env: Env, a: nat, b: nat)
    ensures Ticked(Ticked(c, env, a), env, b) == Ticked(c, env, a + b)
            <==> !Active(c.m) || Active(Ticked(c, env, a).m) || Remainder(b, c.m.regs.Prescaler()) == 0
  {
    hide AdcTick, Quantise, Registers.Prescaler, Quotient, Remainder, Repeat;
    Batching(c, env, a, b);
    if Active(c.m) {
      var p, code := c.m.regs.Prescaler(), Quantise(c.m.regs, env);
      AdcTicksKeep(c.m, Repeat(code, Quotient(a + c.fraction, p)));
      RemainderUnmoved(a + c.fraction, b, p);
      assert (a + b) + c.fraction == (a + c.fraction) + b;
    }
  }

  lemma RemainderUnmoved(n: nat, b: nat, p: nat)
    requires p > 0
    ensures Remainder(n, p) == Remainder(n + b, p) <==> Remainder(b, p) == 0
  {
    var f, g := n % p, b % p;
    DivModSplit(n, b, p);
    DivModSplit(b, f, p);
    if f + g < p {
      DivModUnique(f + g, p, 0, f + g);
    } else {
      DivModUnique(f + g, p, 1, f + g - p);
    }
  }

  // ---- the one-cycle machine --------------------------------------------------------

  /** Clocks the converter while a whole prescaler period is left over. */
  function Drain(c: Clocked, code: nat): Clocked
    decreases c.fraction
  {
    if c.m.phase == Idle || c.fraction < c.m.regs.Prescaler() then c
    else Drain(Clocked(AdcTick(c.m, code), c.fraction - c.m.regs.Prescaler()), code)
  }

  /** One clock cycle: the prescaler counts up and the converter follows it. */
  function Cycle(c: Clocked, env: Env): Clocked {
    if !c.m.regs.Enabled() then c.(m := c.m.(phase := Idle, converting := false))
    else if c.m.phase == Idle then c
    else Drain(c.(fraction := c.fraction + 1), Quantise(c.m.regs, env))
  }

  function Cycles(c: Clocked, env: Env, n: nat): Clocked {
    if n == 0 then c else Cycle(Cycles(c, env, n - 1), env)
  }

  lemma {:induction false} DrainIsBulk(c: Clocked, code: nat)
    requires c.m.phase != Idle
    ensures var p := c.m.regs.Prescaler();
            Agree(Drain(c, code),
                  Clocked(AdcTicks(c.m, Repeat(code, Quotient(c.fraction, p))), Remainder(c.fraction, p)))
    decreases c.fraction
  {
    hide AdcTick, Registers.Prescaler;
    var p := c.m.regs.Prescaler();
    var q, f := Quotient(c.fraction, p), Remainder(c.fraction, p);
    if c.fraction < p {
      DivModUnique(c.fraction, p, 0, c.fraction);
      assert Repeat(code, q) == [];
    } else {
      var next := Clocked(AdcTick(c.m, code), c.fraction - p);
      AdcTickKeeps(c.m, code);
      DivModUnique(c.fraction - p, p, q - 1, f) by { Distribute(q - 1, 1, p); }
      assert Repeat(code, q) == [code] + Repeat(code, q - 1);
      AdcTicksCompose(c.m, [code], Repeat(code, q - 1));
      assert AdcTicks(c.m, []) == c.m && AdcTicks(c.m, [code]) == next.m;
      if next.m.phase == Idle {
        AdcTicksKeep(next.m, Repeat(code, q - 1));
      } else {
        DrainIsBulk(next, code);
      }
    }
  }

  lemma CycleRespectsAgree(a: Clocked, b: Clocked, env: Env)
    requires Agree(a, b)
    ensures Agree(Cycle(a, env), Cycle(b, env))
  {
    hide AdcTick, Quantise, Registers.Prescaler;
  }

  /** A bulk tick of n cycles refines n single cycles. */
  lemma {:induction false} BulkRefinesCycles(c: Clocked, env: Env, n: nat)
    requires n > 0
    ensures Agree(Ticked(c, env, n), Cycles(c, env, n))
    decreases n
  {
    hide AdcTick, Quantise, Registers.Prescaler, Drain;
    assert Cycles(c, env, 1) == Cycle(Cycles(c, env, 0), env);
    if n > 1 {
      var before := Ticked(c, env, n - 1);
      BulkRefinesCycles(c, env, n - 1);
      BulkRefinesCycles(before, env, 1);
      CycleRespectsAgree(before, Cycles(c, env, n - 1), env);
      Batching(c, env, n - 1, 1);
      assert Cycles(before, env, 1) == Cycle(Cycles(before, env, 0), env);
    } else if Active(c.m) {
      DrainIsBulk(c.(fraction := c.fraction + 1), Quantise(c.m.regs, env));
    }
  }
}
