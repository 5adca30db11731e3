/** What every run of the classic comparator guarantees: one event in flight, glitches
    suppressed, the output caught up within eight cycles, and when it never is. */
module ComparatorProofs {
  import opened Bits
  import opened Comparator

  datatype Op =
    | Inputs(positive: real, negative: real)
    | Acsr(value: bv8)
    | Accon(value: bv8)
    | Advance(cycles: nat)
    | Acknowledge

  function Applied(u: Unit, s: Comp, op: Op): Comp {
    match op
    case Inputs(positive, negative) => InputsSet(u, s, positive, negative)
    case Acsr(value) => AcsrWritten(u, s, value)
    case Accon(value) => AcconWritten(u, s, value)
    case Advance(cycles) => Advanced(u, s, s.now + cycles)
    case Acknowledge => Consumed(u, s)
  }

  function Run(u: Unit, s: Comp, ops: seq<Op>): Comp {
    if ops == [] then s else Applied(u, Run(u, s, ops[..|ops| - 1]), ops[|ops| - 1])
  }

  /** At most one event is in flight, due 1 to 8 cycles after the last raw change; a raw
      state that differs from the output is pending. */
  predicate Reachable(s: Comp) {
    && |s.due| <= 1
    && s.toggled <= s.now
    && (s.raw != s.output ==> s.pending)
    && (s.due != [] ==> s.pending && s.now < s.due[0] == s.toggled + s.delay && 1 <= s.delay <= 8)
  }

  lemma EvaluatedReachable(u: Unit, s: Comp)
    requires u.attached && Reachable(s)
    ensures Reachable(Evaluated(u, s))
  {
    hide Disabled, NextRaw;
  }

  /** With one event in flight, advancing fires it or does not. */
  lemma AdvancedOnce(u: Unit, s: Comp, target: nat)
    requires |s.due| <= 1
    ensures Advanced(u, s, target)
            == if s.due == [] || s.due[0] > target then s.(now := target)
               else Fired(u, s.(now := s.due[0], due := [])).(now := target)
  {
    hide Fired;
    if s.due != [] && s.due[0] <= target {
      var popped := s.(now := s.due[0], due := []);
      assert s.due[..0] + s.due[1..] == [];
      FiredKeepsQueue(u, popped);
    }
  }

  /** Advancing to one cycle and on to another is advancing to the latter. */
  lemma AdvancesCompose(u: Unit, s: Comp, x: nat, y: nat)
    requires |s.due| <= 1 && x <= y
    ensures Advanced(u, Advanced(u, s, x), y) == Advanced(u, s, y)
  {
    hide Fired, Advanced;
    AdvancedOnce(u, s, x);
    AdvancedOnce(u, s, y);
    if s.due != [] {
      FiredKeepsQueue(u, s.(now := s.due[0], due := []));
    }
    AdvancedOnce(u, Advanced(u, s, x), y);
  }

  lemma FiredSettles(u: Unit, s: Comp)
    ensures var t := Fired(u, s);
            if Disabled(u, s) || !s.pending then t == s
            else t.output == s.raw && t.raw == s.raw && !t.pending
  {
    hide Disabled, Triggers, Announced, InterruptEnabled;
  }

  lemma AppliedReachable(u: Unit, s: Comp, op: Op)
    requires u.attached && Reachable(s)
    ensures Reachable(Applied(u, s, op))
  {
    hide Evaluated, Disabled, Fired, Advanced, Has, Without, Merged;
    match op
    case Inputs(p, n) => EvaluatedReachable(u, s.(positive := p, negative := n));
    case Acsr(value) =>
      var stored := Merged(s.acsr, value, Writable(u));
      EvaluatedReachable(u, s.(acsr := if Has(value, u.acif) then Without(stored, u.acif) else stored));
    case Accon(value) =>
      var t := s.(accon := value);
      EvaluatedReachable(u, if Resets(u, s, value) then t.(raw := false, output := false) else t);
    case Advance(cycles) =>
      AdvancedOnce(u, s, s.now + cycles);
      if s.due != [] {
        FiredSettles(u, s.(now := s.due[0], due := []));
        FiredKeepsQueue(u, s.(now := s.due[0], due := []));
      }
    case Acknowledge =>
  }

  /** In every run of an attached comparator. */
  lemma {:induction false} AlwaysReachable(u: Unit, ops: seq<Op>)
    requires u.attached
    ensures Reachable(Run(u, PowerOn(), ops))
  {
    hide Applied, Reachable;
    if ops == [] {
      assert Reachable(PowerOn()) by { PowerOnReachable(); }
    } else {
      AlwaysReachable(u, ops[..|ops| - 1]);
      AppliedReachable(u, Run(u, PowerOn(), ops[..|ops| - 1]), ops[|ops| - 1]);
    }
  }

  lemma PowerOnReachable()
    ensures Reachable(PowerOn())
  {
  }

  // ---- catching up --------------------------------------------------------------------------

  /** A raw state that differs from the output has its event in flight. */
  predicate Alive(s: Comp) {
    s.raw != s.output ==> s.due != []
  }

  /** The event comes due while the comparator is disabled, and is dropped. */
  predicate Loses(u: Unit, s: Comp, op: Op) {
    op.Advance? && s.raw != s.output && s.due != [] && s.due[0] <= s.now + op.cycles && Disabled(u, s)
  }

  /** Exactly the operations that drop the event leave the output stale for good. */
  lemma AliveExact(u: Unit, s: Comp, op: Op)
    requires u.attached && Reachable(s) && Alive(s)
    ensures Alive(Applied(u, s, op)) <==> !Loses(u, s, op)
  {
    hide Disabled, NextRaw, Fired, Advanced, Has, Without, Merged;
    if op.Advance? {
      AdvancedOnce(u, s, s.now + op.cycles);
      if s.due != [] {
        var popped := s.(now := s.due[0], due := []);
        FiredSettles(u, popped);
        FiredKeepsQueue(u, popped);
        assert Disabled(u, popped) == Disabled(u, s) by { DisabledByRegisters(u, popped, s); }
      }
    }
  }

  lemma DisabledByRegisters(u: Unit, s: Comp, t: Comp)
    requires s.acsr == t.acsr && s.accon == t.accon
    ensures Disabled(u, s) == Disabled(u, t)
  {
  }

  /** An enabled comparator advanced to eight cycles after the last raw change shows the
      raw state exactly if it did so before or has an event in flight. */
  lemma CatchesUp(u: Unit, s: Comp, cycles: nat)
    requires u.attached && Reachable(s) && !Disabled(u, s) && s.now + cycles >= s.toggled + 8
    ensures var t := Applied(u, s, Advance(cycles));
            t.raw == s.raw && (t.output == t.raw <==> s.output == s.raw || s.due != [])
  {
    hide Fired, Advanced, Disabled;
    AdvancedOnce(u, s, s.now + cycles);
    if s.due != [] {
      var popped := s.(now := s.due[0], due := []);
      FiredSettles(u, popped);
      DisabledByRegisters(u, popped, s);
    }
  }

  /** No event of the run comes due while the comparator is disabled. */
  predicate Lossless(u: Unit, ops: seq<Op>) {
    forall i :: 0 <= i < |ops| ==> !Loses(u, Run(u, PowerOn(), ops[..i]), ops[i])
  }

  lemma {:induction false} AliveThroughout(u: Unit, ops: seq<Op>)
    requires u.attached && Lossless(u, ops)
    ensures Alive(Run(u, PowerOn(), ops))
  {
    hide Applied, Loses, Reachable;
    if ops == [] {
      assert Alive(PowerOn());
    } else {
      hide Alive;
      var n := |ops| - 1;
      assert Lossless(u, ops[..n]) by {
        forall i | 0 <= i < n ensures ops[..n][..i] == ops[..i] {}
      }
      AliveThroughout(u, ops[..n]);
      AlwaysReachable(u, ops[..n]);
      AliveExact(u, Run(u, PowerOn(), ops[..n]), ops[n]);
    }
  }

  /** In every such run, whatever happens to the inputs and registers, the output is the raw
      state at the latest eight cycles after the last raw change. */
  lemma CaughtUpThroughout(u: Unit, ops: seq<Op>)
    requires u.attached && Lossless(u, ops)
    ensures var s := Run(u, PowerOn(), ops); s.now >= s.toggled + 8 ==> s.output == s.raw && s.due == []
  {
    AliveThroughout(u, ops);
    AlwaysReachable(u, ops);
    hide Run, Lossless;
  }

  /** Once dropped, the event is not made up for until the raw state moves. */
  lemma StaysStale(u: Unit, s: Comp, op: Op)
    requires u.attached && s.raw != s.output && s.due == [] && Applied(u, s, op).raw == s.raw
    requires op.Accon? ==> !Resets(u, s, op.value)
    ensures Applied(u, s, op).output == s.output && Applied(u, s, op).due == []
  {
    hide Disabled, NextRaw, Fired, Has, Without, Merged, Delay;
  }

  /** Attached, with an ACD bit of its own in ACSR and less than a volt of hysteresis. */
  predicate Plain(u: Unit) {
    u.attached && u.acd != 0 && u.acd & (u.aco | u.acif) == 0 && u.acen == 0 && u.achyst == 0
    && 0.0 <= u.hysteresis < 1.0
  }

  function Risen(): Comp {
    PowerOn().(positive := 1.0, raw := true, pending := true, delay := 1, due := [1])
  }

  lemma Rises(u: Unit)
    requires Plain(u)
    ensures Applied(u, PowerOn(), Inputs(1.0, 0.0)) == Risen()
  {
    assert !Has(0, u.acd);
    hide Has, Field;
  }

  lemma DisablesAndBack(u: Unit)
    requires Plain(u)
    ensures Has(u.acd, u.acd) && !Has(u.acd, u.acif) && !Has(0, u.acd) && !Has(0, u.acif)
    ensures Merged(0, u.acd, Writable(u)) == u.acd && Merged(u.acd, 0, Writable(u)) == 0
  {
  }

  lemma SwitchedOff(u: Unit, s: Comp)
    requires Plain(u) && s.acsr == 0
    ensures Applied(u, s, Acsr(u.acd)) == s.(acsr := u.acd)
  {
    DisablesAndBack(u);
    hide Has, NextRaw, Merged, Writable;
  }

  lemma SwitchedOn(u: Unit, s: Comp)
    requires Plain(u) && s.acsr == u.acd && s.raw && s.positive == 1.0 && s.negative == 0.0
    ensures Applied(u, s, Acsr(0)) == s.(acsr := 0) && !Disabled(u, s.(acsr := 0))
  {
    DisablesAndBack(u);
    assert NextRaw(u, s.(acsr := 0));
    hide Has, NextRaw, Merged, Writable;
  }

  /** Such a comparator, disabled through ACSR for the one cycle in which its event comes
      due, misses a rising input for good. */
  lemma DroppedEvent(u: Unit)
    requires Plain(u)
    ensures var s := Run(u, PowerOn(), [Inputs(1.0, 0.0), Acsr(u.acd), Advance(1), Acsr(0)]);
            Reachable(s) && !Disabled(u, s) && s.raw && !s.output && s.due == []
  {
    Rises(u);
    DisablesAndBack(u);
    var s2 := Risen().(acsr := u.acd);
    SwitchedOff(u, Risen());
    AdvancedOnce(u, s2, 1);
    var popped := s2.(now := 1, due := []);
    FiredSettles(u, popped);
    assert Disabled(u, popped);
    SwitchedOn(u, popped);
    RunOfFour(u, PowerOn(), Inputs(1.0, 0.0), Acsr(u.acd), Advance(1), Acsr(0));
    hide Run, Disabled, Fired, Advanced, AcsrWritten;
  }

  lemma RunOfFour(u: Unit, s: Comp, a: Op, b: Op, c: Op, d: Op)
    ensures Run(u, s, [a, b, c, d]) == Applied(u, Applied(u, Applied(u, Applied(u, s, a), b), c), d)
  {
    hide Applied;
    assert Run(u, s, []) == s;
    hide Run;
    RunSnoc(u, s, [], a);
    RunSnoc(u, s, [a], b);
    RunSnoc(u, s, [a, b], c);
    RunSnoc(u, s, [a, b, c], d);
    assert [] + [a] == [a] && [a] + [b] == [a, b] && [a, b] + [c] == [a, b, c] && [a, b, c] + [d] == [a, b, c, d];
  }

  lemma RunSnoc(u: Unit, s: Comp, ops: seq<Op>, op: Op)
    ensures Run(u, s, ops + [op]) == Applied(u, Run(u, s, ops), op)
  {
    hide Applied;
    assert (ops + [op])[..|ops|] == ops;
  }

  // ---- glitches -----------------------------------------------------------------------------

  /** What PSC, timer and ADC have been told. */
  function Outward(log: seq<Effect>): seq<Effect> {
    if log == [] then []
    else Outward(log[..|log| - 1]) + if log[|log| - 1].Interrupt? then [] else [log[|log| - 1]]
  }

  lemma OutwardInterrupt(log: seq<Effect>, pending: bool)
    ensures Outward(log + [Interrupt(pending)]) == Outward(log)
  {
    OutwardSnoc(log, Interrupt(pending));
  }

  /** The event in flight, if any, is not reached by this operation. */
  predicate Unfired(s: Comp, op: Op) {
    op.Advance? ==> s.due == [] || s.now + op.cycles < s.due[0]
  }

  /** An event is in flight exactly while raw state and output differ. */
  predicate Tracking(s: Comp) {
    s.raw != s.output <==> s.due != []
  }

  lemma UnfiredStep(u: Unit, s: Comp, op: Op)
    requires u.attached && Reachable(s) && Tracking(s) && Unfired(s, op)
    requires op.Accon? ==> !Resets(u, s, op.value)
    ensures var t := Applied(u, s, op);
            Tracking(t) && t.output == s.output && Outward(t.log) == Outward(s.log)
  {
    hide Disabled, NextRaw, Fired, Advanced, Has, Without, Merged, Outward;
    if op.Advance? {
      AdvancedOnce(u, s, s.now + op.cycles);
    }
    OutwardInterrupt(s.log, false);
  }

  /** No operation of the run reaches an event or resets the comparison. */
  predicate Undisturbed(u: Unit, s: Comp, ops: seq<Op>) {
    forall i :: 0 <= i < |ops| ==>
      var t := Run(u, s, ops[..i]);
      Unfired(t, ops[i]) && (ops[i].Accon? ==> !Resets(u, t, ops[i].value))
  }

  /** Raw changes, however many, that are undone before their event comes due never
      reach output, PSC, ADC or timer, and leave no event behind. */
  lemma {:induction false} GlitchSuppressed(u: Unit, s: Comp, ops: seq<Op>)
    requires u.attached && Reachable(s) && Tracking(s) && Undisturbed(u, s, ops)
    ensures var t := Run(u, s, ops);
            Reachable(t) && Tracking(t) && t.output == s.output && Outward(t.log) == Outward(s.log)
    ensures s.raw == s.output == Run(u, s, ops).raw ==> Run(u, s, ops).due == []
  {
    hide Applied, Unfired, Resets, Reachable;
    if ops != [] {
      var n := |ops| - 1;
      assert Undisturbed(u, s, ops[..n]) by {
        forall i | 0 <= i < n ensures ops[..n][..i] == ops[..i] {}
      }
      GlitchSuppressed(u, s, ops[..n]);
      var before := Run(u, s, ops[..n]);
      UnfiredStep(u, before, ops[n]);
      AppliedReachable(u, before, ops[n]);
    }
  }

  /** The output moves only to a raw state that has held for the whole delay, and that
      is when PSC, timer and ADC are told. */
  lemma OutputIsStableRaw(u: Unit, s: Comp, op: Op)
    requires u.attached && Reachable(s) && (op.Accon? ==> !Resets(u, s, op.value))
    requires Applied(u, s, op).output != s.output
    ensures op.Advance? && !Disabled(u, s) && s.raw != s.output && Applied(u, s, op).output == s.raw
    ensures s.due == [s.toggled + s.delay] && s.toggled + s.delay <= s.now + op.cycles
    ensures Outward(Applied(u, s, op).log) == Outward(s.log) + Announced(u, s)
  {
    hide Disabled, NextRaw, Fired, Advanced, Has, Without, Merged, Outward, Announced;
    assert op.Advance?;
    AdvancedOnce(u, s, s.now + op.cycles);
    if s.due != [] {
      var popped := s.(now := s.due[0], due := []);
      FiredSettles(u, popped);
      DisabledByRegisters(u, popped, s);
      FiredTells(u, popped);
      AnnouncedByState(u, popped, s);
    }
  }

  lemma AnnouncedByState(u: Unit, s: Comp, t: Comp)
    requires s.raw == t.raw && s.acsr == t.acsr
    ensures Announced(u, s) == Announced(u, t)
  {
  }

  lemma LastApart(a: seq<Effect>, b: seq<Effect>)
    requires b != []
    ensures a + b == (a + b[..|b| - 1]) + [b[|b| - 1]]
  {
  }

  lemma OutwardSnoc(log: seq<Effect>, effect: Effect)
    ensures Outward(log + [effect]) == Outward(log) + if effect.Interrupt? then [] else [effect]
  {
    assert (log + [effect])[..|log|] == log;
  }

  lemma {:induction false} OutwardConcat(a: seq<Effect>, b: seq<Effect>)
    requires forall i :: 0 <= i < |b| ==> !b[i].Interrupt?
    ensures Outward(a + b) == Outward(a) + b
  {
    if b == [] {
      assert a + b == a;
    } else {
      hide Outward;
      var n := |b| - 1;
      OutwardConcat(a, b[..n]);
      OutwardSnoc(a + b[..n], b[n]);
      LastApart(a, b);
      LastApart(Outward(a), b);
    }
  }

  lemma FiredTells(u: Unit, s: Comp)
    requires !Disabled(u, s) && s.pending && s.raw != s.output
    ensures Outward(Fired(u, s).log) == Outward(s.log) + Announced(u, s)
  {
    hide Outward, Has, Disabled, Triggers;
    OutwardConcat(s.log, Announced(u, s));
    OutwardInterrupt(s.log + Announced(u, s), true);
  }
}
