/** The classic comparator by the values of its registers and inputs: the sense of the comparison,
    its hysteresis, the delay by overdrive, and what an edge raises and tells. */
module ComparatorValues {
  import opened Bits
  import opened Comparator
  import opened ComparatorProofs

  /** Neither switched off through ACD nor short of ACEN. */
  predicate IsOn(u: Unit, s: Comp) {
    !(u.acd != 0 && Has(s.acsr, u.acd)) && !(u.acen != 0 && !Has(s.accon, u.acen))
  }

  /** The hysteresis of the unit or, if ACCON sets it, 0, 20 or 50 mV. */
  predicate HasHysteresis(u: Unit, s: Comp, h: real) {
    h == if u.achyst == 0 then u.hysteresis
         else if Field(s.accon, u.achyst) == 1 then 0.02
         else if Field(s.accon, u.achyst) == 2 then 0.05
         else 0.0
  }

  /** New inputs of an enabled comparator: raw is high above the hysteresis, low below its negative
      and else stays; a disabled one does not look. */
  lemma RawExact(u: Unit, s: Comp, p: real, n: real, h: real)
    requires HasHysteresis(u, s, h) && h >= 0.0
    ensures var t := InputsSet(u, s, p, n);
            if !IsOn(u, s) then t == s.(positive := p, negative := n)
            else t.raw == (if p - n > h then true else if p - n < -h then false else s.raw)
  {
    hide Has, Field, Delay;
  }

  /** The delay falls with the overdrive: 1 cycle from 100 mV, 2 above 20 mV, 4 above 10 mV, else 8. */
  lemma ScheduleExact(u: Unit, s: Comp, p: real, n: real)
    requires IsOn(u, s) && u.attached && InputsSet(u, s, p, n).raw != s.raw
    ensures var t, over := InputsSet(u, s, p, n), if p < n then n - p else p - n;
            if t.raw != s.output then
              && t.pending && t.output == s.output && t.log == s.log && t.due == [s.now + t.delay]
              && t.delay == if over >= 0.1 then 1 else if over > 0.02 then 2 else if over > 0.01 then 4 else 8
            else t.due == [] && t.delay == 0 && !t.pending && t.output == s.output && t.log == s.log
  {
    hide Has, NextRaw;
  }

  /** Without a scheduler the output follows at once, and only the fault inputs are told. */
  lemma UnattachedFollows(u: Unit, s: Comp, p: real, n: real)
    requires IsOn(u, s) && !u.attached && InputsSet(u, s, p, n).raw != s.raw
    ensures var t := InputsSet(u, s, p, n);
            t.output == t.raw && t.log == s.log + if t.raw != s.output then [Fault(t.raw)] else []
  {
    hide Has, NextRaw, Delay;
    assert s.log + [] == s.log;
  }

  /** The interrupt mode: 0 for both edges, 2 for falling and 3 for rising ones. */
  predicate Selects(u: Unit, s: Comp, level: bool) {
    var mode := Field(if u.hasAccon then s.accon else s.acsr, u.acis);
    mode == 0 || (mode == 2 && !level) || (mode == 3 && level)
  }

  lemma TriggersExact(u: Unit, s: Comp)
    ensures Triggers(u, s) <==> Selects(u, s, s.raw)
  {
    hide Field;
  }

  /** What an event does that finds the raw state changed: the output takes it, PSC, timer and ADC
      are told in this order, and a selected edge raises ACIF, and the interrupt if enabled. */
  lemma EventExact(u: Unit, s: Comp)
    requires IsOn(u, s) && s.pending && s.raw != s.output && u.acif != 0
    ensures var t := Fired(u, s);
            var told := [Fault(s.raw)] + (if u.capture && Has(s.acsr, u.acic) then [Capture(s.raw)] else [])
                        + (if u.trigger then [AdcTrigger] else []);
            && t.output == s.raw && !t.pending
            && (Has(t.acsr, u.acif) <==> Has(s.acsr, u.acif) || Selects(u, s, s.raw))
            && (if Selects(u, s, s.raw) && u.attached && (Has(t.acsr, u.acie) || Has(s.accon, u.acie))
                then t.log == s.log + told + [Interrupt(true)] else t.log == s.log + told)
  {
    hide Has, With, Triggers, Selects, Fired, IsOn, Announced;
    TriggersExact(u, s);
    AnnouncedIs(u, s);
    FiredIs(u, s);
    SetBit(s.acsr, u.acif);
  }

  lemma AnnouncedIs(u: Unit, s: Comp)
    ensures Announced(u, s) == [Fault(s.raw)] + (if u.capture && Has(s.acsr, u.acic) then [Capture(s.raw)] else [])
                               + (if u.trigger then [AdcTrigger] else [])
  {
    hide Has;
  }

  lemma FiredIs(u: Unit, s: Comp)
    requires IsOn(u, s) && s.pending && s.raw != s.output
    ensures var told := s.(output := s.raw, pending := false, log := s.log + Announced(u, s));
            Fired(u, s) == if Triggers(u, s) then Flagged(u, told) else told
  {
    hide Has, Triggers, Flagged, Announced;
  }

  lemma SetBit(register: bv8, mask: bv8)
    requires mask != 0
    ensures Has(With(register, mask), mask)
  {
    assert (register | mask) & mask == mask;
  }

  /** An event that is too late, or finds the comparator off, does nothing. */
  lemma EventIgnored(u: Unit, s: Comp)
    requires !IsOn(u, s) || !s.pending
    ensures Fired(u, s) == s
  {
    hide Has;
  }

  /** A write of ACCON that newly sets the ACD bit puts raw state and output to low before anything
      else; with the comparator off, they stay there. */
  lemma AcconExact(u: Unit, s: Comp, value: bv8)
    ensures var t, off := AcconWritten(u, s, value), s.(accon := value);
            && t.accon == value && t.acsr == s.acsr
            && (!IsOn(u, off) ==>
                  if u.acd != 0 && Has(value, u.acd) && !Has(s.accon, u.acd)
                  then t == off.(raw := false, output := false) else t == off)
            && (IsOn(u, off) ==>
                  t == InputsSet(u, if u.acd != 0 && Has(value, u.acd) && !Has(s.accon, u.acd)
                                    then off.(raw := false, output := false) else off, s.positive, s.negative))
  {
    var t := s.(accon := value);
    EvaluationKeepsAcsr(u, if Resets(u, s, value) then t.(raw := false, output := false) else t);
    hide Has, NextRaw, Delay;
  }

  /** An interrupt is requested if ACIF is up and enabled in either register. An acknowledgement
      takes the request back, and clears nothing but ACIF; without one it does nothing. */
  lemma AcknowledgeExact(u: Unit, s: Comp)
    ensures Requests(u, s) <==> Has(s.acsr, u.acif) && (Has(s.acsr, u.acie) || Has(s.accon, u.acie))
    ensures !Requests(u, s) ==> Consumed(u, s) == s
    ensures Requests(u, s) ==>
              Consumed(u, s) == s.(acsr := s.acsr & !u.acif,
                                   log := if u.attached then s.log + [Interrupt(false)] else s.log)
    ensures !Requests(u, Consumed(u, s))
  {
    WithoutBits(s.acsr, u.acif, 0);
    hide Has;
  }

  /** ACO and ACIF cannot be set by writing; a one clears ACIF; all else is stored. */
  lemma AcsrExact(u: Unit, s: Comp, value: bv8, mask: bv8)
    requires u.aco & u.acif == 0 && mask & u.aco == 0 && mask & u.acif == 0
    ensures var t := AcsrWritten(u, s, value);
            && (Has(t.acsr, u.acif) <==> Has(s.acsr, u.acif) && !Has(value, u.acif))
            && (Has(t.acsr, u.aco) <==> Has(s.acsr, u.aco))
            && (Has(t.acsr, mask) <==> Has(value, mask))
  {
    hide Has, Merged, Without, Evaluated, Writable;
    WritableParts(u, mask);
    var stored := Merged(s.acsr, value, Writable(u));
    MergedBits(s.acsr, value, Writable(u), u.aco);
    MergedBits(s.acsr, value, Writable(u), u.acif);
    MergedBits(s.acsr, value, Writable(u), mask);
    WithoutBits(stored, u.acif, u.aco);
    WithoutBits(stored, u.acif, mask);
    EvaluationKeepsAcsr(u, s.(acsr := if Has(value, u.acif) then Without(stored, u.acif) else stored));
  }

  lemma WritableParts(u: Unit, mask: bv8)
    requires mask & u.aco == 0 && mask & u.acif == 0
    ensures u.aco & Writable(u) == 0 && u.acif & Writable(u) == 0 && mask & !Writable(u) == 0
  {
    assert mask & (u.aco | u.acif) == 0;
  }

  lemma EvaluationKeepsAcsr(u: Unit, s: Comp)
    ensures Evaluated(u, s).acsr == s.acsr && Evaluated(u, s).accon == s.accon
  {
    hide Disabled, NextRaw, Delay;
  }
}
