/** The classic analog comparator: hysteresis, and an output delayed by events that are
    scheduled, cancelled and fired.

    Only this comparator's entries of the event queue are modelled; entries of other
    owners neither see nor touch them. */
module Comparator {
  import opened Bits

  /** Masks of the descriptor, and what is wired to the comparator. */
  datatype Unit = Unit(
    acd: bv8, acen: bv8, aco: bv8, acif: bv8, acie: bv8, acic: bv8, acis: bv8, achyst: bv8,
    hasAccon: bool, hysteresis: real, attached: bool, capture: bool, trigger: bool)

  /** What the rest of the machine is told. */
  datatype Effect = Fault(level: bool) | Capture(level: bool) | AdcTrigger | Interrupt(pending: bool)

  /** due: targets of the events in flight; toggled: cycle of the last raw change. */
  datatype Comp = Comp(
    acsr: bv8, accon: bv8, positive: real, negative: real,
    output: bool, raw: bool, pending: bool, delay: nat,
    now: nat, due: seq<nat>, toggled: nat, log: seq<Effect>)

  predicate Disabled(u: Unit, s: Comp) {
    (u.acd != 0 && Has(s.acsr, u.acd)) || (u.acen != 0 && !Has(s.accon, u.acen))
  }

  function Hysteresis(u: Unit, s: Comp): real {
    if u.achyst == 0 then u.hysteresis
    else if Field(s.accon, u.achyst) == 1 then 0.02
    else if Field(s.accon, u.achyst) == 2 then 0.05
    else 0.0
  }

  function Difference(s: Comp): real { s.positive - s.negative }

  /** The raw comparison, given the state it comes from. */
  function NextRaw(u: Unit, s: Comp): bool {
    if s.raw then !(Difference(s) < -Hysteresis(u, s)) else Difference(s) > Hysteresis(u, s)
  }

  /** The more overdrive, the shorter the delay. */
  function Delay(difference: real): (d: nat)
    ensures 1 <= d <= 8
  {
    var overdrive := if difference < 0.0 then -difference else difference;
    if overdrive >= 0.1 then 1 else if overdrive > 0.02 then 2 else if overdrive > 0.01 then 4 else 8
  }

  function Evaluated(u: Unit, s: Comp): Comp {
    if Disabled(u, s) || NextRaw(u, s) == s.raw then s
    else
      var t := s.(raw := !s.raw, toggled := s.now);
      if t.raw != s.output then
        var d := Delay(Difference(s));
        if u.attached then t.(delay := d, due := [s.now + d], pending := true)
        else t.(delay := d, output := t.raw, log := s.log + [Fault(t.raw)])
      else t.(delay := 0, due := if u.attached then [] else s.due, pending := false)
  }

  function Mode(u: Unit, s: Comp): bv8 {
    if u.hasAccon then Field(s.accon, u.acis) else Field(s.acsr, u.acis)
  }

  predicate InterruptEnabled(u: Unit, s: Comp) {
    Has(s.acsr, u.acie) || Has(s.accon, u.acie)
  }

  /** What is announced when the output becomes s.raw. */
  function Announced(u: Unit, s: Comp): seq<Effect> {
    [Fault(s.raw)]
    + (if u.capture && Has(s.acsr, u.acic) then [Capture(s.raw)] else [])
    + (if u.trigger then [AdcTrigger] else [])
  }

  predicate Triggers(u: Unit, s: Comp) {
    match Mode(u, s)
    case 0 => true
    case 2 => !s.raw
    case 3 => s.raw
    case _ => false
  }

  function Flagged(u: Unit, s: Comp): Comp {
    var t := s.(acsr := With(s.acsr, u.acif));
    if InterruptEnabled(u, t) && u.attached then t.(log := t.log + [Interrupt(true)]) else t
  }

  /** The event callback. */
  function Fired(u: Unit, s: Comp): Comp {
    if Disabled(u, s) || !s.pending then s
    else
      var t := s.(output := s.raw, pending := false);
      if s.raw == s.output then t
      else
        var told := t.(log := s.log + Announced(u, s));
        if Triggers(u, s) then Flagged(u, told) else told
  }

  /** Index of the earliest target. */
  function Earliest(due: seq<nat>): (i: nat)
    requires due != []
    ensures i < |due| && forall j :: 0 <= j < |due| ==> due[i] <= due[j]
  {
    if |due| == 1 then 0
    else
      var i := Earliest(due[..|due| - 1]);
      if due[|due| - 1] < due[i] then |due| - 1 else i
  }

  /** The scheduler advanced to a target cycle: due events fire in order. */
  function Advanced(u: Unit, s: Comp, target: nat): Comp
    decreases |s.due|
  {
    if s.due == [] || s.due[Earliest(s.due)] > target then s.(now := target)
    else
      var i := Earliest(s.due);
      var popped := s.(now := s.due[i], due := s.due[..i] + s.due[i + 1..]);
      FiredKeepsQueue(u, popped);
      Advanced(u, Fired(u, popped), target)
  }

  lemma FiredKeepsQueue(u: Unit, s: Comp)
    ensures Fired(u, s).due == s.due && Fired(u, s).now == s.now
    ensures Fired(u, s).raw == s.raw && Fired(u, s).toggled == s.toggled && Fired(u, s).delay == s.delay
  {
  }

  function Writable(u: Unit): bv8 { !(u.aco | u.acif) }

  function AcsrWritten(u: Unit, s: Comp, value: bv8): Comp {
    var writable := Writable(u);
    var stored := Merged(s.acsr, value, writable);
    Evaluated(u, s.(acsr := if Has(value, u.acif) then Without(stored, u.acif) else stored))
  }

  /** A write of ACCON that sets the bit under the ACD mask resets the comparison. */
  predicate Resets(u: Unit, s: Comp, value: bv8) {
    u.acd != 0 && !Has(s.accon, u.acd) && Has(value, u.acd)
  }

  function AcconWritten(u: Unit, s: Comp, value: bv8): Comp {
    var t := s.(accon := value);
    Evaluated(u, if Resets(u, s, value) then t.(raw := false, output := false) else t)
  }

  function InputsSet(u: Unit, s: Comp, positive: real, negative: real): Comp {
    Evaluated(u, s.(positive := positive, negative := negative))
  }

  predicate Requests(u: Unit, s: Comp) {
    Has(s.acsr, u.acif) && InterruptEnabled(u, s)
  }

  function Consumed(u: Unit, s: Comp): Comp {
    if !Requests(u, s) then s
    else
      var t := s.(acsr := Without(s.acsr, u.acif));
      if u.attached then t.(log := t.log + [Interrupt(false)]) else t
  }

  function PowerOn(): Comp {
    Comp(0, 0, 0.0, 0.0, false, false, false, 0, 0, [], 0, [])
  }

  class AnalogComparator {
    const u: Unit
    var acsr: bv8
    var accon: bv8
    var positiveInput: real
    var negativeInput: real
    var outputHigh: bool
    var rawOutput: bool
    var pending: bool
    var delayCounter: nat
    var now: nat
    var due: seq<nat>
    ghost var toggled: nat
    ghost var log: seq<Effect>

    ghost function View(): Comp
      reads this
    {
      Comp(acsr, accon, positiveInput, negativeInput, outputHigh, rawOutput, pending, delayCounter,
           now, due, toggled, log)
    }

    constructor (u: Unit)
      ensures View() == PowerOn() && this.u == u
    {
      this.u := u;
      acsr, accon, positiveInput, negativeInput := 0, 0, 0.0, 0.0;
      outputHigh, rawOutput, pending, delayCounter := false, false, false, 0;
      now, due, toggled, log := 0, [], 0, [];
    }

    method IsDisabled() returns (disabled: bool)
      ensures disabled == Disabled(u, View())
    {
      hide Has;
      if u.acd != 0 && Has(acsr, u.acd) {
        return true;
      }
      disabled := u.acen != 0 && !Has(accon, u.acen);
    }

    /** The comparison with hysteresis, as EvaluateOutput starts with it. */
    method CompareInputs() returns (nextRaw: bool)
      ensures nextRaw == NextRaw(u, View())
    {
      hide Field;
      var difference := positiveInput - negativeInput;
      var h := u.hysteresis;
      if u.achyst != 0 {
        var bits := Field(accon, u.achyst);
        h := if bits == 1 then 0.02 else if bits == 2 then 0.05 else 0.0;
      }
      nextRaw := rawOutput;
      if rawOutput {
        if difference < -h {
          nextRaw := false;
        }
      } else {
        if difference > h {
          nextRaw := true;
        }
      }
    }

    method EvaluateOutput()
      modifies this
      ensures View() == Evaluated(u, old(View()))
    {
      hide Disabled, NextRaw, Delay;
      var disabled := IsDisabled();
      if disabled {
        return;
      }
      var nextRaw := CompareInputs();
      if nextRaw != rawOutput {
        rawOutput := nextRaw;
        toggled := now;
        if rawOutput != outputHigh {
          delayCounter := Delay(positiveInput - negativeInput);
          if u.attached {
            due := [];
            due := due + [now + delayCounter];
            pending := true;
          } else {
            outputHigh := rawOutput;
            log := log + [Fault(outputHigh)];
          }
        } else {
          delayCounter := 0;
          if u.attached {
            due := [];
          }
          pending := false;
        }
      }
    }

    method RaiseInterruptFlag()
      modifies this`acsr, this`log
      ensures View() == Flagged(u, old(View()))
    {
      hide Has, With;
      acsr := With(acsr, u.acif);
      if Has(acsr, u.acie) || Has(accon, u.acie) {
        if u.attached {
          log := log + [Interrupt(true)];
        }
      }
    }

    method OnEvent()
      modifies this
      ensures View() == Fired(u, old(View()))
    {
      hide Has, Field, With, Without;
      var disabled := IsDisabled();
      if disabled {
        return;
      }
      if pending {
        var oldOutput := outputHigh;
        outputHigh := rawOutput;
        pending := false;
        if outputHigh != oldOutput {
          log := log + Announced(u, old(View()));
          var mode := if u.hasAccon then Field(accon, u.acis) else Field(acsr, u.acis);
          var trigger := false;
          match mode {
            case 0 => trigger := true;
            case 2 => trigger := !outputHigh;
            case 3 => trigger := outputHigh;
            case _ =>
          }
          if trigger {
            RaiseInterruptFlag();
          }
        }
      }
    }

    method AdvanceTo(target: nat)
      modifies this
      ensures View() == Advanced(u, old(View()), target)
    {
      hide Fired, Earliest;
      while due != [] && due[Earliest(due)] <= target
        invariant Advanced(u, View(), target) == Advanced(u, old(View()), target)
        decreases |due|
      {
        var i := Earliest(due);
        now := due[i];
        due := due[..i] + due[i + 1..];
        FiredKeepsQueue(u, View());
        OnEvent();
      }
      now := target;
    }

    method WriteAcsr(value: bv8)
      modifies this
      ensures View() == AcsrWritten(u, old(View()), value)
    {
      hide Evaluated, Has, Without, Merged, Writable;
      var writable := Writable(u);
      acsr := Merged(acsr, value, writable);
      if Has(value, u.acif) {
        acsr := Without(acsr, u.acif);
      }
      EvaluateOutput();
    }

    method WriteAccon(value: bv8)
      modifies this
      ensures View() == AcconWritten(u, old(View()), value)
    {
      hide Evaluated, Has, Without, Merged, Writable;
      var was := accon;
      accon := value;
      if u.acd != 0 && !Has(was, u.acd) && Has(accon, u.acd) {
        rawOutput := false;
        outputHigh := false;
      }
      EvaluateOutput();
    }

    /** Pin changes, setters and the bound signal bank all end here. */
    method SetInputs(positive: real, negative: real)
      modifies this
      ensures View() == InputsSet(u, old(View()), positive, negative)
    {
      hide Evaluated, Has, Without, Merged, Writable;
      positiveInput := positive;
      negativeInput := negative;
      EvaluateOutput();
    }

    method ReadAcsr() returns (value: bv8)
      ensures value == if outputHigh && !Disabled(u, View()) then With(acsr, u.aco) else acsr
    {
      hide Has, With;
      value := acsr;
      var disabled := IsDisabled();
      if outputHigh && !disabled {
        value := With(value, u.aco);
      }
    }

    method ConsumeInterruptRequest() returns (requested: bool)
      modifies this`acsr, this`log
      ensures requested == Requests(u, old(View())) && View() == Consumed(u, old(View()))
    {
      hide Has, Without;
      var enabled := Has(acsr, u.acie) || Has(accon, u.acie);
      requested := Has(acsr, u.acif) && enabled;
      if requested {
        acsr := Without(acsr, u.acif);
        if u.attached {
          log := log + [Interrupt(false)];
        }
      }
    }
  }
}
