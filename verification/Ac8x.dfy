/** The AVR8X analog comparator: hysteresis, and an output that follows the comparison
    after a settle count. */
module Ac8xEngine {
  import opened Bits

  /** delay is PROPAGATION_DELAY (0 in the simulator as it stands); published says
      whether the output is wired to an event generator. */
  datatype Unit = Unit(delay: nat, published: bool, positiveBase: nat, negativeBase: nat)

  /** Channel voltages, if a bank is attached, and the DAC reference. */
  datatype Env = Env(attached: bool, voltage: nat -> real, vref: real)

  /** log lists the levels published as events. */
  datatype Ac = Ac(
    ctrla: bv8, muxctrla: bv8, dacctrla: bv8, intctrl: bv8, status: bv8,
    next: bool, settle: nat, log: seq<bool>)

  const STATE: bv8 := 0x10
  const CMP: bv8 := 0x01

  predicate Enabled(a: Ac) { Has(a.ctrla, 0x81) }

  predicate Output(a: Ac) { Has(a.status, STATE) }

  predicate Inverted(a: Ac) { Has(a.muxctrla, 0x80) }

  function Hysteresis(ctrla: bv8): (h: real)
    ensures h >= 0.0
  {
    match (ctrla >> 1) & 3
    case 0 => 0.0
    case 1 => 0.010
    case 2 => 0.025
    case _ => 0.050
  }

  function Delay(u: Unit, a: Ac): nat {
    if Has(a.ctrla, 0x08) then u.delay * 4 else u.delay
  }

  function Positive(u: Unit, a: Ac, env: Env): real {
    if env.attached then env.voltage(u.positiveBase + ((a.muxctrla >> 3) & 7) as nat) else 0.0
  }

  function Negative(u: Unit, a: Ac, env: Env): real {
    if !env.attached then 0.0
    else if a.muxctrla & 3 == 3 then (a.dacctrla as nat) as real * env.vref / 256.0
    else env.voltage(u.negativeBase + (a.muxctrla & 3) as nat)
  }

  /** The comparison with hysteresis, given the output it comes from. */
  function Compared(a: Ac, p: real, n: real): bool {
    var was := Output(a) != Inverted(a);
    var above := if was then p > n - Hysteresis(a.ctrla) else p > n + Hysteresis(a.ctrla);
    above != Inverted(a)
  }

  predicate Triggers(a: Ac, level: bool) {
    match (a.ctrla >> 4) & 3
    case 1 => level
    case 2 => !level
    case _ => true
  }

  /** The output takes the compared level. */
  function Settled(u: Unit, a: Ac, level: bool): Ac {
    var status := if level then With(a.status, STATE) else Without(a.status, STATE);
    a.(next := level, settle := 0,
       status := if Triggers(a, level) then With(status, CMP) else status,
       log := if u.published then a.log + [level] else a.log)
  }

  /** One tick on which the inputs are p and n; elapsed cycles do not matter. */
  function Ticked(u: Unit, a: Ac, p: real, n: real): Ac {
    if !Enabled(a) then a
    else
      var level := Compared(a, p, n);
      if level == Output(a) then a.(next := level, settle := 0)
      else if a.settle > 1 then a.(next := level, settle := a.settle - 1)
      else if a.settle == 0 && Delay(u, a) > 0 then a.(next := level, settle := Delay(u, a))
      else Settled(u, a, level)
  }

  datatype Register = CtrlA | MuxCtrlA | DacCtrlA | IntCtrl | Status

  function Written(a: Ac, reg: Register, value: bv8): Ac {
    match reg
    case CtrlA => a.(ctrla := value)
    case MuxCtrlA => a.(muxctrla := value)
    case DacCtrlA => a.(dacctrla := value)
    case IntCtrl => a.(intctrl := value)
    case Status => if Has(value, CMP) then a.(status := Without(a.status, CMP)) else a
  }

  predicate Requests(a: Ac) {
    Has(a.intctrl, 0x01) && Has(a.status, CMP)
  }

  function Consumed(a: Ac): Ac {
    if Requests(a) then a.(status := Without(a.status, CMP)) else a
  }

  function PowerOn(): Ac {
    Ac(0, 0, 0xFF, 0, 0, false, 0, [])
  }

  class Ac8x {
    const u: Unit
    var ctrla: bv8
    var muxctrla: bv8
    var dacctrla: bv8
    var intctrl: bv8
    var status: bv8
    var pendingState: bool
    var settleCounter: nat
    ghost var log: seq<bool>

    ghost function View(): Ac
      reads this
    {
      Ac(ctrla, muxctrla, dacctrla, intctrl, status, pendingState, settleCounter, log)
    }

    constructor (u: Unit)
      ensures View() == PowerOn() && this.u == u
    {
      this.u := u;
      ctrla, muxctrla, dacctrla, intctrl, status := 0, 0, 0xFF, 0, 0;
      pendingState, settleCounter, log := false, 0, [];
    }

    method ReadInputs(env: Env) returns (p: real, n: real)
      ensures p == Positive(u, View(), env) && n == Negative(u, View(), env)
    {
      p, n := 0.0, 0.0;
      if env.attached {
        p := env.voltage(u.positiveBase + ((muxctrla >> 3) & 7) as nat);
        if muxctrla & 3 == 3 {
          n := (dacctrla as nat) as real * env.vref / 256.0;
        } else {
          n := env.voltage(u.negativeBase + (muxctrla & 3) as nat);
        }
      }
    }

    method Evaluate(env: Env)
      modifies this`pendingState
      ensures var a := old(View());
              View() == a.(next := Compared(a, Positive(u, a, env), Negative(u, a, env)))
    {
      hide Has, Hysteresis, Positive, Negative;
      var p, n := ReadInputs(env);
      var hystState := Has(status, STATE);
      if Has(muxctrla, 0x80) {
        hystState := !hystState;
      }
      if hystState {
        pendingState := p > n - Hysteresis(ctrla);
      } else {
        pendingState := p > n + Hysteresis(ctrla);
      }
      if Has(muxctrla, 0x80) {
        pendingState := !pendingState;
      }
    }

    /** The end of a tick on which the settle count has run out. */
    method Settle()
      requires settleCounter == 0 && pendingState != Has(status, STATE)
      modifies this`status, this`log
      ensures View() == Settled(u, old(View()), pendingState)
    {
      hide Has, With, Without;
      var oldState := Has(status, STATE);
      status := if pendingState then With(status, STATE) else Without(status, STATE);
      var trigger := false;
      match (ctrla >> 4) & 3 {
        case 0 => trigger := true;
        case 1 => trigger := pendingState && !oldState;
        case 2 => trigger := !pendingState && oldState;
        case _ => trigger := true;
      }
      if trigger {
        status := With(status, CMP);
      }
      if u.published {
        log := log + [pendingState];
      }
    }

    method Tick(env: Env)
      modifies this
      ensures var a := old(View());
              View() == Ticked(u, a, Positive(u, a, env), Negative(u, a, env))
    {
      hide Has, Compared, Settled, Positive, Negative;
      if !Has(ctrla, 0x81) {
        return;
      }
      Evaluate(env);
      if pendingState == Has(status, STATE) {
        settleCounter := 0;
        return;
      }
      var delay := u.delay;
      if Has(ctrla, 0x08) {
        delay := u.delay * 4;
      }
      if settleCounter > 0 {
        settleCounter := settleCounter - 1;
        if settleCounter > 0 {
          return;
        }
      } else {
        settleCounter := delay;
        if settleCounter > 0 {
          return;
        }
      }
      SettledByRegisters(u, old(View()), View(), pendingState);
      Settle();
    }

    /** A request on the event user channel only compares. */
    method OnUserEvent(env: Env)
      modifies this`pendingState
      ensures var a := old(View());
              View() == if Enabled(a) then a.(next := Compared(a, Positive(u, a, env), Negative(u, a, env))) else a
    {
      hide Has, Compared, Positive, Negative;
      if Has(ctrla, 0x81) {
        Evaluate(env);
      }
    }

    method Write(reg: Register, value: bv8)
      modifies this
      ensures View() == Written(old(View()), reg, value)
    {
      hide Has, Without;
      match reg
      case CtrlA => ctrla := value;
      case MuxCtrlA => muxctrla := value;
      case DacCtrlA => dacctrla := value;
      case IntCtrl => intctrl := value;
      case Status => if Has(value, CMP) { status := Without(status, CMP); }
    }

    method ConsumeInterruptRequest() returns (requested: bool)
      modifies this`status
      ensures requested == Requests(old(View())) && View() == Consumed(old(View()))
    {
      hide Has, Without;
      requested := Has(intctrl, 0x01) && Has(status, CMP);
      if requested {
        status := Without(status, CMP);
      }
    }
  }

  /** Settling overwrites the compared level and the count, so they do not matter. */
  lemma SettledByRegisters(u: Unit, a: Ac, b: Ac, level: bool)
    requires b == a.(next := b.next, settle := b.settle)
    ensures Settled(u, a, level) == Settled(u, b, level)
  {
    hide Has, With, Without;
  }
}
