/** What the classic ADC keeps over every run, when its schedule is exact, and what a
    two-byte read of the result returns. */
module ClassicAdcProofs {
  import opened Bits
  import opened Common
  import opened ClassicAdc

  datatype Op =
    | Tick(env: Env, elapsed: nat)
    | Control(value: bv8)
    | Mux(value: bv8)
    | TriggerSelect(value: bv8)
    | Choose(source: Source)
    | Trigger(source: Source)
    | ReadLow
    | ReadHigh
    | Acknowledge

  function Applied(u: Unit, a: Adc, op: Op): Adc
    requires Proper(u)
  {
    match op
    case Tick(env, elapsed) => Ticked(u, a, env, elapsed)
    case Control(value) => ControlWritten(u, a, value)
    case Mux(value) => a.(admux := value)
    case TriggerSelect(value) => a.(adcsrb := value, source := Selected(u, value))
    case Choose(source) => Chosen(u, a, source)
    case Trigger(source) => Triggered(u, a, source)
    case ReadLow => a.(lowRead := true, latched := a.result)
    case ReadHigh => a.(lowRead := false)
    case Acknowledge => if Requests(u, a) then a.(adcsra := Without(a.adcsra, u.adif)) else a
  }

  function Run(u: Unit, a: Adc, ops: seq<Op>): Adc
    requires Proper(u)
  {
    if ops == [] then a else Applied(u, Run(u, a, ops[..|ops| - 1]), ops[|ops| - 1])
  }

  function PowerOn(): Adc { Adc(0, 0, 0, 0, 0, false, false, 0, true, NoSource, 0, 0, 0) }

  // ---- bits ---------------------------------------------------------------------------------

  lemma OtherBits(register: bv8, mask: bv8, other: bv8)
    requires other & mask == 0
    ensures Has(With(register, mask), other) == Has(register, other)
    ensures Has(Without(register, mask), other) == Has(register, other)
    ensures other == 7 ==> Prescaler(With(register, mask)) == Prescaler(register)
  {
    assert (register | mask) & other == register & other;
    assert (register & !mask) & other == register & other;
  }

  /** Starting and completing leave ADEN, ADATE and the prescaler as they are. */
  lemma ModeKept(u: Unit, adcsra: bv8, mask: bv8)
    requires Proper(u) && (mask == u.adsc || mask == u.adif)
    ensures Has(With(adcsra, mask), u.aden) == Has(Without(adcsra, mask), u.aden) == Has(adcsra, u.aden)
    ensures Has(With(adcsra, mask), u.adate) == Has(Without(adcsra, mask), u.adate) == Has(adcsra, u.adate)
    ensures Prescaler(With(adcsra, mask)) == Prescaler(adcsra)
  {
    OtherBits(adcsra, mask, u.aden);
    OtherBits(adcsra, mask, u.adate);
    OtherBits(adcsra, mask, 7);
  }

  // ---- conservation -------------------------------------------------------------------------

  /** Converting implies enabled with cycles to go; every conversion started was completed
      or aborted or is the one under way; the result and the latch have ten bits. */
  predicate Accounted(u: Unit, a: Adc) {
    && (a.converting ==> Enabled(u, a) && a.remaining > 0 && !a.first)
    && a.starts == a.completions + a.aborts + (if a.converting then 1 else 0)
    && a.result < 0x400 && a.latched < 0x400
  }

  lemma StartedAccounted(u: Unit, a: Adc)
    requires Proper(u) && Accounted(u, a) && Enabled(u, a)
    ensures Accounted(u, Started(u, a))
  {
    ModeKept(u, a.adcsra, u.adsc);
    hide Has, With, Duration, Proper;
  }

  /** A completed conversion frees the converter or, free running, starts the next. */
  lemma CompletedShape(u: Unit, a: Adc, env: Env)
    requires Proper(u)
    ensures var n := Completed(u, a, env);
            && n.completions == a.completions + 1 && n.aborts == a.aborts
            && n.result == Measured(u, a.admux, a.adcsrb, env) < 0x400 && n.latched == a.latched
            && Enabled(u, n) == Enabled(u, a)
            && Prescaler(n.adcsra) == Prescaler(a.adcsra)
            && FreeRuns(u, n) == FreeRuns(u, a)
            && n.converting == FreeRuns(u, a)
            && n.starts == a.starts + (if n.converting then 1 else 0)
            && (n.converting ==> n.remaining == Duration(u, a.adcsra, a.first))
  {
    var kept := if FreeRuns(u, a) then a.adcsra else Without(a.adcsra, u.adsc);
    ModeKept(u, a.adcsra, u.adsc);
    ModeKept(u, kept, u.adif);
    ModeKept(u, With(kept, u.adif), u.adsc);
    WithoutPrescaler(a.adcsra, u.adsc);
    MeasuredTenBits(u, a.admux, a.adcsrb, env);
    hide Has, With, Without, Prescaler, Measured, Proper;
  }

  lemma WithoutPrescaler(register: bv8, mask: bv8)
    requires 7 & mask == 0
    ensures Prescaler(Without(register, mask)) == Prescaler(register)
  {
    assert (register & !mask) & 7 == register & 7;
  }

  lemma AppliedAccounted(u: Unit, a: Adc, op: Op)
    requires Proper(u) && Accounted(u, a)
    ensures Accounted(u, Applied(u, a, op))
  {
    match op
    case Tick(env, elapsed) => TickedAccounted(u, a, env, elapsed);
    case Control(value) => WrittenAccounted(u, a, value);
    case Trigger(source) =>
      hide Has, Proper, Started;
      if Enabled(u, a) {
        StartedAccounted(u, a);
      }
    case Acknowledge => OtherBits(a.adcsra, u.adif, u.aden);
    case _ => hide Chosen, Selected, Proper;
  }

  lemma TickedAccounted(u: Unit, a: Adc, env: Env, elapsed: nat)
    requires Proper(u) && Accounted(u, a)
    ensures Accounted(u, Ticked(u, a, env, elapsed))
  {
    CompletedShape(u, a, env);
    RestartsLater(u, a, env);
    hide Has, Without, Completed, Measured, Prescaler, Proper;
  }

  lemma RestartsLater(u: Unit, a: Adc, env: Env)
    ensures Completed(u, a, env).converting ==> !Completed(u, a, env).first
  {
    hide Has, With, Without, Measured, FreeRuns, Duration;
  }

  lemma WrittenAccounted(u: Unit, a: Adc, value: bv8)
    requires Proper(u) && Accounted(u, a)
    ensures Accounted(u, ControlWritten(u, a, value))
  {
    hide Has, ControlStored, Proper, Started;
    var adcsra := ControlStored(u, a.adcsra, value);
    var b := EnableChanged(u, a.(adcsra := adcsra), Has(a.adcsra, u.aden), Has(adcsra, u.aden));
    assert Accounted(u, b);
    if Has(adcsra, u.aden) {
      StartedAccounted(u, b);
    }
  }

  /** In every run, of any length and from power-on. */
  lemma {:induction false} AlwaysAccounted(u: Unit, ops: seq<Op>)
    requires Proper(u)
    ensures Accounted(u, Run(u, PowerOn(), ops))
  {
    hide Applied, Proper, Enabled;
    if ops != [] {
      AlwaysAccounted(u, ops[..|ops| - 1]);
      AppliedAccounted(u, Run(u, PowerOn(), ops[..|ops| - 1]), ops[|ops| - 1]);
    }
  }

  // ---- splitting a tick ---------------------------------------------------------------------

  lemma CompletedIgnoresCount(u: Unit, a: Adc, n: nat, env: Env)
    ensures Completed(u, a.(remaining := n), env) == Completed(u, a, env)
  {
    hide Has, With, Without, Measured, Started;
  }

  /** Two ticks are one exactly when no restart falls between them: a free-running restart
      drops the cycles the tick had left over. */
  lemma SplitExact(u: Unit, a: Adc, env: Env, x: nat, y: nat)
    requires Proper(u) && Accounted(u, a)
    ensures Ticked(u, Ticked(u, a, env, x), env, y) == Ticked(u, a, env, x + y)
            <==> (env.powerReduced || !a.converting || !FreeRuns(u, a) || x < a.remaining || y == 0)
  {
    assert a.converting ==> a.remaining > 0;
    hide Ticked, FreeRuns, Accounted, Proper;
    if env.powerReduced || !a.converting {
      SplitIdle(u, a, env, x, y);
    } else if x < a.remaining {
      SplitBefore(u, a, env, x, y);
    } else {
      SplitAfter(u, a, env, x, y);
    }
  }

  lemma SplitIdle(u: Unit, a: Adc, env: Env, x: nat, y: nat)
    requires env.powerReduced || !a.converting
    ensures Ticked(u, Ticked(u, a, env, x), env, y) == Ticked(u, a, env, x + y)
  {
    hide Without, Completed;
  }

  lemma SplitBefore(u: Unit, a: Adc, env: Env, x: nat, y: nat)
    requires !env.powerReduced && a.converting && x < a.remaining
    ensures Ticked(u, Ticked(u, a, env, x), env, y) == Ticked(u, a, env, x + y)
  {
    CompletedIgnoresCount(u, a, a.remaining - x, env);
    hide Without, Completed;
  }

  lemma SplitAfter(u: Unit, a: Adc, env: Env, x: nat, y: nat)
    requires Proper(u) && Accounted(u, a) && !env.powerReduced && a.converting && a.remaining <= x
    ensures Ticked(u, Ticked(u, a, env, x), env, y) == Ticked(u, a, env, x + y) <==> !FreeRuns(u, a) || y == 0
  {
    var n := Completed(u, a, env);
    assert Ticked(u, a, env, x) == n && Ticked(u, a, env, x + y) == n;
    CompletedShape(u, a, env);
    CompletedShape(u, n, env);
    hide Without, Completed, Measured, Prescaler, Proper, FreeRuns, Accounted, Enabled;
  }

  // ---- free-running schedule ----------------------------------------------------------------

  datatype Slice = Slice(env: Env, elapsed: nat)

  function TickAll(u: Unit, a: Adc, slices: seq<Slice>): Adc
    decreases |slices|
  {
    if slices == [] then a else TickAll(u, Ticked(u, a, slices[0].env, slices[0].elapsed), slices[1..])
  }

  function Total(slices: seq<Slice>): nat
    decreases |slices|
  {
    if slices == [] then 0 else slices[0].elapsed + Total(slices[1..])
  }

  /** Powered, and no tick longer than the count it finds. */
  predicate Fine(u: Unit, a: Adc, slices: seq<Slice>)
    decreases |slices|
  {
    slices == [] || (!slices[0].env.powerReduced && slices[0].elapsed <= a.remaining
                     && Fine(u, Ticked(u, a, slices[0].env, slices[0].elapsed), slices[1..]))
  }

  lemma FreeRunStep(u: Unit, a: Adc, env: Env, elapsed: nat)
    requires Proper(u) && Accounted(u, a) && FreeRuns(u, a) && a.converting && u.conversionCycles == 0
    requires !env.powerReduced && elapsed <= a.remaining
    ensures var n := Ticked(u, a, env, elapsed);
            && Accounted(u, n) && FreeRuns(u, n) && n.converting
            && Prescaler(n.adcsra) == Prescaler(a.adcsra)
            && (if elapsed < a.remaining
                then n.completions == a.completions && n.remaining == a.remaining - elapsed
                else n.completions == a.completions + 1 && n.remaining == 13 * Prescaler(a.adcsra))
  {
    CompletedShape(u, a, env);
    TickedAccounted(u, a, env, elapsed);
    hide Has, Without, Completed, Measured, Prescaler, Proper;
  }

  lemma {:induction false} FreeRunCount(u: Unit, a: Adc, slices: seq<Slice>)
    requires Proper(u) && Accounted(u, a) && FreeRuns(u, a) && a.converting && u.conversionCycles == 0
    requires Fine(u, a, slices)
    ensures TickAll(u, a, slices).completions
            == a.completions + ResultsDue(true, a.remaining, 13 * Prescaler(a.adcsra), Total(slices))
    decreases |slices|
  {
    hide Ticked, Proper, FreeRuns, Prescaler, Quotient, Enabled;
    if slices != [] {
      var n := Ticked(u, a, slices[0].env, slices[0].elapsed);
      FreeRunStep(u, a, slices[0].env, slices[0].elapsed);
      FreeRunCount(u, n, slices[1..]);
      DueAdvance(true, a.remaining, 13 * Prescaler(a.adcsra), slices[0].elapsed, Total(slices[1..]));
    }
  }

  /** From the write that enables a free-running converter on, however the time is sliced:
      the k-th conversion completes (25 + 13 * (k - 1)) prescaled clocks later. */
  lemma FreeRunSchedule(u: Unit, a: Adc, value: bv8, slices: seq<Slice>, k: nat)
    requires Proper(u) && Accounted(u, a) && !Enabled(u, a) && !Has(a.adcsra, u.adsc)
    requires u.conversionCycles == 0 && a.source == FreeRunning
    requires var stored := ControlStored(u, a.adcsra, value);
             Has(stored, u.aden) && Has(stored, u.adsc) && Has(stored, u.adate)
    requires Fine(u, ControlWritten(u, a, value), slices) && k >= 1
    ensures var n := TickAll(u, ControlWritten(u, a, value), slices);
            n.completions >= a.completions + k
            <==> Total(slices) >= (25 + 13 * (k - 1)) * Prescaler(ControlStored(u, a.adcsra, value))
  {
    var stored := ControlStored(u, a.adcsra, value);
    var n := ControlWritten(u, a, value);
    EnabledStart(u, a, value);
    FreeRunCount(u, n, slices);
    hide ControlWritten, ControlStored, TickAll, Total, Fine, Has, Proper, FreeRuns, Prescaler;
    var p := Prescaler(stored);
    DueReaches(25 * p, 13 * p, Total(slices), k);
    assert 25 * p + (k - 1) * (13 * p) == (25 + 13 * (k - 1)) * p;
  }

  lemma EnabledStart(u: Unit, a: Adc, value: bv8)
    requires Proper(u) && Accounted(u, a) && !Enabled(u, a) && !Has(a.adcsra, u.adsc)
    requires u.conversionCycles == 0 && a.source == FreeRunning
    requires var stored := ControlStored(u, a.adcsra, value);
             Has(stored, u.aden) && Has(stored, u.adsc) && Has(stored, u.adate)
    ensures var n, p := ControlWritten(u, a, value), Prescaler(ControlStored(u, a.adcsra, value));
            && Accounted(u, n) && FreeRuns(u, n) && n.converting && n.completions == a.completions
            && n.remaining == 25 * p && Prescaler(n.adcsra) == p
  {
    WrittenAccounted(u, a, value);
    ModeKept(u, ControlStored(u, a.adcsra, value), u.adsc);
    hide Has, With, ControlStored, Proper, Prescaler;
  }

  lemma DueReaches(first: nat, round: nat, k: nat, n: nat)
    requires round > 0 && n >= 1
    ensures ResultsDue(true, first, round, k) >= n <==> k >= first + (n - 1) * round
  {
    if k >= first {
      DivAtLeast(k - first, round, n - 1);
    } else {
      MulMonotone(0, n - 1, round);
    }
  }

  // ---- two-byte reads -----------------------------------------------------------------------

  /** Anything but a read of the result or a change of its alignment. */
  predicate Undisturbing(u: Unit, op: Op, left: bool) {
    !op.ReadLow? && !op.ReadHigh? && (op.Mux? ==> Has(op.value, u.adlar) == left)
  }

  lemma LatchKept(u: Unit, a: Adc, op: Op)
    requires Proper(u) && Undisturbing(u, op, Has(a.admux, u.adlar))
    ensures var n := Applied(u, a, op);
            n.lowRead == a.lowRead && n.latched == a.latched && Has(n.admux, u.adlar) == Has(a.admux, u.adlar)
  {
    hide Has, Without, Ticked, ControlWritten, Triggered, Slot, Merged, Selected, Proper, Requests;
    match op
    case Tick(env, elapsed) => TickKeepsLatch(u, a, env, elapsed);
    case Control(value) => WriteKeepsLatch(u, a, value);
    case Trigger(source) => TriggerKeepsLatch(u, a, source);
    case _ =>
  }

  lemma TickKeepsLatch(u: Unit, a: Adc, env: Env, elapsed: nat)
    ensures var n := Ticked(u, a, env, elapsed);
            n.lowRead == a.lowRead && n.latched == a.latched && n.admux == a.admux
  {
    hide Without, Completed;
    CompletedKeepsLatch(u, a, env);
  }

  lemma TriggerKeepsLatch(u: Unit, a: Adc, source: Source)
    ensures var n := Triggered(u, a, source); n.lowRead == a.lowRead && n.latched == a.latched && n.admux == a.admux
  {
    hide Started, AutoTriggered;
    StartedKeepsLatch(u, a);
  }

  lemma WriteKeepsLatch(u: Unit, a: Adc, value: bv8)
    ensures var n := ControlWritten(u, a, value);
            n.lowRead == a.lowRead && n.latched == a.latched && n.admux == a.admux
  {
    hide Has, Started, ControlStored, EnableChanged;
    var stored := a.(adcsra := ControlStored(u, a.adcsra, value));
    EnableKeepsLatch(u, stored, Has(a.adcsra, u.aden), Has(stored.adcsra, u.aden));
    StartedKeepsLatch(u, EnableChanged(u, stored, Has(a.adcsra, u.aden), Has(stored.adcsra, u.aden)));
  }

  lemma StartedKeepsLatch(u: Unit, a: Adc)
    ensures var n := Started(u, a); n.lowRead == a.lowRead && n.latched == a.latched && n.admux == a.admux
  {
    hide With, Duration;
  }

  lemma CompletedKeepsLatch(u: Unit, a: Adc, env: Env)
    ensures var n := Completed(u, a, env); n.lowRead == a.lowRead && n.latched == a.latched && n.admux == a.admux
  {
    hide Has, With, Without, Duration, Measured, FreeRuns;
  }

  lemma EnableKeepsLatch(u: Unit, a: Adc, was: bool, now: bool)
    ensures var n := EnableChanged(u, a, was, now); n.lowRead == a.lowRead && n.latched == a.latched && n.admux == a.admux
  {
  }

  lemma {:induction false} LatchHeld(u: Unit, a: Adc, ops: seq<Op>)
    requires Proper(u) && forall i :: 0 <= i < |ops| ==> Undisturbing(u, ops[i], Has(a.admux, u.adlar))
    ensures var n := Run(u, a, ops);
            n.lowRead == a.lowRead && n.latched == a.latched && Has(n.admux, u.adlar) == Has(a.admux, u.adlar)
  {
    hide Applied, Has, Proper;
    if ops != [] {
      LatchHeld(u, a, ops[..|ops| - 1]);
      LatchKept(u, Run(u, a, ops[..|ops| - 1]), ops[|ops| - 1]);
    }
  }

  /** The result the two bytes spell in the alignment of ADLAR. */
  function Spelt(left: bool, low: nat, high: nat): nat {
    if left then (high * 256 + low) / 64 else high * 256 + low
  }

  /** The low byte read now and the high byte read later are the ten bits held now, whatever
      ticks, conversions, triggers and writes come between. */
  lemma CoherentRead(u: Unit, before: seq<Op>, between: seq<Op>)
    requires Proper(u)
    requires var a := Run(u, PowerOn(), before);
             forall i :: 0 <= i < |between| ==> Undisturbing(u, between[i], Has(a.admux, u.adlar))
    ensures var a := Run(u, PowerOn(), before);
            var low := LowByte(u, a);
            var high := HighByte(u, Run(u, Applied(u, a, ReadLow), between));
            && low < 256 && high < 256 && Spelt(Has(a.admux, u.adlar), low, high) == a.result
            && (Has(a.admux, u.adlar) ==> low % 64 == 0)
  {
    AlwaysAccounted(u, before);
    var a := Run(u, PowerOn(), before);
    LatchHeld(u, Applied(u, a, ReadLow), between);
    assert a.result < 0x400;
    hide Run, Has, Proper, Accounted;
    if Has(a.admux, u.adlar) {
      LeftBytes(a.result);
    } else {
      RightBytes(a.result);
    }
  }

  lemma LeftBytes(n: nat)
    requires n < 0x400
    ensures n % 4 * 64 < 256 && n / 4 % 256 < 256 && Spelt(true, n % 4 * 64, n / 4 % 256) == n
    ensures n % 4 * 64 % 64 == 0
  {
  }

  lemma RightBytes(n: nat)
    requires n < 0x400
    ensures n % 256 < 256 && n / 256 % 256 < 256 && Spelt(false, n % 256, n / 256 % 256) == n
  {
  }

  // ---- trigger selection --------------------------------------------------------------------

  /** A source selected by name survives a rewrite of the register exactly if it has an entry
      and that is the first, or ADTS starts at bit 0 and has room for its number. */
  lemma SelectionExact(u: Unit, a: Adc, source: Source)
    requires Proper(u)
    ensures var k := Slot(u.triggers, source, 0);
            Selected(u, Chosen(u, a, source).adcsrb) == source
            <==> k < 16 && (k == 0 || (u.adts & 1 == 1 && k as bv8 & u.adts == k as bv8))
  {
    var k := Slot(u.triggers, source, 0);
    if k < 16 {
      EntryDecoded(u, a, source);
      EntrySurvives(u, source);
    } else {
      assert Selected(u, Chosen(u, a, source).adcsrb) in u.triggers;
    }
    hide Slot, Selected, Field, Chosen, Proper;
  }

  /** Decoding reaches the source's own entry or an earlier one, which is another's. */
  lemma EntrySurvives(u: Unit, source: Source)
    requires Proper(u) && Slot(u.triggers, source, 0) < 16
    ensures var k := Slot(u.triggers, source, 0);
            u.triggers[Field(k as bv8, u.adts) as nat] == source
            <==> k == 0 || (u.adts & 1 == 1 && k as bv8 & u.adts == k as bv8)
  {
    hide Slot, Field;
    var k := Slot(u.triggers, source, 0);
    FieldOfItself(k as bv8, u.adts);
    var j := Field(k as bv8, u.adts) as nat;
    assert j <= k && (j == k <==> Field(k as bv8, u.adts) == k as bv8);
    assert j < k ==> u.triggers[j] != source;
  }

  lemma EntryDecoded(u: Unit, a: Adc, source: Source)
    requires Proper(u) && Slot(u.triggers, source, 0) < 16
    ensures var k := Slot(u.triggers, source, 0);
            Selected(u, Chosen(u, a, source).adcsrb) == u.triggers[Field(k as bv8, u.adts) as nat]
  {
    hide Slot, Merged, Field, Selected;
    var entry := Slot(u.triggers, source, 0) as bv8;
    MergedField(a.adcsrb, entry, u.adts);
    DecodesAlike(u, Chosen(u, a, source).adcsrb, entry);
  }

  lemma DecodesAlike(u: Unit, x: bv8, y: bv8)
    requires Proper(u) && Field(x, u.adts) == Field(y, u.adts)
    ensures Selected(u, x) == u.triggers[Field(y, u.adts) as nat]
  {
    hide Field;
  }

  lemma MergedField(register: bv8, value: bv8, mask: bv8)
    ensures Field(Merged(register, value, mask), mask) == Field(value, mask)
  {
    assert Merged(register, value, mask) & mask == value & mask;
    hide Merged, Lowest;
  }

  /** With ADTS anywhere above bit 0, every source but that of the first entry is lost. */
  lemma ShiftedSelectionLost(u: Unit, a: Adc, source: Source)
    requires Proper(u) && u.adts & 1 == 0 && Slot(u.triggers, source, 0) > 0
    ensures Selected(u, Chosen(u, a, source).adcsrb) != source
  {
    SelectionExact(u, a, source);
    hide Slot, Selected, Chosen, Proper;
  }

  // ---- runs from power-on -------------------------------------------------------------------

  /** The ATmega328P: seven sources after free running, and `none` in entries 8 to 15. */
  const ATMEGA328P := Unit(
    0x40, 0x20, 0x10, 0x08, 0x80, 0x20, 0x07, 0x20,
    [FreeRunning, Other(1), Other(2), Other(3), Other(4), Other(5), Other(6), Other(7),
     NoSource, NoSource, NoSource, NoSource, NoSource, NoSource, NoSource, NoSource], [], 0)

  lemma Atmega328pProper()
    ensures Proper(ATMEGA328P)
  {
    LowestZero(0x07);
    assert Lowest(0x07) == 0;
    forall value: bv8 ensures Field(value, 0x07) < 16 {
      assert (value & 0x07) >> 0 == value & 0x07 <= 7;
    }
    hide Lowest;
  }

  lemma NoneSlot()
    ensures Slot(ATMEGA328P.triggers, NoSource, 0) == 8
  {
    var k := Slot(ATMEGA328P.triggers, NoSource, 0);
    assert ATMEGA328P.triggers[8] == NoSource;
    assert k >= 8 by {
      forall j | 0 <= j < 8 ensures ATMEGA328P.triggers[j] != NoSource {}
    }
    hide Slot;
  }

  /** On the ATmega328P, no trigger is selected, ADCSRB is stored back as it reads, and the
      converter is set to free running. */
  lemma NoneBecomesFreeRunning()
    ensures Proper(ATMEGA328P)
    ensures var a := Run(ATMEGA328P, PowerOn(), [Choose(NoSource)]);
            a.source == NoSource && Applied(ATMEGA328P, a, TriggerSelect(a.adcsrb)).source == FreeRunning
  {
    Atmega328pProper();
    NoneSlot();
    var u := ATMEGA328P;
    var a := Run(u, PowerOn(), [Choose(NoSource)]);
    assert Run(u, PowerOn(), []) == PowerOn() && [Choose(NoSource)][..0] == [];
    assert a == Chosen(u, PowerOn(), NoSource);
    EntryDecoded(u, PowerOn(), NoSource);
    FieldOfEight();
    hide Slot, Field, Merged, Proper, Run;
  }

  lemma FieldOfEight()
    ensures Field(8, 0x07) == 0 && Field(0, 0x07) == 0
  {
    LowestZero(0x07);
    assert (8 as bv8) & 0x07 == 0 && (0 as bv8) & 0x07 == 0;
    hide Lowest;
  }

  /** Free running from power-on, the first conversion takes 50 cycles. A tick of 51 drops
      the last of them, and one of 50 and one of 1 do not. */
  lemma SplitLosesCycle(env: Env)
    requires !env.powerReduced
    ensures Proper(ATMEGA328P)
    ensures var u := ATMEGA328P;
            var a := Run(u, PowerOn(), [TriggerSelect(0), Control(0xE0)]);
            Ticked(u, Ticked(u, a, env, 50), env, 1) != Ticked(u, a, env, 50 + 1)
  {
    Atmega328pProper();
    var u, ops := ATMEGA328P, [TriggerSelect(0), Control(0xE0)];
    var a := Run(u, PowerOn(), ops);
    FreeRunningFromPowerOn();
    assert Run(u, PowerOn(), ops[..1]) == Applied(u, PowerOn(), ops[0]) by {
      assert ops[..1][..0] == [] && Run(u, PowerOn(), []) == PowerOn();
    }
    SplitExact(u, a, env, 50, 1);
    hide Proper, Ticked, ControlWritten, FreeRuns, Accounted, Selected;
  }

  lemma FreeRunningFromPowerOn()
    requires Proper(ATMEGA328P)
    ensures var u := ATMEGA328P;
            var a := ControlWritten(u, PowerOn().(adcsrb := 0, source := Selected(u, 0)), 0xE0);
            Accounted(u, a) && FreeRuns(u, a) && a.converting && a.remaining == 50
  {
    var u := ATMEGA328P;
    var idle := PowerOn().(adcsrb := 0, source := Selected(u, 0));
    FieldOfEight();
    assert idle.source == FreeRunning;
    assert ControlStored(u, 0, 0xE0) == 0xE0 && Prescaler(0xE0) == 2;
    assert Has(0xE0, u.aden) && Has(0xE0, u.adsc) && Has(0xE0, u.adate);
    assert Accounted(u, idle) && !Enabled(u, idle) && !Has(0, u.adsc);
    EnabledStart(u, idle, 0xE0);
    hide Proper, ControlWritten, ControlStored, Accounted, Selected, Has, Field;
  }
}
