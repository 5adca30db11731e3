/** The classic ADC: start, abort, complete and restart, and the high-byte latch. */
module ClassicAdc {
  import opened Bits
  import opened Common

  datatype Source = NoSource | FreeRunning | Other(id: nat)

  datatype MuxEntry = MuxEntry(positive: nat, negative: nat, gain: real, differential: bool)

  /** The device descriptor; conversionCycles overrides the timing if it is not 0. */
  datatype Unit = Unit(
    adsc: bv8, adate: bv8, adif: bv8, adie: bv8, aden: bv8, adlar: bv8, adts: bv8, mux5: bv8,
    triggers: seq<Source>, muxTable: seq<MuxEntry>, conversionCycles: nat)

  /** The masks of ADCSRA are disjoint, also from the prescaler bits, and every trigger
      selection has an entry. */
  ghost predicate Proper(u: Unit) {
    && |u.triggers| == 16
    && (forall value: bv8 :: Field(value, u.adts) < 16)
    && u.aden & u.adsc == 0 && u.aden & u.adif == 0
    && u.adate & u.adsc == 0 && u.adate & u.adif == 0
    && 7 & u.adsc == 0 && 7 & u.adif == 0
    && u.adif & u.adsc == 0
  }

  /** What a tick sees of the machine around the converter. */
  datatype Env = Env(vref: real, voltage: nat -> real, powerReduced: bool)

  /** starts, completions and aborts count the conversions so far. */
  datatype Adc = Adc(
    adcsra: bv8, adcsrb: bv8, admux: bv8, result: nat, latched: nat, lowRead: bool,
    converting: bool, remaining: nat, first: bool, source: Source,
    starts: nat, completions: nat, aborts: nat)

  predicate Enabled(u: Unit, a: Adc) { Has(a.adcsra, u.aden) }

  predicate AutoTriggered(u: Unit, a: Adc) { Has(a.adcsra, u.aden) && Has(a.adcsra, u.adate) }

  predicate FreeRuns(u: Unit, a: Adc) { AutoTriggered(u, a) && a.source == FreeRunning }

  function Prescaler(adcsra: bv8): (p: nat)
    ensures 2 <= p <= 128
  {
    match adcsra & 7
    case 0 => 2
    case 1 => 2
    case 2 => 4
    case 3 => 8
    case 4 => 16
    case 5 => 32
    case 6 => 64
    case _ => 128
  }

  /** Cycles of a conversion starting now; the product fits the 16-bit counter. */
  function Duration(u: Unit, adcsra: bv8, first: bool): (n: nat)
    ensures n > 0
  {
    if u.conversionCycles != 0 then u.conversionCycles
    else (if first then 25 else 13) * Prescaler(adcsra)
  }

  function Started(u: Unit, a: Adc): Adc {
    if a.converting then a
    else
      var adcsra := With(a.adcsra, u.adsc);
      a.(converting := true, adcsra := adcsra, remaining := Duration(u, adcsra, a.first), first := false,
         starts := a.starts + 1)
  }

  // ---- measuring ----------------------------------------------------------------------------

  function Reference(admux: bv8, vref: real): real {
    if (admux >> 6) & 3 == 3 then 1.1 else vref
  }

  function MuxChannel(u: Unit, admux: bv8, adcsrb: bv8): nat {
    (admux & 0x1F) as nat + if u.mux5 != 0 && Has(adcsrb, u.mux5) then 32 else 0
  }

  function Mapping(u: Unit, mux: nat): MuxEntry {
    if mux < |u.muxTable| && u.muxTable[mux].positive != 0xFF then u.muxTable[mux]
    else MuxEntry(mux % 64, 0, 1.0, false)
  }

  function Differential(x: real): int { Truncated(Clamped(x * 512.0, -512.0, 511.0)) }

  function SingleEnded(x: real): int { Truncated(Clamped(x * 1024.0, 0.0, 1023.0)) }

  /** Volts on a channel, relative to the reference; some channels are internal. */
  function Relative(u: Unit, mux: nat, env: Env, reference: real): real
    requires reference > 0.0
  {
    var entry := Mapping(u, mux);
    if mux == 0x0E || mux == 0x1E then 1.1 / reference
    else if mux == 0x0F || mux == 0x1F then 0.0
    else if entry.differential then
      (env.voltage(entry.positive) - env.voltage(entry.negative)) * entry.gain / reference
    else env.voltage(entry.positive) / reference
  }

  predicate IsDifferential(u: Unit, mux: nat) {
    Mapping(u, mux).differential && mux != 0x0E && mux != 0x1E && mux != 0x0F && mux != 0x1F
  }

  /** The ten result bits: unsigned, or two's complement for a differential channel. */
  function Measured(u: Unit, admux: bv8, adcsrb: bv8, env: Env): nat {
    var reference := Reference(admux, env.vref);
    if reference <= 0.0 then 0
    else
      var mux := MuxChannel(u, admux, adcsrb);
      var x := Relative(u, mux, env, reference);
      (if IsDifferential(u, mux) then Differential(x) else SingleEnded(x)) % 0x400
  }

  lemma CodeRanges(x: real)
    ensures 0 <= SingleEnded(x) <= 1023 && -512 <= Differential(x) <= 511
  {
  }

  lemma MeasuredTenBits(u: Unit, admux: bv8, adcsrb: bv8, env: Env)
    ensures Measured(u, admux, adcsrb, env) < 0x400
  {
    hide SingleEnded, Differential, Relative, MuxChannel, Reference;
  }

  /** Read as a signed number, a differential result is the clamped, truncated ratio. */
  lemma DifferentialCode(u: Unit, admux: bv8, adcsrb: bv8, env: Env)
    requires Reference(admux, env.vref) > 0.0 && IsDifferential(u, MuxChannel(u, admux, adcsrb))
    ensures var code := Measured(u, admux, adcsrb, env);
            var x := Relative(u, MuxChannel(u, admux, adcsrb), env, Reference(admux, env.vref));
            Differential(x) == if code < 512 then code else code - 1024
  {
    var x := Relative(u, MuxChannel(u, admux, adcsrb), env, Reference(admux, env.vref));
    CodeRanges(x);
    hide SingleEnded, Differential, Relative, MuxChannel, Reference;
  }

  // ---- steps --------------------------------------------------------------------------------

  function Completed(u: Unit, a: Adc, env: Env): Adc {
    var kept := if FreeRuns(u, a) then a.adcsra else Without(a.adcsra, u.adsc);
    var done := a.(result := Measured(u, a.admux, a.adcsrb, env), adcsra := With(kept, u.adif), converting := false, remaining := 0,
                   completions := a.completions + 1);
    if FreeRuns(u, done) then Started(u, done) else done
  }

  function Aborted(a: Adc): Adc {
    if a.converting then a.(converting := false, aborts := a.aborts + 1) else a
  }

  function Ticked(u: Unit, a: Adc, env: Env, elapsed: nat): Adc {
    if env.powerReduced then
      if a.converting then Aborted(a).(adcsra := Without(a.adcsra, u.adsc)) else a
    else if !a.converting then a
    else if elapsed >= a.remaining then Completed(u, a, env)
    else a.(remaining := a.remaining - elapsed)
  }

  function LowByte(u: Unit, a: Adc): nat {
    if Has(a.admux, u.adlar) then a.result % 4 * 64 else a.result % 256
  }

  function HighByte(u: Unit, a: Adc): nat {
    var value := if a.lowRead then a.latched else a.result;
    if Has(a.admux, u.adlar) then value / 4 % 256 else value / 256 % 256
  }

  function ControlStored(u: Unit, adcsra: bv8, value: bv8): bv8 {
    var stored := Merged(adcsra, value, !u.adif);
    if Has(value, u.adif) then Without(stored, u.adif) else stored
  }

  /** Switching the converter on or off; off loses the conversion under way. */
  function EnableChanged(u: Unit, a: Adc, was: bool, now: bool): Adc {
    if now && !was then a.(first := true)
    else if was && !now then Aborted(a).(first := true)
    else a
  }

  function ControlWritten(u: Unit, a: Adc, value: bv8): Adc {
    var adcsra := ControlStored(u, a.adcsra, value);
    var b := EnableChanged(u, a.(adcsra := adcsra), Has(a.adcsra, u.aden), Has(adcsra, u.aden));
    if Has(adcsra, u.adsc) && !Has(a.adcsra, u.adsc) && Has(adcsra, u.aden) then Started(u, b) else b
  }

  function Selected(u: Unit, adcsrb: bv8): Source
    requires Proper(u)
  {
    u.triggers[Field(adcsrb, u.adts) as nat]
  }

  /** The first entry for a source from i on, or the number of entries. */
  function Slot(triggers: seq<Source>, source: Source, i: nat): (k: nat)
    requires i <= |triggers|
    ensures i <= k <= |triggers| && (k < |triggers| ==> triggers[k] == source)
    ensures forall j :: i <= j < k ==> triggers[j] != source
    decreases |triggers| - i
  {
    if i == |triggers| || triggers[i] == source then i else Slot(triggers, source, i + 1)
  }

  function Chosen(u: Unit, a: Adc, source: Source): Adc
    requires Proper(u)
  {
    var k := Slot(u.triggers, source, 0);
    a.(source := source, adcsrb := if k < 16 then Merged(a.adcsrb, k as bv8, u.adts) else a.adcsrb)
  }

  function Triggered(u: Unit, a: Adc, source: Source): Adc {
    if source != NoSource && AutoTriggered(u, a) && source == a.source then Started(u, a) else a
  }

  predicate Requests(u: Unit, a: Adc) {
    Has(a.adcsra, u.adie) && Has(a.adcsra, u.adif)
  }

  class ClassicAdc {
    const u: Unit
    var adcsra: bv8
    var adcsrb: bv8
    var admux: bv8
    var result: nat
    var latchedResult: nat
    var adclRead: bool
    var converting: bool
    var cyclesRemaining: nat
    var firstConversion: bool
    var source: Source
    ghost var starts: nat
    ghost var completions: nat
    ghost var aborts: nat

    ghost function View(): Adc
      reads this
    {
      Adc(adcsra, adcsrb, admux, result, latchedResult, adclRead, converting, cyclesRemaining,
          firstConversion, source, starts, completions, aborts)
    }

    constructor (u: Unit)
      ensures this.u == u
      ensures View() == Adc(0, 0, 0, 0, 0, false, false, 0, true, NoSource, 0, 0, 0)
    {
      this.u := u;
      adcsra, adcsrb, admux, result, latchedResult, adclRead := 0, 0, 0, 0, 0, false;
      converting, cyclesRemaining, firstConversion, source := false, 0, true, NoSource;
      starts, completions, aborts := 0, 0, 0;
    }

    method StartConversion()
      modifies this
      ensures View() == Started(u, old(View()))
    {
      hide With, Prescaler;
      if converting {
        return;
      }
      converting := true;
      adcsra := With(adcsra, u.adsc);
      if u.conversionCycles != 0 {
        cyclesRemaining := u.conversionCycles;
      } else {
        var cycles := if firstConversion then 25 else 13;
        cyclesRemaining := cycles * Prescaler(adcsra);
      }
      firstConversion := false;
      starts := starts + 1;
    }

    method IsFreeRunning() returns (free: bool)
      ensures free == FreeRuns(u, View())
    {
      hide Has;
      free := Has(adcsra, u.aden) && Has(adcsra, u.adate) && source == FreeRunning;
    }

    method CompleteConversion(env: Env)
      requires cyclesRemaining == 0
      modifies this
      ensures View() == Completed(u, old(View()), env)
    {
      hide With, Without, Measured, FreeRuns, Started;
      var value := Measured(u, admux, adcsrb, env);
      var free := IsFreeRunning();
      if !free {
        adcsra := Without(adcsra, u.adsc);
      }
      result := value;
      adcsra := With(adcsra, u.adif);
      converting := false;
      completions := completions + 1;
      free := IsFreeRunning();
      if free {
        StartConversion();
      }
    }

    method Tick(env: Env, elapsed: nat)
      modifies this
      ensures View() == Ticked(u, old(View()), env, elapsed)
    {
      hide Without, FreeRuns, Measured, Started;
      if env.powerReduced {
        if converting {
          converting := false;
          adcsra := Without(adcsra, u.adsc);
          aborts := aborts + 1;
        }
        return;
      }
      if !converting {
        return;
      }
      if elapsed >= cyclesRemaining {
        ghost var before := View();
        cyclesRemaining := 0;
        CompletedOverwrites(u, before, View(), env);
        CompleteConversion(env);
      } else {
        cyclesRemaining := cyclesRemaining - elapsed;
      }
    }

    method ReadAdcl() returns (value: nat)
      modifies this`adclRead, this`latchedResult
      ensures value == LowByte(u, old(View()))
      ensures View() == old(View()).(lowRead := true, latched := old(result))
    {
      hide Has;
      adclRead := true;
      latchedResult := result;
      value := if Has(admux, u.adlar) then result % 4 * 64 else result % 256;
    }

    method ReadAdch() returns (value: nat)
      modifies this`adclRead
      ensures value == HighByte(u, old(View())) && View() == old(View()).(lowRead := false)
    {
      hide Has;
      var latched := if adclRead then latchedResult else result;
      adclRead := false;
      value := if Has(admux, u.adlar) then latched / 4 % 256 else latched / 256 % 256;
    }

    method ChangeEnable(was: bool, now: bool)
      modifies this
      ensures View() == EnableChanged(u, old(View()), was, now)
    {
      if now && !was {
        firstConversion := true;
      } else if !now && was {
        aborts := if converting then aborts + 1 else aborts;
        converting := false;
        firstConversion := true;
      }
    }

    /** ADIF is cleared by writing a one. */
    method StoreControl(value: bv8)
      modifies this`adcsra
      ensures adcsra == ControlStored(u, old(adcsra), value)
    {
      adcsra := Merged(adcsra, value, !u.adif);
      if Has(value, u.adif) {
        adcsra := Without(adcsra, u.adif);
      }
    }

    method WriteAdcsra(value: bv8)
      modifies this
      ensures View() == ControlWritten(u, old(View()), value)
    {
      hide Has, ControlStored, Started, EnableChanged;
      var old_ := adcsra;
      StoreControl(value);
      var now := Has(adcsra, u.aden);
      var begins := Has(adcsra, u.adsc) && !Has(old_, u.adsc) && now;
      ChangeEnable(Has(old_, u.aden), now);
      if begins {
        StartConversion();
      }
    }

    method WriteAdmux(value: bv8)
      modifies this`admux
      ensures View() == old(View()).(admux := value)
    {
      admux := value;
    }

    method WriteAdcsrb(value: bv8)
      requires Proper(u)
      modifies this`adcsrb, this`source
      ensures View() == old(View()).(adcsrb := value, source := Selected(u, value))
    {
      adcsrb := value;
      source := Selected(u, adcsrb);
    }

    method SelectAutoTriggerSource(chosen: Source)
      requires Proper(u)
      modifies this`source, this`adcsrb
      ensures View() == Chosen(u, old(View()), chosen)
    {
      hide Merged, Field;
      source := chosen;
      var i := 0;
      while i < |u.triggers|
        invariant i <= 16 && Slot(u.triggers, chosen, i) == Slot(u.triggers, chosen, 0)
        invariant View() == old(View()).(source := chosen)
      {
        if u.triggers[i] == chosen {
          adcsrb := Merged(adcsrb, i as bv8, u.adts);
          return;
        }
        i := i + 1;
      }
    }

    method NotifyAutoTrigger(trigger: Source)
      modifies this
      ensures View() == Triggered(u, old(View()), trigger)
    {
      hide Has, Started;
      if trigger == NoSource {
        return;
      }
      if Has(adcsra, u.aden) && Has(adcsra, u.adate) && trigger == source {
        StartConversion();
      }
    }

    method ConsumeInterruptRequest() returns (requested: bool)
      modifies this`adcsra
      ensures requested == Requests(u, old(View()))
      ensures View() == if requested then old(View()).(adcsra := Without(old(adcsra), u.adif)) else old(View())
    {
      hide Has, Without;
      requested := Has(adcsra, u.adie) && Has(adcsra, u.adif);
      if requested {
        adcsra := Without(adcsra, u.adif);
      }
    }
  }

  /** Completion does not depend on the count it finds. */
  lemma CompletedOverwrites(u: Unit, a: Adc, b: Adc, env: Env)
    requires b == a.(remaining := 0)
    ensures Completed(u, a, env) == Completed(u, b, env)
  {
    hide Has, With, Without, Measured, Started;
  }
}
