/** The settings of the classic converter by their values: which result an input gives, how long a
    conversion takes, and what a write of its control register stores. */
module ClassicAdcValues {
  import opened Bits
  import opened Common
  import opened ClassicAdc
  import opened ClassicAdcProofs

  // ---- single-ended results -----------------------------------------------------------------

  lemma TruncatedAtLeast(y: real, k: nat)
    requires 1 <= k <= 1023
    ensures Truncated(Clamped(y, 0.0, 1023.0)) >= k <==> y.Floor >= k
  {
  }

  lemma SingleSteps(v: real, ref: real, k: nat)
    requires ref > 0.0 && k <= 1023
    ensures SingleEnded(v / ref) == k
            <==> (k == 0 || v * 1024.0 >= k as real * ref) && (k == 1023 || v * 1024.0 < (k + 1) as real * ref)
  {
    CodeRanges(v / ref);
    var y := v / ref * 1024.0;
    assert SingleEnded(v / ref) == Truncated(Clamped(y, 0.0, 1023.0));
    hide SingleEnded, Truncated, Clamped;
    if k > 0 {
      TruncatedAtLeast(y, k);
      FloorAtLeast(v, ref, 1024.0, k);
    }
    if k < 1023 {
      TruncatedAtLeast(y, k + 1);
      FloorAtLeast(v, ref, 1024.0, k + 1);
    }
  }

  lemma ReferenceExact(admux: bv8, vref: real)
    ensures Reference(admux, vref) == if admux & 0xC0 == 0xC0 then 1.1 else vref
  {
  }

  /** The number of the selected channel. */
  predicate IsSelected(u: Unit, a: Adc, mux: nat) {
    mux == (a.admux & 0x1F) as nat + (if u.mux5 != 0 && Has(a.adcsrb, u.mux5) then 32 else 0)
  }

  lemma MuxExact(u: Unit, a: Adc, mux: nat)
    requires IsSelected(u, a, mux)
    ensures MuxChannel(u, a.admux, a.adcsrb) == mux < 64
  {
    hide Has;
  }

  /** The volts on a single-ended channel; some channels are internal. */
  predicate Carries(u: Unit, env: Env, mux: nat, v: real) {
    if mux == 0x0E || mux == 0x1E then v == 1.1
    else if mux == 0x0F || mux == 0x1F then v == 0.0
    else if mux < |u.muxTable| && u.muxTable[mux].positive != 0xFF then
      !u.muxTable[mux].differential && v == env.voltage(u.muxTable[mux].positive)
    else v == env.voltage(mux)
  }

  lemma SingleEndedRatio(u: Unit, env: Env, mux: nat, v: real, ref: real)
    requires Carries(u, env, mux, v) && ref > 0.0 && mux < 64
    ensures Relative(u, mux, env, ref) == v / ref && !IsDifferential(u, mux)
  {
    assert 0.0 / ref == 0.0;
  }

  lemma SingleEndedMeasured(u: Unit, a: Adc, env: Env, mux: nat, v: real, ref: real)
    requires IsSelected(u, a, mux) && Carries(u, env, mux, v)
    requires ref > 0.0 && ref == if a.admux & 0xC0 == 0xC0 then 1.1 else env.vref
    ensures Measured(u, a.admux, a.adcsrb, env) == SingleEnded(v / ref)
  {
    ReferenceExact(a.admux, env.vref);
    MuxExact(u, a, mux);
    CodeRanges(v / ref);
    hide SingleEnded, Differential, Reference, MuxChannel, Relative, IsDifferential, IsSelected, Carries, Has;
    SingleEndedRatio(u, env, mux, v, ref);
  }

  /** With v volts on a single-ended channel and ref volts of reference, the result is k exactly if
      v is in the k-th of 1024 steps of the reference; 0 takes all below and 1023 all above. */
  lemma SingleEndedExact(u: Unit, a: Adc, env: Env, mux: nat, v: real, ref: real, k: nat)
    requires Proper(u) && IsSelected(u, a, mux) && Carries(u, env, mux, v) && k <= 1023
    requires ref > 0.0 && ref == if a.admux & 0xC0 == 0xC0 then 1.1 else env.vref
    ensures Completed(u, a, env).result == k
            <==> (k == 0 || v * 1024.0 >= k as real * ref) && (k == 1023 || v * 1024.0 < (k + 1) as real * ref)
  {
    hide Measured, Completed, Proper, SingleEnded, Carries, IsSelected;
    SingleEndedMeasured(u, a, env, mux, v, ref);
    CompletedShape(u, a, env);
    SingleSteps(v, ref, k);
  }

  /** Without a positive reference the result is 0. */
  lemma NoReferenceNoResult(u: Unit, a: Adc, env: Env)
    requires Proper(u) && a.admux & 0xC0 != 0xC0 && env.vref <= 0.0
    ensures Completed(u, a, env).result == 0
  {
    CompletedShape(u, a, env);
    assert Reference(a.admux, env.vref) == env.vref;
    hide Completed, Proper, Reference;
  }

  // ---- differential results -----------------------------------------------------------------

  lemma SignedTruncated(y: real, k: int)
    requires -512 <= k <= 511
    ensures k > 0 ==> (Truncated(Clamped(y, -512.0, 511.0)) >= k <==> y >= k as real)
    ensures k < 0 ==> (Truncated(Clamped(y, -512.0, 511.0)) <= k <==> y <= k as real)
  {
  }

  /** The amplified volts between a differential pair of channels. */
  predicate CarriesDifference(u: Unit, env: Env, mux: nat, d: real) {
    && mux != 0x0E && mux != 0x1E && mux != 0x0F && mux != 0x1F
    && mux < |u.muxTable| && u.muxTable[mux].positive != 0xFF && u.muxTable[mux].differential
    && d == (env.voltage(u.muxTable[mux].positive) - env.voltage(u.muxTable[mux].negative)) * u.muxTable[mux].gain
  }

  lemma DifferenceRatio(u: Unit, env: Env, mux: nat, d: real, ref: real)
    requires CarriesDifference(u, env, mux, d) && ref > 0.0
    ensures Relative(u, mux, env, ref) == d / ref && IsDifferential(u, mux)
  {
  }

  lemma DifferenceMeasured(u: Unit, a: Adc, env: Env, mux: nat, d: real, ref: real)
    requires IsSelected(u, a, mux) && CarriesDifference(u, env, mux, d)
    requires ref > 0.0 && ref == if a.admux & 0xC0 == 0xC0 then 1.1 else env.vref
    ensures Measured(u, a.admux, a.adcsrb, env) == Differential(d / ref) % 0x400
  {
    ReferenceExact(a.admux, env.vref);
    MuxExact(u, a, mux);
    hide SingleEnded, Differential, Reference, MuxChannel, Relative, IsDifferential, IsSelected, CarriesDifference, Has;
    DifferenceRatio(u, env, mux, d, ref);
  }

  function Signed(code: nat): int {
    if code < 512 then code else code as int - 1024
  }

  /** Read as a signed number, a differential result is the amplified difference in 512ths of the
      reference, cut off towards zero and at -512 and 511. */
  lemma DifferentialExact(u: Unit, a: Adc, env: Env, mux: nat, d: real, ref: real, k: int)
    requires Proper(u) && -512 <= k <= 511 && IsSelected(u, a, mux) && CarriesDifference(u, env, mux, d)
    requires ref > 0.0 && ref == if a.admux & 0xC0 == 0xC0 then 1.1 else env.vref
    ensures Signed(Completed(u, a, env).result) == k
            <==> && (k > 0 ==> d * 512.0 >= k as real * ref) && (0 <= k < 511 ==> d * 512.0 < (k + 1) as real * ref)
                 && (k < 0 ==> d * 512.0 <= k as real * ref) && (-512 < k <= 0 ==> d * 512.0 > (k - 1) as real * ref)
  {
    CodeRanges(d / ref);
    hide Measured, Completed, Proper, Differential, IsSelected, CarriesDifference;
    DifferenceMeasured(u, a, env, mux, d, ref);
    CompletedShape(u, a, env);
    assert Signed(Completed(u, a, env).result) == Differential(d / ref);
    DifferentialSteps(d, ref, k);
  }

  lemma DifferentialSteps(d: real, ref: real, k: int)
    requires ref > 0.0 && -512 <= k <= 511
    ensures Differential(d / ref) == k
            <==> && (k > 0 ==> d * 512.0 >= k as real * ref) && (0 <= k < 511 ==> d * 512.0 < (k + 1) as real * ref)
                 && (k < 0 ==> d * 512.0 <= k as real * ref) && (-512 < k <= 0 ==> d * 512.0 > (k - 1) as real * ref)
  {
    CodeRanges(d / ref);
    StepAtLeast(d, ref, k);
    StepAtMost(d, ref, k);
    if k < 511 {
      StepAtLeast(d, ref, k + 1);
    }
    if k > -512 {
      StepAtMost(d, ref, k - 1);
    }
    hide Differential;
  }

  lemma StepAtLeast(d: real, ref: real, k: int)
    requires ref > 0.0 && -512 <= k <= 511
    ensures k > 0 ==> (Differential(d / ref) >= k <==> d * 512.0 >= k as real * ref)
  {
    var y := d / ref * 512.0;
    assert y * ref == d * 512.0 by { assert d / ref * ref == d; }
    SignedTruncated(y, k);
    assert Differential(d / ref) == Truncated(Clamped(y, -512.0, 511.0));
    hide Differential, Truncated, Clamped;
    Rescaled(y, k as real, ref);
  }

  lemma StepAtMost(d: real, ref: real, k: int)
    requires ref > 0.0 && -512 <= k <= 511
    ensures k < 0 ==> (Differential(d / ref) <= k <==> d * 512.0 <= k as real * ref)
  {
    var y := d / ref * 512.0;
    assert y * ref == d * 512.0 by { assert d / ref * ref == d; }
    SignedTruncated(y, k);
    assert Differential(d / ref) == Truncated(Clamped(y, -512.0, 511.0));
    hide Differential, Truncated, Clamped;
    Rescaled(k as real, y, ref);
  }

  // ---- clocks -------------------------------------------------------------------------------

  lemma PrescalerExact(adcsra: bv8)
    ensures Prescaler(adcsra) == [2, 2, 4, 8, 16, 32, 64, 128][(adcsra & 7) as nat]
  {
  }

  /** A conversion takes 13 prescaled clocks, the first after enabling 25, unless the device says
      otherwise. */
  lemma StartExact(u: Unit, a: Adc, p: nat)
    requires Proper(u) && !a.converting && p == [2, 2, 4, 8, 16, 32, 64, 128][(a.adcsra & 7) as nat]
    ensures var n := Started(u, a);
            && n.converting && n.adcsra == a.adcsra | u.adsc && n.starts == a.starts + 1
            && n.remaining == (if u.conversionCycles != 0 then u.conversionCycles else if a.first then 25 * p else 13 * p)
  {
    ModeKept(u, a.adcsra, u.adsc);
    PrescalerExact(a.adcsra);
    hide Prescaler;
  }

  /** What a write of ADCSRA stores: ADIF stays unless a one clears it, all else is as written. */
  lemma StoreExact(u: Unit, adcsra: bv8, value: bv8, mask: bv8)
    requires mask & u.adif == 0
    ensures var stored := ControlStored(u, adcsra, value);
            && (Has(stored, u.adif) <==> Has(adcsra, u.adif) && !Has(value, u.adif))
            && (Has(stored, mask) <==> Has(value, mask))
            && (mask == 7 ==> Prescaler(stored) == Prescaler(value))
  {
    hide Has, Merged, Without, Prescaler;
    BitsStored(adcsra, value, u.adif, mask);
    if mask == 7 {
      PrescalerStored(adcsra, value, u.adif);
    }
  }

  lemma BitsStored(register: bv8, value: bv8, flag: bv8, mask: bv8)
    requires mask & flag == 0
    ensures var stored, cleared := Merged(register, value, !flag), Without(Merged(register, value, !flag), flag);
            && Has(stored, flag) == Has(register, flag) && !Has(cleared, flag)
            && Has(stored, mask) == Has(cleared, mask) == Has(value, mask)
  {
    assert flag & !flag == 0 && mask & !!flag == 0;
    hide Has, Merged, Without;
    MergedKeeps(register, value, !flag, flag);
    MergedTakes(register, value, !flag, mask);
    WithoutBits(Merged(register, value, !flag), flag, mask);
  }

  lemma PrescalerStored(register: bv8, value: bv8, flag: bv8)
    requires 7 & flag == 0
    ensures var stored, cleared := Merged(register, value, !flag), Without(Merged(register, value, !flag), flag);
            Prescaler(stored) == Prescaler(cleared) == Prescaler(value)
  {
    assert Merged(register, value, !flag) & 7 == value & 7;
    assert Without(Merged(register, value, !flag), flag) & 7 == value & 7;
    hide Merged, Without;
  }

  /** In register values: from a write of ADEN, ADSC and ADATE to a converter set to free running,
      with p the prescaler written, the k-th conversion is complete (25 + 13 * (k - 1)) * p cycles
      later. */
  lemma FreeRunScheduleExact(u: Unit, a: Adc, value: bv8, slices: seq<Slice>, k: nat, p: nat)
    requires Proper(u) && Accounted(u, a) && !Has(a.adcsra, u.aden) && !Has(a.adcsra, u.adsc)
    requires u.conversionCycles == 0 && a.source == FreeRunning && k >= 1
    requires Has(value, u.aden) && Has(value, u.adsc) && Has(value, u.adate)
    requires p == [2, 2, 4, 8, 16, 32, 64, 128][(value & 7) as nat]
    requires Fine(u, ControlWritten(u, a, value), slices)
    ensures TickAll(u, ControlWritten(u, a, value), slices).completions >= a.completions + k
            <==> Total(slices) >= (25 + 13 * (k - 1)) * p
  {
    PrescalerExact(value);
    MasksApart(u);
    hide ControlStored, ControlWritten, TickAll, Total, Fine, Proper, Accounted, Prescaler, Has;
    StoreExact(u, a.adcsra, value, u.aden);
    StoreExact(u, a.adcsra, value, u.adsc);
    StoreExact(u, a.adcsra, value, u.adate);
    StoreExact(u, a.adcsra, value, 7);
    FreeRunSchedule(u, a, value, slices, k);
  }

  lemma MasksApart(u: Unit)
    requires Proper(u)
    ensures u.aden & u.adif == 0 && u.adsc & u.adif == 0 && u.adate & u.adif == 0 && 7 & u.adif == 0
  {
    assert u.adsc & u.adif == u.adif & u.adsc;
  }

  // ---- writes -------------------------------------------------------------------------------

  /** What a write of ADCSRA does to the conversions: clearing ADEN aborts the one under way, setting
      it makes the next the first, and ADSC newly written starts one if the converter is enabled
      and idle; else the conversion under way goes on. */
  lemma WriteExact(u: Unit, a: Adc, value: bv8)
    requires Proper(u) && Accounted(u, a)
    ensures var t, was, now := ControlWritten(u, a, value), Has(a.adcsra, u.aden), Has(value, u.aden);
            var begins := Has(value, u.adsc) && !Has(a.adcsra, u.adsc) && now && !a.converting;
            && t.converting == ((a.converting && now) || begins)
            && t.starts == a.starts + (if begins then 1 else 0)
            && t.aborts == a.aborts + (if a.converting && !now then 1 else 0)
            && t.first == (if begins then false else if was != now then true else a.first)
            && (begins ==> t.remaining == Duration(u, value, was != now || a.first))
            && (!begins ==> t.remaining == a.remaining)
            && t.result == a.result && t.completions == a.completions && t.source == a.source
  {
    assert a.converting ==> Has(a.adcsra, u.aden);
    hide Has, ControlWritten, Accounted, Started, Proper, Duration;
    WriteShape(u, a, value);
    StartShape(u, Switched(u, a, value), value);
    hide ControlStored, Prescaler, With;
  }

  /** ADCSRA stored, and what switching on or off does. */
  function Switched(u: Unit, a: Adc, value: bv8): Adc {
    var was, now := Has(a.adcsra, u.aden), Has(value, u.aden);
    a.(adcsra := ControlStored(u, a.adcsra, value), first := was != now || a.first,
       converting := a.converting && !(was && !now),
       aborts := a.aborts + if a.converting && was && !now then 1 else 0)
  }

  lemma WriteShape(u: Unit, a: Adc, value: bv8)
    requires Proper(u)
    ensures ControlWritten(u, a, value)
            == if Has(value, u.adsc) && !Has(a.adcsra, u.adsc) && Has(value, u.aden)
               then Started(u, Switched(u, a, value)) else Switched(u, a, value)
    ensures Prescaler(Switched(u, a, value).adcsra) == Prescaler(value)
  {
    hide Has, ControlStored, EnableChanged, Started, Prescaler, Proper;
    StoredControl(u, a.adcsra, value);
    EnableExact(u, a.(adcsra := ControlStored(u, a.adcsra, value)), Has(a.adcsra, u.aden), Has(value, u.aden));
  }

  lemma StoredControl(u: Unit, adcsra: bv8, value: bv8)
    requires Proper(u)
    ensures var stored := ControlStored(u, adcsra, value);
            && (Has(stored, u.aden) <==> Has(value, u.aden)) && (Has(stored, u.adsc) <==> Has(value, u.adsc))
            && Prescaler(stored) == Prescaler(value)
  {
    MasksApart(u);
    hide Has, ControlStored, Prescaler, Proper;
    StoreExact(u, adcsra, value, u.aden);
    StoreExact(u, adcsra, value, u.adsc);
    StoreExact(u, adcsra, value, 7);
  }

  lemma EnableExact(u: Unit, a: Adc, was: bool, now: bool)
    ensures EnableChanged(u, a, was, now)
            == a.(first := was != now || a.first,
                  converting := a.converting && !(was && !now),
                  aborts := a.aborts + if a.converting && was && !now then 1 else 0)
  {
  }

  lemma StartShape(u: Unit, a: Adc, value: bv8)
    requires Proper(u) && Prescaler(a.adcsra) == Prescaler(value)
    ensures a.converting ==> Started(u, a) == a
    ensures !a.converting ==>
              Started(u, a) == a.(converting := true, adcsra := With(a.adcsra, u.adsc), first := false,
                                  remaining := Duration(u, value, a.first), starts := a.starts + 1)
  {
    ModeKept(u, a.adcsra, u.adsc);
    hide With, Prescaler, Proper;
  }

  // ---- flags and triggers -------------------------------------------------------------------

  /** A completion raises ADIF, and clears ADSC unless it restarts. */
  lemma CompletionFlags(u: Unit, a: Adc, env: Env)
    requires Proper(u) && u.adif != 0 && u.adsc != 0
    ensures var n := Completed(u, a, env);
            && Has(n.adcsra, u.adif)
            && (Has(n.adcsra, u.adsc)
                <==> Has(a.adcsra, u.aden) && Has(a.adcsra, u.adate) && a.source == FreeRunning)
  {
    hide Measured, Duration, Has, With, Without;
    MasksApart(u);
    var free := FreeRuns(u, a);
    var kept := if free then a.adcsra else Without(a.adcsra, u.adsc);
    SetBit(kept, u.adif);
    SetBit(With(kept, u.adif), u.adsc);
    WithoutBits(a.adcsra, u.adsc, 0);
    ModeKept(u, a.adcsra, u.adsc);
    ModeKept(u, kept, u.adif);
    OtherBits(kept, u.adif, u.adsc);
    OtherBits(With(kept, u.adif), u.adsc, u.adif);
    hide Proper;
  }

  lemma SetBit(register: bv8, mask: bv8)
    requires mask != 0
    ensures Has(With(register, mask), mask)
  {
    assert (register | mask) & mask == mask;
  }

  /** A trigger starts a conversion exactly if it is the selected one of an enabled, auto-triggered
      and idle converter. */
  lemma TriggerExact(u: Unit, a: Adc, source: Source)
    ensures Triggered(u, a, source).starts == a.starts + 1
            <==> !a.converting && source != NoSource && source == a.source
                 && Has(a.adcsra, u.aden) && Has(a.adcsra, u.adate)
  {
    hide With, Duration, Has;
  }

  /** A flag requests an interrupt if it is enabled; the acknowledgement clears it, and nothing is
      requested then. */
  lemma RequestExact(u: Unit, a: Adc)
    ensures Requests(u, a) <==> Has(a.adcsra, u.adie) && Has(a.adcsra, u.adif)
    ensures var n := a.(adcsra := Without(a.adcsra, u.adif)); !Requests(u, n)
  {
    WithoutBits(a.adcsra, u.adif, 0);
    hide Has, Without;
  }
}
