/** The co-simulation shim: N chips stepped in lockstep from one analog clock.

    A chip's core is not modelled; a step is given what each core would report. */
module CosimShim {
  import opened Common

  const PINS := 32
  const MIN_STEP: real := 0.000001

  datatype State = Zero | One
  datatype Strength = Strong | HiImpedance
  datatype Digital = Digital(state: State, strength: Strength)

  const RELEASED := Digital(Zero, HiImpedance)

  /** A value sent to an output of the code model. */
  datatype Send = Send(pin: nat, value: Digital)

  datatype PinChange = PinChange(id: nat, high: bool, isOutput: bool, wiredAnd: bool)

  /** What the shim last sent for a pin, and whether the pin was last an output. */
  datatype Pin = Pin(out: Digital, isOutput: bool)

  const RESTING := Pin(RELEASED, false)

  /** A chip's share of analog time; durations lists the steps given to the core. */
  datatype Clock = Clock(last: real, accumulated: real, durations: seq<real>)

  /** delivered lists the pin changes taken from the core so far. */
  datatype Chip = Chip(clock: Clock, pins: seq<Pin>, delivered: seq<PinChange>)

  /** Timed injection `index` handed to chip `chip` at analog time `at`. */
  datatype Injection = Injection(chip: nat, index: nat, at: real)

  datatype Shim = Shim(
    chips: seq<Chip>, injectVtime: seq<real>, initialised: bool, sent: seq<Send>, injected: seq<Injection>)

  predicate WellFormed(s: Shim) {
    forall c :: 0 <= c < |s.chips| ==> |s.chips[c].pins| == PINS
  }

  // ---- time ---------------------------------------------------------------------------

  predicate Flushes(k: Clock, vtime: real) {
    vtime > k.last && k.accumulated + (vtime - k.last) >= MIN_STEP
  }

  function ClockStepped(k: Clock, vtime: real): Clock {
    if vtime <= k.last then k
    else
      var accumulated := k.accumulated + (vtime - k.last);
      if accumulated >= MIN_STEP then Clock(vtime, 0.0, k.durations + [accumulated])
      else k.(last := vtime, accumulated := accumulated)
  }

  // ---- timed injections -----------------------------------------------------------------

  predicate Due(armed: real, vtime: real) {
    0.0 <= armed <= vtime
  }

  /** The armed times after the first n have been offered at `vtime`. */
  function Disarmed(armed: seq<real>, vtime: real, n: nat): (r: seq<real>)
    requires n <= |armed|
    ensures |r| == |armed|
  {
    seq(|armed|, i requires 0 <= i < |armed| => if i < n && Due(armed[i], vtime) then -1.0 else armed[i])
  }

  /** The deliveries that the first n make at `vtime`, in index order. */
  function Fired(armed: seq<real>, chip: nat, vtime: real, n: nat): seq<Injection>
    requires n <= |armed|
  {
    if n == 0 then []
    else Fired(armed, chip, vtime, n - 1)
         + if Due(armed[n - 1], vtime) then [Injection(chip, n - 1, vtime)] else []
  }

  // ---- pins -------------------------------------------------------------------------------

  /** What a change puts on the bus; a pin that stays an input puts nothing. */
  function Driven(change: PinChange, wasOutput: bool): Option<Digital> {
    if change.isOutput then
      if change.wiredAnd then Some(Digital(Zero, if change.high then HiImpedance else Strong))
      else Some(Digital(if change.high then One else Zero, Strong))
    else if wasOutput then Some(Digital(if change.high then One else Zero, HiImpedance))
    else None
  }

  function PinChanged(pin: Pin, change: PinChange): Pin {
    var value := Driven(change, pin.isOutput);
    Pin(if value.Some? then value.value else pin.out, change.isOutput)
  }

  function PinSends(pin: Pin, change: PinChange): seq<Digital> {
    var value := Driven(change, pin.isOutput);
    if value.Some? && value.value != pin.out then [value.value] else []
  }

  /** One chip's pins and the log of everything sent by the shim. */
  datatype Mirror = Mirror(pins: seq<Pin>, sent: seq<Send>)

  function OnPin(pin: nat, values: seq<Digital>): seq<Send> {
    seq(|values|, i requires 0 <= i < |values| => Send(pin, values[i]))
  }

  function Taken(m: Mirror, base: nat, change: PinChange): (r: Mirror)
    requires |m.pins| == PINS
    ensures |r.pins| == PINS
  {
    if change.id >= PINS then m
    else
      var pin := m.pins[change.id];
      Mirror(m.pins[change.id := PinChanged(pin, change)],
             m.sent + OnPin(base + change.id, PinSends(pin, change)))
  }

  function TakenAll(m: Mirror, base: nat, changes: seq<PinChange>): (r: Mirror)
    requires |m.pins| == PINS
    ensures |r.pins| == PINS
  {
    if changes == [] then m
    else Taken(TakenAll(m, base, changes[..|changes| - 1]), base, changes[|changes| - 1])
  }

  // ---- one step -----------------------------------------------------------------------------

  function Released(chips: seq<Chip>, n: nat): (r: seq<Chip>)
    requires n <= |chips|
    ensures |r| == |chips|
  {
    seq(|chips|, c requires 0 <= c < |chips| =>
      if c < n then chips[c].(pins := seq(PINS, i => RESTING)) else chips[c])
  }

  function Releases(n: nat): seq<Send> {
    seq(n, k requires 0 <= k < n => Send(k, RELEASED))
  }

  function Initialised(s: Shim): Shim {
    if s.initialised then s
    else s.(initialised := true, chips := Released(s.chips, |s.chips|), sent := s.sent + Releases(|s.chips| * PINS))
  }

  function ChipStepped(s: Shim, c: nat, vtime: real, changes: seq<PinChange>): (r: Shim)
    requires WellFormed(s) && c < |s.chips|
    ensures WellFormed(r) && |r.chips| == |s.chips|
  {
    var chip := s.chips[c];
    var clock := ClockStepped(chip.clock, vtime);
    if !Flushes(chip.clock, vtime) then s.(chips := s.chips[c := chip.(clock := clock)])
    else
      var n := |s.injectVtime|;
      var mirror := TakenAll(Mirror(chip.pins, s.sent), c * PINS, changes);
      s.(chips := s.chips[c := Chip(clock, mirror.pins, chip.delivered + changes)],
         injectVtime := Disarmed(s.injectVtime, vtime, n),
         sent := mirror.sent,
         injected := s.injected + Fired(s.injectVtime, c, vtime, n))
  }

  function ChipsStepped(s: Shim, vtime: real, reports: seq<seq<PinChange>>, n: nat): (r: Shim)
    requires WellFormed(s) && n <= |reports| == |s.chips|
    ensures WellFormed(r) && |r.chips| == |s.chips|
  {
    if n == 0 then s
    else ChipStepped(ChipsStepped(s, vtime, reports, n - 1), n - 1, vtime, reports[n - 1])
  }

  /** The whole step: reports[c] is what the core of chip c reports if it is stepped. */
  function Stepped(s: Shim, vtime: real, reports: seq<seq<PinChange>>): (r: Shim)
    requires WellFormed(s) && |reports| == |s.chips|
    ensures WellFormed(r) && |r.chips| == |s.chips|
  {
    ChipsStepped(Initialised(s), vtime, reports, |reports|)
  }

  /** The shim as set up: cores at time zero, nothing sent, nothing delivered. */
  predicate SetUp(s: Shim) {
    && WellFormed(s) && |s.chips| > 0
    && !s.initialised && s.sent == [] && s.injected == []
    && forall c :: 0 <= c < |s.chips| ==> s.chips[c].clock == Clock(0.0, 0.0, []) && s.chips[c].delivered == []
  }

  class MultiCosim {
    var chips: seq<Chip>
    var injectVtime: seq<real>
    var pinsInitialised: bool
    ghost var sent: seq<Send>
    ghost var injected: seq<Injection>

    ghost function View(): Shim
      reads this
    {
      Shim(chips, injectVtime, pinsInitialised, sent, injected)
    }

    /** Cosim_setup: chips with drained cores, and the armed injections. */
    constructor (numChips: nat, armed: seq<real>)
      requires numChips > 0
      ensures SetUp(View()) && |chips| == numChips && injectVtime == armed
    {
      chips := seq(numChips, c => Chip(Clock(0.0, 0.0, []), seq(PINS, i => Pin(Digital(Zero, Strong), false)), []));
      injectVtime := armed;
      pinsInitialised := false;
      sent, injected := [], [];
    }

    method ReleasePins()
      requires WellFormed(View()) && !pinsInitialised
      modifies this
      ensures View() == Initialised(old(View())) && WellFormed(View())
    {
      pinsInitialised := true;
      var c := 0;
      while c < |chips|
        invariant c <= |chips| == |old(chips)|
        invariant chips == Released(old(chips), c)
        invariant sent == old(sent) + Releases(c * PINS)
        invariant pinsInitialised && injectVtime == old(injectVtime) && injected == old(injected)
      {
        var i := 0;
        var pins := chips[c].pins;
        while i < PINS
          invariant i <= PINS && |pins| == PINS
          invariant forall j :: 0 <= j < i ==> pins[j] == RESTING
          invariant sent == old(sent) + Releases(c * PINS + i)
          invariant chips == Released(old(chips), c)
          invariant pinsInitialised && injectVtime == old(injectVtime) && injected == old(injected)
        {
          pins := pins[i := RESTING];
          assert Releases(c * PINS + i + 1) == Releases(c * PINS + i) + [Send(c * PINS + i, RELEASED)];
          sent := sent + [Send(c * PINS + i, RELEASED)];
          i := i + 1;
        }
        assert pins == seq(PINS, i => RESTING);
        chips := chips[c := chips[c].(pins := pins)];
        c := c + 1;
      }
    }

    method FireInjections(c: nat, vtime: real)
      modifies this`injectVtime, this`injected
      ensures injectVtime == Disarmed(old(injectVtime), vtime, |old(injectVtime)|)
      ensures injected == old(injected) + Fired(old(injectVtime), c, vtime, |old(injectVtime)|)
    {
      var i := 0;
      while i < |injectVtime|
        invariant i <= |injectVtime| == |old(injectVtime)|
        invariant injectVtime == Disarmed(old(injectVtime), vtime, i)
        invariant injected == old(injected) + Fired(old(injectVtime), c, vtime, i)
      {
        var vt := injectVtime[i];
        if vt >= 0.0 && vt <= vtime {
          injected := injected + [Injection(c, i, vtime)];
          injectVtime := injectVtime[i := -1.0];
        }
        i := i + 1;
      }
    }

    method MirrorChanges(c: nat, changes: seq<PinChange>)
      requires c < |chips| && |chips[c].pins| == PINS
      modifies this`chips, this`sent
      ensures var m := TakenAll(Mirror(old(chips[c].pins), old(sent)), c * PINS, changes);
              chips == old(chips)[c := old(chips)[c].(pins := m.pins, delivered := old(chips)[c].delivered + changes)]
              && sent == m.sent
    {
      var base := c * PINS;
      var pins := chips[c].pins;
      var i := 0;
      while i < |changes|
        invariant i <= |changes| && |pins| == PINS
        invariant Mirror(pins, sent) == TakenAll(Mirror(old(chips[c].pins), old(sent)), base, changes[..i])
        invariant chips == old(chips)
      {
        assert changes[..i + 1][..i] == changes[..i];
        var change := changes[i];
        i := i + 1;
        if change.id >= PINS {
          continue;
        }
        var pin := pins[change.id];
        pins := pins[change.id := PinChanged(pin, change)];
        var value := Driven(change, pin.isOutput);
        if value.Some? && value.value != pin.out {
          sent := sent + [Send(base + change.id, value.value)];
        }
      }
      assert changes[..i] == changes;
      chips := chips[c := chips[c].(pins := pins, delivered := chips[c].delivered + changes)];
    }

    method StepChip(c: nat, vtime: real, changes: seq<PinChange>)
      requires WellFormed(View()) && c < |chips|
      modifies this
      ensures View() == ChipStepped(old(View()), c, vtime, changes)
    {
      var clock := chips[c].clock;
      var delta := vtime - clock.last;
      if delta > 0.0 {
        clock := clock.(last := vtime, accumulated := clock.accumulated + delta);
        if clock.accumulated >= MIN_STEP {
          clock := clock.(durations := clock.durations + [clock.accumulated]);
          clock := clock.(accumulated := 0.0);
          chips := chips[c := chips[c].(clock := clock)];
          FireInjections(c, vtime);
          MirrorChanges(c, changes);
        } else {
          chips := chips[c := chips[c].(clock := clock)];
        }
      }
    }

    method Step(vtime: real, reports: seq<seq<PinChange>>)
      requires WellFormed(View()) && |reports| == |chips|
      modifies this
      ensures View() == Stepped(old(View()), vtime, reports)
    {
      if !pinsInitialised {
        ReleasePins();
      }
      var c := 0;
      while c < |chips|
        invariant c <= |chips| == |reports|
        invariant WellFormed(Initialised(old(View()))) && |Initialised(old(View())).chips| == |reports|
        invariant View() == ChipsStepped(Initialised(old(View())), vtime, reports, c)
      {
        StepChip(c, vtime, reports[c]);
        c := c + 1;
      }
    }

    /** An input bit of the code model: the chip and pin it drives, if there is one. */
    method Input(bit: nat, high: bool) returns (driven: Option<(nat, nat, bool)>)
      ensures driven.Some? <==> bit < |chips| * PINS
      ensures driven.Some? ==>
        var (c, id, level) := driven.value; c < |chips| && id < PINS && c * PINS + id == bit && level == high
    {
      if bit >= |chips| * PINS {
        return None;
      }
      driven := Some((bit / PINS, bit % PINS, high));
    }
  }
}
