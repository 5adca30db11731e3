/** Timed stimuli and buffered UART bytes, dispatched by polling. */
module Stimulus {
  import opened Common

  /** What a stimulus does to the machine is its action. */
  datatype TimedStimulus = TimedStimulus(at: nat, action: nat)

  /** A classic receiver. One that waits for an address frame ignores a data byte. */
  datatype Receiver = Receiver(enabled: bool, addressOnly: bool, full: bool, active: bool, overrun: bool)

  predicate Ready(r: Receiver) { r.enabled && !r.addressOnly && !r.full && !r.active }

  /** The receiver after a byte is offered to it; it takes it if Ready. */
  function Offered(r: Receiver): Receiver {
    if !r.enabled || r.addressOnly then r
    else if r.full || r.active then r.(overrun := true)
    else r.(active := true)
  }

  datatype Receiver8x = Receiver8x(enabled: bool, busy: bool)

  predicate Ready8x(r: Receiver8x) { r.enabled && !r.busy }

  /** Injecting into the newer receiver reports nothing: a byte it cannot take is gone. */
  function Injected(r: Receiver8x): Receiver8x {
    if Ready8x(r) then r.(busy := true) else r
  }

  function FirstReady(uarts: seq<Receiver>, i: nat): (k: nat)
    requires i <= |uarts|
    ensures i <= k <= |uarts| && (k < |uarts| ==> Ready(uarts[k]))
    ensures forall j :: i <= j < k ==> !Ready(uarts[j])
    decreases |uarts| - i
  {
    if i == |uarts| || Ready(uarts[i]) then i else FirstReady(uarts, i + 1)
  }

  /** Offering a byte to each receiver until one takes it. */
  function OfferedAll(uarts: seq<Receiver>): (r: (seq<Receiver>, bool)) {
    var k := FirstReady(uarts, 0);
    (seq(|uarts|, j requires 0 <= j < |uarts| => if j <= k then Offered(uarts[j]) else uarts[j]), k < |uarts|)
  }

  /** The receivers after a poll, the bytes handed on and those of them that were taken. */
  datatype Feed = Feed(uarts: seq<Receiver>, uarts8x: seq<Receiver8x>, handed: nat, taken: seq<bv8>)

  function After(handed: nat, taken: seq<bv8>, f: Feed): Feed {
    f.(handed := handed + f.handed, taken := taken + f.taken)
  }

  function Fed(uarts: seq<Receiver>, uarts8x: seq<Receiver8x>, bytes: seq<bv8>): Feed
    decreases |bytes|
  {
    if bytes == [] then Feed(uarts, uarts8x, 0, [])
    else
      var (offered, newer, ok) := FedOne(uarts, uarts8x);
      if ok then After(1, TakenOne(uarts, uarts8x, bytes[0]), Fed(offered, newer, bytes[1..]))
      else Feed(offered, newer, 0, [])
  }

  /** The receivers after one byte, and whether it was handed on. */
  function FedOne(uarts: seq<Receiver>, uarts8x: seq<Receiver8x>): (seq<Receiver>, seq<Receiver8x>, bool) {
    var (offered, ok) := OfferedAll(uarts);
    if ok || uarts8x == [] then (offered, uarts8x, ok)
    else (offered, uarts8x[0 := Injected(uarts8x[0])], true)
  }

  /** The byte, if a receiver takes it. */
  function TakenOne(uarts: seq<Receiver>, uarts8x: seq<Receiver8x>, byte: bv8): seq<bv8> {
    if OfferedAll(uarts).1 || (uarts8x != [] && Ready8x(uarts8x[0])) then [byte] else []
  }

  lemma FedStep(uarts: seq<Receiver>, uarts8x: seq<Receiver8x>, bytes: seq<bv8>, p: nat)
    requires p < |bytes|
    ensures var (offered, newer, ok) := FedOne(uarts, uarts8x);
            var one := TakenOne(uarts, uarts8x, bytes[p]);
            if ok then Fed(uarts, uarts8x, bytes[p..]) == After(1, one, Fed(offered, newer, bytes[p + 1..]))
            else Fed(uarts, uarts8x, bytes[p..]) == Feed(offered, newer, 0, []) && one == []
  {
    hide OfferedAll, Injected, Ready8x, After;
    assert bytes[p..][1..] == bytes[p + 1..];
  }

  lemma FedNothing(uarts: seq<Receiver>, uarts8x: seq<Receiver8x>)
    ensures forall bytes: seq<bv8> :: bytes == [] ==> Fed(uarts, uarts8x, bytes) == Feed(uarts, uarts8x, 0, [])
  {
  }

  lemma AfterNothing(f: Feed)
    ensures After(0, [], f) == f
  {
    assert [] + f.taken == f.taken;
  }

  lemma TakenNothing(log: seq<bv8>, one: seq<bv8>)
    ensures one == [] ==> log + one == log
  {
  }

  lemma AfterTwice(h: nat, t: seq<bv8>, h2: nat, t2: seq<bv8>, f: Feed)
    ensures After(h, t, After(h2, t2, f)) == After(h + h2, t + t2, f)
  {
    assert t + (t2 + f.taken) == t + t2 + f.taken;
  }

  /** The first stimulus from i on that is not due. */
  function DueFrom(timed: seq<TimedStimulus>, i: nat, now: int): (k: nat)
    requires i <= |timed|
    ensures i <= k <= |timed|
    ensures forall j :: i <= j < k ==> timed[j].at <= now
    ensures k < |timed| ==> timed[k].at > now
    decreases |timed| - i
  {
    if i < |timed| && timed[i].at <= now then DueFrom(timed, i + 1, now) else i
  }

  class StimulusConfig {
    const timedStimuli: seq<TimedStimulus>
    const pendingUartBytes: seq<bv8>
    var uartProgress: nat

    constructor (timed: seq<TimedStimulus>, bytes: seq<bv8>)
      ensures timedStimuli == timed && pendingUartBytes == bytes && uartProgress == 0
    {
      timedStimuli, pendingUartBytes, uartProgress := timed, bytes, 0;
    }
  }

  /** The receivers of a machine; applied and taken log what reached it. */
  class Machine {
    var uarts: seq<Receiver>
    var uarts8x: seq<Receiver8x>
    ghost var applied: seq<TimedStimulus>
    ghost var taken: seq<bv8>

    constructor (uarts: seq<Receiver>, uarts8x: seq<Receiver8x>)
      ensures this.uarts == uarts && this.uarts8x == uarts8x && applied == [] && taken == []
    {
      this.uarts, this.uarts8x := uarts, uarts8x;
      applied, taken := [], [];
    }

    method Apply(stimulus: TimedStimulus)
      modifies this`applied
      ensures applied == old(applied) + [stimulus]
    {
      applied := applied + [stimulus];
    }

    /** Offers a byte to the classic receivers in turn. */
    method Offer(byte: bv8) returns (ok: bool)
      modifies this`uarts, this`taken
      ensures (uarts, ok) == OfferedAll(old(uarts))
      ensures taken == if ok then old(taken) + [byte] else old(taken)
    {
      hide Offered, Ready;
      ghost var before := uarts;
      ok := false;
      var i := 0;
      while i < |uarts|
        invariant i <= |uarts| == |before| && !ok && taken == old(taken)
        invariant FirstReady(before, 0) == FirstReady(before, i)
        invariant forall j :: 0 <= j < i ==> uarts[j] == Offered(before[j])
        invariant forall j :: i <= j < |before| ==> uarts[j] == before[j]
      {
        ok := Ready(uarts[i]);
        uarts := uarts[i := Offered(uarts[i])];
        if ok {
          taken := taken + [byte];
          assert uarts == OfferedAll(before).0;
          return;
        }
        i := i + 1;
      }
      assert uarts == OfferedAll(before).0;
    }

    method Inject8x(byte: bv8)
      requires uarts8x != []
      modifies this`uarts8x, this`taken
      ensures uarts8x == old(uarts8x)[0 := Injected(old(uarts8x)[0])]
      ensures taken == if Ready8x(old(uarts8x)[0]) then old(taken) + [byte] else old(taken)
    {
      if Ready8x(uarts8x[0]) {
        taken := taken + [byte];
      }
      uarts8x := uarts8x[0 := Injected(uarts8x[0])];
    }
  }

  method ApplyTimed(machine: Machine, config: StimulusConfig, now: nat, start: nat) returns (next: nat)
    requires start <= |config.timedStimuli|
    modifies machine`applied
    ensures next == DueFrom(config.timedStimuli, start, now)
    ensures machine.applied == old(machine.applied) + config.timedStimuli[start..next]
  {
    next := start;
    while next < |config.timedStimuli| && config.timedStimuli[next].at <= now
      invariant start <= next <= |config.timedStimuli|
      invariant DueFrom(config.timedStimuli, next, now) == DueFrom(config.timedStimuli, start, now)
      invariant machine.applied == old(machine.applied) + config.timedStimuli[start..next]
    {
      machine.Apply(config.timedStimuli[next]);
      next := next + 1;
    }
  }

  /** Applies what is due and hands bytes on until they are refused. */
  method ApplyDueStimuli(machine: Machine, config: StimulusConfig, now: nat, start: nat) returns (next: nat)
    requires start <= |config.timedStimuli| && config.uartProgress <= |config.pendingUartBytes|
    modifies machine, config
    ensures next == DueFrom(config.timedStimuli, start, now)
    ensures machine.applied == old(machine.applied) + config.timedStimuli[start..next]
    ensures config.uartProgress <= |config.pendingUartBytes|
    ensures var fed := Fed(old(machine.uarts), old(machine.uarts8x), config.pendingUartBytes[old(config.uartProgress)..]);
            && machine.uarts == fed.uarts && machine.uarts8x == fed.uarts8x
            && config.uartProgress == old(config.uartProgress) + fed.handed
            && machine.taken == old(machine.taken) + fed.taken
  {
    hide Fed;
    next := ApplyTimed(machine, config, now, start);
    DispatchBytes(machine, config);
  }

  /** Offers one byte to the classic receivers and, if they refuse it, to the newer one. */
  method DispatchByte(machine: Machine, byte: bv8) returns (ok: bool)
    modifies machine`uarts, machine`uarts8x, machine`taken
    ensures (machine.uarts, machine.uarts8x, ok) == FedOne(old(machine.uarts), old(machine.uarts8x))
    ensures machine.taken == old(machine.taken) + TakenOne(old(machine.uarts), old(machine.uarts8x), byte)
  {
    hide Injected, Ready8x, OfferedAll;
    ok := machine.Offer(byte);
    if !ok && machine.uarts8x != [] {
      machine.Inject8x(byte);
      ok := true;
    }
  }

  method DispatchBytes(machine: Machine, config: StimulusConfig)
    requires config.uartProgress <= |config.pendingUartBytes|
    modifies machine`uarts, machine`uarts8x, machine`taken, config
    ensures config.uartProgress <= |config.pendingUartBytes|
    ensures var fed := Fed(old(machine.uarts), old(machine.uarts8x), config.pendingUartBytes[old(config.uartProgress)..]);
            && machine.uarts == fed.uarts && machine.uarts8x == fed.uarts8x
            && config.uartProgress == old(config.uartProgress) + fed.handed
            && machine.taken == old(machine.taken) + fed.taken
  {
    hide FedOne, TakenOne, Fed;
    var bytes := config.pendingUartBytes;
    ghost var first := Fed(machine.uarts, machine.uarts8x, bytes[config.uartProgress..]);
    ghost var t: seq<bv8> := [];
    var refused := false;
    AfterNothing(first);
    while config.uartProgress < |bytes| && !refused
      invariant old(config.uartProgress) <= config.uartProgress <= |bytes|
      invariant machine.taken == old(machine.taken) + t
      invariant first == After(config.uartProgress - old(config.uartProgress), t,
                               if refused then Feed(machine.uarts, machine.uarts8x, 0, [])
                               else Fed(machine.uarts, machine.uarts8x, bytes[config.uartProgress..]))
      decreases |bytes| - config.uartProgress, !refused
    {
      var byte := bytes[config.uartProgress];
      ghost var one := TakenOne(machine.uarts, machine.uarts8x, byte);
      FedStep(machine.uarts, machine.uarts8x, bytes, config.uartProgress);
      var ok := DispatchByte(machine, byte);
      if ok {
        config.uartProgress := config.uartProgress + 1;
        AfterTwice(config.uartProgress - 1 - old(config.uartProgress), t, 1, one,
                   Fed(machine.uarts, machine.uarts8x, bytes[config.uartProgress..]));
        t := t + one;
      } else {
        refused := true;
        TakenNothing(old(machine.taken) + t, one);
      }
    }
    FedNothing(machine.uarts, machine.uarts8x);
  }
}
