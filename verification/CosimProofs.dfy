/** What every run of the co-simulation shim guarantees: conservation of analog time,
    delivery of timed injections, and what the bus sees of each pin. */
module CosimProofs {
  import opened Common
  import opened CosimShim

  /** One call of the shim: the analog time, and what each core would report. */
  datatype Call = Call(vtime: real, reports: seq<seq<PinChange>>)

  predicate Fits(s: Shim, calls: seq<Call>) {
    forall i :: 0 <= i < |calls| ==> |calls[i].reports| == |s.chips|
  }

  function Run(s: Shim, calls: seq<Call>): (r: Shim)
    requires WellFormed(s) && Fits(s, calls)
    ensures WellFormed(r) && |r.chips| == |s.chips|
  {
    if calls == [] then s
    else
      var last := calls[|calls| - 1];
      Stepped(Run(s, calls[..|calls| - 1]), last.vtime, last.reports)
  }

  // ---- time conservation ------------------------------------------------------------------

  function Durations(ds: seq<real>): real {
    if ds == [] then 0.0 else Durations(ds[..|ds| - 1]) + ds[|ds| - 1]
  }

  /** The latest analog time seen, and at least 0. */
  function Latest(calls: seq<Call>): real {
    if calls == [] then 0.0
    else
      var before, v := Latest(calls[..|calls| - 1]), calls[|calls| - 1].vtime;
      if v > before then v else before
  }

  /** The clock all chips share. */
  function ClockRun(calls: seq<Call>): Clock {
    if calls == [] then Clock(0.0, 0.0, [])
    else ClockStepped(ClockRun(calls[..|calls| - 1]), calls[|calls| - 1].vtime)
  }

  /** The times of the calls that step the cores. */
  function FlushTimes(calls: seq<Call>): seq<real> {
    if calls == [] then []
    else
      var front, v := calls[..|calls| - 1], calls[|calls| - 1].vtime;
      FlushTimes(front) + if Flushes(ClockRun(front), v) then [v] else []
  }

  lemma {:induction false} TimeConserved(calls: seq<Call>)
    ensures var k := ClockRun(calls);
            && k.last == Latest(calls)
            && Durations(k.durations) + k.accumulated == Latest(calls)
            && 0.0 <= k.accumulated < 0.000001
            && forall i :: 0 <= i < |k.durations| ==> k.durations[i] >= 0.000001
  {
    if calls != [] {
      var front := calls[..|calls| - 1];
      TimeConserved(front);
      var before, k := ClockRun(front), ClockRun(calls);
      if k.durations != before.durations {
        assert k.durations[..|k.durations| - 1] == before.durations;
      }
    }
  }

  /** A call steps the cores exactly if it is at least a microsecond later than the last that did. */
  lemma {:induction false} FlushExact(calls: seq<Call>, vtime: real)
    ensures var k := ClockRun(calls);
            && LastFlush(calls) == k.last - k.accumulated
            && (Flushes(k, vtime) <==> vtime > Latest(calls) && vtime - LastFlush(calls) >= 0.000001)
            && (Flushes(k, vtime) <==> |ClockStepped(k, vtime).durations| == |k.durations| + 1)
  {
    TimeConserved(calls);
    if calls != [] {
      FlushExact(calls[..|calls| - 1], calls[|calls| - 1].vtime);
      TimeConserved(calls[..|calls| - 1]);
    }
  }

  /** The time of the last call that stepped the cores, 0 if none did. */
  function LastFlush(calls: seq<Call>): real {
    var flushes := FlushTimes(calls);
    if flushes == [] then 0.0 else flushes[|flushes| - 1]
  }

  /** All chips hold the same clock. */
  predicate Lockstep(s: Shim, k: Clock) {
    forall c :: 0 <= c < |s.chips| ==> s.chips[c].clock == k
  }

  lemma {:induction false} ChipsStepClocks(s: Shim, vtime: real, reports: seq<seq<PinChange>>, n: nat)
    requires WellFormed(s) && n <= |reports| == |s.chips|
    ensures forall c :: 0 <= c < |s.chips| ==>
      ChipsStepped(s, vtime, reports, n).chips[c].clock
      == if c < n then ClockStepped(s.chips[c].clock, vtime) else s.chips[c].clock
  {
    if n > 0 {
      ChipsStepClocks(s, vtime, reports, n - 1);
    }
  }

  lemma StepKeepsLockstep(s: Shim, k: Clock, vtime: real, reports: seq<seq<PinChange>>)
    requires WellFormed(s) && |reports| == |s.chips| && Lockstep(s, k)
    ensures Lockstep(Stepped(s, vtime, reports), ClockStepped(k, vtime))
  {
    ChipsStepClocks(Initialised(s), vtime, reports, |reports|);
  }

  /** For every sequence of calls: the steps given to each core and the remainder add up
      to the latest time seen, and the remainder stays below one quantum. */
  lemma {:induction false} EveryChipKeepsTime(s: Shim, calls: seq<Call>, c: nat)
    requires SetUp(s) && Fits(s, calls) && c < |s.chips|
    ensures Lockstep(Run(s, calls), ClockRun(calls))
    ensures var k := Run(s, calls).chips[c].clock;
            && Durations(k.durations) + k.accumulated == Latest(calls)
            && 0.0 <= k.accumulated < 0.000001
  {
    if calls != [] {
      var n := |calls| - 1;
      EveryChipKeepsTime(s, calls[..n], c);
      StepKeepsLockstep(Run(s, calls[..n]), ClockRun(calls[..n]), calls[n].vtime, calls[n].reports);
    }
    TimeConserved(calls);
  }

  // ---- timed injections ---------------------------------------------------------------------

  lemma {:induction false} NothingLeftToFire(armed: seq<real>, vtime: real, chip: nat, n: nat)
    requires n <= |armed|
    ensures Fired(Disarmed(armed, vtime, |armed|), chip, vtime, n) == []
    ensures Disarmed(Disarmed(armed, vtime, |armed|), vtime, |armed|) == Disarmed(armed, vtime, |armed|)
  {
    if n > 0 {
      NothingLeftToFire(armed, vtime, chip, n - 1);
    }
  }

  /** Only chip 0, visited first, fires anything in a step. */
  lemma {:induction false} OnlyChipZeroFires(s: Shim, k: Clock, vtime: real, reports: seq<seq<PinChange>>, n: nat)
    requires WellFormed(s) && 0 < n <= |reports| == |s.chips| && Lockstep(s, k)
    ensures var r := ChipsStepped(s, vtime, reports, n);
            var all := |s.injectVtime|;
            if Flushes(k, vtime) then
              r.injectVtime == Disarmed(s.injectVtime, vtime, all)
              && r.injected == s.injected + Fired(s.injectVtime, 0, vtime, all)
            else r.injectVtime == s.injectVtime && r.injected == s.injected
  {
    var before := ChipsStepped(s, vtime, reports, n - 1);
    ChipsStepClocks(s, vtime, reports, n - 1);
    assert before.chips[n - 1].clock == k;
    if n == 1 {
      assert before == s;
    } else {
      OnlyChipZeroFires(s, k, vtime, reports, n - 1);
      NothingLeftToFire(s.injectVtime, vtime, n - 1, |s.injectVtime|);
    }
  }

  /** The armed times left after flushes at the given times. */
  function Remaining(armed: seq<real>, flushes: seq<real>): (r: seq<real>)
    ensures |r| == |armed|
  {
    if flushes == [] then armed
    else
      var before := Remaining(armed, flushes[..|flushes| - 1]);
      Disarmed(before, flushes[|flushes| - 1], |armed|)
  }

  /** `at` is the first of the flush times at or after `due`. */
  predicate FirstFlush(flushes: seq<real>, due: real, at: real) {
    && at in flushes && due <= at
    && forall k :: 0 <= k < |flushes| && flushes[k] < at ==> flushes[k] < due
  }

  /** A delivery into chip 0, of an armed injection, at its first flush. */
  predicate Placed(e: Injection, armed: seq<real>, flushes: seq<real>) {
    e.chip == 0 && e.index < |armed| && 0.0 <= armed[e.index] && FirstFlush(flushes, armed[e.index], e.at)
  }

  /** In order of time, and of index within one flush. */
  predicate InOrder(log: seq<Injection>) {
    forall p, q :: 0 <= p < q < |log| ==>
      log[p].at < log[q].at || (log[p].at == log[q].at && log[p].index < log[q].index)
  }

  predicate Fires(log: seq<Injection>, i: nat) {
    exists p :: 0 <= p < |log| && log[p].index == i
  }

  predicate AllPlaced(log: seq<Injection>, armed: seq<real>, flushes: seq<real>) {
    forall p :: 0 <= p < |log| ==> Placed(log[p], armed, flushes)
  }

  /** The deliveries of a run: each in its place, in order, and none missing. */
  predicate Delivered(log: seq<Injection>, armed: seq<real>, flushes: seq<real>) {
    && AllPlaced(log, armed, flushes)
    && InOrder(log)
    && (forall i :: 0 <= i < |armed| && flushes != [] && 0.0 <= armed[i] <= flushes[|flushes| - 1] ==> Fires(log, i))
  }

  predicate Ascending(flushes: seq<real>) {
    forall j, k :: 0 <= j < k < |flushes| ==> flushes[j] < flushes[k]
  }

  lemma {:induction false} FlushesAscend(calls: seq<Call>)
    ensures Ascending(FlushTimes(calls))
    ensures forall k :: 0 <= k < |FlushTimes(calls)| ==> 0.0 < FlushTimes(calls)[k] <= ClockRun(calls).last
    ensures 0.0 <= ClockRun(calls).last
  {
    if calls != [] {
      FlushesAscend(calls[..|calls| - 1]);
    }
  }

  lemma {:induction false} RemainingIs(armed: seq<real>, flushes: seq<real>, i: nat)
    requires Ascending(flushes) && i < |armed|
    ensures Remaining(armed, flushes)[i]
            == if flushes != [] && Due(armed[i], flushes[|flushes| - 1]) then -1.0 else armed[i]
  {
    if flushes != [] {
      RemainingIs(armed, flushes[..|flushes| - 1], i);
    }
  }

  /** Fired entries are the due ones, in order of index. */
  lemma {:induction false} FiredContents(armed: seq<real>, chip: nat, vtime: real, n: nat, log: seq<Injection>)
    requires n <= |armed| && log == Fired(armed, chip, vtime, n)
    ensures forall p :: 0 <= p < |log| ==>
      log[p].index < n && log[p] == Injection(chip, log[p].index, vtime) && Due(armed[log[p].index], vtime)
    ensures forall p, q :: 0 <= p < q < |log| ==> log[p].index < log[q].index
    ensures forall i :: 0 <= i < n && Due(armed[i], vtime) ==> Fires(log, i)
  {
    if n > 0 {
      var before := Fired(armed, chip, vtime, n - 1);
      FiredContents(armed, chip, vtime, n - 1, before);
      forall i | 0 <= i < n && Due(armed[i], vtime) ensures Fires(log, i) {
        if i < n - 1 {
          FiresConcat(before, if Due(armed[n - 1], vtime) then [Injection(chip, n - 1, vtime)] else [], i);
        } else {
          assert log[|before|].index == i;
        }
      }
    }
  }

  lemma FiresConcat(a: seq<Injection>, b: seq<Injection>, i: nat)
    ensures Fires(a, i) || Fires(b, i) ==> Fires(a + b, i)
  {
    if Fires(a, i) {
      var p :| 0 <= p < |a| && a[p].index == i;
      assert (a + b)[p].index == i;
    } else if Fires(b, i) {
      var p :| 0 <= p < |b| && b[p].index == i;
      assert (a + b)[|a| + p].index == i;
    }
  }

  /** Deliveries keep their place when a later flush comes. */
  lemma StaysPlaced(e: Injection, armed: seq<real>, flushes: seq<real>, t: real)
    requires Placed(e, armed, flushes) && Ascending(flushes + [t])
    ensures Placed(e, armed, flushes + [t]) && e.at < t
  {
    var j :| 0 <= j < |flushes| && flushes[j] == e.at;
    assert (flushes + [t])[j] == e.at && (flushes + [t])[|flushes|] == t;
  }

  /** What is still armed and now due has found its first flush. */
  lemma NewlyPlaced(e: Injection, armed: seq<real>, flushes: seq<real>, t: real)
    requires Ascending(flushes + [t]) && e.index < |armed| && e == Injection(0, e.index, t)
    requires Due(Remaining(armed, flushes)[e.index], t)
    ensures Placed(e, armed, flushes + [t])
  {
    var later := flushes + [t];
    assert forall k :: 0 <= k < |flushes| ==> flushes[k] == later[k];
    RemainingIs(armed, flushes, e.index);
    assert later[|flushes|] == t;
    forall k | 0 <= k < |later| && later[k] < t ensures later[k] < armed[e.index] {
      if k < |flushes| {
        assert flushes[k] <= flushes[|flushes| - 1];
      }
    }
  }

  lemma OrderExtends(log: seq<Injection>, fired: seq<Injection>, t: real)
    requires InOrder(log) && forall p :: 0 <= p < |log| ==> log[p].at < t
    requires forall p :: 0 <= p < |fired| ==> fired[p].at == t
    requires forall p, q :: 0 <= p < q < |fired| ==> fired[p].index < fired[q].index
    ensures InOrder(log + fired)
  {
  }

  lemma NoneMissing(log: seq<Injection>, armed: seq<real>, flushes: seq<real>, t: real, i: nat)
    requires Delivered(log, armed, flushes) && Ascending(flushes + [t]) && i < |armed| && Due(armed[i], t)
    ensures Fires(log + Fired(Remaining(armed, flushes), 0, t, |armed|), i)
  {
    assert Ascending(flushes) by {
      assert forall k :: 0 <= k < |flushes| ==> flushes[k] == (flushes + [t])[k];
    }
    RemainingIs(armed, flushes, i);
    var fired := Fired(Remaining(armed, flushes), 0, t, |armed|);
    FiredContents(Remaining(armed, flushes), 0, t, |armed|, fired);
    FiresConcat(log, fired, i);
  }

  lemma AllPlacedConcat(a: seq<Injection>, b: seq<Injection>, armed: seq<real>, flushes: seq<real>)
    requires AllPlaced(a, armed, flushes) && AllPlaced(b, armed, flushes)
    ensures AllPlaced(a + b, armed, flushes)
  {
    hide Placed;
  }

  lemma DeliveredExtends(log: seq<Injection>, armed: seq<real>, flushes: seq<real>, t: real)
    requires Delivered(log, armed, flushes) && Ascending(flushes + [t])
    ensures Delivered(log + Fired(Remaining(armed, flushes), 0, t, |armed|), armed, flushes + [t])
  {
    var left := Remaining(armed, flushes);
    var fired := Fired(left, 0, t, |armed|);
    FiredContents(left, 0, t, |armed|, fired);
    hide Fired, Remaining, Placed, Fires, InOrder, Ascending, Due;
    forall p | 0 <= p < |log| ensures Placed(log[p], armed, flushes + [t]) && log[p].at < t {
      StaysPlaced(log[p], armed, flushes, t);
    }
    forall p | 0 <= p < |fired| ensures Placed(fired[p], armed, flushes + [t]) {
      NewlyPlaced(fired[p], armed, flushes, t);
    }
    AllPlacedConcat(log, fired, armed, flushes + [t]);
    OrderExtends(log, fired, t);
    hide AllPlaced;
    forall i | 0 <= i < |armed| && Due(armed[i], t) ensures Fires(log + fired, i) {
      NoneMissing(log, armed, flushes, t, i);
    }
  }

  lemma RemainingSnoc(armed: seq<real>, flushes: seq<real>, t: real)
    ensures Remaining(armed, flushes + [t]) == Disarmed(Remaining(armed, flushes), t, |armed|)
  {
    assert (flushes + [t])[..|flushes|] == flushes;
  }

  lemma StepDelivers(s: Shim, k: Clock, armed: seq<real>, flushes: seq<real>, vtime: real, reports: seq<seq<PinChange>>)
    requires WellFormed(s) && |reports| == |s.chips| > 0 && Lockstep(s, k)
    requires Delivered(s.injected, armed, flushes) && s.injectVtime == Remaining(armed, flushes)
    requires Flushes(k, vtime) ==> Ascending(flushes + [vtime])
    ensures var n, later := Stepped(s, vtime, reports), flushes + if Flushes(k, vtime) then [vtime] else [];
            Delivered(n.injected, armed, later) && n.injectVtime == Remaining(armed, later)
  {
    hide Remaining, Delivered, Fired, Disarmed, ChipsStepped, Ascending, Flushes;
    OnlyChipZeroFires(Initialised(s), k, vtime, reports, |reports|);
    if Flushes(k, vtime) {
      DeliveredExtends(s.injected, armed, flushes, vtime);
      RemainingSnoc(armed, flushes, vtime);
    } else {
      assert flushes + [] == flushes;
    }
  }

  /** In every run, the deliveries are exactly those due, each at its first flush. */
  lemma {:induction false} InjectionsDelivered(s: Shim, calls: seq<Call>)
    requires SetUp(s) && Fits(s, calls)
    ensures Delivered(Run(s, calls).injected, s.injectVtime, FlushTimes(calls))
    ensures Run(s, calls).injectVtime == Remaining(s.injectVtime, FlushTimes(calls))
  {
    if calls != [] {
      var n := |calls| - 1;
      var front, last := calls[..n], calls[n];
      InjectionsDelivered(s, front);
      EveryChipKeepsTime(s, front, 0);
      FlushesAscend(calls);
      hide Remaining, Delivered, ClockRun, Stepped, Lockstep, Ascending, Flushes;
      StepDelivers(Run(s, front), ClockRun(front), s.injectVtime, FlushTimes(front), last.vtime, last.reports);
    }
  }

  lemma FirstFlushUnique(flushes: seq<real>, due: real, at: real, due': real, at': real)
    requires FirstFlush(flushes, due, at) && FirstFlush(flushes, due', at')
    ensures due == due' ==> at == at'
  {
    var j :| 0 <= j < |flushes| && flushes[j] == at;
    var k :| 0 <= k < |flushes| && flushes[k] == at';
  }

  /** Hence no injection fires twice. */
  lemma AtMostOnce(log: seq<Injection>, armed: seq<real>, flushes: seq<real>, p: nat, q: nat)
    requires Delivered(log, armed, flushes) && p < q < |log|
    ensures log[p].index != log[q].index
  {
    FirstFlushUnique(flushes, armed[log[p].index], log[p].at, armed[log[q].index], log[q].at);
  }

  // ---- pins ---------------------------------------------------------------------------------

  /** A pin by itself: its mirrored value and everything sent for it. */
  datatype Trace = Trace(pin: Pin, sends: seq<Digital>)

  function Follow(t: Trace, changes: seq<PinChange>): Trace {
    if changes == [] then t
    else
      var before, change := Follow(t, changes[..|changes| - 1]), changes[|changes| - 1];
      Trace(PinChanged(before.pin, change), before.sends + PinSends(before.pin, change))
  }

  /** A pin from the moment it is released on the first step. */
  function PinHistory(changes: seq<PinChange>): Trace {
    Follow(Trace(RESTING, [RELEASED]), changes)
  }

  function OfPin(changes: seq<PinChange>, id: nat): seq<PinChange> {
    if changes == [] then []
    else OfPin(changes[..|changes| - 1], id)
         + if changes[|changes| - 1].id == id then [changes[|changes| - 1]] else []
  }

  function SentTo(sent: seq<Send>, pin: nat): seq<Digital> {
    if sent == [] then []
    else SentTo(sent[..|sent| - 1], pin)
         + if sent[|sent| - 1].pin == pin then [sent[|sent| - 1].value] else []
  }

  lemma {:induction false} SentToConcat(a: seq<Send>, b: seq<Send>, pin: nat)
    ensures SentTo(a + b, pin) == SentTo(a, pin) + SentTo(b, pin)
  {
    if b == [] {
      assert a + b == a;
    } else {
      SentToConcat(a, b[..|b| - 1], pin);
      assert (a + b)[..|a + b| - 1] == a + b[..|b| - 1];
    }
  }

  lemma {:induction false} SentToOnPin(values: seq<Digital>, at: nat, pin: nat)
    ensures SentTo(OnPin(at, values), pin) == if at == pin then values else []
  {
    if values != [] {
      var n := |values| - 1;
      SentToOnPin(values[..n], at, pin);
      assert OnPin(at, values)[..n] == OnPin(at, values[..n]);
    }
  }

  lemma {:induction false} SentToReleases(n: nat, pin: nat)
    ensures SentTo(Releases(n), pin) == if pin < n then [RELEASED] else []
  {
    if n > 0 {
      SentToReleases(n - 1, pin);
      assert Releases(n)[..n - 1] == Releases(n - 1);
    }
  }

  lemma FollowSnoc(t: Trace, changes: seq<PinChange>, change: PinChange)
    ensures var before := Follow(t, changes);
            Follow(t, changes + [change])
            == Trace(PinChanged(before.pin, change), before.sends + PinSends(before.pin, change))
  {
    assert (changes + [change])[..|changes|] == changes;
  }

  lemma {:induction false} FollowConcat(t: Trace, a: seq<PinChange>, b: seq<PinChange>)
    ensures Follow(t, a + b) == Follow(Follow(t, a), b)
  {
    hide PinChanged, PinSends;
    if b == [] {
      assert a + b == a;
    } else {
      FollowConcat(t, a, b[..|b| - 1]);
      assert (a + b)[..|a + b| - 1] == a + b[..|b| - 1];
    }
  }

  lemma {:induction false} OfPinConcat(a: seq<PinChange>, b: seq<PinChange>, id: nat)
    ensures OfPin(a + b, id) == OfPin(a, id) + OfPin(b, id)
  {
    if b == [] {
      assert a + b == a;
    } else {
      OfPinConcat(a, b[..|b| - 1], id);
      assert (a + b)[..|a + b| - 1] == a + b[..|b| - 1];
    }
  }

  /** Taking a chip's changes sends nothing on behalf of any other chip. */
  lemma {:induction false} OthersUntouched(m: Mirror, base: nat, changes: seq<PinChange>, pin: nat)
    requires |m.pins| == PINS && (pin < base || pin >= base + PINS)
    ensures SentTo(TakenAll(m, base, changes).sent, pin) == SentTo(m.sent, pin)
  {
    hide PinChanged, PinSends, OnPin, SentTo;
    if changes != [] {
      var n := |changes| - 1;
      var before, change := TakenAll(m, base, changes[..n]), changes[n];
      OthersUntouched(m, base, changes[..n], pin);
      if change.id < PINS {
        var sends := PinSends(before.pins[change.id], change);
        SentToConcat(before.sent, OnPin(base + change.id, sends), pin);
        SentToOnPin(sends, base + change.id, pin);
      }
    }
  }

  /** Taking a chip's changes moves each of its pins along that pin's own changes. */
  lemma {:induction false} PinsIndependent(m: Mirror, base: nat, changes: seq<PinChange>, id: nat)
    requires |m.pins| == PINS && id < PINS
    ensures var r := TakenAll(m, base, changes);
            Trace(r.pins[id], SentTo(r.sent, base + id))
            == Follow(Trace(m.pins[id], SentTo(m.sent, base + id)), OfPin(changes, id))
  {
    hide PinChanged, PinSends, OnPin, SentTo, Follow;
    var start := Trace(m.pins[id], SentTo(m.sent, base + id));
    FollowConcat(start, [], []);
    if changes == [] {
      FollowNothing(start);
    } else {
      var n := |changes| - 1;
      var before, change := TakenAll(m, base, changes[..n]), changes[n];
      PinsIndependent(m, base, changes[..n], id);
      FollowSnoc(start, OfPin(changes[..n], id), change);
      OnePin(before, base, change, id);
      assert OfPin(changes, id) == OfPin(changes[..n], id) + if change.id == id then [change] else [];
      hide OfPin, Taken;
      assert OfPin(changes[..n], id) + [] == OfPin(changes[..n], id);
    }
  }

  /** One change moves its own pin and no other. */
  lemma OnePin(m: Mirror, base: nat, change: PinChange, id: nat)
    requires |m.pins| == PINS && id < PINS
    ensures var r := Taken(m, base, change);
            && r.pins[id] == (if change.id == id then PinChanged(m.pins[id], change) else m.pins[id])
            && SentTo(r.sent, base + id)
               == SentTo(m.sent, base + id) + if change.id == id then PinSends(m.pins[id], change) else []
  {
    hide PinChanged, PinSends, OnPin, SentTo;
    if change.id < PINS {
      var sends := PinSends(m.pins[change.id], change);
      SentToConcat(m.sent, OnPin(base + change.id, sends), base + id);
      SentToOnPin(sends, base + change.id, base + id);
    }
  }

  lemma FollowNothing(t: Trace)
    ensures Follow(t, []) == t
  {
  }

  /** Pin `id` of chip `c` is where its own history since the first step puts it. */
  predicate PinStory(s: Shim, c: nat, id: nat)
    requires WellFormed(s) && c < |s.chips| && id < PINS
  {
    Trace(s.chips[c].pins[id], SentTo(s.sent, c * PINS + id)) == PinHistory(OfPin(s.chips[c].delivered, id))
  }

  lemma ChipStepKeepsStory(s: Shim, d: nat, vtime: real, changes: seq<PinChange>, c: nat, id: nat)
    requires WellFormed(s) && c < |s.chips| && d < |s.chips| && id < PINS && PinStory(s, c, id)
    ensures PinStory(ChipStepped(s, d, vtime, changes), c, id)
  {
    hide SentTo, Follow, OfPin, TakenAll, Fired, Disarmed;
    var mirror := Mirror(s.chips[d].pins, s.sent);
    if c == d {
      PinsIndependent(mirror, d * PINS, changes, id);
      OfPinConcat(s.chips[c].delivered, changes, id);
      FollowConcat(Trace(RESTING, [RELEASED]), OfPin(s.chips[c].delivered, id), OfPin(changes, id));
    } else {
      OthersUntouched(mirror, d * PINS, changes, c * PINS + id);
    }
  }

  lemma {:induction false} ChipsStepKeepStory(
      s: Shim, vtime: real, reports: seq<seq<PinChange>>, n: nat, c: nat, id: nat)
    requires WellFormed(s) && n <= |reports| == |s.chips| && c < |s.chips| && id < PINS && PinStory(s, c, id)
    ensures PinStory(ChipsStepped(s, vtime, reports, n), c, id)
  {
    hide PinStory, ChipStepped;
    if n > 0 {
      ChipsStepKeepStory(s, vtime, reports, n - 1, c, id);
      ChipStepKeepsStory(ChipsStepped(s, vtime, reports, n - 1), n - 1, vtime, reports[n - 1], c, id);
    }
  }

  lemma FirstStepReleases(s: Shim, c: nat, id: nat)
    requires SetUp(s) && c < |s.chips| && id < PINS
    ensures PinStory(Initialised(s), c, id)
  {
    hide SentTo, Releases;
    SentToReleases(|s.chips| * PINS, c * PINS + id);
    MulMonotone(c + 1, |s.chips|, PINS);
    assert [] + Releases(|s.chips| * PINS) == Releases(|s.chips| * PINS);
  }

  /** From the first step on, what is mirrored for a pin and all that was sent for it
      depend on that pin's own changes alone, in whatever batches they came. */
  lemma {:induction false} PinsFollowTheirChanges(s: Shim, calls: seq<Call>, c: nat, id: nat)
    requires SetUp(s) && Fits(s, calls) && c < |s.chips| && id < PINS
    ensures calls == [] ==> Run(s, calls) == s
    ensures calls != [] ==> Run(s, calls).initialised && PinStory(Run(s, calls), c, id)
  {
    hide PinStory, ChipsStepped;
    if calls != [] {
      var n := |calls| - 1;
      var before := Run(s, calls[..n]);
      PinsFollowTheirChanges(s, calls[..n], c, id);
      if n == 0 {
        FirstStepReleases(s, c, id);
      }
      ChipsStepKeepStory(Initialised(before), calls[n].vtime, calls[n].reports, |calls[n].reports|, c, id);
      ChipsStepFlag(Initialised(before), calls[n].vtime, calls[n].reports, |calls[n].reports|);
    }
  }

  lemma {:induction false} ChipsStepFlag(s: Shim, vtime: real, reports: seq<seq<PinChange>>, n: nat)
    requires WellFormed(s) && n <= |reports| == |s.chips|
    ensures ChipsStepped(s, vtime, reports, n).initialised == s.initialised
  {
    if n > 0 {
      ChipsStepFlag(s, vtime, reports, n - 1);
    }
  }

  // ---- what the bus sees --------------------------------------------------------------------

  /** The mirror is always the last value sent, and no value is sent twice in a row. */
  lemma {:induction false} MirrorIsLastSent(changes: seq<PinChange>)
    ensures var t := PinHistory(changes);
            && t.sends != [] && t.sends[|t.sends| - 1] == t.pin.out
            && forall i :: 0 < i < |t.sends| ==> t.sends[i] != t.sends[i - 1]
  {
    if changes != [] {
      MirrorIsLastSent(changes[..|changes| - 1]);
    }
  }

  /** A pin not last reported as an output does not drive the bus. */
  lemma {:induction false} InputsReleased(changes: seq<PinChange>)
    ensures var pin := PinHistory(changes).pin;
            && (pin.isOutput <==> changes != [] && changes[|changes| - 1].isOutput)
            && (!pin.isOutput ==> pin.out.strength == HiImpedance)
  {
    if changes != [] {
      InputsReleased(changes[..|changes| - 1]);
    }
  }

  /** A pin whose output changes are all open-drain is never driven high. */
  lemma {:induction false} OpenDrainNeverHigh(changes: seq<PinChange>, i: nat)
    requires forall k :: 0 <= k < |changes| && changes[k].isOutput ==> changes[k].wiredAnd
    requires i < |PinHistory(changes).sends|
    ensures PinHistory(changes).sends[i] != Digital(One, Strong)
  {
    if changes != [] {
      var front := changes[..|changes| - 1];
      if i < |PinHistory(front).sends| {
        OpenDrainNeverHigh(front, i);
      }
    }
  }

  /** What the bus is shown, in terms of the reported changes: a push-pull output its level, strong;
      an open-drain output a strong zero for low and nothing for high; a pin that has gone from
      output to input the level reported then, at high impedance; and a pin that never was an
      output nothing. */
  predicate Shows(changes: seq<PinChange>, out: Digital) {
    var n := |changes|;
    && (n > 0 && changes[n - 1].isOutput && !changes[n - 1].wiredAnd ==>
          out == Digital(if changes[n - 1].high then One else Zero, Strong))
    && (n > 0 && changes[n - 1].isOutput && changes[n - 1].wiredAnd ==>
          out == Digital(Zero, if changes[n - 1].high then HiImpedance else Strong))
    && (forall e :: 0 < e < n && changes[e - 1].isOutput && AllInputs(changes, e) ==>
          out == Digital(if changes[e].high then One else Zero, HiImpedance))
    && (AllInputs(changes, 0) ==> out == Digital(Zero, HiImpedance))
  }

  lemma {:induction false} ShownExact(changes: seq<PinChange>)
    ensures Shows(changes, PinHistory(changes).pin.out)
    ensures PinHistory(changes).pin.isOutput <==> changes != [] && changes[|changes| - 1].isOutput
  {
    if changes != [] {
      var n := |changes| - 1;
      ShownExact(changes[..n]);
      assert forall e :: 0 <= e < n && AllInputs(changes, e) ==> AllInputs(changes[..n], e);
    }
  }

  predicate AllInputs(changes: seq<PinChange>, e: nat) {
    forall j :: e <= j < |changes| ==> !changes[j].isOutput
  }

  /** A value is sent exactly when what is shown changes. */
  lemma SentWhenChanged(changes: seq<PinChange>, change: PinChange)
    ensures var before, after := PinHistory(changes), PinHistory(changes + [change]);
            after.sends == if after.pin.out == before.pin.out then before.sends else before.sends + [after.pin.out]
  {
    FollowSnoc(Trace(RESTING, [RELEASED]), changes, change);
    hide Follow;
    assert PinHistory(changes).sends + [] == PinHistory(changes).sends;
  }

  /** The changes reported by the core of chip c in the calls that stepped it. */
  function Reported(calls: seq<Call>, c: nat): seq<PinChange>
    requires forall i :: 0 <= i < |calls| ==> c < |calls[i].reports|
  {
    if calls == [] then []
    else
      var front, last := calls[..|calls| - 1], calls[|calls| - 1];
      Reported(front, c) + if Flushes(ClockRun(front), last.vtime) then last.reports[c] else []
  }

  lemma {:induction false} ChipsStepDeliver(s: Shim, vtime: real, reports: seq<seq<PinChange>>, n: nat, c: nat)
    requires WellFormed(s) && n <= |reports| == |s.chips| && c < |s.chips|
    ensures var r := ChipsStepped(s, vtime, reports, n);
            && r.chips[c].delivered
               == s.chips[c].delivered + (if c < n && Flushes(s.chips[c].clock, vtime) then reports[c] else [])
            && (c >= n ==> r.chips[c].clock == s.chips[c].clock)
  {
    hide TakenAll, Fired, Disarmed, Flushes, ClockStepped;
    if n > 0 {
      ChipsStepDeliver(s, vtime, reports, n - 1, c);
      assert s.chips[c].delivered + [] == s.chips[c].delivered;
    }
  }

  /** In every run, the changes mirrored are those reported in the calls that stepped the core. */
  lemma {:induction false} DeliveredIsReported(s: Shim, calls: seq<Call>, c: nat)
    requires SetUp(s) && Fits(s, calls) && c < |s.chips|
    ensures Run(s, calls).chips[c].delivered == Reported(calls, c)
  {
    if calls != [] {
      var n := |calls| - 1;
      var front, last := calls[..n], calls[n];
      var before := Run(s, front);
      DeliveredIsReported(s, front, c);
      EveryChipKeepsTime(s, front, 0);
      hide ChipsStepped, ClockRun, Flushes;
      ChipsStepDeliver(Initialised(before), last.vtime, last.reports, |last.reports|, c);
    }
  }

  /** In every run, from the first step on, of every pin of every chip: the mirror is the last
      value sent for it and what its reported changes show, no value is sent for it twice in a
      row, it is released unless last reported as an output, and if all its output changes are
      open-drain it is never sent as a strong one. */
  lemma BusSafety(s: Shim, calls: seq<Call>, c: nat, id: nat)
    requires SetUp(s) && Fits(s, calls) && calls != [] && c < |s.chips| && id < PINS
    ensures var r := Run(s, calls);
            var pin, sends, changes := r.chips[c].pins[id], SentTo(r.sent, c * 32 + id), OfPin(Reported(calls, c), id);
            && Shows(changes, pin.out)
            && sends != [] && sends[|sends| - 1] == pin.out
            && (forall i :: 0 < i < |sends| ==> sends[i] != sends[i - 1])
            && ((changes == [] || !changes[|changes| - 1].isOutput) ==> pin.out.strength == HiImpedance)
            && ((forall k :: 0 <= k < |changes| && changes[k].isOutput ==> changes[k].wiredAnd) ==>
                  forall i :: 0 <= i < |sends| ==> sends[i] != Digital(One, Strong))
  {
    PinsFollowTheirChanges(s, calls, c, id);
    var r := Run(s, calls);
    var changes := OfPin(r.chips[c].delivered, id);
    DeliveredIsReported(s, calls, c);
    ShownExact(changes);
    MirrorIsLastSent(changes);
    InputsReleased(changes);
    if forall k :: 0 <= k < |changes| && changes[k].isOutput ==> changes[k].wiredAnd {
      forall i | 0 <= i < |PinHistory(changes).sends| ensures PinHistory(changes).sends[i] != Digital(One, Strong) {
        OpenDrainNeverHigh(changes, i);
      }
    }
    hide Run, PinHistory, OfPin, SentTo, Reported, Shows;
  }

  // ---- identifiers --------------------------------------------------------------------------

  /** All identifiers sent are below 32 per chip. */
  ghost predicate InRange(s: Shim) {
    forall i :: 0 <= i < |s.sent| ==> s.sent[i].pin < 32 * |s.chips|
  }

  lemma {:induction false} TakenInRange(m: Mirror, base: nat, changes: seq<PinChange>, limit: nat)
    requires |m.pins| == PINS && base + PINS <= limit
    requires forall i :: 0 <= i < |m.sent| ==> m.sent[i].pin < limit
    ensures forall i :: 0 <= i < |TakenAll(m, base, changes).sent| ==> TakenAll(m, base, changes).sent[i].pin < limit
  {
    hide PinChanged, PinSends;
    if changes != [] {
      TakenInRange(m, base, changes[..|changes| - 1], limit);
    }
  }

  lemma {:induction false} ChipsStepInRange(s: Shim, vtime: real, reports: seq<seq<PinChange>>, n: nat)
    requires WellFormed(s) && n <= |reports| == |s.chips| && InRange(s)
    ensures InRange(ChipsStepped(s, vtime, reports, n))
  {
    if n > 0 {
      var before := ChipsStepped(s, vtime, reports, n - 1);
      ChipsStepInRange(s, vtime, reports, n - 1);
      TakenInRange(Mirror(before.chips[n - 1].pins, before.sent), (n - 1) * PINS, reports[n - 1], |s.chips| * PINS);
    }
  }

  lemma {:induction false} IdentifiersInRange(s: Shim, calls: seq<Call>)
    requires SetUp(s) && Fits(s, calls)
    ensures InRange(Run(s, calls))
  {
    if calls != [] {
      var n := |calls| - 1;
      IdentifiersInRange(s, calls[..n]);
      ChipsStepInRange(Initialised(Run(s, calls[..n])), calls[n].vtime, calls[n].reports, |calls[n].reports|);
    }
  }
}
