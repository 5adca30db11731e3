/** Exactly-once, in-order dispatch for any polling times, and when buffered bytes get lost. */
module StimulusProofs {
  import opened Common
  import opened Stimulus

  /** One call of the dispatcher, with the receivers as the program left them. */
  datatype Poll = Poll(now: nat, uarts: seq<Receiver>, uarts8x: seq<Receiver8x>)

  datatype State = State(next: nat, progress: nat, applied: seq<TimedStimulus>, taken: seq<bv8>)

  predicate Within(timed: seq<TimedStimulus>, bytes: seq<bv8>, s: State) {
    s.next <= |timed| && s.progress <= |bytes|
  }

  function Polled(timed: seq<TimedStimulus>, bytes: seq<bv8>, s: State, poll: Poll): (n: State)
    requires Within(timed, bytes, s)
    ensures Within(timed, bytes, n)
  {
    var next := DueFrom(timed, s.next, poll.now);
    var fed := Fed(poll.uarts, poll.uarts8x, bytes[s.progress..]);
    FedExact(poll.uarts, poll.uarts8x, bytes[s.progress..]);
    State(next, s.progress + fed.handed, s.applied + timed[s.next..next], s.taken + fed.taken)
  }

  function Run(timed: seq<TimedStimulus>, bytes: seq<bv8>, polls: seq<Poll>): (n: State)
    ensures Within(timed, bytes, n)
  {
    if polls == [] then State(0, 0, [], [])
    else Polled(timed, bytes, Run(timed, bytes, polls[..|polls| - 1]), polls[|polls| - 1])
  }

  // ---- timed stimuli ------------------------------------------------------------------------

  predicate SortedByTime(timed: seq<TimedStimulus>) {
    forall i, j :: 0 <= i < j < |timed| ==> timed[i].at <= timed[j].at
  }

  /** The latest polling time so far, -1 before the first. */
  function Latest(polls: seq<Poll>): int {
    if polls == [] then -1
    else
      var earlier, now := Latest(polls[..|polls| - 1]), polls[|polls| - 1].now;
      if earlier >= now then earlier else now
  }

  lemma {:induction false} AppliedSoFar(timed: seq<TimedStimulus>, bytes: seq<bv8>, polls: seq<Poll>)
    requires SortedByTime(timed)
    ensures var s := Run(timed, bytes, polls);
            s.next == DueFrom(timed, 0, Latest(polls)) && s.applied == timed[..s.next]
  {
    hide Fed;
    if polls != [] {
      AppliedSoFar(timed, bytes, polls[..|polls| - 1]);
      var before := Run(timed, bytes, polls[..|polls| - 1]);
      var next := DueFrom(timed, before.next, polls[|polls| - 1].now);
      assert timed[..before.next] + timed[before.next..next] == timed[..next];
    }
  }

  /** However the stimuli were given and sorted and whenever was polled: those due by the
      latest poll were applied, each as often as it was given, in the order of their times. */
  lemma ExactlyOnce(
    given: seq<TimedStimulus>, timed: seq<TimedStimulus>, bytes: seq<bv8>, polls: seq<Poll>, x: TimedStimulus)
    requires SortedByTime(timed) && multiset(timed) == multiset(given)
    ensures var applied := Run(timed, bytes, polls).applied;
            && SortedByTime(applied)
            && multiset(applied)[x] == if x.at <= Latest(polls) then multiset(given)[x] else 0
  {
    hide Run, Latest, DueFrom;
    AppliedSoFar(timed, bytes, polls);
    var k := DueFrom(timed, 0, Latest(polls));
    assert timed[..k] + timed[k..] == timed;
    assert multiset(timed) == multiset(timed[..k]) + multiset(timed[k..]);
    if x.at <= Latest(polls) {
      assert forall j :: 0 <= j < |timed[k..]| ==> timed[k..][j].at > Latest(polls);
      assert x !in timed[k..];
    } else {
      assert x !in timed[..k];
    }
  }

  // ---- buffered bytes -----------------------------------------------------------------------

  ghost function ReadyOnes(uarts: seq<Receiver>): set<nat> {
    set i: nat | i < |uarts| && uarts[i].enabled && !uarts[i].addressOnly && !uarts[i].full && !uarts[i].active
  }

  /** How many bytes one poll can place: one a ready receiver. */
  ghost function Room(uarts: seq<Receiver>, uarts8x: seq<Receiver8x>): nat {
    |ReadyOnes(uarts)| + if uarts8x != [] && uarts8x[0].enabled && !uarts8x[0].busy then 1 else 0
  }

  lemma OfferUsesOne(uarts: seq<Receiver>)
    ensures var (offered, ok) := OfferedAll(uarts);
            && |ReadyOnes(offered)| == |ReadyOnes(uarts)| - (if ok then 1 else 0)
            && ok == (|ReadyOnes(uarts)| > 0)
  {
    var k := FirstReady(uarts, 0);
    var (offered, ok) := OfferedAll(uarts);
    if ok {
      assert k in ReadyOnes(uarts);
      assert ReadyOnes(offered) == ReadyOnes(uarts) - {k};
    } else {
      assert ReadyOnes(uarts) == {} && ReadyOnes(offered) == {};
    }
  }

  /** One byte goes to the first ready receiver, which is busy then; those before it, or all if none
      is ready, note an overrun if they could have taken it but for a byte they hold. */
  lemma OfferExact(uarts: seq<Receiver>, i: nat)
    requires i < |uarts|
    ensures var before, after := uarts[i], OfferedAll(uarts).0[i];
            var asked := forall j: nat :: j < i ==> j !in ReadyOnes(uarts);
            after == if !asked || !before.enabled || before.addressOnly then before
                     else if before.full || before.active then before.(overrun := true)
                     else before.(active := true)
  {
    var k := FirstReady(uarts, 0);
    if i > k {
      assert k in ReadyOnes(uarts);
    }
  }

  /** A poll places the next bytes, as many as there is room for; without a newer receiver
      it hands on no others, and with one it hands on them all. */
  lemma {:induction false} FedExact(uarts: seq<Receiver>, uarts8x: seq<Receiver8x>, bytes: seq<bv8>)
    ensures var fed, placed := Fed(uarts, uarts8x, bytes), Min(|bytes|, Room(uarts, uarts8x));
            && fed.taken == bytes[..placed]
            && fed.handed == if uarts8x == [] then placed else |bytes|
    decreases |bytes|
  {
    hide OfferedAll, ReadyOnes;
    if bytes != [] {
      OfferUsesOne(uarts);
      var (offered, ok) := OfferedAll(uarts);
      if ok {
        FedExact(offered, uarts8x, bytes[1..]);
        var rest := Min(|bytes| - 1, Room(offered, uarts8x));
        assert bytes[..1] + bytes[1..][..rest] == bytes[..rest + 1];
      } else if uarts8x != [] {
        FedExact(offered, uarts8x[0 := Injected(uarts8x[0])], bytes[1..]);
      }
    }
  }

  /** Without a newer receiver: in every run, whatever is refused, the bytes taken are the
      bytes handed on, a prefix of the input. */
  lemma {:induction false} NothingLost(timed: seq<TimedStimulus>, bytes: seq<bv8>, polls: seq<Poll>)
    requires forall i :: 0 <= i < |polls| ==> polls[i].uarts8x == []
    ensures var s := Run(timed, bytes, polls); s.taken == bytes[..s.progress]
  {
    hide Fed, Room, DueFrom;
    if polls != [] {
      var poll := polls[|polls| - 1];
      NothingLost(timed, bytes, polls[..|polls| - 1]);
      var before := Run(timed, bytes, polls[..|polls| - 1]);
      FedExact(poll.uarts, poll.uarts8x, bytes[before.progress..]);
      var n := Run(timed, bytes, polls).progress;
      assert bytes[..before.progress] + bytes[before.progress..][..n - before.progress] == bytes[..n];
    }
  }

  /** With a newer receiver the first poll decides: what it has room for is taken, the rest
      of the input is gone. */
  lemma {:induction false} FirstPollDecides(timed: seq<TimedStimulus>, bytes: seq<bv8>, polls: seq<Poll>)
    requires polls != [] && forall i :: 0 <= i < |polls| ==> polls[i].uarts8x != []
    ensures var s := Run(timed, bytes, polls);
            s.progress == |bytes| && s.taken == bytes[..Min(|bytes|, Room(polls[0].uarts, polls[0].uarts8x))]
  {
    hide Fed, Room, DueFrom;
    var front, poll := polls[..|polls| - 1], polls[|polls| - 1];
    var before := Run(timed, bytes, front);
    FedExact(poll.uarts, poll.uarts8x, bytes[before.progress..]);
    if front == [] {
      assert bytes[0..] == bytes;
    } else {
      FirstPollDecides(timed, bytes, front);
      assert bytes[|bytes|..] == [];
    }
  }

  /** The bytes handed on all arrive exactly if there is no newer receiver, or the first poll
      has room for the whole input. */
  lemma LosslessExact(timed: seq<TimedStimulus>, bytes: seq<bv8>, polls: seq<Poll>, newer: bool)
    requires forall i :: 0 <= i < |polls| ==> (polls[i].uarts8x != []) == newer
    ensures var s := Run(timed, bytes, polls);
            |s.taken| == s.progress
            <==> (!newer || polls == [] || |bytes| <= Room(polls[0].uarts, polls[0].uarts8x))
  {
    hide Room;
    if !newer {
      NothingLost(timed, bytes, polls);
      hide Run;
    } else if polls != [] {
      FirstPollDecides(timed, bytes, polls);
      hide Run;
    }
  }

  /** Two bytes and an idle newer receiver alone: the second is lost. */
  lemma SecondByteLost(now: nat)
    ensures var s := Run([], [0x48, 0x69], [Poll(now, [], [Receiver8x(true, false)])]);
            s.progress == 2 && s.taken == [0x48]
  {
    var idle := [Receiver8x(true, false)];
    FirstPollDecides([], [0x48, 0x69], [Poll(now, [], idle)]);
    assert ReadyOnes([]) == {};
    hide Run;
  }
}
