/** Compaction of a peripheral's register addresses into the ranges it is mapped at. */
module AddressRanges {
  import opened Common

  datatype Range = Range(begin: nat, end: nat)

  predicate Increasing(xs: seq<nat>) {
    forall i, j :: 0 <= i < j < |xs| ==> xs[i] < xs[j]
  }

  function InsertUnique(x: nat, xs: seq<nat>): (r: seq<nat>)
    requires Increasing(xs)
    ensures Increasing(r)
    ensures forall a :: a in r <==> a == x || a in xs
  {
    if xs == [] || x < xs[0] then [x] + xs
    else if x == xs[0] then xs
    else
      var rest := InsertUnique(x, xs[1..]);
      InFront(x, xs, rest);
      [xs[0]] + rest
  }

  lemma InFront(x: nat, xs: seq<nat>, rest: seq<nat>)
    requires xs != [] && Increasing(xs) && xs[0] < x
    requires Increasing(rest) && forall a :: a in rest <==> a == x || a in xs[1..]
    ensures Increasing([xs[0]] + rest)
    ensures forall a :: a in [xs[0]] + rest <==> a == x || a in xs
  {
    assert xs == [xs[0]] + xs[1..];
    forall k | 0 <= k < |rest| ensures xs[0] < rest[k] {
      assert rest[k] in rest;
    }
  }

  /** std::sort followed by std::unique. */
  function SortedUnique(xs: seq<nat>): (r: seq<nat>)
    ensures Increasing(r)
    ensures forall a :: a in r <==> a in xs
  {
    if xs == [] then []
    else
      assert forall a :: a in xs <==> a == xs[0] || a in xs[1..];
      InsertUnique(xs[0], SortedUnique(xs[1..]))
  }

  /** Address 0 stands for an absent register. */
  function Present(addrs: seq<nat>): (r: seq<nat>)
    ensures forall a :: a in r <==> a in addrs && a != 0
  {
    if addrs == [] then []
    else
      assert forall a :: a in addrs <==> a == addrs[0] || a in addrs[1..];
      if addrs[0] != 0 then [addrs[0]] + Present(addrs[1..]) else Present(addrs[1..])
  }

  predicate Contains(r: Range, a: nat) {
    r.begin <= a <= r.end
  }

  predicate Covers(rs: seq<Range>, a: nat) {
    exists i :: 0 <= i < |rs| && Contains(rs[i], a)
  }

  /** Non-empty, ascending, disjoint and with a gap between neighbours. */
  predicate Separated(rs: seq<Range>) {
    && (forall i :: 0 <= i < |rs| ==> rs[i].begin <= rs[i].end)
    && (forall i, j :: 0 <= i < j < |rs| ==> rs[i].end + 1 < rs[j].begin)
  }

  /** rs are the maximal runs of consecutive values of xs. */
  ghost predicate IsRuns(rs: seq<Range>, xs: seq<nat>) {
    Separated(rs) && forall a :: Covers(rs, a) <==> a in xs
  }

  function Runs(xs: seq<nat>): seq<Range> {
    if xs == [] then []
    else
      var n := |xs| - 1;
      Extended(Runs(xs[..n]), xs[n])
  }

  /** The runs once address x, above all others, has joined. */
  function Extended(rs: seq<Range>, x: nat): seq<Range> {
    if rs != [] && x == rs[|rs| - 1].end + 1 then rs[..|rs| - 1] + [Range(rs[|rs| - 1].begin, x)]
    else rs + [Range(x, x)]
  }

  predicate Upright(rs: seq<Range>) {
    forall i :: 0 <= i < |rs| ==> rs[i].begin <= rs[i].end
  }

  lemma ExtendedUpright(rs: seq<Range>, x: nat, a: nat)
    requires Upright(rs)
    ensures Upright(Extended(rs, x)) && (Covers(Extended(rs, x), a) <==> Covers(rs, a) || a == x)
  {
    var es, n := Extended(rs, x), |rs|;
    if Covers(rs, a) {
      var i :| 0 <= i < n && Contains(rs[i], a);
      assert Contains(es[i], a);
    }
    if a == x {
      assert Contains(es[|es| - 1], a);
    }
    if Covers(es, a) && a != x {
      var i :| 0 <= i < |es| && Contains(es[i], a);
      assert i < n && Contains(rs[i], a);
    }
  }

  lemma ExtendedCovers(rs: seq<Range>, x: nat, a: nat)
    requires Separated(rs) && (rs != [] ==> rs[|rs| - 1].end < x)
    ensures Separated(Extended(rs, x)) && Extended(rs, x)[|Extended(rs, x)| - 1].end == x
    ensures Covers(Extended(rs, x), a) <==> Covers(rs, a) || a == x
  {
    hide Covers;
    ExtendedUpright(rs, x, a);
  }

  lemma {:induction false} RunsAreRuns(xs: seq<nat>)
    requires Increasing(xs)
    ensures IsRuns(Runs(xs), xs)
    ensures xs != [] ==> Runs(xs) != [] && Runs(xs)[|Runs(xs)| - 1].end == xs[|xs| - 1]
  {
    if xs != [] {
      var n := |xs| - 1;
      RunsAreRuns(xs[..n]);
      forall a ensures Covers(Runs(xs), a) <==> a in xs {
        ExtendedCovers(Runs(xs[..n]), xs[n], a);
        assert a in xs <==> a in xs[..n] || a == xs[n];
      }
      ExtendedCovers(Runs(xs[..n]), xs[n], 0);
    }
  }

  lemma FirstRun(rs: seq<Range>, ss: seq<Range>)
    requires Separated(rs) && Separated(ss) && rs != []
    requires forall a :: Covers(rs, a) ==> Covers(ss, a)
    ensures ss != [] && ss[0].begin <= rs[0].begin
    ensures ss[0].begin == rs[0].begin ==> rs[0].end <= ss[0].end
  {
    FirstCovers(rs, rs[0].begin);
    if ss != [] {
      FirstEnds(ss);
      FirstCovers(rs, ss[0].end + 1);
    }
  }

  lemma FirstCovers(rs: seq<Range>, a: nat)
    requires rs != []
    ensures rs[0].begin <= a <= rs[0].end ==> Covers(rs, a)
  {
    assert Contains(rs[0], a) <==> rs[0].begin <= a <= rs[0].end;
  }

  lemma FirstEnds(rs: seq<Range>)
    requires Separated(rs) && rs != []
    ensures !Covers(rs, rs[0].end + 1)
  {
  }

  /** The maximal runs of a set are unique: no other separated list covers the same. */
  lemma {:induction false} RunsUnique(rs: seq<Range>, ss: seq<Range>)
    requires Separated(rs) && Separated(ss)
    requires forall a :: Covers(rs, a) <==> Covers(ss, a)
    ensures rs == ss
  {
    if rs != [] {
      FirstRun(rs, ss);
    }
    if ss != [] {
      FirstRun(ss, rs);
      forall a ensures Covers(rs[1..], a) <==> Covers(ss[1..], a) {
        TailCovers(rs, a);
        TailCovers(ss, a);
      }
      RunsUnique(rs[1..], ss[1..]);
      assert rs == [rs[0]] + rs[1..] && ss == [ss[0]] + ss[1..];
    }
  }

  lemma TailCovers(rs: seq<Range>, a: nat)
    requires Separated(rs) && rs != []
    ensures Covers(rs[1..], a) <==> Covers(rs, a) && a > rs[0].end
  {
    if Covers(rs[1..], a) {
      var i :| 0 <= i < |rs[1..]| && Contains(rs[1..][i], a);
      assert Contains(rs[i + 1], a);
    }
    if Covers(rs, a) && a > rs[0].end {
      var i :| 0 <= i < |rs| && Contains(rs[i], a);
      assert Contains(rs[1..][i - 1], a);
    }
  }

  /** All runs but the last are final: later addresses only extend the list. */
  lemma {:induction false} RunsSettle(xs: seq<nat>, i: nat)
    requires 0 < i <= |xs|
    ensures 0 < |Runs(xs[..i])| <= |Runs(xs)|
    ensures forall k :: 0 <= k < |Runs(xs[..i])| - 1 ==> Runs(xs)[k] == Runs(xs[..i])[k]
  {
    if i == |xs| {
      assert xs[..i] == xs && Runs(xs) == Extended(Runs(xs[..i - 1]), xs[i - 1]);
    } else {
      var n := |xs| - 1;
      assert Runs(xs) == Extended(Runs(xs[..n]), xs[n]);
      hide Runs, Extended;
      RunsSettle(xs[..n], i);
      assert xs[..n][..i] == xs[..i];
      ExtendedKeeps(Runs(xs[..n]), xs[n]);
    }
  }

  lemma ExtendedKeeps(rs: seq<Range>, x: nat)
    ensures var es := Extended(rs, x);
            0 < |es| && |rs| <= |es| && forall k :: 0 <= k < |rs| - 1 ==> es[k] == rs[k]
  {
  }

  lemma RunsStep(xs: seq<nat>, i: nat)
    requires i < |xs|
    ensures Runs(xs[..i + 1]) == Extended(Runs(xs[..i]), xs[i])
  {
    assert xs[..i + 1][..i] == xs[..i];
  }

  /** Writes the runs of sorted addresses into `ranges`, as many as it holds. */
  method FillRanges(addrs: seq<nat>, ranges: array<Range>) returns (count: nat)
    requires ranges.Length > 0 && addrs != []
    modifies ranges
    ensures count == Min(ranges.Length, |Runs(addrs)|) && ranges[..count] == Runs(addrs)[..count]
  {
    count := 0;
    var start, end := addrs[0], addrs[0];
    var i := 1;
    RunsStep(addrs, 0);
    hide Runs;
    while i < |addrs|
      invariant 1 <= i <= |addrs|
      invariant count < ranges.Length
      invariant Runs(addrs[..i]) == ranges[..count] + [Range(start, end)]
    {
      RunsStep(addrs, i);
      if addrs[i] == end + 1 {
        end := addrs[i];
      } else {
        ranges[count] := Range(start, end);
        count := count + 1;
        start, end := addrs[i], addrs[i];
        if count >= ranges.Length {
          RunsSettle(addrs, i + 1);
          return;
        }
      }
      i := i + 1;
    }
    assert addrs[..i] == addrs;
    if count < ranges.Length {
      ranges[count] := Range(start, end);
      count := count + 1;
    }
  }

  /** Fills `ranges` with the runs of the present addresses and counts them. */
  method Compact(addresses: seq<nat>, ranges: array<Range>) returns (count: nat)
    requires ranges.Length > 0
    modifies ranges
    ensures var runs := Runs(SortedUnique(Present(addresses)));
            count == Min(ranges.Length, |runs|) && ranges[..count] == runs[..count]
  {
    var addrs := SortedUnique(Present(addresses));
    count := 0;
    if addrs != [] {
      count := FillRanges(addrs, ranges);
    }
  }

  /** What the filled entries mean to the bus: they are separated, they hold nothing but
      the given addresses, and they hold all of them unless the array was too short. */
  lemma FilledCovers(xs: seq<nat>, count: nat, a: nat)
    requires Increasing(xs) && count <= |Runs(xs)|
    ensures Separated(Runs(xs)[..count])
    ensures Covers(Runs(xs)[..count], a) ==> a in xs
    ensures count == |Runs(xs)| ==> (Covers(Runs(xs)[..count], a) <==> a in xs)
  {
    hide Runs, Separated, Covers, Increasing;
    var rs := Runs(xs);
    RunsCover(xs, a);
    PrefixKeeps(rs, count, a);
    assert rs[..|rs|] == rs;
  }

  lemma RunsCover(xs: seq<nat>, a: nat)
    requires Increasing(xs)
    ensures Separated(Runs(xs)) && (Covers(Runs(xs), a) <==> a in xs)
  {
    hide Runs, Separated, Covers, Increasing;
    RunsAreRuns(xs);
  }

  lemma PrefixKeeps(rs: seq<Range>, count: nat, a: nat)
    requires count <= |rs| && Separated(rs)
    ensures Separated(rs[..count])
    ensures Covers(rs[..count], a) ==> Covers(rs, a)
  {
    if Covers(rs[..count], a) {
      var i :| 0 <= i < count && Contains(rs[..count][i], a);
      assert Contains(rs[i], a);
    }
  }

  // ---- the classic converter's table --------------------------------------------------------

  predicate Sorted(xs: seq<nat>) {
    forall i, j :: 0 <= i < j < |xs| ==> xs[i] <= xs[j]
  }

  lemma {:induction false} PresentSnoc(xs: seq<nat>, x: nat)
    ensures Present(xs + [x]) == Present(xs) + if x != 0 then [x] else []
  {
    if xs == [] {
      assert [x][1..] == [] && Present([]) == [];
    } else {
      assert (xs + [x])[1..] == xs[1..] + [x];
      PresentSnoc(xs[1..], x);
    }
  }

  lemma RunsSnoc(xs: seq<nat>, x: nat)
    ensures Runs(xs + [x]) == Extended(Runs(xs), x)
  {
    assert (xs + [x])[..|xs|] == xs;
  }

  /** Later addresses never make the list of runs shorter. */
  lemma {:induction false} RunsGrow(xs: seq<nat>, ys: seq<nat>)
    ensures |Runs(xs)| <= |Runs(xs + ys)|
  {
    hide Runs;
    if ys == [] {
      assert xs + ys == xs;
    } else {
      var n := |ys| - 1;
      assert xs + ys == (xs + ys[..n]) + [ys[n]];
      RunsGrow(xs, ys[..n]);
      RunsSnoc(xs + ys[..n], ys[n]);
    }
  }

  lemma {:induction false} PresentConcat(xs: seq<nat>, ys: seq<nat>)
    ensures Present(xs + ys) == Present(xs) + Present(ys)
  {
    if xs == [] {
      assert xs + ys == ys;
    } else {
      assert (xs + ys)[1..] == xs[1..] + ys;
      PresentConcat(xs[1..], ys);
    }
  }

  /** Fills the table from sorted addresses, duplicates and all; `fits` tells whether every run
      found its place in the table. The loop itself does not look. */
  method FillTable(addrs: seq<nat>, ranges: array<Range>) returns (ri: nat, fits: bool)
    modifies ranges
    ensures fits <==> |Runs(Present(addrs))| <= ranges.Length
    ensures fits ==> ri == |Runs(Present(addrs))| && ranges[..ri] == Runs(Present(addrs))
  {
    hide Runs;
    ri, fits := 0, true;
    var i := 0;
    NothingSeparated();
    while i < |addrs|
      invariant i <= |addrs| && ri <= ranges.Length && fits
      invariant Runs(Present(addrs[..i])) == ranges[..ri]
    {
      var x := addrs[i];
      assert addrs[..i + 1] == addrs[..i] + [x];
      PresentSnoc(addrs[..i], x);
      i := i + 1;
      if x == 0 {
        assert Present(addrs[..i]) == Present(addrs[..i - 1]);
        continue;
      }
      RunsSnoc(Present(addrs[..i - 1]), x);
      ghost var before := ranges[..ri];
      if ri > 0 && x == ranges[ri - 1].end + 1 {
        ranges[ri - 1] := Range(ranges[ri - 1].begin, x);
        assert ranges[..ri] == before[..ri - 1] + [Range(before[ri - 1].begin, x)];
      } else if ri < ranges.Length {
        ranges[ri] := Range(x, x);
        ri := ri + 1;
        assert ranges[..ri] == before + [Range(x, x)];
      } else {
        fits := false;
        assert addrs[..i] + addrs[i..] == addrs;
        PresentConcat(addrs[..i], addrs[i..]);
        RunsGrow(Present(addrs[..i]), Present(addrs[i..]));
        return;
      }
    }
    assert addrs[..i] == addrs;
  }

  /** Addresses that do not follow directly on the one before. */
  function Breaks(xs: seq<nat>): nat {
    if xs == [] then 0
    else
      var n := |xs| - 1;
      Breaks(xs[..n]) + if n == 0 || xs[n] != xs[n - 1] + 1 then 1 else 0
  }

  /** Room is needed for one range a break, so the loop stays within the table exactly if there
      are at most as many breaks as places. */
  lemma {:induction false} OneRangePerBreak(xs: seq<nat>)
    ensures |Runs(xs)| == Breaks(xs)
    ensures xs != [] ==> Runs(xs) != [] && Runs(xs)[|Runs(xs)| - 1].end == xs[|xs| - 1]
  {
    if xs != [] {
      OneRangePerBreak(xs[..|xs| - 1]);
    }
  }

  /** Registers of which no two are neighbours need a place each. */
  lemma {:induction false} ScatteredNeedAll(xs: seq<nat>)
    requires forall i :: 0 < i < |xs| ==> xs[i] != xs[i - 1] + 1
    ensures |Runs(xs)| == |xs|
  {
    if xs != [] {
      ScatteredNeedAll(xs[..|xs| - 1]);
      OneRangePerBreak(xs);
      OneRangePerBreak(xs[..|xs| - 1]);
    }
  }

  lemma {:induction false} PresentAll(xs: seq<nat>)
    requires 0 !in xs
    ensures Present(xs) == xs
  {
    if xs != [] {
      PresentAll(xs[1..]);
      assert xs == [xs[0]] + xs[1..];
    }
  }

  /** A descriptor whose seven registers are scattered does not fit the table's five places. */
  lemma SevenDoNotFit()
    ensures |Runs(Present([1, 3, 5, 7, 9, 11, 13]))| == 7 > 5
  {
    PresentAll([1, 3, 5, 7, 9, 11, 13]);
    ScatteredNeedAll([1, 3, 5, 7, 9, 11, 13]);
  }

  /** A descriptor that gives two registers one address gets it mapped twice. */
  lemma TwiceMapped()
    ensures Runs(Present([7, 7])) == [Range(7, 7), Range(7, 7)] && !Separated(Runs(Present([7, 7])))
  {
    PresentAll([7, 7]);
    RunsSnoc([], 7);
    RunsSnoc([7], 7);
    assert [] + [7] == [7] && [7] + [7] == [7, 7];
    NothingSeparated();
    var rs := [Range(7, 7), Range(7, 7)];
    assert rs[0].end + 1 > rs[1].begin;
  }

  /** Duplicates or not, the table covers exactly the addresses. */
  lemma {:induction false} TableCovers(xs: seq<nat>, a: nat)
    ensures Upright(Runs(xs)) && (Covers(Runs(xs), a) <==> a in xs)
  {
    if xs != [] {
      var n := |xs| - 1;
      TableCovers(xs[..n], a);
      ExtendedUpright(Runs(xs[..n]), xs[n], a);
      assert a in xs <==> a in xs[..n] || a == xs[n];
      hide Covers, Extended, Upright;
    }
  }

  lemma ExtendedSeparated(rs: seq<Range>, x: nat)
    requires Upright(rs) && (rs != [] ==> rs[|rs| - 1].end <= x)
    ensures Separated(Extended(rs, x)) <==> Separated(rs) && (rs == [] || rs[|rs| - 1].end < x)
  {
    var es, n := Extended(rs, x), |rs|;
    if n > 0 && rs[n - 1].end < x {
      if Separated(rs) {
        ExtendedCovers(rs, x, 0);
      } else {
        assert forall i :: 0 <= i < n ==> es[i].begin == rs[i].begin && rs[i].end <= es[i].end;
      }
    } else if n > 0 {
      assert es[n] == Range(x, x) && es[n - 1] == rs[n - 1];
    }
  }

  lemma IncreasingSnoc(front: seq<nat>, x: nat)
    requires Sorted(front + [x])
    ensures Sorted(front) && (front != [] ==> front[|front| - 1] <= x)
    ensures Increasing(front + [x]) <==> Increasing(front) && (front == [] || front[|front| - 1] < x)
  {
    var n, xs := |front|, front + [x];
    assert forall i :: 0 <= i < n ==> xs[i] == front[i];
    assert xs[n] == x;
  }

  /** Its ranges are separated exactly if no address occurs twice. */
  lemma {:induction false} SeparatedExact(xs: seq<nat>)
    requires Sorted(xs)
    ensures Separated(Runs(xs)) <==> Increasing(xs)
  {
    hide Separated, Upright, Extended, Covers, Increasing, Sorted, Runs;
    if xs == [] {
      assert Runs(xs) == [] && Separated([]) && Increasing([]) by { NothingSeparated(); }
    } else {
      var front, x := xs[..|xs| - 1], xs[|xs| - 1];
      assert xs == front + [x];
      RunsSnoc(front, x);
      IncreasingSnoc(front, x);
      SeparatedExact(front);
      OneRangePerBreak(front);
      TableCovers(front, 0);
      if front == [] {
        NothingSeparated();
      }
      ExtendedSeparated(Runs(front), x);
    }
  }

  lemma NothingSeparated()
    ensures Runs([]) == [] && Separated([]) && Increasing([])
  {
  }
}
