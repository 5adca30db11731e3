/** The single-string form of sim_args: chips, and perhaps a JIT flag, between commas. */
module CommaArgs {
  import opened Common

  const MAX_CHIPS := 8
  const MAX_PARTS := 2 * MAX_CHIPS
  const PART_LENGTH := 255

  /** The parts of a text that follows `part`, at most `room`, each cut off at its length. */
  function Parts(text: string, part: string, room: nat): (parts: seq<string>)
    ensures |parts| <= room
    decreases |text|
  {
    if room == 0 then []
    else if text == "" then [part]
    else if text[0] == ',' then [part] + Parts(text[1..], "", room - 1)
    else Parts(text[1..], if |part| < PART_LENGTH then part + text[..1] else part, room)
  }

  method SplitParts(text: string) returns (parts: seq<string>)
    ensures parts == Parts(text, "", MAX_PARTS)
  {
    parts := [];
    var part, p := "", 0;
    assert text[0..] == text && [] + Parts(text, "", MAX_PARTS) == Parts(text, "", MAX_PARTS);
    while |parts| < MAX_PARTS
      invariant p <= |text| && |parts| <= MAX_PARTS
      invariant Parts(text, "", MAX_PARTS) == parts + Parts(text[p..], part, MAX_PARTS - |parts|)
      decreases |text| - p
    {
      assert p < |text| ==> text[p..][1..] == text[p + 1..] && text[p..][..1] == [text[p]];
      if p == |text| || text[p] == ',' {
        parts := parts + [part];
        part := "";
        if p == |text| {
          return;
        }
      } else if |part| < PART_LENGTH {
        part := part + [text[p]];
      }
      p := p + 1;
    }
  }

  function PairLimit(parts: seq<string>): (n: nat)
    ensures n <= MAX_CHIPS && 2 * n <= |parts|
  {
    Min(|parts| / 2, MAX_CHIPS)
  }

  /** Pairs from i on up to the first with an empty name. */
  function FullPairs(parts: seq<string>, i: nat): (n: nat)
    requires i <= PairLimit(parts)
    ensures i <= n <= PairLimit(parts)
    decreases PairLimit(parts) - i
  {
    if i < PairLimit(parts) && parts[2 * i] != "" && parts[2 * i + 1] != "" then FullPairs(parts, i + 1) else i
  }

  function PairsOf(parts: seq<string>, n: nat): seq<(string, string)>
    requires 2 * n <= |parts|
  {
    seq(n, i requires 0 <= i < n => (parts[2 * i], parts[2 * i + 1]))
  }

  /** The part after the pairs is the JIT flag. */
  predicate JitSet(parts: seq<string>, n: nat) {
    2 * n < |parts| && parts[2 * n] != "" && parts[2 * n][0] == '1'
  }

  /** The chips and the JIT flag, or None if there is no chip. */
  function CommaParsed(text: string): Option<(seq<(string, string)>, bool)> {
    var parts := Parts(text, "", MAX_PARTS);
    var n := FullPairs(parts, 0);
    if n == 0 then None else Some((PairsOf(parts, n), JitSet(parts, n)))
  }

  method ParseCommas(text: string) returns (result: Option<(seq<(string, string)>, bool)>)
    ensures result == CommaParsed(text)
  {
    hide Parts;
    var parts := SplitParts(text);
    var chips, ci := [], 0;
    while ci < PairLimit(parts)
      invariant ci <= PairLimit(parts) && chips == PairsOf(parts, ci)
      invariant FullPairs(parts, ci) == FullPairs(parts, 0)
    {
      if parts[ci * 2] == "" || parts[ci * 2 + 1] == "" {
        break;
      }
      chips := chips + [(parts[ci * 2], parts[ci * 2 + 1])];
      ci := ci + 1;
    }
    if ci == 0 {
      return None;
    }
    var jit := false;
    if |parts| >= ci * 2 + 1 && parts[ci * 2] != "" {
      jit := parts[ci * 2][0] == '1';
    }
    result := Some((chips, jit));
  }

  // ---- printing and parsing back ------------------------------------------------------------

  function Joined(fields: seq<string>): string {
    if fields == [] then ""
    else if |fields| == 1 then fields[0]
    else fields[0] + "," + Joined(fields[1..])
  }

  predicate Clean(field: string) {
    0 < |field| <= 255 && ',' !in field
  }

  lemma {:induction false} FieldTaken(field: string, rest: string, part: string, room: nat)
    requires ',' !in field && |part| + |field| <= PART_LENGTH && room > 0
    ensures Parts(field + rest, part, room) == Parts(rest, part + field, room)
    decreases |field|
  {
    if field == "" {
      assert field + rest == rest && part + field == part;
    } else {
      FieldTaken(field[1..], rest, part + field[..1], room);
      assert (field + rest)[1..] == field[1..] + rest && (field + rest)[..1] == field[..1];
      assert part + field[..1] + field[1..] == part + field;
    }
  }

  lemma {:induction false} PartsOfJoined(fields: seq<string>, room: nat)
    requires fields != [] && forall i :: 0 <= i < |fields| ==> Clean(fields[i])
    ensures Parts(Joined(fields), "", room) == fields[..Min(|fields|, room)]
    decreases |fields|
  {
    if room > 0 {
      var field := fields[0];
      assert "" + field == field && Parts("", field, room) == [field];
      if |fields| == 1 {
        assert field + "" == field;
        FieldTaken(field, "", "", room);
      } else {
        var rest, more := Joined(fields[1..]), Min(|fields| - 1, room - 1);
        CommaEnds(rest, field, room);
        PartsOfJoined(fields[1..], room - 1);
        FieldTaken(field, "," + rest, "", room);
        hide Parts, Clean;
        assert Joined(fields) == field + ("," + rest);
        assert [field] + fields[1..][..more] == fields[..more + 1];
      }
    }
  }

  /** Without a comma there is one part: the text, cut off after 255 characters. */
  lemma OnePart(text: string)
    requires ',' !in text
    ensures Parts(text, "", MAX_PARTS) == [text[..Min(|text|, 255)]]
  {
    RestOfPart(text, "", MAX_PARTS);
    assert "" + text == text;
  }

  lemma {:induction false} RestOfPart(text: string, part: string, room: nat)
    requires ',' !in text && room > 0 && |part| <= 255
    ensures Parts(text, part, room) == [(part + text)[..Min(|part + text|, 255)]]
    decreases |text|
  {
    if text == "" {
      assert part + text == part;
    } else {
      var next := if |part| < PART_LENGTH then part + text[..1] else part;
      RestOfPart(text[1..], next, room);
      assert text == text[..1] + text[1..];
      assert |part| < 255 ==> next + text[1..] == part + text;
      assert (next + text[1..])[..Min(|next + text[1..]|, 255)] == (part + text)[..Min(|part + text|, 255)];
    }
  }

  lemma CommaEnds(text: string, part: string, room: nat)
    requires room > 0
    ensures Parts("," + text, part, room) == [part] + Parts(text, "", room - 1)
  {
    assert ("," + text)[0] == ',' && ("," + text)[1..] == text;
  }

  function Fields(pairs: seq<(string, string)>): (fields: seq<string>)
    ensures |fields| == 2 * |pairs|
    ensures forall i :: 0 <= i < |pairs| ==> fields[2 * i] == pairs[i].0 && fields[2 * i + 1] == pairs[i].1
  {
    if pairs == [] then [] else Fields(pairs[..|pairs| - 1]) + [pairs[|pairs| - 1].0, pairs[|pairs| - 1].1]
  }

  /** The names of the chips and, if there is one, the flag. */
  function Listed(pairs: seq<(string, string)>, flag: Option<string>): seq<string> {
    Fields(pairs) + if flag.Some? then [flag.value] else []
  }

  predicate CleanPairs(pairs: seq<(string, string)>) {
    forall i :: 0 <= i < |pairs| ==> Clean(pairs[i].0) && Clean(pairs[i].1)
  }

  lemma {:induction false} AllPairsFull(parts: seq<string>, i: nat)
    requires i <= PairLimit(parts) && forall k :: 0 <= k < |parts| ==> parts[k] != ""
    ensures FullPairs(parts, i) == PairLimit(parts)
    decreases PairLimit(parts) - i
  {
    if i < PairLimit(parts) {
      AllPairsFull(parts, i + 1);
    }
  }

  /** Printed between commas, 1 to 8 chips come back; a JIT flag after them does too, unless
      there are 8: then there is no part left for it, and JIT stays off. */
  lemma {:induction false} CommaRoundTrip(pairs: seq<(string, string)>, flag: Option<string>)
    requires 1 <= |pairs| <= 8 && CleanPairs(pairs) && (flag.Some? ==> Clean(flag.value))
    ensures CommaParsed(Joined(Listed(pairs, flag)))
            == Some((pairs, flag.Some? && flag.value[0] == '1' && |pairs| < 8))
  {
    var fields := Listed(pairs, flag);
    var parts := fields[..Min(|fields|, MAX_PARTS)];
    CleanFields(pairs, flag);
    forall k | 0 <= k < |parts| ensures parts[k] != "" {
      assert Clean(fields[k]);
    }
    assert flag.Some? && |pairs| < MAX_CHIPS ==> parts[2 * |pairs|] == flag.value;
    assert PairLimit(parts) == |pairs|;
    PairsBack(pairs, parts[2 * |pairs|..]);
    assert parts == Fields(pairs) + parts[2 * |pairs|..];
    hide Parts, Joined, Fields, FullPairs, Clean, PairsOf, CleanPairs;
    PartsOfJoined(fields, MAX_PARTS);
    AllPairsFull(parts, 0);
  }

  lemma PairsBack(pairs: seq<(string, string)>, rest: seq<string>)
    ensures PairsOf(Fields(pairs) + rest, |pairs|) == pairs
  {
  }

  lemma CleanFields(pairs: seq<(string, string)>, flag: Option<string>)
    requires CleanPairs(pairs) && (flag.Some? ==> Clean(flag.value))
    ensures forall i :: 0 <= i < |Listed(pairs, flag)| ==> Clean(Listed(pairs, flag)[i])
  {
    hide Clean;
    forall i | 0 <= i < 2 * |pairs| ensures Clean(Fields(pairs)[i]) {
      assert i == 2 * (i / 2) || i == 2 * (i / 2) + 1;
      assert Clean(pairs[i / 2].0) && Clean(pairs[i / 2].1);
    }
  }
}
