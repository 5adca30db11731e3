/** The shim's arguments: both forms of sim_args, and hex-encoded injection data.

    C strings are texts without NUL; strtod is a parameter. */
module SimArgs {
  import opened Common
  import CommaArgs

  const MAX_CHIPS := CommaArgs.MAX_CHIPS
  const MAX_INJECTS := 16

  /** An argument may be a null pointer. */
  type Arg = Option<string>

  /** The value of the longest numeric prefix (0.0 if none) and that prefix's length. */
  type Strtod = string -> (real, nat)

  datatype Config = Config(
    chips: seq<(Arg, Arg)>, jit: bool, hc05: bool, adcVoltage: real, frequency: real,
    data: Option<string>, pty: Option<string>, injects: seq<string>)

  const DEFAULTS := Config([(Some("atmega328p"), Some("firmware.hex"))], false, false, -1.0, 16000000.0, None, None, [])

  predicate StartsWith(a: string, prefix: string) {
    |prefix| <= |a| && a[..|prefix|] == prefix
  }

  predicate IsVoltage(a: string, strtod: Strtod) {
    a != "" && '0' <= a[0] <= '5' && strtod(a).1 == |a| && 0.0 <= strtod(a).0 <= 5.0
  }

  /** What the backward scan counts as a flag. */
  predicate IsFlag(a: string, strtod: Strtod) {
    || a == "1" || a == "0" || IsVoltage(a, strtod) || a == "hc05"
    || StartsWith(a, "data=") || StartsWith(a, "inject_at=") || StartsWith(a, "pty_") || StartsWith(a, "freq=")
  }

  /** What the forward read does with an argument. */
  function Applied(cfg: Config, a: string, strtod: Strtod): Config {
    if a == "1" then cfg.(jit := true)
    else if a == "0" then cfg.(jit := false)
    else if a == "hc05" then cfg.(hc05 := true)
    else if StartsWith(a, "data=") then cfg.(data := Some(a[5..]))
    else if StartsWith(a, "inject_at=") then
      if |cfg.injects| < MAX_INJECTS then cfg.(injects := cfg.injects + [a[10..]]) else cfg
    else if StartsWith(a, "pty_") then cfg.(pty := Some(a[4..]))
    else if StartsWith(a, "freq=") then
      if strtod(a[5..]).0 > 0.0 then cfg.(frequency := strtod(a[5..]).0) else cfg
    else
      if 0.0 <= strtod(a).0 <= 5.0 then cfg.(adcVoltage := strtod(a).0) else cfg
  }

  /** Flags counted from index i backwards; null arguments are passed over. */
  function Counted(argv: seq<Arg>, i: int, strtod: Strtod): (n: nat)
    requires i < |argv|
    ensures i >= 1 ==> n <= i - 1
  {
    if i < 2 then 0
    else if argv[i].None? then Counted(argv, i - 1, strtod)
    else if IsFlag(argv[i].value, strtod) then 1 + Counted(argv, i - 1, strtod)
    else 0
  }

  /** The left-to-right fold of the flags, up to the first null. */
  function AppliedAll(cfg: Config, args: seq<Arg>, strtod: Strtod): Config
    decreases |args|
  {
    if args == [] || args[0].None? then cfg
    else AppliedAll(Applied(cfg, args[0].value, strtod), args[1..], strtod)
  }

  function PairCount(argv: seq<Arg>, strtod: Strtod): (n: nat)
    requires |argv| >= 2
    ensures 1 <= n && 2 * n <= |argv|
  {
    Min((|argv| - Counted(argv, |argv| - 1, strtod)) / 2, MAX_CHIPS)
  }

  function Pairs(argv: seq<Arg>, n: nat): seq<(Arg, Arg)>
    requires 2 * n <= |argv|
  {
    seq(n, i requires 0 <= i < n => (argv[2 * i], argv[2 * i + 1]))
  }

  /** The configuration, or None where the comma-separated form is tried instead. */
  function Parsed(argv: seq<Arg>, strtod: Strtod): Option<Config> {
    if argv == [] then Some(DEFAULTS)
    else if |argv| < 2 || argv[0].None? || argv[1].None? then None
    else
      var n := PairCount(argv, strtod);
      Some(AppliedAll(DEFAULTS.(chips := Pairs(argv, n)), argv[2 * n..], strtod))
  }

  /** The flags at the end, counted backwards. */
  method CountFlags(argv: seq<Arg>, strtod: Strtod) returns (flags: nat)
    requires |argv| >= 2
    ensures flags == Counted(argv, |argv| - 1, strtod)
  {
    hide IsFlag;
    flags := 0;
    var i := |argv| - 1;
    while i >= 2
      invariant 1 <= i < |argv|
      invariant flags + Counted(argv, i, strtod) == Counted(argv, |argv| - 1, strtod)
    {
      if argv[i].Some? {
        if !IsFlag(argv[i].value, strtod) {
          break;
        }
        flags := flags + 1;
      }
      i := i - 1;
    }
  }

  method ParseArray(argv: seq<Arg>, strtod: Strtod) returns (result: Option<Config>)
    ensures result == Parsed(argv, strtod)
  {
    hide IsFlag, Applied, Counted;
    var cfg := DEFAULTS;
    if |argv| == 0 {
      return Some(cfg);
    }
    if |argv| < 2 || argv[0].None? || argv[1].None? {
      return None;
    }
    var flags := CountFlags(argv, strtod);
    var possible := Min((|argv| - flags) / 2, MAX_CHIPS);
    var chips, ci := [], 0;
    while ci < possible
      invariant ci <= possible && chips == Pairs(argv, ci)
    {
      var at := ci * 2;
      if at + 1 >= |argv| - flags {
        break;
      }
      chips := chips + [(argv[at], argv[at + 1])];
      ci := ci + 1;
    }
    cfg := cfg.(chips := chips);
    var next := ci * 2;
    while next < |argv| && argv[next].Some?
      invariant ci * 2 <= next <= |argv|
      invariant AppliedAll(cfg, argv[next..], strtod) == Parsed(argv, strtod).value
    {
      cfg := Applied(cfg, argv[next].value, strtod);
      next := next + 1;
    }
    result := Some(cfg);
  }

  /** The configured chips, as pairs of texts. */
  function Chips(pairs: seq<(string, string)>): seq<(Arg, Arg)> {
    seq(|pairs|, i requires 0 <= i < |pairs| => (Some(pairs[i].0), Some(pairs[i].1)))
  }

  /** What the comma-separated form configures; the defaults if it names no chip. */
  function CommaConfigured(parsed: Option<(seq<(string, string)>, bool)>): Config {
    match parsed
    case None => DEFAULTS
    case Some((pairs, jit)) => DEFAULTS.(chips := Chips(pairs), jit := jit)
  }

  /** The configuration from either form. */
  function Configured(argv: seq<Arg>, strtod: Strtod): Config {
    if Parsed(argv, strtod).Some? then Parsed(argv, strtod).value
    else if argv[0].None? then DEFAULTS
    else CommaConfigured(CommaArgs.CommaParsed(argv[0].value))
  }

  method ParseSimArgs(argv: seq<Arg>, strtod: Strtod) returns (cfg: Config)
    ensures cfg == Configured(argv, strtod)
  {
    hide AppliedAll, PairCount;
    var pairwise := ParseArray(argv, strtod);
    if pairwise.Some? {
      return pairwise.value;
    }
    cfg := DEFAULTS;
    if argv[0].Some? {
      var commas := CommaArgs.ParseCommas(argv[0].value);
      cfg := CommaConfigured(commas);
    }
  }

  // ---- printing and parsing back --------------------------------------------------------

  function Printed(pairs: seq<(string, string)>): (r: seq<Arg>)
    ensures |r| == 2 * |pairs|
    ensures forall i :: 0 <= i < |pairs| ==> r[2 * i] == Some(pairs[i].0) && r[2 * i + 1] == Some(pairs[i].1)
  {
    if pairs == [] then []
    else Printed(pairs[..|pairs| - 1]) + [Some(pairs[|pairs| - 1].0), Some(pairs[|pairs| - 1].1)]
  }

  function Args(flags: seq<string>): (r: seq<Arg>)
    ensures |r| == |flags| && forall i :: 0 <= i < |flags| ==> r[i] == Some(flags[i])
  {
    seq(|flags|, i requires 0 <= i < |flags| => Some(flags[i]))
  }

  predicate AllFlags(flags: seq<string>, strtod: Strtod) {
    forall i :: 0 <= i < |flags| ==> IsFlag(flags[i], strtod)
  }

  /** Arguments that are no null pointers. */
  function Given(argv: seq<Arg>): nat {
    if argv == [] then 0 else Given(argv[..|argv| - 1]) + if argv[|argv| - 1].Some? then 1 else 0
  }

  lemma {:induction false} AllGiven(argv: seq<Arg>)
    requires forall k :: 0 <= k < |argv| ==> argv[k].Some?
    ensures Given(argv) == |argv|
  {
    if argv != [] {
      AllGiven(argv[..|argv| - 1]);
    }
  }

  /** Over flags and null pointers the backward scan counts the flags. */
  lemma {:induction false} CountedRun(argv: seq<Arg>, i: int, from: nat, strtod: Strtod)
    requires 2 <= from <= i + 1 <= |argv|
    requires forall k :: from <= k <= i ==> argv[k].Some? ==> IsFlag(argv[k].value, strtod)
    ensures Counted(argv, i, strtod) == Given(argv[from..i + 1]) + Counted(argv, from - 1, strtod)
  {
    hide IsFlag;
    if from <= i {
      CountedRun(argv, i - 1, from, strtod);
      assert argv[from..i + 1][..i - from] == argv[from..i];
    }
  }

  /** The hex name of the last pair would itself be counted as a flag. The second
      argument of all is never examined, so a single pair is safe. */
  predicate Ambiguous(pairs: seq<(string, string)>, strtod: Strtod) {
    |pairs| >= 2 && IsFlag(pairs[|pairs| - 1].1, strtod)
  }

  lemma {:induction false} CountedPrinted(pairs: seq<(string, string)>, flags: seq<string>, strtod: Strtod)
    requires pairs != [] && AllFlags(flags, strtod)
    ensures var argv := Printed(pairs) + Args(flags);
            Counted(argv, |argv| - 1, strtod) >= |flags|
            && (Counted(argv, |argv| - 1, strtod) == |flags| <==> !Ambiguous(pairs, strtod))
  {
    hide IsFlag;
    var argv, n := Printed(pairs) + Args(flags), 2 * |pairs|;
    CountedRun(argv, |argv| - 1, n, strtod);
    assert argv[n..|argv| - 1 + 1] == Args(flags);
    AllGiven(Args(flags));
    assert argv[n - 1] == Some(pairs[|pairs| - 1].1);
  }

  lemma {:induction false} PairsPrinted(pairs: seq<(string, string)>, rest: seq<Arg>)
    ensures Pairs(Printed(pairs) + rest, |pairs|) == Chips(pairs)
  {
    hide Printed;
  }

  /** Parsing what was printed yields the pairs and the fold of the flags. */
  lemma {:induction false} RoundTrip(pairs: seq<(string, string)>, flags: seq<string>, strtod: Strtod)
    requires 1 <= |pairs| <= 8 && AllFlags(flags, strtod) && !Ambiguous(pairs, strtod)
    ensures Parsed(Printed(pairs) + Args(flags), strtod)
            == Some(AppliedAll(DEFAULTS.(chips := Chips(pairs)), Args(flags), strtod))
  {
    var argv, n := Printed(pairs) + Args(flags), |pairs|;
    CountedPrinted(pairs, flags, strtod);
    assert argv[0] == Some(pairs[0].0) && argv[1] == Some(pairs[0].1);
    assert PairCount(argv, strtod) == n;
    hide IsFlag, AppliedAll, Printed, Args, Chips, Pairs, PairCount;
    PairsPrinted(pairs, Args(flags));
    assert argv[2 * n..] == Args(flags);
  }

  /** The same chips printed as one string between commas: they come back too. */
  lemma {:induction false} CommaForm(pairs: seq<(string, string)>, flag: Option<string>, strtod: Strtod)
    requires 1 <= |pairs| <= 8 && CommaArgs.CleanPairs(pairs) && (flag.Some? ==> CommaArgs.Clean(flag.value))
    ensures Configured([Some(CommaArgs.Joined(CommaArgs.Listed(pairs, flag)))], strtod)
            == DEFAULTS.(chips := Chips(pairs),
                         jit := flag.Some? && flag.value[0] == '1' && |pairs| < 8)
  {
    CommaArgs.CommaRoundTrip(pairs, flag);
    hide CommaArgs.CommaParsed, CommaArgs.Joined, CommaArgs.Listed, CommaArgs.CleanPairs, Chips;
  }

  /** After eight chips, a JIT flag of one is not heard. */
  lemma JitIgnored(strtod: Strtod)
    ensures var chip := ("m", "h");
            var text := CommaArgs.Joined(CommaArgs.Listed([chip, chip, chip, chip, chip, chip, chip, chip], Some("1")));
            !Configured([Some(text)], strtod).jit && |Configured([Some(text)], strtod).chips| == 8
  {
    var chip := ("m", "h");
    CommaForm([chip, chip, chip, chip, chip, chip, chip, chip], Some("1"), strtod);
    hide CommaArgs.Listed, CommaArgs.Joined, Configured;
  }

  /** Without arguments: an ATmega328P at 16 MHz with firmware.hex, and nothing else. */
  lemma DefaultsExact(strtod: Strtod)
    ensures Configured([], strtod)
            == Config([(Some("atmega328p"), Some("firmware.hex"))], false, false, -1.0, 16000000.0, None, None, [])
  {
  }

  /** A single argument without a comma names no chip: the defaults stand, whatever it says. */
  lemma SingleNameIgnored(name: string, strtod: Strtod)
    requires ',' !in name
    ensures Configured([Some(name)], strtod) == DEFAULTS
  {
    CommaArgs.OnePart(name);
    hide CommaArgs.Parts;
  }

  lemma {:induction false} FlagsKeepChips(cfg: Config, args: seq<Arg>, strtod: Strtod)
    ensures AppliedAll(cfg, args, strtod).chips == cfg.chips
    decreases |args|
  {
    if args != [] && args[0].Some? {
      FlagsKeepChips(Applied(cfg, args[0].value, strtod), args[1..], strtod);
    }
  }

  /** The number of chips survives exactly when the last hex name is no flag. */
  lemma {:induction false} RoundTripExact(pairs: seq<(string, string)>, flags: seq<string>, strtod: Strtod)
    requires 1 <= |pairs| <= 8 && AllFlags(flags, strtod)
    ensures var result := Parsed(Printed(pairs) + Args(flags), strtod);
            result.Some? && (|result.value.chips| == |pairs| <==> !Ambiguous(pairs, strtod))
  {
    hide IsFlag, AppliedAll;
    var argv := Printed(pairs) + Args(flags);
    CountedPrinted(pairs, flags, strtod);
    assert argv[0] == Some(pairs[0].0) && argv[1] == Some(pairs[0].1);
    var n := PairCount(argv, strtod);
    FlagsKeepChips(DEFAULTS.(chips := Pairs(argv, n)), argv[2 * n..], strtod);
  }

  /** A second chip whose hex file is called hc05 is not configured. */
  lemma FlagLikeName(strtod: Strtod)
    ensures var pairs := [("atmega328p", "main.hex"), ("atmega328p", "hc05")];
            var result := Parsed(Printed(pairs), strtod);
            result.Some? && |result.value.chips| != 2
  {
    var pairs := [("atmega328p", "main.hex"), ("atmega328p", "hc05")];
    RoundTripExact(pairs, [], strtod);
    assert Printed(pairs) + Args([]) == Printed(pairs);
    hide Parsed, Printed, Args;
  }

  // ---- what the fold of the flags means -----------------------------------------------------

  /** The timed injections among the flags, in order. */
  function Injects(flags: seq<string>): seq<string> {
    if flags == [] then []
    else (if StartsWith(flags[0], "inject_at=") then [flags[0][10..]] else []) + Injects(flags[1..])
  }

  /** The last of the JIT flags, or the given default. */
  function LastJit(flags: seq<string>, default: bool): bool {
    if flags == [] then default
    else LastJit(flags[1..], if flags[0] == "1" then true else if flags[0] == "0" then false else default)
  }

  /** What one flag adds to the three results below. */
  lemma OneFlag(cfg: Config, a: string, strtod: Strtod)
    requires |cfg.injects| <= MAX_INJECTS
    ensures var r, all := Applied(cfg, a, strtod), cfg.injects + Injects([a]);
            && r.injects == all[..Min(|all|, MAX_INJECTS)]
            && r.jit == LastJit([a], cfg.jit)
            && (r.hc05 <==> cfg.hc05 || a == "hc05")
  {
    var all := cfg.injects + Injects([a]);
    assert [a][1..] == [] && Injects([]) == [];
    if StartsWith(a, "inject_at=") {
      assert a[..10][0] == 'i' && Injects([a]) == [a[10..]];
    } else {
      assert Injects([a]) == [] && all == cfg.injects;
    }
  }

  lemma KeptTwice(xs: seq<string>, ys: seq<string>, zs: seq<string>)
    requires |xs| <= MAX_INJECTS
    ensures var kept := (xs + ys)[..Min(|xs + ys|, MAX_INJECTS)];
            (kept + zs)[..Min(|kept + zs|, MAX_INJECTS)]
            == (xs + (ys + zs))[..Min(|xs + (ys + zs)|, MAX_INJECTS)]
  {
  }

  /** The first 16 injections are kept in order; the last JIT flag wins; HC-05 is on
      exactly if some flag says so. */
  lemma {:induction false} FoldMeaning(cfg: Config, flags: seq<string>, strtod: Strtod)
    requires |cfg.injects| <= 16
    ensures var r, all := AppliedAll(cfg, Args(flags), strtod), cfg.injects + Injects(flags);
            && r.injects == all[..Min(|all|, 16)]
            && r.jit == LastJit(flags, cfg.jit)
            && (r.hc05 <==> cfg.hc05 || "hc05" in flags)
    decreases |flags|
  {
    if flags == [] {
      assert cfg.injects + Injects([]) == cfg.injects;
    } else {
      var a, rest := flags[0], flags[1..];
      OneFlag(cfg, a, strtod);
      FoldStep(cfg, flags, strtod);
      hide Applied, AppliedAll, Injects, LastJit, Args;
      KeptTwice(cfg.injects, Injects([a]), Injects(rest));
      FoldMeaning(Applied(cfg, a, strtod), rest, strtod);
    }
  }

  lemma FoldStep(cfg: Config, flags: seq<string>, strtod: Strtod)
    requires flags != []
    ensures var a, rest := flags[0], flags[1..];
            && AppliedAll(cfg, Args(flags), strtod) == AppliedAll(Applied(cfg, a, strtod), Args(rest), strtod)
            && Injects(flags) == Injects([a]) + Injects(rest)
            && LastJit(flags, cfg.jit) == LastJit(rest, LastJit([a], cfg.jit))
            && ("hc05" in flags <==> a == "hc05" || "hc05" in rest)
  {
    hide Applied, StartsWith;
    assert Args(flags)[1..] == Args(flags[1..]);
    assert [flags[0]][1..] == [] && flags == [flags[0]] + flags[1..];
  }

  /** The text of the last flag with a prefix, without it, or the given default. */
  function LastText(flags: seq<string>, prefix: string, default: Option<string>): Option<string> {
    if flags == [] then default
    else LastText(flags[1..], prefix, if StartsWith(flags[0], prefix) then Some(flags[0][|prefix|..]) else default)
  }

  /** The last positive frequency. */
  function LastFrequency(flags: seq<string>, default: real, strtod: Strtod): real {
    if flags == [] then default
    else
      var f := flags[0];
      LastFrequency(flags[1..], if StartsWith(f, "freq=") && strtod(f[5..]).0 > 0.0 then strtod(f[5..]).0 else default, strtod)
  }

  /** None of the flags that are known by their text. */
  predicate IsPlain(a: string) {
    && a != "1" && a != "0" && a != "hc05" && !StartsWith(a, "data=") && !StartsWith(a, "inject_at=")
    && !StartsWith(a, "pty_") && !StartsWith(a, "freq=")
  }

  /** The last voltage from 0 to 5. */
  function LastVoltage(flags: seq<string>, default: real, strtod: Strtod): real {
    if flags == [] then default
    else
      var f := flags[0];
      LastVoltage(flags[1..], if IsPlain(f) && 0.0 <= strtod(f).0 <= 5.0 then strtod(f).0 else default, strtod)
  }

  /** No text starts with two of the prefixes. */
  lemma PrefixesApart(a: string)
    ensures StartsWith(a, "data=") ==> a[0] == 'd'
    ensures StartsWith(a, "inject_at=") ==> a[0] == 'i'
    ensures StartsWith(a, "pty_") ==> a[0] == 'p'
    ensures StartsWith(a, "freq=") ==> a[0] == 'f'
  {
    if StartsWith(a, "data=") {
      assert a[..5][0] == 'd';
    }
    if StartsWith(a, "inject_at=") {
      assert a[..10][0] == 'i';
    }
    if StartsWith(a, "pty_") {
      assert a[..4][0] == 'p';
    }
    if StartsWith(a, "freq=") {
      assert a[..5][0] == 'f';
    }
  }

  lemma OneText(cfg: Config, a: string, strtod: Strtod)
    ensures var r := Applied(cfg, a, strtod);
            && r.data == (if StartsWith(a, "data=") then Some(a[5..]) else cfg.data)
            && r.pty == (if StartsWith(a, "pty_") then Some(a[4..]) else cfg.pty)
            && r.frequency == (if StartsWith(a, "freq=") && strtod(a[5..]).0 > 0.0 then strtod(a[5..]).0 else cfg.frequency)
            && r.adcVoltage == (if IsPlain(a) && 0.0 <= strtod(a).0 <= 5.0 then strtod(a).0 else cfg.adcVoltage)
  {
    PrefixesApart(a);
    hide StartsWith;
  }

  /** The last data, terminal, frequency and voltage win. */
  lemma {:induction false} FoldTexts(cfg: Config, flags: seq<string>, strtod: Strtod)
    ensures var r := AppliedAll(cfg, Args(flags), strtod);
            && r.data == LastText(flags, "data=", cfg.data)
            && r.pty == LastText(flags, "pty_", cfg.pty)
            && r.frequency == LastFrequency(flags, cfg.frequency, strtod)
            && r.adcVoltage == LastVoltage(flags, cfg.adcVoltage, strtod)
    decreases |flags|
  {
    if flags != [] {
      FoldStep(cfg, flags, strtod);
      OneText(cfg, flags[0], strtod);
      hide Applied, AppliedAll, Args, StartsWith, IsPlain;
      FoldTexts(Applied(cfg, flags[0], strtod), flags[1..], strtod);
    }
  }

  /** What the backward count recognises: the known texts, the prefixes with anything after them,
      and a number from 0 to 5 that is all there is. */
  lemma RecognisedExact(a: string, rest: string, strtod: Strtod)
    ensures IsFlag("1", strtod) && IsFlag("0", strtod) && IsFlag("hc05", strtod)
    ensures IsFlag("data=" + rest, strtod) && IsFlag("inject_at=" + rest, strtod)
    ensures IsFlag("pty_" + rest, strtod) && IsFlag("freq=" + rest, strtod)
    ensures IsPlain(a) ==>
              (IsFlag(a, strtod)
               <==> a != "" && '0' <= a[0] <= '5' && strtod(a).1 == |a| && 0.0 <= strtod(a).0 <= 5.0)
  {
    assert ("data=" + rest)[..5] == "data=" && ("inject_at=" + rest)[..10] == "inject_at=";
    assert ("pty_" + rest)[..4] == "pty_" && ("freq=" + rest)[..5] == "freq=";
  }

  // ---- hexadecimal data ---------------------------------------------------------------------

  function Nibble(c: char): int {
    if '0' <= c <= '9' then c as int - '0' as int
    else if 'A' <= c <= 'F' then c as int - 'A' as int + 10
    else if 'a' <= c <= 'f' then c as int - 'a' as int + 10
    else -1
  }

  predicate IsBlank(c: char) {
    c == ' ' || c == '\t'
  }

  /** The digits, in either case, and the two blanks. */
  lemma DigitsExact(n: nat)
    requires n < 16
    ensures Nibble("0123456789abcdef"[n]) == n && Nibble("0123456789ABCDEF"[n]) == n
    ensures IsBlank(' ') && IsBlank('\t')
  {
  }

  function Joined(front: seq<nat>, rest: Option<seq<nat>>): Option<seq<nat>> {
    if rest.None? then None else Some(front + rest.value)
  }

  lemma JoinedTwice(a: seq<nat>, b: seq<nat>, rest: Option<seq<nat>>)
    ensures Joined(a, Joined(b, rest)) == Joined(a + b, rest)
    ensures Joined([], rest) == rest
  {
    if rest.Some? {
      assert a + (b + rest.value) == a + b + rest.value;
      assert [] + rest.value == rest.value;
    }
  }

  /** The bytes a text spells, at most `room` of them; None if it spells no bytes. */
  function Decoded(hex: string, room: nat): Option<seq<nat>>
    decreases |hex|
  {
    if hex == "" || room == 0 then Some([])
    else if IsBlank(hex[0]) then Decoded(hex[1..], room)
    else if |hex| < 2 || Nibble(hex[0]) < 0 || Nibble(hex[1]) < 0 then None
    else Joined([Nibble(hex[0]) * 16 + Nibble(hex[1])], Decoded(hex[2..], room - 1))
  }

  /** How decoding goes on from position p, with the bytes before it in front. */
  lemma DecodedFrom(front: seq<nat>, hex: string, p: nat, room: nat)
    requires p <= |hex|
    ensures var value := Joined(front, Decoded(hex[p..], room));
            if p == |hex| || room == 0 then value == Some(front)
            else if IsBlank(hex[p]) then value == Joined(front, Decoded(hex[p + 1..], room))
            else if p + 1 == |hex| || Nibble(hex[p]) < 0 || Nibble(hex[p + 1]) < 0 then value == None
            else value == Joined(front + [Nibble(hex[p]) * 16 + Nibble(hex[p + 1])], Decoded(hex[p + 2..], room - 1))
  {
    hide Nibble, IsBlank;
    if p == |hex| || room == 0 {
      assert front + [] == front;
    } else {
      assert hex[p..][1..] == hex[p + 1..];
      if p + 2 <= |hex| && Nibble(hex[p]) >= 0 && Nibble(hex[p + 1]) >= 0 {
        assert hex[p..][2..] == hex[p + 2..];
        JoinedTwice(front, [Nibble(hex[p]) * 16 + Nibble(hex[p + 1])], Decoded(hex[p + 2..], room - 1));
      }
    }
  }

  method HexToBytes(hex: string, out: array<nat>) returns (len: int)
    modifies out
    ensures len == -1 || 0 <= len <= out.Length
    ensures len == -1 <==> Decoded(hex, out.Length).None?
    ensures len >= 0 ==> Decoded(hex, out.Length) == Some(out[..len]) && out[len..] == old(out[len..])
  {
    hide Nibble, IsBlank, Decoded, Joined;
    len := 0;
    var p := 0;
    assert hex[0..] == hex && out[..0] == [];
    JoinedTwice([], [], Decoded(hex, out.Length));
    while p < |hex| && len < out.Length
      invariant 0 <= p <= |hex| && 0 <= len <= out.Length
      invariant out[len..] == old(out[..])[len..]
      invariant Decoded(hex, out.Length) == Joined(out[..len], Decoded(hex[p..], out.Length - len))
      decreases |hex| - p
    {
      ghost var before := out[..len];
      DecodedFrom(before, hex, p, out.Length - len);
      if IsBlank(hex[p]) {
        p := p + 1;
        continue;
      }
      var hi := Nibble(hex[p]);
      var lo := if p + 1 < |hex| then Nibble(hex[p + 1]) else -1;
      if hi < 0 || lo < 0 {
        return -1;
      }
      out[len] := hi * 16 + lo;
      assert out[..len + 1] == before + [hi * 16 + lo];
      len := len + 1;
      p := p + 2;
    }
    DecodedFrom(out[..len], hex, p, out.Length - len);
  }

  /** One byte as somebody may write it: blanks before it, either case of each digit. */
  datatype Spelling = Spelling(blanks: string, value: nat, upperHigh: bool, upperLow: bool)

  predicate ValidSpelling(s: Spelling) {
    s.value < 256 && forall i :: 0 <= i < |s.blanks| ==> IsBlank(s.blanks[i])
  }

  function Digit(n: nat, upper: bool): (c: char)
    requires n < 16
    ensures Nibble(c) == n && !IsBlank(c)
  {
    if n < 10 then ('0' as int + n) as char
    else if upper then ('A' as int + n - 10) as char
    else ('a' as int + n - 10) as char
  }

  function Spelled(items: seq<Spelling>): string
    requires forall i :: 0 <= i < |items| ==> ValidSpelling(items[i])
  {
    if items == [] then ""
    else
      var s := items[0];
      assert ValidSpelling(s);
      s.blanks + [Digit(s.value / 16, s.upperHigh), Digit(s.value % 16, s.upperLow)] + Spelled(items[1..])
  }

  lemma {:induction false} BlanksSkipped(blanks: string, text: string, room: nat)
    requires forall i :: 0 <= i < |blanks| ==> IsBlank(blanks[i])
    ensures Decoded(blanks + text, room) == Decoded(text, room)
  {
    if blanks == "" {
      assert blanks + text == text;
    } else {
      assert (blanks + text)[1..] == blanks[1..] + text;
      BlanksSkipped(blanks[1..], text, room);
    }
  }

  /** However bytes are spelled, decoding yields them, as many as there is room for. */
  lemma {:induction false} SpellingDecodes(items: seq<Spelling>, room: nat)
    requires forall i :: 0 <= i < |items| ==> ValidSpelling(items[i])
    ensures var values := seq(|items|, i requires 0 <= i < |items| => items[i].value);
            Decoded(Spelled(items), room) == Some(values[..Min(|values|, room)])
    decreases |items|
  {
    var values := seq(|items|, i requires 0 <= i < |items| => items[i].value);
    if room == 0 {
      assert values[..0] == [];
    } else if items != [] {
      var s := items[0];
      var pair := [Digit(s.value / 16, s.upperHigh), Digit(s.value % 16, s.upperLow)];
      var rest := Spelled(items[1..]);
      assert Spelled(items) == s.blanks + (pair + rest);
      BlanksSkipped(s.blanks, pair + rest, room);
      assert (pair + rest)[2..] == rest;
      SpellingDecodes(items[1..], room - 1);
      assert values[1..] == seq(|items| - 1, i requires 0 <= i < |items| - 1 => items[1..][i].value);
      assert values[..Min(|values|, room)] == [s.value] + values[1..][..Min(|values| - 1, room - 1)];
    }
  }
}
