/**
 The command line of the test client in host_test/mlkem_client.c:
 `<prog> <ip> <port> [--ct-header] [--corrupt=ct|pk|none] [--flip-byte=N]`,
 read left to right into a configuration, with C's `atoi` for the number.
 */
module ClientArgs {

  // ---------------------------------------------------------------------
  // atoi

  /** The characters C's `isspace` accepts in the "C" locale: space, and
      tab, newline, vertical tab, form feed, carriage return (9 to 13). */
  predicate IsSpace(c: char) {
    c == ' ' || '\t' <= c <= '\r'
  }

  predicate IsDigit(c: char) {
    '0' <= c <= '9'
  }

  predicate AllDigits(d: string) {
    forall i :: 0 <= i < |d| ==> IsDigit(d[i])
  }

  predicate AllSpace(sp: string) {
    forall i :: 0 <= i < |sp| ==> IsSpace(sp[i])
  }

  /** The leading white space of `s` dropped (`SkipSpaceDrops` says what is
      dropped). */
  function SkipSpace(s: string): (t: string)
    ensures |t| <= |s| && (t == [] || !IsSpace(t[0]))
  {
    if s != [] && IsSpace(s[0]) then SkipSpace(s[1..]) else s
  }

  /** `SkipSpace` drops white space only, and exactly up to the first
      character that is not: what it returns is a suffix of `s`, everything
      before that suffix is white space, and the suffix does not begin with
      any. */
  lemma {:induction false} SkipSpaceDrops(s: string)
    ensures exists k :: 0 <= k <= |s| && SkipSpace(s) == s[k..] && AllSpace(s[..k])
    ensures SkipSpace(s) == [] || !IsSpace(SkipSpace(s)[0])
  {
    if s != [] && IsSpace(s[0]) {
      SkipSpaceDrops(s[1..]);
      var t := SkipSpace(s[1..]);
      var k :| 0 <= k <= |s| - 1 && t == s[1..][k..] && AllSpace(s[1..][..k]);
      SpaceBeforeSuffix(s, t, k);
    } else {
      assert s == s[0..] && s[..0] == [];
    }
  }

  /** One more leading space in front of a run of spaces and its suffix. */
  lemma SpaceBeforeSuffix(s: string, t: string, k: nat)
    requires s != [] && IsSpace(s[0]) && k <= |s| - 1
    requires t == s[1..][k..] && AllSpace(s[1..][..k])
    ensures 0 <= k + 1 <= |s| && t == s[k + 1..] && AllSpace(s[..k + 1])
  {
    assert s[..k + 1] == [s[0]] + s[1..][..k];
  }

  /** The number of decimal digits at the front of `s`. */
  function DigitRun(s: string): (k: nat)
    ensures k <= |s| && AllDigits(s[..k])
    ensures k < |s| ==> !IsDigit(s[k])
  {
    if s != [] && IsDigit(s[0]) then
      var k := 1 + DigitRun(s[1..]);
      assert s[..k] == [s[0]] + s[1..][..k - 1];
      k
    else 0
  }

  /** The value of a string of decimal digits, most significant first. */
  function DecimalValue(d: string): nat
    requires AllDigits(d)
  {
    if d == [] then 0
    else 10 * DecimalValue(d[..|d| - 1]) + ((d[|d| - 1] as int) - ('0' as int))
  }

  /** The value of the run of digits at the front of `u`. */
  function ReadUnsigned(u: string): nat {
    DecimalValue(u[..DigitRun(u)])
  }

  /** `atoi(s)`: white space, then an optional sign, then the longest run of
      digits; anything after the run is ignored and no digits give 0. */
  function Atoi(s: string): int {
    var t := SkipSpace(s);
    var negative := t != [] && t[0] == '-';
    var u := if t != [] && (t[0] == '-' || t[0] == '+') then t[1..] else t;
    var m: int := ReadUnsigned(u);
    if negative then -m else m
  }

  /** The shortest decimal spelling of `n`, the reference `Atoi` is checked
      against. */
  function Decimal(n: nat): (d: string)
    ensures |d| >= 1 && AllDigits(d)
  {
    var last := (('0' as int) + n % 10) as char;
    if n < 10 then [last] else Decimal(n / 10) + [last]
  }

  lemma {:induction false} DecimalRoundTrip(n: nat)
    ensures DecimalValue(Decimal(n)) == n
  {
    var d := Decimal(n);
    if n >= 10 {
      DecimalRoundTrip(n / 10);
      assert d[..|d| - 1] == Decimal(n / 10);
    }
  }

  lemma {:induction false} DigitRunOfDigits(d: string, rest: string)
    requires AllDigits(d) && (rest == [] || !IsDigit(rest[0]))
    ensures DigitRun(d + rest) == |d|
  {
    if d != [] {
      assert (d + rest)[1..] == d[1..] + rest;
      DigitRunOfDigits(d[1..], rest);
    }
  }

  lemma ReadUnsignedDecimal(n: nat, rest: string)
    requires rest == [] || !IsDigit(rest[0])
    ensures ReadUnsigned(Decimal(n) + rest) == n
  {
    var d := Decimal(n);
    DigitRunOfDigits(d, rest);
    DecimalRoundTrip(n);
    assert (d + rest)[..|d|] == d;
  }

  /** A string that starts with a digit or a sign has no leading space. */
  lemma NoLeadingSpace(t: string)
    requires t != [] && (IsDigit(t[0]) || t[0] == '+' || t[0] == '-')
    ensures SkipSpace(t) == t
  {
  }

  /** On a string that starts with a digit, `atoi` reads the digit run;
      a leading `+` changes nothing and a leading `-` negates it. */
  lemma AtoiUnsigned(u: string)
    requires u != [] && IsDigit(u[0])
    ensures Atoi(u) == ReadUnsigned(u)
  {
    NoLeadingSpace(u);
  }

  lemma AtoiPlus(u: string)
    requires u != [] && IsDigit(u[0])
    ensures Atoi("+" + u) == ReadUnsigned(u)
  {
    var plus := "+" + u;
    assert plus[0] == '+' && plus[1..] == u;
    NoLeadingSpace(plus);
  }

  lemma AtoiMinus(u: string)
    requires u != [] && IsDigit(u[0])
    ensures Atoi("-" + u) == -(ReadUnsigned(u) as int)
  {
    var minus := "-" + u;
    assert minus[0] == '-' && minus[1..] == u;
    NoLeadingSpace(minus);
  }

  /** `atoi` reads a run of digits, with either sign, followed by anything
      that does not start with a digit, as the run's value. */
  lemma AtoiDigits(d: string, rest: string)
    requires d != [] && AllDigits(d) && (rest == [] || !IsDigit(rest[0]))
    ensures Atoi(d + rest) == DecimalValue(d)
    ensures Atoi("+" + (d + rest)) == DecimalValue(d)
    ensures Atoi("-" + (d + rest)) == -(DecimalValue(d) as int)
  {
    var u := d + rest;
    RunValue(d, rest);
    AtoiUnsigned(u);
    AtoiPlus(u);
    AtoiMinus(u);
  }

  /** A run of digits followed by a non-digit reads as the run's value. */
  lemma RunValue(d: string, rest: string)
    requires d != [] && AllDigits(d) && (rest == [] || !IsDigit(rest[0]))
    ensures ReadUnsigned(d + rest) == DecimalValue(d) && IsDigit((d + rest)[0])
  {
    var u := d + rest;
    DigitRunOfDigits(d, rest);
    assert u[..|d|] == d;
    assert u[0] == d[0];
  }

  /** `atoi` reads back what `Decimal` writes, with either sign and followed
      by anything that does not start with a digit. */
  lemma AtoiDecimal(n: nat, rest: string)
    requires rest == [] || !IsDigit(rest[0])
    ensures Atoi(Decimal(n) + rest) == n
    ensures Atoi("+" + (Decimal(n) + rest)) == n
    ensures Atoi("-" + (Decimal(n) + rest)) == -(n as int)
  {
    AtoiDigits(Decimal(n), rest);
    DecimalRoundTrip(n);
  }

  /** Leading white space does not change what `atoi` reads. */
  lemma AtoiSkipsSpace(sp: string, s: string)
    requires AllSpace(sp)
    ensures Atoi(sp + s) == Atoi(s)
  {
    SkipSpaceOver(sp, s);
  }

  lemma {:induction false} SkipSpaceOver(sp: string, s: string)
    requires AllSpace(sp)
    ensures SkipSpace(sp + s) == SkipSpace(s)
  {
    if sp != [] {
      assert (sp + s)[0] == sp[0] && (sp + s)[1..] == sp[1..] + s;
      assert SkipSpace(sp + s) == SkipSpace(sp[1..] + s);
      forall i | 0 <= i < |sp[1..]| ensures IsSpace(sp[1..][i]) {
        assert sp[1..][i] == sp[i + 1];
      }
      SkipSpaceOver(sp[1..], s);
    } else {
      assert sp + s == s;
    }
  }

  // ---------------------------------------------------------------------
  // Configuration

  /** `corrupt_t`. */
  datatype Corruption = CorruptNone | CorruptCt | CorruptPk

  datatype Config = Config(sendCtHeader: bool, corrupt: Corruption, flipIndex: int)

  datatype Option<T> = None | Some(value: T)

  /** No header (`DEFAULT_SEND_CT_LEN_HEADER` is 0), no corruption, byte 0. */
  const DefaultConfig: Config := Config(false, CorruptNone, 0)

  const CtHeaderFlag: string := "--ct-header"
  const CorruptFlag: string := "--corrupt="
  const FlipFlag: string := "--flip-byte="

  /** The three values `--corrupt=` accepts. */
  function CorruptionNamed(v: string): (r: Option<Corruption>)
    ensures r == Some(CorruptCt) <==> v == "ct"
    ensures r == Some(CorruptPk) <==> v == "pk"
    ensures r == Some(CorruptNone) <==> v == "none"
  {
    if v == "ct" then Some(CorruptCt)
    else if v == "pk" then Some(CorruptPk)
    else if v == "none" then Some(CorruptNone)
    else None
  }

  /** The arguments after the port that the client accepts. */
  predicate Known(a: string) {
    || a == CtHeaderFlag
    || (CorruptFlag <= a && a[|CorruptFlag|..] in {"ct", "pk", "none"})
    || FlipFlag <= a
  }

  /** An argument matches at most one of the three flags. */
  lemma FlagsDistinct(a: string)
    ensures a == CtHeaderFlag ==> !(CorruptFlag <= a) && !(FlipFlag <= a)
    ensures CorruptFlag <= a ==> !(FlipFlag <= a)
  {
    if CorruptFlag <= a {
      assert a[3] == CorruptFlag[3] == 'o';
      assert a[2] == 'c';
    }
    if FlipFlag <= a {
      assert a[2] == FlipFlag[2] == 'f';
    }
  }

  /** One pass of the argument loop: each flag sets its own setting and no
      other; an unknown argument or `--corrupt=` value is a usage error. */
  function ApplyArg(c: Config, a: string): (r: Option<Config>)
    ensures r.None? <==> !Known(a)
    ensures r.Some? && a == CtHeaderFlag ==> r.value == c.(sendCtHeader := true)
    ensures r.Some? && CorruptFlag <= a ==> r.value.sendCtHeader == c.sendCtHeader && r.value.flipIndex == c.flipIndex
    ensures r.Some? && FlipFlag <= a ==> r.value == c.(flipIndex := Atoi(a[|FlipFlag|..]))
  {
    FlagsDistinct(a);
    if a == CtHeaderFlag then Some(c.(sendCtHeader := true))
    else if CorruptFlag <= a then
      match CorruptionNamed(a[|CorruptFlag|..])
      case None => None
      case Some(k) => Some(c.(corrupt := k))
    else if FlipFlag <= a then Some(c.(flipIndex := Atoi(a[|FlipFlag|..])))
    else None
  }

  /** The argument loop from configuration `c` over `args`. */
  function ParseFlags(c: Config, args: seq<string>): Option<Config>
    decreases |args|
  {
    if args == [] then Some(c)
    else match ApplyArg(c, args[0])
      case None => None
      case Some(d) => ParseFlags(d, args[1..])
  }

  /** The whole command line `argv`, program name included; `None` is the
      usage error (exit status 2). */
  function ParseArgs(argv: seq<string>): Option<Config> {
    if |argv| < 3 then None else ParseFlags(DefaultConfig, argv[3..])
  }

  lemma {:induction false} ParseFlagsFailsIff(c: Config, args: seq<string>)
    ensures ParseFlags(c, args).None? <==> exists i :: 0 <= i < |args| && !Known(args[i])
    decreases |args|
  {
    if args != [] {
      match ApplyArg(c, args[0])
      case None =>
      case Some(d) =>
        ParseFlagsFailsIff(d, args[1..]);
        if exists i :: 0 <= i < |args| && !Known(args[i]) {
          var i :| 0 <= i < |args| && !Known(args[i]);
          assert args[1..][i - 1] == args[i];
        }
        if exists i :: 0 <= i < |args[1..]| && !Known(args[1..][i]) {
          var i :| 0 <= i < |args[1..]| && !Known(args[1..][i]);
          assert args[i + 1] == args[1..][i];
        }
    }
  }

  /** The usage error happens exactly when there are fewer than three
      arguments or some argument after the port is not one the client
      knows. */
  lemma UsageErrorIff(argv: seq<string>)
    ensures ParseArgs(argv).None? <==> |argv| < 3 || exists i :: 3 <= i < |argv| && !Known(argv[i])
  {
    if |argv| >= 3 {
      var args := argv[3..];
      ParseFlagsFailsIff(DefaultConfig, args);
      if exists i :: 3 <= i < |argv| && !Known(argv[i]) {
        var i :| 3 <= i < |argv| && !Known(argv[i]);
        assert args[i - 3] == argv[i];
      }
      if exists i :: 0 <= i < |args| && !Known(args[i]) {
        var i :| 0 <= i < |args| && !Known(args[i]);
        assert argv[i + 3] == args[i];
      }
    }
  }

  /** The loop over `xs + ys` is the loop over `xs` continued over `ys`. */
  lemma {:induction false} ParseFlagsAppend(c: Config, xs: seq<string>, ys: seq<string>)
    ensures ParseFlags(c, xs + ys) ==
      match ParseFlags(c, xs)
      case None => None
      case Some(d) => ParseFlags(d, ys)
    decreases |xs|
  {
    if xs == [] {
      assert xs + ys == ys;
    } else {
      assert (xs + ys)[0] == xs[0] && (xs + ys)[1..] == xs[1..] + ys;
      match ApplyArg(c, xs[0])
      case None =>
      case Some(d) => ParseFlagsAppend(d, xs[1..], ys);
    }
  }

  lemma {:induction false} FlipUntouched(c: Config, ys: seq<string>)
    requires forall j :: 0 <= j < |ys| ==> !(FlipFlag <= ys[j])
    ensures ParseFlags(c, ys).Some? ==> ParseFlags(c, ys).value.flipIndex == c.flipIndex
    decreases |ys|
  {
    if ys != [] {
      match ApplyArg(c, ys[0])
      case None =>
      case Some(d) =>
        assert !(FlipFlag <= ys[0]);
        assert d.flipIndex == c.flipIndex;
        FlipUntouched(d, ys[1..]);
    }
  }

  lemma {:induction false} CorruptUntouched(c: Config, ys: seq<string>)
    requires forall j :: 0 <= j < |ys| ==> !(CorruptFlag <= ys[j])
    ensures ParseFlags(c, ys).Some? ==> ParseFlags(c, ys).value.corrupt == c.corrupt
    decreases |ys|
  {
    if ys != [] {
      match ApplyArg(c, ys[0])
      case None =>
      case Some(d) =>
        assert !(CorruptFlag <= ys[0]);
        assert d.corrupt == c.corrupt;
        CorruptUntouched(d, ys[1..]);
    }
  }

  /** The last `--flip-byte=` wins: earlier ones are overridden. */
  lemma FlipLastWins(c: Config, xs: seq<string>, v: string, ys: seq<string>)
    requires forall j :: 0 <= j < |ys| ==> !(FlipFlag <= ys[j])
    ensures var r := ParseFlags(c, xs + [FlipFlag + v] + ys);
      r.Some? ==> r.value.flipIndex == Atoi(v)
  {
    var a := FlipFlag + v;
    assert a[|FlipFlag|..] == v;
    ParseFlagsAppend(c, xs + [a], ys);
    ParseFlagsAppend(c, xs, [a]);
    match ParseFlags(c, xs)
    case None =>
    case Some(d) =>
      match ApplyArg(d, a)
      case None =>
      case Some(e) => FlipUntouched(e, ys);
  }

  /** The last `--corrupt=` wins: earlier ones are overridden. */
  lemma CorruptLastWins(c: Config, xs: seq<string>, v: string, ys: seq<string>)
    requires forall j :: 0 <= j < |ys| ==> !(CorruptFlag <= ys[j])
    ensures var r := ParseFlags(c, xs + [CorruptFlag + v] + ys);
      r.Some? ==> CorruptionNamed(v) == Some(r.value.corrupt)
  {
    var a := CorruptFlag + v;
    assert a[|CorruptFlag|..] == v;
    FlagsDistinct(a);
    ParseFlagsAppend(c, xs + [a], ys);
    ParseFlagsAppend(c, xs, [a]);
    match ParseFlags(c, xs)
    case None =>
    case Some(d) =>
      match ApplyArg(d, a)
      case None =>
      case Some(e) => CorruptUntouched(e, ys);
  }

  /** `--ct-header` anywhere turns the header on, and only it does. */
  lemma {:induction false} CtHeaderIff(c: Config, args: seq<string>)
    ensures ParseFlags(c, args).Some? ==>
      (ParseFlags(c, args).value.sendCtHeader <==> c.sendCtHeader || CtHeaderFlag in args)
    decreases |args|
  {
    if args != [] {
      match ApplyArg(c, args[0])
      case None =>
      case Some(d) =>
        CtHeaderIff(d, args[1..]);
        assert args == [args[0]] + args[1..];
        FlagsDistinct(args[0]);
    }
  }

  /** The argument loop of `main`: `send_ct_header`, `corrupt` and
      `flip_index` are updated argument by argument; the first argument it
      does not know ends the parse with the usage error. */
  method ParseCommandLine(argv: seq<string>) returns (ok: bool, cfg: Config)
    ensures ok <==> ParseArgs(argv).Some?
    ensures ok ==> cfg == ParseArgs(argv).value
  {
    cfg := DefaultConfig;
    if |argv| < 3 {
      return false, cfg;
    }
    var sendCtHeader, corrupt, flipIndex := false, CorruptNone, 0;
    var i := 3;
    while i < |argv|
      invariant 3 <= i <= |argv|
      invariant ParseFlags(Config(sendCtHeader, corrupt, flipIndex), argv[i..]) == ParseArgs(argv)
    {
      var a := argv[i];
      assert argv[i..][0] == a && argv[i..][1..] == argv[i + 1..];
      FlagsDistinct(a);
      if a == CtHeaderFlag {
        sendCtHeader := true;
      } else if CorruptFlag <= a {
        var v := a[|CorruptFlag|..];
        if v == "ct" {
          corrupt := CorruptCt;
        } else if v == "pk" {
          corrupt := CorruptPk;
        } else if v == "none" {
          corrupt := CorruptNone;
        } else {
          return false, cfg;
        }
      } else if FlipFlag <= a {
        flipIndex := Atoi(a[|FlipFlag|..]);
      } else {
        return false, cfg;
      }
      i := i + 1;
    }
    cfg := Config(sendCtHeader, corrupt, flipIndex);
    ok := true;
  }
}
