/**
 * The controller's command vocabulary: the enumerations and their wire text,
 * decimal formatting of integer arguments, every command line the client
 * sends, and the decoding of replies.
 */
module Commands {
  import opened Outcomes
  import opened Framing

  // ---------------------------------------------------------------------------
  // Enumerations (StrEnum): the wire text of each member, and construction from text

  datatype TempUnits = C | F
  datatype RampScale = Minutes | Hours
  datatype RampAction = Off | Startup | Setpoint | Both

  function UnitsText(u: TempUnits): string {
    match u
    case C => "C"
    case F => "F"
  }

  function ScaleText(s: RampScale): string {
    match s
    case Minutes => "MINUTES"
    case Hours => "HOURS"
  }

  function ActionText(a: RampAction): string {
    match a
    case Off => "OFF"
    case Startup => "STARTUP"
    case Setpoint => "SETPOINT"
    case Both => "BOTH"
  }

  /** TempUnits(text): the member whose value is text, or ValueError. */
  function ParseUnits(text: string): (r: Option<TempUnits>)
    ensures forall u :: r == Some(u) <==> UnitsText(u) == text
  {
    if text == "C" then Some(C)
    else if text == "F" then Some(F)
    else None
  }

  /** RampScale(text). */
  function ParseScale(text: string): (r: Option<RampScale>)
    ensures forall s :: r == Some(s) <==> ScaleText(s) == text
  {
    if text == "MINUTES" then Some(Minutes)
    else if text == "HOURS" then Some(Hours)
    else None
  }

  /** RampAction(text). */
  function ParseAction(text: string): (r: Option<RampAction>)
    ensures forall a :: r == Some(a) <==> ActionText(a) == text
  {
    if text == "OFF" then Some(Off)
    else if text == "STARTUP" then Some(Startup)
    else if text == "SETPOINT" then Some(Setpoint)
    else if text == "BOTH" then Some(Both)
    else None
  }

  // ---------------------------------------------------------------------------
  // '{}'.format(n) for an int n

  predicate IsDigit(c: char) { '0' <= c <= '9' }

  function DigitChar(d: int): (c: char)
    requires 0 <= d < 10
    ensures IsDigit(c) && c as int - '0' as int == d
  {
    ('0' as int + d) as char
  }

  function NatToString(n: nat): string {
    if n < 10 then [DigitChar(n)] else NatToString(n / 10) + [DigitChar(n % 10)]
  }

  /** str(n): optional minus sign, then decimal digits. */
  function IntToString(n: int): string {
    if n < 0 then "-" + NatToString(-n) else NatToString(n)
  }

  lemma {:induction false} NatToStringDigits(n: nat)
    ensures |NatToString(n)| > 0 && forall c | c in NatToString(n) :: IsDigit(c)
    decreases n
  {
    if n >= 10 {
      NatToStringDigits(n / 10);
      assert NatToString(n) == NatToString(n / 10) + [DigitChar(n % 10)];
    }
  }

  /** The decimal text of an integer is non-empty, made of digits and the minus sign, so it is ASCII and has no colon. */
  lemma IntToStringChars(n: int)
    ensures var r := IntToString(n);
      |r| > 0 && (forall c | c in r :: IsDigit(c) || c == '-') && IsAscii(r) && ':' !in r
  {
    NatToStringDigits(if n < 0 then -n else n);
    var r := IntToString(n);
    assert forall i | 0 <= i < |r| :: r[i] in r;
  }

  function ParseNat(s: string): nat
    requires forall c | c in s :: IsDigit(c)
  {
    if s == [] then 0
    else
      var last := s[|s| - 1];
      assert last in s && IsDigit(last);
      assert forall c | c in s[..|s| - 1] :: c in s;
      var d: nat := last as int - '0' as int;
      ParseNat(s[..|s| - 1]) * 10 + d
  }

  function ParseInt(s: string): int
    requires |s| > 0 && forall c | c in s :: IsDigit(c) || c == '-'
    requires forall c | c in s[1..] :: IsDigit(c)
  {
    if s[0] == '-' then -(ParseNat(s[1..]) as int) else ParseNat(s)
  }

  lemma {:induction false} NatRoundTrip(n: nat)
    ensures (forall c | c in NatToString(n) :: IsDigit(c)) && ParseNat(NatToString(n)) == n
  {
    NatToStringDigits(n);
    if n >= 10 {
      var s := NatToString(n);
      assert s[..|s| - 1] == NatToString(n / 10);
      NatRoundTrip(n / 10);
    }
  }

  /** Decimal formatting loses nothing: the text reads back as the same integer. */
  lemma IntRoundTrip(n: int)
    ensures var s := IntToString(n);
      |s| > 0 && (forall c | c in s :: IsDigit(c) || c == '-') && (forall c | c in s[1..] :: IsDigit(c)) && ParseInt(s) == n
  {
    IntToStringChars(n);
    var s := IntToString(n);
    if n < 0 {
      assert s[1..] == NatToString(-n);
      NatRoundTrip(-n);
    } else {
      assert s[0] in s;
      NatRoundTrip(n);
    }
  }

  lemma IntToStringInjective(m: int, n: int)
    requires IntToString(m) == IntToString(n)
    ensures m == n
  {
    IntRoundTrip(m);
    IntRoundTrip(n);
  }

  // ---------------------------------------------------------------------------
  // Command lines

  const IDN_QUERY := "*IDN?"
  const UNITS_QUERY := ":UNIT:TEMP?"
  const PROFILE_NAME_QUERY := ":PROGRAM:NAME?"
  const RUN_PROFILE := ":PROGRAM:SELECTED:STATE START"
  const STOP_PROFILE := ":PROGRAM:SELECTED:STATE STOP"
  const KEY1_QUERY := ":KEY1?"
  const KEY1_PRESS := ":KEY1 PRESS"

  /** The fixed queries are ASCII, so sending them never raises. */
  lemma QueriesAscii()
    ensures IsAscii(IDN_QUERY) && IsAscii(UNITS_QUERY) && IsAscii(PROFILE_NAME_QUERY)
  {
  }

  lemma RunProfileAscii()
    ensures IsAscii(RUN_PROFILE)
  {
  }

  lemma StopProfileAscii()
    ensures IsAscii(STOP_PROFILE)
  {
  }

  lemma KeyCommandsAscii()
    ensures IsAscii(KEY1_QUERY) && IsAscii(KEY1_PRESS)
  {
  }

  /** The two command families: direct control-loop commands and cascade-sensor commands. */
  const CLOOP_PATH := ":SOURCE:CLOOP"
  const CASCADE_PATH := ":SOURCE:CASCADE"

  predicate InCloopFamily(cmd: string) { StartsWith(cmd, CLOOP_PATH) }
  predicate InCascadeFamily(cmd: string) { StartsWith(cmd, CASCADE_PATH) }

  /** cmd.startswith(p), character by character. */
  predicate StartsWith(cmd: string, p: string) {
    p == [] || (cmd != [] && cmd[0] == p[0] && StartsWith(cmd[1..], p[1..]))
  }

  lemma {:induction false} StartsWithAppend(p: string, t: string)
    ensures StartsWith(p + t, p)
  {
    if p != [] {
      assert (p + t)[1..] == p[1..] + t;
      StartsWithAppend(p[1..], t);
    }
  }

  lemma {:induction false} StartsWithAt(cmd: string, p: string, i: nat)
    requires StartsWith(cmd, p) && i < |p|
    ensures i < |cmd| && cmd[i] == p[i]
  {
    if i > 0 {
      StartsWithAt(cmd[1..], p[1..], i - 1);
    }
  }

  /** The family prefixes differ at their tenth character, so no command is in both. */
  lemma FamiliesDisjoint(cmd: string)
    ensures !(InCloopFamily(cmd) && InCascadeFamily(cmd))
  {
    if InCloopFamily(cmd) {
      StartsWithAt(cmd, CLOOP_PATH, 9);
    }
    if InCascadeFamily(cmd) {
      StartsWithAt(cmd, CASCADE_PATH, 9);
    }
  }

  /** The path addressing control loop `cloop` in the chosen family. */
  function LoopPath(cascade: bool, cloop: int): string {
    FamilyPath(cascade) + IntToString(cloop)
  }

  function FamilyPath(cascade: bool): string {
    if cascade then CASCADE_PATH else CLOOP_PATH
  }

  lemma LoopPathSplit(cascade: bool, cloop: int, tail: string)
    ensures LoopPath(cascade, cloop) + tail == FamilyPath(cascade) + (IntToString(cloop) + tail)
  {
    Assoc(FamilyPath(cascade), IntToString(cloop), tail);
  }

  /** A command built on LoopPath lies in exactly the family chosen, and is ASCII exactly when its tail is. */
  lemma LoopPathCommand(cascade: bool, cloop: int, tail: string)
    ensures InCascadeFamily(LoopPath(cascade, cloop) + tail) == cascade
    ensures InCloopFamily(LoopPath(cascade, cloop) + tail) == !cascade
    ensures IsAscii(LoopPath(cascade, cloop) + tail) <==> IsAscii(tail)
  {
    var q := FamilyPath(cascade);
    var i := IntToString(cloop);
    IntToStringChars(cloop);
    LoopPathSplit(cascade, cloop, tail);
    PrefixFamily(cascade, i + tail);
    PathsAscii();
    AsciiAppend(q, i + tail);
    AsciiAppend(i, tail);
  }

  lemma PathsAscii()
    ensures IsAscii(CASCADE_PATH) && IsAscii(CLOOP_PATH)
  {
  }

  lemma PrefixFamily(cascade: bool, t: string)
    ensures var s := FamilyPath(cascade) + t;
      InCascadeFamily(s) == cascade && InCloopFamily(s) == !cascade
  {
    var q := FamilyPath(cascade);
    StartsWithAppend(q, t);
    FamiliesDisjoint(q + t);
  }

  function SetUnitsCommand(u: TempUnits): string {
    ":UNIT:TEMP " + UnitsText(u)
  }

  lemma SetUnitsAscii(u: TempUnits)
    ensures IsAscii(SetUnitsCommand(u))
  {
  }

  /** The ramp commands always address the control loop directly, cascade or not. */
  function RampActionCommand(cloop: int, a: RampAction): string {
    LoopPath(false, cloop) + ":RACTION " + ActionText(a)
  }

  function RampScaleCommand(cloop: int, s: RampScale): string {
    LoopPath(false, cloop) + ":RSCALE " + ScaleText(s)
  }

  function RampRateCommand(cloop: int, rate: int): string {
    LoopPath(false, cloop) + ":RRATE " + IntToString(rate)
  }

  function RampTimeCommand(cloop: int, time: int): string {
    LoopPath(false, cloop) + ":RTIME " + IntToString(time)
  }

  /** Whatever the cascade option, the four ramp commands are control-loop commands, and they are ASCII. */
  lemma RampCommandsDirect(cloop: int, a: RampAction, s: RampScale, rate: int, time: int)
    ensures InCloopFamily(RampActionCommand(cloop, a)) && !InCascadeFamily(RampActionCommand(cloop, a))
    ensures InCloopFamily(RampScaleCommand(cloop, s)) && !InCascadeFamily(RampScaleCommand(cloop, s))
    ensures InCloopFamily(RampRateCommand(cloop, rate)) && !InCascadeFamily(RampRateCommand(cloop, rate))
    ensures InCloopFamily(RampTimeCommand(cloop, time)) && !InCascadeFamily(RampTimeCommand(cloop, time))
    ensures IsAscii(RampActionCommand(cloop, a)) && IsAscii(RampScaleCommand(cloop, s))
    ensures IsAscii(RampRateCommand(cloop, rate)) && IsAscii(RampTimeCommand(cloop, time))
  {
    RampWordsAscii();
    DirectCommand(cloop, ":RACTION ", ActionText(a));
    DirectCommand(cloop, ":RSCALE ", ScaleText(s));
    IntToStringChars(rate);
    IntToStringChars(time);
    DirectCommand(cloop, ":RRATE ", IntToString(rate));
    DirectCommand(cloop, ":RTIME ", IntToString(time));
  }

  lemma RampWordsAscii()
    ensures IsAscii(":RACTION ") && IsAscii(":RSCALE ") && IsAscii(":RRATE ") && IsAscii(":RTIME ")
    ensures forall a :: IsAscii(ActionText(a))
    ensures forall s :: IsAscii(ScaleText(s))
  {
  }

  lemma DirectCommand(cloop: int, word: string, arg: string)
    requires IsAscii(word) && IsAscii(arg)
    ensures var c := LoopPath(false, cloop) + word + arg;
      InCloopFamily(c) && !InCascadeFamily(c) && IsAscii(c)
  {
    assert LoopPath(false, cloop) + word + arg == LoopPath(false, cloop) + (word + arg);
    AsciiAppend(word, arg);
    LoopPathCommand(false, cloop, word + arg);
  }

  function SelectProfileCommand(profile: int): string {
    ":PROGRAM:NUMBER " + IntToString(profile)
  }

  lemma SelectProfileAscii(profile: int)
    ensures IsAscii(SelectProfileCommand(profile))
  {
    IntToStringChars(profile);
    AsciiAppend(":PROGRAM:NUMBER ", IntToString(profile));
  }

  /** Query of the process value: the inner (air) sensor in cascade mode. */
  function TemperatureQuery(cascade: bool, cloop: int): string {
    LoopPath(cascade, cloop) + (if cascade then ":INNER:PVALUE?" else ":PVALUE?")
  }

  function SetpointQuery(cascade: bool, cloop: int): string {
    LoopPath(cascade, cloop) + ":SPOINT?"
  }

  /** The setpoint write; the cascade form ends in a space. */
  function SetpointCommand(cascade: bool, cloop: int, temp: int): string {
    LoopPath(cascade, cloop) + (":SPOINT " + IntToString(temp) + (if cascade then " " else ""))
  }

  /** Query of the sensor error state: the outer (device-under-test) sensor in cascade mode. */
  function InputErrorQuery(cascade: bool, cloop: int): string {
    LoopPath(cascade, cloop) + (if cascade then ":OUTER:ERROR?" else ":ERROR?")
  }

  /** The temperature query is in the family cascade_option picks, and ASCII. */
  lemma TemperatureQueryFamily(cascade: bool, cloop: int)
    ensures InCascadeFamily(TemperatureQuery(cascade, cloop)) == cascade
    ensures InCloopFamily(TemperatureQuery(cascade, cloop)) == !cascade
    ensures IsAscii(TemperatureQuery(cascade, cloop))
  {
    var tail := if cascade then ":INNER:PVALUE?" else ":PVALUE?";
    assert IsAscii(tail);
    LoopPathCommand(cascade, cloop, tail);
  }

  lemma SetpointQueryFamily(cascade: bool, cloop: int)
    ensures InCascadeFamily(SetpointQuery(cascade, cloop)) == cascade
    ensures InCloopFamily(SetpointQuery(cascade, cloop)) == !cascade
    ensures IsAscii(SetpointQuery(cascade, cloop))
  {
    SpointAscii();
    LoopPathCommand(cascade, cloop, ":SPOINT?");
  }

  lemma SpointAscii()
    ensures IsAscii(":SPOINT?") && IsAscii(":SPOINT ")
  {
  }

  lemma SetpointCommandFamily(cascade: bool, cloop: int, temp: int)
    ensures InCascadeFamily(SetpointCommand(cascade, cloop, temp)) == cascade
    ensures InCloopFamily(SetpointCommand(cascade, cloop, temp)) == !cascade
    ensures IsAscii(SetpointCommand(cascade, cloop, temp))
  {
    var e := if cascade then " " else "";
    assert IsAscii(":SPOINT ") && IsAscii(e);
    IntToStringChars(temp);
    AsciiAppend(":SPOINT ", IntToString(temp));
    AsciiAppend(":SPOINT " + IntToString(temp), e);
    LoopPathCommand(cascade, cloop, ":SPOINT " + IntToString(temp) + e);
  }

  lemma InputErrorQueryFamily(cascade: bool, cloop: int)
    ensures InCascadeFamily(InputErrorQuery(cascade, cloop)) == cascade
    ensures InCloopFamily(InputErrorQuery(cascade, cloop)) == !cascade
    ensures IsAscii(InputErrorQuery(cascade, cloop))
  {
    var tail := if cascade then ":OUTER:ERROR?" else ":ERROR?";
    assert IsAscii(tail);
    LoopPathCommand(cascade, cloop, tail);
  }

  function OutputStateQuery(output: int): string {
    ":OUTPUT" + IntToString(output) + ":STATE?"
  }

  lemma OutputStateQueryAscii(output: int)
    ensures IsAscii(OutputStateQuery(output))
  {
    IntToStringChars(output);
    AsciiAppend(":OUTPUT", IntToString(output));
    AsciiAppend(":OUTPUT" + IntToString(output), ":STATE?");
  }

  function SetOutputCommand(output: int, state: string): string {
    ":OUTPUT" + IntToString(output) + ":STATE " + state
  }

  /** The relay command carries `state` verbatim, so it is ASCII exactly when `state` is. */
  lemma SetOutputAscii(output: int, state: string)
    ensures IsAscii(SetOutputCommand(output, state)) <==> IsAscii(state)
  {
    IntToStringChars(output);
    AsciiAppend(":OUTPUT", IntToString(output));
    AsciiAppend(":OUTPUT" + IntToString(output), ":STATE ");
    AsciiAppend(":OUTPUT" + IntToString(output) + ":STATE ", state);
  }

  /** The configuration cascade_init sends after air control is on, in order. */
  function CascadeConfig(cloop: int): seq<string> {
    var p := LoopPath(true, cloop);
    [ p + ":FUNC DEVIATION",
      p + ":RANGE:LOW 10",
      p + ":RANGE:HIGH 10",
      p + ":SSPOINT:CONTROL OFF",
      p + ":CONTROL BOTH" ]
  }

  /** The configuration is five cascade commands, all ASCII. */
  lemma CascadeConfigFamily(cloop: int)
    ensures var r := CascadeConfig(cloop);
      |r| == 5 && forall i | 0 <= i < 5 :: InCascadeFamily(r[i]) && !InCloopFamily(r[i]) && IsAscii(r[i])
  {
    ConfigTailsAscii();
    LoopPathCommand(true, cloop, ":FUNC DEVIATION");
    LoopPathCommand(true, cloop, ":RANGE:LOW 10");
    LoopPathCommand(true, cloop, ":RANGE:HIGH 10");
    LoopPathCommand(true, cloop, ":SSPOINT:CONTROL OFF");
    LoopPathCommand(true, cloop, ":CONTROL BOTH");
  }

  lemma ConfigTailsAscii()
    ensures IsAscii(":FUNC DEVIATION") && IsAscii(":RANGE:LOW 10") && IsAscii(":RANGE:HIGH 10")
    ensures IsAscii(":SSPOINT:CONTROL OFF") && IsAscii(":CONTROL BOTH")
  {
  }

  // ---------------------------------------------------------------------------
  // Commands carry their arguments unambiguously

  /** Splitting at the first ':' is unique when the heads hold no ':'. */
  lemma ColonSplit(x1: string, r1: string, x2: string, r2: string)
    requires ':' !in x1 && ':' !in x2
    requires |r1| > 0 && r1[0] == ':' && |r2| > 0 && r2[0] == ':'
    requires x1 + r1 == x2 + r2
    ensures x1 == x2 && r1 == r2
  {
    var s := x1 + r1;
    assert forall i | 0 <= i < |x1| :: s[i] != ':' by {
      forall i | 0 <= i < |x1| ensures s[i] != ':' { assert x1[i] in x1; }
    }
    assert forall i | 0 <= i < |x2| :: s[i] != ':' by {
      forall i | 0 <= i < |x2| ensures s[i] != ':' { assert s[i] == x2[i] && x2[i] in x2; }
    }
    assert s[|x1|] == ':' && s[|x2|] == ':';
    assert |x1| == |x2|;
    assert x1 == s[..|x1|] && x2 == s[..|x2|];
    assert r1 == s[|x1|..] && r2 == s[|x2|..];
  }

  lemma CancelPrefix(p: string, a: string, b: string)
    requires p + a == p + b
    ensures a == b
  {
    assert a == (p + a)[|p|..];
    assert b == (p + b)[|p|..];
  }

  lemma CancelSuffix(a: string, b: string, t: string)
    requires a + t == b + t
    ensures a == b
  {
    assert a == (a + t)[..|a|];
    assert b == (b + t)[..|b|];
  }

  /** Recovers the family and the loop index from a command built on LoopPath. */
  lemma LoopPathInjective(c1: bool, n1: int, t1: string, c2: bool, n2: int, t2: string)
    requires |t1| > 0 && t1[0] == ':' && |t2| > 0 && t2[0] == ':'
    requires LoopPath(c1, n1) + t1 == LoopPath(c2, n2) + t2
    ensures c1 == c2 && n1 == n2 && t1 == t2
  {
    LoopPathCommand(c1, n1, t1);
    LoopPathCommand(c2, n2, t2);
    var i1, i2 := IntToString(n1), IntToString(n2);
    IntToStringChars(n1);
    IntToStringChars(n2);
    LoopPathSplit(c1, n1, t1);
    LoopPathSplit(c2, n2, t2);
    CancelPrefix(FamilyPath(c1), i1 + t1, i2 + t2);
    ColonSplit(i1, t1, i2, t2);
    IntToStringInjective(n1, n2);
  }

  /** The temperature query names its family and loop unambiguously. */
  lemma TemperatureQueryInjective(c1: bool, n1: int, c2: bool, n2: int)
    requires TemperatureQuery(c1, n1) == TemperatureQuery(c2, n2)
    ensures c1 == c2 && n1 == n2
  {
    LoopPathInjective(c1, n1, if c1 then ":INNER:PVALUE?" else ":PVALUE?",
                      c2, n2, if c2 then ":INNER:PVALUE?" else ":PVALUE?");
  }

  /** The setpoint command names its family, loop and temperature unambiguously. */
  lemma SetpointCommandInjective(c1: bool, n1: int, t1: int, c2: bool, n2: int, t2: int)
    requires SetpointCommand(c1, n1, t1) == SetpointCommand(c2, n2, t2)
    ensures c1 == c2 && n1 == n2 && t1 == t2
  {
    var e1, e2 := if c1 then " " else "", if c2 then " " else "";
    var tail1 := ":SPOINT " + IntToString(t1) + e1;
    var tail2 := ":SPOINT " + IntToString(t2) + e2;
    LoopPathInjective(c1, n1, tail1, c2, n2, tail2);
    SpointTailInjective(t1, t2, e1);
  }

  lemma SpointTailInjective(t1: int, t2: int, e: string)
    requires ":SPOINT " + IntToString(t1) + e == ":SPOINT " + IntToString(t2) + e
    ensures t1 == t2
  {
    CancelSuffix(":SPOINT " + IntToString(t1), ":SPOINT " + IntToString(t2), e);
    CancelPrefix(":SPOINT ", IntToString(t1), IntToString(t2));
    IntToStringInjective(t1, t2);
  }

  // ---------------------------------------------------------------------------
  // Replies

  /** The reply tokens of an output's state. */
  function StateToken(on: bool): string { if on then "ON" else "OFF" }

  /** is_done's decoding: True for "ON", False for "OFF", None for anything else. */
  function OutputState(resp: string): (r: Option<bool>)
    ensures forall b :: r == Some(b) <==> resp == StateToken(b)
  {
    if resp == "ON" then Some(true)
    else if resp == "OFF" then Some(false)
    else None
  }

  /** str.replace('"', ''). */
  function RemoveQuotes(s: string): string {
    if s == [] then []
    else (if s[0] == '"' then [] else [s[0]]) + RemoveQuotes(s[1..])
  }

  /** Removing quotes keeps only characters of the input, and leaves no quote behind. */
  lemma {:induction false} RemoveQuotesSpec(s: string)
    ensures var r := RemoveQuotes(s);
      |r| <= |s| && '"' !in r && forall c :: c in r <==> c in s && c != '"'
  {
    if s != [] {
      RemoveQuotesSpec(s[1..]);
      assert s == [s[0]] + s[1..];
    }
  }

  /** Every character other than a quote is kept exactly as many times as it occurs. */
  lemma {:induction false} RemoveQuotesCount(s: string)
    ensures multiset(RemoveQuotes(s)) == multiset(s)['"' := 0]
  {
    if s != [] {
      RemoveQuotesCount(s[1..]);
      var head := if s[0] == '"' then [] else [s[0]];
      assert RemoveQuotes(s) == head + RemoveQuotes(s[1..]);
      assert s == [s[0]] + s[1..];
      assert multiset(s) == multiset([s[0]]) + multiset(s[1..]);
      assert multiset(head) == multiset([s[0]])['"' := 0];
    }
  }

  /**
   * Quote removal works character by character: a quote is dropped, any other
   * character kept, and the pieces of a text keep their order.
   */
  lemma {:induction false} RemoveQuotesAppend(a: string, b: string)
    ensures RemoveQuotes(a + b) == RemoveQuotes(a) + RemoveQuotes(b)
    ensures |a| == 1 ==> RemoveQuotes(a) == if a[0] == '"' then [] else a
  {
    if a != [] {
      assert (a + b)[0] == a[0] && (a + b)[1..] == a[1..] + b;
      RemoveQuotesAppend(a[1..], b);
    } else {
      assert a + b == b;
    }
    if |a| == 1 {
      assert a[1..] == [];
    }
  }

  lemma {:induction false} RemoveQuotesUnquoted(s: string)
    requires '"' !in s
    ensures RemoveQuotes(s) == s
  {
    if s != [] {
      assert s[1..] == s[1..] && '"' !in s[1..] by {
        forall c | c in s[1..] ensures c in s { }
      }
      RemoveQuotesUnquoted(s[1..]);
      assert s == [s[0]] + s[1..];
    }
  }

  /** The profile name get_profiles records for a reply line. */
  function ProfileName(line: string): string {
    RemoveQuotes(Strip(line))
  }

  /** A recorded name never holds a quote, and a line that is already a stripped, unquoted name is kept as it is. */
  lemma ProfileNameSpec(line: string)
    ensures '"' !in ProfileName(line)
    ensures '"' !in line && Strip(line) == line ==> ProfileName(line) == line
  {
    RemoveQuotesSpec(Strip(line));
    if '"' !in line && Strip(line) == line {
      RemoveQuotesUnquoted(line);
    }
  }
}
