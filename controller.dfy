/**
 * The F4T controller client: typed operations built on the Device, and the
 * multi-exchange procedures (air-control polling, cascade configuration,
 * profile probing) given first as functions of the peer's events.
 */
module Controller {
  import opened Outcomes
  import opened Framing
  import opened Commands
  import opened Transport

  /** What a multi-step procedure does against the peer: the commands it sends, the events it leaves, and how it ends. */
  datatype Exchange = Exchange(cmds: seq<string>, rest: seq<RecvEvent>, result: Result<()>)

  /** What get_profiles does: as an Exchange, plus the names it records from index 1 on. */
  datatype ProbeRun = ProbeRun(cmds: seq<string>, rest: seq<RecvEvent>, names: seq<string>, result: Result<()>)

  // ---------------------------------------------------------------------------
  // set_cascade_air_control's poll loop

  /**
   * Send :KEY1?, read the reply; stop once it is the desired state, otherwise
   * send :KEY1 PRESS and poll again. A silent peer (no events left) ends the
   * model with NoReply where the source keeps polling forever.
   */
  function AirControl(on: bool, events: seq<RecvEvent>): Exchange
    decreases |events|
  {
    if events == [] then Exchange([], [], Err(NoReply))
    else
      LineFromConsumes(events);
      var (rx, rest) := LineFrom(events);
      if rx.Err? then Exchange([KEY1_QUERY], rest, Err(rx.error))
      else if rx.value == StateToken(on) then Exchange([KEY1_QUERY], rest, Ok(()))
      else
        var x := AirControl(on, rest);
        Exchange([KEY1_QUERY, KEY1_PRESS] + x.cmds, x.rest, x.result)
  }

  /** k unanswered polls: each query followed by one press. */
  function Polls(k: nat): seq<string> {
    if k == 0 then [] else [KEY1_QUERY, KEY1_PRESS] + Polls(k - 1)
  }

  /** Reading |lines| reply lines off `events`, each from a peer that still has something to say, yields `lines` and leaves `rest`. */
  ghost predicate Replies(events: seq<RecvEvent>, lines: seq<string>, rest: seq<RecvEvent>)
    decreases |lines|
  {
    if lines == [] then events == rest
    else events != [] && LineFrom(events).0 == Ok(lines[0]) && Replies(LineFrom(events).1, lines[1..], rest)
  }

  /** One press after each reply that is not the desired state, and a return on the first one that is. */
  lemma {:induction false} AirControlUntilMatch(on: bool, events: seq<RecvEvent>, lines: seq<string>, rest: seq<RecvEvent>)
    requires Replies(events, lines, rest) && lines != []
    requires forall k | 0 <= k < |lines| - 1 :: lines[k] != StateToken(on)
    requires lines[|lines| - 1] == StateToken(on)
    ensures AirControl(on, events) == Exchange(Polls(|lines| - 1) + [KEY1_QUERY], rest, Ok(()))
    decreases |lines|
  {
    var rx := LineFrom(events).0;
    var after := LineFrom(events).1;
    if |lines| > 1 {
      assert lines[0] != StateToken(on);
      AirControlContinues(on, events, rx, after);
      AirControlUntilMatch(on, after, lines[1..], rest);
      assert Polls(|lines| - 1) + [KEY1_QUERY] == [KEY1_QUERY, KEY1_PRESS] + (Polls(|lines| - 2) + [KEY1_QUERY]);
    } else {
      AirControlStops(on, events, rx, after);
      assert Polls(0) + [KEY1_QUERY] == [KEY1_QUERY];
    }
  }

  /** While the device never reports the desired state, every poll is followed by a press. */
  lemma {:induction false} AirControlNeverMatching(on: bool, events: seq<RecvEvent>, lines: seq<string>)
    requires Replies(events, lines, [])
    requires forall k | 0 <= k < |lines| :: lines[k] != StateToken(on)
    ensures AirControl(on, events) == Exchange(Polls(|lines|), [], Err(NoReply))
    decreases |lines|
  {
    if lines != [] {
      var rx := LineFrom(events).0;
      var after := LineFrom(events).1;
      assert lines[0] != StateToken(on);
      AirControlContinues(on, events, rx, after);
      AirControlNeverMatching(on, after, lines[1..]);
    }
  }

  /** The device answers "OFF" and then "ON": one press between two polls. */
  lemma AirControlOffThenOn(rest: seq<RecvEvent>)
    ensures AirControl(true, [Chunk([79, 70, 70, 10]), Chunk([79, 78, 10])] + rest)
         == Exchange([KEY1_QUERY, KEY1_PRESS, KEY1_QUERY], rest, Ok(()))
  {
    var events := [Chunk([79, 70, 70, 10]), Chunk([79, 78, 10])] + rest;
    var after := [Chunk([79, 78, 10])] + rest;
    StateReplies();
    assert events == Chunks([[79, 70, 70, 10]]) + after;
    HeardAs("OFF", [79, 70, 70, 10], after);
    AirControlContinues(true, events, Ok("OFF"), after);
    assert after == Chunks([[79, 78, 10]]) + rest;
    HeardAs("ON", [79, 78, 10], rest);
    AirControlStops(true, after, Ok("ON"), rest);
  }

  /** b"OFF\n" and b"ON\n" are the encoded state words, each a word with non-space ends. */
  lemma StateReplies()
    ensures IsAscii("OFF") && Encode("OFF") + [EOL] == [79, 70, 70, 10] && !IsSpace('O') && !IsSpace('F')
    ensures IsAscii("ON") && Encode("ON") + [EOL] == [79, 78, 10] && !IsSpace('N')
  {
  }

  lemma HeardAs(word: string, chunk: seq<byte>, rest: seq<RecvEvent>)
    requires IsAscii(word) && word != [] && !IsSpace(word[0]) && !IsSpace(word[|word| - 1])
    requires chunk == Encode(word) + [EOL]
    ensures LineFrom(Chunks([chunk]) + rest) == (Ok(word), rest)
  {
    assert Concat([chunk]) == chunk;
    LineFromReply(word, [chunk], rest);
    StripPadded([], word, []);
    assert [] + word + [] == word;
  }

  // ---------------------------------------------------------------------------
  // cascade_init

  /** Each command sent, then its reply line read and discarded; a read that raises stops the sequence. */
  function Configure(cmds: seq<string>, events: seq<RecvEvent>): Exchange
    decreases |cmds|
  {
    if cmds == [] then Exchange([], events, Ok(()))
    else
      var (rx, rest) := LineFrom(events);
      if rx.Err? then Exchange([cmds[0]], rest, Err(rx.error))
      else
        var x := Configure(cmds[1..], rest);
        Exchange([cmds[0]] + x.cmds, x.rest, x.result)
  }

  /** cascade_init(cloop): nothing without the cascade option; otherwise air control on, then the fixed configuration. */
  function CascadeInitSpec(cascade: bool, cloop: int, events: seq<RecvEvent>): Exchange {
    if !cascade then Exchange([], events, Ok(())) else AirThenConfigure(CascadeConfig(cloop), events)
  }

  /** Air control switched on, then, unless that raised, the commands configured one by one. */
  function AirThenConfigure(cmds: seq<string>, events: seq<RecvEvent>): Exchange {
    var a := AirControl(true, events);
    if a.result.Err? then a
    else
      var c := Configure(cmds, a.rest);
      Exchange(a.cmds + c.cmds, c.rest, c.result)
  }

  /** The commands configured so far are a prefix of those asked for, and all of them when nothing raised. */
  lemma {:induction false} ConfigureSends(cmds: seq<string>, events: seq<RecvEvent>)
    ensures var x := Configure(cmds, events);
      x.cmds <= cmds && (x.result.Ok? ==> x.cmds == cmds) && (x.result.Err? ==> x.cmds != [])
  {
    if cmds != [] {
      ConfigureSends(cmds[1..], LineFrom(events).1);
    }
  }

  /** With one reply line per command, the whole configuration goes through and consumes exactly those replies. */
  lemma {:induction false} ConfigureAnswered(cmds: seq<string>, events: seq<RecvEvent>, lines: seq<string>, rest: seq<RecvEvent>)
    requires Replies(events, lines, rest) && |lines| == |cmds|
    ensures Configure(cmds, events) == Exchange(cmds, rest, Ok(()))
    decreases |cmds|
  {
    if cmds != [] {
      ConfigureAnswered(cmds[1..], LineFrom(events).1, lines[1..], rest);
      assert cmds == [cmds[0]] + cmds[1..];
    }
  }

  /** Without the cascade option nothing is sent; with it, a successful init sends the polls and then the five configuration commands in order. */
  lemma CascadeInitSequence(cascade: bool, cloop: int, events: seq<RecvEvent>)
    ensures var x := CascadeInitSpec(cascade, cloop, events);
      (!cascade ==> x == Exchange([], events, Ok(()))) &&
      (cascade && x.result.Ok? ==> x.cmds == AirControl(true, events).cmds + CascadeConfig(cloop)) &&
      (cascade ==> AirControl(true, events).cmds <= x.cmds)
  {
    if cascade {
      var a := AirControl(true, events);
      if a.result.Ok? {
        ConfigureSends(CascadeConfig(cloop), a.rest);
      }
    }
  }

  // ---------------------------------------------------------------------------
  // get_profiles

  /** Probing profile indices from i: select, ask the name, record it, and stop at the first empty name or past 39. */
  function Probe(i: int, events: seq<RecvEvent>): ProbeRun
    decreases 40 - i
  {
    if i >= 40 then ProbeRun([], events, [], Ok(()))
    else
      var cmds := [SelectProfileCommand(i), PROFILE_NAME_QUERY];
      var (rx, rest) := LineFrom(events);
      if rx.Err? then ProbeRun(cmds, rest, [], Err(rx.error))
      else
        var name := ProfileName(rx.value);
        if name == "" then ProbeRun(cmds, rest, [], Ok(()))
        else
          var p := Probe(i + 1, rest);
          ProbeRun(cmds + p.cmds, p.rest, [name] + p.names, p.result)
  }

  /** The registry after recording `names` under i, i+1, ...: profiles[j] = name, in place. */
  function Record(m: map<int, string>, i: int, names: seq<string>): map<int, string>
    decreases |names|
  {
    if names == [] then m else Record(m[i := names[0]], i + 1, names[1..])
  }

  /** The probes of indices i, i+1, ..., i+n-1, in that order. */
  function ProbeCommands(i: int, n: nat): seq<string>
    decreases n
  {
    if n == 0 then [] else [SelectProfileCommand(i), PROFILE_NAME_QUERY] + ProbeCommands(i + 1, n - 1)
  }

  /**
   * Indices are probed in increasing order from i and never past 39: the run
   * sends the probes of i, ..., i+n-1 with i+n <= 40. Every probe but possibly
   * the last records a name, and a run that records a name at every probe has
   * reached index 39.
   */
  ghost predicate ProbedInOrder(i: int, events: seq<RecvEvent>, n: nat) {
    var p := Probe(i, events);
    p.cmds == ProbeCommands(i, n) && i + n <= 40 &&
    |p.names| <= n <= |p.names| + 1 && (n == |p.names| ==> i + n == 40)
  }

  /** Whatever the replies, get_profiles probes i, i+1, ... in order and never goes past 39 (its stop rule: ProbeUntilEmpty, ProbeAllNamed). */
  lemma {:induction false} ProbeOrder(i: int, events: seq<RecvEvent>) returns (n: nat)
    requires 1 <= i <= 40
    ensures ProbedInOrder(i, events, n)
    decreases 40 - i
  {
    if i == 40 {
      n := 0;
    } else if LineFrom(events).0.Ok? && ProfileName(LineFrom(events).0.value) != "" {
      var m := ProbeOrder(i + 1, LineFrom(events).1);
      ProbeOrderNext(i, events, m);
      n := m + 1;
    } else {
      ProbeOrderStop(i, events);
      n := 1;
    }
  }

  lemma ProbeOrderNext(i: int, events: seq<RecvEvent>, m: nat)
    requires 1 <= i < 40 && LineFrom(events).0.Ok? && ProfileName(LineFrom(events).0.value) != ""
    requires ProbedInOrder(i + 1, LineFrom(events).1, m)
    ensures ProbedInOrder(i, events, m + 1)
  {
    ProbeContinues(i, events, LineFrom(events).0, LineFrom(events).1);
    assert ProbeCommands(i, m + 1) == [SelectProfileCommand(i), PROFILE_NAME_QUERY] + ProbeCommands(i + 1, m);
  }

  lemma ProbeOrderStop(i: int, events: seq<RecvEvent>)
    requires 1 <= i < 40 && (LineFrom(events).0.Err? || ProfileName(LineFrom(events).0.value) == "")
    ensures ProbedInOrder(i, events, 1)
  {
    ProbeStops(i, events, LineFrom(events).0, LineFrom(events).1);
    assert ProbeCommands(i + 1, 0) == [];
  }

  /** The names get_profiles derives from a run of reply lines, one per line. */
  function NamesOf(lines: seq<string>): seq<string> {
    if lines == [] then [] else [ProfileName(lines[0])] + NamesOf(lines[1..])
  }

  /**
   * Replies that each name a profile, until one whose name is empty: every
   * line is probed in turn, the names before the empty one are recorded, and
   * the scan stops right after it.
   */
  lemma {:induction false} ProbeUntilEmpty(i: int, events: seq<RecvEvent>, lines: seq<string>, rest: seq<RecvEvent>)
    requires Replies(events, lines, rest) && lines != [] && i + |lines| <= 40
    requires forall k | 0 <= k < |lines| - 1 :: ProfileName(lines[k]) != ""
    requires ProfileName(lines[|lines| - 1]) == ""
    ensures Probe(i, events) == ProbeRun(ProbeCommands(i, |lines|), rest, NamesOf(lines[..|lines| - 1]), Ok(()))
    decreases |lines|
  {
    var rx := LineFrom(events).0;
    var after := LineFrom(events).1;
    if |lines| > 1 {
      assert ProfileName(lines[0]) != "";
      ProbeContinues(i, events, rx, after);
      ProbeUntilEmpty(i + 1, after, lines[1..], rest);
      assert lines[..|lines| - 1][1..] == lines[1..][..|lines[1..]| - 1];
    } else {
      ProbeStops(i, events, rx, after);
      assert ProbeCommands(i + 1, 0) == [];
    }
  }

  /** Replies that all name a profile, up to index 39: every name is recorded and the scan ends there. */
  lemma {:induction false} ProbeAllNamed(i: int, events: seq<RecvEvent>, lines: seq<string>, rest: seq<RecvEvent>)
    requires Replies(events, lines, rest) && i + |lines| == 40
    requires forall k | 0 <= k < |lines| :: ProfileName(lines[k]) != ""
    ensures Probe(i, events) == ProbeRun(ProbeCommands(i, |lines|), rest, NamesOf(lines), Ok(()))
    decreases |lines|
  {
    if lines != [] {
      var rx := LineFrom(events).0;
      var after := LineFrom(events).1;
      assert ProfileName(lines[0]) != "";
      ProbeContinues(i, events, rx, after);
      ProbeAllNamed(i + 1, after, lines[1..], rest);
    }
  }

  /** Names as get_profiles keeps them: none empty, none with a quote. */
  predicate ValidNames(names: seq<string>) {
    forall k | 0 <= k < |names| :: names[k] != "" && '"' !in names[k]
  }

  /** Every recorded name is non-empty and free of quotes. */
  lemma {:induction false} ProbeNames(i: int, events: seq<RecvEvent>)
    ensures ValidNames(Probe(i, events).names)
    decreases 40 - i
  {
    if i < 40 {
      var rx := LineFrom(events).0;
      var rest := LineFrom(events).1;
      if rx.Ok? && ProfileName(rx.value) != "" {
        var name := ProfileName(rx.value);
        ProbeNames(i + 1, rest);
        ProfileNameSpec(rx.value);
        var p := Probe(i + 1, rest);
        var names := Probe(i, events).names;
        assert names == [name] + p.names;
        forall k | 0 <= k < |names| ensures names[k] != "" && '"' !in names[k] {
          if k > 0 {
            assert names[k] == p.names[k - 1];
          }
        }
      } else {
        assert Probe(i, events).names == [];
      }
    }
  }

  /** Recording names from index i adds exactly the keys i .. i+|names|-1, each with its name, and keeps every other entry. */
  lemma {:induction false} RecordContiguous(m: map<int, string>, i: int, names: seq<string>)
    ensures var r := Record(m, i, names);
      (forall j :: j in r <==> j in m || i <= j < i + |names|) &&
      (forall j | i <= j < i + |names| :: r[j] == names[j - i]) &&
      (forall j | j in m && !(i <= j < i + |names|) :: r[j] == m[j])
    decreases |names|
  {
    if names != [] {
      var m1 := m[i := names[0]];
      RecordContiguous(m1, i + 1, names[1..]);
      var r := Record(m, i, names);
      assert r == Record(m1, i + 1, names[1..]);
      forall j | i <= j < i + |names| ensures r[j] == names[j - i] {
        if j > i {
          assert names[1..][j - (i + 1)] == names[j - i];
        }
      }
    }
  }

  /** A peer that never answers makes every probe read the sentinel, so "FAILED" is recorded under every index up to 39. */
  lemma {:induction false} ProbeSilentPeer(i: int)
    requires 1 <= i <= 40
    ensures Probe(i, []).names == seq(40 - i, _ => "FAILED") && Probe(i, []).result == Ok(())
    decreases 40 - i
  {
    if i < 40 {
      LineFromTimeoutFirst([]);
      SentinelName();
      ProbeSilentPeer(i + 1);
      assert seq(40 - i, _ => "FAILED") == ["FAILED"] + seq(40 - (i + 1), _ => "FAILED");
    }
  }

  lemma SentinelName()
    ensures ProfileName("FAILED") == "FAILED"
  {
    StripPadded([], "FAILED", []);
    assert [] + "FAILED" + [] == "FAILED";
    ProfileNameSpec("FAILED");
  }

  // ---------------------------------------------------------------------------
  // The controller

  class F4TController {
    const dev: Device
    var setPoint: int
    var tempUnits: TempUnits
    var currentProfile: int
    const cascade: bool
    var profiles: map<int, string>

    ghost predicate Valid()
      reads this, dev
    {
      dev.Valid()
    }

    /** The controller's fields as F4TController.__init__ sets them, over a device that has completed its handshake. */
    constructor (dev: Device, setPoint: int, units: TempUnits, profile: int, cascade: bool)
      ensures this.dev == dev && this.setPoint == setPoint && tempUnits == units
      ensures currentProfile == profile && this.cascade == cascade && profiles == map[]
    {
      this.dev := dev;
      this.setPoint := setPoint;
      tempUnits := units;
      currentProfile := profile;
      this.cascade := cascade;
      profiles := map[];
    }

    /** F4TController.__init__: Device.__init__ (with its *IDN? handshake when no id is given), then cascade_init on loop 1. */
    static method Connect(script: seq<RecvEvent>, id: Option<string>, setPoint: int, units: TempUnits, profile: int, cascade: bool)
      returns (r: Result<F4TController>)
      requires WellFormedScript(script)
      ensures r.Ok? ==> fresh(r.value) && fresh(r.value.dev) && r.value.Valid()
      ensures r.Ok? ==> r.value.cascade == cascade && r.value.tempUnits == units && r.value.profiles == map[]
      ensures id.Some? ==> var x := CascadeInitSpec(cascade, 1, script);
        (x.result.Err? ==> r == Err(x.result.error)) &&
        (x.result.Ok? ==> r.Ok? && r.value.dev.id == id && r.value.dev.sent == Lines(x.cmds) && r.value.dev.incoming == x.rest)
      ensures id.None? ==> var (rx, rest) := LineFrom(Drain(script));
        (rx.Err? ==> r == Err(rx.error)) &&
        (rx.Ok? ==> var x := CascadeInitSpec(cascade, 1, rest);
          (x.result.Err? ==> r == Err(x.result.error)) &&
          (x.result.Ok? ==> r.Ok? && r.value.dev.id == Some(rx.value) &&
                            r.value.dev.sent == [IDN_QUERY + "\n"] + Lines(x.cmds) && r.value.dev.incoming == x.rest))
    {
      var d := Device.Open(script, id);
      if d.Err? {
        return Err(d.error);
      }
      var c := new F4TController(d.value, setPoint, units, profile, cascade);
      var init := c.CascadeInit(1);
      if init.Err? {
        return Err(init.error);
      }
      r := Ok(c);
    }

    /** F4TController.get_profiles. */
    method GetProfiles() returns (r: Result<()>)
      requires Valid()
      modifies this`profiles, dev`sent, dev`incoming
      ensures Valid()
      ensures var p := Probe(1, old(dev.incoming));
        dev.sent == old(dev.sent) + Lines(p.cmds) && dev.incoming == p.rest && r == p.result &&
        profiles == Record(old(profiles), 1, p.names)
    {
      ghost var total := Probe(1, dev.incoming);
      ghost var goal := old(dev.sent) + Lines(total.cmds);
      ghost var cur := total;
      var i := 1;
      while i < 40
        invariant 1 <= i <= 40 && Valid()
        invariant cur == Probe(i, dev.incoming)
        invariant goal == dev.sent + Lines(cur.cmds)
        invariant cur.rest == total.rest && cur.result == total.result
        invariant Record(old(profiles), 1, total.names) == Record(profiles, i, cur.names)
        decreases 40 - i
      {
        ghost var before, events := dev.sent, dev.incoming;
        ghost var cmds := [SelectProfileCommand(i), PROFILE_NAME_QUERY];
        SelectProfile(i);
        QueriesAscii();
        var ok := dev.SendCommand(PROFILE_NAME_QUERY);
        var line := dev.ReadLine();
        LinesPair(SelectProfileCommand(i), PROFILE_NAME_QUERY);
        if line.Err? {
          ProbeStops(i, events, line, dev.incoming);
          LinesAdvance(goal, before, dev.sent, cmds, []);
          return Err(line.error);
        }
        var name := ProfileName(line.value);
        if name == "" {
          ProbeStops(i, events, line, dev.incoming);
          LinesAdvance(goal, before, dev.sent, cmds, []);
          return Ok(());
        }
        ProbeContinues(i, events, line, dev.incoming);
        LinesAdvance(goal, before, dev.sent, cmds, Probe(i + 1, dev.incoming).cmds);
        RecordCons(profiles, i, name, Probe(i + 1, dev.incoming).names);
        assert Valid();
        profiles := profiles[i := name];
        cur := Probe(i + 1, dev.incoming);
        i := i + 1;
      }
      r := Ok(());
    }

    /** F4TController.get_units: drain, ask the units, and cache them if the reply names a member. */
    method GetUnits() returns (r: Result<()>)
      requires Valid()
      modifies this`tempUnits, dev`sent, dev`incoming
      ensures Valid()
      ensures dev.sent == old(dev.sent) + [UNITS_QUERY + "\n"]
      ensures var (rx, rest) := LineFrom(Drain(old(dev.incoming)));
        dev.incoming == rest &&
        (rx.Err? ==> r == Err(rx.error) && tempUnits == old(tempUnits)) &&
        (rx.Ok? && ParseUnits(rx.value).None? ==> r == Err(InvalidValue(rx.value)) && tempUnits == old(tempUnits)) &&
        (rx.Ok? && ParseUnits(rx.value).Some? ==> r == Ok(()) && tempUnits == ParseUnits(rx.value).value)
    {
      dev.ClearBuffer();
      QueriesAscii();
      var ok := dev.SendCommand(UNITS_QUERY);
      var resp := dev.ReadLine();
      if resp.Err? {
        return Err(resp.error);
      }
      match ParseUnits(resp.value)
      case None =>
        r := Err(InvalidValue(resp.value));
      case Some(u) =>
        tempUnits := u;
        r := Ok(());
    }

    /** F4TController.set_units: the given units, or the cached ones; the cache itself is not updated. */
    method SetUnits(units: Option<TempUnits>) returns (r: Result<()>)
      requires Valid()
      modifies dev`sent, dev`incoming
      ensures Valid()
      ensures var u := if units.Some? then units.value else tempUnits;
        dev.sent == old(dev.sent) + [SetUnitsCommand(u) + "\n"]
      ensures Discarded(r, old(dev.incoming), dev.incoming)
    {
      var u := if units.Some? then units.value else tempUnits;
      SetUnitsAscii(u);
      var ok := dev.SendCommand(SetUnitsCommand(u));
      var rx := dev.ReadLine();
      r := if rx.Ok? then Ok(()) else Err(rx.error);
    }

    /** F4TController.set_ramp_action: the action is validated before anything is sent. */
    method SetRampAction(action: string, cloop: int) returns (r: Result<()>)
      requires Valid()
      modifies dev`sent, dev`incoming
      ensures Valid()
      ensures ParseAction(action).None? ==>
        r == Err(InvalidValue(action)) && dev.sent == old(dev.sent) && dev.incoming == old(dev.incoming)
      ensures ParseAction(action).Some? ==>
        dev.sent == old(dev.sent) + [RampActionCommand(cloop, ParseAction(action).value) + "\n"] &&
        Discarded(r, old(dev.incoming), dev.incoming)
    {
      match ParseAction(action)
      case None =>
        r := Err(InvalidValue(action));
      case Some(a) =>
        RampCommandsDirect(cloop, a, Minutes, 0, 0);
        var ok := dev.SendCommand(RampActionCommand(cloop, a));
        var rx := dev.ReadLine();
        r := if rx.Ok? then Ok(()) else Err(rx.error);
    }

    /** F4TController.set_ramp_scale: the scale is validated before anything is sent. */
    method SetRampScale(scale: string, cloop: int) returns (r: Result<()>)
      requires Valid()
      modifies dev`sent, dev`incoming
      ensures Valid()
      ensures ParseScale(scale).None? ==>
        r == Err(InvalidValue(scale)) && dev.sent == old(dev.sent) && dev.incoming == old(dev.incoming)
      ensures ParseScale(scale).Some? ==>
        dev.sent == old(dev.sent) + [RampScaleCommand(cloop, ParseScale(scale).value) + "\n"] &&
        Discarded(r, old(dev.incoming), dev.incoming)
    {
      match ParseScale(scale)
      case None =>
        r := Err(InvalidValue(scale));
      case Some(s) =>
        RampCommandsDirect(cloop, Off, s, 0, 0);
        var ok := dev.SendCommand(RampScaleCommand(cloop, s));
        var rx := dev.ReadLine();
        r := if rx.Ok? then Ok(()) else Err(rx.error);
    }

    /** F4TController.set_ramp_rate: passed through unchecked. */
    method SetRampRate(rate: int, cloop: int) returns (r: Result<()>)
      requires Valid()
      modifies dev`sent, dev`incoming
      ensures Valid()
      ensures dev.sent == old(dev.sent) + [RampRateCommand(cloop, rate) + "\n"]
      ensures Discarded(r, old(dev.incoming), dev.incoming)
    {
      RampCommandsDirect(cloop, Off, Minutes, rate, 0);
      var ok := dev.SendCommand(RampRateCommand(cloop, rate));
      var rx := dev.ReadLine();
      r := if rx.Ok? then Ok(()) else Err(rx.error);
    }

    /** F4TController.set_ramp_time: passed through unchecked. */
    method SetRampTime(time: int, cloop: int) returns (r: Result<()>)
      requires Valid()
      modifies dev`sent, dev`incoming
      ensures Valid()
      ensures dev.sent == old(dev.sent) + [RampTimeCommand(cloop, time) + "\n"]
      ensures Discarded(r, old(dev.incoming), dev.incoming)
    {
      RampCommandsDirect(cloop, Off, Minutes, 0, time);
      var ok := dev.SendCommand(RampTimeCommand(cloop, time));
      var rx := dev.ReadLine();
      r := if rx.Ok? then Ok(()) else Err(rx.error);
    }

    /** F4TController.select_profile: the index is not checked. */
    method SelectProfile(profile: int)
      requires Valid()
      modifies dev`sent
      ensures Valid()
      ensures dev.sent == old(dev.sent) + [SelectProfileCommand(profile) + "\n"]
    {
      SelectProfileAscii(profile);
      var ok := dev.SendCommand(SelectProfileCommand(profile));
    }

    method RunProfile()
      requires Valid()
      modifies dev`sent
      ensures Valid()
      ensures dev.sent == old(dev.sent) + [RUN_PROFILE + "\n"]
    {
      RunProfileAscii();
      var ok := dev.SendCommand(RUN_PROFILE);
    }

    method StopProfile()
      requires Valid()
      modifies dev`sent
      ensures Valid()
      ensures dev.sent == old(dev.sent) + [STOP_PROFILE + "\n"]
    {
      StopProfileAscii();
      var ok := dev.SendCommand(STOP_PROFILE);
    }

    /** F4TController.get_temperature, returning the reply line (its float parsing is not modelled). */
    method GetTemperature(cloop: int) returns (r: Result<string>)
      requires Valid()
      modifies dev`sent, dev`incoming
      ensures Valid()
      ensures dev.sent == old(dev.sent) + [TemperatureQuery(cascade, cloop) + "\n"]
      ensures (r, dev.incoming) == LineFrom(old(dev.incoming))
    {
      TemperatureQueryFamily(cascade, cloop);
      var ok := dev.SendCommand(TemperatureQuery(cascade, cloop));
      r := dev.ReadLine();
    }

    /** F4TController.get_temperature_setpoint, returning the reply line. */
    method GetTemperatureSetpoint(cloop: int) returns (r: Result<string>)
      requires Valid()
      modifies dev`sent, dev`incoming
      ensures Valid()
      ensures dev.sent == old(dev.sent) + [SetpointQuery(cascade, cloop) + "\n"]
      ensures (r, dev.incoming) == LineFrom(old(dev.incoming))
    {
      SetpointQueryFamily(cascade, cloop);
      var ok := dev.SendCommand(SetpointQuery(cascade, cloop));
      r := dev.ReadLine();
    }

    /** F4TController.set_temperature: one write, no reply read. */
    method SetTemperature(temp: int, cloop: int)
      requires Valid()
      modifies dev`sent
      ensures Valid()
      ensures dev.sent == old(dev.sent) + [SetpointCommand(cascade, cloop, temp) + "\n"]
    {
      SetpointCommandFamily(cascade, cloop, temp);
      var ok := dev.SendCommand(SetpointCommand(cascade, cloop, temp));
    }

    /** F4TController.query_input_error: the raw reply line. */
    method QueryInputError(cloop: int) returns (r: Result<string>)
      requires Valid()
      modifies dev`sent, dev`incoming
      ensures Valid()
      ensures dev.sent == old(dev.sent) + [InputErrorQuery(cascade, cloop) + "\n"]
      ensures (r, dev.incoming) == LineFrom(old(dev.incoming))
    {
      InputErrorQueryFamily(cascade, cloop);
      var ok := dev.SendCommand(InputErrorQuery(cascade, cloop));
      r := dev.ReadLine();
    }

    /** F4TController.is_done: True, False or None for "ON", "OFF" or anything else. */
    method IsDone(output: int) returns (r: Result<Option<bool>>)
      requires Valid()
      modifies dev`sent, dev`incoming
      ensures Valid()
      ensures dev.sent == old(dev.sent) + [OutputStateQuery(output) + "\n"]
      ensures var (rx, rest) := LineFrom(old(dev.incoming));
        dev.incoming == rest && r == if rx.Ok? then Ok(OutputState(rx.value)) else Err(rx.error)
    {
      OutputStateQueryAscii(output);
      var ok := dev.SendCommand(OutputStateQuery(output));
      var resp := dev.ReadLine();
      if resp.Err? {
        return Err(resp.error);
      }
      r := Ok(OutputState(resp.value));
    }

    /** F4TController.set_output: the state text is sent verbatim, and raises if it is not ASCII. */
    method SetOutput(output: int, state: string) returns (r: Result<()>)
      requires Valid()
      modifies dev`sent
      ensures Valid()
      ensures r.Ok? <==> IsAscii(state)
      ensures r.Err? ==> r.error == EncodeError && dev.sent == old(dev.sent)
      ensures r.Ok? ==> dev.sent == old(dev.sent) + [SetOutputCommand(output, state) + "\n"]
    {
      SetOutputAscii(output, state);
      r := dev.SendCommand(SetOutputCommand(output, state));
    }

    /** F4TController.set_cascade_air_control: nothing without the cascade option; otherwise the KEY1 poll loop. */
    method SetCascadeAirControl(on: bool) returns (r: Result<()>)
      requires Valid()
      modifies dev`sent, dev`incoming
      ensures Valid()
      ensures !cascade ==> r == Ok(()) && dev.sent == old(dev.sent) && dev.incoming == old(dev.incoming)
      ensures cascade ==> var x := AirControl(on, old(dev.incoming));
        dev.sent == old(dev.sent) + Lines(x.cmds) && dev.incoming == x.rest && r == x.result
    {
      r := Ok(());
      if cascade {
        ghost var total := AirControl(on, dev.incoming);
        ghost var goal := old(dev.sent) + Lines(total.cmds);
        ghost var cur := total;
        KeyCommandsAscii();
        while true
          invariant Valid()
          invariant cur == AirControl(on, dev.incoming)
          invariant goal == dev.sent + Lines(cur.cmds)
          invariant cur.rest == total.rest && cur.result == total.result
          decreases |dev.incoming|
        {
          if dev.incoming == [] {
            return Err(NoReply);
          }
          ghost var before, events := dev.sent, dev.incoming;
          LineFromConsumes(dev.incoming);
          var ok := dev.SendCommand(KEY1_QUERY);
          var resp := dev.ReadLine();
          LinesOne(KEY1_QUERY);
          if resp.Err? || (on && resp.value == "ON") || (!on && resp.value == "OFF") {
            AirControlStops(on, events, resp, dev.incoming);
            LinesAdvance(goal, before, dev.sent, [KEY1_QUERY], []);
            return if resp.Err? then Err(resp.error) else Ok(());
          }
          ok := dev.SendCommand(KEY1_PRESS);
          LinesPair(KEY1_QUERY, KEY1_PRESS);
          AirControlContinues(on, events, resp, dev.incoming);
          LinesAdvance(goal, before, dev.sent, [KEY1_QUERY, KEY1_PRESS], AirControl(on, dev.incoming).cmds);
          cur := AirControl(on, dev.incoming);
        }
      }
    }

    /** F4TController.cascade_init. */
    method CascadeInit(cloop: int) returns (r: Result<()>)
      requires Valid()
      modifies dev`sent, dev`incoming
      ensures Valid()
      ensures var x := CascadeInitSpec(cascade, cloop, old(dev.incoming));
        dev.sent == old(dev.sent) + Lines(x.cmds) && dev.incoming == x.rest && r == x.result
    {
      r := Ok(());
      if cascade {
        r := SetCascadeAirControl(true);
        if r.Ok? {
          ghost var polled := dev.sent;
          var cmds := CascadeConfig(cloop);
          CascadeConfigFamily(cloop);
          r := SendConfiguration(cmds);
          AirThenConfigureJoin(cmds, old(dev.incoming), old(dev.sent), polled, dev.sent);
        }
      }
    }

    /** The five configuration commands of cascade_init, each followed by a read whose line is dropped. */
    method SendConfiguration(cmds: seq<string>) returns (r: Result<()>)
      requires Valid() && |cmds| == 5 && forall k | 0 <= k < 5 :: IsAscii(cmds[k])
      modifies dev`sent, dev`incoming
      ensures Valid()
      ensures var x := Configure(cmds, old(dev.incoming));
        dev.sent == old(dev.sent) + Lines(x.cmds) && dev.incoming == x.rest && r == x.result
    {
      ghost var polled := dev.sent;
      ghost var whole := Configure(cmds, dev.incoming);
      r := ConfigStep(cmds[0], cmds, polled, whole);
      if r.Ok? {
        r := ConfigStep(cmds[1], cmds[1..], polled, whole);
        if r.Ok? {
          r := ConfigStep(cmds[2], cmds[2..], polled, whole);
          if r.Ok? {
            r := ConfigStep(cmds[3], cmds[3..], polled, whole);
            if r.Ok? {
              r := ConfigStep(cmds[4], cmds[4..], polled, whole);
              if r.Ok? {
                assert cmds[4..][1..] == [];
              }
            }
          }
        }
      }
    }

    /** One configuration command of cascade_init: sent, and its reply line read and dropped. */
    method ConfigStep(cmd: string, ghost todo: seq<string>, ghost polled: seq<string>, ghost whole: Exchange) returns (r: Result<()>)
      requires Valid() && todo != [] && cmd == todo[0] && IsAscii(cmd)
      requires ConfigPending(polled, whole, dev.sent, todo, dev.incoming)
      modifies dev`sent, dev`incoming
      ensures Valid()
      ensures r.Err? || todo[1..] == [] ==> polled + Lines(whole.cmds) == dev.sent && dev.incoming == whole.rest && r == whole.result
      ensures r.Ok? ==> ConfigPending(polled, whole, dev.sent, todo[1..], dev.incoming)
    {
      ghost var sent0, events0 := dev.sent, dev.incoming;
      r := Discard(cmd);
      ConfigureAdvance(polled, whole, sent0, todo, events0, r, dev.incoming);
    }

    /** send_cmd followed by a _readline whose line is dropped. */
    method Discard(cmd: string) returns (r: Result<()>)
      requires Valid() && IsAscii(cmd)
      modifies dev`sent, dev`incoming
      ensures Valid()
      ensures dev.sent == old(dev.sent) + [cmd + "\n"]
      ensures Discarded(r, old(dev.incoming), dev.incoming)
    {
      var ok := dev.SendCommand(cmd);
      var rx := dev.ReadLine();
      r := if rx.Ok? then Ok(()) else Err(rx.error);
    }
  }

  /** One probe that ends the run: the read raised, or the name is empty. */
  lemma ProbeStops(i: int, events: seq<RecvEvent>, rx: Result<string>, rest: seq<RecvEvent>)
    requires i < 40 && LineFrom(events) == (rx, rest) && (rx.Err? || ProfileName(rx.value) == "")
    ensures Probe(i, events) == ProbeRun([SelectProfileCommand(i), PROFILE_NAME_QUERY], rest, [], if rx.Err? then Err(rx.error) else Ok(()))
  {
  }

  /** One probe that records a name and goes on with the next index. */
  lemma ProbeContinues(i: int, events: seq<RecvEvent>, rx: Result<string>, rest: seq<RecvEvent>)
    requires i < 40 && LineFrom(events) == (rx, rest) && rx.Ok? && ProfileName(rx.value) != ""
    ensures Probe(i, events).cmds == [SelectProfileCommand(i), PROFILE_NAME_QUERY] + Probe(i + 1, rest).cmds
    ensures Probe(i, events).names == [ProfileName(rx.value)] + Probe(i + 1, rest).names
    ensures Probe(i, events).rest == Probe(i + 1, rest).rest && Probe(i, events).result == Probe(i + 1, rest).result
  {
  }

  lemma RecordCons(m: map<int, string>, i: int, name: string, names: seq<string>)
    ensures Record(m, i, [name] + names) == Record(m[i := name], i + 1, names)
  {
    assert ([name] + names)[1..] == names;
  }

  /** One poll that ends the loop: the read raised, or the reply is the desired state. */
  lemma AirControlStops(on: bool, events: seq<RecvEvent>, rx: Result<string>, rest: seq<RecvEvent>)
    requires events != [] && LineFrom(events) == (rx, rest) && (rx.Err? || rx.value == StateToken(on))
    ensures AirControl(on, events) == Exchange([KEY1_QUERY], rest, if rx.Err? then Err(rx.error) else Ok(()))
  {
  }

  /** One poll answered with another state: a press, then polling goes on. */
  lemma AirControlContinues(on: bool, events: seq<RecvEvent>, rx: Result<string>, rest: seq<RecvEvent>)
    requires events != [] && LineFrom(events) == (rx, rest) && rx.Ok? && rx.value != StateToken(on)
    ensures AirControl(on, events).cmds == [KEY1_QUERY, KEY1_PRESS] + AirControl(on, rest).cmds
    ensures AirControl(on, events).rest == AirControl(on, rest).rest && AirControl(on, events).result == AirControl(on, rest).result
  {
  }

  /** Having sent the text of `head`, what remains to send is the text of `tail`. */
  lemma LinesAdvance(goal: seq<string>, before: seq<string>, after: seq<string>, head: seq<string>, tail: seq<string>)
    requires goal == before + Lines(head + tail) && after == before + Lines(head)
    ensures goal == after + Lines(tail)
  {
    LinesAppend(head, tail);
  }

  lemma LinesOne(a: string)
    ensures Lines([a]) == [a + "\n"]
  {
    assert [a][1..] == [];
  }

  lemma LinesPair(a: string, b: string)
    ensures Lines([a, b]) == [a + "\n", b + "\n"]
  {
    assert [a, b][1..] == [b];
    LinesOne(b);
  }

  /** Configuration still to send: what is left of `todo`, after `sent`, completes the whole configuration exchange. */
  ghost predicate ConfigPending(polled: seq<string>, whole: Exchange, sent: seq<string>, todo: seq<string>, events: seq<RecvEvent>) {
    var x := Configure(todo, events);
    polled + Lines(whole.cmds) == sent + Lines(x.cmds) && x.rest == whole.rest && x.result == whole.result
  }

  lemma ConfigureAdvance(polled: seq<string>, whole: Exchange, sent: seq<string>, todo: seq<string>,
                         events: seq<RecvEvent>, r: Result<()>, after: seq<RecvEvent>)
    requires ConfigPending(polled, whole, sent, todo, events) && todo != []
    requires Discarded(r, events, after)
    ensures r.Err? ==> polled + Lines(whole.cmds) == sent + [todo[0] + "\n"] && after == whole.rest && r == whole.result
    ensures r.Ok? ==> ConfigPending(polled, whole, sent + [todo[0] + "\n"], todo[1..], after)
  {
    LinesOne(todo[0]);
    LinesAppend([todo[0]], Configure(todo[1..], after).cmds);
  }

  /** After air control succeeded, the commands of the whole init are the polls followed by the configuration. */
  lemma AirThenConfigureJoin(cmds: seq<string>, events: seq<RecvEvent>, start: seq<string>, polled: seq<string>, sent: seq<string>)
    requires AirControl(true, events).result.Ok? && polled == start + Lines(AirControl(true, events).cmds)
    requires sent == polled + Lines(Configure(cmds, AirControl(true, events).rest).cmds)
    ensures sent == start + Lines(AirThenConfigure(cmds, events).cmds)
  {
    var a := AirControl(true, events);
    var c := Configure(cmds, a.rest);
    LinesAppend(a.cmds, c.cmds);
  }


  /** One reply line read and dropped: only whether reading it raised is kept. */
  ghost predicate Discarded(r: Result<()>, before: seq<RecvEvent>, after: seq<RecvEvent>) {
    var (rx, rest) := LineFrom(before);
    after == rest && r == if rx.Ok? then Ok(()) else Err(rx.error)
  }
}
