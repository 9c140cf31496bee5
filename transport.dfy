/**
 * The socket-connected device. The socket is replaced by a scripted peer:
 * `incoming` holds what the remaining recv calls will yield, and `sent` logs
 * the text of every send call, each a command followed by the EOL.
 */
module Transport {
  import opened Outcomes
  import opened Framing
  import opened Commands

  /** The text put on the wire for a sequence of commands: each one followed by "\n". */
  function Lines(cmds: seq<string>): (r: seq<string>)
    ensures |r| == |cmds|
  {
    if cmds == [] then [] else [cmds[0] + "\n"] + Lines(cmds[1..])
  }

  lemma {:induction false} LinesAppend(a: seq<string>, b: seq<string>)
    ensures Lines(a + b) == Lines(a) + Lines(b)
  {
    if a == [] {
      assert a + b == b;
    } else {
      assert (a + b)[1..] == a[1..] + b;
      LinesAppend(a[1..], b);
    }
  }

  class Device {
    var sent: seq<string>
    var incoming: seq<RecvEvent>
    var id: Option<string>

    ghost predicate Valid()
      reads this
    {
      WellFormedScript(incoming)
    }

    /** A device over an established connection, with the given identity (if any), before any exchange. */
    constructor (script: seq<RecvEvent>, id: Option<string>)
      requires WellFormedScript(script)
      ensures Valid() && sent == [] && incoming == script && this.id == id
    {
      sent := [];
      incoming := script;
      this.id := id;
    }

    /**
     * Device.__init__ on an open connection: the *IDN? handshake happens
     * only when no identity is supplied.
     */
    static method Open(script: seq<RecvEvent>, id: Option<string>) returns (r: Result<Device>)
      requires WellFormedScript(script)
      ensures r.Ok? ==> fresh(r.value) && r.value.Valid()
      ensures id.Some? ==> r.Ok? && r.value.id == id && r.value.sent == [] && r.value.incoming == script
      ensures id.None? ==> var (rx, rest) := LineFrom(Drain(script));
        (rx.Err? ==> r == Err(rx.error)) &&
        (rx.Ok? ==> r.Ok? && r.value.id == Some(rx.value) && r.value.sent == [IDN_QUERY + "\n"] && r.value.incoming == rest)
    {
      var d := new Device(script, id);
      if id.None? {
        var got := d.GetId();
        if got.Err? {
          return Err(got.error);
        }
      }
      r := Ok(d);
    }

    /** Device._clear_buffer: one recv whose data, if any, is dropped. */
    method ClearBuffer()
      requires Valid()
      modifies this`incoming
      ensures Valid() && incoming == Drain(old(incoming))
    {
      if incoming != [] {
        incoming := incoming[1..];
      }
    }

    /** Device._readline. */
    method ReadLine() returns (rx: Result<string>)
      requires Valid()
      modifies this`incoming
      ensures Valid()
      ensures (rx, incoming) == LineFrom(old(incoming))
    {
      var msg: seq<byte>;
      if incoming == [] || incoming[0].Timeout? {
        msg := FAILED;
        incoming := Drain(incoming);
      } else {
        ghost var target := RawReply(incoming);
        assert target == Collect(incoming[1..], incoming[0].data);
        assert incoming[0] in incoming;
        msg := incoming[0].data;
        incoming := incoming[1..];
        while msg[|msg| - 1] != EOL
          invariant |msg| > 0 && Valid()
          invariant Collect(incoming, msg) == target
          decreases |incoming|
        {
          if incoming == [] {
            break;
          }
          var e := incoming[0];
          incoming := incoming[1..];
          if e.Timeout? {
            break;
          }
          msg := msg + e.data;
        }
      }
      match Decode(msg)
      case None =>
        rx := Err(DecodeError);
      case Some(text) =>
        rx := Ok(Strip(text));
    }

    /** Device.send_cmd: the command's ASCII encoding followed by EOL; a non-ASCII command raises before anything is sent. */
    method SendCommand(cmd: string) returns (r: Result<()>)
      modifies this`sent
      ensures r.Ok? <==> IsAscii(cmd)
      ensures r.Err? ==> r.error == EncodeError
      ensures sent == if r.Ok? then old(sent) + [cmd + "\n"] else old(sent)
    {
      if IsAscii(cmd) {
        sent := sent + [cmd + "\n"];
        r := Ok(());
      } else {
        r := Err(EncodeError);
      }
    }

    /** Device.get_id: drain, send *IDN?, and cache and return the reply line. */
    method GetId() returns (r: Result<string>)
      requires Valid()
      modifies this
      ensures Valid()
      ensures sent == old(sent) + [IDN_QUERY + "\n"]
      ensures (r, incoming) == LineFrom(Drain(old(incoming)))
      ensures id == if r.Ok? then Some(r.value) else old(id)
    {
      ClearBuffer();
      ghost var drained := incoming;
      ghost var before := sent;
      var ok := SendCommand(IDN_QUERY);
      assert ok.Ok? by { QueriesAscii(); }
      r := ReadLine();
      ghost var read := incoming;
      assert Valid();
      if r.Ok? {
        id := Some(r.value);
      }
      assert incoming == read;
      assert sent == before + [IDN_QUERY + "\n"];
    }
  }
}
