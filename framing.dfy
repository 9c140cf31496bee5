/**
 * The transport's framing: bytes arrive from the peer in chunks of at most
 * BUF_CHUNK bytes (one chunk per recv call) or a recv times out; a reply line
 * is the accumulation of chunks up to the first chunk that ends in the EOL
 * byte, decoded as ASCII and stripped of surrounding whitespace.
 */
module Framing {
  import opened Outcomes

  type byte = x: int | 0 <= x < 256

  /** Bytes asked of each recv call. */
  const BUF_CHUNK: nat := 10
  /** The message delimiter, b'\n'. */
  const EOL: byte := 10
  /** The bytes b'FAILED', the reply when the first recv times out. */
  const FAILED: seq<byte> := Encode("FAILED")

  /** What one recv call yields: some bytes, or a socket timeout. */
  datatype RecvEvent = Chunk(data: seq<byte>) | Timeout

  /** recv(BUF_CHUNK) returns between one and BUF_CHUNK bytes (an empty chunk, a closed peer, is not modelled). */
  predicate WellFormedEvent(e: RecvEvent) {
    e.Timeout? || 1 <= |e.data| <= BUF_CHUNK
  }

  predicate WellFormedScript(events: seq<RecvEvent>) {
    forall e | e in events :: WellFormedEvent(e)
  }

  /** The events left after one recv: an exhausted script behaves as a timeout that consumes nothing. */
  function Drain(events: seq<RecvEvent>): seq<RecvEvent> {
    if events == [] then [] else events[1..]
  }

  // ---------------------------------------------------------------------------
  // ASCII codec

  predicate IsAscii(s: string) {
    forall i | 0 <= i < |s| :: s[i] as int < 128
  }

  lemma AsciiAppend(a: string, b: string)
    ensures IsAscii(a + b) <==> IsAscii(a) && IsAscii(b)
  {
    if IsAscii(a + b) {
      forall i | 0 <= i < |b| ensures b[i] as int < 128 { assert b[i] == (a + b)[|a| + i]; }
      forall i | 0 <= i < |a| ensures a[i] as int < 128 { assert a[i] == (a + b)[i]; }
    }
  }

  /** str.encode('ascii'), for strings that have an ASCII encoding. */
  function Encode(s: string): seq<byte>
    requires IsAscii(s)
  {
    seq(|s|, i requires 0 <= i < |s| => s[i] as int % 256)
  }

  /** bytes.decode('ascii'): fails exactly when some byte is 128 or above. */
  function Decode(bs: seq<byte>): Option<string> {
    if bs == [] then Some([])
    else if bs[0] >= 128 then None
    else match Decode(bs[1..])
      case None => None
      case Some(t) => Some([bs[0] as char] + t)
  }

  /** Decoding succeeds exactly on bytes below 128, and maps each byte to the character with that code. */
  lemma {:induction false} DecodeSpec(bs: seq<byte>)
    ensures var r := Decode(bs);
      (r.Some? <==> forall i | 0 <= i < |bs| :: bs[i] < 128) &&
      (r.Some? ==> |r.value| == |bs| && forall i | 0 <= i < |bs| :: r.value[i] as int == bs[i])
  {
    if bs != [] {
      DecodeSpec(bs[1..]);
      if bs[0] < 128 && Decode(bs[1..]).Some? {
        var t := Decode(bs[1..]).value;
        forall i | 0 <= i < |bs| ensures ([bs[0] as char] + t)[i] as int == bs[i] {
          if i > 0 { assert ([bs[0] as char] + t)[i] == t[i - 1] && bs[i] == bs[1..][i - 1]; }
        }
      }
      if Decode(bs[1..]).None? {
        var j :| 0 <= j < |bs[1..]| && bs[1..][j] >= 128;
        assert bs[j + 1] >= 128;
      }
    }
  }

  lemma DecodeEncode(s: string)
    requires IsAscii(s)
    ensures Decode(Encode(s)) == Some(s)
  {
    var d := Decode(Encode(s));
    DecodeSpec(Encode(s));
    assert d.Some? by {
      forall i | 0 <= i < |s| ensures Encode(s)[i] == s[i] as int < 128 { }
    }
    forall i | 0 <= i < |s| ensures d.value[i] == s[i] {
      assert d.value[i] as int == Encode(s)[i] == s[i] as int;
    }
    assert d.value == s;
  }

  // ---------------------------------------------------------------------------
  // str.strip()

  /** Python's str.isspace() on ASCII: space, \t \n \v \f \r, and the separators 0x1c to 0x1f. */
  predicate IsSpace(c: char) {
    var k := c as int;
    k == 32 || 9 <= k <= 13 || 28 <= k <= 31
  }

  predicate AllSpace(s: string) {
    forall i | 0 <= i < |s| :: IsSpace(s[i])
  }

  /** str.strip(): s less its leading and trailing whitespace. */
  function Strip(s: string): string
    decreases |s|
  {
    if s != [] && IsSpace(s[0]) then Strip(s[1..])
    else if s != [] && IsSpace(s[|s| - 1]) then Strip(s[..|s| - 1])
    else s
  }

  /** What strip removes is whitespace, what it keeps is one contiguous slice of s, and that slice has non-space ends. */
  lemma StripSlice(s: string) returns (lo: nat, hi: nat)
    ensures lo <= hi <= |s| && Strip(s) == s[lo..hi]
    ensures AllSpace(s[..lo]) && AllSpace(s[hi..])
    ensures Strip(s) == [] || (!IsSpace(Strip(s)[0]) && !IsSpace(Strip(s)[|Strip(s)| - 1]))
  {
    lo, hi := StripBounds(s);
    StripEnds(s);
  }

  lemma {:induction false} StripBounds(s: string) returns (lo: nat, hi: nat)
    ensures lo <= hi <= |s| && Strip(s) == s[lo..hi]
    ensures AllSpace(s[..lo]) && AllSpace(s[hi..])
    decreases |s|
  {
    if s != [] && IsSpace(s[0]) {
      var l, h := StripBounds(s[1..]);
      lo, hi := DropFirst(s, l, h);
    } else if s != [] && IsSpace(s[|s| - 1]) {
      var l, h := StripBounds(s[..|s| - 1]);
      lo, hi := DropLast(s, l, h);
    } else {
      lo, hi := 0, |s|;
      assert s[lo..hi] == s;
    }
  }

  lemma DropFirst(s: string, l: nat, h: nat) returns (lo: nat, hi: nat)
    requires s != [] && IsSpace(s[0]) && l <= h <= |s| - 1
    requires AllSpace(s[1..][..l]) && AllSpace(s[1..][h..])
    ensures lo <= hi <= |s| && s[lo..hi] == s[1..][l..h]
    ensures AllSpace(s[..lo]) && AllSpace(s[hi..])
  {
    lo, hi := l + 1, h + 1;
    forall k | 0 <= k < h - l ensures s[lo..hi][k] == s[1..][l..h][k] {
      assert s[lo..hi][k] == s[lo + k];
    }
    assert s[lo..hi] == s[1..][l..h];
    assert s[..lo] == [s[0]] + s[1..][..l];
    assert s[hi..] == s[1..][h..];
  }

  lemma DropLast(s: string, l: nat, h: nat) returns (lo: nat, hi: nat)
    requires s != [] && IsSpace(s[|s| - 1]) && l <= h <= |s| - 1
    requires AllSpace(s[..|s| - 1][..l]) && AllSpace(s[..|s| - 1][h..])
    ensures lo <= hi <= |s| && s[lo..hi] == s[..|s| - 1][l..h]
    ensures AllSpace(s[..lo]) && AllSpace(s[hi..])
  {
    var n := |s| - 1;
    lo, hi := l, h;
    assert s[..lo] == s[..n][..lo];
    assert s[hi..] == s[..n][hi..] + [s[n]];
  }

  lemma {:induction false} StripEnds(s: string)
    ensures Strip(s) == [] || (!IsSpace(Strip(s)[0]) && !IsSpace(Strip(s)[|Strip(s)| - 1]))
    decreases |s|
  {
    if s != [] && IsSpace(s[0]) {
      StripEnds(s[1..]);
    } else if s != [] && IsSpace(s[|s| - 1]) {
      StripEnds(s[..|s| - 1]);
    }
  }

  lemma {:induction false} StripAllSpace(s: string)
    requires AllSpace(s)
    ensures Strip(s) == []
    decreases |s|
  {
    if s != [] {
      StripAllSpace(s[1..]);
    }
  }

  /** Whatever whitespace surrounds a word with non-space ends, strip returns exactly that word. */
  lemma {:induction false} StripPadded(pre: string, mid: string, post: string)
    requires AllSpace(pre) && AllSpace(post)
    requires mid == [] || (!IsSpace(mid[0]) && !IsSpace(mid[|mid| - 1]))
    ensures Strip(pre + mid + post) == mid
    decreases |pre| + |post|
  {
    var s := pre + mid + post;
    if pre != [] {
      assert s[0] == pre[0];
      assert s[1..] == pre[1..] + mid + post;
      StripPadded(pre[1..], mid, post);
    } else if mid == [] {
      assert s == post;
      StripAllSpace(post);
    } else if post != [] {
      var n := |post| - 1;
      assert s[0] == mid[0];
      assert s[|s| - 1] == post[n];
      assert s[..|s| - 1] == pre + mid + post[..n];
      StripPadded(pre, mid, post[..n]);
    } else {
      assert s == mid;
    }
  }

  lemma StripIdempotent(s: string)
    ensures Strip(Strip(s)) == Strip(s)
  {
    var lo, hi := StripSlice(s);
    var r := Strip(s);
    assert r == [] + r + [];
    StripPadded([], r, []);
  }

  /** The EOL that ends a reply never survives into the returned line. */
  lemma StripTrailingEol(s: string)
    ensures Strip(s + "\n") == Strip(s)
  {
    var lo, hi := StripSlice(s);
    var r := Strip(s);
    assert s + "\n" == s[..lo] + r + (s[hi..] + "\n");
    assert AllSpace(s[hi..] + "\n");
    StripPadded(s[..lo], r, s[hi..] + "\n");
  }

  // ---------------------------------------------------------------------------
  // Device._readline

  lemma Assoc<T>(a: seq<T>, b: seq<T>, c: seq<T>)
    ensures a + b + c == a + (b + c)
  {
  }

  predicate EndsLine(msg: seq<byte>) {
    |msg| > 0 && msg[|msg| - 1] == EOL
  }

  /**
   * The loop of _readline: while the buffer does not end in EOL, extend it by
   * the next chunk; a timeout (or an exhausted script) ends the loop with the
   * partial buffer. Returns the buffer and the events not consumed.
   */
  function Collect(events: seq<RecvEvent>, msg: seq<byte>): (seq<byte>, seq<RecvEvent>)
    decreases |events|
  {
    if EndsLine(msg) || events == [] then (msg, events)
    else match events[0]
      case Timeout => (msg, events[1..])
      case Chunk(d) => Collect(events[1..], msg + d)
  }

  /** The bytes _readline gathers and the events it leaves; the first recv timing out yields b'FAILED'. */
  function RawReply(events: seq<RecvEvent>): (seq<byte>, seq<RecvEvent>) {
    if events == [] then (FAILED, [])
    else match events[0]
      case Timeout => (FAILED, events[1..])
      case Chunk(d) => Collect(events[1..], d)
  }

  /** The gathered bytes as _readline returns them: decoded as ASCII, then stripped. */
  function Line(msg: seq<byte>): Result<string> {
    match Decode(msg)
    case None => Err(DecodeError)
    case Some(text) => Ok(Strip(text))
  }

  /** The result of Device._readline on the peer's events, and the events it leaves. */
  function LineFrom(events: seq<RecvEvent>): (Result<string>, seq<RecvEvent>) {
    var (msg, rest) := RawReply(events);
    (Line(msg), rest)
  }

  lemma {:induction false} CollectConsumes(events: seq<RecvEvent>, msg: seq<byte>)
    ensures var rest := Collect(events, msg).1;
      |rest| <= |events| && rest == events[|events| - |rest|..]
    decreases |events|
  {
    if !EndsLine(msg) && events != [] && events[0].Chunk? {
      CollectConsumes(events[1..], msg + events[0].data);
    }
  }

  /** _readline consumes a prefix of the events, and at least one event whenever there is one. */
  lemma LineFromConsumes(events: seq<RecvEvent>)
    ensures var rest := LineFrom(events).1;
      |rest| <= |events| && rest == events[|events| - |rest|..] && (events != [] ==> |rest| < |events|)
  {
    RawConsumes(events);
  }

  lemma RawConsumes(events: seq<RecvEvent>)
    ensures var rest := RawReply(events).1;
      |rest| <= |events| && rest == events[|events| - |rest|..] && (events != [] ==> |rest| < |events|)
  {
    if events != [] && events[0].Chunk? {
      CollectConsumes(events[1..], events[0].data);
    }
  }

  function Chunks(cs: seq<seq<byte>>): seq<RecvEvent> {
    if cs == [] then [] else [Chunk(cs[0])] + Chunks(cs[1..])
  }

  function Concat(cs: seq<seq<byte>>): seq<byte> {
    if cs == [] then [] else cs[0] + Concat(cs[1..])
  }

  /** Non-empty chunks none of which ends in EOL. */
  predicate Unterminated(cs: seq<seq<byte>>) {
    cs == [] || (|cs[0]| > 0 && !EndsLine(cs[0]) && Unterminated(cs[1..]))
  }

  /** A reply cut into chunks: only the last chunk ends in EOL (an EOL inside a chunk is allowed). */
  predicate Framed(cs: seq<seq<byte>>) {
    |cs| > 0 && if |cs| == 1 then EndsLine(cs[0]) else |cs[0]| > 0 && !EndsLine(cs[0]) && Framed(cs[1..])
  }

  /** Appending a chunk that does not end in EOL to a buffer that does not either leaves it unterminated. */
  lemma ExtendUnterminated(msg: seq<byte>, c: seq<byte>)
    requires |c| > 0 && !EndsLine(c)
    ensures !EndsLine(msg + c)
  {
    assert (msg + c)[|msg + c| - 1] == c[|c| - 1];
  }

  lemma ExtendFramed(msg: seq<byte>, c: seq<byte>)
    requires EndsLine(c)
    ensures EndsLine(msg + c)
  {
    assert (msg + c)[|msg + c| - 1] == c[|c| - 1];
  }

  lemma ChunksCons(cs: seq<seq<byte>>, rest: seq<RecvEvent>)
    requires cs != []
    ensures var ev := Chunks(cs) + rest; ev != [] && ev[0] == Chunk(cs[0]) && ev[1..] == Chunks(cs[1..]) + rest
  {
    assert Chunks(cs) == [Chunk(cs[0])] + Chunks(cs[1..]);
    Assoc([Chunk(cs[0])], Chunks(cs[1..]), rest);
    ConsParts(Chunk(cs[0]), Chunks(cs[1..]) + rest);
  }

  lemma ConsParts<T>(x: T, ys: seq<T>)
    ensures ([x] + ys)[0] == x && ([x] + ys)[1..] == ys
  {
  }

  lemma {:induction false} CollectFramed(cs: seq<seq<byte>>, msg: seq<byte>, rest: seq<RecvEvent>)
    requires Framed(cs) && !EndsLine(msg)
    ensures Collect(Chunks(cs) + rest, msg) == (msg + Concat(cs), rest)
  {
    var c := cs[0];
    ChunksCons(cs, rest);
    if |cs| == 1 {
      assert Chunks(cs[1..]) + rest == rest;
      ExtendFramed(msg, c);
      assert Concat(cs) == c + [];
      assert c + [] == c;
    } else {
      ExtendUnterminated(msg, c);
      CollectFramed(cs[1..], msg + c, rest);
      Assoc(msg, c, Concat(cs[1..]));
    }
  }

  lemma {:induction false} CollectUnterminated(cs: seq<seq<byte>>, msg: seq<byte>, tail: seq<RecvEvent>)
    requires Unterminated(cs) && !EndsLine(msg)
    requires tail == [] || tail[0] == Timeout
    ensures Collect(Chunks(cs) + tail, msg) == (msg + Concat(cs), Drain(tail))
  {
    if cs == [] {
      assert Chunks(cs) + tail == tail;
      assert msg + Concat(cs) == msg;
    } else {
      var c := cs[0];
      ChunksCons(cs, tail);
      ExtendUnterminated(msg, c);
      CollectUnterminated(cs[1..], msg + c, tail);
      Assoc(msg, c, Concat(cs[1..]));
    }
  }

  /** A reply split into chunks is read whole: exactly its chunks are consumed, and nothing after them. */
  lemma LineFromFramed(cs: seq<seq<byte>>, rest: seq<RecvEvent>)
    requires Framed(cs)
    ensures LineFrom(Chunks(cs) + rest) == (Line(Concat(cs)), rest)
  {
    RawFramed(cs, rest);
  }

  lemma RawFramed(cs: seq<seq<byte>>, rest: seq<RecvEvent>)
    requires Framed(cs)
    ensures RawReply(Chunks(cs) + rest) == (Concat(cs), rest)
  {
    var c := cs[0];
    ChunksCons(cs, rest);
    if |cs| == 1 {
      assert Chunks(cs[1..]) + rest == rest;
      assert Concat(cs) == c + [];
      assert c + [] == c;
    } else {
      CollectFramed(cs[1..], c, rest);
    }
  }

  /** Where the chunk boundaries fall does not change the line read. */
  lemma LineFromSplitInvariant(cs1: seq<seq<byte>>, cs2: seq<seq<byte>>, rest: seq<RecvEvent>)
    requires Framed(cs1) && Framed(cs2) && Concat(cs1) == Concat(cs2)
    ensures LineFrom(Chunks(cs1) + rest) == LineFrom(Chunks(cs2) + rest)
  {
    LineFromFramed(cs1, rest);
    LineFromFramed(cs2, rest);
  }

  /** A timeout after some chunks returns the partial data gathered so far instead of discarding it. */
  lemma LineFromPartial(cs: seq<seq<byte>>, tail: seq<RecvEvent>)
    requires cs != [] && Unterminated(cs)
    requires tail == [] || tail[0] == Timeout
    ensures LineFrom(Chunks(cs) + tail) == (Line(Concat(cs)), Drain(tail))
  {
    ChunksCons(cs, tail);
    CollectUnterminated(cs[1..], cs[0], tail);
  }

  /** A first recv that times out (or finds nothing) yields the sentinel line "FAILED". */
  lemma LineFromTimeoutFirst(events: seq<RecvEvent>)
    requires events == [] || events[0] == Timeout
    ensures LineFrom(events) == (Ok("FAILED"), Drain(events))
  {
    assert RawReply(events) == (FAILED, Drain(events));
    SentinelLine();
  }

  lemma SentinelLine()
    ensures Line(FAILED) == Ok("FAILED")
  {
    DecodeFailed();
    StripPadded([], "FAILED", []);
    assert [] + "FAILED" + [] == "FAILED";
  }

  lemma DecodeFailed()
    ensures Decode(FAILED) == Some("FAILED")
  {
    assert IsAscii("FAILED");
    DecodeEncode("FAILED");
  }


  /** A peer replying with the ASCII line `line` followed by EOL, cut anywhere, is heard as `line` stripped. */
  lemma LineFromReply(line: string, cs: seq<seq<byte>>, rest: seq<RecvEvent>)
    requires IsAscii(line) && Framed(cs) && Concat(cs) == Encode(line) + [EOL]
    ensures LineFrom(Chunks(cs) + rest) == (Ok(Strip(line)), rest)
  {
    LineFromFramed(cs, rest);
    EncodeEol(line);
    LineOfEncoded(line + "\n");
    StripTrailingEol(line);
  }

  lemma EncodeEol(line: string)
    requires IsAscii(line)
    ensures IsAscii(line + "\n") && Encode(line) + [EOL] == Encode(line + "\n")
  {
  }

  lemma LineOfEncoded(text: string)
    requires IsAscii(text)
    ensures Line(Encode(text)) == Ok(Strip(text))
  {
    DecodeEncode(text);
  }

  predicate AsciiBytes(bs: seq<byte>) {
    forall i | 0 <= i < |bs| :: bs[i] < 128
  }

  predicate AsciiScript(events: seq<RecvEvent>) {
    forall e | e in events && e.Chunk? :: AsciiBytes(e.data)
  }

  lemma {:induction false} CollectAscii(events: seq<RecvEvent>, msg: seq<byte>)
    requires AsciiScript(events) && AsciiBytes(msg)
    ensures AsciiBytes(Collect(events, msg).0)
    decreases |events|
  {
    if !EndsLine(msg) && events != [] && events[0].Chunk? {
      assert events[0] in events;
      assert AsciiScript(events[1..]) by {
        forall e | e in events[1..] && e.Chunk? ensures AsciiBytes(e.data) { assert e in events; }
      }
      CollectAscii(events[1..], msg + events[0].data);
    }
  }

  lemma AsciiLine(msg: seq<byte>)
    requires AsciiBytes(msg)
    ensures Line(msg).Ok?
  {
    DecodeSpec(msg);
  }

  /** _readline never raises on a timeout: against a peer sending only ASCII it always returns a line. */
  lemma LineFromAsciiNeverFails(events: seq<RecvEvent>)
    requires AsciiScript(events)
    ensures LineFrom(events).0.Ok?
  {
    if events == [] || events[0].Timeout? {
      LineFromTimeoutFirst(events);
    } else {
      assert events[0] in events;
      assert AsciiScript(events[1..]) by {
        forall e | e in events[1..] && e.Chunk? ensures AsciiBytes(e.data) { assert e in events; }
      }
      CollectAscii(events[1..], events[0].data);
      AsciiLine(RawReply(events).0);
    }
  }
}
