/** Newline framing of turbomcp-transport-stdio: one frame a line, blank lines
    skipped, no line longer than a cap. */
module LineTransport {
  import opened Wrappers
  import opened Utf8

  type Bytes = seq<byte>

  const NEWLINE: byte := 10

  // ---- what a stream of bytes holds ------------------------------------------------

  /** The length of the first line, its newline included if there is one. */
  function LineLength(stream: Bytes): (n: nat)
    ensures n <= |stream| && (stream != [] ==> n > 0)
  {
    if stream == [] then 0 else if stream[0] == NEWLINE then 1 else 1 + LineLength(stream[1..])
  }

  predicate IsSpace(b: byte) { b == 32 || b == 9 || b == 10 || b == 12 || b == 13 }

  function TrimStart(s: Bytes): (t: Bytes)
    ensures |t| <= |s|
  {
    if s != [] && IsSpace(s[0]) then TrimStart(s[1..]) else s
  }

  function TrimEnd(s: Bytes): (t: Bytes)
    ensures |t| <= |s|
  {
    if s != [] && IsSpace(s[|s| - 1]) then TrimEnd(s[..|s| - 1]) else s
  }

  /** `trim_ascii`. */
  function Trim(s: Bytes): Bytes { TrimEnd(TrimStart(s)) }

  datatype Received = Frame(bytes: Bytes) | EndOfStream | TooLong

  /** The next frame of a stream, and what follows it. */
  function Receive(stream: Bytes, max: nat): (r: (Received, Bytes))
    ensures |r.1| <= |stream|
    ensures r.0.Frame? ==> |r.1| < |stream| && r.0.bytes != []
    decreases |stream|
  {
    var n := LineLength(stream);
    if n == 0 then (EndOfStream, [])
    else if n > max then (TooLong, stream)
    else if Trim(stream[..n]) == [] then Receive(stream[n..], max)
    else (Frame(Trim(stream[..n])), stream[n..])
  }

  /** Everything a stream yields, up to its end or the first line over the cap. */
  datatype Session = Session(frames: seq<Bytes>, tooLong: bool)

  function ReceiveAll(stream: Bytes, max: nat): Session
    decreases |stream|
  {
    var (r, rest) := Receive(stream, max);
    match r
    case EndOfStream => Session([], false)
    case TooLong => Session([], true)
    case Frame(f) =>
      var later := ReceiveAll(rest, max);
      Session([f] + later.frames, later.tooLong)
  }

  lemma {:induction false} LineLengthSplit(line: Bytes, rest: Bytes)
    requires forall i | 0 <= i < |line| :: line[i] != NEWLINE
    ensures LineLength(line + rest) == |line| + LineLength(rest)
  {
    if line == [] {
      assert line + rest == rest;
    } else {
      assert (line + rest)[1..] == line[1..] + rest;
      LineLengthSplit(line[1..], rest);
    }
  }

  // ---- the codec, and frames that travel well ---------------------------------------

  datatype Codec<!Msg> = Codec(encode: Msg -> Bytes, decode: Bytes -> Option<Msg>)

  /** What JSON text without raw newlines satisfies: one line, nothing to trim. */
  ghost predicate WireReady(f: Bytes) {
    && f != []
    && (forall i | 0 <= i < |f| :: f[i] != NEWLINE)
    && !IsSpace(f[0]) && !IsSpace(f[|f| - 1])
  }

  function Wire(frames: seq<Bytes>): Bytes {
    if frames == [] then [] else frames[0] + [NEWLINE] + Wire(frames[1..])
  }

  lemma TrimOfLine(f: Bytes)
    requires WireReady(f)
    ensures Trim(f + [NEWLINE]) == f
  {
    var line := f + [NEWLINE];
    assert TrimStart(line) == line;
    assert line[..|line| - 1] == f && TrimEnd(f) == f;
    assert IsSpace(line[|line| - 1]);
  }

  lemma ReceiveFirst(f: Bytes, rest: Bytes, max: nat)
    requires WireReady(f)
    ensures Receive(f + [NEWLINE] + rest, max) ==
            if |f| < max then (Frame(f), rest) else (TooLong, f + [NEWLINE] + rest)
  {
    var stream := f + [NEWLINE] + rest;
    LineLengthSplit(f, [NEWLINE] + rest);
    assert f + ([NEWLINE] + rest) == stream;
    assert stream[..|f| + 1] == f + [NEWLINE] && stream[|f| + 1..] == rest;
    TrimOfLine(f);
  }

  lemma {:induction false} ReceiveWire(frames: seq<Bytes>, max: nat)
    requires forall i | 0 <= i < |frames| :: WireReady(frames[i])
    ensures ReceiveAll(Wire(frames), max).frames <= frames
    ensures if forall i | 0 <= i < |frames| :: |frames[i]| < max
            then ReceiveAll(Wire(frames), max) == Session(frames, false)
            else ReceiveAll(Wire(frames), max).tooLong
  {
    if frames != [] {
      ReceiveFirst(frames[0], Wire(frames[1..]), max);
      ReceiveWire(frames[1..], max);
      assert frames == [frames[0]] + frames[1..];
      assert forall i | 1 <= i < |frames| :: frames[i] == frames[1..][i - 1];
    }
  }

  /** Sending then receiving gives back the same frames and a clean end exactly
      when each, with its newline, fits the cap. */
  lemma RoundTripExactly(frames: seq<Bytes>, max: nat)
    requires forall i | 0 <= i < |frames| :: WireReady(frames[i])
    ensures ReceiveAll(Wire(frames), max) == Session(frames, false) <==>
            forall i | 0 <= i < |frames| :: |frames[i]| < max
  {
    ReceiveWire(frames, max);
  }

  /** Spaces, tabs, form feeds and carriage returns. */
  predicate IsPadding(s: Bytes) { forall i | 0 <= i < |s| :: s[i] in {32, 9, 12, 13} }

  lemma {:induction false} TrimStartOver(pad: Bytes, s: Bytes)
    requires IsPadding(pad) && (s == [] || !IsSpace(s[0]))
    ensures TrimStart(pad + s) == s
  {
    if pad == [] {
      assert pad + s == s;
    } else {
      assert (pad + s)[1..] == pad[1..] + s;
      TrimStartOver(pad[1..], s);
    }
  }

  lemma {:induction false} TrimEndOver(s: Bytes, pad: Bytes)
    requires (forall i | 0 <= i < |pad| :: IsSpace(pad[i])) && s != [] && !IsSpace(s[|s| - 1])
    ensures TrimEnd(s + pad) == s
    decreases |pad|
  {
    if pad == [] {
      assert s + pad == s;
    } else {
      var n := |pad| - 1;
      assert (s + pad)[..|s + pad| - 1] == s + pad[..n];
      TrimEndOver(s, pad[..n]);
    }
  }

  /** A line, byte by byte: what is on it between spaces, tabs, form feeds and carriage
      returns is the frame; with its newline it must fit the cap. A carriage return
      before the newline, say, is no part of the frame. */
  lemma PaddedLine(before: Bytes, f: Bytes, after: Bytes, rest: Bytes, max: nat)
    requires IsPadding(before) && IsPadding(after)
    requires f != [] && f[0] !in {32, 9, 10, 12, 13} && f[|f| - 1] !in {32, 9, 10, 12, 13} && 10 !in f
    ensures var line := before + f + after + [10];
            Receive(line + rest, max) == if |line| <= max then (Frame(f), rest) else (TooLong, line + rest)
  {
    var text := before + f + after;
    var line := text + [10];
    forall i | 0 <= i < |text| ensures text[i] != NEWLINE {
      assert i < |before| ==> text[i] == before[i];
      assert |before| <= i < |before + f| ==> text[i] == f[i - |before|];
      assert |before + f| <= i ==> text[i] == after[i - |before + f|];
    }
    FirstLine(text, rest);
    var tail := f + (after + [10]);
    assert line == before + tail && tail[0] == f[0];
    TrimStartOver(before, tail);
    TrimEndOver(f, after + [10]);
  }

  lemma FirstLine(text: Bytes, rest: Bytes)
    requires forall i | 0 <= i < |text| :: text[i] != NEWLINE
    ensures var stream := text + [NEWLINE] + rest;
            && LineLength(stream) == |text| + 1
            && stream[..|text| + 1] == text + [NEWLINE] && stream[|text| + 1..] == rest
  {
    LineLengthSplit(text, [NEWLINE] + rest);
    assert text + ([NEWLINE] + rest) == text + [NEWLINE] + rest;
  }

  /** Blank keep-alive lines between frames change nothing. */
  lemma BlankLineIsSkipped(blank: Bytes, rest: Bytes, max: nat)
    requires IsPadding(blank) && |blank| < max
    ensures Receive(blank + [10] + rest, max) == Receive(rest, max)
  {
    var stream := blank + [NEWLINE] + rest;
    LineLengthSplit(blank, [NEWLINE] + rest);
    assert blank + ([NEWLINE] + rest) == stream;
    assert stream[..|blank| + 1] == blank + [NEWLINE] && stream[|blank| + 1..] == rest;
    TrimOfSpaces(blank + [NEWLINE]);
  }

  lemma {:induction false} TrimOfSpaces(s: Bytes)
    requires forall i | 0 <= i < |s| :: IsSpace(s[i])
    ensures Trim(s) == []
  {
    if s != [] {
      TrimOfSpaces(s[1..]);
    }
  }

  function EncodeAll<Msg(!new)>(codec: Codec<Msg>, msgs: seq<Msg>): seq<Bytes> {
    seq(|msgs|, i requires 0 <= i < |msgs| => codec.encode(msgs[i]))
  }

  /** At the level of messages, for any codec whose frames travel well and decode
      to what was encoded: every message sent arrives, in order, and then the end. */
  lemma MessagesRoundTrip<Msg(!new)>(codec: Codec<Msg>, msgs: seq<Msg>, max: nat)
    requires forall m :: WireReady(codec.encode(m)) && codec.decode(codec.encode(m)) == Some(m)
    requires forall i | 0 <= i < |msgs| :: |codec.encode(msgs[i])| < max
    ensures var s := ReceiveAll(Wire(EncodeAll(codec, msgs)), max);
            && !s.tooLong && |s.frames| == |msgs|
            && forall i | 0 <= i < |msgs| :: codec.decode(s.frames[i]) == Some(msgs[i])
  {
    RoundTripExactly(EncodeAll(codec, msgs), max);
  }

  // ---- the transport ----------------------------------------------------------------

  function Joined(chunks: seq<Bytes>): Bytes {
    if chunks == [] then [] else chunks[0] + Joined(chunks[1..])
  }

  datatype LineRead = Line | Eof | LineTooLong

  datatype Inbound<Msg> = Message(msg: Msg) | Closed | Aborted(max: nat) | Undecodable

  /** `chunks` is what the reader has yet to hand out, one `fill_buf` at a time:
      an arbitrary division of the stream into non-empty pieces. */
  class LineTransport<!Msg> {
    var chunks: seq<Bytes>
    var written: Bytes
    var buf: Bytes
    const maxLineBytes: nat
    const codec: Codec<Msg>

    ghost predicate Valid()
      reads this
    {
      maxLineBytes >= 1 && forall i | 0 <= i < |chunks| :: chunks[i] != []
    }

    /** What is left to read, however it is divided. */
    ghost function Stream(): Bytes
      reads this
    {
      Joined(chunks)
    }

    /** A cap of zero is treated as one. */
    constructor (chunks: seq<Bytes>, max: nat, codec: Codec<Msg>)
      requires forall i | 0 <= i < |chunks| :: chunks[i] != []
      ensures Valid() && Stream() == Joined(chunks) && written == [] && buf == []
      ensures maxLineBytes == (if max == 0 then 1 else max) && this.codec == codec
    {
      this.chunks, written, buf := chunks, [], [];
      maxLineBytes := if max == 0 then 1 else max;
      this.codec := codec;
    }

    method FillBuf() returns (available: Bytes)
      requires Valid()
      ensures available == if chunks == [] then [] else chunks[0]
      ensures available == [] <==> Stream() == []
    {
      available := if chunks == [] then [] else chunks[0];
    }

    method Consume(n: nat)
      requires Valid() && chunks != [] && n <= |chunks[0]|
      modifies this`chunks
      ensures Valid() && old(Stream()) == old(chunks[0])[..n] + Stream()
    {
      ghost var first, rest := chunks[0], Joined(chunks[1..]);
      assert first[..n] + (first[n..] + rest) == first + rest;
      if n == |chunks[0]| {
        chunks := chunks[1..];
        assert first[n..] == [];
      } else {
        ghost var tail := chunks[1..];
        chunks := [chunks[0][n..]] + chunks[1..];
        assert chunks[1..] == tail;
      }
    }

    /** The outcome and the line depend on the stream, not on its chunks; and the
        buffer never holds more than the cap, whatever arrives. */
    method ReadLineCapped() returns (r: LineRead)
      requires Valid() && buf == []
      modifies this`chunks, this`buf
      ensures Valid() && |buf| <= maxLineBytes
      ensures r == (if old(Stream()) == [] then Eof
                    else if LineLength(old(Stream())) > maxLineBytes then LineTooLong else Line)
      ensures !r.LineTooLong? ==> buf == old(Stream())[..LineLength(old(Stream()))]
      ensures !r.LineTooLong? ==> Stream() == old(Stream())[LineLength(old(Stream()))..]
    {
      ghost var stream := Stream();
      while true
        invariant Valid() && |buf| <= maxLineBytes
        invariant buf + Stream() == stream
        invariant IsWithinLine(buf)
        decreases |Stream()|
      {
        ghost var had, rest := buf, Stream();
        LineSoFar(had, rest, stream);
        var available := FillBuf();
        if available == [] {
          return if buf == [] then Eof else Line;
        }
        var take, done := Position(available);
        FirstChunk(chunks, take, done);
        TakenWithinLine(available, take, done);
        if |buf| + take > maxLineBytes {
          return LineTooLong;
        }
        buf := buf + available[..take];
        ghost var line := buf;
        Consume(take);
        ghost var left := Stream();
        Taken(had, available[..take], line, left, rest, stream);
        if done {
          LineEnds(line, left, stream);
          return Line;
        }
      }
    }

    /** How much of `available` belongs to the current line, and whether it ends it. */
    static method Position(available: Bytes) returns (take: nat, done: bool)
      requires available != []
      ensures 0 < take <= |available|
      ensures forall i | 0 <= i < take - 1 :: available[i] != NEWLINE
      ensures done <==> available[take - 1] == NEWLINE
      ensures !done ==> take == |available|
    {
      take := 1;
      while take < |available| && available[take - 1] != NEWLINE
        invariant 0 < take <= |available|
        invariant forall i | 0 <= i < take - 1 :: available[i] != NEWLINE
      {
        take := take + 1;
      }
      done := available[take - 1] == NEWLINE;
    }

    method Send(msg: Msg)
      modifies this`written
      ensures written == old(written) + codec.encode(msg) + [NEWLINE]
    {
      written := written + codec.encode(msg);
      written := written + [NEWLINE];
    }

    /** One `recv` polled to completion: the next frame of the stream, decoded. */
    method Recv() returns (r: Inbound<Msg>)
      requires Valid()
      modifies this`chunks, this`buf
      ensures Valid() && |buf| <= maxLineBytes
      ensures r == (match Receive(old(Stream()), maxLineBytes).0
                    case EndOfStream => Closed
                    case TooLong => Aborted(maxLineBytes)
                    case Frame(f) => var m := codec.decode(f); if m.Some? then Message(m.value) else Undecodable)
      ensures !r.Aborted? ==> Stream() == Receive(old(Stream()), maxLineBytes).1
    {
      while true
        invariant Valid()
        invariant Receive(Stream(), maxLineBytes) == Receive(old(Stream()), maxLineBytes)
                  || (Receive(Stream(), maxLineBytes).0.TooLong? && Receive(old(Stream()), maxLineBytes).0.TooLong?)
        decreases |Stream()|
      {
        buf := [];
        var line := ReadLineCapped();
        match line {
          case Eof => return Closed;
          case LineTooLong => return Aborted(maxLineBytes);
          case Line =>
            var trimmed := Trim(buf);
            if trimmed != [] {
              var m := codec.decode(trimmed);
              return if m.Some? then Message(m.value) else Undecodable;
            }
        }
      }
    }
  }

  /** What the first chunk says about the first line of the stream. */
  ghost predicate IsWithinLine(line: Bytes) { forall i | 0 <= i < |line| :: line[i] != NEWLINE }

  lemma LineSoFar(had: Bytes, rest: Bytes, stream: Bytes)
    requires had + rest == stream && IsWithinLine(had)
    ensures LineLength(stream) == |had| + LineLength(rest)
    ensures rest == [] ==> had == stream && LineLength(stream) == |stream|
  {
    LineLengthSplit(had, rest);
  }

  lemma Taken(had: Bytes, taken: Bytes, line: Bytes, left: Bytes, rest: Bytes, stream: Bytes)
    requires had + rest == stream && rest == taken + left && line == had + taken && taken != []
    ensures line + left == stream && |line| == |had| + |taken| && |left| < |rest|
    ensures IsWithinLine(had) && IsWithinLine(taken) ==> IsWithinLine(line)
  {
    assert had + (taken + left) == had + taken + left;
  }

  lemma TakenWithinLine(available: Bytes, take: nat, done: bool)
    requires 0 < take <= |available| && (done <==> available[take - 1] == NEWLINE)
    requires forall i | 0 <= i < take - 1 :: available[i] != NEWLINE
    ensures IsWithinLine(available[..take]) <==> !done
  {
    assert available[..take][take - 1] == available[take - 1];
  }

  lemma LineEnds(line: Bytes, left: Bytes, stream: Bytes)
    requires line + left == stream && LineLength(stream) == |line|
    ensures line == stream[..LineLength(stream)] && left == stream[LineLength(stream)..]
  {
  }

  lemma FirstChunk(chunks: seq<Bytes>, take: nat, done: bool)
    requires chunks != [] && 0 < take <= |chunks[0]|
    requires forall i | 0 <= i < take - 1 :: chunks[0][i] != NEWLINE
    requires done <==> chunks[0][take - 1] == NEWLINE
    requires !done ==> take == |chunks[0]|
    ensures if done then LineLength(Joined(chunks)) == take else LineLength(Joined(chunks)) >= take
  {
    var first, rest := chunks[0], Joined(chunks[1..]);
    if done {
      LineLengthSplit(first[..take - 1], first[take - 1..] + rest);
      assert first[..take - 1] + (first[take - 1..] + rest) == first + rest;
    } else {
      LineLengthSplit(first, rest);
    }
  }
}
