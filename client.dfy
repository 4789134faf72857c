/** The ClamAV daemon client: configuration, the PING command, the INSTREAM
    scan and the reply reader they share. A scan or ping is given the
    connection it talks over (the socket the Java code opens to host and port),
    and `scan` is given the caller's content stream and the digest function. */
module ClamAV {
  import opened Bytes
  import opened Streams
  import opened Framing
  import opened Replies
  import opened DigestHex

  const DefaultTimeout: int := 2000
  const PongReplyLen: nat := 4
  /** The size of the buffer `readAll` reads into. */
  const ReadAllBuffer: nat := 2000

  const PingCommand: seq<byte> := AsciiBytes("zPING\0")
  const Pong: seq<byte> := AsciiBytes("PONG")

  /** The immutable configuration of a client; `timeout` is in milliseconds,
      0 meaning no deadline. */
  datatype Client = Client(hostName: string, port: int, timeout: int)

  /** `new ClamAVClient(hostName, port, timeout)`. */
  function NewClient(hostName: string, port: int, timeout: int): (r: Result<Client>)
    ensures r.Err? <==> timeout < 0
    ensures r.Err? ==> r.error.IllegalArgument?
    ensures r.Ok? ==> r.value.hostName == hostName && r.value.port == port && r.value.timeout == timeout
  {
    if timeout < 0 then Err(IllegalArgument("Negative timeout value does not make sense."))
    else Ok(Client(hostName, port, timeout))
  }

  /** `new ClamAVClient(hostName, port)`. */
  function NewDefaultClient(hostName: string, port: int): (r: Result<Client>)
    ensures r.Ok? && r.value.timeout == 2000
    ensures r.value.hostName == hostName && r.value.port == port
  {
    NewClient(hostName, port, DefaultTimeout)
  }

  // ---------------------------------------------------------------- PING

  /** The bytes ping's read loop gathers when it still has room for `want`:
      it reads until the buffer is full, a read returns no byte, or the
      stream ends. */
  function PingGather(script: seq<seq<byte>>, want: nat): (got: seq<byte>)
    ensures |got| <= want
    decreases want
  {
    if want == 0 || script == [] then []
    else
      var piece := Take(script, want);
      if |piece| == 0 then [] else piece + PingGather(Rest(script, want), want - |piece|)
  }

  /** What ping gathers is a prefix of the bytes the daemon sent. */
  lemma {:induction false} PingGatherPrefix(script: seq<seq<byte>>, want: nat)
    ensures var got := PingGather(script, want);
      |got| <= |Flatten(script)| && got == Flatten(script)[..|got|]
    decreases want
  {
    if want > 0 && script != [] && |Take(script, want)| > 0 {
      TakeRest(script, want);
      PingGatherPrefix(Rest(script, want), want - |Take(script, want)|);
    }
  }

  /** On a stream that never makes an empty delivery, ping gathers the first
      `want` bytes however they are split across deliveries. */
  lemma {:induction false} PingGatherSplit(script: seq<seq<byte>>, want: nat)
    requires NoEmptyDelivery(script) && want <= |Flatten(script)|
    ensures PingGather(script, want) == Flatten(script)[..want]
    decreases want
  {
    if want > 0 {
      assert script != [];
      var piece := Take(script, want);
      var rest := Rest(script, want);
      TakeRest(script, want);
      RestNonEmpty(script, want);
      PingGatherSplit(rest, want - |piece|);
    }
  }

  /** Ping succeeds only if the reply starts with PONG, and, when the daemon
      makes no empty delivery, whenever it does; a reply shorter than four
      bytes is a failed ping. */
  lemma PingVerdict(script: seq<seq<byte>>)
    ensures PingGather(script, PongReplyLen) == Pong ==>
      |Flatten(script)| >= 4 && Flatten(script)[..4] == Pong
    ensures NoEmptyDelivery(script) && |Flatten(script)| >= 4 && Flatten(script)[..4] == Pong ==>
      PingGather(script, PongReplyLen) == Pong
    ensures |Flatten(script)| < 4 ==> PingGather(script, PongReplyLen) != Pong
  {
    PingGatherPrefix(script, PongReplyLen);
    if NoEmptyDelivery(script) && |Flatten(script)| >= 4 {
      PingGatherSplit(script, 4);
    }
  }

  /** The state of ping's read loop: `buffer` holds the first `filled` bytes
      of what the loop gathers and zeros after them; the rest of what it
      gathers is still to come from `script`, which is what the daemon sent
      after those bytes. */
  ghost predicate PingLoop(script0: seq<seq<byte>>, gathered: seq<byte>, buffer: seq<byte>,
                           filled: int, script: seq<seq<byte>>)
  {
    && 0 <= filled <= |buffer|
    && gathered == buffer[..filled] + PingGather(script, |buffer| - filled)
    && Flatten(script0) == buffer[..filled] + Flatten(script)
    && (forall j :: filled <= j < |buffer| ==> buffer[j] == 0)
  }

  /** A read of ping's loop, asking for the room left in the buffer, that
      returns bytes: the loop state holds with the bytes stored. */
  lemma PingLoopAdvance(script0: seq<seq<byte>>, gathered: seq<byte>, buffer: seq<byte>,
                        filled: int, script: seq<seq<byte>>, len: nat)
    requires PingLoop(script0, gathered, buffer, filled, script) && filled + len == |buffer|
    requires ReadCount(script, len) > 0
    ensures
      PingLoop(script0, gathered, Stored(buffer, filled, ReadPiece(script, len)),
               filled + ReadCount(script, len), ReadRest(script, len))
  {
    var piece, rest := Take(script, len), Rest(script, len);
    assert ReadPiece(script, len) == piece && ReadRest(script, len) == rest;
    var n := |piece|;
    var held := buffer[..filled];
    var after := Stored(buffer, filled, piece);
    assert PingGather(script, len) == piece + PingGather(rest, len - n);
    TakeRest(script, len);
    assert after[..filled + n] == held + piece by {
      assert after[..filled + n] == after[..filled] + after[filled..filled + n];
    }
    ConcatAssoc(held, piece, PingGather(rest, len - n));
    ConcatAssoc(held, piece, Flatten(rest));
  }

  /** A read of ping's loop that returns no byte: the buffer is left as it
      was, holding everything gathered, then zeros. */
  lemma PingLoopHalt(script0: seq<seq<byte>>, gathered: seq<byte>, buffer: seq<byte>,
                     filled: int, script: seq<seq<byte>>, len: nat)
    requires PingLoop(script0, gathered, buffer, filled, script) && filled + len == |buffer|
    requires ReadCount(script, len) <= 0
    ensures
      && Stored(buffer, filled, ReadPiece(script, len)) == buffer
      && |gathered| == filled && gathered == buffer[..filled]
      && (forall j :: filled <= j < |buffer| ==> buffer[j] == 0)
      && Flatten(script0) == gathered + Flatten(ReadRest(script, len))
  {
    var piece := ReadPiece(script, len);
    assert piece == [];
    assert PingGather(script, len) == [];
    assert Stored(buffer, filled, piece) == buffer;
  }

  lemma PongBytes()
    ensures Pong == [0x50, 0x4F, 0x4E, 0x47]
  {
  }

  /** Comparing the zero-padded buffer with PONG is comparing what was
      gathered with PONG: PONG has no zero byte to be mistaken for padding. */
  lemma PingDecision(buffer: seq<byte>, gathered: seq<byte>)
    requires |buffer| == 4 && |gathered| <= 4 && gathered == buffer[..|gathered|]
    requires forall j :: |gathered| <= j < 4 ==> buffer[j] == 0
    ensures buffer == Pong <==> gathered == Pong
  {
    PongBytes();
    if |gathered| < 4 {
      assert buffer[3] == 0;
    } else {
      assert buffer[..4] == buffer;
    }
  }

  /** The read loop of `ping()`: reads into the zeroed buffer `b`, at the
      index it has filled so far and for the room left, until a read returns
      no byte. The buffer then holds the gathered bytes, then zeros. */
  method GatherReply(inb: InStream, b: array<byte>)
    requires b.Length == PongReplyLen && forall j :: 0 <= j < b.Length ==> b[j] == 0
    modifies inb`script, b
    ensures var gathered := PingGather(old(inb.script), PongReplyLen);
      && b[..|gathered|] == gathered
      && (forall j :: |gathered| <= j < b.Length ==> b[j] == 0)
      && Flatten(old(inb.script)) == gathered + Flatten(inb.script)
  {
    ghost var script0 := inb.script;
    ghost var gathered := PingGather(script0, PongReplyLen);
    var copyIndex: int := 0;
    var readResult: int;
    assert b[..copyIndex] == [];
    while true
      invariant PingLoop(script0, gathered, b[..], copyIndex, inb.script)
      decreases b.Length - copyIndex
    {
      ghost var before, from, script := b[..], copyIndex, inb.script;
      var len := if b.Length - copyIndex > 0 then b.Length - copyIndex else 0;
      readResult := inb.Read(b, copyIndex, len);
      copyIndex := copyIndex + readResult;
      if readResult <= 0 {
        PingLoopHalt(script0, gathered, before, from, script, len);
        break;
      }
      PingLoopAdvance(script0, gathered, before, from, script, len);
    }
  }

  /** `ping()`: sends `zPING\0`, reads at most four bytes into a zeroed
      buffer and compares the buffer with PONG. */
  method Ping(conn: Connection) returns (alive: bool)
    modifies conn, conn.inbound, conn.outbound
    ensures conn.closed
    ensures conn.outbound.sent == old(conn.outbound.sent) + PingCommand
    ensures alive <==> PingGather(old(conn.inbound.script), PongReplyLen) == Pong
    ensures Flatten(old(conn.inbound.script)) ==
      PingGather(old(conn.inbound.script), PongReplyLen) + Flatten(conn.inbound.script)
    ensures conn.inbound.polls == old(conn.inbound.polls)
  {
    ghost var gathered := PingGather(conn.inbound.script, PongReplyLen);
    conn.outbound.Write(PingCommand);
    var b := new byte[PongReplyLen](_ => 0);
    GatherReply(conn.inbound, b);
    PingDecision(b[..], gathered);
    alive := b[..] == Pong;
    conn.Close();
  }

  // ---------------------------------------------------------------- readAll

  /** The outcome of `readAll`: its result, the blocks its reads returned, and
      the inbound state it leaves. */
  datatype Drained = Drained(reply: Result<seq<byte>>, pieces: seq<seq<byte>>, script: seq<seq<byte>>, polls: nat)

  /** `readAll`: read up to 2000 bytes, append them, and go on while the read
      was positive and the socket reports more bytes available. A read that
      reports end of stream makes `write(buf, 0, -1)` throw. */
  function Drain(script: seq<seq<byte>>, pending: seq<nat>, polls: nat): (r: Drained)
    ensures polls <= r.polls <= polls + |r.pieces|
    ensures r.reply.Err? ==> r.reply.error == IndexOutOfBounds
    decreases Measure(script)
  {
    if script == [] then Drained(Err(IndexOutOfBounds), [], [], polls)
    else
      var piece := Take(script, ReadAllBuffer);
      var rest := Rest(script, ReadAllBuffer);
      if |piece| == 0 then Drained(Ok(piece), [piece], rest, polls)
      else if Answer(pending, polls) == 0 then Drained(Ok(piece), [piece], rest, polls + 1)
      else
        RestShrinks(script, ReadAllBuffer);
        var d := Drain(rest, pending, polls + 1);
        Drained(Prefixed(piece, d.reply), [piece] + d.pieces, d.script, d.polls)
  }

  /** A positive read that finds more bytes available is followed by the rest
      of `readAll`. */
  lemma DrainNext(script: seq<seq<byte>>, pending: seq<nat>, polls: nat)
    requires script != [] && |Take(script, ReadAllBuffer)| > 0 && Answer(pending, polls) > 0
    ensures var d, d' := Drain(script, pending, polls), Drain(Rest(script, ReadAllBuffer), pending, polls + 1);
      && d.pieces == [Take(script, ReadAllBuffer)] + d'.pieces && d.script == d'.script && d.polls == d'.polls
      && d.reply == Prefixed(Take(script, ReadAllBuffer), d'.reply)
  {
  }

  /** The reads `readAll` makes are the first reads of the stream. */
  lemma {:induction false} DrainReads(script: seq<seq<byte>>, pending: seq<nat>, polls: nat)
    ensures var d := Drain(script, pending, polls);
      Reads(script, ReadAllBuffer) == d.pieces + Reads(d.script, ReadAllBuffer)
    decreases Measure(script)
  {
    if script != [] {
      var piece := Take(script, ReadAllBuffer);
      var rest := Rest(script, ReadAllBuffer);
      assert Reads(script, ReadAllBuffer) == [piece] + Reads(rest, ReadAllBuffer);
      if |piece| > 0 && Answer(pending, polls) > 0 {
        RestShrinks(script, ReadAllBuffer);
        DrainReads(rest, pending, polls + 1);
        DrainNext(script, pending, polls);
        var d' := Drain(rest, pending, polls + 1);
        ConcatAssoc([piece], d'.pieces, Reads(d'.script, ReadAllBuffer));
      } else {
        assert Drain(script, pending, polls).pieces == [piece];
      }
    }
  }

  /** `readAll` returns the concatenation of what its reads returned, after at
      least one read, or fails at end of stream. */
  lemma {:induction false} DrainReply(script: seq<seq<byte>>, pending: seq<nat>, polls: nat)
    ensures var d := Drain(script, pending, polls);
      && (d.reply.Ok? ==> |d.pieces| >= 1 && d.reply.value == Flatten(d.pieces))
      && (d.reply.Err? ==> d.reply.error == IndexOutOfBounds && d.script == [])
    decreases Measure(script)
  {
    if script != [] {
      var piece := Take(script, ReadAllBuffer);
      var rest := Rest(script, ReadAllBuffer);
      if |piece| > 0 && Answer(pending, polls) > 0 {
        RestShrinks(script, ReadAllBuffer);
        DrainReply(rest, pending, polls + 1);
        DrainNext(script, pending, polls);
        var d' := Drain(rest, pending, polls + 1);
        if d'.reply.Ok? {
          assert ([piece] + d'.pieces)[1..] == d'.pieces;
        }
      } else {
        assert Flatten([piece]) == piece;
      }
    }
  }

  /** The reply is the next bytes of the inbound stream, in order, taken by
      reads of at most 2000 bytes; the stream goes on right after it. */
  lemma DrainTakesPrefix(script: seq<seq<byte>>, pending: seq<nat>, polls: nat)
    ensures var d := Drain(script, pending, polls);
      && (forall i :: 0 <= i < |d.pieces| ==> |d.pieces[i]| <= ReadAllBuffer)
      && (d.reply.Ok? ==> Flatten(script) == d.reply.value + Flatten(d.script))
  {
    var d := Drain(script, pending, polls);
    var all := Reads(script, ReadAllBuffer);
    DrainReads(script, pending, polls);
    DrainReply(script, pending, polls);
    forall i | 0 <= i < |d.pieces| ensures |d.pieces[i]| <= ReadAllBuffer {
      assert d.pieces[i] == all[i];
    }
    FlattenAppend(d.pieces, Reads(d.script, ReadAllBuffer));
  }

  /** `readAll` goes on only after a read that returned bytes and a poll that
      found more available. */
  lemma {:induction false} DrainContinues(script: seq<seq<byte>>, pending: seq<nat>, polls: nat)
    ensures var d := Drain(script, pending, polls);
      forall i :: 0 <= i < |d.pieces| - 1 ==> |d.pieces[i]| > 0 && Answer(pending, polls + i) > 0
    decreases Measure(script)
  {
    if script != [] {
      var piece := Take(script, ReadAllBuffer);
      var rest := Rest(script, ReadAllBuffer);
      if |piece| > 0 && Answer(pending, polls) > 0 {
        RestShrinks(script, ReadAllBuffer);
        DrainContinues(rest, pending, polls + 1);
        DrainNext(script, pending, polls);
        var d, d' := Drain(script, pending, polls), Drain(rest, pending, polls + 1);
        forall i | 0 <= i < |d.pieces| - 1 ensures |d.pieces[i]| > 0 && Answer(pending, polls + i) > 0 {
          if i > 0 {
            assert d.pieces[i] == d'.pieces[i - 1];
          }
        }
      }
    }
  }

  /** When `readAll` stops with a reply: its last read returned no byte, or
      returned bytes and then found none available; one poll was made per
      positive read. */
  lemma {:induction false} DrainStops(script: seq<seq<byte>>, pending: seq<nat>, polls: nat)
    ensures var d := Drain(script, pending, polls);
      d.reply.Ok? ==>
        && |d.pieces| >= 1
        && var last := d.pieces[|d.pieces| - 1];
        || (|last| == 0 && d.polls == polls + |d.pieces| - 1)
        || (|last| > 0 && Answer(pending, polls + |d.pieces| - 1) == 0 && d.polls == polls + |d.pieces|)
    decreases Measure(script)
  {
    if script != [] {
      var piece := Take(script, ReadAllBuffer);
      var rest := Rest(script, ReadAllBuffer);
      if |piece| > 0 && Answer(pending, polls) > 0 {
        RestShrinks(script, ReadAllBuffer);
        DrainStops(rest, pending, polls + 1);
        DrainNext(script, pending, polls);
      }
    }
  }

  /** `readAll(inStream)`. */
  method ReadAll(inb: InStream) returns (r: Result<seq<byte>>)
    modifies inb
    ensures var d := Drain(old(inb.script), inb.pending, old(inb.polls));
      r == d.reply && inb.script == d.script && inb.polls == d.polls
  {
    ghost var d0 := Drain(inb.script, inb.pending, inb.polls);
    var tmp: seq<byte> := [];
    var buf := new byte[ReadAllBuffer](_ => 0);
    assert d0.reply.Ok? ==> tmp + d0.reply.value == d0.reply.value;
    while true
      invariant buf.Length == ReadAllBuffer
      invariant d0.script == Drain(inb.script, inb.pending, inb.polls).script
      invariant d0.polls == Drain(inb.script, inb.pending, inb.polls).polls
      invariant d0.reply == Prefixed(tmp, Drain(inb.script, inb.pending, inb.polls).reply)
      decreases Measure(inb.script)
    {
      ghost var s, p := inb.script, inb.polls;
      var read := inb.Read(buf, 0, buf.Length);
      if read < 0 {
        r := Err(IndexOutOfBounds);
        return;
      }
      ghost var piece := Take(s, ReadAllBuffer);
      assert buf[..read] == piece;
      ghost var tmp0 := tmp;
      tmp := tmp + buf[..read];
      if read == 0 {
        assert tmp == tmp0 + piece;
        break;
      }
      RestShrinks(s, ReadAllBuffer);
      var available := inb.Available();
      if available == 0 {
        break;
      }
      PrefixedAppend(tmp0, piece, Drain(inb.script, inb.pending, inb.polls).reply);
    }
    r := Ok(tmp);
  }

  /** An outcome of readAll with `prefix` already accumulated in front. */
  function Prefixed(prefix: seq<byte>, r: Result<seq<byte>>): Result<seq<byte>>
  {
    if r.Ok? then Ok(prefix + r.value) else r
  }

  lemma PrefixedAppend(a: seq<byte>, b: seq<byte>, r: Result<seq<byte>>)
    ensures Prefixed(a, Prefixed(b, r)) == Prefixed(a + b, r)
  {
    if r.Ok? {
      assert a + (b + r.value) == a + b + r.value;
    }
  }

  // ---------------------------------------------------------------- INSTREAM

  /** FileScanResponseDto, as far as `scan` uses it: a settable hash. */
  class ScanResponse {
    var hash: Option<string>

    constructor ()
      ensures hash == None
    {
      hash := None;
    }

    /** `setHash(hash)`. */
    method SetHash(h: string)
      modifies this`hash
      ensures hash == Some(h)
    {
      hash := Some(h);
    }
  }

  /** Poll number `n` finds no byte available. */
  predicate Quiet(pending: seq<nat>, n: nat)
  {
    Answer(pending, n) == 0
  }

  /** The number of chunks sent before the first poll that finds an early
      reply, or `count` if none of the `count` polls does. */
  function AbortIndex(pending: seq<nat>, polls: nat, count: nat): (k: nat)
    ensures k <= count
    ensures k < count ==> Answer(pending, polls + k) > 0
    decreases count
  {
    if count == 0 || Answer(pending, polls) > 0 then 0
    else 1 + AbortIndex(pending, polls + 1, count - 1)
  }

  /** A poll that finds nothing moves the search on by one. */
  lemma AbortIndexStep(pending: seq<nat>, polls: nat, count: nat)
    requires count > 0 && Answer(pending, polls) == 0
    ensures AbortIndex(pending, polls, count) == 1 + AbortIndex(pending, polls + 1, count - 1)
  {
  }

  /** Every poll before the one that finds a reply finds nothing. */
  lemma {:induction false} QuietBefore(pending: seq<nat>, polls: nat, count: nat, i: nat)
    requires i < AbortIndex(pending, polls, count)
    ensures Quiet(pending, polls + i)
    decreases count
  {
    if i > 0 {
      QuietBefore(pending, polls + 1, count - 1, i - 1);
    }
  }

  /** `assertSizeLimit(readAll(inStream))`, with readAll's own failure passed on. */
  function SizeChecked(drained: Result<seq<byte>>): (r: Result<seq<byte>>)
    ensures drained.Err? ==> r == drained
    ensures drained.Ok? ==> (r.Ok? <==> AssertSizeLimit(drained.value).Ok?)
    ensures r.Ok? ==> r == drained
    ensures drained.Ok? && r.Err? ==> r.error.SizeLimitExceeded?
  {
    match drained
    case Err(e) => Err(e)
    case Ok(reply) => AssertSizeLimit(reply)
  }

  /** The outcome of a scan cut short by an early reply: the size-limit error
      or readAll's failure if there is one, the "Scan aborted" I/O error with
      the reply text otherwise. */
  function AbortOutcome(drained: Result<seq<byte>>): (r: Result<seq<byte>>)
    ensures r.Err?
    ensures drained.Err? ==> r == drained
    ensures drained.Ok? && AssertSizeLimit(drained.value).Err? ==> r == AssertSizeLimit(drained.value)
    ensures drained.Ok? ==> (r.error.IOError? <==> AssertSizeLimit(drained.value).Ok?)
    ensures drained.Ok? && r.error.IOError? ==>
      StartsWith(r.error.message, "Scan aborted. ") && exists p :: r.error.message == p + AsciiText(drained.value)
  {
    match SizeChecked(drained)
    case Err(e) => Err(e)
    case Ok(reply) =>
      var message := "Scan aborted. Reply from server: " + AsciiText(reply);
      assert message[..14] == "Scan aborted. ";
      Err(IOError(message))
  }

  /** A read from `script` returns bytes: the stream has not ended and its next
      delivery is not empty. */
  predicate HasBytes(script: seq<seq<byte>>)
  {
    script != [] && |script[0]| > 0
  }

  /** The socket's polls during `readAll` are truthful: whenever a read
      returned bytes and the following `available()` answers more than zero,
      the next read returns bytes too, as a socket's `available()` promises. */
  predicate TruthfulPolls(script: seq<seq<byte>>, pending: seq<nat>, polls: nat)
    decreases Measure(script)
  {
    if script == [] || |Take(script, ReadAllBuffer)| == 0 || Answer(pending, polls) == 0 then true
    else
      var rest := Rest(script, ReadAllBuffer);
      RestShrinks(script, ReadAllBuffer);
      HasBytes(rest) && TruthfulPolls(rest, pending, polls + 1)
  }

  /** With bytes pending and truthful polls, `readAll` succeeds with a
      non-empty reply. */
  lemma {:induction false} DrainAnswers(script: seq<seq<byte>>, pending: seq<nat>, polls: nat)
    requires HasBytes(script) && TruthfulPolls(script, pending, polls)
    ensures var d := Drain(script, pending, polls);
      d.reply.Ok? && |d.reply.value| > 0
    decreases Measure(script)
  {
    if Answer(pending, polls) > 0 {
      var rest := Rest(script, ReadAllBuffer);
      RestShrinks(script, ReadAllBuffer);
      DrainAnswers(rest, pending, polls + 1);
      DrainNext(script, pending, polls);
    }
  }

  /** A scan aborted by a poll that found a reply, on a socket that then
      delivers that reply and whose later polls are truthful, ends either in
      the size-limit error or in the "Scan aborted" I/O error carrying the
      whole non-empty reply text. */
  lemma AbortReportsReply(script: seq<seq<byte>>, pending: seq<nat>, polls: nat)
    requires HasBytes(script) && TruthfulPolls(script, pending, polls)
    ensures var d := Drain(script, pending, polls);
      var r := AbortOutcome(d.reply);
      && d.reply.Ok? && |d.reply.value| > 0 && r.Err?
      && (r.error.SizeLimitExceeded? <==> AssertSizeLimit(d.reply.value).Err?)
      && (r.error.SizeLimitExceeded? || r.error == IOError("Scan aborted. Reply from server: " + AsciiText(d.reply.value)))
  {
    DrainAnswers(script, pending, polls);
  }

  /** The outcome of `scan`'s chunk loop: the blocks it read from the source
      and sent, the source deliveries left, the number of polls made, and
      whether it stopped on an early reply. */
  datatype Fed = Fed(blocks: seq<seq<byte>>, rest: seq<seq<byte>>, polls: nat, aborted: bool)

  /** The chunk loop, from a source with deliveries `script` and `polls` polls
      made: it sends the blocks successive reads of 2048 bytes deliver, up to
      and including the first one after which the poll finds a reply, or all
      of them when no poll does. */
  function FeedOutcome(script: seq<seq<byte>>, pending: seq<nat>, polls: nat): (r: Fed)
    ensures |r.blocks| <= |Reads(script, ChunkSize)| && r.blocks == Reads(script, ChunkSize)[..|r.blocks|]
    ensures r.polls == polls + |r.blocks|
    ensures !r.aborted ==> r.blocks == Reads(script, ChunkSize) && r.rest == []
  {
    var blocks := Reads(script, ChunkSize);
    var k := AbortIndex(pending, polls, |blocks|);
    TrailShape(script, ChunkSize);
    if k < |blocks| then Fed(blocks[..k + 1], Trail(script, ChunkSize)[k + 1], polls + k + 1, true)
    else Fed(blocks, [], polls + |blocks|, false)
  }

  /** The chunk loop step by step: read a block, send it, poll the daemon;
      stop at the end of the source or on the first poll that finds a reply. */
  function FeedChunks(script: seq<seq<byte>>, pending: seq<nat>, polls: nat): (r: Fed)
    ensures r.polls == polls + |r.blocks|
    ensures r.aborted ==> |r.blocks| > 0 && Answer(pending, r.polls - 1) > 0
    ensures !r.aborted ==> r.rest == []
    decreases Measure(script)
  {
    if script == [] then Fed([], [], polls, false)
    else
      var piece, rest := Take(script, ChunkSize), Rest(script, ChunkSize);
      if Answer(pending, polls) > 0 then Fed([piece], rest, polls + 1, true)
      else
        RestShrinks(script, ChunkSize);
        var f := FeedChunks(rest, pending, polls + 1);
        Fed([piece] + f.blocks, f.rest, f.polls, f.aborted)
  }

  /** A first poll that finds a reply stops the loop after the first block. */
  lemma FeedOutcomeAbort(script: seq<seq<byte>>, pending: seq<nat>, polls: nat)
    requires script != [] && Answer(pending, polls) > 0
    ensures FeedOutcome(script, pending, polls) ==
      Fed([Take(script, ChunkSize)], Rest(script, ChunkSize), polls + 1, true)
  {
    var blocks, trail := Reads(script, ChunkSize), Trail(script, ChunkSize);
    var rest := Rest(script, ChunkSize);
    RestShrinks(script, ChunkSize);
    assert blocks == [Take(script, ChunkSize)] + Reads(rest, ChunkSize);
    assert trail == [script] + Trail(rest, ChunkSize);
    FeedOutcomeAt(script, pending, polls);
    TrailShape(rest, ChunkSize);
    assert AbortIndex(pending, polls, |blocks|) == 0;
    assert blocks[..1] == [Take(script, ChunkSize)] && trail[1] == rest;
  }

  /** A first poll that finds nothing: the first block, then the loop from
      the rest of the source. */
  lemma FeedOutcomeNext(script: seq<seq<byte>>, pending: seq<nat>, polls: nat)
    requires script != [] && Answer(pending, polls) == 0
    ensures var f := FeedOutcome(Rest(script, ChunkSize), pending, polls + 1);
      FeedOutcome(script, pending, polls) == Fed([Take(script, ChunkSize)] + f.blocks, f.rest, f.polls, f.aborted)
  {
    var piece, rest := Take(script, ChunkSize), Rest(script, ChunkSize);
    var blocks, trail := Reads(script, ChunkSize), Trail(script, ChunkSize);
    var blocks', trail' := Reads(rest, ChunkSize), Trail(rest, ChunkSize);
    RestShrinks(script, ChunkSize);
    assert blocks == [piece] + blocks';
    assert trail == [script] + trail';
    FeedOutcomeAt(script, pending, polls);
    FeedOutcomeAt(rest, pending, polls + 1);
    var k' := AbortIndex(pending, polls + 1, |blocks'|);
    AbortIndexStep(pending, polls, |blocks|);
    if k' < |blocks'| {
      assert blocks[..k' + 2] == [piece] + blocks'[..k' + 1];
      assert trail[k' + 2] == trail'[k' + 1];
    }
  }

  /** The two descriptions of the chunk loop agree. */
  lemma {:induction false} FeedAgrees(script: seq<seq<byte>>, pending: seq<nat>, polls: nat)
    ensures FeedChunks(script, pending, polls) == FeedOutcome(script, pending, polls)
    decreases Measure(script)
  {
    if script != [] {
      if Answer(pending, polls) > 0 {
        FeedOutcomeAbort(script, pending, polls);
      } else {
        RestShrinks(script, ChunkSize);
        FeedAgrees(Rest(script, ChunkSize), pending, polls + 1);
        FeedOutcomeNext(script, pending, polls);
      }
    }
  }

  /** What the chunk loop sends is where the source's reads begin, and the
      source goes on right after it; without an early reply every block of
      the source is sent, so the digest covers all of its bytes. */
  lemma FeedReads(script: seq<seq<byte>>, pending: seq<nat>, polls: nat)
    ensures var f := FeedOutcome(script, pending, polls);
      && Reads(script, ChunkSize) == f.blocks + Reads(f.rest, ChunkSize)
      && (!f.aborted ==> f.rest == [] && Flatten(f.blocks) == Flatten(script))
  {
    var f := FeedOutcome(script, pending, polls);
    var blocks := Reads(script, ChunkSize);
    if f.aborted {
      var k := AbortIndex(pending, polls, |blocks|);
      FeedOutcomeAt(script, pending, polls);
      assert f.rest == Trail(script, ChunkSize)[k + 1] && |f.blocks| == k + 1;
      TrailReads(script, ChunkSize, k + 1);
      SplitAt(blocks, k + 1);
    } else {
      assert blocks + Reads([], ChunkSize) == blocks;
    }
  }

  /** One poll per block sent; every poll but an aborting last one found
      nothing, and an aborting one found a reply. */
  lemma FeedPolls(script: seq<seq<byte>>, pending: seq<nat>, polls: nat)
    ensures var f := FeedOutcome(script, pending, polls);
      && f.polls == polls + |f.blocks|
      && (forall n :: polls <= n < f.polls - 1 ==> Quiet(pending, n))
      && (f.aborted ==> |f.blocks| > 0 && Answer(pending, f.polls - 1) > 0)
  {
    var f := FeedOutcome(script, pending, polls);
    var blocks := Reads(script, ChunkSize);
    var k := AbortIndex(pending, polls, |blocks|);
    FeedOutcomeAt(script, pending, polls);
    assert f.polls - 1 <= polls + k;
    forall n | polls <= n < f.polls - 1
      ensures Quiet(pending, n)
    {
      QuietBefore(pending, polls, |blocks|, n - polls);
    }
    if f.aborted {
      assert f.polls - 1 == polls + k;
    }
  }

  lemma FitsChunks(blocks: seq<seq<byte>>)
    requires forall i :: 0 <= i < |blocks| ==> |blocks[i]| <= ChunkSize
    ensures Fits(blocks)
  {
  }

  /** Sending block `i` after the first `i`: its chunk follows theirs, and its
      bytes follow theirs in the digest input. */
  lemma SendNext(blocks: seq<seq<byte>>, i: nat)
    requires Fits(blocks) && i < |blocks|
    ensures Fits(blocks[..i]) && Fits(blocks[..i + 1])
    ensures Frame(blocks[..i + 1]) == Frame(blocks[..i]) + Chunk(blocks[i])
    ensures Flatten(blocks[..i + 1]) == Flatten(blocks[..i]) + blocks[i]
  {
    var b := blocks[i];
    assert blocks[..i + 1] == blocks[..i] + [b];
    FrameAppend(blocks[..i], [b]);
    FlattenAppend(blocks[..i], [b]);
    assert Frame([b]) == Chunk(b) + Frame([]);
    assert Flatten([b]) == b + Flatten([]);
    assert Frame(blocks[..i] + [b]) == Frame(blocks[..i]) + Chunk(b);
  }

  /** What the chunk loop works through: the blocks the source delivers, the
      states it goes through, and the number `k` of blocks whose polls find
      nothing before the first poll that finds a reply (all of them if none
      does). */
  ghost predicate Feeding(blocks: seq<seq<byte>>, trail: seq<seq<seq<byte>>>, k: nat, pending: seq<nat>, polls0: nat)
  {
    && IsTrail(blocks, trail, ChunkSize) && Fits(blocks)
    && k <= |blocks| && (k < |blocks| ==> Answer(pending, polls0 + k) > 0)
    && forall n :: polls0 <= n < polls0 + k ==> Quiet(pending, n)
  }

  /** `FeedOutcome` in terms of the reads, the trail and the aborting index. */
  lemma FeedOutcomeAt(script: seq<seq<byte>>, pending: seq<nat>, polls: nat)
    ensures var blocks, trail := Reads(script, ChunkSize), Trail(script, ChunkSize);
      var k := AbortIndex(pending, polls, |blocks|);
      && |trail| == |blocks| + 1
      && FeedOutcome(script, pending, polls) ==
           if k < |blocks| then Fed(blocks[..k + 1], trail[k + 1], polls + k + 1, true)
           else Fed(blocks, [], polls + |blocks|, false)
  {
    TrailShape(script, ChunkSize);
  }

  lemma FeedingHolds(script: seq<seq<byte>>, pending: seq<nat>, polls: nat)
    ensures var blocks := Reads(script, ChunkSize);
      && Feeding(blocks, Trail(script, ChunkSize), AbortIndex(pending, polls, |blocks|), pending, polls)
      && Trail(script, ChunkSize)[0] == script
  {
    var blocks := Reads(script, ChunkSize);
    var k := AbortIndex(pending, polls, |blocks|);
    TrailIsTrail(script, ChunkSize);
    FitsChunks(blocks);
    forall n | polls <= n < polls + k
      ensures Quiet(pending, n)
    {
      QuietBefore(pending, polls, |blocks|, n - polls);
    }
  }

  /** The state of `scan`'s chunk loop before it sends block `i`, or, when
      `read` is -1, once the source is exhausted: the read just made is read
      `i` of the source, `buffer` holds the block it returned, and the first
      `i` blocks have been sent, fed to the digest and each followed by a
      poll that found nothing. */
  ghost predicate Sending(blocks: seq<seq<byte>>, trail: seq<seq<seq<byte>>>, k: nat, polls0: nat, sent0: seq<byte>,
                          i: nat, read: int, buffer: seq<byte>, script: seq<seq<byte>>,
                          sent: seq<byte>, fed: seq<byte>, polls: nat)
  {
    && i <= k <= |blocks| && |trail| == |blocks| + 1
    && read == ReadCount(trail[i], ChunkSize) && script == ReadRest(trail[i], ChunkSize)
    && (read >= 0 <==> i < |blocks|)
    && (read >= 0 ==> read <= |buffer| && buffer[..read] == blocks[i])
    && Fits(blocks[..i]) && sent == sent0 + Frame(blocks[..i])
    && fed == Flatten(blocks[..i])
    && polls == polls0 + i
  }

  /** The first read of the chunk loop. */
  lemma SendingStart(blocks: seq<seq<byte>>, trail: seq<seq<seq<byte>>>, k: nat, pending: seq<nat>, polls0: nat,
                     sent0: seq<byte>, buffer: seq<byte>)
    requires Feeding(blocks, trail, k, pending, polls0) && ChunkSize <= |buffer|
    ensures Sending(blocks, trail, k, polls0, sent0, 0, ReadCount(trail[0], ChunkSize),
                    Stored(buffer, 0, ReadPiece(trail[0], ChunkSize)), ReadRest(trail[0], ChunkSize),
                    sent0, [], polls0)
  {
    if blocks != [] {
      assert trail[0] != [] && Take(trail[0], ChunkSize) == blocks[0];
    }
  }

  /** A block sent, a poll that finds nothing, and the next read, which stores
      its bytes over the start of the buffer: the loop goes on with the next
      block. */
  lemma SendingNext(blocks: seq<seq<byte>>, trail: seq<seq<seq<byte>>>, k: nat, pending: seq<nat>, polls0: nat,
                    sent0: seq<byte>, i: nat, read: int, buffer: seq<byte>, script: seq<seq<byte>>,
                    sent: seq<byte>, fed: seq<byte>, polls: nat, before: seq<byte>)
    requires Feeding(blocks, trail, k, pending, polls0)
    requires Sending(blocks, trail, k, polls0, sent0, i, read, buffer, script, sent, fed, polls)
    requires read >= 0 && ChunkSize <= |before| && Answer(pending, polls) == 0
    ensures i < |blocks|
    ensures Sending(blocks, trail, k, polls0, sent0, i + 1, ReadCount(script, ChunkSize),
                    Stored(before, 0, ReadPiece(script, ChunkSize)), ReadRest(script, ChunkSize),
                    sent + Chunk(buffer[..read]), fed + buffer[..read], polls + 1)
  {
    var b := blocks[i];
    assert Rest(trail[i], ChunkSize) == trail[i + 1] && b == buffer[..read];
    if i + 1 < |blocks| {
      var next := blocks[i + 1];
      assert Take(trail[i + 1], ChunkSize) == next;
    }
    SendNext(blocks, i);
    ConcatAssoc(sent0, Frame(blocks[..i]), Chunk(b));
  }

  /** A block sent and a poll that finds a reply: the loop stops after block
      `k`, having done what `FeedOutcome` describes. */
  lemma SendingAbort(script0: seq<seq<byte>>, pending: seq<nat>, polls0: nat, sent0: seq<byte>,
                     blocks: seq<seq<byte>>, trail: seq<seq<seq<byte>>>, k: nat,
                     i: nat, read: int, buffer: seq<byte>, script: seq<seq<byte>>,
                     sent: seq<byte>, fed: seq<byte>, polls: nat)
    requires blocks == Reads(script0, ChunkSize) && trail == Trail(script0, ChunkSize)
    requires k == AbortIndex(pending, polls0, |blocks|)
    requires Feeding(blocks, trail, k, pending, polls0)
    requires Sending(blocks, trail, k, polls0, sent0, i, read, buffer, script, sent, fed, polls)
    requires read >= 0 && Answer(pending, polls) > 0
    ensures var f := FeedOutcome(script0, pending, polls0);
      && f.aborted && Fits(f.blocks) && sent + Chunk(buffer[..read]) == sent0 + Frame(f.blocks)
      && fed + buffer[..read] == Flatten(f.blocks) && script == f.rest && polls + 1 == f.polls
  {
    SendingLast(blocks, trail, k, pending, polls0, sent0, i, read, buffer, script, sent, fed, polls);
    FeedDone(script0, pending, polls0, sent0, blocks, trail, k, i + 1, true,
             script, sent + Chunk(buffer[..read]), fed + buffer[..read], polls + 1);
  }

  /** The block sent before a poll that finds a reply is block `k`. */
  lemma SendingLast(blocks: seq<seq<byte>>, trail: seq<seq<seq<byte>>>, k: nat, pending: seq<nat>, polls0: nat,
                    sent0: seq<byte>, i: nat, read: int, buffer: seq<byte>, script: seq<seq<byte>>,
                    sent: seq<byte>, fed: seq<byte>, polls: nat)
    requires Feeding(blocks, trail, k, pending, polls0)
    requires Sending(blocks, trail, k, polls0, sent0, i, read, buffer, script, sent, fed, polls)
    requires read >= 0 && Answer(pending, polls) > 0
    ensures i == k < |blocks|
    ensures Fits(blocks[..k + 1]) && sent + Chunk(buffer[..read]) == sent0 + Frame(blocks[..k + 1])
    ensures fed + buffer[..read] == Flatten(blocks[..k + 1])
    ensures script == trail[k + 1] && polls + 1 == polls0 + k + 1
  {
    assert !Quiet(pending, polls);
    var b := blocks[i];
    assert Rest(trail[i], ChunkSize) == trail[i + 1] && b == buffer[..read];
    SendNext(blocks, i);
    ConcatAssoc(sent0, Frame(blocks[..i]), Chunk(b));
  }

  /** The source exhausted: the loop has sent every block, as `FeedOutcome`
      describes. */
  lemma SendingEnd(script0: seq<seq<byte>>, pending: seq<nat>, polls0: nat, sent0: seq<byte>,
                   blocks: seq<seq<byte>>, trail: seq<seq<seq<byte>>>, k: nat,
                   i: nat, read: int, buffer: seq<byte>, script: seq<seq<byte>>,
                   sent: seq<byte>, fed: seq<byte>, polls: nat)
    requires blocks == Reads(script0, ChunkSize) && trail == Trail(script0, ChunkSize)
    requires k == AbortIndex(pending, polls0, |blocks|)
    requires Feeding(blocks, trail, k, pending, polls0)
    requires Sending(blocks, trail, k, polls0, sent0, i, read, buffer, script, sent, fed, polls)
    requires read < 0
    ensures var f := FeedOutcome(script0, pending, polls0);
      && !f.aborted && Fits(f.blocks) && sent == sent0 + Frame(f.blocks)
      && fed == Flatten(f.blocks) && script == f.rest && polls == f.polls
  {
    FeedDone(script0, pending, polls0, sent0, blocks, trail, k, i, false, script, sent, fed, polls);
  }

  /** The loop stopped after sending the first `n` blocks, on an early reply
      or at the end of the source: it did what `FeedOutcome` describes. */
  lemma FeedDone(script0: seq<seq<byte>>, pending: seq<nat>, polls0: nat, sent0: seq<byte>,
                 blocks: seq<seq<byte>>, trail: seq<seq<seq<byte>>>, k: nat, n: nat, aborted: bool,
                 script: seq<seq<byte>>, sent: seq<byte>, fed: seq<byte>, polls: nat)
    requires blocks == Reads(script0, ChunkSize) && trail == Trail(script0, ChunkSize)
    requires k == AbortIndex(pending, polls0, |blocks|)
    requires n == (if aborted then k + 1 else k) <= |blocks| && (aborted || k == |blocks|)
    requires |trail| == |blocks| + 1 && script == trail[n]
    requires Fits(blocks[..n]) && sent == sent0 + Frame(blocks[..n]) && fed == Flatten(blocks[..n])
    requires polls == polls0 + n
    ensures var f := FeedOutcome(script0, pending, polls0);
      && Fits(f.blocks) && sent == sent0 + Frame(f.blocks) && fed == Flatten(f.blocks)
      && aborted == f.aborted && script == f.rest && polls == f.polls
  {
    var f := FeedOutcome(script0, pending, polls0);
    FeedOutcomeAt(script0, pending, polls0);
    if aborted {
      assert k < |blocks| && f.blocks == blocks[..n] && f.rest == trail[n];
    } else {
      TrailShape(script0, ChunkSize);
      assert blocks[..n] == blocks == f.blocks && f.rest == [] == trail[n];
    }
  }

  /** Sends one chunk: the 4-byte length, then the first `len` bytes of `buf`. */
  method SendChunk(out: OutStream, buf: array<byte>, len: nat)
    requires len <= buf.Length && len < Two32
    modifies out`sent
    ensures out.sent == old(out.sent) + Chunk(buf[..len])
  {
    out.Write(Be32(len));
    out.WriteRange(buf, 0, len);
    assert buf[0..len] == buf[..len];
  }

  /** The chunk loop of `scan`: reads the source into `chunk`, sends each
      block as a length-prefixed chunk and adds it to the digest input `fed`,
      and polls the daemon after each block, stopping at the end of the source
      or as soon as the daemon has a reply. */
  method SendChunks(src: InStream, inb: InStream, out: OutStream, chunk: array<byte>)
    returns (fed: seq<byte>, aborted: bool)
    requires src != inb && chunk.Length == ChunkSize
    modifies src`script, inb`polls, out`sent, chunk
    ensures var f := FeedOutcome(old(src.script), inb.pending, old(inb.polls));
      && Fits(f.blocks)
      && out.sent == old(out.sent) + Frame(f.blocks)
      && fed == Flatten(f.blocks)
      && aborted == f.aborted
      && src.script == f.rest
      && inb.polls == f.polls
  {
    ghost var script0, polls0, sent0 := src.script, inb.polls, out.sent;
    ghost var blocks, trail := Reads(script0, ChunkSize), Trail(script0, ChunkSize);
    ghost var pending := inb.pending;
    ghost var k := AbortIndex(pending, polls0, |blocks|);
    FeedingHolds(script0, pending, polls0);
    ghost var i: nat := 0;
    SendingStart(blocks, trail, k, pending, polls0, sent0, chunk[..]);
    fed := [];
    var read := src.Read(chunk, 0, chunk.Length);
    while read >= 0
      invariant Sending(blocks, trail, k, polls0, sent0, i, read, chunk[..], src.script, out.sent, fed, inb.polls)
      decreases |blocks| - i
    {
      ghost var buffer, script, sent, polls := chunk[..], src.script, out.sent, inb.polls;
      var piece := chunk[..read];
      var available, next := SendBlock(src, inb, out, chunk, read);
      if available > 0 {
        // a reply before the scan was terminated
        SendingAbort(script0, pending, polls0, sent0, blocks, trail, k, i, read, buffer, script, sent, fed, polls);
        fed := fed + piece;
        aborted := true;
        return;
      }
      SendingNext(blocks, trail, k, pending, polls0, sent0, i, read, buffer, script, sent, fed, polls, buffer);
      fed := fed + piece;
      i := i + 1;
      read := next;
    }
    SendingEnd(script0, pending, polls0, sent0, blocks, trail, k, i, read, chunk[..], src.script, out.sent, fed, inb.polls);
    aborted := false;
  }

  /** One round of the chunk loop: send the block in `chunk[..read]`, poll the
      daemon, and unless it has a reply, read the next block into `chunk`. */
  method SendBlock(src: InStream, inb: InStream, out: OutStream, chunk: array<byte>, read: nat)
    returns (available: nat, next: int)
    requires src != inb && read <= chunk.Length == ChunkSize
    modifies src`script, inb`polls, out`sent, chunk
    ensures out.sent == old(out.sent) + Chunk(old(chunk[..read]))
    ensures available == Answer(inb.pending, old(inb.polls)) && inb.polls == old(inb.polls) + 1
    ensures available > 0 ==> src.script == old(src.script)
    ensures available == 0 ==>
      && next == ReadCount(old(src.script), ChunkSize) && src.script == ReadRest(old(src.script), ChunkSize)
      && chunk[..] == Stored(old(chunk[..]), 0, ReadPiece(old(src.script), ChunkSize))
  {
    SendChunk(out, chunk, read);
    available := inb.Available();
    next := -1;
    if available == 0 {
      next := src.Read(chunk, 0, chunk.Length);
    }
  }

  /** The early-reply branch of `scan`: read the reply the daemon sent before
      the terminator, check it for the size-limit message, and fail with it. */
  method AbortedReply(inb: InStream) returns (r: Result<seq<byte>>)
    modifies inb
    ensures var d := Drain(old(inb.script), inb.pending, old(inb.polls));
      && inb.script == d.script && inb.polls == d.polls && r == AbortOutcome(d.reply)
      && (HasBytes(old(inb.script)) && TruthfulPolls(old(inb.script), inb.pending, old(inb.polls)) ==>
            && d.reply.Ok? && |d.reply.value| > 0
            && (r.error.SizeLimitExceeded? || r.error == IOError("Scan aborted. Reply from server: " + AsciiText(d.reply.value))))
  {
    if HasBytes(inb.script) && TruthfulPolls(inb.script, inb.pending, inb.polls) {
      AbortReportsReply(inb.script, inb.pending, inb.polls);
    }
    var drained := ReadAll(inb);
    r := AbortOutcome(drained);
  }

  /** `scan(is, fileScanResponseDto)`. */
  method Scan(src: InStream, conn: Connection, response: ScanResponse, md5: seq<byte> -> seq<byte>)
    returns (r: Result<seq<byte>>)
    requires src != conn.inbound
    requires forall data :: |md5(data)| == 16
    modifies src`script, conn`closed, conn.inbound, conn.outbound`sent, response`hash
    ensures conn.closed
    ensures
      var f := FeedOutcome(old(src.script), conn.inbound.pending, old(conn.inbound.polls));
      var d := Drain(old(conn.inbound.script), conn.inbound.pending, f.polls);
      var hex := Hex(md5(Flatten(f.blocks)));
      && Fits(f.blocks)
      && conn.outbound.sent ==
           old(conn.outbound.sent) + InstreamCommand + Frame(f.blocks) + (if f.aborted then [] else Terminator)
      && src.script == f.rest
      && response.hash == (if !f.aborted && |hex| > 0 then Some(hex) else old(response.hash))
      && (!f.aborted ==> |hex| == 32 && response.hash == Some(hex))
      && conn.inbound.script == d.script && conn.inbound.polls == d.polls
      && r == (if f.aborted then AbortOutcome(d.reply) else SizeChecked(d.reply))
      && (f.aborted && HasBytes(old(conn.inbound.script)) &&
          TruthfulPolls(old(conn.inbound.script), conn.inbound.pending, f.polls) ==>
            && d.reply.Ok? && |d.reply.value| > 0
            && (r.error.SizeLimitExceeded? || r.error == IOError("Scan aborted. Reply from server: " + AsciiText(d.reply.value))))
  {
    conn.outbound.Write(InstreamCommand);
    var chunk := new byte[ChunkSize](_ => 0);
    var fed, aborted := SendChunks(src, conn.inbound, conn.outbound, chunk);
    if aborted {
      r := AbortedReply(conn.inbound);
      conn.Close();
      return;
    }
    conn.outbound.Write(Terminator);
    var digest := md5(fed);
    var hex := HexString(digest);
    if |hex| > 0 {
      response.SetHash(hex);
    }
    var drained := ReadAll(conn.inbound);
    r := SizeChecked(drained);
    conn.Close();
  }

  /** The INSTREAM body round trip: the chunks `scan` sends parse back into
      the blocks it read, each at most 2048 bytes, carrying exactly the
      source's bytes in order; and when the source never makes an empty
      delivery the daemon, reading up to the first zero-length chunk, receives
      all of them and nothing after the terminator. */
  lemma InstreamRoundTrip(script: seq<seq<byte>>)
    ensures var blocks := Reads(script, ChunkSize);
      && Fits(blocks)
      && ParseFrames(Frame(blocks)) == Some(blocks)
      && Flatten(blocks) == Flatten(script)
      && (forall i :: 0 <= i < |blocks| ==> |blocks[i]| <= ChunkSize)
      && (NoEmptyDelivery(script) ==> ParseInstream(Frame(blocks) + Terminator) == Some((Flatten(script), [])))
  {
    var blocks := Reads(script, ChunkSize);
    FrameRoundTrip(blocks);
    if NoEmptyDelivery(script) {
      ReadsNonEmpty(script, ChunkSize);
      InstreamComplete(blocks);
    }
  }

  /** A read of zero bytes from the source emits a zero-length chunk, which
      the daemon takes for the terminator: it then receives only the bytes
      read before it and is left with the rest of the body unread. */
  lemma ZeroReadEndsStreamEarly(script: seq<seq<byte>>)
    requires !NoEmptyDelivery(script)
    ensures var blocks := Reads(script, ChunkSize);
      var parsed := ParseInstream(Frame(blocks) + Terminator);
      && parsed.Some?
      && parsed.value.1 != []
      && |parsed.value.0| <= |Flatten(script)|
      && parsed.value.0 == Flatten(script)[..|parsed.value.0|]
  {
    var blocks := Reads(script, ChunkSize);
    ReadsNonEmpty(script, ChunkSize);
    var k := FirstEmpty(blocks);
    InstreamStopsAtEmptyBlock(blocks, k);
    SplitAt(blocks, k);
    FlattenAppend(blocks[..k], blocks[k..]);
  }

  /** The index of the first empty block. */
  function FirstEmpty(blocks: seq<seq<byte>>): (k: nat)
    requires !NoEmptyDelivery(blocks)
    ensures k < |blocks| && |blocks[k]| == 0
    ensures forall i :: 0 <= i < k ==> |blocks[i]| > 0
  {
    if |blocks[0]| == 0 then 0 else 1 + FirstEmpty(blocks[1..])
  }
}
