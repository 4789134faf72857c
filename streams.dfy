/** The byte streams the client talks to, as scripted oracles.

    A `java.io.InputStream` is modelled by the deliveries it will make: a
    sequence of byte blocks. A read asking for `len > 0` bytes takes as many as
    it can from the next delivery (at most `len`), an empty delivery makes a
    read return 0, and once the deliveries are exhausted every read returns -1
    (end of stream). A read asking for 0 bytes returns 0 and takes nothing. The
    socket's `available()` answers are an oracle indexed by how many times it
    has been asked: a finite list of answers, followed by zeros. */
module Streams {
  import opened Bytes

  function Min(a: int, b: int): int
  {
    if a < b then a else b
  }

  /** The bytes one read of at most `len` bytes takes from the next delivery. */
  function Take(script: seq<seq<byte>>, len: nat): (piece: seq<byte>)
    requires script != []
    ensures |piece| == Min(len, |script[0]|)
  {
    script[0][..Min(len, |script[0]|)]
  }

  /** The deliveries left after that read. */
  function Rest(script: seq<seq<byte>>, len: nat): seq<seq<byte>>
    requires script != []
  {
    if len < |script[0]| then [script[0][len..]] + script[1..] else script[1..]
  }

  /** A read loses no byte and invents none: the piece taken followed by what
      is left is what was pending. */
  lemma TakeRest(script: seq<seq<byte>>, len: nat)
    requires script != []
    ensures Flatten(script) == Take(script, len) + Flatten(Rest(script, len))
  {
    var head := script[0];
    if len < |head| {
      var r := [head[len..]] + script[1..];
      assert r[0] == head[len..] && r[1..] == script[1..];
      assert head == head[..len] + head[len..];
    }
  }

  /** A termination measure: pending bytes plus pending deliveries. */
  function Measure(script: seq<seq<byte>>): nat
  {
    |Flatten(script)| + |script|
  }

  lemma RestShrinks(script: seq<seq<byte>>, len: nat)
    requires script != [] && len > 0
    ensures Measure(Rest(script, len)) < Measure(script)
  {
    TakeRest(script, len);
  }

  /** The blocks successive reads of at most `len` bytes deliver, up to the
      first read that reports end of stream. */
  function Reads(script: seq<seq<byte>>, len: nat): (blocks: seq<seq<byte>>)
    requires len > 0
    ensures Flatten(blocks) == Flatten(script)
    ensures forall i :: 0 <= i < |blocks| ==> |blocks[i]| <= len
    decreases Measure(script)
  {
    if script == [] then []
    else
      RestShrinks(script, len);
      TakeRest(script, len);
      [Take(script, len)] + Reads(Rest(script, len), len)
  }

  /** The deliveries pending before each of those reads, and after the last
      one: `Trail(script, len)[j]` is what is left once `j` reads are done. */
  function Trail(script: seq<seq<byte>>, len: nat): seq<seq<seq<byte>>>
    requires len > 0
    decreases Measure(script)
  {
    if script == [] then [[]]
    else
      RestShrinks(script, len);
      [script] + Trail(Rest(script, len), len)
  }

  /** One state per read and one after the last, from the whole stream down
      to nothing. */
  lemma {:induction false} TrailShape(script: seq<seq<byte>>, len: nat)
    requires len > 0
    ensures var blocks, trail := Reads(script, len), Trail(script, len);
      |trail| == |blocks| + 1 && trail[0] == script && trail[|blocks|] == []
    decreases Measure(script)
  {
    if script != [] {
      RestShrinks(script, len);
      TrailShape(Rest(script, len), len);
    }
  }

  /** `trail` lists the states successive reads of at most `len` bytes go
      through while they deliver `blocks`: each read takes its block from one
      state and leaves the next, and the last state is exhausted. */
  ghost predicate IsTrail(blocks: seq<seq<byte>>, trail: seq<seq<seq<byte>>>, len: nat)
  {
    && |trail| == |blocks| + 1 && trail[|blocks|] == []
    && forall j {:trigger blocks[j]} :: 0 <= j < |blocks| ==>
         trail[j] != [] && Take(trail[j], len) == blocks[j] && Rest(trail[j], len) == trail[j + 1]
  }

  lemma {:induction false} TrailIsTrail(script: seq<seq<byte>>, len: nat)
    requires len > 0
    ensures IsTrail(Reads(script, len), Trail(script, len), len) && Trail(script, len)[0] == script
    decreases Measure(script)
  {
    if script != [] {
      var blocks, trail := Reads(script, len), Trail(script, len);
      var rest := Rest(script, len);
      RestShrinks(script, len);
      TrailIsTrail(rest, len);
      var blocks', trail' := Reads(rest, len), Trail(rest, len);
      assert blocks == [Take(script, len)] + blocks';
      assert trail == [script] + trail';
      forall j | 0 <= j < |blocks|
        ensures trail[j] != [] && Take(trail[j], len) == blocks[j] && Rest(trail[j], len) == trail[j + 1]
      {
        if j > 0 {
          assert blocks[j] == blocks'[j - 1];
        }
      }
    }
  }

  /** The reads made from the `j`-th state are the remaining reads of the
      whole stream. */
  lemma {:induction false} TrailReads(script: seq<seq<byte>>, len: nat, j: nat)
    requires len > 0 && j <= |Reads(script, len)|
    ensures j < |Trail(script, len)| && Reads(Trail(script, len)[j], len) == Reads(script, len)[j..]
    decreases j
  {
    TrailShape(script, len);
    if j > 0 {
      var rest := Rest(script, len);
      RestShrinks(script, len);
      assert script != [];
      assert Reads(script, len) == [Take(script, len)] + Reads(rest, len);
      assert Trail(script, len) == [script] + Trail(rest, len);
      TrailReads(rest, len, j - 1);
    }
  }

  /** The stream never makes an empty delivery. */
  predicate NoEmptyDelivery(blocks: seq<seq<byte>>)
  {
    forall i :: 0 <= i < |blocks| ==> |blocks[i]| > 0
  }

  /** A read leaves no empty delivery behind on a stream that had none. */
  lemma RestNonEmpty(script: seq<seq<byte>>, len: nat)
    requires script != [] && NoEmptyDelivery(script)
    ensures NoEmptyDelivery(Rest(script, len))
  {
    var rest := Rest(script, len);
    if len < |script[0]| {
      assert rest[0] == script[0][len..] && rest[1..] == script[1..];
    } else {
      assert rest == script[1..];
    }
  }

  /** A read that takes bytes leaves every later empty delivery in place. */
  lemma RestKeepsEmpty(script: seq<seq<byte>>, len: nat)
    requires script != [] && |script[0]| > 0 && !NoEmptyDelivery(script)
    ensures !NoEmptyDelivery(Rest(script, len))
  {
    var rest := Rest(script, len);
    var i :| 0 <= i < |script| && |script[i]| == 0;
    if len < |script[0]| {
      assert rest[i] == script[i];
    } else {
      assert rest[i - 1] == script[i];
    }
  }

  /** A read returns 0 bytes exactly when the stream made an empty delivery. */
  lemma {:induction false} ReadsNonEmpty(script: seq<seq<byte>>, len: nat)
    requires len > 0
    ensures NoEmptyDelivery(script) <==> NoEmptyDelivery(Reads(script, len))
    decreases Measure(script)
  {
    if script != [] {
      var blocks := Reads(script, len);
      var rest := Rest(script, len);
      RestShrinks(script, len);
      ReadsNonEmpty(rest, len);
      assert blocks[0] == Take(script, len) && blocks[1..] == Reads(rest, len);
      if NoEmptyDelivery(script) {
        RestNonEmpty(script, len);
      } else if |script[0]| > 0 {
        RestKeepsEmpty(script, len);
      }
    }
  }

  /** What a read asking for `len` bytes returns: 0 when it asks for none,
      -1 at end of stream, otherwise how many bytes it took. */
  function ReadCount(script: seq<seq<byte>>, len: nat): (n: int)
    ensures n == -1 <==> len > 0 && script == []
    ensures n >= 0 ==> n <= len
  {
    if len == 0 then 0 else if script == [] then -1 else |Take(script, len)|
  }

  /** The bytes a read asking for `len` bytes takes. */
  function ReadPiece(script: seq<seq<byte>>, len: nat): (piece: seq<byte>)
    ensures |piece| <= len
    ensures ReadCount(script, len) >= 0 ==> |piece| == ReadCount(script, len)
  {
    if len == 0 || script == [] then [] else Take(script, len)
  }

  /** The deliveries left after a read asking for `len` bytes. */
  function ReadRest(script: seq<seq<byte>>, len: nat): (rest: seq<seq<byte>>)
    ensures Flatten(script) == ReadPiece(script, len) + Flatten(rest)
  {
    if len == 0 || script == [] then script
    else
      TakeRest(script, len);
      Rest(script, len)
  }

  /** `buffer` after `piece` has been stored at `off`: the piece there, every
      other element as it was. */
  function Stored(buffer: seq<byte>, off: nat, piece: seq<byte>): (after: seq<byte>)
    requires off + |piece| <= |buffer|
    ensures |after| == |buffer|
    ensures after[off..off + |piece|] == piece
    ensures after[..off] == buffer[..off]
    ensures after[off + |piece|..] == buffer[off + |piece|..]
    ensures forall j :: 0 <= j < |buffer| && !(off <= j < off + |piece|) ==> after[j] == buffer[j]
  {
    buffer[..off] + piece + buffer[off + |piece|..]
  }

  /** The answer `available()` gives at poll `n`: the oracle's `n`-th entry,
      and 0 once the entries run out. */
  function Answer(oracle: seq<nat>, n: nat): nat
  {
    if n < |oracle| then oracle[n] else 0
  }

  /** The reading side of a stream: the caller's content source, or the
      socket's inbound side. */
  class InStream {
    var script: seq<seq<byte>>
    const pending: seq<nat>
    var polls: nat

    constructor (script: seq<seq<byte>>, pending: seq<nat>)
      ensures this.script == script && this.pending == pending && polls == 0
    {
      this.script := script;
      this.pending := pending;
      polls := 0;
    }

    /** `read(buf, off, len)`: the number of bytes stored at `buf[off..]`, or -1
        at end of stream. */
    method Read(buf: array<byte>, off: nat, len: nat) returns (n: int)
      requires off + len <= buf.Length
      modifies this`script, buf
      ensures n == ReadCount(old(script), len)
      ensures script == ReadRest(old(script), len)
      ensures buf[..] == Stored(old(buf[..]), off, ReadPiece(old(script), len))
    {
      if len == 0 {
        n := 0;
      } else if script == [] {
        n := -1;
      } else {
        var piece := Take(script, len);
        n := |piece|;
        forall i | 0 <= i < n {
          buf[off + i] := piece[i];
        }
        script := Rest(script, len);
      }
    }

    /** `available()`: the oracle's answer to this poll. */
    method Available() returns (count: nat)
      modifies this`polls
      ensures count == Answer(pending, old(polls)) && polls == old(polls) + 1
    {
      count := Answer(pending, polls);
      polls := polls + 1;
    }
  }

  /** The writing side of the socket: everything written to it, in order. */
  class OutStream {
    var sent: seq<byte>

    constructor ()
      ensures sent == []
    {
      sent := [];
    }

    /** `write(bytes)`. */
    method Write(data: seq<byte>)
      modifies this`sent
      ensures sent == old(sent) + data
    {
      sent := sent + data;
    }

    /** `write(buf, off, len)`. */
    method WriteRange(buf: array<byte>, off: nat, len: nat)
      requires off + len <= buf.Length
      modifies this`sent
      ensures sent == old(sent) + buf[off..off + len]
    {
      sent := sent + buf[off..off + len];
    }
  }

  /** One TCP connection to the daemon: its two directions and whether it has
      been released. */
  class Connection {
    const inbound: InStream
    const outbound: OutStream
    var closed: bool

    constructor (reply: seq<seq<byte>>, pending: seq<nat>)
      ensures fresh(inbound) && fresh(outbound) && !closed
      ensures inbound.script == reply && inbound.pending == pending && inbound.polls == 0
      ensures outbound.sent == []
    {
      inbound := new InStream(reply, pending);
      outbound := new OutStream();
      closed := false;
    }

    /** Closes the input stream, the output stream and the socket. */
    method Close()
      modifies this`closed
      ensures closed
    {
      closed := true;
    }
  }
}
