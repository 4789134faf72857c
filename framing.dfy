/** The INSTREAM wire format: after the `zINSTREAM\0` command, chunks of the
    form <4-byte unsigned length in network byte order><that many bytes>, ended
    by a zero-length chunk. */
module Framing {
  import opened Bytes

  /** The size of the buffer each read from the caller's stream fills. */
  const ChunkSize: nat := 2048

  const InstreamCommand: seq<byte> := AsciiBytes("zINSTREAM\0")

  /** The zero-length chunk that ends the stream. */
  const Terminator: seq<byte> := [0, 0, 0, 0]

  const Two32: nat := 0x1_0000_0000

  /** `ByteBuffer.allocate(4).putInt(n).array()` for a non-negative `n`: the
      four bytes of `n`, most significant first. */
  function Be32(n: nat): (b: seq<byte>)
    requires n < Two32
    ensures |b| == 4 && Be32Value(b) == n
  {
    var m1 := n / 256;
    var m2 := m1 / 256;
    assert m2 < 65536;
    [m2 / 256, m2 % 256, m1 % 256, n % 256]
  }

  /** The unsigned number four bytes denote, most significant first. */
  function Be32Value(b: seq<byte>): (n: nat)
    requires |b| == 4
    ensures n < Two32
  {
    ((b[0] as int * 256 + b[1]) * 256 + b[2]) * 256 + b[3]
  }

  /** Every four bytes are the encoding of the number they denote. */
  lemma Be32Inverse(b: seq<byte>)
    requires |b| == 4
    ensures Be32(Be32Value(b)) == b
  {
    var n := Be32Value(b);
    var m2 := b[0] as int * 256 + b[1];
    var m1 := m2 * 256 + b[2];
    assert n / 256 == m1 && n % 256 == b[3];
    assert m1 / 256 == m2 && m1 % 256 == b[2];
    assert m2 / 256 == b[0] && m2 % 256 == b[1];
  }

  /** Every block fits a 32-bit length prefix. */
  predicate Fits(blocks: seq<seq<byte>>)
  {
    forall i :: 0 <= i < |blocks| ==> |blocks[i]| < Two32
  }

  /** One chunk: the length prefix, then the payload. */
  function Chunk(data: seq<byte>): (c: seq<byte>)
    requires |data| < Two32
    ensures |c| == 4 + |data| && Be32Value(c[..4]) == |data| && c[4..] == data
  {
    Be32(|data|) + data
  }

  /** The chunks for a sequence of blocks, in order, without terminator. */
  function Frame(blocks: seq<seq<byte>>): (wire: seq<byte>)
    requires Fits(blocks)
    ensures |wire| == 4 * |blocks| + |Flatten(blocks)|
  {
    if blocks == [] then [] else Chunk(blocks[0]) + Frame(blocks[1..])
  }

  lemma {:induction false} FrameAppend(a: seq<seq<byte>>, b: seq<seq<byte>>)
    requires Fits(a) && Fits(b)
    ensures Fits(a + b) && Frame(a + b) == Frame(a) + Frame(b)
  {
    if a != [] {
      assert (a + b)[1..] == a[1..] + b;
      FrameAppend(a[1..], b);
    } else {
      assert a + b == b;
    }
  }

  /** The zero-length chunk is the terminator. */
  lemma EmptyChunkIsTerminator()
    ensures Chunk([]) == Terminator
  {
    var b := Be32(0);
    assert Be32Value(b) == 0;
  }

  /** Reads a byte string as a sequence of length-prefixed chunks, with no
      special meaning for a zero length; None if it is not exactly that. */
  function ParseFrames(wire: seq<byte>): Option<seq<seq<byte>>>
    decreases |wire|
  {
    if wire == [] then Some([])
    else if |wire| < 4 then None
    else
      var n := Be32Value(wire[..4]);
      if |wire| - 4 < n then None
      else match ParseFrames(wire[4 + n..])
        case None => None
        case Some(rest) => Some([wire[4..4 + n]] + rest)
  }

  /** Framing round trip: the chunks parse back into the blocks they were
      made of, so stripping the prefixes gives back the payload bytes. */
  lemma {:induction false} FrameRoundTrip(blocks: seq<seq<byte>>)
    requires Fits(blocks)
    ensures ParseFrames(Frame(blocks)) == Some(blocks)
  {
    if blocks != [] {
      var wire := Frame(blocks);
      var head := blocks[0];
      var chunk, rest := Chunk(head), Frame(blocks[1..]);
      assert wire == chunk + rest;
      assert wire[..4] == chunk[..4];
      assert wire[4..4 + |head|] == chunk[4..] == head;
      assert wire[4 + |head|..] == rest;
      FrameRoundTrip(blocks[1..]);
      assert [head] + blocks[1..] == blocks;
    }
  }

  /** How the daemon consumes an INSTREAM body: payload bytes from chunk after
      chunk until the first zero-length chunk, paired with whatever follows
      that chunk; None if the input ends first. */
  function ParseInstream(wire: seq<byte>): Option<(seq<byte>, seq<byte>)>
    decreases |wire|
  {
    if |wire| < 4 then None
    else
      var n := Be32Value(wire[..4]);
      if n == 0 then Some(([], wire[4..]))
      else if |wire| - 4 < n then None
      else match ParseInstream(wire[4 + n..])
        case None => None
        case Some((payload, rest)) => Some((wire[4..4 + n] + payload, rest))
  }

  /** Chunks with non-empty payloads, then the terminator: the daemon receives
      exactly the concatenated payloads and stops right after the terminator. */
  lemma {:induction false} InstreamDelivers(blocks: seq<seq<byte>>, tail: seq<byte>)
    requires Fits(blocks)
    requires forall i :: 0 <= i < |blocks| ==> |blocks[i]| > 0
    ensures ParseInstream(Frame(blocks) + Terminator + tail) == Some((Flatten(blocks), tail))
  {
    var wire := Frame(blocks) + Terminator + tail;
    if blocks == [] {
      assert wire[..4] == Be32(0) by { EmptyChunkIsTerminator(); }
      assert wire[4..] == tail;
    } else {
      var head := blocks[0];
      assert wire == Be32(|head|) + head + (Frame(blocks[1..]) + Terminator + tail);
      assert wire[..4] == Be32(|head|);
      assert wire[4..4 + |head|] == head;
      assert wire[4 + |head|..] == Frame(blocks[1..]) + Terminator + tail;
      InstreamDelivers(blocks[1..], tail);
    }
  }

  /** The INSTREAM body the client sends for `blocks`, as the daemon sees it
      when block `k` is the first empty one: it takes that block for the
      terminator, receives only the bytes before it, and is left with the
      remaining chunks and the real terminator as unread input. */
  lemma InstreamStopsAtEmptyBlock(blocks: seq<seq<byte>>, k: nat)
    requires Fits(blocks)
    requires k < |blocks| && |blocks[k]| == 0
    requires forall i :: 0 <= i < k ==> |blocks[i]| > 0
    ensures ParseInstream(Frame(blocks) + Terminator) == Some((Flatten(blocks[..k]), Frame(blocks[k + 1..]) + Terminator))
  {
    var before, after := blocks[..k], blocks[k + 1..];
    assert blocks == before + ([blocks[k]] + after);
    FrameAppend([blocks[k]], after);
    FrameAppend(before, [blocks[k]] + after);
    assert blocks[k] == [];
    assert Frame([blocks[k]]) == Chunk([]) + Frame([]);
    EmptyChunkIsTerminator();
    InstreamDelivers(before, Frame(after) + Terminator);
    var fb, fa := Frame(before), Frame(after);
    ConcatAssoc(fb, Terminator + fa, Terminator);
    ConcatAssoc(Terminator, fa, Terminator);
    ConcatAssoc(fb, Terminator, fa + Terminator);
  }

  /** With no empty block the daemon receives every payload byte, in order. */
  lemma InstreamComplete(blocks: seq<seq<byte>>)
    requires Fits(blocks)
    requires forall i :: 0 <= i < |blocks| ==> |blocks[i]| > 0
    ensures ParseInstream(Frame(blocks) + Terminator) == Some((Flatten(blocks), []))
  {
    InstreamDelivers(blocks, []);
    assert Frame(blocks) + Terminator + [] == Frame(blocks) + Terminator;
  }
}
