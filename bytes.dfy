/** Octets, the US-ASCII conversions Java applies to them, and the outcome type
    shared by the ClamAV client model. */
module Bytes {

  /** An octet. Java's `byte` is signed; the client only ever looks at bytes
      through `b & 0xff` or as raw wire data, so the unsigned view suffices. */
  type byte = x: int | 0 <= x < 256

  datatype Option<+T> = None | Some(value: T)

  /** The exceptions the client lets escape, one constructor per Java exception type. */
  datatype Error =
    | IllegalArgument(message: string)    // IllegalArgumentException from the constructor
    | IOError(message: string)            // IOException raised when a scan is aborted
    | SizeLimitExceeded(message: string)  // ClamAVSizeLimitException
    | IndexOutOfBounds                    // ByteArrayOutputStream.write with length -1

  datatype Result<+T> = Ok(value: T) | Err(error: Error)

  /** The concatenation of a sequence of blocks, in order. */
  function Flatten<T>(blocks: seq<seq<T>>): seq<T>
  {
    if blocks == [] then [] else blocks[0] + Flatten(blocks[1..])
  }

  lemma ConcatAssoc<T>(a: seq<T>, b: seq<T>, c: seq<T>)
    ensures a + b + c == a + (b + c)
  {
  }

  lemma SplitAt<T>(s: seq<T>, k: nat)
    requires k <= |s|
    ensures s[..k] + s[k..] == s
  {
  }

  lemma {:induction false} FlattenAppend<T>(a: seq<seq<T>>, b: seq<seq<T>>)
    ensures Flatten(a + b) == Flatten(a) + Flatten(b)
  {
    if a == [] {
      assert a + b == b;
    } else {
      assert (a + b)[1..] == a[1..] + b;
      FlattenAppend(a[1..], b);
    }
  }

  /** True when every character is in the 7-bit US-ASCII range. */
  predicate IsAscii(s: string)
  {
    forall i :: 0 <= i < |s| ==> s[i] as int < 128
  }

  /** `String.getBytes(StandardCharsets.US_ASCII)`: every character outside
      US-ASCII is replaced by '?' (0x3F). */
  function AsciiBytes(s: string): (bytes: seq<byte>)
    ensures |bytes| == |s|
    ensures forall i :: 0 <= i < |s| ==> bytes[i] < 128
    ensures forall i :: 0 <= i < |s| ==> s[i] as int < 128 ==> bytes[i] == s[i] as int
  {
    seq(|s|, i requires 0 <= i < |s| => if s[i] as int < 128 then s[i] as int else 0x3F)
  }

  /** `new String(bytes, StandardCharsets.US_ASCII)`: every byte of 0x80 or
      above decodes to the replacement character U+FFFD. */
  function AsciiText(bytes: seq<byte>): (s: string)
    ensures |s| == |bytes|
    ensures forall i :: 0 <= i < |bytes| ==> (s[i] as int < 128 <==> bytes[i] < 128)
  {
    seq(|bytes|, i requires 0 <= i < |bytes| => if bytes[i] < 128 then bytes[i] as char else '\U{FFFD}')
  }

  /** Encoding an ASCII string and decoding it again gives the string back. */
  lemma AsciiRoundTrip(s: string)
    requires IsAscii(s)
    ensures AsciiText(AsciiBytes(s)) == s
  {
  }

  /** Decoding ASCII bytes and encoding them again gives the bytes back. */
  lemma AsciiBytesRoundTrip(bytes: seq<byte>)
    requires forall i :: 0 <= i < |bytes| ==> bytes[i] < 128
    ensures AsciiBytes(AsciiText(bytes)) == bytes
  {
  }
}
