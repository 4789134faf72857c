/** Rendering of the content digest as lowercase hexadecimal text. */
module DigestHex {
  import opened Bytes

  /** The lowercase hexadecimal digit for a value below 16. */
  function HexDigit(d: nat): (c: char)
    requires d < 16
    ensures '0' <= c <= '9' || 'a' <= c <= 'f'
  {
    if d < 10 then ('0' as int + d) as char else ('a' as int + d - 10) as char
  }

  /** The value of a lowercase hexadecimal digit; None for any other character. */
  function HexValue(c: char): Option<nat>
  {
    if '0' <= c <= '9' then Some(c as int - '0' as int)
    else if 'a' <= c <= 'f' then Some(c as int - 'a' as int + 10)
    else None
  }

  lemma DigitRoundTrip(d: nat)
    requires d < 16
    ensures HexValue(HexDigit(d)) == Some(d)
  {
  }

  /** `Integer.toString(n, 16)` for a non-negative `n`: its base-16 digits,
      most significant first, without leading zeros. */
  function Radix16(n: nat): (s: string)
    ensures 1 <= |s|
    decreases n
  {
    if n < 16 then [HexDigit(n)] else Radix16(n / 16) + [HexDigit(n % 16)]
  }

  /** The two digits of one byte, high nibble first, zero-padded. */
  function ByteHex(b: byte): string
  {
    [HexDigit(b / 16), HexDigit(b % 16)]
  }

  /** `Integer.toString((b & 0xff) + 0x100, 16).substring(1)`: adding 0x100
      forces a third digit, so dropping it leaves the zero-padded pair. */
  lemma PaddedRadix(b: byte)
    ensures |Radix16(b as int + 0x100)| == 3 && Radix16(b as int + 0x100)[1..] == ByteHex(b)
  {
    var n := b as int + 0x100;
    assert n / 16 == b / 16 + 16 && n % 16 == b % 16;
    assert (n / 16) / 16 == 1 && (n / 16) % 16 == b / 16;
    assert Radix16(n / 16) == Radix16(1) + [HexDigit(b / 16)];
  }

  /** The digest as text: each byte as its two digits, in order. */
  function Hex(digest: seq<byte>): (s: string)
    ensures |s| == 2 * |digest|
  {
    if digest == [] then "" else ByteHex(digest[0]) + Hex(digest[1..])
  }

  /** Byte `i` of the digest is rendered at positions 2i and 2i+1, high nibble first. */
  lemma {:induction false} HexAt(digest: seq<byte>, i: nat)
    requires i < |digest|
    ensures Hex(digest)[2 * i] == HexDigit(digest[i] / 16)
    ensures Hex(digest)[2 * i + 1] == HexDigit(digest[i] % 16)
  {
    if i > 0 {
      HexAt(digest[1..], i - 1);
    }
  }

  /** Only lowercase hexadecimal digits appear. */
  lemma HexLowercase(digest: seq<byte>)
    ensures forall k :: 0 <= k < |Hex(digest)| ==> HexValue(Hex(digest)[k]).Some?
  {
    forall k | 0 <= k < |Hex(digest)| ensures HexValue(Hex(digest)[k]).Some? {
      HexAt(digest, k / 2);
    }
  }

  lemma {:induction false} HexAppend(a: seq<byte>, b: seq<byte>)
    ensures Hex(a + b) == Hex(a) + Hex(b)
  {
    if a == [] {
      assert a + b == b;
    } else {
      assert (a + b)[1..] == a[1..] + b;
      HexAppend(a[1..], b);
    }
  }

  lemma HexOfOne(b: byte)
    ensures Hex([b]) == ByteHex(b)
  {
    assert [b][1..] == [];
  }

  /** The hash-string loop of `scan`: one zero-padded pair per digest byte. */
  method HexString(digest: seq<byte>) returns (s: string)
    ensures s == Hex(digest)
  {
    s := "";
    for i := 0 to |digest|
      invariant s == Hex(digest[..i])
    {
      var b: byte := digest[i];
      var pair := Radix16(b as int + 0x100)[1..];
      PaddedRadix(b);
      HexOfOne(b);
      HexAppend(digest[..i], [b]);
      assert digest[..i + 1] == digest[..i] + [b];
      s := s + pair;
    }
    assert digest[..|digest|] == digest;
  }

  /** Reads text made of pairs of lowercase hexadecimal digits back into bytes. */
  function ParseHex(s: string): Option<seq<byte>>
    decreases |s|
  {
    if s == [] then Some([])
    else if |s| == 1 then None
    else match (HexValue(s[0]), HexValue(s[1]), ParseHex(s[2..]))
      case (Some(hi), Some(lo), Some(rest)) =>
        if hi < 16 && lo < 16 then Some([hi * 16 + lo] + rest) else None
      case _ => None
  }

  /** The rendering loses nothing: distinct digests give distinct strings. */
  lemma {:induction false} HexRoundTrip(digest: seq<byte>)
    ensures ParseHex(Hex(digest)) == Some(digest)
  {
    if digest != [] {
      var b := digest[0];
      var s := Hex(digest);
      DigitRoundTrip(b / 16);
      DigitRoundTrip(b % 16);
      assert s[2..] == Hex(digest[1..]);
      HexRoundTrip(digest[1..]);
      assert [b] + digest[1..] == digest;
    }
  }

  /** An MD5 digest, 16 bytes, renders as 32 characters, so the hash is never empty. */
  lemma Md5HexLength(digest: seq<byte>)
    requires |digest| == 16
    ensures |Hex(digest)| == 32
  {
  }
}
