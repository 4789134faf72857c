/** Interpretation of the daemon's replies, which are read as US-ASCII text and
    classified by substring and prefix tests only. */
module Replies {
  import opened Bytes

  /** The reply prefix the daemon uses when the stream exceeded StreamMaxLength. */
  const SizeLimitReply: string := "INSTREAM size limit exceeded."

  /** `text.startsWith(prefix)`. */
  predicate StartsWith(text: string, prefix: string)
    ensures StartsWith(text, prefix) <==> OccursAt(text, prefix, 0)
  {
    |prefix| <= |text| && text[..|prefix|] == prefix
  }

  /** `text.contains(pattern)`, by trying every starting position in turn. */
  predicate Contains(text: string, pattern: string)
    ensures Contains(text, pattern) ==> |pattern| <= |text|
    ensures |pattern| == 0 ==> Contains(text, pattern)
    decreases |text|
  {
    StartsWith(text, pattern) || (|text| > 0 && Contains(text[1..], pattern))
  }

  /** `pattern` occurs in `text` starting at position `i`. */
  ghost predicate OccursAt<T>(text: seq<T>, pattern: seq<T>, i: int)
  {
    0 <= i <= |text| - |pattern| && text[i..i + |pattern|] == pattern
  }

  /** `pattern` occurs in `text` at some position. */
  ghost predicate Occurs<T>(text: seq<T>, pattern: seq<T>)
  {
    exists i :: OccursAt(text, pattern, i)
  }

  /** The position-by-position search finds exactly the occurrences. */
  lemma {:induction false} ContainsOccurs(text: string, pattern: string)
    ensures Contains(text, pattern) <==> Occurs(text, pattern)
    decreases |text|
  {
    if StartsWith(text, pattern) {
      assert OccursAt(text, pattern, 0);
    } else if |text| > 0 {
      ContainsOccurs(text[1..], pattern);
      if Occurs(text[1..], pattern) {
        var i :| OccursAt(text[1..], pattern, i);
        assert OccursAt(text, pattern, i + 1);
      }
      if Occurs(text, pattern) {
        var i :| OccursAt(text, pattern, i);
        assert i != 0;
        assert OccursAt(text[1..], pattern, i - 1);
      }
    }
  }

  /** A text in which the first character of a non-empty pattern never appears
      does not contain the pattern. */
  lemma AbsentFirstCharacter(text: string, pattern: string)
    requires |pattern| > 0 && pattern[0] !in text
    ensures !Occurs(text, pattern)
  {
  }

  /** `isCleanReply`: the reply reads as clean when its text contains "OK" and
      does not contain "FOUND"; every byte sequence gets an answer. */
  function IsCleanReply(reply: seq<byte>): (clean: bool)
    ensures clean <==> Occurs(AsciiText(reply), "OK") && !Occurs(AsciiText(reply), "FOUND")
  {
    var text := AsciiText(reply);
    ContainsOccurs(text, "OK");
    ContainsOccurs(text, "FOUND");
    Contains(text, "OK") && !Contains(text, "FOUND")
  }

  /** The daemon's plain verdict on clean content is recognised as clean. */
  lemma CleanVerdict()
    ensures IsCleanReply(AsciiBytes("stream: OK\0"))
  {
    var text := "stream: OK\0";
    AsciiRoundTrip(text);
    assert OccursAt(text, "OK", 8);
    AbsentFirstCharacter(text, "FOUND");
  }

  /** A reply naming a signature is not clean. */
  lemma InfectedVerdict()
    ensures !IsCleanReply(AsciiBytes("stream: Eicar-Test-Signature FOUND\0"))
  {
    var text := "stream: Eicar-Test-Signature FOUND\0";
    AsciiRoundTrip(text);
    assert OccursAt(text, "FOUND", 29);
  }

  /** "FOUND" wins over "OK" when both occur. */
  lemma FoundDominates()
    ensures !IsCleanReply(AsciiBytes("stream: OK FOUND\0"))
  {
    var text := "stream: OK FOUND\0";
    AsciiRoundTrip(text);
    assert OccursAt(text, "FOUND", 11);
  }

  /** Matching an ASCII pattern against the decoded text is matching its bytes
      against the raw reply: bytes of 0x80 and above decode to U+FFFD, which no
      ASCII pattern contains. */
  lemma {:induction false} OccursInText(reply: seq<byte>, pattern: string)
    requires IsAscii(pattern)
    ensures Occurs(AsciiText(reply), pattern) <==> Occurs(reply, AsciiBytes(pattern))
  {
    var text, bytes := AsciiText(reply), AsciiBytes(pattern);
    if Occurs(text, pattern) {
      var i :| OccursAt(text, pattern, i);
      forall j | 0 <= j < |pattern| ensures reply[i + j] == bytes[j] {
        assert text[i + j] == pattern[j];
      }
      assert OccursAt(reply, bytes, i);
    }
    if Occurs(reply, bytes) {
      var i :| OccursAt(reply, bytes, i);
      forall j | 0 <= j < |pattern| ensures text[i + j] == pattern[j] {
        assert reply[i + j] == bytes[j];
      }
      assert OccursAt(text, pattern, i);
    }
  }

  /** `assertSizeLimit`: the reply unchanged, unless its text starts with the
      size-limit message, in which case the size-limit error carrying the
      whole reply text. */
  function AssertSizeLimit(reply: seq<byte>): (r: Result<seq<byte>>)
    ensures r.Err? <==> |reply| >= |SizeLimitReply| && reply[..|SizeLimitReply|] == AsciiBytes(SizeLimitReply)
    ensures r.Ok? ==> r.value == reply
    ensures r.Err? ==> r.error.SizeLimitExceeded? && StartsWith(r.error.message, "Clamd size limit exceeded. ")
    ensures r.Err? ==> exists p :: r.error.message == p + AsciiText(reply)
  {
    var text := AsciiText(reply);
    SizeLimitPrefix(reply);
    if StartsWith(text, SizeLimitReply) then
      var message := "Clamd size limit exceeded. Full reply from server: " + text;
      assert message[..27] == "Clamd size limit exceeded. ";
      Err(SizeLimitExceeded(message))
    else
      Ok(reply)
  }

  /** The text starts with the size-limit message exactly when the bytes start
      with its encoding. */
  lemma SizeLimitPrefix(reply: seq<byte>)
    ensures StartsWith(AsciiText(reply), SizeLimitReply) <==>
      |reply| >= |SizeLimitReply| && reply[..|SizeLimitReply|] == AsciiBytes(SizeLimitReply)
  {
    var text, n := AsciiText(reply), |SizeLimitReply|;
    var bytes := AsciiBytes(SizeLimitReply);
    if n <= |reply| {
      if text[..n] == SizeLimitReply {
        forall j | 0 <= j < n ensures reply[j] == bytes[j] {
          assert text[j] == SizeLimitReply[j];
        }
      }
      if reply[..n] == bytes {
        forall j | 0 <= j < n ensures text[j] == SizeLimitReply[j] {
          assert reply[j] == bytes[j];
        }
      }
    }
  }
}
