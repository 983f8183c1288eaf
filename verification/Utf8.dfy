/**
 * UTF-8 as Buffer.toString() decodes it (the decoder the SSE proxy of demo/server/sse.ts applies to
 * each chunk on its own). Ill-formed input becomes U+FFFD, one per maximal subpart, as in section 3.9
 * of the Unicode Standard.
 */
module Utf8 {

  type Byte = x: int | 0 <= x < 256

  const REPLACEMENT: char := '\U{FFFD}'

  predicate Continuation(b: Byte) {
    0x80 <= b < 0xC0
  }

  /** How many bytes follow this lead byte; none follow ASCII and the bytes that lead nothing. */
  function Followers(lead: Byte): nat {
    if 0xC2 <= lead < 0xE0 then 1
    else if 0xE0 <= lead < 0xF0 then 2
    else if 0xF0 <= lead < 0xF5 then 3
    else 0
  }

  /** The second byte excludes overlong forms, surrogates and values past U+10FFFF. */
  predicate SecondFits(lead: Byte, b: Byte) {
    match lead
    case 0xE0 => 0xA0 <= b < 0xC0
    case 0xED => 0x80 <= b < 0xA0
    case 0xF0 => 0x90 <= b < 0xC0
    case 0xF4 => 0x80 <= b < 0x90
    case _ => Continuation(b)
  }

  /** The length of the well-formed character at the front, or of the longest start of one. */
  function FrontLength(bytes: seq<Byte>): (n: nat)
    requires bytes != []
    ensures 1 <= n <= |bytes| && n <= 1 + Followers(bytes[0])
    ensures forall i :: 1 <= i < n ==> Continuation(bytes[i])
  {
    var need := Followers(bytes[0]);
    if need == 0 || |bytes| < 2 || !SecondFits(bytes[0], bytes[1]) then 1
    else if need == 1 || |bytes| < 3 || !Continuation(bytes[2]) then 2
    else if need == 2 || |bytes| < 4 || !Continuation(bytes[3]) then 3
    else 4
  }

  predicate WellFormed(front: seq<Byte>) {
    && front != []
    && |front| == 1 + Followers(front[0])
    && (|front| == 1 ==> front[0] < 0x80)
    && (|front| > 1 ==> SecondFits(front[0], front[1]))
    && forall i :: 1 <= i < |front| ==> Continuation(front[i])
  }

  function CodePoint(front: seq<Byte>): (n: nat)
    requires WellFormed(front)
    ensures n < 0xD800 || 0xE000 <= n < 0x11_0000
  {
    if |front| == 1 then front[0]
    else if |front| == 2 then Tail(front[0] - 0xC0, front[1])
    else if |front| == 3 then Tail(Tail(front[0] - 0xE0, front[1]), front[2])
    else Tail(Tail(Tail(front[0] - 0xF0, front[1]), front[2]), front[3])
  }

  /** Six more bits from a continuation byte. */
  function Tail(n: int, b: Byte): int {
    64 * n + (b - 0x80)
  }

  function FrontChar(front: seq<Byte>): char {
    if WellFormed(front) then CodePoint(front) as char else REPLACEMENT
  }

  function Decode(bytes: seq<Byte>): string
    decreases |bytes|
  {
    if bytes == [] then ""
    else
      var n := FrontLength(bytes);
      [FrontChar(bytes[..n])] + Decode(bytes[n..])
  }

  function EncodeChar(c: char): seq<Byte> {
    var n := c as int;
    if n < 0x80 then [n]
    else if n < 0x800 then [0xC0 + n / 64, 0x80 + n % 64]
    else if n < 0x1_0000 then [0xE0 + n / 64 / 64, 0x80 + n / 64 % 64, 0x80 + n % 64]
    else [0xF0 + n / 64 / 64 / 64, 0x80 + n / 64 / 64 % 64, 0x80 + n / 64 % 64, 0x80 + n % 64]
  }

  function Encode(text: string): seq<Byte> {
    if text == "" then [] else EncodeChar(text[0]) + Encode(text[1..])
  }

  // ---------------------------------------------------------------------------------------------
  // Decoding inverts encoding
  // ---------------------------------------------------------------------------------------------

  lemma EncodedIsWellFormed(c: char)
    ensures WellFormed(EncodeChar(c)) && CodePoint(EncodeChar(c)) == c as int
  {
    var n := c as int;
    if 0x80 <= n < 0x800 {
      assert 2 <= n / 64 < 32;
    } else if 0x800 <= n < 0x1_0000 {
      Encoded3(n);
    } else if 0x1_0000 <= n {
      Encoded4(n);
    }
  }

  lemma Encoded3(n: nat)
    requires 0x800 <= n < 0xD800 || 0xE000 <= n < 0x1_0000
    ensures var front := [0xE0 + n / 64 / 64, 0x80 + n / 64 % 64, 0x80 + n % 64];
            WellFormed(front) && CodePoint(front) == n
  {
    var a, b := n / 64, n / 64 / 64;
    assert n == 64 * a + n % 64 && a == 64 * b + a % 64 && 0 <= b < 16;
    assert b == 0 ==> a % 64 >= 0x20;
    assert b == 0xD ==> a % 64 < 0x20;
  }

  lemma Encoded4(n: nat)
    requires 0x1_0000 <= n < 0x11_0000
    ensures var front := [0xF0 + n / 64 / 64 / 64, 0x80 + n / 64 / 64 % 64, 0x80 + n / 64 % 64, 0x80 + n % 64];
            WellFormed(front) && CodePoint(front) == n
  {
    var a, b, d := n / 64, n / 64 / 64, n / 64 / 64 / 64;
    assert n == 64 * a + n % 64 && a == 64 * b + a % 64 && b == 64 * d + b % 64 && 0 <= d < 5;
    assert d == 0 ==> b % 64 >= 0x10;
    assert d == 4 ==> b % 64 < 0x10;
  }

  lemma TailSplits(n: nat, b: Byte)
    requires Continuation(b)
    ensures Tail(n, b) / 64 == n && 0x80 + Tail(n, b) % 64 == b
  {
  }

  lemma WellFormedIsEncoded(front: seq<Byte>)
    requires WellFormed(front)
    ensures EncodeChar(CodePoint(front) as char) == front
  {
    if |front| == 2 {
      TailSplits(front[0] - 0xC0, front[1]);
    } else if |front| == 3 {
      var n := Tail(front[0] - 0xE0, front[1]);
      TailSplits(front[0] - 0xE0, front[1]);
      TailSplits(n, front[2]);
      assert Tail(n, front[2]) >= 0x800;
    } else if |front| == 4 {
      var m := Tail(front[0] - 0xF0, front[1]);
      var n := Tail(m, front[2]);
      TailSplits(front[0] - 0xF0, front[1]);
      TailSplits(m, front[2]);
      TailSplits(n, front[3]);
      assert Tail(n, front[3]) >= 0x1_0000;
    }
  }

  /** The byte sequences that decode to a character of their own are exactly the encodings of the characters. */
  lemma WellFormedExactly(front: seq<Byte>)
    ensures WellFormed(front) <==> exists c :: EncodeChar(c) == front
  {
    if WellFormed(front) {
      WellFormedIsEncoded(front);
    }
    forall c | EncodeChar(c) == front
      ensures WellFormed(front)
    {
      EncodedIsWellFormed(c);
    }
  }

  lemma FrontOfWellFormed(front: seq<Byte>, rest: seq<Byte>)
    requires WellFormed(front)
    ensures FrontLength(front + rest) == |front|
  {
    var bytes := front + rest;
    assert forall i :: 0 <= i < |front| ==> bytes[i] == front[i];
  }

  lemma DecodeChar(c: char, rest: seq<Byte>)
    ensures Decode(EncodeChar(c) + rest) == [c] + Decode(rest)
  {
    var front := EncodeChar(c);
    EncodedIsWellFormed(c);
    FrontOfWellFormed(front, rest);
    assert (front + rest)[..|front|] == front && (front + rest)[|front|..] == rest;
  }

  lemma {:induction false} DecodeEncode(text: string)
    ensures Decode(Encode(text)) == text
  {
    if text != "" {
      DecodeChar(text[0], Encode(text[1..]));
      DecodeEncode(text[1..]);
    }
  }

  // ---------------------------------------------------------------------------------------------
  // Decoding a stream chunk by chunk
  // ---------------------------------------------------------------------------------------------

  function Flatten(chunks: seq<seq<Byte>>): seq<Byte> {
    if chunks == [] then [] else chunks[0] + Flatten(chunks[1..])
  }

  /** The text that arrives when every chunk is decoded on its own. */
  function Received(chunks: seq<seq<Byte>>): string {
    if chunks == [] then "" else Decode(chunks[0]) + Received(chunks[1..])
  }

  /** No chunk begins in the middle of a character. */
  predicate CutBetweenCharacters(chunks: seq<seq<Byte>>) {
    forall k :: 0 <= k < |chunks| ==> StartsCharacter(chunks[k])
  }

  predicate StartsCharacter(bytes: seq<Byte>) {
    bytes == [] || !Continuation(bytes[0])
  }

  /** The number of bytes that begin a character. */
  function Starts(bytes: seq<Byte>): nat {
    if bytes == [] then 0 else (if Continuation(bytes[0]) then 0 else 1) + Starts(bytes[1..])
  }

  lemma {:induction false} StartsAppend(a: seq<Byte>, b: seq<Byte>)
    ensures Starts(a + b) == Starts(a) + Starts(b)
  {
    if a == [] {
      assert a + b == b;
    } else {
      assert (a + b)[1..] == a[1..] + b;
      StartsAppend(a[1..], b);
    }
  }

  lemma {:induction false} NoStartsInside(bytes: seq<Byte>)
    requires forall i :: 0 <= i < |bytes| ==> Continuation(bytes[i])
    ensures Starts(bytes) == 0
  {
    if bytes != [] {
      NoStartsInside(bytes[1..]);
    }
  }

  /** Every byte that begins a character is decoded to one of its own, and a continuation byte in front to one more. */
  lemma {:induction false} DecodedLength(bytes: seq<Byte>)
    ensures |Decode(bytes)| >= Starts(bytes)
    ensures !StartsCharacter(bytes) ==> |Decode(bytes)| > Starts(bytes)
    decreases |bytes|
  {
    if bytes != [] {
      var n := FrontLength(bytes);
      DecodedLength(bytes[n..]);
      assert bytes[1..] == bytes[1..n] + bytes[n..];
      StartsAppend(bytes[1..n], bytes[n..]);
      NoStartsInside(bytes[1..n]);
    }
  }

  lemma {:induction false} EncodedStarts(text: string)
    ensures Starts(Encode(text)) == |text|
  {
    if text != "" {
      var front := EncodeChar(text[0]);
      EncodedIsWellFormed(text[0]);
      assert front == [front[0]] + front[1..];
      StartsAppend(front, Encode(text[1..]));
      NoStartsInside(front[1..]);
      EncodedStarts(text[1..]);
    }
  }

  lemma {:induction false} ReceivedLength(chunks: seq<seq<Byte>>)
    ensures |Received(chunks)| >= Starts(Flatten(chunks))
    ensures !CutBetweenCharacters(chunks) ==> |Received(chunks)| > Starts(Flatten(chunks))
  {
    if chunks != [] {
      DecodedLength(chunks[0]);
      ReceivedLength(chunks[1..]);
      StartsAppend(chunks[0], Flatten(chunks[1..]));
    }
  }

  lemma CutInsideFront(front: seq<Byte>, rest: seq<Byte>, a: seq<Byte>, b: seq<Byte>)
    requires front + rest == a + b
    ensures |a| < |front| ==> b != [] && b[0] == front[|a|]
  {
    if |a| < |front| {
      assert |a + b| >= |front|;
      assert b[0] == (a + b)[|a|] == front[|a|];
    }
  }

  lemma SplitAt(front: seq<Byte>, rest: seq<Byte>, a: seq<Byte>, b: seq<Byte>)
    requires front + rest == a + b && |front| <= |a|
    ensures a == front + a[|front|..] && rest == a[|front|..] + b
  {
    assert a == (a + b)[..|a|] == front + rest[..|a| - |front|];
    assert rest == (front + rest)[|front|..];
  }

  /** A cut that is not inside a character splits the text as well as the bytes. */
  lemma {:induction false} CutText(text: string, a: seq<Byte>, b: seq<Byte>) returns (i: nat)
    requires Encode(text) == a + b && StartsCharacter(b)
    ensures i <= |text| && a == Encode(text[..i]) && b == Encode(text[i..])
  {
    if a == [] {
      i := 0;
      assert text[0..] == text && a + b == b;
    } else {
      var front := EncodeChar(text[0]);
      EncodedIsWellFormed(text[0]);
      var rest := Encode(text[1..]);
      CutInsideFront(front, rest, a, b);
      SplitAt(front, rest, a, b);
      var j := CutText(text[1..], a[|front|..], b);
      i := j + 1;
      assert text[..i][1..] == text[1..][..j] && text[i..] == text[1..][j..];
    }
  }

  lemma FirstOfFlattened(chunks: seq<seq<Byte>>)
    requires CutBetweenCharacters(chunks)
    ensures StartsCharacter(Flatten(chunks))
  {
    if chunks != [] {
      if chunks[0] == [] {
        assert Flatten(chunks) == Flatten(chunks[1..]);
        FirstOfFlattened(chunks[1..]);
      }
    }
  }

  lemma FirstChunkReceived(chunks: seq<seq<Byte>>, text: string, i: nat)
    requires chunks != [] && i <= |text|
    requires chunks[0] == Encode(text[..i]) && Received(chunks[1..]) == text[i..]
    ensures Received(chunks) == text
  {
    DecodeEncode(text[..i]);
    assert Received(chunks) == Decode(chunks[0]) + Received(chunks[1..]) == text[..i] + text[i..];
    assert text == text[..i] + text[i..];
  }

  lemma {:induction false} CleanCutsKeepText(chunks: seq<seq<Byte>>, text: string)
    requires Flatten(chunks) == Encode(text) && CutBetweenCharacters(chunks)
    ensures Received(chunks) == text
    decreases |chunks|
  {
    if chunks == [] {
      EncodedStarts(text);
    } else {
      FirstOfFlattened(chunks[1..]);
      var i := CutText(text, chunks[0], Flatten(chunks[1..]));
      CleanCutsKeepText(chunks[1..], text[i..]);
      FirstChunkReceived(chunks, text, i);
    }
  }

  /**
   * Chunk-wise decoding keeps the text of a stream exactly when no chunk begins in the middle of a
   * character; otherwise the text that arrives is longer than the text that was sent.
   */
  lemma ChunksKeepTextExactly(chunks: seq<seq<Byte>>, text: string)
    requires Flatten(chunks) == Encode(text)
    ensures Received(chunks) == text <==> CutBetweenCharacters(chunks)
    ensures !CutBetweenCharacters(chunks) ==> |Received(chunks)| > |text|
  {
    EncodedStarts(text);
    ReceivedLength(chunks);
    if CutBetweenCharacters(chunks) {
      CleanCutsKeepText(chunks, text);
    }
  }

  /** "é" cut in half arrives as two replacement characters. */
  lemma HalvedCharacterIsLost()
    ensures Flatten([[0xC3], [0xA9]]) == Encode(['\U{E9}'])
    ensures Received([[0xC3], [0xA9]]) == [REPLACEMENT, REPLACEMENT]
  {
    var chunks: seq<seq<Byte>> := [[0xC3], [0xA9]];
    assert chunks[1..] == [[0xA9]] && chunks[1..][1..] == [];
    assert EncodeChar('\U{E9}') == [0xC3, 0xA9];
    assert Decode([0xC3]) == [REPLACEMENT] && Decode([0xA9]) == [REPLACEMENT];
  }
}
