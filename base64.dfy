/**
 * `btoa` and `atob`. Both work on "binary strings", whose characters all have
 * codes below 256 and stand for bytes. `btoa` writes the base64 encoding of
 * section 4 of RFC 4648 (alphabet A-Z a-z 0-9 + /, '=' padding); `atob`
 * reads it with the HTML standard's forgiving-base64 decode (ASCII
 * whitespace ignored, padding optional).
 */
module Base64 {
  import opened Js
  import JsText

  predicate IsBase64Char(c: char) {
    ('A' <= c <= 'Z') || ('a' <= c <= 'z') || ('0' <= c <= '9') || c == '+' || c == '/'
  }

  predicate AllBase64(s: string) {
    forall i :: 0 <= i < |s| ==> IsBase64Char(s[i])
  }

  /** The character for a 6-bit value. */
  function Alphabet(v: nat): (c: char)
    requires v < 64
    ensures IsBase64Char(c) && IndexOf(c) == v
  {
    if v < 26 then ('A' as int + v) as char
    else if v < 52 then ('a' as int + v - 26) as char
    else if v < 62 then ('0' as int + v - 52) as char
    else if v == 62 then '+'
    else '/'
  }

  /** The 6-bit value of an alphabet character. */
  function IndexOf(c: char): (v: nat)
    requires IsBase64Char(c)
    ensures v < 64
  {
    if 'A' <= c <= 'Z' then c as int - 'A' as int
    else if 'a' <= c <= 'z' then c as int - 'a' as int + 26
    else if '0' <= c <= '9' then c as int - '0' as int + 52
    else if c == '+' then 62
    else 63
  }

  /** The characters of one group of one to three bytes: four for three bytes, three for two, two for one. */
  function EncodeGroup(g: seq<byte>): (s: string)
    requires 1 <= |g| <= 3
    ensures |s| == |g| + 1 && AllBase64(s)
  {
    if |g| == 1 then [Alphabet(g[0] / 4), Alphabet(g[0] % 4 * 16)]
    else if |g| == 2 then [Alphabet(g[0] / 4), Alphabet(g[0] % 4 * 16 + g[1] / 16), Alphabet(g[1] % 16 * 4)]
    else [Alphabet(g[0] / 4), Alphabet(g[0] % 4 * 16 + g[1] / 16), Alphabet(g[1] % 16 * 4 + g[2] / 64), Alphabet(g[2] % 64)]
  }

  /** The encoding without its padding: groups of three bytes, the last one possibly shorter. */
  function EncodeUnpadded(b: seq<byte>): (e: string)
    decreases |b|
  {
    if |b| == 0 then []
    else if |b| <= 3 then EncodeGroup(b)
    else EncodeGroup(b[..3]) + EncodeUnpadded(b[3..])
  }

  /** The '=' characters that complete the last quantum of an encoding of `n` bytes. */
  function Padding(n: nat): (pad: string) {
    if n % 3 == 1 then "==" else if n % 3 == 2 then "=" else ""
  }

  /** The base64 encoding of section 4 of RFC 4648. */
  function Encode(b: seq<byte>): (e: string) {
    EncodeUnpadded(b) + Padding(|b|)
  }

  /** The bytes of one group of two to four alphabet characters. */
  function DecodeGroup(s: string): (g: seq<byte>)
    requires 2 <= |s| <= 4 && AllBase64(s)
    ensures |g| == |s| - 1
  {
    var v0, v1 := IndexOf(s[0]), IndexOf(s[1]);
    if |s| == 2 then [v0 * 4 + v1 / 16]
    else if |s| == 3 then [v0 * 4 + v1 / 16, v1 % 16 * 16 + IndexOf(s[2]) / 4]
    else [v0 * 4 + v1 / 16, v1 % 16 * 16 + IndexOf(s[2]) / 4, IndexOf(s[2]) % 4 * 64 + IndexOf(s[3])]
  }

  /** Decodes alphabet characters group by group; a length one more than a multiple of four cannot be decoded. */
  function DecodeUnpadded(s: string): (bytes: seq<byte>)
    requires AllBase64(s) && |s| % 4 != 1
    decreases |s|
  {
    if |s| == 0 then []
    else if |s| <= 4 then DecodeGroup(s)
    else DecodeGroup(s[..4]) + DecodeUnpadded(s[4..])
  }

  function RemoveAsciiWhitespace(s: string): (r: string)
    decreases |s|
  {
    if s == [] then []
    else if JsText.IsAsciiWhitespace(s[0]) then RemoveAsciiWhitespace(s[1..])
    else [s[0]] + RemoveAsciiWhitespace(s[1..])
  }

  /** Drops one or two trailing '='. */
  function StripPadding(s: string): (stripped: string) {
    if |s| >= 2 && s[|s| - 2..] == "==" then s[..|s| - 2]
    else if |s| >= 1 && s[|s| - 1] == '=' then s[..|s| - 1]
    else s
  }

  /**
   * Forgiving-base64 decode: remove ASCII whitespace; when the length is a
   * multiple of four drop one or two trailing '='; fail when a single
   * character is left over or a character is outside the alphabet.
   */
  function ForgivingDecode(s: string): (r: Result<seq<byte>>)
    ensures r.Err? ==> r.error == InvalidCharacter
  {
    var data := RemoveAsciiWhitespace(s);
    var unpadded := if |data| % 4 == 0 then StripPadding(data) else data;
    if |unpadded| % 4 == 1 || !AllBase64(unpadded) then Err(InvalidCharacter)
    else Ok(DecodeUnpadded(unpadded))
  }

  /** The string of characters whose codes are the bytes (`String.fromCharCode` per byte). */
  function BinaryString(b: seq<byte>): (s: string)
    ensures |s| == |b| && IsBinaryString(s)
  {
    seq(|b|, i requires 0 <= i < |b| => b[i] as char)
  }

  predicate IsBinaryString(s: string) {
    forall i :: 0 <= i < |s| ==> s[i] as int < 256
  }

  /** The bytes of a binary string (`charCodeAt` per character). */
  function BinaryBytes(s: string): (b: seq<byte>)
    requires IsBinaryString(s)
    ensures |b| == |s|
  {
    seq(|s|, i requires 0 <= i < |s| => s[i] as int)
  }

  lemma BinaryRoundTrip(b: seq<byte>)
    ensures BinaryBytes(BinaryString(b)) == b
  {
  }

  /** `btoa(s)`: throws for a character above U+00FF. */
  function Btoa(s: string): (r: Result<string>)
    ensures r.Ok? <==> IsBinaryString(s)
    ensures r.Err? ==> r.error == InvalidCharacter
    ensures r.Ok? ==> |r.value| % 4 == 0
  {
    if IsBinaryString(s) then
      EncodeShape(BinaryBytes(s));
      Ok(Encode(BinaryBytes(s)))
    else Err(InvalidCharacter)
  }

  /** `atob(s)`. */
  function Atob(s: string): (r: Result<string>)
    ensures r.Ok? ==> IsBinaryString(r.value)
    ensures r.Err? ==> r.error == InvalidCharacter
  {
    match ForgivingDecode(s)
    case Ok(b) => Ok(BinaryString(b))
    case Err(e) => Err(e)
  }

  lemma AllBase64Append(x: string, y: string)
    requires AllBase64(x) && AllBase64(y)
    ensures AllBase64(x + y)
  {
    assert forall i :: 0 <= i < |x + y| ==> (x + y)[i] == if i < |x| then x[i] else y[i - |x|];
  }

  /** The length, modulo 4, of the unpadded encoding of `n` bytes. */
  function UnpaddedRemainder(n: nat): (m: nat) {
    if n % 3 == 0 then 0 else n % 3 + 1
  }

  lemma RemainderStep(n: nat, m: nat)
    requires m % 4 == UnpaddedRemainder(n)
    ensures (m + 4) % 4 == UnpaddedRemainder(n + 3)
  {
  }

  /** The unpadded encoding has only alphabet characters and a length that is never 1 more than a multiple of 4. */
  lemma {:induction false} EncodeUnpaddedShape(b: seq<byte>)
    ensures AllBase64(EncodeUnpadded(b))
    ensures |EncodeUnpadded(b)| % 4 == UnpaddedRemainder(|b|)
    ensures |b| > 0 ==> |EncodeUnpadded(b)| >= 2
    decreases |b|
  {
    if |b| > 3 {
      var head, tail := EncodeGroup(b[..3]), EncodeUnpadded(b[3..]);
      EncodeUnpaddedShape(b[3..]);
      assert EncodeUnpadded(b) == head + tail;
      AllBase64Append(head, tail);
      RemainderStep(|b[3..]|, |tail|);
    }
  }

  /** Every encoding is a whole number of four-character quanta, made of alphabet characters and '='. */
  lemma EncodeShape(b: seq<byte>)
    ensures |Encode(b)| % 4 == 0
    ensures forall i :: 0 <= i < |Encode(b)| ==> IsBase64Char(Encode(b)[i]) || Encode(b)[i] == '='
  {
    var u, pad := EncodeUnpadded(b), Padding(|b|);
    EncodeUnpaddedShape(b);
    PaddingCompletes(|b|, |u|);
    assert forall i :: 0 <= i < |u + pad| ==> (u + pad)[i] == if i < |u| then u[i] else pad[i - |u|];
  }

  lemma PaddingCompletes(n: nat, m: nat)
    requires m % 4 == UnpaddedRemainder(n)
    ensures (m + |Padding(n)|) % 4 == 0
  {
  }

  /** The 6-bit arithmetic of one group: each byte comes back out of the characters. */
  lemma DecodeEncodeGroup(g: seq<byte>)
    requires 1 <= |g| <= 3
    ensures DecodeGroup(EncodeGroup(g)) == g
  {
    if |g| == 1 {
      DecodeEncodeOne(g[0]);
      assert g == [g[0]];
    } else if |g| == 2 {
      DecodeEncodeTwo(g[0], g[1]);
      assert g == [g[0], g[1]];
    } else {
      DecodeEncodeThree(g[0], g[1], g[2]);
      assert g == [g[0], g[1], g[2]];
    }
  }

  lemma DecodeEncodeOne(x: byte)
    ensures DecodeGroup(EncodeGroup([x])) == [x]
  {
    GroupArithmetic(x, 0, 0);
  }

  lemma DecodeEncodeTwo(x: byte, y: byte)
    ensures DecodeGroup(EncodeGroup([x, y])) == [x, y]
  {
    var e := EncodeGroup([x, y]);
    assert IndexOf(e[0]) == x / 4 && IndexOf(e[1]) == x % 4 * 16 + y / 16 && IndexOf(e[2]) == y % 16 * 4;
    GroupArithmetic(x, y, 0);
  }

  lemma DecodeEncodeThree(x: byte, y: byte, z: byte)
    ensures DecodeGroup(EncodeGroup([x, y, z])) == [x, y, z]
  {
    var e := EncodeGroup([x, y, z]);
    assert IndexOf(e[0]) == x / 4 && IndexOf(e[1]) == x % 4 * 16 + y / 16;
    assert IndexOf(e[2]) == y % 16 * 4 + z / 64 && IndexOf(e[3]) == z % 64;
    GroupArithmetic(x, y, z);
  }

  /** Regrouping three bytes into four 6-bit values and back loses nothing. */
  lemma GroupArithmetic(x: nat, y: nat, z: nat)
    requires x < 256 && y < 256 && z < 256
    ensures (x / 4) * 4 + (x % 4 * 16 + y / 16) / 16 == x
    ensures (x % 4 * 16 + y / 16) % 16 * 16 + (y % 16 * 4 + z / 64) / 4 == y
    ensures (y % 16 * 4 + z / 64) % 4 * 64 + z % 64 == z
  {
  }

  lemma {:induction false} DecodeEncodeUnpadded(b: seq<byte>)
    ensures AllBase64(EncodeUnpadded(b)) && |EncodeUnpadded(b)| % 4 != 1
    ensures DecodeUnpadded(EncodeUnpadded(b)) == b
    decreases |b|
  {
    EncodeUnpaddedShape(b);
    var s := EncodeUnpadded(b);
    if |b| > 3 {
      DecodeEncodeGroup(b[..3]);
      DecodeEncodeUnpadded(b[3..]);
      assert s[..4] == EncodeGroup(b[..3]) && s[4..] == EncodeUnpadded(b[3..]);
      assert b[..3] + b[3..] == b;
    } else if |b| >= 1 {
      DecodeEncodeGroup(b);
    }
  }

  lemma {:induction false} RemoveAsciiWhitespaceUntouched(s: string)
    requires forall i :: 0 <= i < |s| ==> !JsText.IsAsciiWhitespace(s[i])
    ensures RemoveAsciiWhitespace(s) == s
    decreases |s|
  {
    if s != [] {
      RemoveAsciiWhitespaceUntouched(s[1..]);
      assert [s[0]] + s[1..] == s;
    }
  }

  lemma StripPaddingAppend(u: string, pad: string)
    requires AllBase64(u)
    requires pad == "" || pad == "=" || pad == "=="
    requires pad != "" ==> |u| >= 2
    ensures StripPadding(u + pad) == u
  {
    var e := u + pad;
    if pad == "==" {
      assert e[|e| - 2..] == pad && e[..|e| - 2] == u;
    } else if pad == "=" {
      assert e[|e| - 2] == u[|u| - 1] && e[|e| - 1] == '=' && e[..|e| - 1] == u;
    } else if |u| >= 2 {
      assert e[|e| - 2..] == u[|u| - 2..] && e[|e| - 1] == u[|u| - 1];
    } else if |u| == 1 {
      assert e[|e| - 1] == u[0];
    }
  }

  /** Decoding an encoding gives back the bytes. */
  lemma DecodeEncode(b: seq<byte>)
    ensures ForgivingDecode(Encode(b)) == Ok(b)
  {
    var e := Encode(b);
    EncodeShape(b);
    EncodeUnpaddedShape(b);
    DecodeEncodeUnpadded(b);
    RemoveAsciiWhitespaceUntouched(e);
    StripPaddingAppend(EncodeUnpadded(b), Padding(|b|));
  }

  /** The encoding is one-to-one. */
  lemma EncodeInjective(b1: seq<byte>, b2: seq<byte>)
    requires Encode(b1) == Encode(b2)
    ensures b1 == b2
  {
    DecodeEncode(b1);
    DecodeEncode(b2);
  }

  /** `btoa` accepts every binary string, and `atob` inverts it. */
  lemma AtobBtoa(b: seq<byte>)
    ensures Btoa(BinaryString(b)) == Ok(Encode(b))
    ensures Atob(Encode(b)) == Ok(BinaryString(b))
  {
    BinaryRoundTrip(b);
    DecodeEncode(b);
  }
}
