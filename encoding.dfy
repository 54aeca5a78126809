/**
 * The bytes behind the HTTP Basic `Authorization` header that the plugin sends:
 * `'Basic ' . base64_encode($username . ':' . $password)`.
 * A PHP string is a byte string; the model's strings are Unicode text, read as
 * their UTF-8 bytes. Base64 follows section 4 of RFC 4648 (standard alphabet,
 * '=' padding); the header follows section 2 of RFC 7617.
 */
module Encoding {
  import opened Wrappers

  type byte = x: int | 0 <= x < 256

  /** Every byte after the first is a UTF-8 continuation byte (`10xxxxxx`). */
  predicate ContinuationBytes(bs: seq<byte>) {
    forall i :: 1 <= i < |bs| ==> 0x80 <= bs[i] < 0xC0
  }

  /** UTF-8 encoding of one Unicode scalar value. */
  function Utf8Char(c: char): (bs: seq<byte>)
    ensures 1 <= |bs| <= 4
    ensures |bs| == 1 <==> c as int < 0x80
    ensures |bs| == 1 ==> bs[0] == c as int
    ensures ContinuationBytes(bs)
  {
    var cp := c as int;
    if cp < 0x80 then [cp]
    else if cp < 0x800 then [0xC0 + cp / 64, 0x80 + cp % 64]
    else if cp < 0x10000 then [0xE0 + cp / 4096, 0x80 + (cp / 64) % 64, 0x80 + cp % 64]
    else [0xF0 + cp / 262144, 0x80 + (cp / 4096) % 64, 0x80 + (cp / 64) % 64, 0x80 + cp % 64]
  }

  /** UTF-8 encoding of a string. */
  function Utf8(s: string): (bs: seq<byte>)
    ensures |s| <= |bs| <= 4 * |s|
  {
    if s == [] then [] else Utf8Char(s[0]) + Utf8(s[1..])
  }

  /** ASCII text is its own UTF-8 encoding, byte for byte. */
  lemma {:induction false} Utf8Ascii(s: string)
    requires forall i :: 0 <= i < |s| ==> s[i] as int < 0x80
    ensures |Utf8(s)| == |s|
    ensures forall i :: 0 <= i < |s| ==> Utf8(s)[i] == s[i] as int
  {
    if s != [] {
      Utf8Ascii(s[1..]);
    }
  }

  /** UTF-8 of a concatenation is the concatenation of the encodings. */
  lemma {:induction false} Utf8Append(a: string, b: string)
    ensures Utf8(a + b) == Utf8(a) + Utf8(b)
  {
    if a != [] {
      assert (a + b)[0] == a[0] && (a + b)[1..] == a[1..] + b;
      Utf8Append(a[1..], b);
    } else {
      assert a + b == b;
    }
  }

  /** The base64 alphabet of RFC 4648, section 4, Table 1. */
  function Alphabet(i: nat): (c: char)
    requires i < 64
  {
    if i < 26 then ('A' as int + i) as char
    else if i < 52 then ('a' as int + (i - 26)) as char
    else if i < 62 then ('0' as int + (i - 52)) as char
    else if i == 62 then '+'
    else '/'
  }

  /** The value of a base64 character; `None` for anything outside the alphabet. */
  function Index(c: char): (r: Option<nat>)
    ensures r.Some? ==> r.value < 64 && Alphabet(r.value) == c
  {
    if 'A' <= c <= 'Z' then Some(c as int - 'A' as int)
    else if 'a' <= c <= 'z' then Some(c as int - 'a' as int + 26)
    else if '0' <= c <= '9' then Some(c as int - '0' as int + 52)
    else if c == '+' then Some(62)
    else if c == '/' then Some(63)
    else None
  }

  /** Every alphabet character is decoded back to its own index. */
  lemma IndexAlphabet(i: nat)
    requires i < 64
    ensures Index(Alphabet(i)) == Some(i)
  {
  }

  /** Every value fits in six bits. */
  predicate IsSextets(vs: seq<nat>) {
    forall i :: 0 <= i < |vs| ==> vs[i] < 64
  }

  /**
   * The six-bit groups of a byte string, most significant bits first: four
   * for every three bytes, then three for a final pair or two for a final
   * single byte, the missing low bits being zero.
   */
  function Sextets(bs: seq<byte>): (vs: seq<nat>)
    ensures IsSextets(vs)
    decreases |bs|
  {
    if |bs| == 0 then []
    else if |bs| == 1 then [bs[0] as int / 4, (bs[0] as int % 4) * 16]
    else if |bs| == 2 then [bs[0] as int / 4, (bs[0] as int % 4) * 16 + bs[1] as int / 16, (bs[1] as int % 16) * 4]
    else
      [bs[0] as int / 4, (bs[0] as int % 4) * 16 + bs[1] as int / 16, (bs[1] as int % 16) * 4 + bs[2] as int / 64, bs[2] as int % 64]
        + Sextets(bs[3..])
  }

  /** The characters of a sequence of six-bit values. */
  function Chars(vs: seq<nat>): (s: string)
    requires IsSextets(vs)
    ensures |s| == |vs|
  {
    seq(|vs|, i requires 0 <= i < |vs| => Alphabet(vs[i]))
  }

  /** The '=' characters that fill the last group up to four characters. */
  function Padding(n: nat): string {
    if n % 3 == 1 then "==" else if n % 3 == 2 then "=" else ""
  }

  /** `base64_encode`. */
  function Base64Encode(bs: seq<byte>): string {
    Chars(Sextets(bs)) + Padding(|bs|)
  }

  /** Text without its trailing '=' characters (at most two). */
  function Unpadded(s: string): string {
    if |s| >= 2 && s[|s| - 2] == '=' && s[|s| - 1] == '=' then s[..|s| - 2]
    else if |s| >= 1 && s[|s| - 1] == '=' then s[..|s| - 1]
    else s
  }

  /** The six-bit value of every character; `None` if one is outside the alphabet. */
  function Values(s: string): (r: Option<seq<nat>>)
    ensures r.Some? ==> |r.value| == |s| && IsSextets(r.value)
  {
    if s == [] then Some([])
    else match (Index(s[0]), Values(s[1..]))
      case (Some(v), Some(vs)) => Some([v] + vs)
      case _ => None
  }

  /** Regroups six-bit values into bytes; `None` for a count that no byte string yields. */
  function Regroup(vs: seq<nat>): Option<seq<byte>>
    requires IsSextets(vs)
    decreases |vs|
  {
    if |vs| == 0 then Some([])
    else if |vs| == 1 then None
    else if |vs| == 2 then Some([vs[0] * 4 + vs[1] / 16])
    else if |vs| == 3 then Some([vs[0] * 4 + vs[1] / 16, (vs[1] % 16) * 16 + vs[2] / 4])
    else match Regroup(vs[4..])
      case None => None
      case Some(rest) =>
        Some([vs[0] * 4 + vs[1] / 16, (vs[1] % 16) * 16 + vs[2] / 4, (vs[2] % 4) * 64 + vs[3]] + rest)
  }

  /** Base64 decoding; `None` for text that is not padded base64. */
  function Base64Decode(s: string): Option<seq<byte>> {
    if |s| % 4 != 0 then None
    else match Values(Unpadded(s))
      case None => None
      case Some(vs) => Regroup(vs)
  }

  // ---- Round trip, one layer at a time ----

  /** No alphabet character is the padding character. */
  lemma AlphabetNotPad(i: nat)
    requires i < 64
    ensures Alphabet(i) != '='
  {
  }

  /** Four values for every whole group of three bytes, then three for a final pair or two for a final byte. */
  lemma {:induction false} SextetsLength(bs: seq<byte>)
    ensures |Sextets(bs)| == |bs| / 3 * 4 + (if |bs| % 3 == 0 then 0 else |bs| % 3 + 1)
    decreases |bs|
  {
    if |bs| >= 3 {
      SextetsOfGroup(bs);
      SextetsLength(bs[3..]);
      assert (|bs| - 3) / 3 == |bs| / 3 - 1 && (|bs| - 3) % 3 == |bs| % 3;
    }
  }

  /** Every started group of three bytes yields four characters. */
  lemma EncodedLength(bs: seq<byte>)
    ensures |Base64Encode(bs)| == (|bs| + 2) / 3 * 4
    ensures |Base64Encode(bs)| % 4 == 0
    ensures |bs| > 0 ==> |Sextets(bs)| > 0
  {
    SextetsLength(bs);
    var n := |bs|;
    assert |Padding(n)| == if n % 3 == 0 then 0 else 3 - n % 3;
  }

  /** The padding comes off again, leaving the alphabet characters. */
  lemma UnpadChars(vs: seq<nat>, n: nat)
    requires IsSextets(vs)
    requires n % 3 != 0 ==> |vs| > 0
    ensures Unpadded(Chars(vs) + Padding(n)) == Chars(vs)
  {
    var c := Chars(vs);
    if |vs| > 0 {
      AlphabetNotPad(vs[|vs| - 1]);
      assert c[|c| - 1] == Alphabet(vs[|vs| - 1]);
    }
    var s := c + Padding(n);
    if n % 3 == 1 {
      assert s[..|s| - 2] == c;
    } else if n % 3 == 2 {
      assert s[..|s| - 1] == c;
    } else {
      assert s == c;
    }
  }

  /** Reading back the characters of six-bit values gives the values. */
  lemma {:induction false} ValuesChars(vs: seq<nat>)
    requires IsSextets(vs)
    ensures Values(Chars(vs)) == Some(vs)
  {
    if vs != [] {
      var c := Chars(vs);
      assert c[1..] == Chars(vs[1..]);
      IndexAlphabet(vs[0]);
      ValuesChars(vs[1..]);
      assert vs == [vs[0]] + vs[1..];
    }
  }

  /** The bit arithmetic of one group: three bytes split into four six-bit values and joined again. */
  lemma TripleArithmetic(b0: byte, b1: byte, b2: byte)
    ensures var v1, v2 := (b0 as int % 4) * 16 + b1 as int / 16, (b1 as int % 16) * 4 + b2 as int / 64;
      && (b0 as int / 4) * 4 + v1 / 16 == b0
      && (v1 % 16) * 16 + v2 / 4 == b1
      && (v2 % 4) * 64 + b2 as int % 64 == b2
  {
  }

  /** The bit arithmetic of a final pair. */
  lemma PairArithmetic(b0: byte, b1: byte)
    ensures var v1, v2 := (b0 as int % 4) * 16 + b1 as int / 16, (b1 as int % 16) * 4;
      (b0 as int / 4) * 4 + v1 / 16 == b0 && (v1 % 16) * 16 + v2 / 4 == b1
  {
  }

  /** The values of a final pair, one `Sextets` step. */
  lemma SextetsOfPair(bs: seq<byte>)
    requires |bs| == 2
    ensures Sextets(bs) == [bs[0] as int / 4, (bs[0] as int % 4) * 16 + bs[1] as int / 16, (bs[1] as int % 16) * 4]
  {
  }

  /** The values of a leading group of three, one `Sextets` step. */
  lemma SextetsOfGroup(bs: seq<byte>)
    requires |bs| >= 3
    ensures Sextets(bs) ==
      [bs[0] as int / 4, (bs[0] as int % 4) * 16 + bs[1] as int / 16, (bs[1] as int % 16) * 4 + bs[2] as int / 64, bs[2] as int % 64]
        + Sextets(bs[3..])
  {
  }

  /** The two values of a final single byte regroup to the byte. */
  lemma RegroupOfSingle(b0: byte)
    ensures Regroup([b0 as int / 4, (b0 as int % 4) * 16]) == Some([b0])
  {
    var v0, v1 := b0 as int / 4, (b0 as int % 4) * 16;
    assert v1 / 16 == b0 as int % 4;
    assert v0 * 4 + v1 / 16 == b0;
  }

  /** The three values of a final pair regroup to the pair. */
  lemma RegroupOfPair(b0: byte, b1: byte)
    ensures Regroup([b0 as int / 4, (b0 as int % 4) * 16 + b1 as int / 16, (b1 as int % 16) * 4]) == Some([b0, b1])
  {
    PairArithmetic(b0, b1);
  }

  /** The four values of a group regroup to its three bytes, in front of what the rest regroups to. */
  lemma RegroupOfGroup(b0: byte, b1: byte, b2: byte, rest: seq<nat>, tail: seq<byte>)
    requires IsSextets(rest) && Regroup(rest) == Some(tail)
    ensures Regroup([b0 as int / 4, (b0 as int % 4) * 16 + b1 as int / 16, (b1 as int % 16) * 4 + b2 as int / 64, b2 as int % 64] + rest)
      == Some([b0, b1, b2] + tail)
  {
    var vs := [b0 as int / 4, (b0 as int % 4) * 16 + b1 as int / 16, (b1 as int % 16) * 4 + b2 as int / 64, b2 as int % 64] + rest;
    assert vs[4..] == rest;
    TripleArithmetic(b0, b1, b2);
  }

  /** A final single byte regroups to itself. */
  lemma RegroupSingle(bs: seq<byte>)
    requires |bs| == 1
    ensures Regroup(Sextets(bs)) == Some(bs)
  {
    assert Sextets(bs) == [bs[0] as int / 4, (bs[0] as int % 4) * 16];
    RegroupOfSingle(bs[0]);
    assert bs == [bs[0]];
  }

  /** A final pair regroups to itself. */
  lemma RegroupPair(bs: seq<byte>)
    requires |bs| == 2
    ensures Regroup(Sextets(bs)) == Some(bs)
  {
    SextetsOfPair(bs);
    RegroupOfPair(bs[0], bs[1]);
    assert bs == [bs[0], bs[1]];
  }

  /** Regrouping the six-bit groups of bytes gives the bytes back. */
  lemma {:induction false} RegroupSextets(bs: seq<byte>)
    ensures Regroup(Sextets(bs)) == Some(bs)
    decreases |bs|
  {
    if |bs| == 1 {
      RegroupSingle(bs);
    } else if |bs| == 2 {
      RegroupPair(bs);
    } else if |bs| >= 3 {
      RegroupSextets(bs[3..]);
      SextetsOfGroup(bs);
      RegroupOfGroup(bs[0], bs[1], bs[2], Sextets(bs[3..]), bs[3..]);
      assert Regroup(Sextets(bs)) == Some([bs[0], bs[1], bs[2]] + bs[3..]);
      assert bs == [bs[0], bs[1], bs[2]] + bs[3..];
    }
  }

  /** Decoding what `base64_encode` produced gives back the bytes (RFC 4648, section 4). */
  lemma Base64RoundTrip(bs: seq<byte>)
    ensures Base64Decode(Base64Encode(bs)) == Some(bs)
  {
    var vs := Sextets(bs);
    var s := Base64Encode(bs);
    EncodedLength(bs);
    UnpadChars(vs, |bs|);
    assert Unpadded(s) == Chars(vs);
    ValuesChars(vs);
    RegroupSextets(bs);
  }

  /** The `Authorization` header value of HTTP Basic authentication. */
  function BasicAuthorization(username: string, password: string): string {
    "Basic " + Base64Encode(Utf8(username + ":" + password))
  }

  /** The header carries exactly the UTF-8 bytes of "username:password", recoverable by base64 decoding. */
  lemma BasicAuthorizationDecodes(username: string, password: string)
    ensures BasicAuthorization(username, password)[..6] == "Basic "
    ensures Base64Decode(BasicAuthorization(username, password)[6..])
         == Some(Utf8(username) + Utf8(":") + Utf8(password))
  {
    var h := BasicAuthorization(username, password);
    var bs := Utf8(username + ":" + password);
    Base64RoundTrip(bs);
    assert h[6..] == Base64Encode(bs);
    Utf8Append(username + ":", password);
    Utf8Append(username, ":");
  }
}
