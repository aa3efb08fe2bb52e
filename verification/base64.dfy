/**
 * Base64 as section 4 (standard alphabet) and section 5 (URL- and
 * filename-safe alphabet) of RFC 4648 define it, with `=` padding, as the
 * JDK's `Base64.getEncoder()` / `getUrlEncoder()` produce it and the matching
 * decoders read it.  Signing keys are stored in the standard form and the
 * password-reset token is the URL-safe form of 32 random bytes.
 */
module Base64 {
  import opened Wrappers

  type Byte = b: int | 0 <= b < 256
  type Sextet = v: int | 0 <= v < 64

  datatype Alphabet = Standard | UrlSafe

  /** Table 1 (section 4) or Table 2 (section 5) of RFC 4648. */
  function SextetChar(v: Sextet, a: Alphabet): char
  {
    if v < 26 then ('A' as int + v) as char
    else if v < 52 then ('a' as int + (v - 26)) as char
    else if v < 62 then ('0' as int + (v - 52)) as char
    else if v == 62 then (if a == Standard then '+' else '-')
    else (if a == Standard then '/' else '_')
  }

  /** The inverse table lookup; `None` for a character outside the alphabet. */
  function CharSextet(c: char, a: Alphabet): (r: Option<Sextet>)
    ensures r.Some? ==> SextetChar(r.value, a) == c
  {
    if 'A' <= c <= 'Z' then Some(c as int - 'A' as int)
    else if 'a' <= c <= 'z' then Some(c as int - 'a' as int + 26)
    else if '0' <= c <= '9' then Some(c as int - '0' as int + 52)
    else if c == (if a == Standard then '+' else '-') then Some(62)
    else if c == (if a == Standard then '/' else '_') then Some(63)
    else None
  }

  lemma CharSextetInvertsSextetChar(v: Sextet, a: Alphabet)
    ensures CharSextet(SextetChar(v, a), a) == Some(v)
  {
  }

  predicate InAlphabet(c: char, a: Alphabet)
  {
    CharSextet(c, a).Some?
  }

  /** The URL-safe alphabet has neither '+' nor '/' (nor the padding character). */
  lemma UrlSafeAlphabetAvoidsPlusAndSlash(c: char)
    requires InAlphabet(c, UrlSafe)
    ensures c != '+' && c != '/' && c != '='
  {
  }

  function C(v: Sextet, a: Alphabet): char { SextetChar(v, a) }

  /** The four characters of a complete 3-byte group. */
  function Group(x: Byte, y: Byte, z: Byte, a: Alphabet): string
  {
    [C(x / 4, a), C((x % 4) * 16 + y / 16, a), C((y % 16) * 4 + z / 64, a), C(z % 64, a)]
  }

  /** The characters without padding: four per complete 3-byte group, then
   *  two or three for a final group of one or two bytes. */
  function EncodeUnpadded(bytes: seq<Byte>, a: Alphabet): (s: string)
    ensures forall i | 0 <= i < |s| :: InAlphabet(s[i], a)
    decreases |bytes|
  {
    if |bytes| == 0 then ""
    else if |bytes| == 1 then
      [C(bytes[0] / 4, a), C((bytes[0] % 4) * 16, a)]
    else if |bytes| == 2 then
      [C(bytes[0] / 4, a), C((bytes[0] % 4) * 16 + bytes[1] / 16, a), C((bytes[1] % 16) * 4, a)]
    else
      Group(bytes[0], bytes[1], bytes[2], a) + EncodeUnpadded(bytes[3..], a)
  }

  /** The `=` characters completing the last quantum. */
  function Padding(n: nat): (p: string)
    ensures |p| == (3 - n % 3) % 3
    ensures forall i | 0 <= i < |p| :: p[i] == '='
  {
    if n % 3 == 1 then "==" else if n % 3 == 2 then "=" else ""
  }

  /** `Base64.getEncoder().encodeToString` / `getUrlEncoder().encodeToString`. */
  function Encode(bytes: seq<Byte>, a: Alphabet): (s: string)
    ensures |s| == 4 * ((|bytes| + 2) / 3)
    ensures forall i | 0 <= i < |s| :: InAlphabet(s[i], a) || s[i] == '='
  {
    UnpaddedLength(bytes, a);
    EncodedLength(|bytes|);
    EncodeUnpadded(bytes, a) + Padding(|bytes|)
  }

  /** The unpadded text has ceil(4n/3) characters for n bytes. */
  lemma {:induction false} UnpaddedLength(bytes: seq<Byte>, a: Alphabet)
    ensures |EncodeUnpadded(bytes, a)| == (4 * |bytes| + 2) / 3
    decreases |bytes|
  {
    var n := |bytes|;
    if n >= 3 {
      var rest := EncodeUnpadded(bytes[3..], a);
      UnpaddedLength(bytes[3..], a);
      assert EncodeUnpadded(bytes, a) == Group(bytes[0], bytes[1], bytes[2], a) + rest;
      DivShift(4 * (n - 3) + 2);
    }
  }

  lemma DivShift(m: int)
    ensures (m + 12) / 3 == m / 3 + 4
  {
  }

  lemma EncodedLength(n: nat)
    ensures (4 * n + 2) / 3 + (3 - n % 3) % 3 == 4 * ((n + 2) / 3)
  {
    var k, r := n / 3, n % 3;
    assert n == 3 * k + r;
    assert (4 * n + 2) / 3 == 4 * k + (4 * r + 2) / 3;
    assert (n + 2) / 3 == k + (r + 2) / 3;
  }

  /** A final pair of characters: one byte. */
  function DecodePair(c0: char, c1: char, a: Alphabet): Option<seq<Byte>>
  {
    if !InAlphabet(c0, a) || !InAlphabet(c1, a) then None
    else
      var s0, s1 := CharSextet(c0, a).value, CharSextet(c1, a).value;
      var b0: Byte := s0 * 4 + s1 / 16;
      Some([b0])
  }

  /** A final triple of characters: two bytes. */
  function DecodeTriple(c0: char, c1: char, c2: char, a: Alphabet): Option<seq<Byte>>
  {
    if !InAlphabet(c0, a) || !InAlphabet(c1, a) || !InAlphabet(c2, a) then None
    else
      var s0, s1, s2 := CharSextet(c0, a).value, CharSextet(c1, a).value, CharSextet(c2, a).value;
      var b0: Byte := s0 * 4 + s1 / 16;
      var b1: Byte := (s1 % 16) * 16 + s2 / 4;
      Some([b0, b1])
  }

  /** A complete quantum of four characters: three bytes. */
  function DecodeQuantum(c0: char, c1: char, c2: char, c3: char, a: Alphabet): Option<seq<Byte>>
  {
    if !InAlphabet(c0, a) || !InAlphabet(c1, a) || !InAlphabet(c2, a) || !InAlphabet(c3, a) then None
    else
      var s0, s1 := CharSextet(c0, a).value, CharSextet(c1, a).value;
      var s2, s3 := CharSextet(c2, a).value, CharSextet(c3, a).value;
      var b0: Byte := s0 * 4 + s1 / 16;
      var b1: Byte := (s1 % 16) * 16 + s2 / 4;
      var b2: Byte := (s2 % 4) * 64 + s3;
      Some([b0, b1, b2])
  }

  /** Decodes unpadded characters; a trailing group of two or three
   *  characters yields one or two bytes, and leftover low bits are ignored. */
  function DecodeUnpadded(s: string, a: Alphabet): Option<seq<Byte>>
    decreases |s|
  {
    if |s| == 0 then Some([])
    else if |s| == 1 then None
    else if |s| == 2 then DecodePair(s[0], s[1], a)
    else if |s| == 3 then DecodeTriple(s[0], s[1], s[2], a)
    else
      match DecodeQuantum(s[0], s[1], s[2], s[3], a)
      case None => None
      case Some(group) =>
        match DecodeUnpadded(s[4..], a)
        case None => None
        case Some(rest) => Some(group + rest)
  }

  /** The text without the `=` padding of its last quantum, if it has any. */
  function Unpad(s: string): string
  {
    if |s| % 4 == 0 && |s| >= 2 && s[|s| - 2..] == "==" then s[..|s| - 2]
    else if |s| % 4 == 0 && |s| >= 1 && s[|s| - 1] == '=' then s[..|s| - 1]
    else s
  }

  /** `Base64.getDecoder().decode` / `getUrlDecoder().decode`: a padded final
   *  quantum must carry the right number of `=`, an unpadded one is accepted,
   *  and any other character (a misplaced `=` included) is rejected. */
  function Decode(s: string, a: Alphabet): Option<seq<Byte>>
  {
    var body := Unpad(s);
    if |body| % 4 == 1 then None else DecodeUnpadded(body, a)
  }

  lemma Split16(q: int, r: int)
    requires 0 <= r < 16
    ensures (q * 16 + r) / 16 == q && (q * 16 + r) % 16 == r
  {
  }

  lemma Split4(q: int, r: int)
    requires 0 <= r < 4
    ensures (q * 4 + r) / 4 == q && (q * 4 + r) % 4 == r
  {
  }

  /** The arithmetic of one 3-byte group: the four sextets give the bytes back. */
  lemma GroupRoundTrip(x: Byte, y: Byte, z: Byte)
    ensures var s0, s1 := x / 4, (x % 4) * 16 + y / 16;
            var s2, s3 := (y % 16) * 4 + z / 64, z % 64;
            && s0 * 4 + s1 / 16 == x
            && (s1 % 16) * 16 + s2 / 4 == y
            && (s2 % 4) * 64 + s3 == z
  {
    Split16(x % 4, y / 16);
    Split4(y % 16, z / 64);
  }

  lemma DecodeOneByte(x: Byte, a: Alphabet)
    ensures DecodeUnpadded([C(x / 4, a), C((x % 4) * 16, a)], a) == Some([x])
  {
    Split16(x % 4, 0);
    CharSextetInvertsSextetChar(x / 4, a);
    CharSextetInvertsSextetChar((x % 4) * 16, a);
  }

  lemma DecodeTwoBytes(x: Byte, y: Byte, a: Alphabet)
    ensures DecodeUnpadded([C(x / 4, a), C((x % 4) * 16 + y / 16, a), C((y % 16) * 4, a)], a) == Some([x, y])
  {
    var s0, s1, s2 := x / 4, (x % 4) * 16 + y / 16, (y % 16) * 4;
    GroupRoundTrip(x, y, 0);
    CharSextetInvertsSextetChar(s0, a);
    CharSextetInvertsSextetChar(s1, a);
    CharSextetInvertsSextetChar(s2, a);
    assert DecodeTriple(C(s0, a), C(s1, a), C(s2, a), a) == Some([x, y]);
  }

  lemma DecodeQuantumOfGroup(x: Byte, y: Byte, z: Byte, a: Alphabet)
    ensures var g := Group(x, y, z, a);
            DecodeQuantum(g[0], g[1], g[2], g[3], a) == Some([x, y, z])
  {
    var g := Group(x, y, z, a);
    var s0, s1, s2, s3 := x / 4, (x % 4) * 16 + y / 16, (y % 16) * 4 + z / 64, z % 64;
    GroupRoundTrip(x, y, z);
    CharSextetInvertsSextetChar(s0, a);
    CharSextetInvertsSextetChar(s1, a);
    CharSextetInvertsSextetChar(s2, a);
    CharSextetInvertsSextetChar(s3, a);
    assert CharSextet(g[0], a) == Some(s0) && CharSextet(g[1], a) == Some(s1);
    assert CharSextet(g[2], a) == Some(s2) && CharSextet(g[3], a) == Some(s3);
  }

  lemma DecodeGroup(x: Byte, y: Byte, z: Byte, rest: string, a: Alphabet)
    ensures DecodeUnpadded(Group(x, y, z, a) + rest, a)
              == match DecodeUnpadded(rest, a) case None => None case Some(r) => Some([x, y, z] + r)
  {
    var g := Group(x, y, z, a);
    var s := g + rest;
    DecodeQuantumOfGroup(x, y, z, a);
    assert s[0] == g[0] && s[1] == g[1] && s[2] == g[2] && s[3] == g[3];
    assert s[4..] == rest;
  }

  lemma {:induction false} UnpaddedRoundTrip(bytes: seq<Byte>, a: Alphabet)
    ensures DecodeUnpadded(EncodeUnpadded(bytes, a), a) == Some(bytes)
    decreases |bytes|
  {
    if |bytes| == 1 {
      DecodeOneByte(bytes[0], a);
      assert bytes == [bytes[0]];
    } else if |bytes| == 2 {
      DecodeTwoBytes(bytes[0], bytes[1], a);
      assert bytes == [bytes[0], bytes[1]];
    } else if |bytes| >= 3 {
      UnpaddedRoundTrip(bytes[3..], a);
      RoundTripStep(bytes, a);
    }
  }

  /** One complete group in front of a text that round-trips. */
  lemma RoundTripStep(bytes: seq<Byte>, a: Alphabet)
    requires |bytes| >= 3 && DecodeUnpadded(EncodeUnpadded(bytes[3..], a), a) == Some(bytes[3..])
    ensures DecodeUnpadded(EncodeUnpadded(bytes, a), a) == Some(bytes)
  {
    DecodeGroup(bytes[0], bytes[1], bytes[2], EncodeUnpadded(bytes[3..], a), a);
    assert bytes == [bytes[0], bytes[1], bytes[2]] + bytes[3..];
  }

  lemma DecodeStripsTwo(body: string, a: Alphabet)
    requires |body| % 4 == 2
    ensures Decode(body + "==", a) == DecodeUnpadded(body, a)
  {
    var s := body + "==";
    assert Unpad(s) == body by {
      assert s[|s| - 2..] == "==";
      assert s[..|s| - 2] == body;
    }
  }

  lemma DecodeStripsOne(body: string, a: Alphabet)
    requires |body| % 4 == 3 && InAlphabet(body[|body| - 1], a)
    ensures Decode(body + "=", a) == DecodeUnpadded(body, a)
  {
    var s := body + "=";
    assert Unpad(s) == body by {
      assert s[|s| - 2] == body[|body| - 1];
      assert s[|s| - 2..] != "==";
      assert s[..|s| - 1] == body;
    }
  }

  lemma DecodeStripsNone(body: string, a: Alphabet)
    requires |body| % 4 == 0 && (body == [] || InAlphabet(body[|body| - 1], a))
    ensures Decode(body, a) == DecodeUnpadded(body, a)
  {
    assert Unpad(body) == body by {
      if body != [] {
        assert body[|body| - 2..][1] == body[|body| - 1];
      }
    }
  }

  /** The unpadded text's length modulo 4 follows from the byte count
   *  modulo 3. */
  lemma {:induction false} UnpaddedLengthMod(bytes: seq<Byte>, a: Alphabet)
    ensures |EncodeUnpadded(bytes, a)| % 4 == (if |bytes| % 3 == 0 then 0 else if |bytes| % 3 == 1 then 2 else 3)
    decreases |bytes|
  {
    var n := |bytes|;
    if n >= 3 {
      var rest := EncodeUnpadded(bytes[3..], a);
      var m := |rest|;
      UnpaddedLengthMod(bytes[3..], a);
      assert EncodeUnpadded(bytes, a) == Group(bytes[0], bytes[1], bytes[2], a) + rest;
      ModShift(m);
      ModShift(n - 3);
    } else if n == 0 {
      assert EncodeUnpadded(bytes, a) == "";
    } else if n == 1 {
      assert |EncodeUnpadded(bytes, a)| == 2;
    } else {
      assert |EncodeUnpadded(bytes, a)| == 3;
    }
  }

  lemma ModShift(m: int)
    ensures (m + 4) % 4 == m % 4 && (m + 3) % 3 == m % 3
  {
  }

  /** Decoding inverts encoding, for both alphabets. */
  lemma DecodeEncode(bytes: seq<Byte>, a: Alphabet)
    ensures Decode(Encode(bytes, a), a) == Some(bytes)
  {
    var body := EncodeUnpadded(bytes, a);
    var s := Encode(bytes, a);
    UnpaddedRoundTrip(bytes, a);
    UnpaddedLengthMod(bytes, a);
    if |bytes| % 3 == 1 {
      assert s == body + "==";
      DecodeStripsTwo(body, a);
    } else if |bytes| % 3 == 2 {
      assert s == body + "=";
      assert InAlphabet(body[|body| - 1], a);
      DecodeStripsOne(body, a);
    } else {
      assert s == body;
      assert body == [] || InAlphabet(body[|body| - 1], a);
      DecodeStripsNone(body, a);
    }
  }
}
