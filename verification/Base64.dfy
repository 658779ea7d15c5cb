/** Base64 as the keystore and the use tokens use it: sections 4 and 5 of RFC 4648. */
module Base64 {
  import opened Common

  type Byte = x: int | 0 <= x < 256
  type Sextet = x: int | 0 <= x < 64

  // ---- bytes and sextets ----------------------------------------------------------------------------

  // The four sextets of three bytes, and the three bytes of four sextets.
  function S0(x: Byte): Sextet { x / 4 }
  function S1(x: Byte, y: Byte): Sextet { x % 4 * 16 + y / 16 }
  function S2(y: Byte, z: Byte): Sextet { y % 16 * 4 + z / 64 }
  function S3(z: Byte): Sextet { z % 64 }

  function B0(s: Sextet, t: Sextet): Byte { var n: int := s; n * 4 + t / 16 }
  function B1(t: Sextet, u: Sextet): Byte { var n: int := t % 16; n * 16 + u / 4 }
  function B2(u: Sextet, v: Sextet): Byte { var n: int := u % 4; n * 64 + v }

  function Sextets(b: seq<Byte>): (s: seq<Sextet>) {
    if b == [] then []
    else if |b| == 1 then [S0(b[0]), S1(b[0], 0)]
    else if |b| == 2 then [S0(b[0]), S1(b[0], b[1]), S2(b[1], 0)]
    else [S0(b[0]), S1(b[0], b[1]), S2(b[1], b[2]), S3(b[2])] + Sextets(b[3..])
  }

  /** Strict decoding: a dangling sextet or non-zero spare bits are errors. */
  function Bytes(s: seq<Sextet>): (b: Option<seq<Byte>>) {
    if s == [] then Some([])
    else if |s| == 1 then None
    else if |s| == 2 then if s[1] % 16 == 0 then Some([B0(s[0], s[1])]) else None
    else if |s| == 3 then if s[2] % 4 == 0 then Some([B0(s[0], s[1]), B1(s[1], s[2])]) else None
    else
      var rest := Bytes(s[4..]);
      if rest.None? then None else Some([B0(s[0], s[1]), B1(s[1], s[2]), B2(s[2], s[3])] + rest.value)
  }

  lemma BytesOfQuad(x: Byte, y: Byte, z: Byte)
    ensures B0(S0(x), S1(x, y)) == x
    ensures B1(S1(x, y), S2(y, z)) == y
    ensures B2(S2(y, z), S3(z)) == z
  {
  }

  lemma QuadOfBytes(s: Sextet, t: Sextet, u: Sextet, v: Sextet)
    ensures S0(B0(s, t)) == s
    ensures S1(B0(s, t), B1(t, u)) == t && (t % 16 == 0 ==> S1(B0(s, t), 0) == t)
    ensures S2(B1(t, u), B2(u, v)) == u && (u % 4 == 0 ==> S2(B1(t, u), 0) == u)
    ensures S3(B2(u, v)) == v
  {
  }

  lemma BytesCons(s: Sextet, t: Sextet, u: Sextet, v: Sextet, rest: seq<Sextet>)
    ensures Bytes([s, t, u, v] + rest) ==
            if Bytes(rest).None? then None else Some([B0(s, t), B1(t, u), B2(u, v)] + Bytes(rest).value)
  {
    assert ([s, t, u, v] + rest)[4..] == rest;
  }

  lemma SextetsCons(x: Byte, y: Byte, z: Byte, rest: seq<Byte>)
    ensures Sextets([x, y, z] + rest) == [S0(x), S1(x, y), S2(y, z), S3(z)] + Sextets(rest)
  {
    assert ([x, y, z] + rest)[3..] == rest;
  }

  lemma SpareBitsZero(x: Byte)
    ensures S1(x, 0) % 16 == 0 && S2(x, 0) % 4 == 0
  {
  }

  lemma ShortGroups(s: Sextet, t: Sextet, u: Sextet)
    ensures t % 16 == 0 ==> Bytes([s, t]) == Some([B0(s, t)])
    ensures u % 4 == 0 ==> Bytes([s, t, u]) == Some([B0(s, t), B1(t, u)])
  {
  }

  lemma ShortSextets(x: Byte, y: Byte)
    ensures Sextets([x]) == [S0(x), S1(x, 0)]
    ensures Sextets([x, y]) == [S0(x), S1(x, y), S2(y, 0)]
  {
  }

  lemma BytesOfOne(x: Byte)
    ensures Bytes(Sextets([x])) == Some([x])
  {
    ShortSextets(x, 0);
    SpareBitsZero(x);
    ShortGroups(S0(x), S1(x, 0), 0);
    BytesOfQuad(x, 0, 0);
  }

  lemma BytesOfTwo(x: Byte, y: Byte)
    ensures Bytes(Sextets([x, y])) == Some([x, y])
  {
    ShortSextets(x, y);
    SpareBitsZero(y);
    ShortGroups(S0(x), S1(x, y), S2(y, 0));
    BytesOfQuad(x, y, 0);
  }

  lemma {:induction false} BytesOfSextets(b: seq<Byte>)
    ensures Bytes(Sextets(b)) == Some(b)
  {
    if |b| == 1 {
      BytesOfOne(b[0]);
      assert b == [b[0]];
    } else if |b| == 2 {
      BytesOfTwo(b[0], b[1]);
      assert b == [b[0], b[1]];
    } else if |b| >= 3 {
      var x, y, z, rest := b[0], b[1], b[2], b[3..];
      assert b == [x, y, z] + rest;
      BytesOfSextets(rest);
      SextetsCons(x, y, z, rest);
      BytesCons(S0(x), S1(x, y), S2(y, z), S3(z), Sextets(rest));
      BytesOfQuad(x, y, z);
    }
  }

  lemma SextetsOfShort(s: seq<Sextet>)
    requires |s| < 4 && Bytes(s).Some?
    ensures Sextets(Bytes(s).value) == s
  {
    if |s| == 3 {
      QuadOfBytes(s[0], s[1], s[2], 0);
      assert s == [s[0], s[1], s[2]];
    } else if |s| == 2 {
      QuadOfBytes(s[0], s[1], 0, 0);
      assert s == [s[0], s[1]];
    }
  }

  lemma {:induction false} SextetsOfBytes(s: seq<Sextet>)
    requires Bytes(s).Some?
    ensures Sextets(Bytes(s).value) == s
  {
    if |s| < 4 {
      SextetsOfShort(s);
    } else {
      var t, u, v, w, rest := s[0], s[1], s[2], s[3], s[4..];
      assert s == [t, u, v, w] + rest;
      BytesCons(t, u, v, w, rest);
      SextetsOfBytes(rest);
      SextetsCons(B0(t, u), B1(u, v), B2(v, w), Bytes(rest).value);
      QuadOfBytes(t, u, v, w);
    }
  }

  /** `b` bytes take `s` sextets: three to four, with a shorter last group. */
  predicate Fits(b: nat, s: nat) {
    if b < 3 || s < 4 then (b == 0 && s == 0) || (b == 1 && s == 2) || (b == 2 && s == 3) else Fits(b - 3, s - 4)
  }

  lemma {:induction false} SextetsFit(b: seq<Byte>)
    ensures Fits(|b|, |Sextets(b)|)
  {
    if |b| >= 3 {
      SextetsFit(b[3..]);
    }
  }

  lemma {:induction false} FitsPadding(b: nat, s: nat)
    requires Fits(b, s)
    ensures (s + Padding(b)) % 4 == 0 && Padding(b) <= 2
  {
    if b >= 3 && s >= 4 {
      FitsPadding(b - 3, s - 4);
    }
  }

  lemma PaddingUnique(s: nat, p: nat, q: nat)
    requires p <= 2 && q <= 2 && (s + p) % 4 == 0 && (s + q) % 4 == 0
    ensures p == q
  {
  }

  // ---- alphabets ------------------------------------------------------------------------------------

  datatype Alphabet = Standard | UrlSafe

  function CharOf(a: Alphabet, x: Sextet): (c: char) {
    if x < 26 then ('A' as int + x) as char
    else if x < 52 then ('a' as int + x - 26) as char
    else if x < 62 then ('0' as int + x - 52) as char
    else if a.Standard? then (if x == 62 then '+' else '/')
    else if x == 62 then '-' else '_'
  }

  function SextetOf(a: Alphabet, c: char): (x: Option<Sextet>)
    ensures x.Some? ==> CharOf(a, x.value) == c
    ensures forall y: Sextet :: CharOf(a, y) == c ==> x == Some(y)
  {
    if 'A' <= c <= 'Z' then Some(c as int - 'A' as int)
    else if 'a' <= c <= 'z' then Some(c as int - 'a' as int + 26)
    else if '0' <= c <= '9' then Some(c as int - '0' as int + 52)
    else if c == (if a.Standard? then '+' else '-') then Some(62)
    else if c == (if a.Standard? then '/' else '_') then Some(63)
    else None
  }

  function Chars(a: Alphabet, s: seq<Sextet>): (t: string)
    ensures |t| == |s| && forall i :: 0 <= i < |s| ==> t[i] == CharOf(a, s[i])
  {
    if s == [] then "" else [CharOf(a, s[0])] + Chars(a, s[1..])
  }

  function Unchars(a: Alphabet, t: string): (s: Option<seq<Sextet>>)
    ensures s.Some? ==> |s.value| == |t| && forall i :: 0 <= i < |t| ==> SextetOf(a, t[i]) == Some(s.value[i])
    ensures s.None? ==> exists c <- t :: SextetOf(a, c).None?
  {
    if t == "" then Some([])
    else
      var first, rest := SextetOf(a, t[0]), Unchars(a, t[1..]);
      if first.Some? && rest.Some? then Some([first.value] + rest.value) else None
  }

  lemma CharsRoundTrip(a: Alphabet, s: seq<Sextet>)
    ensures Unchars(a, Chars(a, s)) == Some(s)
  {
    var t := Chars(a, s);
    assert forall i :: 0 <= i < |s| ==> SextetOf(a, t[i]) == Some(s[i]);
    assert forall c <- t :: SextetOf(a, c).Some?;
    assert Unchars(a, t).value == s;
  }

  lemma UncharsRoundTrip(a: Alphabet, t: string)
    requires Unchars(a, t).Some?
    ensures Chars(a, Unchars(a, t).value) == t
  {
  }

  // ---- the padded standard form -------------------------------------------------------------------

  /** Characters needed to complete the last group of four. */
  function Padding(n: nat): (p: nat)
    ensures p <= 2
  {
    if n >= 3 then Padding(n - 3) else if n == 0 then 0 else 3 - n
  }

  function Pads(p: nat): (t: string)
    requires p <= 2
    ensures |t| == p
  {
    if p == 0 then "" else if p == 1 then ['='] else ['=', '=']
  }

  function Encode(b: seq<Byte>): (t: string) {
    Chars(Standard, Sextets(b)) + Pads(Padding(|b|))
  }

  /** How many of the last two characters are padding. */
  function PadLength(t: string): (p: nat)
    ensures p <= 2 && p <= |t|
  {
    if |t| >= 2 && t[|t| - 2] == '=' && t[|t| - 1] == '=' then 2
    else if |t| >= 1 && t[|t| - 1] == '=' then 1
    else 0
  }

  function DecodeBody(body: string): (b: Option<seq<Byte>>) {
    var s := Unchars(Standard, body);
    if s.None? then None else Bytes(s.value)
  }

  function Decode(t: string): (b: Option<seq<Byte>>) {
    if |t| % 4 != 0 then None else DecodeBody(t[..|t| - PadLength(t)])
  }

  lemma CharsAvoidPad(a: Alphabet, s: seq<Sextet>)
    ensures '=' !in Chars(a, s)
  {
  }

  lemma PadLengthOf(body: string, p: nat)
    requires '=' !in body && p <= 2
    ensures PadLength(body + Pads(p)) == p && (body + Pads(p))[..|body|] == body
  {
    assert body != "" ==> body[|body| - 1] in body;
  }

  lemma SplitPads(t: string)
    ensures t == t[..|t| - PadLength(t)] + Pads(PadLength(t))
  {
  }

  lemma DecodePadded(body: string, p: nat)
    requires '=' !in body && p <= 2 && (|body| + p) % 4 == 0
    ensures Decode(body + Pads(p)) == DecodeBody(body)
  {
    PadLengthOf(body, p);
  }

  lemma {:induction false} BodyRoundTrip(b: seq<Byte>)
    ensures DecodeBody(Chars(Standard, Sextets(b))) == Some(b)
  {
    CharsRoundTrip(Standard, Sextets(b));
    BytesOfSextets(b);
  }

  /** Decoding undoes encoding, for every byte string. */
  lemma {:induction false} EncodeRoundTrip(b: seq<Byte>)
    ensures Decode(Encode(b)) == Some(b)
  {
    CharsAvoidPad(Standard, Sextets(b));
    SextetsFit(b);
    FitsPadding(|b|, |Sextets(b)|);
    DecodePadded(Chars(Standard, Sextets(b)), Padding(|b|));
    BodyRoundTrip(b);
  }

  lemma {:induction false} BodyCanonical(body: string)
    requires DecodeBody(body).Some?
    ensures var b := DecodeBody(body).value;
            Chars(Standard, Sextets(b)) == body && Fits(|b|, |body|)
  {
    var s := Unchars(Standard, body).value;
    SextetsOfBytes(s);
    UncharsRoundTrip(Standard, body);
    SextetsFit(Bytes(s).value);
  }

  lemma PadsCanonical(body: string, p: nat, b: seq<Byte>)
    requires p <= 2 && (|body| + p) % 4 == 0 && DecodeBody(body) == Some(b)
    ensures Encode(b) == body + Pads(p)
  {
    BodyCanonical(body);
    FitsPadding(|b|, |body|);
    PaddingUnique(|body|, p, Padding(|b|));
  }

  /** Only canonical text decodes: every accepted string is the encoding of what it decodes to. */
  lemma {:induction false} DecodeIsCanonical(t: string)
    requires Decode(t).Some?
    ensures Encode(Decode(t).value) == t
  {
    var p := PadLength(t);
    SplitPads(t);
    PadsCanonical(t[..|t| - p], p, Decode(t).value);
  }

  // ---- the unpadded URL-safe form -----------------------------------------------------------------

  function EncodeUrl(b: seq<Byte>): (t: string) {
    Chars(UrlSafe, Sextets(b))
  }

  /** Different byte strings have different texts. */
  lemma UrlFormInjective(a: seq<Byte>, b: seq<Byte>)
    ensures EncodeUrl(a) == EncodeUrl(b) ==> a == b
  {
    CharsRoundTrip(UrlSafe, Sextets(a));
    CharsRoundTrip(UrlSafe, Sextets(b));
    BytesOfSextets(a);
    BytesOfSextets(b);
  }

  lemma {:induction false} UrlFormLength(b: seq<Byte>)
    ensures |b| == 32 ==> |EncodeUrl(b)| == 43
  {
    SextetsFit(b);
    if |b| == 32 {
      FitsExactly(10, 32, |Sextets(b)|);
    }
  }

  lemma {:induction false} FitsExactly(groups: nat, b: nat, s: nat)
    requires Fits(b, s) && b == 3 * groups + 2
    ensures s == 4 * groups + 3
  {
    if groups > 0 {
      FitsExactly(groups - 1, b - 3, s - 4);
    }
  }

  // ---- the alphabets and vectors of RFC 4648 --------------------------------------------------------

  /** The alphabets of tables 1 and 2 of RFC 4648. */
  lemma AlphabetIsTable(x: Sextet)
    ensures CharOf(Standard, 0) == 'A' && CharOf(Standard, 25) == 'Z' && CharOf(Standard, 26) == 'a'
    ensures CharOf(Standard, 51) == 'z' && CharOf(Standard, 52) == '0' && CharOf(Standard, 61) == '9'
    ensures x < 61 && x != 25 && x != 51 ==> CharOf(Standard, x + 1) as int == CharOf(Standard, x) as int + 1
    ensures x < 62 ==> CharOf(UrlSafe, x) == CharOf(Standard, x)
    ensures CharOf(Standard, 62) == '+' && CharOf(UrlSafe, 62) == '-'
    ensures CharOf(Standard, 63) == '/' && CharOf(UrlSafe, 63) == '_'
  {
  }

  /** Test vectors of section 10 of RFC 4648: "f" and "fo", and "foob" across a group without its padding. */
  lemma Vectors()
    ensures Encode([0x66]) == "Zg==" && Encode([0x66, 0x6f]) == "Zm8="
  {
    assert Sextets([0x66]) == [25, 32] && Sextets([0x66, 0x6f]) == [25, 38, 60];
  }

  lemma GroupVector()
    ensures EncodeUrl([0x66, 0x6f, 0x6f, 0x62]) == "Zm9vYg"
  {
    var foob: seq<Byte> := [0x66, 0x6f, 0x6f, 0x62];
    assert foob[3..] == [0x62] && Sextets([0x62]) == [24, 32];
    assert Sextets(foob) == [25, 38, 61, 47, 24, 32];
  }
}
