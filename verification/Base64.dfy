/** Base64 (RFC 4648): the padded standard alphabet of section 4 and the
    unpadded URL-safe alphabet of section 5, decoded strictly: canonical padding,
    no stray bits in the last character. */
module Base64 {
  import opened Wrappers
  import opened Utf8

  datatype Variant = Standard | UrlSafeNoPad
  {
    predicate Padded() { Standard? }
  }

  const PAD: char := '='

  function EncodeSextet(v: Variant, x: nat): (c: char)
    requires x < 64
  {
    if x < 26 then 'A' + x as char
    else if x < 52 then 'a' + (x - 26) as char
    else if x < 62 then '0' + (x - 52) as char
    else if x == 62 then (if v.Standard? then '+' else '-')
    else (if v.Standard? then '/' else '_')
  }

  function DecodeSextet(v: Variant, c: char): (r: Option<nat>)
    ensures r.Some? ==> r.value < 64
  {
    if 'A' <= c <= 'Z' then Some((c - 'A') as nat)
    else if 'a' <= c <= 'z' then Some((c - 'a') as nat + 26)
    else if '0' <= c <= '9' then Some((c - '0') as nat + 52)
    else if c == (if v.Standard? then '+' else '-') then Some(62)
    else if c == (if v.Standard? then '/' else '_') then Some(63)
    else None
  }

  lemma SextetRoundTrip(v: Variant, x: nat)
    requires x < 64
    ensures DecodeSextet(v, EncodeSextet(v, x)) == Some(x)
    ensures EncodeSextet(v, x) != PAD
  {
  }

  lemma SextetCanonical(v: Variant, c: char)
    requires DecodeSextet(v, c).Some?
    ensures EncodeSextet(v, DecodeSextet(v, c).value) == c && c != PAD
  {
  }

  // ---- groups of one, two and three bytes ----------------------------------------

  /** The four six-bit values of three bytes, and back. */
  function Split(a: byte, b: byte, c: byte): (x: (nat, nat, nat, nat))
    ensures x.0 < 64 && x.1 < 64 && x.2 < 64 && x.3 < 64
  {
    (a / 4, a % 4 * 16 + b / 16, b % 16 * 4 + c / 64, c % 64)
  }

  function Join(w: nat, x: nat, y: nat, z: nat): (byte, byte, byte)
    requires w < 64 && x < 64 && y < 64 && z < 64
  {
    (w * 4 + x / 16, x % 16 * 16 + y / 4, y % 4 * 64 + z)
  }

  lemma JoinSplit(a: byte, b: byte, c: byte)
    ensures var (w, x, y, z) := Split(a, b, c); Join(w, x, y, z) == (a, b, c)
    ensures Split(a, b, 0).3 == 0 && Split(a, b, 0).2 % 4 == 0
    ensures Split(a, 0, 0).2 == 0 && Split(a, 0, 0).1 % 16 == 0
  {
    Shift16(a % 4, b / 16);
    Shift4(b % 16, c / 64);
  }

  lemma Shift16(high: nat, low: nat)
    requires low < 16
    ensures (high * 16 + low) / 16 == high && (high * 16 + low) % 16 == low
  {
  }

  lemma Shift4(high: nat, low: nat)
    requires low < 4
    ensures (high * 4 + low) / 4 == high && (high * 4 + low) % 4 == low
  {
  }

  lemma Shift64(high: nat, low: nat)
    requires low < 64
    ensures (high * 64 + low) / 64 == high && (high * 64 + low) % 64 == low
  {
  }

  lemma SplitJoin(w: nat, x: nat, y: nat, z: nat)
    requires w < 64 && x < 64 && y < 64 && z < 64
    ensures var (a, b, c) := Join(w, x, y, z); Split(a, b, c) == (w, x, y, z)
  {
    Shift4(w, x / 16);
    Shift16(x % 16, y / 4);
    Shift64(y % 4, z);
    var (a, b, c) := Join(w, x, y, z);
    assert a / 4 == w && a % 4 == x / 16;
    assert b / 16 == x % 16 && b % 16 == y / 4;
    assert c / 64 == y % 4 && c % 64 == z;
    assert x / 16 * 16 + x % 16 == x && y / 4 * 4 + y % 4 == y;
  }

  function Encode1(v: Variant, a: byte): string {
    var (w, x, _, _) := Split(a, 0, 0);
    [EncodeSextet(v, w), EncodeSextet(v, x)]
  }

  function Encode2(v: Variant, a: byte, b: byte): string {
    var (w, x, y, _) := Split(a, b, 0);
    [EncodeSextet(v, w), EncodeSextet(v, x), EncodeSextet(v, y)]
  }

  function Encode3(v: Variant, a: byte, b: byte, c: byte): string {
    var (w, x, y, z) := Split(a, b, c);
    [EncodeSextet(v, w), EncodeSextet(v, x), EncodeSextet(v, y), EncodeSextet(v, z)]
  }

  function Decode1(v: Variant, s: string): Option<seq<byte>>
    requires |s| == 2
  {
    match (DecodeSextet(v, s[0]), DecodeSextet(v, s[1]))
    case (Some(w), Some(x)) => if x % 16 == 0 then Some([Join(w, x, 0, 0).0]) else None
    case _ => None
  }

  function Decode2(v: Variant, s: string): Option<seq<byte>>
    requires |s| == 3
  {
    match (DecodeSextet(v, s[0]), DecodeSextet(v, s[1]), DecodeSextet(v, s[2]))
    case (Some(w), Some(x), Some(y)) =>
      if y % 4 == 0 then var (a, b, _) := Join(w, x, y, 0); Some([a, b]) else None
    case _ => None
  }

  function Decode3(v: Variant, s: string): Option<seq<byte>>
    requires |s| == 4
  {
    match (DecodeSextet(v, s[0]), DecodeSextet(v, s[1]), DecodeSextet(v, s[2]), DecodeSextet(v, s[3]))
    case (Some(w), Some(x), Some(y), Some(z)) => var (a, b, c) := Join(w, x, y, z); Some([a, b, c])
    case _ => None
  }

  // ---- whole strings -----------------------------------------------------------------

  function Encode(v: Variant, bs: seq<byte>): string {
    if bs == [] then ""
    else if |bs| == 1 then Encode1(v, bs[0]) + (if v.Padded() then "==" else "")
    else if |bs| == 2 then Encode2(v, bs[0], bs[1]) + (if v.Padded() then "=" else "")
    else Encode3(v, bs[0], bs[1], bs[2]) + Encode(v, bs[3..])
  }

  function Decode(v: Variant, s: string): Option<seq<byte>> {
    if s == "" then Some([])
    else if v.Padded() && |s| == 4 && s[3] == PAD then
      if s[2] == PAD then Decode1(v, s[..2]) else Decode2(v, s[..3])
    else if !v.Padded() && |s| == 2 then Decode1(v, s)
    else if !v.Padded() && |s| == 3 then Decode2(v, s)
    else if |s| < 4 then None
    else match Decode3(v, s[..4])
      case None => None
      case Some(head) =>
        match Decode(v, s[4..])
        case None => None
        case Some(tail) => Some(head + tail)
  }

  lemma Group1(v: Variant, a: byte)
    ensures Decode1(v, Encode1(v, a)) == Some([a])
  {
    var (w, x, _, _) := Split(a, 0, 0);
    SextetRoundTrip(v, w);
    SextetRoundTrip(v, x);
    JoinSplit(a, 0, 0);
  }

  lemma Group2(v: Variant, a: byte, b: byte)
    ensures Decode2(v, Encode2(v, a, b)) == Some([a, b])
    ensures Encode2(v, a, b)[2] != PAD
  {
    var (w, x, y, _) := Split(a, b, 0);
    SextetRoundTrip(v, w);
    SextetRoundTrip(v, x);
    SextetRoundTrip(v, y);
    JoinSplit(a, b, 0);
  }

  lemma Group3(v: Variant, a: byte, b: byte, c: byte)
    ensures Decode3(v, Encode3(v, a, b, c)) == Some([a, b, c])
    ensures Encode3(v, a, b, c)[3] != PAD
  {
    var (w, x, y, z) := Split(a, b, c);
    SextetRoundTrip(v, w);
    SextetRoundTrip(v, x);
    SextetRoundTrip(v, y);
    SextetRoundTrip(v, z);
    JoinSplit(a, b, c);
  }

  lemma DecodeOfOne(v: Variant, a: byte)
    ensures Decode(v, Encode(v, [a])) == Some([a])
  {
    Group1(v, a);
    assert Encode(v, [a])[..2] == Encode1(v, a);
  }

  lemma DecodeOfTwo(v: Variant, a: byte, b: byte)
    ensures Decode(v, Encode(v, [a, b])) == Some([a, b])
  {
    Group2(v, a, b);
    assert Encode(v, [a, b])[..3] == Encode2(v, a, b);
  }

  lemma DecodeOfMore(v: Variant, a: byte, b: byte, c: byte, rest: seq<byte>)
    requires Decode(v, Encode(v, rest)) == Some(rest)
    ensures Decode(v, Encode(v, [a, b, c] + rest)) == Some([a, b, c] + rest)
  {
    assert ([a, b, c] + rest)[3..] == rest;
    Group3(v, a, b, c);
    DecodeQuad(v, Encode3(v, a, b, c), Encode(v, rest));
  }

  /** Decoding inverts encoding for every byte length. */
  lemma {:induction false} DecodeOfEncode(v: Variant, bs: seq<byte>)
    ensures Decode(v, Encode(v, bs)) == Some(bs)
  {
    if bs == [] {
    } else if |bs| == 1 {
      DecodeOfOne(v, bs[0]);
      assert bs == [bs[0]];
    } else if |bs| == 2 {
      DecodeOfTwo(v, bs[0], bs[1]);
      assert bs == [bs[0], bs[1]];
    } else {
      var a, b, c, rest := bs[0], bs[1], bs[2], bs[3..];
      DecodeOfEncode(v, rest);
      DecodeOfMore(v, a, b, c, rest);
      assert bs == [a, b, c] + rest;
    }
  }

  lemma DecodeQuad(v: Variant, head: string, tail: string)
    requires |head| == 4 && head[3] != PAD && Decode3(v, head).Some? && Decode(v, tail).Some?
    ensures Decode(v, head + tail) == Some(Decode3(v, head).value + Decode(v, tail).value)
  {
    var s := head + tail;
    assert s[..4] == head && s[4..] == tail;
  }

  /** And nothing but the encoding decodes: accepted text is canonical. */
  lemma {:induction false} EncodeOfDecode(v: Variant, s: string)
    requires Decode(v, s).Some?
    ensures Encode(v, Decode(v, s).value) == s
  {
    if s == "" {
    } else if v.Padded() && |s| == 4 && s[3] == PAD {
      if s[2] == PAD {
        Canonical1(v, s[..2]);
        assert s == s[..2] + "==";
      } else {
        Canonical2(v, s[..3]);
        assert s == s[..3] + "=";
      }
    } else if !v.Padded() && |s| == 2 {
      Canonical1(v, s);
    } else if !v.Padded() && |s| == 3 {
      Canonical2(v, s);
    } else {
      Canonical3(v, s[..4]);
      EncodeOfDecode(v, s[4..]);
      var head, tail := Decode3(v, s[..4]).value, Decode(v, s[4..]).value;
      assert (head + tail)[3..] == tail;
      assert s == s[..4] + s[4..];
    }
  }

  lemma Canonical1(v: Variant, s: string)
    requires |s| == 2 && Decode1(v, s).Some?
    ensures |Decode1(v, s).value| == 1 && Encode1(v, Decode1(v, s).value[0]) == s
  {
    SextetCanonical(v, s[0]);
    SextetCanonical(v, s[1]);
    SplitJoin(DecodeSextet(v, s[0]).value, DecodeSextet(v, s[1]).value, 0, 0);
  }

  lemma Canonical2(v: Variant, s: string)
    requires |s| == 3 && Decode2(v, s).Some?
    ensures var r := Decode2(v, s).value; |r| == 2 && Encode2(v, r[0], r[1]) == s
  {
    SextetCanonical(v, s[0]);
    SextetCanonical(v, s[1]);
    SextetCanonical(v, s[2]);
    SplitJoin(DecodeSextet(v, s[0]).value, DecodeSextet(v, s[1]).value, DecodeSextet(v, s[2]).value, 0);
  }

  lemma Canonical3(v: Variant, s: string)
    requires |s| == 4 && Decode3(v, s).Some?
    ensures var r := Decode3(v, s).value; |r| == 3 && Encode3(v, r[0], r[1], r[2]) == s
  {
    SextetCanonical(v, s[0]);
    SextetCanonical(v, s[1]);
    SextetCanonical(v, s[2]);
    SextetCanonical(v, s[3]);
    SplitJoin(DecodeSextet(v, s[0]).value, DecodeSextet(v, s[1]).value,
              DecodeSextet(v, s[2]).value, DecodeSextet(v, s[3]).value);
  }

  // ---- shape of encoded text -------------------------------------------------------

  predicate InAlphabet(v: Variant, c: char) {
    DecodeSextet(v, c).Some? || (v.Padded() && c == PAD)
  }

  ghost predicate AllInAlphabet(v: Variant, s: string) { forall i | 0 <= i < |s| :: InAlphabet(v, s[i]) }

  lemma GroupAlphabet(v: Variant, a: byte, b: byte, c: byte)
    ensures AllInAlphabet(v, Encode1(v, a)) && AllInAlphabet(v, Encode2(v, a, b)) && AllInAlphabet(v, Encode3(v, a, b, c))
  {
    forall x: nat | x < 64 ensures InAlphabet(v, EncodeSextet(v, x)) {
      SextetRoundTrip(v, x);
    }
  }

  lemma {:induction false} EncodedAlphabet(v: Variant, bs: seq<byte>)
    ensures AllInAlphabet(v, Encode(v, bs))
  {
    if bs != [] {
      GroupAlphabet(v, bs[0], if |bs| > 1 then bs[1] else 0, if |bs| > 2 then bs[2] else 0);
      if |bs| > 2 {
        EncodedAlphabet(v, bs[3..]);
        assert Encode(v, bs) == Encode3(v, bs[0], bs[1], bs[2]) + Encode(v, bs[3..]);
      }
    }
  }

  /** How many characters n bytes take. */
  function TextLength(v: Variant, n: nat): nat {
    if v.Padded() then (n + 2) / 3 * 4 else (4 * n + 2) / 3
  }

  lemma TextLengthStep(v: Variant, n: nat)
    ensures TextLength(v, n + 3) == 4 + TextLength(v, n)
  {
  }

  /** Padded text is a whole number of quads; unpadded text of n bytes is
      the ceiling of 4n/3 characters long. */
  lemma {:induction false} EncodedLength(v: Variant, bs: seq<byte>)
    ensures |Encode(v, bs)| == TextLength(v, |bs|)
  {
    if |bs| > 2 {
      EncodedLength(v, bs[3..]);
      TextLengthStep(v, |bs| - 3);
      assert |Encode(v, bs)| == 4 + |Encode(v, bs[3..])|;
    }
  }

  // ---- the standard's own words -----------------------------------------------------

  /** Table 1 and table 2 of RFC 4648: A to Z, a to z, 0 to 9 in order, then two characters
      in which the alphabets differ. */
  lemma AlphabetExactly(v: Variant, x: nat)
    requires x < 64
    ensures 0 <= x < 26 ==> EncodeSextet(v, x) as int == 65 + x
    ensures 26 <= x < 52 ==> EncodeSextet(v, x) as int == 97 + (x - 26)
    ensures 52 <= x < 62 ==> EncodeSextet(v, x) as int == 48 + (x - 52)
    ensures EncodeSextet(Standard, 62) == '+' && EncodeSextet(Standard, 63) == '/'
    ensures EncodeSextet(UrlSafeNoPad, 62) == '-' && EncodeSextet(UrlSafeNoPad, 63) == '_'
  {
  }

  /** Three bytes are one number of 24 bits, read six bits at a time from the top. */
  lemma SplitIsBigEndian(a: byte, b: byte, c: byte)
    ensures var (w, x, y, z) := Split(a, b, c);
            w * 262_144 + x * 4_096 + y * 64 + z == a * 65_536 + b * 256 + c
  {
  }

  /** Every group of three bytes takes four characters; a last one or two bytes take two
      or three, of the bits that are there and zeros, and `=` to make four in the
      standard form only. */
  lemma {:induction false} GroupsExactly(v: Variant, bs: seq<byte>)
    requires bs != []
    ensures var s, n := Encode(v, bs), |bs|;
            var (a, b, c) := (bs[0], if n > 1 then bs[1] else 0, if n > 2 then bs[2] else 0);
            var (w, x, y, z) := Split(a, b, c);
            && |s| >= 2 && s[0] == EncodeSextet(v, w) && s[1] == EncodeSextet(v, x)
            && (n == 1 ==> s[2..] == if v.Standard? then "==" else "")
            && (n == 2 ==> |s| >= 3 && s[2] == EncodeSextet(v, y) && s[3..] == if v.Standard? then "=" else "")
            && (n >= 3 ==> |s| >= 4 && s[2] == EncodeSextet(v, y) && s[3] == EncodeSextet(v, z) && s[4..] == Encode(v, bs[3..]))
  {
  }
}
