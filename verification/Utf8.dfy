/** UTF-8, as Rust's `str` stores text: encoding of Unicode scalar values and
    the strict decoding `String::from_utf8` performs. */
module Utf8 {
  import opened Wrappers

  type byte = x: int | 0 <= x < 256

  /** The bytes of one scalar value. */
  function EncodeChar(c: char): (bs: seq<byte>)
    ensures 1 <= |bs| <= 4
    ensures |bs| == 1 <==> c as int < 0x80
    ensures |bs| > 1 ==> forall i | 0 <= i < |bs| :: bs[i] >= 0x80
  {
    var n := c as int;
    if n < 0x80 then [n]
    else if n < 0x800 then [0xC0 + n / 64, 0x80 + n % 64]
    else if n < 0x1_0000 then [0xE0 + n / 4096, 0x80 + n / 64 % 64, 0x80 + n % 64]
    else [0xF0 + n / 262144, 0x80 + n / 4096 % 64, 0x80 + n / 64 % 64, 0x80 + n % 64]
  }

  /** `str::as_bytes`. */
  function Encode(s: string): seq<byte> {
    if s == [] then [] else EncodeChar(s[0]) + Encode(s[1..])
  }

  predicate IsContinuation(b: byte) { 0x80 <= b < 0xC0 }

  /** The six bits a continuation byte carries. */
  function Payload(b: byte): (n: nat)
    requires IsContinuation(b)
    ensures n < 64
  {
    b - 0x80
  }

  /** The first scalar value of `bs` and how many bytes it takes, if well formed:
      no overlong form, no surrogate, nothing above U+10FFFF. */
  function DecodeChar(bs: seq<byte>): (r: Option<(char, nat)>)
    requires bs != []
    ensures r.Some? ==> 1 <= r.value.1 <= |bs|
  {
    var b0: int := bs[0];
    if b0 < 0x80 then Some((b0 as char, 1))
    else if 0xC2 <= b0 < 0xE0 && |bs| >= 2 && IsContinuation(bs[1]) then
      Some((((b0 - 0xC0) * 64 + Payload(bs[1])) as char, 2))
    else if 0xE0 <= b0 < 0xF0 && |bs| >= 3 && IsContinuation(bs[1]) && IsContinuation(bs[2]) then
      var n := (b0 - 0xE0) * 4096 + Payload(bs[1]) * 64 + Payload(bs[2]);
      if n < 0x800 || 0xD800 <= n < 0xE000 then None else Some((n as char, 3))
    else if 0xF0 <= b0 < 0xF5 && |bs| >= 4 && IsContinuation(bs[1]) && IsContinuation(bs[2]) && IsContinuation(bs[3]) then
      var n := (b0 - 0xF0) * 262144 + Payload(bs[1]) * 4096 + Payload(bs[2]) * 64 + Payload(bs[3]);
      if n < 0x1_0000 || n > 0x10_FFFF then None else Some((n as char, 4))
    else None
  }

  /** `String::from_utf8`. */
  function Decode(bs: seq<byte>): Option<string> {
    if bs == [] then Some([])
    else match DecodeChar(bs)
      case None => None
      case Some((c, k)) =>
        match Decode(bs[k..])
        case None => None
        case Some(rest) => Some([c] + rest)
  }

  lemma DecodeCharOfEncode(c: char, rest: seq<byte>)
    ensures DecodeChar(EncodeChar(c) + rest) == Some((c, |EncodeChar(c)|))
  {
    var n := c as int;
    var bs := EncodeChar(c) + rest;
    if n < 0x80 {
    } else if n < 0x800 {
      assert bs[1] == 0x80 + n % 64;
    } else if n < 0x1_0000 {
      assert bs[1] == 0x80 + n / 64 % 64 && bs[2] == 0x80 + n % 64;
      assert n / 64 / 64 == n / 4096;
    } else {
      assert bs[1] == 0x80 + n / 4096 % 64 && bs[2] == 0x80 + n / 64 % 64 && bs[3] == 0x80 + n % 64;
      assert n / 64 / 64 == n / 4096 && n / 4096 / 64 == n / 262144;
    }
  }

  /** Text survives its bytes. */
  lemma {:induction false} DecodeOfEncode(s: string)
    ensures Decode(Encode(s)) == Some(s)
  {
    if s != [] {
      DecodeCharOfEncode(s[0], Encode(s[1..]));
      DecodeOfEncode(s[1..]);
      assert Encode(s)[|EncodeChar(s[0])|..] == Encode(s[1..]);
      assert s == [s[0]] + s[1..];
    }
  }

  lemma EncodeOfDecodeChar(bs: seq<byte>)
    requires bs != [] && DecodeChar(bs).Some?
    ensures var (c, k) := DecodeChar(bs).value; EncodeChar(c) == bs[..k]
  {
    var (c, k) := DecodeChar(bs).value;
    var n := c as int;
    if k == 2 {
      Bits(bs[0] - 0xC0, Payload(bs[1]));
    } else if k == 3 {
      Bits((bs[0] - 0xE0) * 64 + Payload(bs[1]), Payload(bs[2]));
      Bits(bs[0] - 0xE0, Payload(bs[1]));
      assert n / 64 == (bs[0] - 0xE0) * 64 + Payload(bs[1]) && n / 4096 == n / 64 / 64;
    } else if k == 4 {
      Bits(((bs[0] - 0xF0) * 64 + Payload(bs[1])) * 64 + Payload(bs[2]), Payload(bs[3]));
      Bits((bs[0] - 0xF0) * 64 + Payload(bs[1]), Payload(bs[2]));
      Bits(bs[0] - 0xF0, Payload(bs[1]));
      assert n / 64 == ((bs[0] - 0xF0) * 64 + Payload(bs[1])) * 64 + Payload(bs[2]);
      assert n / 4096 == n / 64 / 64 && n / 262144 == n / 4096 / 64;
    }
  }

  lemma Bits(high: nat, low: nat)
    requires low < 64
    ensures (high * 64 + low) / 64 == high && (high * 64 + low) % 64 == low
  {
  }

  /** And only the bytes of text decode: no other spelling of a character is accepted. */
  lemma {:induction false} EncodeOfDecode(bs: seq<byte>)
    requires Decode(bs).Some?
    ensures Encode(Decode(bs).value) == bs
    decreases |bs|
  {
    if bs != [] {
      var (c, k) := DecodeChar(bs).value;
      EncodeOfDecodeChar(bs);
      EncodeOfDecode(bs[k..]);
      var s := Decode(bs).value;
      assert s[1..] == Decode(bs[k..]).value;
      assert bs == bs[..k] + bs[k..];
    }
  }

  /** Examples of section 7 of RFC 3629. */
  lemma Examples()
    ensures Encode("\U{41}\U{2262}\U{391}") == [0x41, 0xE2, 0x89, 0xA2, 0xCE, 0x91]
    ensures Encode("\U{233B4}") == [0xF0, 0xA3, 0x8E, 0xB4]
  {
    var s := "\U{41}\U{2262}\U{391}";
    assert s[1..] == "\U{2262}\U{391}" && s[1..][1..] == "\U{391}" && s[1..][1..][1..] == "";
    assert "\U{233B4}"[1..] == "";
  }

  /** A test that only ASCII passes may be read byte by byte or character by character. */
  lemma {:induction false} AsciiTest(s: string, test: byte -> bool)
    requires forall b: byte | test(b) :: b < 0x80
    ensures (forall i | 0 <= i < |Encode(s)| :: test(Encode(s)[i])) <==>
            (forall i | 0 <= i < |s| :: s[i] as int < 0x80 && test(s[i] as int))
    ensures (forall i | 0 <= i < |s| :: s[i] as int < 0x80) ==> |Encode(s)| == |s|
  {
    if s != [] {
      var head, tail := EncodeChar(s[0]), Encode(s[1..]);
      AsciiTest(s[1..], test);
      assert Encode(s) == head + tail;
      assert forall i | 0 <= i < |tail| :: Encode(s)[|head| + i] == tail[i];
      assert forall i | 0 <= i < |head| :: Encode(s)[i] == head[i];
      assert forall i | 1 <= i < |s| :: s[i] == s[1..][i - 1];
      assert forall i | 0 <= i < |s| - 1 :: s[1..][i] == s[i + 1];
      if forall i | 0 <= i < |s| :: s[i] as int < 0x80 && test(s[i] as int) {
        assert s[0] as int < 0x80;
      }
      if forall i | 0 <= i < |Encode(s)| :: test(Encode(s)[i]) {
        assert test(head[0]);
        assert forall i | 0 <= i < |tail| :: test(tail[i]);
      }
    }
  }
}
