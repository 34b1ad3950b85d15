/** The signed `requestState` token of turbomcp-server: the handler's resume
    blob, bound to method, subject and an expiry by a MAC. */
module StateToken {
  import opened Wrappers
  import opened Json
  import opened Text
  import Utf8
  import Base64

  type Bytes = seq<Utf8.byte>

  const MAX_STATE_BYTES: nat := 32 * 1024
  const STATE_TTL_SECS: nat := 600
  const TAG_BYTES: nat := 32

  /** What lies outside the model: the JSON printer and parser, and HMAC-SHA256
      under the dispatcher's key. */
  datatype Primitives = Primitives(render: Json -> Bytes, parse: Bytes -> Option<Json>, mac: Bytes -> Bytes)
  {
    /** Printing can be undone and tags are 32 bytes long. */
    ghost predicate Lawful() {
      && (forall v :: parse(render(v)) == Some(v))
      && (forall b :: |mac(b)| == TAG_BYTES)
    }
  }

  datatype SignError = TooLarge

  function SubjectJson(subject: Option<string>): Json {
    if subject.Some? then Str(subject.value) else Null
  }

  function Payload(method_: string, subject: Option<string>, expires: nat, data: Json): Json {
    Obj(map["m" := Str(method_), "sub" := SubjectJson(subject), "exp" := Int(expires), "d" := data])
  }

  const B64 := Base64.UrlSafeNoPad

  function Render(payload: Bytes, tag: Bytes): string {
    "v1." + Base64.Encode(B64, payload) + "." + Base64.Encode(B64, tag)
  }

  function Sign(p: Primitives, method_: string, subject: Option<string>, data: Json, now: nat): Result<string, SignError> {
    var payload := p.render(Payload(method_, subject, now + STATE_TTL_SECS, data));
    if |payload| > MAX_STATE_BYTES then Err(TooLarge)
    else Ok(Render(payload, p.mac(payload)))
  }

  /** `splitn(3, '.')`, when it yields all three parts. */
  function SplitThree(s: string): Option<(string, string, string)> {
    var i := IndexOf(s, '.');
    if i == |s| then None
    else
      var rest := s[i + 1..];
      var j := IndexOf(rest, '.');
      if j == |rest| then None else Some((s[..i], rest[..j], rest[j + 1..]))
  }

  /** Every rejection looks the same from outside, so it is `None`. */
  function Verify(p: Primitives, method_: string, subject: Option<string>, token: string, now: nat): Option<Json> {
    if |Utf8.Encode(token)| > 2 * MAX_STATE_BYTES then None
    else match SplitThree(token)
      case None => None
      case Some((version, payload64, tag64)) =>
        if version != "v1" then None
        else match Base64.Decode(B64, payload64)
          case None => None
          case Some(payload) =>
            if Base64.Decode(B64, tag64) != Some(p.mac(payload)) then None
            else match p.parse(payload)
              case None => None
              case Some(parsed) => Check(parsed, method_, subject, now)
  }

  /** The bindings inside an authentic payload. */
  function Check(parsed: Json, method_: string, subject: Option<string>, now: nat): Option<Json> {
    var exp := AsU64(Get(parsed, "exp"));
    if AsStr(Get(parsed, "m")) != Some(method_) then None
    else if AsStr(Get(parsed, "sub")) != subject then None
    else if (if exp.Some? then exp.value else 0) < now then None
    else Some(if Get(parsed, "d").Some? then Get(parsed, "d").value else Null)
  }

  // ---- token text ----------------------------------------------------------------------

  lemma NoDots(bytes: Bytes)
    ensures forall i | 0 <= i < |Base64.Encode(B64, bytes)| ::
              Base64.Encode(B64, bytes)[i] != '.' && Base64.Encode(B64, bytes)[i] as int < 0x80
  {
    Base64.EncodedAlphabet(B64, bytes);
    var s := Base64.Encode(B64, bytes);
    forall i | 0 <= i < |s| ensures s[i] != '.' && s[i] as int < 0x80 {
      assert Base64.InAlphabet(B64, s[i]);
    }
  }

  lemma IndexOfDot(s: string, t: string)
    requires forall i | 0 <= i < |s| :: s[i] != '.'
    ensures IndexOf(s + "." + t, '.') == |s|
    ensures (s + "." + t)[..|s|] == s && (s + "." + t)[|s| + 1..] == t
  {
    assert (s + "." + t)[|s|] == '.';
  }

  lemma SplitOfRender(payload: Bytes, tag: Bytes)
    ensures SplitThree(Render(payload, tag)) == Some(("v1", Base64.Encode(B64, payload), Base64.Encode(B64, tag)))
  {
    var p64, t64 := Base64.Encode(B64, payload), Base64.Encode(B64, tag);
    NoDots(payload);
    assert Render(payload, tag) == "v1" + "." + (p64 + "." + t64);
    IndexOfDot("v1", p64 + "." + t64);
    IndexOfDot(p64, t64);
  }

  /** The guard on inbound length never meets what `sign` lets out: the payload
      is at most 32 KiB, its text a third longer, the tag 43 characters. */
  lemma TokenFits(payload: Bytes, tag: Bytes)
    requires |payload| <= MAX_STATE_BYTES && |tag| == TAG_BYTES
    ensures |Utf8.Encode(Render(payload, tag))| == 3 + (4 * |payload| + 2) / 3 + 1 + 43 <= 43_738 < 2 * MAX_STATE_BYTES
  {
    var token := Render(payload, tag);
    Base64.EncodedLength(B64, payload);
    Base64.EncodedLength(B64, tag);
    NoDots(payload);
    NoDots(tag);
    Utf8.AsciiTest(token, b => b < 0x80);
    forall i | 0 <= i < |token| ensures token[i] as int < 0x80 {
      var p64, t64 := Base64.Encode(B64, payload), Base64.Encode(B64, tag);
      if 3 <= i < 3 + |p64| {
        assert token[i] == p64[i - 3];
      } else if 4 + |p64| <= i {
        assert token[i] == t64[i - 4 - |p64|];
      }
    }
  }

  // ---- the promises ---------------------------------------------------------------------

  /** Verifying the rendering of an authentic payload comes down to its bindings, if the
      text is no longer than 64 KiB; longer text is refused unread. */
  lemma VerifyOfRender(p: Primitives, payload: Bytes, method_: string, subject: Option<string>, now: nat)
    requires p.Lawful() && p.parse(payload).Some?
    ensures var token := Render(payload, p.mac(payload));
            Verify(p, method_, subject, token, now) ==
            if |Utf8.Encode(token)| <= 65_536 then Check(p.parse(payload).value, method_, subject, now) else None
  {
    SplitOfRender(payload, p.mac(payload));
    Base64.DecodeOfEncode(B64, payload);
    Base64.DecodeOfEncode(B64, p.mac(payload));
  }

  /** A payload without an expiry counts as expired since the epoch. */
  lemma NoExpiry(parsed: Json, method_: string, subject: Option<string>, now: nat)
    requires AsU64(Get(parsed, "exp")).None?
    ensures Check(parsed, method_, subject, now).Some? <==>
            now == 0 && AsStr(Get(parsed, "m")) == Some(method_) && AsStr(Get(parsed, "sub")) == subject
  {
  }

  lemma CheckOfPayload(method_: string, subject: Option<string>, expires: nat, data: Json,
                       method': string, subject': Option<string>, now: nat)
    requires expires < U64_LIMIT
    ensures Check(Payload(method_, subject, expires, data), method', subject', now) ==
            if method' == method_ && subject' == subject && now <= expires then Some(data) else None
  {
    var parsed := Payload(method_, subject, expires, data);
    assert Get(parsed, "m") == Some(Str(method_));
    assert Get(parsed, "sub") == Some(SubjectJson(subject));
    assert Get(parsed, "exp") == Some(Int(expires));
    assert Get(parsed, "d") == Some(data);
  }

  /** A token is minted exactly if its payload, spelled out, is at most 32 KiB; and it is
      the version, the payload and its tag, in URL-safe Base64, between dots. */
  lemma SignedExactly(p: Primitives, method_: string, subject: Option<string>, data: Json, now: nat)
    ensures var sub := if subject.Some? then Str(subject.value) else Null;
            var payload := p.render(Obj(map["m" := Str(method_), "sub" := sub, "exp" := Int(now + 600), "d" := data]));
            Sign(p, method_, subject, data, now) ==
            if |payload| <= 32_768 then
              Ok("v1." + Base64.Encode(Base64.UrlSafeNoPad, payload) + "." + Base64.Encode(Base64.UrlSafeNoPad, p.mac(payload)))
            else Err(TooLarge)
  {
  }

  /** A minted token is redeemed exactly by its own method and subject, until
      600 seconds after it was signed, and then yields the handler's data. */
  lemma RedeemedExactly(p: Primitives, method_: string, subject: Option<string>, data: Json, signed: nat, token: string,
                        method': string, subject': Option<string>, now: nat)
    requires p.Lawful() && signed + STATE_TTL_SECS < U64_LIMIT
    requires Sign(p, method_, subject, data, signed) == Ok(token)
    ensures Verify(p, method', subject', token, now) ==
            if method' == method_ && subject' == subject && now <= signed + 600 then Some(data) else None
  {
    var parsed := Payload(method_, subject, signed + STATE_TTL_SECS, data);
    assert p.parse(p.render(parsed)) == Some(parsed);
    TokenFits(p.render(parsed), p.mac(p.render(parsed)));
    VerifyOfRender(p, p.render(parsed), method', subject', now);
    CheckOfPayload(method_, subject, signed + STATE_TTL_SECS, data, method', subject', now);
  }

  lemma Rejoin(s: string, i: nat)
    requires i < |s| && s[i] == '.'
    ensures s == s[..i] + "." + s[i + 1..]
  {
  }

  lemma SplitRejoins(s: string)
    requires SplitThree(s).Some?
    ensures var (a, b, c) := SplitThree(s).value; s == a + "." + b + "." + c
  {
    var i := IndexOf(s, '.');
    var rest := s[i + 1..];
    var j := IndexOf(rest, '.');
    Rejoin(s, i);
    Rejoin(rest, j);
    DotsAssociate(s[..i], rest[..j], rest[j + 1..]);
  }

  lemma DotsAssociate(a: string, b: string, c: string)
    ensures a + "." + (b + "." + c) == a + "." + b + "." + c
  {
  }

  /** Whatever text is accepted is the one rendering of an authentic payload:
      no other spelling of a token, padded, truncated or re-encoded, passes. */
  lemma AcceptedIsCanonical(p: Primitives, method_: string, subject: Option<string>, token: string, now: nat)
    returns (payload: Bytes)
    requires Verify(p, method_, subject, token, now).Some?
    ensures token == Render(payload, p.mac(payload)) && p.parse(payload).Some?
    ensures Verify(p, method_, subject, token, now) == Check(p.parse(payload).value, method_, subject, now)
  {
    var (version, payload64, tag64) := SplitThree(token).value;
    payload := Base64.Decode(B64, payload64).value;
    SplitRejoins(token);
    Base64.EncodeOfDecode(B64, payload64);
    Base64.EncodeOfDecode(B64, tag64);
    assert "v1." == "v1" + ".";
  }
}
