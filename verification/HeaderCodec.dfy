/** The header value codec of turbomcp-service: values ride as they are when a
    header can carry them, else inside the sentinel `=?base64?...?=`. */
module HeaderCodec {
  import opened Wrappers
  import opened Json
  import Decimal
  import Utf8
  import Base64

  const PREFIX: string := "=?base64?"
  const SUFFIX: string := "?="

  predicate StartsWith(s: string, p: string) { p <= s }

  predicate EndsWith(s: string, p: string) { |p| <= |s| && s[|s| - |p|..] == p }

  predicate IsBlank(c: char) { c == ' ' || c == '\t' }

  predicate IsHeaderByte(b: Utf8.byte) { 0x21 <= b <= 0x7e || b == ' ' as int || b == '\t' as int }

  predicate SentinelShaped(s: string) { StartsWith(s, PREFIX) && EndsWith(s, SUFFIX) }

  predicate IsHeaderSafe(value: string) {
    && !(value != "" && (IsBlank(value[0]) || IsBlank(value[|value| - 1])))
    && !SentinelShaped(value)
    && forall i | 0 <= i < |Utf8.Encode(value)| :: IsHeaderByte(Utf8.Encode(value)[i])
  }

  function EncodeValue(value: string): string {
    if IsHeaderSafe(value) then value
    else PREFIX + Base64.Encode(Base64.Standard, Utf8.Encode(value)) + SUFFIX
  }

  function StripPrefix(s: string, p: string): Option<string> {
    if StartsWith(s, p) then Some(s[|p|..]) else None
  }

  function StripSuffix(s: string, p: string): Option<string> {
    if EndsWith(s, p) then Some(s[..|s| - |p|]) else None
  }

  /** The text between the markers, which must not overlap. */
  function SentinelPayload(value: string): Option<string> {
    match StripPrefix(value, PREFIX)
    case None => None
    case Some(rest) => StripSuffix(rest, SUFFIX)
  }

  function DecodeValue(value: string): Option<string> {
    match SentinelPayload(value)
    case None => Some(value)
    case Some(payload) =>
      match Base64.Decode(Base64.Standard, payload)
      case None => None
      case Some(bytes) => Utf8.Decode(bytes)
  }

  /** What an HTTP field value may be: visible ASCII with blanks only inside. */
  ghost predicate LegalHeaderText(s: string) {
    && (forall i | 0 <= i < |s| :: 0x21 <= s[i] as int <= 0x7e || IsBlank(s[i]))
    && (s != "" ==> !IsBlank(s[0]) && !IsBlank(s[|s| - 1]))
  }

  lemma PayloadOfSentinel(payload: string)
    ensures SentinelPayload(PREFIX + payload + SUFFIX) == Some(payload)
  {
    var s := PREFIX + payload + SUFFIX;
    assert s[..|PREFIX|] == PREFIX;
    var rest := s[|PREFIX|..];
    assert rest == payload + SUFFIX;
    assert rest[|payload|..] == SUFFIX && rest[..|payload|] == payload;
  }

  /** Only text shaped like the sentinel has a payload. The converse fails: a short
      value such as `=?base64?=` begins and ends like the sentinel, overlapping. */
  lemma PayloadMeansShaped(value: string)
    requires SentinelPayload(value).Some?
    ensures SentinelShaped(value)
  {
    var rest := value[|PREFIX|..];
    assert value[|value| - |SUFFIX|..] == rest[|rest| - |SUFFIX|..];
  }

  /** Every string survives the header, sentinel-shaped ones included. */
  lemma Lossless(s: string)
    ensures DecodeValue(EncodeValue(s)) == Some(s)
  {
    if IsHeaderSafe(s) {
      if SentinelPayload(s).Some? { PayloadMeansShaped(s); }
    } else {
      var bytes := Utf8.Encode(s);
      PayloadOfSentinel(Base64.Encode(Base64.Standard, bytes));
      Base64.DecodeOfEncode(Base64.Standard, bytes);
      Utf8.DecodeOfEncode(s);
    }
  }

  /** So two arguments never share a header value. */
  lemma EncodeInjective(s: string, t: string)
    requires EncodeValue(s) == EncodeValue(t)
    ensures s == t
  {
    Lossless(s);
    Lossless(t);
  }

  /** Whatever is encoded, the header is legal. */
  lemma EncodedIsLegal(s: string)
    ensures LegalHeaderText(EncodeValue(s))
  {
    if IsHeaderSafe(s) {
      Utf8.AsciiTest(s, IsHeaderByte);
    } else {
      var payload := Base64.Encode(Base64.Standard, Utf8.Encode(s));
      Base64.EncodedAlphabet(Base64.Standard, Utf8.Encode(s));
      var h := PREFIX + payload + SUFFIX;
      forall i | 0 <= i < |h| ensures 0x21 <= h[i] as int <= 0x7e {
        if |PREFIX| <= i < |PREFIX| + |payload| {
          assert h[i] == payload[i - |PREFIX|];
          assert Base64.InAlphabet(Base64.Standard, h[i]);
        }
      }
    }
  }

  /** A value is left alone exactly when a header can carry it unambiguously:
      it is legal text already and does not look like a sentinel. */
  lemma LeftAloneExactly(s: string)
    ensures EncodeValue(s) == s <==> LegalHeaderText(s) && !SentinelShaped(s)
  {
    Utf8.AsciiTest(s, IsHeaderByte);
    if !IsHeaderSafe(s) {
      EncodedIsLonger(s);
    }
  }

  /** The encoding spelled out: the value itself, if it is header text that could not be
      taken for a sentinel, and else the sentinel around the Base64 of its UTF-8 bytes. */
  lemma EncodedExactly(s: string)
    ensures EncodeValue(s) ==
            if LegalHeaderText(s) && !("=?base64?" <= s && |s| >= 2 && s[|s| - 2] == '?' && s[|s| - 1] == '=') then s
            else "=?base64?" + Base64.Encode(Base64.Standard, Utf8.Encode(s)) + "?="
  {
    ShapedExactly(s);
    SafeExactly(s);
  }

  lemma ShapedExactly(s: string)
    ensures SentinelShaped(s) <==> "=?base64?" <= s && |s| >= 2 && s[|s| - 2] == '?' && s[|s| - 1] == '='
  {
    if |s| >= 2 { assert s[|s| - 2..] == [s[|s| - 2], s[|s| - 1]]; }
  }

  lemma SafeExactly(s: string)
    ensures IsHeaderSafe(s) <==> LegalHeaderText(s) && !SentinelShaped(s)
  {
    LeftAloneExactly(s);
    if !IsHeaderSafe(s) { EncodedIsLonger(s); }
  }

  lemma EncodedIsLonger(s: string)
    requires !IsHeaderSafe(s)
    ensures |EncodeValue(s)| > |s|
  {
    Base64.EncodedLength(Base64.Standard, Utf8.Encode(s));
    EncodedSizes(s);
  }

  /** Encoding never has fewer bytes than there are characters. */
  lemma {:induction false} EncodedSizes(s: string)
    ensures |Utf8.Encode(s)| >= |s|
  {
    if s != "" {
      EncodedSizes(s[1..]);
    }
  }

  // ---- rendering arguments -----------------------------------------------------------

  const JS_SAFE: int := 0x20_0000_0000_0000 - 1

  function RenderInt(i: int): string {
    if i < 0 then "-" + Decimal.Render(-i) else Decimal.Render(i)
  }

  /** `render_argument`: strings, integers in the JavaScript-safe range, booleans. */
  function RenderArgument(v: Json): Option<string> {
    match v
    case Str(s) => Some(s)
    case Int(_) =>
      var n := AsI64(v);
      if n.Some? && -JS_SAFE <= n.value <= JS_SAFE then Some(RenderInt(n.value)) else None
    case Bool(b) => Some(if b then "true" else "false")
    case _ => None
  }

  /** The number a decimal text with an optional minus sign stands for. */
  function TextValue(t: string): Option<int> {
    var digits := if t != "" && t[0] == '-' then t[1..] else t;
    if digits == "" || !Decimal.AllDigits(digits) then None
    else
      var n: int := Decimal.Value(digits);
      Some(if t[0] == '-' then -n else n)
  }

  /** What an argument is rendered as, by what the text says: a string as it is, a Boolean
      by its name, an integer that JavaScript can hold in decimal, nothing else. */
  lemma RenderedExactly(v: Json)
    ensures RenderArgument(v).Some? <==>
            v.Str? || v.Bool? || (v.Int? && -9_007_199_254_740_991 <= v.n <= 9_007_199_254_740_991)
    ensures v.Str? ==> RenderArgument(v) == Some(v.s)
    ensures RenderArgument(Bool(true)) == Some("true") && RenderArgument(Bool(false)) == Some("false")
    ensures v.Int? && RenderArgument(v).Some? ==> TextValue(RenderArgument(v).value) == Some(v.n)
  {
    if v.Int? && RenderArgument(v).Some? {
      var m: nat := if v.n < 0 then -v.n else v.n;
      Decimal.ValueOfRender(m);
      assert Decimal.IsDigit(Decimal.Render(m)[0]);
      if v.n < 0 { assert ("-" + Decimal.Render(m))[1..] == Decimal.Render(m); }
    }
  }

  lemma RenderIntInjective(i: int, j: int)
    requires RenderInt(i) == RenderInt(j)
    ensures i == j
  {
    Decimal.ValueOfRender(if i < 0 then -i else i);
    Decimal.ValueOfRender(if j < 0 then -j else j);
    assert i < 0 <==> RenderInt(i)[0] == '-' by {
      if i >= 0 { assert Decimal.IsDigit(RenderInt(i)[0]); }
    }
    assert j < 0 <==> RenderInt(j)[0] == '-' by {
      if j >= 0 { assert Decimal.IsDigit(RenderInt(j)[0]); }
    }
    if i < 0 {
      assert RenderInt(i)[1..] == Decimal.Render(-i) && RenderInt(j)[1..] == Decimal.Render(-j);
    }
  }

  /** Two arguments of one type that mirror to the same header are the same argument. */
  lemma MirrorsDetermineArguments(v: Json, w: Json)
    requires RenderArgument(v).Some? && RenderArgument(w).Some?
    requires EncodeValue(RenderArgument(v).value) == EncodeValue(RenderArgument(w).value)
    requires (v.Str? && w.Str?) || (v.Int? && w.Int?) || (v.Bool? && w.Bool?)
    ensures v == w
  {
    EncodeInjective(RenderArgument(v).value, RenderArgument(w).value);
    if v.Int? {
      RenderIntInjective(v.n, w.n);
    }
    if v.Bool? {
      assert "true"[0] != "false"[0];
    }
  }

  // ---- header names ------------------------------------------------------------------

  /** RFC 9110 `tchar`. */
  predicate IsTchar(c: char) {
    || '0' <= c <= '9' || 'a' <= c <= 'z' || 'A' <= c <= 'Z'
    || c in "!#$%&'*+-.^_`|~"
  }

  predicate IsValidHeaderName(name: string) {
    name != "" && forall i | 0 <= i < |name| :: IsTchar(name[i])
  }

  /** In the words of RFC 9110, section 5.6.2: any visible character but the delimiters. */
  lemma TcharExactly(c: char)
    ensures IsTchar(c) <==> 0x21 <= c as int <= 0x7e && c !in "\"(),/:;<=>?@[\\]{}"
  {
  }

  lemma HeaderNameExactly(name: string)
    ensures IsValidHeaderName(name) <==>
            |name| > 0 && forall c | c in name :: 0x21 <= c as int <= 0x7e && c !in "\"(),/:;<=>?@[\\]{}"
  {
    forall c | c in name ensures IsTchar(c) <==> 0x21 <= c as int <= 0x7e && c !in "\"(),/:;<=>?@[\\]{}" {
      TcharExactly(c);
    }
  }
}
