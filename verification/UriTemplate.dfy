/** URI template matching of turbomcp-server, and the variable scanner the
    `#[server]` macro runs on the same template at compile time. */
module UriTemplate {
  import opened Wrappers
  import opened Text

  /** A template compiles to literal spans and variables; `{+v}` spans path segments. */
  datatype Piece = Lit(text: string) | Var(name: string, reserved: bool)

  predicate IsWordChar(c: char) {
    'a' <= c <= 'z' || 'A' <= c <= 'Z' || '0' <= c <= '9' || c == '_'
  }

  predicate IsVarName(name: string) {
    name != "" && forall i | 0 <= i < |name| :: IsWordChar(name[i])
  }

  function StripPlus(raw: string): string {
    if raw != "" && raw[0] == '+' then raw[1..] else raw
  }

  /** The next braces of a template: the text before, inside and after them. */
  datatype Scan = NoneLeft | Unclosed | Braces(before: string, inside: string, after: string)

  function NextBraces(s: string): (r: Scan)
    ensures r.Braces? ==> |r.after| < |s|
  {
    var open := IndexOf(s, '{');
    if open == |s| then NoneLeft
    else
      var close := open + IndexOf(s[open..], '}');
      if close == |s| then Unclosed
      else Braces(s[..open], s[open + 1..close], s[close + 1..])
  }

  function VarPiece(inside: string): Piece {
    Var(StripPlus(inside), inside != "" && inside[0] == '+')
  }

  /** The pieces of a well-formed template. */
  function Parse(template: string): Option<seq<Piece>>
    decreases |template|
  {
    match NextBraces(template)
    case NoneLeft => Some([Lit(template)])
    case Unclosed => None
    case Braces(before, inside, after) =>
      if !IsVarName(StripPlus(inside)) then None
      else match Parse(after)
        case None => None
        case Some(rest) => Some([Lit(before), VarPiece(inside)] + rest)
  }

  function Names(ps: seq<Piece>): seq<string> {
    if ps == [] then []
    else if ps[0].Var? then [ps[0].name] + Names(ps[1..]) else Names(ps[1..])
  }

  // ---- what a template says ------------------------------------------------------------

  /** How a piece is written. */
  function SpellPiece(p: Piece): string {
    match p
    case Lit(text) => text
    case Var(name, reserved) => "{" + (if reserved then "+" else "") + name + "}"
  }

  function Spell(ps: seq<Piece>): string {
    if ps == [] then "" else SpellPiece(ps[0]) + Spell(ps[1..])
  }

  /** A name as the macro admits it: ASCII letters, digits and underscores. */
  predicate IsWord(name: string) {
    name != "" &&
    forall i | 0 <= i < |name| :: 65 <= name[i] as int <= 90 || 97 <= name[i] as int <= 122 || 48 <= name[i] as int <= 57 || name[i] == '_'
  }

  /** Literals without an opening brace, one before, between and after the variables,
      whose names are words. */
  predicate IsTemplate(ps: seq<Piece>) {
    && ps != [] && ps[0].Lit? && '{' !in ps[0].text
    && (|ps| > 1 ==> ps[1].Var? && IsWord(ps[1].name) && IsTemplate(ps[2..]))
  }

  lemma VarNames(name: string)
    ensures IsVarName(name) <==> IsWord(name)
  {
  }

  /** What stands between braces, once split off. */
  function Inside(name: string, reserved: bool): string { (if reserved then "+" else "") + name }

  lemma InsideStripped(name: string, reserved: bool)
    requires IsVarName(name)
    ensures StripPlus(Inside(name, reserved)) == name && VarPiece(Inside(name, reserved)) == Var(name, reserved)
  {
    assert IsWordChar(name[0]);
    if reserved { assert ("+" + name)[1..] == name; }
  }

  lemma SplitAt(s: string, i: nat)
    requires i < |s|
    ensures s == s[..i] + [s[i]] + s[i + 1..]
  {
  }

  lemma BracesSpelled(s: string)
    requires NextBraces(s).Braces?
    ensures var b := NextBraces(s);
            '{' !in b.before && '}' !in b.inside && s == b.before + "{" + b.inside + "}" + b.after
  {
    var open := IndexOf(s, '{');
    var tail, rest := s[open..], s[open + 1..];
    var close := IndexOf(tail, '}') - 1;
    SplitAt(s, open);
    assert rest == tail[1..];
    SplitAt(rest, close);
    NoneBefore(tail, close);
    var b := NextBraces(s);
    assert b.inside == rest[..close] && b.after == rest[close + 1..];
    Rebrace(b.before, b.inside, b.after);
  }

  lemma NoneBefore(tail: string, close: nat)
    requires IndexOf(tail, '}') == close + 1 && close + 1 <= |tail|
    ensures '}' !in tail[1..][..close]
  {
    forall i | 0 <= i < close ensures tail[1..][..close][i] != '}' {
      assert tail[1..][..close][i] == tail[i + 1];
    }
  }

  lemma Rebrace(before: string, inside: string, after: string)
    ensures before + "{" + (inside + "}" + after) == before + "{" + inside + "}" + after
  {
  }

  lemma BracesAt(s: string, open: nat, tail: string, close: nat)
    requires open < |s| && IndexOf(s, '{') == open && tail == s[open..]
    requires 0 < close < |tail| && IndexOf(tail, '}') == close
    ensures NextBraces(s) == Braces(s[..open], tail[1..close], tail[close + 1..])
  {
    assert s[open + 1..open + close] == tail[1..close];
    assert s[open + close + 1..] == tail[close + 1..];
  }

  lemma NextOfSpelled(before: string, inside: string, after: string)
    requires '{' !in before && '}' !in inside
    ensures NextBraces(before + "{" + inside + "}" + after) == Braces(before, inside, after)
  {
    var tail := "{" + (inside + "}" + after);
    OpenOf(before, inside, after);
    CloseOf(inside, after);
    Rejoin(before, inside, after);
    BracesAt(before + tail, |before|, tail, |inside| + 1);
  }

  lemma Rejoin(before: string, inside: string, after: string)
    ensures before + "{" + inside + "}" + after == before + ("{" + (inside + "}" + after))
  {
    Rebrace(before, inside, after);
  }

  lemma OpenOf(before: string, inside: string, after: string)
    requires '{' !in before
    ensures var s := before + ("{" + (inside + "}" + after));
            IndexOf(s, '{') == |before| && s[..|before|] == before && s[|before|..] == "{" + (inside + "}" + after)
  {
    var tail := "{" + (inside + "}" + after);
    var s := before + tail;
    assert s[|before|] == tail[0];
    IndexIs(s, '{', |before|);
  }

  lemma CloseOf(inside: string, after: string)
    requires '}' !in inside
    ensures var tail := "{" + (inside + "}" + after);
            IndexOf(tail, '}') == |inside| + 1 && tail[1..|inside| + 1] == inside && tail[|inside| + 2..] == after
  {
    var rest := inside + "}" + after;
    var tail := "{" + rest;
    assert rest[|inside|] == '}' && tail[|inside| + 1] == rest[|inside|];
    forall i | 0 <= i < |inside| + 1 ensures tail[i] != '}' {
      if i > 0 { assert tail[i] == inside[i - 1]; }
    }
    IndexIs(tail, '}', |inside| + 1);
  }

  lemma IndexIs(s: string, c: char, i: nat)
    requires i < |s| && s[i] == c && forall j | 0 <= j < i :: s[j] != c
    ensures IndexOf(s, c) == i
  {
  }

  lemma NoBraces(s: string)
    ensures NextBraces(s).NoneLeft? <==> '{' !in s
  {
  }

  lemma SpellTwo(before: string, name: string, reserved: bool, rest: seq<Piece>)
    ensures Spell([Lit(before), Var(name, reserved)] + rest) == before + "{" + Inside(name, reserved) + "}" + Spell(rest)
  {
    var ps := [Lit(before), Var(name, reserved)] + rest;
    assert ps[1..] == [Var(name, reserved)] + rest && ps[1..][1..] == rest;
    assert SpellPiece(ps[1]) == "{" + (Inside(name, reserved) + "}");
    var tail := Spell(rest);
    assert "{" + (Inside(name, reserved) + "}") + tail == "{" + (Inside(name, reserved) + "}" + tail);
    assert before + ("{" + (Inside(name, reserved) + "}" + tail)) == before + "{" + (Inside(name, reserved) + "}" + tail);
    Rebrace(before, Inside(name, reserved), tail);
  }

  lemma PieceOfInside(inside: string)
    requires IsVarName(StripPlus(inside))
    ensures VarPiece(inside).name == StripPlus(inside)
    ensures inside == Inside(VarPiece(inside).name, VarPiece(inside).reserved)
  {
  }

  lemma {:induction false} ParseSound(template: string)
    requires Parse(template).Some?
    ensures IsTemplate(Parse(template).value) && Spell(Parse(template).value) == template
    decreases |template|
  {
    var b := NextBraces(template);
    if b.NoneLeft? {
      NoBraces(template);
      assert [Lit(template)][1..] == [];
    } else {
      BracesSpelled(template);
      ParseSound(b.after);
      PieceOfInside(b.inside);
      VarNames(StripPlus(b.inside));
      var rest, v := Parse(b.after).value, VarPiece(b.inside);
      SpellTwo(b.before, v.name, v.reserved, rest);
      assert ([Lit(b.before), v] + rest)[2..] == rest;
    }
  }

  lemma {:induction false} ParseComplete(ps: seq<Piece>)
    requires IsTemplate(ps)
    ensures Parse(Spell(ps)) == Some(ps)
    decreases |ps|
  {
    if |ps| == 1 {
      assert ps[1..] == [] && Spell(ps) == ps[0].text + "";
      assert ps[0].text + "" == ps[0].text && ps == [Lit(ps[0].text)];
      NoBraces(ps[0].text);
    } else {
      var before, v, rest := ps[0].text, ps[1], ps[2..];
      assert ps == [Lit(before), Var(v.name, v.reserved)] + rest;
      VarNames(v.name);
      InsideStripped(v.name, v.reserved);
      SpellTwo(before, v.name, v.reserved, rest);
      InsideHasNoBrace(v.name, v.reserved);
      NextOfSpelled(before, Inside(v.name, v.reserved), Spell(rest));
      ParseComplete(rest);
    }
  }

  lemma InsideHasNoBrace(name: string, reserved: bool)
    requires IsVarName(name)
    ensures '}' !in Inside(name, reserved)
  {
    forall i | 0 <= i < |name| ensures name[i] != '}' {
      assert IsWordChar(name[i]);
    }
  }

  /** What a template is parsed to is what it says: it is well formed exactly if some
      pieces are written so, and those are the ones it gives. */
  lemma ParseExactly(template: string, ps: seq<Piece>)
    ensures Parse(template) == Some(ps) <==> IsTemplate(ps) && Spell(ps) == template
  {
    if Parse(template).Some? { ParseSound(template); }
    if IsTemplate(ps) { ParseComplete(ps); }
  }

  // ---- what it is to match ---------------------------------------------------------

  /** What a variable may stand for: at least one character, within one path
      segment unless reserved, and then within one line. */
  predicate Admits(reserved: bool, text: string) {
    text != "" && forall i | 0 <= i < |text| :: text[i] != (if reserved then '\n' else '/')
  }

  /** One capture per variable, each admitted by it. */
  predicate Fits(ps: seq<Piece>, captures: seq<string>) {
    if ps == [] then captures == []
    else match ps[0]
      case Lit(_) => Fits(ps[1..], captures)
      case Var(_, reserved) => captures != [] && Admits(reserved, captures[0]) && Fits(ps[1..], captures[1..])
  }

  function Expand(ps: seq<Piece>, captures: seq<string>): string
    requires Fits(ps, captures)
  {
    if ps == [] then ""
    else match ps[0]
      case Lit(text) => text + Expand(ps[1..], captures)
      case Var(_, _) => captures[0] + Expand(ps[1..], captures[1..])
  }

  ghost predicate Expands(ps: seq<Piece>, captures: seq<string>, uri: string) {
    Fits(ps, captures) && Expand(ps, captures) == uri
  }

  /** The anchored regular expression the template compiles to, as a leftmost-first
      engine runs it: literals in place, each group taking as much as it can. */
  function Captures(ps: seq<Piece>, uri: string): Option<seq<string>>
    decreases |ps|, |uri| + 1
  {
    if ps == [] then (if uri == "" then Some([]) else None)
    else match ps[0]
      case Lit(text) => if text <= uri then Captures(ps[1..], uri[|text|..]) else None
      case Var(_, _) => CapturesUpTo(ps, uri, |uri|)
  }

  /** The first group of `ps` taking `n` characters, or failing that fewer. */
  function CapturesUpTo(ps: seq<Piece>, uri: string, n: nat): Option<seq<string>>
    requires ps != [] && ps[0].Var? && n <= |uri|
    decreases |ps|, n
  {
    if n == 0 then None
    else
      var rest := Captures(ps[1..], uri[n..]);
      if Admits(ps[0].reserved, uri[..n]) && rest.Some? then Some([uri[..n]] + rest.value)
      else CapturesUpTo(ps, uri, n - 1)
  }

  /** `a` is preferred to `b`: the first group where they differ in length is longer. */
  predicate AtLeastAsGreedy(a: seq<string>, b: seq<string>) {
    if a == [] || b == [] then true
    else if |a[0]| != |b[0]| then |a[0]| > |b[0]|
    else AtLeastAsGreedy(a[1..], b[1..])
  }

  /** Sound: what is captured expands the template to the URI. */
  lemma {:induction false} CapturesSound(ps: seq<Piece>, uri: string)
    ensures Captures(ps, uri).Some? ==> Expands(ps, Captures(ps, uri).value, uri)
    decreases |ps|, |uri| + 1
  {
    if ps != [] {
      match ps[0]
      case Lit(text) => if text <= uri { CapturesSound(ps[1..], uri[|text|..]); }
      case Var(_, _) => CapturesUpToSound(ps, uri, |uri|);
    }
  }

  lemma {:induction false} CapturesUpToSound(ps: seq<Piece>, uri: string, n: nat)
    requires ps != [] && ps[0].Var? && n <= |uri|
    ensures CapturesUpTo(ps, uri, n).Some? ==> Expands(ps, CapturesUpTo(ps, uri, n).value, uri)
    decreases |ps|, n
  {
    if n > 0 {
      CapturesSound(ps[1..], uri[n..]);
      CapturesUpToSound(ps, uri, n - 1);
      var rest := Captures(ps[1..], uri[n..]);
      if Admits(ps[0].reserved, uri[..n]) && rest.Some? {
        var captures := [uri[..n]] + rest.value;
        assert captures[1..] == rest.value;
        assert uri == uri[..n] + uri[n..];
      }
    }
  }

  /** Complete, and greedy: any admissible assignment makes the match succeed,
      with captures at least as greedy as it. */
  lemma {:induction false} CapturesComplete(ps: seq<Piece>, uri: string, wanted: seq<string>)
    requires Expands(ps, wanted, uri)
    ensures Captures(ps, uri).Some? && AtLeastAsGreedy(Captures(ps, uri).value, wanted)
    decreases |ps|, |uri| + 1
  {
    if ps != [] {
      match ps[0]
      case Lit(text) =>
        assert uri[|text|..] == Expand(ps[1..], wanted);
        CapturesComplete(ps[1..], uri[|text|..], wanted);
      case Var(_, _) => CapturesUpToComplete(ps, uri, |uri|, wanted);
    }
  }

  lemma {:induction false} CapturesUpToComplete(ps: seq<Piece>, uri: string, n: nat, wanted: seq<string>)
    requires ps != [] && ps[0].Var? && Expands(ps, wanted, uri) && |wanted[0]| <= n <= |uri|
    ensures CapturesUpTo(ps, uri, n).Some? && AtLeastAsGreedy(CapturesUpTo(ps, uri, n).value, wanted)
    decreases |ps|, n
  {
    var k := |wanted[0]|;
    assert uri[..k] == wanted[0] && uri[k..] == Expand(ps[1..], wanted[1..]);
    if n == k {
      CapturesComplete(ps[1..], uri[n..], wanted[1..]);
      assert ([uri[..n]] + Captures(ps[1..], uri[n..]).value)[1..] == Captures(ps[1..], uri[n..]).value;
    } else {
      CapturesUpToComplete(ps, uri, n - 1, wanted);
    }
  }

  lemma OneVariable(before: string, name: string, reserved: bool, after: string, uri: string, captures: seq<string>)
    ensures var ps := [Lit(before), Var(name, reserved), Lit(after)];
            Expands(ps, captures, uri) <==>
            |captures| == 1 && Admits(reserved, captures[0]) && uri == before + captures[0] + after
  {
    var ps := [Lit(before), Var(name, reserved), Lit(after)];
    assert ps[1..] == [Var(name, reserved), Lit(after)] && ps[1..][1..] == [Lit(after)] && [Lit(after)][1..] == [];
    LastLiteral(after);
    assert Fits(ps, captures) <==> Fits(ps[1..], captures);
    if captures == [] {
      assert !Fits(ps[1..], captures);
    } else {
      var x, rest := captures[0], captures[1..];
      assert rest == [] <==> |captures| == 1;
      assert Fits(ps[1..], captures) <==> Admits(reserved, x) && Fits([Lit(after)], rest);
      if Fits(ps, captures) {
        assert rest == [] && Expand(ps[1..], captures) == x + after;
        assert Expand(ps, captures) == before + (x + after);
        assert before + (x + after) == before + x + after;
      }
    }
  }

  lemma LastLiteral(after: string)
    ensures forall captures :: Fits([Lit(after)], captures) <==> captures == []
    ensures Expand([Lit(after)], []) == after
  {
    assert [Lit(after)][1..] == [];
    assert after + "" == after;
  }

  lemma OneVariableParses(before: string, name: string, reserved: bool, after: string)
    requires '{' !in before && '{' !in after && IsWord(name)
    ensures Parse(before + (if reserved then "{+" else "{") + name + "}" + after) ==
            Some([Lit(before), Var(name, reserved), Lit(after)])
  {
    var ps := [Lit(before), Var(name, reserved), Lit(after)];
    assert ps[2..] == [Lit(after)] && IsTemplate([Lit(after)]);
    assert ps == [Lit(before), Var(name, reserved)] + [Lit(after)];
    SpellTwo(before, name, reserved, [Lit(after)]);
    SpellLast(after);
    OpenInside(before, name, reserved);
    ParseExactly(Spell(ps), ps);
  }

  lemma SpellLast(after: string)
    ensures Spell([Lit(after)]) == after
  {
    assert [Lit(after)][1..] == [] && after + "" == after;
  }

  lemma OpenInside(before: string, name: string, reserved: bool)
    ensures before + "{" + Inside(name, reserved) == before + (if reserved then "{+" else "{") + name
  {
    if reserved {
      assert before + "{" + ("+" + name) == before + "{+" + name;
    } else {
      assert "" + name == name;
    }
  }

  /** A template with one variable, spelled out: `{v}` matches exactly what begins and
      ends as the literals say with something non-empty within a path segment between,
      and `{+v}` with anything non-empty on one line. */
  lemma OneVariableMatches(before: string, name: string, reserved: bool, after: string, uri: string)
    requires '{' !in before && '{' !in after && IsWord(name)
    ensures var pattern := Parse(before + (if reserved then "{+" else "{") + name + "}" + after);
            pattern.Some? &&
            ((exists captures :: Expands(pattern.value, captures, uri)) <==>
             exists x :: x != "" && (if reserved then '\n' !in x else '/' !in x) && uri == before + x + after)
  {
    OneVariableParses(before, name, reserved, after);
    var ps := [Lit(before), Var(name, reserved), Lit(after)];
    if captures :| Expands(ps, captures, uri) {
      OneVariable(before, name, reserved, after, uri, captures);
      var x := captures[0];
      assert x != "" && (if reserved then '\n' !in x else '/' !in x);
    }
    if x :| x != "" && (if reserved then '\n' !in x else '/' !in x) && uri == before + x + after {
      OneVariable(before, name, reserved, after, uri, [x]);
      assert Expands(ps, [x], uri);
    }
  }

  // ---- the two scanners ------------------------------------------------------------

  /** `template_vars`: what the macro takes the variables of a template to be. */
  function TemplateVars(uri: string): seq<string>
    decreases |uri|
  {
    match NextBraces(uri)
    case Braces(_, inside, after) =>
      var name := StripPlus(inside);
      if name == "" then TemplateVars(after) else [name] + TemplateVars(after)
    case _ => []
  }

  lemma Regroup<T>(a: seq<T>, b: seq<T>, c: seq<T>)
    ensures a + (b + c) == (a + b) + c
  {
  }

  /** The macro's scanner, as it loops. */
  method ScanTemplateVars(uri: string) returns (vars: seq<string>)
    ensures vars == TemplateVars(uri)
  {
    vars := [];
    var rest := uri;
    while true
      invariant vars + TemplateVars(rest) == TemplateVars(uri)
      decreases |rest|
    {
      var braces := NextBraces(rest);
      if !braces.Braces? { return; }
      var name := StripPlus(braces.inside);
      if name != "" {
        Regroup(vars, [name], TemplateVars(braces.after));
        vars := vars + [name];
      }
      rest := braces.after;
    }
  }

  /** On a template the matcher accepts, the two scanners see the same variables. */
  lemma {:induction false} ScannersAgree(template: string)
    requires Parse(template).Some?
    ensures Names(Parse(template).value) == TemplateVars(template)
    decreases |template|
  {
    var braces := NextBraces(template);
    if braces.Braces? {
      ScannersAgree(braces.after);
      var ps, rest := Parse(template).value, Parse(braces.after).value;
      assert ps[1..][1..] == rest;
      assert Names(ps) == Names(ps[1..]) == [ps[1].name] + Names(rest);
    }
  }

  lemma {:induction false} OneCapturePerName(ps: seq<Piece>, captures: seq<string>)
    requires Fits(ps, captures)
    ensures |captures| == |Names(ps)|
  {
    if ps != [] {
      OneCapturePerName(ps[1..], if ps[0].Var? then captures[1..] else captures);
    }
  }

  function Zip(names: seq<string>, captures: seq<string>): seq<(string, string)>
    requires |names| == |captures|
  {
    seq(|names|, i requires 0 <= i < |names| => (names[i], captures[i]))
  }

  /** `match_uri_template`. It succeeds exactly when the template is well formed
      and some admissible assignment expands it to the URI; it then returns one,
      the greediest, under the names the macro found in the template. */
  method MatchUriTemplate(template: string, uri: string) returns (r: Option<seq<(string, string)>>)
    ensures r.Some? <==> Parse(template).Some? && exists captures :: Expands(Parse(template).value, captures, uri)
    ensures r.Some? ==>
              exists captures ::
                && Expands(Parse(template).value, captures, uri)
                && |captures| == |TemplateVars(template)|
                && r.value == Zip(TemplateVars(template), captures)
                && forall other | Expands(Parse(template).value, other, uri) :: AtLeastAsGreedy(captures, other)
  {
    var pattern, names := Compile(template);
    if pattern.None? { return None; }
    var captures := Captures(pattern.value, uri);
    CapturesSound(pattern.value, uri);
    forall other | Expands(pattern.value, other, uri)
      ensures captures.Some? && AtLeastAsGreedy(captures.value, other)
    {
      CapturesComplete(pattern.value, uri, other);
    }
    if captures.None? { return None; }
    OneCapturePerName(pattern.value, captures.value);
    r := Some(Zip(names, captures.value));
  }

  /** All of the template but `rest` is compiled. */
  ghost predicate IsCompiled(template: string, pieces: seq<Piece>, names: seq<string>, rest: string) {
    && (Parse(template).Some? <==> Parse(rest).Some?)
    && (Parse(rest).Some? ==>
          && Parse(template).value == pieces + Parse(rest).value
          && TemplateVars(template) == names + TemplateVars(rest))
  }

  lemma CompilesOn(template: string, pieces: seq<Piece>, names: seq<string>, rest: string, braces: Scan)
    requires IsCompiled(template, pieces, names, rest) && NextBraces(rest) == braces
    requires braces.Braces? && IsVarName(StripPlus(braces.inside))
    ensures IsCompiled(template, pieces + [Lit(braces.before), VarPiece(braces.inside)],
                       names + [StripPlus(braces.inside)], braces.after)
  {
    if Parse(braces.after).Some? {
      Regroup(pieces, [Lit(braces.before), VarPiece(braces.inside)], Parse(braces.after).value);
      Regroup(names, [StripPlus(braces.inside)], TemplateVars(braces.after));
    }
  }

  /** The compilation loop of `match_uri_template`. */
  method Compile(template: string) returns (pattern: Option<seq<Piece>>, names: seq<string>)
    ensures pattern == Parse(template)
    ensures pattern.Some? ==> names == TemplateVars(template) == Names(pattern.value)
  {
    var pieces: seq<Piece> := [];
    names := [];
    var rest := template;
    while true
      invariant IsCompiled(template, pieces, names, rest)
      decreases |rest|
    {
      var braces := NextBraces(rest);
      if braces.NoneLeft? { break; }
      if braces.Unclosed? || !IsVarName(StripPlus(braces.inside)) { return None, names; }
      CompilesOn(template, pieces, names, rest, braces);
      pieces := pieces + [Lit(braces.before), VarPiece(braces.inside)];
      names := names + [StripPlus(braces.inside)];
      rest := braces.after;
    }
    pattern := Some(pieces + [Lit(rest)]);
    ScannersAgree(template);
  }

  /** The macro checks each handler argument against its scan of the template, so
      a match always has a binding for it: the generated error arm is unreachable. */
  lemma EveryArgumentIsBound(template: string, captures: seq<string>, uri: string, argument: string)
    requires Parse(template).Some? && Expands(Parse(template).value, captures, uri)
    requires argument in TemplateVars(template)
    ensures |captures| == |TemplateVars(template)|
    ensures exists i | 0 <= i < |captures| :: Zip(TemplateVars(template), captures)[i].0 == argument
  {
    ScannersAgree(template);
    OneCapturePerName(Parse(template).value, captures);
    var i :| 0 <= i < |TemplateVars(template)| && TemplateVars(template)[i] == argument;
    assert Zip(TemplateVars(template), captures)[i].0 == argument;
  }
}
