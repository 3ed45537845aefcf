/** Routes with variables: compiling a route, printing a path from values and reading the values back. */
module Router {
  import opened Wrappers
  import Binary64

  // ---- Patterns and what they match

  datatype Kind =
    | Segment   // ([^/]+)
    | Digits    // ([0-9]+)
    | SlashRest // ($|/.*)
    | AnyRest   // (.*)
    | SomeRest  // (.+)

  datatype Element = Lit(s: string) | Capture(kind: Kind)

  predicate IsDigit(c: char) {
    '0' <= c <= '9'
  }

  predicate AllDigits(s: string) {
    forall i :: 0 <= i < |s| ==> IsDigit(s[i])
  }

  /** What the dot does not match. */
  predicate LineEnd(c: char) {
    c == '\n' || c == '\r' || c == '\U{2028}' || c == '\U{2029}'
  }

  predicate OneLine(s: string) {
    forall i :: 0 <= i < |s| ==> !LineEnd(s[i])
  }

  predicate NoSlash(s: string) {
    forall i :: 0 <= i < |s| ==> s[i] != '/'
  }

  /** `c` can be captured when `rest` of the path follows. */
  predicate InKind(kind: Kind, c: string, rest: string) {
    match kind
    case Segment => c != [] && NoSlash(c)
    case Digits => c != [] && AllDigits(c)
    case SlashRest => if c == [] then rest == [] else c[0] == '/' && OneLine(c[1..])
    case AnyRest => OneLine(c)
    case SomeRest => c != [] && OneLine(c)
  }

  /** How the regular expression compares characters: as they are, or without regard to case. */
  ghost predicate Folding(fold: char -> char) {
    forall c :: fold(c) == fold('/') ==> c == '/'
  }

  predicate SameText(fold: char -> char, a: string, b: string) {
    |a| == |b| && forall i :: 0 <= i < |a| ==> fold(a[i]) == fold(b[i])
  }

  /** The whole path matches the pattern with these captures. */
  predicate Matches(fold: char -> char, pattern: seq<Element>, path: string, caps: seq<string>)
    decreases |pattern|
  {
    if pattern == [] then path == [] && caps == []
    else
      match pattern[0]
      case Lit(s) =>
        && |s| <= |path| && SameText(fold, s, path[..|s|])
        && Matches(fold, pattern[1..], path[|s|..], caps)
      case Capture(kind) =>
        && caps != [] && caps[0] <= path && InKind(kind, caps[0], path[|caps[0]|..])
        && Matches(fold, pattern[1..], path[|caps[0]|..], caps[1..])
  }

  type Engine = (seq<Element>, string) -> Option<seq<string>>

  /** What is assumed of the regular expression engine. */
  ghost predicate EngineOk(fold: char -> char, engine: Engine) {
    forall pattern, path ::
      match engine(pattern, path)
      case Some(caps) => Matches(fold, pattern, path, caps)
      case None => forall caps :: !Matches(fold, pattern, path, caps)
  }

  // ---- Compiling

  datatype Format = Plain | Star | Plus | Integer

  datatype Variable = Variable(name: string, format: Format)

  /** A variable of a route as the path was split: its name, its format and the literal after it. */
  datatype Part = Part(name: string, format: string, follow: string)

  datatype Route = Route(head: string, parts: seq<Part>)

  datatype Compiled = Compiled(pattern: seq<Element>, vars: seq<Variable>, segments: seq<string>)

  function Start(head: string): Compiled {
    Compiled(LitOf(head), [], [head])
  }

  /** The last character of the pattern built so far is a slash. */
  predicate EndsWithSlash(pattern: seq<Element>) {
    pattern != [] && var last := pattern[|pattern| - 1]; last.Lit? && last.s != [] && last.s[|last.s| - 1] == '/'
  }

  /** A literal of the pattern; an empty one leaves no trace in the expression. */
  function LitOf(s: string): seq<Element> {
    if s == [] then [] else [Lit(s)]
  }

  /** The pattern without its last character, a slash. */
  function WithoutLast(pattern: seq<Element>): seq<Element>
    requires EndsWithSlash(pattern)
  {
    var s := pattern[|pattern| - 1].s;
    pattern[..|pattern| - 1] + LitOf(s[..|s| - 1])
  }

  function ParseFormat(format: string): Option<Format> {
    if format == "" then Some(Plain)
    else if format == "*" then Some(Star)
    else if format == "+" then Some(Plus)
    else if format == "i" then Some(Integer)
    else None
  }

  /** The pattern with the capture of a variable added; None stands for the exceptions. */
  function AddVariable(pattern: seq<Element>, format: Format): Option<seq<Element>> {
    match format
    case Plain => Some(pattern + [Capture(Segment)])
    case Star =>
      if EndsWithSlash(pattern) then Some(WithoutLast(pattern) + [Capture(SlashRest)])
      else if pattern != [] then None
      else Some([Capture(AnyRest)])
    case Plus =>
      if pattern != [] && !EndsWithSlash(pattern) then None else Some(pattern + [Capture(SomeRest)])
    case Integer => Some(pattern + [Capture(Digits)])
  }

  function AddPart(c: Compiled, part: Part): Option<Compiled> {
    match ParseFormat(part.format)
    case None => None
    case Some(format) =>
      match AddVariable(c.pattern, format)
      case None => None
      case Some(pattern) =>
        var vars := c.vars + [Variable(part.name, format)];
        if part.follow == [] then Some(Compiled(pattern, vars, c.segments))
        else Some(Compiled(pattern + LitOf(part.follow), vars, c.segments + [part.follow]))
  }

  function AddParts(c: Compiled, parts: seq<Part>): Option<Compiled>
    decreases |parts|
  {
    if parts == [] then Some(c)
    else
      match AddPart(c, parts[0])
      case None => None
      case Some(d) => AddParts(d, parts[1..])
  }

  /** toCompiledRoute. */
  method Compile(route: Route) returns (r: Option<Compiled>)
    ensures r == AddParts(Start(route.head), route.parts)
  {
    var pattern := LitOf(route.head);
    var varList: seq<Variable> := [];
    var segments := [route.head];
    assert route.parts[0..] == route.parts;
    for i := 0 to |route.parts|
      invariant AddParts(Start(route.head), route.parts)
                == AddParts(Compiled(pattern, varList, segments), route.parts[i..])
    {
      var part := route.parts[i];
      assert route.parts[i..][1..] == route.parts[i + 1..];
      var format := ParseFormat(part.format);
      if format == None {
        return None;
      }
      var added := AddVariable(pattern, format.value);
      if added == None {
        return None;
      }
      pattern := added.value;
      varList := varList + [Variable(part.name, format.value)];
      if part.follow != [] {
        pattern := pattern + LitOf(part.follow);
        segments := segments + [part.follow];
      }
    }
    return Some(Compiled(pattern, varList, segments));
  }

  // ---- Reading and printing

  /** A number is a finite binary64 one. */
  datatype Value = Text(s: string) | Number(x: real)

  type Values = map<string, Value>

  /** From here on String prints a number with an exponent. */
  const EXPONENT: real := 1000000000000000000000.0

  /** The numbers that String prints in digits only. */
  predicate InDigits(x: real) {
    0.0 <= x < EXPONENT && x == x.Floor as real
  }

  /** encodeURIComponent and decodeURIComponent, and how String prints a number: the whole number whose digits it
      prints, or a text with a sign, a point or an exponent. */
  datatype Codec = Codec(encode: string -> string, decode: string -> string,
                         shown: real -> nat, other: real -> string)

  ghost predicate CodecOk(codec: Codec) {
    && (forall s ::
          && codec.decode(codec.encode(s)) == s && NoSlash(codec.encode(s))
          && (s == [] <==> codec.encode(s) == []))
    && (forall x :: Binary64.Representable(x) && InDigits(x) ==> Binary64.Round(codec.shown(x) as real) == x)
    && (forall x :: Binary64.Representable(x) && !InDigits(x) ==>
          NoSlash(codec.other(x)) && !AllDigits(codec.other(x)))
  }

  /** String of a number. */
  function Show(codec: Codec, x: real): string {
    if InDigits(x) then Decimal(codec.shown(x)) else codec.other(x)
  }

  function Decimal(n: nat): string {
    if n < 10 then [(('0' as int) + n) as char] else Decimal(n / 10) + [(('0' as int) + n % 10) as char]
  }

  function DigitValue(c: char): nat
    requires IsDigit(c)
  {
    (c as int) - ('0' as int)
  }

  /** parseInt, on digits. */
  function ParseInt(s: string): nat
    requires AllDigits(s)
  {
    if s == [] then 0 else ParseInt(s[..|s| - 1]) * 10 + DigitValue(s[|s| - 1])
  }

  lemma {:induction false} DecimalRoundTrip(n: nat)
    ensures Decimal(n) != [] && AllDigits(Decimal(n))
    ensures ParseInt(Decimal(n)) == n
  {
    var s := Decimal(n);
    if n >= 10 {
      DecimalRoundTrip(n / 10);
      assert s[..|s| - 1] == Decimal(n / 10);
    } else {
      assert s[..|s| - 1] == [];
    }
  }

  function Cast(codec: Codec, format: Format, s: string): Value {
    match format
    case Plain => Text(codec.decode(s))
    case Star => Text(if s == [] then [] else s[1..])
    case Plus => Text(s)
    case Integer => if AllDigits(s) then Number(Binary64.Round(ParseInt(s) as real)) else Text(s)
  }

  function Uncast(codec: Codec, format: Format, v: Value): string {
    var s := if v.Text? then v.s else Show(codec, v.x);
    if format == Plain then codec.encode(s) else s
  }

  /** The entries of the captures, later ones winning. */
  function Read(codec: Codec, vars: seq<Variable>, caps: seq<string>): Values
    requires |caps| >= |vars|
    decreases |vars|
  {
    if vars == [] then map[]
    else
      var last := |vars| - 1;
      Read(codec, vars[..last], caps[..last])[vars[last].name := Cast(codec, vars[last].format, caps[last])]
  }

  /** match of a compiled route; None is `false`. */
  function MatchPath(codec: Codec, engine: Engine, c: Compiled, path: string): Option<Values> {
    match engine(c.pattern, path)
    case None => None
    case Some(caps) => if |caps| >= |c.vars| then Some(Read(codec, c.vars, caps)) else None
  }

  /** toRoute of a compiled route, from segment `i` on; None is the missing value. */
  function ToRoute(codec: Codec, c: Compiled, values: Values, i: nat): Option<string>
    decreases |c.segments| - i
  {
    if i >= |c.segments| then Some([])
    else if i < |c.vars| && c.vars[i].name !in values then None
    else
      var value := if i < |c.vars| then Uncast(codec, c.vars[i].format, values[c.vars[i].name]) else [];
      var printed := c.segments[i] + value;
      match ToRoute(codec, c, values, i + 1)
      case None => None
      case Some(rest) => Some(printed + rest)
  }

  /** Reading digits is reading a decimal number. */
  lemma ParseIntDigits(s: string, c: char)
    requires AllDigits(s) && '0' <= c <= '9'
    ensures AllDigits(s + [c]) && ParseInt(s + [c]) == 10 * ParseInt(s) + ((c as int) - ('0' as int))
  {
    assert (s + [c])[..|s|] == s;
  }

  /** toRoute fails exactly when the value of a variable it prints is missing. */
  lemma {:induction false} ToRouteFails(codec: Codec, c: Compiled, values: Values, i: nat)
    ensures ToRoute(codec, c, values, i) == None
            <==> exists j :: i <= j < |c.segments| && j < |c.vars| && c.vars[j].name !in values
    decreases |c.segments| - i
  {
    if i < |c.segments| {
      ToRouteFails(codec, c, values, i + 1);
    }
  }

  // ---- Patterns with one way to match

  /** Every capture runs to the end of the path or up to a slash it cannot hold. */
  predicate Deterministic(pattern: seq<Element>) {
    pattern != [] ==>
      && Deterministic(pattern[1..])
      && (pattern[0].Capture? && |pattern| > 1 ==>
            && (pattern[0].kind == Segment || pattern[0].kind == Digits)
            && (|| (pattern[1].Lit? && pattern[1].s != [] && pattern[1].s[0] == '/')
                || pattern[1] == Capture(SlashRest)))
  }

  /** `c` is the part of the path before its first slash, or all of it. */
  predicate UpToSlash(path: string, c: string) {
    c <= path && NoSlash(c) && (|c| < |path| ==> path[|c|] == '/')
  }

  lemma UpToSlashUnique(path: string, a: string, b: string)
    requires UpToSlash(path, a) && UpToSlash(path, b)
    ensures a == b
  {
    assert forall i :: 0 <= i < |a| ==> a[i] == path[i];
    assert forall i :: 0 <= i < |b| ==> b[i] == path[i];
    assert a == path[..|a|] && b == path[..|b|];
  }

  /** The first capture of a match: the rest of the path, or what comes before its first slash. */
  lemma CaptureEnds(fold: char -> char, pattern: seq<Element>, path: string, caps: seq<string>)
    requires Folding(fold) && Matches(fold, pattern, path, caps) && Deterministic(pattern)
    requires pattern != [] && pattern[0].Capture?
    ensures |pattern| == 1 ==> caps == [path]
    ensures |pattern| > 1 ==> caps != [] && UpToSlash(path, caps[0])
  {
    var rest := path[|caps[0]|..];
    assert Matches(fold, pattern[1..], rest, caps[1..]);
    if |pattern| == 1 {
      assert pattern[1..] == [] && rest == [];
      assert caps[0] == path && caps == [caps[0]];
    } else if pattern[1].Lit? {
      var s := pattern[1].s;
      assert fold(s[0]) == fold(rest[..|s|][0]);
    } else {
      assert InKind(SlashRest, caps[1..][0], rest[|caps[1..][0]|..]);
    }
  }

  lemma {:induction false} MatchUnique(fold: char -> char, pattern: seq<Element>, path: string,
                                       a: seq<string>, b: seq<string>)
    requires Folding(fold) && Deterministic(pattern)
    requires Matches(fold, pattern, path, a) && Matches(fold, pattern, path, b)
    ensures a == b
    decreases |pattern|
  {
    if pattern != [] {
      match pattern[0] {
        case Lit(s) => MatchUnique(fold, pattern[1..], path[|s|..], a, b);
        case Capture(kind) =>
          CaptureEnds(fold, pattern, path, a);
          CaptureEnds(fold, pattern, path, b);
          if |pattern| > 1 {
            UpToSlashUnique(path, a[0], b[0]);
            MatchUnique(fold, pattern[1..], path[|a[0]|..], a[1..], b[1..]);
          }
      }
    }
  }

  // ---- The shape of a compiled route

  function FormatOf(part: Part): Format {
    var format := ParseFormat(part.format);
    if format.Some? then format.value else Plain
  }

  function VarsOf(parts: seq<Part>): seq<Variable> {
    if parts == [] then [] else [Variable(parts[0].name, FormatOf(parts[0]))] + VarsOf(parts[1..])
  }

  function SegmentsOf(parts: seq<Part>): seq<string> {
    if parts == [] then []
    else (if parts[0].follow == [] then [] else [parts[0].follow]) + SegmentsOf(parts[1..])
  }

  predicate SlashEnd(s: string) {
    s != [] && s[|s| - 1] == '/'
  }

  /** The literal before a variable, as it is left in the pattern. */
  function Lead(prev: string, format: Format): string {
    if format == Star && SlashEnd(prev) then prev[..|prev| - 1] else prev
  }

  function KindOf(prev: string, format: Format): Kind {
    match format
    case Plain => Segment
    case Star => if SlashEnd(prev) then SlashRest else AnyRest
    case Plus => SomeRest
    case Integer => Digits
  }

  /** The pattern of the parts, from the literal before them on. */
  function PatternOf(prev: string, parts: seq<Part>): seq<Element>
    decreases |parts|
  {
    if parts == [] then LitOf(prev)
    else
      var format := FormatOf(parts[0]);
      LitOf(Lead(prev, format)) + ([Capture(KindOf(prev, format))] + PatternOf(parts[0].follow, parts[1..]))
  }

  lemma LastOfPattern(before: seq<Element>, prev: string)
    requires prev != []
    ensures before + LitOf(prev) != [] && (before + LitOf(prev))[|before + LitOf(prev)| - 1] == Lit(prev)
    ensures (before + LitOf(prev))[..|before + LitOf(prev)| - 1] == before
  {
  }

  lemma PatternEnd(before: seq<Element>, prev: string)
    requires before == [] || before[|before| - 1].Capture?
    ensures EndsWithSlash(before + LitOf(prev)) <==> SlashEnd(prev)
    ensures SlashEnd(prev) ==> WithoutLast(before + LitOf(prev)) == before + LitOf(prev[..|prev| - 1])
  {
    if prev == [] {
      assert before + LitOf(prev) == before;
    } else {
      LastOfPattern(before, prev);
      PatternWithoutLast(before + LitOf(prev), before, prev);
    }
  }

  lemma PatternWithoutLast(pattern: seq<Element>, before: seq<Element>, prev: string)
    requires prev != [] && pattern != [] && pattern[|pattern| - 1] == Lit(prev) && pattern[..|pattern| - 1] == before
    ensures EndsWithSlash(pattern) <==> SlashEnd(prev)
    ensures SlashEnd(prev) ==> WithoutLast(pattern) == before + LitOf(prev[..|prev| - 1])
  {
  }

  lemma VariableShape(before: seq<Element>, prev: string, format: Format)
    requires before == [] || before[|before| - 1].Capture?
    requires AddVariable(before + LitOf(prev), format).Some?
    ensures AddVariable(before + LitOf(prev), format).value
            == before + LitOf(Lead(prev, format)) + [Capture(KindOf(prev, format))]
  {
    PatternEnd(before, prev);
  }

  lemma {:induction false} VarsShape(c: Compiled, parts: seq<Part>)
    requires AddParts(c, parts).Some?
    ensures AddParts(c, parts).value.vars == c.vars + VarsOf(parts)
    decreases |parts|
  {
    if parts != [] {
      VarsShape(AddPart(c, parts[0]).value, parts[1..]);
    }
  }

  lemma {:induction false} SegmentsShape(c: Compiled, parts: seq<Part>)
    requires AddParts(c, parts).Some?
    ensures AddParts(c, parts).value.segments == c.segments + SegmentsOf(parts)
    decreases |parts|
  {
    if parts != [] {
      var d := AddPart(c, parts[0]).value;
      var piece := if parts[0].follow == [] then [] else [parts[0].follow];
      assert d.segments == c.segments + piece;
      SegmentsShape(d, parts[1..]);
      assert (c.segments + piece) + SegmentsOf(parts[1..]) == c.segments + (piece + SegmentsOf(parts[1..]));
    }
  }

  /** The pattern the compiling loop has built, in closed form. */
  lemma {:induction false} PatternShape(c: Compiled, before: seq<Element>, prev: string, parts: seq<Part>)
    requires AddParts(c, parts).Some? && c.pattern == before + LitOf(prev)
    requires before == [] || before[|before| - 1].Capture?
    ensures AddParts(c, parts).value.pattern == before + PatternOf(prev, parts)
    decreases |parts|
  {
    if parts != [] {
      var part, format := parts[0], FormatOf(parts[0]);
      var d := AddPart(c, part).value;
      VariableShape(before, prev, format);
      var lit, capture := LitOf(Lead(prev, format)), Capture(KindOf(prev, format));
      PartPattern(c, part, before + lit + [capture]);
      PatternShape(d, before + lit + [capture], part.follow, parts[1..]);
      PatternAssociates(before, lit, capture, PatternOf(part.follow, parts[1..]));
    }
  }

  lemma PartPattern(c: Compiled, part: Part, pattern: seq<Element>)
    requires AddPart(c, part).Some? && AddVariable(c.pattern, FormatOf(part)) == Some(pattern)
    ensures AddPart(c, part).value.pattern == pattern + LitOf(part.follow)
  {
  }

  lemma PatternAssociates(a: seq<Element>, b: seq<Element>, c: Element, d: seq<Element>)
    ensures a + b + [c] + d == a + (b + ([c] + d))
  {
  }

  // ---- Routes that can be read back

  /** Each variable is followed by a literal that starts with a slash or by the end of the path, and one that takes
      slashes by the end. */
  predicate Separated(parts: seq<Part>) {
    parts != [] ==>
      && Separated(parts[1..])
      && (if parts[0].follow == [] then |parts| == 1 else parts[0].follow[0] == '/')
      && (FormatOf(parts[0]) == Star || FormatOf(parts[0]) == Plus ==> |parts| == 1 && parts[0].follow == [])
  }

  predicate Fits(format: Format, v: Value) {
    match format
    case Plain => v.Text? && v.s != []
    case Star => v.Text? && OneLine(v.s)
    case Plus => v.Text? && v.s != [] && OneLine(v.s)
    case Integer => v.Number? && Binary64.Representable(v.x) && InDigits(v.x)
  }

  predicate AllFit(parts: seq<Part>, values: Values) {
    forall i :: 0 <= i < |parts| ==>
      parts[i].name in values && Fits(FormatOf(parts[i]), values[parts[i].name])
  }

  /** Numbers for the variables that take digits, texts for the others. */
  predicate Typed(parts: seq<Part>, values: Values) {
    forall i :: 0 <= i < |parts| ==> parts[i].name in values && OfType(FormatOf(parts[i]), values[parts[i].name])
  }

  predicate OfType(format: Format, v: Value) {
    if format == Integer then v.Number? && Binary64.Representable(v.x) else v.Text?
  }

  function Print(codec: Codec, prev: string, parts: seq<Part>, values: Values): string
    requires Typed(parts, values)
    decreases |parts|
  {
    if parts == [] then prev
    else
      prev + Uncast(codec, FormatOf(parts[0]), values[parts[0].name])
      + Print(codec, parts[0].follow, parts[1..], values)
  }

  /** The capture of a printed variable. */
  function CapOf(prev: string, format: Format, s: string): string {
    if format == Star && SlashEnd(prev) then "/" + s else s
  }

  /** The captures of a printed path. */
  function CapsOf(codec: Codec, prev: string, parts: seq<Part>, values: Values): seq<string>
    requires Typed(parts, values)
    decreases |parts|
  {
    if parts == [] then []
    else
      var s := Uncast(codec, FormatOf(parts[0]), values[parts[0].name]);
      [CapOf(prev, FormatOf(parts[0]), s)] + CapsOf(codec, parts[0].follow, parts[1..], values)
  }

  lemma {:induction false} PatternDeterministic(prev: string, parts: seq<Part>)
    requires Separated(parts)
    ensures Deterministic(PatternOf(prev, parts))
    decreases |parts|, 1
  {
    if parts != [] {
      var format := FormatOf(parts[0]);
      var rest := PatternOf(parts[0].follow, parts[1..]);
      VariableDeterministic(prev, parts);
      PrependLit(Lead(prev, format), [Capture(KindOf(prev, format))] + rest);
    }
  }

  lemma PrependCapture(kind: Kind, rest: seq<Element>)
    requires Deterministic(rest)
    requires rest != [] ==>
               && (kind == Segment || kind == Digits)
               && ((rest[0].Lit? && rest[0].s != [] && rest[0].s[0] == '/') || rest[0] == Capture(SlashRest))
    ensures Deterministic([Capture(kind)] + rest)
  {
    assert ([Capture(kind)] + rest)[1..] == rest;
  }

  lemma PrependLit(s: string, rest: seq<Element>)
    requires Deterministic(rest)
    ensures Deterministic(LitOf(s) + rest)
  {
    if s == [] {
      assert LitOf(s) + rest == rest;
    } else {
      assert (LitOf(s) + rest)[1..] == rest;
    }
  }

  /** What follows a variable starts with a slash, or takes one up. */
  lemma RestStarts(prev: string, parts: seq<Part>)
    requires prev == [] ==> parts == []
    requires prev != [] ==> prev[0] == '/'
    requires PatternOf(prev, parts) != []
    ensures var first := PatternOf(prev, parts)[0];
            || (first.Lit? && first.s != [] && first.s[0] == '/')
            || first == Capture(SlashRest)
  {
  }

  lemma MatchLit(fold: char -> char, s: string, pattern: seq<Element>, path: string, caps: seq<string>)
    requires Matches(fold, pattern, path, caps)
    ensures Matches(fold, LitOf(s) + pattern, s + path, caps)
  {
    if s == [] {
      assert LitOf(s) + pattern == pattern && s + path == path;
    } else {
      assert (LitOf(s) + pattern)[1..] == pattern;
      assert (s + path)[..|s|] == s && (s + path)[|s|..] == path;
    }
  }

  lemma MatchCapture(fold: char -> char, kind: Kind, c: string, pattern: seq<Element>, path: string, caps: seq<string>)
    requires Matches(fold, pattern, path, caps) && InKind(kind, c, path)
    ensures Matches(fold, [Capture(kind)] + pattern, c + path, [c] + caps)
  {
    assert ([Capture(kind)] + pattern)[1..] == pattern && ([c] + caps)[1..] == caps;
    assert (c + path)[|c|..] == path;
  }

  /** A printed path matches, with the printed values as its captures. */
  lemma {:induction false} PrintedMatches(fold: char -> char, codec: Codec, prev: string, parts: seq<Part>,
                                          values: Values)
    requires CodecOk(codec) && Separated(parts) && AllFit(parts, values) && Typed(parts, values)
    ensures Matches(fold, PatternOf(prev, parts), Print(codec, prev, parts, values), CapsOf(codec, prev, parts, values))
    decreases |parts|
  {
    if parts == [] {
      MatchLit(fold, prev, [], [], []);
      assert prev + [] == prev && LitOf(prev) + [] == LitOf(prev);
    } else {
      var part, format := parts[0], FormatOf(parts[0]);
      var s := Uncast(codec, format, values[part.name]);
      var pattern := PatternOf(part.follow, parts[1..]);
      var path := Print(codec, part.follow, parts[1..], values);
      var caps := CapsOf(codec, part.follow, parts[1..], values);
      PrintedMatches(fold, codec, part.follow, parts[1..], values);
      PrintedVariableFits(codec, prev, format, values[part.name], path);
      assert format == Star ==> path == [];
      PrintedStep(fold, prev, format, s, pattern, path, caps);
    }
  }

  lemma PrintedStep(fold: char -> char, prev: string, format: Format, s: string,
                    pattern: seq<Element>, path: string, caps: seq<string>)
    requires Matches(fold, pattern, path, caps) && InKind(KindOf(prev, format), CapOf(prev, format, s), path)
    ensures Matches(fold, LitOf(Lead(prev, format)) + ([Capture(KindOf(prev, format))] + pattern),
                    prev + s + path, [CapOf(prev, format, s)] + caps)
  {
    var c := CapOf(prev, format, s);
    MatchCapture(fold, KindOf(prev, format), c, pattern, path, caps);
    MatchLit(fold, Lead(prev, format), [Capture(KindOf(prev, format))] + pattern, c + path, [c] + caps);
    LeadAndCap(prev, format, s, path);
  }

  /** What the capture takes over from the literal before it. */
  lemma LeadAndCap(prev: string, format: Format, s: string, path: string)
    ensures Lead(prev, format) + (CapOf(prev, format, s) + path) == prev + s + path
  {
    if format == Star && SlashEnd(prev) {
      assert prev == prev[..|prev| - 1] + "/";
    }
  }

  lemma PrintedVariableFits(codec: Codec, prev: string, format: Format, v: Value, path: string)
    requires CodecOk(codec) && Fits(format, v)
    ensures InKind(KindOf(prev, format), CapOf(prev, format, Uncast(codec, format, v)), path)
  {
    if v.Number? {
      DecimalRoundTrip(codec.shown(v.x));
    } else if format == Star && SlashEnd(prev) {
      assert ("/" + v.s)[1..] == v.s;
    }
  }

  lemma {:induction false} VarsOfLength(parts: seq<Part>)
    ensures |VarsOf(parts)| == |parts|
    ensures forall i :: 0 <= i < |parts| ==> VarsOf(parts)[i] == Variable(parts[i].name, FormatOf(parts[i]))
  {
    if parts != [] {
      VarsOfLength(parts[1..]);
    }
  }

  /** toRoute prints the segments and variables in turn. */
  lemma {:induction false} ToRoutePrints(codec: Codec, c: Compiled, values: Values, i: nat, prev: string,
                                         parts: seq<Part>)
    requires Separated(parts) && Typed(parts, values)
    requires i <= |c.segments| && i <= |c.vars|
    requires c.segments[i..] == [prev] + SegmentsOf(parts) && c.vars[i..] == VarsOf(parts)
    ensures ToRoute(codec, c, values, i) == Some(Print(codec, prev, parts, values))
    decreases |parts|
  {
    assert c.segments[i] == c.segments[i..][0] == prev;
    assert c.segments[i + 1..] == c.segments[i..][1..] == SegmentsOf(parts);
    if parts == [] {
      assert prev + [] + [] == prev;
    } else {
      assert c.vars[i] == c.vars[i..][0] == Variable(parts[0].name, FormatOf(parts[0]));
      assert c.vars[i + 1..] == c.vars[i..][1..] == VarsOf(parts[1..]);
      if parts[0].follow != [] {
        ToRoutePrints(codec, c, values, i + 1, parts[0].follow, parts[1..]);
      } else {
        assert parts[1..] == [] && c.segments[i + 1..] == [];
      }
    }
  }

  /** A variable that takes all the rest comes after a slash. */
  predicate StarsAfterSlash(prev: string, parts: seq<Part>)
    decreases |parts|
  {
    parts != [] ==>
      && (FormatOf(parts[0]) == Star ==> SlashEnd(prev))
      && StarsAfterSlash(parts[0].follow, parts[1..])
  }

  lemma CastBack(codec: Codec, prev: string, format: Format, v: Value)
    requires CodecOk(codec) && Fits(format, v) && (format == Star ==> SlashEnd(prev))
    ensures Cast(codec, format, CapOf(prev, format, Uncast(codec, format, v))) == v
  {
    if v.Number? {
      DecimalRoundTrip(codec.shown(v.x));
    } else if format == Star {
      assert ("/" + v.s)[1..] == v.s;
    }
  }

  /** Reading the captures gives the values back. */
  lemma {:induction false} CapsCast(codec: Codec, prev: string, parts: seq<Part>, values: Values, i: nat)
    requires CodecOk(codec) && AllFit(parts, values) && Typed(parts, values)
    requires i < |parts| && StarsAfterSlash(prev, parts)
    ensures |CapsOf(codec, prev, parts, values)| == |parts|
    ensures Cast(codec, FormatOf(parts[i]), CapsOf(codec, prev, parts, values)[i]) == values[parts[i].name]
    decreases |parts|
  {
    CapsLength(codec, prev, parts, values);
    if i > 0 {
      CapsCast(codec, parts[0].follow, parts[1..], values, i - 1);
    } else {
      CastBack(codec, prev, FormatOf(parts[0]), values[parts[0].name]);
    }
  }

  lemma {:induction false} CapsLength(codec: Codec, prev: string, parts: seq<Part>, values: Values)
    requires Typed(parts, values)
    ensures |CapsOf(codec, prev, parts, values)| == |parts|
    decreases |parts|
  {
    if parts != [] {
      CapsLength(codec, parts[0].follow, parts[1..], values);
    }
  }

  lemma {:induction false} ReadKeys(codec: Codec, vars: seq<Variable>, caps: seq<string>, x: string)
    requires |caps| == |vars|
    ensures x in Read(codec, vars, caps) <==> exists i :: 0 <= i < |vars| && vars[i].name == x
    decreases |vars|
  {
    if vars != [] {
      ReadKeys(codec, vars[..|vars| - 1], caps[..|vars| - 1], x);
    }
  }

  /** An entry read, when all names are distinct. */
  lemma {:induction false} ReadEntry(codec: Codec, vars: seq<Variable>, caps: seq<string>, i: nat)
    requires |caps| == |vars| && i < |vars|
    requires forall j, k :: 0 <= j < k < |vars| ==> vars[j].name != vars[k].name
    ensures vars[i].name in Read(codec, vars, caps)
    ensures Read(codec, vars, caps)[vars[i].name] == Cast(codec, vars[i].format, caps[i])
    decreases |vars|
  {
    var last := |vars| - 1;
    if i < last {
      assert vars[i].name != vars[last].name;
      ReadEntry(codec, vars[..last], caps[..last], i);
    }
  }

  // ---- A printed path that matches

  lemma MatchedLit(fold: char -> char, s: string, pattern: seq<Element>, path: string, caps: seq<string>)
    requires Matches(fold, LitOf(s) + pattern, s + path, caps)
    ensures Matches(fold, pattern, path, caps)
  {
    if s == [] {
      assert LitOf(s) + pattern == pattern && s + path == path;
    } else {
      assert (LitOf(s) + pattern)[1..] == pattern && (s + path)[|s|..] == path;
    }
  }

  /** A capture that runs to the end or to the next slash captures what was printed there. */
  lemma MatchedCapture(fold: char -> char, kind: Kind, c: string, pattern: seq<Element>, path: string,
                       caps: seq<string>)
    requires Folding(fold) && Deterministic([Capture(kind)] + pattern)
    requires Matches(fold, [Capture(kind)] + pattern, c + path, caps)
    requires if pattern == [] then path == [] else UpToSlash(c + path, c)
    ensures caps != [] && caps[0] == c && InKind(kind, c, path) && Matches(fold, pattern, path, caps[1..])
  {
    var all := [Capture(kind)] + pattern;
    CaptureEnds(fold, all, c + path, caps);
    assert all[1..] == pattern;
    if pattern == [] {
      assert c + path == c;
    } else {
      UpToSlashUnique(c + path, c, caps[0]);
    }
    assert (c + path)[|c|..] == path;
  }

  lemma PrintedStarts(codec: Codec, prev: string, parts: seq<Part>, values: Values)
    requires Separated(parts) && Typed(parts, values) && prev != []
    ensures Print(codec, prev, parts, values) != [] && Print(codec, prev, parts, values)[0] == prev[0]
  {
  }

  lemma PrintedUpToSlash(codec: Codec, format: Format, v: Value)
    requires CodecOk(codec) && OfType(format, v) && format != Star && format != Plus
    ensures NoSlash(Uncast(codec, format, v))
  {
    if v.Number? {
      DecimalRoundTrip(codec.shown(v.x));
    }
  }

  /** What a variable can capture of its printed value decides whether the value fits. */
  lemma CapturedFits(codec: Codec, prev: string, format: Format, v: Value, path: string)
    requires CodecOk(codec) && OfType(format, v) && (format == Star || format == Plus ==> path == [])
    requires InKind(KindOf(prev, format), CapOf(prev, format, Uncast(codec, format, v)), path)
    ensures Fits(format, v)
  {
    if format == Star && SlashEnd(prev) {
      assert ("/" + v.s)[1..] == v.s;
    }
  }

  /** A printed path matches only with the printed values as its captures, and only when they all fit. */
  lemma {:induction false} MatchedPrint(fold: char -> char, codec: Codec, prev: string, parts: seq<Part>,
                                        values: Values, caps: seq<string>)
    requires Folding(fold) && CodecOk(codec) && Separated(parts) && Typed(parts, values)
    requires Matches(fold, PatternOf(prev, parts), Print(codec, prev, parts, values), caps)
    ensures AllFit(parts, values)
    decreases |parts|
  {
    if parts != [] {
      var part, format := parts[0], FormatOf(parts[0]);
      var v := values[part.name];
      var pattern, path := PatternOf(part.follow, parts[1..]), Print(codec, part.follow, parts[1..], values);
      MatchedVariable(fold, codec, prev, parts, values, caps);
      MatchedPrint(fold, codec, part.follow, parts[1..], values, caps[1..]);
      CapturedFits(codec, prev, format, v, path);
      forall i | 0 <= i < |parts|
        ensures parts[i].name in values && Fits(FormatOf(parts[i]), values[parts[i].name])
      {
        assert i > 0 ==> parts[i] == parts[1..][i - 1];
      }
    }
  }

  /** The first variable of a printed path that matches. */
  lemma MatchedVariable(fold: char -> char, codec: Codec, prev: string, parts: seq<Part>, values: Values,
                        caps: seq<string>)
    requires Folding(fold) && CodecOk(codec) && Separated(parts) && Typed(parts, values) && parts != []
    requires Matches(fold, PatternOf(prev, parts), Print(codec, prev, parts, values), caps)
    ensures var part, format := parts[0], FormatOf(parts[0]);
            var path := Print(codec, part.follow, parts[1..], values);
            && caps != []
            && InKind(KindOf(prev, format), CapOf(prev, format, Uncast(codec, format, values[part.name])), path)
            && Matches(fold, PatternOf(part.follow, parts[1..]), path, caps[1..])
            && (format == Star || format == Plus ==> path == [])
  {
    var part, format := parts[0], FormatOf(parts[0]);
    var s := Uncast(codec, format, values[part.name]);
    var pattern, path := PatternOf(part.follow, parts[1..]), Print(codec, part.follow, parts[1..], values);
    var kind, c := KindOf(prev, format), CapOf(prev, format, s);
    LeadAndCap(prev, format, s, path);
    MatchedLit(fold, Lead(prev, format), [Capture(kind)] + pattern, c + path, caps);
    VariableDeterministic(prev, parts);
    if part.follow != [] {
      PrintedStarts(codec, part.follow, parts[1..], values);
      PrintedUpToSlash(codec, format, values[part.name]);
    } else {
      assert parts[1..] == [] && pattern == [] && path == [];
    }
    MatchedCapture(fold, kind, c, pattern, path, caps);
  }

  lemma VariableDeterministic(prev: string, parts: seq<Part>)
    requires Separated(parts) && parts != []
    ensures var format := FormatOf(parts[0]);
            Deterministic([Capture(KindOf(prev, format))] + PatternOf(parts[0].follow, parts[1..]))
    decreases |parts|, 0
  {
    var format := FormatOf(parts[0]);
    var rest := PatternOf(parts[0].follow, parts[1..]);
    PatternDeterministic(parts[0].follow, parts[1..]);
    if rest != [] {
      RestStarts(parts[0].follow, parts[1..]);
    }
    PrependCapture(KindOf(prev, format), rest);
  }

  // ---- Reading back what was printed

  ghost predicate NamesDistinct(parts: seq<Part>) {
    forall i, j :: 0 <= i < j < |parts| ==> parts[i].name != parts[j].name
  }

  ghost function Names(parts: seq<Part>): set<string> {
    set i | 0 <= i < |parts| :: parts[i].name
  }

  /** toRoute prints every typed value, and the pattern it is to be read with. */
  lemma Printed(codec: Codec, route: Route, values: Values)
    requires AddParts(Start(route.head), route.parts).Some? && Separated(route.parts) && Typed(route.parts, values)
    ensures var c := AddParts(Start(route.head), route.parts).value;
            && c.vars == VarsOf(route.parts) && c.pattern == PatternOf(route.head, route.parts)
            && ToRoute(codec, c, values, 0) == Some(Print(codec, route.head, route.parts, values))
  {
    var parts, head := route.parts, route.head;
    var c := AddParts(Start(head), parts).value;
    PatternShape(Start(head), [], head, parts);
    VarsShape(Start(head), parts);
    SegmentsShape(Start(head), parts);
    assert c.pattern == PatternOf(head, parts) && c.vars == VarsOf(parts) && c.segments == [head] + SegmentsOf(parts);
    ToRoutePrints(codec, c, values, 0, head, parts);
  }

  /** The engine finds the printed values when they all fit, and nothing otherwise. */
  lemma PrintedFound(fold: char -> char, engine: Engine, codec: Codec, route: Route, values: Values)
    requires Folding(fold) && EngineOk(fold, engine) && CodecOk(codec)
    requires AddParts(Start(route.head), route.parts).Some? && Separated(route.parts) && Typed(route.parts, values)
    ensures var c := AddParts(Start(route.head), route.parts).value;
            engine(c.pattern, Print(codec, route.head, route.parts, values))
            == if AllFit(route.parts, values) then Some(CapsOf(codec, route.head, route.parts, values)) else None
  {
    var parts, head := route.parts, route.head;
    Printed(codec, route, values);
    var pattern, path := PatternOf(head, parts), Print(codec, head, parts, values);
    var found := engine(pattern, path);
    if found.Some? {
      assert Matches(fold, pattern, path, found.value);
      MatchedPrint(fold, codec, head, parts, values, found.value);
    }
    if AllFit(parts, values) {
      PrintedMatches(fold, codec, head, parts, values);
      PatternDeterministic(head, parts);
      assert found.Some?;
      MatchUnique(fold, pattern, path, found.value, CapsOf(codec, head, parts, values));
    }
  }

  /** For every route that compiles, whose variables have distinct names and are separated by slashes, reading the
      printed path gives the values back; a variable that takes all the rest has to come after a slash. */
  lemma RoundTrip(fold: char -> char, engine: Engine, codec: Codec, route: Route, values: Values)
    requires Folding(fold) && EngineOk(fold, engine) && CodecOk(codec)
    requires AddParts(Start(route.head), route.parts).Some?
    requires Separated(route.parts) && NamesDistinct(route.parts) && StarsAfterSlash(route.head, route.parts)
    requires AllFit(route.parts, values) && values.Keys == Names(route.parts)
    ensures var c := AddParts(Start(route.head), route.parts).value;
            var path := ToRoute(codec, c, values, 0);
            path.Some? && MatchPath(codec, engine, c, path.value) == Some(values)
  {
    Printed(codec, route, values);
    PrintedFound(fold, engine, codec, route, values);
    ReadsValues(codec, route.head, route.parts, values);
  }

  lemma ReadsKeys(codec: Codec, parts: seq<Part>, caps: seq<string>)
    requires |caps| == |parts|
    ensures |VarsOf(parts)| == |parts| && Read(codec, VarsOf(parts), caps).Keys == Names(parts)
  {
    VarsOfLength(parts);
    forall x
      ensures x in Read(codec, VarsOf(parts), caps) <==> x in Names(parts)
    {
      ReadKeys(codec, VarsOf(parts), caps, x);
    }
  }

  lemma ReadsValue(codec: Codec, head: string, parts: seq<Part>, values: Values, i: nat)
    requires CodecOk(codec) && NamesDistinct(parts) && StarsAfterSlash(head, parts)
    requires AllFit(parts, values) && Typed(parts, values) && i < |parts|
    ensures |CapsOf(codec, head, parts, values)| == |VarsOf(parts)|
    ensures var read := Read(codec, VarsOf(parts), CapsOf(codec, head, parts, values));
            parts[i].name in read && read[parts[i].name] == values[parts[i].name]
  {
    CapsLength(codec, head, parts, values);
    VarsOfLength(parts);
    CapsCast(codec, head, parts, values, i);
    ReadEntry(codec, VarsOf(parts), CapsOf(codec, head, parts, values), i);
  }

  lemma ReadsValues(codec: Codec, head: string, parts: seq<Part>, values: Values)
    requires CodecOk(codec) && NamesDistinct(parts) && StarsAfterSlash(head, parts)
    requires AllFit(parts, values) && Typed(parts, values) && values.Keys == Names(parts)
    ensures |CapsOf(codec, head, parts, values)| == |VarsOf(parts)|
    ensures Read(codec, VarsOf(parts), CapsOf(codec, head, parts, values)) == values
  {
    var caps := CapsOf(codec, head, parts, values);
    CapsLength(codec, head, parts, values);
    ReadsKeys(codec, parts, caps);
    var read := Read(codec, VarsOf(parts), caps);
    forall x | x in values
      ensures x in read && read[x] == values[x]
    {
      assert x in Names(parts);
      var i :| 0 <= i < |parts| && parts[i].name == x;
      ReadsValue(codec, head, parts, values, i);
    }
    assert read.Keys == values.Keys;
  }

  /** A route that is one variable for all of the path compiles too, but reading cuts off the first character. */
  lemma LeadingStar(fold: char -> char, engine: Engine, codec: Codec, name: string, s: string)
    requires Folding(fold) && EngineOk(fold, engine) && CodecOk(codec) && OneLine(s)
    ensures var parsed := AddParts(Start([]), [Part(name, "*", [])]);
            parsed.Some?
            && var path := ToRoute(codec, parsed.value, map[name := Text(s)], 0);
               && path == Some(s)
               && (MatchPath(codec, engine, parsed.value, s) == Some(map[name := Text(s)]) <==> s == [])
  {
    var part := Part(name, "*", []);
    assert [part][1..] == [];
    assert AddParts(Start([]), [part]) == AddPart(Start([]), part);
    Printed(codec, Route([], [part]), map[name := Text(s)]);
    PrintedFound(fold, engine, codec, Route([], [part]), map[name := Text(s)]);
    StarAlone(codec, name, s);
    ReadOne(codec, Variable(name, Star), s);
    var got := Cast(codec, Star, s);
    assert map[name := got][name] == got && map[name := Text(s)][name] == Text(s);
    assert s != [] ==> |s[1..]| < |s|;
  }

  lemma StarAlone(codec: Codec, name: string, s: string)
    requires OneLine(s)
    ensures var part, values := Part(name, "*", []), map[name := Text(s)];
            && VarsOf([part]) == [Variable(name, Star)]
            && Print(codec, [], [part], values) == s
            && CapsOf(codec, [], [part], values) == [s]
  {
    assert [Part(name, "*", [])][1..] == [];
  }

  lemma ReadOne(codec: Codec, v: Variable, s: string)
    ensures Read(codec, [v], [s]) == map[v.name := Cast(codec, v.format, s)]
  {
    assert [v][..0] == [] && [s][..0] == [];
  }

  /** A variable for all the rest compiles only after a slash or at the very beginning. */
  lemma {:induction false} StarsCompiled(c: Compiled, before: seq<Element>, prev: string, parts: seq<Part>)
    requires AddParts(c, parts).Some? && Separated(parts) && c.pattern == before + LitOf(prev)
    requires before == [] || before[|before| - 1].Capture?
    requires before != [] && prev == [] ==> parts == []
    ensures StarsAfterSlash(prev, parts) || (before == [] && StarOnly(prev, parts))
    decreases |parts|
  {
    if parts != [] {
      var part, format := parts[0], FormatOf(parts[0]);
      var d := AddPart(c, part).value;
      VariableShape(before, prev, format);
      PatternEnd(before, prev);
      var next := before + LitOf(Lead(prev, format)) + [Capture(KindOf(prev, format))];
      PartPattern(c, part, next);
      StarsCompiled(d, next, part.follow, parts[1..]);
    }
  }

  /** The route that is one variable for all of the path. */
  predicate StarOnly(head: string, parts: seq<Part>) {
    head == [] && |parts| == 1 && FormatOf(parts[0]) == Star && parts[0].follow == []
  }

  /** The exact condition over all routes that compile and all values of the right type: reading the printed path gives
      the values back if and only if they all fit -- texts for plain variables and `+` are not empty, texts for `*` and
      `+` lie on one line, numbers are whole, not negative and below 10^21 -- and, when the route is one variable for
      all of the path, its value is empty. */
  lemma RoundTripIff(fold: char -> char, engine: Engine, codec: Codec, route: Route, values: Values)
    requires Folding(fold) && EngineOk(fold, engine) && CodecOk(codec)
    requires AddParts(Start(route.head), route.parts).Some?
    requires Separated(route.parts) && NamesDistinct(route.parts)
    requires Typed(route.parts, values) && values.Keys == Names(route.parts)
    ensures var c := AddParts(Start(route.head), route.parts).value;
            var path := ToRoute(codec, c, values, 0);
            path.Some? && (MatchPath(codec, engine, c, path.value) == Some(values) <==>
                             && AllFit(route.parts, values)
                             && (StarOnly(route.head, route.parts) ==> values[route.parts[0].name] == Text([])))
  {
    Printed(codec, route, values);
    PrintedFound(fold, engine, codec, route, values);
    StarsCompiled(Start(route.head), [], route.head, route.parts);
    if AllFit(route.parts, values) {
      if StarsAfterSlash(route.head, route.parts) {
        RoundTrip(fold, engine, codec, route, values);
      } else {
        StarRoute(fold, engine, codec, route, values);
      }
    }
  }

  /** 10^21 is printed with an exponent, which the pattern of digits does not match. */
  lemma LargeNumberLost(fold: char -> char, engine: Engine, codec: Codec)
    requires Folding(fold) && EngineOk(fold, engine) && CodecOk(codec)
    ensures var parsed := AddParts(Start("/x/"), [Part("n", "i", [])]);
            parsed.Some?
            && var path := ToRoute(codec, parsed.value, map["n" := Number(EXPONENT)], 0);
               path.Some? && MatchPath(codec, engine, parsed.value, path.value) == None
  {
    var part, values := Part("n", "i", []), map["n" := Number(EXPONENT)];
    var route := Route("/x/", [part]);
    assert [part][1..] == [];
    assert AddParts(Start("/x/"), [part]) == AddPart(Start("/x/"), part);
    Binary64.PowerOfTenRepresentable();
    Printed(codec, route, values);
    PrintedFound(fold, engine, codec, route, values);
    assert !Fits(FormatOf(route.parts[0]), values["n"]);
  }

  lemma StarRoute(fold: char -> char, engine: Engine, codec: Codec, route: Route, values: Values)
    requires Folding(fold) && EngineOk(fold, engine) && CodecOk(codec) && StarOnly(route.head, route.parts)
    requires AddParts(Start(route.head), route.parts).Some?
    requires AllFit(route.parts, values) && values.Keys == Names(route.parts)
    ensures var c := AddParts(Start(route.head), route.parts).value;
            var path := ToRoute(codec, c, values, 0);
            path.Some? && (MatchPath(codec, engine, c, path.value) == Some(values)
                           <==> values[route.parts[0].name] == Text([]))
  {
    var part := route.parts[0];
    assert AddPart(Start([]), part).Some?;
    assert ParseFormat(part.format) == Some(Star);
    assert part == Part(part.name, "*", []) && route.parts == [part];
    var v := values[part.name];
    assert values == map[part.name := Text(v.s)] by {
      assert forall x :: x in values ==> x in Names(route.parts);
      assert part.name in values && v == Text(v.s);
    }
    LeadingStar(fold, engine, codec, part.name, v.s);
  }

  // ---- One variable at the end of a route, from its text

  /** The path begins with `head`, as the expression compares characters. */
  predicate Begins(fold: char -> char, head: string, path: string) {
    |head| <= |path| && SameText(fold, head, path[..|head|])
  }

  /** A literal and a capture match a path in one way, or not at all. */
  lemma OneCapture(fold: char -> char, engine: Engine, lead: string, kind: Kind, path: string)
    requires EngineOk(fold, engine)
    ensures engine(LitOf(lead) + [Capture(kind)], path)
            == if Begins(fold, lead, path) && InKind(kind, path[|lead|..], []) then Some([path[|lead|..]]) else None
  {
    var pattern := LitOf(lead) + [Capture(kind)];
    var found := engine(pattern, path);
    if found.Some? {
      assert Matches(fold, pattern, path, found.value);
      OneCaptureMatched(fold, lead, kind, path, found.value);
    }
    if Begins(fold, lead, path) && InKind(kind, path[|lead|..], []) {
      OneCaptureMatches(fold, lead, kind, path);
      assert found.Some?;
    }
  }

  lemma OneCaptureMatches(fold: char -> char, lead: string, kind: Kind, path: string)
    requires Begins(fold, lead, path) && InKind(kind, path[|lead|..], [])
    ensures Matches(fold, LitOf(lead) + [Capture(kind)], path, [path[|lead|..]])
  {
    var rest := path[|lead|..];
    assert rest + [] == rest && [rest] + [] == [rest] && [Capture(kind)] + [] == [Capture(kind)];
    MatchCapture(fold, kind, rest, [], [], []);
    if lead == [] {
      assert LitOf(lead) + [Capture(kind)] == [Capture(kind)] && path == rest;
    } else {
      assert (LitOf(lead) + [Capture(kind)])[1..] == [Capture(kind)];
    }
  }

  lemma OneCaptureMatched(fold: char -> char, lead: string, kind: Kind, path: string, caps: seq<string>)
    requires Matches(fold, LitOf(lead) + [Capture(kind)], path, caps)
    ensures Begins(fold, lead, path) && InKind(kind, path[|lead|..], []) && caps == [path[|lead|..]]
  {
    var pattern := LitOf(lead) + [Capture(kind)];
    if lead == [] {
      assert pattern == [Capture(kind)] && path[0..] == path;
    } else {
      assert pattern[1..] == [Capture(kind)];
    }
    CaptureAlone(fold, kind, path[|lead|..], caps);
  }

  lemma CaptureAlone(fold: char -> char, kind: Kind, rest: string, caps: seq<string>)
    requires Matches(fold, [Capture(kind)], rest, caps)
    ensures caps == [rest] && InKind(kind, rest, [])
  {
    assert [Capture(kind)][1..] == [];
    assert rest[|caps[0]|..] == [] && caps[1..] == [];
    assert caps[0] == rest && caps == [caps[0]];
  }

  lemma OneCompiles(head: string, part: Part)
    requires part.follow == []
    ensures AddParts(Start(head), [part]) == AddPart(Start(head), part)
  {
    assert [part][1..] == [];
  }

  /** What a compiled route with one variable at its end reads. */
  lemma OneValue(fold: char -> char, engine: Engine, codec: Codec, head: string, part: Part, format: Format,
                 kind: Kind, lead: string, path: string)
    requires EngineOk(fold, engine) && part.follow == [] && ParseFormat(part.format) == Some(format)
    requires AddVariable(LitOf(head), format) == Some(LitOf(lead) + [Capture(kind)])
    ensures var parsed := AddParts(Start(head), [part]);
            parsed.Some?
            && MatchPath(codec, engine, parsed.value, path)
               == if Begins(fold, lead, path) && InKind(kind, path[|lead|..], [])
                  then Some(map[part.name := Cast(codec, format, path[|lead|..])]) else None
  {
    OneCompiles(head, part);
    OneCapture(fold, engine, lead, kind, path);
    if Begins(fold, lead, path) {
      ReadOne(codec, Variable(part.name, format), path[|lead|..]);
    }
  }

  /** `{x}` takes a non-empty rest of the path without a slash, decoded. */
  lemma PlainMatches(fold: char -> char, engine: Engine, codec: Codec, head: string, name: string, path: string)
    requires EngineOk(fold, engine)
    ensures var parsed := AddParts(Start(head), [Part(name, "", [])]);
            && parsed.Some?
            && MatchPath(codec, engine, parsed.value, path)
               == if Begins(fold, head, path) && |path| > |head| && '/' !in path[|head|..]
                  then Some(map[name := Text(codec.decode(path[|head|..]))]) else None
  {
    OneValue(fold, engine, codec, head, Part(name, "", []), Plain, Segment, head, path);
  }

  /** `{x:i}` takes a rest of the path that is one or more digits, as a number. */
  lemma IntegerMatches(fold: char -> char, engine: Engine, codec: Codec, head: string, name: string, path: string)
    requires EngineOk(fold, engine)
    ensures var parsed := AddParts(Start(head), [Part(name, "i", [])]);
            && parsed.Some?
            && MatchPath(codec, engine, parsed.value, path)
               == if Begins(fold, head, path) && |path| > |head| && AllDigits(path[|head|..])
                  then Some(map[name := Number(Binary64.Round(ParseInt(path[|head|..]) as real))]) else None
  {
    OneValue(fold, engine, codec, head, Part(name, "i", []), Integer, Digits, head, path);
  }

  /** `*` and `+` compile at the beginning or after a slash, and nowhere else. */
  lemma RestCompiles(head: string, name: string)
    ensures AddParts(Start(head), [Part(name, "+", [])]).Some? <==> head == "" || head[|head| - 1] == '/'
    ensures AddParts(Start(head), [Part(name, "*", [])]).Some? <==> head == "" || head[|head| - 1] == '/'
  {
    OneCompiles(head, Part(name, "+", []));
    OneCompiles(head, Part(name, "*", []));
    EndOfHead(head);
  }

  lemma EndOfHead(head: string)
    ensures LitOf(head) == [] <==> head == ""
    ensures EndsWithSlash(LitOf(head)) <==> head != "" && head[|head| - 1] == '/'
  {
  }

  /** There `{x:+}` takes a non-empty rest of the path on one line, as it is. */
  lemma PlusMatches(fold: char -> char, engine: Engine, codec: Codec, head: string, name: string, path: string)
    requires EngineOk(fold, engine) && (head == "" || head[|head| - 1] == '/')
    ensures var parsed := AddParts(Start(head), [Part(name, "+", [])]);
            && parsed.Some?
            && MatchPath(codec, engine, parsed.value, path)
               == if Begins(fold, head, path) && |path| > |head| && OneLine(path[|head|..])
                  then Some(map[name := Text(path[|head|..])]) else None
  {
    EndOfHead(head);
    OneValue(fold, engine, codec, head, Part(name, "+", []), Plus, SomeRest, head, path);
  }

  /** `{x:*}` after a slash takes the rest of the path on one line, or nothing when even the slash is missing; the slash
      is not part of the value. */
  lemma StarMatches(fold: char -> char, engine: Engine, codec: Codec, head: string, name: string, path: string)
    requires EngineOk(fold, engine)
    ensures var parsed := AddParts(Start(head + "/"), [Part(name, "*", [])]);
            && parsed.Some?
            && MatchPath(codec, engine, parsed.value, path)
               == if !Begins(fold, head, path) then None
                  else if |path| == |head| then Some(map[name := Text("")])
                  else if path[|head|] == '/' && OneLine(path[|head| + 1..])
                  then Some(map[name := Text(path[|head| + 1..])]) else None
  {
    StarPattern(head);
    OneValue(fold, engine, codec, head + "/", Part(name, "*", []), Star, SlashRest, head, path);
    if Begins(fold, head, path) {
      RestWithoutSlash(path, |head|);
    }
  }

  lemma RestWithoutSlash(path: string, n: nat)
    requires n <= |path|
    ensures n < |path| ==> path[n..] != [] && path[n..][0] == path[n] && path[n..][1..] == path[n + 1..]
  {
  }

  lemma StarPattern(head: string)
    ensures AddVariable(LitOf(head + "/"), Star) == Some(LitOf(head) + [Capture(SlashRest)])
  {
    PatternEnd([], head + "/");
    assert [] + LitOf(head + "/") == LitOf(head + "/") && [] + LitOf(head) == LitOf(head);
    assert (head + "/")[..|head + "/"| - 1] == head;
  }

  /** `{x:*}` at the beginning takes all of a path on one line, less its first character. */
  lemma StarAloneMatches(fold: char -> char, engine: Engine, codec: Codec, name: string, path: string)
    requires EngineOk(fold, engine)
    ensures var parsed := AddParts(Start(""), [Part(name, "*", [])]);
            && parsed.Some?
            && MatchPath(codec, engine, parsed.value, path)
               == if OneLine(path) then Some(map[name := Text(if path == "" then "" else path[1..])]) else None
  {
    assert LitOf("") + [Capture(AnyRest)] == [Capture(AnyRest)];
    OneValue(fold, engine, codec, "", Part(name, "*", []), Star, AnyRest, "", path);
    assert path[0..] == path;
  }

  /** Any other format is refused. */
  lemma OtherFormatRefused(head: string, name: string, format: string)
    requires format != "" && format != "i" && format != "+" && format != "*"
    ensures AddParts(Start(head), [Part(name, format, [])]) == None
  {
    assert [Part(name, format, [])][1..] == [];
  }
}
