/** The scan of a text for bracketed regions, and the choice of the longest one that decodes. */
module BracketScan {
  import opened Wrappers

  predicate IsOpen(c: char) {
    c == '{' || c == '['
  }

  predicate IsClose(c: char) {
    c == '}' || c == ']'
  }

  function Closer(open: char): char {
    if open == '{' then '}' else ']'
  }

  function Opener(close: char): char {
    if close == '}' then '{' else '['
  }

  // ---- Balanced text, by its grammar

  /** Balanced text: characters that are no brackets, and bracketed groups. */
  datatype Text = End | Plain(c: char, rest: Text) | Group(open: char, inner: Text, rest: Text)

  predicate WellFormed(t: Text) {
    match t
    case End => true
    case Plain(c, rest) => !IsOpen(c) && !IsClose(c) && WellFormed(rest)
    case Group(open, inner, rest) => IsOpen(open) && WellFormed(inner) && WellFormed(rest)
  }

  function Flatten(t: Text): string {
    match t
    case End => []
    case Plain(c, rest) => [c] + Flatten(rest)
    case Group(open, inner, rest) => [open] + Flatten(inner) + [Closer(open)] + Flatten(rest)
  }

  /** `content[s..e + 1]` is balanced text `t` between two brackets of a kind. */
  predicate RegionOf(content: string, s: nat, e: nat, t: Text) {
    && s < e < |content| && WellFormed(t) && IsOpen(content[s])
    && content[s + 1..e] == Flatten(t) && content[e] == Closer(content[s])
  }

  ghost predicate Region(content: string, s: nat, e: nat) {
    exists t :: RegionOf(content, s, e, t)
  }

  // ---- The inner loop

  /** The inner loop from position `i`: the position that empties the stack, if it is reached. */
  function Scan(content: string, stack: string, i: nat): Option<nat>
    requires stack != []
    decreases |content| - i
  {
    if i >= |content| then None
    else if IsClose(content[i]) then
      var top := stack[|stack| - 1];
      var rest := stack[..|stack| - 1];
      if top != Opener(content[i]) then None
      else if rest == [] then Some(i)
      else Scan(content, rest, i + 1)
    else if IsOpen(content[i]) then Scan(content, stack + [content[i]], i + 1)
    else Scan(content, stack, i + 1)
  }

  /** Balanced text between `pre` and `post` leaves the stack as it was. */
  lemma {:induction false} ScanPassesText(content: string, stack: string, pre: string, t: Text, post: string)
    requires stack != [] && WellFormed(t) && content == pre + Flatten(t) + post
    ensures Scan(content, stack, |pre|) == Scan(content, stack, |pre + Flatten(t)|)
    decreases t
  {
    match t {
      case End =>
      case Plain(c, rest) =>
        assert content == (pre + [c]) + Flatten(rest) + post;
        assert content[|pre|] == c;
        ScanPassesText(content, stack, pre + [c], rest, post);
      case Group(open, inner, rest) =>
        var x, y := pre + [open], [Closer(open)] + Flatten(rest) + post;
        var z := x + Flatten(inner) + [Closer(open)];
        GroupBetween(pre, open, Flatten(inner), Flatten(rest), post);
        assert content[|pre|] == open && content[|x + Flatten(inner)|] == Closer(open);
        ScanPassesText(content, stack + [open], x, inner, y);
        assert (stack + [open])[..|stack|] == stack;
        ScanPassesText(content, stack, z, rest, post);
    }
  }

  lemma GroupBetween(pre: string, open: char, inner: string, rest: string, post: string)
    ensures var content := pre + ([open] + inner + [Closer(open)] + rest) + post;
            var x := pre + [open];
            && content == x + inner + ([Closer(open)] + rest + post)
            && content == (x + inner + [Closer(open)]) + rest + post
  {
  }

  /** A scan that ends closes the top of its stack after balanced text, and goes on with the rest. */
  lemma {:induction false} ScanClosesTop(content: string, stack: string, i: nat, e: nat)
    returns (t: Text, j: nat)
    requires stack != [] && Scan(content, stack, i) == Some(e)
    ensures i <= j <= e < |content| && WellFormed(t) && content[i..j] == Flatten(t)
    ensures content[j] == Closer(stack[|stack| - 1])
    ensures |stack| == 1 ==> j == e
    ensures |stack| > 1 ==> j < e && Scan(content, stack[..|stack| - 1], j + 1) == Some(e)
    decreases |content| - i
  {
    var c := content[i];
    if IsClose(c) {
      t, j := End, i;
      if |stack| > 1 {
        ScanEndsAfter(content, stack[..|stack| - 1], i + 1, e);
      }
    } else if IsOpen(c) {
      var inner, k := ScanClosesTop(content, stack + [c], i + 1, e);
      assert (stack + [c])[..|stack|] == stack;
      var rest, m := ScanClosesTop(content, stack, k + 1, e);
      t, j := Group(c, inner, rest), m;
      GroupSlice(content, i, k, j);
    } else {
      var rest, m := ScanClosesTop(content, stack, i + 1, e);
      t, j := Plain(c, rest), m;
      assert content[i..j] == [c] + content[i + 1..j];
    }
  }

  lemma GroupSlice(content: string, i: nat, k: nat, j: nat)
    requires i < k < j <= |content|
    ensures content[i..j] == [content[i]] + content[i + 1..k] + [content[k]] + content[k + 1..j]
  {
  }

  lemma {:induction false} ScanEndsAfter(content: string, stack: string, i: nat, e: nat)
    requires stack != [] && Scan(content, stack, i) == Some(e)
    ensures i <= e < |content|
    decreases |content| - i
  {
    if IsClose(content[i]) {
      if |stack| > 1 {
        ScanEndsAfter(content, stack[..|stack| - 1], i + 1, e);
      }
    } else if IsOpen(content[i]) {
      ScanEndsAfter(content, stack + [content[i]], i + 1, e);
    } else {
      ScanEndsAfter(content, stack, i + 1, e);
    }
  }

  /** The scan that starts at an opening bracket finds the end of its region, exactly when it has one. */
  lemma ScanFindsRegion(content: string, s: nat, e: nat)
    requires s < |content| && IsOpen(content[s])
    ensures Scan(content, [content[s]], s + 1) == Some(e) <==> Region(content, s, e)
  {
    if Scan(content, [content[s]], s + 1) == Some(e) {
      var t, j := ScanClosesTop(content, [content[s]], s + 1, e);
      assert RegionOf(content, s, e, t);
    }
    if Region(content, s, e) {
      var t :| RegionOf(content, s, e, t);
      assert content == content[..s + 1] + content[s + 1..e] + content[e..];
      ScanPassesText(content, [content[s]], content[..s + 1], t, content[e..]);
    }
  }

  /** A region starts and ends with braces or with square brackets. */
  lemma RegionBrackets(content: string, s: nat, e: nat)
    requires Region(content, s, e)
    ensures s < e < |content|
    ensures (content[s] == '{' && content[e] == '}') || (content[s] == '[' && content[e] == ']')
  {
  }

  /** All other characters between two brackets are plain: with them it is always a region. */
  lemma {:induction false} PlainText(s: string) returns (t: Text)
    requires '{' !in s && '}' !in s && '[' !in s && ']' !in s
    ensures WellFormed(t) && Flatten(t) == s
  {
    if s == [] {
      t := End;
    } else {
      var rest := PlainText(s[1..]);
      t := Plain(s[0], rest);
    }
  }

  lemma PlainRegion(s: string)
    requires '{' !in s && '}' !in s && '[' !in s && ']' !in s
    ensures Region("{" + s + "}", 0, |s| + 1) && Region("[" + s + "]", 0, |s| + 1)
  {
    var t := PlainText(s);
    assert ("{" + s + "}")[1..|s| + 1] == s && ("[" + s + "]")[1..|s| + 1] == s;
    assert RegionOf("{" + s + "}", 0, |s| + 1, t) && RegionOf("[" + s + "]", 0, |s| + 1, t);
  }

  // ---- How regions lie

  /** A scan that ends at `e` passes every position before it with brackets on its stack. */
  lemma {:induction false} ScanPasses(content: string, stack: string, i: nat, e: nat, p: nat) returns (there: string)
    requires stack != [] && Scan(content, stack, i) == Some(e) && i <= p <= e
    ensures there != [] && Scan(content, there, p) == Some(e)
    decreases |content| - i
  {
    if i == p {
      there := stack;
    } else if IsClose(content[i]) {
      there := ScanPasses(content, stack[..|stack| - 1], i + 1, e, p);
    } else if IsOpen(content[i]) {
      there := ScanPasses(content, stack + [content[i]], i + 1, e, p);
    } else {
      there := ScanPasses(content, stack, i + 1, e, p);
    }
  }

  /** Regions do not cross: one that starts inside another ends inside it. */
  lemma RegionsNest(content: string, s: nat, e: nat, p: nat, q: nat)
    requires Region(content, s, e) && Region(content, p, q) && s < p <= e
    ensures q < e
  {
    ScanFindsRegion(content, s, e);
    var there := ScanPasses(content, [content[s]], s + 1, e, p);
    assert IsOpen(content[p]);
    var t, j := ScanClosesTop(content, there + [content[p]], p + 1, e);
    assert RegionOf(content, p, j, t);
    ScanFindsRegion(content, p, j);
    ScanFindsRegion(content, p, q);
  }

  // ---- The outer loop

  datatype Span = Span(s: nat, e: nat)

  predicate Inside(inner: Span, outer: Span) {
    outer.s <= inner.s && inner.e <= outer.e
  }

  ghost predicate Maximal(content: string, r: Span) {
    && Region(content, r.s, r.e)
    && forall o: Span :: Region(content, o.s, o.e) && Inside(r, o) ==> o == r
  }

  /** Spans in order, none touching the next. */
  ghost predicate Ordered(spans: seq<Span>) {
    forall i, j :: 0 <= i < j < |spans| ==> spans[i].e < spans[j].s
  }

  ghost predicate Covered(spans: seq<Span>, r: Span) {
    exists i :: 0 <= i < |spans| && Inside(r, spans[i])
  }

  /** The candidates after the scan of the positions before `p`. */
  ghost predicate Scanned(content: string, p: nat, spans: seq<Span>) {
    && Ordered(spans)
    && (forall i :: 0 <= i < |spans| ==> Maximal(content, spans[i]) && spans[i].e < p)
    && (forall r: Span :: Region(content, r.s, r.e) && r.s < p ==> Covered(spans, r))
  }

  lemma CoveredStays(spans: seq<Span>, x: Span, r: Span)
    requires Covered(spans, r)
    ensures Covered(spans + [x], r)
  {
    var i :| 0 <= i < |spans| && Inside(r, spans[i]);
    assert Inside(r, (spans + [x])[i]);
  }

  lemma NotCovered(content: string, spans: seq<Span>, s: nat, o: Span)
    requires Scanned(content, s, spans) && o.e >= s
    ensures !Covered(spans, o)
  {
  }

  /** A region that starts at the present position is a new candidate. */
  lemma CandidateFound(content: string, spans: seq<Span>, s: nat, e: nat)
    requires Scanned(content, s, spans) && Region(content, s, e)
    ensures Scanned(content, e + 1, spans + [Span(s, e)])
  {
    var x := Span(s, e);
    forall o: Span | Region(content, o.s, o.e) && Inside(x, o)
      ensures o == x
    {
      if o.s < s {
        NotCovered(content, spans, s, o);
      } else {
        ScanFindsRegion(content, s, e);
        ScanFindsRegion(content, s, o.e);
      }
    }
    assert Maximal(content, x);
    forall r: Span | Region(content, r.s, r.e) && r.s < e + 1
      ensures Covered(spans + [x], r)
    {
      if r.s < s {
        CoveredStays(spans, x, r);
      } else {
        if r.s == s {
          ScanFindsRegion(content, s, e);
          ScanFindsRegion(content, s, r.e);
        } else {
          RegionsNest(content, s, e, r.s, r.e);
        }
        assert Inside(r, (spans + [x])[|spans|]);
      }
    }
  }

  /** The inner loop over an explicit stack. */
  method FindEnd(content: string, indexStart: nat) returns (end: Option<nat>)
    requires indexStart < |content| && IsOpen(content[indexStart])
    ensures end == Scan(content, [content[indexStart]], indexStart + 1)
    ensures end.Some? ==> indexStart < end.value < |content|
  {
    var stack := [content[indexStart]];
    var indexEnd := indexStart + 1;
    while indexEnd < |content|
      invariant indexStart < indexEnd <= |content| && stack != []
      invariant Scan(content, stack, indexEnd) == Scan(content, [content[indexStart]], indexStart + 1)
    {
      var c := content[indexEnd];
      if IsClose(c) {
        var top := stack[|stack| - 1];
        stack := stack[..|stack| - 1];
        if top != Opener(c) {
          return None;
        }
        if |stack| == 0 {
          return Some(indexEnd);
        }
      } else if IsOpen(c) {
        stack := stack + [c];
      }
      indexEnd := indexEnd + 1;
    }
    return None;
  }

  /** The candidates are the texts of the spans. */
  predicate TextsOf(content: string, spans: seq<Span>, candidates: seq<string>) {
    && |candidates| == |spans|
    && forall i :: 0 <= i < |spans| ==>
         spans[i].s <= spans[i].e < |content| && candidates[i] == content[spans[i].s..spans[i].e + 1]
  }

  /** No region starts at the present position. */
  lemma NothingStarts(content: string, spans: seq<Span>, s: nat)
    requires s < |content| && Scanned(content, s, spans)
    requires IsOpen(content[s]) ==> Scan(content, [content[s]], s + 1) == None
    ensures Scanned(content, s + 1, spans)
  {
    forall e: nat
      ensures !Region(content, s, e)
    {
      if IsOpen(content[s]) {
        ScanFindsRegion(content, s, e);
      }
    }
  }

  /** The candidate texts and the spans they come from, when the positions before `p` are scanned. */
  ghost predicate Progress(content: string, p: nat, spans: seq<Span>, candidates: seq<string>) {
    TextsOf(content, spans, candidates) && Scanned(content, p, spans)
  }

  lemma CandidateAdded(content: string, s: nat, e: nat, spans: seq<Span>, candidates: seq<string>)
    requires s < e < |content| && IsOpen(content[s]) && Scan(content, [content[s]], s + 1) == Some(e)
    requires Progress(content, s, spans, candidates)
    ensures Progress(content, e + 1, spans + [Span(s, e)], candidates + [content[s..e + 1]])
  {
    ScanFindsRegion(content, s, e);
    CandidateFound(content, spans, s, e);
  }

  lemma CandidateSkipped(content: string, s: nat, spans: seq<Span>, candidates: seq<string>)
    requires s < |content| && Progress(content, s, spans, candidates)
    requires IsOpen(content[s]) ==> Scan(content, [content[s]], s + 1) == None
    ensures Progress(content, s + 1, spans, candidates)
  {
    NothingStarts(content, spans, s);
  }

  /** The spans are exactly the maximal regions, in order and apart, and every region lies inside one. */
  ghost predicate MaximalRegions(content: string, spans: seq<Span>) {
    && Ordered(spans)
    && (forall r: Span :: r in spans <==> Maximal(content, r))
    && (forall r: Span :: Region(content, r.s, r.e) ==> Covered(spans, r))
  }

  lemma AllFound(content: string, spans: seq<Span>, candidates: seq<string>)
    requires Progress(content, |content|, spans, candidates)
    ensures TextsOf(content, spans, candidates) && MaximalRegions(content, spans)
  {
    forall r: Span
      ensures r in spans <==> Maximal(content, r)
      ensures Region(content, r.s, r.e) ==> Covered(spans, r)
    {
      if Maximal(content, r) {
        assert Covered(spans, r);
      }
    }
  }

  /** The candidates are the texts of exactly the maximal regions, in order. */
  ghost predicate TextsOfMaximal(content: string, candidates: seq<string>) {
    exists spans :: TextsOf(content, spans, candidates) && MaximalRegions(content, spans)
  }

  method Candidates(content: string) returns (candidates: seq<string>)
    ensures TextsOfMaximal(content, candidates)
  {
    candidates := [];
    ghost var spans: seq<Span> := [];
    var indexStart: nat := 0;
    while indexStart < |content|
      invariant indexStart <= |content|
      invariant Progress(content, indexStart, spans, candidates)
    {
      var end: Option<nat> := None;
      if IsOpen(content[indexStart]) {
        end := FindEnd(content, indexStart);
        if end.Some? {
          CandidateAdded(content, indexStart, end.value, spans, candidates);
          candidates := candidates + [content[indexStart..end.value + 1]];
          spans := spans + [Span(indexStart, end.value)];
          indexStart := end.value;
        }
      }
      if end.None? {
        CandidateSkipped(content, indexStart, spans, candidates);
      }
      indexStart := indexStart + 1;
    }
    AllFound(content, spans, candidates);
  }

  // ---- The choice

  ghost predicate LongestFirst(list: seq<string>, order: seq<string>) {
    && multiset(order) == multiset(list)
    && forall i, j :: 0 <= i < j < |order| ==> |order[i]| >= |order[j]|
  }

  /** `text` is a maximal region of the content that decodes. */
  ghost predicate Decodable<V>(content: string, decode: string -> Option<V>, text: string) {
    && decode(text).Some?
    && exists m: Span :: Maximal(content, m) && m.s <= m.e < |content| && text == content[m.s..m.e + 1]
  }

  /** The texts of the maximal regions are those in the sorted list of candidates. */
  lemma InOrderIff<V>(content: string, decode: string -> Option<V>, candidates: seq<string>, spans: seq<Span>,
                      order: seq<string>, text: string)
    requires TextsOf(content, spans, candidates) && LongestFirst(candidates, order)
    requires MaximalRegions(content, spans)
    ensures Decodable(content, decode, text) <==> text in order && decode(text).Some?
  {
    assert text in order <==> text in multiset(order);
    assert text in candidates <==> text in multiset(candidates);
    if text in candidates {
      var i :| 0 <= i < |candidates| && candidates[i] == text;
      assert Maximal(content, spans[i]);
    }
    if Decodable(content, decode, text) {
      var m: Span :| Maximal(content, m) && m.s <= m.e < |content| && text == content[m.s..m.e + 1];
      var i :| 0 <= i < |spans| && spans[i] == m;
      assert candidates[i] == text;
    }
  }

  /** What the sorted list says of the texts that decode. */
  ghost predicate InOrder<V>(content: string, decode: string -> Option<V>, order: seq<string>) {
    forall text :: Decodable(content, decode, text) <==> text in order && decode(text).Some?
  }

  lemma SortedHoldsAll<V>(content: string, decode: string -> Option<V>, candidates: seq<string>, order: seq<string>)
    requires TextsOfMaximal(content, candidates) && LongestFirst(candidates, order)
    ensures InOrder(content, decode, order)
  {
    var spans :| TextsOf(content, spans, candidates) && MaximalRegions(content, spans);
    forall text
      ensures Decodable(content, decode, text) <==> text in order && decode(text).Some?
    {
      InOrderIff(content, decode, candidates, spans, order, text);
    }
  }

  /** The first text of the list that decodes is a longest one. */
  lemma FirstIsLongest<V>(content: string, decode: string -> Option<V>, list: seq<string>, order: seq<string>, i: nat)
    requires LongestFirst(list, order) && InOrder(content, decode, order)
    requires i < |order| && decode(order[i]).Some? && forall k :: 0 <= k < i ==> decode(order[k]) == None
    ensures Decodable(content, decode, order[i])
    ensures forall text :: Decodable(content, decode, text) ==> |text| <= |order[i]|
  {
    forall text | Decodable(content, decode, text)
      ensures |text| <= |order[i]|
    {
      var k :| 0 <= k < |order| && order[k] == text;
    }
  }

  /** The answer for a text: None, the ValueError, when no maximal region decodes; else what a longest one that does
      decodes to. */
  ghost predicate Answer<V>(content: string, decode: string -> Option<V>, r: Option<V>, from: string) {
    && (r == None <==> forall text :: !Decodable(content, decode, text))
    && (r.Some? ==> Decodable(content, decode, from) && decode(from) == r
                    && forall text :: Decodable(content, decode, text) ==> |text| <= |from|)
  }

  /** The result is the answer for the content.
      `sort` and `decode` stand for the library's sort and JSON decoder. */
  method LoadAndRepair<V>(content: string, decode: string -> Option<V>, sort: seq<string> -> seq<string>)
    returns (r: Option<V>)
    requires forall list :: LongestFirst(list, sort(list))
    ensures exists from :: Answer(content, decode, r, from)
  {
    var candidates := Candidates(content);
    var order := sort(candidates);
    assert LongestFirst(candidates, order);
    SortedHoldsAll(content, decode, candidates, order);
    var i := 0;
    while i < |order|
      invariant i <= |order|
      invariant forall k :: 0 <= k < i ==> decode(order[k]) == None
    {
      var result := decode(order[i]);
      if result.Some? {
        FirstIsLongest(content, decode, candidates, order, i);
        assert Answer(content, decode, result, order[i]);
        return result;
      }
      i := i + 1;
    }
    assert Answer(content, decode, None, []);
    return None;
  }

  // ---- The longest of all regions

  function TextOf(content: string, r: Span): string
    requires r.s <= r.e < |content|
  {
    content[r.s..r.e + 1]
  }

  ghost predicate RegionText(content: string, text: string) {
    exists r: Span :: Region(content, r.s, r.e) && TextOf(content, r) == text
  }

  ghost predicate MaximalText(content: string, text: string) {
    exists r: Span :: Maximal(content, r) && TextOf(content, r) == text
  }

  /** What the documentation promises: the longest of all regions that decode, the ones inside others included. */
  ghost predicate LongestOfAll<V>(content: string, decode: string -> Option<V>, r: Option<V>) {
    && (r == None <==> forall text :: RegionText(content, text) ==> decode(text) == None)
    && (r.Some? ==> exists text :: RegionText(content, text) && decode(text) == r && NoLonger(content, decode, text))
  }

  ghost predicate NoLonger<V>(content: string, decode: string -> Option<V>, text: string) {
    forall other :: RegionText(content, other) && decode(other).Some? ==> |other| <= |text|
  }

  ghost predicate AllMaximal(content: string) {
    forall text :: RegionText(content, text) ==> MaximalText(content, text)
  }

  lemma DecodableIff<V>(content: string, decode: string -> Option<V>, text: string)
    ensures Decodable(content, decode, text) <==> decode(text).Some? && MaximalText(content, text)
  {
    if Decodable(content, decode, text) {
      var m: Span :| Maximal(content, m) && m.s <= m.e < |content| && text == content[m.s..m.e + 1];
      assert TextOf(content, m) == text;
    }
    if decode(text).Some? && MaximalText(content, text) {
      var r: Span :| Maximal(content, r) && TextOf(content, r) == text;
      assert Maximal(content, r) && r.s <= r.e < |content| && text == content[r.s..r.e + 1];
    }
  }

  lemma MaximalIsRegion(content: string, text: string)
    requires MaximalText(content, text)
    ensures RegionText(content, text)
  {
    var r: Span :| Maximal(content, r) && TextOf(content, r) == text;
    assert Region(content, r.s, r.e);
  }

  lemma AnswerIsLongest<V>(content: string, decode: string -> Option<V>, r: Option<V>, from: string)
    requires AllMaximal(content) && Answer(content, decode, r, from)
    ensures LongestOfAll(content, decode, r)
  {
    forall text
      ensures Decodable(content, decode, text) <==> decode(text).Some? && RegionText(content, text)
    {
      DecodableIff(content, decode, text);
      if MaximalText(content, text) {
        MaximalIsRegion(content, text);
      }
    }
    if r.Some? {
      assert RegionText(content, from) && decode(from) == r && NoLonger(content, decode, from);
    }
  }

  /** The decoder that accepts one text. */
  function Only<V>(text: string, v: V): string -> Option<V> {
    x => if x == text then Some(v) else None
  }

  /** A region whose text is that of no maximal region is missed by the decoder that accepts that text alone. */
  lemma AnswerMisses<V>(content: string, text: string, v: V)
    requires RegionText(content, text) && !MaximalText(content, text)
    ensures Answer(content, Only(text, v), None, [])
    ensures !LongestOfAll(content, Only(text, v), None)
  {
    forall x
      ensures !Decodable(content, Only(text, v), x)
    {
      DecodableIff(content, Only(text, v), x);
    }
    assert Only(text, v)(text) == Some(v);
  }

  ghost predicate AlwaysLongest<V(!new)>(content: string, v: V) {
    forall decode: string -> Option<V>, r, from ::
      Answer(content, decode, r, from) ==> LongestOfAll(content, decode, r)
  }

  /** The exact condition: whatever the decoder, the result is a longest region that decodes just when the text of
      every region inside another one is also the text of a maximal region. */
  lemma LongestIff<V(!new)>(content: string, v: V)
    ensures AlwaysLongest(content, v) <==> AllMaximal(content)
  {
    if AllMaximal(content) {
      forall decode: string -> Option<V>, r, from | Answer(content, decode, r, from)
        ensures LongestOfAll(content, decode, r)
      {
        AnswerIsLongest(content, decode, r, from);
      }
    } else {
      var text :| RegionText(content, text) && !MaximalText(content, text);
      AnswerMisses(content, text, v);
      assert Answer(content, Only(text, v), None, []);
    }
  }

  /** In this content the braces are a region inside the brackets, which need not decode. */
  lemma InnerMissed<V>(v: V)
    ensures RegionText("[x{}]", "{}") && !MaximalText("[x{}]", "{}")
    ensures Answer("[x{}]", Only("{}", v), None, []) && !LongestOfAll("[x{}]", Only("{}", v), None)
  {
    var content := "[x{}]";
    InnerRegions();
    assert Region(content, 2, 3) && TextOf(content, Span(2, 3)) == "{}";
    forall r: Span | r.s <= r.e < |content| && TextOf(content, r) == "{}"
      ensures r == Span(2, 3)
    {
      assert TextOf(content, r)[0] == content[r.s];
    }
    assert Inside(Span(2, 3), Span(0, 4));
    AnswerMisses(content, "{}", v);
  }

  lemma InnerRegions()
    ensures Region("[x{}]", 0, 4) && Region("[x{}]", 2, 3)
  {
    var braces := Group('{', End, End);
    assert Flatten(braces) == ['{'] + [] + ['}'] + [];
    assert Flatten(Plain('x', braces)) == ['x'] + Flatten(braces);
    assert RegionOf("[x{}]", 0, 4, Plain('x', braces));
    assert RegionOf("[x{}]", 2, 3, End);
  }
}
