/**
 * Link extraction from a fetched page (parser.go).
 *
 * For each attribute name `attr` of `AttributesToParse`, the page is searched
 * for the regular expression `attr="(.*?)"`: the literal text `attr="`, then
 * the shortest run of characters other than a newline, then `"`.  Go's
 * `FindAllString(…, -1)` reports the leftmost match, resumes the search right
 * after it, and so returns leftmost, non-overlapping matches in document order.
 * The quoted value of each match becomes a link: a value that starts with `/`
 * is prefixed with the base URL, and only links that start with the base URL
 * are kept.
 */
module Parser {
  import opened Wrappers

  /** The attributes whose quoted values are links, scanned in this order. */
  const AttributesToParse: seq<string> := ["href", "src"]

  /** The text `attr="` that every match for `attr` begins with. */
  function Opening(attr: string): string
  {
    attr + "=\""
  }

  // ---------------------------------------------------------------------------
  // Matching `attr="(.*?)"`
  // ---------------------------------------------------------------------------

  /**
   * Position of the quote that closes a value beginning at `j`: the first `"`
   * at or after `j`, provided no newline comes before it (the lazy `.*?` takes
   * as few characters as it can, and `.` never matches a newline).
   */
  function ClosingQuote(s: string, j: nat): (r: Option<nat>)
    decreases |s| - j
    ensures r.Some? ==> j <= r.value < |s| && s[r.value] == '"'
  {
    if j >= |s| then None
    else if s[j] == '"' then Some(j)
    else if s[j] == '\n' then None
    else ClosingQuote(s, j + 1)
  }

  /**
   * The quote found is the first one after `j`, and no newline comes before
   * it; when none is found, every later quote has a newline before it.
   */
  lemma {:induction false} ClosingQuoteIsFirst(s: string, j: nat)
    decreases |s| - j
    ensures var r := ClosingQuote(s, j);
      r.Some? ==> forall k | j <= k < r.value :: s[k] != '"' && s[k] != '\n'
    ensures ClosingQuote(s, j).None? ==>
      forall q | j <= q < |s| && s[q] == '"' :: exists k | j <= k < q :: s[k] == '\n'
  {
    if j < |s| && s[j] != '"' && s[j] != '\n' {
      ClosingQuoteIsFirst(s, j + 1);
    }
  }

  /** The text `attr="` occurs in `s` at position `i`. */
  predicate OpensAt(s: string, attr: string, i: nat)
  {
    i + |Opening(attr)| <= |s| && s[i..i + |Opening(attr)|] == Opening(attr)
  }

  /**
   * The end (exclusive) of the match of `attr="(.*?)"` that starts at
   * position `i`, if there is one.
   */
  function MatchAt(s: string, attr: string, i: nat): (r: Option<nat>)
    ensures r.Some? ==> i + |Opening(attr)| < r.value <= |s|
    ensures r.Some? ==> OpensAt(s, attr, i) && s[r.value - 1] == '"'
    ensures !OpensAt(s, attr, i) ==> r.None?
  {
    if OpensAt(s, attr, i) then
      match ClosingQuote(s, i + |Opening(attr)|)
      case Some(q) => Some(q + 1)
      case None => None
    else
      None
  }

  /** Where the scan goes after position `i`: past the match there, or one position on. */
  function Next(s: string, attr: string, i: nat): (r: nat)
    requires i < |s|
    ensures i < r <= |s|
  {
    match MatchAt(s, attr, i)
    case Some(stop) => stop
    case None => i + 1
  }

  /**
   * A match is `attr="`, a value with neither a quote nor a newline, and the
   * closing quote; where `attr="` occurs but no match starts, every later
   * quote has a newline before it.
   */
  lemma MatchAtShape(s: string, attr: string, i: nat)
    ensures var r := MatchAt(s, attr, i);
      && (r.Some? ==> OpensAt(s, attr, i) && s[r.value - 1] == '"')
      && (r.Some? ==> forall k | i + |Opening(attr)| <= k < r.value - 1 :: s[k] != '"' && s[k] != '\n')
    ensures MatchAt(s, attr, i).None? && OpensAt(s, attr, i) ==>
      forall q | i + |Opening(attr)| <= q < |s| && s[q] == '"' ::
        exists k | i + |Opening(attr)| <= k < q :: s[k] == '\n'
  {
    if OpensAt(s, attr, i) {
      ClosingQuoteIsFirst(s, i + |Opening(attr)|);
    }
  }

  /** A match, as the half-open range `s[start..stop]` it occupies. */
  datatype Span = Span(start: nat, stop: nat)

  /**
   * The matches in `s[from..]` that `FindAllString` reports: the leftmost
   * match, then the matches after its end.
   */
  function Spans(s: string, attr: string, from: nat): (r: seq<Span>)
    decreases |s| - from
    ensures forall k | 0 <= k < |r| :: from <= r[k].start < r[k].stop <= |s|
  {
    if from >= |s| then []
    else
      match MatchAt(s, attr, from)
      case Some(stop) => [Span(from, stop)] + Spans(s, attr, stop)
      case None => Spans(s, attr, from + 1)
  }

  /** The spans do not overlap: each one ends before the next one starts. */
  lemma {:induction false} SpansInOrder(s: string, attr: string, from: nat, k: nat)
    requires k + 1 < |Spans(s, attr, from)|
    ensures Spans(s, attr, from)[k].stop <= Spans(s, attr, from)[k + 1].start
    decreases |s| - from
  {
    match MatchAt(s, attr, from)
    case Some(stop) =>
      if k > 0 {
        SpansInOrder(s, attr, stop, k - 1);
      }
    case None =>
      SpansInOrder(s, attr, from + 1, k);
  }

  /** Every reported span is a match of `attr="(.*?)"` at its start. */
  lemma {:induction false} SpansAreMatches(s: string, attr: string, from: nat, k: nat)
    requires k < |Spans(s, attr, from)|
    ensures MatchAt(s, attr, Spans(s, attr, from)[k].start) == Some(Spans(s, attr, from)[k].stop)
    decreases |s| - from
  {
    match MatchAt(s, attr, from)
    case Some(stop) =>
      if k > 0 {
        SpansAreMatches(s, attr, stop, k - 1);
      }
    case None =>
      SpansAreMatches(s, attr, from + 1, k);
  }

  /** Every span lies inside `s`. */
  predicate Within(s: string, spans: seq<Span>)
  {
    forall k | 0 <= k < |spans| :: spans[k].start <= spans[k].stop <= |s|
  }

  /** The text of each span, in order. */
  function Texts(s: string, spans: seq<Span>): (r: seq<string>)
    requires Within(s, spans)
    ensures |r| == |spans|
  {
    if spans == [] then [] else [s[spans[0].start..spans[0].stop]] + Texts(s, spans[1..])
  }

  /** The `k`-th text is the text of the `k`-th span. */
  lemma {:induction false} TextsAt(s: string, spans: seq<Span>, k: nat)
    requires Within(s, spans) && k < |spans|
    ensures Texts(s, spans)[k] == s[spans[k].start..spans[k].stop]
  {
    if k > 0 {
      TextsAt(s, spans[1..], k - 1);
    } else if |spans| > 1 {
      TextsAt(s, spans[1..], 0);
    }
  }

  /** One step of the scan: a match at `pos` is the first of the matches from `pos` on. */
  lemma TextsStep(s: string, attr: string, pos: nat, stop: nat)
    requires pos < |s| && MatchAt(s, attr, pos) == Some(stop)
    ensures Texts(s, Spans(s, attr, pos)) == [s[pos..stop]] + Texts(s, Spans(s, attr, stop))
  {
    var r := Spans(s, attr, pos);
    assert r == [Span(pos, stop)] + Spans(s, attr, stop);
    assert r[1..] == Spans(s, attr, stop);
  }

  /** The match strings for `attr + linkPattern`, as `FindAllString(s, -1)` returns them. */
  function Matches(s: string, attr: string): seq<string>
  {
    Texts(s, Spans(s, attr, 0))
  }

  // ---------------------------------------------------------------------------
  // From a match to a link
  // ---------------------------------------------------------------------------

  /** Go's `strings.TrimPrefix(m, p)`. */
  function TrimPrefix(m: string, p: string): (r: string)
    ensures |r| == if IsPrefix(p, m) then |m| - |p| else |m|
  {
    if IsPrefix(p, m) then m[|p|..] else m
  }

  /** A match string long enough for the slice that drops its closing quote. */
  predicate Extractable(m: string, attr: string)
  {
    |Opening(attr)| < |m|
  }

  /**
   * The value of one match: `TrimPrefix(m, attr + "=\"")` cut to
   * `len(m) - len(attr + "=\"") - 1` characters, which drops the closing quote.
   */
  function Value(m: string, attr: string): (v: string)
    requires Extractable(m, attr)
    ensures |v| == |m| - |Opening(attr)| - 1
  {
    TrimPrefix(m, Opening(attr))[..|m| - |Opening(attr)| - 1]
  }

  /**
   * A value that starts with `/` is relative: it is made absolute by
   * prefixing the base URL. Any other value is taken as it is.
   */
  function Resolve(v: string, baseUrl: string): (r: string)
    ensures IsPrefix("/", v) ==> IsPrefix(baseUrl, r) && r[|baseUrl|..] == v
    ensures !IsPrefix("/", v) ==> r == v
  {
    if IsPrefix("/", v) then baseUrl + v else v
  }

  /** The link a value yields: the resolved value when it is in scope, else nothing. */
  function Keep(v: string, baseUrl: string): (r: seq<string>)
    ensures |r| <= 1
    ensures r != [] ==> IsPrefix(baseUrl, r[0]) && r[0] == Resolve(v, baseUrl)
    ensures IsPrefix("/", v) ==> r == [baseUrl + v]
  {
    var link := Resolve(v, baseUrl);
    if IsPrefix(baseUrl, link) then [link] else []
  }

  /** The link one match contributes: what the value between its quotes yields. */
  function Contribution(m: string, attr: string, baseUrl: string): (r: seq<string>)
    requires Extractable(m, attr)
  {
    Keep(Value(m, attr), baseUrl)
  }

  /** The links that a sequence of matches for `attr` contributes, in order. */
  function LinksOf(ms: seq<string>, attr: string, baseUrl: string): seq<string>
    requires forall k | 0 <= k < |ms| :: Extractable(ms[k], attr)
  {
    if ms == [] then [] else Contribution(ms[0], attr, baseUrl) + LinksOf(ms[1..], attr, baseUrl)
  }

  /** The links that the matches for one attribute contribute. */
  function AttributeLinks(data: string, attr: string, baseUrl: string): seq<string>
  {
    MatchesExtractable(data, attr);
    LinksOf(Matches(data, attr), attr, baseUrl)
  }

  /** The links found for each attribute of `attrs` in turn. */
  function LinksForAttributes(data: string, baseUrl: string, attrs: seq<string>): seq<string>
  {
    if attrs == [] then []
    else AttributeLinks(data, attrs[0], baseUrl) + LinksForAttributes(data, baseUrl, attrs[1..])
  }

  /** What `findChildrenLinks(data, baseUrl)` returns. */
  function ChildrenLinks(data: string, baseUrl: string): seq<string>
  {
    LinksForAttributes(data, baseUrl, AttributesToParse)
  }

  // ---------------------------------------------------------------------------
  // The scanner and the extractor
  // ---------------------------------------------------------------------------

  /**
   * `regexp.MustCompile(attr + linkPattern).FindAllString(s, -1)`: scans
   * left to right, takes the match at the first position where one starts,
   * and resumes right after it.
   */
  method FindAllMatches(s: string, attr: string) returns (matches: seq<string>)
    ensures matches == Matches(s, attr)
  {
    matches := [];
    var pos: nat := 0;
    while pos < |s|
      invariant pos <= |s|
      invariant Matches(s, attr) == matches + Texts(s, Spans(s, attr, pos))
      decreases |s| - pos
    {
      match MatchAt(s, attr, pos)
      case Some(stop) =>
        TextsStep(s, attr, pos, stop);
        matches := matches + [s[pos..stop]];
        pos := stop;
      case None =>
        pos := pos + 1;
    }
  }

  /**
   * `findChildrenLinks`: for each attribute, the value of every match is made
   * absolute when it is relative and appended when it is in scope.  The source
   * returns a nil error on every path, so the model has no error result.
   */
  method FindChildrenLinks(data: string, baseUrl: string) returns (links: seq<string>)
    ensures links == ChildrenLinks(data, baseUrl)
  {
    links := [];
    for a := 0 to |AttributesToParse|
      invariant links == LinksForAttributes(data, baseUrl, AttributesToParse[..a])
    {
      var attribute := AttributesToParse[a];
      var matches := FindAllMatches(data, attribute);
      MatchesExtractable(data, attribute);
      ghost var before := links;
      for i := 0 to |matches|
        invariant links == before + LinksOf(matches[..i], attribute, baseUrl)
      {
        var link := Value(matches[i], attribute);
        if IsPrefix("/", link) {
          link := baseUrl + link;
        }
        ghost var previous := links;
        if IsPrefix(baseUrl, link) {
          links := links + [link];
        }
        assert links == previous + Contribution(matches[i], attribute, baseUrl);
        LinksOfSnoc(matches, i, attribute, baseUrl);
        Associative(before, LinksOf(matches[..i], attribute, baseUrl), Contribution(matches[i], attribute, baseUrl));
      }
      assert matches[..|matches|] == matches;
      ForAttributesSnoc(data, baseUrl, AttributesToParse, a);
    }
    assert AttributesToParse[..|AttributesToParse|] == AttributesToParse;
  }

  /** Extending a run of matches by one match extends its links by that match's contribution. */
  lemma LinksOfSnoc(ms: seq<string>, i: nat, attr: string, baseUrl: string)
    requires i < |ms| && forall k | 0 <= k < |ms| :: Extractable(ms[k], attr)
    ensures LinksOf(ms[..i + 1], attr, baseUrl) == LinksOf(ms[..i], attr, baseUrl) + Contribution(ms[i], attr, baseUrl)
  {
    assert ms[..i + 1] == ms[..i] + [ms[i]];
    LinksOfAppend(ms[..i], [ms[i]], attr, baseUrl);
  }

  /** The links for the attributes up to and including `attrs[a]`. */
  lemma ForAttributesSnoc(data: string, baseUrl: string, attrs: seq<string>, a: nat)
    requires a < |attrs|
    ensures LinksForAttributes(data, baseUrl, attrs[..a + 1])
      == LinksForAttributes(data, baseUrl, attrs[..a]) + AttributeLinks(data, attrs[a], baseUrl)
  {
    assert attrs[..a + 1] == attrs[..a] + [attrs[a]];
    ForAttributesAppend(data, baseUrl, attrs[..a], [attrs[a]]);
  }

  /** The links for two runs of attributes are the concatenation of their links. */
  lemma {:induction false} ForAttributesAppend(data: string, baseUrl: string, xs: seq<string>, ys: seq<string>)
    ensures LinksForAttributes(data, baseUrl, xs + ys)
      == LinksForAttributes(data, baseUrl, xs) + LinksForAttributes(data, baseUrl, ys)
  {
    if xs == [] {
      assert xs + ys == ys;
    } else {
      assert (xs + ys)[0] == xs[0];
      assert (xs + ys)[1..] == xs[1..] + ys;
      ForAttributesAppend(data, baseUrl, xs[1..], ys);
    }
  }

  // ---------------------------------------------------------------------------
  // Properties of the matches
  // ---------------------------------------------------------------------------

  /**
   * Each match is `attr="`, then a value holding neither a quote nor a
   * newline, then the closing quote.
   */
  lemma MatchShape(s: string, attr: string, k: nat)
    requires k < |Matches(s, attr)|
    ensures var m := Matches(s, attr)[k];
      && IsPrefix(Opening(attr), m) && Extractable(m, attr) && m[|m| - 1] == '"'
      && forall i | |Opening(attr)| <= i < |m| - 1 :: m[i] != '"' && m[i] != '\n'
  {
    TextsAt(s, Spans(s, attr, 0), k);
    SpansAreMatches(s, attr, 0, k);
    var sp := Spans(s, attr, 0)[k];
    MatchText(s, attr, sp.start, sp.stop);
  }

  /** The text of a match at `i`: `attr="`, a value without quote or newline, and the quote. */
  lemma MatchText(s: string, attr: string, i: nat, stop: nat)
    requires MatchAt(s, attr, i) == Some(stop)
    ensures var m := s[i..stop];
      && IsPrefix(Opening(attr), m) && Extractable(m, attr) && m[|m| - 1] == '"'
      && forall j | |Opening(attr)| <= j < |m| - 1 :: m[j] != '"' && m[j] != '\n'
  {
    MatchAtShape(s, attr, i);
    var m := s[i..stop];
    assert m[..|Opening(attr)|] == s[i..i + |Opening(attr)|];
    forall j | |Opening(attr)| <= j < |m| - 1
      ensures m[j] != '"' && m[j] != '\n'
    {
      assert m[j] == s[i + j];
    }
  }

  /** Every match can be handed to `Value`. */
  lemma MatchesExtractable(s: string, attr: string)
    ensures forall k | 0 <= k < |Matches(s, attr)| :: Extractable(Matches(s, attr)[k], attr)
  {
    forall k | 0 <= k < |Matches(s, attr)|
      ensures Extractable(Matches(s, attr)[k], attr)
    {
      MatchShape(s, attr, k);
    }
  }

  /**
   * The value of each match is the text strictly between its `attr="` and the
   * first quote after it, which lies on the same line.
   */
  lemma ValueBetweenQuotes(s: string, attr: string, k: nat)
    requires k < |Matches(s, attr)|
    ensures Extractable(Matches(s, attr)[k], attr)
    ensures var sp := Spans(s, attr, 0)[k];
      && ClosingQuote(s, sp.start + |Opening(attr)|) == Some(sp.stop - 1)
      && Value(Matches(s, attr)[k], attr) == s[sp.start + |Opening(attr)|..sp.stop - 1]
  {
    TextsAt(s, Spans(s, attr, 0), k);
    SpansAreMatches(s, attr, 0, k);
    var sp := Spans(s, attr, 0)[k];
    ValueOfMatch(s, attr, sp.start, sp.stop);
  }

  /** The value of the match `s[i..stop]` is the text between its quotes. */
  lemma ValueOfMatch(s: string, attr: string, i: nat, stop: nat)
    requires MatchAt(s, attr, i) == Some(stop)
    ensures Extractable(s[i..stop], attr)
    ensures ClosingQuote(s, i + |Opening(attr)|) == Some(stop - 1)
    ensures Value(s[i..stop], attr) == s[i + |Opening(attr)|..stop - 1]
  {
    var o := |Opening(attr)|;
    MatchAtQuote(s, attr, i, stop);
    var m := s[i..stop];
    assert m[..o] == s[i..i + o];
    ValueOfMatchText(m, attr);
  }

  /** A match opens with `attr="` and ends at the closing quote of its value. */
  lemma MatchAtQuote(s: string, attr: string, i: nat, stop: nat)
    requires MatchAt(s, attr, i) == Some(stop)
    ensures OpensAt(s, attr, i) && ClosingQuote(s, i + |Opening(attr)|) == Some(stop - 1)
  {
  }

  /** The value of a match text is what lies between its `attr="` and its last character. */
  lemma ValueOfMatchText(m: string, attr: string)
    requires IsPrefix(Opening(attr), m) && Extractable(m, attr)
    ensures Value(m, attr) == m[|Opening(attr)|..|m| - 1]
  {
    assert TrimPrefix(m, Opening(attr)) == m[|Opening(attr)|..];
  }

  /**
   * Leftmost matching: every position where a match could start lies inside
   * one of the reported matches, so the scan never passes over a match.
   * With the contract of `Spans` (each span is a match, spans do not overlap)
   * this pins the result down as the leftmost non-overlapping matches.
   */
  lemma SpansCoverEveryMatch(s: string, attr: string, from: nat, p: nat)
    requires from <= p && MatchAt(s, attr, p).Some?
    ensures exists k | 0 <= k < |Spans(s, attr, from)| ::
      Spans(s, attr, from)[k].start <= p < Spans(s, attr, from)[k].stop
  {
    var k := CoveringSpan(s, attr, from, p);
  }

  /** The index of the reported span that covers a position where a match starts. */
  lemma {:induction false} CoveringSpan(s: string, attr: string, from: nat, p: nat) returns (k: nat)
    requires from <= p && MatchAt(s, attr, p).Some?
    ensures k < |Spans(s, attr, from)|
    ensures Spans(s, attr, from)[k].start <= p < Spans(s, attr, from)[k].stop
    decreases |s| - from
  {
    var n := Next(s, attr, from);
    if MatchAt(s, attr, from).Some? && p < n {
      SpansHead(s, attr, from, n);
      k := 0;
    } else {
      var j := CoveringSpan(s, attr, n, p);
      k := CoveringStep(s, attr, from, n, p, j);
    }
  }

  /** One step of `CoveringSpan`: the span found after `from` is found from `from`. */
  lemma CoveringStep(s: string, attr: string, from: nat, n: nat, p: nat, j: nat) returns (k: nat)
    requires from < |s| && n == Next(s, attr, from)
    requires j < |Spans(s, attr, n)| && Spans(s, attr, n)[j].start <= p < Spans(s, attr, n)[j].stop
    ensures k < |Spans(s, attr, from)|
    ensures Spans(s, attr, from)[k].start <= p < Spans(s, attr, from)[k].stop
  {
    if MatchAt(s, attr, from).Some? {
      SpansHead(s, attr, from, n);
      k := j + 1;
    } else {
      SpansPass(s, attr, from);
      k := j;
    }
  }

  /** A match at `from` is the first reported span, and the scan resumes at its end. */
  lemma SpansHead(s: string, attr: string, from: nat, stop: nat)
    requires from < |s| && MatchAt(s, attr, from) == Some(stop)
    ensures Spans(s, attr, from) == [Span(from, stop)] + Spans(s, attr, stop)
  {
  }

  /** Where no match starts, the scan moves one position on. */
  lemma SpansPass(s: string, attr: string, from: nat)
    requires from < |s| && MatchAt(s, attr, from).None?
    ensures Spans(s, attr, from) == Spans(s, attr, from + 1)
  {
  }

  // ---------------------------------------------------------------------------
  // Properties of the links
  // ---------------------------------------------------------------------------

  /** A link is produced exactly when some match's resolved value is in scope. */
  lemma {:induction false} LinksOfMembership(ms: seq<string>, attr: string, baseUrl: string, l: string)
    requires forall k | 0 <= k < |ms| :: Extractable(ms[k], attr)
    ensures l in LinksOf(ms, attr, baseUrl) <==>
      exists k | 0 <= k < |ms| :: l == Resolve(Value(ms[k], attr), baseUrl) && IsPrefix(baseUrl, l)
  {
    if ms != [] {
      LinksOfMembership(ms[1..], attr, baseUrl, l);
      if l in LinksOf(ms[1..], attr, baseUrl) {
        var k :| 0 <= k < |ms[1..]| && l == Resolve(Value(ms[1..][k], attr), baseUrl) && IsPrefix(baseUrl, l);
        assert ms[k + 1] == ms[1..][k];
      }
      if exists k | 0 <= k < |ms| :: l == Resolve(Value(ms[k], attr), baseUrl) && IsPrefix(baseUrl, l) {
        var k :| 0 <= k < |ms| && l == Resolve(Value(ms[k], attr), baseUrl) && IsPrefix(baseUrl, l);
        if k > 0 {
          assert ms[1..][k - 1] == ms[k];
        }
      }
    }
  }

  /** Every link of a run of matches starts with the base URL. */
  lemma {:induction false} LinksOfInScope(ms: seq<string>, attr: string, baseUrl: string)
    requires forall k | 0 <= k < |ms| :: Extractable(ms[k], attr)
    ensures forall l | l in LinksOf(ms, attr, baseUrl) :: IsPrefix(baseUrl, l)
  {
    if ms != [] {
      LinksOfInScope(ms[1..], attr, baseUrl);
    }
  }

  /** Each match contributes at most one link. */
  lemma {:induction false} LinksOfLength(ms: seq<string>, attr: string, baseUrl: string)
    requires forall k | 0 <= k < |ms| :: Extractable(ms[k], attr)
    ensures |LinksOf(ms, attr, baseUrl)| <= |ms|
  {
    if ms != [] {
      LinksOfLength(ms[1..], attr, baseUrl);
    }
  }

  /** The links of consecutive runs of matches are the concatenation of their links. */
  lemma {:induction false} LinksOfAppend(a: seq<string>, b: seq<string>, attr: string, baseUrl: string)
    requires forall k | 0 <= k < |a| :: Extractable(a[k], attr)
    requires forall k | 0 <= k < |b| :: Extractable(b[k], attr)
    ensures LinksOf(a + b, attr, baseUrl) == LinksOf(a, attr, baseUrl) + LinksOf(b, attr, baseUrl)
    decreases |a|
  {
    if a == [] {
      assert a + b == b;
    } else {
      var m, t := a[0], a[1..];
      assert a == [m] + t;
      LinksOfAppend(t, b, attr, baseUrl);
      ExtractableAppend(t, b, attr);
      LinksOfAppendStep(m, t, b, attr, baseUrl);
    }
  }

  /** One step of `LinksOfAppend`: a match in front of both runs. */
  lemma LinksOfAppendStep(m: string, t: seq<string>, b: seq<string>, attr: string, baseUrl: string)
    requires Extractable(m, attr)
    requires forall k | 0 <= k < |t| :: Extractable(t[k], attr)
    requires forall k | 0 <= k < |b| :: Extractable(b[k], attr)
    requires forall k | 0 <= k < |t + b| :: Extractable((t + b)[k], attr)
    requires LinksOf(t + b, attr, baseUrl) == LinksOf(t, attr, baseUrl) + LinksOf(b, attr, baseUrl)
    ensures forall k | 0 <= k < |([m] + t) + b| :: Extractable((([m] + t) + b)[k], attr)
    ensures LinksOf(([m] + t) + b, attr, baseUrl) == LinksOf([m] + t, attr, baseUrl) + LinksOf(b, attr, baseUrl)
  {
    Associative([m], t, b);
    LinksOfCons(m, t + b, attr, baseUrl);
    LinksOfCons(m, t, attr, baseUrl);
    Associative(Contribution(m, attr, baseUrl), LinksOf(t, attr, baseUrl), LinksOf(b, attr, baseUrl));
  }

  /** Concatenation is associative. */
  lemma Associative<T>(x: seq<T>, y: seq<T>, z: seq<T>)
    ensures (x + y) + z == x + (y + z)
  {
  }

  /** Two runs of extractable matches make one. */
  lemma ExtractableAppend(a: seq<string>, b: seq<string>, attr: string)
    requires forall k | 0 <= k < |a| :: Extractable(a[k], attr)
    requires forall k | 0 <= k < |b| :: Extractable(b[k], attr)
    ensures forall k | 0 <= k < |a + b| :: Extractable((a + b)[k], attr)
  {
    forall k | 0 <= k < |a + b|
      ensures Extractable((a + b)[k], attr)
    {
      if k < |a| {
        assert (a + b)[k] == a[k];
      } else {
        assert (a + b)[k] == b[k - |a|];
      }
    }
  }

  /** The links of a match put in front of others: its contribution comes first. */
  lemma LinksOfCons(m: string, ms: seq<string>, attr: string, baseUrl: string)
    requires Extractable(m, attr)
    requires forall k | 0 <= k < |ms| :: Extractable(ms[k], attr)
    ensures forall k | 0 <= k < |[m] + ms| :: Extractable(([m] + ms)[k], attr)
    ensures LinksOf([m] + ms, attr, baseUrl) == Contribution(m, attr, baseUrl) + LinksOf(ms, attr, baseUrl)
  {
    assert ([m] + ms)[1..] == ms;
  }

  /** A relative value is always kept, as the base URL followed by the value. */
  lemma RelativeValueKept(ms: seq<string>, attr: string, baseUrl: string, k: nat)
    requires forall j | 0 <= j < |ms| :: Extractable(ms[j], attr)
    requires k < |ms| && IsPrefix("/", Value(ms[k], attr))
    ensures baseUrl + Value(ms[k], attr) in LinksOf(ms, attr, baseUrl)
  {
    var l := baseUrl + Value(ms[k], attr);
    assert l[..|baseUrl|] == baseUrl;
    LinksOfMembership(ms, attr, baseUrl, l);
  }

  /**
   * An absolute value outside the base URL contributes nothing: the links are
   * those of the other matches.
   */
  lemma ForeignValueDropped(ms: seq<string>, attr: string, baseUrl: string, k: nat)
    requires forall j | 0 <= j < |ms| :: Extractable(ms[j], attr)
    requires k < |ms| && !IsPrefix("/", Value(ms[k], attr)) && !IsPrefix(baseUrl, Value(ms[k], attr))
    ensures LinksOf(ms, attr, baseUrl) == LinksOf(ms[..k], attr, baseUrl) + LinksOf(ms[k + 1..], attr, baseUrl)
  {
    var front, back := ms[..k], ms[k..];
    assert ms == front + back;
    assert back[0] == ms[k] && back[1..] == ms[k + 1..];
    assert Contribution(ms[k], attr, baseUrl) == [];
    assert LinksOf(back, attr, baseUrl) == LinksOf(ms[k + 1..], attr, baseUrl);
    LinksOfAppend(front, back, attr, baseUrl);
  }

  /**
   * All links from `href` values come first, then all links from `src`
   * values; each group follows the order of the matches.
   */
  lemma HrefLinksPrecedeSrcLinks(data: string, baseUrl: string)
    ensures ChildrenLinks(data, baseUrl)
      == AttributeLinks(data, "href", baseUrl) + AttributeLinks(data, "src", baseUrl)
  {
    var attrs := AttributesToParse;
    assert attrs[0] == "href" && attrs[1..][0] == "src" && attrs[1..][1..] == [];
    assert LinksForAttributes(data, baseUrl, attrs[1..]) == AttributeLinks(data, "src", baseUrl);
  }

  /**
   * Every child link is in scope, and there are at most as many links as
   * matches.
   */
  lemma ChildrenLinksBounds(data: string, baseUrl: string)
    ensures forall l | l in ChildrenLinks(data, baseUrl) :: IsPrefix(baseUrl, l)
    ensures |ChildrenLinks(data, baseUrl)| <= |Matches(data, "href")| + |Matches(data, "src")|
  {
    HrefLinksPrecedeSrcLinks(data, baseUrl);
    MatchesExtractable(data, "href");
    MatchesExtractable(data, "src");
    LinksOfLength(Matches(data, "href"), "href", baseUrl);
    LinksOfLength(Matches(data, "src"), "src", baseUrl);
    LinksOfInScope(Matches(data, "href"), "href", baseUrl);
    LinksOfInScope(Matches(data, "src"), "src", baseUrl);
  }
}
