/**
 * The page and the two expected results of the extractor's unit test
 * (parser_test.go), with the scanning facts needed to compute them:
 * a match found in a suffix is found at the shifted position of the whole
 * text, a prefix where no match can start contributes nothing, and one
 * anchor element contributes exactly its `href` value.
 */
module ParserVectors {
  import opened Wrappers
  import opened Parser

  // ---------------------------------------------------------------------------
  // Scanning through concatenations
  // ---------------------------------------------------------------------------

  /** The first quote of a value that is free of quotes and newlines up to `q`. */
  lemma {:induction false} ClosingQuoteAt(s: string, j: nat, q: nat)
    requires j <= q < |s| && s[q] == '"'
    requires forall k | j <= k < q :: s[k] != '"' && s[k] != '\n'
    ensures ClosingQuote(s, j) == Some(q)
    decreases q - j
  {
    if j < q {
      ClosingQuoteAt(s, j + 1, q);
    }
  }

  /** Looking for the closing quote in a suffix is looking for it in the whole text, shifted. */
  lemma {:induction false} ClosingQuoteShift(x: string, rest: string, j: nat)
    ensures ClosingQuote(x + rest, |x| + j)
      == match ClosingQuote(rest, j) case Some(q) => Some(|x| + q) case None => None
    decreases |rest| - j
  {
    if j < |rest| {
      assert (x + rest)[|x| + j] == rest[j];
      if rest[j] != '"' && rest[j] != '\n' {
        ClosingQuoteShift(x, rest, j + 1);
      }
    }
  }

  /** A match in a suffix is a match in the whole text, shifted. */
  lemma MatchAtShift(x: string, rest: string, attr: string, i: nat)
    ensures MatchAt(x + rest, attr, |x| + i)
      == match MatchAt(rest, attr, i) case Some(stop) => Some(|x| + stop) case None => None
  {
    var o := |Opening(attr)|;
    if i + o <= |rest| {
      assert (x + rest)[|x| + i..|x| + i + o] == rest[i..i + o];
    }
    assert OpensAt(x + rest, attr, |x| + i) == OpensAt(rest, attr, i);
    ClosingQuoteShift(x, rest, i + o);
  }

  /** The matches of a suffix, from position `i` on, are those of the whole text from `|x| + i` on. */
  lemma {:induction false} SpansShift(x: string, rest: string, attr: string, i: nat)
    ensures Texts(x + rest, Spans(x + rest, attr, |x| + i)) == Texts(rest, Spans(rest, attr, i))
    decreases |rest| - i
  {
    if i < |rest| {
      var n := Next(rest, attr, i);
      SpansShift(x, rest, attr, n);
      ShiftStep(x, rest, attr, i, n);
    }
  }

  /** The matches of a suffix are those of the whole text after the prefix. */
  lemma SpansShiftFront(x: string, rest: string, attr: string)
    ensures Texts(x + rest, Spans(x + rest, attr, |x|)) == Texts(rest, Spans(rest, attr, 0))
  {
    SpansShift(x, rest, attr, 0);
  }

  /** One step of `SpansShift`. */
  lemma ShiftStep(x: string, rest: string, attr: string, i: nat, n: nat)
    requires i < |rest| && n == Next(rest, attr, i)
    requires Texts(x + rest, Spans(x + rest, attr, |x| + n)) == Texts(rest, Spans(rest, attr, n))
    ensures Texts(x + rest, Spans(x + rest, attr, |x| + i)) == Texts(rest, Spans(rest, attr, i))
  {
    if MatchAt(rest, attr, i).Some? {
      ShiftMatchStep(x, rest, attr, i, n);
    } else {
      ShiftSkipStep(x, rest, attr, i);
    }
  }

  /** One step of `SpansShift` where a match starts at `i`. */
  lemma ShiftMatchStep(x: string, rest: string, attr: string, i: nat, stop: nat)
    requires i < |rest| && MatchAt(rest, attr, i) == Some(stop)
    requires Texts(x + rest, Spans(x + rest, attr, |x| + stop)) == Texts(rest, Spans(rest, attr, stop))
    ensures Texts(x + rest, Spans(x + rest, attr, |x| + i)) == Texts(rest, Spans(rest, attr, i))
  {
    MatchAtShift(x, rest, attr, i);
    SliceShift(x, rest, i, stop);
    SameMatchStep(x + rest, rest, attr, |x| + i, |x| + stop, i, stop);
  }

  /**
   * Two texts with equal matches at `i` and `j` have equal match lists from
   * there on when they have equal match lists after those matches.
   */
  lemma SameMatchStep(s: string, t: string, attr: string, i: nat, stop: nat, j: nat, stop': nat)
    requires i < |s| && MatchAt(s, attr, i) == Some(stop)
    requires j < |t| && MatchAt(t, attr, j) == Some(stop')
    requires s[i..stop] == t[j..stop']
    requires Texts(s, Spans(s, attr, stop)) == Texts(t, Spans(t, attr, stop'))
    ensures Texts(s, Spans(s, attr, i)) == Texts(t, Spans(t, attr, j))
  {
    TextsStep(s, attr, i, stop);
    TextsStep(t, attr, j, stop');
  }

  /** A slice of a suffix is the shifted slice of the whole text. */
  lemma SliceShift(x: string, rest: string, a: nat, b: nat)
    requires a <= b <= |rest|
    ensures (x + rest)[|x| + a..|x| + b] == rest[a..b]
  {
  }

  /** One step of `SpansShift` where no match starts at `i`. */
  lemma ShiftSkipStep(x: string, rest: string, attr: string, i: nat)
    requires i < |rest| && MatchAt(rest, attr, i) == None
    requires Texts(x + rest, Spans(x + rest, attr, |x| + i + 1)) == Texts(rest, Spans(rest, attr, i + 1))
    ensures Texts(x + rest, Spans(x + rest, attr, |x| + i)) == Texts(rest, Spans(rest, attr, i))
  {
    MatchAtShift(x, rest, attr, i);
    assert Spans(x + rest, attr, |x| + i) == Spans(x + rest, attr, |x| + i + 1);
    assert Spans(rest, attr, i) == Spans(rest, attr, i + 1);
  }

  /** Positions where no match opens are passed over. */
  lemma {:induction false} SpansSkip(s: string, attr: string, i: nat, j: nat)
    requires i <= j <= |s|
    requires forall p | i <= p < j :: !OpensAt(s, attr, p)
    ensures Spans(s, attr, i) == Spans(s, attr, j)
    decreases j - i
  {
    if i < j {
      SpansSkip(s, attr, i + 1, j);
    }
  }

  /** A prefix without the first letter of `attr` contributes no match. */
  lemma PeelNoStart(z: string, rest: string, attr: string)
    requires attr != [] && attr[0] !in z
    ensures Matches(z + rest, attr) == Matches(rest, attr)
  {
    var s := z + rest;
    forall p | 0 <= p < |z|
      ensures !OpensAt(s, attr, p)
    {
      assert s[p] == z[p];
    }
    PeelClosed(z, rest, attr);
  }

  /**
   * A prefix `z` without `=`, followed by at least `|attr|` characters without
   * `=`, contributes no match: the `=` of `attr="` cannot be placed.
   */
  lemma PeelNoEquals(z: string, w: string, rest: string, attr: string)
    requires '=' !in z && '=' !in w && |attr| <= |w|
    ensures Matches(z + (w + rest), attr) == Matches(w + rest, attr)
  {
    NoOpeningBeforeEquals(z, w, rest, attr);
    PeelClosed(z, w + rest, attr);
  }

  /** No `attr="` opens in a prefix where no `=` can follow the place of `attr`. */
  lemma NoOpeningBeforeEquals(z: string, w: string, rest: string, attr: string)
    requires '=' !in z && '=' !in w && |attr| <= |w|
    ensures forall p | 0 <= p < |z| :: !OpensAt(z + (w + rest), attr, p)
  {
    var s := z + (w + rest);
    forall p | 0 <= p < |z|
      ensures !OpensAt(s, attr, p)
    {
      var e := p + |attr|;
      if e < |z| {
        assert s[e] == z[e];
      } else {
        assert s[e] == w[e - |z|];
      }
      NoEqualsNoOpening(s, attr, p);
    }
  }

  /** A prefix where no `attr="` opens contributes no match. */
  lemma PeelClosed(z: string, rest: string, attr: string)
    requires forall p | 0 <= p < |z| :: !OpensAt(z + rest, attr, p)
    ensures Matches(z + rest, attr) == Matches(rest, attr)
  {
    SpansSkip(z + rest, attr, 0, |z|);
    SpansShiftFront(z, rest, attr);
  }

  /** `attr="` cannot occur where the character after the place of `attr` is not `=`. */
  lemma NoEqualsNoOpening(s: string, attr: string, p: nat)
    requires p + |attr| < |s| ==> s[p + |attr|] != '='
    ensures !OpensAt(s, attr, p)
  {
    var o := Opening(attr);
    if p + |o| <= |s| {
      assert o[|attr|] == '=';
      assert s[p..p + |o|][|attr|] == s[p + |attr|];
    }
  }

  /** `attr="v"` followed by anything matches exactly up to the closing quote. */
  lemma QuotedMatch(attr: string, v: string, tail: string)
    requires '"' !in v && '\n' !in v
    ensures MatchAt(Opening(attr) + v + "\"" + tail, attr, 0) == Some(|Opening(attr)| + |v| + 1)
  {
    var o := Opening(attr);
    var t := o + v + "\"" + tail;
    assert t[0..|o|] == o;
    forall k | |o| <= k < |o| + |v|
      ensures t[k] != '"' && t[k] != '\n'
    {
      assert t[k] == v[k - |o|];
    }
    assert t[|o| + |v|] == '"';
    ClosingQuoteAt(t, |o|, |o| + |v|);
  }

  /** A match at the very start is the first match, and the scan goes on after it. */
  lemma FirstMatch(m: string, tail: string, attr: string)
    requires m != [] && MatchAt(m + tail, attr, 0) == Some(|m|)
    ensures Matches(m + tail, attr) == [m] + Matches(tail, attr)
  {
    FrontSlice(m, tail);
    SpansShiftFront(m, tail, attr);
    MatchThen(m + tail, attr, |m|, m, tail);
  }

  /** The front of a concatenation. */
  lemma FrontSlice<T>(x: seq<T>, y: seq<T>)
    ensures (x + y)[0..|x|] == x
  {
  }

  /** The matches of `s` when the first one is `m`, ending at `stop`. */
  lemma MatchThen(s: string, attr: string, stop: nat, m: string, tail: string)
    requires 0 < |s| && MatchAt(s, attr, 0) == Some(stop) && s[0..stop] == m
    requires Texts(s, Spans(s, attr, stop)) == Texts(tail, Spans(tail, attr, 0))
    ensures Matches(s, attr) == [m] + Matches(tail, attr)
  {
    TextsStep(s, attr, 0, stop);
  }

  /**
   * `x`, then `attr="`, the value `v` and a closing part that starts with the
   * quote: one match, `attr="v"`, and then the matches of what follows.
   */
  lemma Segment(x: string, attr: string, v: string, close: string, rest: string)
    requires attr != [] && attr[0] !in x && attr[0] !in close
    requires close != [] && close[0] == '"'
    requires '"' !in v && '\n' !in v
    ensures Matches(x + (Opening(attr) + (v + (close + rest))), attr)
      == [Opening(attr) + v + "\""] + Matches(rest, attr)
  {
    var m := Opening(attr) + v + "\"";
    var tail := close[1..] + rest;
    PeelNoStart(x, Opening(attr) + (v + (close + rest)), attr);
    assert Opening(attr) + (v + (close + rest)) == m + tail;
    QuotedMatch(attr, v, tail);
    FirstMatch(m, tail, attr);
    PeelNoStart(close[1..], rest, attr);
  }

  /** A text without the first letter of `attr` has no match. */
  lemma NoMatches(z: string, attr: string)
    requires attr != [] && attr[0] !in z
    ensures Matches(z, attr) == []
  {
    PeelNoStart(z, [], attr);
    assert z + [] == z;
  }

  /** The attribute name also matches at the end of a longer name: `data-src="/a"` yields `src="/a"`. */
  lemma LongerNameMatches()
    ensures Matches("data-" + (Opening("src") + ("/a" + "\"")), "src") == [Opening("src") + "/a" + "\""]
  {
    DataPrefixFacts();
    assert "\"" + "" == "\"";
    Segment("data-", "src", "/a", "\"", "");
    NoMatches("", "src");
  }

  /** The characters of the pieces of `data-src="/a"`. */
  lemma DataPrefixFacts()
    ensures "src" != [] && "src"[0] == 's' && 's' !in "data-" && 's' !in "\""
    ensures "\"" != [] && "\""[0] == '"' && '"' !in "/a" && '\n' !in "/a"
  {
  }

  // ---------------------------------------------------------------------------
  // The test page
  // ---------------------------------------------------------------------------

  /** What follows each value: the closing quote, `></a>`, a newline and four tabs. */
  const Close: string := "\"></a>\n\t\t\t\t"

  /** One anchor element `<a href="v"></a>`, its line break and indentation, then `rest`. */
  function Line(v: string, rest: string): string
  {
    "<a " + (Opening("href") + (v + (Close + rest)))
  }

  /** One anchor line per value, in order. */
  function Page(vs: seq<string>): string
  {
    if vs == [] then "" else Line(vs[0], Page(vs[1..]))
  }

  /** The `href` match of each value, in order. */
  function Quoted(vs: seq<string>): seq<string>
  {
    if vs == [] then [] else [Opening("href") + vs[0] + "\""] + Quoted(vs[1..])
  }

  /** The five `href` values of the test page. */
  const ImageLink: string := "/abc/foo/img.jpg"
  const PageLink: string := "https://example.com/baz/page.html"
  const ForeignLink: string := "https://another.domain/abc/page2.html"
  const MediaLink: string := "/baz/media.mp3"
  const VideoLink: string := "https://domain.com/abc/music/video.mp3"
  const TestValues: seq<string> := [ImageLink, PageLink, ForeignLink, MediaLink, VideoLink]

  /** The `webPage` of parser_test.go, one anchor per line. */
  function TestPage(): string
  {
    Page(TestValues)
  }

  /** A value without quotes, newlines or `=`. */
  predicate Plain(v: string)
  {
    forall k | 0 <= k < |v| :: v[k] != '"' && v[k] != '\n' && v[k] != '='
  }

  /** Every value is plain. */
  predicate AllPlain(vs: seq<string>)
  {
    forall k | 0 <= k < |vs| :: Plain(vs[k])
  }

  /** An anchor line contributes its `href` match. */
  lemma LineHref(v: string, rest: string)
    requires Plain(v)
    ensures Matches(Line(v, rest), "href") == [Opening("href") + v + "\""] + Matches(rest, "href")
  {
    assert '"' !in v && '\n' !in v;
    Segment("<a ", "href", v, Close, rest);
  }

  /** An anchor line with a plain value contributes no `src` match. */
  lemma LineSrc(v: string, rest: string)
    requires Plain(v)
    ensures Matches(Line(v, rest), "src") == Matches(rest, "src")
  {
    assert '=' !in v;
    PeelNoStart("<a ", Opening("href") + (v + (Close + rest)), "src");
    PeelNoStart(Opening("href"), v + (Close + rest), "src");
    PeelNoEquals(v, Close, rest, "src");
    PeelNoStart(Close, rest, "src");
  }

  /** Plain values: one `href` match per line, in order. */
  lemma {:induction false} PageHref(vs: seq<string>)
    requires AllPlain(vs)
    ensures Matches(Page(vs), "href") == Quoted(vs)
  {
    if vs == [] {
      NoMatches("", "href");
    } else {
      PageHref(vs[1..]);
      LineHref(vs[0], Page(vs[1..]));
    }
  }

  /** Plain values: no `src` match anywhere on the page. */
  lemma {:induction false} PageSrc(vs: seq<string>)
    requires AllPlain(vs)
    ensures Matches(Page(vs), "src") == []
  {
    if vs == [] {
      NoMatches("", "src");
    } else {
      PageSrc(vs[1..]);
      LineSrc(vs[0], Page(vs[1..]));
    }
  }

  // ---------------------------------------------------------------------------
  // The links of the test page
  // ---------------------------------------------------------------------------

  /** What the values contribute, in order. */
  function KeptAll(vs: seq<string>, baseUrl: string): seq<string>
  {
    if vs == [] then [] else Keep(vs[0], baseUrl) + KeptAll(vs[1..], baseUrl)
  }

  /** The match `href="v"` contributes what its value `v` contributes. */
  lemma QuotedContribution(v: string, baseUrl: string)
    ensures Extractable(Opening("href") + v + "\"", "href")
    ensures Contribution(Opening("href") + v + "\"", "href", baseUrl) == Keep(v, baseUrl)
  {
    var m := Opening("href") + v + "\"";
    assert m[..|Opening("href")|] == Opening("href");
    ValueOfMatchText(m, "href");
    assert m[|Opening("href")|..|m| - 1] == v;
  }

  /** The links of the quoted values are what the values contribute. */
  lemma {:induction false} LinksOfQuoted(vs: seq<string>, baseUrl: string)
    ensures forall k | 0 <= k < |Quoted(vs)| :: Extractable(Quoted(vs)[k], "href")
    ensures LinksOf(Quoted(vs), "href", baseUrl) == KeptAll(vs, baseUrl)
  {
    if vs != [] {
      LinksOfQuoted(vs[1..], baseUrl);
      QuotedContribution(vs[0], baseUrl);
      var q := Quoted(vs);
      assert q[1..] == Quoted(vs[1..]);
      forall k | 0 <= k < |q|
        ensures Extractable(q[k], "href")
      {
        if k > 0 {
          assert q[k] == Quoted(vs[1..])[k - 1];
        }
      }
    }
  }

  /** The children links of a page of plain values: each value's contribution in document order. */
  lemma PageLinks(vs: seq<string>, baseUrl: string)
    requires AllPlain(vs)
    ensures ChildrenLinks(Page(vs), baseUrl) == KeptAll(vs, baseUrl)
  {
    HrefLinksPrecedeSrcLinks(Page(vs), baseUrl);
    PageHref(vs);
    PageSrc(vs);
    LinksOfQuoted(vs, baseUrl);
    assert AttributeLinks(Page(vs), "src", baseUrl) == [];
  }

  /** An absolute value under `baseUrl` is kept as it is. */
  lemma AbsoluteKept(v: string, baseUrl: string)
    requires !IsPrefix("/", v) && IsPrefix(baseUrl, v)
    ensures Keep(v, baseUrl) == [v]
  {
  }

  /** An absolute value elsewhere is dropped. */
  lemma AbsoluteDropped(v: string, baseUrl: string)
    requires !IsPrefix("/", v) && !IsPrefix(baseUrl, v)
    ensures Keep(v, baseUrl) == []
  {
  }

  lemma ImagePlain() ensures Plain(ImageLink) && IsPrefix("/", ImageLink) {}
  lemma PagePlain() ensures Plain(PageLink) && !IsPrefix("/", PageLink) { assert PageLink[0] == 'h'; }
  lemma ForeignPlain() ensures Plain(ForeignLink) && !IsPrefix("/", ForeignLink) { assert ForeignLink[0] == 'h'; }
  lemma MediaPlain() ensures Plain(MediaLink) && IsPrefix("/", MediaLink) {}
  lemma VideoPlain() ensures Plain(VideoLink) && !IsPrefix("/", VideoLink) { assert VideoLink[0] == 'h'; }

  /** The values of the test page are plain. */
  lemma TestValuesPlain()
    ensures AllPlain(TestValues)
  {
    ImagePlain();
    PagePlain();
    ForeignPlain();
    MediaPlain();
    VideoPlain();
  }

  /** What each value contributes against `https://example.com`. */
  lemma KeptForExampleCom()
    ensures KeptAll(TestValues, "https://example.com") == [
      "https://example.com" + ImageLink, PageLink, "https://example.com" + MediaLink]
  {
    var b := "https://example.com";
    ImagePlain();
    PagePlain();
    ForeignPlain();
    MediaPlain();
    VideoPlain();
    assert IsPrefix(b, PageLink);
    AbsoluteKept(PageLink, b);
    assert !IsPrefix(b, ForeignLink) by { assert ForeignLink[8] != b[8]; }
    AbsoluteDropped(ForeignLink, b);
    assert !IsPrefix(b, VideoLink) by { assert VideoLink[8] != b[8]; }
    AbsoluteDropped(VideoLink, b);
    KeptAllFive(ImageLink, PageLink, ForeignLink, MediaLink, VideoLink, b);
  }

  /** What five values contribute, one after the other. */
  lemma KeptAllFive(a: string, b: string, c: string, d: string, e: string, baseUrl: string)
    ensures KeptAll([a, b, c, d, e], baseUrl)
      == Keep(a, baseUrl) + (Keep(b, baseUrl) + (Keep(c, baseUrl) + (Keep(d, baseUrl) + Keep(e, baseUrl))))
  {
    Tails(a, b, c, d, e);
    KeptAllFront([a, b, c, d, e], baseUrl);
    KeptAllFront([b, c, d, e], baseUrl);
    KeptAllFront([c, d, e], baseUrl);
    KeptAllFront([d, e], baseUrl);
    KeptAllFront([e], baseUrl);
    assert Keep(e, baseUrl) + [] == Keep(e, baseUrl);
  }

  /** The first value of a non-empty list contributes first. */
  lemma KeptAllFront(vs: seq<string>, baseUrl: string)
    requires vs != []
    ensures KeptAll(vs, baseUrl) == Keep(vs[0], baseUrl) + KeptAll(vs[1..], baseUrl)
  {
  }

  /** The tails of a list of five. */
  lemma Tails<T>(a: T, b: T, c: T, d: T, e: T)
    ensures [a, b, c, d, e][1..] == [b, c, d, e] && [b, c, d, e][1..] == [c, d, e]
    ensures [c, d, e][1..] == [d, e] && [d, e][1..] == [e] && [e][1..] == []
  {
  }

  /** parser_test.go: links from `https://example.com`, relative ones resolved, foreign ones dropped. */
  lemma TestPageLinksExampleCom()
    ensures ChildrenLinks(TestPage(), "https://example.com") == [
      "https://example.com" + ImageLink, PageLink, "https://example.com" + MediaLink]
  {
    TestValuesPlain();
    PageLinks(TestValues, "https://example.com");
    KeptForExampleCom();
  }

  /** A text that differs from `p` at a position of `p` does not start with `p`. */
  lemma DiffersAt(p: string, t: string, i: nat)
    requires i < |p| && i < |t| && p[i] != t[i]
    ensures !IsPrefix(p, t)
  {
    if |p| <= |t| {
      assert t[..|p|][i] == t[i];
    }
  }

  /** The absolute test links are all outside `https://example.com/abc`. */
  lemma OutsideAbc()
    ensures !IsPrefix("https://example.com/abc", PageLink)
    ensures !IsPrefix("https://example.com/abc", ForeignLink)
    ensures !IsPrefix("https://example.com/abc", VideoLink)
  {
    DiffersAt("https://example.com/abc", PageLink, 20);
    DiffersAt("https://example.com/abc", ForeignLink, 8);
    DiffersAt("https://example.com/abc", VideoLink, 8);
  }

  /** What each value contributes against `https://example.com/abc`. */
  lemma KeptForExampleComAbc()
    ensures KeptAll(TestValues, "https://example.com/abc") == [
      "https://example.com/abc" + ImageLink, "https://example.com/abc" + MediaLink]
  {
    var b := "https://example.com/abc";
    ImagePlain();
    PagePlain();
    ForeignPlain();
    MediaPlain();
    VideoPlain();
    OutsideAbc();
    AbsoluteDropped(PageLink, b);
    AbsoluteDropped(ForeignLink, b);
    AbsoluteDropped(VideoLink, b);
    KeptAllFive(ImageLink, PageLink, ForeignLink, MediaLink, VideoLink, b);
  }

  /** parser_test.go: with a base path, only links under that path are kept. */
  lemma TestPageLinksExampleComAbc()
    ensures ChildrenLinks(TestPage(), "https://example.com/abc") == [
      "https://example.com/abc" + ImageLink, "https://example.com/abc" + MediaLink]
  {
    TestValuesPlain();
    PageLinks(TestValues, "https://example.com/abc");
    KeptForExampleComAbc();
  }
}
