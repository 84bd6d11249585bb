/**
 * One crawl of one link (crawler.go): derive the destination file, skip the
 * link when its file is already there, otherwise fetch, store and extract
 * the child links. The collaborators (`url.Parse`, `os.Stat`, `fetchUrl`,
 * `writeToFile`, `filepath.Join`) are the fields of an `Env`; the calls made
 * to them are recorded, in order, as the run's effects.
 */
module Crawler {
  import opened Wrappers
  import Parser

  /** What `url.Parse` answers: the URL's path, or an error. */
  datatype ParseReply = Parsed(path: string) | ParseFailed

  /**
   * What `fetchUrl` answers: the body, or an error. A response whose status
   * is not 200 comes back as an empty body without an error.
   */
  datatype FetchReply = Content(body: string) | FetchFailed

  /** The collaborators of `crawl`. */
  datatype Env = Env(
    parse: string -> ParseReply,
    present: string -> bool,          // `os.Stat(path)` succeeds
    fetch: string -> FetchReply,
    store: (string, string) -> bool,  // `writeToFile(content, path)` succeeds
    join: (string, string) -> string) // `filepath.Join(dir, path)`

  /** A call to a collaborator that touches the outside world. */
  datatype Effect = Stat(path: string) | Fetch(url: string) | Write(path: string, content: string)

  /** The step at which a crawl gave up. */
  datatype Stage = Parsing | Fetching | Writing

  /** How a crawl ended: an error, a skip (`nil, nil`), or the child links. */
  datatype Outcome = Failed(stage: Stage) | Skipped | Crawled(children: seq<string>)

  datatype Run = Run(outcome: Outcome, effects: seq<Effect>)

  // ---------------------------------------------------------------------------
  // File extensions
  // ---------------------------------------------------------------------------

  /**
   * Go's `filepath.Ext` with `/` as the separator: the suffix that starts at
   * the last `.` after the last `/`, or "" when there is none.
   */
  function Ext(p: string): (r: string)
    ensures |r| <= |p|
  {
    if p == [] || p[|p| - 1] == '/' then ""
    else if p[|p| - 1] == '.' then "."
    else
      var e := Ext(p[..|p| - 1]);
      if e == "" then "" else e + [p[|p| - 1]]
  }

  /** No `.` follows the last `/`: every `.` has a `/` somewhere after it. */
  predicate NoExtension(p: string)
  {
    forall i | 0 <= i < |p| && p[i] == '.' :: '/' in p[i + 1..]
  }

  /** `Ext` is empty exactly when the last path element has no `.`. */
  lemma {:induction false} ExtEmptyIff(p: string)
    ensures Ext(p) == "" <==> NoExtension(p)
    decreases |p|
  {
    if p != [] {
      var n := |p| - 1;
      var q := p[..n];
      var c := p[n];
      if c == '/' {
        forall i | 0 <= i < |p| && p[i] == '.'
          ensures '/' in p[i + 1..]
        {
          assert p[i + 1..][n - i - 1] == '/';
        }
      } else if c == '.' {
        assert p[n + 1..] == [];
      } else {
        ExtEmptyIff(q);
        if NoExtension(q) {
          forall i | 0 <= i < |p| && p[i] == '.'
            ensures '/' in p[i + 1..]
          {
            assert p[i] == q[i];
            assert '/' in q[i + 1..];
            assert p[i + 1..] == q[i + 1..] + [c];
          }
        } else {
          var i :| 0 <= i < |q| && q[i] == '.' && '/' !in q[i + 1..];
          assert p[i] == '.';
          assert p[i + 1..] == q[i + 1..] + [c];
        }
      }
    }
  }

  /**
   * A non-empty `Ext` is a suffix of the path that starts with `.` and holds
   * no other `.` and no `/`.
   */
  lemma {:induction false} ExtShape(p: string)
    requires Ext(p) != ""
    ensures var e := Ext(p);
      p[|p| - |e|..] == e && e[0] == '.'
      && forall k | 1 <= k < |e| :: e[k] != '.' && e[k] != '/'
    decreases |p|
  {
    var n := |p| - 1;
    if p[n] != '.' {
      var q := p[..n];
      ExtShape(q);
      var e := Ext(q);
      assert Ext(p) == e + [p[n]];
      assert p[|p| - |e| - 1..] == q[|q| - |e|..] + [p[n]];
    }
  }

  /** The seed's file name has the extension `.html`. */
  lemma IndexHtmlExt()
    ensures Ext("index.html") == ".html"
  {
    assert "index.html"[..9] == "index.htm";
    assert "index.htm"[..8] == "index.ht";
    assert "index.ht"[..7] == "index.h";
    assert "index.h"[..6] == "index.";
    assert Ext("index.") == ".";
    assert Ext("index.h") == ".h";
    assert Ext("index.ht") == ".ht";
    assert Ext("index.htm") == ".htm";
  }

  // ---------------------------------------------------------------------------
  // The destination file
  // ---------------------------------------------------------------------------

  /**
   * The file that `crawl` stores the page of `targetUrl` in: the seed goes to
   * `index.html` in `dir`, any other link to its URL path in `dir`, with
   * `.html` added when that path's last element has no extension.
   */
  function DestinationPath(targetUrl: string, dir: string, target: string, urlPath: string,
                           join: (string, string) -> string): (r: string)
    ensures targetUrl == target ==> r == join(dir, "index.html")
    ensures targetUrl != target ==>
      r == join(dir, urlPath) + (if NoExtension(urlPath) then ".html" else "")
  {
    IndexHtmlExt();
    ExtEmptyIff(urlPath);
    var path := if targetUrl == target then "index.html" else urlPath;
    var filePath := join(dir, path);
    if Ext(path) == "" then filePath + ".html" else filePath
  }

  // ---------------------------------------------------------------------------
  // The pipeline
  // ---------------------------------------------------------------------------

  /** The link is skipped: not the seed, no overwrite, and its file is already there. */
  predicate SkipsExisting(targetUrl: string, overwrite: bool, target: string, filePath: string, env: Env)
  {
    !overwrite && targetUrl != target && env.present(filePath)
  }

  /**
   * `crawl(targetUrl, dir, overwrite, target)`: each step runs only when the
   * previous one succeeded, in the order parse, stat, fetch, write, extract.
   */
  function Crawl(targetUrl: string, dir: string, overwrite: bool, target: string, env: Env): (r: Run)
    ensures env.parse(targetUrl).ParseFailed? <==> r.outcome == Failed(Parsing)
    ensures env.parse(targetUrl).ParseFailed? ==> r.effects == []
    ensures r.outcome.Crawled? ==> forall l | l in r.outcome.children :: IsPrefix(target, l)
  {
    match env.parse(targetUrl)
    case ParseFailed => Run(Failed(Parsing), [])
    case Parsed(urlPath) =>
      var filePath := DestinationPath(targetUrl, dir, target, urlPath, env.join);
      if SkipsExisting(targetUrl, overwrite, target, filePath, env) then
        Run(Skipped, [Stat(filePath)])
      else
        match env.fetch(targetUrl)
        case FetchFailed => Run(Failed(Fetching), [Stat(filePath), Fetch(targetUrl)])
        case Content(body) =>
          var effects := [Stat(filePath), Fetch(targetUrl), Write(filePath, body)];
          if !env.store(body, filePath) then Run(Failed(Writing), effects)
          else
            Parser.ChildrenLinksBounds(body, target);
            Run(Crawled(Parser.ChildrenLinks(body, target)), effects)
  }

  // ---------------------------------------------------------------------------
  // Properties of the pipeline
  // ---------------------------------------------------------------------------

  /** The calls a crawl makes are a prefix of: stat the file, fetch the URL, write the body. */
  lemma EffectsInOrder(targetUrl: string, dir: string, overwrite: bool, target: string, env: Env)
    requires env.parse(targetUrl).Parsed?
    ensures var r := Crawl(targetUrl, dir, overwrite, target, env);
      var filePath := DestinationPath(targetUrl, dir, target, env.parse(targetUrl).path, env.join);
      var body := if env.fetch(targetUrl).Content? then env.fetch(targetUrl).body else "";
      1 <= |r.effects| <= 3
      && r.effects <= [Stat(filePath), Fetch(targetUrl), Write(filePath, body)]
  {
  }

  /** An existing file is skipped, without fetch or write, exactly when the skip condition holds. */
  lemma SkippedIff(targetUrl: string, dir: string, overwrite: bool, target: string, env: Env)
    requires env.parse(targetUrl).Parsed?
    ensures var r := Crawl(targetUrl, dir, overwrite, target, env);
      var filePath := DestinationPath(targetUrl, dir, target, env.parse(targetUrl).path, env.join);
      (r.outcome == Skipped <==> SkipsExisting(targetUrl, overwrite, target, filePath, env))
      && (r.outcome == Skipped ==> r.effects == [Stat(filePath)])
  {
  }

  /** Whenever the skip condition fails, in particular for the seed, the URL is fetched. */
  lemma FetchedUnlessSkipped(targetUrl: string, dir: string, overwrite: bool, target: string, env: Env)
    requires env.parse(targetUrl).Parsed?
    ensures var r := Crawl(targetUrl, dir, overwrite, target, env);
      (Fetch(targetUrl) in r.effects <==> r.outcome != Skipped)
      && (targetUrl == target || overwrite ==> Fetch(targetUrl) in r.effects)
  {
  }

  /** A fetch error ends the crawl with an error before anything is written. */
  lemma FetchFailureWritesNothing(targetUrl: string, dir: string, overwrite: bool, target: string, env: Env)
    requires env.parse(targetUrl).Parsed? && env.fetch(targetUrl).FetchFailed?
    ensures var r := Crawl(targetUrl, dir, overwrite, target, env);
      (r.outcome == Skipped || r.outcome == Failed(Fetching))
      && forall e | e in r.effects :: !e.Write?
  {
  }

  /** A write error ends the crawl with an error and no links. */
  lemma WriteFailureNoLinks(targetUrl: string, dir: string, overwrite: bool, target: string, env: Env)
    requires env.parse(targetUrl).Parsed? && env.fetch(targetUrl).Content?
    requires !env.store(env.fetch(targetUrl).body,
                        DestinationPath(targetUrl, dir, target, env.parse(targetUrl).path, env.join))
    ensures var r := Crawl(targetUrl, dir, overwrite, target, env);
      r.outcome == Skipped || r.outcome == Failed(Writing)
    ensures var r := Crawl(targetUrl, dir, overwrite, target, env);
      var filePath := DestinationPath(targetUrl, dir, target, env.parse(targetUrl).path, env.join);
      Write(filePath, env.fetch(targetUrl).body) in r.effects ==> r.outcome == Failed(Writing)
  {
  }

  /**
   * A crawl that gets to the end returns the links of the fetched body, scoped
   * to the seed `target`, not to the link being crawled.
   */
  lemma CrawledChildren(targetUrl: string, dir: string, overwrite: bool, target: string, env: Env)
    requires Crawl(targetUrl, dir, overwrite, target, env).outcome.Crawled?
    ensures env.parse(targetUrl).Parsed? && env.fetch(targetUrl).Content?
    ensures Crawl(targetUrl, dir, overwrite, target, env).outcome.children
      == Parser.ChildrenLinks(env.fetch(targetUrl).body, target)
  {
  }
}
