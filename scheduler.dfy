/**
 * The crawl loop of main.go. A session holds the crawl state, a map from
 * each known link to whether it is being crawled. On every tick it stops
 * when the map is empty, else scans the map for a link, runs one worker on
 * it and waits for that worker. The worker marks its link, crawls it, adds
 * the child links as not crawled, and finally evicts its own link.
 */
module Scheduler {
  import opened Wrappers
  import Crawler

  /** `order` lists every key of `m` exactly once: one visiting order of Go's `range`. */
  predicate IsEnumeration(order: seq<string>, m: map<string, bool>)
  {
    (forall i, j | 0 <= i < j < |order| :: order[i] != order[j])
    && (forall k | k in m :: k in order)
    && (forall i | 0 <= i < |order| :: order[i] in m)
  }

  // ---------------------------------------------------------------------------
  // The scan for the next link (main.go:86-101)
  // ---------------------------------------------------------------------------

  /**
   * The range loop over the map in visiting order `order`, starting with the
   * chosen link `link`: a key already removed is not visited; a key being
   * crawled evicts the link chosen so far; any other key becomes the link.
   * Gives the chosen link and the map after the loop.
   */
  function Scan(order: seq<string>, m: map<string, bool>, link: string): (r: (string, map<string, bool>))
    ensures r.0 == link || (r.0 in order && Free(m, r.0))
    ensures r.1.Keys <= m.Keys
    ensures forall k | k in r.1 :: r.1[k] == m[k]
  {
    if order == [] then (link, m)
    else
      var url := order[0];
      if url !in m then Scan(order[1..], m, link)
      else if m[url] then Scan(order[1..], m - {link}, link)
      else Scan(order[1..], m, url)
  }

  /** `k` is a key of `m` that is not being crawled. */
  predicate Free(m: map<string, bool>, k: string)
  {
    k in m && !m[k]
  }

  /** The last key of `order` that is in `m` and not being crawled; `link` when there is none. */
  function LastUnclaimed(order: seq<string>, m: map<string, bool>, link: string): string
  {
    if order == [] then link
    else if Free(m, order[0]) then LastUnclaimed(order[1..], m, order[0])
    else LastUnclaimed(order[1..], m, link)
  }

  /** No key of `m` is being crawled. */
  predicate AllUnclaimed(m: map<string, bool>)
  {
    forall k | k in m :: !m[k]
  }

  /**
   * The choice is `link` itself when no visited key is free; otherwise it is
   * a free key at some position of `order` after which no free key follows.
   */
  lemma {:induction false} LastUnclaimedIsUnclaimed(order: seq<string>, m: map<string, bool>, link: string)
    ensures (forall i | 0 <= i < |order| :: !Free(m, order[i])) ==> LastUnclaimed(order, m, link) == link
    ensures (exists i | 0 <= i < |order| :: Free(m, order[i])) ==>
      exists i | 0 <= i < |order| :: order[i] == LastUnclaimed(order, m, link) && Free(m, order[i])
        && forall j | i < j < |order| :: !Free(m, order[j])
  {
    if order != [] {
      var u, rest := order[0], order[1..];
      var next := if Free(m, u) then u else link;
      LastUnclaimedIsUnclaimed(rest, m, next);
      var r := LastUnclaimed(rest, m, next);
      assert LastUnclaimed(order, m, link) == r;
      if exists i | 0 <= i < |rest| :: Free(m, rest[i]) {
        var i :| 0 <= i < |rest| && rest[i] == r && Free(m, rest[i])
          && forall j | i < j < |rest| :: !Free(m, rest[j]);
        assert order[i + 1] == rest[i];
        forall j | i + 1 < j < |order|
          ensures !Free(m, order[j])
        {
          assert order[j] == rest[j - 1];
        }
      } else {
        assert forall i | 0 <= i < |rest| :: !Free(m, rest[i]);
        assert r == next;
        forall j | 0 < j < |order|
          ensures !Free(m, order[j])
        {
          assert order[j] == rest[j - 1];
        }
        if !Free(m, u) {
          assert forall i | 0 <= i < |order| :: !Free(m, order[i]);
        }
      }
    }
  }

  /** Removing a key that is not visited does not change the choice. */
  lemma {:induction false} LastUnclaimedIgnores(order: seq<string>, m: map<string, bool>, link: string, gone: string)
    requires gone !in order
    ensures LastUnclaimed(order, m - {gone}, link) == LastUnclaimed(order, m, link)
  {
    if order != [] {
      assert order[0] != gone;
      LastUnclaimedIgnores(order[1..], m, order[0], gone);
      LastUnclaimedIgnores(order[1..], m, link, gone);
    }
  }

  /**
   * The scan never stops early: the link it chooses is the last key in
   * visiting order that is not being crawled. (The eviction inside the loop
   * only removes the link chosen so far, which is never visited again.)
   */
  lemma {:induction false} ScanChoosesLastUnclaimed(order: seq<string>, m: map<string, bool>, link: string)
    requires forall i, j | 0 <= i < j < |order| :: order[i] != order[j]
    requires link !in order
    ensures Scan(order, m, link).0 == LastUnclaimed(order, m, link)
  {
    if order != [] {
      var url := order[0];
      var rest := order[1..];
      assert forall i, j | 0 <= i < j < |rest| :: rest[i] != rest[j] by {
        forall i, j | 0 <= i < j < |rest|
          ensures rest[i] != rest[j]
        {
          assert rest[i] == order[i + 1] && rest[j] == order[j + 1];
        }
      }
      assert url !in rest by {
        forall i | 0 <= i < |rest|
          ensures rest[i] != url
        {
          assert rest[i] == order[i + 1];
        }
      }
      if url !in m {
        ScanChoosesLastUnclaimed(rest, m, link);
      } else if m[url] {
        ScanChoosesLastUnclaimed(rest, m - {link}, link);
        LastUnclaimedIgnores(rest, m, link, link);
      } else {
        ScanChoosesLastUnclaimed(rest, m, url);
      }
    }
  }

  /**
   * The in-loop eviction, modelled as a plain deletion with the locks as
   * no-ops, removes the link chosen so far, not the key being skipped: a free
   * key `u` visited before a claimed key `v` is chosen and deleted, while `v`
   * stays. (With the real read-write lock this branch would block instead;
   * `ScanAllUnclaimed` shows it is never taken between ticks.)
   */
  lemma ScanEvictsChosenLink(m: map<string, bool>, u: string, v: string)
    requires u in m && !m[u] && v in m && m[v] && u != v
    ensures Scan([u, v], m, "") == (u, m - {u})
  {
    assert [u, v][1..] == [v];
    assert [v][1..] == [];
    assert Scan([v], m, u) == Scan([], m - {u}, u);
  }

  /** When nothing is being crawled the scan evicts nothing and chooses the last key visited. */
  lemma {:induction false} ScanAllUnclaimed(order: seq<string>, m: map<string, bool>, link: string)
    requires AllUnclaimed(m)
    requires forall i | 0 <= i < |order| :: order[i] in m
    ensures Scan(order, m, link) == (if order == [] then link else order[|order| - 1], m)
  {
    if order != [] {
      ScanAllUnclaimed(order[1..], m, order[0]);
      if |order| > 1 {
        assert order[1..][|order| - 2] == order[|order| - 1];
      }
    }
  }

  // ---------------------------------------------------------------------------
  // One worker (main.go:106-143, 150-155)
  // ---------------------------------------------------------------------------

  /** The child links a crawl outcome reports; none on an error or a skip. */
  function Children(outcome: Crawler.Outcome): seq<string>
  {
    if outcome.Crawled? then outcome.children else []
  }

  /** `m` with every link of `cs` set to not crawled, in order. */
  function AddChildren(m: map<string, bool>, cs: seq<string>): (r: map<string, bool>)
    ensures m.Keys <= r.Keys
    ensures forall c | c in cs :: c in r && !r[c]
  {
    if cs == [] then m else AddChildren(m, cs[..|cs| - 1])[cs[|cs| - 1] := false]
  }

  /** After adding: the keys are the old ones and the children; children are not crawled, the rest keep their value. */
  lemma {:induction false} AddChildrenContents(m: map<string, bool>, cs: seq<string>, k: string)
    ensures k in AddChildren(m, cs) <==> k in m || k in cs
    ensures k in AddChildren(m, cs) ==> AddChildren(m, cs)[k] == (if k in cs then false else m[k])
  {
    if cs != [] {
      var front := cs[..|cs| - 1];
      AddChildrenContents(m, front, k);
      assert cs == front + [cs[|cs| - 1]];
      assert k in cs <==> k in front || k == cs[|cs| - 1];
    }
  }

  /**
   * The map after a worker on `link`: marked as being crawled, its children
   * added as not crawled, then the link itself removed by the deferred evict.
   */
  function AfterWorker(m: map<string, bool>, link: string, outcome: Crawler.Outcome): (r: map<string, bool>)
    ensures link !in r
    ensures forall c | c in Children(outcome) && c != link :: c in r && !r[c]
    ensures forall k | k != link && k !in Children(outcome) ::
      (k in r <==> k in m) && (k in r ==> r[k] == m[k])
    ensures !outcome.Crawled? ==> r == m - {link}
    ensures AllUnclaimed(m) ==> AllUnclaimed(r)
  {
    var cs := Children(outcome);
    var r := AddChildren(m[link := true], cs) - {link};
    forall k
      ensures k in AddChildren(m[link := true], cs) <==> k in m[link := true] || k in cs
      ensures k in AddChildren(m[link := true], cs) ==>
        AddChildren(m[link := true], cs)[k] == (if k in cs then false else m[link := true][k])
    {
      AddChildrenContents(m[link := true], cs, k);
    }
    r
  }

  // ---------------------------------------------------------------------------
  // The session
  // ---------------------------------------------------------------------------

  /** How a tick ended: the quit signal, an empty map, or one worker run on `link`. */
  datatype TickResult = Interrupted | Completed | Dispatched(link: string, run: Crawler.Run)

  /** An event at a tick boundary: the quit signal, or the ticker with the world's answers for this tick. */
  datatype Event = Quit | Tick(env: Crawler.Env)

  class Session {
    /** The seed URL, the destination directory and the overwrite flag. */
    const target: string
    const directory: string
    const overwrite: bool

    /** `crawledState`: every known link, and whether it is being crawled. */
    var state: map<string, bool>

    /** Between ticks nothing is being crawled, and no link is empty. */
    ghost predicate Valid()
      reads this
    {
      target != "" && "" !in state && AllUnclaimed(state)
    }

    /** The initial state: just the seed, not yet crawled (main.go:69-70). */
    constructor (target: string, directory: string, overwrite: bool)
      requires target != "" && directory != ""
      ensures Valid()
      ensures this.target == target && this.directory == directory && this.overwrite == overwrite
      ensures state == map[target := false]
    {
      this.target := target;
      this.directory := directory;
      this.overwrite := overwrite;
      state := map[target := false];
    }

    /** The range loop choosing the next link, with its in-loop eviction (main.go:86-101). */
    method SelectLink(order: seq<string>) returns (link: string)
      modifies this
      ensures (link, state) == Scan(order, old(state), "")
    {
      link := "";
      var i := 0;
      while i < |order|
        invariant 0 <= i <= |order|
        invariant Scan(order[i..], state, link) == Scan(order, old(state), "")
      {
        assert order[i..][1..] == order[i + 1..];
        var url := order[i];
        if url in state {
          if state[url] {
            state := state - {link};
          } else {
            link := url;
          }
        }
        i := i + 1;
      }
    }

    /** The worker goroutine, run to completion (main.go:106-143). */
    method Worker(link: string, env: Crawler.Env) returns (run: Crawler.Run)
      modifies this
      ensures run == Crawler.Crawl(link, directory, overwrite, target, env)
      ensures state == AfterWorker(old(state), link, run.outcome)
    {
      state := state[link := true];
      ghost var marked := state;
      run := Crawler.Crawl(link, directory, overwrite, target, env);
      if run.outcome.Crawled? {
        var children := run.outcome.children;
        for i := 0 to |children|
          invariant state == AddChildren(marked, children[..i])
        {
          assert children[..i + 1][..i] == children[..i];
          state := state[children[i] := false];
        }
        assert children[..|children|] == children;
      }
      state := state - {link};
    }

    /** One pass of the main loop (main.go:72-146). */
    method Step(event: Event, order: seq<string>) returns (r: TickResult)
      requires Valid() && IsEnumeration(order, state)
      modifies this
      ensures Valid()
      ensures event.Quit? ==> r == Interrupted && state == old(state)
      ensures event.Tick? && old(state) == map[] ==> r == Completed && state == old(state)
      ensures event.Tick? && old(state) != map[] ==>
        r.Dispatched? && r.link == order[|order| - 1] && r.link in old(state)
        && r.run == Crawler.Crawl(r.link, directory, overwrite, target, event.env)
        && state == AfterWorker(old(state), r.link, r.run.outcome)
    {
      if event.Quit? {
        return Interrupted;
      }
      if state == map[] {
        return Completed;
      }
      ghost var before := state;
      assert order != [] by {
        var k :| k in state;
        assert k in order;
      }
      ScanAllUnclaimed(order, state, "");
      var link := SelectLink(order);
      assert state == before && link == order[|order| - 1];
      var run := Worker(link, event.env);
      forall c | c in Children(run.outcome)
        ensures c != ""
      {
        assert IsPrefix(target, c);
      }
      r := Dispatched(link, run);
    }

    /**
     * One pass of the main loop took the map from `before` to `after` with
     * result `r` on event `e`: a quit changes nothing, an empty map completes,
     * and otherwise a key of the map is crawled and the worker's changes applied.
     */
    ghost predicate Tracks(before: map<string, bool>, e: Event, r: TickResult, after: map<string, bool>)
    {
      (e.Quit? ==> r == Interrupted && after == before)
      && (r == Completed ==> e.Tick? && before == map[] && after == before)
      && (r.Dispatched? ==>
            e.Tick? && r.link in before
            && r.run == Crawler.Crawl(r.link, directory, overwrite, target, e.env)
            && after == AfterWorker(before, r.link, r.run.outcome))
    }

    /**
     * The main loop over a sequence of events: one pass per event, until the
     * quit signal or an empty map ends it. Each scan visits the keys in
     * some order chosen by `Enumerate`.
     */
    method Serve(events: seq<Event>) returns (results: seq<TickResult>, ghost states: seq<map<string, bool>>)
      requires Valid()
      modifies this
      ensures Valid()
      ensures |results| <= |events|
      ensures |states| == |results| + 1 && states[0] == old(state) && states[|results|] == state
      ensures forall i | 0 <= i < |results| :: Tracks(states[i], events[i], results[i], states[i + 1])
      ensures forall i | 0 <= i < |results| - 1 :: results[i].Dispatched?
      ensures |results| < |events| ==> results != [] && !results[|results| - 1].Dispatched?
      ensures forall i | 0 <= i < |results| :: (results[i] == Interrupted <==> events[i].Quit?)
      ensures results != [] && results[|results| - 1] == Completed ==> state == map[]
    {
      results := [];
      states := [state];
      var i := 0;
      while i < |events|
        invariant 0 <= i <= |events| && |results| == i
        invariant Valid()
        invariant forall j | 0 <= j < |results| :: results[j].Dispatched? && events[j].Tick?
        invariant |states| == |results| + 1 && states[0] == old(state) && states[|results|] == state
        invariant forall j | 0 <= j < |results| :: Tracks(states[j], events[j], results[j], states[j + 1])
      {
        var order := Enumerate(state);
        ghost var before := state;
        var r := Step(events[i], order);
        assert Tracks(before, events[i], r, state);
        ghost var earlier := states;
        ghost var done := results;
        results := results + [r];
        states := states + [state];
        forall j | 0 <= j < |results|
          ensures Tracks(states[j], events[j], results[j], states[j + 1])
        {
          if j < |done| {
            assert states[j] == earlier[j] && states[j + 1] == earlier[j + 1] && results[j] == done[j];
          }
        }
        if !r.Dispatched? {
          return;
        }
        i := i + 1;
      }
    }
  }

  /** Some visiting order of the keys of `m`. */
  method Enumerate(m: map<string, bool>) returns (order: seq<string>)
    ensures IsEnumeration(order, m)
  {
    order := [];
    var rest := m.Keys;
    while rest != {}
      invariant rest <= m.Keys
      invariant forall i | 0 <= i < |order| :: order[i] in m && order[i] !in rest
      invariant forall i, j | 0 <= i < j < |order| :: order[i] != order[j]
      invariant forall k | k in m :: k in rest || k in order
      decreases |rest|
    {
      var k :| k in rest;
      order := order + [k];
      rest := rest - {k};
    }
  }
}
