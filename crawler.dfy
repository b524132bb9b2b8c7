/**
 * The breadth-first crawl: a FIFO list of URLs to visit, a visited set,
 * one call of `crawl_page` per newly dequeued URL, and the list of
 * visited pages whose URL passes the target filter.
 */
module Crawler {
  import opened Text
  import opened Sorting

  // ---------------------------------------------------------- crawl_page

  /** What `requests.get(url)` gave. */
  datatype Response =
    /** a response with its status code and the `href` of every `<a href>`, in document order */
    | Response(status: int, hrefs: seq<string>)
    /** a `RequestException` raised by `requests.get` itself */
    | ConnectionFailed

  /** `raise_for_status()` raises for a client or server error status. */
  predicate IsHttpError(status: int) {
    400 <= status < 600
  }

  const BioMarker := "/bios/Pages"

  /** `[urljoin(url, h) for h in hrefs if '/bios/Pages' in h]` */
  function BioLinks(url: string, hrefs: seq<string>, join: (string, string) -> string): seq<string> {
    if hrefs == [] then []
    else
      BioLinks(url, hrefs[..|hrefs| - 1], join)
      + (if Contains(hrefs[|hrefs| - 1], BioMarker) then [join(url, hrefs[|hrefs| - 1])] else [])
  }

  /** The links kept are exactly the joins of the hrefs that hold the marker. */
  lemma {:induction false} BioLinksMembers(url: string, hrefs: seq<string>, join: (string, string) -> string, x: string)
    ensures x in BioLinks(url, hrefs, join) <==>
            exists i :: 0 <= i < |hrefs| && Contains(hrefs[i], BioMarker) && x == join(url, hrefs[i])
  {
    if hrefs != [] {
      var n := |hrefs| - 1;
      BioLinksMembers(url, hrefs[..n], join, x);
      if exists i :: 0 <= i < n && Contains(hrefs[..n][i], BioMarker) && x == join(url, hrefs[..n][i]) {
        var i :| 0 <= i < n && Contains(hrefs[..n][i], BioMarker) && x == join(url, hrefs[..n][i]);
        assert hrefs[i] == hrefs[..n][i];
      }
      if exists i :: 0 <= i < |hrefs| && Contains(hrefs[i], BioMarker) && x == join(url, hrefs[i]) {
        var i :| 0 <= i < |hrefs| && Contains(hrefs[i], BioMarker) && x == join(url, hrefs[i]);
        if i < n {
          assert hrefs[..n][i] == hrefs[i];
        }
      }
    }
  }

  /**
   * `crawl_page(url)`: the joined bio links in document order, or `[]` when
   * the request fails or the status is an HTTP error. `join` stands for
   * `urljoin`.
   */
  method CrawlPage(url: string, response: Response, join: (string, string) -> string)
    returns (links: seq<string>)
    ensures response.ConnectionFailed? || IsHttpError(response.status) ==> links == []
    ensures response.Response? && !IsHttpError(response.status) ==> links == BioLinks(url, response.hrefs, join)
  {
    if response.ConnectionFailed? || IsHttpError(response.status) {
      return [];
    }
    var hrefs := response.hrefs;
    links := [];
    for i := 0 to |hrefs|
      invariant links == BioLinks(url, hrefs[..i], join)
    {
      assert hrefs[..i + 1][..i] == hrefs[..i];
      if Contains(hrefs[i], BioMarker) {
        links := links + [join(url, hrefs[i])];
      }
    }
    assert hrefs[..|hrefs|] == hrefs;
  }

  // ------------------------------------------------------------ the crawl

  /** The links `crawl_page` returns for each URL; an unlisted URL has none. */
  type LinkMap = map<string, seq<string>>

  function Links(g: LinkMap, u: string): seq<string> {
    if u in g then g[u] else []
  }

  /** Every link of a URL in `s` is in `s`. */
  ghost predicate Closed(g: LinkMap, s: set<string>) {
    forall u, i :: u in s && 0 <= i < |Links(g, u)| ==> Links(g, u)[i] in s
  }

  /** Every URL a crawl from `seed` can meet. */
  function Universe(g: LinkMap, seed: string): set<string> {
    {seed} + set u, i | u in g && 0 <= i < |g[u]| :: g[u][i]
  }

  /** The URL is collected: it holds `path` and no excluded marker. */
  predicate IsTarget(u: string, path: string, excluded: seq<string>) {
    Contains(u, path) && forall k :: 0 <= k < |excluded| ==> !Contains(u, excluded[k])
  }

  function Targets(order: seq<string>, path: string, excluded: seq<string>): seq<string> {
    if order == [] then []
    else
      Targets(order[..|order| - 1], path, excluded)
      + (if IsTarget(order[|order| - 1], path, excluded) then [order[|order| - 1]] else [])
  }

  /** The invariant of the crawl loop. */
  ghost predicate CrawlState(g: LinkMap, seed: string, path: string, excluded: seq<string>,
                             queue: seq<string>, visited: set<string>, order: seq<string>,
                             bioUrls: seq<string>)
  {
    && Elems(order) == visited && NoDup(order)
    && bioUrls == Targets(order, path, excluded)
    && visited <= Universe(g, seed)
    && (forall i :: 0 <= i < |queue| ==> queue[i] in Universe(g, seed))
    && (forall u, i :: u in visited && 0 <= i < |Links(g, u)| ==> Links(g, u)[i] in visited || Links(g, u)[i] in queue)
    && (order == [] ==> queue == [seed])
    && (order != [] ==> order[0] == seed)
  }

  /** A dequeued URL seen before changes nothing but the queue. */
  lemma SkipStep(g: LinkMap, seed: string, path: string, excluded: seq<string>,
                 queue: seq<string>, visited: set<string>, order: seq<string>, bioUrls: seq<string>)
    requires CrawlState(g, seed, path, excluded, queue, visited, order, bioUrls)
    requires queue != [] && queue[0] in visited
    ensures CrawlState(g, seed, path, excluded, queue[1..], visited, order, bioUrls)
  {
    forall u, i | u in visited && 0 <= i < |Links(g, u)|
      ensures Links(g, u)[i] in visited || Links(g, u)[i] in queue[1..]
    {
      var x := Links(g, u)[i];
      if x !in visited {
        assert x in queue && x != queue[0];
        var k :| 0 <= k < |queue| && queue[k] == x;
        assert queue[1..][k - 1] == x;
      }
    }
  }

  /** A newly dequeued URL is visited: recorded, expanded and maybe collected. */
  lemma VisitStep(g: LinkMap, seed: string, path: string, excluded: seq<string>,
                  queue: seq<string>, visited: set<string>, order: seq<string>, bioUrls: seq<string>)
    requires CrawlState(g, seed, path, excluded, queue, visited, order, bioUrls)
    requires queue != [] && queue[0] !in visited
    ensures var c := queue[0];
            CrawlState(g, seed, path, excluded, queue[1..] + Links(g, c), visited + {c}, order + [c],
                       if IsTarget(c, path, excluded) then bioUrls + [c] else bioUrls)
  {
    var c := queue[0];
    var queue' := queue[1..] + Links(g, c);
    assert (order + [c])[..|order|] == order;
    assert Elems(order + [c]) == Elems(order) + {c};
    forall i | 0 <= i < |Links(g, c)| ensures Links(g, c)[i] in Universe(g, seed) {
      assert c in g;
    }
    forall i | 0 <= i < |queue'| ensures queue'[i] in Universe(g, seed) {
      if i < |queue| - 1 {
        assert queue'[i] == queue[i + 1];
      } else {
        assert queue'[i] == Links(g, c)[i - (|queue| - 1)];
      }
    }
    forall u, i | u in visited + {c} && 0 <= i < |Links(g, u)|
      ensures Links(g, u)[i] in visited + {c} || Links(g, u)[i] in queue'
    {
      var x := Links(g, u)[i];
      if u == c {
        assert queue'[|queue| - 1 + i] == x;
      } else if x !in visited && x != c {
        var k :| 0 <= k < |queue| && queue[k] == x;
        assert k != 0;
        assert queue'[k - 1] == x;
      }
    }
  }

  /** Every link of a page lies in the universe of the crawl. */
  lemma LinksInUniverse(g: LinkMap, seed: string, u: string)
    ensures forall i :: 0 <= i < |Links(g, u)| ==> Links(g, u)[i] in Universe(g, seed)
  {
    forall i | 0 <= i < |Links(g, u)| ensures Links(g, u)[i] in Universe(g, seed) {
      assert u in g;
    }
  }

  /**
   * The URLs the crawl visits, in the order it visits them, from a queue and
   * a visited set: a visited head is dropped; a new head is visited, and its
   * links go to the back of the queue.
   */
  ghost function Bfs(g: LinkMap, seed: string, queue: seq<string>, visited: set<string>): seq<string>
    requires forall i :: 0 <= i < |queue| ==> queue[i] in Universe(g, seed)
    decreases Universe(g, seed) - visited, |queue|
  {
    if queue == [] then []
    else if queue[0] in visited then Bfs(g, seed, queue[1..], visited)
    else
      var c := queue[0];
      var next := queue[1..] + Links(g, c);
      LinksInUniverse(g, seed, c);
      assert forall i :: 0 <= i < |next| ==> next[i] in Universe(g, seed) by {
        forall i | 0 <= i < |next| ensures next[i] in Universe(g, seed) {
          if i < |queue| - 1 {
            assert next[i] == queue[i + 1];
          } else {
            assert next[i] == Links(g, c)[i - (|queue| - 1)];
          }
        }
      }
      assert Universe(g, seed) - (visited + {c}) < Universe(g, seed) - visited by {
        assert c in Universe(g, seed) - visited;
      }
      [c] + Bfs(g, seed, next, visited + {c})
  }

  /** The part of the visiting order `all` still to come is what the queue
      and the visited set determine. */
  ghost predicate BfsState(g: LinkMap, seed: string, queue: seq<string>, visited: set<string>,
                           order: seq<string>, all: seq<string>)
  {
    && (forall i :: 0 <= i < |queue| ==> queue[i] in Universe(g, seed))
    && order + Bfs(g, seed, queue, visited) == all
  }

  lemma BfsStart(g: LinkMap, seed: string)
    ensures BfsState(g, seed, [seed], {}, [], Bfs(g, seed, [seed], {}))
  {
  }

  /** Dropping a visited head leaves the rest of the visiting order as it was. */
  lemma BfsSkip(g: LinkMap, seed: string, queue: seq<string>, visited: set<string>,
                order: seq<string>, all: seq<string>)
    requires BfsState(g, seed, queue, visited, order, all)
    requires queue != [] && queue[0] in visited
    ensures BfsState(g, seed, queue[1..], visited, order, all)
  {
  }

  /** Visiting a new head moves it from the rest of the visiting order to the
      order so far. */
  lemma BfsVisit(g: LinkMap, seed: string, queue: seq<string>, visited: set<string>,
                 order: seq<string>, all: seq<string>, queue': seq<string>)
    requires BfsState(g, seed, queue, visited, order, all)
    requires queue != [] && queue[0] !in visited
    requires queue' == queue[1..] + Links(g, queue[0])
    ensures BfsState(g, seed, queue', visited + {queue[0]}, order + [queue[0]], all)
  {
    var c := queue[0];
    LinksInUniverse(g, seed, c);
    forall i | 0 <= i < |queue'| ensures queue'[i] in Universe(g, seed) {
      if i < |queue| - 1 {
        assert queue'[i] == queue[i + 1];
      } else {
        assert queue'[i] == Links(g, c)[i - (|queue| - 1)];
      }
    }
    assert Bfs(g, seed, queue, visited) == [c] + Bfs(g, seed, queue', visited + {c});
    assert (order + [c]) + Bfs(g, seed, queue', visited + {c})
           == order + ([c] + Bfs(g, seed, queue', visited + {c}));
  }

  /** With the queue empty, the order so far is the whole visiting order. */
  lemma BfsDone(g: LinkMap, seed: string, visited: set<string>, order: seq<string>, all: seq<string>)
    requires BfsState(g, seed, [], visited, order, all)
    ensures order == all
  {
    assert order + [] == order;
  }

  /** A seed with two links is visited first, then its links in list order. */
  lemma BfsExample()
    ensures Bfs(map["s" := ["a/x", "b/x"]], "s", ["s"], {}) == ["s", "a/x", "b/x"]
  {
    var g := map["s" := ["a/x", "b/x"]];
    assert g["s"][0] == "a/x" && g["s"][1] == "b/x";
    assert Links(g, "a/x") == [] && Links(g, "b/x") == [];
    assert Bfs(g, "s", ["b/x"], {"s", "a/x"}) == ["b/x"];
    assert Bfs(g, "s", ["a/x", "b/x"], {"s"}) == ["a/x", "b/x"];
    assert ["s"][1..] + Links(g, "s") == ["a/x", "b/x"];
    assert {} + {"s"} == {"s"};
  }

  /** The URLs still to visit, measured for termination. */
  function Unvisited(g: LinkMap, seed: string, visited: set<string>): set<string> {
    Universe(g, seed) - visited
  }

  /**
   * The crawl loop of v3/Web_scrapping.py: `seed` is the base URL, `g`
   * what `crawl_page` returns for each URL, `path` the specified path and
   * `excluded` the markers that keep a target out of `bio_urls`.
   */
  method Crawl(g: LinkMap, seed: string, path: string, excluded: seq<string>)
    returns (bioUrls: seq<string>, visited: set<string>, ghost order: seq<string>)
    // each URL is crawled once, in dequeue order
    ensures order == Bfs(g, seed, [seed], {})
    ensures order != [] && order[0] == seed && seed in visited
    ensures NoDup(order) && Elems(order) == visited
    // the collected URLs are the visited targets, in visiting order
    ensures bioUrls == Targets(order, path, excluded)
    // each collected URL once, and exactly the visited targets
    ensures NoDup(bioUrls) && Elems(bioUrls) == set u | u in visited && IsTarget(u, path, excluded)
    // every link of a visited page was followed, excluded pages included
    ensures Closed(g, visited)
    // only pages reachable from the seed are visited
    ensures forall s :: seed in s && Closed(g, s) ==> visited <= s
  {
    var queue := [seed];
    visited := {};
    bioUrls := [];
    order := [];
    ghost var all := Bfs(g, seed, [seed], {});
    LoopStart(g, seed, path, excluded);
    while queue != []
      invariant LoopState(g, seed, path, excluded, queue, visited, order, bioUrls, all)
      decreases Unvisited(g, seed, visited), |queue|
    {
      var current := queue[0];
      if current in visited {
        LoopSkip(g, seed, path, excluded, queue, visited, order, bioUrls, all);
        queue := queue[1..];
      } else {
        var newLinks := Links(g, current);
        LoopVisit(g, seed, path, excluded, queue, visited, order, bioUrls, all, newLinks);
        visited := visited + {current};
        order := order + [current];
        queue := queue[1..] + newLinks;
        // a URL holding the path is appended unless an excluded marker
        // makes the loop `continue` first
        if IsTarget(current, path, excluded) {
          bioUrls := bioUrls + [current];
        }
      }
    }
    LoopDone(g, seed, path, excluded, visited, order, bioUrls, all);
  }

  /** Every closed set holding the seed holds everything visited or queued. */
  ghost predicate Reached(g: LinkMap, seed: string, queue: seq<string>, visited: set<string>) {
    forall s :: seed in s && Closed(g, s) ==> visited <= s && Elems(queue) <= s
  }

  /** The whole invariant of the crawl loop; `all` is the visiting order. */
  ghost predicate LoopState(g: LinkMap, seed: string, path: string, excluded: seq<string>,
                            queue: seq<string>, visited: set<string>, order: seq<string>,
                            bioUrls: seq<string>, all: seq<string>)
  {
    && CrawlState(g, seed, path, excluded, queue, visited, order, bioUrls)
    && Reached(g, seed, queue, visited)
    && BfsState(g, seed, queue, visited, order, all)
  }

  lemma LoopStart(g: LinkMap, seed: string, path: string, excluded: seq<string>)
    ensures LoopState(g, seed, path, excluded, [seed], {}, [], [], Bfs(g, seed, [seed], {}))
  {
    BfsStart(g, seed);
  }

  /** Dropping a visited head keeps the loop invariant. */
  lemma LoopSkip(g: LinkMap, seed: string, path: string, excluded: seq<string>,
                 queue: seq<string>, visited: set<string>, order: seq<string>,
                 bioUrls: seq<string>, all: seq<string>)
    requires LoopState(g, seed, path, excluded, queue, visited, order, bioUrls, all)
    requires queue != [] && queue[0] in visited
    ensures LoopState(g, seed, path, excluded, queue[1..], visited, order, bioUrls, all)
  {
    SkipStep(g, seed, path, excluded, queue, visited, order, bioUrls);
    BfsSkip(g, seed, queue, visited, order, all);
    ReachStep(g, seed, queue, visited, Links(g, queue[0]), visited);
  }

  /** Visiting a new head keeps the loop invariant and leaves fewer URLs unvisited. */
  lemma LoopVisit(g: LinkMap, seed: string, path: string, excluded: seq<string>,
                  queue: seq<string>, visited: set<string>, order: seq<string>,
                  bioUrls: seq<string>, all: seq<string>, newLinks: seq<string>)
    requires LoopState(g, seed, path, excluded, queue, visited, order, bioUrls, all)
    requires queue != [] && queue[0] !in visited && newLinks == Links(g, queue[0])
    ensures var c := queue[0];
            LoopState(g, seed, path, excluded, queue[1..] + newLinks, visited + {c}, order + [c],
                      if IsTarget(c, path, excluded) then bioUrls + [c] else bioUrls, all)
    ensures Unvisited(g, seed, visited + {queue[0]}) < Unvisited(g, seed, visited)
  {
    VisitStep(g, seed, path, excluded, queue, visited, order, bioUrls);
    BfsVisit(g, seed, queue, visited, order, all, queue[1..] + newLinks);
    ReachStep(g, seed, queue, visited, newLinks, visited + {queue[0]});
    assert queue[0] in Unvisited(g, seed, visited);
  }

  /** With the queue empty, the loop invariant gives every postcondition of the crawl. */
  lemma LoopDone(g: LinkMap, seed: string, path: string, excluded: seq<string>,
                 visited: set<string>, order: seq<string>, bioUrls: seq<string>, all: seq<string>)
    requires LoopState(g, seed, path, excluded, [], visited, order, bioUrls, all)
    ensures order == all
    ensures order != [] && order[0] == seed && seed in visited
    ensures NoDup(order) && Elems(order) == visited
    ensures bioUrls == Targets(order, path, excluded)
    ensures NoDup(bioUrls) && Elems(bioUrls) == set u | u in visited && IsTarget(u, path, excluded)
    ensures Closed(g, visited)
    ensures forall s :: seed in s && Closed(g, s) ==> visited <= s
  {
    BfsDone(g, seed, visited, order, all);
    CrawlDone(g, seed, path, excluded, visited, order, bioUrls);
  }

  /** What the loop state gives once the queue is empty. */
  lemma CrawlDone(g: LinkMap, seed: string, path: string, excluded: seq<string>,
                  visited: set<string>, order: seq<string>, bioUrls: seq<string>)
    requires CrawlState(g, seed, path, excluded, [], visited, order, bioUrls)
    ensures order != [] && order[0] == seed && seed in visited
    ensures NoDup(bioUrls) && Elems(bioUrls) == set u | u in visited && IsTarget(u, path, excluded)
    ensures Closed(g, visited)
  {
    TargetsNoDup(order, path, excluded);
  }

  /** Every closed set holding the seed holds what the loop holds next. */
  lemma ReachStep(g: LinkMap, seed: string, queue: seq<string>, visited: set<string>,
                  newLinks: seq<string>, visited': set<string>)
    requires queue != []
    requires forall s :: seed in s && Closed(g, s) ==> visited <= s && Elems(queue) <= s
    requires newLinks == Links(g, queue[0]) && visited' <= visited + {queue[0]}
    ensures queue[0] in visited ==>
              forall s :: seed in s && Closed(g, s) ==> visited' <= s && Elems(queue[1..]) <= s
    ensures forall s :: seed in s && Closed(g, s) ==> visited' <= s && Elems(queue[1..] + newLinks) <= s
  {
    forall s | seed in s && Closed(g, s) ensures visited' <= s && Elems(queue[1..] + newLinks) <= s {
      assert queue[0] in Elems(queue);
      forall x | x in Elems(queue[1..] + newLinks) ensures x in s {
        var k :| 0 <= k < |queue[1..] + newLinks| && (queue[1..] + newLinks)[k] == x;
        if k < |queue| - 1 {
          assert queue[k + 1] == x;
        } else {
          assert newLinks[k - (|queue| - 1)] == x;
        }
      }
    }
    forall s | seed in s && Closed(g, s) ensures visited' <= s && Elems(queue[1..]) <= s {
      forall x | x in Elems(queue[1..]) ensures x in s {
        var k :| 0 <= k < |queue[1..]| && queue[1..][k] == x;
        assert queue[k + 1] == x;
      }
    }
  }

  /** Targets are kept without repetition. */
  lemma {:induction false} TargetsNoDup(order: seq<string>, path: string, excluded: seq<string>)
    requires NoDup(order)
    ensures NoDup(Targets(order, path, excluded))
    ensures Elems(Targets(order, path, excluded)) == set u | u in order && IsTarget(u, path, excluded)
  {
    if order != [] {
      var n := |order| - 1;
      var pre, c := order[..n], order[n];
      assert order == pre + [c];
      assert NoDup(pre) by {
        forall i, j | 0 <= i < j < |pre| ensures pre[i] != pre[j] {
          assert pre[i] == order[i] && pre[j] == order[j];
        }
      }
      TargetsNoDup(pre, path, excluded);
      assert c !in pre by {
        forall i | 0 <= i < |pre| ensures pre[i] != c {
          assert pre[i] == order[i];
        }
      }
      assert (set u | u in order && IsTarget(u, path, excluded))
             == (set u | u in pre && IsTarget(u, path, excluded))
                + (if IsTarget(c, path, excluded) then {c} else {});
      var t := Targets(pre, path, excluded);
      assert c !in Elems(t);
      if IsTarget(c, path, excluded) {
        assert Targets(order, path, excluded) == t + [c];
        assert Elems(t + [c]) == Elems(t) + {c};
      }
    }
  }

  // ------------------------------------------------------------ variants

  /** v3/Web_scrapping.py, Web_scrapping_v2.py and Web_scrapping.py skip both markers. */
  const DefaultExclusions: seq<string> := ["init=", "default"]

  /** full_project.py skips only `init=`. */
  const InitExclusions: seq<string> := ["init="]

  lemma DefaultExclusionsMean(u: string, path: string)
    ensures IsTarget(u, path, DefaultExclusions) <==>
            Contains(u, path) && !Contains(u, "init=") && !Contains(u, "default")
  {
    assert DefaultExclusions[0] == "init=" && DefaultExclusions[1] == "default";
  }

  lemma InitExclusionsMean(u: string, path: string)
    ensures IsTarget(u, path, InitExclusions) <==> Contains(u, path) && !Contains(u, "init=")
  {
    assert InitExclusions[0] == "init=";
  }
}
