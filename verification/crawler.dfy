/**
 * The crawl of `crawl_docs` in api-crawler/crawler.py (lines 152-220): a
 * frontier `to_visit`, a set `visited`, a page budget, and one output
 * section per page that has both a title and content.
 *
 * The site is an oracle: a map from address to what fetching and parsing
 * that address gives. `urljoin` is a parameter, the clock is a parameter,
 * and the output file is the string the loop writes.
 */
module Crawler {
  import opened Options
  import opened Strings
  import opened LineBreaks
  import opened Page

  /** The configuration of lines 22-28 that the crawl reads. */
  datatype Config = Config(start: string, linksList: seq<string>, maxPages: Option<int>)

  /** What the site gives for one address: whether `get_page_content`
      raises, what it returns otherwise, whether the second fetch of line
      205 raises, and the `href` of every anchor that has one. */
  datatype Response = Response(fails: bool, result: PageResult, linksFail: bool, hrefs: seq<string>)

  type Site = map<string, Response>

  /** What fetching an address gives: the site's response for a known
      address; an address the site does not know is taken to make the fetch
      raise. */
  function Fetch(site: Site, url: string): (r: Response)
    ensures url in site ==> r == site[url]
    ensures url !in site ==> r.fails && r.result == PageResult(None, None) && r.linksFail && r.hrefs == []
  {
    if url in site then site[url] else Response(true, PageResult(None, None), true, [])
  }

  /** `CONFIG["LINKS_LIST"]` is truthy. */
  predicate Closed(cfg: Config) {
    |cfg.linksList| > 0
  }

  /** The first frontier (lines 169-172). */
  function Seeds(cfg: Config, resolve: (string, string) -> string): set<string>
  {
    if Closed(cfg) then set l | l in cfg.linksList :: resolve(cfg.start, l) else {cfg.start}
  }

  /** The test of lines 209-211 on a discovered address, apart from the
      visited check. */
  predicate Admissible(start: string, next: string) {
    StartsWith(next, start) && Contains(next, "/docs/")
  }

  // ---------------------------------------------------------------------
  // The output file.
  // ---------------------------------------------------------------------

  /** `"=" * 80`. */
  function Rule(): (r: string)
    ensures |r| == 80 && forall i | 0 <= i < |r| :: r[i] == '='
    ensures '\n' !in r
  {
    Repeat('=', 80)
  }

  /** Lines 178-181: when and from where the pages were crawled. */
  function FileHeader(timestamp: string, cfg: Config): string
  {
    ("Documentation crawled on: " + timestamp) + "\n" +
    ("Source: " + (if Closed(cfg) then "LINKS_LIST" else cfg.start)) + "\n" +
    Rule() + "\n\n"
  }

  /** Lines 195-200: the section of one page. */
  function Section(title: string, url: string, content: string): string
  {
    "\n" + Rule() + "\n" + ("PAGE: " + title) + "\n" + ("URL: " + url) + "\n" +
    Rule() + "\n\n" + (content + "\n\n")
  }

  /** The three fields of a section. */
  datatype Fields = Fields(title: string, url: string, content: string)

  /** Reads a section back: a blank line, a rule, the `PAGE: ` and `URL: `
      lines, a rule, a blank line, and the content followed by two line
      feeds. */
  function ParseSection(s: string): Option<Fields>
  {
    var ps := Split(s);
    if |ps| >= 7 && ps[0] == "" && ps[1] == Rule() && StartsWith(ps[2], "PAGE: ") &&
       StartsWith(ps[3], "URL: ") && ps[4] == Rule() && ps[5] == "" then
      var body := Join(ps[6..], "\n");
      if EndsWith(body, "\n\n") then Some(Fields(ps[2][6..], ps[3][5..], body[..|body| - 2]))
      else None
    else None
  }

  /** The six header lines of a section split off as six lines, for any
      single-line rule, page line and address line. */
  lemma {:induction false} SplitHeader(r: string, p: string, u: string, rest: string)
    requires '\n' !in r && '\n' !in p && '\n' !in u
    ensures Split("\n" + r + "\n" + p + "\n" + u + "\n" + r + "\n\n" + rest)
            == ["", r, p, u, r, ""] + Split(rest)
  {
    var x4 := "" + "\n" + rest;
    var x3 := r + "\n" + x4;
    var x2 := u + "\n" + x3;
    var x1 := p + "\n" + x2;
    var x0 := r + "\n" + x1;
    assert "\n" + r + "\n" + p + "\n" + u + "\n" + r + "\n\n" + rest == "" + "\n" + x0;
    SplitCons("", x0);
    SplitCons(r, x1);
    SplitCons(p, x2);
    SplitCons(u, x3);
    SplitCons(r, x4);
    SplitCons("", rest);
  }

  /** A section gives back its title, address and content, whatever the
      content, as long as title and address are single lines. */
  lemma {:induction false} SectionRoundTrip(title: string, url: string, content: string)
    requires '\n' !in title && '\n' !in url
    ensures ParseSection(Section(title, url, content)) == Some(Fields(title, url, content))
  {
    var pageLine := "PAGE: " + title;
    var urlLine := "URL: " + url;
    var x5 := content + "\n\n";
    NoNewlineJoined("PAGE: ", title);
    NoNewlineJoined("URL: ", url);
    SplitHeader(Rule(), pageLine, urlLine, x5);
    var ps := Split(Section(title, url, content));
    assert ps == ["", Rule(), pageLine, urlLine, Rule(), ""] + Split(x5);
    assert ps[6..] == Split(x5);
    JoinSplit(x5);
    assert pageLine[6..] == title;
    assert urlLine[5..] == url;
    assert x5[..|x5| - 2] == content;
  }

  /** Three single lines and a blank line split off as four lines. */
  lemma {:induction false} SplitThreeLines(a: string, b: string, r: string, rest: string)
    requires '\n' !in a && '\n' !in b && '\n' !in r
    ensures Split(a + "\n" + b + "\n" + r + "\n\n" + rest) == [a, b, r, ""] + Split(rest)
  {
    var x3 := "" + "\n" + rest;
    var x2 := r + "\n" + x3;
    var x1 := b + "\n" + x2;
    assert a + "\n" + b + "\n" + r + "\n\n" + rest == a + "\n" + x1;
    SplitCons(a, x1);
    SplitCons(b, x2);
    SplitCons(r, x3);
    SplitCons("", rest);
  }

  /** The file header reads back as its four lines: the timestamp line, the
      source line, the rule and a blank line, followed by the lines of
      whatever is written after it. */
  lemma {:induction false} FileHeaderLines(timestamp: string, cfg: Config, rest: string)
    requires '\n' !in timestamp && (Closed(cfg) || '\n' !in cfg.start)
    ensures Split(FileHeader(timestamp, cfg) + rest) ==
      ["Documentation crawled on: " + timestamp,
       "Source: " + (if Closed(cfg) then "LINKS_LIST" else cfg.start), Rule(), ""] + Split(rest)
  {
    var source := if Closed(cfg) then "LINKS_LIST" else cfg.start;
    NoNewlineJoined("Documentation crawled on: ", timestamp);
    NoNewlineJoined("Source: ", source);
    SplitThreeLines("Documentation crawled on: " + timestamp, "Source: " + source, Rule(), rest);
  }

  lemma {:induction false} NoNewlineJoined(a: string, b: string)
    requires '\n' !in a && '\n' !in b
    ensures '\n' !in a + b
  {
  }

  /** Whether processing `url` writes a section: the page does not raise
      and both its title and its content are non-empty (line 194). */
  predicate Written(site: Site, url: string) {
    var resp := Fetch(site, url);
    var r := resp.result;
    !resp.fails && r.title.Some? && r.title.value != "" && r.content.Some? && r.content.value != ""
  }

  /** The section that processing `url` writes, or nothing. */
  function SectionOf(site: Site, url: string): (s: string)
    ensures !Written(site, url) <==> s == ""
  {
    if Written(site, url) then
      var r := Fetch(site, url).result;
      Section(r.title.value, url, r.content.value)
    else ""
  }

  /** Everything written for the addresses processed, in order. */
  function Output(site: Site, order: seq<string>): string
  {
    if |order| == 0 then ""
    else Output(site, order[..|order| - 1]) + SectionOf(site, order[|order| - 1])
  }

  /** How many of the processed addresses wrote a section. */
  function Pages(site: Site, order: seq<string>): (n: nat)
    ensures n <= |order|
  {
    if |order| == 0 then 0
    else Pages(site, order[..|order| - 1]) + (if Written(site, order[|order| - 1]) then 1 else 0)
  }

  /** Every address the crawl can ever reach: the seeds and every link of
      every page the site knows. */
  function Universe(cfg: Config, site: Site, resolve: (string, string) -> string): set<string>
  {
    Seeds(cfg, resolve) + set u, h | u in site && h in site[u].hrefs :: resolve(u, h)
  }

  /** The links of lines 206-212 that enter the frontier. */
  function Found(start: string, visited: set<string>, url: string, hrefs: seq<string>,
                 resolve: (string, string) -> string): set<string>
  {
    set h | h in hrefs && Admissible(start, resolve(url, h)) && resolve(url, h) !in visited :: resolve(url, h)
  }

  /** No address occurs twice. */
  predicate Distinct(order: seq<string>) {
    forall i, j | 0 <= i < j < |order| :: order[i] != order[j]
  }

  function Budget(m: int): nat
  {
    if m < 0 then 0 else m
  }

  // ---------------------------------------------------------------------
  // One iteration as a state transition.
  // ---------------------------------------------------------------------

  /** The loop's variables: the frontier, the visited set, the addresses in
      the order they were processed, and the page counter. */
  datatype State = State(toVisit: set<string>, visited: set<string>, order: seq<string>, processed: nat)

  function Init(cfg: Config, resolve: (string, string) -> string): State
  {
    State(Seeds(cfg, resolve), {}, [], 0)
  }

  /** The loop condition of line 183. */
  predicate Running(cfg: Config, st: State) {
    st.toVisit != {} && (cfg.maxPages.None? || st.processed < cfg.maxPages.value)
  }

  /** The links that processing `url` adds to the frontier: none in
      `LINKS_LIST` mode or when a fetch raises. */
  function NewLinks(cfg: Config, site: Site, resolve: (string, string) -> string,
                    visited: set<string>, url: string): set<string>
  {
    var resp := Fetch(site, url);
    if !resp.fails && !Closed(cfg) && !resp.linksFail
    then Found(cfg.start, visited, url, resp.hrefs, resolve) else {}
  }

  /** Lines 184-212 for the popped address `url`. */
  function Visit(cfg: Config, site: Site, resolve: (string, string) -> string, st: State, url: string): State
    requires url in st.toVisit
  {
    var visited := st.visited + {url};
    State((st.toVisit - {url}) + NewLinks(cfg, site, resolve, visited, url), visited, st.order + [url],
      st.processed + (if Written(site, url) then 1 else 0))
  }

  /** The frontier and the visited set never meet, and every address is
      processed once. */
  predicate Bookkeeping(st: State) {
    && st.toVisit !! st.visited && Distinct(st.order)
    && (forall u | u in st.visited :: u in st.order)
    && (forall i | 0 <= i < |st.order| :: st.order[i] in st.visited)
  }

  /** The counter counts the processed addresses that wrote a section. */
  predicate Counted(site: Site, st: State) {
    st.processed == Pages(site, st.order)
  }

  predicate WithinBudget(cfg: Config, st: State) {
    cfg.maxPages.Some? ==> st.processed <= Budget(cfg.maxPages.value)
  }

  /** What can enter the frontier: only seeds when `LINKS_LIST` is given,
      otherwise the start address and admissible links. */
  predicate Frontier(cfg: Config, resolve: (string, string) -> string, st: State) {
    && (Closed(cfg) ==> st.toVisit + st.visited <= Seeds(cfg, resolve))
    && (!Closed(cfg) ==> forall u | u in st.toVisit + st.visited :: u == cfg.start || Admissible(cfg.start, u))
  }

  predicate Bounded(universe: set<string>, st: State) {
    st.toVisit <= universe && st.visited <= universe
  }

  /** Everything the loop keeps. */
  predicate Invariant(cfg: Config, site: Site, resolve: (string, string) -> string, st: State) {
    && Bookkeeping(st) && Counted(site, st) && WithinBudget(cfg, st)
    && Frontier(cfg, resolve, st) && Bounded(Universe(cfg, site, resolve), st)
  }

  lemma {:induction false} InitInvariant(cfg: Config, site: Site, resolve: (string, string) -> string)
    ensures Invariant(cfg, site, resolve, Init(cfg, resolve))
  {
  }

  /** One iteration keeps everything the loop keeps. */
  lemma {:induction false} VisitKeeps(cfg: Config, site: Site, resolve: (string, string) -> string, st: State, url: string)
    requires url in st.toVisit && Running(cfg, st) && Invariant(cfg, site, resolve, st)
    ensures Invariant(cfg, site, resolve, Visit(cfg, site, resolve, st, url))
  {
    VisitBookkeeping(cfg, site, resolve, st, url);
    VisitCounted(cfg, site, resolve, st, url);
    VisitWithinBudget(cfg, site, resolve, st, url);
    VisitFrontier(cfg, site, resolve, st, url);
    VisitBounded(cfg, site, resolve, st, url);
  }

  lemma {:induction false} VisitBookkeeping(cfg: Config, site: Site, resolve: (string, string) -> string, st: State, url: string)
    requires url in st.toVisit && Bookkeeping(st)
    ensures Bookkeeping(Visit(cfg, site, resolve, st, url))
    ensures var next := Visit(cfg, site, resolve, st, url);
      st.visited < next.visited && next.order[..|st.order|] == st.order
  {
    var next := Visit(cfg, site, resolve, st, url);
    assert url !in st.order;
    forall i, j | 0 <= i < j < |next.order| ensures next.order[i] != next.order[j] {
      if j == |st.order| {
        assert next.order[i] == st.order[i];
      } else {
        assert next.order[i] == st.order[i] && next.order[j] == st.order[j];
      }
    }
  }

  lemma {:induction false} VisitCounted(cfg: Config, site: Site, resolve: (string, string) -> string, st: State, url: string)
    requires url in st.toVisit && Counted(site, st)
    ensures Counted(site, Visit(cfg, site, resolve, st, url))
  {
    assert (st.order + [url])[..|st.order|] == st.order;
  }

  lemma {:induction false} VisitWithinBudget(cfg: Config, site: Site, resolve: (string, string) -> string, st: State, url: string)
    requires url in st.toVisit && Running(cfg, st) && WithinBudget(cfg, st)
    ensures WithinBudget(cfg, Visit(cfg, site, resolve, st, url))
  {
  }

  lemma {:induction false} VisitFrontier(cfg: Config, site: Site, resolve: (string, string) -> string, st: State, url: string)
    requires url in st.toVisit && Frontier(cfg, resolve, st)
    ensures Frontier(cfg, resolve, Visit(cfg, site, resolve, st, url))
  {
    var resp := Fetch(site, url);
    var visited := st.visited + {url};
    if !resp.fails && !Closed(cfg) && !resp.linksFail {
      forall u | u in Found(cfg.start, visited, url, resp.hrefs, resolve)
        ensures Admissible(cfg.start, u)
      {
        var h :| h in resp.hrefs && Admissible(cfg.start, resolve(url, h)) && u == resolve(url, h);
      }
    }
  }

  lemma {:induction false} VisitBounded(cfg: Config, site: Site, resolve: (string, string) -> string, st: State, url: string)
    requires url in st.toVisit && Bounded(Universe(cfg, site, resolve), st)
    ensures Bounded(Universe(cfg, site, resolve), Visit(cfg, site, resolve, st, url))
  {
    var resp := Fetch(site, url);
    if !resp.fails && !Closed(cfg) && !resp.linksFail {
      FoundInUniverse(cfg, site, resolve, st.visited + {url}, url);
    }
  }

  // ---------------------------------------------------------------------
  // The loop.
  // ---------------------------------------------------------------------

  /** `crawl_docs` from the opening of the output file on: the addresses
      processed (`order`), the final `visited` and `to_visit`, the page
      counter, and the text of the output file. */
  method Crawl(cfg: Config, site: Site, resolve: (string, string) -> string, timestamp: string)
    returns (out: string, order: seq<string>, visited: set<string>, toVisit: set<string>, processed: nat)
    ensures out == FileHeader(timestamp, cfg) + Output(site, order)
    ensures processed == Pages(site, order)
    ensures Distinct(order) && forall u :: u in visited <==> u in order
    ensures toVisit !! visited
    ensures toVisit == {} || (cfg.maxPages.Some? && processed >= cfg.maxPages.value)
    ensures cfg.maxPages.Some? ==> processed <= Budget(cfg.maxPages.value)
    ensures Closed(cfg) ==> visited <= Seeds(cfg, resolve) && |order| <= |cfg.linksList|
    ensures !Closed(cfg) ==> forall u | u in visited :: u == cfg.start || Admissible(cfg.start, u)
  {
    var universe := Universe(cfg, site, resolve);
    InitInvariant(cfg, site, resolve);
    toVisit := Seeds(cfg, resolve);
    visited := {};
    order := [];
    processed := 0;
    var written := "";
    while toVisit != {} && (cfg.maxPages.None? || processed < cfg.maxPages.value)
      invariant Invariant(cfg, site, resolve, State(toVisit, visited, order, processed))
      invariant written == Output(site, order)
      decreases |universe - visited|
    {
      var st := State(toVisit, visited, order, processed);
      var url :| url in toVisit;
      // The `continue` of lines 185-186: the frontier never holds a
      // visited address.
      assert url !in visited;
      Progress(universe, visited, url);
      OutputSnoc(site, order, url);
      var section;
      toVisit, visited, order, processed, section := Iteration(cfg, site, resolve, toVisit, visited, order, processed, url);
      written := written + section;
    }
    out := FileHeader(timestamp, cfg) + written;
    if Closed(cfg) {
      ClosedBound(cfg, resolve, order, visited);
    }
  }

  /** Lines 184 and 189-212 for the popped address `url`: the loop's
      variables afterwards are the state `Visit` computes, and the text
      written is the section of `url`, if any. The popped address is never
      queued again, and a pass of the loop while it runs keeps everything
      the loop keeps, marks `url` visited for good and appends it to the
      processed addresses. */
  method Iteration(cfg: Config, site: Site, resolve: (string, string) -> string, toVisit: set<string>,
                   visited: set<string>, order: seq<string>, processed: nat, url: string)
    returns (toVisit': set<string>, visited': set<string>, order': seq<string>, processed': nat, section: string)
    requires url in toVisit
    ensures State(toVisit', visited', order', processed') ==
      Visit(cfg, site, resolve, State(toVisit, visited, order, processed), url)
    ensures section == SectionOf(site, url)
    ensures url in visited' && url !in toVisit'
    ensures var st := State(toVisit, visited, order, processed);
      Running(cfg, st) && Invariant(cfg, site, resolve, st) ==>
        && Invariant(cfg, site, resolve, State(toVisit', visited', order', processed'))
        && visited < visited' && order' == order + [url] && toVisit' !! visited'
        && (section == "" <==> !Written(site, url))
        && processed' == Pages(site, order')
  {
    ghost var st := State(toVisit, visited, order, processed);
    if Running(cfg, st) && Invariant(cfg, site, resolve, st) {
      VisitKeeps(cfg, site, resolve, st, url);
    }
    var rest := toVisit - {url};
    visited' := visited + {url};
    order' := order + [url];
    var counted;
    section, counted := WritePage(site, url);
    processed' := if counted then processed + 1 else processed;
    var found := FollowLinks(cfg, site, resolve, visited', url);
    toVisit' := rest + found;
  }

  /** In `LINKS_LIST` mode at most one iteration per entry. */
  lemma {:induction false} ClosedBound(cfg: Config, resolve: (string, string) -> string, order: seq<string>, visited: set<string>)
    requires Closed(cfg) && visited <= Seeds(cfg, resolve)
    requires Distinct(order) && forall u :: u in visited <==> u in order
    ensures |order| <= |cfg.linksList|
  {
    SeedsBound(cfg, resolve);
    DistinctCard(order, visited);
    SubsetCard(visited, Seeds(cfg, resolve));
  }

  lemma {:induction false} SubsetCard(a: set<string>, b: set<string>)
    requires a <= b
    ensures |a| <= |b|
    decreases |a|
  {
    if a != {} {
      var x :| x in a;
      SubsetCard(a - {x}, b - {x});
    }
  }

  /** Lines 203-212 for one address: the links it adds to the frontier. */
  method FollowLinks(cfg: Config, site: Site, resolve: (string, string) -> string,
                     visited: set<string>, url: string) returns (found: set<string>)
    ensures var resp := Fetch(site, url);
      found == if !resp.fails && !Closed(cfg) && !resp.linksFail
        then Found(cfg.start, visited, url, resp.hrefs, resolve) else {}
    ensures found == NewLinks(cfg, site, resolve, visited, url)
  {
    var resp := Fetch(site, url);
    found := {};
    if !resp.fails && !Closed(cfg) && !resp.linksFail {
      found := Discover(cfg.start, visited, url, resp.hrefs, resolve);
    }
  }

  /** Lines 192-201 for one address: the section written, if any, and
      whether the counter moves. */
  method WritePage(site: Site, url: string) returns (section: string, counted: bool)
    ensures section == SectionOf(site, url) && counted == Written(site, url)
    ensures counted <==> section != ""
  {
    var resp := Fetch(site, url);
    section, counted := "", false;
    if !resp.fails {
      var r := resp.result;
      if r.title.Some? && r.title.value != "" && r.content.Some? && r.content.value != "" {
        section := Section(r.title.value, url, r.content.value);
        counted := true;
      }
    }
  }

  lemma {:induction false} OutputSnoc(site: Site, order: seq<string>, url: string)
    ensures Output(site, order + [url]) == Output(site, order) + SectionOf(site, url)
  {
    assert (order + [url])[..|order|] == order;
  }

  /** The anchor loop of lines 206-212. */
  method Discover(start: string, visited: set<string>, url: string, hrefs: seq<string>,
                  resolve: (string, string) -> string) returns (found: set<string>)
    ensures found == Found(start, visited, url, hrefs, resolve)
    ensures found !! visited
    ensures forall u | u in found :: Admissible(start, u)
  {
    found := {};
    var i := 0;
    while i < |hrefs|
      invariant 0 <= i <= |hrefs|
      invariant found == Found(start, visited, url, hrefs[..i], resolve)
    {
      var next := resolve(url, hrefs[i]);
      FoundSnoc(start, visited, url, hrefs, i, resolve);
      if StartsWith(next, start) && next !in visited && Contains(next, "/docs/") {
        found := found + {next};
      }
      i := i + 1;
    }
    assert hrefs[..i] == hrefs;
  }

  // ---------------------------------------------------------------------
  // Helper facts of the loop.
  // ---------------------------------------------------------------------

  lemma {:induction false} FoundSnoc(start: string, visited: set<string>, url: string, hrefs: seq<string>, i: int,
                  resolve: (string, string) -> string)
    requires 0 <= i < |hrefs|
    ensures var next := resolve(url, hrefs[i]);
      Found(start, visited, url, hrefs[..i + 1], resolve) ==
      Found(start, visited, url, hrefs[..i], resolve) +
        (if Admissible(start, next) && next !in visited then {next} else {})
  {
    var a := Found(start, visited, url, hrefs[..i + 1], resolve);
    var b := Found(start, visited, url, hrefs[..i], resolve);
    var next := resolve(url, hrefs[i]);
    assert hrefs[..i + 1] == hrefs[..i] + [hrefs[i]];
    forall u | u in a ensures u in b || (u == next && Admissible(start, next) && next !in visited) {
      var h :| h in hrefs[..i + 1] && Admissible(start, resolve(url, h)) && resolve(url, h) !in visited &&
        u == resolve(url, h);
      if h !in hrefs[..i] {
        assert h == hrefs[i];
      }
    }
  }

  /** Processing an unvisited address of the universe shrinks the part of
      the universe still unvisited. */
  lemma {:induction false} Progress(universe: set<string>, visited: set<string>, url: string)
    requires url in universe && url !in visited
    ensures |universe - (visited + {url})| < |universe - visited|
  {
    assert universe - (visited + {url}) == (universe - visited) - {url};
  }

  /** The links found on a known page belong to the universe. */
  lemma {:induction false} FoundInUniverse(cfg: Config, site: Site, resolve: (string, string) -> string,
                        visited: set<string>, url: string)
    requires url in site
    ensures Found(cfg.start, visited, url, site[url].hrefs, resolve) <= Universe(cfg, site, resolve)
  {
    forall u | u in Found(cfg.start, visited, url, site[url].hrefs, resolve)
      ensures u in Universe(cfg, site, resolve)
    {
      var h :| h in site[url].hrefs && u == resolve(url, h);
    }
  }

  /** There are no more seeds than entries in `LINKS_LIST`. */
  lemma {:induction false} SeedsBound(cfg: Config, resolve: (string, string) -> string)
    requires Closed(cfg)
    ensures |Seeds(cfg, resolve)| <= |cfg.linksList|
  {
    ImageBound(cfg.linksList, cfg.start, resolve);
  }

  lemma {:induction false} ImageBound(ls: seq<string>, base: string, resolve: (string, string) -> string)
    ensures |set l | l in ls :: resolve(base, l)| <= |ls|
  {
    if |ls| > 0 {
      var init := ls[..|ls| - 1];
      ImageBound(init, base, resolve);
      assert (set l | l in ls :: resolve(base, l)) ==
        (set l | l in init :: resolve(base, l)) + {resolve(base, ls[|ls| - 1])} by {
        assert ls == init + [ls[|ls| - 1]];
      }
    }
  }

  /** A duplicate-free sequence is as long as the set of its elements. */
  lemma {:induction false} DistinctCard(order: seq<string>, s: set<string>)
    requires Distinct(order) && forall u :: u in s <==> u in order
    ensures |order| == |s|
  {
    if |order| > 0 {
      var init := order[..|order| - 1];
      var last := order[|order| - 1];
      assert last !in init;
      DistinctCard(init, s - {last});
    }
  }
}
