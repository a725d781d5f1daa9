/** `scan_url` as functions of the visited set: what a scan reports, which
    URLs it leaves visited and which URLs it requests, in order. The crawl
    recurses through three helpers that follow the loops of the source: the
    lines of a page (ScanLines), one line (ScanLine) and the paths found on
    one line (ScanPaths). */
module ScanModel {
  import opened Text
  import opened Paths

  /** What `session.get(url)` returned: the status code and the text. */
  datatype Response = Response(status: int, text: string)

  /** What a crawl runs against. `fetch` holds the response for every URL
      whose request completes; a URL missing from it is one whose request
      raises. `classify` is the verdict `ai_analyze` gives for a stripped
      line, its URL and its line number; its own failure message is one of
      the strings it may return. */
  datatype Env = Env(
    fetch: map<string, Response>,
    classify: (string, string, nat) -> string,
    lib: UrlLib)

  /** The outcome of scanning: the findings in order, the visited set
      afterwards, and the URLs requested, in order. */
  datatype Run = Run(findings: seq<string>, visited: set<string>, fetched: seq<string>)

  /** `b` run after `a`, from the visited set `a` left behind. */
  function Then(a: Run, b: Run): Run {
    Run(a.findings + b.findings, b.visited, a.fetched + b.fetched)
  }

  /** The request for `url` completes with status 200 and a text that is not
      blank, so its lines are read. */
  predicate Readable(env: Env, url: string) {
    url in env.fetch && env.fetch[url].status == 200 && !IsBlank(env.fetch[url].text)
  }

  /** The record kept for a line judged to hold a secret. */
  function FindingText(url: string, lineNo: nat, text: string, verdict: string): string {
    "[" + url + ":" + NatToString(lineNo) + "] " + text + "\n\U{2192} " + verdict + "\n"
  }

  /** What a non-blank line contributes by itself: one finding when the
      verdict on its stripped text contains "Yes", none otherwise. */
  function LineFindings(env: Env, url: string, lineNo: nat, line: string): (r: seq<string>)
    ensures |r| <= 1
  {
    var text := Strip(line);
    var verdict := env.classify(text, url, lineNo);
    if Contains(verdict, "Yes") then [FindingText(url, lineNo, text, verdict)] else []
  }

  /** `scan_url(url)` with the visited set `visited`. The termination
      measure is the set of URLs with a response that are not yet visited:
      a page is only read after its URL joins the visited set. */
  function Scan(env: Env, visited: set<string>, url: string): (r: Run)
    ensures visited + {url} <= r.visited
    decreases env.fetch.Keys - visited, 0, 0
  {
    if url in visited then Run([], visited, [])
    else if !Readable(env, url) then Run([], visited + {url}, [url])
    else
      var page := ScanLines(env, visited + {url}, url, SplitLines(env.fetch[url].text), 1);
      Run(page.findings, page.visited, [url] + page.fetched)
  }

  /** The inner loop: scan each path found on a line, in order. */
  function ScanPaths(env: Env, visited: set<string>, paths: seq<string>): (r: Run)
    ensures visited <= r.visited
    decreases env.fetch.Keys - visited, 1, |paths|
  {
    if paths == [] then Run([], visited, [])
    else
      var first := Scan(env, visited, paths[0]);
      Then(first, ScanPaths(env, first.visited, paths[1..]))
  }

  /** One line numbered `lineNo`: a blank line is skipped; otherwise its own
      finding, then the full scans of the paths it names. */
  function ScanLine(env: Env, visited: set<string>, url: string, line: string, lineNo: nat): (r: Run)
    ensures visited <= r.visited
    decreases env.fetch.Keys - visited, 2, 0
  {
    if IsBlank(line) then Run([], visited, [])
    else
      var sub := ScanPaths(env, visited, ExtractPaths(env.lib, line, url));
      Run(LineFindings(env, url, lineNo, line) + sub.findings, sub.visited, sub.fetched)
  }

  /** The outer loop: the lines of the page at `url`, the first of them
      numbered `lineNo`. */
  function ScanLines(env: Env, visited: set<string>, url: string, lines: seq<string>, lineNo: nat): (r: Run)
    ensures visited <= r.visited
    decreases env.fetch.Keys - visited, 3, |lines|
  {
    if lines == [] then Run([], visited, [])
    else
      var first := ScanLine(env, visited, url, lines[0], lineNo);
      Then(first, ScanLines(env, first.visited, url, lines[1..], lineNo + 1))
  }

  // ------------------------------------------------------ at-most-once fetch

  predicate NoRepeats(s: seq<string>) {
    forall i, j | 0 <= i < j < |s| :: s[i] != s[j]
  }

  function Elems(s: seq<string>): set<string> {
    set u | u in s
  }

  /** `r` requested each URL at most once, none already visited before it,
      and its visited set is the old one plus exactly what it requested. */
  ghost predicate FetchesNew(visited: set<string>, r: Run) {
    && r.visited == visited + Elems(r.fetched)
    && NoRepeats(r.fetched)
    && (forall k | 0 <= k < |r.fetched| :: r.fetched[k] !in visited)
  }

  lemma FetchesNewThen(visited: set<string>, a: Run, b: Run)
    requires FetchesNew(visited, a) && FetchesNew(a.visited, b)
    ensures FetchesNew(visited, Then(a, b))
  {
    var f := a.fetched + b.fetched;
    forall i, j | 0 <= i < j < |f| ensures f[i] != f[j] {
      if j >= |a.fetched| && i < |a.fetched| {
        assert f[i] in a.visited;
      }
    }
    assert Elems(f) == Elems(a.fetched) + Elems(b.fetched);
  }

  lemma {:induction false} ScanFetchesNew(env: Env, visited: set<string>, url: string)
    ensures FetchesNew(visited, Scan(env, visited, url))
    decreases env.fetch.Keys - visited, 0, 0
  {
    if url !in visited && Readable(env, url) {
      var v := visited + {url};
      var page := ScanLines(env, v, url, SplitLines(env.fetch[url].text), 1);
      ScanLinesFetchesNew(env, v, url, SplitLines(env.fetch[url].text), 1);
      FetchesNewThen(visited, Run([], v, [url]), page);
    }
  }

  lemma {:induction false} ScanPathsFetchesNew(env: Env, visited: set<string>, paths: seq<string>)
    ensures FetchesNew(visited, ScanPaths(env, visited, paths))
    decreases env.fetch.Keys - visited, 1, |paths|
  {
    if paths != [] {
      var first := Scan(env, visited, paths[0]);
      ScanFetchesNew(env, visited, paths[0]);
      ScanPathsFetchesNew(env, first.visited, paths[1..]);
      FetchesNewThen(visited, first, ScanPaths(env, first.visited, paths[1..]));
    }
  }

  lemma {:induction false} ScanLineFetchesNew(env: Env, visited: set<string>, url: string, line: string, lineNo: nat)
    ensures FetchesNew(visited, ScanLine(env, visited, url, line, lineNo))
    decreases env.fetch.Keys - visited, 2, 0
  {
    if !IsBlank(line) {
      ScanPathsFetchesNew(env, visited, ExtractPaths(env.lib, line, url));
    }
  }

  lemma {:induction false} ScanLinesFetchesNew(env: Env, visited: set<string>, url: string, lines: seq<string>, lineNo: nat)
    ensures FetchesNew(visited, ScanLines(env, visited, url, lines, lineNo))
    decreases env.fetch.Keys - visited, 3, |lines|
  {
    if lines != [] {
      var first := ScanLine(env, visited, url, lines[0], lineNo);
      ScanLineFetchesNew(env, visited, url, lines[0], lineNo);
      ScanLinesFetchesNew(env, first.visited, url, lines[1..], lineNo + 1);
      FetchesNewThen(visited, first, ScanLines(env, first.visited, url, lines[1..], lineNo + 1));
    }
  }

  /** A URL not yet visited is requested first, and never again during its
      own scan, whatever its pages link to. */
  lemma ScanFetchesFirst(env: Env, visited: set<string>, url: string)
    requires url !in visited
    ensures var r := Scan(env, visited, url);
      r.fetched != [] && r.fetched[0] == url && url !in r.fetched[1..] && url in r.visited
  {
    var r := Scan(env, visited, url);
    ScanFetchesNew(env, visited, url);
  }

  /** The two ways a scan ends at once: a visited URL gives nothing and
      changes nothing; a request that raises, a status other than 200 or a
      blank text gives nothing, but the URL is marked visited and was
      requested. */
  lemma ScanShortCircuit(env: Env, visited: set<string>, url: string)
    ensures url in visited ==> Scan(env, visited, url) == Run([], visited, [])
    ensures url !in visited && !Readable(env, url) ==>
      Scan(env, visited, url) == Run([], visited + {url}, [url])
  {
  }

  // ------------------------------------------------------------- ordering

  lemma SeqAssoc4(a: seq<string>, b: seq<string>, c: seq<string>, d: seq<string>)
    ensures a + (b + (c + d)) == a + b + c + d
  {
  }

  lemma ThenAssoc(a: Run, b: Run, c: Run)
    ensures Then(a, Then(b, c)) == Then(Then(a, b), c)
  {
    assert a.findings + (b.findings + c.findings) == (a.findings + b.findings) + c.findings;
    assert a.fetched + (b.fetched + c.fetched) == (a.fetched + b.fetched) + c.fetched;
  }

  lemma ThenNothing(visited: set<string>, b: Run)
    ensures Then(Run([], visited, []), b) == b
  {
    assert [] + b.findings == b.findings && [] + b.fetched == b.fetched;
  }

  lemma ConsAppend(a: seq<string>, b: seq<string>)
    requires a != []
    ensures a + b != [] && (a + b)[0] == a[0] && (a + b)[1..] == a[1..] + b
  {
  }

  lemma ScanLinesCons(env: Env, visited: set<string>, url: string, lines: seq<string>, lineNo: nat)
    requires lines != []
    ensures var first := ScanLine(env, visited, url, lines[0], lineNo);
      ScanLines(env, visited, url, lines, lineNo)
        == Then(first, ScanLines(env, first.visited, url, lines[1..], lineNo + 1))
  {
  }

  lemma ScanPathsCons(env: Env, visited: set<string>, paths: seq<string>)
    requires paths != []
    ensures var first := Scan(env, visited, paths[0]);
      ScanPaths(env, visited, paths) == Then(first, ScanPaths(env, first.visited, paths[1..]))
  {
  }

  /** Lines are scanned in order and numbered consecutively: the lines `a`
      then `b` are `a` scanned first, then `b` from where `a` left off,
      numbered on from `lineNo + |a|`. */
  lemma {:induction false} ScanLinesAppend(env: Env, visited: set<string>, url: string,
                                           a: seq<string>, b: seq<string>, lineNo: nat)
    ensures var first := ScanLines(env, visited, url, a, lineNo);
      ScanLines(env, visited, url, a + b, lineNo)
        == Then(first, ScanLines(env, first.visited, url, b, lineNo + |a|))
    decreases |a|
  {
    if a == [] {
      assert a + b == b;
      ThenNothing(visited, ScanLines(env, visited, url, b, lineNo));
    } else {
      var line := ScanLine(env, visited, url, a[0], lineNo);
      ConsAppend(a, b);
      ScanLinesCons(env, visited, url, a + b, lineNo);
      ScanLinesCons(env, visited, url, a, lineNo);
      ScanLinesAppend(env, line.visited, url, a[1..], b, lineNo + 1);
      var mid := ScanLines(env, line.visited, url, a[1..], lineNo + 1);
      assert lineNo + 1 + |a[1..]| == lineNo + |a|;
      ThenAssoc(line, mid, ScanLines(env, mid.visited, url, b, lineNo + |a|));
    }
  }

  /** Line `k` of a list (counting from 0) is scanned with number
      `lineNo + k`, after every line before it and before every line after
      it. */
  lemma ScanLinesAt(env: Env, visited: set<string>, url: string, lines: seq<string>, lineNo: nat, k: nat)
    requires k < |lines|
    ensures var before := ScanLines(env, visited, url, lines[..k], lineNo);
      var here := ScanLine(env, before.visited, url, lines[k], lineNo + k);
      ScanLines(env, visited, url, lines, lineNo)
        == Then(Then(before, here), ScanLines(env, here.visited, url, lines[k + 1..], lineNo + k + 1))
  {
    var before := ScanLines(env, visited, url, lines[..k], lineNo);
    var here := ScanLine(env, before.visited, url, lines[k], lineNo + k);
    var tail := lines[k..];
    assert lines[..k] + tail == lines;
    ScanLinesAppend(env, visited, url, lines[..k], tail, lineNo);
    assert tail[0] == lines[k] && tail[1..] == lines[k + 1..];
    ScanLinesCons(env, before.visited, url, tail, lineNo + k);
    ThenAssoc(before, here, ScanLines(env, here.visited, url, lines[k + 1..], lineNo + k + 1));
  }

  /** The paths of a line are scanned in order: `a` then `b` is `a` in full,
      then `b` from the visited set `a` left. */
  lemma {:induction false} ScanPathsAppend(env: Env, visited: set<string>, a: seq<string>, b: seq<string>)
    ensures var first := ScanPaths(env, visited, a);
      ScanPaths(env, visited, a + b) == Then(first, ScanPaths(env, first.visited, b))
    decreases |a|
  {
    if a == [] {
      assert a + b == b;
      ThenNothing(visited, ScanPaths(env, visited, b));
    } else {
      var one := Scan(env, visited, a[0]);
      ConsAppend(a, b);
      ScanPathsCons(env, visited, a + b);
      ScanPathsCons(env, visited, a);
      ScanPathsAppend(env, one.visited, a[1..], b);
      var mid := ScanPaths(env, one.visited, a[1..]);
      ThenAssoc(one, mid, ScanPaths(env, mid.visited, b));
    }
  }

  /** A line that is not blank reports its own finding first, then what
      the scans of its paths report. */
  lemma ScanLineUnfold(env: Env, visited: set<string>, url: string, line: string, lineNo: nat)
    requires !IsBlank(line)
    ensures var sub := ScanPaths(env, visited, ExtractPaths(env.lib, line, url));
      ScanLine(env, visited, url, line, lineNo)
        == Run(LineFindings(env, url, lineNo, line) + sub.findings, sub.visited, sub.fetched)
  {
  }

  /** The path at index `j` is scanned in full after the paths before it
      and before the paths after it. */
  lemma ScanPathsAt(env: Env, visited: set<string>, paths: seq<string>, j: nat)
    requires j < |paths|
    ensures var before := ScanPaths(env, visited, paths[..j]);
      var here := Scan(env, before.visited, paths[j]);
      ScanPaths(env, visited, paths)
        == Then(before, Then(here, ScanPaths(env, here.visited, paths[j + 1..])))
  {
    var before := ScanPaths(env, visited, paths[..j]);
    var here := Scan(env, before.visited, paths[j]);
    var tail := paths[j..];
    assert paths[..j] + tail == paths;
    ScanPathsAppend(env, visited, paths[..j], tail);
    assert tail[0] == paths[j] && tail[1..] == paths[j + 1..];
    ScanPathsCons(env, before.visited, tail);
  }

  /** Depth-first pre-order: on a line that is not blank, the line's own
      finding comes first, then the path at index `j` is scanned in full
      after the paths before it and before the paths after it. */
  lemma ScanLinePreOrder(env: Env, visited: set<string>, url: string, line: string, lineNo: nat, j: nat)
    requires !IsBlank(line) && j < |ExtractPaths(env.lib, line, url)|
    ensures var paths := ExtractPaths(env.lib, line, url);
      var before := ScanPaths(env, visited, paths[..j]);
      var here := Scan(env, before.visited, paths[j]);
      var after := ScanPaths(env, here.visited, paths[j + 1..]);
      ScanLine(env, visited, url, line, lineNo).findings
        == LineFindings(env, url, lineNo, line) + before.findings + here.findings + after.findings
  {
    var paths := ExtractPaths(env.lib, line, url);
    ScanPathsAt(env, visited, paths, j);
    var before := ScanPaths(env, visited, paths[..j]);
    var here := Scan(env, before.visited, paths[j]);
    var after := ScanPaths(env, here.visited, paths[j + 1..]);
    var own := LineFindings(env, url, lineNo, line);
    ScanLineUnfold(env, visited, url, line, lineNo);
    var sub := ScanPaths(env, visited, paths);
    assert sub.findings == before.findings + (here.findings + after.findings);
    assert ScanLine(env, visited, url, line, lineNo).findings == own + sub.findings;
    SeqAssoc4(own, before.findings, here.findings, after.findings);
  }

  // -------------------------------------------------------- a line's verdict

  /** A non-blank line is reported exactly when the verdict on its stripped
      text has "Yes" somewhere in it, and the report is the finding text
      built from the URL, the line number, the stripped line and the
      verdict. */
  lemma LineFindingsIff(env: Env, url: string, lineNo: nat, line: string, f: string)
    ensures var verdict := env.classify(Strip(line), url, lineNo);
      f in LineFindings(env, url, lineNo, line) <==>
        (exists i :: OccursAt(verdict, "Yes", i)) && f == FindingText(url, lineNo, Strip(line), verdict)
  {
    ContainsIff(env.classify(Strip(line), url, lineNo), "Yes");
  }

  // ----------------------------------------------------- closed pages

  /** What the lines of a page report by themselves, without following any
      path. */
  function PageFindings(env: Env, url: string, lines: seq<string>, lineNo: nat): seq<string> {
    if lines == [] then []
    else
      (if IsBlank(lines[0]) then [] else LineFindings(env, url, lineNo, lines[0]))
      + PageFindings(env, url, lines[1..], lineNo + 1)
  }

  /** Paths that are all visited already are not requested again and report
      nothing. */
  lemma {:induction false} ScanPathsVisited(env: Env, visited: set<string>, paths: seq<string>)
    requires forall k | 0 <= k < |paths| :: paths[k] in visited
    ensures ScanPaths(env, visited, paths) == Run([], visited, [])
    decreases |paths|
  {
    if paths != [] {
      assert forall k | 0 <= k < |paths| - 1 :: paths[1..][k] == paths[k + 1];
      ScanPathsVisited(env, visited, paths[1..]);
    }
  }

  /** Every path that a non-blank line of `lines` names is in `targets`. */
  predicate LinksWithin(env: Env, url: string, lines: seq<string>, targets: set<string>) {
    forall k | 0 <= k < |lines| :: !IsBlank(lines[k]) ==> LineLinksWithin(env, url, lines[k], targets)
  }

  predicate LineLinksWithin(env: Env, url: string, line: string, targets: set<string>) {
    forall p | p in ExtractPaths(env.lib, line, url) :: p in targets
  }

  /** Lines whose paths all lead to visited URLs report just their own
      findings and request nothing. */
  lemma {:induction false} ScanLinesClosed(env: Env, visited: set<string>, url: string, lines: seq<string>, lineNo: nat)
    requires LinksWithin(env, url, lines, visited)
    ensures ScanLines(env, visited, url, lines, lineNo) == Run(PageFindings(env, url, lines, lineNo), visited, [])
    decreases |lines|
  {
    if lines != [] {
      var first := ScanLine(env, visited, url, lines[0], lineNo);
      if IsBlank(lines[0]) {
        assert first == Run([], visited, []);
      } else {
        var paths := ExtractPaths(env.lib, lines[0], url);
        assert LineLinksWithin(env, url, lines[0], visited);
        assert forall k | 0 <= k < |paths| :: paths[k] in paths;
        ScanPathsVisited(env, visited, paths);
        assert first == Run(LineFindings(env, url, lineNo, lines[0]), visited, []);
      }
      assert LinksWithin(env, url, lines[1..], visited) by {
        forall k | 0 <= k < |lines| - 1 && !IsBlank(lines[1..][k])
          ensures LineLinksWithin(env, url, lines[1..][k], visited)
        {
          assert lines[1..][k] == lines[k + 1];
        }
      }
      ScanLinesClosed(env, visited, url, lines[1..], lineNo + 1);
    }
  }

  /** A page whose paths all lead back to itself, or to URLs already
      visited, is requested once and reports only its own lines: the URL is
      marked visited before its lines are read. */
  lemma SelfLinkedPage(env: Env, visited: set<string>, url: string)
    requires url !in visited && Readable(env, url)
    requires LinksWithin(env, url, SplitLines(env.fetch[url].text), visited + {url})
    ensures Scan(env, visited, url)
      == Run(PageFindings(env, url, SplitLines(env.fetch[url].text), 1), visited + {url}, [url])
  {
    ScanLinesClosed(env, visited + {url}, url, SplitLines(env.fetch[url].text), 1);
  }

  // ------------------------------------------------ provenance, completeness

  /** `f` is what some non-blank line of the page at `u` reports, with that
      line's 1-based number. */
  ghost predicate PageReports(env: Env, u: string, f: string) {
    && u in env.fetch
    && var lines := SplitLines(env.fetch[u].text);
      exists k | 0 <= k < |lines| :: !IsBlank(lines[k]) && f in LineFindings(env, u, k + 1, lines[k])
  }

  /** `f` is reported by a page that `r` requested. */
  ghost predicate FromFetched(env: Env, r: Run, f: string) {
    exists u | u in r.fetched :: PageReports(env, u, f)
  }

  /** `f` is reported by a non-blank line of `lines`, numbered from `lineNo`. */
  ghost predicate FromLines(env: Env, url: string, lines: seq<string>, lineNo: nat, f: string) {
    exists k | 0 <= k < |lines| :: !IsBlank(lines[k]) && f in LineFindings(env, url, lineNo + k, lines[k])
  }

  /** Every finding of a scan is reported by a line of a page the scan
      requested. */
  lemma {:induction false} ScanProvenance(env: Env, visited: set<string>, url: string)
    ensures var r := Scan(env, visited, url);
      forall f | f in r.findings :: FromFetched(env, r, f)
    decreases env.fetch.Keys - visited, 0, 0
  {
    if url !in visited && Readable(env, url) {
      var lines := SplitLines(env.fetch[url].text);
      var page := ScanLines(env, visited + {url}, url, lines, 1);
      var r := Scan(env, visited, url);
      ScanLinesProvenance(env, visited + {url}, url, lines, 1);
      assert r.findings == page.findings && r.fetched == [url] + page.fetched;
      forall f | f in r.findings ensures FromFetched(env, r, f) {
        if FromFetched(env, page, f) {
          var u :| u in page.fetched && PageReports(env, u, f);
          assert u in r.fetched;
        } else {
          assert FromLines(env, url, lines, 1, f);
          var k :| 0 <= k < |lines| && !IsBlank(lines[k]) && f in LineFindings(env, url, 1 + k, lines[k]);
          assert 1 + k == k + 1;
          assert PageReports(env, url, f);
          assert url in r.fetched;
        }
      }
    }
  }

  lemma {:induction false} ScanPathsProvenance(env: Env, visited: set<string>, paths: seq<string>)
    ensures var r := ScanPaths(env, visited, paths);
      forall f | f in r.findings :: FromFetched(env, r, f)
    decreases env.fetch.Keys - visited, 1, |paths|
  {
    if paths != [] {
      var first := Scan(env, visited, paths[0]);
      var rest := ScanPaths(env, first.visited, paths[1..]);
      ScanProvenance(env, visited, paths[0]);
      assert forall f | f in Scan(env, visited, paths[0]).findings ::
        FromFetched(env, Scan(env, visited, paths[0]), f);
      assert forall f | f in first.findings :: FromFetched(env, first, f);
      ScanPathsProvenance(env, first.visited, paths[1..]);
      assert forall f | f in ScanPaths(env, first.visited, paths[1..]).findings ::
        FromFetched(env, ScanPaths(env, first.visited, paths[1..]), f);
      assert forall f | f in rest.findings :: FromFetched(env, rest, f);
      var r := ScanPaths(env, visited, paths);
      assert r == Then(first, rest);
      forall f | f in r.findings ensures FromFetched(env, r, f) {
        if f in first.findings {
          var u :| u in first.fetched && PageReports(env, u, f);
          assert u in r.fetched;
        } else {
          assert f in rest.findings;
          var u :| u in rest.fetched && PageReports(env, u, f);
          assert u in r.fetched;
        }
      }
    }
  }

  lemma {:induction false} ScanLineProvenance(env: Env, visited: set<string>, url: string, line: string, lineNo: nat)
    ensures var r := ScanLine(env, visited, url, line, lineNo);
      forall f | f in r.findings ::
        (!IsBlank(line) && f in LineFindings(env, url, lineNo, line)) || FromFetched(env, r, f)
    decreases env.fetch.Keys - visited, 2, 0
  {
    if !IsBlank(line) {
      var own := LineFindings(env, url, lineNo, line);
      var sub := ScanPaths(env, visited, ExtractPaths(env.lib, line, url));
      ScanPathsProvenance(env, visited, ExtractPaths(env.lib, line, url));
      assert forall f | f in ScanPaths(env, visited, ExtractPaths(env.lib, line, url)).findings ::
        FromFetched(env, ScanPaths(env, visited, ExtractPaths(env.lib, line, url)), f);
      assert forall f | f in sub.findings :: FromFetched(env, sub, f);
      var r := ScanLine(env, visited, url, line, lineNo);
      assert r.findings == own + sub.findings && r.fetched == sub.fetched;
      forall f | f in r.findings ensures f in own || FromFetched(env, r, f) {
        if f !in own {
          assert f in sub.findings;
          var u :| u in sub.fetched && PageReports(env, u, f);
          assert u in r.fetched;
        }
      }
    }
  }

  lemma FromFetchedThen(env: Env, a: Run, b: Run, f: string)
    requires FromFetched(env, a, f) || FromFetched(env, b, f)
    ensures FromFetched(env, Then(a, b), f)
  {
    if FromFetched(env, a, f) {
      var u :| u in a.fetched && PageReports(env, u, f);
      assert u in Then(a, b).fetched;
    } else {
      var u :| u in b.fetched && PageReports(env, u, f);
      assert u in Then(a, b).fetched;
    }
  }

  lemma FromLinesCons(env: Env, url: string, lines: seq<string>, lineNo: nat, f: string)
    requires lines != []
    requires (!IsBlank(lines[0]) && f in LineFindings(env, url, lineNo, lines[0]))
      || FromLines(env, url, lines[1..], lineNo + 1, f)
    ensures FromLines(env, url, lines, lineNo, f)
  {
    if !IsBlank(lines[0]) && f in LineFindings(env, url, lineNo, lines[0]) {
      assert lineNo + 0 == lineNo;
    } else {
      var k :| 0 <= k < |lines[1..]| && !IsBlank(lines[1..][k])
        && f in LineFindings(env, url, (lineNo + 1) + k, lines[1..][k]);
      assert lines[k + 1] == lines[1..][k];
      assert lineNo + (k + 1) == (lineNo + 1) + k;
    }
  }

  lemma {:induction false} ScanLinesProvenance(env: Env, visited: set<string>, url: string, lines: seq<string>, lineNo: nat)
    ensures var r := ScanLines(env, visited, url, lines, lineNo);
      forall f | f in r.findings :: FromLines(env, url, lines, lineNo, f) || FromFetched(env, r, f)
    decreases env.fetch.Keys - visited, 3, |lines|
  {
    if lines != [] {
      var first := ScanLine(env, visited, url, lines[0], lineNo);
      var rest := ScanLines(env, first.visited, url, lines[1..], lineNo + 1);
      ScanLineProvenance(env, visited, url, lines[0], lineNo);
      ScanLinesProvenance(env, first.visited, url, lines[1..], lineNo + 1);
      ScanLinesCons(env, visited, url, lines, lineNo);
      var r := ScanLines(env, visited, url, lines, lineNo);
      forall f | f in r.findings ensures FromLines(env, url, lines, lineNo, f) || FromFetched(env, r, f) {
        if f in first.findings {
          if !IsBlank(lines[0]) && f in LineFindings(env, url, lineNo, lines[0]) {
            FromLinesCons(env, url, lines, lineNo, f);
          } else {
            FromFetchedThen(env, first, rest, f);
          }
        } else {
          assert f in rest.findings;
          if FromFetched(env, rest, f) {
            FromFetchedThen(env, first, rest, f);
          } else {
            FromLinesCons(env, url, lines, lineNo, f);
          }
        }
      }
    }
  }

  /** Completeness: a non-blank line of a page read for the first time whose
      verdict contains "Yes" is reported, with its 1-based line number. */
  lemma ScanReportsLine(env: Env, visited: set<string>, url: string, k: nat)
    requires url !in visited && Readable(env, url)
    requires var lines := SplitLines(env.fetch[url].text);
      && k < |lines| && !IsBlank(lines[k])
      && Contains(env.classify(Strip(lines[k]), url, k + 1), "Yes")
    ensures var line := SplitLines(env.fetch[url].text)[k];
      var verdict := env.classify(Strip(line), url, k + 1);
      FindingText(url, k + 1, Strip(line), verdict) in Scan(env, visited, url).findings
  {
    var lines := SplitLines(env.fetch[url].text);
    ScanLinesAt(env, visited + {url}, url, lines, 1, k);
  }
}
