/** The crawler as the source runs it: one `visited_urls` set shared by every
    call of `scan_url`, which reads a page line by line and scans each path a
    line names before going on to the next line. */
module Crawl {
  import opened Text
  import opened Paths
  import opened ScanModel

  class Crawler {
    /** The responses, the classifier and the URL library. */
    const env: Env
    /** `visited_urls`. */
    var visited: set<string>
    /** Every URL requested so far, in order. */
    ghost var requests: seq<string>

    /** A URL is visited exactly when it has been requested, and no URL has
        been requested twice. */
    ghost predicate Valid()
      reads this
    {
      visited == Elems(requests) && NoRepeats(requests)
    }

    constructor(env: Env)
      ensures this.env == env && visited == {} && requests == []
      ensures Valid()
    {
      this.env := env;
      visited := {};
      requests := [];
    }

    /** `scan_url(url)`: a visited URL is skipped; any other is marked
        visited before it is requested, and a page is read only when the
        request completes with status 200 and a text that is not blank. */
    method Scan(url: string) returns (findings: seq<string>)
      requires Valid()
      modifies this
      ensures Valid()
      ensures var r := ScanModel.Scan(env, old(visited), url);
        findings == r.findings && visited == r.visited && requests == old(requests) + r.fetched
      decreases env.fetch.Keys - visited, 0
    {
      findings := [];
      if url in visited {
        return;
      }
      visited := visited + {url};
      requests := requests + [url];
      if url !in env.fetch {
        return;
      }
      var response := env.fetch[url];
      if response.status != 200 || IsBlank(response.text) {
        return;
      }
      findings := ReadLines(url, SplitLines(response.text));
    }

    /** The loop of `scan_url` over the lines of the page at `url`, numbered
        from 1: a blank line is skipped, any other is read in full before
        the next. */
    method ReadLines(url: string, lines: seq<string>) returns (findings: seq<string>)
      requires Valid()
      modifies this
      ensures Valid()
      ensures var r := ScanModel.ScanLines(env, old(visited), url, lines, 1);
        findings == r.findings && visited == r.visited && requests == old(requests) + r.fetched
      decreases env.fetch.Keys - visited, 3
    {
      findings := [];
      ghost var total := ScanModel.ScanLines(env, visited, url, lines, 1);
      ghost var before := requests;
      for i := 0 to |lines|
        invariant old(visited) <= visited
        invariant Valid()
        invariant Then(Run(findings, visited, requests), ScanModel.ScanLines(env, visited, url, lines[i..], i + 1))
          == Run(total.findings, total.visited, before + total.fetched)
      {
        ghost var here := ScanLine(env, visited, url, lines[i], i + 1);
        assert lines[i..][0] == lines[i] && lines[i..][1..] == lines[i + 1..];
        assert ScanModel.ScanLines(env, visited, url, lines[i..], i + 1)
          == Then(here, ScanModel.ScanLines(env, here.visited, url, lines[i + 1..], i + 2));
        ghost var pre := Run(findings, visited, requests);
        ThenAssoc(pre, here, ScanModel.ScanLines(env, here.visited, url, lines[i + 1..], i + 2));
        if IsBlank(lines[i]) {
          assert Then(pre, here) == pre;
          continue;
        }
        var sub := ReadLine(url, lines[i], i + 1);
        findings := findings + sub;
      }
    }

    /** The body of that loop for a line that is not blank: the stripped
        line is classified and reported when the verdict contains "Yes",
        then the paths it names are scanned. */
    method ReadLine(url: string, line: string, lineNo: nat) returns (findings: seq<string>)
      requires Valid() && !IsBlank(line)
      modifies this
      ensures Valid()
      ensures var r := ScanLine(env, old(visited), url, line, lineNo);
        findings == r.findings && visited == r.visited && requests == old(requests) + r.fetched
      decreases env.fetch.Keys - visited, 2
    {
      findings := [];
      ScanLineUnfold(env, visited, url, line, lineNo);
      var text := Strip(line);
      var verdict := env.classify(text, url, lineNo);
      if Contains(verdict, "Yes") {
        findings := findings + [FindingText(url, lineNo, text, verdict)];
      }
      var newPaths := ResolvePaths(env.lib, line, url);
      var sub := FollowPaths(newPaths);
      findings := findings + sub;
    }

    /** The inner loop of `scan_url`: each path a line names is scanned in
        full, in order. */
    method FollowPaths(paths: seq<string>) returns (findings: seq<string>)
      requires Valid()
      modifies this
      ensures Valid()
      ensures var r := ScanPaths(env, old(visited), paths);
        findings == r.findings && visited == r.visited && requests == old(requests) + r.fetched
      decreases env.fetch.Keys - visited, 1
    {
      findings := [];
      ghost var total := ScanPaths(env, visited, paths);
      ghost var before := requests;
      for j := 0 to |paths|
        invariant old(visited) <= visited
        invariant Valid()
        invariant Then(Run(findings, visited, requests), ScanPaths(env, visited, paths[j..]))
          == Run(total.findings, total.visited, before + total.fetched)
      {
        assert paths[j..][0] == paths[j] && paths[j..][1..] == paths[j + 1..];
        ghost var pre := Run(findings, visited, requests);
        var sub := Scan(paths[j]);
        findings := findings + sub;
        ThenAssoc(pre, ScanModel.Scan(env, pre.visited, paths[j]), ScanPaths(env, visited, paths[j + 1..]));
      }
    }
  }

  /** The crawl started by the program: a fresh visited set and one scan of
      the start URL, whose findings are the report. */
  method Hunt(env: Env, startUrl: string) returns (results: seq<string>)
    ensures results == ScanModel.Scan(env, {}, startUrl).findings
  {
    var crawler := new Crawler(env);
    results := crawler.Scan(startUrl);
  }
}
