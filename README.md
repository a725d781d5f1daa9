# KeyHound crawl core in Dafny

KeyHound is a small crawler that looks for leaked secrets. It fetches a start
URL and reads the text line by line. It asks a language-model classifier
whether each non-blank line holds a secret, and records a finding when the
verdict contains "Yes". It also looks for paths on each line. A path that
resolves to a source or config file (a fixed list of extensions) is crawled
next, depth first. One process-wide set of visited URLs makes sure that no
URL is passed to `session.get` more than once. Before the crawl, the user may give a
`key=value; key2=value2` cookie string, which is parsed into a dictionary.

The project models three parts of `keyhound.py`:

- `scan_url`, the crawl engine.
  - `ScanModel` (`scan_model.dfy`) defines it as mutually recursive functions
    of the visited set. They return the findings, the new visited set and
    the URLs requested, in order.
  - `Crawl` (`crawler.dfy`) is the imperative version: a `Crawler` class whose
    `visited` field the methods update. Its loops are proved equal to the
    functions.
  - The outside world is a value `Env`:
    - `fetch` maps each URL whose request completes to its status and text.
      A URL missing from the map is one whose request raises.
    - `classify` stands for `ai_analyze`. It may return any string,
      including its own failure message.
    - `lib` holds the regex and URL-library calls.
  - Termination is argued with the finite set of fetchable URLs that are not
    yet visited.
- `extract_paths` and `TARGET_EXTENSIONS` (`Paths`, `paths.dfy`).
  - The regex `findall`, `urljoin` and `urlparse(...).path` are left
    uninterpreted, as functions in a `UrlLib` value.
  - The suffix test, the order of the results and their duplicates are
    modelled exactly.
- The cookie-string loop (`Cookies`, `cookies.dfy`).

`Text` (`text.dfy`) gives the CPython string operations these rely on:
`strip()` and `isspace()`, `splitlines()`, `split(sep)`, the substring test
`t in s`, and `str(n)`.

## Model

| member | source | states |
|---|---|---|
| Text.Strip | keyhound.py:113 | the definition of `str.strip()`, used at lines 104, 109, 113 and 149; it has no contract of its own, and StripSpec and StripExact characterize it |
| Text.IsBlank | keyhound.py:109 | the definition of the blank test `not s.strip()`, as every character being whitespace; no contract of its own, BlankIffAllSpace ties it to `Strip(s) == []` |
| Text.Contains | keyhound.py:114 | the definition of the substring test `t in s`; no contract of its own, ContainsIff characterizes it |
| Text.StripSpec | keyhound.py:109 | `strip()` keeps the infix from the first to the last non-whitespace character, and everything it cuts off is whitespace |
| Text.StripExact | keyhound.py:149 | cutting whitespace-only runs from both ends, so that no whitespace is left at either end, gives exactly `strip()` |
| Text.StripKeeps | keyhound.py:148-149 | `strip()` never removes a character that is not whitespace, so a part containing `=` still contains it after stripping |
| Text.BlankIffAllSpace | keyhound.py:109 | `not line.strip()` holds exactly when every character of the line is whitespace |
| Text.ContainsIff | keyhound.py:114 | `"Yes" in verdict` holds exactly when "Yes" occurs at some position of the verdict |
| Text.SplitLines | keyhound.py:108 | no line returned by `splitlines()` contains a line boundary; SplitLinesRebuild, SplitLinesLast and SplitLinesCrlf pin down the rest of the split |
| Text.NextLine | keyhound.py:108 | the next line starts after the first boundary, and what lies between is one boundary or `\r\n`; it skips two characters exactly when the boundary is `\r` followed by `\n` |
| Text.LineTerms | keyhound.py:108 | `splitlines()` drops exactly one terminator per line it returns |
| Text.LineTermsShape | keyhound.py:108 | every dropped terminator is one line boundary or `\r\n`, except that the last one may be empty |
| Text.SplitLinesRebuild | keyhound.py:108 | for every text, putting each line's terminator back after it gives the text again: the split loses nothing but the terminators |
| Text.SplitLinesLast | keyhound.py:108 | there are no lines exactly when the text is empty; the last terminator is empty exactly when the text does not end with a line boundary, and then the last line is not empty, so a final boundary starts no extra empty line |
| Text.SplitLinesCrlf | keyhound.py:108 | `\r\n` is one boundary: a lone `\r` terminator is never followed by `\n`; with SplitLinesRebuild and SplitLinesLast this fixes the lines, so position `k` of the list is line `k + 1` of the page |
| Text.SplitLinesTerminated | keyhound.py:108 | `splitlines()` of lines each followed by `\n` gives back exactly those lines, so line `k` of the list is line `k` of the text |
| Text.Split | keyhound.py:147 | `split(";")` returns at least one part, and no part contains the separator |
| Text.JoinSplit | keyhound.py:147 | joining the parts of `split(";")` with `;` gives the cookie string back: the split loses nothing |
| Text.NatToString | keyhound.py:115 | `str(line_no)` is a non-empty string of decimal digits with no leading zero |
| Text.DecimalRoundTrip | keyhound.py:115 | `str(line_no)` reads back as `line_no`, so a finding names its line unambiguously |
| Paths.AnyEndsWith | keyhound.py:89 | the definition of `any(path.endswith(ext) for ext in exts)`; no contract of its own, AnyEndsWithIff characterizes it |
| Paths.IsTargetPath | keyhound.py:89 | the definition of the suffix test against TARGET_EXTENSIONS; no contract of its own, TargetPathIff characterizes it |
| Paths.AnyEndsWithIff | keyhound.py:89 | `any(path.endswith(ext) for ext in exts)` holds exactly when some listed suffix ends the path |
| Paths.TargetPathIff | keyhound.py:37-50 | a resolved path is a target exactly when it ends with one of the 18 listed extensions |
| Paths.NotTargetByLastChar | keyhound.py:37-50 | a path whose last character ends no listed extension is never a target |
| Paths.TargetPathExamples | keyhound.py:89 | the suffix test is exact and case-sensitive: `/a/config.env` is a target, while `/a/b.exe` and `/app/MAIN.JS` are not |
| Paths.KeepTargets | keyhound.py:86-90 | the loop keeps at most one URL per match |
| Paths.ExtractPaths | keyhound.py:83-91 | `extract_paths` returns at most one URL per regex match, and every URL it returns has a target path |
| Paths.KeepTargetsMembers | keyhound.py:83-91 | a URL is returned exactly when it is `urljoin(base, m)` for some match `m` and its path is a target |
| Paths.KeepTargetsAppend | keyhound.py:86-90 | results keep the order of the matches: the results of `a + b` are those of `a` followed by those of `b` |
| Paths.KeepTargetsRepeats | keyhound.py:86-90 | duplicates are kept: a target match repeated `n` times gives its URL `n` times |
| Paths.ResolvePaths | keyhound.py:83-91 | the loop of `extract_paths` returns exactly the filtered joins of the regex matches, in order |
| Cookies.KeyValue | keyhound.py:148-149 | the key has no `=`, and key, `=` and value put back together give the stripped part: the split is at the first `=` |
| Cookies.KeyValueExact | keyhound.py:149 | a part whose stripped text is `key=value`, where `key` has no `=`, gives exactly that key and value |
| Cookies.KeyValueExamples | keyhound.py:148-149 | `a=1` gives (`a`, `1`), and ` b=2` gives (`b`, `2`) after its leading space is stripped |
| Cookies.Collect | keyhound.py:147-150 | the dictionary the loop has built after a list of parts; no key contains `=`, since the split is at the first one |
| Cookies.ParseCookies | keyhound.py:146-150 | the dictionary parsed from a cookie string; no key contains `=` |
| Cookies.CollectKeys | keyhound.py:147-150 | a key is in the dictionary exactly when some part containing `=` assigns it; parts without `=` add nothing |
| Cookies.CollectLastWins | keyhound.py:147-150 | when several parts assign the same key, the last one decides its value |
| Cookies.CollectTwo | keyhound.py:147-150 | two parts are applied in order, the second one last |
| Cookies.ParseCookiesExample | keyhound.py:146-150 | `a=1; b=2` parses to `{a: 1, b: 2}` |
| Cookies.BuildCookieJar | keyhound.py:146-150 | the loop that fills `cookie_dict` part by part builds exactly the parsed dictionary |
| ScanModel.Scan | keyhound.py:94-129 | after a scan the visited set contains the old one and the scanned URL |
| ScanModel.ScanPaths | keyhound.py:121-123 | scanning the paths of a line never removes a URL from the visited set |
| ScanModel.ScanLine | keyhound.py:109-124 | scanning one line never removes a URL from the visited set |
| ScanModel.ScanLines | keyhound.py:108-124 | scanning the lines of a page never removes a URL from the visited set |
| ScanModel.ScanFetchesNew | keyhound.py:96-98 | a scan requests each URL at most once and never one already visited, and its new visited set is the old one plus exactly the URLs it requested |
| ScanModel.ScanPathsFetchesNew | keyhound.py:121-123 | the same at-most-once property for the scans of a line's paths |
| ScanModel.ScanLineFetchesNew | keyhound.py:109-124 | the same at-most-once property for one line |
| ScanModel.ScanLinesFetchesNew | keyhound.py:108-124 | the same at-most-once property for the lines of a page |
| ScanModel.ScanFetchesFirst | keyhound.py:96-103 | a URL not yet visited is requested first and never again during its own scan, even when its pages link back to it |
| ScanModel.ScanShortCircuit | keyhound.py:96-106 | a visited URL gives nothing and changes nothing; a failed request, a status other than 200 or a blank text gives nothing, but the URL stays visited and counts as requested |
| ScanModel.ScanLinesAppend | keyhound.py:108 | lines are scanned in order and numbered consecutively |
| ScanModel.ScanLinesAt | keyhound.py:108-124 | line `k` is scanned with number `lineNo + k`, after every earlier line and before every later one |
| ScanModel.ScanPathsAppend | keyhound.py:121-123 | the paths of a line are scanned in order, each from the visited set the previous one left |
| ScanModel.ScanPathsAt | keyhound.py:121-123 | path `j` is scanned in full after the paths before it and before the paths after it |
| ScanModel.ScanLinePreOrder | keyhound.py:112-122 | depth-first pre-order: a line's own finding comes first, then the complete scan of each path it names, in order |
| ScanModel.Readable | keyhound.py:103-104 | the definition of the test that lets a page be read: the request completes, with status 200 and a text that is not blank; no contract of its own, ScanShortCircuit states its effect |
| ScanModel.FindingText | keyhound.py:115 | the definition of the finding f-string; no contract of its own, LineFindingsIff states where it is used |
| ScanModel.LineFindings | keyhound.py:113-116 | a line reports at most one finding by itself |
| ScanModel.LineFindingsIff | keyhound.py:112-116 | a non-blank line is reported exactly when the verdict on its stripped text contains "Yes", and the report is `[url:line_no] text` followed by an arrow line with the verdict |
| ScanModel.ScanPathsVisited | keyhound.py:96-97 | paths that are all visited already cause no request and no finding |
| ScanModel.ScanLinesClosed | keyhound.py:108-124 | lines whose paths all lead to visited URLs report only their own findings and request nothing |
| ScanModel.SelfLinkedPage | keyhound.py:96-124 | a page whose paths all lead back to itself or to visited URLs is requested once and reports only its own lines |
| ScanModel.ScanProvenance | keyhound.py:94-129 | every finding of a scan is reported by a non-blank line of a page the scan requested, under that line's 1-based number |
| ScanModel.ScanPathsProvenance | keyhound.py:121-123 | every finding from a line's paths comes from a page those scans requested |
| ScanModel.ScanLineProvenance | keyhound.py:109-124 | every finding of one line is that line's own report or comes from a page its paths led to |
| ScanModel.ScanLinesProvenance | keyhound.py:108-124 | every finding of a page's lines is reported by one of those lines or by a page they led to |
| ScanModel.ScanReportsLine | keyhound.py:108-116 | completeness: a non-blank line whose verdict contains "Yes", on a page read for the first time, is reported with its 1-based line number |
| Crawl.Crawler.constructor | keyhound.py:54 | the crawl starts with an empty visited set and no requests |
| Crawl.Crawler.Scan | keyhound.py:94-106 | the method returns the model's findings and leaves `visited` and the request log as the model says, with every URL requested at most once |
| Crawl.Crawler.ReadLines | keyhound.py:108-124 | the loop over the lines, with its `continue` on blank lines, gives what the model gives for the lines numbered from 1 |
| Crawl.Crawler.ReadLine | keyhound.py:112-124 | the loop body for a non-blank line gives what the model gives for that line |
| Crawl.Crawler.FollowPaths | keyhound.py:120-123 | the inner loop over the paths of a line gives what the model gives for those paths |
| Crawl.Hunt | keyhound.py:156 | the crawl from the start URL, with a fresh visited set, reports exactly the model's findings |

## Left out

- `ai_analyze` and the Gemini model are left out. Their verdict is the
  `classify` function of `Env`, applied to the stripped line, the URL and
  the line number. The failure message `ai_analyze` returns when the call
  raises is just one more string that `classify` may return. It is still
  tested for "Yes" like any other verdict.
- The `fetch` map gives the final response of a redirect chain, since
  `session.get` (line 103) follows redirects. Only the URL that was asked
  for joins `visited_urls` (line 98), and the URLs the chain passes through
  are not marked visited. So the at-most-once property of ScanFetchesNew
  and `Crawler.Valid` is about the URLs passed to `session.get`. The same
  final page may be fetched again under its own URL, and its lines reported
  again.
- HTTP, the session, the 10-second timeout and cookie handling inside the
  session are modelled only as the finite `fetch` map. The loading of the
  parsed cookies into the session (line 151) is not modelled.
- The regex `PATH_PATTERN`, `urljoin` and `urlparse` are uninterpreted
  functions. Their own parsing rules are not modelled.
- `time.sleep(delay)` (line 125) and reading the delay as a float (line 140)
  are left out. A delay that `time.sleep` accepts (from 0 up to about 9.2e9
  seconds) changes no result. A negative, NaN, infinite or larger delay
  makes `time.sleep` raise after the first non-blank line of every page.
  That case is covered by the next item.
- The banner, colored printing, the prompts, reading `key.txt`, and writing
  the report file are left out as input and output.
- Exceptions raised inside the line loop, after the request has completed,
  are left out. Such an exception is caught at lines 127-128. It ends that
  URL's scan, which returns the findings collected so far. The model does
  not capture this early end: it reads every line of a readable page. Only
  a request that raises is modelled. As in the source, it gives an empty
  result. Two exceptions of note:
  - `time.sleep` with a delay it does not accept. Each page then gives only
    the finding of its first non-blank line and the scans of that line's
    paths.
  - `RecursionError`. Each level of nested pages adds one `scan_url` frame,
    and CPython's recursion limit is 1000 frames by default. The limit is
    most likely reached in the deepest page's own `session.get` (line 103),
    inside that page's own `try`. Then that page gives nothing and its
    parent carries on, which the `fetch` map can express by leaving that
    URL out. If the limit is reached elsewhere in a page's line loop
    instead, that page's scan ends early. The model has no depth bound.
- `Cookies.ParseCookies` takes the cookie string after the prompt's own
  `.strip()` at line 145, which is not modelled. That strip changes no
  part's key or value, because every part is stripped again before it is
  split.
- `Crawl.Crawler.Scan` writes the loop body of `scan_url` as three methods
  (`ReadLines`, `ReadLine`, `FollowPaths`), one per loop level. They run the
  same steps in the same order, on the same `visited` field.
- Strings are sequences of Unicode characters. `IsSpace` and `IsLineBreak`
  list the characters CPython's `isspace()` and `splitlines()` use. No other
  Unicode processing takes place in the source.
