/** Path discovery: the candidate paths a line names, resolved against the
    URL the line came from and kept only when the resolved path ends with one
    of the target extensions. */
module Paths {
  import opened Text

  /** The suffixes that mark a resolved path as worth fetching, in the
      source's order. The test is a plain, case-sensitive suffix test. */
  const TARGET_EXTENSIONS: seq<string> := [
    ".js", ".ts", ".jsx", ".tsx",
    ".php",
    ".py",
    ".rb",
    ".java", ".kt",
    ".cs",
    ".go",
    ".swift", ".m",
    ".env",
    ".json",
    ".yaml", ".yml",
    ".git-credentials"
  ]

  /** The three library calls path discovery makes, left uninterpreted:
      `findAll` is `PATH_PATTERN.findall` (the matches, in order of their
      appearance in the line), `join` is `urljoin(base, match)` and `pathOf`
      is the path component of `urlparse(url)`. */
  datatype UrlLib = UrlLib(
    findAll: string -> seq<string>,
    join: (string, string) -> string,
    pathOf: string -> string)

  /** Python's `s.endswith(suffix)`. */
  predicate EndsWith(s: string, suffix: string) {
    |suffix| <= |s| && s[|s| - |suffix|..] == suffix
  }

  /** `any(path.endswith(ext) for ext in exts)`. */
  predicate AnyEndsWith(path: string, exts: seq<string>) {
    exts != [] && (EndsWith(path, exts[0]) || AnyEndsWith(path, exts[1..]))
  }

  lemma {:induction false} AnyEndsWithIff(path: string, exts: seq<string>)
    ensures AnyEndsWith(path, exts) <==> exists i | 0 <= i < |exts| :: EndsWith(path, exts[i])
  {
    if exts != [] {
      AnyEndsWithIff(path, exts[1..]);
      if exists i | 0 <= i < |exts| :: EndsWith(path, exts[i]) {
        var i :| 0 <= i < |exts| && EndsWith(path, exts[i]);
        if i > 0 {
          assert exts[1..][i - 1] == exts[i];
        }
      }
      if AnyEndsWith(path, exts[1..]) {
        var i :| 0 <= i < |exts| - 1 && EndsWith(path, exts[1..][i]);
        assert exts[i + 1] == exts[1..][i];
      }
    }
  }

  /** The resolved path ends with some entry of TARGET_EXTENSIONS. */
  predicate IsTargetPath(path: string) {
    AnyEndsWith(path, TARGET_EXTENSIONS)
  }

  /** A path is a target exactly when it ends with one of the listed
      extensions. */
  lemma TargetPathIff(path: string)
    ensures IsTargetPath(path) <==>
      exists i | 0 <= i < |TARGET_EXTENSIONS| :: EndsWith(path, TARGET_EXTENSIONS[i])
  {
    AnyEndsWithIff(path, TARGET_EXTENSIONS);
  }

  /** The suffix test is exact: letter case matters, and an extension that
      is not listed is dropped. */
  lemma TargetPathExamples(env: string, exe: string, upper: string)
    requires env == "/a/config.env" && exe == "/a/b.exe" && upper == "/app/MAIN.JS"
    ensures IsTargetPath(env) && !IsTargetPath(exe) && !IsTargetPath(upper)
  {
    TargetPathIff(env);
    assert env[|env| - 4..] == ".env" == TARGET_EXTENSIONS[13];
    NotTargetByLastChar(exe);
    NotTargetByLastChar(upper);
  }

  /** No target extension ends with a character outside this set, so a path
      ending with any other character is never a target. */
  lemma NotTargetByLastChar(path: string)
    requires path != [] && path[|path| - 1] !in "sxpybatomvnl"
    ensures !IsTargetPath(path)
  {
    TargetPathIff(path);
    forall i | 0 <= i < |TARGET_EXTENSIONS| ensures !EndsWith(path, TARGET_EXTENSIONS[i]) {
      var ext := TARGET_EXTENSIONS[i];
      assert ext[|ext| - 1] in "sxpybatomvnl";
    }
  }

  /** The loop body of `extract_paths` over a list of matches: each match is
      resolved against `base` and kept when its path is a target. */
  function KeepTargets(lib: UrlLib, base: string, matches: seq<string>): (resolved: seq<string>)
    ensures |resolved| <= |matches|
  {
    if matches == [] then []
    else
      var fullUrl := lib.join(base, matches[0]);
      (if IsTargetPath(lib.pathOf(fullUrl)) then [fullUrl] else [])
      + KeepTargets(lib, base, matches[1..])
  }

  /** `extract_paths(line, base_url)`: at most one URL per regex match, and
      every URL it returns has a target path. */
  function ExtractPaths(lib: UrlLib, line: string, base: string): (resolved: seq<string>)
    ensures |resolved| <= |lib.findAll(line)|
    ensures forall k | 0 <= k < |resolved| :: IsTargetPath(lib.pathOf(resolved[k]))
  {
    var matches := lib.findAll(line);
    assert forall k | 0 <= k < |KeepTargets(lib, base, matches)| ::
      IsTargetPath(lib.pathOf(KeepTargets(lib, base, matches)[k])) by {
      forall k | 0 <= k < |KeepTargets(lib, base, matches)|
        ensures IsTargetPath(lib.pathOf(KeepTargets(lib, base, matches)[k]))
      {
        KeepTargetsMembers(lib, base, matches, KeepTargets(lib, base, matches)[k]);
      }
    }
    KeepTargets(lib, base, matches)
  }

  /** Order is preserved: the kept results of a list of matches are those of
      its first part followed by those of the rest. */
  lemma {:induction false} KeepTargetsAppend(lib: UrlLib, base: string, a: seq<string>, b: seq<string>)
    ensures KeepTargets(lib, base, a + b) == KeepTargets(lib, base, a) + KeepTargets(lib, base, b)
  {
    if a == [] {
      assert a + b == b;
    } else {
      assert (a + b)[0] == a[0] && (a + b)[1..] == a[1..] + b;
      KeepTargetsAppend(lib, base, a[1..], b);
    }
  }

  /** A URL is among the results exactly when it resolves from one of the
      matches and its path is a target. */
  lemma {:induction false} KeepTargetsMembers(lib: UrlLib, base: string, matches: seq<string>, url: string)
    ensures url in KeepTargets(lib, base, matches) <==>
      IsTargetPath(lib.pathOf(url)) && exists i | 0 <= i < |matches| :: lib.join(base, matches[i]) == url
  {
    if matches != [] {
      KeepTargetsMembers(lib, base, matches[1..], url);
      if exists i | 0 <= i < |matches| :: lib.join(base, matches[i]) == url {
        var i :| 0 <= i < |matches| && lib.join(base, matches[i]) == url;
        if i > 0 {
          assert matches[1..][i - 1] == matches[i];
        }
      }
      if exists i | 0 <= i < |matches| - 1 :: lib.join(base, matches[1..][i]) == url {
        var i :| 0 <= i < |matches| - 1 && lib.join(base, matches[1..][i]) == url;
        assert matches[i + 1] == matches[1..][i];
      }
    }
  }

  /** Duplicates are kept: a match repeated `n` times that resolves to a
      target gives its URL `n` times, in place. */
  lemma {:induction false} KeepTargetsRepeats(lib: UrlLib, base: string, m: string, n: nat)
    requires IsTargetPath(lib.pathOf(lib.join(base, m)))
    ensures KeepTargets(lib, base, seq(n, _ => m)) == seq(n, _ => lib.join(base, m))
  {
    if n > 0 {
      assert seq(n, _ => m) == [m] + seq(n - 1, _ => m);
      KeepTargetsRepeats(lib, base, m, n - 1);
      assert seq(n, _ => lib.join(base, m)) == [lib.join(base, m)] + seq(n - 1, _ => lib.join(base, m));
    }
  }

  /** `extract_paths` as the source writes it: a loop over the regex matches
      that appends each kept URL to `resolved`. */
  method ResolvePaths(lib: UrlLib, line: string, base: string) returns (resolved: seq<string>)
    ensures resolved == ExtractPaths(lib, line, base)
  {
    var matches := lib.findAll(line);
    resolved := [];
    for i := 0 to |matches|
      invariant resolved == KeepTargets(lib, base, matches[..i])
    {
      var fullUrl := lib.join(base, matches[i]);
      var parsedPath := lib.pathOf(fullUrl);
      if IsTargetPath(parsedPath) {
        resolved := resolved + [fullUrl];
      }
      assert matches[..i + 1] == matches[..i] + [matches[i]];
      KeepTargetsAppend(lib, base, matches[..i], [matches[i]]);
    }
    assert matches[..|matches|] == matches;
  }
}
