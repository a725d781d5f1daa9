/** The handful of Python string operations the scanner relies on, with the
    semantics of CPython's `str` methods: `strip()`, `splitlines()`,
    `split(sep)`, the substring test `t in s`, and `str(n)` for a line number. */
module Text {

  /** The characters `str.isspace()` accepts, which `str.strip()` removes. */
  predicate IsSpace(c: char) {
    var k := c as int;
    || 0x09 <= k <= 0x0D
    || 0x1C <= k <= 0x20
    || k == 0x85 || k == 0xA0 || k == 0x1680
    || 0x2000 <= k <= 0x200A
    || k == 0x2028 || k == 0x2029 || k == 0x202F || k == 0x205F || k == 0x3000
  }

  /** The line boundaries `str.splitlines()` splits on (`\r\n` counts as one). */
  predicate IsLineBreak(c: char) {
    var k := c as int;
    || 0x0A <= k <= 0x0D
    || 0x1C <= k <= 0x1E
    || k == 0x85 || k == 0x2028 || k == 0x2029
  }

  predicate NoLineBreak(s: string) {
    forall k | 0 <= k < |s| :: !IsLineBreak(s[k])
  }

  predicate AllSpace(s: string) {
    forall k | 0 <= k < |s| :: IsSpace(s[k])
  }

  // ---------------------------------------------------------------- strip

  /** How many whitespace characters `s` starts with. */
  function LeadingSpace(s: string): (n: nat)
    ensures n <= |s|
  {
    if s != [] && IsSpace(s[0]) then 1 + LeadingSpace(s[1..]) else 0
  }

  /** How many whitespace characters `s` ends with. */
  function TrailingSpace(s: string): (n: nat)
    ensures n <= |s|
  {
    if s != [] && IsSpace(s[|s| - 1]) then 1 + TrailingSpace(s[..|s| - 1]) else 0
  }

  /** `LeadingSpace` counts the longest whitespace prefix. */
  lemma {:induction false} LeadingSpaceSpec(s: string)
    ensures forall k | 0 <= k < LeadingSpace(s) :: IsSpace(s[k])
    ensures LeadingSpace(s) < |s| ==> !IsSpace(s[LeadingSpace(s)])
  {
    if s != [] && IsSpace(s[0]) {
      LeadingSpaceSpec(s[1..]);
      forall k | 1 <= k < LeadingSpace(s) ensures IsSpace(s[k]) {
        assert s[k] == s[1..][k - 1];
      }
    }
  }

  /** `TrailingSpace` counts the longest whitespace suffix. */
  lemma {:induction false} TrailingSpaceSpec(s: string)
    ensures forall k | |s| - TrailingSpace(s) <= k < |s| :: IsSpace(s[k])
    ensures TrailingSpace(s) < |s| ==> !IsSpace(s[|s| - TrailingSpace(s) - 1])
  {
    if s != [] && IsSpace(s[|s| - 1]) {
      var t := s[..|s| - 1];
      TrailingSpaceSpec(t);
      forall k | |s| - TrailingSpace(s) <= k < |s| - 1 ensures IsSpace(s[k]) {
        assert s[k] == t[k];
      }
    }
  }

  /** Python's `s.strip()`: `s` without its leading and trailing whitespace. */
  function Strip(s: string): string {
    var t := s[LeadingSpace(s)..];
    t[..|t| - TrailingSpace(t)]
  }

  /** `Strip` keeps the infix of `s` that starts at the first and ends at the
      last character that is not whitespace; everything it cuts off is
      whitespace. */
  lemma StripSpec(s: string)
    ensures var i := LeadingSpace(s);
      && i + |Strip(s)| <= |s|
      && Strip(s) == s[i..i + |Strip(s)|]
      && (forall k | 0 <= k < i :: IsSpace(s[k]))
      && (forall k | i + |Strip(s)| <= k < |s| :: IsSpace(s[k]))
      && (Strip(s) != [] ==> !IsSpace(s[i]) && !IsSpace(s[i + |Strip(s)| - 1]))
  {
    LeadingSpaceSpec(s);
    StripSlice(s);
    StripTail(s);
  }

  lemma StripSlice(s: string)
    ensures var i := LeadingSpace(s);
      i + |Strip(s)| <= |s| && Strip(s) == s[i..i + |Strip(s)|]
  {
    var i := LeadingSpace(s);
    var t := s[i..];
    var m := |t| - TrailingSpace(t);
    assert Strip(s) == t[..m];
    SliceOfSuffix(s, i, m);
  }

  lemma StripTail(s: string)
    ensures var i, m := LeadingSpace(s), |Strip(s)|;
      && i + m <= |s|
      && (forall k | i + m <= k < |s| :: IsSpace(s[k]))
      && (m > 0 ==> !IsSpace(s[i + m - 1]))
  {
    var i := LeadingSpace(s);
    var t := s[i..];
    var m := |t| - TrailingSpace(t);
    assert |Strip(s)| == m;
    TrailingSpaceSpec(t);
    forall k | i + m <= k < |s| ensures IsSpace(s[k]) {
      assert s[k] == t[k - i];
    }
    if m > 0 {
      assert s[i + m - 1] == t[m - 1];
    }
  }

  lemma SliceOfSuffix(s: string, i: nat, m: nat)
    requires i + m <= |s|
    ensures s[i..][..m] == s[i..i + m]
  {
  }

  /** The name the model gives Python's `not s.strip()`, the blank test of
      a page and of a line. It is defined as `AllSpace`, and
      BlankIffAllSpace proves it equal to `Strip(s) == []`; the name is kept
      so that each use reads as the source's test. */
  predicate IsBlank(s: string) {
    AllSpace(s)
  }

  /** Stripping leaves nothing exactly when every character is whitespace. */
  lemma BlankIffAllSpace(s: string)
    ensures Strip(s) == [] <==> IsBlank(s)
  {
    StripSpec(s);
  }

  /** `Strip` is pinned down: cutting whitespace-only runs off both ends so
      that no whitespace is left at either end gives exactly `Strip`. */
  lemma StripExact(s: string, i: nat, j: nat)
    requires i <= j <= |s|
    requires forall k | 0 <= k < i :: IsSpace(s[k])
    requires forall k | j <= k < |s| :: IsSpace(s[k])
    requires i < j ==> !IsSpace(s[i]) && !IsSpace(s[j - 1])
    ensures Strip(s) == s[i..j]
  {
    StripSpec(s);
    BlankIffAllSpace(s);
    var o, r := LeadingSpace(s), Strip(s);
    if i < j {
      assert !IsSpace(s[i]) && !IsSpace(s[j - 1]);
      assert r != [];
      assert o <= i && i <= o;
      assert o + |r| <= j && j <= o + |r|;
    }
  }

  /** Stripping never removes a character that is not whitespace. */
  lemma StripKeeps(s: string, c: char)
    requires c in s && !IsSpace(c)
    ensures c in Strip(s)
  {
    StripSpec(s);
    var i, r := LeadingSpace(s), Strip(s);
    var k :| 0 <= k < |s| && s[k] == c;
    assert i <= k < i + |r|;
    assert r[k - i] == s[k];
  }

  // ------------------------------------------------------------ substring

  /** `t` occurs in `s` starting at index `i`. */
  predicate OccursAt(s: string, t: string, i: int) {
    0 <= i <= |s| - |t| && s[i..i + |t|] == t
  }

  /** Python's `t in s` for two strings, by trying each start position. */
  predicate Contains(s: string, t: string)
    decreases |s|
  {
    |t| <= |s| && (s[..|t|] == t || Contains(s[1..], t))
  }

  /** `Contains` holds exactly when `t` occurs in `s` at some position. */
  lemma {:induction false} ContainsIff(s: string, t: string)
    ensures Contains(s, t) <==> exists i :: OccursAt(s, t, i)
    decreases |s|
  {
    if |t| <= |s| && s[..|t|] != t {
      ContainsIff(s[1..], t);
      if exists i :: OccursAt(s, t, i) {
        var i :| OccursAt(s, t, i);
        assert OccursAt(s[1..], t, i - 1);
      }
      if Contains(s[1..], t) {
        var i :| OccursAt(s[1..], t, i);
        assert OccursAt(s, t, i + 1);
      }
    } else if |t| <= |s| {
      assert OccursAt(s, t, 0);
    }
  }

  // ----------------------------------------------------------- splitlines

  /** Index of the first line boundary in `s`, or `|s|` if there is none. */
  function LineEnd(s: string): (i: nat)
    ensures i <= |s| && (i < |s| ==> IsLineBreak(s[i]))
    ensures NoLineBreak(s[..i])
  {
    if s == [] || IsLineBreak(s[0]) then 0
    else
      var i := 1 + LineEnd(s[1..]);
      assert s[..i] == [s[0]] + s[1..][..i - 1];
      i
  }

  /** Python's `s.splitlines()`: the lines of `s` without their terminators;
      a final terminator does not start an extra empty line. */
  function SplitLines(s: string): (lines: seq<string>)
    ensures forall k | 0 <= k < |lines| :: NoLineBreak(lines[k])
    decreases |s|
  {
    if s == [] then []
    else
      var i := LineEnd(s);
      if i == |s| then
        assert s[..i] == s;
        [s]
      else
        [s[..i]] + SplitLines(s[NextLine(s)..])
  }

  /** Where the line after the first one starts: past its boundary, with
      `\r\n` taken as one boundary. */
  function NextLine(s: string): (next: nat)
    requires LineEnd(s) < |s|
    ensures LineEnd(s) < next <= |s|
    ensures IsTerminator(s[LineEnd(s)..next])
    ensures var i := LineEnd(s);
      next == i + 2 <==> s[i] == '\r' && i + 1 < |s| && s[i + 1] == '\n'
  {
    var i := LineEnd(s);
    if s[i] == '\r' && i + 1 < |s| && s[i + 1] == '\n' then
      assert s[i..i + 2] == "\r\n";
      i + 2
    else
      assert s[i..i + 1] == [s[i]];
      i + 1
  }

  /** Each line followed by `\n`: the text a list of lines came from. This
      and SplitLinesTerminated are the `\n`-only case of Rebuild and
      SplitLinesRebuild, kept as the short statement for such text. */
  function Terminated(lines: seq<string>): string {
    if lines == [] then [] else lines[0] + "\n" + Terminated(lines[1..])
  }

  /** `LineEnd` is the first line boundary. */
  lemma {:induction false} LineEndAt(s: string, k: nat)
    requires k <= |s| && NoLineBreak(s[..k]) && (k < |s| ==> IsLineBreak(s[k]))
    ensures LineEnd(s) == k
  {
    if k > 0 {
      assert s[..k][0] == s[0];
      assert s[1..][..k - 1] == s[..k][1..];
      LineEndAt(s[1..], k - 1);
    }
  }

  lemma TerminatedCons(lines: seq<string>)
    requires lines != []
    ensures var s, l := Terminated(lines), lines[0];
      && |l| < |s| && s[..|l|] == l && s[|l|] == '\n' && s[|l| + 1..] == Terminated(lines[1..])
  {
    var s, l, rest := Terminated(lines), lines[0], Terminated(lines[1..]);
    assert s == l + ("\n" + rest);
  }

  /** `splitlines()` recovers the lines of a `\n`-terminated text. */
  lemma {:induction false} SplitLinesTerminated(lines: seq<string>)
    requires forall k | 0 <= k < |lines| :: NoLineBreak(lines[k])
    ensures SplitLines(Terminated(lines)) == lines
  {
    if lines != [] {
      var s, l := Terminated(lines), lines[0];
      TerminatedCons(lines);
      LineEndAt(s, |l|);
      SplitLinesTerminated(lines[1..]);
      assert SplitLines(s) == [l] + SplitLines(Terminated(lines[1..]));
    }
  }

  /** A terminator `splitlines()` consumes after a line: one line boundary,
      or `\r\n` taken together. */
  predicate IsTerminator(t: string) {
    t == "\r\n" || (|t| == 1 && IsLineBreak(t[0]))
  }

  /** The terminator `splitlines()` drops after each line of `s`, in order;
      a last line that ends the text without a boundary has the empty one. */
  function LineTerms(s: string): (terms: seq<string>)
    ensures |terms| == |SplitLines(s)|
    decreases |s|
  {
    if s == [] then []
    else if LineEnd(s) == |s| then [[]]
    else [s[LineEnd(s)..NextLine(s)]] + LineTerms(s[NextLine(s)..])
  }

  /** Every terminator is a line boundary or `\r\n`, except that the last
      one is empty when the text does not end with a boundary. */
  lemma {:induction false} LineTermsShape(s: string)
    ensures var terms := LineTerms(s);
      forall k | 0 <= k < |terms| :: IsTerminator(terms[k]) || (k == |terms| - 1 && terms[k] == [])
    decreases |s|
  {
    if s != [] && LineEnd(s) < |s| {
      var tail := s[NextLine(s)..];
      var first := s[LineEnd(s)..NextLine(s)];
      var terms, rest := LineTerms(s), LineTerms(tail);
      LineTermsCons(s);
      LineTermsShape(tail);
      forall k | 0 <= k < |terms|
        ensures IsTerminator(terms[k]) || (k == |terms| - 1 && terms[k] == [])
      {
        if k > 0 {
          ConsAt(first, rest, k);
        }
      }
    }
  }

  lemma LineTermsCons(s: string)
    requires s != [] && LineEnd(s) < |s|
    ensures LineTerms(s) == [s[LineEnd(s)..NextLine(s)]] + LineTerms(s[NextLine(s)..])
  {
  }

  lemma SplitLinesCons(s: string)
    requires s != [] && LineEnd(s) < |s|
    ensures SplitLines(s) == [s[..LineEnd(s)]] + SplitLines(s[NextLine(s)..])
  {
  }

  lemma ConsAt(x: string, rest: seq<string>, k: nat)
    requires 0 < k <= |rest|
    ensures ([x] + rest)[k] == rest[k - 1]
  {
  }

  lemma ThreeSlices(s: string, i: nat, j: nat)
    requires i <= j <= |s|
    ensures s == s[..i] + s[i..j] + s[j..]
  {
    assert s[..j] == s[..i] + s[i..j];
  }

  /** Each line followed by its terminator. */
  function Rebuild(lines: seq<string>, terms: seq<string>): string
    requires |lines| == |terms|
  {
    if lines == [] then [] else lines[0] + terms[0] + Rebuild(lines[1..], terms[1..])
  }

  lemma RebuildCons(line: string, term: string, lines: seq<string>, terms: seq<string>)
    requires |lines| == |terms|
    ensures Rebuild([line] + lines, [term] + terms) == line + term + Rebuild(lines, terms)
  {
    assert ([line] + lines)[1..] == lines && ([term] + terms)[1..] == terms;
  }

  /** `splitlines()` loses nothing but the terminators: putting each line's
      terminator back after it gives the text again, for every text. So
      position `k` of the list is line `k + 1` of the text. */
  lemma {:induction false} SplitLinesRebuild(s: string)
    ensures Rebuild(SplitLines(s), LineTerms(s)) == s
    decreases |s|
  {
    if s != [] {
      var i := LineEnd(s);
      if i == |s| {
        assert s[..i] == s;
        assert Rebuild(SplitLines(s), LineTerms(s)) == s + [] + Rebuild([], []);
      } else {
        var next := NextLine(s);
        var tail := s[next..];
        SplitLinesCons(s);
        LineTermsCons(s);
        SplitLinesRebuild(tail);
        RebuildCons(s[..i], s[i..next], SplitLines(tail), LineTerms(tail));
        ThreeSlices(s, i, next);
      }
    }
  }

  /** The end of the text: there are no lines exactly when the text is
      empty; the last terminator is empty exactly when the text does not end
      with a line boundary, and then the last line is not empty. So a final
      boundary starts no extra empty line. */
  lemma {:induction false} SplitLinesLast(s: string)
    ensures var lines, terms := SplitLines(s), LineTerms(s);
      && (terms == [] <==> s == [])
      && (terms != [] ==> (terms[|terms| - 1] == [] <==> !IsLineBreak(s[|s| - 1])))
      && (terms != [] && terms[|terms| - 1] == [] ==> lines[|lines| - 1] != [])
    decreases |s|
  {
    if s != [] {
      var i := LineEnd(s);
      if i == |s| {
        assert s[..i] == s;
      } else {
        var next := NextLine(s);
        var tail := s[next..];
        var first := s[i..next];
        SplitLinesCons(s);
        LineTermsCons(s);
        SplitLinesLast(tail);
        if tail == [] {
          assert first[|first| - 1] == s[|s| - 1];
        } else {
          assert tail[|tail| - 1] == s[|s| - 1];
        }
      }
    }
  }

  /** The first characters of a rebuilt text are its first line and that
      line's terminator. */
  lemma RebuildHead(lines: seq<string>, terms: seq<string>)
    requires |lines| == |terms| > 0
    ensures var head := lines[0] + terms[0];
      |head| <= |Rebuild(lines, terms)| && Rebuild(lines, terms)[..|head|] == head
  {
  }

  /** After a lone `\r` ending the first line, the next line and its
      terminator do not start with `\n`. */
  lemma LoneReturn(s: string)
    requires s != [] && LineEnd(s) < |s| && s[LineEnd(s)..NextLine(s)] == "\r"
    requires SplitLines(s[NextLine(s)..]) != []
    ensures var tail := s[NextLine(s)..];
      var head := SplitLines(tail)[0] + LineTerms(tail)[0];
      head == [] || head[0] != '\n'
  {
    var i, next := LineEnd(s), NextLine(s);
    var tail := s[next..];
    assert next == i + 1;
    SplitLinesRebuild(tail);
    RebuildHead(SplitLines(tail), LineTerms(tail));
    var head := SplitLines(tail)[0] + LineTerms(tail)[0];
    if head != [] {
      assert head[0] == tail[0] == s[i + 1];
    }
  }

  /** `\r\n` is one boundary: a lone `\r` terminator is never followed by a
      `\n` in the text. */
  lemma {:induction false} SplitLinesCrlf(s: string)
    ensures var lines, terms := SplitLines(s), LineTerms(s);
      forall k | 0 <= k < |terms| - 1 :: terms[k] == "\r" ==>
        lines[k + 1] + terms[k + 1] == [] || (lines[k + 1] + terms[k + 1])[0] != '\n'
    decreases |s|
  {
    if s != [] && LineEnd(s) < |s| {
      var i, next := LineEnd(s), NextLine(s);
      var tail := s[next..];
      var lines, terms := SplitLines(s), LineTerms(s);
      var rLines, rTerms := SplitLines(tail), LineTerms(tail);
      SplitLinesCons(s);
      LineTermsCons(s);
      SplitLinesCrlf(tail);
      forall k | 0 <= k < |terms| - 1 && terms[k] == "\r"
        ensures lines[k + 1] + terms[k + 1] == [] || (lines[k + 1] + terms[k + 1])[0] != '\n'
      {
        ConsAt(s[..i], rLines, k + 1);
        ConsAt(s[i..next], rTerms, k + 1);
        if k == 0 {
          LoneReturn(s);
        } else {
          ConsAt(s[i..next], rTerms, k);
        }
      }
    }
  }

  // ---------------------------------------------------------------- split

  /** Index of the first `c` in `s`, or `|s|` if there is none. */
  function IndexOf(s: string, c: char): (i: nat)
    ensures i <= |s| && (i < |s| ==> s[i] == c)
    ensures c !in s[..i]
  {
    if s == [] || s[0] == c then 0
    else
      var i := 1 + IndexOf(s[1..], c);
      assert s[..i] == [s[0]] + s[1..][..i - 1];
      i
  }

  /** `IndexOf` is the first occurrence: pinned down by its contract. */
  lemma IndexOfAt(s: string, c: char, k: nat)
    requires k <= |s| && (k < |s| ==> s[k] == c) && c !in s[..k]
    ensures IndexOf(s, c) == k
  {
  }

  /** Python's `s.split(sep)` for a one-character separator: always at least
      one part, empty parts kept, no part contains the separator. */
  function Split(s: string, sep: char): (parts: seq<string>)
    ensures |parts| >= 1
    ensures forall k | 0 <= k < |parts| :: sep !in parts[k]
    decreases |s|
  {
    var i := IndexOf(s, sep);
    if i == |s| then
      assert s[..i] == s;
      [s]
    else
      [s[..i]] + Split(s[i + 1..], sep)
  }

  /** Python's `sep.join(parts)`. */
  function Join(parts: seq<string>, sep: char): string {
    if parts == [] then []
    else if |parts| == 1 then parts[0]
    else parts[0] + [sep] + Join(parts[1..], sep)
  }

  lemma JoinCons(part: string, rest: seq<string>, sep: char)
    requires rest != []
    ensures Join([part] + rest, sep) == part + [sep] + Join(rest, sep)
  {
    var parts := [part] + rest;
    assert parts[0] == part && parts[1..] == rest;
  }

  lemma SplitCons(s: string, sep: char)
    requires IndexOf(s, sep) < |s|
    ensures var i := IndexOf(s, sep);
      Split(s, sep) == [s[..i]] + Split(s[i + 1..], sep)
  {
  }

  /** A string with exactly one separator splits into the text before it
      and the text after it. */
  lemma SplitOnce(s: string, sep: char, i: nat)
    requires i < |s| && s[i] == sep && sep !in s[..i] && sep !in s[i + 1..]
    ensures Split(s, sep) == [s[..i], s[i + 1..]]
  {
    IndexOfAt(s, sep, i);
    SplitCons(s, sep);
    var rest := s[i + 1..];
    IndexOfAt(rest, sep, |rest|);
    assert rest[..|rest|] == rest;
  }

  lemma TakeDrop(s: string, i: nat)
    requires i < |s|
    ensures s[..i] + [s[i]] + s[i + 1..] == s
  {
  }

  /** Splitting loses nothing: joining the parts gives the string back. */
  lemma {:induction false} JoinSplit(s: string, sep: char)
    ensures Join(Split(s, sep), sep) == s
    decreases |s|
  {
    var i := IndexOf(s, sep);
    if i < |s| {
      JoinSplit(s[i + 1..], sep);
      SplitCons(s, sep);
      JoinCons(s[..i], Split(s[i + 1..], sep), sep);
      TakeDrop(s, i);
    }
  }

  // ----------------------------------------------------------------- str(n)

  function DigitChar(d: nat): (c: char)
    requires d < 10
    ensures '0' <= c <= '9'
  {
    ('0' as int + d) as char
  }

  predicate IsDigits(s: string) {
    forall k | 0 <= k < |s| :: '0' <= s[k] <= '9'
  }

  /** Python's `str(n)` for a non-negative integer: its decimal digits,
      without a leading zero unless `n` is zero. */
  function NatToString(n: nat): (r: string)
    ensures r != [] && IsDigits(r)
    ensures r[0] == '0' ==> n == 0
  {
    if n < 10 then [DigitChar(n)]
    else NatToString(n / 10) + [DigitChar(n % 10)]
  }

  /** The number a string of decimal digits denotes. */
  function DecimalValue(s: string): nat
    requires IsDigits(s)
  {
    if s == [] then 0
    else 10 * DecimalValue(s[..|s| - 1]) + (s[|s| - 1] as int - '0' as int)
  }

  /** `str(n)` is read back as `n`: distinct line numbers print differently. */
  lemma {:induction false} DecimalRoundTrip(n: nat)
    ensures DecimalValue(NatToString(n)) == n
  {
    if n >= 10 {
      var s := NatToString(n);
      assert s[..|s| - 1] == NatToString(n / 10);
      DecimalRoundTrip(n / 10);
    }
  }
}
