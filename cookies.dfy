/** The cookie string the user may give before the crawl starts,
    `key=value; key2=value2`, parsed into the dictionary that is loaded into
    the HTTP session's cookie jar. */
module Cookies {
  import opened Text

  /** `part.strip().split("=", 1)` for a part that contains `=`: the key is
      the stripped part up to its first `=`, the value everything after. */
  function KeyValue(part: string): (kv: (string, string))
    requires '=' in part
    ensures '=' !in kv.0
    ensures kv.0 + "=" + kv.1 == Strip(part)
  {
    StripKeeps(part, '=');
    var t := Strip(part);
    var i := IndexOf(t, '=');
    assert t == t[..i] + "=" + t[i + 1..];
    (t[..i], t[i + 1..])
  }

  /** The key and value of a part are determined by its stripped text: the
      split is at the first `=`. */
  lemma KeyValueExact(part: string, key: string, value: string)
    requires '=' !in key && Strip(part) == key + "=" + value
    ensures '=' in part && KeyValue(part) == (key, value)
  {
    var t := Strip(part);
    assert t[|key|] == '=';
    assert '=' in part by {
      StripSpec(part);
      assert part[LeadingSpace(part) + |key|] == t[|key|];
    }
    var kv := KeyValue(part);
    assert kv.0 == t[..|key|] == key;
    assert kv.1 == t[|key| + 1..] == value;
  }

  /** The part is kept by the loop and assigns `key`. */
  predicate SetsKey(part: string, key: string) {
    '=' in part && KeyValue(part).0 == key
  }

  /** The dictionary the cookie loop has built after visiting `parts` in
      order: a part without `=` is skipped, any other overwrites its key.
      A key never contains `=`, since the split is at the first one. */
  function Collect(parts: seq<string>): (jar: map<string, string>)
    ensures forall key | key in jar :: '=' !in key
  {
    if parts == [] then map[]
    else
      var jar := Collect(parts[..|parts| - 1]);
      var part := parts[|parts| - 1];
      if '=' in part then jar[KeyValue(part).0 := KeyValue(part).1] else jar
  }

  /** The cookie dictionary for a raw cookie string: its `;`-separated parts,
      collected in order. No key contains `=`. */
  function ParseCookies(raw: string): (jar: map<string, string>)
    ensures forall key | key in jar :: '=' !in key
  {
    Collect(Split(raw, ';'))
  }

  /** A key is present exactly when some part containing `=` assigns it: a
      part without `=` contributes no key. */
  lemma {:induction false} CollectKeys(parts: seq<string>, key: string)
    ensures key in Collect(parts) <==> exists i | 0 <= i < |parts| :: SetsKey(parts[i], key)
    decreases |parts|
  {
    if parts != [] {
      var init, last := parts[..|parts| - 1], parts[|parts| - 1];
      CollectKeys(init, key);
      assert key in Collect(parts) <==> key in Collect(init) || SetsKey(last, key);
    }
  }

  /** The last part that assigns a key decides its value. */
  lemma {:induction false} CollectLastWins(parts: seq<string>, i: nat)
    requires i < |parts| && '=' in parts[i]
    requires forall j | i < j < |parts| :: !SetsKey(parts[j], KeyValue(parts[i]).0)
    ensures KeyValue(parts[i]).0 in Collect(parts)
    ensures Collect(parts)[KeyValue(parts[i]).0] == KeyValue(parts[i]).1
    decreases |parts|
  {
    if i < |parts| - 1 {
      var init := parts[..|parts| - 1];
      assert init[i] == parts[i];
      forall j | i < j < |init| ensures !SetsKey(init[j], KeyValue(init[i]).0) {
        assert init[j] == parts[j];
      }
      CollectLastWins(init, i);
    }
  }

  /** Two parts that both contain `=`: the second is applied last. */
  lemma CollectTwo(p: string, q: string)
    requires '=' in p && '=' in q
    ensures Collect([p, q]) == map[KeyValue(p).0 := KeyValue(p).1][KeyValue(q).0 := KeyValue(q).1]
  {
    var kp, kq := KeyValue(p), KeyValue(q);
    assert [p][..0] == [];
    assert Collect([p]) == map[kp.0 := kp.1];
    assert [p, q][..1] == [p];
    assert Collect([p, q]) == Collect([p])[kq.0 := kq.1];
  }

  /** The two parts of `a=1; b=2`: the leading space of the second part is
      stripped before the split. */
  lemma KeyValueExamples(first: string, second: string)
    requires first == "a=1" && second == " b=2"
    ensures '=' in first && KeyValue(first) == ("a", "1")
    ensures '=' in second && KeyValue(second) == ("b", "2")
  {
    StripExact(first, 0, 3);
    KeyValueExact(first, "a", "1");
    StripExact(second, 1, 4);
    KeyValueExact(second, "b", "2");
  }

  /** `a=1; b=2` gives `{a: "1", b: "2"}`. */
  lemma ParseCookiesExample(raw: string)
    requires raw == "a=1; b=2"
    ensures ParseCookies(raw) == map["a" := "1", "b" := "2"]
  {
    var first, second := raw[..3], raw[4..];
    assert first == "a=1" && second == " b=2";
    SplitOnce(raw, ';', 3);
    KeyValueExamples(first, second);
    CollectTwo(first, second);
  }

  /** The cookie loop as the source writes it, filling `cookieDict` part by
      part. */
  method BuildCookieJar(raw: string) returns (cookieDict: map<string, string>)
    ensures cookieDict == ParseCookies(raw)
  {
    var parts := Split(raw, ';');
    cookieDict := map[];
    for i := 0 to |parts|
      invariant cookieDict == Collect(parts[..i])
    {
      var part := parts[i];
      if '=' in part {
        var kv := KeyValue(part);
        cookieDict := cookieDict[kv.0 := kv.1];
      }
      assert parts[..i + 1][..i] == parts[..i];
    }
    assert parts[..|parts|] == parts;
  }
}
