/** The report of endpoints the reference client does not cover
    (`printEndpointsNotInPRAW`): each registered URL is trimmed of slashes,
    rewritten by a fixed list of textual rules, and kept when it is not one
    of the reference paths. */
module Normalizer {
  import opened PyStr
  import opened Registry

  /** The rewrite rules, applied in this order (lines 97-105). */
  const Replacements: seq<(string, string)> := [
    ("api/widget", "r/{subreddit}/api/widget"),
    ("srname", "subreddit"),
    ("{filterpath}", "user/{user}"),
    ("{username}", "{user}"),
    ("{conversation_id}", "{id}"),
    (":conversation_id", "{id}"),
    ("live/{thread}", "live/{id}")
  ]

  /** `s` after `s = s.replace(old, new)` for each rule in turn. */
  function ApplyRules(rules: seq<(string, string)>, s: string): string
  {
    if |rules| == 0 then s else ApplyRules(rules[1..], ReplaceAll(s, rules[0].0, rules[0].1))
  }

  function Normalize(s: string): string
  {
    ApplyRules(Replacements, s)
  }

  /** The reference client's paths without surrounding slashes (line 106):
      one per path, holding exactly the stripped paths, none of which
      begins or ends with `/`. */
  function ReferencePaths(apiPaths: seq<string>): (r: seq<string>)
    ensures |r| == |apiPaths|
    ensures forall k :: 0 <= k < |apiPaths| ==> Strip(apiPaths[k], {'/'}) in r
    ensures forall x :: x in r ==> exists k :: 0 <= k < |apiPaths| && x == Strip(apiPaths[k], {'/'})
    ensures forall k :: 0 <= k < |r| ==> r[k] == [] || (r[k][0] != '/' && r[k][|r[k]| - 1] != '/')
  {
    var r := seq(|apiPaths|, k requires 0 <= k < |apiPaths| => Strip(apiPaths[k], {'/'}));
    assert forall k :: 0 <= k < |apiPaths| ==> r[k] == Strip(apiPaths[k], {'/'});
    r
  }

  /** One registry item as the report shows it: its name and its URL
      trimmed of slashes, both rewritten by the rules (lines 109-112). */
  function Entry(rules: seq<(string, string)>, item: (string, Descriptor)): (string, string)
  {
    (ApplyRules(rules, item.0), ApplyRules(rules, Strip(item.1.url, {'/'})))
  }

  /** The `missing` list of lines 107-114, in registry order. */
  function Missing(items: Dict<Descriptor>, rules: seq<(string, string)>, refs: seq<string>): seq<(string, string)>
  {
    if |items| == 0 then []
    else
      var e := Entry(rules, items[|items| - 1]);
      Missing(items[..|items| - 1], rules, refs) + (if e.1 in refs then [] else [e])
  }

  /** Applying the rules is applying them one after another. */
  lemma {:induction false} ApplyRulesAppend(a: seq<(string, string)>, b: seq<(string, string)>, s: string)
    ensures ApplyRules(a + b, s) == ApplyRules(b, ApplyRules(a, s))
  {
    if |a| == 0 {
      assert a + b == b;
    } else {
      assert (a + b)[1..] == a[1..] + b;
      ApplyRulesAppend(a[1..], b, ReplaceAll(s, a[0].0, a[0].1));
    }
  }

  /** A URL that mentions none of the patterns is compared as it is. */
  lemma {:induction false} ApplyRulesUnmatched(rules: seq<(string, string)>, s: string)
    requires forall k :: 0 <= k < |rules| ==> |rules[k].0| > 0 && !Occurs(rules[k].0, s)
    ensures ApplyRules(rules, s) == s
  {
    if |rules| > 0 {
      ReplaceAbsent(s, rules[0].0, rules[0].1);
      assert forall k :: 1 <= k < |rules| ==> rules[1..][k - 1] == rules[k];
      ApplyRulesUnmatched(rules[1..], s);
    }
  }

  /** The rules act in sequence: a later rule sees what an earlier one
      wrote, so their order matters. */
  lemma RuleOrderMatters()
    ensures ApplyRules([("a", "b"), ("b", "c")], "a") == "c"
    ensures ApplyRules([("b", "c"), ("a", "b")], "a") == "b"
  {
    assert "a"[..1] == "a" && "b"[..1] == "b";
    assert ReplaceAll("a", "a", "b") == "b" + ReplaceAll("", "a", "b") == "b";
    assert ReplaceAll("b", "b", "c") == "c" + ReplaceAll("", "b", "c") == "c";
    assert ReplaceAll("a", "b", "c") == "a" + ReplaceAll("", "b", "c") == "a";
  }

  /** No rule of the report has an empty pattern. */
  lemma ReplacementPatterns()
    ensures forall q :: 0 <= q < |Replacements| ==> |Replacements[q].0| > 0
  {
  }

  /** Item `k` of the registry is reported as `x`. */
  predicate ReportedAs(items: Dict<Descriptor>, rules: seq<(string, string)>, k: int, x: (string, string))
  {
    0 <= k < |items| && Entry(rules, items[k]) == x
  }

  /** Everything the report lists is an item whose rewritten URL is not
      a reference path, shown as its rewritten name and URL. */
  lemma {:induction false} MissingSound(
    items: Dict<Descriptor>, rules: seq<(string, string)>, refs: seq<string>, x: (string, string))
    requires x in Missing(items, rules, refs)
    ensures x.1 !in refs && exists k :: ReportedAs(items, rules, k, x)
  {
    var n := |items| - 1;
    var init := items[..n];
    var e := Entry(rules, items[n]);
    assert Missing(items, rules, refs) == Missing(init, rules, refs) + (if e.1 in refs then [] else [e]);
    if x in Missing(init, rules, refs) {
      MissingSound(init, rules, refs, x);
      var k :| ReportedAs(init, rules, k, x);
      assert init[k] == items[k];
      assert ReportedAs(items, rules, k, x);
    } else {
      assert ReportedAs(items, rules, n, x);
    }
  }

  /** An item whose URL is a reference path up to surrounding slashes, and
      in which no rule's pattern occurs, is not reported: no row of the
      report carries its URL. */
  lemma ReferencedNotReported(
    items: Dict<Descriptor>, rules: seq<(string, string)>, apiPaths: seq<string>, k: int, j: int)
    requires 0 <= k < |items| && 0 <= j < |apiPaths|
    requires Strip(items[k].1.url, {'/'}) == Strip(apiPaths[j], {'/'})
    requires forall q :: 0 <= q < |rules| ==> |rules[q].0| > 0 && !Occurs(rules[q].0, Strip(items[k].1.url, {'/'}))
    ensures Entry(rules, items[k]).1 == Strip(apiPaths[j], {'/'})
    ensures forall x :: x in Missing(items, rules, ReferencePaths(apiPaths)) ==> x.1 != Entry(rules, items[k]).1
  {
    var refs := ReferencePaths(apiPaths);
    ApplyRulesUnmatched(rules, Strip(items[k].1.url, {'/'}));
    forall x | x in Missing(items, rules, refs) ensures x.1 != Entry(rules, items[k]).1 {
      MissingSound(items, rules, refs, x);
    }
  }

  /** Every item whose rewritten URL is not a reference path is listed. */
  lemma {:induction false} MissingComplete(
    items: Dict<Descriptor>, rules: seq<(string, string)>, refs: seq<string>, k: int)
    requires 0 <= k < |items| && Entry(rules, items[k]).1 !in refs
    ensures Entry(rules, items[k]) in Missing(items, rules, refs)
  {
    var n := |items| - 1;
    var init := items[..n];
    var e := Entry(rules, items[n]);
    var tail := if e.1 in refs then [] else [e];
    assert Missing(items, rules, refs) == Missing(init, rules, refs) + tail;
    if k < n {
      assert init[k] == items[k];
      MissingComplete(init, rules, refs, k);
      assert Entry(rules, init[k]) in Missing(init, rules, refs);
    } else {
      assert tail == [e];
    }
  }

  /** The report keeps registry order and never grows past the registry. */
  lemma {:induction false} MissingLength(items: Dict<Descriptor>, rules: seq<(string, string)>, refs: seq<string>)
    ensures |Missing(items, rules, refs)| <= |items|
    ensures refs == [] ==> |Missing(items, rules, refs)| == |items|
  {
    if |items| > 0 {
      MissingLength(items[..|items| - 1], rules, refs);
    }
  }

  /** Lines 109-112 for one item: the URL trimmed of slashes, then both
      the name and the URL rewritten by every rule in order. */
  method NormalizeItem(item: (string, Descriptor)) returns (name: string, url: string)
    ensures (name, url) == Entry(Replacements, item)
  {
    name := item.0;
    url := Strip(item.1.url, {'/'});
    var k := 0;
    while k < |Replacements|
      invariant 0 <= k <= |Replacements|
      invariant ApplyRules(Replacements[k..], name) == Normalize(item.0)
      invariant ApplyRules(Replacements[k..], url) == Normalize(Strip(item.1.url, {'/'}))
    {
      assert Replacements[k..][1..] == Replacements[k + 1..];
      var (pat, rep) := Replacements[k];
      url := ReplaceAll(url, pat, rep);
      name := ReplaceAll(name, pat, rep);
      k := k + 1;
    }
  }

  /** Lines 106-114: the rows of the report. */
  method EndpointsNotInReference(parsed: Dict<Descriptor>, apiPaths: seq<string>) returns (missing: seq<(string, string)>)
    ensures missing == Missing(parsed, Replacements, ReferencePaths(apiPaths))
  {
    var refs := ReferencePaths(apiPaths);
    missing := [];
    var i := 0;
    while i < |parsed|
      invariant 0 <= i <= |parsed|
      invariant missing == Missing(parsed[..i], Replacements, refs)
    {
      var name, url := NormalizeItem(parsed[i]);
      assert parsed[..i + 1][..i] == parsed[..i];
      if url !in refs {
        missing := missing + [(name, url)];
      }
      i := i + 1;
    }
    assert parsed[..i] == parsed;
  }
}
