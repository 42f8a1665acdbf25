/** What one pass of the extractor guarantees, stated over the functions of
    module Extractor (and so over the methods proved equal to them). */
module ExtractorLemmas {
  import opened Results
  import opened PyStr
  import opened Markup
  import opened Registry
  import opened Extractor

  // ================================================================
  // URL assembly
  // ================================================================

  /** A tag without a class: `attrs['class']` raises on it. */
  predicate Classless(n: Node)
  {
    n.Tag? && |n.classes| == 0
  }

  /** Assembling a list of parts is assembling its two halves and joining. */
  lemma {:induction false} AssembleConcat(a: seq<Node>, b: seq<Node>, glyphs: set<char>)
    ensures Assemble(a + b, glyphs) ==
            if Assemble(a, glyphs).Fail? then Assemble(a, glyphs)
            else Prepend(Assemble(a, glyphs).value, Assemble(b, glyphs))
  {
    if |a| == 0 {
      assert a + b == b;
      PrependNothing(Assemble(b, glyphs));
    } else {
      assert (a + b)[0] == a[0];
      assert (a + b)[1..] == a[1..] + b;
      AssembleConcat(a[1..], b, glyphs);
      AssembleStep(a + b, glyphs);
      AssembleStep(a, glyphs);
      if Piece(a[0], glyphs).Ok? && Assemble(a[1..], glyphs).Ok? {
        PrependTwice(Contribution(Piece(a[0], glyphs).value), Assemble(a[1..], glyphs).value, Assemble(b, glyphs));
      }
    }
  }

  /** Assembling a lone child gives that child's contribution. */
  lemma AssembleSingle(p: Node, glyphs: set<char>)
    ensures Piece(p, glyphs).Fail? ==> Assemble([p], glyphs).Fail?
    ensures Piece(p, glyphs).Ok? ==> Assemble([p], glyphs) == Ok(Contribution(Piece(p, glyphs).value))
  {
    assert [p][1..] == [];
    AssembleStep([p], glyphs);
    if Piece(p, glyphs).Ok? {
      assert Contribution(Piece(p, glyphs).value) + "" == Contribution(Piece(p, glyphs).value);
    }
  }

  /** A child in the middle of a successful assembly: both sides assemble
      and the child's contribution sits between them. */
  lemma AssembleAround(a: seq<Node>, p: Node, b: seq<Node>, glyphs: set<char>)
    requires Assemble(a + [p] + b, glyphs).Ok?
    ensures Assemble(a, glyphs).Ok? && Piece(p, glyphs).Ok? && Assemble(b, glyphs).Ok?
    ensures Assemble(a + [p] + b, glyphs).value ==
            Assemble(a, glyphs).value + Contribution(Piece(p, glyphs).value) + Assemble(b, glyphs).value
  {
    AssembleConcat(a + [p], b, glyphs);
    AssembleConcat(a, [p], glyphs);
    AssembleSingle(p, glyphs);
  }

  /** A string child contributes its text trimmed of `glyphs`. */
  lemma StringRendering(a: seq<Node>, s: string, b: seq<Node>, glyphs: set<char>)
    requires Assemble(a + [Str(s)] + b, glyphs).Ok?
    ensures Assemble(a, glyphs).Ok? && Assemble(b, glyphs).Ok?
    ensures Assemble(a + [Str(s)] + b, glyphs).value ==
            Assemble(a, glyphs).value + Strip(s, glyphs) + Assemble(b, glyphs).value
  {
    AssembleAround(a, Str(s), b, glyphs);
  }

  /** A `placeholder` tag contributes `{` + its text + `}`. */
  lemma PlaceholderRendering(a: seq<Node>, p: Node, b: seq<Node>, glyphs: set<char>)
    requires p.Tag? && |p.classes| > 0 && p.classes[0] == "placeholder"
    requires Assemble(a + [p] + b, glyphs).Ok?
    ensures Assemble(a, glyphs).Ok? && Assemble(b, glyphs).Ok?
    ensures Assemble(a + [p] + b, glyphs).value ==
            Assemble(a, glyphs).value + "{" + TextOf(p) + "}" + Assemble(b, glyphs).value
  {
    AssembleAround(a, p, b, glyphs);
  }

  /** Any other tag with a class contributes nothing. */
  lemma OtherTagRendering(a: seq<Node>, p: Node, b: seq<Node>, glyphs: set<char>)
    requires p.Tag? && |p.classes| > 0 && p.classes[0] != "placeholder"
    requires Assemble(a + [p] + b, glyphs).Ok?
    ensures Assemble(a, glyphs).Ok? && Assemble(b, glyphs).Ok?
    ensures Assemble(a + [p] + b, glyphs).value == Assemble(a, glyphs).value + Assemble(b, glyphs).value
  {
    AssembleAround(a, p, b, glyphs);
    assert Assemble(a, glyphs).value + "" == Assemble(a, glyphs).value;
  }

  /** Assembly fails exactly when some child is a tag without a class, and
      then with `KeyError`. */
  lemma {:induction false} AssembleFailure(parts: seq<Node>, glyphs: set<char>)
    ensures Assemble(parts, glyphs).Fail? <==> exists k :: 0 <= k < |parts| && Classless(parts[k])
    ensures Assemble(parts, glyphs).Fail? ==> Assemble(parts, glyphs).error == KeyError
  {
    if |parts| > 0 {
      AssembleFailure(parts[1..], glyphs);
      AssembleStep(parts, glyphs);
      if exists k :: 0 <= k < |parts[1..]| && Classless(parts[1..][k]) {
        var k :| 0 <= k < |parts[1..]| && Classless(parts[1..][k]);
        assert parts[k + 1] == parts[1..][k];
      }
      if exists k :: 0 <= k < |parts| && Classless(parts[k]) {
        var k :| 0 <= k < |parts| && Classless(parts[k]);
        if k > 0 {
          assert parts[1..][k - 1] == parts[k];
        }
      }
    }
  }

  // ================================================================
  // The heading's marker window
  // ================================================================

  /** The window of line 74 always lies between the first `span` and the
      next one: it is a prefix of the children strictly between them (so it
      holds no `span`), and it is all of them when the first `span` is the
      first child. */
  lemma WindowWithinMarkers(ns: seq<Node>)
    requires FirstSpan(ns) < |ns|
    ensures var first := FirstSpan(ns);
            var stop := first + 1 + FirstSpan(ns[first + 1..]);
            stop <= |ns|
            && (stop < |ns| ==> IsSpan(ns[stop]))
            && Window(ns) <= ns[first + 1..stop]
            && (forall k :: 0 <= k < |Window(ns)| ==> !IsSpan(Window(ns)[k]))
            && (first == 0 ==> Window(ns) == ns[1..stop])
  {
    var first := FirstSpan(ns);
    var rest := ns[first + 1..];
    var second := FirstSpan(rest);
    WindowPrefix(ns, first, second);
    assert first + 1 + second < |ns| ==> ns[first + 1 + second] == rest[second];
  }

  /** The slice of line 74 as a prefix of the children after the first
      marker, shorter than the distance to the next marker. */
  lemma WindowPrefix(ns: seq<Node>, first: nat, second: nat)
    requires first < |ns| && first == FirstSpan(ns) && second == FirstSpan(ns[first + 1..])
    ensures Window(ns) == ns[first + 1..][..if first < second then second - first else 0]
    ensures Window(ns) <= ns[first + 1..first + 1 + second]
    ensures forall k :: 0 <= k < |Window(ns)| ==> !IsSpan(Window(ns)[k])
  {
    var rest := ns[first + 1..];
    var w := Slice(ns, first + 1, second + 1);
    assert Window(ns) == w;
    var len := if first < second then second - first else 0;
    assert w == rest[..len];
    assert ns[first + 1..first + 1 + second] == rest[..second];
    forall k | 0 <= k < len ensures !IsSpan(w[k]) {
      assert w[k] == rest[k];
      FirstSpanIsFirst(rest, k);
    }
  }

  /** A heading whose first `span` is not its first child loses children of
      its URL: here `/api/v1/me` lies between the two markers but the
      window of line 74 is empty. */
  lemma LateMarkerLosesUrl()
    ensures var ns := [Str(" "), Tag("span", ["method"], None, [Str("GET ")]),
                       Str("/api/v1/me"), Tag("span", ["oauth-scope-list"], None, [])];
            FirstSpan(ns) == 1 && Window(ns) == [] && ns[2..3] == [Str("/api/v1/me")]
            && WindowUrl(Tag("h3", [], None, ns)) == Ok("")
  {
    var ns := [Str(" "), Tag("span", ["method"], None, [Str("GET ")]),
               Str("/api/v1/me"), Tag("span", ["oauth-scope-list"], None, [])];
    assert !IsSpan(ns[0]) && IsSpan(ns[1]) && !IsSpan(ns[2]) && IsSpan(ns[3]);
    assert ns[2..][0] == ns[2] && ns[2..][1] == ns[3];
    assert FirstSpan(ns[2..]) == 1;
  }

  // ================================================================
  // Colon segments
  // ================================================================

  /** After line 92 the URL has as many `/`-separated segments as before;
      each is the rewrite of the original one (so segments not starting
      with `:` are unchanged and `:name` became `{name}`), and none starts
      with `:`. */
  lemma ColonRewriteSegments(url: string)
    ensures var before := Split(url, '/');
            var after := Split(RewriteColons(url), '/');
            |after| == |before|
            && (forall k :: 0 <= k < |after| ==> after[k] == RewriteSegment(before[k]))
            && (forall k :: 0 <= k < |after| ==> !StartsWithColon(after[k]))
  {
    var segs := Split(url, '/');
    if ':' in url {
      var rew := seq(|segs|, k requires 0 <= k < |segs| => RewriteSegment(segs[k]));
      forall k | 0 <= k < |rew| ensures '/' !in rew[k] {
        if StartsWithColon(segs[k]) {
          StripAvoids(segs[k], {':'}, '/');
        }
      }
      SplitJoin(rew, '/');
    } else {
      SplitAvoids(url, '/', ':');
    }
  }

  /** The guard of line 91 changes nothing: without a colon the rewrite of
      line 92 would give the URL back anyway. */
  lemma ColonGuardRedundant(url: string)
    requires ':' !in url
    ensures ColonsToBraces(url) == url
  {
    var segs := Split(url, '/');
    SplitAvoids(url, '/', ':');
    var rew := seq(|segs|, k requires 0 <= k < |segs| => RewriteSegment(segs[k]));
    assert rew == segs;
    JoinSplit(url, '/');
  }

  // ================================================================
  // Variants and parameters
  // ================================================================

  /** The variant list succeeds exactly when every variant does, and then
      holds one `(id, url)` per variant, in document order. */
  lemma {:induction false} VariantListContents(vs: seq<Node>)
    ensures VariantList(vs).Ok? <==> forall k :: 0 <= k < |vs| ==> VariantEntry(vs[k]).Ok?
    ensures VariantList(vs).Ok? ==>
              |VariantList(vs).value| == |vs|
              && forall k :: 0 <= k < |vs| ==> VariantEntry(vs[k]) == Ok(VariantList(vs).value[k])
  {
    if |vs| > 0 {
      VariantListContents(vs[1..]);
      assert forall k :: 1 <= k < |vs| ==> vs[k] == vs[1..][k - 1];
    }
  }

  /** A row the comprehension can read: a tag with at least two cells. */
  predicate TwoCells(p: Node)
  {
    p.Tag? && |p.children| >= 2
  }

  predicate AllTwoCells(rows: seq<Node>)
  {
    forall k :: 0 <= k < |rows| ==> TwoCells(rows[k])
  }

  /** A parameter's name: its first cell's text. */
  function RowName(p: Node): string
    requires TwoCells(p)
  {
    TextOf(p.children[0])
  }

  /** A parameter's value: its second cell's text without surrounding
      whitespace. */
  function RowValue(p: Node): string
    requires TwoCells(p)
  {
    Strip(TextOf(p.children[1]), Whitespace)
  }

  /** A row reads exactly when it has two cells, as its name and value. */
  lemma RowEntryValue(p: Node)
    ensures RowEntry(p).Ok? <==> TwoCells(p)
    ensures TwoCells(p) ==> RowEntry(p) == Ok((RowName(p), RowValue(p)))
  {
  }

  /** The names of the rows, in order. */
  function RowNames(rows: seq<Node>): (r: seq<string>)
    requires AllTwoCells(rows)
    ensures |r| == |rows| && forall k :: 0 <= k < |rows| ==> r[k] == RowName(rows[k])
  {
    seq(|rows|, k requires 0 <= k < |rows| => RowName(rows[k]))
  }

  /** Row `k` is the last row with its name. */
  predicate LastRowWith(rows: seq<Node>, k: int)
    requires AllTwoCells(rows) && 0 <= k < |rows|
  {
    forall j :: k < j < |rows| ==> RowName(rows[j]) != RowName(rows[k])
  }

  /** The parameter dict of line 61 is built exactly when every row has
      two cells. */
  lemma {:induction false} ParamsTableSucceeds(rows: seq<Node>)
    ensures ParamsTable(rows).Ok? <==> AllTwoCells(rows)
  {
    if |rows| > 0 {
      var n := |rows| - 1;
      var init := rows[..n];
      ParamsTableSucceeds(init);
      RowEntryValue(rows[n]);
      assert ParamsTable(rows).Ok? <==> ParamsTable(init).Ok? && TwoCells(rows[n]);
      assert forall k :: 0 <= k < n ==> init[k] == rows[k];
    }
  }

  /** The names of all rows are those of all but the last, and the last's. */
  lemma RowNamesLast(rows: seq<Node>)
    requires |rows| > 0 && AllTwoCells(rows)
    ensures AllTwoCells(rows[..|rows| - 1])
    ensures forall key :: key in RowNames(rows) <==>
              key in RowNames(rows[..|rows| - 1]) || key == RowName(rows[|rows| - 1])
  {
    var n := |rows| - 1;
    var init := rows[..n];
    assert forall j :: 0 <= j < n ==> init[j] == rows[j];
    var names := RowNames(rows);
    var inits := RowNames(init);
    assert forall j :: 0 <= j < n ==> inits[j] == names[j];
    forall key | key in names ensures key in inits || key == names[n] {
      var j :| 0 <= j < |rows| && names[j] == key;
      if j < n {
        assert inits[j] == key;
      }
    }
  }

  /** Its keys are the rows' names. */
  lemma {:induction false} ParamsTableKeys(rows: seq<Node>)
    requires ParamsTable(rows).Ok?
    ensures AllTwoCells(rows)
    ensures forall key :: key in ParamsTable(rows).value <==> key in RowNames(rows)
  {
    ParamsTableSucceeds(rows);
    if |rows| > 0 {
      var n := |rows| - 1;
      var init := rows[..n];
      RowNamesLast(rows);
      ParamsTableSucceeds(init);
      ParamsTableKeys(init);
      RowEntryValue(rows[n]);
      assert ParamsTable(rows).value == ParamsTable(init).value[RowName(rows[n]) := RowValue(rows[n])];
    }
  }

  /** A name maps to the value of the last row carrying it: a later row
      overrides an earlier one. */
  lemma {:induction false} ParamsTableValues(rows: seq<Node>, k: int)
    requires ParamsTable(rows).Ok? && AllTwoCells(rows)
    requires 0 <= k < |rows| && LastRowWith(rows, k)
    ensures RowName(rows[k]) in ParamsTable(rows).value
    ensures ParamsTable(rows).value[RowName(rows[k])] == RowValue(rows[k])
  {
    var n := |rows| - 1;
    var init := rows[..n];
    RowEntryValue(rows[n]);
    assert ParamsTable(init).Ok?;
    assert ParamsTable(rows).value == ParamsTable(init).value[RowName(rows[n]) := RowValue(rows[n])];
    if k < n {
      assert forall j :: 0 <= j < n ==> init[j] == rows[j];
      assert LastRowWith(init, k);
      ParamsTableValues(init, k);
    }
  }

  // ================================================================
  // Registration
  // ================================================================

  /** The ids of a variant list, in order. */
  function VariantIds(vs: seq<(string, string)>): (r: seq<string>)
    ensures |r| == |vs| && forall k :: 0 <= k < |vs| ==> r[k] == vs[k].0
  {
    seq(|vs|, k requires 0 <= k < |vs| => vs[k].0)
  }

  /** Variant `k` is the last one with its id. */
  predicate LastVariantWith(vs: seq<(string, string)>, k: int)
    requires 0 <= k < |vs|
  {
    forall j :: k < j < |vs| ==> vs[j].0 != vs[k].0
  }

  /** Registering the variants adds exactly their ids. */
  lemma {:induction false} RegisterVariantsKeys(
    parsed: Dict<Descriptor>, vs: seq<(string, string)>,
    params: Option<map<string, string>>, description: Option<string>)
    ensures var m := AsMap(RegisterVariants(parsed, vs, params, description));
            forall key :: key in m <==> key in AsMap(parsed) || key in VariantIds(vs)
    decreases vs
  {
    if |vs| > 0 {
      var next := Put(parsed, vs[0].0, Descriptor(params, description, vs[0].1));
      PutAsMap(parsed, vs[0].0, Descriptor(params, description, vs[0].1));
      RegisterVariantsKeys(next, vs[1..], params, description);
      assert VariantIds(vs) == [vs[0].0] + VariantIds(vs[1..]);
    }
  }

  /** Keys that are not variant ids keep what they held. */
  lemma {:induction false} RegisterVariantsFrame(
    parsed: Dict<Descriptor>, vs: seq<(string, string)>,
    params: Option<map<string, string>>, description: Option<string>, key: string)
    requires key in AsMap(parsed) && key !in VariantIds(vs)
    ensures var m := AsMap(RegisterVariants(parsed, vs, params, description));
            key in m && m[key] == AsMap(parsed)[key]
    decreases vs
  {
    if |vs| > 0 {
      var next := Put(parsed, vs[0].0, Descriptor(params, description, vs[0].1));
      PutAsMap(parsed, vs[0].0, Descriptor(params, description, vs[0].1));
      assert VariantIds(vs) == [vs[0].0] + VariantIds(vs[1..]);
      RegisterVariantsFrame(next, vs[1..], params, description, key);
    }
  }

  /** Every variant id is given the details shared by the endpoint, and
      the URL of the last variant with that id. */
  lemma {:induction false} RegisterVariantsValues(
    parsed: Dict<Descriptor>, vs: seq<(string, string)>,
    params: Option<map<string, string>>, description: Option<string>, k: int)
    requires 0 <= k < |vs|
    ensures var m := AsMap(RegisterVariants(parsed, vs, params, description));
            vs[k].0 in m
            && m[vs[k].0].params == params && m[vs[k].0].description == description
            && (LastVariantWith(vs, k) ==> m[vs[k].0].url == vs[k].1)
    decreases vs
  {
    var next := Put(parsed, vs[0].0, Descriptor(params, description, vs[0].1));
    PutAsMap(parsed, vs[0].0, Descriptor(params, description, vs[0].1));
    var rest := vs[1..];
    if k > 0 {
      assert vs[k] == rest[k - 1];
      RegisterVariantsValues(next, rest, params, description, k - 1);
    } else if j :| 0 <= j < |rest| && rest[j].0 == vs[0].0 {
      assert !LastVariantWith(vs, 0) by { assert vs[j + 1] == rest[j]; }
      RegisterVariantsValues(next, rest, params, description, j);
    } else {
      assert vs[0].0 !in VariantIds(rest);
      RegisterVariantsFrame(next, rest, params, description, vs[0].0);
    }
  }

  /** Registering keeps the keys of the registry distinct. */
  lemma {:induction false} RegisterVariantsDistinct(
    parsed: Dict<Descriptor>, vs: seq<(string, string)>,
    params: Option<map<string, string>>, description: Option<string>)
    requires DistinctKeys(parsed)
    ensures DistinctKeys(RegisterVariants(parsed, vs, params, description))
    decreases vs
  {
    if |vs| > 0 {
      PutDistinct(parsed, vs[0].0, Descriptor(params, description, vs[0].1));
      RegisterVariantsDistinct(Put(parsed, vs[0].0, Descriptor(params, description, vs[0].1)), vs[1..], params, description);
    }
  }

  // ================================================================
  // One endpoint
  // ================================================================

  /** Where the parameter and description container sits: after the
      variants block when there is one. */
  function BoxIndex(e: Node): (r: nat)
    requires e.Tag? && |e.children| > 2
    ensures r == 2 || r == 3
    ensures r == 3 <==> IsVariantsBlock(e.children[2])
  {
    if IsVariantsBlock(e.children[2]) then 3 else 2
  }

  /** What a successful read of one endpoint found: the variants come from
      a `uri-variants` block, `params` exists exactly when the container
      has more than two children, and the description is the container's
      first grandchild's text. */
  lemma EndpointReading(e: Node)
    requires ReadEndpoint(e).Ok?
    ensures e.Tag? && |e.children| > BoxIndex(e) && e.children[BoxIndex(e)].Tag?
    ensures var rd := ReadEndpoint(e).value;
            var box := e.children[BoxIndex(e)].children;
            (IsVariantsBlock(e.children[2]) ==> VariantList(e.children[2].children) == Ok(rd.variants))
            && (!IsVariantsBlock(e.children[2]) ==> rd.variants == [])
            && (rd.params.Some? <==> |box| > 2)
            && (rd.params.Some? ==> box[2].Tag? && ParamsTable(box[2].children) == Ok(rd.params.value))
            && DescriptionOf(box) == Ok(rd.description)
            && WindowUrl(e.children[1]) == Ok(rd.url)
  {
    var c := e.children;
    assert ReadVariants(c).Ok?;
    var vp := ReadVariants(c).value;
    assert vp.1 == BoxIndex(e);
    var box := c[vp.1];
    assert ReadDetails(box).Ok?;
  }

  /** An endpoint without variants is registered under its own id, with
      the heading's URL after the colon rewrite. */
  lemma SingleVariantEndpoint(e: Node, parsed: Dict<Descriptor>)
    requires ReadEndpoint(e).Ok? && ReadEndpoint(e).value.variants == []
    ensures ExtractEndpoint(e, parsed).Ok? <==> e.Tag? && e.id.Some?
    ensures ExtractEndpoint(e, parsed).Ok? ==>
              var rd := ReadEndpoint(e).value;
              AsMap(ExtractEndpoint(e, parsed).value) ==
              AsMap(parsed)[e.id.value := Descriptor(rd.params, rd.description, RewriteColons(rd.url))]
  {
    if ExtractEndpoint(e, parsed).Ok? {
      var rd := ReadEndpoint(e).value;
      PutAsMap(parsed, e.id.value, Descriptor(rd.params, rd.description, RewriteColons(rd.url)));
    }
  }

  /** An endpoint with variants is registered once per variant id, all
      sharing its details; its own id is not read (a missing one raises
      nothing) and nothing else changes. */
  lemma MultiVariantEndpoint(e: Node, parsed: Dict<Descriptor>)
    requires ReadEndpoint(e).Ok? && |ReadEndpoint(e).value.variants| > 0
    ensures ExtractEndpoint(e, parsed).Ok?
    ensures var rd := ReadEndpoint(e).value;
            var vs := rd.variants;
            var m := AsMap(ExtractEndpoint(e, parsed).value);
            (forall key :: key in m <==> key in AsMap(parsed) || key in VariantIds(vs))
            && (forall k :: 0 <= k < |vs| ==>
                  vs[k].0 in m && m[vs[k].0].params == rd.params && m[vs[k].0].description == rd.description)
            && (forall k :: 0 <= k < |vs| && LastVariantWith(vs, k) ==> m[vs[k].0].url == vs[k].1)
            && (forall key :: key in AsMap(parsed) && key !in VariantIds(vs) ==> m[key] == AsMap(parsed)[key])
  {
    var rd := ReadEndpoint(e).value;
    var vs := rd.variants;
    assert ExtractEndpoint(e, parsed) == Ok(RegisterVariants(parsed, vs, rd.params, rd.description));
    RegisterVariantsKeys(parsed, vs, rd.params, rd.description);
    forall k | 0 <= k < |vs|
      ensures var m := AsMap(RegisterVariants(parsed, vs, rd.params, rd.description));
              vs[k].0 in m && m[vs[k].0].params == rd.params && m[vs[k].0].description == rd.description
              && (LastVariantWith(vs, k) ==> m[vs[k].0].url == vs[k].1)
    {
      RegisterVariantsValues(parsed, vs, rd.params, rd.description, k);
    }
    forall key | key in AsMap(parsed) && key !in VariantIds(vs)
      ensures var m := AsMap(RegisterVariants(parsed, vs, rd.params, rd.description));
              key in m && m[key] == AsMap(parsed)[key]
    {
      RegisterVariantsFrame(parsed, vs, rd.params, rd.description, key);
    }
  }

  // ================================================================
  // The whole pass
  // ================================================================

  /** An endpoint the loop body gets through without raising. */
  predicate Extractable(e: Node)
  {
    ReadEndpoint(e).Ok? && (|ReadEndpoint(e).value.variants| > 0 || IdOf(e).Ok?)
  }

  /** The ids an extractable endpoint is registered under: its variants'
      ids, or else its own. */
  function RegisteredIds(e: Node): (r: seq<string>)
    requires Extractable(e)
    ensures |r| >= 1
  {
    if |ReadEndpoint(e).value.variants| > 0 then VariantIds(ReadEndpoint(e).value.variants)
    else [IdOf(e).value]
  }

  /** One loop iteration never loses a key, and adds the endpoint's ids. */
  lemma ExtractEndpointKeys(e: Node, parsed: Dict<Descriptor>)
    ensures ExtractEndpoint(e, parsed).Ok? <==> Extractable(e)
    ensures ExtractEndpoint(e, parsed).Ok? ==>
              (forall key :: key in AsMap(parsed) ==> key in AsMap(ExtractEndpoint(e, parsed).value))
              && (forall id :: id in RegisteredIds(e) ==> id in AsMap(ExtractEndpoint(e, parsed).value))
  {
    if Extractable(e) {
      var rd := ReadEndpoint(e).value;
      if |rd.variants| > 0 {
        RegisterVariantsKeys(parsed, rd.variants, rd.params, rd.description);
      } else {
        PutAsMap(parsed, IdOf(e).value, Descriptor(rd.params, rd.description, RewriteColons(rd.url)));
      }
    }
  }

  /** The pass succeeds exactly when every endpoint is extractable: a
      single bad endpoint aborts it, whatever was registered before. */
  lemma {:induction false} ExtractAllSucceeds(es: seq<Node>, parsed: Dict<Descriptor>)
    ensures ExtractAll(es, parsed).Ok? <==> forall k :: 0 <= k < |es| ==> Extractable(es[k])
  {
    if |es| > 0 {
      ExtractEndpointKeys(es[0], parsed);
      if Extractable(es[0]) {
        ExtractAllSucceeds(es[1..], ExtractEndpoint(es[0], parsed).value);
      }
      assert forall k :: 1 <= k < |es| ==> es[k] == es[1..][k - 1];
    }
  }

  /** Every endpoint of a successful pass ends up registered: later
      endpoints may overwrite a descriptor but never remove an id. */
  lemma {:induction false} EveryEndpointRegistered(es: seq<Node>, parsed: Dict<Descriptor>)
    requires ExtractAll(es, parsed).Ok?
    ensures forall key :: key in AsMap(parsed) ==> key in AsMap(ExtractAll(es, parsed).value)
    ensures forall k :: 0 <= k < |es| ==> Extractable(es[k])
    ensures forall k, id :: 0 <= k < |es| && id in RegisteredIds(es[k]) ==> id in AsMap(ExtractAll(es, parsed).value)
  {
    ExtractAllSucceeds(es, parsed);
    if |es| > 0 {
      ExtractEndpointKeys(es[0], parsed);
      var next := ExtractEndpoint(es[0], parsed).value;
      EveryEndpointRegistered(es[1..], next);
      assert forall k :: 1 <= k < |es| ==> es[k] == es[1..][k - 1];
    }
  }

  /** A pass keeps the registry's keys distinct, so order-insensitive
      equality of the result is equality of its items up to order. */
  lemma {:induction false} ExtractAllDistinct(es: seq<Node>, parsed: Dict<Descriptor>)
    requires DistinctKeys(parsed) && ExtractAll(es, parsed).Ok?
    ensures DistinctKeys(ExtractAll(es, parsed).value)
  {
    if |es| > 0 {
      var rd := ReadEndpoint(es[0]).value;
      if |rd.variants| > 0 {
        RegisterVariantsDistinct(parsed, rd.variants, rd.params, rd.description);
      } else {
        PutDistinct(parsed, IdOf(es[0]).value, Descriptor(rd.params, rd.description, RewriteColons(rd.url)));
      }
      ExtractAllDistinct(es[1..], ExtractEndpoint(es[0], parsed).value);
    }
  }
}
