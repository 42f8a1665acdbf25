/** The endpoint extractor (`parseEndpoints`): from the tags of class
    `endpoint` on the documentation page to the registry of endpoint id to
    descriptor. The functions state what one pass computes; the methods
    below carry out the same steps as the source's loops and are proved to
    compute exactly that. */
module Extractor {
  import opened Results
  import opened PyStr
  import opened Markup
  import opened Registry

  /** What a URI variant's strings are trimmed of: arrows, spaces, brackets. */
  const VariantGlyphs: set<char> := {'→', ' ', '[', ']'}

  /** What a heading's strings are trimmed of. */
  const Brackets: set<char> := {'[', ']'}

  // ================================================================
  // URL assembly from inline parts (lines 52-58 and 74-83)
  // ================================================================

  /** What one child adds to an assembled URL, or `None` when the source
      appends nothing for it. A string is trimmed of `glyphs`; a tag of
      class `placeholder` becomes `{text}`; any other tag is skipped; a tag
      without a class raises `KeyError` at `attrs['class']`. */
  function Piece(part: Node, glyphs: set<char>): Result<Option<string>>
  {
    match part
    case Str(s) => Ok(Some(Strip(s, glyphs)))
    case Tag(_, classes, _, _) =>
      if |classes| == 0 then Fail(KeyError)
      else if classes[0] == "placeholder" then Ok(Some("{" + TextOf(part) + "}"))
      else Ok(None)
  }

  function Contribution(p: Option<string>): string
  {
    if p.Some? then p.value else ""
  }

  /** `''.join(parts)` after rendering every child in order; the first
      child that raises aborts the assembly. */
  function Assemble(parts: seq<Node>, glyphs: set<char>): Result<string>
  {
    if |parts| == 0 then Ok("")
    else
      var head :- Piece(parts[0], glyphs);
      var tail :- Assemble(parts[1..], glyphs);
      Ok(Contribution(head) + tail)
  }

  /** `r` with `prefix` put in front of its value. */
  function Prepend<T>(prefix: seq<T>, r: Result<seq<T>>): Result<seq<T>>
  {
    match r
    case Ok(s) => Ok(prefix + s)
    case Fail(e) => Fail(e)
  }

  lemma PrependNothing<T>(r: Result<seq<T>>)
    ensures Prepend([], r) == r
  {
    if r.Ok? {
      assert [] + r.value == r.value;
    }
  }

  lemma PrependTwice<T>(a: seq<T>, b: seq<T>, r: Result<seq<T>>)
    ensures Prepend(a, Prepend(b, r)) == Prepend(a + b, r)
  {
    if r.Ok? {
      assert a + (b + r.value) == (a + b) + r.value;
    }
  }

  /** One step of `Assemble`: the first child's contribution goes in front. */
  lemma AssembleStep(parts: seq<Node>, glyphs: set<char>)
    requires |parts| > 0
    ensures Piece(parts[0], glyphs).Fail? ==> Assemble(parts, glyphs) == Fail(Piece(parts[0], glyphs).error)
    ensures Piece(parts[0], glyphs).Ok? ==>
              Assemble(parts, glyphs) == Prepend(Contribution(Piece(parts[0], glyphs).value), Assemble(parts[1..], glyphs))
  {
  }

  // ================================================================
  // The heading's marker window (lines 67-74)
  // ================================================================

  /** `elements.index('span')` over the children's names, or `|ns|` when
      no child is a `span` (the value lines 69-72 use for "not found"). */
  function FirstSpan(ns: seq<Node>): (r: nat)
    ensures r <= |ns|
    ensures r < |ns| ==> IsSpan(ns[r])
  {
    if |ns| == 0 || IsSpan(ns[0]) then 0 else 1 + FirstSpan(ns[1..])
  }

  /** No child before `FirstSpan` is a `span`: it is the first one. */
  lemma {:induction false} FirstSpanIsFirst(ns: seq<Node>, k: int)
    requires 0 <= k < FirstSpan(ns)
    ensures !IsSpan(ns[k])
  {
    if k > 0 {
      assert ns[k] == ns[1..][k - 1];
      FirstSpanIsFirst(ns[1..], k - 1);
    }
  }

  /** Python's `s[lo:hi]` for non-negative bounds: clamped, and empty when
      the bounds cross. */
  function Slice<T>(s: seq<T>, lo: nat, hi: nat): (r: seq<T>)
    ensures lo <= hi <= |s| ==> r == s[lo..hi]
    ensures hi <= lo ==> r == []
  {
    var h := if hi < |s| then hi else |s|;
    if lo < h then s[lo..h] else []
  }

  /** The children line 74 walks: it starts after the first `span`, but its
      end is the position of the next `span` counted from the element after
      the first one, used as if it were counted from the start. */
  function Window(ns: seq<Node>): seq<Node>
    requires FirstSpan(ns) < |ns|
  {
    var first := FirstSpan(ns);
    var second := FirstSpan(ns[first + 1..]);
    Slice(ns, first + 1, second + 1)
  }

  /** Lines 67-83: the URL read from the heading. Iterating over a string
      child yields characters, whose `.name` raises, and an empty one gives
      an empty `elements` list, where `index` raises `ValueError`. */
  function WindowUrl(heading: Node): Result<string>
  {
    match heading
    case Str(s) => if |s| == 0 then Fail(ValueError) else Fail(AttributeError)
    case Tag(_, _, _, ns) =>
      if FirstSpan(ns) == |ns| then Fail(ValueError)
      else Assemble(Window(ns), Brackets)
  }

  // ================================================================
  // Colon segments (lines 91-92)
  // ================================================================

  predicate StartsWithColon(seg: string)
  {
    |seg| > 0 && seg[0] == ':'
  }

  /** One `/`-separated segment: `:name` becomes `{name}` (every colon at
      either end is stripped); other segments are kept. */
  function RewriteSegment(seg: string): string
  {
    if StartsWithColon(seg) then "{" + Strip(seg, {':'}) + "}" else seg
  }

  /** The comprehension of line 92, without the guard of line 91. */
  function ColonsToBraces(url: string): string
  {
    var segs := Split(url, '/');
    Join(seq(|segs|, k requires 0 <= k < |segs| => RewriteSegment(segs[k])), '/')
  }

  /** Lines 91-92: the rewrite is only attempted when the URL has a colon. */
  function RewriteColons(url: string): string
  {
    if ':' in url then ColonsToBraces(url) else url
  }

  // ================================================================
  // URI variants, parameters, description (lines 47-66)
  // ================================================================

  /** One URI variant (lines 51-58): its parts assembled with the variant
      glyphs, then its `id` attribute. */
  function VariantEntry(v: Node): (r: Result<(string, string)>)
    ensures r.Ok? <==> v.Tag? && Assemble(v.children, VariantGlyphs).Ok? && v.id.Some?
    ensures r.Ok? ==> r.value == (v.id.value, Assemble(v.children, VariantGlyphs).value)
    ensures r.Fail? && v.Tag? && Assemble(v.children, VariantGlyphs).Ok? ==> r.error == KeyError
  {
    var parts :- ChildrenOf(v);
    var url :- Assemble(parts, VariantGlyphs);
    var id :- IdOf(v);
    Ok((id, url))
  }

  /** `urlVariants`: every child of the variants block, in order. */
  function VariantList(vs: seq<Node>): Result<seq<(string, string)>>
  {
    if |vs| == 0 then Ok([])
    else
      var head :- VariantEntry(vs[0]);
      var tail :- VariantList(vs[1..]);
      Ok([head] + tail)
  }

  /** One row of the parameter table: the first cell's text, and the
      second cell's text without surrounding whitespace. */
  function RowEntry(p: Node): (r: Result<(string, string)>)
    ensures r.Ok? <==> p.Tag? && |p.children| >= 2
    ensures r.Fail? ==> r.error == (if p.Str? then AttributeError else IndexError)
  {
    var cells :- ChildrenOf(p);
    var key :- At(cells, 0);
    var val :- At(cells, 1);
    Ok((TextOf(key), Strip(TextOf(val), Whitespace)))
  }

  /** The dict comprehension of line 61: rows are read in order and a
      later row with the same name overrides an earlier one. */
  function ParamsTable(rows: seq<Node>): Result<map<string, string>>
  {
    if |rows| == 0 then Ok(map[])
    else
      var m :- ParamsTable(rows[..|rows| - 1]);
      var e :- RowEntry(rows[|rows| - 1]);
      Ok(m[e.0 := e.1])
  }

  /** Line 61 applied to the third child of the parameter container. */
  function ParamsOf(table: Node): Result<Option<map<string, string>>>
  {
    var rows :- ChildrenOf(table);
    var m :- ParamsTable(rows);
    Ok(Some(m))
  }

  /** Lines 63-66, given the container's children: the text of the first
      grandchild; `None` where an index is out of range (the `IndexError`
      the source catches). A first child that is a string raises
      `AttributeError`, which the source does not catch. */
  function DescriptionOf(box: seq<Node>): (r: Result<Option<string>>)
    ensures r.Ok? <==> |box| == 0 || box[0].Tag?
    ensures r == Ok(None) <==> |box| == 0 || (box[0].Tag? && |box[0].children| == 0)
    ensures r.Ok? && r.value.Some? ==> r.value.value == TextOf(box[0].children[0])
  {
    if |box| == 0 then Ok(None)
    else
      match box[0]
      case Str(_) => Fail(AttributeError)
      case Tag(_, _, _, cs) => if |cs| == 0 then Ok(None) else Ok(Some(TextOf(cs[0])))
  }

  // ================================================================
  // One endpoint, and the whole pass (lines 40-94)
  // ================================================================

  /** What lines 42-83 read from one endpoint before registering it. */
  datatype Reading = Reading(
    variants: seq<(string, string)>,
    params: Option<map<string, string>>,
    description: Option<string>,
    url: string)

  predicate IsVariantsBlock(n: Node)
  {
    n.Tag? && |n.classes| > 0 && n.classes[0] == "uri-variants"
  }

  /** Lines 43-59 after `contents = i.contents[1]`: the variants (empty
      unless the third child is a `uri-variants` block) and the index of
      the container that holds the description and the parameters. */
  function ReadVariants(c: seq<Node>): Result<(seq<(string, string)>, nat)>
  {
    var block :- At(c, 2);
    var cls :- FirstClass(block);
    if cls == "uri-variants" then
      var variants :- VariantList(block.children);
      Ok((variants, 3))
    else Ok(([], 2))
  }

  /** Lines 60-66: the parameters and the description from the container. */
  function ReadDetails(box: Node): Result<(Option<map<string, string>>, Option<string>)>
  {
    var rows :- ChildrenOf(box);
    var params :- if |rows| > 2 then ParamsOf(rows[2]) else Ok(None);
    var description :- DescriptionOf(rows);
    Ok((params, description))
  }

  /** Lines 42-83, in the order the source evaluates them. */
  function ReadEndpoint(e: Node): Result<Reading>
  {
    var c :- ChildrenOf(e);
    var heading :- At(c, 1);
    var vp :- ReadVariants(c);
    var box :- At(c, vp.1);
    var details :- ReadDetails(box);
    var url :- WindowUrl(heading);
    Ok(Reading(vp.0, details.0, details.1, url))
  }

  /** Lines 85-87: every variant id gets the shared details with its own URL. */
  function RegisterVariants(
    parsed: Dict<Descriptor>, vs: seq<(string, string)>,
    params: Option<map<string, string>>, description: Option<string>): Dict<Descriptor>
    decreases vs
  {
    if |vs| == 0 then parsed
    else RegisterVariants(Put(parsed, vs[0].0, Descriptor(params, description, vs[0].1)), vs[1..], params, description)
  }

  /** One iteration of the loop of line 41. */
  function ExtractEndpoint(e: Node, parsed: Dict<Descriptor>): Result<Dict<Descriptor>>
  {
    var reading :- ReadEndpoint(e);
    if |reading.variants| > 0 then
      Ok(RegisterVariants(parsed, reading.variants, reading.params, reading.description))
    else
      var id :- IdOf(e);
      Ok(Put(parsed, id, Descriptor(reading.params, reading.description, RewriteColons(reading.url))))
  }

  /** The loop of line 41 over the endpoint tags, from a given registry. */
  function ExtractAll(es: seq<Node>, parsed: Dict<Descriptor>): Result<Dict<Descriptor>>
  {
    if |es| == 0 then Ok(parsed)
    else
      var next :- ExtractEndpoint(es[0], parsed);
      ExtractAll(es[1..], next)
  }

  // ================================================================
  // The imperative model of parseEndpoints
  // ================================================================

  /** The loops of lines 52-57 and 74-83: render each child and join. */
  method AssembleParts(parts: seq<Node>, glyphs: set<char>) returns (r: Result<string>)
    ensures r == Assemble(parts, glyphs)
  {
    var pieces: seq<string> := [];
    var k := 0;
    assert parts[k..] == parts;
    PrependNothing(Assemble(parts, glyphs));
    while k < |parts|
      invariant 0 <= k <= |parts|
      invariant Assemble(parts, glyphs) == Prepend(Concat(pieces), Assemble(parts[k..], glyphs))
    {
      assert parts[k..][1..] == parts[k + 1..];
      AssembleStep(parts[k..], glyphs);
      var part := parts[k];
      var piece := Piece(part, glyphs);
      if piece.Fail? {
        return Fail(KeyError);
      }
      PrependTwice(Concat(pieces), Contribution(piece.value), Assemble(parts[k + 1..], glyphs));
      match part {
        case Str(s) =>
          assert piece.value == Some(Strip(s, glyphs));
          ConcatAppend(pieces, Strip(s, glyphs));
          pieces := pieces + [Strip(s, glyphs)];
        case Tag(_, classes, _, _) =>
          if classes[0] == "placeholder" {
            assert piece.value == Some("{" + TextOf(part) + "}");
            ConcatAppend(pieces, "{" + TextOf(part) + "}");
            pieces := pieces + ["{" + TextOf(part) + "}"];
          } else {
            assert Contribution(piece.value) == "";
            assert Concat(pieces) + "" == Concat(pieces);
          }
      }
      k := k + 1;
    }
    assert Concat(pieces) + "" == Concat(pieces);
    return Ok(Concat(pieces));
  }

  /** The loop of lines 50-58 over the children of the variants block. */
  method CollectVariants(vs: seq<Node>) returns (r: Result<seq<(string, string)>>)
    ensures r == VariantList(vs)
  {
    var urlVariants: seq<(string, string)> := [];
    var k := 0;
    assert vs[k..] == vs;
    PrependNothing(VariantList(vs));
    while k < |vs|
      invariant 0 <= k <= |vs|
      invariant VariantList(vs) == Prepend(urlVariants, VariantList(vs[k..]))
    {
      assert vs[k..][1..] == vs[k + 1..];
      var variant := vs[k];
      if variant.Str? {
        return Fail(AttributeError);
      }
      var url := AssembleParts(variant.children, VariantGlyphs);
      if url.Fail? {
        return Fail(url.error);
      }
      if variant.id.None? {
        return Fail(KeyError);
      }
      assert VariantEntry(variant) == Ok((variant.id.value, url.value));
      PrependTwice(urlVariants, [(variant.id.value, url.value)], VariantList(vs[k + 1..]));
      urlVariants := urlVariants + [(variant.id.value, url.value)];
      k := k + 1;
    }
    assert urlVariants + [] == urlVariants;
    return Ok(urlVariants);
  }

  /** Lines 43-59: look for a variants block as the third child. */
  method ParseVariants(c: seq<Node>) returns (r: Result<(seq<(string, string)>, nat)>)
    ensures r == ReadVariants(c)
  {
    var urlVariants: seq<(string, string)> := [];
    var paramsIndex := 2;
    if |c| < 3 {
      return Fail(IndexError);
    }
    var block := c[2];
    if block.Str? {
      return Fail(AttributeError);
    }
    if |block.classes| == 0 {
      return Fail(KeyError);
    }
    if block.classes[0] == "uri-variants" {
      var got := CollectVariants(block.children);
      if got.Fail? {
        return Fail(got.error);
      }
      urlVariants := got.value;
      paramsIndex := paramsIndex + 1;
    }
    return Ok((urlVariants, paramsIndex));
  }

  /** Lines 60-66: fill in `params` and `description`. */
  method ParseDetails(box: Node) returns (r: Result<(Option<map<string, string>>, Option<string>)>)
    ensures r == ReadDetails(box)
  {
    if box.Str? {
      return Fail(AttributeError);
    }
    var params: Option<map<string, string>> := None;
    if |box.children| > 2 {
      var table := ParamsOf(box.children[2]);
      if table.Fail? {
        return Fail(table.error);
      }
      params := table.value;
    }
    var description := DescriptionOf(box.children);
    if description.Fail? {
      return Fail(description.error);
    }
    return Ok((params, description.value));
  }

  /** Lines 67-83: locate the markers and assemble the window. */
  method ParseHeading(heading: Node) returns (r: Result<string>)
    ensures r == WindowUrl(heading)
  {
    if heading.Str? {
      return if |heading.value| == 0 then Fail(ValueError) else Fail(AttributeError);
    }
    var ns := heading.children;
    var firstSpan := FirstSpan(ns);
    if firstSpan == |ns| {
      return Fail(ValueError);
    }
    var secondSpan := FirstSpan(ns[firstSpan + 1..]);
    var window := Slice(ns, firstSpan + 1, secondSpan + 1);
    assert window == Window(ns);
    assert WindowUrl(heading) == Assemble(window, Brackets);
    r := AssembleParts(window, Brackets);
  }

  /** The body of the loop of line 41 for endpoint tag `e`. */
  method ParseEndpoint(e: Node, parsed: Dict<Descriptor>) returns (r: Result<Dict<Descriptor>>)
    ensures r == ExtractEndpoint(e, parsed)
  {
    if e.Str? {
      return Fail(AttributeError);
    }
    var c := e.children;
    if |c| < 2 {
      return Fail(IndexError);
    }
    var heading := c[1];
    var vp := ParseVariants(c);
    if vp.Fail? {
      return Fail(vp.error);
    }
    var (urlVariants, paramsIndex) := vp.value;
    if |c| <= paramsIndex {
      return Fail(IndexError);
    }
    var got := ParseDetails(c[paramsIndex]);
    if got.Fail? {
      return Fail(got.error);
    }
    var (params, description) := got.value;
    var url := ParseHeading(heading);
    if url.Fail? {
      return Fail(url.error);
    }
    var details := Descriptor(params, description, url.value);
    if |urlVariants| > 0 {
      r := RegisterEach(parsed, urlVariants, details);
    } else {
      if e.id.None? {
        return Fail(KeyError);
      }
      if ':' in details.url {
        details := details.(url := ColonsToBraces(details.url));
      }
      return Ok(Put(parsed, e.id.value, details));
    }
  }

  /** Lines 85-87: store a copy of the details under every variant id,
      each time with that variant's URL. */
  method RegisterEach(parsed: Dict<Descriptor>, urlVariants: seq<(string, string)>, details: Descriptor)
    returns (r: Result<Dict<Descriptor>>)
    ensures r == Ok(RegisterVariants(parsed, urlVariants, details.params, details.description))
  {
    var out := parsed;
    var current := details;
    var k := 0;
    assert urlVariants[k..] == urlVariants;
    while k < |urlVariants|
      invariant 0 <= k <= |urlVariants|
      invariant current.params == details.params && current.description == details.description
      invariant RegisterVariants(parsed, urlVariants, details.params, details.description)
             == RegisterVariants(out, urlVariants[k..], details.params, details.description)
    {
      assert urlVariants[k..][1..] == urlVariants[k + 1..];
      current := current.(url := urlVariants[k].1);
      out := Put(out, urlVariants[k].0, current);
      k := k + 1;
    }
    return Ok(out);
  }

  /** `parseEndpoints` after the page has been fetched and its endpoint
      tags selected: the loop of line 41, starting from `{}`. */
  method ParseEndpoints(endpoints: seq<Node>) returns (r: Result<Dict<Descriptor>>)
    ensures r == ExtractAll(endpoints, [])
  {
    var parsed: Dict<Descriptor> := [];
    var k := 0;
    assert endpoints[k..] == endpoints;
    while k < |endpoints|
      invariant 0 <= k <= |endpoints|
      invariant ExtractAll(endpoints, []) == ExtractAll(endpoints[k..], parsed)
    {
      assert endpoints[k..][1..] == endpoints[k + 1..];
      var next := ParseEndpoint(endpoints[k], parsed);
      if next.Fail? {
        return Fail(next.error);
      }
      parsed := next.value;
      k := k + 1;
    }
    return Ok(parsed);
  }
}
