# RedditAPIChecker: the endpoint extractor, the coverage report and the change decision

RedditAPIChecker periodically reads Reddit's public API documentation page,
turns it into a registry that maps each endpoint id to a descriptor (its
parameters, its description and its URL template), compares that registry
with the last stored snapshot, and reports a change when they differ. This
project models the logic in `__main__.py` and proves properties of it:

- **The extractor** (`parseEndpoints`, lines 35-94) works over an abstract
  document tree (`Markup.Node`: a string, or a tag with a name, a class list,
  an optional `id` and children). For each endpoint tag it reads:
  - the optional `uri-variants` block;
  - the parameter table and the description;
  - the heading's URL, taken from the children in the window of line 74 and
    rendered with strings trimmed and `placeholder` tags as `{text}`.

  It then registers the endpoint:
  - an endpoint with variants is stored under every variant id;
  - an endpoint without variants is stored under its own id, with `:name`
    segments rewritten to `{name}`.

  `Extractor` gives the pass as functions and as the loops of the source
  (methods proved equal to those functions). `ExtractorLemmas` proves what
  the pass guarantees.
- **The coverage report** (`printEndpointsNotInPRAW`, lines 96-115)
  rewrites every registered name and URL by seven textual rules, in order.
  It lists the entries whose URL is not among the reference client's paths.
  This is `Normalizer`.
- **The change decision** (lines 137-183) compares the registries as
  dicts and picks the archive revision that labels the diff. This is
  `Differ`.

Python exceptions are values (`Results.Result`, with the exception kind in
`Fail`), so every error path of the source is modelled, not excluded. The
registry is an insertion-ordered association list (`Registry.Dict`). The
report walks it in that order, and `==` compares it through `AsMap`, which
ignores order as Python's dict equality does. `PyStr` gives Python's
semantics for `strip`, `split`/`join` on `/`, `replace`, and string
ordering.

Two behaviours of the code are modelled exactly as written:

- **The heading's URL window.** A heading holds two `span` markers with
  the URL's children between them. Line 70 finds `secondSpan` by searching
  `elements[firstSpan+1:]`, so it is an index relative to the child just
  after the first `span`. Line 74 uses it as an absolute end index into
  the whole list.
  - `ExtractorLemmas.WindowWithinMarkers` proves that the window is always a
    prefix of the children between the markers, and all of them when the
    first `span` is the heading's first child.
  - `ExtractorLemmas.LateMarkerLosesUrl` gives a heading where the URL is
    lost.
- **Errors after a change is detected.** The catch-all at lines 181-182
  returns whatever `changes` holds at that point. Line 151 sets it to
  `True` before the archive is consulted, so an exception raised after
  line 151 still returns `True` (see Findings).

## Model

| member | source | states |
|---|---|---|
| PyStr.StripLeft | __main__.py:54 | `lstrip` never lengthens the string |
| PyStr.StripLeftFacts | __main__.py:54 | `lstrip`: the result is a suffix of the input, everything dropped is in the set, and the result does not start with a character of the set |
| PyStr.StripRight | __main__.py:54 | `rstrip` never lengthens the string |
| PyStr.StripRightFacts | __main__.py:54 | `rstrip`: the result is a prefix of the input, everything dropped is in the set, and the result does not end with a character of the set |
| PyStr.Strip | __main__.py:54 | `strip(chars)`: the result is no longer than the input, and neither of its ends is a character of the set |
| PyStr.StripIsInfix | __main__.py:76 | `strip` removes exactly a run of set characters at each end: the result is the infix of the input between them |
| PyStr.StripKeeps | __main__.py:76 | a string whose ends are not in the set is returned unchanged |
| PyStr.StripIdempotent | __main__.py:76 | stripping twice is stripping once |
| PyStr.StripAvoids | __main__.py:92 | stripping never introduces a character absent from the input |
| PyStr.ConcatAppend | __main__.py:58 | `''.join` of a list with one more piece is the old join followed by that piece |
| PyStr.Split | __main__.py:92 | `split('/')` yields at least one segment, and no segment contains the separator |
| PyStr.SplitAvoids | __main__.py:92 | a character absent from the string is absent from every segment |
| PyStr.JoinSplit | __main__.py:92 | joining the segments of a split with the same separator gives the string back |
| PyStr.SplitWithoutSep | __main__.py:92 | a string without the separator splits into itself alone |
| PyStr.SplitAtSep | __main__.py:92 | splitting `a/b`, where `a` has no separator, gives `a` followed by the segments of `b` |
| PyStr.SplitJoin | __main__.py:92 | splitting a join of separator-free segments gives the segments back |
| PyStr.OccursInTail | __main__.py:111 | an occurrence of a pattern in the tail of a string is an occurrence in the string |
| PyStr.ReplaceAbsent | __main__.py:111 | `replace` with a non-empty pattern that does not occur leaves the string unchanged |
| PyStr.LexLeTotal | __main__.py:156 | Python's string order is total |
| PyStr.LexLeAntisymmetric | __main__.py:156 | two strings each `<=` the other are equal |
| PyStr.LexLeTransitive | __main__.py:156 | Python's string order is transitive |
| Markup.ChildrenOf | __main__.py:52 | `.contents` succeeds exactly on a tag and yields its children; on a string it raises `AttributeError` |
| Markup.At | __main__.py:43 | `contents[k]` yields element `k` exactly when `k` is in range, and otherwise raises `IndexError` |
| Markup.FirstClass | __main__.py:47 | `attrs['class'][0]` succeeds exactly on a tag with a class, and yields its first class |
| Markup.IdOf | __main__.py:90 | `attrs['id']` succeeds exactly on a tag with an `id`, and yields it |
| Registry.HasKeyIndex | __main__.py:150 | a dict has a key exactly when some item carries it |
| Registry.AsMapKeys | __main__.py:150 | the map a dict stands for has exactly the dict's keys |
| Registry.AsMapLookup | __main__.py:150 | in a dict with distinct keys every item is what its key looks up |
| Registry.Put | __main__.py:93 | `d[key] = v` keeps the key order when the key exists, and otherwise appends the item at the end |
| Registry.PutAsMap | __main__.py:87 | writing a key is a map update of what the dict stands for |
| Registry.PutDistinct | __main__.py:87 | writing a key never duplicates a key |
| Extractor.AssembleStep | __main__.py:74-83 | one step of URL assembly: the first child's contribution goes in front of the rest, and a child that raises aborts the assembly |
| Extractor.FirstSpan | __main__.py:67-72 | the index found is within the list, and a `span` sits there unless it is the list's length (no `span` at all) |
| Extractor.FirstSpanIsFirst | __main__.py:67-72 | no child before the index found is a `span`: it is the first one |
| Extractor.Slice | __main__.py:74 | Python slicing: the sub-list when the bounds are ordered and in range, empty when they cross |
| Extractor.VariantEntry | __main__.py:51-58 | a variant yields `(id, url)` exactly when it is a tag whose parts assemble and it has an `id`; with a missing `id` it raises `KeyError` |
| Extractor.RowEntry | __main__.py:61 | a parameter row is readable exactly when it is a tag with two cells; otherwise it raises `AttributeError` (a string) or `IndexError` |
| Extractor.DescriptionOf | __main__.py:63-66 | the description is the text of the container's first grandchild; it is `None`, without error, when the container or its first child is empty; a string first child raises |
| Extractor.AssembleParts | __main__.py:73-83 | the loop over the window's children computes exactly the assembled URL, failing where the source raises |
| Extractor.CollectVariants | __main__.py:50-58 | the loop over the variants block computes exactly the variant list |
| Extractor.ParseVariants | __main__.py:43-59 | the variants read and the container's index (2, or 3 after a `uri-variants` block) are exactly the specified ones |
| Extractor.ParseDetails | __main__.py:60-66 | the parameters and description read are exactly the specified ones |
| Extractor.ParseHeading | __main__.py:67-83 | the heading's URL is exactly the specified window assembly, including the `ValueError` when no `span` exists |
| Extractor.ParseEndpoint | __main__.py:42-93 | one loop iteration turns the registry into exactly the specified one |
| Extractor.RegisterEach | __main__.py:84-87 | the loop storing a copy of the details under each variant id computes exactly the specified registration |
| Extractor.ParseEndpoints | __main__.py:40-94 | the whole loop over endpoint tags, from `{}`, computes exactly the specified registry, or the first exception |
| ExtractorLemmas.AssembleConcat | __main__.py:58 | assembling a concatenation is assembling both halves and joining; a failure in the first half wins |
| ExtractorLemmas.AssembleSingle | __main__.py:52-57 | a lone child assembles into its own contribution |
| ExtractorLemmas.AssembleAround | __main__.py:52-58 | in a successful assembly, both sides of a child assemble, and the child's contribution sits between them |
| ExtractorLemmas.StringRendering | __main__.py:54 | a string child contributes its text trimmed of the glyph set (`→ []` in variants, `[]` in headings) at both ends |
| ExtractorLemmas.PlaceholderRendering | __main__.py:56-57 | a `placeholder` tag contributes `{` + its text + `}` wherever it stands |
| ExtractorLemmas.OtherTagRendering | __main__.py:77-81 | any other tag with a class contributes nothing |
| ExtractorLemmas.AssembleFailure | __main__.py:56 | assembly fails exactly when some child is a tag without a class, and then with `KeyError` |
| ExtractorLemmas.WindowWithinMarkers | __main__.py:67-74 | the window always lies between the first `span` and the next one: it is a prefix of the children strictly between them, holds no `span`, and is all of them when the first `span` is child 0 |
| ExtractorLemmas.WindowPrefix | __main__.py:74 | the slice of line 74 is a prefix of the children after the first `span`, no longer than the distance to the next one, and holds no `span` |
| ExtractorLemmas.LateMarkerLosesUrl | __main__.py:74 | a heading whose first `span` is child 1 gets an empty window, though `/api/v1/me` lies between the markers |
| ExtractorLemmas.ColonRewriteSegments | __main__.py:91-92 | after the rewrite the URL has as many `/` segments as before; each is the rewrite of the original (`:name` becomes `{name}`, others unchanged), and none starts with `:` |
| ExtractorLemmas.ColonGuardRedundant | __main__.py:91-92 | a URL without `:` would come back untouched from the rewrite anyway |
| ExtractorLemmas.VariantListContents | __main__.py:50-58 | the variant list succeeds exactly when every variant does, and then holds one `(id, url)` per variant, in document order |
| ExtractorLemmas.RowEntryValue | __main__.py:61 | a row reads exactly when it is a tag with two cells, and then as its first cell's text and its second cell's whitespace-stripped text |
| ExtractorLemmas.RowNamesLast | __main__.py:61 | the names of a table are the names of all rows but the last, plus the last row's |
| ExtractorLemmas.ParamsTableSucceeds | __main__.py:61 | the parameter dict is built exactly when every row is a tag with two cells (otherwise the uncaught error aborts the pass) |
| ExtractorLemmas.ParamsTableKeys | __main__.py:61 | the parameter dict's keys are exactly the rows' names |
| ExtractorLemmas.ParamsTableValues | __main__.py:61 | a row's name maps to its whitespace-stripped value when no later row has the same name: a later row overrides an earlier one |
| ExtractorLemmas.RegisterVariantsKeys | __main__.py:84-87 | registering variants adds exactly their ids to the registry's keys |
| ExtractorLemmas.RegisterVariantsFrame | __main__.py:84-87 | a key that is not a variant id keeps its descriptor |
| ExtractorLemmas.RegisterVariantsValues | __main__.py:84-87 | every variant id gets the shared params and description, and the URL of the last variant with that id |
| ExtractorLemmas.RegisterVariantsDistinct | __main__.py:84-87 | registration keeps the registry's keys distinct |
| ExtractorLemmas.BoxIndex | __main__.py:46-59 | the container index is 2 or 3, and it is 3 exactly when the third child is a `uri-variants` block |
| ExtractorLemmas.EndpointReading | __main__.py:42-83 | a successful read has the variants of a `uri-variants` block (none otherwise), has `params` exactly when the container has more than two children (the third child's table), has the container's description, and has the heading's URL |
| ExtractorLemmas.SingleVariantEndpoint | __main__.py:88-93 | an endpoint without variants registers exactly when it has an `id`, under that id, with the colon-rewritten URL and its details |
| ExtractorLemmas.MultiVariantEndpoint | __main__.py:84-87 | an endpoint with variants always registers: the keys grow by exactly the variant ids (not its own id), every variant shares the details, each gets its own URL, and other keys are untouched |
| ExtractorLemmas.RegisteredIds | __main__.py:84-93 | every extractable endpoint has at least one id it is registered under |
| ExtractorLemmas.ExtractEndpointKeys | __main__.py:84-93 | one iteration succeeds exactly on an extractable endpoint, keeps every key, and adds the endpoint's ids |
| ExtractorLemmas.ExtractAllSucceeds | __main__.py:41-93 | the pass succeeds exactly when every endpoint is extractable |
| ExtractorLemmas.EveryEndpointRegistered | __main__.py:41-94 | after a successful pass every endpoint's ids are keys of the registry, and no earlier key is lost |
| ExtractorLemmas.ExtractAllDistinct | __main__.py:41-94 | a pass keeps the registry's keys distinct |
| Normalizer.ReferencePaths | __main__.py:106 | one reference path per entry of the reference client; the paths are exactly the entries stripped of `/`, and none begins or ends with `/` |
| Normalizer.RuleOrderMatters | __main__.py:110-112 | the rules act in sequence, so a later rule rewrites what an earlier one wrote and reordering them changes the result |
| Normalizer.ReplacementPatterns | __main__.py:97-105 | none of the seven rules has an empty pattern |
| Normalizer.ApplyRulesAppend | __main__.py:110-112 | applying a list of rules is applying its first part and then its second part to the result: each rule sees the previous one's output |
| Normalizer.ApplyRulesUnmatched | __main__.py:110-112 | a string containing none of the patterns is left unchanged |
| Normalizer.MissingSound | __main__.py:107-114 | everything reported is some registry item's rewritten name and URL, and that URL is not a reference path |
| Normalizer.MissingComplete | __main__.py:107-114 | every item whose rewritten URL is not a reference path is reported |
| Normalizer.ReferencedNotReported | __main__.py:106-114 | an item whose URL is a reference path up to surrounding `/`, and which no rule's pattern hits, is not reported: no row carries its URL |
| Normalizer.MissingLength | __main__.py:107-114 | the report has at most one row per item, and exactly one per item when there are no reference paths |
| Normalizer.NormalizeItem | __main__.py:109-112 | the inner loop gives the name and the slash-stripped URL each rewritten by the same seven rules in order |
| Normalizer.EndpointsNotInReference | __main__.py:106-114 | the nested loop builds exactly the specified report, in registry order |
| Differ.ReorderingIsNoChange | __main__.py:150 | the same descriptors registered in another order are no change |
| Differ.OneDifferenceIsChange | __main__.py:150 | a single descriptor that differs anywhere is a change |
| Differ.NewEndpointIsChange | __main__.py:150 | a newly registered endpoint is a change |
| Differ.Latest | __main__.py:155-159 | the chosen revision is one of the revisions, and every revision is `<=` it |
| Differ.LastOfSortedIsLatest | __main__.py:156-159 | the last element of the list in sorted order is exactly `Latest` |
| Differ.PreviousRevision | __main__.py:158-159 | a previous revision exists exactly when there are more than one, and it is the greatest |
| Differ.Decide | __main__.py:137-183 | `changes` is set exactly when both registries were obtained and they differ as dicts; the diff is written exactly on a change with more than one earlier revision, labelled by the greatest |
| Differ.EarlyChangesLoseDiff | __main__.py:158-171 | with no or one earlier revision a change is flagged but not diffed |
| Differ.DecideLabelled | __main__.py:158-171 | the corrected decision: every change is diffed, labelled by the greatest earlier revision when there is one |
| Differ.LabelledAgrees | __main__.py:158-171 | the corrected decision agrees on `changes`, and on everything once more than one revision exists |
| Differ.NoChangeAfterUpdate | __main__.py:150 | after the snapshot is replaced by the extracted registry, an unchanged page yields no change |

## Left out

- Fetching the page (line 37), parsing it into a tree (line 38), and selecting the endpoint tags (line 39). The model starts from the tree and the list of endpoint tags.
- bs4 comments. A `Comment` is a kind of `NavigableString`, so lines 53 and 75 would keep its text, while `.text` leaves it out. `Markup.Node` has no comment case, because the endpoint tags are taken as holding tags and plain strings only.
- `.text` modelled as the concatenation of the strings below a node. A plain string's `.text` is itself. With no `class` attribute and an empty one treated alike, the class list is empty.
- The `log.info`/`log.error` calls at lines 81 and 83. Logging is output only. The `else` branch at line 82 is unreachable, because every child is a string or a tag.
- `details` is a fresh dict per endpoint, and `copy(details)` gives each variant its own dict. Both are modelled as values, so aliasing is not modelled.
- JSON. `loads` of the snapshot and `dumps` of the registry (lines 143-148) are not modelled: the snapshot is given as a registry of the same shape, or as absent when it could not be loaded.
- `unified_diff` and diff text (line 171). The diff is modelled only by whether it is written and which revision labels it.
- The gist, webhook, Reddit and logging clients (lines 24-33, 174-175, 184-195), `argparse`, `tabulate` printing, `datetime.now` and `time.sleep`. These are external services, the command line, display and the clock.
- File and directory I/O (`isfile`, `open`, `mkdir`, `listdir`, lines 140-168 and 176-178). The archive is the list of revision names `listdir` returned.
- The catch-all handler (lines 181-182). It is modelled only through its effect on `changes`.
- Normalizer.ReferencePaths: takes the reference client's paths (`API_PATH.values()`) as a parameter, because that table belongs to another library.
- Normalizer.EndpointsNotInReference: the input registry is a value, so it is unchanged by construction.

## Findings

| source | as written | input that shows it | evidently intended | confidence | as-written member | corrected member |
|---|---|---|---|---|---|---|
| __main__.py:158-171 | `previous_revision` is bound only when the archive lists more than one revision, but it is used unconditionally at line 171 | the first change ever found, with an empty archive (and the next one, with one revision): `UnboundLocalError` skips the diff, the gist update and the output file, while `changes` stays true | every change is diffed; the old side is labelled with the newest earlier revision when one exists | high (not executed) | Differ.EarlyChangesLoseDiff | Differ.DecideLabelled |

The `len(revisions) > 1` guard at line 158 is itself part of the slip. `listdir` at line 155 runs before the new revision's directory is created at line 157. So every listed revision is an earlier one, and a single listed revision is the newest earlier one. `Differ.DecideLabelled` therefore labels the diff whenever at least one revision is listed. With none, the diff has no earlier revision to name.
