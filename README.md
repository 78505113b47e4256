# Stellar-Minds gap finder, assay finder and graph view, in Dafny

Stellar-Minds helps researchers explore NASA's Open Science Data Repository
(OSDR). The repository has three parts, and this project models what each
computes on data that has already been fetched:

- **Gap finder** (`api/gap_finder/router.py`).
  - It normalises the flat records that the OSDR biodata query service
    returns, with three helpers:
    - `_norm_str` strips a value and drops placeholders.
    - `_norm_condition` classifies the spaceflight factor into
      "Spaceflight", "Ground/Analog" or a pass-through value.
    - `_pick_tissue` probes five tissue fields.
  - It turns each usable record into an observation.
  - It resolves a four-dimensional scope: organisms, tissues, conditions and
    assay types.
  - It counts the distinct datasets of each (organism, tissue, condition,
    assay type) cell and labels each cell "covered" or "weak" against a
    threshold.
  - Its gaps are the cells of the scope's cross-product that no coverage row
    has.
  - `gaps_options` lists the distinct values that populate the search form.
- **Assay finder** (`api/assay_finder/router.py`).
  - It builds the query parameters for the assay query service.
  - It builds two links for each result: one to the assay's sample table,
    with the assay name percent-encoded, and one to the dataset page.
- **3D graph view** (`nasa-space-biology/components/graph-3d.tsx`).
  - It turns a knowledge graph into drawable nodes, each coloured by
    community and sized by degree.
  - It drops edges whose ends are unknown.
  - It builds a legend of the communities, largest first.

The gap finder's handler uses loops that append to lists and add to sets and
dictionaries, and these are modelled as methods with loop invariants. Each
method is proved against a specification function or predicate: the
observation list `Observe`, and the sets and predicates `ResolveScope`,
`CoveredCells`, `Datasets`, `IsGap`, `IsCoverage` and `IsGapList`. The
specification's own properties are then proved as lemmas:
- the covered cells lie inside the scope's cross-product, so coverage and
  gaps (defined as the rest of the cross-product) split it exactly;
- raising the threshold can only turn "covered" into "weak";
- the result does not depend on the order of the input records;
- normalisation is idempotent.

The assay finder's parameter list is a class whose `Add` and `AddPresence`
append in place, as `_add` and `_add_presence` do. `urllib.parse.quote` is
modelled exactly, including UTF-8 encoding, and is proved to be reversible.
The graph view's `communitySet` registry becomes a list of groups in
insertion order together with maps of colours and counts.

## Model

| member | source | states |
|---|---|---|
| Text.Trim | api/gap_finder/router.py:42 | `str.strip()`: the result is the input with only whitespace around it; it neither starts nor ends with whitespace, and it is empty exactly when the input is all whitespace |
| Text.LowerTrimIdempotent | api/assay_finder/router.py:101 | stripping and lower-casing a value that was already stripped and lower-cased changes nothing |
| Normalize.NormStr | api/gap_finder/router.py:39-45 | absent input, blank input or a "nan"/"none"/"null" placeholder in any case gives `None`; otherwise the result is the stripped value, which is non-empty and not padded |
| Normalize.NormStrIdempotent | api/gap_finder/router.py:39-45 | normalising a normalised value changes nothing |
| Normalize.NormCondition | api/gap_finder/router.py:47-56 | `None` exactly when `_norm_str` gives `None`. Mentioning both "space" and "flight" gives "Spaceflight" and is tested first. Otherwise mentioning "ground" or "analog" gives "Ground/Analog". Otherwise the stripped value passes through |
| Normalize.NormConditionRange | api/gap_finder/router.py:47-56 | the result is absent, one of the two labels, or a non-empty value that mentions neither bucket |
| Normalize.NormConditionIdempotent | api/gap_finder/router.py:47-56 | classifying an already classified condition changes nothing |
| Normalize.TissueOfPicksFirst | api/gap_finder/router.py:58-78 | the first plain tissue field with a value wins. Only when no plain field has one is a "%20"-spelled field used. When neither has one the result is `None`. A picked tissue is non-empty and already normalised |
| Normalize.ProbeFields | api/gap_finder/router.py:67-71 | the probing loop returns the normalised value of the first listed field that is present and yields a value |
| Normalize.TissueOf | api/gap_finder/router.py:66-78 | the picked tissue is absent exactly when no plain and no "%20"-spelled tissue field yields a value; a picked tissue is non-empty and already normalised |
| Normalize.PickTissue | api/gap_finder/router.py:66-78 | `_pick_tissue` returns exactly what `TissueOf` specifies |
| Osdr.DatasetLink | api/gap_finder/router.py:94-97 | no link exactly when the accession is missing or empty; a link always has the dataset prefix and the `/?format=html` suffix |
| Osdr.DatasetLinkRoundTrip | api/assay_finder/router.py:66-70 | reading the accession back out of a dataset link gives the accession, so distinct accessions get distinct links |
| Osdr.DatasetOfLinkInverts | api/gap_finder/router.py:94-97 | any text that reads back as an accession is that accession's link |
| Coverage.ObservationOf | api/gap_finder/router.py:206-216 | a kept row's organism, assay type, accession and condition are non-empty, and so is its tissue when it has one |
| Coverage.ObservationOfKeeps | api/gap_finder/router.py:205-216 | a row is kept exactly when its organism, assay type and accession all normalise to values. In a kept row those three, and the assay name, are the row's own fields normalised; the tissue is the picked one. The condition is the classified value, or "Desconocido" when there is none |
| Coverage.ObserveMembers | api/gap_finder/router.py:203-216 | the observation list holds exactly the observations that the rows yield |
| Coverage.ObservedTissueOfObservation | api/gap_finder/router.py:209-211 | the tissue of every kept observation is among the observed tissues |
| Coverage.ObservedTissuesMembers | api/gap_finder/router.py:209-211 | a tissue is observed exactly when it is the picked tissue of some row, whether or not that row is kept |
| Coverage.KeepCondition | api/gap_finder/router.py:220 | the filtered list holds exactly the observations with the given condition, and it is no longer than the input |
| Coverage.Relevant | api/gap_finder/router.py:219-220 | for "Spaceflight" or "Ground/Analog" only the observations with that condition remain; any other condition keeps them all |
| Coverage.ResolveScope | api/gap_finder/router.py:223-231 | each dimension is the caller's filter when it is given (tissues: whenever a list is given, even an empty one) and otherwise the observed values. Tissues fall back to `{None}`. `None` never mixes with named tissues. Organisms, assays and conditions are non-empty when anything was observed |
| Coverage.SearchScope | api/gap_finder/router.py:223-231 | the resolved tissue scope holds `None` only as `{None}` |
| Coverage.InScope | api/gap_finder/router.py:240-245 | the in-scope test of the coverage loop holds exactly for the cells of the scope's cross-product (its extra `None` disjunct adds nothing) |
| Coverage.CoveredCellHasDatasets | api/gap_finder/router.py:234-246 | every coverage row counts at least one dataset |
| Coverage.StatusFor | api/gap_finder/router.py:247 | "covered" exactly when the dataset count reaches the threshold |
| Coverage.StatusMonotone | api/gap_finder/router.py:247 | raising the threshold can only turn "covered" into "weak" |
| Coverage.CoverageAndGapsPartition | api/gap_finder/router.py:259-276 | coverage keys lie in the scope's cross-product, and every cell of the cross-product is either a coverage key or a gap, never both |
| Coverage.CellKeyInjective | api/gap_finder/router.py:279-280 | in a resolved scope the sort key `(organism, tissue or "", condition, assay_type)` tells cells apart |
| Coverage.GapListUnique | api/gap_finder/router.py:268-280 | the sorted gap list is determined by the observations and the scope |
| Coverage.CoverageUnique | api/gap_finder/router.py:238-279 | the sorted coverage list is determined by the observations, the scope and the threshold |
| Coverage.RelabelIsCoverage | api/gap_finder/router.py:246-247 | recomputing the statuses of a coverage list under another threshold gives that threshold's coverage list |
| Coverage.ThresholdMonotone | api/gap_finder/router.py:246-247 | two thresholds give the same cells with the same counts, and a cell covered under the higher threshold is covered under the lower one |
| Coverage.SearchDependsOnRowSet | api/gap_finder/router.py:203-231 | the scope and the set of relevant observations depend only on which rows were fetched, not on their order or repetition |
| Coverage.ResolveScopeOfMembers | api/gap_finder/router.py:223-231 | the scope depends only on which observations there are, not on their order or repetition |
| Coverage.ListsOfMembers | api/gap_finder/router.py:233-280 | the coverage and gap lists depend only on which observations there are |
| Coverage.SearchOrderIndependent | api/gap_finder/router.py:203-280 | two searches over the same set of rows with the same filters give identical coverage and gap lists |
| Coverage.NamedConditionOnly | api/gap_finder/router.py:219-231 | with a named condition, every coverage cell and every gap carries that condition |
| Coverage.UnfilteredCoverage | api/gap_finder/router.py:225-245 | without filters, a kept observation is covered exactly when it has a tissue or no row has one. Once any tissue is observed, observations without a tissue fall outside the universe |
| GapSearch.Pairs | api/gap_finder/router.py:260-265 | the cross-product of two lists has length equal to the product of their lengths and holds exactly the pairs of their members |
| GapSearch.PairsNoDuplicates | api/gap_finder/router.py:260-265 | the cross-product of duplicate-free lists is duplicate-free |
| GapSearch.Product | api/gap_finder/router.py:260-265 | `itertools.product` of the four sorted scope lists holds exactly the cells whose components are members, and its length is the product of the lengths |
| GapSearch.ProductNoDuplicates | api/gap_finder/router.py:260-265 | the four-way product of duplicate-free lists is duplicate-free |
| GapSearch.ObserveRow | api/gap_finder/router.py:206-216 | the body of the observation loop yields the row's observation and its picked tissue |
| GapSearch.CollectObservations | api/gap_finder/router.py:203-216 | the loop builds exactly the `observed` list and the `tissues_observed` set of the specification |
| GapSearch.DatasetsOfUnobserved | api/gap_finder/router.py:234-236 | a cell that no observation maps to has no datasets |
| GapSearch.CountDatasets | api/gap_finder/router.py:234-236 | `coverage_counter` has exactly the observed cells as keys, each mapped to its set of distinct accessions |
| GapSearch.BuildCoverage | api/gap_finder/router.py:238-257 | one row per in-scope key of the counter, each with the size of its accession set and the threshold's status; no row is repeated |
| GapSearch.CollectGaps | api/gap_finder/router.py:266-276 | the gaps are exactly the universe cells that are not coverage keys, with no repeats when the universe has none |
| GapSearch.CellsSortedAscending | api/gap_finder/router.py:280 | a key-sorted, duplicate-free list of universe cells is strictly ascending by key |
| GapSearch.RowsSortedAscending | api/gap_finder/router.py:279 | a key-sorted, duplicate-free list of coverage rows is strictly ascending by key |
| GapSearch.CoverageRows | api/gap_finder/router.py:238-279 | counting, filtering by scope and sorting give the coverage list of the specification |
| GapSearch.UniverseList | api/gap_finder/router.py:260-265 | the universe list holds exactly the cells of the scope's cross-product, once each |
| GapSearch.GapsSearch | api/gap_finder/router.py:199-285 | no rows gives empty coverage and no gaps. Otherwise the results are exactly the coverage list and the gap list of the specification over the filtered observations and the resolved scope |
| GapOptions.NamedFirst | api/gap_finder/router.py:140 | the named conditions present, "Spaceflight" first, each once |
| GapOptions.ConditionListMembers | api/gap_finder/router.py:140-147 | the condition list holds every observed condition exactly once and nothing else (only the two named conditions when nothing was observed) |
| GapOptions.ConditionListUnique | api/gap_finder/router.py:140-147 | the condition list is determined by the observed conditions |
| GapOptions.OrderConditions | api/gap_finder/router.py:140-147 | named conditions first in fixed order, then the others ascending, with the two named conditions as the fallback for an empty set |
| GapOptions.RowValues | api/gap_finder/router.py:122-137 | the four values a row contributes are its normalised organism, classified condition, normalised assay type and picked tissue |
| GapOptions.CollectOptions | api/gap_finder/router.py:117-137 | the four sets hold exactly the distinct values that the rows yield |
| GapOptions.GapsOptions | api/gap_finder/router.py:117-149 | organisms, assays and tissues are ascending lists of exactly the observed values, and conditions form the condition list |
| Ordering.SortSet | api/gap_finder/router.py:145-148 | `sorted(set)`: a strictly ascending list of exactly the set's members |
| Ordering.SortByKey | api/gap_finder/router.py:279-280 | `list.sort(key=…)`: sorted by key and a permutation of the input |
| Ordering.AscendingUnique | api/gap_finder/router.py:145-148 | two strictly ascending lists with the same members are equal |
| Folds.AddValue | api/gap_finder/router.py:124-137 | adding a row's value, if present, extends the set of values to include that row |
| Percent.Utf8Decodes | api/assay_finder/router.py:54 | decoding the UTF-8 encoding of a character gives the character back |
| Percent.Utf8EncodeInjective | api/assay_finder/router.py:54 | distinct strings have distinct UTF-8 encodings |
| Percent.Quote | api/assay_finder/router.py:54 | `quote(s, safe="")` output holds only unreserved characters and `%`, is at least as long as its input, and is the input itself when the input needs no escaping |
| Percent.UnquoteEscape | api/assay_finder/router.py:54 | unquoting `%XX` escapes gives back the escaped bytes, whatever follows |
| Percent.UnquoteQuote | api/assay_finder/router.py:54 | unquoting the quoted text gives the UTF-8 bytes of the original |
| Percent.QuoteInjective | api/assay_finder/router.py:54 | distinct names are quoted differently |
| AssayFinder.ParamList.constructor | api/assay_finder/router.py:88 | the parameter list starts empty |
| AssayFinder.ParamList.Add | api/assay_finder/router.py:72-74 | `_add` appends `(key, value)`, with an empty value by default |
| AssayFinder.ParamList.AddPresence | api/assay_finder/router.py:76-78 | `_add_presence` appends an empty key with the field name as value |
| AssayFinder.Filters | api/assay_finder/router.py:92-99 | one filter per truthy argument, each with a non-empty value. The accession comes first, verbatim, when given. A truthy organism, assay name or technology appears as the case-insensitive regex `/value/i` on its field. A falsy argument leaves its field out entirely |
| AssayFinder.ConditionEntry | api/assay_finder/router.py:100-107 | a flight word gives the spaceflight factor filtered on `/flight/i`, a ground word the factor filtered on `/ground/i`, a presence word the presence entry with an empty key; a missing, empty or unrecognised condition gives nothing |
| AssayFinder.ParamsFor | api/assay_finder/router.py:80-114 | at least four parameters, the format first and the three output fields last |
| AssayFinder.ConditionIgnoresCaseAndSpace | api/assay_finder/router.py:100-101 | a condition maps like its stripped, lower-cased form |
| AssayFinder.ParamsShape | api/assay_finder/router.py:80-114 | the format comes first and the three output fields come last. Between them are the truthy filters in fixed order, then the condition entry. So the list has four entries, plus one per truthy filter, plus one for a recognised condition |
| AssayFinder.AddIf | api/assay_finder/router.py:92-99 | a guarded `_add` appends its parameter exactly when the argument is truthy |
| AssayFinder.AddFilters | api/assay_finder/router.py:92-99 | appends the filter entries of the truthy arguments in the order accession, organism, assay name, technology |
| AssayFinder.AddCondition | api/assay_finder/router.py:100-107 | appends exactly the condition entry |
| AssayFinder.AddOutputFields | api/assay_finder/router.py:110-112 | appends the organism, spaceflight-factor and technology output fields |
| AssayFinder.BuildParams | api/assay_finder/router.py:80-114 | `_build_params` returns exactly the specified parameter list |
| AssayFinder.AssayLink | api/assay_finder/router.py:47-64 | no link exactly when the accession or the assay name is missing or empty. Otherwise the link is the metadata query for that accession and the quoted name, ending in `&format=html` |
| AssayFinder.AssayLinkCarriesName | api/assay_finder/router.py:53-64 | the text between the link's head and tail contains no `&`, so it is a single query value, and unquoting it gives the name's UTF-8 bytes |
| AssayFinder.AssayLinkInjective | api/assay_finder/router.py:53-64 | within one dataset, distinct assay names get distinct links |
| AssayFinder.EntryLinksMatchRow | api/assay_finder/router.py:27-41 | the dataset link reads back as the row's accession. A row with a sample link also has a dataset link, and the sample link carries the row's assay name |
| AssayFinder.EntryOf | api/assay_finder/router.py:30-41 | an entry carries the row's raw accession and assay name; it has a dataset link exactly when the accession is truthy, a sample link exactly when both are, and a sample link only with a dataset link |
| AssayFinder.SearchAssays | api/assay_finder/router.py:27-41 | one entry per row, in row order, each with the row's raw fields and its two links |
| GraphView.Size | nasa-space-biology/components/graph-3d.tsx:62 | `Math.max(1, x ?? 1)`: at least one, and the given value when that is at least one |
| GraphView.GroupsUpToFacts | nasa-space-biology/components/graph-3d.tsx:46-56 | the registry lists each community once and holds exactly the communities of the nodes seen |
| GraphView.GroupsFirstAppearance | nasa-space-biology/components/graph-3d.tsx:51-56 | communities are listed in order of first appearance |
| GraphView.GroupsPrefix | nasa-space-biology/components/graph-3d.tsx:50-56 | the registry after fewer nodes is a prefix of the registry after more |
| GraphView.NodeView | nasa-space-biology/components/graph-3d.tsx:58-64 | a drawn node keeps the graph node, is named by its label, has its group, is sized at least one and is coloured from the palette |
| GraphView.VisualNodeOf | nasa-space-biology/components/graph-3d.tsx:50-65 | the k-th drawn node is the k-th graph node, its group is one of the registered communities and its colour is a palette colour |
| GraphView.NodeColors | nasa-space-biology/components/graph-3d.tsx:50-65 | a node of the k-th community to appear is coloured `PALETTE[k % 10]`; every node is named by its label, has its group and has size at least one |
| GraphView.ViewIsFinal | nasa-space-biology/components/graph-3d.tsx:52-63 | the colour a node gets while the registry is still growing is its final colour |
| GraphView.Register | nasa-space-biology/components/graph-3d.tsx:51-57 | registering a node keeps the registry equal to its specification: a new group gets the next colour, and the node's group count rises |
| GraphView.RegisteredColour | nasa-space-biology/components/graph-3d.tsx:63 | a registered node's group is always in `communitySet`, so the `nextColor(index)` fallback is never used |
| GraphView.ColourNodes | nasa-space-biology/components/graph-3d.tsx:50-65 | the node loop yields each node's specified visual node and leaves the registry with every community's colour and count |
| GraphView.ByIdKeys | nasa-space-biology/components/graph-3d.tsx:67 | `nodeById` knows exactly the nodes' ids |
| GraphView.ByIdLastWins | nasa-space-biology/components/graph-3d.tsx:67 | for a repeated id, `nodeById` keeps the last node |
| GraphView.IndexById | nasa-space-biology/components/graph-3d.tsx:67 | the `Map` construction gives exactly the specified index |
| GraphView.EdgeOf | nasa-space-biology/components/graph-3d.tsx:71-81 | an edge is drawn exactly when both its ids are known; a drawn edge keeps its id and weight, is sized at least one, and its ends are the visual nodes (with their colour, name and size) that `nodeById` holds under its source and target ids |
| GraphView.KeptEdgesSized | nasa-space-biology/components/graph-3d.tsx:69-82 | there are no more drawn edges than edges, and each is sized at least one |
| GraphView.KeptEdgesMembers | nasa-space-biology/components/graph-3d.tsx:69-82 | the drawn edges are exactly those whose two ends are known; none is made up |
| GraphView.EdgeKeptIff | nasa-space-biology/components/graph-3d.tsx:69-82 | an edge is drawn exactly when both end ids belong to nodes. Its ends carry those ids and are the last nodes with them |
| GraphView.KeepEdges | nasa-space-biology/components/graph-3d.tsx:69-82 | the edge loop yields exactly the specified drawn edges, in edge order |
| GraphView.EntriesTotal | nasa-space-biology/components/graph-3d.tsx:52-56 | the community counts add up to the number of nodes |
| GraphView.InsertByCountAdds | nasa-space-biology/components/graph-3d.tsx:85 | one step of the legend sort adds exactly the inserted entry |
| GraphView.InsertByCountOrdered | nasa-space-biology/components/graph-3d.tsx:85 | inserting a later community keeps the legend ordered by count, with ties in registry order |
| GraphView.SortLegend | nasa-space-biology/components/graph-3d.tsx:84-90 | the stable sort by descending count is a permutation of the entries, ordered by count with ties in insertion order, and keeps the total |
| GraphView.EntriesFacts | nasa-space-biology/components/graph-3d.tsx:84-90 | the k-th registry entry is the k-th community with its palette colour and its node count, and no entry repeats |
| GraphView.OrderedCountsDescend | nasa-space-biology/components/graph-3d.tsx:85 | counts never increase along the legend |
| GraphView.LegendValues | nasa-space-biology/components/graph-3d.tsx:84-90 | every legend line carries its community's palette colour and node count, which is at least one |
| GraphView.LegendCoversGroups | nasa-space-biology/components/graph-3d.tsx:84-90 | the legend names exactly the communities |
| GraphView.LegendGroupsDistinct | nasa-space-biology/components/graph-3d.tsx:84-90 | no community has two legend lines |
| GraphView.BuildView | nasa-space-biology/components/graph-3d.tsx:45-96 | the memoised view gives the specified nodes, the specified drawn edges over `nodeById`, and a legend that is a permutation of the registry, ordered by count, whose counts sum to the number of nodes |

## Left out

- Network I/O is not modelled: the HTTP fetches, the FastAPI routing and the HTTP errors. Each handler is modelled from the rows it has already fetched.
- The request builders of the gap finder are not modelled: `gaps_search` lines 165-190 and `gaps_options` lines 106-115. They only shape the upstream query, and the handler re-filters the rows locally. The gap finder's own `_add_presence` is used only there, so it is left out too.
- `applied_url` in both routers is left out: it is produced by the HTTP client library.
- `example_dataset_link` in the coverage rows is left out: it links whichever accession set iteration happens to yield first, and set order in Python is unspecified.
- GapSearch.GapsSearch: returns both the coverage and the gap list. The handler's final return (api/gap_finder/router.py:282-285) sends only `gaps`, while its early return for no rows also sends `coverage`. The gaps are defined through the coverage, so the model keeps both.
- GapSearch.BuildCoverage: iterates over the counter in an arbitrary order. The order is irrelevant because the rows are sorted afterwards.
- Text.Lower: lower-cases ASCII letters only, whereas Python's `str.lower()` covers all of Unicode. Lowered text is only ever compared with ASCII words ("nan", "none", "null", "space", "flight", "ground", "analog" and the assay condition words) and is never returned, so the result is exact wherever it is used: the only non-ASCII characters that lower into ASCII, the Kelvin sign and dotted capital I, cannot form any of those words.
- Text.IsSpace: lists the characters for which Python's `str.isspace()` is true. The Unicode tables themselves are not modelled.
- Record values are modelled as optional strings. Python's `str(x)` of non-string JSON values (numbers, booleans) is not modelled.
- Normalize.ENCODED_TISSUE_KEYS: written as literals rather than computed by `replace(" ", "%20")`.
- GraphView: degree and weight are integers. JavaScript numbers (floats and NaN) are not modelled.
- GraphView: `communitySet` entries are modelled as values in maps. The in-place mutation of the shared entry object is modelled by replacing the map value.
- GraphView.VisualNode: the node spread `...node` is represented by keeping the whole graph node.
- The rest of the React component (hover state, dynamic import, rendering) and the rest of the repository (the chat and graph-retrieval backend, the LLM provider, the page layouts) are not part of this model.
