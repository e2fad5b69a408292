# Supply-chain network finder — a verified model of the graph builders

The repository turns trade-transaction rows into a graph. Each row has these
cells: foreign country, supplier, importer, HS code, product name and CIF
value in USD. The graph has four node types (country, supplier, product,
importer). Its directed links count transactions and add up value. Two front
ends build this graph separately:

- the React component `TradeNetworkGraph.jsx`
  - normalises the entity names (`normalizeEntity`);
  - builds the node and link maps (`processData`, with `getNode` and
    `addLink`);
  - drops links below a transaction threshold, and the nodes left without
    links;
  - derives the visible subgraph from the search term and the selected
    entity (`getFilteredGraphData`);
- the page script `src/js/main.js`
  - builds the same maps inside `rebuild` (`normalize`, `addNode`,
    `addLink`, the row loop and the `fullData` snapshot);
  - focuses on the first search match or the selected entity, and its direct
    neighbours (`applyFilter`).

The project has five modules.

| module | file | what it holds |
|---|---|---|
| `JsText` | `js_text.dfy` | The JavaScript string operations both builders use. |
| `TradeRows` | `trade_rows.dfy` | The row record, the configuration, the four entries a row contributes, the display-mode edge table, and a reference definition of what a build over a sequence of rows holds. |
| `TradeNetworkGraph` | `trade_network_graph.dfy` | The React component. |
| `MainJs` | `main_js.dfy` | The page script. |
| `Divergences` | `divergences.dfy` | Lemmas comparing the two builders. |

`JsText` covers these operations:
- `trim`;
- the `/\s+/g` collapse;
- `toUpperCase` and `toLowerCase`;
- `includes`;
- the whole-word legal-suffix regular expression;
- the punctuation class.

The reference definition in `TradeRows` gives, for each node id and link key:
- its first creating row;
- the count of rows touching it;
- the summed value;
- the set of original spellings;
- the neighbour set.

It also gives the insertion orders of the two maps.

Each builder follows the same pattern:
- A class keeps the maps as `map` fields and the insertion order as `seq`
  fields.
- Its methods change those fields as `getNode`/`addNode` and `addLink` do.
- Its invariant says the maps equal the reference definition over the rows
  seen so far.
- The graph handed on (`setGraphData` in the component, `fullData` in the
  page script) is proved equal to a function of the rows. Its properties are
  proved about that function, for example:
  - every link's endpoints are nodes;
  - neighbour lists are symmetric;
  - counts grow by one per accepted row;
  - rejected rows change nothing.

The page script's mutable state is a class `App`:
- `rawData`, `fullData`, `graphData` and `selectedEntity`;
- `Rebuild` and `ApplyFilter` update it.

The two files differ in four places, and the model keeps each difference.
- Product-name ids: the component's id is `product-name-` followed by the
  first 20 characters of the normalised name
  (`TradeNetworkGraph.ProductNameIdCollision`). The page script's id is
  `product-name-` followed by up to 8 hexadecimal digits of a hash of the
  normalised name (`MainJs.ProductNameId`).
- The transaction threshold: the component drops the links below it. The
  page script reads `minTx` and never uses it. `MainJs.App.Rebuild` takes it
  as a parameter and its result does not depend on it.
- The search term: both files lower-case it. The component does not trim
  it; the page script does.
- Product names: the component cleans them like country names, the page
  script like company names (`Divergences.ProductNameTreatment`).

## Model

| member | source | states |
|---|---|---|
| JsText.Trim | TradeNetworkGraph.jsx:80 | `trim` leaves no whitespace at either end, returns a contiguous piece of its input and keeps every non-whitespace character in order |
| JsText.TrimClean | src/js/main.js:159 | trimming a string with no edge whitespace returns it unchanged |
| JsText.CollapseSpaces | TradeNetworkGraph.jsx:80 | `replace(/\s+/g, ' ')` leaves no two adjacent whitespace characters, is empty exactly when its input is, never lengthens, and starts with whitespace exactly when the input does; that each whitespace run becomes exactly one space is `JsText.CollapseRunOneSpace` |
| JsText.CollapseLast | TradeNetworkGraph.jsx:80 | the collapse ends in whitespace exactly when its input does |
| JsText.CollapseChars | TradeNetworkGraph.jsx:80 | after the collapse every whitespace character is a plain space and every other character comes from the input |
| JsText.CollapseKeepsText | TradeNetworkGraph.jsx:80 | the collapse keeps the non-whitespace characters and their order |
| JsText.CollapseTrimmed | src/js/main.js:104 | collapsing a trimmed string keeps it trimmed |
| JsText.CollapseFixpoint | src/js/main.js:109 | the collapse changes nothing in a string already single-spaced with plain spaces |
| JsText.ReplaceNewlines | TradeNetworkGraph.jsx:80 | `replace(/\n/g, ' ')` keeps the length, turns each newline into a space and leaves every other character where it was |
| JsText.CollapseIgnoresNewlines | TradeNetworkGraph.jsx:80 | replacing newlines before the whitespace collapse makes no difference to its result |
| JsText.CollapseRunOneSpace | TradeNetworkGraph.jsx:80 | a maximal whitespace run, of any length, becomes exactly one space, and the text on either side is collapsed on its own |
| JsText.ToUpper | TradeNetworkGraph.jsx:85 | `toUpperCase` keeps the length, leaves no lower-case letter, changes only lower-case letters and keeps each letter's case-insensitive identity |
| JsText.ToLower | TradeNetworkGraph.jsx:303 | `toLowerCase` maps every character through the lower-case mapping, leaving no upper-case letter |
| JsText.UpperFixpoint | TradeNetworkGraph.jsx:85 | upper-casing changes nothing exactly when the string has no lower-case letter |
| JsText.LowerOfUpper | TradeNetworkGraph.jsx:307 | lower-casing an upper-cased string equals lower-casing the original |
| JsText.ContainsLower | TradeNetworkGraph.jsx:307 | `includes` survives lower-casing both sides |
| JsText.FirstMatch | TradeNetworkGraph.jsx:89 | a match of the suffix alternation at a position is a non-empty piece lying inside the string, so stripping always advances |
| JsText.FirstMatchFacts | TradeNetworkGraph.jsx:89 | the alternation matches at a position exactly when some legal suffix stands there between word boundaries, and its length is that of the leftmost alternative that does |
| JsText.StripLegalSuffixes | TradeNetworkGraph.jsx:89 | removing the suffixes never lengthens the string, leaves only characters of the input, and changes nothing when no suffix matches anywhere; that no suffix survives as a whole word is `JsText.LegalSuffixesRemoved` |
| JsText.StripFrom | TradeNetworkGraph.jsx:89 | the global replace from a position on yields no more characters than remain after it |
| JsText.StripFromChars | TradeNetworkGraph.jsx:89 | the global replace from a position on keeps only characters found from that position on |
| JsText.StripFromNoMatch | TradeNetworkGraph.jsx:89 | when the alternation matches nowhere from a position on, the replace returns the rest of the string unchanged |
| JsText.StripFromKept | TradeNetworkGraph.jsx:89 | the replacement copies, in order, exactly the characters at increasing kept positions, and no alternative matches at a kept position |
| JsText.StripFromDropped | TradeNetworkGraph.jsx:89 | every character the replacement drops lies inside a whole-word occurrence of one of the alternatives |
| JsText.MatchPullsBack | TradeNetworkGraph.jsx:89 | a whole-word occurrence in the result was a whole-word occurrence in the original, at the position its first character came from |
| JsText.StripLeavesNoMatch | TradeNetworkGraph.jsx:89 | after the replacement no alternative is left anywhere as a whole word |
| JsText.LegalSuffixesRemoved | TradeNetworkGraph.jsx:89 | removing the legal suffixes leaves none of them as a whole word |
| JsText.ReplacePunct | TradeNetworkGraph.jsx:90 | each of `. , & - / \ ( )` becomes a space and every other character stays |
| JsText.CompanyCore | TradeNetworkGraph.jsx:88-92 | after suffix removal, punctuation replacement, collapse and trim, the name has no lower-case letter, no punctuation, no edge whitespace and no double whitespace; that no legal suffix is left is `JsText.CoreHasNoSuffix` |
| JsText.CleanupKeepsAbsent | TradeNetworkGraph.jsx:90-92 | punctuation replacement, collapse and trim create no whole word that was absent before them |
| JsText.CoreHasNoSuffix | TradeNetworkGraph.jsx:88-92 | the company core of an upper-case name holds no legal suffix as a whole word |
| JsText.KeylessHasNoSuffix | TradeNetworkGraph.jsx:89 | a string with none of the letters C, G, P and T holds no legal suffix |
| JsText.TokensHaveNoSuffix | TradeNetworkGraph.jsx:95-101 | SUZLON, INOX WIND, ENVISION and the empty name hold no legal suffix |
| JsText.TwoWordsClean | TradeNetworkGraph.jsx:98 | two capital-letter words joined by one space form a name that is already clean: plain, trimmed, single-spaced and upper-case |
| JsText.InoxWindClean | TradeNetworkGraph.jsx:98 | the canonical name INOX WIND is itself clean, so choosing it keeps the normalised form's invariants |
| JsText.TokensApart | TradeNetworkGraph.jsx:95-101 | none of SUZLON, INOX WIND and ENVISION contains another, so the canonical name chosen is unambiguous |
| TradeRows.DistinctIds | TradeNetworkGraph.jsx:180-182 | the type prefixes make a row's four node ids pairwise distinct |
| TradeRows.EdgeKeyAmbiguous | TradeNetworkGraph.jsx:134 | the link key `${source}->${target}` is shared by two different edges when an id contains `->` |
| TradeRows.EdgeKeyParts | TradeNetworkGraph.jsx:134 | the link key is the source id, then `->`, then the target id |
| TradeRows.EdgeKeyInjective | src/js/main.js:128 | when no source id holds `>`, two edges share a key exactly when they are equal |
| TradeRows.EdgeKinds | TradeNetworkGraph.jsx:245-261 | the edges of a mode join the row's entries of the types the mode names, in table order; in `full` mode they chain the country to the importer |
| TradeRows.EdgeTable | TradeNetworkGraph.jsx:245-261 | a row adds three links in `full` mode, one in each pairwise mode and none for an unrecognised mode; its link keys are distinct; every link joins two different ids of the row |
| TradeRows.NeighboursIn | TradeNetworkGraph.jsx:150-157 | an id's neighbours through a list of edges are exactly the opposite ends of the edges it is on |
| TradeRows.AppendNew | TradeNetworkGraph.jsx:265 | appending new keys to an insertion order keeps it duplicate-free and holds exactly the old and the new keys |
| TradeRows.NodeOrderMembers | TradeNetworkGraph.jsx:265 | the node order lists each created node once, and exactly the created nodes |
| TradeRows.LinkOrderMembers | TradeNetworkGraph.jsx:271 | the link order lists each created link key once, and exactly the created keys |
| TradeRows.TouchedIffCreated | TradeNetworkGraph.jsx:114-130 | a node exists exactly when some accepted row touched it; its first original spelling is recorded; an id never touched has no value, no originals and no neighbours |
| TradeRows.NeighboursSymmetric | TradeNetworkGraph.jsx:155-156 | b is a neighbour of a exactly when a is a neighbour of b |
| TradeRows.NeighboursExist | TradeNetworkGraph.jsx:151-156 | both ends of a neighbour relation are created nodes |
| TradeRows.FirstEdgeFacts | TradeNetworkGraph.jsx:133-158 | a link exists exactly when some row hit its key; a link never hit has no value; a link's endpoints are created nodes that list each other as neighbours |
| TradeRows.AcceptedRowTouches | TradeNetworkGraph.jsx:233-243 | an accepted row adds one transaction and its value to each of its four nodes, and records its original spelling |
| TradeRows.SkippedRowChangesNothing | TradeNetworkGraph.jsx:170-172 | a skipped row changes no count, value, spelling, neighbour, link or order |
| TradeRows.AcceptedRowLinks | TradeNetworkGraph.jsx:245-261 | an accepted row adds one hit to exactly the link keys of its display mode |
| TradeRows.AcceptedRowCreates | TradeNetworkGraph.jsx:224-227 | after an accepted row each of its four ids is a node |
| TradeRows.EdgeCounted | TradeNetworkGraph.jsx:136-148 | a link the row emits gains one transaction and the row's value; the first edge under a key stays the one recorded |
| TradeNetworkGraph.CleanSpaces | TradeNetworkGraph.jsx:80 | the basic cleanup leaves the name trimmed and single-spaced with plain spaces, keeping every non-whitespace character in order; that each whitespace run becomes exactly one space is `TradeNetworkGraph.CleanSpacesRun` |
| TradeNetworkGraph.CleanSpacesIdempotent | TradeNetworkGraph.jsx:80 | cleaning twice is cleaning once |
| TradeNetworkGraph.CleanSpacesRun | TradeNetworkGraph.jsx:80 | inside a value, a whitespace run with newlines or not becomes exactly one space, and the text on either side is cleaned on its own |
| TradeNetworkGraph.Canonical | TradeNetworkGraph.jsx:95-101 | SUZLON wins over INOX WIND, which wins over ENVISION; a name containing none of them is kept |
| TradeNetworkGraph.CanonicalClean | TradeNetworkGraph.jsx:95-101 | the canonical choice keeps a clean upper-case name clean |
| TradeNetworkGraph.NormalizeEntity | TradeNetworkGraph.jsx:73-105 | a missing cell gives ""; countries and products get the basic cleanup only; suppliers and importers get it and then come out upper-case, free of punctuation and mapped to SUZLON, INOX WIND or ENVISION by priority, else to the cleaned core; every result is trimmed and single-spaced; that no legal suffix is left is `TradeNetworkGraph.NormalizedCompanyHasNoSuffix` |
| TradeNetworkGraph.NormalizeCountryIdempotent | TradeNetworkGraph.jsx:73-80 | a normalised country or product name is its own normal form |
| TradeNetworkGraph.NormalizedCompanyHasNoSuffix | TradeNetworkGraph.jsx:83-101 | a normalised supplier or importer name holds no legal suffix as a whole word |
| TradeNetworkGraph.HsGrouping | TradeNetworkGraph.jsx:196-204 | two codes share a `category` label exactly when their first two digits agree, a `subcategory` label exactly when their first four do, and a full-code label exactly when equal |
| TradeNetworkGraph.HsLabel | TradeNetworkGraph.jsx:196-204 | the label starts with `HS `; it ends in the first 2 digits and `xx` for `category` codes of length at least 2, in the first 4 and `xx` for `subcategory` codes of length at least 4, and in the whole code otherwise |
| TradeNetworkGraph.ProductLabel | TradeNetworkGraph.jsx:215-217 | the label has at most 30 characters: the name itself up to 30, otherwise its first 27 followed by `...` |
| TradeNetworkGraph.ProductNameId | TradeNetworkGraph.jsx:220 | the id is `product-name-` followed by the first 20 characters of the untruncated normalised name, so at most 33 characters |
| TradeNetworkGraph.ProductNameIdCollision | TradeNetworkGraph.jsx:220 | two product names share an id exactly when their first 20 characters agree |
| TradeNetworkGraph.ProductEntry | TradeNetworkGraph.jsx:188-221 | the product is missing exactly when the cell for the product mode is missing; in `hsCode` mode the id is `product-` and the label of the trimmed code, the name is that label and the raw cell is the original; in name mode the id is the product-name id of the normalised name, the name its label of at most 30 characters, and the raw cell the original |
| TradeNetworkGraph.NamedProduct | TradeNetworkGraph.jsx:207-221 | a product named in the row gets the product-name id and the label of its normalised name, a label of at most 30 characters and the raw name as its original |
| TradeNetworkGraph.PlanRow | TradeNetworkGraph.jsx:161-227 | a row is skipped exactly when country, supplier, importer or the mode's product cell is missing; otherwise its four entries carry the normalised names, the typed ids, the raw cells as originals and the row's value |
| TradeNetworkGraph.Plans | TradeNetworkGraph.jsx:161 | each row is planned on its own, in order |
| TradeNetworkGraph.Builder.constructor | TradeNetworkGraph.jsx:109-111 | the builder starts with empty maps and no rows seen |
| TradeNetworkGraph.Builder.GetNode | TradeNetworkGraph.jsx:114-130 | `getNode` creates a node with the spelling and zero counters or adds the spelling to the existing one; a new id goes to the end of the order |
| TradeNetworkGraph.Builder.AddLink | TradeNetworkGraph.jsx:133-158 | `addLink` creates the link on first use, adds one transaction and the value, appends a new key to the order, and records both ends as each other's neighbours |
| TradeNetworkGraph.Builder.AddRow | TradeNetworkGraph.jsx:161-262 | the row body keeps the maps equal to the reference definition over the rows seen, the rejected row included |
| TradeNetworkGraph.Builder.AddPlan | TradeNetworkGraph.jsx:224-261 | an accepted row keeps the maps equal to the reference definition |
| TradeNetworkGraph.Builder.GetRowNodes | TradeNetworkGraph.jsx:224-227 | the four `getNode` calls create or extend the row's nodes in order |
| TradeNetworkGraph.Builder.CountRow | TradeNetworkGraph.jsx:233-243 | each of the four nodes gains one transaction and the row's value |
| TradeNetworkGraph.Builder.LinkRow | TradeNetworkGraph.jsx:245-261 | the display mode's `addLink` calls update links, order and neighbours as the edge table says |
| TradeNetworkGraph.Builder.Snapshot | TradeNetworkGraph.jsx:265-271 | the node and link arrays, in insertion order, equal the full graph of the rows seen |
| TradeNetworkGraph.FullGraph | TradeNetworkGraph.jsx:265-271 | the node array lists the node ids in insertion order and the link array the link keys in insertion order |
| TradeNetworkGraph.Relate | TradeNetworkGraph.jsx:150-157 | recording neighbours changes no node id, and changes nothing unless both ends are nodes |
| TradeNetworkGraph.RelateFacts | TradeNetworkGraph.jsx:154-156 | with both ends present, each node gains exactly the other end of the link it is on |
| TradeNetworkGraph.RelateAll | TradeNetworkGraph.jsx:245-261 | a mode's `addLink` calls change no node id |
| TradeNetworkGraph.RelateAllFacts | TradeNetworkGraph.jsx:150-157 | with every end present, each node gains exactly its neighbours along the row's edges |
| TradeNetworkGraph.HitFacts | TradeNetworkGraph.jsx:136-148 | a new link starts with the key, both ends, one transaction and the value; an existing link gains one transaction and the value |
| TradeNetworkGraph.HitAllAt | TradeNetworkGraph.jsx:133-148 | the link map gains exactly the row's keys; keys the row does not emit are unchanged; each emitted key gets one hit |
| TradeNetworkGraph.FullGraphNodes | TradeNetworkGraph.jsx:265-269 | node ids are unique, and the nodes are exactly the created ones with their reference counters |
| TradeNetworkGraph.FullGraphLinks | TradeNetworkGraph.jsx:271 | link ids are unique; the links are exactly the created ones; each id is `source->target` and each count is positive |
| TradeNetworkGraph.FullGraphClosed | TradeNetworkGraph.jsx:150-157 | every link's ends are nodes, and each end lists the other among its related nodes |
| TradeNetworkGraph.FullGraphNeighbours | TradeNetworkGraph.jsx:155-156 | related-node lists are symmetric and name only existing nodes |
| TradeNetworkGraph.AcceptedRowCounts | TradeNetworkGraph.jsx:233-243 | one more accepted row gives each of its nodes one more transaction, its value and its original spelling |
| TradeNetworkGraph.SkippedRowKeepsGraph | TradeNetworkGraph.jsx:170-172 | a skipped row leaves the whole graph unchanged |
| TradeNetworkGraph.KeptLinks | TradeNetworkGraph.jsx:274 | exactly the links with at least the threshold's transactions are kept |
| TradeNetworkGraph.Endpoints | TradeNetworkGraph.jsx:277-281 | the used ids are exactly the ends of the kept links |
| TradeNetworkGraph.NodesWithIds | TradeNetworkGraph.jsx:283 | exactly the nodes whose id is in the set are kept |
| TradeNetworkGraph.Threshold | TradeNetworkGraph.jsx:273-283 | the kept links are those at or above the threshold, and the kept nodes are exactly the nodes at their ends |
| TradeNetworkGraph.ThresholdClosed | TradeNetworkGraph.jsx:273-283 | the thresholded graph is closed and its node ids are exactly its link ends |
| TradeNetworkGraph.ThresholdMonotone | TradeNetworkGraph.jsx:274 | a higher threshold keeps a subset of the links and of the nodes |
| TradeNetworkGraph.UsedNodeIds | TradeNetworkGraph.jsx:277-281 | the loop collects exactly the ends of the links |
| TradeNetworkGraph.ProcessData | TradeNetworkGraph.jsx:108-292 | `processData` sets the threshold view of the full graph of the rows |
| TradeNetworkGraph.ProcessedGraph | TradeNetworkGraph.jsx:273-289 | the processed graph is closed, has no isolated node, and holds only links at or above the threshold |
| TradeNetworkGraph.SearchMatches | TradeNetworkGraph.jsx:302-315 | the search keeps exactly the nodes whose lower-cased name or an original spelling contains the lower-cased term |
| TradeNetworkGraph.FindNode | TradeNetworkGraph.jsx:325 | `find` returns a node with the id, and nothing exactly when no node has it |
| TradeNetworkGraph.Distinct | TradeNetworkGraph.jsx:332 | the set union drops repeated nodes and keeps every node |
| TradeNetworkGraph.LinksWithin | TradeNetworkGraph.jsx:338-342 | exactly the links with both ends among the ids are kept |
| TradeNetworkGraph.GetFilteredGraphData | TradeNetworkGraph.jsx:295-348 | with no term and no selection the graph is returned as is; otherwise the view's nodes come from the graph and its links are exactly the graph's links between them; a selection is requested exactly when there is a term, no selection and a single match, and it names that match |
| TradeNetworkGraph.FocusWithoutTerm | TradeNetworkGraph.jsx:324-333 | selecting a node with no term shows exactly it and its related nodes |
| TradeNetworkGraph.FocusWithTerm | TradeNetworkGraph.jsx:330-332 | selecting a node with a term shows the matches together with it and its related nodes, each once |
| TradeNetworkGraph.SearchSelects | TradeNetworkGraph.jsx:302-320 | with no selection the view is the matches, and the single match is requested for selection |
| TradeNetworkGraph.UnknownSelectionIgnored | TradeNetworkGraph.jsx:325-326 | a selection naming no node is ignored |
| TradeNetworkGraph.FilterClosed | TradeNetworkGraph.jsx:337-342 | the filtered view of a closed graph is closed |
| TradeNetworkGraph.MatchIgnoresCase | TradeNetworkGraph.jsx:303-307 | a name containing the upper-cased term matches the term in any case |
| TradeNetworkGraph.NodeMatchesPiece | TradeNetworkGraph.jsx:305-313 | a node that matches a term matches every piece of it, so a longer term narrows the matches |
| MainJs.Squeeze | src/js/main.js:104 | the cleanup leaves the value trimmed and single-spaced with plain spaces, keeping every non-whitespace character in order; that each whitespace run becomes exactly one space is `MainJs.SqueezeRun` |
| MainJs.SqueezeIdempotent | src/js/main.js:104 | cleaning twice is cleaning once |
| MainJs.SqueezeRun | src/js/main.js:104 | inside a value, a whitespace run becomes exactly one space, and the text on either side is squeezed on its own |
| MainJs.Canonicalise | src/js/main.js:111-113 | the three sequential replacements give SUZLON over INOX WIND over ENVISION and keep a name containing none |
| MainJs.CanonicaliseClean | src/js/main.js:111-113 | the replacements keep a clean upper-case name clean |
| MainJs.Normalize | src/js/main.js:102-116 | a missing cell gives ""; countries get the cleanup only; every other type comes out upper-case and free of punctuation, mapped to SUZLON, INOX WIND or ENVISION by priority, else to the cleaned core; every result is trimmed and single-spaced; that no legal suffix is left is `MainJs.NormalizedHasNoSuffix` |
| MainJs.NormalizeCountryIdempotent | src/js/main.js:102-104 | a normalised country is its own normal form |
| MainJs.NormalizedHasNoSuffix | src/js/main.js:105-113 | a value normalised under any type but `country` holds no legal suffix as a whole word |
| MainJs.ToInt32 | src/js/main.js:172 | the 32-bit conversion lands in the signed range and agrees with its input modulo 2^32 |
| MainJs.HashBound | src/js/main.js:172 | the hash grows at most linearly in the length, so it stays an exact double for names under 2^21 characters |
| MainJs.HashStepMod | src/js/main.js:172 | one step `(h<<5)-h+c` agrees with `31*h+c` modulo 2^32 |
| MainJs.HashIsPolynomial | src/js/main.js:172 | the hash agrees modulo 2^32 with the polynomial hash of base 31 over the character codes |
| MainJs.Hex | src/js/main.js:173 | `toString(16)` gives a non-empty string of hexadecimal digits with no leading zero |
| MainJs.HexRoundTrip | src/js/main.js:173 | reading the hexadecimal digits back gives the number |
| MainJs.HexLength | src/js/main.js:173 | a number below 2^32 has at most 8 hexadecimal digits, so `slice(0,8)` keeps it whole |
| MainJs.ProductNameId | src/js/main.js:172-174 | the id is `product-name-` followed by 1 to 8 hexadecimal digits |
| MainJs.ProductNameIdExact | src/js/main.js:172-174 | when the absolute hash is below 2^32 the id's digits encode it exactly |
| MainJs.HsLabel | src/js/main.js:161-165 | the label is `HS` with the first 2 digits and `xx` for `category` codes of length at least 2, with the first 4 and `xx` for `subcategory` codes of length at least 4, and with the whole code otherwise |
| MainJs.NameLabel | src/js/main.js:171 | the label has at most 30 characters: the name up to 30, otherwise its first 27 followed by `...` |
| MainJs.ProductEntry | src/js/main.js:156-175 | the product is missing exactly when the mode's cell is; in `hsCode` mode the id is `product-` and the label of the trimmed code, the name is that label and the trimmed code is the original; in name mode the id is the hashed product-name id of the normalised name, the name its label of at most 30 characters, and the raw cell the original |
| MainJs.PlanRow | src/js/main.js:139-175 | a row is skipped exactly when country, supplier, importer or the mode's product cell is missing; otherwise the country, supplier and importer entries have the typed id of the normalised name, that name, their type and the raw cell, the product is the product entry, and the value is the row's |
| MainJs.Plans | src/js/main.js:139 | each row is planned on its own, in order |
| MainJs.Touched | src/js/main.js:179-184 | after the four `addNode` calls all four ids are nodes |
| MainJs.Relate | src/js/main.js:135-136 | recording neighbours changes no node id |
| MainJs.RelateAll | src/js/main.js:186-195 | a mode's `addLink` calls change no node id |
| MainJs.RelateAllFacts | src/js/main.js:135-136 | each node gains exactly its neighbours along the row's edges |
| MainJs.HitFacts | src/js/main.js:128-134 | a new link starts with both ends, one transaction and the value; an existing link gains one transaction and the value |
| MainJs.HitAllAt | src/js/main.js:128-134 | the link map gains exactly the row's keys; keys the row does not emit are unchanged; each emitted key gets one hit |
| MainJs.Builder.constructor | src/js/main.js:93-94 | the builder starts with empty maps and no rows seen |
| MainJs.Builder.AddNode | src/js/main.js:118-125 | `addNode` creates a node with the spelling and zero counters or adds the spelling to the existing one; a new id goes to the end of the order |
| MainJs.Builder.TouchNode | src/js/main.js:180-183 | the node is created or extended and gains one transaction and the value |
| MainJs.Builder.AddLink | src/js/main.js:127-137 | `addLink` creates the link on first use, adds one transaction and the value, appends a new key to the order, and records both ends as each other's neighbours |
| MainJs.Builder.AddRow | src/js/main.js:139-196 | the row body keeps the maps equal to the reference definition over the rows seen, the rejected row included |
| MainJs.Builder.AddPlan | src/js/main.js:179-195 | an accepted row keeps the maps equal to the reference definition |
| MainJs.Builder.TouchRow | src/js/main.js:179-184 | the row's four nodes are created or extended and counted in order |
| MainJs.Builder.LinkRow | src/js/main.js:186-195 | the display mode's `addLink` calls update links, order and neighbours as the edge table says |
| MainJs.Builder.LinkChain | src/js/main.js:187-190 | the three `full`-mode calls give the chain country to supplier to product to importer |
| MainJs.Builder.Snapshot | src/js/main.js:198-209 | `fullData` equals the full graph of the rows seen, in insertion order |
| MainJs.FullData | src/js/main.js:198-208 | the node array lists the node ids in insertion order and the link array has one entry per link key |
| MainJs.FullDataNodes | src/js/main.js:198-207 | node ids are unique, and the nodes are exactly the created ones with their reference counters |
| MainJs.FullDataLinks | src/js/main.js:208 | link keys are unique; the links are exactly the created ones; each count is positive |
| MainJs.FullDataClosed | src/js/main.js:135-136 | every link's ends are nodes, and each end lists the other among its neighbours |
| MainJs.FullDataNeighbours | src/js/main.js:135-136 | neighbour lists are symmetric and name only existing nodes |
| MainJs.AcceptedRowCounts | src/js/main.js:179-184 | one more accepted row gives each of its nodes one more transaction, its value and its original spelling |
| MainJs.SkippedRowKeepsFullData | src/js/main.js:143 | a skipped row leaves `fullData` unchanged |
| MainJs.FoundAt | src/js/main.js:222-224 | `find` stops at the first matching node; no node before it matches; it runs off the end exactly when no node matches |
| MainJs.MatchesPiece | src/js/main.js:222-224 | a node that matches a term matches every piece of it |
| MainJs.NeighborIds | src/js/main.js:240-243 | the ids reached are exactly the other ends of the links with `focus` at an end |
| MainJs.CollectNeighborIds | src/js/main.js:239-243 | the loop collects `focus` and exactly its neighbours |
| MainJs.NodesWithIds | src/js/main.js:246 | exactly the nodes whose id is in the set are kept |
| MainJs.IncidentLinks | src/js/main.js:247 | exactly the links with `focus` at an end are kept |
| MainJs.FocusView | src/js/main.js:238-248 | the focus view holds exactly the links at `focus`, and exactly the node `focus` and the nodes adjacent to it |
| MainJs.AppliedFilter | src/js/main.js:215-249 | with no trimmed term or no match the selection is kept; otherwise it becomes the first match; with no selection the whole graph is shown, else the focus view of the selection |
| MainJs.NoSearchNoSelection | src/js/main.js:233-235 | with a blank search and no selection the whole graph is shown |
| MainJs.SearchTrimmed | src/js/main.js:218 | surrounding whitespace in the search box has no effect |
| MainJs.FilterClosed | src/js/main.js:245-248 | the filtered view of a closed graph is closed |
| MainJs.StaleFocusEmpties | src/js/main.js:239-248 | a selection naming no node gives an empty view |
| MainJs.FocusShowsNeighbours | src/js/main.js:239-246 | the focus view of a built graph shows only the focus and its recorded neighbours |
| MainJs.BuildFullData | src/js/main.js:139-209 | the row loop and the snapshot give the full graph of the raw rows |
| MainJs.RebuiltViewClosed | src/js/main.js:198-211 | the rebuilt graph and its filtered view are closed |
| MainJs.App.constructor | src/js/main.js:4-7 | the page starts with no rows, empty graphs and no selection |
| MainJs.App.Rebuild | src/js/main.js:92-211 | `rebuild` sets `fullData` to the full graph of the raw rows, ignores `minTx`, and applies the filter to the previous selection |
| MainJs.App.ApplyFilter | src/js/main.js:215-249 | `applyFilter` sets the view and the selection as the filter function says, leaving the rows and `fullData` alone |
| MainJs.FilterView | src/js/main.js:215-249 | the view and the selection computed by the filter loop are those the filter function prescribes for the full data, search value and selection |
| Divergences.CleanupsAgree | src/js/main.js:104 | the component's cleanup with its extra newline replacement gives the same string as the page script's |
| Divergences.CanonicalAgrees | src/js/main.js:111-113 | the page script's three sequential `if`s pick the same name as the component's `else if` chain |
| Divergences.NormalisationAgrees | src/js/main.js:102-116 | both files normalise countries, suppliers and importers identically |
| Divergences.HsLabelsAgree | src/js/main.js:161-165 | both files label HS codes identically |
| Divergences.HsProductIdsAgree | src/js/main.js:157-166 | in `hsCode` mode both files give a product the same id and name |
| Divergences.ProductNameTreatment | src/js/main.js:105 | the component cleans product names like countries; the page script cleans them like company names |
| Divergences.ProductNamesDiffer | src/js/main.js:170 | a product name with a lower-case letter is normalised differently by the two files |
| Divergences.ProductKeepsText | TradeNetworkGraph.jsx:211 | the component's product normalisation keeps every non-space character of the name, lower case included |
| Divergences.ProductUpperCase | src/js/main.js:170 | the page script's product normalisation leaves no lower-case letter |
| Divergences.ProductNameIdsDiffer | src/js/main.js:172-174 | a worked example: the component's id of the name `a` is `product-name-a`, and the page script's id of the name `A` is `product-name-41`, the hexadecimal of its hash 65 |
| Divergences.ProductNameIdShapes | TradeNetworkGraph.jsx:220 | for every normalised name the component's id ends in the name's first 20 characters and the page script's in hexadecimal digits only |
| Divergences.ProductNameIdsApart | src/js/main.js:172-174 | the two ids of a name differ whenever one of its first 20 characters is not a lower-case hexadecimal digit |
| Divergences.HsOriginalsDiffer | src/js/main.js:159 | the recorded HS original is the raw cell in the component and the trimmed code in the page script; they agree exactly when the cell has no edge whitespace |

## Left out

- Rendering is not modelled: D3 drawing, the force layout, zoom, tooltips, legends and the sidebar are presentation with no effect on the graph.
- The event handlers are not modelled as such. The clear button (`src/js/main.js:39-45`) sets `selectedEntity` to `null`, empties the search box and calls `applyFilter`; a node click (`src/js/main.js:318-323`) toggles `selectedEntity` between the node's id and `null` and calls `applyFilter`. `MainJs.App.ApplyFilter` covers both, since it is proved for any search value and any prior selection; the caller sets those fields first.
- Loading data is not modelled: `fetch` and the CSV parse with PapaParse are outside the model, and the rows are an input sequence.
- React's effect scheduling and state setters are not modelled: `processData` returns the graph that `setGraphData` stores.
- `getFilteredGraphData` returns the view and the selection it asks for. `setSelectedEntity` only takes effect on the next render, so the view returned does not use it.
- Cell values are strings. The caller passes any falsy cell (undefined, null, `0`, `NaN` or `""`) as `None` or `Some("")`, and every other cell as `Some(String(v))`; so a `0` cell skips the row as in the source.
- The CIF value is a real given with the row. `parseFloat(...) || 0` happens before the model sees it, and doubles are read as exact reals, so rounding error is not modelled.
- `originalNames`, `relatedNodes` and `neighbors` are JavaScript `Set`s turned into arrays. The model keeps them as sets, so the order of those arrays is not modelled.
- All strings are taken to be ASCII. Dafny's `char` is a Unicode scalar value, while JavaScript counts UTF-16 code units. For a name with a character outside the Basic Multilingual Plane, `.length`, `slice` and `substring` (`src/js/main.js:171`, `TradeNetworkGraph.jsx:215-220`) and the `charCodeAt(0)` of the hash (`src/js/main.js:172`) would differ from the model.
- JsText.ToUpper: models only the ASCII case mapping. `toUpperCase` and `toLowerCase` also map non-ASCII letters.
- JsText.Trim: treats space, tab, newline, carriage return, vertical tab and form feed as whitespace. The other Unicode spaces that JavaScript's `trim` and `\s` also remove are not modelled.
- JsText.StripFrom: its own contract only bounds the length of the result. What it keeps and what it drops are stated by `JsText.StripFromKept` and `JsText.StripFromDropped`.
- MainJs.AppliedFilter: every original spelling is a string. With `dynamicTyping` (`src/js/main.js:82`) a numeric cell is stored as a number in `originalNames` (`src/js/main.js:169`, `:179`), and `o.toLowerCase()` at `src/js/main.js:223` then throws a `TypeError`. The model does not capture that failure. The component calls `String(name)` first (`TradeNetworkGraph.jsx:311`), so it has no such failure.
- MainJs.HashBound: the hash is exact integer arithmetic. It agrees with the double arithmetic of the source only while values stay below 2^53, which this lemma guarantees for names under 2^21 characters.
- MainJs.Builder.AddLink: requires both endpoints to be nodes already. The source would throw otherwise; `rebuild` always adds the row's nodes first.
- `selectedEntity` is a string, and `""` stands for `null`. Node ids always carry a type prefix, so no node has the id `""`.
- The console log in `processData` is not modelled.

