/** The React component `TradeNetworkGraph.jsx`: entity normalisation
    (`normalizeEntity`), the graph build of `processData` with its inner
    `getNode` and `addLink` helpers and the transaction threshold, and the
    search/selection view of `getFilteredGraphData`. */
module TradeNetworkGraph {
  import opened JsText
  import opened TradeRows

  // ------------------------------------------------------ normalizeEntity

  /** `trim()`, then `replace(/\n/g, ' ')`, then `replace(/\s+/g, ' ')`: the
      whitespace cleanup every entity type receives. */
  function CleanSpaces(s: string): (r: string)
    ensures NoEdgeSpace(r) && NoDoubleSpace(r)
    ensures forall i :: 0 <= i < |r| && IsSpace(r[i]) ==> r[i] == ' '
    ensures NonSpace(r) == NonSpace(s)
  {
    var t := Trim(s);
    CollapseIgnoresNewlines(t);
    CollapseTrimmed(t);
    CollapseKeepsText(t);
    CollapseChars(t);
    CollapseSpaces(ReplaceNewlines(t))
  }

  /** Cleaning an already clean value changes nothing. */
  lemma CleanSpacesIdempotent(s: string)
    ensures CleanSpaces(CleanSpaces(s)) == CleanSpaces(s)
  {
    var c := CleanSpaces(s);
    assert ReplaceNewlines(c) == c;
    CollapseFixpoint(c);
  }

  /** Inside a value, a run of whitespace, newlines included, becomes exactly
      one space, and the text on either side is cleaned on its own. */
  lemma CleanSpacesRun(a: string, w: string, b: string)
    requires a != [] && b != [] && NoEdgeSpace(a) && NoEdgeSpace(b)
    requires w != [] && AllSpace(w)
    ensures CleanSpaces(a + w + b) == CleanSpaces(a) + " " + CleanSpaces(b)
  {
    var s := a + w + b;
    assert NoEdgeSpace(s) by {
      assert s[0] == a[0] && s[|s| - 1] == b[|b| - 1];
    }
    TrimClean(s);
    TrimClean(a);
    TrimClean(b);
    CollapseIgnoresNewlines(s);
    CollapseIgnoresNewlines(a);
    CollapseIgnoresNewlines(b);
    CollapseRunOneSpace(a, w, b);
  }

  /** The special cases that map a whole family of spellings to one token. */
  function Canonical(s: string): (r: string)
    ensures Contains(s, "SUZLON") ==> r == "SUZLON"
    ensures !Contains(s, "SUZLON") && Contains(s, "INOX WIND") ==> r == "INOX WIND"
    ensures !Contains(s, "SUZLON") && !Contains(s, "INOX WIND") && Contains(s, "ENVISION") ==> r == "ENVISION"
    ensures !Contains(s, "SUZLON") && !Contains(s, "INOX WIND") && !Contains(s, "ENVISION") ==> r == s
  {
    if Contains(s, "SUZLON") then "SUZLON"
    else if Contains(s, "INOX WIND") then "INOX WIND"
    else if Contains(s, "ENVISION") then "ENVISION"
    else s
  }

  /** The canonical tokens are themselves clean upper-case names. */
  lemma CanonicalClean(s: string)
    requires Plain(s) && NoEdgeSpace(s) && NoDoubleSpace(s)
    ensures var r := Canonical(s); Plain(r) && NoEdgeSpace(r) && NoDoubleSpace(r) && ToUpper(r) == r
  {
    if Contains(s, "SUZLON") {
      WordClean("SUZLON");
    } else if Contains(s, "INOX WIND") {
      InoxWindClean();
    } else if Contains(s, "ENVISION") {
      WordClean("ENVISION");
    } else {
      UpperFixpoint(s);
    }
  }

  /** `normalizeEntity(name, type)`. A falsy value gives `''`; every other
      value is whitespace-cleaned; supplier and importer names are further
      upper-cased, stripped of legal suffixes and punctuation, and
      canonicalised. Country and product values get only the whitespace
      cleanup. */
  function NormalizeEntity(name: Option<string>, kind: EntityKind): (r: string)
    ensures Missing(name) ==> r == ""
    ensures NoEdgeSpace(r) && NoDoubleSpace(r)
    ensures !Missing(name) && (kind == Country || kind == Product) ==> r == CleanSpaces(name.value)
    ensures kind == Supplier || kind == Importer ==> ToUpper(r) == r && NoPunct(r)
    ensures !Missing(name) && (kind == Supplier || kind == Importer) ==>
              var core := CompanyCore(ToUpper(CleanSpaces(name.value)));
              (Contains(core, "SUZLON") ==> r == "SUZLON") &&
              (!Contains(core, "SUZLON") && Contains(core, "INOX WIND") ==> r == "INOX WIND") &&
              (!Contains(core, "SUZLON") && !Contains(core, "INOX WIND") && Contains(core, "ENVISION") ==> r == "ENVISION") &&
              (!Contains(core, "SUZLON") && !Contains(core, "INOX WIND") && !Contains(core, "ENVISION") ==> r == core)
  {
    if Missing(name) then ""
    else
      var basic := CleanSpaces(name.value);
      if kind == Supplier || kind == Importer then
        var core := CompanyCore(ToUpper(basic));
        CanonicalClean(core);
        Canonical(core)
      else basic
  }

  /** A normalised supplier or importer name keeps no legal suffix as a whole
      word: the removal at line 89 runs before the cleanup, and neither the
      cleanup nor the canonical tokens bring one back. */
  lemma NormalizedCompanyHasNoSuffix(name: Option<string>, kind: EntityKind)
    requires kind == Supplier || kind == Importer
    ensures forall j: nat :: SuffixAt(NormalizeEntity(name, kind), j).None?
  {
    TokensHaveNoSuffix();
    if !Missing(name) {
      CoreHasNoSuffix(ToUpper(CleanSpaces(name.value)));
    }
  }

  /** A country or product value that is already normalised is its own normal form. */
  lemma NormalizeCountryIdempotent(name: string, kind: EntityKind)
    requires kind == Country || kind == Product
    requires name != ""
    ensures var n := NormalizeEntity(Some(name), kind);
            n != "" ==> NormalizeEntity(Some(n), kind) == n
  {
    CleanSpacesIdempotent(name);
  }

  // ------------------------------------------------------ product labels

  /** The HS-code label: the first 2 digits for `category` codes of length at
      least 2, the first 4 for `subcategory` codes of length at least 4, the
      whole code otherwise. */
  function HsLabel(level: HsLevel, hsCode: string): (r: string)
    ensures "HS " <= r
    ensures level == Category && |hsCode| >= 2 ==> r == "HS " + hsCode[..2] + "xx"
    ensures level == Subcategory && |hsCode| >= 4 ==> r == "HS " + hsCode[..4] + "xx"
    ensures !(level == Category && |hsCode| >= 2) && !(level == Subcategory && |hsCode| >= 4) ==> r == "HS " + hsCode
  {
    if level == Category && |hsCode| >= 2 then "HS " + hsCode[..2] + "xx"
    else if level == Subcategory && |hsCode| >= 4 then "HS " + hsCode[..4] + "xx"
    else "HS " + hsCode
  }

  /** Which codes share a product node: at `category` level those agreeing on
      their first two characters, at `subcategory` level on their first four,
      otherwise only equal codes. */
  lemma HsGrouping(level: HsLevel, a: string, b: string)
    ensures level == Category && |a| >= 2 && |b| >= 2 ==>
              (HsLabel(level, a) == HsLabel(level, b) <==> a[..2] == b[..2])
    ensures level == Subcategory && |a| >= 4 && |b| >= 4 ==>
              (HsLabel(level, a) == HsLabel(level, b) <==> a[..4] == b[..4])
    ensures level == WholeCode ==> (HsLabel(level, a) == HsLabel(level, b) <==> a == b)
  {
    var la, lb := HsLabel(level, a), HsLabel(level, b);
    if level == Category && |a| >= 2 && |b| >= 2 {
      assert la[3..5] == a[..2] && lb[3..5] == b[..2];
    } else if level == Subcategory && |a| >= 4 && |b| >= 4 {
      assert la[3..7] == a[..4] && lb[3..7] == b[..4];
    } else if level == WholeCode {
      assert la[3..] == a && lb[3..] == b;
    }
  }

  /** The label of a product-name node: names longer than 30 characters are
      cut to 27 characters followed by `...`. */
  function ProductLabel(normalized: string): (r: string)
    ensures |r| <= 30
    ensures |normalized| <= 30 ==> r == normalized
    ensures |normalized| > 30 ==> |r| == 30 && r[..27] == normalized[..27] && r[27..] == "..."
  {
    if |normalized| > 30 then normalized[..27] + "..." else normalized
  }

  /** The id of a product-name node: the first 20 characters of the
      untruncated normalised name. */
  function ProductNameId(normalized: string): (r: string)
    ensures "product-name-" <= r && |r| <= 33
    ensures r[13..] == Prefix(normalized, 20)
  {
    "product-name-" + Prefix(normalized, 20)
  }

  /** Two product names share a node exactly when their first 20 characters
      agree, so names differing only later are merged even though their
      27-character labels differ. */
  lemma ProductNameIdCollision(a: string, b: string)
    ensures ProductNameId(a) == ProductNameId(b) <==> Prefix(a, 20) == Prefix(b, 20)
  {
    assert ProductNameId(a)[13..] == Prefix(a, 20);
    assert ProductNameId(b)[13..] == Prefix(b, 20);
  }

  // ------------------------------------------------------------ one row

  /** The product entry of a row, or `None` when the product cell the current
      product mode reads is missing. In `hsCode` mode the raw cell value is
      recorded, and the label is built from the trimmed code. */
  function ProductEntry(row: Row, cfg: Config): (r: Option<Entry>)
    ensures r.None? <==> (cfg.productMode == ByHsCode && Missing(row.hsCode)) ||
                         (cfg.productMode == ByProductName && Missing(row.productName))
    ensures r.Some? ==> "product-" <= r.value.id && r.value.kind == Product
    ensures r.Some? && cfg.productMode == ByHsCode ==>
              var tag := HsLabel(cfg.hsLevel, Trim(row.hsCode.value));
              r.value.id == "product-" + tag && r.value.name == tag && r.value.orig == row.hsCode.value
    ensures r.Some? && cfg.productMode == ByProductName ==>
              var normalized := NormalizeEntity(row.productName, Product);
              && r.value.id == ProductNameId(normalized) && r.value.name == ProductLabel(normalized)
              && |r.value.name| <= 30 && r.value.orig == row.productName.value
  {
    if cfg.productMode == ByHsCode then
      if Missing(row.hsCode) then None
      else
        var tag := HsLabel(cfg.hsLevel, Trim(row.hsCode.value));
        Some(Entry("product-" + tag, tag, Product, row.hsCode.value))
    else
      assert cfg.productMode == ByProductName;
      if Missing(row.productName) then None
      else Some(NamedProduct(row.productName.value))
  }

  /** The `productName`-mode entry: the label and the id both come from the
      normalised name, and the raw cell is recorded. */
  function NamedProduct(productName: string): (r: Entry)
    ensures "product-" <= r.id && r.kind == Product
    ensures |r.name| <= 30 && r.orig == productName
    ensures var normalized := NormalizeEntity(Some(productName), Product);
            r.id == ProductNameId(normalized) && r.name == ProductLabel(normalized)
  {
    var normalized := NormalizeEntity(Some(productName), Product);
    Entry(ProductNameId(normalized), ProductLabel(normalized), Product, productName)
  }

  /** The prologue of the row callback of `processData`: skip incomplete rows;
      otherwise the four node occurrences with their ids, labels, types and
      raw values, and the row's value. */
  function PlanRow(row: Row, cfg: Config): (r: Option<RowPlan>)
    ensures r.None? <==> Missing(row.country) || Missing(row.supplier) || Missing(row.importer) ||
                         (cfg.productMode == ByHsCode && Missing(row.hsCode)) ||
                         (cfg.productMode == ByProductName && Missing(row.productName))
    ensures r.Some? ==> WellFormed(r.value) && r.value.value == row.cif
    ensures r.Some? ==>
              var country := NormalizeEntity(row.country, Country);
              var supplier := NormalizeEntity(row.supplier, Supplier);
              var importer := NormalizeEntity(row.importer, Importer);
              && r.value.country == Entry("country-" + country, country, Country, row.country.value)
              && r.value.supplier == Entry("supplier-" + supplier, supplier, Supplier, row.supplier.value)
              && r.value.importer == Entry("importer-" + importer, importer, Importer, row.importer.value)
              && Some(r.value.product) == ProductEntry(row, cfg)
  {
    if Missing(row.country) || Missing(row.supplier) || Missing(row.importer) then None
    else
      var product := ProductEntry(row, cfg);
      if product.None? then None
      else
        var country := NormalizeEntity(row.country, Country);
        var supplier := NormalizeEntity(row.supplier, Supplier);
        var importer := NormalizeEntity(row.importer, Importer);
        Some(RowPlan(
          Entry("country-" + country, country, Country, row.country.value),
          Entry("supplier-" + supplier, supplier, Supplier, row.supplier.value),
          product.value,
          Entry("importer-" + importer, importer, Importer, row.importer.value),
          row.cif))
  }

  function Plans(rows: seq<Row>, cfg: Config): (ps: seq<Option<RowPlan>>)
    ensures |ps| == |rows| && forall i :: 0 <= i < |rows| ==> ps[i] == PlanRow(rows[i], cfg)
  {
    seq(|rows|, i requires 0 <= i < |rows| => PlanRow(rows[i], cfg))
  }

  // ------------------------------------------------------------- the graph

  /** A node object. `originalNames` and `relatedNodes` are JavaScript `Set`s,
      turned into arrays by the snapshot; the model keeps them as sets. */
  datatype Node = Node(id: string, name: string, kind: EntityKind, originalNames: set<string>,
                       transactions: nat, value: real, relatedNodes: set<string>)

  datatype Link = Link(id: string, source: string, target: string, transactions: nat, value: real)

  datatype GraphData = GraphData(nodes: seq<Node>, links: seq<Link>)

  /** The node that a build over the rows `ps` holds for `id`: named and typed
      by the row that created it, counting every accepted row touching it. */
  function NodeFor(ps: seq<Option<RowPlan>>, mode: DisplayMode, id: string): Node {
    var e := FirstEntry(ps, id);
    Node(id, if e.Some? then e.value.name else "", if e.Some? then e.value.kind else Country,
         OrigNames(ps, id), Touches(ps, id), Volume(ps, id), Neighbours(ps, mode, id))
  }

  /** The link that a build over the rows `ps` holds for `key`: its endpoints
      come from the edge that created it. */
  function LinkFor(ps: seq<Option<RowPlan>>, mode: DisplayMode, key: string): Link {
    var e := FirstEdge(ps, mode, key);
    Link(key, if e.Some? then e.value.0 else "", if e.Some? then e.value.1 else "",
         LinkHits(ps, mode, key), LinkVolume(ps, mode, key))
  }

  /** Every node and every link of a build, in insertion order: what
      `Array.from(nodeMap.values())` and `Array.from(linkMap.values())` give. */
  function FullGraph(ps: seq<Option<RowPlan>>, mode: DisplayMode): (r: GraphData)
    ensures |r.nodes| == |NodeOrder(ps)| && forall i :: 0 <= i < |r.nodes| ==> r.nodes[i].id == NodeOrder(ps)[i]
    ensures |r.links| == |LinkOrder(ps, mode)| && forall i :: 0 <= i < |r.links| ==> r.links[i].id == LinkOrder(ps, mode)[i]
  {
    var no := NodeOrder(ps);
    var lo := LinkOrder(ps, mode);
    GraphData(seq(|no|, i requires 0 <= i < |no| => NodeFor(ps, mode, no[i])),
              seq(|lo|, i requires 0 <= i < |lo| => LinkFor(ps, mode, lo[i])))
  }

  /** The node map holds exactly the built nodes, each as the rows `ps` determine it. */
  ghost predicate NodeMapAgrees(m: map<string, Node>, ps: seq<Option<RowPlan>>, mode: DisplayMode) {
    forall id :: (id in m <==> FirstEntry(ps, id).Some?) && (id in m ==> m[id] == NodeFor(ps, mode, id))
  }

  /** The link map holds exactly the built links, each as the rows `ps` determine it. */
  ghost predicate LinkMapAgrees(m: map<string, Link>, ps: seq<Option<RowPlan>>, mode: DisplayMode) {
    forall k :: (k in m <==> FirstEdge(ps, mode, k).Some?) && (k in m ==> m[k] == LinkFor(ps, mode, k))
  }

  /** `getNode` on entry `e` of a row. */
  function Got(m: map<string, Node>, e: Entry): Node {
    if e.id in m then m[e.id].(originalNames := m[e.id].originalNames + {e.orig})
    else Node(e.id, e.name, e.kind, {e.orig}, 0, 0.0, {})
  }

  /** The statistics update: one more transaction and the row's value. */
  function Counted(n: Node, value: real): Node {
    n.(transactions := n.transactions + 1, value := n.value + value)
  }

  /** The node map after the four `getNode` calls and the statistics update of a row. */
  function Touched(m: map<string, Node>, p: RowPlan): map<string, Node> {
    CountedAll(GotAll(m, p), p)
  }

  /** The node map after the four `getNode` calls of a row whose ids are distinct. */
  function GotAll(m: map<string, Node>, p: RowPlan): (r: map<string, Node>)
    ensures EntryIds(p)[0] in r && EntryIds(p)[1] in r && EntryIds(p)[2] in r && EntryIds(p)[3] in r
  {
    m[p.country.id := Got(m, p.country)][p.supplier.id := Got(m, p.supplier)]
     [p.product.id := Got(m, p.product)][p.importer.id := Got(m, p.importer)]
  }

  /** The node map after the statistics update of a row. */
  function CountedAll(m: map<string, Node>, p: RowPlan): map<string, Node>
    requires p.country.id in m && p.supplier.id in m && p.product.id in m && p.importer.id in m
  {
    var m1 := m[p.country.id := Counted(m[p.country.id], p.value)];
    var m2 := m1[p.supplier.id := Counted(m1[p.supplier.id], p.value)];
    var m3 := m2[p.product.id := Counted(m2[p.product.id], p.value)];
    m3[p.importer.id := Counted(m3[p.importer.id], p.value)]
  }

  /** Getting and counting a node of an accepted row yields the node the
      longer sequence of rows determines, but for the neighbours its links add. */
  lemma NodeStep(m: map<string, Node>, ps: seq<Option<RowPlan>>, p: RowPlan, mode: DisplayMode, e: Entry)
    requires WellFormed(p) && e in Entries(p)
    requires e.id in m <==> FirstEntry(ps, e.id).Some?
    requires e.id in m ==> m[e.id] == NodeFor(ps, mode, e.id)
    ensures Counted(Got(m, e), p.value) == NodeFor(ps + [Some(p)], mode, e.id).(relatedNodes := Neighbours(ps, mode, e.id))
    ensures FirstEntry(ps + [Some(p)], e.id).Some?
  {
    var q := ps + [Some(p)];
    AcceptedRowTouches(ps, p, e);
    TouchedIffCreated(ps, mode, e.id);
    assert q[..|ps|] == ps;
    assert EntryOf(p, e.id) == Some(e) by {
      DistinctIds(p);
      assert e == p.country || e == p.supplier || e == p.product || e == p.importer;
    }
    if e.id !in m {
      assert FirstEntry(q, e.id) == Some(e);
    }
  }

  /** The node map holds what the rows `ps` followed by `p` determine, but for
      the neighbours the links of `p` are still to add. */
  ghost predicate NodesPending(m: map<string, Node>, ps: seq<Option<RowPlan>>, p: RowPlan, mode: DisplayMode) {
    forall id :: (id in m <==> FirstEntry(ps + [Some(p)], id).Some?) &&
                 (id in m ==> m[id] == NodeFor(ps + [Some(p)], mode, id).(relatedNodes := Neighbours(ps, mode, id)))
  }

  /** A node an accepted row does not touch is left as it was. */
  lemma NodeUntouched(ps: seq<Option<RowPlan>>, p: RowPlan, mode: DisplayMode, id: string)
    requires id !in EntryIds(p)
    ensures NodeFor(ps + [Some(p)], mode, id) == NodeFor(ps, mode, id)
    ensures FirstEntry(ps + [Some(p)], id) == FirstEntry(ps, id)
  {
    RowNeighboursTouch(p, mode, id);
    assert (ps + [Some(p)])[..|ps|] == ps;
  }

  /** After the nodes of an accepted row are got and counted, the node map
      holds what the longer sequence of rows determines, except for the
      neighbours the row's links are still to add. */
  lemma TouchedAgrees(m: map<string, Node>, ps: seq<Option<RowPlan>>, p: RowPlan, mode: DisplayMode)
    requires NodeMapAgrees(m, ps, mode) && WellFormed(p)
    ensures NodesPending(Touched(m, p), ps, p, mode)
  {
    var t := Touched(m, p);
    var q := ps + [Some(p)];
    DistinctIds(p);
    forall id
      ensures (id in t <==> FirstEntry(q, id).Some?) &&
              (id in t ==> t[id] == NodeFor(q, mode, id).(relatedNodes := Neighbours(ps, mode, id)))
    {
      if id == p.country.id {
        NodeStep(m, ps, p, mode, p.country);
      } else if id == p.supplier.id {
        NodeStep(m, ps, p, mode, p.supplier);
      } else if id == p.product.id {
        NodeStep(m, ps, p, mode, p.product);
      } else if id == p.importer.id {
        NodeStep(m, ps, p, mode, p.importer);
      } else {
        NodeUntouched(ps, p, mode, id);
        TouchedIffCreated(ps, mode, id);
      }
    }
  }

  /** `addLink`'s bookkeeping of neighbours. */
  function Relate(m: map<string, Node>, source: string, target: string): (r: map<string, Node>)
    ensures r.Keys == m.Keys
    ensures !(source in m && target in m) ==> r == m
  {
    if source in m && target in m then
      var m1 := m[source := m[source].(relatedNodes := m[source].relatedNodes + {target})];
      m1[target := m1[target].(relatedNodes := m1[target].relatedNodes + {source})]
    else m
  }

  /** `addLink` on edge `e`: the link after its increment. */
  function Hit(m: map<string, Link>, e: (string, string), value: real): Link {
    var key := EdgeKey(e);
    var l := if key in m then m[key] else Link(key, e.0, e.1, 0, 0.0);
    l.(transactions := l.transactions + 1, value := l.value + value)
  }

  /** A new link starts from one transaction and the row's value; an existing
      one gains one transaction and the value. */
  lemma HitFacts(m: map<string, Link>, e: (string, string), value: real)
    ensures EdgeKey(e) !in m ==> Hit(m, e, value) == Link(EdgeKey(e), e.0, e.1, 1, value)
    ensures EdgeKey(e) in m ==>
              var l := m[EdgeKey(e)];
              Hit(m, e, value) == l.(transactions := l.transactions + 1, value := l.value + value)
  {
  }

  /** The three maps after `addLink` on each edge of `es` in turn. */
  function RelateAll(m: map<string, Node>, es: seq<(string, string)>): (r: map<string, Node>)
    ensures r.Keys == m.Keys
  {
    if es == [] then m else RelateAll(Relate(m, es[0].0, es[0].1), es[1..])
  }

  function HitAll(m: map<string, Link>, es: seq<(string, string)>, value: real): map<string, Link>
    decreases |es|
  {
    if es == [] then m else HitAll(m[EdgeKey(es[0]) := Hit(m, es[0], value)], es[1..], value)
  }

  /** When both endpoints exist, each one gains the other as a neighbour. */
  lemma RelateFacts(m: map<string, Node>, source: string, target: string)
    requires source in m && target in m
    ensures Relate(m, source, target).Keys == m.Keys
    ensures forall x :: x in m ==>
              Relate(m, source, target)[x] == m[x].(relatedNodes := m[x].relatedNodes + EdgeNeighbours((source, target), x))
  {
    var r := Relate(m, source, target);
    forall x | x in m
      ensures r[x] == m[x].(relatedNodes := m[x].relatedNodes + EdgeNeighbours((source, target), x))
    {
      if x == source && x == target {
      } else if x == source {
      } else if x == target {
      } else {
      }
    }
  }

  /** When every endpoint exists, the links of `es` add exactly their other ends as neighbours. */
  lemma {:induction false} RelateAllFacts(m: map<string, Node>, es: seq<(string, string)>)
    requires forall e :: e in es ==> e.0 in m && e.1 in m
    ensures RelateAll(m, es).Keys == m.Keys
    ensures forall x :: x in m ==>
              RelateAll(m, es)[x] == m[x].(relatedNodes := m[x].relatedNodes + NeighboursIn(es, x))
  {
    if es != [] {
      var m1 := Relate(m, es[0].0, es[0].1);
      RelateFacts(m, es[0].0, es[0].1);
      RelateAllFacts(m1, es[1..]);
    }
  }

  /** With distinct keys, each link of `es` is incremented once and no other link changes. */
  lemma {:induction false} HitAllAt(m: map<string, Link>, es: seq<(string, string)>, value: real, k: string)
    requires NoDup(KeysOf(es))
    ensures k in HitAll(m, es, value) <==> k in m || k in KeysOf(es)
    ensures k in m && k !in KeysOf(es) ==> HitAll(m, es, value)[k] == m[k]
    ensures forall j :: 0 <= j < |es| && KeysOf(es)[j] == k ==> HitAll(m, es, value)[k] == Hit(m, es[j], value)
    decreases |es|
  {
    if es != [] {
      var k0 := EdgeKey(es[0]);
      var m1 := m[k0 := Hit(m, es[0], value)];
      var rest := es[1..];
      NoDupTail(KeysOf(es));
      assert KeysOf(es)[1..] == KeysOf(rest);
      HitAllAt(m1, rest, value, k);
      assert HitAll(m, es, value) == HitAll(m1, rest, value);
      forall j | 0 <= j < |es| && KeysOf(es)[j] == k ensures HitAll(m, es, value)[k] == Hit(m, es[j], value) {
        if j == 0 {
          assert k !in KeysOf(rest) && k in m1;
          assert HitAll(m1, rest, value)[k] == m1[k];
        } else {
          assert KeysOf(rest)[j - 1] == k && es[j] == rest[j - 1];
          assert k != k0;
          assert Hit(m1, rest[j - 1], value) == Hit(m, es[j], value);
        }
      }
    }
  }

  /** One accepted row takes maps that agree with the rows before it to maps
      that agree with the rows including it. */
  lemma RowAgrees(m: map<string, Node>, o: seq<string>, lm: map<string, Link>, lo: seq<string>,
                  ps: seq<Option<RowPlan>>, p: RowPlan, mode: DisplayMode)
    requires NodeMapAgrees(m, ps, mode) && o == NodeOrder(ps)
    requires LinkMapAgrees(lm, ps, mode) && lo == LinkOrder(ps, mode)
    requires WellFormed(p)
    ensures var q, es := ps + [Some(p)], Edges(p, mode);
            && NodeMapAgrees(RelateAll(Touched(m, p), es), q, mode) && OrderAfter(m.Keys, o, p) == NodeOrder(q)
            && LinkMapAgrees(HitAll(lm, es, p.value), q, mode) && EdgeOrder(lm.Keys, lo, es) == LinkOrder(q, mode)
  {
    NodeOrderMembers(ps);
    TouchedOrder(m.Keys, o, p);
    assert (ps + [Some(p)])[..|ps|] == ps;
    TouchedAgrees(m, ps, p, mode);
    LinkedNodesAgree(Touched(m, p), ps, p, mode);
    LinkedLinksAgree(lm, lo, ps, p, mode);
  }

  /** After the links of an accepted row, the node map holds what the longer
      sequence of rows determines. */
  lemma LinkedNodesAgree(nm: map<string, Node>, ps: seq<Option<RowPlan>>, p: RowPlan, mode: DisplayMode)
    requires WellFormed(p)
    requires NodesPending(nm, ps, p, mode)
    ensures NodeMapAgrees(RelateAll(nm, Edges(p, mode)), ps + [Some(p)], mode)
  {
    var q := ps + [Some(p)];
    var es := Edges(p, mode);
    assert q[..|ps|] == ps;
    EdgeTable(p, mode);
    forall e | e in es ensures e.0 in nm && e.1 in nm {
      AcceptedRowCreates(ps, p, e.0);
      AcceptedRowCreates(ps, p, e.1);
    }
    RelateAllFacts(nm, es);
  }

  /** After the links of an accepted row, the link map and its insertion order
      hold what the longer sequence of rows determines. */
  lemma LinkedLinksAgree(lm: map<string, Link>, lo: seq<string>, ps: seq<Option<RowPlan>>, p: RowPlan, mode: DisplayMode)
    requires WellFormed(p)
    requires LinkMapAgrees(lm, ps, mode) && lo == LinkOrder(ps, mode)
    ensures LinkMapAgrees(HitAll(lm, Edges(p, mode), p.value), ps + [Some(p)], mode)
    ensures EdgeOrder(lm.Keys, lo, Edges(p, mode)) == LinkOrder(ps + [Some(p)], mode)
  {
    var q := ps + [Some(p)];
    var es := Edges(p, mode);
    var h := HitAll(lm, es, p.value);
    assert q[..|ps|] == ps;
    EdgeTable(p, mode);
    LinkOrderMembers(ps, mode);
    EdgeOrderFacts(lm.Keys, lo, es);
    forall k
      ensures (k in h <==> FirstEdge(q, mode, k).Some?) && (k in h ==> h[k] == LinkFor(q, mode, k))
    {
      HitAllAt(lm, es, p.value, k);
      if k in KeysOf(es) {
        var j :| 0 <= j < |es| && KeysOf(es)[j] == k;
        LinkStep(lm, ps, p, mode, es[j]);
      } else {
        LinkUntouched(ps, p, mode, k);
      }
    }
  }

  /** Incrementing the link of an edge of an accepted row yields the link the
      longer sequence of rows determines. */
  lemma LinkStep(m: map<string, Link>, ps: seq<Option<RowPlan>>, p: RowPlan, mode: DisplayMode, e: (string, string))
    requires LinkMapAgrees(m, ps, mode) && WellFormed(p) && e in Edges(p, mode)
    ensures Hit(m, e, p.value) == LinkFor(ps + [Some(p)], mode, EdgeKey(e))
    ensures FirstEdge(ps + [Some(p)], mode, EdgeKey(e)).Some?
  {
    EdgeCounted(ps, p, mode, e);
    FirstEdgeFacts(ps, mode, EdgeKey(e));
  }

  /** A link whose key an accepted row does not produce is left as it was. */
  lemma LinkUntouched(ps: seq<Option<RowPlan>>, p: RowPlan, mode: DisplayMode, key: string)
    requires key !in EdgeKeys(p, mode)
    ensures LinkFor(ps + [Some(p)], mode, key) == LinkFor(ps, mode, key)
    ensures FirstEdge(ps + [Some(p)], mode, key) == FirstEdge(ps, mode, key)
  {
    CountKeyFacts(Edges(p, mode), key);
    var q := ps + [Some(p)];
    assert q[..|q| - 1] == ps && q[|q| - 1] == Some(p);
    assert KeyHits(p, mode, key) == 0;
    assert FirstWithKey(Edges(p, mode), key).None?;
    assert LinkHits(q, mode, key) == LinkHits(ps, mode, key);
    assert LinkVolume(q, mode, key) == LinkVolume(ps, mode, key);
  }

  /** The local state of one `processData` call: the two maps, their insertion
      orders, and (as ghost state) the rows seen so far. */
  class Builder {
    const cfg: Config
    var nodeMap: map<string, Node>
    var nodeOrder: seq<string>
    var linkMap: map<string, Link>
    var linkOrder: seq<string>
    ghost var plans: seq<Option<RowPlan>>

    /** The maps hold exactly what the rows seen so far determine. */
    ghost predicate Valid()
      reads this
    {
      && NodeMapAgrees(nodeMap, plans, cfg.displayMode) && nodeOrder == NodeOrder(plans)
      && LinkMapAgrees(linkMap, plans, cfg.displayMode) && linkOrder == LinkOrder(plans, cfg.displayMode)
    }

    constructor(cfg: Config)
      ensures this.cfg == cfg && plans == [] && Valid()
    {
      this.cfg := cfg;
      nodeMap := map[];
      nodeOrder := [];
      linkMap := map[];
      linkOrder := [];
      plans := [];
    }

    /** `getNode`: creates the node on first sight, otherwise records one
        more original name. */
    method GetNode(id: string, name: string, kind: EntityKind, originalName: string)
      modifies this
      ensures nodeMap == old(nodeMap)[id := Got(old(nodeMap), Entry(id, name, kind, originalName))]
      ensures nodeOrder == if id in old(nodeMap) then old(nodeOrder) else old(nodeOrder) + [id]
      ensures linkMap == old(linkMap) && linkOrder == old(linkOrder) && plans == old(plans)
    {
      if id !in nodeMap {
        nodeMap := nodeMap[id := Node(id, name, kind, {originalName}, 0, 0.0, {})];
        nodeOrder := nodeOrder + [id];
      } else {
        var node := nodeMap[id];
        nodeMap := nodeMap[id := node.(originalNames := node.originalNames + {originalName})];
      }
    }

    /** `addLink`: creates the link on first sight, increments it, and makes
        its endpoints neighbours when both exist. */
    method AddLink(sourceId: string, targetId: string, value: real)
      modifies this
      ensures linkMap == old(linkMap)[EdgeKey((sourceId, targetId)) := Hit(old(linkMap), (sourceId, targetId), value)]
      ensures linkOrder == Inserted(old(linkMap).Keys, old(linkOrder), EdgeKey((sourceId, targetId)))
      ensures nodeMap == Relate(old(nodeMap), sourceId, targetId)
      ensures nodeOrder == old(nodeOrder) && plans == old(plans)
    {
      var linkId := sourceId + "->" + targetId;
      if linkId !in linkMap {
        linkMap := linkMap[linkId := Link(linkId, sourceId, targetId, 0, 0.0)];
        linkOrder := linkOrder + [linkId];
      }
      var link := linkMap[linkId];
      linkMap := linkMap[linkId := link.(transactions := link.transactions + 1, value := link.value + value)];
      if sourceId in nodeMap && targetId in nodeMap {
        var sourceNode := nodeMap[sourceId];
        nodeMap := nodeMap[sourceId := sourceNode.(relatedNodes := sourceNode.relatedNodes + {targetId})];
        var targetNode := nodeMap[targetId];
        nodeMap := nodeMap[targetId := targetNode.(relatedNodes := targetNode.relatedNodes + {sourceId})];
      }
    }

    /** One call of the row callback: skip an incomplete row, otherwise get
        and count its four nodes and add the links of the display mode. */
    method AddRow(row: Row)
      requires Valid()
      modifies this
      ensures Valid() && plans == old(plans) + [PlanRow(row, cfg)]
    {
      var plan := PlanRow(row, cfg);
      if plan.None? {
        forall id, key {
          SkippedRowChangesNothing(plans, cfg.displayMode, id, key);
        }
        plans := plans + [plan];
        return;
      }
      AddPlan(plan.value);
    }

    /** The callback on a complete row. */
    method AddPlan(p: RowPlan)
      requires Valid() && WellFormed(p)
      modifies this
      ensures Valid() && plans == old(plans) + [Some(p)]
    {
      ghost var ps := plans;
      ghost var m0, o0, lm0, lo0 := nodeMap, nodeOrder, linkMap, linkOrder;
      DistinctIds(p);
      // the four getNode calls
      GetRowNodes(p);
      // one more transaction and the value on each of the four nodes
      CountRow(p);
      // the display mode's addLink calls
      LinkRow(p);
      plans := ps + [Some(p)];
      RowAgrees(m0, o0, lm0, lo0, ps, p, cfg.displayMode);
    }

    /** The four `getNode` calls of an accepted row. */
    method GetRowNodes(p: RowPlan)
      requires Separate(p)
      modifies this
      ensures nodeMap == GotAll(old(nodeMap), p)
      ensures nodeOrder == OrderAfter(old(nodeMap).Keys, old(nodeOrder), p)
      ensures linkMap == old(linkMap) && linkOrder == old(linkOrder) && plans == old(plans)
    {
      GetNode(p.country.id, p.country.name, Country, p.country.orig);
      GetNode(p.supplier.id, p.supplier.name, Supplier, p.supplier.orig);
      GetNode(p.product.id, p.product.name, Product, p.product.orig);
      GetNode(p.importer.id, p.importer.name, Importer, p.importer.orig);
    }

    /** The statistics update of an accepted row: one more transaction and the
        row's value on each of its four nodes. */
    method CountRow(p: RowPlan)
      requires p.country.id in nodeMap && p.supplier.id in nodeMap && p.product.id in nodeMap && p.importer.id in nodeMap
      modifies this
      ensures nodeMap == CountedAll(old(nodeMap), p)
      ensures nodeOrder == old(nodeOrder) && linkMap == old(linkMap) && linkOrder == old(linkOrder) && plans == old(plans)
    {
      var value := p.value;
      nodeMap := nodeMap[p.country.id := Counted(nodeMap[p.country.id], value)];
      nodeMap := nodeMap[p.supplier.id := Counted(nodeMap[p.supplier.id], value)];
      nodeMap := nodeMap[p.product.id := Counted(nodeMap[p.product.id], value)];
      nodeMap := nodeMap[p.importer.id := Counted(nodeMap[p.importer.id], value)];
    }

    /** The display-mode chain of `addLink` calls of an accepted row. */
    method LinkRow(p: RowPlan)
      modifies this
      ensures var es := Edges(p, cfg.displayMode);
              && nodeMap == RelateAll(old(nodeMap), es)
              && linkMap == HitAll(old(linkMap), es, p.value)
              && linkOrder == EdgeOrder(old(linkMap).Keys, old(linkOrder), es)
      ensures nodeOrder == old(nodeOrder) && plans == old(plans)
    {
      var c, s, pr, i := p.country.id, p.supplier.id, p.product.id, p.importer.id;
      var value := p.value;
      ghost var es := Edges(p, cfg.displayMode);
      if cfg.displayMode == Full {
        ghost var nm, lm, lo := nodeMap, linkMap, linkOrder;
        AddLink(c, s, value);
        assert es[1..] == [(s, pr), (pr, i)];
        assert RelateAll(nm, es) == RelateAll(nodeMap, es[1..]);
        assert HitAll(lm, es, value) == HitAll(linkMap, es[1..], value);
        assert linkMap.Keys == lm.Keys + {EdgeKey(es[0])};
        assert EdgeOrder(lm.Keys, lo, es) == EdgeOrder(linkMap.Keys, linkOrder, es[1..]);
        ghost var nm1, lm1, lo1 := nodeMap, linkMap, linkOrder;
        AddLink(s, pr, value);
        assert es[1..][1..] == [(pr, i)];
        assert RelateAll(nm1, es[1..]) == RelateAll(nodeMap, es[1..][1..]);
        assert HitAll(lm1, es[1..], value) == HitAll(linkMap, es[1..][1..], value);
        assert linkMap.Keys == lm1.Keys + {EdgeKey(es[1])};
        assert EdgeOrder(lm1.Keys, lo1, es[1..]) == EdgeOrder(linkMap.Keys, linkOrder, es[1..][1..]);
        ghost var nm2, lm2, lo2 := nodeMap, linkMap, linkOrder;
        AddLink(pr, i, value);
        assert es[1..][1..][1..] == [];
        assert RelateAll(nm2, es[1..][1..]) == RelateAll(nodeMap, []);
        assert HitAll(lm2, es[1..][1..], value) == HitAll(linkMap, [], value);
        assert EdgeOrder(lm2.Keys, lo2, es[1..][1..]) == EdgeOrder(linkMap.Keys, linkOrder, []);
      } else if cfg.displayMode == CountrySupplier {
        AddLink(c, s, value);
        assert es[1..] == [];
      } else if cfg.displayMode == SupplierProduct {
        AddLink(s, pr, value);
        assert es[1..] == [];
      } else if cfg.displayMode == ProductImporter {
        AddLink(pr, i, value);
        assert es[1..] == [];
      } else if cfg.displayMode == CountryProduct {
        AddLink(c, pr, value);
        assert es[1..] == [];
      } else if cfg.displayMode == SupplierImporter {
        AddLink(s, i, value);
        assert es[1..] == [];
      }
    }

    /** The snapshot `Array.from(nodeMap.values())` / `Array.from(linkMap.values())`. */
    function Snapshot(): (g: GraphData)
      reads this
      requires forall i :: 0 <= i < |nodeOrder| ==> nodeOrder[i] in nodeMap
      requires forall i :: 0 <= i < |linkOrder| ==> linkOrder[i] in linkMap
      ensures Valid() ==> g == FullGraph(plans, cfg.displayMode)
    {
      var nm, no, lm, lo := nodeMap, nodeOrder, linkMap, linkOrder;
      GraphData(seq(|no|, i requires 0 <= i < |no| => nm[no[i]]),
                seq(|lo|, i requires 0 <= i < |lo| => lm[lo[i]]))
    }
  }

  // ------------------------------------------------ properties of a build

  /** The ids of a list of nodes. */
  function NodeIds(nodes: seq<Node>): set<string> {
    set n | n in nodes :: n.id
  }

  /** Every link joins two listed nodes. */
  predicate Closed(g: GraphData) {
    forall l :: l in g.links ==> l.source in NodeIds(g.nodes) && l.target in NodeIds(g.nodes)
  }

  /** No two nodes share an id. */
  predicate UniqueIds(nodes: seq<Node>) {
    forall i, j :: 0 <= i < j < |nodes| ==> nodes[i].id != nodes[j].id
  }

  /** The nodes of a build are the touched ids, each listed once with what the rows determine. */
  lemma FullGraphNodes(ps: seq<Option<RowPlan>>, mode: DisplayMode)
    ensures UniqueIds(FullGraph(ps, mode).nodes)
    ensures forall n :: n in FullGraph(ps, mode).nodes <==> FirstEntry(ps, n.id).Some? && n == NodeFor(ps, mode, n.id)
  {
    var g := FullGraph(ps, mode);
    var no := NodeOrder(ps);
    NodeOrderMembers(ps);
    forall n ensures n in g.nodes <==> FirstEntry(ps, n.id).Some? && n == NodeFor(ps, mode, n.id) {
      if n in g.nodes {
        var i :| 0 <= i < |g.nodes| && g.nodes[i] == n;
        assert n == NodeFor(ps, mode, no[i]);
      }
      if FirstEntry(ps, n.id).Some? && n == NodeFor(ps, mode, n.id) {
        var i :| 0 <= i < |no| && no[i] == n.id;
        assert g.nodes[i] == n;
      }
    }
  }

  /** The links of a build are the produced keys, each listed once with what the rows determine. */
  lemma FullGraphLinks(ps: seq<Option<RowPlan>>, mode: DisplayMode)
    ensures forall i, j :: 0 <= i < j < |FullGraph(ps, mode).links| ==> FullGraph(ps, mode).links[i].id != FullGraph(ps, mode).links[j].id
    ensures forall l :: l in FullGraph(ps, mode).links <==> FirstEdge(ps, mode, l.id).Some? && l == LinkFor(ps, mode, l.id)
    ensures forall l :: l in FullGraph(ps, mode).links ==> l.id == l.source + "->" + l.target && l.transactions > 0
  {
    var g := FullGraph(ps, mode);
    var lo := LinkOrder(ps, mode);
    LinkOrderMembers(ps, mode);
    forall l ensures l in g.links <==> FirstEdge(ps, mode, l.id).Some? && l == LinkFor(ps, mode, l.id) {
      if l in g.links {
        var i :| 0 <= i < |g.links| && g.links[i] == l;
        assert l == LinkFor(ps, mode, lo[i]);
      }
      if FirstEdge(ps, mode, l.id).Some? && l == LinkFor(ps, mode, l.id) {
        var i :| 0 <= i < |lo| && lo[i] == l.id;
        assert g.links[i] == l;
      }
    }
    forall l | l in g.links ensures l.id == l.source + "->" + l.target && l.transactions > 0 {
      FirstEdgeFacts(ps, mode, l.id);
    }
  }

  /** Every link of a build joins two built nodes, and each of them lists the other as a neighbour. */
  lemma FullGraphClosed(ps: seq<Option<RowPlan>>, mode: DisplayMode)
    ensures Closed(FullGraph(ps, mode))
    ensures forall l, n :: l in FullGraph(ps, mode).links && n in FullGraph(ps, mode).nodes && n.id == l.source ==>
              l.target in n.relatedNodes
    ensures forall l, n :: l in FullGraph(ps, mode).links && n in FullGraph(ps, mode).nodes && n.id == l.target ==>
              l.source in n.relatedNodes
  {
    var g := FullGraph(ps, mode);
    FullGraphNodes(ps, mode);
    FullGraphLinks(ps, mode);
    forall l | l in g.links ensures l.source in NodeIds(g.nodes) && l.target in NodeIds(g.nodes) {
      FirstEdgeFacts(ps, mode, l.id);
      assert NodeFor(ps, mode, l.source) in g.nodes;
      assert NodeFor(ps, mode, l.target) in g.nodes;
    }
    forall l, n | l in g.links && n in g.nodes
      ensures (n.id == l.source ==> l.target in n.relatedNodes) && (n.id == l.target ==> l.source in n.relatedNodes)
    {
      FirstEdgeFacts(ps, mode, l.id);
    }
  }

  /** Neighbour lists of a build are symmetric and name only built nodes. */
  lemma FullGraphNeighbours(ps: seq<Option<RowPlan>>, mode: DisplayMode)
    ensures forall a, b :: a in FullGraph(ps, mode).nodes && b in FullGraph(ps, mode).nodes ==>
              (b.id in a.relatedNodes <==> a.id in b.relatedNodes)
    ensures forall a, x :: a in FullGraph(ps, mode).nodes && x in a.relatedNodes ==> x in NodeIds(FullGraph(ps, mode).nodes)
  {
    var g := FullGraph(ps, mode);
    FullGraphNodes(ps, mode);
    forall a, b | a in g.nodes && b in g.nodes ensures b.id in a.relatedNodes <==> a.id in b.relatedNodes {
      NeighboursSymmetric(ps, mode, a.id, b.id);
    }
    forall a, x | a in g.nodes && x in a.relatedNodes ensures x in NodeIds(g.nodes) {
      NeighboursExist(ps, mode, a.id, x);
      assert NodeFor(ps, mode, x) in g.nodes;
    }
  }

  /** Appending a row to the data appends its plan. */
  lemma PlansAppend(rows: seq<Row>, row: Row, cfg: Config)
    ensures Plans(rows + [row], cfg) == Plans(rows, cfg) + [PlanRow(row, cfg)]
  {
    assert (rows + [row])[|rows|] == row;
  }

  /** An accepted row adds one transaction and its value to each of its four
      nodes and records the raw value of each. */
  lemma AcceptedRowCounts(rows: seq<Row>, row: Row, cfg: Config, e: Entry)
    requires PlanRow(row, cfg).Some? && e in Entries(PlanRow(row, cfg).value)
    ensures var before, after := NodeFor(Plans(rows, cfg), cfg.displayMode, e.id),
                                 NodeFor(Plans(rows + [row], cfg), cfg.displayMode, e.id);
            && after.transactions == before.transactions + 1
            && after.value == before.value + row.cif
            && after.originalNames == before.originalNames + {e.orig}
  {
    PlansAppend(rows, row, cfg);
    AcceptedRowTouches(Plans(rows, cfg), PlanRow(row, cfg).value, e);
  }

  /** A row missing a cell the build needs changes no node and no link. */
  lemma SkippedRowKeepsGraph(rows: seq<Row>, row: Row, cfg: Config)
    requires PlanRow(row, cfg).None?
    ensures FullGraph(Plans(rows + [row], cfg), cfg.displayMode) == FullGraph(Plans(rows, cfg), cfg.displayMode)
  {
    var ps, mode := Plans(rows, cfg), cfg.displayMode;
    var q := ps + [None];
    PlansAppend(rows, row, cfg);
    SkippedRowChangesNothing(ps, mode, "", "");
    forall id ensures NodeFor(q, mode, id) == NodeFor(ps, mode, id) {
      SkippedRowChangesNothing(ps, mode, id, "");
    }
    forall k ensures LinkFor(q, mode, k) == LinkFor(ps, mode, k) {
      SkippedRowChangesNothing(ps, mode, "", k);
      assert q[..|ps|] == ps;
    }
  }

  // ---------------------------------------------------- the threshold step

  /** `links.filter(link => link.transactions >= filterThreshold)`. */
  function KeptLinks(links: seq<Link>, threshold: int): (r: seq<Link>)
    ensures forall l :: l in r <==> l in links && l.transactions >= threshold
  {
    if links == [] then []
    else
      var last := links[|links| - 1];
      KeptLinks(links[..|links| - 1], threshold) + (if last.transactions >= threshold then [last] else [])
  }

  /** The ids at either end of some link. */
  function Endpoints(links: seq<Link>): (r: set<string>)
    ensures forall x :: x in r <==> exists l :: l in links && (l.source == x || l.target == x)
  {
    if links == [] then {}
    else
      var last := links[|links| - 1];
      Endpoints(links[..|links| - 1]) + {last.source, last.target}
  }

  /** `nodes.filter(node => ids.has(node.id))`. */
  function NodesWithIds(nodes: seq<Node>, ids: set<string>): (r: seq<Node>)
    ensures forall n :: n in r <==> n in nodes && n.id in ids
  {
    if nodes == [] then []
    else
      var last := nodes[|nodes| - 1];
      NodesWithIds(nodes[..|nodes| - 1], ids) + (if last.id in ids then [last] else [])
  }

  /** The threshold step: the links with enough transactions, and the nodes
      at their ends. */
  function Threshold(g: GraphData, threshold: int): (r: GraphData)
    ensures forall l :: l in r.links <==> l in g.links && l.transactions >= threshold
    ensures forall n :: n in r.nodes <==> n in g.nodes && n.id in Endpoints(r.links)
  {
    var links := KeptLinks(g.links, threshold);
    GraphData(NodesWithIds(g.nodes, Endpoints(links)), links)
  }

  /** Of a closed graph, the threshold keeps a closed graph whose nodes are
      exactly the ends of its links. */
  lemma ThresholdClosed(g: GraphData, threshold: int)
    requires Closed(g)
    ensures Closed(Threshold(g, threshold))
    ensures NodeIds(Threshold(g, threshold).nodes) == Endpoints(Threshold(g, threshold).links)
  {
    var r := Threshold(g, threshold);
    forall x | x in Endpoints(r.links) ensures x in NodeIds(r.nodes) {
      var l :| l in r.links && (l.source == x || l.target == x);
      var n :| n in g.nodes && n.id == x;
      assert n in r.nodes;
    }
  }

  /** A higher threshold keeps fewer links and fewer nodes. */
  lemma ThresholdMonotone(g: GraphData, low: int, high: int)
    requires low <= high
    ensures forall l :: l in Threshold(g, high).links ==> l in Threshold(g, low).links
    ensures forall n :: n in Threshold(g, high).nodes ==> n in Threshold(g, low).nodes
  {
    var h, w := Threshold(g, high), Threshold(g, low);
    forall n | n in h.nodes ensures n in w.nodes {
      var l :| l in h.links && (l.source == n.id || l.target == n.id);
      assert l in w.links;
    }
  }

  /** The `usedNodeIds` loop: every end of every kept link. */
  method UsedNodeIds(links: seq<Link>) returns (used: set<string>)
    ensures used == Endpoints(links)
  {
    used := {};
    for i := 0 to |links|
      invariant used == Endpoints(links[..i])
    {
      assert links[..i + 1][..i] == links[..i];
      used := used + {links[i].source};
      used := used + {links[i].target};
    }
    assert links[..|links|] == links;
  }

  /** `processData`: every row through the row callback, the snapshot of the
      two maps, then the threshold step. */
  method ProcessData(data: seq<Row>, cfg: Config, filterThreshold: int) returns (graphData: GraphData)
    ensures graphData == Threshold(FullGraph(Plans(data, cfg), cfg.displayMode), filterThreshold)
  {
    var b := new Builder(cfg);
    for i := 0 to |data|
      invariant b.Valid() && b.cfg == cfg && b.plans == Plans(data[..i], cfg)
    {
      b.AddRow(data[i]);
      assert data[..i + 1] == data[..i] + [data[i]];
    }
    assert data[..|data|] == data;
    NodeOrderMembers(b.plans);
    LinkOrderMembers(b.plans, cfg.displayMode);
    var full := b.Snapshot();
    var filteredLinks := KeptLinks(full.links, filterThreshold);
    var usedNodeIds := UsedNodeIds(filteredLinks);
    graphData := GraphData(NodesWithIds(full.nodes, usedNodeIds), filteredLinks);
  }

  /** What `processData` sets as graph data is closed, made of exactly the
      ends of its links, and keeps only links with enough transactions. */
  lemma ProcessedGraph(data: seq<Row>, cfg: Config, filterThreshold: int)
    ensures var r := Threshold(FullGraph(Plans(data, cfg), cfg.displayMode), filterThreshold);
            && Closed(r) && NodeIds(r.nodes) == Endpoints(r.links)
            && forall l :: l in r.links ==> l.transactions >= filterThreshold
  {
    FullGraphClosed(Plans(data, cfg), cfg.displayMode);
    ThresholdClosed(FullGraph(Plans(data, cfg), cfg.displayMode), filterThreshold);
  }

  // ------------------------------------------------------ search and focus

  /** A node matches a lower-cased term when its name or one of its original
      names contains the term once lower-cased. */
  predicate NodeMatches(n: Node, lowerTerm: string) {
    Contains(ToLower(n.name), lowerTerm) || exists o :: o in n.originalNames && Contains(ToLower(o), lowerTerm)
  }

  /** A node matching a term matches every piece of it, so typing more of a
      name can only narrow the matches. */
  lemma NodeMatchesPiece(n: Node, longer: string, shorter: string)
    requires Contains(longer, shorter)
    ensures NodeMatches(n, longer) ==> NodeMatches(n, shorter)
  {
    if Contains(ToLower(n.name), longer) {
      ContainsTrans(ToLower(n.name), longer, shorter);
    } else if NodeMatches(n, longer) {
      var o :| o in n.originalNames && Contains(ToLower(o), longer);
      ContainsTrans(ToLower(o), longer, shorter);
    }
  }

  /** `graphData.nodes.filter(...)` with the search predicate. */
  function SearchMatches(nodes: seq<Node>, lowerTerm: string): (r: seq<Node>)
    ensures forall n :: n in r <==> n in nodes && NodeMatches(n, lowerTerm)
    ensures (forall n :: n in nodes ==> !NodeMatches(n, lowerTerm)) ==> r == []
  {
    if nodes == [] then []
    else
      var last := nodes[|nodes| - 1];
      SearchMatches(nodes[..|nodes| - 1], lowerTerm) + (if NodeMatches(last, lowerTerm) then [last] else [])
  }

  /** Node `i` is the only one matching the term. */
  ghost predicate OneMatch(nodes: seq<Node>, lowerTerm: string, i: int) {
    0 <= i < |nodes| && NodeMatches(nodes[i], lowerTerm) &&
    forall j :: 0 <= j < |nodes| && NodeMatches(nodes[j], lowerTerm) ==> j == i
  }

  /** When exactly one node matches, the search result is that node alone. */
  lemma {:induction false} OneMatchList(nodes: seq<Node>, lowerTerm: string, i: int)
    requires OneMatch(nodes, lowerTerm, i)
    ensures SearchMatches(nodes, lowerTerm) == [nodes[i]]
  {
    var init, last := nodes[..|nodes| - 1], nodes[|nodes| - 1];
    if i == |nodes| - 1 {
      forall n | n in init ensures !NodeMatches(n, lowerTerm) {
        var j :| 0 <= j < |init| && init[j] == n;
        assert nodes[j] == n;
      }
    } else {
      assert init[i] == nodes[i];
      forall j | 0 <= j < |init| && NodeMatches(init[j], lowerTerm) ensures j == i {
        assert nodes[j] == init[j];
      }
      OneMatchList(init, lowerTerm, i);
    }
  }

  /** A search result of one node comes from exactly one matching node. */
  lemma {:induction false} SingleMatch(nodes: seq<Node>, lowerTerm: string)
    requires |SearchMatches(nodes, lowerTerm)| == 1
    ensures exists i :: OneMatch(nodes, lowerTerm, i)
  {
    var init, last := nodes[..|nodes| - 1], nodes[|nodes| - 1];
    var k := |nodes| - 1;
    if NodeMatches(last, lowerTerm) {
      assert SearchMatches(init, lowerTerm) == [];
      assert OneMatch(nodes, lowerTerm, k);
    } else {
      SingleMatch(init, lowerTerm);
      var i :| OneMatch(init, lowerTerm, i);
      assert init[i] == nodes[i];
      forall j | 0 <= j < |nodes| && NodeMatches(nodes[j], lowerTerm) ensures j == i {
        assert j < k;
        assert init[j] == nodes[j];
      }
      assert OneMatch(nodes, lowerTerm, i);
    }
  }

  /** `graphData.nodes.find(n => n.id === id)`. */
  function FindNode(nodes: seq<Node>, id: string): (r: Option<Node>)
    ensures r.Some? ==> r.value in nodes && r.value.id == id
    ensures r.None? <==> id !in NodeIds(nodes)
  {
    if nodes == [] then None
    else if nodes[0].id == id then Some(nodes[0])
    else
      var r := FindNode(nodes[1..], id);
      assert forall n :: n in nodes[1..] ==> n in nodes;
      assert r.None? ==> forall n :: n in nodes ==> n == nodes[0] || n in nodes[1..];
      r
  }

  /** `[...new Set(xs)]`: first occurrences, in order. */
  function Distinct(xs: seq<Node>): (r: seq<Node>)
    ensures forall n :: n in r <==> n in xs
    ensures forall i, j :: 0 <= i < j < |r| ==> r[i] != r[j]
  {
    if xs == [] then []
    else
      var d := Distinct(xs[..|xs| - 1]);
      if xs[|xs| - 1] in d then d else d + [xs[|xs| - 1]]
  }

  /** The links both of whose ends are among `ids`. */
  function LinksWithin(links: seq<Link>, ids: set<string>): (r: seq<Link>)
    ensures forall l :: l in r <==> l in links && l.source in ids && l.target in ids
  {
    if links == [] then []
    else
      var last := links[|links| - 1];
      LinksWithin(links[..|links| - 1], ids) + (if last.source in ids && last.target in ids then [last] else [])
  }

  /** The subgraph to draw, and the id passed to `setSelectedEntity`, if any:
      that call changes the selection only for the next render. */
  datatype FilterOutcome = FilterOutcome(view: GraphData, select: Option<string>)

  /** `getFilteredGraphData`. An empty search term or selection is JavaScript
      falsy; the term is lower-cased but not trimmed. */
  function GetFilteredGraphData(g: GraphData, searchTerm: string, selectedEntity: string): (r: FilterOutcome)
    ensures searchTerm == "" && selectedEntity == "" ==> r == FilterOutcome(g, None)
    ensures forall n :: n in r.view.nodes ==> n in g.nodes
    ensures searchTerm != "" || selectedEntity != "" ==>
              forall l :: l in r.view.links <==>
                l in g.links && l.source in NodeIds(r.view.nodes) && l.target in NodeIds(r.view.nodes)
    ensures r.select.Some? <==>
              searchTerm != "" && selectedEntity == "" && |SearchMatches(g.nodes, ToLower(searchTerm))| == 1
    ensures r.select.Some? ==>
              exists n :: n in g.nodes && n.id == r.select.value && NodeMatches(n, ToLower(searchTerm))
  {
    if searchTerm == "" && selectedEntity == "" then FilterOutcome(g, None)
    else
      var lowerSearchTerm := ToLower(searchTerm);
      var matched := if searchTerm != "" then SearchMatches(g.nodes, lowerSearchTerm) else g.nodes;
      var select :=
        if searchTerm != "" && |matched| == 1 && selectedEntity == "" then
          assert matched[0] in matched;
          Some(matched[0].id)
        else None;
      var selectedNode := FindNode(g.nodes, selectedEntity);
      var nodes :=
        if selectedEntity != "" && selectedNode.Some? then
          var relatedNodeIds := {selectedEntity} + selectedNode.value.relatedNodes;
          if searchTerm != "" then Distinct(matched + NodesWithIds(g.nodes, relatedNodeIds))
          else NodesWithIds(g.nodes, relatedNodeIds)
        else matched;
      FilterOutcome(GraphData(nodes, LinksWithin(g.links, NodeIds(nodes))), select)
  }

  /** With distinct ids, the node found for an id is the node carrying it. */
  lemma {:induction false} FindNodeUnique(nodes: seq<Node>, n: Node)
    requires UniqueIds(nodes) && n in nodes
    ensures FindNode(nodes, n.id) == Some(n)
  {
    var k :| 0 <= k < |nodes| && nodes[k] == n;
    if k > 0 {
      assert nodes[0].id != n.id;
      assert nodes[1..][k - 1] == n;
      FindNodeUnique(nodes[1..], n);
    }
  }

  /** Links whose ends are all among `ids` are all kept. */
  lemma {:induction false} LinksWithinAll(links: seq<Link>, ids: set<string>)
    requires forall l :: l in links ==> l.source in ids && l.target in ids
    ensures LinksWithin(links, ids) == links
  {
    if links != [] {
      var init := links[..|links| - 1];
      forall l | l in init ensures l.source in ids && l.target in ids {
        var i :| 0 <= i < |init| && init[i] == l;
        assert links[i] == l;
      }
      LinksWithinAll(init, ids);
      assert links == init + [links[|links| - 1]];
    }
  }

  /** With a selected node and no search term, the view holds the nodes whose
      id is the selection or one of its neighbours. */
  lemma FocusWithoutTerm(g: GraphData, selected: Node)
    requires UniqueIds(g.nodes) && selected in g.nodes && selected.id != ""
    ensures var r := GetFilteredGraphData(g, "", selected.id);
            && r.select == None
            && forall n :: n in r.view.nodes <==> n in g.nodes && n.id in {selected.id} + selected.relatedNodes
  {
    FindNodeUnique(g.nodes, selected);
  }

  /** With a selected node and a search term, the view holds the union of the
      matching nodes and the selection's neighbourhood, each once. */
  lemma FocusWithTerm(g: GraphData, searchTerm: string, selected: Node)
    requires UniqueIds(g.nodes) && selected in g.nodes && selected.id != "" && searchTerm != ""
    ensures var r := GetFilteredGraphData(g, searchTerm, selected.id);
            && r.select == None
            && (forall n :: n in r.view.nodes <==>
                  n in g.nodes && (NodeMatches(n, ToLower(searchTerm)) || n.id in {selected.id} + selected.relatedNodes))
            && forall i, j :: 0 <= i < j < |r.view.nodes| ==> r.view.nodes[i] != r.view.nodes[j]
  {
    FindNodeUnique(g.nodes, selected);
  }

  /** With a search term and no selection, the view holds the matching nodes,
      and the matching node is selected exactly when it is the only one. */
  lemma SearchSelects(g: GraphData, searchTerm: string)
    requires searchTerm != ""
    ensures var r := GetFilteredGraphData(g, searchTerm, "");
            && r.view.nodes == SearchMatches(g.nodes, ToLower(searchTerm))
            && (r.select.Some? <==> exists i :: OneMatch(g.nodes, ToLower(searchTerm), i))
            && forall i :: OneMatch(g.nodes, ToLower(searchTerm), i) ==> r.select == Some(g.nodes[i].id)
  {
    var lt := ToLower(searchTerm);
    if |SearchMatches(g.nodes, lt)| == 1 {
      SingleMatch(g.nodes, lt);
    }
    forall i | OneMatch(g.nodes, lt, i) ensures GetFilteredGraphData(g, searchTerm, "").select == Some(g.nodes[i].id) {
      OneMatchList(g.nodes, lt, i);
    }
  }

  /** A selection that names no node is ignored. */
  lemma UnknownSelectionIgnored(g: GraphData, searchTerm: string, selectedEntity: string)
    requires Closed(g) && selectedEntity != "" && selectedEntity !in NodeIds(g.nodes)
    ensures GetFilteredGraphData(g, searchTerm, selectedEntity).view == GetFilteredGraphData(g, searchTerm, "").view
  {
    if searchTerm == "" {
      LinksWithinAll(g.links, NodeIds(g.nodes));
    }
  }

  /** Of a closed graph, the view is closed. */
  lemma FilterClosed(g: GraphData, searchTerm: string, selectedEntity: string)
    requires Closed(g)
    ensures Closed(GetFilteredGraphData(g, searchTerm, selectedEntity).view)
  {
  }

  /** The search ignores case: a node whose name holds the upper-cased term,
      as the normalised company names do, matches. */
  lemma MatchIgnoresCase(n: Node, searchTerm: string)
    requires Contains(n.name, ToUpper(searchTerm))
    ensures NodeMatches(n, ToLower(searchTerm))
  {
    ContainsLower(n.name, ToUpper(searchTerm));
    LowerOfUpper(searchTerm);
  }
}
