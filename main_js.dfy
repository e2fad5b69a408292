/** The page script `src/js/main.js`: `rebuild` with its inner `normalize`,
    `addNode` and `addLink` helpers, the row loop and the `fullData`
    snapshot, and `applyFilter` over the script's closure variables. */
module MainJs {
  import opened JsText
  import opened TradeRows

  // ------------------------------------------------------------- normalize

  /** `String(v).trim().replace(/\s+/g, ' ')`. */
  function Squeeze(s: string): (r: string)
    ensures NoEdgeSpace(r) && NoDoubleSpace(r)
    ensures forall i :: 0 <= i < |r| && IsSpace(r[i]) ==> r[i] == ' '
    ensures NonSpace(r) == NonSpace(s)
  {
    var t := Trim(s);
    CollapseTrimmed(t);
    CollapseKeepsText(t);
    CollapseChars(t);
    CollapseSpaces(t)
  }

  /** Squeezing a squeezed value changes nothing. */
  lemma SqueezeIdempotent(s: string)
    ensures Squeeze(Squeeze(s)) == Squeeze(s)
  {
    var c := Squeeze(s);
    TrimClean(c);
    CollapseFixpoint(c);
  }

  /** Inside a value, a run of whitespace becomes exactly one space, and the
      text on either side is squeezed on its own. */
  lemma SqueezeRun(a: string, w: string, b: string)
    requires a != [] && b != [] && NoEdgeSpace(a) && NoEdgeSpace(b)
    requires w != [] && AllSpace(w)
    ensures Squeeze(a + w + b) == Squeeze(a) + " " + Squeeze(b)
  {
    var s := a + w + b;
    assert NoEdgeSpace(s) by {
      assert s[0] == a[0] && s[|s| - 1] == b[|b| - 1];
    }
    TrimClean(s);
    TrimClean(a);
    TrimClean(b);
    CollapseRunOneSpace(a, w, b);
  }

  /** The three `if (s.includes(...)) s = ...` statements, applied one after
      the other. */
  function Canonicalise(s: string): (r: string)
    ensures Contains(s, "SUZLON") ==> r == "SUZLON"
    ensures !Contains(s, "SUZLON") && Contains(s, "INOX WIND") ==> r == "INOX WIND"
    ensures !Contains(s, "SUZLON") && !Contains(s, "INOX WIND") && Contains(s, "ENVISION") ==> r == "ENVISION"
    ensures !Contains(s, "SUZLON") && !Contains(s, "INOX WIND") && !Contains(s, "ENVISION") ==> r == s
  {
    TokensApart();
    var s1 := if Contains(s, "SUZLON") then "SUZLON" else s;
    var s2 := if Contains(s1, "INOX WIND") then "INOX WIND" else s1;
    if Contains(s2, "ENVISION") then "ENVISION" else s2
  }

  /** The special-case tokens are clean upper-case names, like the values they replace. */
  lemma CanonicaliseClean(s: string)
    requires Plain(s) && NoEdgeSpace(s) && NoDoubleSpace(s)
    ensures var r := Canonicalise(s); Plain(r) && NoEdgeSpace(r) && NoDoubleSpace(r) && ToUpper(r) == r
  {
    if Contains(s, "SUZLON") {
      WordClean("SUZLON");
    } else if Contains(s, "INOX WIND") {
      InoxWindClean();
    } else if Contains(s, "ENVISION") {
      WordClean("ENVISION");
    } else {
      UpperFixpoint(s);
    }
  }

  /** `normalize(v, type)`. A falsy value gives `''`; every value is trimmed
      and whitespace-collapsed; every type but `country`, product names
      included, is further upper-cased, stripped of legal suffixes and
      punctuation, and canonicalised. */
  function Normalize(v: Option<string>, kind: EntityKind): (r: string)
    ensures Missing(v) ==> r == ""
    ensures NoEdgeSpace(r) && NoDoubleSpace(r)
    ensures !Missing(v) && kind == Country ==> r == Squeeze(v.value)
    ensures kind != Country ==> ToUpper(r) == r && NoPunct(r)
    ensures !Missing(v) && kind != Country ==>
              var core := CompanyCore(ToUpper(Squeeze(v.value)));
              (Contains(core, "SUZLON") ==> r == "SUZLON") &&
              (!Contains(core, "SUZLON") && Contains(core, "INOX WIND") ==> r == "INOX WIND") &&
              (!Contains(core, "SUZLON") && !Contains(core, "INOX WIND") && Contains(core, "ENVISION") ==> r == "ENVISION") &&
              (!Contains(core, "SUZLON") && !Contains(core, "INOX WIND") && !Contains(core, "ENVISION") ==> r == core)
  {
    if Missing(v) then ""
    else
      var s := Squeeze(v.value);
      if kind != Country then
        var core := CompanyCore(ToUpper(s));
        CanonicaliseClean(core);
        Canonicalise(core)
      else s
  }

  /** A value normalised under any type but `country` keeps no legal suffix
      as a whole word. */
  lemma NormalizedHasNoSuffix(v: Option<string>, kind: EntityKind)
    requires kind != Country
    ensures forall j: nat :: SuffixAt(Normalize(v, kind), j).None?
  {
    TokensHaveNoSuffix();
    if !Missing(v) {
      CoreHasNoSuffix(ToUpper(Squeeze(v.value)));
    }
  }

  /** A normalised country is its own normal form. */
  lemma NormalizeCountryIdempotent(v: string)
    requires v != ""
    ensures var n := Normalize(Some(v), Country); n != "" ==> Normalize(Some(n), Country) == n
  {
    SqueezeIdempotent(v);
  }

  // ------------------------------------------------------ the name hash

  /** ECMAScript `ToInt32`: the integer modulo 2^32, read as a signed 32-bit value. */
  function ToInt32(x: int): (r: int)
    ensures -0x8000_0000 <= r < 0x8000_0000
    ensures (r - x) % 0x1_0000_0000 == 0
  {
    (x + 0x8000_0000) % 0x1_0000_0000 - 0x8000_0000
  }

  /** One step `(h << 5) - h + c.charCodeAt(0)`: the shift works on the
      32-bit value of `h`, the subtraction and addition on the whole number. */
  function HashStep(h: int, c: char): int {
    ToInt32(ToInt32(h) * 32) - h + c as int
  }

  /** `[...nameNorm].reduce((h, c) => (h << 5) - h + c.charCodeAt(0), 0)`. */
  function Hash(s: string): int {
    if s == [] then 0 else HashStep(Hash(s[..|s| - 1]), s[|s| - 1])
  }

  /** The hash without any 32-bit truncation: the polynomial
      `s[0]*31^(n-1) + ... + s[n-1]` in the character codes. */
  function Poly31(s: string): int {
    if s == [] then 0 else 31 * Poly31(s[..|s| - 1]) + s[|s| - 1] as int
  }

  lemma MultipleSum(x: int, y: int, k: int)
    requires x % 0x1_0000_0000 == 0 && y % 0x1_0000_0000 == 0
    ensures (x + k * y) % 0x1_0000_0000 == 0
  {
    var qx, qy := x / 0x1_0000_0000, y / 0x1_0000_0000;
    assert x == qx * 0x1_0000_0000 && y == qy * 0x1_0000_0000;
    assert x + k * y == (qx + k * qy) * 0x1_0000_0000;
  }

  /** One step agrees with `31 * h + c` modulo 2^32: the shift multiplies the
      32-bit value of `h` by 32, and the conversions only drop multiples of 2^32. */
  lemma HashStepMod(h: int, c: char)
    ensures (HashStep(h, c) - (31 * h + c as int)) % 0x1_0000_0000 == 0
  {
    var a := ToInt32(h);
    var b := ToInt32(a * 32);
    MultipleSum(b - a * 32, a - h, 32);
    assert HashStep(h, c) - (31 * h + c as int) == (b - a * 32) + 32 * (a - h);
  }

  /** The hash agrees with the polynomial hash modulo 2^32. */
  lemma {:induction false} HashIsPolynomial(s: string)
    ensures (Hash(s) - Poly31(s)) % 0x1_0000_0000 == 0
  {
    if s != [] {
      var t, c := s[..|s| - 1], s[|s| - 1];
      HashIsPolynomial(t);
      HashStepMod(Hash(t), c);
      MultipleSum(HashStep(Hash(t), c) - (31 * Hash(t) + c as int), Hash(t) - Poly31(t), 31);
      assert Hash(s) - Poly31(s) == (HashStep(Hash(t), c) - (31 * Hash(t) + c as int)) + 31 * (Hash(t) - Poly31(t));
    }
  }

  /** Each step moves the hash by less than 2^31 + 0x11_0000, so the hash of a
      name shorter than 2^21 characters stays below 2^53 in magnitude: the
      floating-point arithmetic of the source computes it exactly. */
  lemma {:induction false} HashBound(s: string)
    ensures -|s| * 0x8011_0000 <= Hash(s) <= |s| * 0x8011_0000
    ensures |s| < 0x20_0000 ==> -0x20_0000_0000_0000 < Hash(s) < 0x20_0000_0000_0000
  {
    if s != [] {
      HashBound(s[..|s| - 1]);
    }
  }

  function Abs(x: int): nat {
    if x < 0 then -x else x
  }

  predicate IsHexDigit(c: char) {
    '0' <= c <= '9' || 'a' <= c <= 'f'
  }

  function HexDigit(d: nat): (c: char)
    requires d < 16
    ensures IsHexDigit(c)
  {
    if d < 10 then ('0' as int + d) as char else ('a' as int + d - 10) as char
  }

  function DigitValue(c: char): nat {
    if '0' <= c <= '9' then c as int - '0' as int
    else if 'a' <= c <= 'f' then c as int - 'a' as int + 10
    else 0
  }

  /** `n.toString(16)` for a non-negative integer: lower-case digits, no leading zero. */
  function Hex(n: nat): (r: string)
    ensures 1 <= |r| && forall i :: 0 <= i < |r| ==> IsHexDigit(r[i])
    ensures |r| > 1 ==> r[0] != '0'
  {
    if n < 16 then [HexDigit(n)] else Hex(n / 16) + [HexDigit(n % 16)]
  }

  /** Reading a string of hexadecimal digits. */
  function FromHex(s: string): nat {
    if s == [] then 0 else FromHex(s[..|s| - 1]) * 16 + DigitValue(s[|s| - 1])
  }

  /** Reading back the digits gives the number. */
  lemma {:induction false} HexRoundTrip(n: nat)
    ensures FromHex(Hex(n)) == n
  {
    if n >= 16 {
      HexRoundTrip(n / 16);
      var r := Hex(n);
      assert r[..|r| - 1] == Hex(n / 16);
    }
  }

  /** A number below 2^32 has at most 8 hexadecimal digits. */
  lemma HexLength(n: nat)
    requires n < 0x1_0000_0000
    ensures |Hex(n)| <= 8
  {
    HexDigits(n, 8, 0x1_0000_0000);
  }

  lemma {:induction false} HexDigits(n: nat, k: nat, bound: nat)
    requires 1 <= k && bound == Pow16(k) && n < bound
    ensures |Hex(n)| <= k
  {
    if n >= 16 {
      assert k > 1;
      HexDigits(n / 16, k - 1, Pow16(k - 1));
    }
  }

  function Pow16(k: nat): nat {
    if k == 0 then 1 else 16 * Pow16(k - 1)
  }

  /** The product-name id: `"product-name-"` and the first 8 hexadecimal
      digits of the magnitude of the hash. */
  function ProductNameId(nameNorm: string): (r: string)
    ensures "product-name-" <= r && 14 <= |r| <= 21
    ensures forall i :: 13 <= i < |r| ==> IsHexDigit(r[i])
  {
    "product-name-" + Prefix(Hex(Abs(Hash(nameNorm))), 8)
  }

  /** When the magnitude of the hash is below 2^32 the id carries all of it;
      above, only its leading 8 digits survive. */
  lemma ProductNameIdExact(nameNorm: string)
    requires Abs(Hash(nameNorm)) < 0x1_0000_0000
    ensures FromHex(ProductNameId(nameNorm)[13..]) == Abs(Hash(nameNorm))
  {
    var h := Abs(Hash(nameNorm));
    HexLength(h);
    HexRoundTrip(h);
    assert ProductNameId(nameNorm)[13..] == Hex(h);
  }

  // ------------------------------------------------------ product labels

  /** The HS-code label: `code.slice(0,2)` for `category` codes of length at
      least 2, `code.slice(0,4)` for `subcategory` codes of length at least 4,
      the whole code otherwise. */
  function HsLabel(level: HsLevel, code: string): (r: string)
    ensures "HS " <= r
    ensures level == Category && |code| >= 2 ==> r == "HS " + code[..2] + "xx"
    ensures level == Subcategory && |code| >= 4 ==> r == "HS " + code[..4] + "xx"
    ensures !(level == Category && |code| >= 2) && !(level == Subcategory && |code| >= 4) ==> r == "HS " + code
  {
    if level == Category && |code| >= 2 then "HS " + code[..2] + "xx"
    else if level == Subcategory && |code| >= 4 then "HS " + code[..4] + "xx"
    else "HS " + code
  }

  /** The label of a product-name node: names longer than 30 characters are
      cut to 27 characters followed by `...`. */
  function NameLabel(nameNorm: string): (r: string)
    ensures |r| <= 30
    ensures |nameNorm| <= 30 ==> r == nameNorm
    ensures |nameNorm| > 30 ==> |r| == 30 && r[..27] == nameNorm[..27] && r[27..] == "..."
  {
    if |nameNorm| > 30 then nameNorm[..27] + "..." else nameNorm
  }

  // ------------------------------------------------------------ one row

  /** The product entry of a row, or `None` when the cell the product mode
      reads is missing. In `hsCode` mode the trimmed code is both the label
      source and the recorded original; in name mode the raw name is recorded. */
  function ProductEntry(row: Row, cfg: Config): (r: Option<Entry>)
    ensures r.None? <==> (cfg.productMode == ByHsCode && Missing(row.hsCode)) ||
                         (cfg.productMode == ByProductName && Missing(row.productName))
    ensures r.Some? ==> "product-" <= r.value.id && r.value.kind == Product
    ensures r.Some? && cfg.productMode == ByHsCode ==>
              var prod := HsLabel(cfg.hsLevel, Trim(row.hsCode.value));
              r.value.id == "product-" + prod && r.value.name == prod && r.value.orig == Trim(row.hsCode.value)
    ensures r.Some? && cfg.productMode == ByProductName ==>
              var nameNorm := Normalize(row.productName, Product);
              && r.value.id == ProductNameId(nameNorm) && r.value.name == NameLabel(nameNorm)
              && |r.value.name| <= 30 && r.value.orig == row.productName.value
  {
    if cfg.productMode == ByHsCode then
      if Missing(row.hsCode) then None
      else
        var porig := Trim(row.hsCode.value);
        var prod := HsLabel(cfg.hsLevel, porig);
        Some(Entry("product-" + prod, prod, Product, porig))
    else
      assert cfg.productMode == ByProductName;
      if Missing(row.productName) then None
      else
        var nameNorm := Normalize(row.productName, Product);
        Some(Entry(ProductNameId(nameNorm), NameLabel(nameNorm), Product, row.productName.value))
  }

  /** The prologue of the `rawData.forEach` callback: skip incomplete rows;
      otherwise the four node occurrences and the row's value. */
  function PlanRow(row: Row, cfg: Config): (r: Option<RowPlan>)
    ensures r.None? <==> Missing(row.country) || Missing(row.supplier) || Missing(row.importer) ||
                         (cfg.productMode == ByHsCode && Missing(row.hsCode)) ||
                         (cfg.productMode == ByProductName && Missing(row.productName))
    ensures r.Some? ==> WellFormed(r.value) && r.value.value == row.cif
    ensures r.Some? ==>
              var country := Normalize(row.country, Country);
              var supplier := Normalize(row.supplier, Supplier);
              var importer := Normalize(row.importer, Importer);
              && r.value.country == Entry("country-" + country, country, Country, row.country.value)
              && r.value.supplier == Entry("supplier-" + supplier, supplier, Supplier, row.supplier.value)
              && r.value.importer == Entry("importer-" + importer, importer, Importer, row.importer.value)
              && Some(r.value.product) == ProductEntry(row, cfg)
  {
    if Missing(row.country) || Missing(row.supplier) || Missing(row.importer) then None
    else
      var product := ProductEntry(row, cfg);
      if product.None? then None
      else
        var country := Normalize(row.country, Country);
        var supplier := Normalize(row.supplier, Supplier);
        var importer := Normalize(row.importer, Importer);
        Some(RowPlan(
          Entry("country-" + country, country, Country, row.country.value),
          Entry("supplier-" + supplier, supplier, Supplier, row.supplier.value),
          product.value,
          Entry("importer-" + importer, importer, Importer, row.importer.value),
          row.cif))
  }

  /** The row plans of a whole data set. */
  function Plans(rows: seq<Row>, cfg: Config): (ps: seq<Option<RowPlan>>)
    ensures |ps| == |rows| && forall i :: 0 <= i < |rows| ==> ps[i] == PlanRow(rows[i], cfg)
  {
    seq(|rows|, i requires 0 <= i < |rows| => PlanRow(rows[i], cfg))
  }

  // ------------------------------------------------------------- the graph

  /** An entry of `nMap`. `originalNames` and `neighbors` are JavaScript
      `Set`s, spread into arrays by the snapshot; the model keeps them as sets. */
  datatype Node = Node(id: string, name: string, kind: EntityKind, originalNames: set<string>,
                       transactions: nat, value: real, neighbors: set<string>)

  /** An entry of `lMap`; its key is not stored in it. */
  datatype Link = Link(source: string, target: string, transactions: nat, value: real)

  datatype GraphData = GraphData(nodes: seq<Node>, links: seq<Link>)

  /** The node a build over the rows `ps` holds for `id`: named and typed by
      the row that created it, counting every accepted row touching it. */
  function NodeFor(ps: seq<Option<RowPlan>>, mode: DisplayMode, id: string): Node {
    var e := FirstEntry(ps, id);
    Node(id, if e.Some? then e.value.name else "", if e.Some? then e.value.kind else Country,
         OrigNames(ps, id), Touches(ps, id), Volume(ps, id), Neighbours(ps, mode, id))
  }

  /** The link a build over the rows `ps` holds under `key`: its endpoints
      come from the edge that created it. */
  function LinkFor(ps: seq<Option<RowPlan>>, mode: DisplayMode, key: string): Link {
    var e := FirstEdge(ps, mode, key);
    Link(if e.Some? then e.value.0 else "", if e.Some? then e.value.1 else "",
         LinkHits(ps, mode, key), LinkVolume(ps, mode, key))
  }

  /** The `fullData` snapshot of a build: every node and every link, in the
      insertion order of `nMap` and `lMap`. */
  function FullData(ps: seq<Option<RowPlan>>, mode: DisplayMode): (r: GraphData)
    ensures |r.nodes| == |NodeOrder(ps)| && forall i :: 0 <= i < |r.nodes| ==> r.nodes[i].id == NodeOrder(ps)[i]
    ensures |r.links| == |LinkOrder(ps, mode)|
  {
    var no := NodeOrder(ps);
    var lo := LinkOrder(ps, mode);
    GraphData(seq(|no|, i requires 0 <= i < |no| => NodeFor(ps, mode, no[i])),
              seq(|lo|, i requires 0 <= i < |lo| => LinkFor(ps, mode, lo[i])))
  }

  /** `nMap` holds exactly the built nodes, each as the rows `ps` determine it. */
  ghost predicate NodeMapAgrees(m: map<string, Node>, ps: seq<Option<RowPlan>>, mode: DisplayMode) {
    forall id :: (id in m <==> FirstEntry(ps, id).Some?) && (id in m ==> m[id] == NodeFor(ps, mode, id))
  }

  /** `lMap` holds exactly the built links, each as the rows `ps` determine it. */
  ghost predicate LinkMapAgrees(m: map<string, Link>, ps: seq<Option<RowPlan>>, mode: DisplayMode) {
    forall k :: (k in m <==> FirstEdge(ps, mode, k).Some?) && (k in m ==> m[k] == LinkFor(ps, mode, k))
  }

  /** `addNode` on entry `e` of a row. */
  function Got(m: map<string, Node>, e: Entry): Node {
    if e.id in m then m[e.id].(originalNames := m[e.id].originalNames + {e.orig})
    else Node(e.id, e.name, e.kind, {e.orig}, 0, 0.0, {})
  }

  /** `node.transactions++; node.value += value`. */
  function Counted(n: Node, value: real): Node {
    n.(transactions := n.transactions + 1, value := n.value + value)
  }

  /** One turn of the inner `forEach`: `addNode`, then the increments. */
  function Touch(m: map<string, Node>, e: Entry, value: real): (r: map<string, Node>)
  {
    m[e.id := Counted(Got(m, e), value)]
  }

  /** `nMap` after the inner `forEach` over the four entries of a row. */
  function Touched(m: map<string, Node>, p: RowPlan): (r: map<string, Node>)
    ensures p.country.id in r && p.supplier.id in r && p.product.id in r && p.importer.id in r
  {
    var v := p.value;
    Touch(Touch(Touch(Touch(m, p.country, v), p.supplier, v), p.product, v), p.importer, v)
  }

  /** Touching a node of an accepted row yields the node the longer sequence
      of rows determines, but for the neighbours its links add. */
  lemma NodeStep(m: map<string, Node>, ps: seq<Option<RowPlan>>, p: RowPlan, mode: DisplayMode, e: Entry)
    requires WellFormed(p) && e in Entries(p)
    requires e.id in m <==> FirstEntry(ps, e.id).Some?
    requires e.id in m ==> m[e.id] == NodeFor(ps, mode, e.id)
    ensures Counted(Got(m, e), p.value) == NodeFor(ps + [Some(p)], mode, e.id).(neighbors := Neighbours(ps, mode, e.id))
    ensures FirstEntry(ps + [Some(p)], e.id).Some?
  {
    var q := ps + [Some(p)];
    AcceptedRowTouches(ps, p, e);
    TouchedIffCreated(ps, mode, e.id);
    assert q[..|ps|] == ps;
    assert EntryOf(p, e.id) == Some(e) by {
      DistinctIds(p);
      assert e == p.country || e == p.supplier || e == p.product || e == p.importer;
    }
    if e.id !in m {
      assert FirstEntry(q, e.id) == Some(e);
    }
  }

  /** `nMap` holds what the rows `ps` followed by `p` determine, but for the
      neighbours the links of `p` are still to add. */
  ghost predicate NodesPending(m: map<string, Node>, ps: seq<Option<RowPlan>>, p: RowPlan, mode: DisplayMode) {
    forall id :: (id in m <==> FirstEntry(ps + [Some(p)], id).Some?) &&
                 (id in m ==> m[id] == NodeFor(ps + [Some(p)], mode, id).(neighbors := Neighbours(ps, mode, id)))
  }

  /** A node an accepted row does not touch is left as it was. */
  lemma NodeUntouched(ps: seq<Option<RowPlan>>, p: RowPlan, mode: DisplayMode, id: string)
    requires id !in EntryIds(p)
    ensures NodeFor(ps + [Some(p)], mode, id) == NodeFor(ps, mode, id)
    ensures FirstEntry(ps + [Some(p)], id) == FirstEntry(ps, id)
  {
    RowNeighboursTouch(p, mode, id);
    assert (ps + [Some(p)])[..|ps|] == ps;
  }

  /** After the inner `forEach` of an accepted row, `nMap` holds what the
      longer sequence of rows determines, except for the neighbours the row's
      links are still to add. */
  lemma TouchedAgrees(m: map<string, Node>, ps: seq<Option<RowPlan>>, p: RowPlan, mode: DisplayMode)
    requires NodeMapAgrees(m, ps, mode) && WellFormed(p)
    ensures NodesPending(Touched(m, p), ps, p, mode)
  {
    var v := p.value;
    var m1 := Touch(m, p.country, v);
    var m2 := Touch(m1, p.supplier, v);
    var m3 := Touch(m2, p.product, v);
    var t := Touch(m3, p.importer, v);
    var q := ps + [Some(p)];
    DistinctIds(p);
    assert Got(m1, p.supplier) == Got(m, p.supplier);
    assert Got(m2, p.product) == Got(m, p.product);
    assert Got(m3, p.importer) == Got(m, p.importer);
    forall id
      ensures (id in t <==> FirstEntry(q, id).Some?) &&
              (id in t ==> t[id] == NodeFor(q, mode, id).(neighbors := Neighbours(ps, mode, id)))
    {
      if id == p.country.id {
        NodeStep(m, ps, p, mode, p.country);
      } else if id == p.supplier.id {
        NodeStep(m, ps, p, mode, p.supplier);
      } else if id == p.product.id {
        NodeStep(m, ps, p, mode, p.product);
      } else if id == p.importer.id {
        NodeStep(m, ps, p, mode, p.importer);
      } else {
        NodeUntouched(ps, p, mode, id);
        TouchedIffCreated(ps, mode, id);
      }
    }
  }

  /** The neighbour bookkeeping of `addLink`, on two existing nodes. */
  function Relate(m: map<string, Node>, source: string, target: string): (r: map<string, Node>)
    requires source in m && target in m
    ensures r.Keys == m.Keys
  {
    var m1 := m[source := m[source].(neighbors := m[source].neighbors + {target})];
    m1[target := m1[target].(neighbors := m1[target].neighbors + {source})]
  }

  /** `addLink` on edge `e`: the link after its increment. */
  function Hit(m: map<string, Link>, e: (string, string), value: real): Link {
    var key := EdgeKey(e);
    var l := if key in m then m[key] else Link(e.0, e.1, 0, 0.0);
    l.(transactions := l.transactions + 1, value := l.value + value)
  }

  /** A new link starts from one transaction and the row's value; an existing
      one gains one transaction and the value. */
  lemma HitFacts(m: map<string, Link>, e: (string, string), value: real)
    ensures EdgeKey(e) !in m ==> Hit(m, e, value) == Link(e.0, e.1, 1, value)
    ensures EdgeKey(e) in m ==>
              var l := m[EdgeKey(e)];
              Hit(m, e, value) == l.(transactions := l.transactions + 1, value := l.value + value)
  {
  }

  /** The two maps after `addLink` on each edge of `es` in turn. */
  function RelateAll(m: map<string, Node>, es: seq<(string, string)>): (r: map<string, Node>)
    requires forall e :: e in es ==> e.0 in m && e.1 in m
    ensures r.Keys == m.Keys
  {
    if es == [] then m else RelateAll(Relate(m, es[0].0, es[0].1), es[1..])
  }

  function HitAll(m: map<string, Link>, es: seq<(string, string)>, value: real): map<string, Link>
    decreases |es|
  {
    if es == [] then m else HitAll(m[EdgeKey(es[0]) := Hit(m, es[0], value)], es[1..], value)
  }

  /** Each endpoint gains the other as a neighbour. */
  lemma RelateFacts(m: map<string, Node>, source: string, target: string)
    requires source in m && target in m
    ensures forall x :: x in m ==>
              Relate(m, source, target)[x] == m[x].(neighbors := m[x].neighbors + EdgeNeighbours((source, target), x))
  {
    var r := Relate(m, source, target);
    forall x | x in m
      ensures r[x] == m[x].(neighbors := m[x].neighbors + EdgeNeighbours((source, target), x))
    {
      if x == source && x == target {
      } else if x == source {
      } else if x == target {
      } else {
      }
    }
  }

  /** The links of `es` add exactly their other ends as neighbours. */
  lemma {:induction false} RelateAllFacts(m: map<string, Node>, es: seq<(string, string)>)
    requires forall e :: e in es ==> e.0 in m && e.1 in m
    ensures forall x :: x in m ==>
              RelateAll(m, es)[x] == m[x].(neighbors := m[x].neighbors + NeighboursIn(es, x))
  {
    if es != [] {
      var m1 := Relate(m, es[0].0, es[0].1);
      RelateFacts(m, es[0].0, es[0].1);
      RelateAllFacts(m1, es[1..]);
    }
  }

  /** With distinct keys, each link of `es` is incremented once and no other link changes. */
  lemma {:induction false} HitAllAt(m: map<string, Link>, es: seq<(string, string)>, value: real, k: string)
    requires NoDup(KeysOf(es))
    ensures k in HitAll(m, es, value) <==> k in m || k in KeysOf(es)
    ensures k in m && k !in KeysOf(es) ==> HitAll(m, es, value)[k] == m[k]
    ensures forall j :: 0 <= j < |es| && KeysOf(es)[j] == k ==> HitAll(m, es, value)[k] == Hit(m, es[j], value)
    decreases |es|
  {
    if es != [] {
      var k0 := EdgeKey(es[0]);
      var m1 := m[k0 := Hit(m, es[0], value)];
      var rest := es[1..];
      NoDupTail(KeysOf(es));
      assert KeysOf(es)[1..] == KeysOf(rest);
      HitAllAt(m1, rest, value, k);
      assert HitAll(m, es, value) == HitAll(m1, rest, value);
      forall j | 0 <= j < |es| && KeysOf(es)[j] == k ensures HitAll(m, es, value)[k] == Hit(m, es[j], value) {
        if j == 0 {
          assert k !in KeysOf(rest) && k in m1;
          assert HitAll(m1, rest, value)[k] == m1[k];
        } else {
          assert KeysOf(rest)[j - 1] == k && es[j] == rest[j - 1];
          assert k != k0;
          assert Hit(m1, rest[j - 1], value) == Hit(m, es[j], value);
        }
      }
    }
  }

  /** After the links of an accepted row, `nMap` holds what the longer
      sequence of rows determines. */
  lemma LinkedNodesAgree(nm: map<string, Node>, ps: seq<Option<RowPlan>>, p: RowPlan, mode: DisplayMode)
    requires WellFormed(p)
    requires NodesPending(nm, ps, p, mode)
    ensures forall e :: e in Edges(p, mode) ==> e.0 in nm && e.1 in nm
    ensures NodeMapAgrees(RelateAll(nm, Edges(p, mode)), ps + [Some(p)], mode)
  {
    var q := ps + [Some(p)];
    var es := Edges(p, mode);
    assert q[..|ps|] == ps;
    EdgeTable(p, mode);
    forall e | e in es ensures e.0 in nm && e.1 in nm {
      AcceptedRowCreates(ps, p, e.0);
      AcceptedRowCreates(ps, p, e.1);
    }
    RelateAllFacts(nm, es);
  }

  /** Incrementing the link of an edge of an accepted row yields the link the
      longer sequence of rows determines. */
  lemma LinkStep(m: map<string, Link>, ps: seq<Option<RowPlan>>, p: RowPlan, mode: DisplayMode, e: (string, string))
    requires LinkMapAgrees(m, ps, mode) && WellFormed(p) && e in Edges(p, mode)
    ensures Hit(m, e, p.value) == LinkFor(ps + [Some(p)], mode, EdgeKey(e))
    ensures FirstEdge(ps + [Some(p)], mode, EdgeKey(e)).Some?
  {
    EdgeCounted(ps, p, mode, e);
    FirstEdgeFacts(ps, mode, EdgeKey(e));
  }

  /** A link whose key an accepted row does not produce is left as it was. */
  lemma LinkUntouched(ps: seq<Option<RowPlan>>, p: RowPlan, mode: DisplayMode, key: string)
    requires key !in EdgeKeys(p, mode)
    ensures LinkFor(ps + [Some(p)], mode, key) == LinkFor(ps, mode, key)
    ensures FirstEdge(ps + [Some(p)], mode, key) == FirstEdge(ps, mode, key)
  {
    CountKeyFacts(Edges(p, mode), key);
    var q := ps + [Some(p)];
    assert q[..|q| - 1] == ps && q[|q| - 1] == Some(p);
    assert KeyHits(p, mode, key) == 0;
    assert FirstWithKey(Edges(p, mode), key).None?;
    assert LinkHits(q, mode, key) == LinkHits(ps, mode, key);
    assert LinkVolume(q, mode, key) == LinkVolume(ps, mode, key);
  }

  /** After the links of an accepted row, `lMap` and its insertion order hold
      what the longer sequence of rows determines. */
  lemma LinkedLinksAgree(lm: map<string, Link>, lo: seq<string>, ps: seq<Option<RowPlan>>, p: RowPlan, mode: DisplayMode)
    requires WellFormed(p)
    requires LinkMapAgrees(lm, ps, mode) && lo == LinkOrder(ps, mode)
    ensures LinkMapAgrees(HitAll(lm, Edges(p, mode), p.value), ps + [Some(p)], mode)
    ensures EdgeOrder(lm.Keys, lo, Edges(p, mode)) == LinkOrder(ps + [Some(p)], mode)
  {
    var q := ps + [Some(p)];
    var es := Edges(p, mode);
    var h := HitAll(lm, es, p.value);
    assert q[..|ps|] == ps;
    EdgeTable(p, mode);
    LinkOrderMembers(ps, mode);
    EdgeOrderFacts(lm.Keys, lo, es);
    forall k
      ensures (k in h <==> FirstEdge(q, mode, k).Some?) && (k in h ==> h[k] == LinkFor(q, mode, k))
    {
      HitAllAt(lm, es, p.value, k);
      if k in KeysOf(es) {
        var j :| 0 <= j < |es| && KeysOf(es)[j] == k;
        LinkStep(lm, ps, p, mode, es[j]);
      } else {
        LinkUntouched(ps, p, mode, k);
      }
    }
  }

  /** The two maps and their insertion orders hold exactly what the rows `ps` determine. */
  ghost predicate BuildAgrees(nm: map<string, Node>, no: seq<string>, lm: map<string, Link>, lo: seq<string>,
                              ps: seq<Option<RowPlan>>, mode: DisplayMode) {
    && NodeMapAgrees(nm, ps, mode) && no == NodeOrder(ps)
    && LinkMapAgrees(lm, ps, mode) && lo == LinkOrder(ps, mode)
  }

  /** One accepted row takes maps that agree with the rows before it to maps
      that agree with the rows including it. */
  lemma RowAgrees(m: map<string, Node>, o: seq<string>, lm: map<string, Link>, lo: seq<string>,
                  ps: seq<Option<RowPlan>>, p: RowPlan, mode: DisplayMode)
    requires NodeMapAgrees(m, ps, mode) && o == NodeOrder(ps)
    requires LinkMapAgrees(lm, ps, mode) && lo == LinkOrder(ps, mode)
    requires WellFormed(p)
    ensures forall e :: e in Edges(p, mode) ==> e.0 in Touched(m, p) && e.1 in Touched(m, p)
    ensures var es := Edges(p, mode);
            BuildAgrees(RelateAll(Touched(m, p), es), OrderAfter(m.Keys, o, p),
                        HitAll(lm, es, p.value), EdgeOrder(lm.Keys, lo, es), ps + [Some(p)], mode)
  {
    NodeOrderMembers(ps);
    TouchedOrder(m.Keys, o, p);
    assert (ps + [Some(p)])[..|ps|] == ps;
    TouchedAgrees(m, ps, p, mode);
    LinkedNodesAgree(Touched(m, p), ps, p, mode);
    LinkedLinksAgree(lm, lo, ps, p, mode);
  }

  /** The local state of one `rebuild` call: `nMap` and `lMap`, their
      insertion orders, and (as ghost state) the rows seen so far. */
  class Builder {
    const cfg: Config
    var nMap: map<string, Node>
    var nodeOrder: seq<string>
    var lMap: map<string, Link>
    var linkOrder: seq<string>
    ghost var plans: seq<Option<RowPlan>>

    /** The maps hold exactly what the rows seen so far determine. */
    ghost predicate Valid()
      reads this
    {
      BuildAgrees(nMap, nodeOrder, lMap, linkOrder, plans, cfg.displayMode)
    }

    constructor(cfg: Config)
      ensures this.cfg == cfg && plans == [] && Valid()
    {
      this.cfg := cfg;
      nMap := map[];
      nodeOrder := [];
      lMap := map[];
      linkOrder := [];
      plans := [];
    }

    /** `addNode`: creates the node on first sight, otherwise records one
        more original name. */
    method AddNode(id: string, name: string, kind: EntityKind, orig: string)
      modifies this
      ensures nMap == old(nMap)[id := Got(old(nMap), Entry(id, name, kind, orig))]
      ensures nodeOrder == Inserted(old(nMap).Keys, old(nodeOrder), id)
      ensures lMap == old(lMap) && linkOrder == old(linkOrder) && plans == old(plans)
    {
      if id !in nMap {
        nMap := nMap[id := Node(id, name, kind, {orig}, 0, 0.0, {})];
        nodeOrder := nodeOrder + [id];
      } else {
        var node := nMap[id];
        nMap := nMap[id := node.(originalNames := node.originalNames + {orig})];
      }
    }

    /** One turn of the inner `forEach`: `addNode`, then one more
        transaction and the row's value on the node it returns. */
    method TouchNode(e: Entry, value: real)
      modifies this
      ensures nMap == Touch(old(nMap), e, value)
      ensures nodeOrder == Inserted(old(nMap).Keys, old(nodeOrder), e.id)
      ensures lMap == old(lMap) && linkOrder == old(linkOrder) && plans == old(plans)
    {
      AddNode(e.id, e.name, e.kind, e.orig);
      var node := nMap[e.id];
      nMap := nMap[e.id := node.(transactions := node.transactions + 1, value := node.value + value)];
    }

    /** `addLink` between two existing nodes: creates the link on first
        sight, increments it, and makes its endpoints neighbours. */
    method AddLink(src: string, tgt: string, val: real)
      requires src in nMap && tgt in nMap
      modifies this
      ensures lMap == old(lMap)[EdgeKey((src, tgt)) := Hit(old(lMap), (src, tgt), val)]
      ensures linkOrder == Inserted(old(lMap).Keys, old(linkOrder), EdgeKey((src, tgt)))
      ensures nMap == Relate(old(nMap), src, tgt)
      ensures nodeOrder == old(nodeOrder) && plans == old(plans)
    {
      var key := src + "->" + tgt;
      if key !in lMap {
        lMap := lMap[key := Link(src, tgt, 0, 0.0)];
        linkOrder := linkOrder + [key];
      }
      var link := lMap[key];
      lMap := lMap[key := link.(transactions := link.transactions + 1, value := link.value + val)];
      var srcNode := nMap[src];
      nMap := nMap[src := srcNode.(neighbors := srcNode.neighbors + {tgt})];
      var tgtNode := nMap[tgt];
      nMap := nMap[tgt := tgtNode.(neighbors := tgtNode.neighbors + {src})];
    }

    /** One call of the `rawData.forEach` callback: skip an incomplete row,
        otherwise touch its four nodes and add the links of the display mode. */
    method AddRow(row: Row)
      requires Valid()
      modifies this
      ensures Valid() && plans == old(plans) + [PlanRow(row, cfg)]
    {
      var plan := PlanRow(row, cfg);
      if plan.None? {
        forall id, key {
          SkippedRowChangesNothing(plans, cfg.displayMode, id, key);
        }
        plans := plans + [plan];
        return;
      }
      AddPlan(plan.value);
    }

    /** The callback on a complete row. */
    method AddPlan(p: RowPlan)
      requires Valid() && WellFormed(p)
      modifies this
      ensures Valid() && plans == old(plans) + [Some(p)]
    {
      ghost var ps := plans;
      ghost var m0, o0, lm0, lo0 := nMap, nodeOrder, lMap, linkOrder;
      DistinctIds(p);
      // the inner forEach over the row's four entries
      TouchRow(p);
      // the display-mode chain of addLink calls
      LinkRow(p);
      plans := ps + [Some(p)];
      RowAgrees(m0, o0, lm0, lo0, ps, p, cfg.displayMode);
    }

    /** The inner `forEach` over the four entries of an accepted row. */
    method TouchRow(p: RowPlan)
      modifies this
      ensures nMap == Touched(old(nMap), p)
      ensures nodeOrder == OrderAfter(old(nMap).Keys, old(nodeOrder), p)
      ensures lMap == old(lMap) && linkOrder == old(linkOrder) && plans == old(plans)
    {
      TouchNode(p.country, p.value);
      TouchNode(p.supplier, p.value);
      TouchNode(p.product, p.value);
      TouchNode(p.importer, p.value);
    }

    /** The display-mode chain of `addLink` calls of an accepted row. */
    method LinkRow(p: RowPlan)
      requires p.country.id in nMap && p.supplier.id in nMap && p.product.id in nMap && p.importer.id in nMap
      modifies this
      ensures var es := Edges(p, cfg.displayMode);
              && nMap == RelateAll(old(nMap), es)
              && lMap == HitAll(old(lMap), es, p.value)
              && linkOrder == EdgeOrder(old(lMap).Keys, old(linkOrder), es)
      ensures nodeOrder == old(nodeOrder) && plans == old(plans)
    {
      var cid, sid, pid, iid := p.country.id, p.supplier.id, p.product.id, p.importer.id;
      var value := p.value;
      ghost var es := Edges(p, cfg.displayMode);
      var m := cfg.displayMode;
      if m == Full {
        LinkChain(p);
      } else if m == CountrySupplier {
        AddLink(cid, sid, value);
        assert es[1..] == [];
      } else if m == SupplierProduct {
        AddLink(sid, pid, value);
        assert es[1..] == [];
      } else if m == ProductImporter {
        AddLink(pid, iid, value);
        assert es[1..] == [];
      } else if m == CountryProduct {
        AddLink(cid, pid, value);
        assert es[1..] == [];
      } else if m == SupplierImporter {
        AddLink(sid, iid, value);
        assert es[1..] == [];
      }
    }

    /** The three `addLink` calls of `full` mode: country to supplier,
        supplier to product, product to importer. */
    method LinkChain(p: RowPlan)
      requires cfg.displayMode == Full
      requires p.country.id in nMap && p.supplier.id in nMap && p.product.id in nMap && p.importer.id in nMap
      modifies this
      ensures var es := Edges(p, cfg.displayMode);
              && nMap == RelateAll(old(nMap), es)
              && lMap == HitAll(old(lMap), es, p.value)
              && linkOrder == EdgeOrder(old(lMap).Keys, old(linkOrder), es)
      ensures nodeOrder == old(nodeOrder) && plans == old(plans)
    {
      var cid, sid, pid, iid := p.country.id, p.supplier.id, p.product.id, p.importer.id;
      var value := p.value;
      ghost var es := Edges(p, cfg.displayMode);
      ghost var nm, lm, lo := nMap, lMap, linkOrder;
      AddLink(cid, sid, value);
      assert es[1..] == [(sid, pid), (pid, iid)];
      assert RelateAll(nm, es) == RelateAll(nMap, es[1..]);
      assert HitAll(lm, es, value) == HitAll(lMap, es[1..], value);
      assert lMap.Keys == lm.Keys + {EdgeKey(es[0])};
      assert EdgeOrder(lm.Keys, lo, es) == EdgeOrder(lMap.Keys, linkOrder, es[1..]);
      ghost var nm1, lm1, lo1 := nMap, lMap, linkOrder;
      AddLink(sid, pid, value);
      assert es[1..][1..] == [(pid, iid)];
      assert RelateAll(nm1, es[1..]) == RelateAll(nMap, es[1..][1..]);
      assert HitAll(lm1, es[1..], value) == HitAll(lMap, es[1..][1..], value);
      assert lMap.Keys == lm1.Keys + {EdgeKey(es[1])};
      assert EdgeOrder(lm1.Keys, lo1, es[1..]) == EdgeOrder(lMap.Keys, linkOrder, es[1..][1..]);
      ghost var nm2, lm2, lo2 := nMap, lMap, linkOrder;
      AddLink(pid, iid, value);
      assert es[1..][1..][1..] == [];
      assert RelateAll(nm2, es[1..][1..]) == RelateAll(nMap, []);
      assert HitAll(lm2, es[1..][1..], value) == HitAll(lMap, [], value);
      assert EdgeOrder(lm2.Keys, lo2, es[1..][1..]) == EdgeOrder(lMap.Keys, linkOrder, []);
    }

    /** The `fullData` snapshot: `[...nMap.values()]` and `[...lMap.values()]`. */
    function Snapshot(): (g: GraphData)
      reads this
      requires forall i :: 0 <= i < |nodeOrder| ==> nodeOrder[i] in nMap
      requires forall i :: 0 <= i < |linkOrder| ==> linkOrder[i] in lMap
      ensures Valid() ==> g == FullData(plans, cfg.displayMode)
    {
      var nm, no, lm, lo := nMap, nodeOrder, lMap, linkOrder;
      GraphData(seq(|no|, i requires 0 <= i < |no| => nm[no[i]]),
                seq(|lo|, i requires 0 <= i < |lo| => lm[lo[i]]))
    }
  }

  // ------------------------------------------------ properties of a build

  /** The ids of a list of nodes. */
  function NodeIds(nodes: seq<Node>): set<string> {
    set n | n in nodes :: n.id
  }

  /** Every link joins two listed nodes. */
  predicate Closed(g: GraphData) {
    forall l :: l in g.links ==> l.source in NodeIds(g.nodes) && l.target in NodeIds(g.nodes)
  }

  /** The nodes of `fullData` are the touched ids, each listed once with what the rows determine. */
  lemma FullDataNodes(ps: seq<Option<RowPlan>>, mode: DisplayMode)
    ensures forall i, j :: 0 <= i < j < |FullData(ps, mode).nodes| ==> FullData(ps, mode).nodes[i].id != FullData(ps, mode).nodes[j].id
    ensures forall n :: n in FullData(ps, mode).nodes <==> FirstEntry(ps, n.id).Some? && n == NodeFor(ps, mode, n.id)
  {
    var g := FullData(ps, mode);
    var no := NodeOrder(ps);
    NodeOrderMembers(ps);
    forall n ensures n in g.nodes <==> FirstEntry(ps, n.id).Some? && n == NodeFor(ps, mode, n.id) {
      if n in g.nodes {
        var i :| 0 <= i < |g.nodes| && g.nodes[i] == n;
        assert n == NodeFor(ps, mode, no[i]);
      }
      if FirstEntry(ps, n.id).Some? && n == NodeFor(ps, mode, n.id) {
        var i :| 0 <= i < |no| && no[i] == n.id;
        assert g.nodes[i] == n;
      }
    }
  }

  /** The links of `fullData` are the produced keys, each listed once with
      what the rows determine; the key of each is `source->target`. */
  lemma FullDataLinks(ps: seq<Option<RowPlan>>, mode: DisplayMode)
    ensures forall i, j :: 0 <= i < j < |FullData(ps, mode).links| ==>
              EdgeKey((FullData(ps, mode).links[i].source, FullData(ps, mode).links[i].target)) !=
              EdgeKey((FullData(ps, mode).links[j].source, FullData(ps, mode).links[j].target))
    ensures forall l :: l in FullData(ps, mode).links <==>
              var k := EdgeKey((l.source, l.target)); FirstEdge(ps, mode, k).Some? && l == LinkFor(ps, mode, k)
    ensures forall l :: l in FullData(ps, mode).links ==> l.transactions > 0
  {
    var g := FullData(ps, mode);
    var lo := LinkOrder(ps, mode);
    LinkOrderMembers(ps, mode);
    forall i | 0 <= i < |lo| ensures EdgeKey((g.links[i].source, g.links[i].target)) == lo[i] {
      FirstEdgeFacts(ps, mode, lo[i]);
    }
    forall l ensures l in g.links <==>
                       var k := EdgeKey((l.source, l.target)); FirstEdge(ps, mode, k).Some? && l == LinkFor(ps, mode, k) {
      var k := EdgeKey((l.source, l.target));
      if l in g.links {
        var i :| 0 <= i < |g.links| && g.links[i] == l;
        assert l == LinkFor(ps, mode, lo[i]);
      }
      if FirstEdge(ps, mode, k).Some? && l == LinkFor(ps, mode, k) {
        var i :| 0 <= i < |lo| && lo[i] == k;
        assert g.links[i] == l;
      }
    }
    forall l | l in g.links ensures l.transactions > 0 {
      var i :| 0 <= i < |g.links| && g.links[i] == l;
      FirstEdgeFacts(ps, mode, lo[i]);
    }
  }

  /** Every link of `fullData` joins two built nodes, and each of them lists
      the other as a neighbour. */
  lemma FullDataClosed(ps: seq<Option<RowPlan>>, mode: DisplayMode)
    ensures Closed(FullData(ps, mode))
    ensures forall l, n :: l in FullData(ps, mode).links && n in FullData(ps, mode).nodes && n.id == l.source ==>
              l.target in n.neighbors
    ensures forall l, n :: l in FullData(ps, mode).links && n in FullData(ps, mode).nodes && n.id == l.target ==>
              l.source in n.neighbors
  {
    var g := FullData(ps, mode);
    FullDataNodes(ps, mode);
    FullDataLinks(ps, mode);
    forall l | l in g.links
      ensures l.source in NodeIds(g.nodes) && l.target in NodeIds(g.nodes)
      ensures l.target in Neighbours(ps, mode, l.source) && l.source in Neighbours(ps, mode, l.target)
    {
      FirstEdgeFacts(ps, mode, EdgeKey((l.source, l.target)));
      assert NodeFor(ps, mode, l.source) in g.nodes;
      assert NodeFor(ps, mode, l.target) in g.nodes;
    }
  }

  /** Neighbour sets of `fullData` are symmetric and name only built nodes. */
  lemma FullDataNeighbours(ps: seq<Option<RowPlan>>, mode: DisplayMode)
    ensures forall a, b :: a in FullData(ps, mode).nodes && b in FullData(ps, mode).nodes ==>
              (b.id in a.neighbors <==> a.id in b.neighbors)
    ensures forall a, x :: a in FullData(ps, mode).nodes && x in a.neighbors ==> x in NodeIds(FullData(ps, mode).nodes)
  {
    var g := FullData(ps, mode);
    FullDataNodes(ps, mode);
    forall a, b | a in g.nodes && b in g.nodes ensures b.id in a.neighbors <==> a.id in b.neighbors {
      NeighboursSymmetric(ps, mode, a.id, b.id);
    }
    forall a, x | a in g.nodes && x in a.neighbors ensures x in NodeIds(g.nodes) {
      NeighboursExist(ps, mode, a.id, x);
      assert NodeFor(ps, mode, x) in g.nodes;
    }
  }

  /** Appending a row to the data appends its plan. */
  lemma PlansAppend(rows: seq<Row>, row: Row, cfg: Config)
    ensures Plans(rows + [row], cfg) == Plans(rows, cfg) + [PlanRow(row, cfg)]
  {
    assert (rows + [row])[|rows|] == row;
  }

  /** An accepted row adds one transaction and its value to each of its four
      nodes and records the raw value of each (for the product in `hsCode`
      mode, the trimmed code). */
  lemma AcceptedRowCounts(rows: seq<Row>, row: Row, cfg: Config, e: Entry)
    requires PlanRow(row, cfg).Some? && e in Entries(PlanRow(row, cfg).value)
    ensures var before, after := NodeFor(Plans(rows, cfg), cfg.displayMode, e.id),
                                 NodeFor(Plans(rows + [row], cfg), cfg.displayMode, e.id);
            && after.transactions == before.transactions + 1
            && after.value == before.value + row.cif
            && after.originalNames == before.originalNames + {e.orig}
  {
    PlansAppend(rows, row, cfg);
    AcceptedRowTouches(Plans(rows, cfg), PlanRow(row, cfg).value, e);
  }

  /** A row missing a cell the build needs leaves `fullData` as it was. */
  lemma SkippedRowKeepsFullData(rows: seq<Row>, row: Row, cfg: Config)
    requires PlanRow(row, cfg).None?
    ensures FullData(Plans(rows + [row], cfg), cfg.displayMode) == FullData(Plans(rows, cfg), cfg.displayMode)
  {
    PlansAppend(rows, row, cfg);
    SkippedRowKeepsData(Plans(rows, cfg), cfg.displayMode);
  }

  /** A skipped row leaves `fullData` as it was. */
  lemma SkippedRowKeepsData(ps: seq<Option<RowPlan>>, mode: DisplayMode)
    ensures FullData(ps + [None], mode) == FullData(ps, mode)
  {
    var q := ps + [None];
    SkippedRowChangesNothing(ps, mode, "", "");
    forall id ensures NodeFor(q, mode, id) == NodeFor(ps, mode, id) {
      SkippedRowChangesNothing(ps, mode, id, "");
    }
    forall k ensures LinkFor(q, mode, k) == LinkFor(ps, mode, k) {
      SkippedRowChangesNothing(ps, mode, "", k);
      assert q[..|ps|] == ps;
    }
  }

  // ------------------------------------------------------------ applyFilter

  /** The `nodes.find` predicate: the lower-cased name or one of the
      lower-cased original names contains the term. */
  predicate Matches(n: Node, term: string) {
    Contains(ToLower(n.name), term) || exists o :: o in n.originalNames && Contains(ToLower(o), term)
  }

  /** A node matching a term matches every piece of it. */
  lemma MatchesPiece(n: Node, longer: string, shorter: string)
    requires Contains(longer, shorter)
    ensures Matches(n, longer) ==> Matches(n, shorter)
  {
    if Contains(ToLower(n.name), longer) {
      ContainsTrans(ToLower(n.name), longer, shorter);
    } else if Matches(n, longer) {
      var o :| o in n.originalNames && Contains(ToLower(o), longer);
      ContainsTrans(ToLower(o), longer, shorter);
    }
  }

  /** The index `nodes.find` stops at: the first matching node, or `|nodes|`. */
  function FoundAt(nodes: seq<Node>, term: string): (i: nat)
    ensures i <= |nodes|
    ensures forall j :: 0 <= j < i ==> !Matches(nodes[j], term)
    ensures i < |nodes| ==> Matches(nodes[i], term)
    ensures i == |nodes| <==> forall n :: n in nodes ==> !Matches(n, term)
  {
    if nodes == [] then 0
    else if Matches(nodes[0], term) then 0
    else
      var k := FoundAt(nodes[1..], term);
      assert forall j :: 1 <= j < k + 1 ==> nodes[j] == nodes[1..][j - 1];
      k + 1
  }

  /** The ids `links.forEach` adds to `neighborIds`: the other end of every link at the focus. */
  function NeighborIds(links: seq<Link>, focus: string): (r: set<string>)
    ensures forall x :: x in r <==> exists l :: l in links && Adjacent(l, focus, x)
  {
    if links == [] then {}
    else
      var l := links[|links| - 1];
      assert links == links[..|links| - 1] + [l];
      assert Adjacent(l, focus, l.target) <== l.source == focus;
      assert Adjacent(l, focus, l.source) <== l.target == focus;
      NeighborIds(links[..|links| - 1], focus) + (if l.source == focus then {l.target} else {}) +
                                                 (if l.target == focus then {l.source} else {})
  }

  /** `new Set([focus])` and the `links.forEach` loop that fills it. */
  method CollectNeighborIds(links: seq<Link>, focus: string) returns (neighborIds: set<string>)
    ensures neighborIds == {focus} + NeighborIds(links, focus)
  {
    neighborIds := {focus};
    for i := 0 to |links|
      invariant neighborIds == {focus} + NeighborIds(links[..i], focus)
    {
      assert links[..i + 1][..i] == links[..i];
      var l := links[i];
      if l.source == focus {
        neighborIds := neighborIds + {l.target};
      }
      if l.target == focus {
        neighborIds := neighborIds + {l.source};
      }
    }
    assert links[..|links|] == links;
  }

  /** `nodes.filter(n => neighborIds.has(n.id))`. */
  function NodesWithIds(nodes: seq<Node>, ids: set<string>): (r: seq<Node>)
    ensures forall n :: n in r <==> n in nodes && n.id in ids
    ensures (forall n :: n in nodes ==> n.id !in ids) ==> r == []
  {
    if nodes == [] then []
    else
      var last := nodes[|nodes| - 1];
      NodesWithIds(nodes[..|nodes| - 1], ids) + (if last.id in ids then [last] else [])
  }

  /** `links.filter(l => l.source === focus || l.target === focus)`. */
  function IncidentLinks(links: seq<Link>, focus: string): (r: seq<Link>)
    ensures forall l :: l in r <==> l in links && (l.source == focus || l.target == focus)
    ensures (forall l :: l in links ==> l.source != focus && l.target != focus) ==> r == []
  {
    if links == [] then []
    else
      var last := links[|links| - 1];
      IncidentLinks(links[..|links| - 1], focus) + (if last.source == focus || last.target == focus then [last] else [])
  }

  /** The closure variables `applyFilter` writes. `selectedEntity` is `""`
      for `null`; ids are never empty, as each carries a type prefix. */
  datatype FilterState = FilterState(graphData: GraphData, selectedEntity: string)

  /** Two links are adjacent at `focus` when one of its ends is `focus` and the other `x`. */
  predicate Adjacent(l: Link, focus: string, x: string) {
    (l.source == focus && l.target == x) || (l.target == focus && l.source == x)
  }

  /** The view around `focus`: the links at it, and the nodes that are the
      focus or the other end of one of those links. */
  function FocusView(full: GraphData, focus: string): (g: GraphData)
    ensures forall l :: l in g.links <==> l in full.links && (l.source == focus || l.target == focus)
    ensures forall n :: n in g.nodes <==>
              n in full.nodes && (n.id == focus || exists l :: l in full.links && Adjacent(l, focus, n.id))
  {
    var ids := {focus} + NeighborIds(full.links, focus);
    GraphData(NodesWithIds(full.nodes, ids), IncidentLinks(full.links, focus))
  }

  /** What `applyFilter` leaves in `graphData` and `selectedEntity`, given
      `fullData`, the search box's value and the previous selection. */
  function AppliedFilter(full: GraphData, searchValue: string, selectedEntity: string): (r: FilterState)
    ensures var term := ToLower(Trim(searchValue));
            term == "" || FoundAt(full.nodes, term) == |full.nodes| ==> r.selectedEntity == selectedEntity
    ensures var term := ToLower(Trim(searchValue)); var i := FoundAt(full.nodes, term);
            term != "" && i < |full.nodes| ==> r.selectedEntity == full.nodes[i].id
    ensures r.selectedEntity == "" ==> r.graphData == full
    ensures r.selectedEntity != "" ==> r.graphData == FocusView(full, r.selectedEntity)
  {
    var term := ToLower(Trim(searchValue));
    var i := if term != "" then FoundAt(full.nodes, term) else |full.nodes|;
    var focus := if i < |full.nodes| then full.nodes[i].id else selectedEntity;
    if focus == "" then FilterState(GraphData(full.nodes, full.links), focus)
    else FilterState(FocusView(full, focus), focus)
  }

  /** With an empty trimmed term and no selection, `graphData` is `fullData`. */
  lemma NoSearchNoSelection(full: GraphData, searchValue: string)
    requires Trim(searchValue) == ""
    ensures AppliedFilter(full, searchValue, "") == FilterState(full, "")
  {
  }

  /** Surrounding whitespace in the search box does not matter. */
  lemma SearchTrimmed(full: GraphData, searchValue: string, selectedEntity: string)
    ensures AppliedFilter(full, Trim(searchValue), selectedEntity) == AppliedFilter(full, searchValue, selectedEntity)
  {
    TrimClean(Trim(searchValue));
  }

  /** Of a closed graph, the focus view is closed: the other end of every
      link at the focus is a listed node. */
  lemma FilterClosed(full: GraphData, searchValue: string, selectedEntity: string)
    requires Closed(full)
    ensures Closed(AppliedFilter(full, searchValue, selectedEntity).graphData)
  {
    var r := AppliedFilter(full, searchValue, selectedEntity);
    var focus := r.selectedEntity;
    if focus != "" {
      forall l | l in r.graphData.links
        ensures l.source in NodeIds(r.graphData.nodes) && l.target in NodeIds(r.graphData.nodes)
      {
        var a :| a in full.nodes && a.id == l.source;
        var b :| b in full.nodes && b.id == l.target;
        assert a in r.graphData.nodes && b in r.graphData.nodes;
      }
    }
  }

  /** A focus that names no node of a closed graph leaves nothing to show:
      a selection kept from an earlier build may empty the view. */
  lemma StaleFocusEmpties(full: GraphData, focus: string)
    requires Closed(full) && focus !in NodeIds(full.nodes)
    ensures FocusView(full, focus) == GraphData([], [])
  {
    forall l | l in full.links ensures l.source != focus && l.target != focus {
      assert l.source in NodeIds(full.nodes) && l.target in NodeIds(full.nodes);
    }
    var ids := {focus} + NeighborIds(full.links, focus);
    forall n | n in full.nodes ensures n.id !in ids {
      assert n.id in NodeIds(full.nodes);
    }
  }

  /** On a built graph, the view around a node shows the node and only
      nodes its `neighbors` set lists. */
  lemma FocusShowsNeighbours(ps: seq<Option<RowPlan>>, mode: DisplayMode, f: Node)
    requires f in FullData(ps, mode).nodes
    ensures forall n :: n in FocusView(FullData(ps, mode), f.id).nodes ==> n.id == f.id || n.id in f.neighbors
  {
    var full := FullData(ps, mode);
    FullDataClosed(ps, mode);
    forall n | n in FocusView(full, f.id).nodes && n.id != f.id ensures n.id in f.neighbors {
      var l :| l in full.links && Adjacent(l, f.id, n.id);
    }
  }

  /** The body of `rebuild` up to the `fullData` assignment: fresh maps,
      every row through the row callback, then the snapshot. */
  method BuildFullData(rows: seq<Row>, cfg: Config) returns (full: GraphData)
    ensures full == FullData(Plans(rows, cfg), cfg.displayMode)
  {
    var b := new Builder(cfg);
    for i := 0 to |rows|
      invariant b.Valid() && b.cfg == cfg && b.plans == Plans(rows[..i], cfg)
    {
      b.AddRow(rows[i]);
      assert rows[..i + 1] == rows[..i] + [rows[i]];
    }
    assert rows[..|rows|] == rows;
    NodeOrderMembers(b.plans);
    LinkOrderMembers(b.plans, cfg.displayMode);
    full := b.Snapshot();
  }

  /** What `rebuild` shows is closed, whatever the search and the selection. */
  lemma RebuiltViewClosed(rows: seq<Row>, cfg: Config, searchValue: string, selectedEntity: string)
    ensures var full := FullData(Plans(rows, cfg), cfg.displayMode);
            Closed(full) && Closed(AppliedFilter(full, searchValue, selectedEntity).graphData)
  {
    var full := FullData(Plans(rows, cfg), cfg.displayMode);
    FullDataClosed(Plans(rows, cfg), cfg.displayMode);
    FilterClosed(full, searchValue, selectedEntity);
  }

  // -------------------------------------------------------- the page state

  /** The body of `applyFilter` on values: the focus chosen from the search
      term and the previous selection, and the view it leaves. */
  method FilterView(full: GraphData, searchValue: string, selected: string) returns (view: GraphData, focus: string)
    ensures FilterState(view, focus) == AppliedFilter(full, searchValue, selected)
  {
    var nodes := full.nodes;
    var links := full.links;
    var term := ToLower(Trim(searchValue));
    focus := selected;
    ghost var found := |nodes|;
    if term != "" {
      var i := FoundAt(nodes, term);
      found := i;
      if i < |nodes| {
        focus := nodes[i].id;
      }
    }
    assert focus == if found < |nodes| then nodes[found].id else selected;
    if focus == "" {
      view := GraphData(nodes, links);
    } else {
      // the focus view: the focus, the nodes next to it and its links
      var neighborIds := CollectNeighborIds(links, focus);
      view := GraphData(NodesWithIds(nodes, neighborIds), IncidentLinks(links, focus));
      assert view == FocusView(full, focus);
    }
  }

  /** The closure variables of the page script that `rebuild` and
      `applyFilter` read and write. `selectedEntity` is `""` for `null`. */
  class App {
    var rawData: seq<Row>
    var fullData: GraphData
    var graphData: GraphData
    var selectedEntity: string

    constructor()
      ensures rawData == [] && fullData == GraphData([], []) && graphData == GraphData([], []) && selectedEntity == ""
    {
      rawData := [];
      fullData := GraphData([], []);
      graphData := GraphData([], []);
      selectedEntity := "";
    }

    /** `rebuild`: a fresh build over `rawData` under the controls' settings,
        taken as `fullData`, then `applyFilter`. The threshold control is
        read but has no effect. */
    method Rebuild(cfg: Config, minTx: int, searchValue: string)
      modifies this
      ensures fullData == FullData(Plans(rawData, cfg), cfg.displayMode)
      ensures FilterState(graphData, selectedEntity) == AppliedFilter(fullData, searchValue, old(selectedEntity))
      ensures rawData == old(rawData)
    {
      fullData := BuildFullData(rawData, cfg);
      ApplyFilter(searchValue);
    }

    /** `applyFilter`: the first node matching the trimmed, lower-cased
        search term becomes the focus and the selection; without a focus the
        whole of `fullData` is shown, otherwise the focus, the other ends of
        the links at it, and those links. */
    method ApplyFilter(searchValue: string)
      modifies this
      ensures FilterState(graphData, selectedEntity) == AppliedFilter(fullData, searchValue, old(selectedEntity))
      ensures rawData == old(rawData) && fullData == old(fullData)
    {
      var view, focus := FilterView(fullData, searchValue, selectedEntity);
      graphData, selectedEntity := view, focus;
    }
  }
}
