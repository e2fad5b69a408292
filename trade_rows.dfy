/** The input both graph builders consume (parsed rows and the display
    configuration), what one accepted row contributes to a graph, the fixed
    display-mode edge table, and reference aggregates over a sequence of rows:
    the value every node and link of a finished build must hold. */
module TradeRows {
  import opened JsText

  /** A cell of a parsed row as the string `String(v)` gives for it. A cell
      whose JavaScript value is falsy (undefined, null, 0, NaN or the empty
      string) is `None` or `Some("")`. */
  predicate Missing(cell: Option<string>) {
    cell.None? || cell.value == ""
  }

  /** One parsed record. `cif` is `parseFloat(row["CIF Value (USD)"]) || 0`,
      computed by the caller. */
  datatype Row = Row(
    country: Option<string>,      // "Foreign Country"
    supplier: Option<string>,     // "Supplier Name"
    importer: Option<string>,     // "Importer Name"
    hsCode: Option<string>,       // "HS Code " (the key has a trailing space)
    productName: Option<string>,  // "Product Name"
    cif: real)

  datatype EntityKind = Country | Supplier | Product | Importer

  /** The `displayMode` strings; `Unrecognised` is any other string. */
  datatype DisplayMode =
    | Full | CountrySupplier | SupplierProduct | ProductImporter | CountryProduct | SupplierImporter
    | Unrecognised

  /** `'hsCode'`, or anything else, which both builders treat as product names. */
  datatype ProductMode = ByHsCode | ByProductName

  /** `'category'`, `'subcategory'`, or anything else (the whole code is used). */
  datatype HsLevel = Category | Subcategory | WholeCode

  datatype Config = Config(displayMode: DisplayMode, productMode: ProductMode, hsLevel: HsLevel)

  /** One node occurrence in a row: the node id, its display name, its type
      and the raw value recorded in `originalNames`. */
  datatype Entry = Entry(id: string, name: string, kind: EntityKind, orig: string)

  /** What an accepted row contributes: its four node occurrences and its value. */
  datatype RowPlan = RowPlan(country: Entry, supplier: Entry, product: Entry, importer: Entry, value: real)

  function Entries(p: RowPlan): seq<Entry> {
    [p.country, p.supplier, p.product, p.importer]
  }

  function EntryIds(p: RowPlan): seq<string> {
    [p.country.id, p.supplier.id, p.product.id, p.importer.id]
  }

  /** Ids carry their type as a prefix, and each entry has its own type. */
  predicate WellFormed(p: RowPlan) {
    && "country-" <= p.country.id && p.country.kind == Country
    && "supplier-" <= p.supplier.id && p.supplier.kind == Supplier
    && "product-" <= p.product.id && p.product.kind == Product
    && "importer-" <= p.importer.id && p.importer.kind == Importer
  }

  predicate NoDup(s: seq<string>) {
    forall i, j :: 0 <= i < j < |s| ==> s[i] != s[j]
  }

  lemma NoDupTail(s: seq<string>)
    requires NoDup(s) && s != []
    ensures NoDup(s[1..]) && s[0] !in s[1..]
  {
    forall i, j | 0 <= i < j < |s| - 1 ensures s[1..][i] != s[1..][j] {
      assert s[1..][i] == s[i + 1] && s[1..][j] == s[j + 1];
    }
  }

  /** Each entry has its own type and the four ids are pairwise different. */
  predicate Separate(p: RowPlan) {
    && p.country.kind == Country && p.supplier.kind == Supplier
    && p.product.kind == Product && p.importer.kind == Importer
    && p.country.id != p.supplier.id && p.country.id != p.product.id && p.country.id != p.importer.id
    && p.supplier.id != p.product.id && p.supplier.id != p.importer.id && p.product.id != p.importer.id
  }

  /** The four node ids of a row are pairwise distinct, so an accepted row
      touches four different nodes. */
  lemma DistinctIds(p: RowPlan)
    requires WellFormed(p)
    ensures NoDup(EntryIds(p)) && Separate(p)
  {
    assert p.country.id[0] == 'c' && p.supplier.id[0] == 's';
    assert p.product.id[0] == 'p' && p.importer.id[0] == 'i';
  }

  /** The entry of a row whose id is `id`, if any. */
  function EntryOf(p: RowPlan, id: string): (r: Option<Entry>)
    ensures r.Some? <==> id in EntryIds(p)
    ensures r.Some? ==> r.value in Entries(p) && r.value.id == id
  {
    if p.country.id == id then Some(p.country)
    else if p.supplier.id == id then Some(p.supplier)
    else if p.product.id == id then Some(p.product)
    else if p.importer.id == id then Some(p.importer)
    else None
  }

  // ------------------------------------------------------------ edge table

  /** A link's key: `${source}->${target}`. */
  function EdgeKey(e: (string, string)): string {
    e.0 + "->" + e.1
  }

  /** The key is the source id, the arrow and the target id, in that order. */
  lemma EdgeKeyParts(e: (string, string))
    ensures var r := EdgeKey(e);
            && |r| == |e.0| + 2 + |e.1|
            && r[..|e.0|] == e.0 && r[|e.0|..|e.0| + 2] == "->" && r[|e.0| + 2..] == e.1
  {
  }

  /** The position of the first `c` in `s`, or `|s|`. */
  function IndexOf(s: string, c: char): (i: nat)
    ensures i <= |s| && c !in s[..i] && (i < |s| ==> s[i] == c)
  {
    if s == [] then 0 else if s[0] == c then 0 else 1 + IndexOf(s[1..], c)
  }

  lemma IndexOfAfter(x: string, y: string, c: char)
    requires c !in x && c in y
    ensures IndexOf(x + y, c) == |x| + IndexOf(y, c)
  {
    var i := IndexOf(x + y, c);
    assert (x + y)[..|x|] == x;
    assert (x + y)[|x| + IndexOf(y, c)] == c;
    assert (x + y)[|x|..] == y;
  }

  /** When the source id holds no `>`, the key determines the edge: the first
      `>` of the key is the one of the arrow. */
  lemma EdgeKeyInjective(a: (string, string), b: (string, string))
    requires '>' !in a.0 && '>' !in b.0
    ensures EdgeKey(a) == EdgeKey(b) <==> a == b
  {
    var ka, kb := EdgeKey(a), EdgeKey(b);
    EdgeKeyParts(a);
    EdgeKeyParts(b);
    assert ka == a.0 + ("->" + a.1) && kb == b.0 + ("->" + b.1);
    IndexOfAfter(a.0, "->" + a.1, '>');
    IndexOfAfter(b.0, "->" + b.1, '>');
    if ka == kb {
      assert |a.0| == |b.0|;
      assert a.0 == ka[..|a.0|] == kb[..|b.0|] == b.0;
      assert a.1 == ka[|a.0| + 2..] == kb[|b.0| + 2..] == b.1;
    }
  }

  /** The key is not injective: an id that itself contains `->` lets two
      different edges share one entry of the link map. */
  lemma EdgeKeyAmbiguous(a: string, b: string, c: string)
    ensures EdgeKey((a + "->" + b, c)) == EdgeKey((a, b + "->" + c))
  {
  }

  /** The directed edges one row emits in each display mode. */
  function Edges(p: RowPlan, mode: DisplayMode): seq<(string, string)> {
    var c, s, pr, i := p.country.id, p.supplier.id, p.product.id, p.importer.id;
    match mode
    case Full => [(c, s), (s, pr), (pr, i)]
    case CountrySupplier => [(c, s)]
    case SupplierProduct => [(s, pr)]
    case ProductImporter => [(pr, i)]
    case CountryProduct => [(c, pr)]
    case SupplierImporter => [(s, i)]
    case Unrecognised => []
  }

  /** What each display mode links, by entity type: the chain country,
      supplier, product, importer in `full` mode, the named pair otherwise. */
  function ModeKinds(mode: DisplayMode): seq<(EntityKind, EntityKind)> {
    match mode
    case Full => [(Country, Supplier), (Supplier, Product), (Product, Importer)]
    case CountrySupplier => [(Country, Supplier)]
    case SupplierProduct => [(Supplier, Product)]
    case ProductImporter => [(Product, Importer)]
    case CountryProduct => [(Country, Product)]
    case SupplierImporter => [(Supplier, Importer)]
    case Unrecognised => []
  }

  /** The id of the row's entry of type `kind`. */
  function IdOfKind(p: RowPlan, kind: EntityKind): string {
    match kind
    case Country => p.country.id
    case Supplier => p.supplier.id
    case Product => p.product.id
    case Importer => p.importer.id
  }

  function KeysOf(es: seq<(string, string)>): (r: seq<string>)
    ensures |r| == |es|
    ensures forall k :: 0 <= k < |r| ==> r[k] == EdgeKey(es[k])
  {
    seq(|es|, k requires 0 <= k < |es| => EdgeKey(es[k]))
  }

  function EdgeKeys(p: RowPlan, mode: DisplayMode): seq<string> {
    KeysOf(Edges(p, mode))
  }

  /** The edges of a mode join the entries of the types the mode names, in
      the order of the table; in `full` mode they form the chain from the
      country to the importer. */
  lemma EdgeKinds(p: RowPlan, mode: DisplayMode)
    ensures var es := Edges(p, mode);
            && |es| == |ModeKinds(mode)|
            && (forall k :: 0 <= k < |es| ==>
                  es[k] == (IdOfKind(p, ModeKinds(mode)[k].0), IdOfKind(p, ModeKinds(mode)[k].1)))
            && (mode == Full ==> es[0].0 == p.country.id && es[0].1 == es[1].0 && es[1].1 == es[2].0 && es[2].1 == p.importer.id)
  {
  }

  /** How many links a row increments: three along the full chain, one for a
      pairwise mode, none for an unrecognised mode. */
  function LinksPerRow(mode: DisplayMode): nat {
    match mode
    case Full => 3
    case Unrecognised => 0
    case _ => 1
  }

  /** A well-formed row emits `LinksPerRow(mode)` edges with pairwise distinct
      keys, each between two different nodes of the row. */
  lemma EdgeTable(p: RowPlan, mode: DisplayMode)
    requires WellFormed(p)
    ensures |Edges(p, mode)| == LinksPerRow(mode)
    ensures NoDup(EdgeKeys(p, mode))
    ensures forall e :: e in Edges(p, mode) ==> e.0 in EntryIds(p) && e.1 in EntryIds(p) && e.0 != e.1
  {
    DistinctIds(p);
    var ks := EdgeKeys(p, mode);
    forall i, j | 0 <= i < j < |ks| ensures ks[i] != ks[j] {
      assert ks[i][0] == Edges(p, mode)[i].0[0];
      assert ks[j][0] == Edges(p, mode)[j].0[0];
      assert p.country.id[0] == 'c' && p.supplier.id[0] == 's' && p.product.id[0] == 'p';
    }
  }

  /** The nodes that edge `e` links `id` to: its other end, if `id` is one of its ends. */
  function EdgeNeighbours(e: (string, string), id: string): set<string> {
    (if e.0 == id then {e.1} else {}) + (if e.1 == id then {e.0} else {})
  }

  function NeighboursIn(es: seq<(string, string)>, id: string): (r: set<string>)
    ensures forall b :: b in r <==> exists e :: e in es && ((e.0 == id && e.1 == b) || (e.1 == id && e.0 == b))
  {
    if es == [] then {} else EdgeNeighbours(es[0], id) + NeighboursIn(es[1..], id)
  }

  /** The nodes a row links `id` to, in either direction. */
  function RowNeighbours(p: RowPlan, mode: DisplayMode, id: string): set<string> {
    NeighboursIn(Edges(p, mode), id)
  }

  function CountKey(es: seq<(string, string)>, key: string): nat {
    if es == [] then 0 else (if EdgeKey(es[0]) == key then 1 else 0) + CountKey(es[1..], key)
  }

  /** A key is counted exactly when it is among the keys, and at most once
      when the keys are distinct. */
  lemma {:induction false} CountKeyFacts(es: seq<(string, string)>, key: string)
    ensures CountKey(es, key) > 0 <==> key in KeysOf(es)
    ensures NoDup(KeysOf(es)) ==> CountKey(es, key) == if key in KeysOf(es) then 1 else 0
  {
    if es != [] {
      CountKeyFacts(es[1..], key);
      assert KeysOf(es) == [EdgeKey(es[0])] + KeysOf(es[1..]);
    }
  }

  function FirstWithKey(es: seq<(string, string)>, key: string): (r: Option<(string, string)>)
    ensures r.Some? ==> r.value in es && EdgeKey(r.value) == key
    ensures r.Some? <==> CountKey(es, key) > 0
  {
    if es == [] then None else if EdgeKey(es[0]) == key then Some(es[0]) else FirstWithKey(es[1..], key)
  }

  /** How many of a row's edges have key `key`. */
  function KeyHits(p: RowPlan, mode: DisplayMode, key: string): nat {
    CountKey(Edges(p, mode), key)
  }

  // ------------------------------------------------- aggregates over rows

  /** The effect of one row on node `id`: the row's entry for it, if the row
      was accepted and touches the node. */
  function RowEntry(x: Option<RowPlan>, id: string): Option<Entry> {
    if x.Some? then EntryOf(x.value, id) else None
  }

  /** Number of accepted rows touching node `id`. */
  function Touches(ps: seq<Option<RowPlan>>, id: string): nat {
    if ps == [] then 0
    else Touches(ps[..|ps| - 1], id) + (if RowEntry(ps[|ps| - 1], id).Some? then 1 else 0)
  }

  /** Sum of the values of the accepted rows touching node `id`. */
  function Volume(ps: seq<Option<RowPlan>>, id: string): real {
    if ps == [] then 0.0
    else Volume(ps[..|ps| - 1], id) + (if RowEntry(ps[|ps| - 1], id).Some? then ps[|ps| - 1].value.value else 0.0)
  }

  /** The raw values recorded for node `id`. */
  function OrigNames(ps: seq<Option<RowPlan>>, id: string): set<string> {
    if ps == [] then {}
    else OrigNames(ps[..|ps| - 1], id) +
         (if RowEntry(ps[|ps| - 1], id).Some? then {RowEntry(ps[|ps| - 1], id).value.orig} else {})
  }

  /** The entry of the first row that touches node `id`: it creates the node
      and fixes its name and type. */
  function FirstEntry(ps: seq<Option<RowPlan>>, id: string): (r: Option<Entry>)
    ensures r.Some? ==> r.value.id == id
  {
    if ps == [] then None
    else
      var f := FirstEntry(ps[..|ps| - 1], id);
      if f.Some? then f else RowEntry(ps[|ps| - 1], id)
  }

  /** Every node linked to `id`, in either direction, by some accepted row. */
  function Neighbours(ps: seq<Option<RowPlan>>, mode: DisplayMode, id: string): set<string> {
    if ps == [] then {}
    else Neighbours(ps[..|ps| - 1], mode, id) +
         (if ps[|ps| - 1].Some? then RowNeighbours(ps[|ps| - 1].value, mode, id) else {})
  }

  /** Number of increments link `key` receives. */
  function LinkHits(ps: seq<Option<RowPlan>>, mode: DisplayMode, key: string): nat {
    if ps == [] then 0
    else LinkHits(ps[..|ps| - 1], mode, key) +
         (if ps[|ps| - 1].Some? then KeyHits(ps[|ps| - 1].value, mode, key) else 0)
  }

  /** Total value added to link `key`. */
  function LinkVolume(ps: seq<Option<RowPlan>>, mode: DisplayMode, key: string): real {
    if ps == [] then 0.0
    else LinkVolume(ps[..|ps| - 1], mode, key) +
         (if ps[|ps| - 1].Some? then (KeyHits(ps[|ps| - 1].value, mode, key) as real) * ps[|ps| - 1].value.value else 0.0)
  }

  /** The edge that first produced key `key`: it creates the link and fixes its endpoints. */
  function FirstEdge(ps: seq<Option<RowPlan>>, mode: DisplayMode, key: string): (r: Option<(string, string)>)
    ensures r.Some? ==> EdgeKey(r.value) == key
  {
    if ps == [] then None
    else
      var f := FirstEdge(ps[..|ps| - 1], mode, key);
      if f.Some? then f
      else if ps[|ps| - 1].Some? then FirstWithKey(Edges(ps[|ps| - 1].value, mode), key)
      else None
  }

  /** Appends, one after the other, the elements of `xs` not yet present: the
      insertion order of a JavaScript `Map`. */
  function AppendNew(acc: seq<string>, xs: seq<string>): (r: seq<string>)
    ensures forall x :: x in r <==> x in acc || x in xs
    ensures NoDup(acc) ==> NoDup(r)
    decreases |xs|
  {
    if xs == [] then acc
    else AppendNew(if xs[0] in acc then acc else acc + [xs[0]], xs[1..])
  }

  /** Node ids in order of creation. */
  function NodeOrder(ps: seq<Option<RowPlan>>): seq<string> {
    if ps == [] then []
    else
      var o := NodeOrder(ps[..|ps| - 1]);
      if ps[|ps| - 1].Some? then AppendNew(o, EntryIds(ps[|ps| - 1].value)) else o
  }

  /** Link keys in order of creation. */
  function LinkOrder(ps: seq<Option<RowPlan>>, mode: DisplayMode): seq<string> {
    if ps == [] then []
    else
      var o := LinkOrder(ps[..|ps| - 1], mode);
      if ps[|ps| - 1].Some? then AppendNew(o, EdgeKeys(ps[|ps| - 1].value, mode)) else o
  }

  // ----------------------------------------------------------------- lemmas

  /** Every node id is listed once, and exactly the touched nodes are listed. */
  lemma {:induction false} NodeOrderMembers(ps: seq<Option<RowPlan>>)
    ensures NoDup(NodeOrder(ps))
    ensures forall id :: id in NodeOrder(ps) <==> FirstEntry(ps, id).Some?
  {
    if ps != [] {
      NodeOrderMembers(ps[..|ps| - 1]);
    }
  }

  /** Every link key is listed once, and exactly the produced keys are listed. */
  lemma {:induction false} LinkOrderMembers(ps: seq<Option<RowPlan>>, mode: DisplayMode)
    ensures NoDup(LinkOrder(ps, mode))
    ensures forall k :: k in LinkOrder(ps, mode) <==> FirstEdge(ps, mode, k).Some?
  {
    if ps != [] {
      LinkOrderMembers(ps[..|ps| - 1], mode);
      var x := ps[|ps| - 1];
      if x.Some? {
        forall k ensures k in EdgeKeys(x.value, mode) <==> FirstWithKey(Edges(x.value, mode), k).Some? {
          EdgeKeysHits(x.value, mode, k);
        }
      }
    }
  }

  lemma EdgeKeysHits(p: RowPlan, mode: DisplayMode, k: string)
    ensures k in EdgeKeys(p, mode) <==> KeyHits(p, mode, k) > 0
  {
    CountKeyFacts(Edges(p, mode), k);
  }

  /** Only edges between the row's own nodes exist, so a row can link only a node it touches. */
  lemma RowNeighboursTouch(p: RowPlan, mode: DisplayMode, id: string)
    ensures RowNeighbours(p, mode, id) != {} ==> EntryOf(p, id).Some?
    ensures forall b :: b in RowNeighbours(p, mode, id) ==> EntryOf(p, b).Some?
  {
  }

  /** A node exists exactly when some accepted row touched it; an untouched
      id carries no count, no value, no names and no neighbours. */
  lemma {:induction false} TouchedIffCreated(ps: seq<Option<RowPlan>>, mode: DisplayMode, id: string)
    ensures FirstEntry(ps, id).Some? <==> Touches(ps, id) > 0
    ensures FirstEntry(ps, id).Some? ==> FirstEntry(ps, id).value.orig in OrigNames(ps, id)
    ensures FirstEntry(ps, id).None? ==>
              Volume(ps, id) == 0.0 && OrigNames(ps, id) == {} && Neighbours(ps, mode, id) == {}
  {
    if ps != [] {
      TouchedIffCreated(ps[..|ps| - 1], mode, id);
      if ps[|ps| - 1].Some? {
        RowNeighboursTouch(ps[|ps| - 1].value, mode, id);
      }
    }
  }

  /** Neighbour sets are symmetric. */
  lemma {:induction false} NeighboursSymmetric(ps: seq<Option<RowPlan>>, mode: DisplayMode, a: string, b: string)
    ensures b in Neighbours(ps, mode, a) <==> a in Neighbours(ps, mode, b)
  {
    if ps != [] {
      NeighboursSymmetric(ps[..|ps| - 1], mode, a, b);
    }
  }

  /** Neighbours are existing nodes. */
  lemma {:induction false} NeighboursExist(ps: seq<Option<RowPlan>>, mode: DisplayMode, a: string, b: string)
    requires b in Neighbours(ps, mode, a)
    ensures FirstEntry(ps, a).Some? && FirstEntry(ps, b).Some?
  {
    var init := ps[..|ps| - 1];
    if b in Neighbours(init, mode, a) {
      NeighboursExist(init, mode, a, b);
    } else {
      RowNeighboursTouch(ps[|ps| - 1].value, mode, a);
    }
  }

  /** A link exists exactly when some row produced its key; it joins two
      existing nodes that list each other as neighbours. */
  lemma {:induction false} FirstEdgeFacts(ps: seq<Option<RowPlan>>, mode: DisplayMode, key: string)
    ensures FirstEdge(ps, mode, key).Some? <==> LinkHits(ps, mode, key) > 0
    ensures FirstEdge(ps, mode, key).None? ==> LinkVolume(ps, mode, key) == 0.0
    ensures FirstEdge(ps, mode, key).Some? ==>
              var e := FirstEdge(ps, mode, key).value;
              FirstEntry(ps, e.0).Some? && FirstEntry(ps, e.1).Some? &&
              e.1 in Neighbours(ps, mode, e.0) && e.0 in Neighbours(ps, mode, e.1)
  {
    if ps != [] {
      var init := ps[..|ps| - 1];
      FirstEdgeFacts(init, mode, key);
      var f := FirstEdge(ps, mode, key);
      if f.None? && ps[|ps| - 1].Some? {
        assert KeyHits(ps[|ps| - 1].value, mode, key) == 0;
      }
      if f.Some? {
        var e := f.value;
        if FirstEdge(init, mode, key).None? {
          var p := ps[|ps| - 1].value;
          assert e in Edges(p, mode);
          assert e.1 in RowNeighbours(p, mode, e.0);
          assert e.0 in RowNeighbours(p, mode, e.1);
          NeighboursExist(ps, mode, e.0, e.1);
        } else {
          NeighboursExist(ps, mode, e.0, e.1);
        }
      }
    }
  }

  /** When the keys of a list of edges are distinct, the edge found for a key is the one carrying it. */
  lemma {:induction false} FirstWithKeyUnique(es: seq<(string, string)>, e: (string, string))
    requires NoDup(KeysOf(es)) && e in es
    ensures FirstWithKey(es, EdgeKey(e)) == Some(e)
  {
    if es[0] != e {
      assert NoDup(KeysOf(es[1..])) by {
        forall i, j | 0 <= i < j < |es| - 1 ensures KeysOf(es[1..])[i] != KeysOf(es[1..])[j] {
          assert KeysOf(es[1..])[i] == KeysOf(es)[i + 1] && KeysOf(es[1..])[j] == KeysOf(es)[j + 1];
        }
      }
      var i :| 0 <= i < |es| && es[i] == e;
      assert KeysOf(es)[0] != KeysOf(es)[i];
      FirstWithKeyUnique(es[1..], e);
    }
  }

  /** An accepted row adds exactly one transaction and its value to each of
      its four nodes, and records the raw value of each. */
  lemma AcceptedRowTouches(ps: seq<Option<RowPlan>>, p: RowPlan, e: Entry)
    requires WellFormed(p) && e in Entries(p)
    ensures Touches(ps + [Some(p)], e.id) == Touches(ps, e.id) + 1
    ensures Volume(ps + [Some(p)], e.id) == Volume(ps, e.id) + p.value
    ensures OrigNames(ps + [Some(p)], e.id) == OrigNames(ps, e.id) + {e.orig}
  {
    DistinctIds(p);
    assert (ps + [Some(p)])[..|ps|] == ps;
    assert EntryOf(p, e.id) == Some(e) by {
      assert e == p.country || e == p.supplier || e == p.product || e == p.importer;
    }
  }

  /** A skipped row changes no node and no link. */
  lemma SkippedRowChangesNothing(ps: seq<Option<RowPlan>>, mode: DisplayMode, id: string, key: string)
    ensures Touches(ps + [None], id) == Touches(ps, id)
    ensures Volume(ps + [None], id) == Volume(ps, id)
    ensures OrigNames(ps + [None], id) == OrigNames(ps, id)
    ensures FirstEntry(ps + [None], id) == FirstEntry(ps, id)
    ensures Neighbours(ps + [None], mode, id) == Neighbours(ps, mode, id)
    ensures LinkHits(ps + [None], mode, key) == LinkHits(ps, mode, key)
    ensures FirstEdge(ps + [None], mode, key) == FirstEdge(ps, mode, key)
    ensures NodeOrder(ps + [None]) == NodeOrder(ps)
    ensures LinkOrder(ps + [None], mode) == LinkOrder(ps, mode)
  {
    assert (ps + [None])[..|ps|] == ps;
  }

  /** An accepted row increments each of its edges' links exactly once and no other link. */
  lemma AcceptedRowLinks(ps: seq<Option<RowPlan>>, p: RowPlan, mode: DisplayMode, key: string)
    requires WellFormed(p)
    ensures LinkHits(ps + [Some(p)], mode, key) ==
              LinkHits(ps, mode, key) + (if key in EdgeKeys(p, mode) then 1 else 0)
  {
    EdgeTable(p, mode);
    assert (ps + [Some(p)])[..|ps|] == ps;
    CountKeyFacts(Edges(p, mode), key);
  }

  // ------------------------------------------------ insertion orders and steps

  /** The insertion order after the four node calls, one call at a
      time, from a map with keys `ks`: each call appends an id not yet present. */
  function OrderAfter(ks: set<string>, o: seq<string>, p: RowPlan): seq<string> {
    var o1 := Inserted(ks, o, p.country.id);
    var o2 := Inserted(ks + {p.country.id}, o1, p.supplier.id);
    var o3 := Inserted(ks + {p.country.id, p.supplier.id}, o2, p.product.id);
    Inserted(ks + {p.country.id, p.supplier.id, p.product.id}, o3, p.importer.id)
  }

  /** The insertion order of a map with keys `ks` after setting key `x`. */
  function Inserted(ks: set<string>, o: seq<string>, x: string): seq<string> {
    if x in ks then o else o + [x]
  }

  /** The insertion order after the four node calls: the row's ids
      not yet present, appended in order. */
  lemma TouchedOrder(ks: set<string>, o: seq<string>, p: RowPlan)
    requires forall x :: x in ks <==> x in o
    ensures OrderAfter(ks, o, p) == AppendNew(o, EntryIds(p))
  {
    var c, s, pr, i := p.country.id, p.supplier.id, p.product.id, p.importer.id;
    var o1 := Inserted(ks, o, c);
    var o2 := Inserted(ks + {c}, o1, s);
    var o3 := Inserted(ks + {c, s}, o2, pr);
    assert s in ks + {c} <==> s in o1;
    assert pr in ks + {c, s} <==> pr in o2;
    assert i in ks + {c, s, pr} <==> i in o3;
    AppendNewStep(o, c, [s, pr, i]);
    AppendNewStep(o1, s, [pr, i]);
    AppendNewStep(o2, pr, [i]);
    AppendNewStep(o3, i, []);
  }

  lemma AppendNewStep(o: seq<string>, x: string, rest: seq<string>)
    ensures AppendNew(o, [x] + rest) == AppendNew(if x in o then o else o + [x], rest)
  {
    assert ([x] + rest)[1..] == rest;
  }

  /** The insertion order of a map with keys `ks` after setting the key of
      each edge of `es` in turn. */
  function EdgeOrder(ks: set<string>, o: seq<string>, es: seq<(string, string)>): seq<string>
    decreases |es|
  {
    if es == [] then o
    else
      var k := EdgeKey(es[0]);
      EdgeOrder(ks + {k}, Inserted(ks, o, k), es[1..])
  }

  /** The link insertion order `addLink` keeps is the first-seen order of the keys. */
  lemma {:induction false} EdgeOrderFacts(ks: set<string>, o: seq<string>, es: seq<(string, string)>)
    requires forall k :: k in ks <==> k in o
    ensures EdgeOrder(ks, o, es) == AppendNew(o, KeysOf(es))
    decreases |es|
  {
    if es != [] {
      var k := EdgeKey(es[0]);
      assert KeysOf(es)[1..] == KeysOf(es[1..]);
      EdgeOrderFacts(ks + {k}, Inserted(ks, o, k), es[1..]);
    }
  }

  /** A row creates each of its nodes if it does not exist yet. */
  lemma AcceptedRowCreates(ps: seq<Option<RowPlan>>, p: RowPlan, id: string)
    requires id in EntryIds(p)
    ensures FirstEntry(ps + [Some(p)], id).Some?
  {
    assert (ps + [Some(p)])[..|ps|] == ps;
  }

  /** An edge of an accepted row adds one increment and the row's value to its
      link, and creates the link if no earlier row did. */
  lemma EdgeCounted(ps: seq<Option<RowPlan>>, p: RowPlan, mode: DisplayMode, e: (string, string))
    requires WellFormed(p) && e in Edges(p, mode)
    ensures var q, key := ps + [Some(p)], EdgeKey(e);
            && LinkHits(q, mode, key) == LinkHits(ps, mode, key) + 1
            && LinkVolume(q, mode, key) == LinkVolume(ps, mode, key) + p.value
            && FirstEdge(q, mode, key) == if FirstEdge(ps, mode, key).Some? then FirstEdge(ps, mode, key) else Some(e)
  {
    var key := EdgeKey(e);
    var es := Edges(p, mode);
    var q := ps + [Some(p)];
    EdgeTable(p, mode);
    var i :| 0 <= i < |es| && es[i] == e;
    assert KeysOf(es)[i] == key;
    CountKeyFacts(es, key);
    FirstWithKeyUnique(es, e);
    assert q[..|ps|] == ps;
  }
}
