/** Where the two builders agree and where they part: the React component
    `TradeNetworkGraph.jsx` and the page script `src/js/main.js` implement
    the same graph separately. */
module Divergences {
  import opened JsText
  import opened TradeRows
  import T = TradeNetworkGraph
  import M = MainJs

  // ------------------------------------------------------------ agreement

  /** Both whitespace cleanups give the same result: the component's extra
      newline replacement is subsumed by the whitespace collapse. */
  lemma CleanupsAgree(s: string)
    ensures T.CleanSpaces(s) == M.Squeeze(s)
  {
    CollapseIgnoresNewlines(Trim(s));
  }

  /** The else-if chain and the three sequential `if`s pick the same token. */
  lemma CanonicalAgrees(s: string)
    ensures T.Canonical(s) == M.Canonicalise(s)
  {
  }

  /** Countries, suppliers and importers are normalised alike by both files. */
  lemma NormalisationAgrees(v: Option<string>, kind: EntityKind)
    requires kind != Product
    ensures T.NormalizeEntity(v, kind) == M.Normalize(v, kind)
  {
    if !Missing(v) {
      CleanupsAgree(v.value);
      if kind != Country {
        var core := CompanyCore(ToUpper(M.Squeeze(v.value)));
        var t := T.NormalizeEntity(v, kind);
        var m := M.Normalize(v, kind);
        if Contains(core, "SUZLON") {
          assert t == "SUZLON" == m;
        } else if Contains(core, "INOX WIND") {
          assert t == "INOX WIND" == m;
        } else if Contains(core, "ENVISION") {
          assert t == "ENVISION" == m;
        } else {
          assert t == core == m;
        }
      }
    }
  }

  /** The HS-code labels, and hence the `hsCode`-mode product nodes' ids and
      names, agree. */
  lemma HsLabelsAgree(level: HsLevel, code: string)
    ensures T.HsLabel(level, code) == M.HsLabel(level, code)
  {
  }

  lemma HsProductIdsAgree(row: Row, cfg: Config)
    requires cfg.productMode == ByHsCode && !Missing(row.hsCode)
    ensures T.ProductEntry(row, cfg).value.id == M.ProductEntry(row, cfg).value.id
    ensures T.ProductEntry(row, cfg).value.name == M.ProductEntry(row, cfg).value.name
  {
  }

  // ------------------------------------------------------------ divergence

  /** Product names: the component cleans them like countries, the page
      script like company names (its test is "not a country"). */
  lemma ProductNameTreatment(v: Option<string>)
    ensures T.NormalizeEntity(v, Product) == T.NormalizeEntity(v, Country)
    ensures M.Normalize(v, Product) == M.Normalize(v, Supplier)
  {
  }

  /** The component keeps every non-whitespace character of a product name. */
  lemma ProductKeepsText(v: string, c: char)
    requires c in v && !IsSpace(c)
    ensures c in T.NormalizeEntity(Some(v), Product)
  {
    var t := T.NormalizeEntity(Some(v), Product);
    assert t == T.CleanSpaces(v);
    NonSpaceMembers(v, c);
    NonSpaceMembers(t, c);
  }

  /** The page script never returns a lower-case letter for a product name. */
  lemma ProductUpperCase(v: string)
    ensures NoLower(M.Normalize(Some(v), Product))
  {
    UpperFixpoint(M.Normalize(Some(v), Product));
  }

  /** Hence any product name with a lower-case letter is normalised
      differently: the component keeps the letter, the page script never
      returns one. */
  lemma ProductNamesDiffer(v: string, i: nat)
    requires i < |v| && 'a' <= v[i] <= 'z'
    ensures T.NormalizeEntity(Some(v), Product) != M.Normalize(Some(v), Product)
  {
    ProductKeepsText(v, v[i]);
    ProductUpperCase(v);
  }

  /** Product-name ids: the component keeps the first 20 characters of the
      normalised name, the page script 8 hexadecimal digits of its hash. */
  lemma ProductNameIdsDiffer()
    ensures T.ProductNameId("a") == "product-name-a"
    ensures M.ProductNameId("A") == "product-name-41"
  {
    assert M.Hash("A") == 65 by {
      assert "A"[..0] == [];
    }
    assert M.Hex(65) == "41" by {
      assert 65 / 16 == 4 && 65 % 16 == 1;
    }
  }

  /** For any normalised name, the component's id carries the first 20
      characters of the name and the page script's id only hexadecimal digits. */
  lemma ProductNameIdShapes(n: string)
    ensures T.ProductNameId(n)[13..] == Prefix(n, 20)
    ensures forall i :: 13 <= i < |M.ProductNameId(n)| ==> M.IsHexDigit(M.ProductNameId(n)[i])
  {
  }

  /** So the two ids of a name differ whenever one of its first 20 characters
      is not a lower-case hexadecimal digit. */
  lemma ProductNameIdsApart(n: string, i: nat)
    requires i < |n| && i < 20 && !M.IsHexDigit(n[i])
    ensures T.ProductNameId(n) != M.ProductNameId(n)
  {
    var t, m := T.ProductNameId(n), M.ProductNameId(n);
    assert t[13 + i] == t[13..][i] == Prefix(n, 20)[i] == n[i];
    assert |m| > 13 + i ==> M.IsHexDigit(m[13 + i]);
  }

  /** The recorded original of an `hsCode`-mode product: the raw cell in the
      component, the trimmed code in the page script; they agree exactly when
      the cell has no whitespace at its ends. */
  lemma HsOriginalsDiffer(row: Row, cfg: Config)
    requires cfg.productMode == ByHsCode && !Missing(row.hsCode)
    ensures T.ProductEntry(row, cfg).value.orig == row.hsCode.value
    ensures M.ProductEntry(row, cfg).value.orig == Trim(row.hsCode.value)
    ensures T.ProductEntry(row, cfg).value.orig == M.ProductEntry(row, cfg).value.orig <==> NoEdgeSpace(row.hsCode.value)
  {
    if NoEdgeSpace(row.hsCode.value) {
      TrimClean(row.hsCode.value);
    }
  }
}
