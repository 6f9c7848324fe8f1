/**
 * `enrichOrdersWithDrugDetails`: the join of the orders' drug lines with
 * the drug catalog. The drug ids of all lines are collected first; when
 * there is none, every order only gets `drugs ?? []`. Otherwise the
 * catalog rows of those ids are fetched in one batch, and each line's name
 * becomes the catalog name, else the line's own name, else `""`. The
 * catalog (every drug id to its name) is a parameter.
 */
module DrugEnrichment {
  import opened Common
  import opened OrderPayload
  import opened OrderRecords

  // ------------------------------------------------------- specification

  /** The truthy drug ids of some drug lines. */
  function LineIds(ds: seq<DrugEntry>): set<string>
    decreases |ds|
  {
    if ds == [] then {}
    else
      var d := ds[|ds| - 1];
      LineIds(ds[..|ds| - 1]) + (if Truthy(d.drugId) then {d.drugId.value} else {})
  }

  /** The truthy drug ids of all lines of all orders: the `drugIds` set. */
  function DrugIdsOf(orders: seq<Order>): set<string>
    decreases |orders|
  {
    if orders == [] then {}
    else DrugIdsOf(orders[..|orders| - 1]) + LineIds(DrugsOf(orders[|orders| - 1]))
  }

  /** `drugInfo?.name ?? drug.name ?? ""`, with the lookup holding every truthy id of the batch. */
  function EnrichedName(d: DrugEntry, catalog: map<string, string>): string {
    if Truthy(d.drugId) && d.drugId.value in catalog then catalog[d.drugId.value] else d.name.GetOr("")
  }

  function EnrichLines(ds: seq<DrugEntry>, catalog: map<string, string>): (r: seq<DrugEntry>)
    ensures |r| == |ds|
    ensures forall j :: 0 <= j < |ds| ==> r[j] == ds[j].(name := Some(EnrichedName(ds[j], catalog)))
  {
    seq(|ds|, j requires 0 <= j < |ds| => ds[j].(name := Some(EnrichedName(ds[j], catalog))))
  }

  /**
   * The enriched orders. An empty list is returned as it is; every order
   * keeps its position and all its fields but `drugs`, which becomes
   * present with one line per original line, each keeping all its fields
   * but possibly `name`.
   */
  function Enriched(orders: seq<Order>, catalog: map<string, string>): (r: seq<Order>)
    ensures orders == [] ==> r == orders
    ensures |r| == |orders|
    ensures forall i :: 0 <= i < |orders| ==>
              r[i].(drugs := orders[i].drugs) == orders[i] &&
              r[i].drugs.Some? && |r[i].drugs.value| == |DrugsOf(orders[i])|
    ensures forall i, j :: 0 <= i < |orders| && 0 <= j < |DrugsOf(orders[i])| ==>
              r[i].drugs.value[j].(name := DrugsOf(orders[i])[j].name) == DrugsOf(orders[i])[j]
  {
    if orders == [] then orders
    else if DrugIdsOf(orders) == {} then
      seq(|orders|, i requires 0 <= i < |orders| => orders[i].(drugs := Some(DrugsOf(orders[i]))))
    else
      seq(|orders|, i requires 0 <= i < |orders| =>
        orders[i].(drugs := Some(EnrichLines(DrugsOf(orders[i]), catalog))))
  }

  // --------------------------------------------------------------- lemmas

  lemma {:induction false} LineIdsIff(ds: seq<DrugEntry>, x: string)
    ensures x in LineIds(ds) <==> exists j :: 0 <= j < |ds| && Truthy(ds[j].drugId) && ds[j].drugId.value == x
    decreases |ds|
  {
    if ds != [] {
      var init := ds[..|ds| - 1];
      LineIdsIff(init, x);
      assert forall j :: 0 <= j < |init| ==> init[j] == ds[j];
    }
  }

  lemma {:induction false} DrugIdsOfIff(orders: seq<Order>, x: string)
    ensures x in DrugIdsOf(orders) <==> exists i :: 0 <= i < |orders| && x in LineIds(DrugsOf(orders[i]))
    decreases |orders|
  {
    if orders != [] {
      var init := orders[..|orders| - 1];
      DrugIdsOfIff(init, x);
      assert forall i :: 0 <= i < |init| ==> init[i] == orders[i];
    }
  }

  /** The collected ids are exactly the truthy drug ids of the lines. */
  lemma DrugIdOfLine(orders: seq<Order>, i: int, j: int)
    requires 0 <= i < |orders| && 0 <= j < |DrugsOf(orders[i])|
    ensures var d := DrugsOf(orders[i])[j];
      Truthy(d.drugId) ==> d.drugId.value in DrugIdsOf(orders)
  {
    var d := DrugsOf(orders[i])[j];
    if Truthy(d.drugId) {
      LineIdsIff(DrugsOf(orders[i]), d.drugId.value);
      DrugIdsOfIff(orders, d.drugId.value);
    }
  }

  lemma NoEmptyDrugId(orders: seq<Order>)
    ensures "" !in DrugIdsOf(orders)
  {
    DrugIdsOfIff(orders, "");
    if "" in DrugIdsOf(orders) {
      var i :| 0 <= i < |orders| && "" in LineIds(DrugsOf(orders[i]));
      LineIdsIff(DrugsOf(orders[i]), "");
    }
  }

  /** Lines with the same drug ids yield the same id set. */
  lemma {:induction false} LineIdsSameIds(ds: seq<DrugEntry>, es: seq<DrugEntry>)
    requires |ds| == |es| && forall j :: 0 <= j < |ds| ==> ds[j].drugId == es[j].drugId
    ensures LineIds(ds) == LineIds(es)
    decreases |ds|
  {
    if ds != [] {
      LineIdsSameIds(ds[..|ds| - 1], es[..|es| - 1]);
    }
  }

  lemma {:induction false} DrugIdsSameIds(os: seq<Order>, ts: seq<Order>)
    requires |os| == |ts| && forall i :: 0 <= i < |os| ==> LineIds(DrugsOf(os[i])) == LineIds(DrugsOf(ts[i]))
    ensures DrugIdsOf(os) == DrugIdsOf(ts)
    decreases |os|
  {
    if os != [] {
      DrugIdsSameIds(os[..|os| - 1], ts[..|ts| - 1]);
    }
  }

  /** Enrichment keeps every line's drug id, hence the collected id set. */
  lemma EnrichedKeepsIds(orders: seq<Order>, catalog: map<string, string>)
    ensures DrugIdsOf(Enriched(orders, catalog)) == DrugIdsOf(orders)
  {
    var r := Enriched(orders, catalog);
    forall i | 0 <= i < |orders| ensures LineIds(DrugsOf(r[i])) == LineIds(DrugsOf(orders[i])) {
      LineIdsSameIds(DrugsOf(r[i]), DrugsOf(orders[i]));
    }
    DrugIdsSameIds(r, orders);
  }

  /**
   * The name rule: with at least one drug id in the batch, every line is
   * named from the catalog, else by its own name, else `""`; with none,
   * names are left as they were.
   */
  lemma EnrichedNames(orders: seq<Order>, catalog: map<string, string>, i: int, j: int)
    requires 0 <= i < |orders| && 0 <= j < |DrugsOf(orders[i])|
    ensures var d := DrugsOf(orders[i])[j];
      var n := Enriched(orders, catalog)[i].drugs.value[j].name;
      (DrugIdsOf(orders) != {} ==>
         n == Some(if Truthy(d.drugId) && d.drugId.value in catalog then catalog[d.drugId.value]
                   else if d.name.Some? then d.name.value else "")) &&
      (DrugIdsOf(orders) == {} ==> n == d.name)
  {
  }

  /** A line whose drug id is in the catalog takes the catalog's name. */
  lemma CatalogNameWins(orders: seq<Order>, catalog: map<string, string>, i: int, j: int)
    requires 0 <= i < |orders| && 0 <= j < |DrugsOf(orders[i])|
    requires var d := DrugsOf(orders[i])[j]; Truthy(d.drugId) && d.drugId.value in catalog
    ensures Enriched(orders, catalog)[i].drugs.value[j].name == Some(catalog[DrugsOf(orders[i])[j].drugId.value])
  {
    DrugIdOfLine(orders, i, j);
  }

  /** Enriching enriched orders with the same catalog changes nothing. */
  lemma EnrichedIdempotent(orders: seq<Order>, catalog: map<string, string>)
    ensures Enriched(Enriched(orders, catalog), catalog) == Enriched(orders, catalog)
  {
    var r := Enriched(orders, catalog);
    EnrichedKeepsIds(orders, catalog);
    var rr := Enriched(r, catalog);
    if orders != [] {
      forall i | 0 <= i < |orders| ensures rr[i] == r[i] {
        var ds := DrugsOf(r[i]);
        assert r[i].drugs == Some(ds);
        assert rr[i].drugs.value == ds by {
          forall j | 0 <= j < |ds| ensures rr[i].drugs.value[j] == ds[j] {
            if DrugIdsOf(orders) != {} {
              assert ds[j].name == Some(EnrichedName(DrugsOf(orders[i])[j], catalog));
              assert ds[j].drugId == DrugsOf(orders[i])[j].drugId;
            }
          }
        }
      }
    }
  }

  // --------------------------------------------------------------- method

  /** The batched `findMany({ where: { id: { in: ids } } })` lookup. */
  function CatalogLookup(catalog: map<string, string>, ids: set<string>): (m: map<string, string>)
    ensures forall k :: k in m <==> k in catalog && k in ids
    ensures forall k :: k in m ==> m[k] == catalog[k]
  {
    map k | k in catalog && k in ids :: catalog[k]
  }

  function LookupName(d: DrugEntry, lookup: map<string, string>): string {
    if d.drugId.Some? && d.drugId.value in lookup then lookup[d.drugId.value] else d.name.GetOr("")
  }

  /**
   * The handler's procedure: the nested loops fill the id set, the catalog
   * is queried once for the ids, and every line is named through that
   * lookup. The result is the specification `Enriched`.
   */
  method EnrichOrders(orders: seq<Order>, catalog: map<string, string>) returns (r: seq<Order>)
    ensures r == Enriched(orders, catalog)
  {
    if |orders| == 0 {
      return orders;
    }
    var ids: set<string> := {};
    var i := 0;
    while i < |orders|
      invariant 0 <= i <= |orders|
      invariant ids == DrugIdsOf(orders[..i])
    {
      var ds := DrugsOf(orders[i]);
      var j := 0;
      while j < |ds|
        invariant 0 <= j <= |ds|
        invariant ids == DrugIdsOf(orders[..i]) + LineIds(ds[..j])
      {
        if ds[j].drugId.Some? && ds[j].drugId.value != "" {
          ids := ids + {ds[j].drugId.value};
        }
        assert ds[..j + 1][..j] == ds[..j];
        j := j + 1;
      }
      assert ds[..j] == ds;
      assert orders[..i + 1][..i] == orders[..i];
      i := i + 1;
    }
    assert orders[..i] == orders;
    if ids == {} {
      r := seq(|orders|, k requires 0 <= k < |orders| => orders[k].(drugs := Some(DrugsOf(orders[k]))));
      return;
    }
    var lookup := CatalogLookup(catalog, ids);
    r := seq(|orders|, k requires 0 <= k < |orders| =>
      orders[k].(drugs := Some(seq(|DrugsOf(orders[k])|, n requires 0 <= n < |DrugsOf(orders[k])| =>
        DrugsOf(orders[k])[n].(name := Some(LookupName(DrugsOf(orders[k])[n], lookup)))))));
    forall k | 0 <= k < |orders| ensures r[k] == Enriched(orders, catalog)[k] {
      var ds := DrugsOf(orders[k]);
      var es := EnrichLines(ds, catalog);
      assert r[k].drugs.value == es by {
        forall n | 0 <= n < |ds| ensures LookupName(ds[n], lookup) == EnrichedName(ds[n], catalog) {
          DrugIdOfLine(orders, k, n);
          NoEmptyDrugId(orders);
        }
      }
      assert Enriched(orders, catalog)[k] == orders[k].(drugs := Some(es));
    }
  }
}
