/** One series reconciled against the store (csv-uploader.py:511-646): the
    requests process_series sends, in order, given the answers the store
    gives to its lookups and posts.

    The store's answers are parameters: the product found by handle, the
    product created, the variant lists fetched after creation and at
    cleanup, the product fetched again after cleanup, and the answer to
    each variant POST, indexed by row and attempt. */
module Reconcile {
  import opened Dicts
  import opened Rows
  import opened Normalise
  import opened Metafields
  import opened Remote

  /** The configuration the uploader reads from its environment
      (csv-uploader.py:13-15). */
  datatype Config = Config(costColumn: string, namespace: string, optionName: string)

  const DefaultConfig := Config("Euros", "procut", "Code")

  /** The store's answers, as described above; None stands for a lookup
      that found nothing or a creation that returned an empty product. */
  datatype Store = Store(
    found: Option<Product>,
    created: Option<Product>,
    variantsAfterCreate: seq<Variant>,
    variantsAtCleanup: seq<Variant>,
    refetched: Option<Product>,
    posts: (nat, nat) -> PostResult)

  /** How process_series ended: skipped for an empty key, stopped by the
      missing first row of an empty group, a dry run, no product created,
      the product not found again after cleanup, or every row processed. */
  datatype Outcome = EmptySeries | NoRows | DryRun | ProductNotCreated | RefetchFailed | Done

  /** What the dry run reports for one row (csv-uploader.py:531-539). */
  datatype DryRow = DryRow(code: string, cost: string, metafields: Dict<string, string>)

  /** The item code of a row, "" when it has none. */
  function RowSku(item: Row): string
  {
    Get(item, ProductCode, "")
  }

  /** The cost cell of a row, "0" when it has none. */
  function RowCost(cfg: Config, item: Row): string
  {
    Get(item, cfg.costColumn, "0")
  }

  /** The product title (csv-uploader.py:521): the first row's name when it
      has a name column, even an empty one, else "Series " and the key. */
  function Title(series: string, first: Row): (title: string)
    ensures ProductName in Keys(first) ==> Lookup(first, ProductName) == Some(title)
    ensures ProductName !in Keys(first) ==> title == "Series " + series
  {
    Get(first, ProductName, "Series " + series)
  }

  /** The dry run's report for each row, in order. */
  function DryReport(cfg: Config, items: seq<Row>): (report: seq<DryRow>)
    ensures |report| == |items|
    ensures forall i :: 0 <= i < |items| ==>
      report[i] == DryRow(RowSku(items[i]), RowCost(cfg, items[i]), MetafieldMap(cfg.costColumn, items[i]))
  {
    if items == [] then []
    else
      var item := items[|items| - 1];
      DryReport(cfg, items[..|items| - 1]) + [DryRow(RowSku(item), RowCost(cfg, item), MetafieldMap(cfg.costColumn, item))]
  }

  /** The deletions create_product makes after creating `created`: only when
      the product has an id (csv-uploader.py:222-232). */
  function CreateCleanup(created: Product, variants: seq<Variant>): (deletions: seq<Action>)
    ensures created.id == 0 ==> deletions == []
    ensures forall a :: a in deletions ==> a.DeleteVariant? && exists v :: v in variants && v.sku == "" && v.id == a.variantId
    ensures created.id != 0 ==> forall v :: v in variants && v.sku == "" ==> DeleteVariant(v.id) in deletions
  {
    DeletionsExact(variants, DeletedAfterCreate);
    if created.id != 0 then Deletions(variants, DeletedAfterCreate) else []
  }

  /** The inventory cost update of a row (csv-uploader.py:610-611 and
      627-628): only for a positive cost and a variant with an inventory item. */
  function CostStep(cost: string, inventoryItemId: nat): (requests: seq<Action>)
    ensures requests != [] <==> ParsesPositive(cost) && inventoryItemId != 0
    ensures forall a :: a in requests ==> a == UpdateCost(inventoryItemId, cost)
  {
    if ParsesPositive(cost) && inventoryItemId != 0 then InventoryCostRequest(inventoryItemId, cost) else []
  }

  /** The metafields of a row, set on `variantId` when the row has any
      (csv-uploader.py:632-644). */
  function MetafieldStep(cfg: Config, variantId: nat, item: Row): (requests: seq<Action>)
    ensures requests != [] <==> MetafieldMap(cfg.costColumn, item) != []
    ensures forall a :: a in requests ==>
      a == SetMetafields(variantId, InputsFor(cfg.namespace, MetafieldMap(cfg.costColumn, item)))
  {
    var metafields := MetafieldMap(cfg.costColumn, item);
    RowInputs(cfg.namespace, cfg.costColumn, item);
    if metafields == [] then [] else MetafieldsRequest(variantId, cfg.namespace, metafields)
  }

  /** The requests that follow the update or creation of a row's variant
      `v`: its cost, then its metafields (csv-uploader.py:610-644). */
  function FollowUp(cfg: Config, v: Variant, cost: string, item: Row): seq<Action>
  {
    CostStep(cost, v.inventoryItemId) + MetafieldStep(cfg, v.id, item)
  }

  /** The requests one row gives rise to (csv-uploader.py:583-646), given the
      existing-SKU map, the product id and the answers to its variant POSTs. */
  function RowActions(cfg: Config, existing: Dict<string, Variant>, productId: nat, item: Row,
                      first: PostResult, second: PostResult): seq<Action>
  {
    var sku := RowSku(item);
    var cost := CleanCost(RowCost(cfg, item));
    var price := PriceFloor(RowCost(cfg, item));
    if sku == "" then []
    else match Lookup(existing, sku)
      case Some(v) => UpdateVariantRequest(v.id, price) + FollowUp(cfg, v, cost, item)
      case None =>
        Attempts(productId, sku, price, first) +
          (match PostOutcome(first, second)
           case Some(v) => if v.id != 0 then FollowUp(cfg, v, cost, item) else []
           case None => [])
  }

  /** The requests after the update or creation of a row's variant
      (csv-uploader.py:610-644). */
  method PlanFollowUp(cfg: Config, v: Variant, cost: string, item: Row) returns (actions: seq<Action>)
    ensures actions == FollowUp(cfg, v, cost, item)
  {
    actions := [];
    if ParsesPositive(cost) && v.inventoryItemId != 0 {
      actions := InventoryCostRequest(v.inventoryItemId, cost);
    }
    var metafields := BuildMetafields(cfg.costColumn, item);
    if metafields != [] {
      var inputs := MetafieldInputs(cfg.namespace, metafields);
      if inputs != [] {
        actions := actions + [SetMetafields(v.id, inputs)];
      }
    }
  }

  /** The body of the row loop of process_series (csv-uploader.py:583-646). */
  method PlanRow(cfg: Config, existing: Dict<string, Variant>, productId: nat, item: Row,
                 first: PostResult, second: PostResult) returns (actions: seq<Action>)
    ensures actions == RowActions(cfg, existing, productId, item, first, second)
  {
    var sku := Get(item, ProductCode, "");
    var rawCost := Get(item, cfg.costColumn, "0");
    if sku == "" {
      return [];
    }
    var cost := CleanCost(rawCost);
    var price := PriceFloor(rawCost);
    var listed := Lookup(existing, sku);
    if listed.Some? {
      actions := UpdateVariantRequest(listed.value.id, price);
      var rest := PlanFollowUp(cfg, listed.value, cost, item);
      actions := actions + rest;
    } else {
      var created, attempts := CreateVariantCall(productId, sku, price, first, second);
      actions := attempts;
      if created.Some? && created.value.id != 0 {
        var rest := PlanFollowUp(cfg, created.value, cost, item);
        actions := actions + rest;
      }
    }
  }

  /** The requests of the rows of `items` in order, row `i` planned by `plan(i, items[i])`. */
  function Concat(items: seq<Row>, plan: (nat, Row) -> seq<Action>): seq<Action>
  {
    if items == [] then []
    else
      var n := |items| - 1;
      Concat(items[..n], plan) + plan(n, items[n])
  }

  /** The plan of row `i`, answered by posts(i, 0) and, on a retry, posts(i, 1). */
  function RowPlan(cfg: Config, existing: Dict<string, Variant>, productId: nat,
                   posts: (nat, nat) -> PostResult): (nat, Row) -> seq<Action>
  {
    (i: nat, item: Row) => RowActions(cfg, existing, productId, item, posts(i, 0), posts(i, 1))
  }

  /** The requests of the rows of `items`. */
  function RowsActions(cfg: Config, existing: Dict<string, Variant>, productId: nat, items: seq<Row>,
                       posts: (nat, nat) -> PostResult): seq<Action>
  {
    Concat(items, RowPlan(cfg, existing, productId, posts))
  }

  /** The row loop of process_series (csv-uploader.py:583-646). */
  method PlanRows(cfg: Config, existing: Dict<string, Variant>, productId: nat, items: seq<Row>,
                  posts: (nat, nat) -> PostResult) returns (actions: seq<Action>)
    ensures actions == RowsActions(cfg, existing, productId, items, posts)
  {
    actions := [];
    ghost var plan := RowPlan(cfg, existing, productId, posts);
    for i := 0 to |items|
      invariant actions == Concat(items[..i], plan)
    {
      assert items[..i + 1][..i] == items[..i];
      var step := PlanRow(cfg, existing, productId, items[i], posts(i, 0), posts(i, 1));
      actions := actions + step;
    }
    assert items[..|items|] == items;
  }

  /** The dry-run loop of process_series (csv-uploader.py:527-547). */
  method DryRunReport(cfg: Config, items: seq<Row>) returns (report: seq<DryRow>)
    ensures report == DryReport(cfg, items)
  {
    report := [];
    for i := 0 to |items|
      invariant report == DryReport(cfg, items[..i])
    {
      assert items[..i + 1][..i] == items[..i];
      var metafields := BuildMetafields(cfg.costColumn, items[i]);
      report := report + [DryRow(Get(items[i], ProductCode, ""), Get(items[i], cfg.costColumn, "0"), metafields)];
    }
    assert items[..|items|] == items;
  }

  /** process_series (csv-uploader.py:511-646). An empty key or an empty
      group sends nothing; the dry run reports every row and sends nothing;
      otherwise the product is created (deleting the variants it came with
      that have no SKU) or cleaned up and fetched again, and every row is
      planned against the SKU map of the product's variants. */
  method ProcessSeries(cfg: Config, series: string, items: seq<Row>, dryRun: bool, store: Store)
    returns (outcome: Outcome, actions: seq<Action>, report: seq<DryRow>)
    ensures series == "" ==> outcome == EmptySeries && actions == [] && report == []
    ensures series != "" && items == [] ==> outcome == NoRows && actions == [] && report == []
    ensures series != "" && items != [] && dryRun ==>
      outcome == DryRun && actions == [] && report == DryReport(cfg, items)
    ensures !dryRun ==> report == []
    ensures series != "" && items != [] && !dryRun && store.found.None? ==>
      var create := CreateProduct(Title(series, items[0]), SeriesHandle(series), cfg.optionName, [CreatedOptionValue]);
      match store.created
      case None => outcome == ProductNotCreated && actions == [create]
      case Some(p) =>
        && outcome == Done
        && actions == [create] + CreateCleanup(p, store.variantsAfterCreate) +
             RowsActions(cfg, SkuMap(p.variants), p.id, items, store.posts)
    ensures series != "" && items != [] && !dryRun && store.found.Some? ==>
      var cleanup := Deletions(store.variantsAtCleanup, DeletedAtCleanup) +
        [SetOptions(store.found.value.id, cfg.optionName, [ResetOptionValue])];
      match store.refetched
      case None => outcome == RefetchFailed && actions == cleanup
      case Some(p) =>
        && outcome == Done
        && actions == cleanup + RowsActions(cfg, SkuMap(p.variants), p.id, items, store.posts)
  {
    actions := [];
    report := [];
    if series == "" {
      return EmptySeries, actions, report;
    }
    var handle := SeriesHandle(series);
    if items == [] {
      return NoRows, actions, report;
    }
    var title := Title(series, items[0]);
    if dryRun {
      report := DryRunReport(cfg, items);
      return DryRun, actions, report;
    }
    var product: Product;
    if store.found.None? {
      actions := [CreateProduct(title, handle, cfg.optionName, [CreatedOptionValue])];
      if store.created.None? {
        return ProductNotCreated, actions, report;
      }
      product := store.created.value;
      if product.id != 0 {
        var deletions := DeleteDefaults(store.variantsAfterCreate, DeletedAfterCreate);
        actions := actions + deletions;
      }
      assert actions == [CreateProduct(title, handle, cfg.optionName, [CreatedOptionValue])] +
        CreateCleanup(product, store.variantsAfterCreate);
    } else {
      var deletions := DeleteDefaults(store.variantsAtCleanup, DeletedAtCleanup);
      actions := deletions + [SetOptions(store.found.value.id, cfg.optionName, [ResetOptionValue])];
      if store.refetched.None? {
        return RefetchFailed, actions, report;
      }
      product := store.refetched.value;
    }
    var existing := ExistingSkus(product);
    var rows := PlanRows(cfg, existing, product.id, items, store.posts);
    actions := actions + rows;
    outcome := Done;
  }
}
