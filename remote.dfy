/** The store as the uploader sees it: variants and products as the REST
    responses describe them, the changes it asks the store to make, and the
    calls whose decisions are local — the default-variant deletions of
    create_product and cleanup_existing_product, the existing-SKU map, and
    create_variant's single retry.

    An id is a natural number, 0 standing for an id that is missing or
    falsy in the response; a SKU or title that is missing is "". */
module Remote {
  import opened Text
  import opened Dicts
  import opened Normalise
  import opened Metafields

  datatype Variant = Variant(id: nat, sku: string, title: string, inventoryItemId: nat)

  datatype Product = Product(id: nat, variants: seq<Variant>)

  /** The answer to a variant POST: the response's "variant" (None when the
      response has none), or the text of the error the call raised. */
  datatype PostResult = Posted(variant: Option<Variant>) | Failed(message: string)

  /** A request that changes the store, in the order the uploader sends them. */
  datatype Action =
    | CreateProduct(title: string, handle: string, optionName: string, optionValues: seq<string>)
    | DeleteVariant(variantId: nat)
    | SetOptions(productId: nat, optionName: string, optionValues: seq<string>)
    | UpdateVariant(variantId: nat, price: string)
    | CreateVariant(productId: nat, sku: string, price: string)
    | UpdateCost(inventoryItemId: nat, cost: string)
    | SetMetafields(variantId: nat, inputs: seq<MetafieldInput>)

  /** The option value create_product starts a product with (csv-uploader.py:212). */
  const CreatedOptionValue := "Variant"

  /** The option value cleanup_existing_product resets the options to (csv-uploader.py:261). */
  const ResetOptionValue := "Default"

  const DefaultTitle := "Default Title"

  /** The variants create_product deletes after creating the product
      (csv-uploader.py:229-232): those without a SKU. */
  predicate DeletedAfterCreate(v: Variant)
  {
    v.sku == ""
  }

  /** The variants cleanup_existing_product deletes (csv-uploader.py:248-252):
      those without a SKU, with a blank SKU, or titled "Default Title". */
  predicate DeletedAtCleanup(v: Variant)
  {
    v.sku == "" || Strip(v.sku) == "" || v.title == DefaultTitle
  }

  /** The deletions for `variants` under `deleted`, in list order. */
  function Deletions(variants: seq<Variant>, deleted: Variant -> bool): seq<Action>
  {
    if variants == [] then []
    else
      var init := Deletions(variants[..|variants| - 1], deleted);
      var v := variants[|variants| - 1];
      if deleted(v) then init + [DeleteVariant(v.id)] else init
  }

  /** The deletion loops of csv-uploader.py:229-232 and 248-252. */
  method DeleteDefaults(variants: seq<Variant>, deleted: Variant -> bool) returns (actions: seq<Action>)
    ensures actions == Deletions(variants, deleted)
  {
    actions := [];
    for i := 0 to |variants|
      invariant actions == Deletions(variants[..i], deleted)
    {
      assert variants[..i + 1][..i] == variants[..i];
      assert variants[..i + 1][i] == variants[i];
      if deleted(variants[i]) {
        actions := actions + [DeleteVariant(variants[i].id)];
      }
    }
    assert variants[..|variants|] == variants;
  }

  /** Every deletion is of a listed variant that `deleted` selects, and every
      such variant is deleted. */
  lemma {:induction false} DeletionsExact(variants: seq<Variant>, deleted: Variant -> bool)
    ensures forall a :: a in Deletions(variants, deleted) ==>
      a.DeleteVariant? && exists v :: v in variants && deleted(v) && a.variantId == v.id
    ensures forall v :: v in variants && deleted(v) ==> DeleteVariant(v.id) in Deletions(variants, deleted)
  {
    if variants != [] {
      var init := variants[..|variants| - 1];
      DeletionsExact(init, deleted);
      assert forall v :: v in init ==> v in variants;
      assert forall v :: v in variants ==> v in init || v == variants[|variants| - 1];
    }
  }

  /** The cleanup of an existing product deletes at least what the creation
      of a new one deletes. */
  lemma CleanupCoversCreate(v: Variant)
    ensures DeletedAfterCreate(v) ==> DeletedAtCleanup(v)
  {
  }

  /** A variant with a real SKU is never deleted after creation; at cleanup
      it is kept unless it is titled "Default Title". */
  lemma SkuVariantsKept(v: Variant)
    requires Strip(v.sku) != ""
    ensures !DeletedAfterCreate(v)
    ensures DeletedAtCleanup(v) <==> v.title == DefaultTitle
  {
  }

  /** The existing-SKU map of csv-uploader.py:574-578: each non-empty SKU to
      the last listed variant with that SKU. */
  function SkuMap(variants: seq<Variant>): Dict<string, Variant>
  {
    if variants == [] then []
    else
      var m := SkuMap(variants[..|variants| - 1]);
      var v := variants[|variants| - 1];
      if v.sku != "" then Put(m, v.sku, v) else m
  }

  /** The loop of csv-uploader.py:574-578. */
  method ExistingSkus(product: Product) returns (existing: Dict<string, Variant>)
    ensures existing == SkuMap(product.variants)
  {
    existing := [];
    var variants := product.variants;
    for i := 0 to |variants|
      invariant existing == SkuMap(variants[..i])
    {
      assert variants[..i + 1][..i] == variants[..i];
      assert variants[..i + 1][i] == variants[i];
      if variants[i].sku != "" {
        existing := Put(existing, variants[i].sku, variants[i]);
      }
    }
    assert variants[..|variants|] == variants;
  }

  /** An empty SKU, or one no listed variant has, is not in the map. */
  lemma {:induction false} SkuMapAbsent(variants: seq<Variant>, sku: string)
    requires sku == "" || forall i :: 0 <= i < |variants| ==> variants[i].sku != sku
    ensures Lookup(SkuMap(variants), sku) == None
  {
    if variants != [] {
      var init := variants[..|variants| - 1];
      assert forall i :: 0 <= i < |init| ==> init[i] == variants[i];
      SkuMapAbsent(init, sku);
    }
  }

  /** A non-empty SKU maps to the last variant listed with it. */
  lemma {:induction false} SkuMapLast(variants: seq<Variant>, i: nat)
    requires i < |variants| && variants[i].sku != ""
    requires forall j :: i < j < |variants| ==> variants[j].sku != variants[i].sku
    ensures Lookup(SkuMap(variants), variants[i].sku) == Some(variants[i])
    decreases |variants|, 1
  {
    if i < |variants| - 1 {
      SkuMapEarlier(variants, i);
    } else {
      assert SkuMap(variants) == Put(SkuMap(variants[..i]), variants[i].sku, variants[i]);
    }
  }

  lemma {:induction false} SkuMapEarlier(variants: seq<Variant>, i: nat)
    requires i < |variants| - 1 && variants[i].sku != ""
    requires forall j :: i < j < |variants| ==> variants[j].sku != variants[i].sku
    ensures Lookup(SkuMap(variants), variants[i].sku) == Some(variants[i])
    decreases |variants|, 0
  {
    var init := variants[..|variants| - 1];
    assert init[i] == variants[i];
    assert forall j :: i < j < |init| ==> init[j] == variants[j];
    SkuMapLast(init, i);
    assert variants[|variants| - 1].sku != variants[i].sku;
  }

  /** A variant found in the map is a listed variant with the SKU it is found under. */
  lemma {:induction false} SkuMapSound(variants: seq<Variant>, sku: string)
    requires Lookup(SkuMap(variants), sku).Some?
    ensures Lookup(SkuMap(variants), sku).value.sku == sku != ""
    ensures Lookup(SkuMap(variants), sku).value in variants
  {
    var init := variants[..|variants| - 1];
    var v := variants[|variants| - 1];
    if v.sku == "" || v.sku != sku {
      assert Lookup(SkuMap(variants), sku) == Lookup(SkuMap(init), sku);
      SkuMapSound(init, sku);
    } else {
      assert Lookup(SkuMap(variants), sku) == Some(v);
    }
  }

  /** create_variant retries when the error text holds "429" or "Exceeded"
      (csv-uploader.py:310). */
  predicate IsRateLimited(message: string)
  {
    Contains(message, "429") || Contains(message, "Exceeded")
  }

  /** The POSTs create_variant sends (csv-uploader.py:302-319): one, and a
      second identical one when the first failed for the rate limit. */
  function Attempts(productId: nat, sku: string, price: string, first: PostResult): (posts: seq<Action>)
    ensures |posts| == 2 <==> first.Failed? && IsRateLimited(first.message)
    ensures 1 <= |posts| <= 2
    ensures forall a :: a in posts ==> a == CreateVariant(productId, sku, PriceCheck(price))
  {
    var post := CreateVariant(productId, sku, PriceCheck(price));
    if first.Failed? && IsRateLimited(first.message) then [post, post] else [post]
  }

  /** The variant create_variant returns, None standing for `{}`. */
  function PostOutcome(first: PostResult, second: PostResult): (variant: Option<Variant>)
    ensures first.Posted? ==> variant == first.variant
    ensures first.Failed? && !IsRateLimited(first.message) ==> variant == None
    ensures first.Failed? && IsRateLimited(first.message) ==>
      variant == (if second.Posted? then second.variant else None)
  {
    match first
    case Posted(v) => v
    case Failed(message) =>
      if IsRateLimited(message) && second.Posted? then second.variant else None
  }

  /** create_variant (csv-uploader.py:272-319): the price goes through the
      price check, then the variant is posted; a failure whose text says
      the rate limit was hit is retried once. The answer is the posted
      variant, or None for the `{}` returned when no attempt succeeded. */
  method CreateVariantCall(productId: nat, sku: string, price: string, first: PostResult, second: PostResult)
    returns (variant: Option<Variant>, attempts: seq<Action>)
    ensures variant == PostOutcome(first, second)
    ensures attempts == Attempts(productId, sku, price, first)
  {
    var checked := PriceCheck(price);
    var post := CreateVariant(productId, sku, checked);
    attempts := [post];
    match first
    case Posted(v) =>
      variant := v;
    case Failed(message) =>
      variant := None;
      if IsRateLimited(message) {
        attempts := attempts + [post];
        if second.Posted? {
          variant := second.variant;
        }
      }
  }

  /** The request update_variant sends (csv-uploader.py:321-348): none for an
      empty price, else the price after the price check. */
  function UpdateVariantRequest(variantId: nat, price: string): (requests: seq<Action>)
    ensures price == "" ==> requests == []
    ensures price != "" ==> |requests| == 1 && requests[0].UpdateVariant? && requests[0].variantId == variantId
    ensures forall a :: a in requests ==> a.UpdateVariant? && ParsesPositive(a.price)
    ensures ParsesPositive(price) ==> requests == [UpdateVariant(variantId, price)]
    ensures price != "" && !ParsesPositive(price) ==> requests == [UpdateVariant(variantId, MinimumPrice)]
  {
    if price == "" then [] else [UpdateVariant(variantId, PriceCheck(price))]
  }

  /** The request update_inventory_cost sends (csv-uploader.py:350-375): the
      cost, only when it is a positive number. */
  function InventoryCostRequest(inventoryItemId: nat, cost: string): (requests: seq<Action>)
    ensures requests != [] <==> ParsesPositive(cost)
    ensures forall a :: a in requests ==> a == UpdateCost(inventoryItemId, cost)
  {
    if ParsesPositive(cost) then [UpdateCost(inventoryItemId, cost)] else []
  }

  /** The request set_variant_metafields sends (csv-uploader.py:377-430): one
      `metafieldsSet` with the inputs built from the map, only when there
      is at least one. */
  function MetafieldsRequest(variantId: nat, namespace: string, metafields: Dict<string, string>): (requests: seq<Action>)
    ensures |requests| <= 1
    ensures forall a :: a in requests ==>
      a == SetMetafields(variantId, InputsFor(namespace, metafields)) && a.inputs != []
    ensures requests == [] <==> InputsFor(namespace, metafields) == []
  {
    var inputs := InputsFor(namespace, metafields);
    if inputs == [] then [] else [SetMetafields(variantId, inputs)]
  }
}
