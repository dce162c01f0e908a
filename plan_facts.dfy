/** What the plan of process_series promises, row by row and over the
    whole series (csv-uploader.py:574-646). */
module PlanFacts {
  import opened Dicts
  import opened Rows
  import opened Normalise
  import opened Metafields
  import opened Remote
  import opened Reconcile

  /** The variant a row's cost and metafields are sent for: the listed
      variant with its SKU, else the created one when it came back with an
      id; none for a row without a SKU or whose creation failed. */
  function Target(existing: Dict<string, Variant>, item: Row, first: PostResult, second: PostResult): Option<Variant>
  {
    if RowSku(item) == "" then None
    else match Lookup(existing, RowSku(item))
      case Some(v) => Some(v)
      case None =>
        match PostOutcome(first, second)
        case Some(v) => if v.id != 0 then Some(v) else None
        case None => None
  }

  /** A row without a SKU sends nothing (csv-uploader.py:584-589). */
  lemma RowWithoutSku(cfg: Config, existing: Dict<string, Variant>, productId: nat, item: Row,
                      first: PostResult, second: PostResult)
    requires RowSku(item) == ""
    ensures RowActions(cfg, existing, productId, item, first, second) == []
    ensures Target(existing, item, first, second) == None
  {
  }

  /** The follow-up requests hold only cost updates and metafield sets. */
  lemma FollowUpKinds(cfg: Config, v: Variant, cost: string, item: Row)
    ensures forall a :: a in FollowUp(cfg, v, cost, item) ==> a.UpdateCost? || a.SetMetafields?
  {
  }

  /** A row whose SKU is listed updates that variant first, at the floored
      price, and never creates one (csv-uploader.py:602-614). */
  lemma RowForListedSku(cfg: Config, existing: Dict<string, Variant>, productId: nat, item: Row,
                        first: PostResult, second: PostResult)
    requires RowSku(item) != "" && Lookup(existing, RowSku(item)).Some?
    ensures var actions := RowActions(cfg, existing, productId, item, first, second);
      && actions != []
      && actions[0] == UpdateVariant(Lookup(existing, RowSku(item)).value.id, PriceFloor(RowCost(cfg, item)))
      && forall k :: 1 <= k < |actions| ==> actions[k].UpdateCost? || actions[k].SetMetafields?
  {
    var actions := RowActions(cfg, existing, productId, item, first, second);
    var v := Lookup(existing, RowSku(item)).value;
    var price := PriceFloor(RowCost(cfg, item));
    var rest := FollowUp(cfg, v, CleanCost(RowCost(cfg, item)), item);
    assert actions == [UpdateVariant(v.id, price)] + rest;
    FollowUpKinds(cfg, v, CleanCost(RowCost(cfg, item)), item);
    UpdateThenRest(actions, UpdateVariant(v.id, price), rest);
  }

  /** One update followed by update-cost and metafield requests. */
  lemma UpdateThenRest(actions: seq<Action>, update: Action, rest: seq<Action>)
    requires actions == [update] + rest
    requires forall a :: a in rest ==> a.UpdateCost? || a.SetMetafields?
    ensures actions != [] && actions[0] == update
    ensures forall k :: 1 <= k < |actions| ==> actions[k].UpdateCost? || actions[k].SetMetafields?
  {
    forall k | 1 <= k < |actions| ensures actions[k].UpdateCost? || actions[k].SetMetafields? {
      assert actions[k] == rest[k - 1];
    }
  }

  /** A row whose SKU is not listed creates a variant first, at the floored
      price; it posts a second time exactly when the first post failed for
      the rate limit, never posts a third time and never updates a variant
      (csv-uploader.py:615-630, 302-319). */
  lemma RowForNewSku(cfg: Config, existing: Dict<string, Variant>, productId: nat, item: Row,
                     first: PostResult, second: PostResult)
    requires RowSku(item) != "" && Lookup(existing, RowSku(item)).None?
    ensures var actions := RowActions(cfg, existing, productId, item, first, second);
      && actions != []
      && actions[0] == CreateVariant(productId, RowSku(item), PriceFloor(RowCost(cfg, item)))
      && (|actions| > 1 && actions[1].CreateVariant? <==> first.Failed? && IsRateLimited(first.message))
      && (forall k :: 1 <= k < |actions| && actions[k].CreateVariant? ==> actions[k] == actions[0])
      && (forall k :: 2 <= k < |actions| ==> actions[k].UpdateCost? || actions[k].SetMetafields?)
      && forall a :: a in actions ==> !a.UpdateVariant?
  {
    var actions := RowActions(cfg, existing, productId, item, first, second);
    var price := PriceFloor(RowCost(cfg, item));
    var posts := Attempts(productId, RowSku(item), price, first);
    PriceCheckKeepsFloor(RowCost(cfg, item));
    var rest :=
      match PostOutcome(first, second)
      case Some(v) => if v.id != 0 then FollowUp(cfg, v, CleanCost(RowCost(cfg, item)), item) else []
      case None => [];
    assert actions == posts + rest;
    forall a | a in rest ensures a.UpdateCost? || a.SetMetafields? {
      match PostOutcome(first, second)
      case Some(v) => FollowUpKinds(cfg, v, CleanCost(RowCost(cfg, item)), item);
      case None =>
    }
    PostsThenRest(actions, posts, rest, CreateVariant(productId, RowSku(item), price),
                  first.Failed? && IsRateLimited(first.message));
  }

  /** One or two copies of a post (two exactly on a retry), followed by
      update-cost and metafield requests. */
  lemma PostsThenRest(actions: seq<Action>, posts: seq<Action>, rest: seq<Action>, post: Action, retried: bool)
    requires actions == posts + rest && post.CreateVariant?
    requires 1 <= |posts| <= 2 && (|posts| == 2 <==> retried)
    requires forall a :: a in posts ==> a == post
    requires forall a :: a in rest ==> a.UpdateCost? || a.SetMetafields?
    ensures actions != [] && actions[0] == post
    ensures |actions| > 1 && actions[1].CreateVariant? <==> retried
    ensures forall k :: 1 <= k < |actions| && actions[k].CreateVariant? ==> actions[k] == actions[0]
    ensures forall k :: 2 <= k < |actions| ==> actions[k].UpdateCost? || actions[k].SetMetafields?
    ensures forall a :: a in actions ==> !a.UpdateVariant?
  {
    assert posts[0] in posts;
    forall k | |posts| <= k < |actions| ensures actions[k].UpdateCost? || actions[k].SetMetafields? {
      assert actions[k] == rest[k - |posts|];
    }
    forall k | 0 <= k < |posts| ensures actions[k] == post {
      assert posts[k] in posts;
    }
    forall a | a in actions ensures !a.UpdateVariant? {
      assert a in posts || a in rest;
    }
    if |actions| > 1 && !retried {
      assert actions[1] == rest[0];
    }
  }

  /** The first requests of a row with a SKU: the update of the listed
      variant, or the posts of a new one. */
  function Head(existing: Dict<string, Variant>, productId: nat, item: Row, price: string, first: PostResult): seq<Action>
  {
    match Lookup(existing, RowSku(item))
    case Some(v) => UpdateVariantRequest(v.id, price)
    case None => Attempts(productId, RowSku(item), price, first)
  }

  /** The head requests only update or post variants. */
  lemma HeadKinds(existing: Dict<string, Variant>, productId: nat, item: Row, price: string, first: PostResult)
    ensures forall a :: a in Head(existing, productId, item, price, first) ==> a.UpdateVariant? || a.CreateVariant?
    ensures Lookup(existing, RowSku(item)).None? ==>
      forall a :: a in Head(existing, productId, item, price, first) ==>
        a == CreateVariant(productId, RowSku(item), PriceCheck(price))
    ensures Lookup(existing, RowSku(item)).Some? ==>
      forall a :: a in Head(existing, productId, item, price, first) ==>
        a.UpdateVariant? && a.variantId == Lookup(existing, RowSku(item)).value.id
  {
  }

  /** A row with a target variant sends its head requests, then the
      follow-up for that variant; a row without one sends at most its posts. */
  lemma RowShape(cfg: Config, existing: Dict<string, Variant>, productId: nat, item: Row,
                 first: PostResult, second: PostResult)
    ensures var actions := RowActions(cfg, existing, productId, item, first, second);
      var target := Target(existing, item, first, second);
      var price := PriceFloor(RowCost(cfg, item));
      && (target.Some? ==>
            actions == Head(existing, productId, item, price, first) +
              FollowUp(cfg, target.value, CleanCost(RowCost(cfg, item)), item))
      && (target.None? ==> forall a :: a in actions ==> a.CreateVariant?)
      && (RowSku(item) != "" && target.None? ==> actions == Head(existing, productId, item, price, first))
      && forall a :: a in Head(existing, productId, item, price, first) ==> a.UpdateVariant? || a.CreateVariant?
  {
    var actions := RowActions(cfg, existing, productId, item, first, second);
    var price := PriceFloor(RowCost(cfg, item));
    var cost := CleanCost(RowCost(cfg, item));
    var sku := RowSku(item);
    var head := Head(existing, productId, item, price, first);
    HeadKinds(existing, productId, item, price, first);
    if sku != "" {
      match Lookup(existing, sku)
      case Some(v) =>
        assert actions == head + FollowUp(cfg, v, cost, item);
      case None =>
        match PostOutcome(first, second)
        case Some(v) =>
          if v.id != 0 {
            assert actions == head + FollowUp(cfg, v, cost, item);
          } else {
            assert actions == head + [];
          }
        case None =>
          assert actions == head + [];
    }
  }

  /** After requests that only update or post variants, the follow-up
      holds the only cost update, for the variant's inventory item. */
  lemma CostAfterHead(head: seq<Action>, cfg: Config, v: Variant, cost: string, item: Row)
    requires forall a :: a in head ==> a.UpdateVariant? || a.CreateVariant?
    ensures var actions := head + FollowUp(cfg, v, cost, item);
      && ((exists a :: a in actions && a.UpdateCost?) <==> ParsesPositive(cost) && v.inventoryItemId != 0)
      && forall a :: a in actions && a.UpdateCost? ==> a == UpdateCost(v.inventoryItemId, cost)
  {
    var costs := CostStep(cost, v.inventoryItemId);
    var sets := MetafieldStep(cfg, v.id, item);
    assert head + FollowUp(cfg, v, cost, item) == head + costs + sets;
    if ParsesPositive(cost) && v.inventoryItemId != 0 {
      assert costs[0] in head + costs + sets;
    }
  }

  /** After requests that only update or post variants, the follow-up
      holds the only metafield set, for the variant and the row's map. */
  lemma MetafieldsAfterHead(head: seq<Action>, cfg: Config, v: Variant, cost: string, item: Row)
    requires forall a :: a in head ==> a.UpdateVariant? || a.CreateVariant?
    ensures var actions := head + FollowUp(cfg, v, cost, item);
      && ((exists a :: a in actions && a.SetMetafields?) <==> MetafieldMap(cfg.costColumn, item) != [])
      && forall a :: a in actions && a.SetMetafields? ==>
           a == SetMetafields(v.id, InputsFor(cfg.namespace, MetafieldMap(cfg.costColumn, item)))
  {
    var costs := CostStep(cost, v.inventoryItemId);
    var sets := MetafieldStep(cfg, v.id, item);
    assert head + FollowUp(cfg, v, cost, item) == head + costs + sets;
    if MetafieldMap(cfg.costColumn, item) != [] {
      assert sets[0] in head + costs + sets;
    }
  }

  /** A row sends a cost update exactly when it has a target variant with
      an inventory item and its cleaned cost is a positive number, and then
      sends that cost for that item (csv-uploader.py:610-611, 627-628). */
  lemma RowCostUpdate(cfg: Config, existing: Dict<string, Variant>, productId: nat, item: Row,
                      first: PostResult, second: PostResult)
    ensures var actions := RowActions(cfg, existing, productId, item, first, second);
      var target := Target(existing, item, first, second);
      var cost := CleanCost(RowCost(cfg, item));
      && ((exists a :: a in actions && a.UpdateCost?) <==>
            target.Some? && ParsesPositive(cost) && target.value.inventoryItemId != 0)
      && forall a :: a in actions && a.UpdateCost? ==>
            target.Some? && a == UpdateCost(target.value.inventoryItemId, cost)
  {
    var target := Target(existing, item, first, second);
    RowShape(cfg, existing, productId, item, first, second);
    if target.Some? {
      var price := PriceFloor(RowCost(cfg, item));
      CostAfterHead(Head(existing, productId, item, price, first), cfg, target.value, CleanCost(RowCost(cfg, item)), item);
    }
  }

  /** A row sets metafields exactly when it has a target variant and a
      non-empty metafield map, and then sets on that variant one input per
      map entry, with the entry's key and value (csv-uploader.py:632-644,
      398-406). */
  lemma RowMetafields(cfg: Config, existing: Dict<string, Variant>, productId: nat, item: Row,
                      first: PostResult, second: PostResult)
    ensures var actions := RowActions(cfg, existing, productId, item, first, second);
      var target := Target(existing, item, first, second);
      var metafields := MetafieldMap(cfg.costColumn, item);
      && ((exists a :: a in actions && a.SetMetafields?) <==> target.Some? && metafields != [])
      && forall a :: a in actions && a.SetMetafields? ==>
            && target.Some? && a.variantId == target.value.id
            && a.inputs == InputsFor(cfg.namespace, metafields)
            && |a.inputs| == |metafields|
            && forall j :: 0 <= j < |metafields| ==>
                 a.inputs[j] == MetafieldInput(cfg.namespace, metafields[j].0, metafields[j].1)
  {
    var target := Target(existing, item, first, second);
    RowInputs(cfg.namespace, cfg.costColumn, item);
    RowShape(cfg, existing, productId, item, first, second);
    if target.Some? {
      var price := PriceFloor(RowCost(cfg, item));
      MetafieldsAfterHead(Head(existing, productId, item, price, first), cfg, target.value, CleanCost(RowCost(cfg, item)), item);
    }
  }

  /** The dry run reports, for every row, the very metafield map the real
      run sends for it (csv-uploader.py:533-539 and 634-640). */
  lemma DryRunMatchesRun(cfg: Config, existing: Dict<string, Variant>, productId: nat, items: seq<Row>,
                         posts: (nat, nat) -> PostResult, i: nat, a: Action)
    requires i < |items|
    requires a in RowActions(cfg, existing, productId, items[i], posts(i, 0), posts(i, 1)) && a.SetMetafields?
    ensures a.inputs == InputsFor(cfg.namespace, DryReport(cfg, items)[i].metafields)
  {
    RowMetafields(cfg, existing, productId, items[i], posts(i, 0), posts(i, 1));
  }

  /** Every request of the row loop comes from one row. */
  lemma {:induction false} ConcatMember(items: seq<Row>, plan: (nat, Row) -> seq<Action>, a: Action)
    ensures a in Concat(items, plan) <==> exists i :: 0 <= i < |items| && a in plan(i, items[i])
  {
    if items != [] {
      var n := |items| - 1;
      ConcatMember(items[..n], plan, a);
      if a in Concat(items[..n], plan) {
        var i :| 0 <= i < n && a in plan(i, items[..n][i]);
        assert items[..n][i] == items[i];
      }
      if exists i :: 0 <= i < |items| && a in plan(i, items[i]) {
        var i :| 0 <= i < |items| && a in plan(i, items[i]);
        if i < n {
          assert items[..n][i] == items[i];
        }
      }
    }
  }

  lemma RowsActionsMember(cfg: Config, existing: Dict<string, Variant>, productId: nat,
                          items: seq<Row>, posts: (nat, nat) -> PostResult, a: Action)
    requires a in RowsActions(cfg, existing, productId, items, posts)
    ensures exists i :: 0 <= i < |items| && a in RowActions(cfg, existing, productId, items[i], posts(i, 0), posts(i, 1))
  {
    var plan := RowPlan(cfg, existing, productId, posts);
    ConcatMember(items, plan, a);
    var i :| 0 <= i < |items| && a in plan(i, items[i]);
    assert plan(i, items[i]) == RowActions(cfg, existing, productId, items[i], posts(i, 0), posts(i, 1));
  }

  /** A SKU some listed variant has is in the SKU map. */
  lemma {:induction false} SkuMapPresent(variants: seq<Variant>, v: Variant)
    requires v in variants && v.sku != ""
    ensures Lookup(SkuMap(variants), v.sku).Some?
  {
    var init := variants[..|variants| - 1];
    var last := variants[|variants| - 1];
    if last.sku != v.sku {
      assert v in init by {
        var i :| 0 <= i < |variants| && variants[i] == v;
        assert i < |init| && init[i] == v;
      }
      SkuMapPresent(init, v);
    }
  }

  /** A post of a row is for the row's SKU when it is not listed; an
      update of a row is of the listed variant with the row's SKU. */
  lemma RowActionKinds(cfg: Config, existing: Dict<string, Variant>, productId: nat, item: Row,
                       first: PostResult, second: PostResult, a: Action)
    requires a in RowActions(cfg, existing, productId, item, first, second)
    ensures a.CreateVariant? ==>
      RowSku(item) != "" && Lookup(existing, RowSku(item)).None? && a.sku == RowSku(item) && a.productId == productId
    ensures a.UpdateVariant? ==>
      RowSku(item) != "" && Lookup(existing, RowSku(item)).Some? && a.variantId == Lookup(existing, RowSku(item)).value.id
  {
    var actions := RowActions(cfg, existing, productId, item, first, second);
    var sku := RowSku(item);
    var price := PriceFloor(RowCost(cfg, item));
    var target := Target(existing, item, first, second);
    var head := Head(existing, productId, item, price, first);
    if sku == "" {
      RowWithoutSku(cfg, existing, productId, item, first, second);
      assert false;
    }
    RowShape(cfg, existing, productId, item, first, second);
    HeadKinds(existing, productId, item, price, first);
    var rest := if target.Some? then FollowUp(cfg, target.value, CleanCost(RowCost(cfg, item)), item) else [];
    if target.Some? {
      FollowUpKinds(cfg, target.value, CleanCost(RowCost(cfg, item)), item);
    }
    assert actions == head + rest;
    KindsFromParts(a, head, rest, Lookup(existing, sku), productId, sku, PriceCheck(price));
  }

  /** An action of a head followed by update-cost and metafield requests is
      a variant update exactly when the SKU is listed, and a post otherwise. */
  lemma KindsFromParts(a: Action, head: seq<Action>, rest: seq<Action>, listed: Option<Variant>,
                       productId: nat, sku: string, price: string)
    requires a in head + rest
    requires forall x :: x in rest ==> x.UpdateCost? || x.SetMetafields?
    requires forall x :: x in head ==> x.UpdateVariant? || x.CreateVariant?
    requires listed.None? ==> forall x :: x in head ==> x == CreateVariant(productId, sku, price)
    requires listed.Some? ==> forall x :: x in head ==> x.UpdateVariant? && x.variantId == listed.value.id
    ensures a.CreateVariant? ==> listed.None? && a.sku == sku && a.productId == productId
    ensures a.UpdateVariant? ==> listed.Some? && a.variantId == listed.value.id
  {
    assert a in head || a in rest;
  }

  /** Every variant the series posts belongs to the product, has the SKU
      of one of its rows, and a SKU no listed variant has. */
  lemma CreateIsNew(cfg: Config, variants: seq<Variant>, productId: nat, items: seq<Row>,
                    posts: (nat, nat) -> PostResult, a: Action)
    requires a in RowsActions(cfg, SkuMap(variants), productId, items, posts) && a.CreateVariant?
    ensures a.productId == productId && a.sku != "" && RowsWith(items, a.sku) > 0
    ensures forall v :: v in variants ==> v.sku != a.sku
  {
    var existing := SkuMap(variants);
    RowsActionsMember(cfg, existing, productId, items, posts, a);
    var i :| 0 <= i < |items| && a in RowActions(cfg, existing, productId, items[i], posts(i, 0), posts(i, 1));
    RowActionKinds(cfg, existing, productId, items[i], posts(i, 0), posts(i, 1), a);
    CountOne(items, HasSku(a.sku), i);
    forall v | v in variants ensures v.sku != a.sku {
      if v.sku == a.sku {
        SkuMapPresent(variants, v);
      }
    }
  }

  /** Every variant the series updates is a listed variant of the product
      with the SKU of one of its rows. */
  lemma UpdateIsListed(cfg: Config, variants: seq<Variant>, productId: nat, items: seq<Row>,
                       posts: (nat, nat) -> PostResult, a: Action)
    requires a in RowsActions(cfg, SkuMap(variants), productId, items, posts) && a.UpdateVariant?
    ensures exists v :: v in variants && v.id == a.variantId && v.sku != "" && RowsWith(items, v.sku) > 0
  {
    var existing := SkuMap(variants);
    RowsActionsMember(cfg, existing, productId, items, posts, a);
    var i :| 0 <= i < |items| && a in RowActions(cfg, existing, productId, items[i], posts(i, 0), posts(i, 1));
    RowActionKinds(cfg, existing, productId, items[i], posts(i, 0), posts(i, 1), a);
    var sku := RowSku(items[i]);
    SkuMapSound(variants, sku);
    CountOne(items, HasSku(sku), i);
    var v := Lookup(existing, sku).value;
    assert v in variants && v.id == a.variantId && v.sku == sku;
  }

  /** When every row's SKU is empty or listed, the series creates no
      variant. */
  lemma NoCreatesWhenAllListed(cfg: Config, variants: seq<Variant>, productId: nat, items: seq<Row>,
                               posts: (nat, nat) -> PostResult)
    requires forall i :: 0 <= i < |items| ==>
      RowSku(items[i]) == "" || exists v :: v in variants && v.sku == RowSku(items[i])
    ensures forall a :: a in RowsActions(cfg, SkuMap(variants), productId, items, posts) ==> !a.CreateVariant?
  {
    forall a | a in RowsActions(cfg, SkuMap(variants), productId, items, posts) && a.CreateVariant?
      ensures false
    {
      CreateIsNew(cfg, variants, productId, items, posts, a);
      var i := CountWitness(items, HasSku(a.sku));
    }
  }

  /** A request is a variant post for `sku`. */
  function PostOf(sku: string): Action -> bool
  {
    (a: Action) => a.CreateVariant? && a.sku == sku
  }

  /** The number of variant posts for `sku` in `actions`. */
  function CreatesOf(actions: seq<Action>, sku: string): nat
  {
    Count(actions, PostOf(sku))
  }

  /** A row has SKU `sku`. */
  function HasSku(sku: string): Row -> bool
  {
    (item: Row) => RowSku(item) == sku
  }

  /** The number of rows whose SKU is `sku`. */
  function RowsWith(items: seq<Row>, sku: string): nat
  {
    Count(items, HasSku(sku))
  }

  /** The posts one row makes for `sku`: none unless the row has that SKU
      and it is not listed; then one, or two after a rate-limit failure. */
  lemma RowCreates(cfg: Config, existing: Dict<string, Variant>, productId: nat, item: Row,
                   first: PostResult, second: PostResult, sku: string)
    requires sku != ""
    ensures var n := CreatesOf(RowActions(cfg, existing, productId, item, first, second), sku);
      && (RowSku(item) != sku || Lookup(existing, sku).Some? ==> n == 0)
      && (RowSku(item) == sku && Lookup(existing, sku).None? ==>
            n == (if first.Failed? && IsRateLimited(first.message) then 2 else 1))
  {
    var actions := RowActions(cfg, existing, productId, item, first, second);
    var target := Target(existing, item, first, second);
    var price := PriceFloor(RowCost(cfg, item));
    var head := Head(existing, productId, item, price, first);
    RowShape(cfg, existing, productId, item, first, second);
    if RowSku(item) == "" {
      CountNone(actions, PostOf(sku));
    } else {
      var tail := if target.Some? then FollowUp(cfg, target.value, CleanCost(RowCost(cfg, item)), item) else [];
      assert actions == head + tail;
      if target.Some? {
        FollowUpKinds(cfg, target.value, CleanCost(RowCost(cfg, item)), item);
      }
      CountNone(tail, PostOf(sku));
      CountConcat(head, tail, PostOf(sku));
      if RowSku(item) == sku && Lookup(existing, sku).None? {
        CountAll(head, PostOf(sku));
      } else {
        CountNone(head, PostOf(sku));
      }
    }
  }

  /** Over a series, a listed SKU is never posted, and an unlisted one is
      posted at least once and at most twice for every row that has it:
      the SKU map is not updated as variants are created, so rows repeating
      a new SKU each post it again (csv-uploader.py:574-578, 616-619). */
  lemma {:induction false} SeriesCreates(cfg: Config, existing: Dict<string, Variant>, productId: nat,
                                         items: seq<Row>, posts: (nat, nat) -> PostResult, sku: string)
    requires sku != ""
    ensures var n := CreatesOf(RowsActions(cfg, existing, productId, items, posts), sku);
      && (Lookup(existing, sku).Some? ==> n == 0)
      && (Lookup(existing, sku).None? ==> RowsWith(items, sku) <= n <= 2 * RowsWith(items, sku))
  {
    if items != [] {
      var n := |items| - 1;
      var plan := RowPlan(cfg, existing, productId, posts);
      SeriesCreates(cfg, existing, productId, items[..n], posts, sku);
      RowCreates(cfg, existing, productId, items[n], posts(n, 0), posts(n, 1), sku);
      assert plan(n, items[n]) == RowActions(cfg, existing, productId, items[n], posts(n, 0), posts(n, 1));
      CountConcat(Concat(items[..n], plan), plan(n, items[n]), PostOf(sku));
    }
  }

  /** Two rows of a series with the same SKU that no listed variant has
      both post a variant: the series posts that SKU at least twice. */
  lemma DuplicateSkusBothCreate(cfg: Config, variants: seq<Variant>, productId: nat, items: seq<Row>,
                                posts: (nat, nat) -> PostResult, i: nat, j: nat)
    requires i < j < |items| && RowSku(items[i]) == RowSku(items[j]) != ""
    requires forall v :: v in variants ==> v.sku != RowSku(items[i])
    ensures CreatesOf(RowsActions(cfg, SkuMap(variants), productId, items, posts), RowSku(items[i])) >= 2
  {
    var sku := RowSku(items[i]);
    SkuMapAbsent(variants, sku);
    CountTwo(items, HasSku(sku), i, j);
    SeriesCreates(cfg, SkuMap(variants), productId, items, posts, sku);
  }
}
