# csv-uploader: the reconciliation core in Dafny

`csv-uploader.py` reads a product sheet and groups its rows into series.
It then reconciles each series against a Shopify store: it finds or creates
the series' product, removes placeholder variants, updates the variants
whose SKU is already listed and creates the others. It also sets each
variant's cost and its metafields.

This project models the logic that decides what is sent. The HTTP calls
are not modelled.

- **Reading the sheet** (`rows.dfy`). Each record is cleaned to stripped
  names and values. Columns with a blank name are dropped. Only rows with
  an item code or a series code are kept. A record with no cell under a
  non-blank column name makes the whole read fail; a missing cell under a
  blank name is dropped with its column.
- **Normalising** (`normalise.dfy`): the product handle, the metafield key,
  the cost-to-price floor and the price check of the variant calls, and the
  numeric id taken from a GID. The string primitives these need (Python's
  `strip`, `lower`, `replace`, `split`) are in `text.dfy`. Python
  dictionaries are insertion-ordered lists of pairs with distinct keys
  (`dicts.dfy`).
- **Grouping** (`grouping.dfy`). `group_by_series` is an imperative loop,
  proved against a first-seen order of keys and the rows of each key. The
  partition facts are proved for any key function.
- **Metafields** (`metafields.dfy`): the map a row gives, and the inputs
  `set_variant_metafields` builds from it.
- **The store's side** (`remote.dfy`):
  - the variants each of the two cleanups deletes;
  - the existing-SKU map;
  - `create_variant` with its single retry;
  - the requests `update_variant`, `update_inventory_cost` and
    `set_variant_metafields` send.
- **process_series** (`reconcile.dfy`). It is a method that turns the series
  key, its rows, the dry-run flag and the store's answers into an outcome,
  the list of requests sent in order, and the dry-run report. The store's
  answers are:
  - the product found by handle;
  - the product created;
  - the variant lists fetched after creation and at cleanup;
  - the product fetched again;
  - one answer per variant POST, indexed by row and attempt.
- **What the plan promises** (`plan_facts.dfy`). It is stated row by row,
  then over the whole series.

Ids are natural numbers; 0 stands for an id that is missing, or a falsy
`inventory_item_id`. A missing SKU or title is "".

Details of the code the model keeps:
- An existing variant's cost is updated whether or not the price update
  succeeded.
- The cost update also needs an `inventory_item_id`.
- The title falls back to "Series <key>" only when the row has no
  `Product Name` column at all. An empty name is kept.
- Cleanup also deletes variants whose SKU is only whitespace.

## Model

| member | source | states |
|---|---|---|
| Text.Strip | csv-uploader.py:472 | the result is no longer than the input and neither starts nor ends with Python whitespace |
| Text.StripTrimmed | csv-uploader.py:472 | the result is the input with a leading and a trailing run of whitespace removed |
| Text.StripIdempotent | csv-uploader.py:472 | stripping twice is stripping once |
| Text.RemoveChar | csv-uploader.py:592 | the character is gone, the result is no longer than the input, and an input without it is unchanged |
| Dicts.Put | csv-uploader.py:578 | assigning a key keeps keys distinct and order of first insertion, maps the key to the new value and leaves every other entry as it was |
| Normalise.SeriesHandle | csv-uploader.py:518 | "series-" then one character per key character, in order |
| Normalise.HandleChars | csv-uploader.py:518 | each key character lower-cased, or turned into `-` when it is `.`, a space or `/`; the length is kept |
| Normalise.SeriesHandleClean | csv-uploader.py:518 | no `.`, space, `/` or upper-case letter remains in a handle |
| Normalise.SeriesHandleIs | csv-uploader.py:518 | the handle is determined by the prefix and the character mapping alone |
| Normalise.SeriesHandleExample | csv-uploader.py:518 | "A 1.b/C" gives "series-a-1-b-c" |
| Normalise.SeriesHandleAgree | csv-uploader.py:518 | keys whose characters map alike share a handle |
| Normalise.SeriesHandleCollision | csv-uploader.py:518 | two different keys ("A.1", "a/1") share one handle |
| Normalise.CleanKey | csv-uploader.py:538 | the metafield key has no upper-case letter, space, `(`, `)` or `-` |
| Normalise.CleanKeyIdempotent | csv-uploader.py:639 | cleaning a cleaned key changes nothing |
| Normalise.CleanKeyIsLower | csv-uploader.py:402 | the extra `lower()` of set_variant_metafields leaves a cleaned key unchanged |
| Normalise.CleanKeyDropsBracket | csv-uploader.py:538 | a `(` anywhere in a name is dropped |
| Normalise.CleanKeySpaceIsUnderscore | csv-uploader.py:538 | a space and an underscore in a name give the same key, so such names collide |
| Normalise.MinimumPriceParses | csv-uploader.py:600 | the fallback price "0.01" is itself a positive number, already stripped and without separators |
| Normalise.CleanCost | csv-uploader.py:592 | the cleaned cost has no `,` and is stripped |
| Normalise.CleanCostIgnoresSeparator | csv-uploader.py:592 | a thousands separator anywhere changes neither the cleaned cost nor the price |
| Normalise.CleanCostPlain | csv-uploader.py:592 | a cost already stripped and without separators is kept as it is |
| Normalise.PriceFloor | csv-uploader.py:591-600 | the price is the cleaned cost exactly when that parses to a positive number, else "0.01"; it always parses positive |
| Normalise.PriceFloorPlain | csv-uploader.py:591-600 | for a plain cost the price is the cost when it is a positive decimal, else "0.01" |
| Normalise.PriceFloorEmpty | csv-uploader.py:596-600 | an empty cost gives "0.01" |
| Normalise.PriceFloorZero | csv-uploader.py:596-600 | "0" gives "0.01" |
| Normalise.PriceFloorNegative | csv-uploader.py:596-600 | "-5" gives "0.01" |
| Normalise.PriceFloorNotANumber | csv-uploader.py:596-600 | "abc" gives "0.01" |
| Normalise.PositiveDecimalExamples | csv-uploader.py:596 | "12.50" and "1250.00" parse to positive numbers |
| Normalise.PriceFloorPositive | csv-uploader.py:600 | "12.50" gives "12.50" |
| Normalise.PriceCheck | csv-uploader.py:280-286 | a price that does not parse positive becomes "0.01"; one that does is kept |
| Normalise.PriceCheckKeepsFloor | csv-uploader.py:331-338 | the check of create_variant and update_variant leaves the floored price unchanged |
| Normalise.VariantGid | csv-uploader.py:633 | the variant GID: "gid://shopify/ProductVariant/" followed by the numeric id |
| Normalise.ParsesPositive | csv-uploader.py:282-286 | `float(s) > 0` without an exception, on the stripped text |
| Normalise.ProductNumericId | csv-uploader.py:275-278 | a GID gives its last path segment: a `/`-free suffix preceded by a `/`; any other id is kept |
| Normalise.ResourceNumericId | csv-uploader.py:324-327 | an id with a `/` gives its last segment: a `/`-free suffix preceded by a `/`; any other id is kept |
| Normalise.NumericIdOfGid | csv-uploader.py:633 | both id extractions recover the numeric id from the variant GID the row loop builds |
| Rows.CleanRow | csv-uploader.py:472 | a record cleaned column by column in order: blank names dropped, names and values stripped, a later name overwriting an earlier one, no row when a kept column has no cell |
| Rows.CleanRows | csv-uploader.py:474-481 | the cleaned rows with a code, in record order, or no rows at all once a record fails |
| Rows.ParsedRows | csv-uploader.py:470-481 | the rows read from the records, the empty list when the read fails |
| Rows.AddColumn | csv-uploader.py:472 | a column with a blank name is skipped; a kept one makes the row fail exactly when its cell is missing |
| Rows.AddColumnWellFormed | csv-uploader.py:472 | assigning a kept column its stripped name and value keeps a well-formed row well formed |
| Rows.CleanRowFails | csv-uploader.py:472 | a record fails exactly when one of its kept columns has no cell |
| Rows.CleanRowWellFormed | csv-uploader.py:472 | a cleaned row has distinct, non-blank, stripped names and stripped values |
| Rows.CleanRowKeys | csv-uploader.py:472 | the cleaned row's names are exactly the stripped names of the kept columns |
| Rows.CleanRowLastWins | csv-uploader.py:472 | when two column names strip alike, the later column's value is kept |
| Rows.ParseRows | csv-uploader.py:470-481 | the loop returns the rows read so far, or none at all once a record fails |
| Rows.FailureSticks | csv-uploader.py:478-480 | a failed record makes the whole read fail |
| Rows.CleanRowsFails | csv-uploader.py:478-480 | the read fails exactly when some record fails |
| Rows.CleanRowsSound | csv-uploader.py:474-475 | every row returned is the cleaning of some record and has an item or series code |
| Rows.CleanRowsComplete | csv-uploader.py:474-475 | every record whose cleaned row has a code is returned |
| Rows.KeptGrows | csv-uploader.py:475 | the rows kept only grow as records are read |
| Rows.ParsedRowsWellFormed | csv-uploader.py:472-475 | every returned row has a code, distinct non-blank stripped names and stripped values |
| Grouping.SeriesKey | csv-uploader.py:491-501 | the series code, else the item code cut at its first `-`, else at its first `/`, else the whole code |
| Grouping.SeriesKeyIs | csv-uploader.py:491-501 | the key is a non-empty series code; otherwise it is the item code up to its first `-` (even after a `/`), else up to its first `/`, else the whole code |
| Grouping.SeriesKeyFromCode | csv-uploader.py:497 | "a-b" with no `-` in a gives a, as "8L.1001-300X3.2Z72" gives "8L.1001" |
| Grouping.SeriesKeyDashFirst | csv-uploader.py:497 | a code starting with `-` gives the empty key |
| Grouping.GroupBySeries | csv-uploader.py:485-509 | the group keys are the non-empty keys in first-seen order, and each group holds exactly its key's rows in their order |
| Grouping.SkippedRow | csv-uploader.py:503-507 | a row without a key leaves the groups exact |
| Grouping.AddedToGroup | csv-uploader.py:503-507 | appending a keyed row to its group, opened first when new, leaves the groups exact |
| Grouping.OpenedGroup | csv-uploader.py:503-504 | opening the group of a new key appends it last with no rows; a seen key changes nothing |
| Grouping.AppendedToGroup | csv-uploader.py:506-507 | appending the row to its key's group keeps key order and gives each group its rows so far |
| Grouping.FirstSeenDistinct | csv-uploader.py:503-504 | group keys are distinct and non-empty |
| Grouping.FirstSeenMembers | csv-uploader.py:503-504 | a key is a group key exactly when it is non-empty and some row has it |
| Grouping.EmptyBeforeFirstSeen | csv-uploader.py:503-504 | a key not yet seen has no rows |
| Grouping.RowsWithKeyComplete | csv-uploader.py:506-507 | every row is in its key's group |
| Grouping.RowsWithKeySound | csv-uploader.py:506-507 | every row of a group has the group's key |
| Grouping.GroupsNonEmpty | csv-uploader.py:503-507 | no group is empty |
| Grouping.GroupedRowsSnoc | csv-uploader.py:503-507 | one more row adds itself once to the groups of distinct keys when its key is among them, and nothing otherwise |
| Grouping.GroupsPartition | csv-uploader.py:485-509 | the groups hold, counted with multiplicity, exactly the rows with a non-empty key |
| Metafields.MetafieldMap | csv-uploader.py:636-640 | the columns of a row with a non-blank value and a non-reserved name, keyed by the cleaned name and valued by the stripped value, later columns overwriting |
| Metafields.InputsFor | csv-uploader.py:396-406 | one input per entry with a non-blank value, in order, the key lower-cased and the value stripped |
| Metafields.BuildMetafields | csv-uploader.py:636-640 | the loop builds the row's metafield map |
| Metafields.MetafieldMapWellFormed | csv-uploader.py:637-640 | map keys are distinct and clean; values are stripped and non-empty |
| Metafields.MetafieldMapKeys | csv-uploader.py:637 | a key is in the map exactly when a non-reserved column with a non-blank value cleans to it, so name, series code, item code and cost columns never give one |
| Metafields.MetafieldMapLastWins | csv-uploader.py:638-640 | of several columns cleaning to one key, the last gives the value |
| Metafields.MetafieldInputs | csv-uploader.py:396-406 | the loop builds one input per non-blank entry, key lower-cased, value stripped |
| Metafields.InputsOfCleanMap | csv-uploader.py:397-406 | for a clean map the inputs are its entries, one to one, in order |
| Metafields.RowInputs | csv-uploader.py:644 | the inputs sent for a row are its metafield map entry by entry |
| Remote.DeletedAfterCreate | csv-uploader.py:230 | a variant without a SKU |
| Remote.DeletedAtCleanup | csv-uploader.py:249 | a variant without a SKU, with a blank SKU, or titled "Default Title" |
| Remote.Deletions | csv-uploader.py:229-232 | one deletion per selected variant, in list order |
| Remote.DeleteDefaults | csv-uploader.py:229-232 | the deletion loop deletes, in order, the variants the filter selects |
| Remote.DeletionsExact | csv-uploader.py:248-252 | every deletion is of a listed selected variant, and every such variant is deleted |
| Remote.CleanupCoversCreate | csv-uploader.py:249 | cleanup deletes whatever the post-creation cleanup deletes |
| Remote.SkuVariantsKept | csv-uploader.py:230 | a variant with a real SKU is never deleted after creation, and at cleanup only when titled "Default Title" |
| Remote.SkuMap | csv-uploader.py:574-578 | each non-empty SKU of the listed variants mapped to a variant, later ones overwriting |
| Remote.ExistingSkus | csv-uploader.py:574-578 | the loop builds the SKU map of the product's variants |
| Remote.SkuMapAbsent | csv-uploader.py:577 | an empty or unlisted SKU is not in the map |
| Remote.SkuMapLast | csv-uploader.py:578 | a SKU maps to the last variant listed with it |
| Remote.SkuMapSound | csv-uploader.py:576-578 | a variant found in the map is listed and has the SKU it is found under |
| Remote.IsRateLimited | csv-uploader.py:310 | the error text holds "429" or "Exceeded" |
| Remote.Attempts | csv-uploader.py:302-319 | one post, two exactly when the first failed with "429" or "Exceeded"; every post carries the checked price |
| Remote.PostOutcome | csv-uploader.py:306-319 | the first answer's variant, else the retry's after a rate-limit failure, else none |
| Remote.CreateVariantCall | csv-uploader.py:272-319 | the call returns the post outcome and sends exactly those attempts |
| Remote.UpdateVariantRequest | csv-uploader.py:331-343 | nothing for an empty price; else one update of that variant, at the price when it parses positive and at "0.01" when it does not |
| Remote.InventoryCostRequest | csv-uploader.py:358-372 | the cost is sent exactly when it parses positive |
| Remote.MetafieldsRequest | csv-uploader.py:397-411 | at most one set, with the inputs for the map, and only when there is an input |
| Reconcile.Title | csv-uploader.py:521 | the first row's name when it has that column, even empty; else "Series " and the key |
| Reconcile.DryReport | csv-uploader.py:529-539 | one entry per row: its code, its raw cost ("0" when absent) and its metafield map |
| Reconcile.CreateCleanup | csv-uploader.py:222-232 | deletions only when the new product has an id; then exactly the listed variants without a SKU are deleted |
| Reconcile.CostStep | csv-uploader.py:610-611 | a cost update exactly when the cost is positive and there is an inventory item |
| Reconcile.MetafieldStep | csv-uploader.py:642-644 | a metafield set exactly when the row's map is non-empty, with its inputs |
| Reconcile.FollowUp | csv-uploader.py:626-644 | the cost step, then the metafield step, for the variant a row updated or created |
| Reconcile.RowActions | csv-uploader.py:583-646 | a row's requests: nothing without a SKU; the update of a listed variant or the posts of a new one, then the follow-up on the variant obtained |
| Reconcile.RowsActions | csv-uploader.py:583-646 | every row's requests, in row order, each row with its own post answers |
| Reconcile.PlanFollowUp | csv-uploader.py:626-644 | the cost and metafield requests after a variant is updated or created |
| Reconcile.PlanRow | csv-uploader.py:583-646 | the loop body sends the row's requests |
| Reconcile.PlanRows | csv-uploader.py:583-646 | the row loop sends every row's requests in order |
| Reconcile.DryRunReport | csv-uploader.py:527-547 | the dry-run loop reports every row |
| Reconcile.ProcessSeries | csv-uploader.py:511-646 | empty key and empty group send nothing; the dry run sends nothing and reports every row; otherwise create (and its cleanup) or cleanup, options reset and refetch, then the rows against the SKU map of the product's variants |
| PlanFacts.RowWithoutSku | csv-uploader.py:587-589 | a row without a SKU sends nothing |
| PlanFacts.RowForListedSku | csv-uploader.py:602-613 | a listed SKU first updates that variant at the floored price, then sends only cost and metafield requests, never a create |
| PlanFacts.RowForNewSku | csv-uploader.py:615-630 | an unlisted SKU first posts a variant at the floored price; a second post only after a rate-limit failure; no third; never an update |
| PlanFacts.HeadKinds | csv-uploader.py:602-619 | a row's first requests are updates of the listed variant when its SKU is listed, else posts of the row's SKU at the checked price |
| PlanFacts.CostAfterHead | csv-uploader.py:626-628 | after the first requests, a cost update comes exactly when the cost is positive and the variant has an inventory item, and it carries those |
| PlanFacts.MetafieldsAfterHead | csv-uploader.py:632-644 | after the first requests, a metafield set comes exactly when the row's map is non-empty, on that variant with the map's inputs |
| PlanFacts.RowShape | csv-uploader.py:602-644 | a row with a target variant sends its update or posts, then that variant's follow-up |
| PlanFacts.RowCostUpdate | csv-uploader.py:627-628 | a cost update exactly when the row has a target variant with an inventory item and a positive cleaned cost, with that cost and item |
| PlanFacts.RowMetafields | csv-uploader.py:632-644 | a metafield set exactly when the row has a target variant and a non-empty map, on that variant, one input per entry |
| PlanFacts.DryRunMatchesRun | csv-uploader.py:533-539 | the dry run reports the very map the real run sends |
| PlanFacts.ConcatMember | csv-uploader.py:583 | a request of the loop is a request of one row |
| PlanFacts.SkuMapPresent | csv-uploader.py:576-578 | a listed non-empty SKU is in the map |
| PlanFacts.RowActionKinds | csv-uploader.py:602-619 | a row's post is for its unlisted SKU; its update is of the listed variant |
| PlanFacts.CreateIsNew | csv-uploader.py:615-619 | every variant posted is for the product, has a row's SKU and a SKU no listed variant has |
| PlanFacts.UpdateIsListed | csv-uploader.py:602-607 | every variant updated is a listed variant with a row's SKU |
| PlanFacts.NoCreatesWhenAllListed | csv-uploader.py:574-619 | when every row's SKU is listed the series posts nothing, so a second run over the same store state creates no duplicates |
| PlanFacts.RowCreates | csv-uploader.py:615-619 | one row posts its SKU once, or twice after a rate-limit failure, and no other SKU |
| PlanFacts.SeriesCreates | csv-uploader.py:574-619 | a listed SKU is never posted; an unlisted one between once and twice per row that has it |
| PlanFacts.DuplicateSkusBothCreate | csv-uploader.py:574-578 | two rows with the same unlisted SKU both post it: the map is not updated after a creation |

## Left out

- HTTP (`gql`, `rest_api`), `time.sleep` and every `print`: the store's answers are parameters, and GET requests are not recorded in the request list.
- Failures inside the cleanup and deletion `try` blocks: a failing GET, DELETE or PUT stops those loops early; the model sends every deletion and the option reset.
- An exception from the product POST, which ends the series: it is modelled like an empty answer (no product created).
- Errors of the update and metafield calls: the source catches every exception there, logs it and goes on.
- Errors of the cost call other than an HTTP error status (a connection error, a timeout, an answer that is not JSON): the source catches only the HTTP-status error there, so these end the series and its remaining rows are not processed; the model always goes on to the next row.
- A missing `id` on a found or created product or variant: the source raises `KeyError` or uses the value; the model uses id 0.
- String ids (GIDs) in the requests: requests carry the numeric id, and the GID built for metafields is modelled separately (`Normalise.VariantGid`).
- The dry run's printed preview (first three metafields, counts), handle and title: the report keeps the data, not the text.
- `float()`: a cost parses positive when, stripped, it is a decimal with optional sign, digits and at most one `.`, and has a non-zero digit; exponents, `inf`, `nan` and underscores are not modelled.
- `lower()` is ASCII only; non-ASCII case mappings are not modelled.
- CSV file opening, the UTF-8 BOM and `csv.DictReader` splitting: a record is given as its (name, cell) pairs; extra fields under a `None` key are not modelled.
- `create_metafield_definitions`, `verify_metafields_exist`, `main`, the `input` prompts and the environment settings (`Reconcile.DefaultConfig` holds the defaults).
- check_metafields.py is not part of this model: it only posts two fixed queries and prints the answers.
