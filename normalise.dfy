/** The pure normalisers of the uploader: the product handle of a series, the
    metafield key of a column name, the cost-to-price floor with the price
    check the variant calls repeat, and the numeric id taken from a GID. */
module Normalise {
  import opened Text

  const HandlePrefix := "series-"

  /** The character a series-key character becomes in the handle. */
  function HandleChar(c: char): char
  {
    if c == '.' || c == ' ' || c == '/' then '-' else LowerChar(c)
  }

  /** The product handle of a series (csv-uploader.py:518): "series-" and the
      lower-cased key with '.', ' ' and '/' turned into '-'. */
  function SeriesHandle(series: string): (h: string)
    ensures |h| == |HandlePrefix| + |series| && h[..|HandlePrefix|] == HandlePrefix
    ensures forall i :: 0 <= i < |series| ==> h[|HandlePrefix| + i] == HandleChar(series[i])
  {
    var mapped := HandleChars(series);
    var h := HandlePrefix + mapped;
    assert forall i :: 0 <= i < |series| ==> h[|HandlePrefix| + i] == mapped[i];
    h
  }

  /** The key lower-cased, then '.', ' ' and '/' each replaced by '-'. */
  function HandleChars(series: string): (mapped: string)
    ensures |mapped| == |series|
    ensures forall i :: 0 <= i < |series| ==> mapped[i] == HandleChar(series[i])
  {
    var lowered := Lower(series);
    var r := ReplaceChar(ReplaceChar(ReplaceChar(lowered, '.', '-'), ' ', '-'), '/', '-');
    assert forall i :: 0 <= i < |series| ==> lowered[i] == LowerChar(series[i]);
    r
  }

  /** A handle has no '.', ' ', '/' or upper-case letter. */
  lemma SeriesHandleClean(series: string)
    ensures var h := SeriesHandle(series);
      '.' !in h && ' ' !in h && '/' !in h && forall i :: 0 <= i < |h| ==> !IsUpper(h[i])
  {
    var h := SeriesHandle(series);
    forall i | 0 <= i < |h| ensures h[i] != '.' && h[i] != ' ' && h[i] != '/' && !IsUpper(h[i]) {
      if i < |HandlePrefix| {
        assert h[i] == HandlePrefix[i];
      } else {
        assert h[i] == HandleChar(series[i - |HandlePrefix|]);
      }
    }
  }

  /** A string with the prefix and the mapped characters of `series` is its handle. */
  lemma SeriesHandleIs(series: string, h: string)
    requires |h| == |HandlePrefix| + |series| && h[..|HandlePrefix|] == HandlePrefix
    requires forall i :: 0 <= i < |series| ==> h[|HandlePrefix| + i] == HandleChar(series[i])
    ensures SeriesHandle(series) == h
  {
    var tail := h[|HandlePrefix|..];
    var mapped := HandleChars(series);
    forall i | 0 <= i < |series| ensures tail[i] == mapped[i] {
      assert tail[i] == h[|HandlePrefix| + i];
    }
    assert tail == mapped;
    assert h == h[..|HandlePrefix|] + tail;
  }

  /** "A 1.b/C" gives "series-a-1-b-c". */
  lemma SeriesHandleExample(key: string)
    requires key == "A 1.b/C"
    ensures SeriesHandle(key) == "series-a-1-b-c"
  {
    var h := "series-a-1-b-c";
    assert h[..|HandlePrefix|] == HandlePrefix;
    forall i | 0 <= i < |key| ensures h[|HandlePrefix| + i] == HandleChar(key[i]) {
      if i == 0 { assert key[i] == 'A'; }
      else if i == 1 { assert key[i] == ' '; }
      else if i == 2 { assert key[i] == '1'; }
      else if i == 3 { assert key[i] == '.'; }
      else if i == 4 { assert key[i] == 'b'; }
      else if i == 5 { assert key[i] == '/'; }
      else { assert key[i] == 'C'; }
    }
    SeriesHandleIs(key, h);
  }

  /** Two keys whose characters map alike share a handle. */
  lemma SeriesHandleAgree(s: string, t: string)
    requires |s| == |t| && forall i :: 0 <= i < |s| ==> HandleChar(s[i]) == HandleChar(t[i])
    ensures SeriesHandle(s) == SeriesHandle(t)
  {
    SeriesHandleIs(t, SeriesHandle(s));
  }

  /** Two different series keys can share one handle, and so one product. */
  lemma SeriesHandleCollision(s: string, t: string)
    requires s == "A.1" && t == "a/1"
    ensures s != t && SeriesHandle(s) == SeriesHandle(t)
  {
    assert s[0] != t[0];
    forall i | 0 <= i < |s| ensures HandleChar(s[i]) == HandleChar(t[i]) {
      if i == 0 { assert s[i] == 'A' && t[i] == 'a'; }
      else if i == 1 { assert s[i] == '.' && t[i] == '/'; }
      else { assert s[i] == t[i]; }
    }
    SeriesHandleAgree(s, t);
  }

  /** The metafield key of a column name (csv-uploader.py:538 and 639): lower
      case, ' ' and '-' turned into '_', '(' and ')' dropped. */
  function CleanKey(name: string): (k: string)
    ensures forall i :: 0 <= i < |k| ==> !IsUpper(k[i])
    ensures ' ' !in k && '(' !in k && ')' !in k && '-' !in k
  {
    var lowered := ReplaceChar(Lower(name), ' ', '_');
    var unbracketed := RemoveChar(RemoveChar(lowered, '('), ')');
    RemoveCharFrom(lowered, '(');
    RemoveCharFrom(RemoveChar(lowered, '('), ')');
    assert forall i :: 0 <= i < |unbracketed| ==> unbracketed[i] in lowered;
    ReplaceChar(unbracketed, '-', '_')
  }

  /** Cleaning an already cleaned key changes nothing. */
  lemma {:induction false} CleanKeyIdempotent(name: string)
    ensures CleanKey(CleanKey(name)) == CleanKey(name)
  {
    var k := CleanKey(name);
    LowerFixed(k);
    ReplaceCharAbsent(k, ' ', '_');
    ReplaceCharAbsent(k, '-', '_');
  }

  /** The further `key.lower()` of set_variant_metafields (csv-uploader.py:402)
      leaves a cleaned key as it is. */
  lemma {:induction false} CleanKeyIsLower(name: string)
    ensures Lower(CleanKey(name)) == CleanKey(name)
  {
    LowerFixed(CleanKey(name));
  }

  /** Brackets in a column name do not reach the key: "Size (mm)" and
      "Size mm)" clean alike, so distinct columns can share one key. */
  lemma {:induction false} CleanKeyDropsBracket(a: string, b: string)
    ensures CleanKey(a + "(" + b) == CleanKey(a + b)
  {
    var la := ReplaceChar(Lower(a), ' ', '_');
    var lb := ReplaceChar(Lower(b), ' ', '_');
    assert ReplaceChar(Lower(a + "(" + b), ' ', '_') == la + ['('] + lb;
    assert ReplaceChar(Lower(a + b), ' ', '_') == la + lb;
    RemoveCharBetween(la, lb, '(');
  }

  /** A space and an underscore in a column name give the same key. */
  lemma {:induction false} CleanKeySpaceIsUnderscore(a: string, b: string)
    ensures CleanKey(a + " " + b) == CleanKey(a + "_" + b)
  {
    assert ReplaceChar(Lower(a + " " + b), ' ', '_') == ReplaceChar(Lower(a + "_" + b), ' ', '_');
  }

  predicate IsDigit(c: char)
  {
    '0' <= c <= '9'
  }

  /** The rest of an unsigned decimal: digits with at most one '.' among
      them, given whether a '.' and a digit were already read. */
  predicate DecimalTail(s: string, seenDot: bool, seenDigit: bool)
  {
    if s == [] then seenDigit
    else if IsDigit(s[0]) then DecimalTail(s[1..], seenDot, true)
    else s[0] == '.' && !seenDot && DecimalTail(s[1..], true, seenDigit)
  }

  /** A decimal number with an optional sign, the part of `float()` modelled here. */
  predicate IsDecimal(s: string)
  {
    if s != [] && (s[0] == '+' || s[0] == '-') then DecimalTail(s[1..], false, false)
    else DecimalTail(s, false, false)
  }

  predicate HasNonZeroDigit(s: string)
  {
    s != [] && ('1' <= s[0] <= '9' || HasNonZeroDigit(s[1..]))
  }

  /** The decimal denotes a number above zero: no minus sign and a digit other than 0. */
  predicate IsPositiveDecimal(s: string)
  {
    IsDecimal(s) && s[0] != '-' && HasNonZeroDigit(s)
  }

  /** `float(s) > 0` without an exception; `float` ignores surrounding whitespace. */
  predicate ParsesPositive(s: string)
  {
    IsPositiveDecimal(Strip(s))
  }

  const MinimumPrice := "0.01"

  lemma MinimumPriceParses()
    ensures ParsesPositive(MinimumPrice)
    ensures Strip(MinimumPrice) == MinimumPrice && ',' !in MinimumPrice
  {
    StripFixed(MinimumPrice);
  }

  /** The cost cell with its thousands separators removed and then stripped
      (csv-uploader.py:592). */
  function CleanCost(raw: string): (c: string)
    ensures ',' !in c
    ensures Strip(c) == c
  {
    var bare := RemoveChar(raw, ',');
    var c := Strip(bare);
    StripIdempotent(bare);
    assert ',' !in c by {
      StripTrimmed(bare);
      var a: nat :| Trimmed(bare, c, a);
      assert forall i :: 0 <= i < |c| ==> c[i] == bare[a + i];
    }
    c
  }

  /** The price a row's cost cell gives (csv-uploader.py:591-600): the cleaned
      cost when it is a positive number, the minimum price otherwise. */
  function PriceFloor(raw: string): (price: string)
    ensures ParsesPositive(price) && Strip(price) == price && ',' !in price
    ensures ParsesPositive(CleanCost(raw)) ==> price == CleanCost(raw)
    ensures !ParsesPositive(CleanCost(raw)) ==> price == MinimumPrice
  {
    var c := CleanCost(raw);
    MinimumPriceParses();
    if ParsesPositive(c) then c else MinimumPrice
  }

  /** The price check of create_variant and update_variant
      (csv-uploader.py:280-286 and 331-338): a price that is not a positive
      number is replaced by the minimum price. */
  function PriceCheck(price: string): (checked: string)
    ensures ParsesPositive(checked)
    ensures ParsesPositive(price) ==> checked == price
    ensures !ParsesPositive(price) ==> checked == MinimumPrice
  {
    MinimumPriceParses();
    if ParsesPositive(price) then price else MinimumPrice
  }

  /** The price the row loop computes goes through the variant calls' check unchanged. */
  lemma PriceCheckKeepsFloor(raw: string)
    ensures PriceCheck(PriceFloor(raw)) == PriceFloor(raw)
  {
  }

  /** A cost cell without separators or padding is its own cleaned cost. */
  lemma CleanCostPlain(raw: string)
    requires ',' !in raw
    requires raw == [] || (!IsSpace(raw[0]) && !IsSpace(raw[|raw| - 1]))
    ensures CleanCost(raw) == raw
  {
    StripFixed(raw);
  }

  /** For a cost cell without separators or padding, the price is the cell
      exactly when the cell is a positive decimal. */
  lemma PriceFloorPlain(raw: string)
    requires ',' !in raw
    requires raw == [] || (!IsSpace(raw[0]) && !IsSpace(raw[|raw| - 1]))
    ensures PriceFloor(raw) == if IsPositiveDecimal(raw) then raw else MinimumPrice
  {
    CleanCostPlain(raw);
    StripFixed(raw);
  }

  /** An empty, zero, negative or non-numeric cost gives the minimum price. */
  lemma PriceFloorEmpty()
    ensures PriceFloor("") == MinimumPrice
  {
    PriceFloorPlain("");
  }

  lemma PriceFloorZero()
    ensures PriceFloor("0") == MinimumPrice
  {
    PriceFloorPlain("0");
  }

  lemma PriceFloorNegative()
    ensures PriceFloor("-5") == MinimumPrice
  {
    PriceFloorPlain("-5");
  }

  lemma PriceFloorNotANumber(cost: string)
    requires cost == "abc"
    ensures PriceFloor(cost) == MinimumPrice
  {
    assert cost[0] == 'a' && cost[|cost| - 1] == 'c';
    assert !DecimalTail(cost, false, false);
    PriceFloorPlain(cost);
  }

  lemma PositiveDecimalExamples()
    ensures IsPositiveDecimal("12.50") && IsPositiveDecimal("1250.00")
  {
  }

  /** A positive cost is the price. */
  lemma PriceFloorPositive()
    ensures PriceFloor("12.50") == "12.50"
  {
    PositiveDecimalExamples();
    PriceFloorPlain("12.50");
  }

  /** Thousands separators do not matter to the cleaned cost, and so not to the price. */
  lemma {:induction false} CleanCostIgnoresSeparator(a: string, b: string)
    ensures CleanCost(a + "," + b) == CleanCost(a + b)
    ensures PriceFloor(a + "," + b) == PriceFloor(a + b)
  {
    RemoveCharBetween(a, b, ',');
    assert a + "," + b == a + [','] + b;
  }

  /** `product_id.split("/")[-1]` when the id holds "gid://", else the id
      itself (create_variant, csv-uploader.py:275-278). */
  function ProductNumericId(id: string): (n: string)
    ensures |n| <= |id| && n == id[|id| - |n|..]
    ensures Contains(id, "gid://") ==> '/' !in n && |n| < |id| && id[|id| - |n| - 1] == '/'
    ensures !Contains(id, "gid://") ==> n == id
  {
    if Contains(id, "gid://") then
      GidHasSlash(id);
      LastSegment(id, '/')
    else id
  }

  /** `id.split("/")[-1]` when the id holds "gid://" or any '/', else the id
      itself (update_variant and update_inventory_cost, csv-uploader.py:324-327
      and 353-356). */
  function ResourceNumericId(id: string): (n: string)
    ensures |n| <= |id| && n == id[|id| - |n|..]
    ensures '/' !in n
    ensures '/' in id ==> |n| < |id| && id[|id| - |n| - 1] == '/'
    ensures '/' !in id ==> n == id
  {
    if Contains(id, "gid://") || '/' in id then
      GidHasSlash(id);
      LastSegment(id, '/')
    else id
  }

  /** An id that holds "gid://" holds a '/'. */
  lemma GidHasSlash(id: string)
    ensures Contains(id, "gid://") ==> '/' in id
  {
    if Contains(id, "gid://") {
      var i: nat :| OccursAt(id, "gid://", i);
      assert id[i + 4] == id[i..i + 6][4] == '/';
    }
  }

  /** The GID the row loop builds for a variant (csv-uploader.py:633). */
  function VariantGid(n: string): (gid: string)
  {
    "gid://shopify/ProductVariant/" + n
  }

  /** The last segment after a '/' is whatever follows it, when that has no '/'. */
  lemma {:induction false} LastSegmentAfterSlash(p: string, n: string)
    requires p != [] && p[|p| - 1] == '/' && '/' !in n
    ensures LastSegment(p + n, '/') == n
  {
    var s := p + n;
    var r := LastSegment(s, '/');
    assert s[|s| - |n|..] == n;
  }

  /** Both id normalisations undo the GID construction. */
  lemma {:induction false} NumericIdOfGid(n: string)
    requires '/' !in n
    ensures ResourceNumericId(VariantGid(n)) == n
    ensures ProductNumericId(VariantGid(n)) == n
  {
    var g := VariantGid(n);
    assert OccursAt(g, "gid://", 0);
    LastSegmentAfterSlash("gid://shopify/ProductVariant/", n);
  }
}
