/** Reading the product sheet (csv-uploader.py:463-483): every record the CSV
    reader yields is cleaned into a row of stripped column names and values,
    and only rows carrying an item code or a series code are kept. */
module Rows {
  import opened Text
  import opened Dicts

  /** A cleaned row: column name to cell value, in column order. */
  type Row = Dict<string, string>

  /** A record as the CSV reader yields it: a cell is None when the record
      has fewer fields than the header. */
  type RawRow = seq<(string, Option<string>)>

  const ProductName := "Product Name"
  const ProductCode := "Product Code"
  const SeriesCode := "Product Series Code"

  /** The comprehension keeps a column only when its stripped name is non-empty. */
  predicate KeptColumn(name: string)
  {
    Strip(name) != ""
  }

  /** The position of the last column of `raw` whose name strips to `k`. */
  predicate LastFor(raw: RawRow, i: int)
    requires 0 <= i < |raw|
  {
    forall j :: i < j < |raw| ==> Strip(raw[j].0) != Strip(raw[i].0)
  }

  /** The column is kept by the comprehension but has no value to strip. */
  predicate MissingCell(column: (string, Option<string>))
  {
    KeptColumn(column.0) && column.1.None?
  }

  /** Every entry of a cleaned row has a stripped, non-empty name and a stripped value. */
  predicate WellFormed(row: Row)
  {
    && DistinctKeys(row)
    && forall e :: e in row ==> e.0 != "" && Strip(e.0) == e.0 && Strip(e.1) == e.1
  }

  /** Adding a stripped, non-empty name with a stripped value keeps a row well formed. */
  lemma PutWellFormed(d: Row, k: string, v: string)
    requires k != "" && Strip(k) == k && Strip(v) == v
    ensures WellFormed(d) ==> WellFormed(Put(d, k, v))
  {
  }

  /** One step of the cleaning comprehension: column `name` with `cell`
      added to the row cleaned so far. */
  function AddColumn(rest: Option<Row>, name: string, cell: Option<string>): (r: Option<Row>)
    ensures !KeptColumn(name) ==> r == rest
    ensures KeptColumn(name) ==> (r.None? <==> rest.None? || cell.None?)
  {
    if !KeptColumn(name) then rest
    else if cell.None? || rest.None? then None
    else Some(Put(rest.value, Strip(name), Strip(cell.value)))
  }

  /** Adding a column keeps a well-formed row well formed. */
  lemma AddColumnWellFormed(rest: Option<Row>, name: string, cell: Option<string>)
    requires rest.Some? && WellFormed(rest.value) && AddColumn(rest, name, cell).Some?
    ensures WellFormed(AddColumn(rest, name, cell).value)
  {
    if KeptColumn(name) {
      StripIdempotent(name);
      StripIdempotent(cell.value);
      PutWellFormed(rest.value, Strip(name), Strip(cell.value));
    }
  }

  /** The cleaning comprehension of csv-uploader.py:472. It fails (None) when
      a kept column has no value, since stripping a missing value raises;
      otherwise names and values are stripped, and columns whose names strip
      alike keep the first one's place and the last one's value. */
  function CleanRow(raw: RawRow): Option<Row>
  {
    if raw == [] then Some([])
    else AddColumn(CleanRow(raw[..|raw| - 1]), raw[|raw| - 1].0, raw[|raw| - 1].1)
  }

  /** Some kept column of `raw` has no value. */
  predicate HasMissing(raw: RawRow)
  {
    Any(raw, MissingCell)
  }

  /** Cleaning fails exactly when a kept column has no value. */
  lemma {:induction false} CleanRowFails(raw: RawRow)
    ensures CleanRow(raw).None? <==> HasMissing(raw)
  {
    if raw != [] {
      var init := raw[..|raw| - 1];
      CleanRowFails(init);
      AnySnoc(raw, MissingCell);
    }
  }

  /** A cleaned row is well formed. */
  lemma {:induction false} CleanRowWellFormed(raw: RawRow)
    ensures CleanRow(raw).Some? ==> WellFormed(CleanRow(raw).value)
  {
    if raw != [] {
      var init := raw[..|raw| - 1];
      CleanRowWellFormed(init);
      if CleanRow(raw).Some? {
        AddColumnWellFormed(CleanRow(init), raw[|raw| - 1].0, raw[|raw| - 1].1);
      }
    }
  }

  /** The column is kept and its name strips to `k`. */
  predicate NamedAs(column: (string, Option<string>), k: string)
  {
    KeptColumn(column.0) && Strip(column.0) == k
  }

  /** Some column of `raw` is kept and its name strips to `k`. */
  predicate Names(raw: RawRow, k: string)
  {
    Any(raw, column => NamedAs(column, k))
  }

  /** The names of a cleaned row are exactly the stripped names of the kept columns. */
  lemma {:induction false} CleanRowKeys(raw: RawRow)
    requires CleanRow(raw).Some?
    ensures forall k :: k in Keys(CleanRow(raw).value) <==> Names(raw, k)
  {
    if raw != [] {
      var last := |raw| - 1;
      var init := raw[..last];
      var rest := CleanRow(init);
      assert CleanRow(raw) == AddColumn(rest, raw[last].0, raw[last].1);
      assert rest.Some?;
      CleanRowKeys(init);
      forall k ensures k in Keys(CleanRow(raw).value) <==> Names(raw, k) {
        AnySnoc(raw, column => NamedAs(column, k));
      }
    }
  }

  /** Among columns whose names strip alike, the last one's value is the one kept. */
  lemma {:induction false} CleanRowLastWins(raw: RawRow, i: nat)
    requires CleanRow(raw).Some?
    requires i < |raw| && KeptColumn(raw[i].0) && raw[i].1.Some? && LastFor(raw, i)
    ensures Lookup(CleanRow(raw).value, Strip(raw[i].0)) == Some(Strip(raw[i].1.value))
  {
    var last := |raw| - 1;
    var init := raw[..last];
    var rest := CleanRow(init);
    assert CleanRow(raw) == AddColumn(rest, raw[last].0, raw[last].1);
    if i < last {
      assert init[i] == raw[i];
      LastForPrefix(raw, i);
      CleanRowLastWins(init, i);
      AddColumnKeeps(rest, raw[last].0, raw[last].1, Strip(raw[i].0));
      assert Lookup(rest.value, Strip(raw[i].0)) == Some(Strip(raw[i].1.value));
    } else {
      assert raw[i] == raw[last];
      AddColumnSets(rest, raw[last].0, raw[last].1);
    }
  }

  /** The last column with its name is also the last in a prefix holding it. */
  lemma LastForPrefix(raw: RawRow, i: nat)
    requires i < |raw| - 1 && LastFor(raw, i)
    ensures LastFor(raw[..|raw| - 1], i)
  {
    var init := raw[..|raw| - 1];
    forall j | i < j < |init| ensures Strip(init[j].0) != Strip(init[i].0) {
      assert init[j] == raw[j];
    }
  }

  /** A column whose name is skipped or strips to another name leaves `k` as it was. */
  lemma AddColumnKeeps(rest: Option<Row>, name: string, cell: Option<string>, k: string)
    requires AddColumn(rest, name, cell).Some?
    requires !KeptColumn(name) || Strip(name) != k
    ensures rest.Some? && Lookup(AddColumn(rest, name, cell).value, k) == Lookup(rest.value, k)
  {
  }

  /** A kept column sets its stripped name to its stripped value. */
  lemma AddColumnSets(rest: Option<Row>, name: string, cell: Option<string>)
    requires KeptColumn(name) && AddColumn(rest, name, cell).Some?
    ensures cell.Some? && Lookup(AddColumn(rest, name, cell).value, Strip(name)) == Some(Strip(cell.value))
  {
  }

  /** `row.get(col)` is truthy: the column is present with a non-empty value. */
  predicate Filled(row: Row, col: string)
  {
    Lookup(row, col).Some? && Lookup(row, col).value != ""
  }

  /** The filter of csv-uploader.py:474: an item code or a series code. */
  predicate HasCode(row: Row)
  {
    Filled(row, ProductCode) || Filled(row, SeriesCode)
  }

  /** `clean` applied to each of `xs` in turn, keeping the results `keep`
      selects; None as soon as one element fails to clean. */
  function Collect<X, Y>(xs: seq<X>, clean: X -> Option<Y>, keep: Y -> bool): Option<seq<Y>>
  {
    if xs == [] then Some([])
    else
      var rest := Collect(xs[..|xs| - 1], clean, keep);
      var r := clean(xs[|xs| - 1]);
      if rest.None? || r.None? then None
      else if keep(r.value) then Some(rest.value + [r.value])
      else rest
  }

  lemma {:induction false} CollectSticks<X, Y>(xs: seq<X>, clean: X -> Option<Y>, keep: Y -> bool, n: nat)
    requires n <= |xs| && Collect(xs[..n], clean, keep) == None
    ensures Collect(xs, clean, keep) == None
    decreases |xs| - n
  {
    if n < |xs| {
      assert xs[..n + 1][..n] == xs[..n];
      CollectSticks(xs, clean, keep, n + 1);
    } else {
      assert xs[..n] == xs;
    }
  }

  lemma {:induction false} CollectFailsAt<X, Y>(xs: seq<X>, clean: X -> Option<Y>, keep: Y -> bool, i: nat)
    requires i < |xs| && clean(xs[i]) == None
    ensures Collect(xs, clean, keep) == None
  {
    var n := |xs| - 1;
    if i < n {
      assert xs[..n][i] == xs[i];
      CollectFailsAt(xs[..n], clean, keep, i);
    }
  }

  lemma {:induction false} CollectFailure<X, Y>(xs: seq<X>, clean: X -> Option<Y>, keep: Y -> bool) returns (i: nat)
    requires Collect(xs, clean, keep) == None
    ensures i < |xs| && clean(xs[i]) == None
  {
    var n := |xs| - 1;
    var init := xs[..n];
    if Collect(init, clean, keep) == None {
      i := CollectFailure(init, clean, keep);
      assert init[i] == xs[i];
    } else {
      i := n;
    }
  }

  lemma {:induction false} CollectSound<X, Y>(xs: seq<X>, clean: X -> Option<Y>, keep: Y -> bool, y: Y) returns (i: nat)
    requires Collect(xs, clean, keep).Some? && y in Collect(xs, clean, keep).value
    ensures i < |xs| && clean(xs[i]) == Some(y) && keep(y)
  {
    var n := |xs| - 1;
    var init := xs[..n];
    var rest := Collect(init, clean, keep);
    if y in rest.value {
      i := CollectSound(init, clean, keep, y);
      assert init[i] == xs[i];
    } else {
      i := n;
    }
  }

  lemma CollectGrows<X, Y>(xs: seq<X>, clean: X -> Option<Y>, keep: Y -> bool)
    requires xs != [] && Collect(xs, clean, keep).Some?
    ensures Collect(xs[..|xs| - 1], clean, keep).Some?
    ensures Collect(xs[..|xs| - 1], clean, keep).value <= Collect(xs, clean, keep).value
  {
  }

  lemma {:induction false} CollectComplete<X, Y>(xs: seq<X>, clean: X -> Option<Y>, keep: Y -> bool, i: nat, y: Y)
    requires Collect(xs, clean, keep).Some?
    requires i < |xs| && clean(xs[i]) == Some(y) && keep(y)
    ensures y in Collect(xs, clean, keep).value
  {
    var n := |xs| - 1;
    CollectGrows(xs, clean, keep);
    if i < n {
      assert xs[..n][i] == xs[i];
      CollectComplete(xs[..n], clean, keep, i, y);
    } else {
      assert Collect(xs, clean, keep).value == Collect(xs[..n], clean, keep).value + [y];
    }
  }

  /** The rows read from the records so far, or None once a record failed. */
  function CleanRows(raws: seq<RawRow>): Option<seq<Row>>
  {
    Collect(raws, CleanRow, HasCode)
  }

  /** The rows parse_csv returns: none at all when any record failed. */
  function ParsedRows(raws: seq<RawRow>): seq<Row>
  {
    match CleanRows(raws)
    case None => []
    case Some(items) => items
  }

  /** The record loop of parse_csv (csv-uploader.py:470-481). */
  method ParseRows(raws: seq<RawRow>) returns (items: seq<Row>)
    ensures items == ParsedRows(raws)
  {
    items := [];
    var i := 0;
    while i < |raws|
      invariant 0 <= i <= |raws|
      invariant CleanRows(raws[..i]) == Some(items)
    {
      assert raws[..i + 1][..i] == raws[..i];
      assert raws[..i + 1][i] == raws[i];
      var r := CleanRow(raws[i]);
      if r.None? {
        FailureSticks(raws, i + 1);
        return [];
      }
      if HasCode(r.value) {
        items := items + [r.value];
      }
      i := i + 1;
    }
    assert raws[..i] == raws;
  }

  /** Once a prefix of the records failed, the whole sheet fails. */
  lemma FailureSticks(raws: seq<RawRow>, n: nat)
    requires n <= |raws| && CleanRows(raws[..n]) == None
    ensures CleanRows(raws) == None
  {
    CollectSticks(raws, CleanRow, HasCode, n);
  }

  /** The sheet fails exactly when some record fails. */
  lemma CleanRowsFails(raws: seq<RawRow>)
    ensures CleanRows(raws) == None <==> exists i :: 0 <= i < |raws| && CleanRow(raws[i]) == None
  {
    if CleanRows(raws) == None {
      var i := CollectFailure(raws, CleanRow, HasCode);
    }
    if exists i :: 0 <= i < |raws| && CleanRow(raws[i]) == None {
      var i :| 0 <= i < |raws| && CleanRow(raws[i]) == None;
      CollectFailsAt(raws, CleanRow, HasCode, i);
    }
  }

  /** Some record of `raws` cleans to `row` and `row` has a code. */
  predicate CodedRecord(raws: seq<RawRow>, row: Row)
  {
    exists i :: 0 <= i < |raws| && CleanRow(raws[i]) == Some(row) && HasCode(row)
  }

  /** Every kept row is a cleaned record with a code. */
  lemma CleanRowsSound(raws: seq<RawRow>, row: Row)
    requires CleanRows(raws).Some? && row in CleanRows(raws).value
    ensures CodedRecord(raws, row)
  {
    var i := CollectSound(raws, CleanRow, HasCode, row);
  }

  /** Every cleaned record with a code is kept. */
  lemma CleanRowsComplete(raws: seq<RawRow>, i: nat, row: Row)
    requires CleanRows(raws).Some?
    requires i < |raws| && CleanRow(raws[i]) == Some(row) && HasCode(row)
    ensures row in CleanRows(raws).value
  {
    CollectComplete(raws, CleanRow, HasCode, i, row);
  }

  /** The rows kept from a prefix of the records stay kept. */
  lemma KeptGrows(raws: seq<RawRow>)
    requires raws != [] && CleanRows(raws).Some?
    ensures CleanRows(raws[..|raws| - 1]).Some?
    ensures CleanRows(raws[..|raws| - 1]).value <= CleanRows(raws).value
  {
    CollectGrows(raws, CleanRow, HasCode);
  }

  /** Every parsed row has a code and stripped, non-empty column names and stripped values. */
  lemma {:induction false} ParsedRowsWellFormed(raws: seq<RawRow>)
    ensures forall r :: r in ParsedRows(raws) ==> HasCode(r) && DistinctKeys(r)
    ensures forall r, e :: r in ParsedRows(raws) && e in r ==> e.0 != "" && Strip(e.0) == e.0 && Strip(e.1) == e.1
  {
    if CleanRows(raws).Some? {
      forall r | r in ParsedRows(raws)
        ensures HasCode(r) && DistinctKeys(r)
        ensures forall e :: e in r ==> e.0 != "" && Strip(e.0) == e.0 && Strip(e.1) == e.1
      {
        CleanRowsSound(raws, r);
        var i :| 0 <= i < |raws| && CleanRow(raws[i]) == Some(r) && HasCode(r);
        CleanRowWellFormed(raws[i]);
      }
    }
  }
}
