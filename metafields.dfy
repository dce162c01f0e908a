/** The metafields of a row (csv-uploader.py:533-539 for the dry run,
    634-640 for the real run) and the inputs set_variant_metafields builds
    from them (csv-uploader.py:398-406). */
module Metafields {
  import opened Text
  import opened Dicts
  import opened Rows
  import opened Normalise

  /** The columns never sent as metafields: name, series code, item code and
      the cost column. */
  predicate Reserved(costColumn: string, name: string)
  {
    name == ProductName || name == SeriesCode || name == ProductCode || name == costColumn
  }

  /** A column gives a metafield when its value is not blank and its name is not reserved. */
  predicate Contributes(costColumn: string, column: (string, string))
  {
    column.1 != "" && Strip(column.1) != "" && !Reserved(costColumn, column.0)
  }

  /** The metafield map of a row: each contributing column's cleaned name to
      its stripped value, a later column overwriting an earlier one with the
      same cleaned name. */
  function MetafieldMap(costColumn: string, row: Row): Dict<string, string>
  {
    if row == [] then []
    else
      var m := MetafieldMap(costColumn, row[..|row| - 1]);
      var column := row[|row| - 1];
      if Contributes(costColumn, column) then Put(m, CleanKey(column.0), Strip(column.1)) else m
  }

  /** The column loop of csv-uploader.py:636-640 (and 535-539). */
  method BuildMetafields(costColumn: string, row: Row) returns (metafields: Dict<string, string>)
    ensures metafields == MetafieldMap(costColumn, row)
  {
    metafields := [];
    var i := 0;
    while i < |row|
      invariant 0 <= i <= |row|
      invariant metafields == MetafieldMap(costColumn, row[..i])
    {
      var (name, value) := row[i];
      assert row[..i + 1][..i] == row[..i];
      assert row[..i + 1][i] == row[i];
      if value != "" && Strip(value) != "" && !Reserved(costColumn, name) {
        var key := CleanKey(name);
        metafields := Put(metafields, key, Strip(value));
      }
      i := i + 1;
    }
    assert row[..i] == row;
  }

  /** Every entry of the map has a distinct cleaned key and a stripped, non-empty value. */
  lemma {:induction false} MetafieldMapWellFormed(costColumn: string, row: Row)
    ensures DistinctKeys(MetafieldMap(costColumn, row))
    ensures forall e :: e in MetafieldMap(costColumn, row) ==>
      e.1 != "" && Strip(e.1) == e.1 && CleanKey(e.0) == e.0
  {
    if row != [] {
      var m := MetafieldMap(costColumn, row[..|row| - 1]);
      var column := row[|row| - 1];
      MetafieldMapWellFormed(costColumn, row[..|row| - 1]);
      if Contributes(costColumn, column) {
        StripIdempotent(column.1);
        CleanKeyIdempotent(column.0);
        var r := Put(m, CleanKey(column.0), Strip(column.1));
        forall e | e in r ensures e.1 != "" && Strip(e.1) == e.1 && CleanKey(e.0) == e.0 {
          var j :| 0 <= j < |r| && r[j] == e;
          if j < |m| && m[j].0 != CleanKey(column.0) {
            assert m[j] == e;
          } else {
            assert Lookup(r, e.0) == Some(e.1);
          }
        }
      }
    }
  }

  /** The column gives the metafield `k`. */
  predicate Gives(costColumn: string, column: (string, string), k: string)
  {
    Contributes(costColumn, column) && CleanKey(column.0) == k
  }

  /** Some column of `row` gives the metafield `k`. */
  predicate HasSource(costColumn: string, row: Row, k: string)
  {
    Any(row, column => Gives(costColumn, column, k))
  }

  /** The map's keys are exactly the cleaned names of the contributing
      columns; in particular no reserved column and no blank value gives one. */
  lemma {:induction false} MetafieldMapKeys(costColumn: string, row: Row, k: string)
    ensures k in Keys(MetafieldMap(costColumn, row)) <==> HasSource(costColumn, row, k)
  {
    if row != [] {
      MetafieldMapKeys(costColumn, row[..|row| - 1], k);
      AnySnoc(row, column => Gives(costColumn, column, k));
    }
  }

  /** When several columns clean to the same key, the last of them gives the value. */
  lemma {:induction false} MetafieldMapLastWins(costColumn: string, row: Row, i: nat)
    requires i < |row| && Contributes(costColumn, row[i])
    requires forall j :: i < j < |row| ==> !Gives(costColumn, row[j], CleanKey(row[i].0))
    ensures Lookup(MetafieldMap(costColumn, row), CleanKey(row[i].0)) == Some(Strip(row[i].1))
  {
    var init := row[..|row| - 1];
    if i < |init| {
      assert init[i] == row[i];
      forall j | i < j < |init| ensures !Gives(costColumn, init[j], CleanKey(init[i].0)) {
        assert init[j] == row[j];
      }
      MetafieldMapLastWins(costColumn, init, i);
      assert !Gives(costColumn, row[|row| - 1], CleanKey(row[i].0));
    }
  }

  /** One input of the `metafieldsSet` mutation; the owner is the variant
      the call is made for. */
  datatype MetafieldInput = MetafieldInput(namespace: string, key: string, value: string)

  /** The inputs set_variant_metafields builds (csv-uploader.py:398-406):
      entries with a blank value are skipped, the key is lower-cased and the
      value stripped. */
  function InputsFor(namespace: string, metafields: Dict<string, string>): seq<MetafieldInput>
  {
    if metafields == [] then []
    else
      var inputs := InputsFor(namespace, metafields[..|metafields| - 1]);
      var (key, value) := metafields[|metafields| - 1];
      if value != "" && Strip(value) != "" then inputs + [MetafieldInput(namespace, Lower(key), Strip(value))]
      else inputs
  }

  /** The loop of set_variant_metafields (csv-uploader.py:399-406). */
  method MetafieldInputs(namespace: string, metafields: Dict<string, string>) returns (inputs: seq<MetafieldInput>)
    ensures inputs == InputsFor(namespace, metafields)
  {
    inputs := [];
    var i := 0;
    while i < |metafields|
      invariant 0 <= i <= |metafields|
      invariant inputs == InputsFor(namespace, metafields[..i])
    {
      var (key, value) := metafields[i];
      assert metafields[..i + 1][..i] == metafields[..i];
      assert metafields[..i + 1][i] == metafields[i];
      if value != "" && Strip(value) != "" {
        inputs := inputs + [MetafieldInput(namespace, Lower(key), Strip(value))];
      }
      i := i + 1;
    }
    assert metafields[..i] == metafields;
  }

  /** An entry that set_variant_metafields sends unchanged: a lower-case
      key and a stripped, non-empty value. */
  predicate CleanEntry(e: (string, string))
  {
    e.1 != "" && Strip(e.1) == e.1 && Lower(e.0) == e.0
  }

  /** For a row's metafield map, set_variant_metafields sends every entry,
      in order, with its key and value exactly as in the map: the further
      lower-casing and stripping change nothing. */
  lemma {:induction false} InputsOfCleanMap(namespace: string, metafields: Dict<string, string>)
    requires forall j :: 0 <= j < |metafields| ==> CleanEntry(metafields[j])
    ensures |InputsFor(namespace, metafields)| == |metafields|
    ensures forall j :: 0 <= j < |metafields| ==>
      InputsFor(namespace, metafields)[j] == MetafieldInput(namespace, metafields[j].0, metafields[j].1)
  {
    if metafields != [] {
      var n := |metafields| - 1;
      var init := metafields[..n];
      var (key, value) := metafields[n];
      assert forall j :: 0 <= j < |init| ==> init[j] == metafields[j];
      InputsOfCleanMap(namespace, init);
      assert CleanEntry(metafields[n]);
      assert InputsFor(namespace, metafields) == InputsFor(namespace, init) + [MetafieldInput(namespace, key, value)];
    }
  }

  /** The inputs for a row are its metafield map, entry by entry. */
  lemma RowInputs(namespace: string, costColumn: string, row: Row)
    ensures |InputsFor(namespace, MetafieldMap(costColumn, row))| == |MetafieldMap(costColumn, row)|
    ensures forall j :: 0 <= j < |MetafieldMap(costColumn, row)| ==>
      var e := MetafieldMap(costColumn, row)[j];
      InputsFor(namespace, MetafieldMap(costColumn, row))[j] == MetafieldInput(namespace, e.0, e.1)
  {
    var m := MetafieldMap(costColumn, row);
    MetafieldMapWellFormed(costColumn, row);
    forall j | 0 <= j < |m| ensures CleanEntry(m[j]) {
      assert m[j] in m;
      CleanKeyIsLower(m[j].0);
    }
    InputsOfCleanMap(namespace, m);
  }
}
