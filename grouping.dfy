/** Grouping the rows into series (csv-uploader.py:485-509): each row goes to
    the group of its series key, groups appear in the order their key was
    first seen, and rows without a key are dropped.

    The facts about groups hold for any way of deriving a key from a row, so
    they are stated for a key function `key`; the uploader's is SeriesKey. */
module Grouping {
  import opened Text
  import opened Dicts
  import opened Rows

  /** The series key of a row (csv-uploader.py:490-501). */
  function SeriesKey(item: Row): string
  {
    var series := Get(item, SeriesCode, "");
    if series != "" then series
    else
      var code := Get(item, ProductCode, "");
      if '-' in code then PrefixBefore(code, '-')
      else if '/' in code then PrefixBefore(code, '/')
      else code
  }

  /** The series key is the series code when it is non-empty, else the item
      code up to its first '-' when it has one (even when a '/' comes
      earlier), else up to its first '/', else the whole item code. */
  lemma SeriesKeyIs(item: Row)
    ensures Get(item, SeriesCode, "") != "" ==> SeriesKey(item) == Get(item, SeriesCode, "")
    ensures Get(item, SeriesCode, "") == "" ==>
      var code := Get(item, ProductCode, "");
      var k := SeriesKey(item);
      && |k| <= |code| && k == code[..|k|]
      && '-' !in k
      && ('-' in code ==> |k| < |code| && code[|k|] == '-')
      && ('-' !in code ==> '/' !in k && (|k| < |code| ==> code[|k|] == '/'))
  {
  }

  /** An item code such as "8L.1001-300X3.2Z72", without a series code,
      belongs to the series before its first '-', here "8L.1001". */
  lemma SeriesKeyFromCode(a: string, b: string)
    requires '-' !in a
    ensures SeriesKey([(ProductCode, a + "-" + b)]) == a
  {
    var item := [(ProductCode, a + "-" + b)];
    assert Keys(item) == [ProductCode];
    assert SeriesCode !in Keys(item);
    assert (a + "-" + b)[|a|] == '-';
  }

  /** A code that starts with '-', such as "-x", gives the empty key, so its
      row is in no group. */
  lemma SeriesKeyDashFirst(b: string)
    ensures SeriesKey([(ProductCode, "-" + b)]) == ""
  {
    SeriesKeyFromCode("", b);
    assert "" + "-" + b == "-" + b;
  }

  /** The keys of the groups, in the order they were first seen. */
  function FirstSeen(items: seq<Row>, key: Row -> string): seq<string>
  {
    if items == [] then []
    else
      var seen := FirstSeen(items[..|items| - 1], key);
      var k := key(items[|items| - 1]);
      if k == "" || k in seen then seen else seen + [k]
  }

  /** The rows whose key is `k`, in their original order. */
  function RowsWithKey(items: seq<Row>, key: Row -> string, k: string): seq<Row>
  {
    if items == [] then []
    else
      var rows := RowsWithKey(items[..|items| - 1], key, k);
      if key(items[|items| - 1]) == k then rows + [items[|items| - 1]] else rows
  }

  /** `groups` holds exactly the groups of `items`: the first-seen keys,
      each with its rows in order. */
  predicate Grouped(groups: Dict<string, seq<Row>>, items: seq<Row>, key: Row -> string)
  {
    && DistinctKeys(groups)
    && Keys(groups) == FirstSeen(items, key)
    && forall j :: 0 <= j < |groups| ==> groups[j].1 == RowsWithKey(items, key, groups[j].0)
  }

  /** The groups with a group for `k`: an empty one appended when `k` has none. */
  function Opened(groups: Dict<string, seq<Row>>, k: string): (r: Dict<string, seq<Row>>)
    ensures k in Keys(r)
  {
    if k in Keys(groups) then groups else Put(groups, k, [])
  }

  /** The groups once `x` is appended to the group of `k`. */
  function AddToGroup(groups: Dict<string, seq<Row>>, k: string, x: Row): Dict<string, seq<Row>>
  {
    var withGroup := Opened(groups, k);
    Put(withGroup, k, Lookup(withGroup, k).value + [x])
  }

  /** The loop of group_by_series (csv-uploader.py:487-507): the groups have
      the first-seen keys, and each key's group holds exactly its rows in
      order. */
  method GroupBySeries(items: seq<Row>) returns (groups: Dict<string, seq<Row>>)
    ensures Keys(groups) == FirstSeen(items, SeriesKey)
    ensures forall j :: 0 <= j < |groups| ==> groups[j].1 == RowsWithKey(items, SeriesKey, groups[j].0)
  {
    groups := [];
    var i := 0;
    while i < |items|
      invariant 0 <= i <= |items|
      invariant Grouped(groups, items[..i], SeriesKey)
    {
      var item := items[i];
      var series := SeriesKey(item);
      assert items[..i + 1] == items[..i] + [item];
      ghost var prefix := items[..i];
      ghost var next := items[..i + 1];
      if series != "" {
        ghost var before := groups;
        if series !in Keys(groups) {
          groups := Put(groups, series, []);
        }
        var group := Lookup(groups, series).value;
        groups := Put(groups, series, group + [item]);
        assert groups == AddToGroup(before, series, item);
        AddedToGroup(before, prefix, next, SeriesKey, series, item);
      } else {
        SkippedRow(groups, prefix, next, SeriesKey, item);
      }
      i := i + 1;
      assert next == items[..i];
    }
    assert items[..i] == items;
  }

  /** A row without a key leaves the groups exact. */
  lemma SkippedRow(groups: Dict<string, seq<Row>>, items: seq<Row>, all: seq<Row>, key: Row -> string, x: Row)
    requires Grouped(groups, items, key) && key(x) == "" && all == items + [x]
    ensures Grouped(groups, all, key)
  {
    assert all[..|all| - 1] == items && all[|all| - 1] == x;
    FirstSeenDistinct(items, key);
    forall j | 0 <= j < |groups| ensures groups[j].1 == RowsWithKey(all, key, groups[j].0) {
      assert Keys(groups)[j] == groups[j].0;
    }
  }

  /** A row with a key, added to its group, leaves the groups exact. */
  lemma AddedToGroup(groups: Dict<string, seq<Row>>, items: seq<Row>, all: seq<Row>, key: Row -> string, k: string, x: Row)
    requires Grouped(groups, items, key) && key(x) == k != "" && all == items + [x]
    ensures Grouped(AddToGroup(groups, k, x), all, key)
  {
    OpenedGroup(groups, items, key, x);
    AppendedToGroup(Opened(groups, key(x)), items, key, x);
  }

  /** Opening the group of a row's key gives the keys first seen up to and
      including that row, each still with the rows before it. */
  lemma OpenedGroup(groups: Dict<string, seq<Row>>, items: seq<Row>, key: Row -> string, x: Row)
    requires Grouped(groups, items, key) && key(x) != ""
    ensures DistinctKeys(Opened(groups, key(x)))
    ensures Keys(Opened(groups, key(x))) == FirstSeen(items + [x], key)
    ensures forall j :: 0 <= j < |Opened(groups, key(x))| ==>
      Opened(groups, key(x))[j].1 == RowsWithKey(items, key, Opened(groups, key(x))[j].0)
  {
    var k := key(x);
    var all := items + [x];
    assert all[..|all| - 1] == items && all[|all| - 1] == x;
    if k !in Keys(groups) {
      var withGroup := Put(groups, k, []);
      EmptyBeforeFirstSeen(items, key, k);
      forall j | 0 <= j < |withGroup| ensures withGroup[j].1 == RowsWithKey(items, key, withGroup[j].0) {
        if j < |groups| {
          assert Keys(groups)[j] == groups[j].0;
        } else {
          assert Keys(withGroup)[j] == k;
        }
      }
    }
  }

  /** Appending a row to the open group of its key gives the rows up to and
      including that row. */
  lemma AppendedToGroup(withGroup: Dict<string, seq<Row>>, items: seq<Row>, key: Row -> string, x: Row)
    requires DistinctKeys(withGroup) && key(x) in Keys(withGroup)
    requires forall j :: 0 <= j < |withGroup| ==> withGroup[j].1 == RowsWithKey(items, key, withGroup[j].0)
    ensures var after := Put(withGroup, key(x), Lookup(withGroup, key(x)).value + [x]);
      && DistinctKeys(after) && Keys(after) == Keys(withGroup)
      && forall j :: 0 <= j < |after| ==> after[j].1 == RowsWithKey(items + [x], key, after[j].0)
  {
    var k := key(x);
    var all := items + [x];
    assert all[..|all| - 1] == items && all[|all| - 1] == x;
    var after := Put(withGroup, k, Lookup(withGroup, k).value + [x]);
    forall j | 0 <= j < |after| ensures after[j].1 == RowsWithKey(all, key, after[j].0) {
      assert Keys(after)[j] == after[j].0 && Keys(withGroup)[j] == withGroup[j].0;
      if after[j].0 != k {
        assert after[j] == withGroup[j];
      } else {
        assert Lookup(after, k) == Some(after[j].1);
        assert Lookup(withGroup, k) == Some(withGroup[j].1);
      }
    }
  }

  /** A key not yet seen has no rows so far. */
  lemma {:induction false} EmptyBeforeFirstSeen(items: seq<Row>, key: Row -> string, k: string)
    requires k != "" && k !in FirstSeen(items, key)
    ensures RowsWithKey(items, key, k) == []
  {
    if items != [] {
      EmptyBeforeFirstSeen(items[..|items| - 1], key, k);
    }
  }

  /** The group keys are distinct and non-empty. */
  lemma {:induction false} FirstSeenDistinct(items: seq<Row>, key: Row -> string)
    ensures "" !in FirstSeen(items, key)
    ensures forall a, b :: 0 <= a < b < |FirstSeen(items, key)| ==> FirstSeen(items, key)[a] != FirstSeen(items, key)[b]
  {
    if items != [] {
      FirstSeenDistinct(items[..|items| - 1], key);
    }
  }

  /** Some row of `items` has key `k`. */
  predicate KeyOccurs(items: seq<Row>, key: Row -> string, k: string)
  {
    Any(items, item => key(item) == k)
  }

  /** A key is a group key exactly when it is non-empty and some row has it. */
  lemma {:induction false} FirstSeenMembers(items: seq<Row>, key: Row -> string, k: string)
    ensures k in FirstSeen(items, key) <==> k != "" && KeyOccurs(items, key, k)
  {
    if items != [] {
      FirstSeenMembers(items[..|items| - 1], key, k);
      AnySnoc(items, item => key(item) == k);
    }
  }

  /** Every row is in the group of its own key. */
  lemma {:induction false} RowsWithKeyComplete(items: seq<Row>, key: Row -> string, i: nat)
    requires i < |items|
    ensures items[i] in RowsWithKey(items, key, key(items[i]))
  {
    var init := items[..|items| - 1];
    if i < |init| {
      assert init[i] == items[i];
      RowsWithKeyComplete(init, key, i);
    }
  }

  /** Every row of the group of `k` has key `k`. */
  lemma {:induction false} RowsWithKeySound(items: seq<Row>, key: Row -> string, k: string)
    ensures forall r :: r in RowsWithKey(items, key, k) ==> key(r) == k
  {
    if items != [] {
      RowsWithKeySound(items[..|items| - 1], key, k);
    }
  }

  /** No group is empty. */
  lemma {:induction false} GroupsNonEmpty(items: seq<Row>, key: Row -> string, k: string)
    requires k in FirstSeen(items, key)
    ensures RowsWithKey(items, key, k) != []
  {
    FirstSeenMembers(items, key, k);
    var i :| 0 <= i < |items| && key(items[i]) == k;
    RowsWithKeyComplete(items, key, i);
  }

  /** The rows that have a non-empty key. */
  function KeyedRows(items: seq<Row>, key: Row -> string): seq<Row>
  {
    if items == [] then []
    else
      var rows := KeyedRows(items[..|items| - 1], key);
      if key(items[|items| - 1]) != "" then rows + [items[|items| - 1]] else rows
  }

  /** All rows of the groups of `ks`, counted with multiplicity. */
  function GroupedRows(items: seq<Row>, key: Row -> string, ks: seq<string>): multiset<Row>
  {
    if ks == [] then multiset{}
    else GroupedRows(items, key, ks[..|ks| - 1]) + multiset(RowsWithKey(items, key, ks[|ks| - 1]))
  }

  /** Adding one more row adds it to the groups of distinct keys `ks` once
      when its key is one of them, and not at all otherwise. */
  lemma {:induction false} GroupedRowsSnoc(items: seq<Row>, key: Row -> string, ks: seq<string>)
    requires items != []
    requires forall a, b :: 0 <= a < b < |ks| ==> ks[a] != ks[b]
    ensures GroupedRows(items, key, ks) == GroupedRows(items[..|items| - 1], key, ks) +
      (if key(items[|items| - 1]) in ks then multiset{items[|items| - 1]} else multiset{})
  {
    if ks != [] {
      var x := items[|items| - 1];
      var before := items[..|items| - 1];
      var init := ks[..|ks| - 1];
      var k := ks[|ks| - 1];
      forall a, b | 0 <= a < b < |init| ensures init[a] != init[b] {
        assert init[a] == ks[a] && init[b] == ks[b];
      }
      GroupedRowsSnoc(items, key, init);
      var e1: multiset<Row> := if key(x) in init then multiset{x} else multiset{};
      var e2: multiset<Row> := if key(x) == k then multiset{x} else multiset{};
      var e: multiset<Row> := if key(x) in ks then multiset{x} else multiset{};
      var withX := RowsWithKey(items, key, k);
      var withoutX := RowsWithKey(before, key, k);
      assert withX == withoutX + (if key(x) == k then [x] else []);
      assert multiset(withX) == multiset(withoutX) + e2;
      LastOfDistinct(ks, key(x));
      assert e == e1 + e2;
      Regroup(GroupedRows(items, key, ks), GroupedRows(items, key, init), multiset(withX),
              GroupedRows(before, key, init), multiset(withoutX), e1, e2);
    }
  }

  /** A value is in distinct `ks` either among its first elements or as its
      last, never both. */
  lemma LastOfDistinct<T>(ks: seq<T>, v: T)
    requires ks != [] && forall a, b :: 0 <= a < b < |ks| ==> ks[a] != ks[b]
    ensures v in ks <==> v in ks[..|ks| - 1] || v == ks[|ks| - 1]
    ensures !(v in ks[..|ks| - 1] && v == ks[|ks| - 1])
  {
    assert ks == ks[..|ks| - 1] + [ks[|ks| - 1]];
  }

  /** Regrouping a sum of two multisets, each one part larger than before. */
  lemma Regroup<T>(total: multiset<T>, p: multiset<T>, q: multiset<T>,
                   p0: multiset<T>, q0: multiset<T>, e1: multiset<T>, e2: multiset<T>)
    requires total == p + q && p == p0 + e1 && q == q0 + e2
    ensures total == (p0 + q0) + (e1 + e2)
  {
  }

  /** The groups partition the keyed rows: every row with a non-empty key is
      in exactly one group, and no other row is in any. */
  lemma {:induction false} GroupsPartition(items: seq<Row>, key: Row -> string)
    ensures GroupedRows(items, key, FirstSeen(items, key)) == multiset(KeyedRows(items, key))
  {
    if items != [] {
      var init := items[..|items| - 1];
      var x := items[|items| - 1];
      var k := key(x);
      var seen := FirstSeen(init, key);
      GroupsPartition(init, key);
      FirstSeenDistinct(items, key);
      FirstSeenDistinct(init, key);
      GroupedRowsSnoc(items, key, FirstSeen(items, key));
      if k != "" && k !in seen {
        EmptyBeforeFirstSeen(init, key, k);
        assert (seen + [k])[..|seen|] == seen;
      }
    }
  }
}
