/**
 * `util.Tally`: a counter of items and the order in which `show` lists
 * them, ascending by count and then by item.
 */
module Util {

  /** A line of `show`: an item's count, then the item. */
  type Row = (nat, string)

  /** `a < b` for two Python 2 strings: by character codes, a proper prefix first. */
  predicate StrLess(a: string, b: string)
  {
    if a == [] then b != []
    else b != [] && (a[0] < b[0] || (a[0] == b[0] && StrLess(a[1..], b[1..])))
  }

  lemma {:induction false} StrLessTransitive(a: string, b: string, c: string)
    requires StrLess(a, b) && StrLess(b, c)
    ensures StrLess(a, c)
  {
    if a != [] && a[0] == b[0] && b[0] == c[0] {
      StrLessTransitive(a[1..], b[1..], c[1..]);
    }
  }

  /** Two different strings are ordered one way or the other. */
  lemma {:induction false} StrLessTotal(a: string, b: string)
    requires a != b
    ensures StrLess(a, b) || StrLess(b, a)
  {
    if a != [] && b != [] && a[0] == b[0] {
      assert a == [a[0]] + a[1..] && b == [b[0]] + b[1..];
      StrLessTotal(a[1..], b[1..]);
    }
  }

  /** Tuple order on `(count, item)`. */
  predicate RowLess(x: Row, y: Row)
  {
    x.0 < y.0 || (x.0 == y.0 && StrLess(x.1, y.1))
  }

  lemma RowLessTransitive(x: Row, y: Row, z: Row)
    requires RowLess(x, y) && RowLess(y, z)
    ensures RowLess(x, z)
  {
    if x.0 == y.0 == z.0 {
      StrLessTransitive(x.1, y.1, z.1);
    }
  }

  lemma RowLessTotal(x: Row, y: Row)
    requires x != y
    ensures RowLess(x, y) || RowLess(y, x)
  {
    if x.0 == y.0 {
      StrLessTotal(x.1, y.1);
    }
  }

  /** Strictly ascending, so no row twice. */
  predicate Ascending(rows: seq<Row>)
  {
    forall i, j :: 0 <= i < j < |rows| ==> RowLess(rows[i], rows[j])
  }

  /** `rows` with `x` put in its place. */
  function Insert(rows: seq<Row>, x: Row): (r: seq<Row>)
    requires Ascending(rows) && x !in rows
    ensures Ascending(r) && multiset(r) == multiset(rows) + multiset{x}
  {
    if rows == [] then [x]
    else if RowLess(x, rows[0]) then
      assert forall j :: 0 < j < |rows| ==> RowLess(x, rows[j]) by {
        forall j | 0 < j < |rows| {
          RowLessTransitive(x, rows[0], rows[j]);
        }
      }
      [x] + rows
    else
      var tail := Insert(rows[1..], x);
      InsertBehind(rows, x, tail);
      [rows[0]] + tail
  }

  /** A row not before the first of `rows` goes into the rest of them. */
  lemma InsertBehind(rows: seq<Row>, x: Row, tail: seq<Row>)
    requires Ascending(rows) && rows != [] && x !in rows && !RowLess(x, rows[0])
    requires Ascending(tail) && multiset(tail) == multiset(rows[1..]) + multiset{x}
    ensures Ascending([rows[0]] + tail) && multiset([rows[0]] + tail) == multiset(rows) + multiset{x}
  {
    assert rows == [rows[0]] + rows[1..];
    forall y | y in tail
      ensures RowLess(rows[0], y)
    {
      assert y in multiset(tail);
      if y == x {
        RowLessTotal(x, rows[0]);
      } else {
        assert y in rows[1..];
      }
    }
  }

  /** `data.sort()` on rows that name no item twice. */
  method SortRows(data: seq<Row>) returns (sorted: seq<Row>)
    requires forall i, j :: 0 <= i < j < |data| ==> data[i].1 != data[j].1
    ensures Ascending(sorted) && multiset(sorted) == multiset(data)
  {
    sorted := [];
    var i := 0;
    while i < |data|
      invariant i <= |data|
      invariant Ascending(sorted) && multiset(sorted) == multiset(data[..i])
    {
      assert data[..i + 1] == data[..i] + [data[i]];
      assert data[i] !in data[..i];
      assert data[i] !in multiset(sorted);
      sorted := Insert(sorted, data[i]);
      i := i + 1;
    }
    assert data[..i] == data;
  }

  /** The sum of the counts `m` holds for `keys`. */
  function SumOver(keys: seq<string>, m: map<string, nat>): nat
    requires forall k :: k in keys ==> k in m
  {
    if keys == [] then 0 else m[keys[0]] + SumOver(keys[1..], m)
  }

  /** Changing the count of a key not in `keys` leaves their sum alone. */
  lemma {:induction false} SumOverOther(keys: seq<string>, m: map<string, nat>, item: string, n: nat)
    requires forall k :: k in keys ==> k in m
    requires item !in keys
    ensures SumOver(keys, m[item := n]) == SumOver(keys, m)
  {
    if keys != [] {
      SumOverOther(keys[1..], m, item, n);
    }
  }

  /** Adding one to the count of a key that `keys` holds once adds one to their sum. */
  lemma {:induction false} SumOverIncrement(keys: seq<string>, m: map<string, nat>, item: string)
    requires forall k :: k in keys ==> k in m
    requires forall i, j :: 0 <= i < j < |keys| ==> keys[i] != keys[j]
    requires item in keys
    ensures SumOver(keys, m[item := m[item] + 1]) == SumOver(keys, m) + 1
  {
    if keys[0] == item {
      assert item !in keys[1..];
      SumOverOther(keys[1..], m, item, m[item] + 1);
    } else {
      SumOverIncrement(keys[1..], m, item);
    }
  }

  /** Adding a new key to the end of `keys` adds its count to their sum. */
  lemma {:induction false} SumOverAppend(keys: seq<string>, m: map<string, nat>, item: string)
    requires forall k :: k in keys ==> k in m
    requires item in m
    ensures SumOver(keys + [item], m) == SumOver(keys, m) + m[item]
  {
    if keys != [] {
      assert (keys + [item])[1..] == keys[1..] + [item];
      SumOverAppend(keys[1..], m, item);
    }
  }

  class Tally {
    var counter: map<string, nat>
    var caption: string
    var itemname: string
    /** The keys of `counter`, each once, in the order they were first recorded. */
    ghost var keys: seq<string>
    /** How many times `Record` has been called. */
    ghost var records: nat

    /** Every count is at least one, and the counts add up to the number of records. */
    ghost predicate Valid()
      reads this
    {
      (forall k :: k in keys <==> k in counter) &&
      (forall i, j :: 0 <= i < j < |keys| ==> keys[i] != keys[j]) &&
      (forall k :: k in counter ==> counter[k] >= 1) &&
      SumOver(keys, counter) == records
    }

    /** `Tally(caption, itemname)`: nothing counted yet. */
    constructor (caption: string, itemname: string)
      ensures Valid() && counter == map[] && records == 0
      ensures this.caption == caption && this.itemname == itemname
    {
      counter := map[];
      this.caption := caption;
      this.itemname := itemname;
      keys := [];
      records := 0;
    }

    /** `record(item)`: one more of `item`; every other count stays as it was. */
    method Record(item: string)
      requires Valid()
      modifies this
      ensures Valid() && records == old(records) + 1
      ensures counter == old(counter)[item := if item in old(counter) then old(counter)[item] + 1 else 1]
      ensures caption == old(caption) && itemname == old(itemname)
    {
      if item in counter {
        SumOverIncrement(keys, counter, item);
        counter := counter[item := counter[item] + 1];
      } else {
        SumOverOther(keys, counter, item, 1);
        counter := counter[item := 1];
        SumOverAppend(keys, counter, item);
        keys := keys + [item];
      }
      records := records + 1;
    }

    /**
     * The `(count, item)` pairs `show` prints, in the order it prints them:
     * one per item counted, ascending by count and then by item; none when
     * nothing was recorded.
     */
    method Show() returns (rows: seq<Row>)
      ensures Ascending(rows) && |rows| == |counter|
      ensures forall k :: k in counter ==> (counter[k], k) in rows
      ensures forall x :: x in rows ==> x.1 in counter && counter[x.1] == x.0
    {
      var data: seq<Row> := [];
      var rest := counter.Keys;
      while rest != {}
        invariant rest <= counter.Keys && |data| + |rest| == |counter|
        invariant forall k :: k in counter && k !in rest ==> (counter[k], k) in data
        invariant forall x :: x in data ==> x.1 in counter && x.1 !in rest && counter[x.1] == x.0
        invariant forall i, j :: 0 <= i < j < |data| ==> data[i].1 != data[j].1
        decreases |rest|
      {
        var k :| k in rest;
        data := data + [(counter[k], k)];
        rest := rest - {k};
      }
      rows := SortRows(data);
      assert forall x :: x in rows <==> x in data by {
        forall x
          ensures x in rows <==> x in data
        {
          assert x in rows <==> x in multiset(rows);
        }
      }
      assert |rows| == |multiset(rows)| == |data|;
    }
  }
}
