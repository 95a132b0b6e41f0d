/**
 * The in-memory parts of /18 (src/day_18.rs): the per-gift totals and the most popular gift of
 * `day18_popular_orders`, and the sorting of the per-region totals in
 * `day18_total_orders_per_region`. The rows come from the database, which is not modelled: they
 * are parameters.
 */
module Orders {
  import opened Wrappers
  import opened MachineInt

  /** A row of the `orders` table. */
  datatype Order = Order(id: int, regionId: int, giftName: string, quantity: int)

  /** Every quantity is an `i32`, as the column type guarantees. */
  predicate QuantitiesI32(rows: seq<Order>) {
    forall i :: 0 <= i < |rows| ==> IsI32(rows[i].quantity)
  }

  /** The gift names that occur in `rows`. */
  function Names(rows: seq<Order>): set<string> {
    set i | 0 <= i < |rows| :: rows[i].giftName
  }

  /** The sum over the integers of the quantities of the rows for gift `name`. */
  function QuantitySum(rows: seq<Order>, name: string): int {
    if rows == [] then 0
    else QuantitySum(rows[..|rows| - 1], name) + (if rows[|rows| - 1].giftName == name then rows[|rows| - 1].quantity else 0)
  }

  /** The total the `i32` map holds for `name`: the sum of its quantities, wrapped to 32 bits. */
  function Total(rows: seq<Order>, name: string): (t: int)
    ensures IsI32(t)
  {
    Wrap32(QuantitySum(rows, name))
  }

  /**
   * The `for_each` that fills the `HashMap<String, i32>`: its keys are exactly the gift names of
   * the rows, and each holds that gift's total.
   */
  method GiftTotals(rows: seq<Order>) returns (orders: map<string, int>)
    requires QuantitiesI32(rows)
    ensures orders.Keys == Names(rows)
    ensures forall name :: name in orders ==> orders[name] == Total(rows, name)
  {
    orders := map[];
    var i := 0;
    while i < |rows|
      invariant 0 <= i <= |rows|
      invariant orders.Keys == Names(rows[..i])
      invariant forall name :: name in orders ==> orders[name] == Total(rows[..i], name)
    {
      var name, quantity := rows[i].giftName, rows[i].quantity;
      if name in orders {
        orders := orders[name := Wrap32(orders[name] + quantity)];
      } else {
        orders := orders[name := quantity];
      }
      assert rows[..i + 1] == rows[..i] + [rows[i]];
      NamesSnoc(rows[..i], rows[i]);
      forall n | n in orders ensures orders[n] == Total(rows[..i + 1], n) {
        TotalSnoc(rows[..i], rows[i], n);
      }
      i := i + 1;
    }
    assert rows[..i] == rows;
  }

  /** Appending a row changes only its gift's total, by a wrapping `+=` or by a first insertion. */
  lemma TotalSnoc(rows: seq<Order>, row: Order, name: string)
    requires IsI32(row.quantity)
    ensures Total(rows + [row], name) ==
      if row.giftName != name then Total(rows, name)
      else if name in Names(rows) then Wrap32(Total(rows, name) + row.quantity)
      else row.quantity
  {
    var all := rows + [row];
    assert all[..|all| - 1] == rows;
    if row.giftName == name {
      if name in Names(rows) {
        WrapAdd(QuantitySum(rows, name), row.quantity);
      } else {
        NotNamedSumsZero(rows, name);
        WrapInRange(row.quantity);
      }
    }
  }

  lemma NamesSnoc(rows: seq<Order>, row: Order)
    ensures Names(rows + [row]) == Names(rows) + {row.giftName}
  {
    var all := rows + [row];
    forall n | n in Names(all) ensures n in Names(rows) + {row.giftName} {
      var i :| 0 <= i < |all| && all[i].giftName == n;
      if i < |rows| {
        assert rows[i].giftName == n;
      }
    }
    forall n | n in Names(rows) ensures n in Names(all) {
      var i :| 0 <= i < |rows| && rows[i].giftName == n;
      assert all[i].giftName == n;
    }
    assert all[|rows|].giftName == row.giftName;
  }

  lemma {:induction false} NotNamedSumsZero(rows: seq<Order>, name: string)
    requires name !in Names(rows)
    ensures QuantitySum(rows, name) == 0
  {
    if rows != [] {
      var init := rows[..|rows| - 1];
      forall n | n in Names(init) ensures n in Names(rows) {
        var i :| 0 <= i < |init| && init[i].giftName == n;
        assert rows[i].giftName == n;
      }
      NotNamedSumsZero(init, name);
      assert rows[|rows| - 1].giftName in Names(rows);
    }
  }

  /** A non-empty map to integers has a key whose value no other value exceeds. */
  lemma {:induction false} MaxKeyExists(m: map<string, int>)
    requires |m| > 0
    ensures exists k :: k in m && forall n :: n in m ==> m[n] <= m[k]
    decreases |m|
  {
    var k0 :| k0 in m;
    if |m| == 1 {
      forall n | n in m ensures n == k0 {
        if n != k0 {
          assert {n, k0} <= m.Keys;
          assert |{n, k0}| == 2;
          SubsetCard({n, k0}, m.Keys);
        }
      }
      assert forall n :: n in m ==> m[n] <= m[k0];
    } else {
      var rest := m - {k0};
      assert |rest| == |m| - 1 by {
        assert rest.Keys == m.Keys - {k0};
      }
      MaxKeyExists(rest);
      var k :| k in rest && forall n :: n in rest ==> rest[n] <= rest[k];
      if m[k0] <= m[k] {
        assert forall n :: n in m ==> m[n] <= m[k] by {
          forall n | n in m ensures m[n] <= m[k] {
            if n != k0 {
              assert n in rest;
            }
          }
        }
      } else {
        assert forall n :: n in m ==> m[n] <= m[k0] by {
          forall n | n in m ensures m[n] <= m[k0] {
            if n != k0 {
              assert n in rest;
            }
          }
        }
      }
    }
  }

  lemma SubsetCard(a: set<string>, b: set<string>)
    requires a <= b
    ensures |a| <= |b|
  {
    if a != {} {
      var x :| x in a;
      SubsetCard(a - {x}, b - {x});
    }
  }

  /**
   * `day18_popular_orders` over the fetched rows: none for no rows; otherwise a gift name of
   * the rows whose total no other gift's total exceeds (which one among equal totals depends
   * on the map's iteration order).
   */
  method PopularOrder(rows: seq<Order>) returns (popular: Option<string>)
    requires QuantitiesI32(rows)
    ensures popular.None? <==> rows == []
    ensures popular.Some? ==> popular.value in Names(rows)
    ensures popular.Some? ==> forall name :: name in Names(rows) ==> Total(rows, name) <= Total(rows, popular.value)
  {
    if rows == [] {
      return None;
    }
    var orders := GiftTotals(rows);
    assert rows[0].giftName in Names(rows);
    MaxKeyExists(orders);
    var name :| name in orders && forall n :: n in orders ==> orders[n] <= orders[name];
    return Some(name);
  }

  // ---------------------------------------------------------------- region totals

  /** A row of the per-region query: a region name and its total quantity. */
  datatype RegionTotal = RegionTotal(region: string, total: int)

  /** The order on `String`: lexicographic over the characters (which agrees with UTF-8 byte order). */
  predicate StrLe(a: string, b: string) {
    a == [] || (b != [] && (a[0] < b[0] || (a[0] == b[0] && StrLe(a[1..], b[1..]))))
  }

  lemma {:induction false} StrLeTotal(a: string, b: string)
    ensures StrLe(a, b) || StrLe(b, a)
  {
    if a != [] && b != [] && a[0] == b[0] {
      StrLeTotal(a[1..], b[1..]);
    }
  }

  lemma {:induction false} StrLeAntisymmetric(a: string, b: string)
    requires StrLe(a, b) && StrLe(b, a)
    ensures a == b
  {
    if a != [] && b != [] {
      StrLeAntisymmetric(a[1..], b[1..]);
      assert a == [a[0]] + a[1..] && b == [b[0]] + b[1..];
    }
  }

  lemma {:induction false} StrLeTransitive(a: string, b: string, c: string)
    requires StrLe(a, b) && StrLe(b, c)
    ensures StrLe(a, c)
  {
    if a != [] && b != [] && c != [] && a[0] == b[0] && b[0] == c[0] {
      StrLeTransitive(a[1..], b[1..], c[1..]);
    }
  }

  /** The derived `Ord` of `OrderPerRegionCount`: by region, then by total. */
  predicate Le(x: RegionTotal, y: RegionTotal) {
    if x.region == y.region then x.total <= y.total else StrLe(x.region, y.region)
  }

  lemma LeTotal(x: RegionTotal, y: RegionTotal)
    ensures Le(x, y) || Le(y, x)
  {
    StrLeTotal(x.region, y.region);
  }

  lemma LeAntisymmetric(x: RegionTotal, y: RegionTotal)
    requires Le(x, y) && Le(y, x)
    ensures x == y
  {
    if x.region != y.region {
      StrLeAntisymmetric(x.region, y.region);
    }
  }

  lemma LeTransitive(x: RegionTotal, y: RegionTotal, z: RegionTotal)
    requires Le(x, y) && Le(y, z)
    ensures Le(x, z)
  {
    if x.region != y.region && y.region != z.region {
      StrLeTransitive(x.region, y.region, z.region);
      if x.region == z.region {
        StrLeAntisymmetric(x.region, y.region);
      }
    } else if x.region == y.region && y.region != z.region {
    } else if x.region != y.region && y.region == z.region {
    }
  }

  /** Each element is at most its successor. */
  predicate Sorted(s: seq<RegionTotal>) {
    forall k :: 0 < k < |s| ==> Le(s[k - 1], s[k])
  }

  lemma SortedTail(s: seq<RegionTotal>)
    requires Sorted(s) && s != []
    ensures Sorted(s[1..])
    ensures multiset(s[1..]) == multiset(s) - multiset{s[0]}
  {
    forall k | 0 < k < |s[1..]| ensures Le(s[1..][k - 1], s[1..][k]) {
      assert s[1..][k - 1] == s[k] && s[1..][k] == s[k + 1];
    }
    assert s == [s[0]] + s[1..];
  }

  /** The first element of a sorted sequence is at most every element. */
  lemma {:induction false} SortedFirstIsLeast(s: seq<RegionTotal>, x: RegionTotal)
    requires Sorted(s) && x in multiset(s)
    ensures Le(s[0], x)
  {
    if s[0] == x {
      LeTotal(x, x);
    } else {
      SortedTail(s);
      SortedFirstIsLeast(s[1..], x);
      LeTransitive(s[0], s[1], x);
    }
  }

  /** Sorting has one answer: two sorted arrangements of the same elements are equal. */
  lemma {:induction false} SortedUnique(s: seq<RegionTotal>, t: seq<RegionTotal>)
    requires Sorted(s) && Sorted(t) && multiset(s) == multiset(t)
    ensures s == t
    decreases |s|
  {
    if s == [] {
      assert |multiset(t)| == 0;
    } else {
      SameFirst(s, t);
      SortedTail(s);
      SortedTail(t);
      SortedUnique(s[1..], t[1..]);
      assert s == [s[0]] + s[1..];
      assert t == [t[0]] + t[1..];
    }
  }

  /** Two sorted arrangements of the same non-empty multiset start with the same element. */
  lemma SameFirst(s: seq<RegionTotal>, t: seq<RegionTotal>)
    requires Sorted(s) && Sorted(t) && multiset(s) == multiset(t) && s != []
    ensures t != [] && s[0] == t[0]
  {
    assert s[0] in multiset(t);
    assert t != [];
    assert t[0] in multiset(s);
    SortedFirstIsLeast(t, s[0]);
    SortedFirstIsLeast(s, t[0]);
    LeAntisymmetric(s[0], t[0]);
  }

  /**
   * The body of `day18_total_orders_per_region` once the rows are read: collect them into a
   * vector and sort it. The answer is the rows in ascending order.
   */
  method TotalsPerRegion(rows: seq<RegionTotal>) returns (totals: seq<RegionTotal>)
    ensures Sorted(totals)
    ensures multiset(totals) == multiset(rows)
  {
    var a := new RegionTotal[|rows|](i requires 0 <= i < |rows| => rows[i]);
    assert a[..] == rows;
    SortTotals(a);
    totals := a[..];
  }

  /** The first `n` elements of `a` are sorted. */
  predicate SortedUpTo(a: array<RegionTotal>, n: int)
    reads a
  {
    forall k :: 0 < k < n && k < a.Length ==> Le(a[k - 1], a[k])
  }

  /**
   * `totals.sort()`: the array ends up sorted and holds the same elements. By `SortedUnique`
   * this is the arrangement any correct sort produces, so the algorithm used here (insertion by
   * swaps) does not show in the result.
   */
  method SortTotals(a: array<RegionTotal>)
    modifies a
    ensures Sorted(a[..])
    ensures multiset(a[..]) == multiset(old(a[..]))
  {
    var i := 0;
    while i < a.Length
      invariant 0 <= i <= a.Length
      invariant SortedUpTo(a, i)
      invariant multiset(a[..]) == multiset(old(a[..]))
    {
      Insert(a, i);
      i := i + 1;
    }
  }

  /** Moves `a[i]` left into the sorted prefix `a[..i]`, so that `a[..i + 1]` is sorted. */
  method Insert(a: array<RegionTotal>, i: int)
    requires 0 <= i < a.Length && SortedUpTo(a, i)
    modifies a
    ensures SortedUpTo(a, i + 1)
    ensures multiset(a[..]) == multiset(old(a[..]))
  {
    var j := i;
    while j > 0 && !Le(a[j - 1], a[j])
      invariant 0 <= j <= i
      invariant forall k :: 0 < k <= i && k != j ==> Le(a[k - 1], a[k])
      invariant 0 < j < i ==> Le(a[j - 1], a[j + 1])
      invariant multiset(a[..]) == multiset(old(a[..]))
    {
      LeTotal(a[j - 1], a[j]);
      Swap(a, j - 1, j);
      j := j - 1;
    }
  }

  /** Exchanges two neighbouring elements. */
  method Swap(a: array<RegionTotal>, k: int, l: int)
    requires 0 <= k < l < a.Length && l == k + 1
    modifies a
    ensures a[k] == old(a[l]) && a[l] == old(a[k])
    ensures forall m :: 0 <= m < a.Length && m != k && m != l ==> a[m] == old(a[m])
    ensures multiset(a[..]) == multiset(old(a[..]))
  {
    a[k], a[l] := a[l], a[k];
  }
}
