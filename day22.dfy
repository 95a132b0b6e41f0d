/**
 * /22 (src/day_22.rs): `day22_integers` counts the integers of the body in a map and answers
 * with as many presents as the integer seen once; `day22_stars` files its portals in an
 * adjacency map. The star coordinates, the breadth-first search and the distance sum are not
 * modelled, so the portals come in as already parsed pairs.
 */
module Presents {
  import opened Wrappers
  import Text
  import Decimal

  // ---------------------------------------------------------------- day22_integers

  /** Every line of the body parses as a `u64`, as the `unwrap` demands. */
  predicate AllU64(lines: seq<string>) {
    forall i :: 0 <= i < |lines| ==> Decimal.ParseU64(lines[i]).Some?
  }

  /** The integers of the lines, in order. */
  function Values(lines: seq<string>): (vs: seq<int>)
    requires AllU64(lines)
    ensures |vs| == |lines|
    ensures forall i :: 0 <= i < |lines| ==> Decimal.ParseU64(lines[i]) == Some(vs[i])
  {
    seq(|lines|, i requires 0 <= i < |lines| => Decimal.ParseU64(lines[i]).value)
  }

  /** How often `v` occurs in `vs`. */
  function Count(vs: seq<int>, v: int): (n: nat)
    ensures n <= |vs|
    ensures n > 0 <==> v in vs
  {
    if vs == [] then 0 else Count(vs[..|vs| - 1], v) + (if vs[|vs| - 1] == v then 1 else 0)
  }

  lemma CountSnoc(vs: seq<int>, x: int, v: int)
    ensures Count(vs + [x], v) == Count(vs, v) + (if x == v then 1 else 0)
  {
    assert (vs + [x])[..|vs|] == vs;
  }

  /** The `for_each` filling `parsed_data`: every integer maps to the number of times it occurs. */
  method CountValues(vs: seq<int>) returns (counts: map<int, int>)
    ensures counts.Keys == set v | v in vs
    ensures forall v :: v in counts ==> counts[v] == Count(vs, v)
  {
    counts := map[];
    var i := 0;
    while i < |vs|
      invariant 0 <= i <= |vs|
      invariant counts.Keys == set v | v in vs[..i]
      invariant forall v :: v in counts ==> counts[v] == Count(vs[..i], v)
    {
      var integer := vs[i];
      assert vs[..i + 1] == vs[..i] + [integer];
      forall v ensures Count(vs[..i + 1], v) == Count(vs[..i], v) + (if integer == v then 1 else 0) {
        CountSnoc(vs[..i], integer, v);
      }
      if integer in counts {
        counts := counts[integer := counts[integer] + 1];
      } else {
        counts := counts[integer := 1];
      }
      i := i + 1;
    }
    assert vs[..i] == vs;
  }

  const PRESENT: char := '\U{1F381}'

  /** `"🎁".repeat(n)`. */
  function Presents(n: nat): (s: string)
    ensures |s| == n
    ensures forall i :: 0 <= i < n ==> s[i] == PRESENT
  {
    seq(n, _ => PRESENT)
  }

  /**
   * `day22_integers`: split the body into lines, count the integers and answer with that many
   * presents for an integer counted once (which one, when several are, depends on the map's
   * iteration order). Every line must be a `u64` and some integer must occur exactly once; the
   * handler panics otherwise.
   */
  method Day22Integers(data: string) returns (presents: string)
    requires AllU64(Text.Lines(data))
    requires exists i :: 0 <= i < |Text.Lines(data)| && Count(Values(Text.Lines(data)), Values(Text.Lines(data))[i]) == 1
    ensures exists n: nat :: n in Values(Text.Lines(data)) && Count(Values(Text.Lines(data)), n) == 1 && presents == Presents(n)
  {
    var vs := Values(Text.Lines(data));
    var counts := CountValues(vs);
    ghost var i :| 0 <= i < |vs| && Count(vs, vs[i]) == 1;
    assert vs[i] in counts;
    var singleInt :| singleInt in counts && counts[singleInt] == 1;
    assert singleInt in vs;
    AllValuesNatural(Text.Lines(data), singleInt);
    presents := Presents(singleInt);
  }

  lemma AllValuesNatural(lines: seq<string>, v: int)
    requires AllU64(lines) && v in Values(lines)
    ensures 0 <= v <= Decimal.U64_MAX
  {
    var i :| 0 <= i < |lines| && Values(lines)[i] == v;
    assert Decimal.ParseU64(lines[i]) == Some(v);
  }

  // ---------------------------------------------------------------- portals

  /** The sources of `pairs`, each once, in order of first appearance. */
  function Sources(pairs: seq<(int, int)>): (s: seq<int>)
    ensures forall i, j :: 0 <= i < j < |s| ==> s[i] != s[j]
  {
    if pairs == [] then []
    else
      var init := Sources(pairs[..|pairs| - 1]);
      var src := pairs[|pairs| - 1].0;
      if src in init then init else init + [src]
  }

  /** `Sources` holds exactly the numbers some portal leaves from. */
  lemma {:induction false} SourcesAreTheSources(pairs: seq<(int, int)>, x: int)
    ensures x in Sources(pairs) <==> exists k :: 0 <= k < |pairs| && pairs[k].0 == x
  {
    if pairs != [] {
      var init := pairs[..|pairs| - 1];
      SourcesAreTheSources(init, x);
      if exists k :: 0 <= k < |pairs| && pairs[k].0 == x {
        var k :| 0 <= k < |pairs| && pairs[k].0 == x;
        if k < |init| {
          assert init[k].0 == x;
        }
      }
      if exists k :: 0 <= k < |init| && init[k].0 == x {
        var k :| 0 <= k < |init| && init[k].0 == x;
        assert pairs[k].0 == x;
      }
    }
  }

  /** The destinations of the portals leaving `source`, in input order. */
  function Destinations(pairs: seq<(int, int)>, source: int): seq<int> {
    if pairs == [] then []
    else
      var last := pairs[|pairs| - 1];
      Destinations(pairs[..|pairs| - 1], source) + (if last.0 == source then [last.1] else [])
  }

  /** The sum of the lengths of the lists filed under `keys`. */
  function LengthSum(keys: seq<int>, paths: map<int, seq<int>>): nat
    requires forall k :: k in keys ==> k in paths
  {
    if keys == [] then 0
    else
      var last := keys[|keys| - 1];
      assert last in keys;
      LengthSum(keys[..|keys| - 1], paths) + |paths[last]|
  }

  /**
   * The `for_each` that fills `portal_paths`: each source maps to its destinations in input
   * order, the keys are exactly the sources, and all lists together hold one entry per portal.
   */
  method PortalPaths(pairs: seq<(int, int)>) returns (paths: map<int, seq<int>>)
    ensures forall x :: x in paths <==> x in Sources(pairs)
    ensures forall x :: x in paths ==> paths[x] == Destinations(pairs, x)
    ensures LengthSum(Sources(pairs), paths) == |pairs|
  {
    paths := map[];
    var i := 0;
    while i < |pairs|
      invariant 0 <= i <= |pairs|
      invariant forall x :: x in paths <==> x in Sources(pairs[..i])
      invariant forall x :: x in paths ==> paths[x] == Destinations(pairs[..i], x)
    {
      var (source, destination) := pairs[i];
      assert pairs[..i + 1][..i] == pairs[..i] && pairs[..i + 1][i] == pairs[i];
      if source !in paths {
        NoPortalsNoDestinations(pairs[..i], source);
      }
      if source in paths {
        paths := paths[source := paths[source] + [destination]];
      } else {
        paths := paths[source := [destination]];
      }
      i := i + 1;
    }
    assert pairs[..i] == pairs;
    PortalCount(pairs, paths);
  }

  /** Every portal is filed under exactly one source. */
  lemma {:induction false} PortalCount(pairs: seq<(int, int)>, paths: map<int, seq<int>>)
    requires forall x :: x in Sources(pairs) ==> x in paths && paths[x] == Destinations(pairs, x)
    ensures LengthSum(Sources(pairs), paths) == |pairs|
  {
    if pairs != [] {
      var init := pairs[..|pairs| - 1];
      var last := pairs[|pairs| - 1];
      var keys := Sources(init);
      var before := map x | x in keys :: Destinations(init, x);
      PortalCount(init, before);
      assert LengthSum(keys, paths) == LengthSum(keys, before) + (if last.0 in keys then 1 else 0) by {
        forall k | k in keys
          ensures k in paths && |paths[k]| == |before[k]| + (if k == last.0 then 1 else 0)
        {
          assert k in Sources(pairs);
        }
        SumShift(keys, before, paths, last.0);
      }
      if last.0 !in keys {
        NewSourceCount(pairs, paths);
      }
    }
  }

  /** A portal from a new source files a one-element list under a new last key. */
  lemma NewSourceCount(pairs: seq<(int, int)>, paths: map<int, seq<int>>)
    requires pairs != [] && pairs[|pairs| - 1].0 !in Sources(pairs[..|pairs| - 1])
    requires forall x :: x in Sources(pairs) ==> x in paths && paths[x] == Destinations(pairs, x)
    ensures LengthSum(Sources(pairs), paths) == LengthSum(Sources(pairs[..|pairs| - 1]), paths) + 1
  {
    var init := pairs[..|pairs| - 1];
    var last := pairs[|pairs| - 1];
    var keys := Sources(init);
    NoPortalsNoDestinations(init, last.0);
    assert Sources(pairs) == keys + [last.0];
    assert (keys + [last.0])[..|keys|] == keys;
    assert |paths[last.0]| == 1;
  }

  lemma {:induction false} NoPortalsNoDestinations(pairs: seq<(int, int)>, source: int)
    requires source !in Sources(pairs)
    ensures Destinations(pairs, source) == []
  {
    if pairs != [] {
      var init := pairs[..|pairs| - 1];
      assert source !in Sources(init);
      NoPortalsNoDestinations(init, source);
    }
  }

  /**
   * Over distinct keys, lengthening the list under `key` by one (and no other) lengthens the
   * sum by one when `key` is among them.
   */
  lemma {:induction false} SumShift(keys: seq<int>, before: map<int, seq<int>>, after: map<int, seq<int>>, key: int)
    requires forall i, j :: 0 <= i < j < |keys| ==> keys[i] != keys[j]
    requires forall k :: k in keys ==> k in before && k in after && |after[k]| == |before[k]| + (if k == key then 1 else 0)
    ensures LengthSum(keys, after) == LengthSum(keys, before) + (if key in keys then 1 else 0)
  {
    if keys != [] {
      var init := keys[..|keys| - 1];
      assert forall k :: k in init ==> k in keys;
      SumShift(init, before, after, key);
      assert key in keys <==> key in init || keys[|keys| - 1] == key;
      if keys[|keys| - 1] == key {
        assert key !in init;
      }
    }
  }
}
