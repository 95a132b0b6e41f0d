/**
 * The cookie pantry of /7/bake (src/day_07.rs): `Ingredients::bake` subtracts a recipe from a
 * pantry in place, and the handler bakes until the pantry runs short.
 */
module Bakery {
  import opened MachineInt

  /** The five amounts of an `Ingredients` record, as a value. */
  datatype Amounts = Amounts(flour: int, sugar: int, butter: int, bakingPowder: int, chocolateChips: int)

  /** The handler's answer: the number of cookies and what is left in the pantry. */
  datatype BakeResult = BakeResult(cookies: int, pantry: Amounts)

  predicate AllI32(a: Amounts) {
    IsI32(a.flour) && IsI32(a.sugar) && IsI32(a.butter) && IsI32(a.bakingPowder) && IsI32(a.chocolateChips)
  }

  /** Every amount of `p` is at least the matching amount of `r`: the five guards of `bake`. */
  predicate Covers(p: Amounts, r: Amounts) {
    p.flour >= r.flour && p.sugar >= r.sugar && p.butter >= r.butter
    && p.bakingPowder >= r.bakingPowder && p.chocolateChips >= r.chocolateChips
  }

  /** Fieldwise `p - r` with an i32 wrap on each field, as the five `-=` of a release build do. */
  function Minus(p: Amounts, r: Amounts): (m: Amounts)
    ensures AllI32(m)
  {
    Amounts(Wrap32(p.flour - r.flour), Wrap32(p.sugar - r.sugar), Wrap32(p.butter - r.butter),
            Wrap32(p.bakingPowder - r.bakingPowder), Wrap32(p.chocolateChips - r.chocolateChips))
  }

  /** Some amount of the recipe is positive, so every successful bake uses something up. */
  predicate SomePositive(r: Amounts) {
    r.flour > 0 || r.sugar > 0 || r.butter > 0 || r.bakingPowder > 0 || r.chocolateChips > 0
  }

  /**
   * The inputs on which the baking loop is known to end without wrapping back: the recipe takes
   * something (so every bake lowers `Measure`), or the pantry fails the first bake already.
   */
  predicate BakingEnds(p: Amounts, r: Amounts) {
    SomePositive(r) || !Covers(p, r)
  }

  function Part(amount: int, needed: int): nat {
    if needed > 0 && amount > 0 then amount else 0
  }

  /** What is left of the ingredients the recipe consumes; every successful bake lowers it. */
  function Measure(p: Amounts, r: Amounts): nat {
    Part(p.flour, r.flour) + Part(p.sugar, r.sugar) + Part(p.butter, r.butter)
    + Part(p.bakingPowder, r.bakingPowder) + Part(p.chocolateChips, r.chocolateChips)
  }

  /** What one batch takes of an ingredient the recipe asks `needed` of. */
  function Used(needed: int): nat {
    if needed > 0 then needed else 0
  }

  lemma PartDrops(amount: int, needed: int)
    requires IsI32(amount) && IsI32(needed) && amount >= needed
    ensures Part(Wrap32(amount - needed), needed) + Used(needed) == Part(amount, needed)
  {
    if needed > 0 {
      WrapInRange(amount - needed);
    }
  }

  lemma MeasureDrops(p: Amounts, r: Amounts)
    requires AllI32(p) && AllI32(r) && SomePositive(r) && Covers(p, r)
    ensures Measure(Minus(p, r), r) < Measure(p, r)
  {
    var m := Minus(p, r);
    assert Part(m.flour, r.flour) + Used(r.flour) == Part(p.flour, r.flour) by {
      PartDrops(p.flour, r.flour);
    }
    assert Part(m.sugar, r.sugar) + Used(r.sugar) == Part(p.sugar, r.sugar) by {
      PartDrops(p.sugar, r.sugar);
    }
    assert Part(m.butter, r.butter) + Used(r.butter) == Part(p.butter, r.butter) by {
      PartDrops(p.butter, r.butter);
    }
    assert Part(m.bakingPowder, r.bakingPowder) + Used(r.bakingPowder) == Part(p.bakingPowder, r.bakingPowder) by {
      PartDrops(p.bakingPowder, r.bakingPowder);
    }
    assert Part(m.chocolateChips, r.chocolateChips) + Used(r.chocolateChips) == Part(p.chocolateChips, r.chocolateChips) by {
      PartDrops(p.chocolateChips, r.chocolateChips);
    }
  }

  /** The outcome of `while pantry.bake(&recipe) { cookie_counter += 1 }` started from `p`. */
  function Baked(p: Amounts, r: Amounts): (b: BakeResult)
    requires AllI32(p) && AllI32(r) && BakingEnds(p, r)
    ensures b.cookies >= 0 && AllI32(b.pantry)
    ensures !Covers(b.pantry, r)
    decreases Measure(p, r)
  {
    if Covers(p, r) then
      MeasureDrops(p, r);
      var rest := Baked(Minus(p, r), r);
      BakeResult(rest.cookies + 1, rest.pantry)
    else BakeResult(0, p)
  }

  /** A pantry that fails the first guard bakes nothing and is answered as it is. */
  lemma NothingBaked(p: Amounts, r: Amounts)
    requires AllI32(p) && AllI32(r) && !Covers(p, r)
    ensures Baked(p, r) == BakeResult(0, p)
  {
  }

  /**
   * The case the model leaves out: an all-zero recipe that the pantry covers bakes without
   * changing the pantry, so the next bake succeeds too and the loop never ends.
   */
  lemma ZeroRecipeNeverEnds(p: Amounts, r: Amounts)
    requires AllI32(p) && r == Amounts(0, 0, 0, 0, 0) && Covers(p, r)
    ensures Minus(p, r) == p && Covers(Minus(p, r), r) && !BakingEnds(p, r)
  {
    NoWrap(p, r);
  }

  /** Fieldwise `p + q` over the integers. */
  function Add(p: Amounts, q: Amounts): Amounts {
    Amounts(p.flour + q.flour, p.sugar + q.sugar, p.butter + q.butter,
            p.bakingPowder + q.bakingPowder, p.chocolateChips + q.chocolateChips)
  }

  /** Fieldwise `p - q` over the integers. */
  function Sub(p: Amounts, q: Amounts): Amounts {
    Amounts(p.flour - q.flour, p.sugar - q.sugar, p.butter - q.butter,
            p.bakingPowder - q.bakingPowder, p.chocolateChips - q.chocolateChips)
  }

  /** What `k` batches of the recipe `r` use. */
  function Scale(r: Amounts, k: nat): Amounts {
    if k == 0 then Amounts(0, 0, 0, 0, 0) else Add(Scale(r, k - 1), r)
  }

  predicate NonNegative(r: Amounts) {
    r.flour >= 0 && r.sugar >= 0 && r.butter >= 0 && r.bakingPowder >= 0 && r.chocolateChips >= 0
  }

  /** `c` batches of `r` fit in `p` (trivially so when `c` is 0) and `c + 1` batches do not. */
  predicate MostBatches(p: Amounts, r: Amounts, c: nat) {
    (c == 0 || Covers(p, Scale(r, c))) && !Covers(p, Scale(r, c + 1))
  }

  lemma CoversShift(p: Amounts, r: Amounts, s: Amounts)
    ensures Covers(p, Add(s, r)) <==> Covers(Sub(p, r), s)
    ensures Sub(Sub(p, r), s) == Sub(p, Add(s, r))
  {
  }

  /**
   * For a recipe of non-negative amounts no subtraction wraps: the number of cookies is the
   * largest `c` for which `c` batches of the recipe fit in the pantry, and the pantry keeps
   * exactly what those `c` batches leave.
   */
  lemma {:induction false} BakedIsMaximal(p: Amounts, r: Amounts)
    requires AllI32(p) && AllI32(r) && BakingEnds(p, r) && NonNegative(r)
    ensures Baked(p, r).pantry == Sub(p, Scale(r, Baked(p, r).cookies))
    ensures MostBatches(p, r, Baked(p, r).cookies)
    decreases Measure(p, r)
  {
    if Covers(p, r) {
      MeasureDrops(p, r);
      var q := Minus(p, r);
      NoWrap(p, r);
      BakedIsMaximal(q, r);
      var c := Baked(q, r).cookies;
      CoversShift(p, r, Scale(r, c));
      CoversShift(p, r, Scale(r, c + 1));
      assert Scale(r, c + 2) == Add(Scale(r, c + 1), r);
    } else {
      assert Scale(r, 1) == r;
      assert Sub(p, Scale(r, 0)) == p;
    }
  }

  lemma NoWrap(p: Amounts, r: Amounts)
    requires AllI32(p) && AllI32(r) && NonNegative(r) && Covers(p, r)
    ensures Minus(p, r) == Sub(p, r)
  {
    WrapInRange(p.flour - r.flour);
    WrapInRange(p.sugar - r.sugar);
    WrapInRange(p.butter - r.butter);
    WrapInRange(p.bakingPowder - r.bakingPowder);
    WrapInRange(p.chocolateChips - r.chocolateChips);
  }

  /** Every cookie uses up the recipe's amount of each ingredient it asks a positive amount of. */
  lemma CookiesUseUp(p: Amounts, r: Amounts)
    requires AllI32(p) && AllI32(r) && BakingEnds(p, r)
    ensures var s := Scale(r, Baked(p, r).cookies);
      && (r.flour > 0 ==> s.flour <= Part(p.flour, r.flour))
      && (r.sugar > 0 ==> s.sugar <= Part(p.sugar, r.sugar))
      && (r.butter > 0 ==> s.butter <= Part(p.butter, r.butter))
      && (r.bakingPowder > 0 ==> s.bakingPowder <= Part(p.bakingPowder, r.bakingPowder))
      && (r.chocolateChips > 0 ==> s.chocolateChips <= Part(p.chocolateChips, r.chocolateChips))
  {
    CookiesUseUpOf(p, r, Flour);
    CookiesUseUpOf(p, r, Sugar);
    CookiesUseUpOf(p, r, Butter);
    CookiesUseUpOf(p, r, BakingPowder);
    CookiesUseUpOf(p, r, ChocolateChips);
  }

  /** The five ingredients, to speak of one amount of a record at a time. */
  datatype Ingredient = Flour | Sugar | Butter | BakingPowder | ChocolateChips

  function Get(a: Amounts, i: Ingredient): int {
    match i
    case Flour => a.flour
    case Sugar => a.sugar
    case Butter => a.butter
    case BakingPowder => a.bakingPowder
    case ChocolateChips => a.chocolateChips
  }

  /** `Get` distributes over the record operations. */
  lemma GetOf(p: Amounts, r: Amounts, i: Ingredient)
    ensures Get(Minus(p, r), i) == Wrap32(Get(p, i) - Get(r, i))
    ensures Get(Add(p, r), i) == Get(p, i) + Get(r, i)
    ensures Covers(p, r) ==> Get(p, i) >= Get(r, i)
    ensures AllI32(p) ==> IsI32(Get(p, i))
  {
  }

  /** One successful bake: the run continues from the reduced pantry and counts one more. */
  lemma BakedStep(p: Amounts, r: Amounts)
    requires AllI32(p) && AllI32(r) && BakingEnds(p, r) && Covers(p, r)
    ensures SomePositive(r) && AllI32(Minus(p, r)) && Measure(Minus(p, r), r) < Measure(p, r)
    ensures Baked(p, r).cookies == Baked(Minus(p, r), r).cookies + 1
  {
    MeasureDrops(p, r);
  }

  /** One more batch uses `Get(r, i)` more of an ingredient and leaves that much less of it. */
  lemma UseUpStep(p: Amounts, r: Amounts, i: Ingredient, c: nat)
    requires AllI32(p) && AllI32(r) && Covers(p, r) && Get(r, i) > 0
    requires Get(Scale(r, c), i) <= Part(Get(Minus(p, r), i), Get(r, i))
    ensures Get(Scale(r, c + 1), i) <= Part(Get(p, i), Get(r, i))
  {
    GetOf(Scale(r, c), r, i);
    GetOf(p, r, i);
    PartDrops(Get(p, i), Get(r, i));
  }

  lemma {:induction false} CookiesUseUpOf(p: Amounts, r: Amounts, i: Ingredient)
    requires AllI32(p) && AllI32(r) && BakingEnds(p, r)
    ensures Get(r, i) > 0 ==> Get(Scale(r, Baked(p, r).cookies), i) <= Part(Get(p, i), Get(r, i))
    decreases Measure(p, r)
  {
    if Covers(p, r) && Get(r, i) > 0 {
      BakedStep(p, r);
      CookiesUseUpOf(Minus(p, r), r, i);
      UseUpStep(p, r, i, Baked(Minus(p, r), r).cookies);
    }
  }

  lemma {:induction false} ScaleAtLeastCount(r: Amounts, c: nat)
    ensures r.flour >= 1 ==> Scale(r, c).flour >= c
    ensures r.sugar >= 1 ==> Scale(r, c).sugar >= c
    ensures r.butter >= 1 ==> Scale(r, c).butter >= c
    ensures r.bakingPowder >= 1 ==> Scale(r, c).bakingPowder >= c
    ensures r.chocolateChips >= 1 ==> Scale(r, c).chocolateChips >= c
  {
    if c > 0 {
      ScaleAtLeastCount(r, c - 1);
    }
  }

  /** The `i32` cookie counter never overflows. */
  lemma CookiesFit(p: Amounts, r: Amounts)
    requires AllI32(p) && AllI32(r) && BakingEnds(p, r)
    ensures IsI32(Baked(p, r).cookies)
  {
    CookiesUseUp(p, r);
    ScaleAtLeastCount(r, Baked(p, r).cookies);
  }

  /** At most one count of batches is the largest that fits. */
  lemma MostBatchesUnique(p: Amounts, r: Amounts, c: nat, d: nat)
    requires NonNegative(r) && MostBatches(p, r, c) && MostBatches(p, r, d)
    ensures c == d
  {
    if c < d {
      ScaleMonotone(r, c + 1, d);
      CoversTransitive(p, Scale(r, d), Scale(r, c + 1));
    } else if d < c {
      ScaleMonotone(r, d + 1, c);
      CoversTransitive(p, Scale(r, c), Scale(r, d + 1));
    }
  }

  /** For a recipe of non-negative amounts, a count that is the most batches that fit is what `bake` answers. */
  lemma BakedFromCount(p: Amounts, r: Amounts, c: nat)
    requires AllI32(p) && AllI32(r) && BakingEnds(p, r) && NonNegative(r) && MostBatches(p, r, c)
    ensures Baked(p, r) == BakeResult(c, Sub(p, Scale(r, c)))
  {
    BakedIsMaximal(p, r);
    MostBatchesUnique(p, r, c, Baked(p, r).cookies);
  }

  /** The recipe and pantry of the handler's sample request give 4 cookies. */
  lemma SampleBake(p: Amounts, r: Amounts)
    requires p == Amounts(385, 507, 2122, 865, 457) && r == Amounts(95, 50, 30, 10, 50)
    ensures Baked(p, r) == BakeResult(4, Amounts(5, 307, 2002, 825, 257))
  {
    SampleFourBatches(p, r);
    BakedFromCount(p, r, 4);
    SampleScale(r);
  }

  lemma SampleFourBatches(p: Amounts, r: Amounts)
    requires p == Amounts(385, 507, 2122, 865, 457) && r == Amounts(95, 50, 30, 10, 50)
    ensures MostBatches(p, r, 4)
  {
    SampleScale(r);
  }

  lemma SampleScale(r: Amounts)
    requires r == Amounts(95, 50, 30, 10, 50)
    ensures Scale(r, 4) == Amounts(380, 200, 120, 40, 200)
    ensures Scale(r, 5) == Amounts(475, 250, 150, 50, 250)
  {
    assert Scale(r, 1) == r;
    assert Scale(r, 2) == Amounts(190, 100, 60, 20, 100);
    assert Scale(r, 3) == Amounts(285, 150, 90, 30, 150);
  }

  lemma CoversTransitive(a: Amounts, b: Amounts, c: Amounts)
    requires Covers(a, b) && Covers(b, c)
    ensures Covers(a, c)
  {
  }

  lemma {:induction false} ScaleMonotone(r: Amounts, j: nat, k: nat)
    requires j <= k && NonNegative(r)
    ensures Covers(Scale(r, k), Scale(r, j))
    decreases k
  {
    if j < k {
      ScaleMonotone(r, j, k - 1);
    }
  }

  /** An `Ingredients` record, updated in place by `bake`. */
  class Ingredients {
    var flour: int
    var sugar: int
    var butter: int
    var bakingPowder: int
    var chocolateChips: int

    constructor (a: Amounts)
      requires AllI32(a)
      ensures Snapshot() == a && Valid()
    {
      flour, sugar, butter, bakingPowder, chocolateChips := a.flour, a.sugar, a.butter, a.bakingPowder, a.chocolateChips;
    }

    function Snapshot(): Amounts
      reads this
    {
      Amounts(flour, sugar, butter, bakingPowder, chocolateChips)
    }

    /** Every field holds an i32, as the deserialised record does. */
    predicate Valid()
      reads this
    {
      AllI32(Snapshot())
    }

    /**
     * `bake`: when every amount covers the recipe, subtract the recipe field by field and answer
     * true; otherwise answer false and change nothing. The recipe is a different record (it is
     * borrowed shared while `self` is borrowed mutably) and is left alone.
     */
    method Bake(recipe: Ingredients) returns (baked: bool)
      requires recipe != this
      requires Valid() && recipe.Valid()
      modifies this
      ensures Valid()
      ensures baked <==> Covers(old(Snapshot()), recipe.Snapshot())
      ensures baked ==> Snapshot() == Minus(old(Snapshot()), recipe.Snapshot())
      ensures !baked ==> Snapshot() == old(Snapshot())
      ensures unchanged(recipe)
    {
      if flour < recipe.flour {
        return false;
      }
      if sugar < recipe.sugar {
        return false;
      }
      if butter < recipe.butter {
        return false;
      }
      if bakingPowder < recipe.bakingPowder {
        return false;
      }
      if chocolateChips < recipe.chocolateChips {
        return false;
      }
      flour := Wrap32(flour - recipe.flour);
      sugar := Wrap32(sugar - recipe.sugar);
      butter := Wrap32(butter - recipe.butter);
      bakingPowder := Wrap32(bakingPowder - recipe.bakingPowder);
      chocolateChips := Wrap32(chocolateChips - recipe.chocolateChips);
      return true;
    }
  }

  /**
   * The baking loop of `day07_get_task2`: bake until `bake` fails, counting the cookies. The
   * count and the pantry it leaves are those of `Baked`, and another bake would fail.
   */
  method BakeAll(recipe: Ingredients, pantry: Ingredients) returns (result: BakeResult)
    requires recipe != pantry
    requires recipe.Valid() && pantry.Valid() && BakingEnds(pantry.Snapshot(), recipe.Snapshot())
    modifies pantry
    ensures result == Baked(old(pantry.Snapshot()), recipe.Snapshot())
    ensures result.pantry == pantry.Snapshot() && IsI32(result.cookies)
    ensures !Covers(pantry.Snapshot(), recipe.Snapshot())
  {
    var r := recipe.Snapshot();
    ghost var goal := Baked(pantry.Snapshot(), r);
    CookiesFit(pantry.Snapshot(), r);
    var cookieCounter := 0;
    var baked := pantry.Bake(recipe);
    while baked
      invariant pantry.Valid() && recipe.Snapshot() == r
      invariant baked ==> SomePositive(r)
      invariant goal == if baked then BakeResult(cookieCounter + 1 + Baked(pantry.Snapshot(), r).cookies, Baked(pantry.Snapshot(), r).pantry)
                        else BakeResult(cookieCounter, pantry.Snapshot())
      invariant !baked ==> !Covers(pantry.Snapshot(), r)
      decreases Measure(pantry.Snapshot(), r) + (if baked then 1 else 0)
    {
      cookieCounter := cookieCounter + 1;
      ghost var before := pantry.Snapshot();
      baked := pantry.Bake(recipe);
      if baked {
        MeasureDrops(before, r);
      }
    }
    result := BakeResult(cookieCounter, pantry.Snapshot());
  }
}
