/**
 * POST /4/strength and POST /4/contest: aggregates over a list of reindeer
 * (src/day_04.rs). The `speed` field and the "fastest" entry are floating
 * point and are not part of this model.
 */
module Reindeers {
  import opened Wrappers
  import opened MachineInt
  import Http
  import Decimal

  datatype Reindeer = Reindeer(name: string, strength: int)

  datatype ContestReindeer = ContestReindeer(
    name: string,
    strength: int,
    height: int,
    antlerWidth: int,
    snowMagicPower: int,
    favoriteFood: string,
    candiesEatenYesterday: int)

  datatype ContestResult = ContestResult(tallest: string, magician: string, consumer: string)

  predicate StrengthsI32(herd: seq<Reindeer>) {
    forall i :: 0 <= i < |herd| ==> IsI32(herd[i].strength)
  }

  /** The mathematical sum of the strengths. */
  function TotalStrength(herd: seq<Reindeer>): int {
    if herd == [] then 0 else TotalStrength(herd[..|herd| - 1]) + herd[|herd| - 1].strength
  }

  /** `herd.iter().map(|r| r.strength).sum::<i32>()`: one wrapping `i32` addition per reindeer. */
  function SumStrength(herd: seq<Reindeer>): (r: int)
    ensures IsI32(r)
  {
    if herd == [] then 0 else Wrap32(SumStrength(herd[..|herd| - 1]) + herd[|herd| - 1].strength)
  }

  /** The handler's body: the strength sum in decimal. */
  function Day04Post(herd: seq<Reindeer>): string {
    Decimal.Show(SumStrength(herd))
  }

  /** Wrapping at every addition is wrapping the whole sum once. */
  lemma {:induction false} SumStrengthWraps(herd: seq<Reindeer>)
    ensures SumStrength(herd) == Wrap32(TotalStrength(herd))
  {
    if herd == [] {
      WrapInRange(0);
    } else {
      var init := herd[..|herd| - 1];
      SumStrengthWraps(init);
      WrapAdd(TotalStrength(init), herd[|herd| - 1].strength);
    }
  }

  /** The answer reads back as the strength sum, exact whenever that sum fits an `i32`; "0" for no reindeer. */
  lemma Day04PostIsSum(herd: seq<Reindeer>)
    ensures Day04Post(herd) == Decimal.Show(Wrap32(TotalStrength(herd)))
    ensures Decimal.ParseI32(Day04Post(herd)) == Some(Wrap32(TotalStrength(herd)))
    ensures IsI32(TotalStrength(herd)) ==> Decimal.ParseI32(Day04Post(herd)) == Some(TotalStrength(herd))
    ensures herd == [] ==> Day04Post(herd) == "0"
  {
    SumStrengthWraps(herd);
    Decimal.ShowParses(SumStrength(herd), I32_MIN, I32_MAX);
    if IsI32(TotalStrength(herd)) {
      WrapInRange(TotalStrength(herd));
    }
  }

  /**
   * `iter().max_by_key(key)` on a non-empty list: the index of a maximal element,
   * and of the LAST one when several are maximal.
   */
  function LastMaxBy<T>(s: seq<T>, key: T -> int): (i: nat)
    requires |s| > 0
    ensures i < |s|
    ensures forall j :: 0 <= j < |s| ==> key(s[j]) <= key(s[i])
    ensures forall j :: i < j < |s| ==> key(s[j]) < key(s[i])
  {
    if |s| == 1 then 0
    else
      var i := LastMaxBy(s[..|s| - 1], key);
      if key(s[i]) <= key(s[|s| - 1]) then |s| - 1 else i
  }

  function Height(r: ContestReindeer): int { r.height }
  function MagicPower(r: ContestReindeer): int { r.snowMagicPower }
  function Candies(r: ContestReindeer): int { r.candiesEatenYesterday }

  function TallestMessage(r: ContestReindeer): string {
    r.name + " is standing tall with his " + Decimal.Show(r.antlerWidth) + " cm wide antlers"
  }

  function MagicianMessage(r: ContestReindeer): string {
    r.name + " could blast you away with a snow magic power of " + Decimal.Show(r.snowMagicPower)
  }

  function ConsumerMessage(r: ContestReindeer): string {
    r.name + " ate lots of candies, but also some " + r.favoriteFood
  }

  /** The handler's body: an empty list is a bad request; otherwise the three integer-keyed winners. */
  function Day04Contest(herd: seq<ContestReindeer>): Result<ContestResult, Http.StatusCode> {
    if herd == [] then Err(Http.BAD_REQUEST)
    else
      var tallest := herd[LastMaxBy(herd, Height)];
      var magician := herd[LastMaxBy(herd, MagicPower)];
      var consumer := herd[LastMaxBy(herd, Candies)];
      Ok(ContestResult(TallestMessage(tallest), MagicianMessage(magician), ConsumerMessage(consumer)))
  }

  /** This reindeer's key is at least every reindeer's key. */
  predicate IsMaximal(herd: seq<ContestReindeer>, k: int, key: ContestReindeer -> int)
    requires 0 <= k < |herd|
  {
    forall j :: 0 <= j < |herd| ==> key(herd[j]) <= key(herd[k])
  }

  /**
   * The contest fails exactly on an empty list; otherwise each message is about a
   * member of the list whose key is at least every other member's key, and the
   * tallest reindeer's message reports that reindeer's antler width.
   */
  lemma ContestWinners(herd: seq<ContestReindeer>)
    ensures Day04Contest(herd).Err? <==> herd == []
    ensures Day04Contest(herd).Err? ==> Day04Contest(herd).error == Http.BAD_REQUEST
    ensures herd != [] ==>
      exists t, m, c :: 0 <= t < |herd| && 0 <= m < |herd| && 0 <= c < |herd|
        && IsMaximal(herd, t, Height) && IsMaximal(herd, m, MagicPower) && IsMaximal(herd, c, Candies)
        && Day04Contest(herd).value == ContestResult(TallestMessage(herd[t]), MagicianMessage(herd[m]), ConsumerMessage(herd[c]))
  {
    if herd != [] {
      var t, m, c := LastMaxBy(herd, Height), LastMaxBy(herd, MagicPower), LastMaxBy(herd, Candies);
      assert IsMaximal(herd, t, Height) && IsMaximal(herd, m, MagicPower) && IsMaximal(herd, c, Candies);
    }
  }

  /** The first sample herd: Dasher is tallest and strongest in magic, Dancer ate the most candies. */
  lemma ContestSample()
    ensures var dasher := ContestReindeer("Dasher", 5, 80, 36, 9001, "hay", 2);
      var dancer := ContestReindeer("Dancer", 6, 65, 37, 4004, "grass", 5);
      Day04Contest([dasher, dancer]) == Ok(ContestResult(
        TallestMessage(dasher), MagicianMessage(dasher), ConsumerMessage(dancer)))
  {
    var dasher := ContestReindeer("Dasher", 5, 80, 36, 9001, "hay", 2);
    var dancer := ContestReindeer("Dancer", 6, 65, 37, 4004, "grass", 5);
    var herd := [dasher, dancer];
    assert herd[..1] == [dasher];
    assert LastMaxBy(herd, Height) == 0;
    assert LastMaxBy(herd, MagicPower) == 0;
    assert LastMaxBy(herd, Candies) == 1;
  }

  /** The message texts of the sample, with the numbers rendered in decimal. */
  lemma SampleTallestMessage()
    ensures TallestMessage(ContestReindeer("Dasher", 5, 80, 36, 9001, "hay", 2))
      == "Dasher" + " is standing tall with his " + "36" + " cm wide antlers"
  {
    assert Decimal.Digits(3) == "3";
    assert Decimal.Digits(36) == "36";
  }

  lemma SampleMagicianMessage()
    ensures MagicianMessage(ContestReindeer("Dasher", 5, 80, 36, 9001, "hay", 2))
      == "Dasher" + " could blast you away with a snow magic power of " + "9001"
  {
    ShowMagicPower();
  }

  lemma ShowMagicPower()
    ensures Decimal.Show(9001) == "9001"
  {
    assert Decimal.Digits(9) == "9";
    assert Decimal.Digits(90) == "90";
    assert Decimal.Digits(900) == "900";
  }

  /** Nine reindeer of strengths 10, 20, ..., 90 give "450". */
  lemma StrengthSample()
    ensures Day04Post([
      Reindeer("Rudolph", 10), Reindeer("Dasher", 20), Reindeer("Dancer", 30),
      Reindeer("Prancer", 40), Reindeer("Vixen", 50), Reindeer("Comet", 60),
      Reindeer("Cupid", 70), Reindeer("Donner", 80), Reindeer("Blitzen", 90)]) == "450"
  {
    var herd := [
      Reindeer("Rudolph", 10), Reindeer("Dasher", 20), Reindeer("Dancer", 30),
      Reindeer("Prancer", 40), Reindeer("Vixen", 50), Reindeer("Comet", 60),
      Reindeer("Cupid", 70), Reindeer("Donner", 80), Reindeer("Blitzen", 90)];
    assert TotalStrength(herd[..0]) == 0;
    assert TotalStrength(herd[..1]) == 10 by { assert herd[..1][..0] == herd[..0]; }
    assert TotalStrength(herd[..2]) == 30 by { assert herd[..2][..1] == herd[..1]; }
    assert TotalStrength(herd[..3]) == 60 by { assert herd[..3][..2] == herd[..2]; }
    assert TotalStrength(herd[..4]) == 100 by { assert herd[..4][..3] == herd[..3]; }
    assert TotalStrength(herd[..5]) == 150 by { assert herd[..5][..4] == herd[..4]; }
    assert TotalStrength(herd[..6]) == 210 by { assert herd[..6][..5] == herd[..5]; }
    assert TotalStrength(herd[..7]) == 280 by { assert herd[..7][..6] == herd[..6]; }
    assert TotalStrength(herd[..8]) == 360 by { assert herd[..8][..7] == herd[..7]; }
    assert TotalStrength(herd) == 450 by { assert herd[..8] == herd[..|herd| - 1]; }
    SumStrengthWraps(herd);
    WrapInRange(450);
    assert Decimal.Digits(4) == "4";
    assert Decimal.Digits(45) == "45";
    assert Decimal.Digits(450) == "450";
  }
}
