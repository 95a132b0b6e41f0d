/**
 * GET /1/{nums}: the numbers of a slash-separated path, exclusive-or'ed together
 * and cubed (src/day_01.rs).
 */
module XorCube {
  import opened Wrappers
  import opened MachineInt
  import Http
  import Decimal
  import Text

  /** At most this many numbers are accepted. */
  const MAX_NUMS: nat := 20

  /** Each segment parsed as an `i32`; `None` as soon as one fails (`collect` into a `Result`). */
  function ParseAll(segments: seq<string>): (r: Option<seq<int>>)
    ensures r.Some? <==> forall i :: 0 <= i < |segments| ==> Decimal.ParseI32(segments[i]).Some?
    ensures r.Some? ==> |r.value| == |segments|
    ensures r.Some? ==> forall i :: 0 <= i < |segments| ==> Decimal.ParseI32(segments[i]) == Some(r.value[i])
  {
    if segments == [] then Some([])
    else
      match ParseAll(segments[..|segments| - 1])
      case None => None
      case Some(init) =>
        match Decimal.ParseI32(segments[|segments| - 1])
        case None => None
        case Some(x) => Some(init + [x])
  }

  predicate AllI32(nums: seq<int>) {
    forall i :: 0 <= i < |nums| ==> IsI32(nums[i])
  }

  /** `nums.iter().fold(0, |acc, x| acc ^ x)`. */
  function XorFold(nums: seq<int>): (r: int)
    requires AllI32(nums)
    ensures IsI32(r)
  {
    if nums == [] then 0 else Xor32(XorFold(nums[..|nums| - 1]), nums[|nums| - 1])
  }

  /** `x.pow(3)` on `i32`, wrapping on overflow. */
  function Cube(x: int): (r: int)
    ensures IsI32(r)
  {
    Wrap32(x * x * x)
  }

  /** The handler: parse every segment first, then apply the length cap, then fold and cube. */
  function Day01Get(path: string): (r: Result<string, Http.StatusCode>)
    ensures r.Err? ==> r.error == Http.BAD_REQUEST || r.error == Http.URI_TOO_LONG
  {
    match ParseAll(Text.SplitTerminator(path, '/'))
    case None => Err(Http.BAD_REQUEST)
    case Some(nums) =>
      if |nums| > MAX_NUMS then Err(Http.URI_TOO_LONG)
      else Ok(Decimal.Show(Cube(XorFold(nums))))
  }

  /** Folding a concatenation is the exclusive or of the two folds. */
  lemma {:induction false} XorFoldAppend(a: seq<int>, b: seq<int>)
    requires AllI32(a) && AllI32(b)
    ensures AllI32(a + b) && XorFold(a + b) == Xor32(XorFold(a), XorFold(b))
    decreases |b|
  {
    assert AllI32(a + b);
    if b == [] {
      assert a + b == a;
      XorZero(XorFold(a));
    } else {
      var b' := b[..|b| - 1];
      assert (a + b)[..|a + b| - 1] == a + b';
      XorFoldAppend(a, b');
      XorAssociates(XorFold(a), XorFold(b'), b[|b| - 1]);
    }
  }

  /** Taking one number out of the middle of a fold. */
  lemma XorFoldExtract(b1: seq<int>, x: int, b2: seq<int>)
    requires AllI32(b1) && IsI32(x) && AllI32(b2)
    ensures AllI32(b1 + [x] + b2) && AllI32(b1 + b2)
    ensures XorFold(b1 + [x] + b2) == Xor32(XorFold(b1 + b2), x)
  {
    XorFoldAppend(b1 + [x], b2);
    XorFoldAppend(b1, [x]);
    XorFoldAppend(b1, b2);
    assert XorFold([x]) == x by {
      assert [x][..0] == [];
      XorZero(x);
    }
    XorAssociates(XorFold(b1), x, XorFold(b2));
    XorCommutes(x, XorFold(b2));
    XorAssociates(XorFold(b1), XorFold(b2), x);
  }

  lemma MultisetExtract(a': seq<int>, x: int, b1: seq<int>, b2: seq<int>)
    requires multiset(a' + [x]) == multiset(b1 + [x] + b2)
    ensures multiset(a') == multiset(b1 + b2)
  {
    var m, n := multiset(a'), multiset(b1 + b2);
    assert multiset(a' + [x]) == m + multiset{x};
    assert multiset(b1 + [x] + b2) == n + multiset{x} by {
      assert multiset(b1 + [x] + b2) == multiset(b1) + multiset{x} + multiset(b2);
    }
    forall y
      ensures m[y] == n[y]
    {
      assert (m + multiset{x})[y] == (n + multiset{x})[y];
    }
  }

  /** The result does not depend on the order of the numbers. */
  lemma {:induction false} XorFoldPermutation(a: seq<int>, b: seq<int>)
    requires AllI32(a) && AllI32(b)
    requires multiset(a) == multiset(b)
    ensures XorFold(a) == XorFold(b)
    decreases |a|
  {
    if a == [] {
      assert b == [];
    } else {
      var a', x, b1, b2 := PermutationSplit(a, b);
      XorFoldPermutation(a', b1 + b2);
      XorFoldExtract(b1, x, b2);
      XorFoldSnoc(a', x);
    }
  }

  /** The last number of `a` taken out of `a` and out of its rearrangement `b`. */
  lemma PermutationSplit(a: seq<int>, b: seq<int>) returns (a': seq<int>, x: int, b1: seq<int>, b2: seq<int>)
    requires AllI32(a) && AllI32(b) && multiset(a) == multiset(b) && a != []
    ensures a == a' + [x] && b == b1 + [x] + b2 && |a'| < |a|
    ensures AllI32(a') && IsI32(x) && AllI32(b1) && AllI32(b2)
    ensures multiset(a') == multiset(b1 + b2)
  {
    x := a[|a| - 1];
    a' := a[..|a| - 1];
    assert a == a' + [x];
    assert x in multiset(b);
    var i :| 0 <= i < |b| && b[i] == x;
    b1, b2 := b[..i], b[i + 1..];
    assert b == b1 + [x] + b2;
    AllI32Slice(a, 0, |a| - 1);
    AllI32Slice(b, 0, i);
    AllI32Slice(b, i + 1, |b|);
    MultisetExtract(a', x, b1, b2);
  }

  /** A slice of numbers that all fit `i32` fits too. */
  lemma AllI32Slice(nums: seq<int>, lo: nat, hi: nat)
    requires AllI32(nums) && lo <= hi <= |nums|
    ensures AllI32(nums[lo..hi])
  {
    forall k | 0 <= k < hi - lo
      ensures IsI32(nums[lo..hi][k])
    {
      assert nums[lo..hi][k] == nums[lo + k];
    }
  }

  /** A segment that is not an `i32` makes the request a bad request, however many segments there are. */
  lemma BadSegment(path: string, i: nat)
    requires i < |Text.SplitTerminator(path, '/')|
    requires Decimal.ParseI32(Text.SplitTerminator(path, '/')[i]).None?
    ensures Day01Get(path) == Err(Http.BAD_REQUEST)
  {
  }

  /** Once every segment parses, more than twenty is too long, and twenty or fewer is answered. */
  lemma LengthCap(path: string)
    requires ParseAll(Text.SplitTerminator(path, '/')).Some?
    ensures Day01Get(path).Err? <==> |Text.SplitTerminator(path, '/')| > MAX_NUMS
    ensures Day01Get(path).Err? ==> Day01Get(path).error == Http.URI_TOO_LONG
  {
  }

  /**
   * An answer is the canonical decimal rendering (`Display`) of the cubed fold, and parsing it
   * back gives that `i32`.
   */
  lemma AnswerIsCube(path: string)
    requires Day01Get(path).Ok?
    ensures var nums := ParseAll(Text.SplitTerminator(path, '/')).value;
      Day01Get(path) == Ok(Decimal.Show(Cube(XorFold(nums))))
      && Decimal.ParseI32(Day01Get(path).value) == Some(Cube(XorFold(nums)))
  {
    var nums := ParseAll(Text.SplitTerminator(path, '/')).value;
    Decimal.ShowParses(Cube(XorFold(nums)), I32_MIN, I32_MAX);
  }

  /** The cube is exact (no wrap-around) for every fold of magnitude at most 1290. */
  lemma CubeExact(x: int)
    requires -1290 <= x <= 1290
    ensures Cube(x) == x * x * x
  {
    var ax := if x < 0 then -x else x;
    CubeBound(ax);
    assert x * x * x == ax * ax * ax || x * x * x == -(ax * ax * ax);
    WrapInRange(x * x * x);
  }

  lemma CubeBound(a: nat)
    requires a <= 1290
    ensures a * a * a <= 2146689000
  {
    MulMonotone(a, 1290, a);
    MulMonotone(a, 1290, 1290);
    MulMonotone(a * a, 1664100, a);
    MulMonotone(a, 1290, 1664100);
  }

  lemma {:induction false} MulMonotone(x: int, y: int, c: nat)
    requires x <= y
    ensures x * c <= y * c
  {
    if c > 0 {
      MulMonotone(x, y, c - 1);
      assert x * c == x * (c - 1) + x;
      assert y * c == y * (c - 1) + y;
    }
  }

  lemma TrailingSlash()
    ensures Text.SplitTerminator("10/", '/') == ["10"]
    ensures Day01Get("10/") == Ok("1000")
  {
    TenSplit();
    TenParse();
    TenCube();
    ShowSmall();
    Answered("10/", [10]);
  }

  /** The one number 10 folds to itself and cubes to 1000 without wrapping. */
  lemma TenCube()
    ensures AllI32([10]) && Cube(XorFold([10])) == 1000
  {
    assert [10][..0] == [];
    XorZero(10);
    WrapInRange(1000);
  }

  /** `split_terminator` drops the empty piece after a trailing `/`. */
  lemma TenSplit()
    ensures Text.SplitTerminator("10/", '/') == ["10"]
  {
    assert Text.Join(["10", ""], '/') == "10/";
    Text.SplitJoin(["10", ""], '/');
  }

  /** The single segment "10" parses to the number 10. */
  lemma TenParse()
    ensures ParseAll(["10"]) == Some([10])
  {
    ParsesSmall("10", 10);
    ParseAllOf(["10"], [10]);
  }

  /** A path whose segments parse to at most twenty numbers is answered with their cubed fold. */
  lemma Answered(path: string, nums: seq<int>)
    requires ParseAll(Text.SplitTerminator(path, '/')) == Some(nums) && |nums| <= MAX_NUMS
    ensures AllI32(nums) && Day01Get(path) == Ok(Decimal.Show(Cube(XorFold(nums))))
  {
  }

  lemma ShowSmall()
    ensures Decimal.Show(1000) == "1000" && Decimal.Show(27) == "27" && Decimal.Show(0) == "0"
  {
    assert Decimal.Digits(1) == "1";
    assert Decimal.Digits(10) == "10";
    assert Decimal.Digits(100) == "100";
    assert Decimal.Digits(2) == "2";
  }

  lemma FourNumbers()
    ensures Day01Get("4/5/8/10") == Ok("27")
  {
    FourSegments();
    FourFold();
    assert Cube(3) == 27 by {
      WrapInRange(27);
    }
    ShowSmall();
  }

  lemma FourSegments()
    ensures ParseAll(Text.SplitTerminator("4/5/8/10", '/')) == Some([4, 5, 8, 10])
  {
    FourSplit();
    FourParse();
  }

  /** The path "4/5/8/10" splits into its four segments. */
  lemma FourSplit()
    ensures Text.SplitTerminator("4/5/8/10", '/') == ["4", "5", "8", "10"]
  {
    assert Text.Join(["4", "5", "8", "10"], '/') == "4/5/8/10";
    Text.SplitJoin(["4", "5", "8", "10"], '/');
  }

  /** The four segments parse to the numbers they spell. */
  lemma FourParse()
    ensures ParseAll(["4", "5", "8", "10"]) == Some([4, 5, 8, 10])
  {
    ParsesSmall("4", 4);
    ParsesSmall("5", 5);
    ParsesSmall("8", 8);
    ParsesSmall("10", 10);
    ParseAllOf(["4", "5", "8", "10"], [4, 5, 8, 10]);
  }

  /** One more step of the fold. */
  lemma XorFoldSnoc(nums: seq<int>, x: int)
    requires AllI32(nums) && IsI32(x)
    ensures AllI32(nums + [x]) && XorFold(nums + [x]) == Xor32(XorFold(nums), x)
  {
    assert (nums + [x])[..|nums|] == nums;
  }

  /** 4 XOR 5 XOR 8 XOR 10 is 3. */
  lemma FourFold()
    ensures XorFold([4, 5, 8, 10]) == 3
  {
    XorZero(4);
    XorFoldSnoc([], 4);
    assert [] + [4] == [4];
    assert XorNat(4, 5) == 1;
    XorFoldSnoc([4], 5);
    assert [4] + [5] == [4, 5];
    assert XorNat(1, 8) == 9;
    XorFoldSnoc([4, 5], 8);
    assert [4, 5] + [8] == [4, 5, 8];
    assert XorNat(9, 10) == 3;
    XorFoldSnoc([4, 5, 8], 10);
    assert [4, 5, 8] + [10] == [4, 5, 8, 10];
  }

  lemma NotParseable()
    ensures Day01Get("2/a/3/") == Err(Http.BAD_REQUEST)
  {
    assert Text.Join(["2", "a", "3", ""], '/') == "2/a/3/";
    Text.SplitJoin(["2", "a", "3", ""], '/');
    BadSegment("2/a/3/", 1);
  }

  /** The digit string `s` of a small number parses to it. */
  lemma ParsesSmall(s: string, n: nat)
    requires n < 100 && s == Decimal.Digits(n)
    ensures Decimal.ParseI32(s) == Some(n)
  {
    Decimal.ShowParses(n, I32_MIN, I32_MAX);
  }

  /** Segments that each parse to the matching value parse together to all of them. */
  lemma ParseAllOf(segments: seq<string>, values: seq<int>)
    requires |values| == |segments|
    requires forall i :: 0 <= i < |segments| ==> Decimal.ParseI32(segments[i]) == Some(values[i])
    ensures ParseAll(segments) == Some(values)
  {
    var r := ParseAll(segments);
    assert r.value == values;
  }
}
