/**
 * Rust's fixed-width `i32` on top of Dafny's unbounded integers.
 * Arithmetic that overflows wraps around, as it does in a release build
 * (a debug build panics instead).
 */
module MachineInt {

  const TWO_32: int := 0x1_0000_0000
  const I32_MIN: int := -0x8000_0000
  const I32_MAX: int := 0x7FFF_FFFF

  predicate IsI32(x: int) {
    I32_MIN <= x <= I32_MAX
  }

  /** Two's-complement wrap-around of a mathematical integer into the `i32` range. */
  function Wrap32(x: int): (r: int)
    ensures IsI32(r)
    ensures (r - x) % TWO_32 == 0
  {
    var m := x % TWO_32;
    if m > I32_MAX then m - TWO_32 else m
  }

  /** Two `i32` values congruent modulo 2^32 are equal. */
  lemma CongruentI32(a: int, b: int)
    requires IsI32(a) && IsI32(b) && (a - b) % TWO_32 == 0
    ensures a == b
  {
    var k := (a - b) / TWO_32;
    assert a - b == TWO_32 * k;
  }

  /** Wrapping leaves a value that already fits unchanged. */
  lemma WrapInRange(x: int)
    requires IsI32(x)
    ensures Wrap32(x) == x
  {
    CongruentI32(Wrap32(x), x);
  }

  /** Wrapping after every step of a sum is the same as wrapping once at the end. */
  lemma WrapAdd(x: int, y: int)
    ensures Wrap32(Wrap32(x) + y) == Wrap32(x + y)
  {
    var a, b := Wrap32(Wrap32(x) + y), Wrap32(x + y);
    var k1 := (a - (Wrap32(x) + y)) / TWO_32;
    var k2 := (Wrap32(x) - x) / TWO_32;
    var k3 := (b - (x + y)) / TWO_32;
    assert a - (Wrap32(x) + y) == TWO_32 * k1;
    assert Wrap32(x) - x == TWO_32 * k2;
    assert b - (x + y) == TWO_32 * k3;
    assert a - b == TWO_32 * (k1 + k2 - k3);
    CongruentI32(a, b);
  }

  function Pow2(k: nat): (r: nat)
    ensures r >= 1
  {
    if k == 0 then 1 else 2 * Pow2(k - 1)
  }

  /** Bitwise exclusive or of two naturals, one binary digit at a time. */
  function XorNat(a: nat, b: nat): nat
    decreases a + b
  {
    if a == 0 && b == 0 then 0 else 2 * XorNat(a / 2, b / 2) + (a + b) % 2
  }

  lemma {:induction false} XorNatCommutes(a: nat, b: nat)
    ensures XorNat(a, b) == XorNat(b, a)
    decreases a + b
  {
    if a != 0 || b != 0 {
      XorNatCommutes(a / 2, b / 2);
    }
  }

  lemma {:induction false} XorNatDigits(a: nat, b: nat)
    ensures XorNat(a, b) % 2 == (a + b) % 2
    ensures XorNat(a, b) / 2 == XorNat(a / 2, b / 2)
  {
    if a == 0 && b == 0 {
      assert XorNat(a, b) == 0 == XorNat(a / 2, b / 2);
    } else {
      var q, d := XorNat(a / 2, b / 2), (a + b) % 2;
      assert d == 0 || d == 1;
      assert XorNat(a, b) == 2 * q + d;
      assert (2 * q + d) / 2 == q;
    }
  }

  lemma {:induction false} XorNatAssociates(a: nat, b: nat, c: nat)
    ensures XorNat(XorNat(a, b), c) == XorNat(a, XorNat(b, c))
    decreases a + b + c
  {
    if a != 0 || b != 0 || c != 0 {
      var ab, bc := XorNat(a, b), XorNat(b, c);
      XorNatDigits(a, b);
      XorNatDigits(b, c);
      XorNatDigits(ab, c);
      XorNatDigits(a, bc);
      XorNatAssociates(a / 2, b / 2, c / 2);
      Parity(a, b, c, ab, bc);
      SameDigits(XorNat(ab, c), XorNat(a, bc));
    }
  }

  lemma Parity(a: nat, b: nat, c: nat, ab: nat, bc: nat)
    requires ab % 2 == (a + b) % 2 && bc % 2 == (b + c) % 2
    ensures (ab + c) % 2 == (a + bc) % 2
  {
    assert ab - (a + b) == 2 * ((ab - (a + b)) / 2);
    assert bc - (b + c) == 2 * ((bc - (b + c)) / 2);
  }

  lemma SameDigits(l: nat, r: nat)
    requires l % 2 == r % 2 && l / 2 == r / 2
    ensures l == r
  {
  }

  lemma {:induction false} XorNatZero(a: nat)
    ensures XorNat(0, a) == a
    decreases a
  {
    if a != 0 {
      XorNatZero(a / 2);
    }
  }

  lemma {:induction false} XorNatSelf(a: nat)
    ensures XorNat(a, a) == 0
    decreases a
  {
    if a != 0 {
      XorNatSelf(a / 2);
    }
  }

  /** Exclusive or of two numbers below 2^k stays below 2^k. */
  lemma {:induction false} XorNatBound(a: nat, b: nat, k: nat)
    requires a < Pow2(k) && b < Pow2(k)
    ensures XorNat(a, b) < Pow2(k)
    decreases k
  {
    if a == 0 && b == 0 {
    } else if k == 0 {
    } else {
      XorNatBound(a / 2, b / 2, k - 1);
    }
  }

  /** The unsigned reading of an `i32`'s two's-complement bit pattern. */
  function Unsigned(x: int): (u: nat)
    requires IsI32(x)
    ensures u < TWO_32
  {
    if x < 0 then x + TWO_32 else x
  }

  /** The `i32` whose bit pattern reads as `u`. */
  function Signed(u: nat): (r: int)
    requires u < TWO_32
    ensures IsI32(r) && Unsigned(r) == u
  {
    if u > I32_MAX then u - TWO_32 else u
  }

  lemma Pow2Is32()
    ensures Pow2(32) == TWO_32
  {
    assert Pow2(4) == 16;
    assert Pow2(8) == 256;
    assert Pow2(12) == 4096;
    assert Pow2(16) == 65536;
    assert Pow2(20) == 1048576;
    assert Pow2(24) == 16777216;
    assert Pow2(28) == 268435456;
  }

  /** `i32` bitwise exclusive or (Rust's `^`). */
  function Xor32(x: int, y: int): (r: int)
    requires IsI32(x) && IsI32(y)
    ensures IsI32(r)
    ensures Unsigned(r) == XorNat(Unsigned(x), Unsigned(y))
  {
    Pow2Is32();
    XorNatBound(Unsigned(x), Unsigned(y), 32);
    Signed(XorNat(Unsigned(x), Unsigned(y)))
  }

  lemma UnsignedInjective(x: int, y: int)
    requires IsI32(x) && IsI32(y) && Unsigned(x) == Unsigned(y)
    ensures x == y
  {
  }

  lemma XorZero(x: int)
    requires IsI32(x)
    ensures Xor32(0, x) == x && Xor32(x, 0) == x
  {
    XorNatZero(Unsigned(x));
    XorNatCommutes(Unsigned(x), 0);
    UnsignedInjective(Xor32(0, x), x);
    UnsignedInjective(Xor32(x, 0), x);
  }

  lemma XorCommutes(x: int, y: int)
    requires IsI32(x) && IsI32(y)
    ensures Xor32(x, y) == Xor32(y, x)
  {
    XorNatCommutes(Unsigned(x), Unsigned(y));
    UnsignedInjective(Xor32(x, y), Xor32(y, x));
  }

  lemma XorAssociates(x: int, y: int, z: int)
    requires IsI32(x) && IsI32(y) && IsI32(z)
    ensures Xor32(Xor32(x, y), z) == Xor32(x, Xor32(y, z))
  {
    XorNatAssociates(Unsigned(x), Unsigned(y), Unsigned(z));
    UnsignedInjective(Xor32(Xor32(x, y), z), Xor32(x, Xor32(y, z)));
  }

  lemma XorSelf(x: int)
    requires IsI32(x)
    ensures Xor32(x, x) == 0
  {
    XorNatSelf(Unsigned(x));
    UnsignedInjective(Xor32(x, x), 0);
  }
}
