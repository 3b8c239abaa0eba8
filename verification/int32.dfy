/** Arithmetic on C#'s `int` as the commands perform it.

    C# evaluates `int` arithmetic in an unchecked context by default: an
    addition, subtraction or multiplication whose exact result does not fit
    in 32 bits keeps only the low 32 bits, read back in two's complement.
    Integer division truncates toward zero, so the remainder takes the sign
    of the dividend (unlike Dafny's Euclidean `/`). */
module Int32 {

  const Modulus: int := 0x1_0000_0000
  const MinValue: int := -0x8000_0000
  const MaxValue: int := 0x7FFF_FFFF

  type int32 = x: int | -0x8000_0000 <= x <= 0x7FFF_FFFF

  predicate InRange(x: int) {
    MinValue <= x <= MaxValue
  }

  /** `x` and `y` agree in their low 32 bits. */
  predicate Congruent(x: int, y: int) {
    (x - y) % Modulus == 0
  }

  /** The `int` that an unchecked C# operation stores when its exact result is `x`. */
  function Wrap(x: int): (r: int32)
    ensures Congruent(r, x)
    ensures InRange(x) ==> r == x
  {
    var low := (x - MinValue) % Modulus;
    var q := (x - MinValue) / Modulus;
    assert x - MinValue == q * Modulus + low;
    low + MinValue
  }

  /** C#'s `x / 2` on an `int`: rounds toward zero, never overflows. */
  function DivTwo(x: int32): (r: int32)
    ensures x >= 0 ==> 0 <= x - 2 * r <= 1
    ensures x < 0 ==> -1 <= x - 2 * r <= 0
  {
    var magnitude: int := if x >= 0 then x as int else -(x as int);
    var half := magnitude / 2;
    if x >= 0 then half else -half
  }

  lemma CongruentTransitive(x: int, y: int, z: int)
    requires Congruent(x, y) && Congruent(y, z)
    ensures Congruent(x, z)
  {
    var p := (x - y) / Modulus;
    var q := (y - z) / Modulus;
    assert x - z == (p + q) * Modulus;
  }

  lemma CongruentSymmetric(x: int, y: int)
    requires Congruent(x, y)
    ensures Congruent(y, x)
  {
    var p := (x - y) / Modulus;
    assert y - x == (-p) * Modulus;
  }

  /** Shifting both sides by the same amount keeps them congruent. */
  lemma CongruentShift(x: int, y: int, k: int)
    requires Congruent(x, y)
    ensures Congruent(x + k, y + k)
  {
    assert (x + k) - (y + k) == x - y;
  }

  /** Two `int` values with the same low 32 bits are the same value. */
  lemma CongruentInt32Equal(a: int32, b: int32)
    requires Congruent(a, b)
    ensures a == b
  {
    var q := (a - b) / Modulus;
    assert a - b == q * Modulus;
  }

  /** Wrapping depends only on the low 32 bits of the exact result. */
  lemma WrapCongruent(x: int, y: int)
    requires Congruent(x, y)
    ensures Wrap(x) == Wrap(y)
  {
    CongruentTransitive(Wrap(x), x, y);
    CongruentSymmetric(Wrap(y), y);
    CongruentTransitive(Wrap(x), y, Wrap(y));
    CongruentInt32Equal(Wrap(x), Wrap(y));
  }

  /** Adding `k` with wrap-around and then subtracting `k` with wrap-around
      gives back the original value, for every `int`. */
  lemma WrapAddSub(v: int32, k: int)
    ensures Wrap(Wrap(v + k) - k) == v
  {
    CongruentShift(Wrap(v + k), v + k, -k);
    assert Wrap(v + k) - k - (v + k - k) == Wrap(v + k) - (v + k);
    WrapCongruent(Wrap(v + k) - k, v);
  }
}
