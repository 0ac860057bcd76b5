/** Java's 32-bit `int`, with the two's-complement wrap-around that `*` and
    `+` perform on overflow (section 15.17.1 and 15.18.2 of the Java
    Language Specification). */
module JavaInt {

  /** Number of distinct 32-bit values. */
  const Modulus: int := 0x1_0000_0000

  /** The values a Java `int` can hold. */
  type Int32 = x: int | -0x8000_0000 <= x < 0x8000_0000

  /** The `int` a Java expression yields when its exact value is `x`: the
      unique 32-bit value congruent to `x` modulo 2^32. */
  function Wrap(x: int): (r: Int32)
    ensures (x - r) % Modulus == 0
  {
    var m := x % Modulus;
    if m < 0x8000_0000 then m else m - Modulus
  }

  /** Only one 32-bit value is congruent to `x`, so `Wrap` is determined by
      its contract. */
  lemma {:induction false} WrapUnique(x: int, r: Int32)
    requires (x - r) % Modulus == 0
    ensures Wrap(x) == r
  {
    var w := Wrap(x);
    var k1 := (x - r) / Modulus;
    var k2 := (x - w) / Modulus;
    assert x - r == k1 * Modulus;
    assert x - w == k2 * Modulus;
    assert w - r == (k1 - k2) * Modulus;
    // |w - r| < Modulus, so the multiple is zero
    assert k1 - k2 == 0;
  }

  /** A value that already fits is left unchanged. */
  lemma WrapOfInt32(x: Int32)
    ensures Wrap(x) == x
  {
    WrapUnique(x, x);
  }

  /** Wrapping an intermediate result and then adding gives the same `int`
      as adding exactly and wrapping once: overflow in a sum of products
      loses nothing that the final wrap would keep. */
  lemma {:induction false} WrapAbsorbs(x: int, y: int)
    ensures Wrap(Wrap(x) + y) == Wrap(x + y)
  {
    var w := Wrap(x);
    var k := (x - w) / Modulus;
    assert x - w == k * Modulus;
    var v := Wrap(x + y);
    var j := (x + y - v) / Modulus;
    assert x + y - v == j * Modulus;
    assert (w + y) - v == (j - k) * Modulus;
    WrapUnique(w + y, v);
  }

  /** Multiplying after a wrap gives the same `int` as multiplying exactly. */
  lemma {:induction false} WrapMul31(x: int)
    ensures Wrap(31 * Wrap(x)) == Wrap(31 * x)
  {
    var w: int := Wrap(x);
    var k := (x - w) / Modulus;
    assert x - w == k * Modulus;
    assert 31 * x - 31 * w == (31 * k) * Modulus;
    WrapUnique(31 * w, Wrap(31 * x));
  }
}
