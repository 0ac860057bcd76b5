/** `String.hashCode()` as the Java API documents it: the hash of the
    string's UTF-16 code units u[0..n) is u[0]*31^(n-1) + ... + u[n-1] in
    `int` arithmetic, computed by the loop `h = 31 * h + u[i]`. String.java
    itself is not part of this model. */
module JavaString {
  import opened JavaInt

  /** The UTF-16 code units of one character: itself below U+10000, else a
      surrogate pair (section 2.1 of RFC 2781). */
  function CodeUnits(c: char): (u: seq<int>)
    ensures 1 <= |u| <= 2
    ensures forall i | 0 <= i < |u| :: 0 <= u[i] < 0x1_0000
    ensures |u| == 1 <==> (c as int) < 0x1_0000
    ensures |u| == 1 ==> u[0] == c as int
    ensures |u| == 2 ==> 0xD800 <= u[0] < 0xDC00 && 0xDC00 <= u[1] < 0xE000
    ensures |u| == 2 ==> 0x1_0000 + (u[0] - 0xD800) * 0x400 + (u[1] - 0xDC00) == c as int
  {
    var v := c as int;
    if v < 0x1_0000 then [v]
    else [0xD800 + (v - 0x1_0000) / 0x400, 0xDC00 + (v - 0x1_0000) % 0x400]
  }

  /** The code units Java stores for `s`. */
  function Utf16(s: string): (units: seq<int>)
    ensures |s| <= |units| <= 2 * |s|
    ensures forall i | 0 <= i < |units| :: 0 <= units[i] < 0x1_0000
  {
    if |s| == 0 then [] else CodeUnits(s[0]) + Utf16(s[1..])
  }

  /** A single character is encoded by its own code units. */
  lemma Utf16OfChar(c: char)
    ensures Utf16([c]) == CodeUnits(c)
  {
    assert [c][1..] == [];
  }

  /** The encoding of a concatenation is the concatenation of the
      encodings; with `Utf16OfChar` this fixes every unit and its order. */
  lemma {:induction false} Utf16Append(s: string, t: string)
    ensures Utf16(s + t) == Utf16(s) + Utf16(t)
    decreases |s|
  {
    if |s| == 0 {
      assert s + t == t;
    } else {
      assert (s + t)[0] == s[0];
      assert (s + t)[1..] == s[1..] + t;
      Utf16Append(s[1..], t);
    }
  }

  /** 31 to the power `n`. */
  function Pow31(n: nat): int
  {
    if n == 0 then 1 else 31 * Pow31(n - 1)
  }

  /** The documented value before overflow: the sum of
      `units[i] * 31^(n-1-i)`. */
  function Polynomial(units: seq<int>): int
  {
    if |units| == 0 then 0
    else units[0] * Pow31(|units| - 1) + Polynomial(units[1..])
  }

  /** The loop of `String.hashCode`, unit by unit from the front, each `*`
      and `+` wrapping to 32 bits; `units` is the prefix already read. */
  function HashLoop(units: seq<int>): Int32
  {
    if |units| == 0 then 0
    else
      var h := HashLoop(units[..|units| - 1]);
      Wrap(Wrap(31 * h) + units[|units| - 1])
  }

  /** `String.hashCode()`. */
  function StringHash(s: string): Int32
  {
    HashLoop(Utf16(s))
  }

  /** Reading one more unit multiplies the value so far by 31 and adds the
      unit. */
  lemma {:induction false} PolynomialSnoc(units: seq<int>, u: int)
    ensures Polynomial(units + [u]) == 31 * Polynomial(units) + u
    decreases |units|
  {
    if |units| == 0 {
      assert units + [u] == [u];
    } else {
      var rest := units[1..];
      assert (units + [u])[1..] == rest + [u];
      PolynomialSnoc(rest, u);
      calc {
        Polynomial(units + [u]);
        units[0] * Pow31(|units|) + Polynomial(rest + [u]);
        units[0] * (31 * Pow31(|units| - 1)) + 31 * Polynomial(rest) + u;
        31 * (units[0] * Pow31(|units| - 1) + Polynomial(rest)) + u;
        31 * Polynomial(units) + u;
      }
    }
  }

  /** The wrapping loop computes the documented value modulo 2^32. */
  lemma {:induction false} HashLoopIsWrappedPolynomial(units: seq<int>)
    ensures HashLoop(units) == Wrap(Polynomial(units))
    decreases |units|
  {
    if |units| == 0 {
    } else {
      var init := units[..|units| - 1];
      var last := units[|units| - 1];
      assert units == init + [last];
      HashLoopIsWrappedPolynomial(init);
      PolynomialSnoc(init, last);
      WrapMul31(Polynomial(init));
      WrapAbsorbs(31 * Polynomial(init), last);
      WrapAbsorbs(31 * Wrap(Polynomial(init)), last);
    }
  }

  /** Hence `StringHash` is the documented polynomial of the string's code
      units, wrapped once. */
  lemma StringHashIsWrappedPolynomial(s: string)
    ensures StringHash(s) == Wrap(Polynomial(Utf16(s)))
  {
    HashLoopIsWrappedPolynomial(Utf16(s));
  }

  /** The empty string hashes to 0, and a one-unit string to its unit. */
  lemma StringHashOfShortStrings(c: char)
    ensures StringHash("") == 0
    ensures (c as int) < 0x1_0000 ==> StringHash([c]) == c as int
  {
    assert [c][1..] == [];
    WrapOfInt32(0);
    WrapOfInt32(c as int);
  }
}
