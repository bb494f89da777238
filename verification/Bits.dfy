/** The bit operators on unbounded non-negative integers, and when packed fields can be read back. */
module Bits {

  function Pow2(k: nat): (p: nat)
    ensures p > 0
  {
    if k == 0 then 1 else 2 * Pow2(k - 1)
  }

  function Or(a: nat, b: nat): nat
    decreases a
  {
    if a == 0 then b
    else if b == 0 then a
    else 2 * Or(a / 2, b / 2) + (if a % 2 == 1 || b % 2 == 1 then 1 else 0)
  }

  function And(a: nat, b: nat): nat
    decreases a
  {
    if a == 0 || b == 0 then 0
    else 2 * And(a / 2, b / 2) + (if a % 2 == 1 && b % 2 == 1 then 1 else 0)
  }

  function Shl(a: nat, k: nat): nat { a * Pow2(k) }

  function Shr(a: nat, k: nat): nat { Div(a, Pow2(k)) }

  function Div(a: nat, m: nat): nat
    requires m > 0
  {
    a / m
  }

  /** The mask of a field `width` bits wide, `shift` bits up. */
  function Mask(width: nat, shift: nat): nat { Shl(Pow2(width) - 1, shift) }

  lemma Halve(a: nat, k: nat)
    requires k > 0
    ensures a * Pow2(k) == 2 * (a * Pow2(k - 1))
  {
  }

  lemma Double(x: nat)
    ensures 2 * x / 2 == x && 2 * x % 2 == 0
  {
  }

  lemma OrEven(x: nat, y: nat)
    ensures Or(x, 2 * y) == 2 * Or(x / 2, y) + x % 2
  {
    Double(y);
    if x == 0 {
      assert Or(0, y) == y;
    } else if y == 0 {
      OrZero(x / 2);
    }
  }

  lemma OrZero(x: nat)
    ensures Or(x, 0) == x
  {
  }

  lemma AndEven(x: nat, y: nat)
    ensures And(x, 2 * y) == 2 * And(x / 2, y)
  {
    Double(y);
    if x > 0 && y > 0 {
      assert And(x, 2 * y) == 2 * And(x / 2, 2 * y / 2);
    } else {
      AndZero(x / 2);
    }
  }

  lemma AndZero(x: nat)
    ensures And(x, 0) == 0 && And(0, x) == 0
  {
  }

  /** A field laid over the bits below it adds to them. */
  lemma {:induction false} OrAdds(a: nat, b: nat, k: nat)
    requires a < Pow2(k)
    ensures Or(a, Shl(b, k)) == a + Shl(b, k)
  {
    if k > 0 {
      Halve(b, k);
      OrEven(a, Shl(b, k - 1));
      OrAdds(a / 2, b, k - 1);
    }
  }

  lemma {:induction false} OrCommutes(a: nat, b: nat)
    ensures Or(a, b) == Or(b, a)
    decreases a
  {
    if a > 0 && b > 0 {
      OrCommutes(a / 2, b / 2);
    }
  }

  /** A single bit laid between the bits below and above it adds to them. */
  lemma {:induction false} OrBitAdds(lo: nat, hi: nat, k: nat)
    requires lo < Pow2(k)
    ensures Or(lo + Shl(hi, k + 1), Pow2(k)) == lo + Pow2(k) + Shl(hi, k + 1)
  {
    hide Or;
    Halve(hi, k + 1);
    if k > 0 {
      Halve(hi, k);
      OrEven(lo + Shl(hi, k + 1), Pow2(k - 1));
      OrBitAdds(lo / 2, hi, k - 1);
    } else {
      OrBottom(hi);
    }
  }

  lemma OrBottom(hi: nat)
    ensures Or(2 * hi, 1) == 2 * hi + 1
  {
    Double(hi);
    OrZero(hi);
  }

  lemma {:induction false} AndLow(a: nat, width: nat)
    ensures And(a, Pow2(width) - 1) == a % Pow2(width)
  {
    if width > 0 {
      AndLow(a / 2, width - 1);
      ModHalf(a, Pow2(width - 1));
    }
  }

  lemma ModHalf(a: nat, m: nat)
    requires m > 0
    ensures a % (2 * m) == 2 * (a / 2 % m) + a % 2
  {
    var q, r := a / 2 / m, a / 2 % m;
    assert a / 2 == q * m + r;
    assert a == (2 * m) * q + (2 * r + a % 2);
    ModIs(a, 2 * m, q, 2 * r + a % 2);
  }

  lemma ModIs(a: nat, m: nat, q: nat, r: nat)
    requires a == m * q + r && r < m
    ensures a % m == r && a / m == q
  {
    var d := a / m;
    assert a == m * d + a % m;
    if d > q {
      Mono(m, q + 1, d);
    } else if d < q {
      Mono(m, d + 1, q);
    }
  }

  lemma Mono(m: nat, x: int, y: int)
    requires x <= y
    ensures m * x <= m * y
  {
  }

  lemma ShrHalf(a: nat, k: nat)
    requires k > 0
    ensures Shr(a, k) == Shr(a / 2, k - 1)
  {
    DivHalf(a, Pow2(k - 1));
  }

  lemma {:induction false} MaskField(a: nat, width: nat, shift: nat)
    ensures And(a, Mask(width, shift)) == Shl(Shr(a, shift) % Pow2(width), shift)
  {
    if shift == 0 {
      AndLow(a, width);
    } else {
      MaskField(a / 2, width, shift - 1);
      Halve(Pow2(width) - 1, shift);
      Halve(Shr(a, shift) % Pow2(width), shift);
      AndEven(a, Mask(width, shift - 1));
      ShrHalf(a, shift);
    }
  }

  /** Masking a field and shifting it down reads exactly its bits. */
  lemma GetField(a: nat, width: nat, shift: nat)
    ensures And(a, Mask(width, shift)) == Shl(Shr(a, shift) % Pow2(width), shift)
    ensures Shr(And(a, Mask(width, shift)), shift) == Shr(a, shift) % Pow2(width)
  {
    MaskField(a, width, shift);
    var f := Shr(a, shift) % Pow2(width);
    ModIs(Shl(f, shift), Pow2(shift), f, 0);
  }

  lemma DivHalf(a: nat, m: nat)
    requires m > 0
    ensures a / (2 * m) == a / 2 / m
  {
    ModHalf(a, m);
    var q := a / 2 / m;
    assert a / 2 == q * m + a / 2 % m;
    ModIs(a, 2 * m, q, a % (2 * m));
  }

  /** A value that fits its field is not changed by the mask. */
  lemma PutField(a: nat, width: nat, shift: nat)
    requires a < Pow2(width)
    ensures And(Shl(a, shift), Mask(width, shift)) == Shl(a, shift)
  {
    GetField(Shl(a, shift), width, shift);
    ModIs(Shl(a, shift), Pow2(shift), a, 0);
    ModIs(a, Pow2(width), 0, a);
  }

  /** In a sum of fields, dividing by a field's place and taking the remainder by its width reads it. */
  lemma FieldIs(lo: nat, v: nat, hi: nat, place: nat, width: nat)
    requires lo < place && v < width
    ensures Div(lo + place * (v + width * hi), place) % width == v
  {
    ModIs(lo + place * (v + width * hi), place, v + width * hi, lo);
    ModIs(v + width * hi, width, hi, v);
  }

  /** What is added a whole number of widths above a field does not change it. */
  lemma AboveKeeps(d: nat, more: nat, place: nat, width: nat)
    requires place > 0 && width > 0
    ensures Div(d + place * (width * more), place) % width == Div(d, place) % width
  {
    var q := Div(d, place);
    assert d == place * q + d % place;
    assert d + place * (width * more) == place * (q + width * more) + d % place;
    ModIs(d + place * (width * more), place, q + width * more, d % place);
    assert q == width * Div(q, width) + q % width;
    assert q + width * more == width * (Div(q, width) + more) + q % width;
    ModIs(q + width * more, width, Div(q, width) + more, q % width);
  }

  lemma PowerValues()
    ensures Pow2(3) == 8 && Pow2(9) == 0x200 && Pow2(11) == 0x800 && Pow2(13) == 0x2000 && Pow2(16) == 0x1_0000
    ensures Pow2(22) == 0x40_0000 && Pow2(23) == 0x80_0000 && Pow2(26) == 0x400_0000
    ensures Pow2(37) == 0x20_0000_0000 && Pow2(39) == 0x80_0000_0000 && Pow2(48) == 0x1_0000_0000_0000
    ensures Pow2(0) == 1
  {
  }
}
