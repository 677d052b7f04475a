/** Bytes, machine words and their little-endian encodings. */
module Words {
  type byte = x: int | 0 <= x < 0x100
  type u16 = x: int | 0 <= x < 0x1_0000
  type u32 = x: int | 0 <= x < 0x1_0000_0000

  /** An operand width in bytes. */
  type Width = w: int | w == 1 || w == 2 || w == 4 witness 1

  const TWO_31: int := 0x8000_0000
  const TWO_32: int := 0x1_0000_0000
  const TWO_64: int := 0x1_0000_0000_0000_0000

  /** The number of values a `w`-byte word can take. */
  function Span(w: Width): int {
    if w == 1 then 0x100 else if w == 2 then 0x1_0000 else 0x1_0000_0000
  }

  /** The weight of a `w`-byte word's sign bit. */
  function Half(w: Width): int {
    if w == 1 then 0x80 else if w == 2 then 0x8000 else 0x8000_0000
  }

  /** Two's-complement reading of the low `w` bytes of `v`. */
  function Signed(v: int, w: Width): int {
    var m := v % Span(w);
    if m >= Half(w) then m - Span(w) else m
  }

  function Min(a: int, b: int): int {
    if a < b then a else b
  }

  function Max(a: int, b: int): int {
    if a < b then b else a
  }

  function Pow2(n: nat): nat
    ensures Pow2(n) > 0
  {
    if n == 0 then 1 else 2 * Pow2(n - 1)
  }

  /** The `n` low bytes of `v`, least significant first. */
  function LeBytes(v: nat, n: nat): (b: seq<byte>)
    ensures |b| == n
  {
    if n == 0 then [] else [v % 0x100] + LeBytes(v / 0x100, n - 1)
  }

  /** The number whose little-endian digits are `b`. */
  function LeValue(b: seq<byte>): nat {
    if b == [] then 0 else b[0] + 0x100 * LeValue(b[1..])
  }
}

/** Facts about division by, and powers of, a base. */
module Arithmetic {
  import opened Words

  lemma MulAtLeast(d: int, k: int)
    requires d > 0
    ensures k >= 1 ==> d * k >= d && d * k >= k
    ensures k <= -1 ==> d * k <= -d && d * k <= k
  {
    if k >= 1 {
      assert d * (k - 1) >= 0;
      assert (d - 1) * k >= 0;
    } else if k <= -1 {
      assert d * (-1 - k) >= 0;
      assert (d - 1) * -k >= 0;
    }
  }

  /** A quotient and remainder are what they must be. */
  lemma DivUnique(n: int, d: int, q: int, r: int)
    requires d > 0 && n == d * q + r && 0 <= r < d
    ensures n / d == q && n % d == r
  {
    var q', r' := n / d, n % d;
    assert n == d * q' + r';
    assert d * (q - q') == r' - r;
    MulAtLeast(d, q - q');
  }

  lemma ModOfMultiple(d: int, k: int)
    requires d > 0
    ensures (d * k) % d == 0 && (d * k) / d == k
  {
    DivUnique(d * k, d, k, 0);
  }

  lemma DivShrinks(v: nat, d: nat)
    requires d > 0
    ensures 0 <= v / d <= v
    ensures v < d ==> v / d == 0
  {
    var q := v / d;
    assert v == d * q + v % d;
    MulAtLeast(d, q);
    if q <= -1 {
      assert false;
    }
  }

  lemma QuotientOfMultiple(a: nat, b: nat, c: nat)
    requires b > 0 && c > 0
    ensures b * c > 0
    ensures (a * c) / (b * c) == a / b
  {
    var q, r := a / b, a % b;
    MulAtLeast(c, b);
    calc {
      a * c;
      (b * q + r) * c;
      b * q * c + r * c;
      { assert b * q * c == b * c * q; }
      (b * c) * q + r * c;
    }
    assert (b - r) * c >= 1 by {
      MulAtLeast(c, b - r);
    }
    assert (b - r) * c == b * c - r * c;
    assert r * c >= 0;
    DivUnique(a * c, b * c, q, r * c);
  }

  // ---- powers of two ----

  lemma {:induction false} Pow2Adds(a: nat, b: nat)
    ensures Pow2(a + b) == Pow2(a) * Pow2(b)
  {
    if b > 0 {
      Pow2Adds(a, b - 1);
      calc {
        Pow2(a + b);
        2 * Pow2(a + (b - 1));
        2 * (Pow2(a) * Pow2(b - 1));
        Pow2(a) * (2 * Pow2(b - 1));
      }
    }
  }

  lemma Pow2Width(w: Width)
    ensures Pow2(8 * w) == Span(w)
    ensures Pow2(8 * w - 1) == Half(w)
    ensures 2 * Half(w) == Span(w)
  {
    assert Pow2(7) == 0x80;
    if w > 1 {
      Pow2Adds(8, 7);
    }
    if w > 2 {
      Pow2Adds(16, 15);
      Pow2Adds(8, 8);
    }
  }

  lemma Pow2Byte(n: nat)
    requires n > 0
    ensures Pow2(8 * n) == 0x100 * Pow2(8 * (n - 1))
  {
    assert Pow2(8) == 0x100;
    Pow2Adds(8, 8 * (n - 1));
  }

  lemma {:induction false} LeValueOfBytes(v: nat, n: nat)
    requires v < Pow2(8 * n)
    ensures LeValue(LeBytes(v, n)) == v
  {
    if n > 0 {
      Pow2Byte(n);
      LeValueOfBytes(v / 0x100, n - 1);
      assert LeBytes(v, n)[1..] == LeBytes(v / 0x100, n - 1);
    }
  }
}
