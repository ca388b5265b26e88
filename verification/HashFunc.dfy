/** Multiplicative hashing by shifts and additions, on words that wrap around (src/hashfunc.c:25-59). */
module HashFunc {
  const TWO_32: int := 0x1_0000_0000
  const TWO_64: int := 0x1_0000_0000_0000_0000
  const PRIME_32: int := 0x9e370001
  const PRIME_64: int := 0x9e37fffffffc0001

  /** What undoes the multiplication by the constant, up to wrapping around. */
  const INVERSE_32: int := 0x61c90001
  const INVERSE_64: int := 0x6208001000040001

  function Wrap(x: int, size: int): (w: int)
    requires size > 0
    ensures 0 <= w < size
  {
    x % size
  }

  lemma {:induction false} WrapMultiple(x: int, k: int, size: int)
    requires size > 0
    ensures Wrap(x + k * size, size) == Wrap(x, size)
  {
    var q, r := x / size, x % size;
    assert (q + k) * size == q * size + k * size;
    QuotientUnique(x + k * size, q + k, r, size);
  }

  lemma {:induction false} QuotientUnique(x: int, q: int, r: int, size: int)
    requires 0 <= r < size && x == q * size + r
    ensures x % size == r
  {
    var p := x / size;
    assert x == p * size + x % size;
    assert (p - q) * size == p * size - q * size;
    AtLeastOneMultiple(p - q, size);
  }

  lemma {:induction false} AtLeastOneMultiple(d: int, size: int)
    requires size > 0
    ensures d > 0 ==> d * size >= size
    ensures d < 0 ==> d * size <= -size
    ensures d == 0 ==> d * size == 0
  {
    if d > 0 {
      assert d * size == (d - 1) * size + size && (d - 1) * size >= 0;
    } else if d < 0 {
      assert d * size == -((-d - 1) * size) - size && (-d - 1) * size >= 0;
    }
  }

  lemma {:induction false} WrapIs(x: int, size: int) returns (q: int)
    requires size > 0
    ensures x == Wrap(x, size) + q * size
  {
    q := x / size;
  }

  lemma {:induction false} Distribute(p: int, q: int, c: int)
    ensures (p + q) * c == p * c + q * c && (p - q) * c == p * c - q * c
  {}

  lemma {:induction false} Reorder(a: int, b: int, c: int)
    ensures (a * b) * c == (a * c) * b == a * (b * c)
  {}

  /** Wrapping a factor early changes nothing. */
  lemma {:induction false} WrapTimes(x: int, c: int, size: int)
    requires size > 0
    ensures Wrap(Wrap(x, size) * c, size) == Wrap(x * c, size)
  {
    hide Wrap;
    var q := WrapIs(x, size);
    Distribute(Wrap(x, size), q * size, c);
    Reorder(q, size, c);
    WrapMultiple(Wrap(x, size) * c, q * c, size);
  }

  /** Wrapping the parts of a sum early changes nothing. */
  lemma {:induction false} WrapSum(x: int, y: int, size: int)
    requires size > 0
    ensures Wrap(Wrap(x, size) + Wrap(y, size), size) == Wrap(x + y, size)
    ensures Wrap(Wrap(x, size) - Wrap(y, size), size) == Wrap(x - y, size)
  {
    hide Wrap;
    var p := WrapIs(x, size);
    var q := WrapIs(y, size);
    var a, b := Wrap(x, size), Wrap(y, size);
    Distribute(p, q, size);
    WrapMultiple(a + b, p + q, size);
    WrapMultiple(a - b, p - q, size);
  }

  function Pow2(n: nat): (p: int)
    ensures p >= 1
  {
    if n == 0 then 1 else 2 * Pow2(n - 1)
  }

  lemma {:induction false} Pow2Sum(a: nat, b: nat)
    ensures Pow2(a) * Pow2(b) == Pow2(a + b)
  {
    if a > 0 {
      Pow2Sum(a - 1, b);
      assert Pow2(a) * Pow2(b) == 2 * (Pow2(a - 1) * Pow2(b));
    }
  }

  /** The high `bits` bits of a word of `width` bits. */
  function HighBits(x: int, width: nat, bits: nat): (h: int)
    requires bits <= width && 0 <= x < Pow2(width)
    ensures 0 <= h < Pow2(bits)
    ensures h * Pow2(width - bits) <= x < (h + 1) * Pow2(width - bits)
  {
    Pow2Sum(bits, width - bits);
    var h := x / Pow2(width - bits);
    QuotientBound(x, h, Pow2(bits), Pow2(width - bits));
    h
  }

  lemma {:induction false} QuotientBound(x: int, h: int, high: int, low: int)
    requires low > 0 && 0 <= x < high * low && h == x / low
    ensures 0 <= h < high && h * low <= x < (h + 1) * low
  {
    assert h * low <= x < h * low + low;
    AtMost(high, h, low);
  }

  lemma {:induction false} AtMost(a: int, b: int, c: int)
    requires c > 0
    ensures a <= b ==> a * c <= b * c
  {
    if a <= b {
      assert b * c - a * c == (b - a) * c && (b - a) * c >= 0;
    }
  }

  lemma {:induction false} Widths()
    ensures Pow2(32) == TWO_32 && Pow2(64) == TWO_64
  {
    assert Pow2(8) == 256;
    Pow2Sum(8, 8);
    Pow2Sum(16, 16);
    Pow2Sum(32, 32);
  }

  /** One shift of n and one addition to hash, or subtraction from it. */
  method Shift(ghost val: int, n: int, ghost a: int, hash: int, ghost c: int, shift: int, plus: bool)
    returns (n': int, hash': int)
    requires n == Wrap(val * a, TWO_64) && hash == Wrap(val * c, TWO_64)
    ensures n' == Wrap(val * (a * shift), TWO_64)
    ensures hash' == Wrap(val * (if plus then c + a * shift else c - a * shift), TWO_64)
  {
    n' := Wrap(n * shift, TWO_64);
    WrapTimes(val * a, shift, TWO_64);
    assert val * a * shift == val * (a * shift);
    WrapSum(val * c, val * (a * shift), TWO_64);
    if plus {
      hash' := Wrap(hash + n', TWO_64);
      assert val * c + val * (a * shift) == val * (c + a * shift);
    } else {
      hash' := Wrap(hash - n', TWO_64);
      assert val * c - val * (a * shift) == val * (c - a * shift);
    }
  }

  /** hash_uint64: six shifts multiply by the constant. */
  method HashUint64(val: int, bits: nat) returns (h: int)
    requires 0 <= val < TWO_64 && 1 <= bits <= 64
    ensures Pow2(64) == TWO_64 && h == HighBits(Wrap(val * PRIME_64, TWO_64), 64, bits)
    ensures 0 <= h < Pow2(bits)
    ensures h * Pow2(64 - bits) <= val * 0x9e37fffffffc0001 % 0x1_0000_0000_0000_0000 < (h + 1) * Pow2(64 - bits)
  {
    hide Wrap, HighBits, Pow2;
    Widths();
    var n, hash := val, val;
    Small(val);
    n, hash := Shift(val, n, 1, hash, 1, 0x4_0000, false);
    n, hash := Shift(val, n, 0x4_0000, hash, -0x3_ffff, 0x2_0000_0000, false);
    n, hash := Shift(val, n, 0x8_0000_0000_0000, hash, -0x8_0000_0003_ffff, 8, true);
    n, hash := Shift(val, n, 0x40_0000_0000_0000, hash, 0x37_ffff_fffc_0001, 8, false);
    n, hash := Shift(val, n, 0x200_0000_0000_0000, hash, -0x1c8_0000_0003_ffff, 16, true);
    n, hash := Shift(val, n, 0x2000_0000_0000_0000, hash, 0x1e37_ffff_fffc_0001, 4, true);
    Wrapped(val);
    return HighBits(hash, 64, bits);
  }

  lemma {:induction false} Small(val: int)
    requires 0 <= val < TWO_64
    ensures Wrap(val * 1, TWO_64) == val
  {}

  lemma {:induction false} Wrapped(val: int)
    ensures Wrap(val * PRIME_64, TWO_64) == val * 0x9e37fffffffc0001 % 0x1_0000_0000_0000_0000
    ensures Wrap(val * PRIME_32, TWO_32) == val * 0x9e370001 % 0x1_0000_0000
  {}

  /** hash_uint32. */
  function HashUint32(val: int, bits: nat): (h: int)
    requires 0 <= val < TWO_32 && 1 <= bits <= 32
    ensures 0 <= h < Pow2(bits)
    ensures h * Pow2(32 - bits) <= val * 0x9e370001 % 0x1_0000_0000 < (h + 1) * Pow2(32 - bits)
  {
    Widths();
    Wrapped(val);
    HighBits(Wrap(val * PRIME_32, TWO_32), 32, bits)
  }

  /** Both constants have an inverse, so no two values collide before bits are dropped. */
  lemma {:induction false} NoCollisions(v: int, w: int)
    ensures 0 <= v < TWO_64 && 0 <= w < TWO_64 && Wrap(v * PRIME_64, TWO_64) == Wrap(w * PRIME_64, TWO_64) ==> v == w
    ensures 0 <= v < TWO_32 && 0 <= w < TWO_32 && Wrap(v * PRIME_32, TWO_32) == Wrap(w * PRIME_32, TWO_32) ==> v == w
  {
    if 0 <= v < TWO_64 && 0 <= w < TWO_64 {
      Undo(v, PRIME_64, INVERSE_64, 0x3c9661c9e380f0c1, TWO_64);
      Undo(w, PRIME_64, INVERSE_64, 0x3c9661c9e380f0c1, TWO_64);
    }
    if 0 <= v < TWO_32 && 0 <= w < TWO_32 {
      Undo(v, PRIME_32, INVERSE_32, 0x3c6f1030, TWO_32);
      Undo(w, PRIME_32, INVERSE_32, 0x3c6f1030, TWO_32);
    }
  }

  /** Multiplying by the inverse gives the value back. */
  lemma {:induction false} Undo(v: int, prime: int, inverse: int, k: int, size: int)
    requires 0 <= v < size && prime * inverse == 1 + k * size
    ensures Wrap(Wrap(v * prime, size) * inverse, size) == v
  {
    assert Wrap(v, size) == v;
    hide Wrap;
    WrapTimes(v * prime, inverse, size);
    assert (v * prime) * inverse == v + (v * k) * size by {
      Expand(v, prime, inverse, k, size);
    }
    WrapMultiple(v, v * k, size);
  }

  lemma {:induction false} Expand(v: int, prime: int, inverse: int, k: int, size: int)
    requires prime * inverse == 1 + k * size
    ensures (v * prime) * inverse == v + (v * k) * size
  {
    var m := k * size;
    TimesOneMore(v, m);
    calc {
      (v * prime) * inverse;
      v * (prime * inverse);
      v * (1 + m);
      v + v * m;
      v + (v * k) * size;
    }
  }

  lemma {:induction false} TimesOneMore(v: int, m: int)
    ensures v * (1 + m) == v + v * m
  {}
}
