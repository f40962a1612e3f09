/**
 Shifts and masks of the C sources on unbounded naturals: `x << n` is Shl(x, n), `x >> n` is
 Shr(x, n) and `x & ((1 << n) - 1)` is Low(x, n). They are defined bit by bit, so that their laws
 are inductions over linear arithmetic. Where a C type can wrap, the model writes Low(.., width).
 */
module Numeric {

  type byte = x: int | 0 <= x < 256

  function Pow2(n: nat): (p: nat)
    ensures p >= 1
  {
    if n == 0 then 1 else 2 * Pow2(n - 1)
  }

  function Shl(x: nat, n: nat): (r: nat)
  {
    if n == 0 then x else 2 * Shl(x, n - 1)
  }

  function Shr(x: nat, n: nat): (r: nat)
  {
    if n == 0 then x else Shr(x / 2, n - 1)
  }

  function Low(x: nat, n: nat): (r: nat)
  {
    if n == 0 then 0 else x % 2 + 2 * Low(x / 2, n - 1)
  }

  /** ZSTD_highbit32: the position of the highest set bit. */
  function HighBit(x: nat): (h: nat)
    requires x > 0
    ensures Pow2(h) <= x < Pow2(h + 1)
  {
    if x == 1 then 0 else HighBit(x / 2) + 1
  }

  function Abs(x: int): (r: nat)
    ensures r == x || r == -x
  {
    if x < 0 then -x else x
  }

  function Min(x: int, y: int): int
  {
    if x < y then x else y
  }

  // ----- powers of two -----

  lemma {:induction false} Pow2Mono(a: nat, b: nat)
    requires a <= b
    ensures Pow2(a) <= Pow2(b)
    ensures a < b ==> 2 * Pow2(a) <= Pow2(b)
    decreases b
  {
    if a < b {
      Pow2Mono(a, b - 1);
    }
  }

  lemma {:induction false} Pow2Add(a: nat, b: nat)
    ensures Pow2(a + b) == Shl(Pow2(a), b)
    ensures Pow2(b) == Shl(1, b)
  {
    if b > 0 {
      Pow2Add(a, b - 1);
    }
  }

  lemma {:induction false} Pow2Literals()
    ensures Pow2(4) == 16 && Pow2(8) == 256 && Pow2(12) == 4096 && Pow2(15) == 32768 && Pow2(16) == 65536
  {
    assert Pow2(8) == 16 * Pow2(4);
    assert Pow2(12) == 16 * Pow2(8);
    assert Pow2(15) == 8 * Pow2(12);
  }

  lemma {:induction false} Pow2Small(n: nat)
    requires n <= 15
    ensures Pow2(n) <= 32768
  {
    Pow2Literals();
    Pow2Mono(n, 15);
  }

  lemma {:induction false} HighBitUnique(x: nat, h: nat)
    requires Pow2(h) <= x < Pow2(h + 1)
    ensures x > 0 && HighBit(x) == h
  {
    if HighBit(x) < h {
      Pow2Mono(HighBit(x) + 1, h);
    } else if HighBit(x) > h {
      Pow2Mono(h + 1, HighBit(x));
    }
  }

  // ----- laws of shifts and masks -----

  lemma {:induction false} ShlAdd(x: nat, a: nat, b: nat)
    ensures Shl(Shl(x, a), b) == Shl(x, a + b)
  {
    if b > 0 {
      ShlAdd(x, a, b - 1);
    }
  }

  lemma {:induction false} ShlSum(x: nat, y: nat, n: nat)
    ensures Shl(x + y, n) == Shl(x, n) + Shl(y, n)
  {
    if n > 0 {
      ShlSum(x, y, n - 1);
    }
  }

  lemma {:induction false} ShlMono(x: nat, y: nat, n: nat)
    requires x <= y
    ensures Shl(x, n) <= Shl(y, n)
    ensures x < y ==> Shl(x, n) + Pow2(n) <= Shl(y, n)
  {
    if n > 0 {
      ShlMono(x, y, n - 1);
    }
  }

  lemma {:induction false} ShrAdd(x: nat, a: nat, b: nat)
    ensures Shr(Shr(x, a), b) == Shr(x, a + b)
  {
    if a > 0 {
      ShrAdd(x / 2, a - 1, b);
    }
  }

  lemma {:induction false} LowBound(x: nat, n: nat)
    ensures Low(x, n) < Pow2(n) && Low(x, n) <= x
  {
    if n > 0 {
      LowBound(x / 2, n - 1);
    }
  }

  /** A number is its high part above its low part... */
  lemma {:induction false} Join(x: nat, n: nat)
    ensures x == Low(x, n) + Shl(Shr(x, n), n)
  {
    if n > 0 {
      Join(x / 2, n - 1);
    }
  }

  /** ... and in one way only. */
  lemma {:induction false} Split(low: nat, high: nat, n: nat)
    requires low < Pow2(n)
    ensures Low(low + Shl(high, n), n) == low
    ensures Shr(low + Shl(high, n), n) == high
  {
    if n > 0 {
      Split(low / 2, high, n - 1);
      assert (low + Shl(high, n)) / 2 == low / 2 + Shl(high, n - 1);
    }
  }

  lemma {:induction false} LowTower(x: nat, n: nat, m: nat)
    requires n <= m
    ensures Low(Low(x, m), n) == Low(x, n)
    ensures Shr(Low(x, m), n) == Low(Shr(x, n), m - n)
  {
    if n > 0 {
      var y := Low(x, m);
      LowTower(x / 2, n - 1, m - 1);
      LowStep(x, m);
      assert Low(y, n) == y % 2 + 2 * Low(y / 2, n - 1);
      assert Shr(y, n) == Shr(y / 2, n - 1);
    }
  }

  lemma {:induction false} LowStep(x: nat, m: nat)
    requires m > 0
    ensures Low(x, m) / 2 == Low(x / 2, m - 1) && Low(x, m) % 2 == x % 2
  {
  }

  lemma {:induction false} LowAdd(x: nat, a: nat, b: nat)
    ensures Low(x, a + b) == Low(x, a) + Shl(Low(Shr(x, a), b), a)
  {
    LowTower(x, a, a + b);
    Join(Low(x, a + b), a);
  }

  lemma {:induction false} LowSmall(x: nat, n: nat)
    requires x < Pow2(n)
    ensures Low(x, n) == x && Shr(x, n) == 0
  {
    if n > 0 {
      LowSmall(x / 2, n - 1);
    }
  }

  lemma {:induction false} ShrBound(x: nat, a: nat, b: nat)
    requires x < Pow2(a + b)
    ensures Shr(x, a) < Pow2(b)
  {
    if a > 0 {
      ShrBound(x / 2, a - 1, b);
    }
  }

  lemma {:induction false} ShlBound(low: nat, x: nat, n: nat, k: nat)
    requires x < Pow2(k) && low < Pow2(n)
    ensures low + Shl(x, n) < Pow2(n + k)
  {
    if n > 0 {
      ShlBound(low / 2, x, n - 1, k);
    }
  }

  lemma {:induction false} ShrLower(x: nat, low: nat, n: nat)
    requires Shl(low, n) <= x
    ensures low <= Shr(x, n)
  {
    if n > 0 {
      ShrLower(x / 2, low, n - 1);
    }
  }

  lemma {:induction false} ShrUpper(x: nat, high: nat, n: nat)
    requires x < Shl(high, n)
    ensures Shr(x, n) < high
  {
    if n > 0 {
      ShrUpper(x / 2, high, n - 1);
    }
  }

  /** Shifting up by c and down by c + k. */
  lemma {:induction false} ShrShl(x: nat, c: nat, k: nat)
    ensures Shr(Shl(x, c), c + k) == Shr(x, k)
  {
    Split(0, x, c);
    ShrAdd(Shl(x, c), c, k);
  }

  lemma {:induction false} HighBitShr(x: nat, n: nat)
    requires x > 0 && n <= HighBit(x)
    ensures Shr(x, n) > 0 && HighBit(Shr(x, n)) == HighBit(x) - n
  {
    if n > 0 {
      HighBitShr(x / 2, n - 1);
    }
  }

  // ----- the same operations as multiplication and division -----

  lemma {:induction false} ShlIsMul(x: nat, n: nat)
    ensures Shl(x, n) == x * Pow2(n)
  {
    if n > 0 {
      ShlIsMul(x, n - 1);
      assert x * Pow2(n) == 2 * (x * Pow2(n - 1));
    }
  }

  lemma {:induction false} ShrIsDiv(x: nat, n: nat)
    ensures Shr(x, n) == x / Pow2(n) && Low(x, n) == x % Pow2(n)
  {
    Join(x, n);
    LowBound(x, n);
    ShlIsMul(Shr(x, n), n);
    DivModUnique(x, Pow2(n), Shr(x, n), Low(x, n));
  }

  lemma {:induction false} Shift16(x: nat)
    ensures Shr(x, 16) == x / 65536 && Shl(x, 16) == x * 65536 && Low(x, 16) == x % 65536
  {
    Pow2Literals();
    ShrIsDiv(x, 16);
    ShlIsMul(x, 16);
  }

  lemma {:induction false} MulMono(a: int, b: int, c: nat)
    requires a <= b
    ensures a * c <= b * c
  {
  }

  /** The quotient and the remainder are unique. */
  lemma {:induction false} DivModUnique(x: int, d: int, q: int, r: int)
    requires d > 0 && x == q * d + r && 0 <= r < d
    ensures x / d == q && x % d == r
  {
    var q' := x / d;
    assert (q - q') * d == x % d - r;
    if q > q' {
      MulMono(1, q - q', d);
    } else if q < q' {
      MulMono(1, q' - q, d);
    }
  }
}
