/**
 How close the cells of a symbol come to its part of the table: exact bounds in whole numbers, from
 the fixed-point products that the shares are rounded from.
 */
module Shares {
  import opened Numeric

  /**
   x cells for c of `total` occurrences in a table of 2^tableLog cells: less than one cell above the
   exact share, and less than one cell below it but for the truncated step, which costs less than c
   parts in 2^(62 - tableLog) of a cell.
   */
  ghost predicate CloseShare(x: int, c: nat, total: nat, tableLog: nat)
    requires tableLog <= 62
  {
    && (x - 1) * total < c * Pow2(tableLog)
    && c * Pow2(62) < (x + 1) * total * Pow2(62 - tableLog) + c * total
  }

  /** x of toDistribute cells for c of `rest` occurrences: less than one cell below the share, less than one and c / (2 * rest) above it. */
  ghost predicate FairShare(x: int, c: nat, toDistribute: nat, rest: nat) {
    c * toDistribute < (x + 1) * rest && 2 * ((x - 1) * rest) < c * (2 * toDistribute + 1)
  }

  lemma {:induction false} MulStrict(a: int, b: int, c: nat)
    requires a < b && c > 0
    ensures a * c < b * c
  {
  }

  lemma {:induction false} Cancel(a: int, b: int, c: nat)
    requires a * c < b * c
    ensures a < b
  {
    if a >= b {
      MulMono(b, a, c);
    }
  }

  lemma {:induction false} Quotient(x: nat, d: nat)
    requires d > 0
    ensures x - d < (x / d) * d <= x
  {
  }

  /** A fixed-point product within one unit of x units makes x a close share. */
  lemma {:induction false} RoundedClose(x: int, c: nat, step: nat, total: nat, tableLog: nat)
    requires 0 < total && step == Pow2(62) / total && tableLog <= 62 && c > 0
    requires (x - 1) * Pow2(62 - tableLog) < c * step < (x + 1) * Pow2(62 - tableLog)
    ensures CloseShare(x, c, total, tableLog)
  {
    var unit, all := Pow2(62 - tableLog), Pow2(62);
    PowerProduct(tableLog, 62 - tableLog);
    Quotient(all, total);
    var given := step * total;
    Above(x, c, step, total, unit, Pow2(tableLog), all);
    Below(x, c, step, total, unit, all);
  }

  lemma {:induction false} Above(x: int, c: nat, step: nat, total: nat, unit: nat, size: nat, all: nat)
    requires total > 0 && (x - 1) * unit < c * step && step * total <= all && all == size * unit
    ensures (x - 1) * total < c * size
  {
    MulStrict((x - 1) * unit, c * step, total);
    MulMono(step * total, all, c);
    assert (x - 1) * unit * total == (x - 1) * total * unit;
    assert c * step * total == (step * total) * c;
    assert all * c == c * size * unit;
    Cancel((x - 1) * total, c * size, unit);
  }

  lemma {:induction false} Below(x: int, c: nat, step: nat, total: nat, unit: nat, all: nat)
    requires total > 0 && c * step < (x + 1) * unit && all - total < step * total
    ensures c * all < (x + 1) * total * unit + c * total
  {
    MulStrict(c * step, (x + 1) * unit, total);
    MulMono(all - total, step * total, c);
    assert (x + 1) * unit * total == (x + 1) * total * unit;
    assert c * step * total == (step * total) * c;
    assert (all - total) * c == c * all - c * total;
  }

  /** A stretch within one unit of x units makes x a fair share. */
  lemma {:induction false} StretchFair(x: int, c: nat, rStep: nat, unit: nat, toDistribute: nat, rest: nat)
    requires unit > 0 && rest > 0 && c > 0
    requires (x - 1) * unit < c * rStep < (x + 1) * unit
    requires toDistribute * unit <= rest * rStep && 2 * (rest * rStep) < (2 * toDistribute + 1) * unit
    ensures FairShare(x, c, toDistribute, rest)
  {
    FairBelow(x, c, rStep, unit, toDistribute, rest);
    FairAbove(x, c, rStep, unit, toDistribute, rest);
  }

  lemma {:induction false} FairBelow(x: int, c: nat, rStep: nat, unit: nat, toDistribute: nat, rest: nat)
    requires unit > 0 && rest > 0 && c * rStep < (x + 1) * unit && toDistribute * unit <= rest * rStep
    ensures c * toDistribute < (x + 1) * rest
  {
    MulStrict(c * rStep, (x + 1) * unit, rest);
    MulMono(toDistribute * unit, rest * rStep, c);
    assert toDistribute * unit * c == c * toDistribute * unit;
    assert rest * rStep * c == c * rStep * rest;
    assert (x + 1) * unit * rest == (x + 1) * rest * unit;
    Cancel(c * toDistribute, (x + 1) * rest, unit);
  }

  lemma {:induction false} FairAbove(x: int, c: nat, rStep: nat, unit: nat, toDistribute: nat, rest: nat)
    requires unit > 0 && rest > 0 && c > 0 && (x - 1) * unit < c * rStep && 2 * (rest * rStep) < (2 * toDistribute + 1) * unit
    ensures 2 * ((x - 1) * rest) < c * (2 * toDistribute + 1)
  {
    MulStrict((x - 1) * unit, c * rStep, rest);
    MulStrict(2 * (rest * rStep), (2 * toDistribute + 1) * unit, c);
    assert (x - 1) * unit * rest == (x - 1) * rest * unit;
    assert 2 * (rest * rStep) * c == 2 * (c * rStep * rest);
    assert (2 * toDistribute + 1) * unit * c == c * (2 * toDistribute + 1) * unit;
    assert 2 * ((x - 1) * rest * unit) == 2 * ((x - 1) * rest) * unit;
    Cancel(2 * ((x - 1) * rest), c * (2 * toDistribute + 1), unit);
  }

  /** From any mark, the whole units in a stretch of y are within one of y. */
  lemma {:induction false} StretchUnits(t: nat, y: nat, v: nat)
    ensures var x := Shr(t + y, v) - Shr(t, v);
            (x - 1) * Pow2(v) < y < (x + 1) * Pow2(v)
  {
    WholeUnits(t, v);
    WholeUnits(t + y, v);
    Between(Shr(t, v), Shr(t + y, v), Pow2(v), t, y);
  }

  lemma {:induction false} WholeUnits(t: nat, v: nat)
    ensures Shr(t, v) * Pow2(v) <= t < (Shr(t, v) + 1) * Pow2(v)
  {
    Join(t, v);
    LowBound(t, v);
    ShlIsMul(Shr(t, v), v);
  }

  lemma {:induction false} Between(a: nat, b: nat, p: nat, t: nat, y: nat)
    requires a * p <= t < (a + 1) * p && b * p <= t + y < (b + 1) * p
    ensures (b - a - 1) * p < y < (b - a + 1) * p
  {
    assert (b - a - 1) * p == b * p - (a + 1) * p && (b - a + 1) * p == (b + 1) * p - a * p;
  }

  lemma {:induction false} Powers()
    ensures Pow2(32) == 0x1_0000_0000 && Pow2(50) == 0x4_0000_0000_0000
  {
    Pow2Literals();
    PowerProduct(16, 16);
    PowerProduct(32, 16);
    assert Pow2(50) == 4 * Pow2(48);
  }

  lemma {:induction false} PowerProduct(a: nat, b: nat)
    ensures Pow2(a + b) == Pow2(a) * Pow2(b)
  {
    Pow2Add(a, b);
    ShlIsMul(Pow2(a), b);
  }

  lemma {:induction false} UnitIsLarge(tableLog: nat)
    requires tableLog <= 12
    ensures Pow2(62 - tableLog) >= 0x4_0000_0000_0000 && Pow2(62) == Pow2(tableLog) * Pow2(62 - tableLog)
  {
    Powers();
    Pow2Mono(50, 62 - tableLog);
    PowerProduct(tableLog, 62 - tableLog);
  }

  /** For a total below 2^25 the truncated step costs nothing that shows. */
  lemma {:induction false} SmallTotalClose(x: int, c: nat, total: nat, tableLog: nat)
    requires tableLog <= 12 && CloseShare(x, c, total, tableLog) && c <= total < 0x200_0000
    ensures (x - 1) * total < c * Pow2(tableLog) <= (x + 1) * total
  {
    var unit := Pow2(62 - tableLog);
    UnitIsLarge(tableLog);
    MulMono(c, 0x200_0000, total);
    SmallTruncation(x, c, total, Pow2(tableLog), unit);
  }

  lemma {:induction false} SmallTruncation(x: int, c: nat, total: nat, size: nat, unit: nat)
    requires c * (size * unit) < (x + 1) * total * unit + c * total && c * total < unit
    ensures c * size <= (x + 1) * total
  {
    assert c * (size * unit) == c * size * unit;
    assert ((x + 1) * total + 1) * unit == (x + 1) * total * unit + unit;
    Cancel(c * size, (x + 1) * total + 1, unit);
  }
}
