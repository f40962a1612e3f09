/**
 The abstract content of a bitstream: `len` bits read as one little-endian number. A field is
 added above the bits already present; the reader of the codec takes fields from the top again,
 and the reader of a table header takes them from the bottom.
 */
module BitStack {
  import opened Numeric

  datatype Bits = Bits(len: nat, val: nat) {
    ghost predicate Ok() { val < Pow2(len) }
  }

  const EMPTY := Bits(0, 0)

  /** The low n bits of v, added above the bits of b. */
  function Push(b: Bits, v: nat, n: nat): (r: Bits)
    requires b.Ok()
    ensures r.Ok() && r.len == b.len + n
  {
    LowBound(v, n);
    ShlBound(b.val, Low(v, n), b.len, n);
    Bits(b.len + n, b.val + Shl(Low(v, n), b.len))
  }

  /** The field made of the n topmost bits. */
  function Top(b: Bits, n: nat): (v: nat)
    requires b.Ok() && n <= b.len
    ensures v < Pow2(n)
  {
    ShrBound(b.val, b.len - n, n);
    Shr(b.val, b.len - n)
  }

  /** What is left below the n topmost bits. */
  function Pop(b: Bits, n: nat): (r: Bits)
    requires b.Ok() && n <= b.len
    ensures r.Ok() && r.len == b.len - n
  {
    LowBound(b.val, b.len - n);
    Bits(b.len - n, Low(b.val, b.len - n))
  }

  /** The last field in is the first field out. */
  lemma {:induction false} PopPush(b: Bits, v: nat, n: nat)
    requires b.Ok()
    ensures Top(Push(b, v, n), n) == Low(v, n)
    ensures Pop(Push(b, v, n), n) == b
  {
    Split(b.val, Low(v, n), b.len);
  }

  /** Adding a field in two parts, low bits first, is adding it at once. */
  lemma {:induction false} PushSplit(b: Bits, v: nat, a: nat, c: nat)
    requires b.Ok()
    ensures Push(Push(b, v, a), Shr(v, a), c) == Push(b, v, a + c)
  {
    LowAdd(v, a, c);
    var hi := Low(Shr(v, a), c);
    ShlSum(Low(v, a), Shl(hi, a), b.len);
    ShlAdd(hi, a, b.len);
    assert Shl(hi, a + b.len) == Shl(hi, b.len + a);
  }

  /** Reading a field in two parts, high bits first, is reading it at once. */
  lemma {:induction false} PopSplit(b: Bits, a: nat, c: nat)
    requires b.Ok() && a + c <= b.len
    ensures Shl(Top(b, c), a) + Top(Pop(b, c), a) == Top(b, c + a)
    ensures Pop(Pop(b, c), a) == Pop(b, c + a)
  {
    LowTower(b.val, b.len - c - a, b.len - c);
    var t := Shr(b.val, b.len - c - a);
    Join(t, a);
    ShrAdd(b.val, b.len - c - a, a);
  }

  /** b is what the low b.len bits of f say. */
  ghost predicate Extends(f: Bits, b: Bits) {
    f.Ok() && b.Ok() && b.len <= f.len && Low(f.val, b.len) == b.val
  }

  lemma {:induction false} ExtendsSelf(b: Bits)
    requires b.Ok()
    ensures Extends(b, b)
  {
    LowSmall(b.val, b.len);
  }

  lemma {:induction false} ExtendsTrans(f: Bits, g: Bits, b: Bits)
    requires Extends(f, g) && Extends(g, b)
    ensures Extends(f, b)
  {
    LowTower(f.val, b.len, g.len);
  }

  lemma {:induction false} ExtendsPush(b: Bits, v: nat, n: nat)
    requires b.Ok()
    ensures Extends(Push(b, v, n), b)
  {
    Split(b.val, Low(v, n), b.len);
  }

  /** The n bits found at position p of the number x. */
  function Field(x: nat, p: nat, n: nat): (v: nat)
    ensures v < Pow2(n)
  {
    LowBound(Shr(x, p), n);
    Low(Shr(x, p), n)
  }

  /** Whatever extends a pushed field shows the field at the position where it was pushed. */
  lemma {:induction false} FieldOfExtension(f: Bits, b: Bits, v: nat, n: nat)
    requires b.Ok() && Extends(f, Push(b, v, n))
    ensures Field(f.val, b.len, n) == Low(v, n)
    ensures Extends(f, b)
  {
    ExtendsPush(b, v, n);
    ExtendsTrans(f, Push(b, v, n), b);
    LowTower(f.val, b.len, b.len + n);
    Split(b.val, Low(v, n), b.len);
  }

  /** A shorter field at the same position is the low part of the longer one. */
  lemma {:induction false} FieldTower(x: nat, p: nat, n: nat, m: nat)
    requires n <= m
    ensures Low(Field(x, p, m), n) == Field(x, p, n)
  {
    LowTower(Shr(x, p), n, m);
  }

  /** Dropping the low n bits of a field moves its position. */
  lemma {:induction false} FieldShift(x: nat, p: nat, n: nat, m: nat)
    requires n <= m
    ensures Shr(Field(x, p, m), n) == Field(x, p + n, m - n)
  {
    LowTower(Shr(x, p), n, m);
    ShrAdd(x, p, n);
  }
}
