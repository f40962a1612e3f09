/**
 Any bit fields, flushed and reloaded on any schedule that keeps within the container, come back in
 reverse order, and the end of the stream is noticed exactly after the last of them.
 */
module FieldRoundTrip {
  import opened Numeric
  import opened Results
  import opened BitStack
  import opened Bitstream

  datatype BitField = BitField(value: nat, bits: nat)

  /** The first n fields. */
  ghost function Pushed(fields: seq<BitField>, n: nat): (b: Bits)
    requires n <= |fields|
    ensures b.Ok()
  {
    if n == 0 then EMPTY else Push(Pushed(fields, n - 1), fields[n - 1].value, fields[n - 1].bits)
  }

  /** The bits in the writer's container before field n, when it is flushed after the fields marked. */
  function Waiting(fields: seq<BitField>, flush: seq<bool>, n: nat): (p: nat)
    requires n <= |fields| == |flush|
  {
    if n == 0 then 0
    else
      var p := Waiting(fields, flush, n - 1) + fields[n - 1].bits;
      if flush[n - 1] then p % 8 else p
  }

  ghost predicate Fits(bits: nat, waiting: nat, width: nat) {
    bits < 32 && waiting + bits < 8 * width
  }

  ghost predicate FitsAt(fields: seq<BitField>, flush: seq<bool>, width: nat, i: nat)
    requires i < |fields| == |flush|
  {
    Fits(fields[i].bits, Waiting(fields, flush, i), width)
  }

  /** No field overflows the writer's container, nor does the end mark. */
  ghost predicate FlushedInTime(fields: seq<BitField>, flush: seq<bool>, width: nat) {
    && |fields| == |flush|
    && (forall i :: 0 <= i < |fields| ==> FitsAt(fields, flush, width, i))
    && Waiting(fields, flush, |fields|) + 1 < 8 * width
  }

  /** A bound for the bits of the reader's container that are used before field n is read, from the last field down. */
  function Consumed(fields: seq<BitField>, reload: seq<bool>, n: nat): (c: nat)
    requires n <= |fields| == |reload|
    decreases |fields| - n
  {
    if n == |fields| then 8
    else if reload[n] then 7
    else Consumed(fields, reload, n + 1) + fields[n].bits
  }

  /** The reader never asks for more bits than its container holds; it reloads after the fields marked. */
  ghost predicate ReloadedInTime(fields: seq<BitField>, reload: seq<bool>, width: nat) {
    && |fields| == |reload|
    && forall i :: 0 <= i < |fields| ==> FitsAfter(fields, reload, width, i)
  }

  ghost predicate FitsAfter(fields: seq<BitField>, reload: seq<bool>, width: nat, i: nat)
    requires i < |fields| == |reload|
  {
    fields[i].bits < 32 && Consumed(fields, reload, i + 1) + fields[i].bits <= 8 * width
  }

  method WriteField(s: CStream, f: BitField, flush: bool)
    requires s.Valid() && Fits(f.bits, s.bitPos, s.width)
    modifies s`container, s`bitPos, s`ptr, s`pushed, s.buf
    ensures s.Valid() && s.pushed == Push(old(s.pushed), f.value, f.bits)
    ensures s.bitPos == if flush then (old(s.bitPos) + f.bits) % 8 else old(s.bitPos) + f.bits
  {
    s.AddBits(f.value, f.bits);
    if flush {
      s.FlushBits();
    }
  }

  method WriteFields(dst: array<byte>, fields: seq<BitField>, flush: seq<bool>, width: nat) returns (size: nat)
    requires (width == 4 || width == 8) && dst.Length > width && FlushedInTime(fields, flush, width)
    modifies dst
    ensures size == 0 <==> (Pushed(fields, |fields|).len + 1) / 8 >= dst.Length - width
    ensures size > 0 ==> size <= dst.Length && IsStreamOf(dst[..size], Pushed(fields, |fields|))
  {
    var s := new CStream(dst, width);
    var i := 0;
    while i < |fields|
      invariant 0 <= i <= |fields| && s.Valid() && s.pushed == Pushed(fields, i) && s.bitPos == Waiting(fields, flush, i)
    {
      assert FitsAt(fields, flush, width, i);
      WriteField(s, fields[i], flush[i]);
      i := i + 1;
    }
    size := s.Close();
  }

  ghost predicate ValueAt(values: seq<nat>, fields: seq<BitField>, i: nat)
    requires i < |values| <= |fields|
  {
    var f := fields[|fields| - 1 - i];
    values[i] == Low(f.value, f.bits)
  }

  ghost predicate AllValues(values: seq<nat>, fields: seq<BitField>) {
    |values| <= |fields| && forall i {:trigger ValueAt(values, fields, i)} :: 0 <= i < |values| ==> ValueAt(values, fields, i)
  }

  /** Reads one field from the top, and reloads if asked to. */
  method ReadField(d: DStream, fields: seq<BitField>, reload: seq<bool>, n: nat) returns (v: nat)
    requires d.Valid() && 0 < n <= |fields| && ReloadedInTime(fields, reload, d.width)
    requires d.Legal() && d.Remaining() == Pushed(fields, n) && (d.consumed <= Consumed(fields, reload, n) || d.ptr == 0)
    modifies d
    ensures d.Valid() && d.Legal() && d.Remaining() == Pushed(fields, n - 1)
    ensures d.consumed <= Consumed(fields, reload, n - 1) || d.ptr == 0
    ensures v == Low(fields[n - 1].value, fields[n - 1].bits)
  {
    var f := fields[n - 1];
    assert FitsAfter(fields, reload, d.width, n - 1);
    PopPush(Pushed(fields, n - 1), f.value, f.bits);
    v := d.ReadBits(f.bits);
    if reload[n - 1] {
      var _ := d.Reload();
    }
  }

  method ReadFields(src: seq<byte>, fields: seq<BitField>, reload: seq<bool>, width: nat) returns (r: Result<(seq<nat>, bool)>)
    requires (width == 4 || width == 8) && ReloadedInTime(fields, reload, width)
    requires IsStreamOf(src, Pushed(fields, |fields|))
    ensures r.Ok? && |r.value.0| == |fields| && AllValues(r.value.0, fields) && r.value.1
  {
    UnreadOfStream(src, Pushed(fields, |fields|));
    var init := DStream.Init(src, width);
    var d := init.value;
    var values: seq<nat> := [];
    var n := |fields|;
    while n > 0
      invariant 0 <= n <= |fields| && |values| == |fields| - n && AllValues(values, fields)
      invariant d.Valid() && d.width == width && d.Legal() && d.Remaining() == Pushed(fields, n) && fresh(d)
      invariant d.consumed <= Consumed(fields, reload, n) || d.ptr == 0
    {
      var v := ReadField(d, fields, reload, n);
      NextValue(values, v, fields);
      values := values + [v];
      n := n - 1;
    }
    r := Ok((values, d.EndOfDStream()));
  }

  lemma {:induction false} NextValue(values: seq<nat>, v: nat, fields: seq<BitField>)
    requires AllValues(values, fields) && |values| < |fields|
    requires var f := fields[|fields| - 1 - |values|]; v == Low(f.value, f.bits)
    ensures AllValues(values + [v], fields)
  {
    forall i | 0 <= i < |values| + 1 ensures ValueAt(values + [v], fields, i) {
      if i < |values| {
        assert ValueAt(values, fields, i);
      }
    }
  }

  /** Whatever is written within the budget is read back. */
  method WriteThenRead(fields: seq<BitField>, flush: seq<bool>, reload: seq<bool>, capacity: nat, width: nat, readWidth: nat)
    returns (size: nat, values: seq<nat>, atEnd: bool)
    requires (width == 4 || width == 8) && (readWidth == 4 || readWidth == 8) && capacity > width
    requires FlushedInTime(fields, flush, width) && ReloadedInTime(fields, reload, readWidth)
    ensures size == 0 <==> (Pushed(fields, |fields|).len + 1) / 8 >= capacity - width
    ensures size > 0 ==> |values| == |fields| && AllValues(values, fields) && atEnd
  {
    var dst := new byte[capacity](_ => 0);
    size := WriteFields(dst, fields, flush, width);
    values, atEnd := [], false;
    if size > 0 {
      var r := ReadFields(dst[..size], fields, reload, readWidth);
      values, atEnd := r.value.0, r.value.1;
    }
  }
}
