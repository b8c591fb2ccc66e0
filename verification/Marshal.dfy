/** Typed values in the message registers: an aligned, byte-granular writer and reader
    with one cursor.

    Scalars are the bit patterns of their values, stored little-endian.  Sums of offsets
    and sizes are unbounded here: where the source's checked arithmetic would overflow,
    it returns the same error as for a message that is too long. */
module Marshal {
  import opened Bits
  import opened Bytes
  import opened Numbers
  import opened Options

  // ----- alignment

  predicate PowerOfTwo(a: nat) { a == 1 || (a > 0 && a % 2 == 0 && PowerOfTwo(a / 2)) }

  /** The alignments of a 64-bit machine: the powers of two that fit a word. */
  predicate Alignment(a: nat) { PowerOfTwo(a) && a <= TWO63 }

  /** The bit trick of `align_offset`, on 64-bit words. */
  function AlignOffset(off: nat, align: nat): nat
    requires Alignment(align)
  {
    And(off + align - 1, TWO64 - align)
  }

  /** The least multiple of `align` that is not below `off`. */
  function AlignUp(off: nat, align: nat): (r: nat)
    requires align >= 1
    ensures off <= r < off + align
  {
    if off % align == 0 then off else off + (align - off % align)
  }

  lemma AlignUpIsMultiple(off: nat, align: nat)
    requires align >= 1
    ensures AlignUp(off, align) == (if off % align == 0 then off / align else off / align + 1) * align
    ensures AlignUp(off, align) % align == 0
  {
    var q, r := off / align, off % align;
    assert off == q * align + r;
    assert (q + 1) * align == q * align + align;
    DivModUnique(AlignUp(off, align), align, if r == 0 then q else q + 1, 0);
  }

  lemma MulMonotone(a: nat, b: nat, d: nat)
    requires a <= b
    ensures a * d <= b * d
  {
  }

  lemma AlignUpIsLeast(off: nat, align: nat, multiple: nat)
    requires align >= 1 && off <= multiple * align
    ensures AlignUp(off, align) % align == 0 && AlignUp(off, align) <= multiple * align
  {
    AlignUpIsMultiple(off, align);
    var q := off / align;
    assert off == q * align + off % align;
    if off % align != 0 {
      if multiple > q { MulMonotone(q + 1, multiple, align); } else { MulMonotone(multiple, q, align); }
    }
  }

  /** Everything up to the next multiple is rounded up to it. */
  lemma AlignUpBetween(off: nat, other: nat, align: nat)
    requires align >= 1 && off <= other <= AlignUp(off, align)
    ensures AlignUp(other, align) == AlignUp(off, align)
  {
    AlignUpIsMultiple(off, align);
    AlignUpIsMultiple(other, align);
    AlignUpIsLeast(other, align, if off % align == 0 then off / align else off / align + 1);
    AlignUpIsLeast(off, align, if other % align == 0 then other / align else other / align + 1);
  }

  lemma {:induction false} Log2(align: nat) returns (k: nat)
    requires PowerOfTwo(align)
    ensures Pow2(k) == align
  {
    if align == 1 {
      k := 0;
    } else {
      k := Log2(align / 2);
      k := k + 1;
    }
  }

  lemma {:induction false} TwoTo64()
    ensures Pow2(64) == TWO64
  {
    Powers();
    assert Pow2(20) == 0x10_0000 by { assert Pow2(18) == 0x4_0000; }
    PowerSum(20, 12);
    PowerSum(32, 32);
  }

  lemma Doubling(x: nat, y: nat)
    ensures x * (2 * y) == 2 * (x * y)
  {
  }

  lemma {:induction false} PowerSum(a: nat, b: nat)
    ensures Pow2(a + b) == Pow2(a) * Pow2(b)
    decreases b
  {
    if b > 0 {
      PowerSum(a, b - 1);
      Doubling(Pow2(a), Pow2(b - 1));
    }
  }

  lemma RoundDownIs(off: nat, align: nat)
    requires align >= 1
    ensures var x := off + align - 1; x - x % align == AlignUp(off, align)
  {
    var q, r := off / align, off % align;
    assert off == q * align + r;
    if r == 0 {
      DivModUnique(off + align - 1, align, q, align - 1);
    } else {
      assert (q + 1) * align == q * align + align;
      DivModUnique(off + align - 1, align, q + 1, r - 1);
    }
  }

  /** The bit trick computes the least aligned offset, for every power of two. */
  lemma AlignOffsetIsLeast(off: nat, align: nat)
    requires Alignment(align) && off + align <= TWO64
    ensures AlignOffset(off, align) == AlignUp(off, align)
  {
    var k := Log2(align);
    TwoTo64();
    if k > 64 { Pow2Monotone(64, k); }
    MaskRoundsDown(off + align - 1, k, TWO64 - align, align);
    RoundDownIs(off, align);
  }

  lemma MaskRoundsDown(x: nat, k: nat, mask: nat, align: nat)
    requires k <= 64 && align == Pow2(k) && x < Pow2(64) && mask + align == Pow2(64)
    ensures And(x, mask) == x - x % align
  {
    AndHighMask(x, k, 64, mask);
  }

  // ----- little-endian numbers

  function Limit(size: nat): (n: nat)
    ensures n >= 1
  {
    if size == 0 then 1 else 256 * Limit(size - 1)
  }

  function ToBytes(n: nat, size: nat): (b: seq<Byte>)
    ensures |b| == size
  {
    if size == 0 then [] else [n % 256] + ToBytes(n / 256, size - 1)
  }

  function FromBytes(b: seq<Byte>): nat {
    if b == [] then 0 else b[0] + 256 * FromBytes(b[1..])
  }

  lemma {:induction false} NumberRoundTrip(n: nat, size: nat)
    requires n < Limit(size)
    ensures FromBytes(ToBytes(n, size)) == n
    decreases size
  {
    if size > 0 { NumberRoundTrip(n / 256, size - 1); }
  }

  // ----- arrays of numbers

  function EncodeAll(items: seq<nat>, size: nat): (b: seq<Byte>)
    ensures |b| == |items| * size
  {
    if items == [] then []
    else
      assert |items| * size == size + (|items| - 1) * size;
      ToBytes(items[0], size) + EncodeAll(items[1..], size)
  }

  function DecodeAll(b: seq<Byte>, size: nat, count: nat): seq<nat>
    requires |b| == count * size
    decreases count
  {
    if count == 0 then []
    else
      assert count * size == size + (count - 1) * size && (count - 1) * size >= 0;
      [FromBytes(b[..size])] + DecodeAll(b[size..], size, count - 1)
  }

  lemma {:induction false} ArrayRoundTrip(items: seq<nat>, size: nat)
    requires forall i :: 0 <= i < |items| ==> items[i] < Limit(size)
    ensures DecodeAll(EncodeAll(items, size), size, |items|) == items
    decreases items
  {
    if items != [] {
      var b := EncodeAll(items, size);
      NumberRoundTrip(items[0], size);
      ArrayRoundTrip(items[1..], size);
      assert b[..size] == ToBytes(items[0], size) && b[size..] == EncodeAll(items[1..], size);
    }
  }

  /** Element k of an array lies k elements behind its start. */
  lemma {:induction false} ArrayLayout(items: seq<nat>, size: nat, k: nat)
    requires k < |items|
    ensures 0 <= k * size <= (k + 1) * size <= |items| * size
    ensures EncodeAll(items, size)[k * size..(k + 1) * size] == ToBytes(items[k], size)
    decreases items
  {
    var b := EncodeAll(items, size);
    var rest := EncodeAll(items[1..], size);
    assert |items| * size == size + (|items| - 1) * size;
    assert b == ToBytes(items[0], size) + rest;
    if k == 0 {
      assert b[..size] == ToBytes(items[0], size);
    } else {
      ArrayLayout(items[1..], size, k - 1);
      ShiftedPiece(ToBytes(items[0], size), rest, (k - 1) * size, k * size);
      assert k * size == size + (k - 1) * size && (k + 1) * size == size + k * size;
    }
  }

  lemma ShiftedPiece(a: seq<Byte>, b: seq<Byte>, i: nat, j: nat)
    requires i <= j <= |b|
    ensures (a + b)[|a| + i..|a| + j] == b[i..j]
  {
  }

  // ----- the cursor

  datatype Error = MsgTooLong | InvalidArg | OutOfBounds | InvalidEncoding

  datatype Result<+T> = Ok(value: T) | Err(error: Error)

  datatype Regs = Regs(buf: seq<Byte>, off: nat)

  /** What a write leaves behind, and whether it failed. */
  datatype Written = Written(regs: Regs, error: Option<Error>)

  /** What a read returns, and where it leaves the cursor. */
  datatype Got<+T> = Got(result: Result<T>, off: nat)

  function Store(r: Regs, align: nat, bytes: seq<Byte>): Written
    requires align >= 1
  {
    var start := AlignUp(r.off, align);
    var end := start + |bytes|;
    if end > |r.buf| then Written(r, Some(MsgTooLong))
    else Written(Regs(r.buf[..start] + bytes + r.buf[end..], end), None)
  }

  function Load(r: Regs, align: nat, size: nat, beyond: Error): (g: Got<seq<Byte>>)
    requires align >= 1
    ensures g.result.Ok? ==> |g.result.value| == size
  {
    var start := AlignUp(r.off, align);
    var end := start + size;
    if end > |r.buf| then Got(Err(beyond), r.off) else Got(Ok(r.buf[start..end]), end)
  }

  /** Two buffers that agree up to `n`. */
  ghost predicate Agree(a: seq<Byte>, b: seq<Byte>, n: nat) {
    |a| == |b| && n <= |a| && a[..n] == b[..n]
  }

  /** Register framing: a write changes the bytes of its value and nothing else; if it
      fails it changes nothing at all. */
  lemma StoreFrames(r: Regs, align: nat, bytes: seq<Byte>)
    requires align >= 1
    ensures var w := Store(r, align, bytes);
            var start := AlignUp(r.off, align);
            if w.error == None then
              && w.regs.off == start + |bytes| <= |r.buf| == |w.regs.buf|
              && w.regs.buf[start..w.regs.off] == bytes
              && w.regs.buf[..start] == r.buf[..start] && w.regs.buf[w.regs.off..] == r.buf[w.regs.off..]
            else w.regs == r && start + |bytes| > |r.buf|
  {
  }

  /** Whatever was stored is loaded again from any buffer with the same beginning. */
  lemma StoreLoad(r: Regs, align: nat, bytes: seq<Byte>, other: seq<Byte>, beyond: Error)
    requires align >= 1
    requires var w := Store(r, align, bytes); w.error == None && Agree(w.regs.buf, other, w.regs.off)
    ensures Load(Regs(other, r.off), align, |bytes|, beyond) ==
            Got(Ok(bytes), Store(r, align, bytes).regs.off)
  {
  }
}
