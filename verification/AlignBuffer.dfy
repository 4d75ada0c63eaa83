/**
 Sizes and alignment of the stack buffers of include/memalign.h, with ROUND of include/common.h. ALIGN
 (include/linux/kernel.h) expands to the same expression as ROUND.
 */
module AlignBuffer {
  import opened Words

  /** PAD_COUNT and PAD_SIZE */
  function PadSize(size: nat, pad: nat): nat
    requires size > 0 && pad > 0
  {
    ((size - 1) / pad + 1) * pad
  }

  /** ROUND(a, b): (a + b - 1) & ~(b - 1) */
  function Round(a: nat, b: nat): nat
    requires b > 0
  {
    AndNot(a + b - 1, b - 1)
  }

  /** The bytes ALLOC_ALIGN_BUFFER_PAD declares. */
  function Declared(bytes: nat, align: nat, pad: nat): nat
    requires bytes > 0 && align > 0 && pad > 0
  {
    Round(PadSize(bytes, pad), align) + (align - 1)
  }

  /** `m` is the least multiple of `d` that is at least `x`. */
  ghost predicate LeastMultiple(m: nat, d: nat, x: nat) {
    (exists j: nat :: m == j * d) && x <= m && (forall j: nat :: x <= j * d ==> m <= j * d)
  }

  lemma {:induction false} Between(i: nat, j: nat, d: nat)
    requires i < j
    ensures i * d + d <= j * d
  {
    AtLeastOnce(j - i, d);
    assert (j - i) * d == j * d - i * d;
  }

  /** A multiple less than one step above x is the least. */
  lemma {:induction false} IsLeast(m: nat, j: nat, d: nat, x: nat)
    requires m == j * d && x <= m < x + d
    ensures LeastMultiple(m, d, x)
  {
    forall i: nat | x <= i * d ensures m <= i * d {
      if i < j { Between(i, j, d); }
    }
  }

  lemma {:induction false} PadSizeIsLeast(size: nat, pad: nat)
    requires size > 0 && pad > 0
    ensures LeastMultiple(PadSize(size, pad), pad, size)
  {
    var q := (size - 1) / pad;
    assert size - 1 == q * pad + (size - 1) % pad;
    assert (q + 1) * pad == q * pad + pad;
    IsLeast(PadSize(size, pad), q + 1, pad, size);
  }

  /** For a power of two the mask form is ceiling division: the least multiple. */
  lemma {:induction false} RoundIsLeast(a: nat, k: nat)
    ensures LeastMultiple(Round(a, Pow2(k)), Pow2(k), a)
  {
    var b := Pow2(k);
    var x := a + b - 1;
    LowMask(x, k);
    Split(x, k);
    ShlIs(Shr(x, k), k);
    IsLeast(Round(a, b), Shr(x, k), b, a);
  }

  /** The pointer ALLOC_ALIGN_BUFFER_PAD makes is the first aligned address of the declared array, wherever
      that starts; the padded size is the least multiple of `pad` that holds the request; and the padded region,
      rounded up to whole alignment units, lies inside the array. */
  lemma {:induction false} BufferHolds(start: nat, count: nat, elem: nat, k: nat, pad: nat)
    requires count > 0 && elem > 0 && pad > 0 && count * elem > 0
    ensures var align, p, padded := Pow2(k), Round(start, Pow2(k)), PadSize(count * elem, pad);
            && LeastMultiple(p, align, start)
            && LeastMultiple(padded, pad, count * elem)
            && LeastMultiple(Round(padded, align), align, padded)
            && start <= p && p + count * elem <= p + padded <= p + Round(padded, align)
            && p + Round(padded, align) <= start + Declared(count * elem, align, pad)
  {
    var align, padded := Pow2(k), PadSize(count * elem, pad);
    PadSizeIsLeast(count * elem, pad);
    RoundIsLeast(padded, k);
    RoundIsLeast(start, k);
    LowMask(start + align - 1, k);
  }

  lemma {:induction false} NextBoundary(start: nat, j: nat, b: nat, m: nat)
    requires b > 0 && start == j * b + 1 && LeastMultiple(m, b, start)
    ensures m == start + (b - 1)
  {
    var i: nat :| m == i * b;
    if i < j + 1 { Between(i, j + 1, b); }
    assert (j + 1) * b == j * b + b;
  }

  /** One byte less would not do: an array that starts one past a boundary is used to its end. */
  lemma {:induction false} NoByteToSpare(start: nat, j: nat, bytes: nat, k: nat, pad: nat)
    requires bytes > 0 && pad > 0 && start == j * Pow2(k) + 1
    ensures Round(start, Pow2(k)) + Round(PadSize(bytes, pad), Pow2(k)) == start + Declared(bytes, Pow2(k), pad)
  {
    RoundIsLeast(start, k);
    NextBoundary(start, j, Pow2(k), Round(start, Pow2(k)));
  }
}
