/**
 * The heap allocator: `musys_alloc` and `musys_free` over the host heap, and
 * `musys_calloc` and `musys_realloc` built on them and on the memory primitives.
 *
 * A block is an array. The host heap's answer to a request is an input to the
 * model (`hostGrants`), since the host heap itself is not modelled.
 *
 * `musys_realloc` reads a size header kept just before each block, but
 * `musys_alloc` never writes one. The model keeps that header as the map
 * `recorded` from live block to size, and assumes what the header would have
 * to say for `musys_realloc` to work: the block's usable size (`Valid`).
 */
module Allocator {
  import opened CTypes
  import opened Memory

  // ---------------------------------------------------------------------------
  // musys_calloc's overflow test
  // ---------------------------------------------------------------------------

  /** `size * number` computed in `size_t`: the true product when it fits,
      and in any case the same modulo 2^64. */
  function MulWrap(size: SizeT, number: SizeT): (r: SizeT)
    ensures size * number < SIZE_MODULUS ==> r == size * number
    ensures (size * number - r) % SIZE_MODULUS == 0
  {
    DivMod(size * number, SIZE_MODULUS);
    (size * number) % SIZE_MODULUS
  }

  /** The rejection test of `musys_calloc` as the source writes it. It refuses
      exactly the zero counts and the products that do not fit in `size_t`. */
  predicate CallocRejects(number: SizeT, size: SizeT): (b: bool)
    ensures b <==> number == 0 || size == 0 || number * size >= SIZE_MODULUS
  {
    number == 0 || size == 0 ||
      (DivideBackDetectsOverflow(number, size);
       MulWrap(size, number) / size != number)
  }

  /** Euclidean division by a positive divisor. */
  lemma DivMod(x: nat, d: nat)
    requires d > 0
    ensures x == d * (x / d) + x % d && 0 <= x % d < d
  {
  }

  lemma MulAtLeast(d: nat, k: int)
    requires k >= 1
    ensures d * k >= d
  {
    assert d * k == d * (k - 1) + d;
  }

  lemma DivOfProduct(d: nat, m: nat)
    requires d > 0
    ensures (d * m) / d == m
  {
    var x := d * m;
    DivMod(x, d);
    var q, r := x / d, x % d;
    assert d * (m - q) == r by {
      assert d * m - d * q == d * (m - q);
    }
    if m - q >= 1 {
      MulAtLeast(d, m - q);
    } else if q - m >= 1 {
      MulAtLeast(d, q - m);
    }
  }

  /** Dividing the wrapped product back gives `number` exactly when the true
      product fits in `size_t`. */
  lemma DivideBackDetectsOverflow(number: SizeT, size: SizeT)
    requires size > 0
    ensures MulWrap(size, number) / size == number <==> size * number < SIZE_MODULUS
  {
    var p := size * number;
    var w := MulWrap(size, number);
    DivMod(p, SIZE_MODULUS);
    assert p == SIZE_MODULUS * (p / SIZE_MODULUS) + w;
    if p < SIZE_MODULUS {
      assert w == p;
      DivOfProduct(size, number);
    } else if w / size == number {
      DivMod(w, size);
      assert false;
    }
  }

  // ---------------------------------------------------------------------------
  // musys_realloc's decision tree
  // ---------------------------------------------------------------------------

  datatype ReallocStep =
    | AllocFresh            // NULL pointer: a plain allocation
    | FreeBlock             // zero size: free and return NULL
    | KeepBlock             // the block is already big enough
    | GrowAndCopy(copied: nat)  // new block, copy `copied` bytes, free the old one

  /** Which path `musys_realloc` takes, from whether the pointer is NULL, the
      block's recorded size and the requested size. */
  function ReallocDecision(isNull: bool, recordedSize: nat, size: nat): (step: ReallocStep)
    ensures step.GrowAndCopy? ==> step.copied < size
  {
    if isNull then AllocFresh
    else if size == 0 then FreeBlock
    else if recordedSize >= size then KeepBlock
    else GrowAndCopy(recordedSize)
  }

  /** As written, growing a block whose recorded size is 0 hands `musys_memcpy`
      a count of 0, whose first `count--` wraps round to `SIZE_MAX`. */
  lemma ReallocEmptyBlockUnderflows()
    ensures ReallocDecision(false, 0, 1) == GrowAndCopy(0)
    ensures MemCpyFirstIndex(0) == SIZE_MAX
  {
  }

  /** The decision tree sends every non-NULL pointer somewhere, and only a
      request the block cannot hold is grown. */
  lemma ReallocGrowsOnlyWhenTooSmall(recordedSize: nat, size: nat)
    ensures ReallocDecision(false, recordedSize, size).GrowAndCopy? <==> 0 < size && recordedSize < size
    ensures ReallocDecision(false, recordedSize, size) == KeepBlock <==> 0 < size <= recordedSize
  {
  }

  // ---------------------------------------------------------------------------
  // The heap
  // ---------------------------------------------------------------------------

  class Heap {
    /** The live blocks, each with the size its header records. */
    var recorded: map<array<Byte>, nat>

    /** Every header records its block's usable size. */
    ghost predicate Valid()
      reads this
    {
      forall b | b in recorded :: recorded[b] == b.Length
    }

    /** The recorded size of a live block; 0 for NULL. */
    function RecordedSize(p: Option<array<Byte>>): nat
      reads this
    {
      if p.Some? && p.value in recorded then recorded[p.value] else 0
    }

    constructor ()
      ensures Valid() && recorded == map[]
    {
      recorded := map[];
    }

    /** `musys_alloc(size)`: NULL when the host heap refuses, otherwise a fresh
        block of `size` bytes whose contents are unspecified. */
    method Alloc(size: SizeT, hostGrants: bool) returns (p: Option<array<Byte>>)
      requires Valid()
      modifies this
      ensures Valid()
      ensures p.Some? <==> hostGrants
      ensures p.None? ==> recorded == old(recorded)
      ensures p.Some? ==> fresh(p.value) && p.value.Length == size
                          && recorded == old(recorded)[p.value := size]
    {
      if hostGrants {
        var block := new Byte[size];
        recorded := recorded[block := size];
        p := Some(block);
      } else {
        p := None;
      }
    }

    /** `musys_free(p)`: the block stops being live; NULL is a no-op. Freeing a
        block that is not live is undefined. */
    method Free(p: Option<array<Byte>>)
      requires Valid()
      requires p.Some? ==> p.value in recorded
      modifies this
      ensures Valid()
      ensures p.None? ==> recorded == old(recorded)
      ensures p.Some? ==> recorded == old(recorded) - {p.value}
    {
      if p.Some? {
        recorded := recorded - {p.value};
      }
    }

    /** `musys_calloc(number, size)`: NULL for a zero count, for a product that
        overflows `size_t` and when the host heap refuses; otherwise a fresh
        block of `number * size` zero bytes. */
    method Calloc(number: SizeT, size: SizeT, hostGrants: bool) returns (p: Option<array<Byte>>)
      requires Valid()
      modifies this
      ensures Valid()
      ensures p.None? <==> number == 0 || size == 0 || number * size >= SIZE_MODULUS || !hostGrants
      ensures p.None? ==> recorded == old(recorded)
      ensures p.Some? ==> fresh(p.value) && p.value[..] == Fill(0, number * size)
                          && recorded == old(recorded)[p.value := number * size]
    {
      var check := MulWrap(size, number);
      if number == 0 || size == 0 || check / size != number {
        assert CallocRejects(number, size);
        return None;
      }
      assert !CallocRejects(number, size);
      p := Alloc(number * size, hostGrants);
      if p.None? {
        return None;
      }
      var _ := MemSet(p.value, 0, 0, number * size);
      assert p.value[..] == Fill(0, number * size) by {
        assert LowByte(0) == 0;
        forall k | 0 <= k < number * size ensures p.value[..][k] == 0 { }
      }
    }

    /** `musys_realloc(p, size)`, path by path as `ReallocDecision` chooses:
        NULL allocates; a zero size frees and gives NULL; a block already big
        enough comes back unchanged; otherwise a fresh block of `size` bytes
        starts with the old block's recorded-size bytes and the old block is
        freed, or, when the host heap refuses, NULL comes back and the old block
        stays live. Growing copies through `CopyBytes`, not the source's bare
        `memcpy`, so that a recorded size of 0 copies nothing. */
    method Realloc(p: Option<array<Byte>>, size: SizeT, hostGrants: bool) returns (r: Option<array<Byte>>)
      requires Valid()
      requires p.Some? ==> p.value in recorded
      modifies this
      ensures Valid()
      ensures match ReallocDecision(p.None?, old(RecordedSize(p)), size)
        case AllocFresh =>
          && (r.Some? <==> hostGrants)
          && (r.None? ==> recorded == old(recorded))
          && (r.Some? ==> fresh(r.value) && r.value.Length == size
                          && recorded == old(recorded)[r.value := size])
        case FreeBlock =>
          r.None? && recorded == old(recorded) - {p.value}
        case KeepBlock =>
          r == p && recorded == old(recorded)
        case GrowAndCopy(n) =>
          && (r.Some? <==> hostGrants)
          && (r.None? ==> recorded == old(recorded))
          && (r.Some? ==> fresh(r.value) && r.value.Length == size
                          && r.value[..n] == p.value[..n]
                          && recorded == (old(recorded) - {p.value})[r.value := size])
    {
      if p.None? {
        r := Alloc(size, hostGrants);
        return;
      } else if size == 0 {
        Free(p);
        return None;
      }
      var oldSize := recorded[p.value];
      if oldSize >= size {
        return p;
      }
      r := Alloc(size, hostGrants);
      if r.Some? {
        CopyBytes(r.value, 0, p.value, 0, oldSize);
        Free(p);
      }
    }
  }
}
