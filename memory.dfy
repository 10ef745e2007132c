/**
 * The memory primitives: fill, compare, copy and overlap-safe move.
 *
 * A C pointer into a buffer is an array together with an offset. Two different
 * arrays are two different C objects, so their regions never overlap.
 */
module Memory {
  import opened CTypes

  /** `s` with the bytes of `t` written over it from index `off` on. */
  function Splice(s: seq<Byte>, off: nat, t: seq<Byte>): (r: seq<Byte>)
    requires off + |t| <= |s|
    ensures |r| == |s|
    ensures forall k :: 0 <= k < |s| ==> r[k] == if off <= k < off + |t| then t[k - off] else s[k]
  {
    s[..off] + t + s[off + |t|..]
  }

  /** `n` copies of the byte `b`. */
  function Fill(b: Byte, n: nat): (r: seq<Byte>)
    ensures |r| == n
    ensures forall k :: 0 <= k < n ==> r[k] == b
  {
    seq(n, _ => b)
  }

  /** The conversion `(unsigned char)c`: C reduces modulo 256, which for a
      positive modulus is what Dafny's `%` does on negative operands too. */
  function LowByte(c: Int32): (r: Byte)
    ensures (c - r as int) % 256 == 0
  {
    (c % 256) as Byte
  }

  // ---------------------------------------------------------------------------
  // Laws of Splice: what the copy and fill operations below are stated with
  // ---------------------------------------------------------------------------

  /** Writing back the bytes that are already there changes nothing: this is
      why a move with `n == 0` or `dest == src` may return at once. */
  lemma SpliceOwnBytes(s: seq<Byte>, off: nat, n: nat)
    requires off + n <= |s|
    ensures Splice(s, off, s[off..off + n]) == s
  {
    var r := Splice(s, off, s[off..off + n]);
    forall k | 0 <= k < |s| ensures r[k] == s[k] {
      if off <= k < off + n {
        assert s[off..off + n][k - off] == s[k];
      }
    }
  }

  /** A buffer that agrees byte by byte with a write of `t` at `off` is that write. */
  lemma SpliceFromPointwise(r: seq<Byte>, s: seq<Byte>, off: nat, t: seq<Byte>)
    requires |r| == |s| && off + |t| <= |s|
    requires forall k :: 0 <= k < |r| ==> r[k] == if off <= k < off + |t| then t[k - off] else s[k]
    ensures r == Splice(s, off, t)
  {
  }

  /** After a write the region reads back as what was written, and the bytes
      on either side are the old ones. */
  lemma SpliceParts(s: seq<Byte>, off: nat, t: seq<Byte>)
    requires off + |t| <= |s|
    ensures Splice(s, off, t)[off..off + |t|] == t
    ensures Splice(s, off, t)[..off] == s[..off]
    ensures Splice(s, off, t)[off + |t|..] == s[off + |t|..]
  {
    var r := Splice(s, off, t);
    assert r[off..off + |t|] == t by {
      forall k | 0 <= k < |t| ensures r[off..off + |t|][k] == t[k] {
        assert r[off + k] == t[k];
      }
    }
  }

  // ---------------------------------------------------------------------------
  // musys_memset
  // ---------------------------------------------------------------------------

  /** `musys_memset(s + off, c, sz)`: the `sz` bytes from `off` on become
      `(unsigned char)c`; every other byte keeps its value; returns `s`. */
  method MemSet(s: array<Byte>, off: nat, c: Int32, sz: nat) returns (r: array<Byte>)
    requires off + sz <= s.Length
    modifies s
    ensures r == s
    ensures s[..] == Splice(old(s[..]), off, Fill(LowByte(c), sz))
  {
    var p, n := off, sz;
    while n > 0
      invariant p == off + (sz - n) && 0 <= n <= sz
      invariant forall k :: 0 <= k < s.Length ==> s[k] == if off <= k < p then LowByte(c) else old(s[k])
    {
      s[p] := LowByte(c);
      p, n := p + 1, n - 1;
    }
    r := s;
    assert s[..] == Splice(old(s[..]), off, Fill(LowByte(c), sz)) by {
      forall k | 0 <= k < s.Length
        ensures s[..][k] == Splice(old(s[..]), off, Fill(LowByte(c), sz))[k]
      {
        assert s[..][k] == s[k] && old(s[..])[k] == old(s[k]);
        if off <= k < off + sz {
          assert Fill(LowByte(c), sz)[k - off] == LowByte(c);
        }
      }
    }
  }

  // ---------------------------------------------------------------------------
  // musys_memcmp
  // ---------------------------------------------------------------------------

  /** The difference of the first mismatching byte pair, or 0 when none does. */
  function Compare(a: seq<Byte>, b: seq<Byte>): (d: int)
    requires |a| == |b|
    ensures -255 <= d <= 255
  {
    if |a| == 0 then 0
    else if a[0] != b[0] then a[0] as int - b[0] as int
    else Compare(a[1..], b[1..])
  }

  /** `a` sorts before `b` byte-wise: at their first difference `a`'s byte is smaller. */
  ghost predicate LexLess(a: seq<Byte>, b: seq<Byte>)
    requires |a| == |b|
  {
    exists i :: 0 <= i < |a| && a[..i] == b[..i] && a[i] < b[i]
  }

  lemma {:induction false} CompareZeroIffEqual(a: seq<Byte>, b: seq<Byte>)
    requires |a| == |b|
    ensures Compare(a, b) == 0 <==> a == b
  {
    if |a| > 0 && a[0] == b[0] {
      CompareZeroIffEqual(a[1..], b[1..]);
      if a[1..] == b[1..] {
        assert a == [a[0]] + a[1..] && b == [b[0]] + b[1..];
      }
    }
  }

  /** At the first mismatch, the result is that pair's difference. */
  lemma {:induction false} CompareAtFirstMismatch(a: seq<Byte>, b: seq<Byte>, i: nat)
    requires |a| == |b| && i < |a|
    requires a[..i] == b[..i] && a[i] != b[i]
    ensures Compare(a, b) == a[i] as int - b[i] as int
  {
    if i > 0 {
      assert a[0] == a[..i][0] && b[0] == b[..i][0];
      assert a[1..][..i - 1] == a[..i][1..] && b[1..][..i - 1] == b[..i][1..];
      CompareAtFirstMismatch(a[1..], b[1..], i - 1);
    }
  }

  /** Swapping the operands negates the result. */
  lemma {:induction false} CompareAntisymmetric(a: seq<Byte>, b: seq<Byte>)
    requires |a| == |b|
    ensures Compare(b, a) == -Compare(a, b)
  {
    if |a| > 0 && a[0] == b[0] {
      CompareAntisymmetric(a[1..], b[1..]);
    }
  }

  /** A negative result means `a` sorts first: it is the first mismatch that decides. */
  lemma {:induction false} CompareNegativeIsLexLess(a: seq<Byte>, b: seq<Byte>)
    requires |a| == |b| && Compare(a, b) < 0
    ensures LexLess(a, b)
  {
    if a[0] != b[0] {
      assert a[..0] == b[..0];
    } else {
      var a', b' := a[1..], b[1..];
      CompareNegativeIsLexLess(a', b');
      var i :| 0 <= i < |a'| && a'[..i] == b'[..i] && a'[i] < b'[i];
      calc {
        a[..i + 1];
        [a[0]] + a'[..i];
        [b[0]] + b'[..i];
        b[..i + 1];
      }
      assert a[i + 1] == a'[i] && b[i + 1] == b'[i];
    }
  }

  /** The sign of the result orders the buffers byte-wise. */
  lemma CompareNegativeIffLexLess(a: seq<Byte>, b: seq<Byte>)
    requires |a| == |b|
    ensures Compare(a, b) < 0 <==> LexLess(a, b)
  {
    if LexLess(a, b) {
      var i :| 0 <= i < |a| && a[..i] == b[..i] && a[i] < b[i];
      CompareAtFirstMismatch(a, b, i);
    }
    if Compare(a, b) < 0 {
      CompareNegativeIsLexLess(a, b);
    }
  }

  /** `musys_memcmp(s1 + o1, s2 + o2, n)`: 0 exactly when the two regions hold
      the same bytes, otherwise the difference at the first mismatch. */
  method MemCmp(s1: array<Byte>, o1: nat, s2: array<Byte>, o2: nat, n: nat) returns (r: int)
    requires o1 + n <= s1.Length && o2 + n <= s2.Length
    ensures r == Compare(s1[o1..o1 + n], s2[o2..o2 + n])
    ensures r == 0 <==> s1[o1..o1 + n] == s2[o2..o2 + n]
  {
    ghost var a, b := s1[o1..o1 + n], s2[o2..o2 + n];
    CompareZeroIffEqual(a, b);
    var i := 0;
    while i < n
      invariant i <= n
      invariant Compare(a, b) == Compare(a[i..], b[i..])
    {
      if s1[o1 + i] != s2[o2 + i] {
        assert a[i..][0] == s1[o1 + i] && b[i..][0] == s2[o2 + i];
        return s1[o1 + i] as int - s2[o2 + i] as int;
      }
      assert a[i..][1..] == a[i + 1..] && b[i..][1..] == b[i + 1..];
      i := i + 1;
    }
    return 0;
  }

  // ---------------------------------------------------------------------------
  // musys_memcpy and musys_memmove
  // ---------------------------------------------------------------------------

  /** The regions `[dOff, dOff + n)` of `dst` and `[sOff, sOff + n)` of `src`
      share no byte. */
  predicate Disjoint(dst: array<Byte>, dOff: nat, src: array<Byte>, sOff: nat, n: nat)
  {
    dst != src || dOff + n <= sOff || sOff + n <= dOff
  }

  /** The index `musys_memcpy` writes first: `count--` on a `size_t`. */
  function MemCpyFirstIndex(count: SizeT): (r: SizeT)
    ensures count > 0 ==> r == count - 1
    ensures count == 0 ==> r == SIZE_MAX
  {
    (count + SIZE_MAX) % SIZE_MODULUS
  }

  /** `musys_memcpy(dst + dOff, src + sOff, count)` copies the last byte first
      and the first byte last. It is meant for disjoint regions; the backward
      order also gives the right result when the destination lies at or after
      the source in one buffer. It needs `count > 0`: with 0 the first
      `count--` wraps round to `SIZE_MAX`. Returns `dst`. */
  method MemCpy(dst: array<Byte>, dOff: nat, src: array<Byte>, sOff: nat, count: nat) returns (r: array<Byte>)
    requires count > 0
    requires dOff + count <= dst.Length && sOff + count <= src.Length
    requires Disjoint(dst, dOff, src, sOff, count) || sOff <= dOff
    modifies dst
    ensures r == dst
    ensures dst[..] == Splice(old(dst[..]), dOff, old(src[sOff..sOff + count]))
  {
    ghost var t := src[sOff..sOff + count];
    var i := count - 1;
    dst[dOff + i] := src[sOff + i];
    while i > 0
      invariant 0 <= i < count
      invariant forall k :: 0 <= k < dst.Length ==>
        dst[k] == if dOff + i <= k < dOff + count then t[k - dOff] else old(dst[k])
      invariant dst != src ==> src[..] == old(src[..])
    {
      i := i - 1;
      dst[dOff + i] := src[sOff + i];
    }
    r := dst;
    assert dst[..] == Splice(old(dst[..]), dOff, t) by {
      forall k | 0 <= k < dst.Length ensures dst[..][k] == Splice(old(dst[..]), dOff, t)[k] { }
    }
  }

  /** `musys_memcpy` guarded so that a zero count copies nothing, as sections
      7.24.1 and 7.24.2.1 of ISO C11 have `memcpy` do; the allocator's grow
      path copies through this. */
  method CopyBytes(dst: array<Byte>, dOff: nat, src: array<Byte>, sOff: nat, count: nat)
    requires dOff + count <= dst.Length && sOff + count <= src.Length
    requires Disjoint(dst, dOff, src, sOff, count)
    modifies dst
    ensures dst[..] == Splice(old(dst[..]), dOff, old(src[sOff..sOff + count]))
    ensures dst[dOff..dOff + count] == old(src[sOff..sOff + count])
  {
    if count > 0 {
      var _ := MemCpy(dst, dOff, src, sOff, count);
    } else {
      SpliceOwnBytes(dst[..], dOff, 0);
    }
    SpliceParts(old(dst[..]), dOff, old(src[sOff..sOff + count]));
  }

  /** `musys_memmove(dst + dOff, src + sOff, n)`: the destination region ends up
      holding the source region's old bytes however the two overlap. Within one
      buffer it copies backward when the destination starts inside the source
      region, forward when the source starts inside the destination region, and
      through `MemCpy` otherwise. The overlap tests compare a pointer distance
      with `(int)n`, so within one buffer `n` must fit an `int`; regions of two
      different buffers are disjoint and always take the `MemCpy` path.
      Returns `dst`. */
  method MemMove(dst: array<Byte>, dOff: nat, src: array<Byte>, sOff: nat, n: nat) returns (r: array<Byte>)
    requires dOff + n <= dst.Length && sOff + n <= src.Length
    requires dst == src ==> n <= INT_MAX
    modifies dst
    ensures r == dst
    ensures dst[..] == Splice(old(dst[..]), dOff, old(src[sOff..sOff + n]))
  {
    ghost var t := src[sOff..sOff + n];
    r := dst;
    if (dst == src && dOff == sOff) || n == 0 {
      SpliceOwnBytes(dst[..], dOff, n);
      return;
    }
    if dst == src && dOff > sOff && dOff - sOff < n {
      var i: int := n - 1;
      while i >= 0
        invariant -1 <= i < n
        invariant forall k :: 0 <= k < dst.Length ==>
          dst[k] == if dOff + i < k < dOff + n then t[k - dOff] else old(dst[k])
      {
        dst[dOff + i] := src[sOff + i];
        i := i - 1;
      }
    } else if dst == src && sOff > dOff && sOff - dOff < n {
      for i := 0 to n
        invariant forall k :: 0 <= k < dst.Length ==>
          dst[k] == if dOff <= k < dOff + i then t[k - dOff] else old(dst[k])
      {
        dst[dOff + i] := src[sOff + i];
      }
    } else {
      var _ := MemCpy(dst, dOff, src, sOff, n);
      return;
    }
    assert dst[..] == Splice(old(dst[..]), dOff, t) by {
      forall k | 0 <= k < dst.Length ensures dst[..][k] == Splice(old(dst[..]), dOff, t)[k] { }
    }
  }
}
