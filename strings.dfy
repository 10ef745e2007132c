/**
 * The string primitives: NUL-terminated byte strings in caller buffers.
 *
 * A string argument points at the start of its array. None of the in-place
 * operations checks bounds: the destination's capacity is the caller's
 * obligation, stated here as a precondition.
 */
module Strings {
  import opened CTypes
  import opened Memory
  import opened Allocator

  /** The index of the first zero byte: the string's length. */
  function CLen(s: seq<Byte>): (n: nat)
    requires 0 in s
    ensures n < |s| && s[n] == 0
    ensures forall k :: 0 <= k < n ==> s[k] != 0
  {
    if s[0] == 0 then 0
    else
      assert 0 in s[1..] by {
        var i :| 0 <= i < |s| && s[i] == 0;
        assert s[1..][i - 1] == 0;
      }
      1 + CLen(s[1..])
  }

  /** A byte string without zeros, then a terminator, has that string's length
      whatever follows the terminator. */
  lemma CLenOfTerminated(t: seq<Byte>, rest: seq<Byte>)
    requires 0 !in t
    ensures 0 in t + [0] + rest
    ensures CLen(t + [0] + rest) == |t|
  {
    var s := t + [0] + rest;
    assert s[|t|] == 0;
  }

  /** The string is its bytes before the terminator, then the terminator. */
  lemma StringUpToTerminator(s: seq<Byte>)
    requires 0 in s
    ensures 0 !in s[..CLen(s)]
    ensures s[..CLen(s) + 1] == s[..CLen(s)] + [0]
  {
  }

  /** `musys_strlen(s)`: counts the bytes before the first zero. */
  method StrLen(s: array<Byte>) returns (n: nat)
    requires 0 in s[..]
    ensures n == CLen(s[..])
    ensures n < s.Length && s[n] == 0 && forall k :: 0 <= k < n ==> s[k] != 0
  {
    n := 0;
    while s[n] != 0
      invariant n <= CLen(s[..])
      invariant forall k :: 0 <= k < n ==> s[k] != 0
      decreases s.Length - n
    {
      n := n + 1;
    }
  }

  /** `musys_strcpy(dest, src)`: copies `src` with its terminator to the start
      of `dest`, whose other bytes keep their value; returns `dest`. `dest`
      must hold the copy. With `dest == src` every byte is copied onto itself,
      which changes nothing. */
  method StrCpy(dest: array<Byte>, src: array<Byte>) returns (r: array<Byte>)
    requires 0 in src[..]
    requires CLen(src[..]) < dest.Length
    modifies dest
    ensures r == dest
    ensures dest[..] == Splice(old(dest[..]), 0, old(src[..CLen(src[..]) + 1]))
  {
    ghost var oldd, ss := dest[..], src[..];
    ghost var n := CLen(ss);
    ghost var copied := src[..CLen(src[..]) + 1];
    assert copied == ss[..n + 1];
    var i := 0;
    dest[0] := src[0];
    while dest[i] != 0
      invariant i <= n
      invariant forall k :: 0 <= k < dest.Length ==> dest[k] == if k <= i then ss[k] else oldd[k]
      invariant forall k :: i < k < src.Length ==> src[k] == ss[k]
      decreases n - i
    {
      assert i < n by {
        assert dest[i] == ss[i];
      }
      i := i + 1;
      dest[i] := src[i];
    }
    r := dest;
    assert i == n by {
      assert ss[i] == 0;
    }
    SpliceFromPointwise(dest[..], oldd, 0, copied);
  }

  /** `musys_strcat(a, b)`: writes `b` with its terminator over `a`'s
      terminator, leaving `a`'s string and every later byte as they were;
      returns `a`. The buffers must be distinct and `a` must hold the result. */
  method StrCat(a: array<Byte>, b: array<Byte>) returns (r: array<Byte>)
    requires a != b
    requires 0 in a[..] && 0 in b[..]
    requires CLen(a[..]) + CLen(b[..]) < a.Length
    modifies a
    ensures r == a
    ensures a[..] == Splice(old(a[..]), old(CLen(a[..])), b[..CLen(b[..]) + 1])
  {
    ghost var olda, bs := a[..], b[..];
    ghost var la, lb := CLen(olda), CLen(bs);
    var i := 0;
    while a[i] != 0
      invariant i <= la
      decreases la - i
    {
      i := i + 1;
    }
    var j := 0;
    a[i] := b[0];
    while a[i + j] != 0
      invariant i == la && j <= lb
      invariant forall k :: 0 <= k < a.Length ==>
        a[k] == if la <= k <= la + j then bs[k - la] else olda[k]
      decreases lb - j
    {
      assert j < lb by {
        assert a[la + j] == bs[j];
      }
      j := j + 1;
      a[i + j] := b[j];
    }
    r := a;
    assert j == lb by {
      assert bs[j] == 0;
    }
    assert b[..] == bs && CLen(b[..]) == lb;
    SpliceFromPointwise(a[..], olda, la, bs[..lb + 1]);
    assert a[..] == Splice(olda, la, bs[..lb + 1]);
  }

  /** What `musys_strcpy` leaves in `dest` is `src`'s string. */
  lemma StrCpyGivesSource(d: seq<Byte>, s: seq<Byte>)
    requires 0 in s && CLen(s) < |d|
    ensures 0 in Splice(d, 0, s[..CLen(s) + 1])
    ensures var r := Splice(d, 0, s[..CLen(s) + 1]);
      CLen(r) == CLen(s) && r[..CLen(r)] == s[..CLen(s)]
  {
    var n := CLen(s);
    var rest := d[n + 1..];
    SpliceStringLayout(d, 0, s, n);
    assert d[..0] + s[..n] + [0] + rest == s[..n] + [0] + rest;
    StringUpToTerminator(s);
    CLenOfTerminated(s[..n], rest);
    assert (s[..n] + [0] + rest)[..n] == s[..n];
  }

  /** A string of length `n` written with its terminator at `off` over a
      buffer: the bytes before `off`, the string's own bytes, its terminator,
      then the old bytes after it. */
  lemma SpliceStringLayout(d: seq<Byte>, off: nat, s: seq<Byte>, n: nat)
    requires n < |s| && s[n] == 0 && off + n < |d|
    ensures Splice(d, off, s[..n + 1]) == d[..off] + s[..n] + [0] + d[off + n + 1..]
  {
    assert s[..n + 1] == s[..n] + [0];
  }

  /** What `musys_strcat` leaves in `a` is `a`'s old string followed by `b`'s. */
  lemma StrCatAppends(a: seq<Byte>, b: seq<Byte>)
    requires 0 in a && 0 in b && CLen(a) + CLen(b) < |a|
    ensures 0 in Splice(a, CLen(a), b[..CLen(b) + 1])
    ensures var r := Splice(a, CLen(a), b[..CLen(b) + 1]);
      CLen(r) == CLen(a) + CLen(b) && r[..CLen(r)] == a[..CLen(a)] + b[..CLen(b)]
  {
    var la, lb := CLen(a), CLen(b);
    var joined := a[..la] + b[..lb];
    var rest := a[la + lb + 1..];
    SpliceStringLayout(a, la, b, lb);
    assert a[..la] + b[..lb] + [0] + rest == joined + [0] + rest;
    StringUpToTerminator(a);
    StringUpToTerminator(b);
    JoinedHasNoZero(a[..la], b[..lb]);
    CLenOfTerminated(joined, rest);
    assert (joined + [0] + rest)[..la + lb] == joined;
  }

  /** Two strings without zeros joined have no zero either. */
  lemma JoinedHasNoZero(x: seq<Byte>, y: seq<Byte>)
    requires 0 !in x && 0 !in y
    ensures 0 !in x + y
  {
  }

  /** `musys_strjoin(s1, s2)`: NULL when either argument is NULL; otherwise a
      fresh block of `strlen(s1) + strlen(s2) + 1` bytes holding `s1`'s bytes,
      then `s2`'s, then a terminator. The inputs are left as they are. The
      source does not check the allocation, so callers must see that it
      succeeds. */
  method StrJoin(heap: Heap, s1: Option<array<Byte>>, s2: Option<array<Byte>>, hostGrants: bool)
    returns (r: Option<array<Byte>>)
    requires heap.Valid()
    requires s1.Some? ==> 0 in s1.value[..]
    requires s2.Some? ==> 0 in s2.value[..]
    requires s1.Some? && s2.Some? ==> hostGrants
    requires s1.Some? && s2.Some? ==> CLen(s1.value[..]) + CLen(s2.value[..]) < SIZE_MAX
    modifies heap
    ensures heap.Valid()
    ensures r.None? <==> s1.None? || s2.None?
    ensures r.None? ==> heap.recorded == old(heap.recorded)
    ensures r.Some? ==>
      var l1, l2 := CLen(s1.value[..]), CLen(s2.value[..]);
      fresh(r.value) && r.value[..] == s1.value[..l1] + s2.value[..l2] + [0]
    ensures r.Some? ==> heap.recorded == old(heap.recorded)[r.value := r.value.Length]
  {
    if s1.None? || s2.None? {
      return None;
    }
    var a, b := s1.value, s2.value;
    var l1 := StrLen(a);
    var l2 := StrLen(b);
    var len := l1 + l2;
    r := heap.Alloc(len + 1, hostGrants);
    var block := r.value;
    ghost var initial, x, y := block[..], a[..l1], b[..l2];
    var _ := MemMove(block, 0, a, 0, l1);
    var _ := MemMove(block, l1, b, 0, l2);
    block[len] := 0;
    JoinLayout(initial, x, y);
  }

  /** Writing `x` at 0, then `y` right after it, then a zero right after that,
      over a block of exactly that size, leaves `x + y + [0]`. */
  lemma JoinLayout(block: seq<Byte>, x: seq<Byte>, y: seq<Byte>)
    requires |block| == |x| + |y| + 1
    ensures Splice(Splice(block, 0, x), |x|, y)[|x| + |y| := 0] == x + y + [0]
  {
    var first := Splice(block, 0, x);
    var second := Splice(first, |x|, y);
    SpliceParts(block, 0, x);
    SpliceParts(first, |x|, y);
    calc {
      second[|x| + |y| := 0];
      second[..|x| + |y|] + [0];
      { assert second[..|x| + |y|] == second[..|x|] + second[|x|..|x| + |y|]; }
      x + y + [0];
    }
  }

  /** The joined block is a string whose length is the sum of the two
      lengths and whose bytes are the two strings one after the other. */
  lemma JoinedString(x: seq<Byte>, y: seq<Byte>)
    requires 0 in x && 0 in y
    ensures 0 in x[..CLen(x)] + y[..CLen(y)] + [0]
    ensures var j := x[..CLen(x)] + y[..CLen(y)];
      CLen(j + [0]) == |j| == CLen(x) + CLen(y)
  {
    var j := x[..CLen(x)] + y[..CLen(y)];
    StringUpToTerminator(x);
    StringUpToTerminator(y);
    JoinedHasNoZero(x[..CLen(x)], y[..CLen(y)]);
    CLenOfTerminated(j, []);
    assert j + [0] + [] == j + [0];
  }
}
