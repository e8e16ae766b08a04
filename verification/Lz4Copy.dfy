/**
  The copy routines of the codec: block copies, "wild" copies that may overshoot their end, and
  the tricks that let 8-byte copies serve matches at a distance below 8.
*/
module Lz4Copy {
  import opened Lz4Defs

  const INC32TABLE: seq<nat> := [0, 1, 2, 1, 0, 4, 4, 4]
  const DEC64TABLE: seq<int> := [0, 0, 0, -1, -4, 1, 2, 3]

  /** Outside [lo, hi) nothing has changed. */
  ghost predicate Framed(a: seq<byte>, b: seq<byte>, lo: int, hi: int)
  {
    && |a| == |b|
    && (forall k :: 0 <= k < lo && k < |a| ==> b[k] == a[k])
    && (forall k :: 0 <= k && hi <= k < |a| ==> b[k] == a[k])
  }

  /** Every byte of [lo, hi) repeats the one `off` before it. */
  ghost predicate Periodic(b: seq<byte>, lo: nat, hi: nat, off: nat)
    requires off <= lo && hi <= |b|
  {
    forall k :: lo <= k < hi ==> b[k] == b[k - off]
  }

  /** `b` is `a` with a match of `len` bytes at distance `off` written at `op`; only [op, lim) was touched. */
  ghost predicate Copied(a: seq<byte>, b: seq<byte>, op: nat, off: nat, len: nat, lim: nat)
  {
    && off <= op && op + len <= lim <= |a|
    && Framed(a, b, op, lim)
    && Periodic(b, op, op + len, off)
  }

  // ---------------------------------------------------------------- memcpy and wild copies

  /** memcpy from a read-only buffer. */
  method CopyFrom(dst: array<byte>, d: nat, src: seq<byte>, s: nat, n: nat)
    requires d + n <= dst.Length && s + n <= |src|
    modifies dst
    ensures forall k :: d <= k < d + n ==> dst[k] == src[s + (k - d)]
    ensures Framed(old(dst[..]), dst[..], d, d + n)
  {
    forall k | 0 <= k < n {
      dst[d + k] := src[s + k];
    }
  }

  /** memcpy inside the output buffer; as in C, the two ranges must not overlap. */
  method CopyWithin(dst: array<byte>, d: nat, s: nat, n: nat)
    requires s + n <= d && d + n <= dst.Length
    modifies dst
    ensures Periodic(dst[..], d, d + n, d - s)
    ensures Framed(old(dst[..]), dst[..], d, d + n)
  {
    forall k | 0 <= k < n {
      dst[d + k] := dst[s + k];
    }
  }

  /** Where a wild copy from `d` to `e` in steps of `n` bytes stops writing. */
  function WildEnd(d: int, e: int, n: int): int
    requires n > 0
    decreases if e > d then e - d else 0
  {
    if e <= d + n then d + n else WildEnd(d + n, e, n)
  }

  lemma {:induction false} WildEndBound(d: int, e: int, n: int)
    requires n > 0
    ensures d + n <= WildEnd(d, e, n) && e <= WildEnd(d, e, n)
    ensures WildEnd(d, e, n) <= Max(d, e - 1) + n
    decreases e - d
  {
    if e > d + n {
      WildEndBound(d + n, e, n);
    }
  }

  /** LZ4_wildCopy8 from a read-only buffer. */
  method WildCopy8From(dst: array<byte>, d: nat, src: seq<byte>, s: nat, e: int)
    requires WildEnd(d, e, 8) <= dst.Length && s + (WildEnd(d, e, 8) - d) <= |src|
    modifies dst
    ensures forall k :: d <= k < WildEnd(d, e, 8) ==> dst[k] == src[s + (k - d)]
    ensures Framed(old(dst[..]), dst[..], d, WildEnd(d, e, 8))
  {
    WildEndBound(d, e, 8);
    CopyFrom(dst, d, src, s, 8);
    var i := 8;
    while d + i < e
      invariant 8 <= i && WildEnd(d, e, 8) == (if e <= d + i then d + i else WildEnd(d + i, e, 8))
      invariant d + i <= WildEnd(d, e, 8)
      invariant forall k :: d <= k < d + i ==> dst[k] == src[s + (k - d)]
      invariant Framed(old(dst[..]), dst[..], d, d + i)
      decreases e - (d + i)
    {
      WildEndBound(d + i, e, 8);
      CopyFrom(dst, d + i, src, s + i, 8);
      i := i + 8;
    }
  }

  /** LZ4_wildCopy8 inside the output buffer, at a distance of at least 8. */
  method WildCopy8(dst: array<byte>, d: nat, s: nat, e: int)
    requires s + 8 <= d && WildEnd(d, e, 8) <= dst.Length
    modifies dst
    ensures d <= WildEnd(d, e, 8) <= dst.Length && Periodic(dst[..], d, WildEnd(d, e, 8), d - s)
    ensures Framed(old(dst[..]), dst[..], d, WildEnd(d, e, 8))
  {
    WildEndBound(d, e, 8);
    CopyWithin(dst, d, s, 8);
    var i := 8;
    while d + i < e
      invariant 8 <= i && WildEnd(d, e, 8) == (if e <= d + i then d + i else WildEnd(d + i, e, 8))
      invariant d + i <= WildEnd(d, e, 8)
      invariant Periodic(dst[..], d, d + i, d - s)
      invariant Framed(old(dst[..]), dst[..], d, d + i)
      decreases e - (d + i)
    {
      WildEndBound(d + i, e, 8);
      CopyWithin(dst, d + i, s + i, 8);
      i := i + 8;
    }
  }

  /** LZ4_wildCopy32 from a read-only buffer. */
  method WildCopy32From(dst: array<byte>, d: nat, src: seq<byte>, s: nat, e: int)
    requires WildEnd(d, e, 32) <= dst.Length && s + (WildEnd(d, e, 32) - d) <= |src|
    modifies dst
    ensures forall k :: d <= k < WildEnd(d, e, 32) ==> dst[k] == src[s + (k - d)]
    ensures Framed(old(dst[..]), dst[..], d, WildEnd(d, e, 32))
  {
    WildEndBound(d, e, 32);
    CopyFrom(dst, d, src, s, 16);
    CopyFrom(dst, d + 16, src, s + 16, 16);
    var i := 32;
    while d + i < e
      invariant 32 <= i && WildEnd(d, e, 32) == (if e <= d + i then d + i else WildEnd(d + i, e, 32))
      invariant d + i <= WildEnd(d, e, 32)
      invariant forall k :: d <= k < d + i ==> dst[k] == src[s + (k - d)]
      invariant Framed(old(dst[..]), dst[..], d, d + i)
      decreases e - (d + i)
    {
      WildEndBound(d + i, e, 32);
      CopyFrom(dst, d + i, src, s + i, 16);
      CopyFrom(dst, d + i + 16, src, s + i + 16, 16);
      i := i + 32;
    }
  }

  /** Two copies of 16, so a distance of 16 is enough. */
  method Copy32(dst: array<byte>, d: nat, s: nat)
    requires s + 16 <= d && d + 32 <= dst.Length
    modifies dst
    ensures Periodic(dst[..], d, d + 32, d - s)
    ensures Framed(old(dst[..]), dst[..], d, d + 32)
  {
    CopyWithin(dst, d, s, 16);
    CopyWithin(dst, d + 16, s + 16, 16);
  }

  /** LZ4_wildCopy32 inside the output buffer. */
  method WildCopy32(dst: array<byte>, d: nat, s: nat, e: int)
    requires s + 16 <= d && WildEnd(d, e, 32) <= dst.Length
    modifies dst
    ensures d <= WildEnd(d, e, 32) <= dst.Length && Periodic(dst[..], d, WildEnd(d, e, 32), d - s)
    ensures Framed(old(dst[..]), dst[..], d, WildEnd(d, e, 32))
  {
    WildEndBound(d, e, 32);
    Copy32(dst, d, s);
    var i := 32;
    while d + i < e
      invariant 32 <= i && WildEnd(d, e, 32) == (if e <= d + i then d + i else WildEnd(d + i, e, 32))
      invariant d + i <= WildEnd(d, e, 32)
      invariant Periodic(dst[..], d, d + i, d - s)
      invariant Framed(old(dst[..]), dst[..], d, d + i)
      decreases e - (d + i)
    {
      WildEndBound(d + i, e, 32);
      Copy32(dst, d + i, s + i);
      i := i + 32;
    }
  }

  // ---------------------------------------------------------------- overlapping matches

  /** After the first 8 bytes, copies continue from this distance: at least 8 and a multiple of `off`. */
  function Stretched(off: nat): nat
  {
    if off < 8 then 8 + off - INC32TABLE[off] + DEC64TABLE[off] else off
  }

  function Multiple(off: nat): nat
  {
    if off == 1 then 8 else if off == 2 then 4 else if off == 3 then 3
    else if 4 <= off < 8 then 2 else 1
  }

  lemma {:induction false} StretchedIsMultiple(off: nat)
    ensures off != 0 ==> Stretched(off) == Multiple(off) * off
    ensures 8 <= Stretched(off) <= 8 + off
  {
  }

  lemma {:induction false} StepDown(b: seq<byte>, lo: nat, j: nat, off: nat, i: nat)
    requires off <= lo && j < |b|
    requires Periodic(b, lo, j + 1, off)
    requires lo + i * off <= j + off
    ensures b[j] == b[j - i * off]
    decreases i
  {
    if i > 0 {
      StepDown(b, lo, j, off, i - 1);
      assert i * off == (i - 1) * off + off;
    }
  }

  /** Copying from a multiple of the period keeps the period. */
  lemma {:induction false} PeriodLift(b: seq<byte>, lo: nat, mid: nat, hi: nat, off: nat, m: nat)
    requires off <= lo <= mid <= hi <= |b| && m >= 1
    requires Periodic(b, lo, mid, off)
    requires lo + m * off <= mid + off
    requires m * off <= mid && Periodic(b, mid, hi, m * off)
    ensures Periodic(b, lo, hi, off)
    decreases hi
  {
    if mid < hi {
      PeriodLift(b, lo, mid, hi - 1, off, m);
      var k := hi - 1;
      assert m * off == (m - 1) * off + off;
      if m > 1 && off > 0 {
        StepDown(b, lo, k - off, off, m - 1);
      }
    }
  }

  /** Eight bytes of a match and a continuation at distance Stretched(off) make the whole match. */
  lemma {:induction false} StretchedCopy(b: seq<byte>, op: nat, hi: nat, off: nat)
    requires off <= op && op + 8 <= hi <= |b|
    requires Periodic(b, op, op + 8, off)
    requires Stretched(off) <= op + 8 && Periodic(b, op + 8, hi, Stretched(off))
    ensures Periodic(b, op, hi, off)
  {
    if off > 0 {
      StretchedIsMultiple(off);
      PeriodLift(b, op, op + 8, hi, off, Multiple(off));
    }
  }

  /**
    First eight bytes of a match. Below distance 8 the source is moved by the two tables, so that the
    copies that follow never overlap; `match'` is where they continue from.
  */
  method CopyFirst8(dst: array<byte>, op: nat, off: nat) returns (match': nat)
    requires off <= op && op + 8 <= dst.Length
    modifies dst
    ensures Periodic(dst[..], op, op + 8, off)
    ensures Framed(old(dst[..]), dst[..], op, op + 8)
    ensures match' == op + 8 - Stretched(off)
  {
    var match_ := op - off;
    if off < 8 {
      CopyFirst4(dst, op, off);
      ghost var first := dst[..];
      match_ := match_ + INC32TABLE[off];
      CopyWithin(dst, op + 4, match_, 4);
      SecondFour(first, dst[..], op, off);
      match' := match_ - DEC64TABLE[off];
    } else {
      CopyWithin(dst, op, match_, 8);
      match' := match_ + 8;
    }
  }

  /** Four bytes, one at a time: right at every distance. */
  method CopyFirst4(dst: array<byte>, op: nat, off: nat)
    requires off <= op && op + 4 <= dst.Length
    modifies dst
    ensures Periodic(dst[..], op, op + 4, off)
    ensures Framed(old(dst[..]), dst[..], op, op + 4)
  {
    dst[op] := dst[op - off];
    dst[op + 1] := dst[op + 1 - off];
    dst[op + 2] := dst[op + 2 - off];
    dst[op + 3] := dst[op + 3 - off];
  }

  lemma {:induction false} SecondFour(a: seq<byte>, b: seq<byte>, op: nat, off: nat)
    requires off <= op && off < 8 && op + 8 <= |b|
    requires Framed(a, b, op + 4, op + 8) && Periodic(a, op, op + 4, off)
    requires Periodic(b, op + 4, op + 8, 4 + off - INC32TABLE[off])
    ensures Periodic(b, op, op + 8, off)
  {
    forall k | op + 4 <= k < op + 8
      ensures b[k] == b[k - off]
    {
      var d := 4 + off - INC32TABLE[off];
      assert b[k] == b[k - d] == a[k - d];
      if off == 1 {
        assert a[op + 3] == a[op + 2] == a[op + 1] == a[op] == a[op - 1];
        assert b[op + 4] == b[op + 5] == b[op + 6] == b[op + 7] == a[op];
      } else if off == 2 {
        assert a[op + 3] == a[op + 1] && a[op + 2] == a[op];
        assert b[op + 4] == a[op] && b[op + 5] == a[op + 1];
      } else if off == 3 {
        assert a[op + 3] == a[op] && a[op] == a[op - 3] && a[op + 1] == a[op - 2] && a[op + 2] == a[op - 1];
        assert b[op + 4] == a[op - 2];
      }
    }
  }

  /** The first eight bytes of a match stand; what follows continues them. */
  lemma {:induction false} MatchFrom8(a: seq<byte>, b: seq<byte>, op: nat, off: nat, cpy: nat, oend: nat)
    requires off <= op && op + 8 <= oend <= |a| && op <= cpy <= oend
    requires Framed(a, b, op + 8, oend) && Periodic(a, op, op + 8, off) && Stretched(off) <= op + 8
    requires cpy > op + 8 ==> Periodic(b, op + 8, cpy, Stretched(off))
    ensures Periodic(b, op, cpy, off)
  {
    if cpy > op + 8 {
      StretchedCopy(b, op, cpy, off);
    }
  }

  /** LZ4_memcpy_using_offset_base: all it writes continues the match. */
  method MemcpyUsingOffsetBase(dst: array<byte>, op: nat, off: nat, cpy: nat)
    requires off <= op <= cpy && WildEnd(op + 8, cpy, 8) <= dst.Length
    modifies dst
    ensures op <= WildEnd(op + 8, cpy, 8)
    ensures Copied(old(dst[..]), dst[..], op, off, WildEnd(op + 8, cpy, 8) - op, WildEnd(op + 8, cpy, 8))
  {
    WildEndBound(op + 8, cpy, 8);
    StretchedIsMultiple(off);
    var match' := CopyFirst8(dst, op, off);
    ghost var first := dst[..];
    WildCopy8(dst, op + 8, match', cpy);
    MatchFrom8(first, dst[..], op, off, WildEnd(op + 8, cpy, 8), WildEnd(op + 8, cpy, 8));
  }

  /** Eight bytes that repeat with a period of 1, 2 or 4. */
  ghost predicate Pattern(v: seq<byte>, off: nat)
  {
    && |v| == 8 && (off == 1 || off == 2 || off == 4)
    && v[4] == v[0] && v[5] == v[1] && v[6] == v[2] && v[7] == v[3]
    && (off <= 2 ==> v[2] == v[0] && v[3] == v[1])
    && (off == 1 ==> v[1] == v[0])
  }

  ghost predicate Stamped(b: seq<byte>, d: nat, v: seq<byte>)
  {
    |v| == 8 && d + 8 <= |b| && forall k :: 0 <= k < 8 ==> b[d + k] == v[k]
  }

  /** One copy of the pattern. */
  method Stamp(dst: array<byte>, d: nat, v: seq<byte>)
    requires |v| == 8 && d + 8 <= dst.Length
    modifies dst
    ensures Stamped(dst[..], d, v) && Framed(old(dst[..]), dst[..], d, d + 8)
  {
    CopyFrom(dst, d, v, 0, 8);
  }

  /** The repeated 8-byte pattern of LZ4_memcpy_using_offset. */
  method CopyPattern(dst: array<byte>, op: nat, v: seq<byte>, off: nat, cpy: nat)
    requires Pattern(v, off)
    requires off <= op < cpy && op + 8 <= dst.Length && WildEnd(op, cpy, 8) <= dst.Length
    requires forall k :: 0 <= k < off ==> v[k] == dst[op - off + k]
    modifies dst
    ensures op <= WildEnd(op, cpy, 8)
    ensures Copied(old(dst[..]), dst[..], op, off, WildEnd(op, cpy, 8) - op, WildEnd(op, cpy, 8))
  {
    hide Periodic, Stamped, Framed;
    ghost var start := dst[..];
    WildEndBound(op, cpy, 8);
    Stamp(dst, op, v);
    FirstPattern(start, dst[..], op, v, off);
    var d := op + 8;
    while d < cpy
      invariant op + 8 <= d <= dst.Length
      invariant WildEnd(op, cpy, 8) == (if cpy <= d then d else WildEnd(d, cpy, 8))
      invariant Framed(start, dst[..], op, d) && Periodic(dst[..], op, d, off) && Stamped(dst[..], d - 8, v)
    {
      ghost var before := dst[..];
      WildEndBound(d, cpy, 8);
      Stamp(dst, d, v);
      PatternStep(start, before, dst[..], op, d, v, off);
      d := d + 8;
    }
  }

  lemma {:induction false} FirstPattern(a: seq<byte>, b: seq<byte>, op: nat, v: seq<byte>, off: nat)
    requires Pattern(v, off) && off <= op && op + 8 <= |b|
    requires Framed(a, b, op, op + 8) && Stamped(b, op, v)
    requires forall k :: 0 <= k < off ==> v[k] == a[op - off + k]
    ensures Periodic(b, op, op + 8, off)
  {
    forall k | op <= k < op + 8
      ensures b[k] == b[k - off]
    {
      var i := k - op;
      assert b[op + i] == v[i];
      if i < off {
        assert b[op - off + i] == a[op - off + i];
      } else {
        assert b[op + (i - off)] == v[i - off] == v[i];
      }
    }
  }

  lemma {:induction false} PatternStep(start: seq<byte>, a: seq<byte>, b: seq<byte>, op: nat, d: nat, v: seq<byte>,
      off: nat)
    requires Pattern(v, off) && off <= op && op + 8 <= d && d + 8 <= |b|
    requires Framed(start, a, op, d) && Framed(a, b, d, d + 8) && Periodic(a, op, d, off)
    requires Stamped(a, d - 8, v) && Stamped(b, d, v)
    ensures Framed(start, b, op, d + 8) && Periodic(b, op, d + 8, off)
  {
    forall k | op <= k < d + 8
      ensures b[k] == b[k - off]
    {
      if k >= d {
        var i := k - d;
        assert b[d + i] == v[i];
        if i < off {
          assert b[k - off] == a[d - 8 + (i + 8 - off)] == v[i + 8 - off] == v[i];
        } else {
          assert b[d + (i - off)] == v[i - off] == v[i];
        }
      }
    }
  }

  /** Where LZ4_memcpy_using_offset stops writing a match from `op` to `cpy`. */
  function UsingOffsetEnd(op: int, off: nat, cpy: int): int
  {
    if off == 1 || off == 2 || off == 4 then WildEnd(op, cpy, 8) else WildEnd(op + 8, cpy, 8)
  }

  /** Eight bytes behind `cpy`, which is what it asks for, are enough for exactly these matches. */
  lemma {:induction false} EightBytesSuffice(op: int, off: nat, cpy: int)
    requires op + MINMATCH <= cpy
    ensures UsingOffsetEnd(op, off, cpy) <= cpy + 8 <==> off == 1 || off == 2 || off == 4 || op + 8 <= cpy
    ensures cpy <= UsingOffsetEnd(op, off, cpy) <= Max(op + 16, cpy + 8)
  {
    WildEndBound(op, cpy, 8);
    WildEndBound(op + 8, cpy, 8);
  }

  /** LZ4_memcpy_using_offset: a match at a distance below 16, continued up to where it stops writing. */
  method MemcpyUsingOffset(dst: array<byte>, op: nat, off: nat, cpy: nat)
    requires off <= op && op + MINMATCH <= cpy && UsingOffsetEnd(op, off, cpy) <= dst.Length
    modifies dst
    ensures op <= UsingOffsetEnd(op, off, cpy)
    ensures Copied(old(dst[..]), dst[..], op, off, UsingOffsetEnd(op, off, cpy) - op, UsingOffsetEnd(op, off, cpy))
  {
    hide Periodic;
    EightBytesSuffice(op, off, cpy);
    ghost var start := dst[..];
    forall k | 0 <= k < 4 {
      dst[op + k] := 0;
    }
    ghost var zeroed := dst[..];
    var m := op - off;
    if off == 1 {
      var c := dst[m];
      CopyPattern(dst, op, [c, c, c, c, c, c, c, c], 1, cpy);
    } else if off == 2 {
      var c, d := dst[m], dst[m + 1];
      CopyPattern(dst, op, [c, d, c, d, c, d, c, d], 2, cpy);
    } else if off == 4 {
      var c, d, e, f := dst[m], dst[m + 1], dst[m + 2], dst[m + 3];
      CopyPattern(dst, op, [c, d, e, f, c, d, e, f], 4, cpy);
    } else {
      MemcpyUsingOffsetBase(dst, op, off, cpy);
    }
    FramedTwice(start, zeroed, dst[..], op, UsingOffsetEnd(op, off, cpy));
  }

  lemma {:induction false} FramedTwice(a: seq<byte>, b: seq<byte>, c: seq<byte>, lo: int, hi: int)
    requires Framed(a, b, lo, hi) && Framed(b, c, lo, hi)
    ensures Framed(a, c, lo, hi)
  {
  }

  /** A match of four bytes at a distance of three changes the twelfth byte behind its end. */
  method OverwritesTwelve(dst: array<byte>)
    requires dst[..] == [1, 1, 1, 0, 0, 0, 0, 0, 0, 0, 0, 0, 0, 0, 0, 0, 0, 0, 0]
    modifies dst
    ensures dst[7 + 12 - 1] == 1
  {
    MemcpyUsingOffset(dst, 3, 3, 7);
    ghost var b := dst[..];
    assert b[18] == b[15] == b[12] == b[9] == b[6] == b[3] == b[0];
  }

  // ---------------------------------------------------------------- the decoder's match copies

  /** The shortcut for matches of at most 18 bytes at a distance of at least 8. */
  method Copy18(dst: array<byte>, op: nat, off: nat)
    requires 8 <= off <= op && op + 18 <= dst.Length
    modifies dst
    ensures Copied(old(dst[..]), dst[..], op, off, 18, op + 18)
  {
    CopyWithin(dst, op, op - off, 8);
    CopyWithin(dst, op + 8, op + 8 - off, 8);
    CopyWithin(dst, op + 16, op + 16 - off, 2);
  }

  /** Byte by byte, from `s` up: the two ranges may overlap. */
  method CopyBytes(dst: array<byte>, d: nat, s: nat, n: nat)
    requires s <= d && d + n <= dst.Length
    modifies dst
    ensures Copied(old(dst[..]), dst[..], d, d - s, n, d + n)
  {
    var i := 0;
    while i < n
      invariant 0 <= i <= n
      invariant Framed(old(dst[..]), dst[..], d, d + i)
      invariant Periodic(dst[..], d, d + i, d - s)
    {
      dst[d + i] := dst[s + i];
      i := i + 1;
    }
  }

  /** The match copy at the end of a partial decode. */
  method CopyMatchPartial(dst: array<byte>, op: nat, off: nat, mlen: nat)
    requires off <= op && op + mlen <= dst.Length
    modifies dst
    ensures Copied(old(dst[..]), dst[..], op, off, mlen, op + mlen)
  {
    if op - off + mlen > op {
      CopyBytes(dst, op, op - off, mlen);
    } else {
      CopyWithin(dst, op, op - off, mlen);
    }
  }

  /** The last bytes before the end of the buffer: a wild copy while there is room, then single bytes. */
  method CopyTail(dst: array<byte>, op: nat, match_: nat, cpy: nat, oend: nat)
    requires match_ + 8 <= op && op + MINMATCH <= oend <= dst.Length && cpy + LASTLITERALS <= oend
    modifies dst
    ensures cpy > op ==> Periodic(dst[..], op, cpy, op - match_)
    ensures Framed(old(dst[..]), dst[..], op, oend)
  {
    var limit := oend - (WILDCOPYLENGTH - 1);
    var d := op;
    if d < limit {
      WildEndBound(d, limit, 8);
      WildCopy8(dst, d, match_, limit);
      d := limit;
    }
    while d < cpy
      invariant op <= d && d <= Max(cpy, Max(op, limit))
      invariant Framed(old(dst[..]), dst[..], op, oend)
      invariant Periodic(dst[..], op, d, op - match_)
    {
      dst[d] := dst[d - (op - match_)];
      d := d + 1;
    }
  }

  /** What follows the first eight bytes of a match that leaves the safeguard distance free. */
  method CopyRest(dst: array<byte>, op: nat, match_: nat, cpy: nat, oend: nat)
    requires match_ + 8 <= op && cpy + MATCH_SAFEGUARD_DISTANCE <= oend <= dst.Length && op + 8 <= oend
    modifies dst
    ensures cpy > op ==> Periodic(dst[..], op, cpy, op - match_)
    ensures Framed(old(dst[..]), dst[..], op, oend)
  {
    CopyWithin(dst, op, match_, 8);
    if cpy > op + 8 {
      ghost var first := dst[..];
      WildEndBound(op + 8, cpy, 8);
      WildCopy8(dst, op + 8, match_ + 8, cpy);
      PeriodicJoin(first, dst[..], op, op + 8, cpy, WildEnd(op + 8, cpy, 8), op - match_);
    }
  }

  lemma {:induction false} PeriodicJoin(a: seq<byte>, b: seq<byte>, lo: nat, mid: nat, hi: nat, lim: nat, off: nat)
    requires off <= lo <= mid <= hi <= lim <= |b| && Framed(a, b, mid, lim)
    requires Periodic(a, lo, mid, off) && Periodic(b, mid, lim, off)
    ensures Periodic(b, lo, hi, off)
  {
  }

  /** The match copy of the safe loop; a match may not reach into the last LASTLITERALS bytes. */
  method CopyMatchSafe(dst: array<byte>, op: nat, off: nat, mlen: nat, oend: nat) returns (ok: bool)
    requires off <= op && MINMATCH <= mlen && oend <= dst.Length
    requires op + MFLIMIT <= oend
    modifies dst
    ensures ok <==> op + mlen + LASTLITERALS <= oend
    ensures ok ==> Copied(old(dst[..]), dst[..], op, off, mlen, oend)
    ensures Framed(old(dst[..]), dst[..], op, oend)
  {
    StretchedIsMultiple(off);
    var cpy := op + mlen;
    var match' := CopyFirst8(dst, op, off);
    ghost var first := dst[..];
    if cpy > oend - MATCH_SAFEGUARD_DISTANCE {
      if cpy > oend - LASTLITERALS {
        return false;
      }
      CopyTail(dst, op + 8, match', cpy, oend);
    } else {
      CopyRest(dst, op + 8, match', cpy, oend);
    }
    MatchFrom8(first, dst[..], op, off, cpy, oend);
    return true;
  }
}
