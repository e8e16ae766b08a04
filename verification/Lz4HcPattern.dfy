/**
  Counting repetitions of a four-byte pattern, forwards in eight-byte words and backwards in four-byte words,
  and extending a match backwards.
*/
module Lz4HcPattern {
  import opened Lz4Defs
  import opened Lz4Count

  /** A 32-bit word, as its bytes in memory. */
  type Word = w: seq<byte> | |w| == 4 witness [0, 0, 0, 0]

  // ---------------------------------------------------------------- backwards from a match

  /** LZ4HC_countBack: minus the number of common bytes directly before `ip` and `m`, within both lower bounds. */
  method CountBack(mem: seq<byte>, ip: nat, m: nat, iMin: nat, mMin: nat) returns (back: int)
    requires iMin <= ip <= |mem| && mMin <= m <= |mem|
    ensures back <= 0 && iMin <= ip + back && mMin <= m + back
    ensures Agree(mem, ip + back, m + back, -back)
    ensures ip + back == iMin || m + back == mMin || mem[ip + back - 1] != mem[m + back - 1]
    ensures -back == BytesBack(mem, ip, m, iMin, mMin)
  {
    back := 0;
    var min := Max(iMin - ip, mMin - m);
    while back > min && mem[ip + back - 1] == mem[m + back - 1]
      invariant min <= back <= 0
      invariant Agree(mem, ip + back, m + back, -back)
      invariant -back + BytesBack(mem, ip + back, m + back, iMin, mMin) == BytesBack(mem, ip, m, iMin, mMin)
    {
      assert SameAt(mem, ip + back - 1, m + back - 1, 0);
      AgreeMore(mem, ip + back - 1, m + back - 1, 1, -back);
      back := back - 1;
    }
  }

  // ---------------------------------------------------------------- patterns

  ghost predicate PatternAt(mem: seq<byte>, p: nat, pattern: Word, k: nat)
  {
    p + k < |mem| && mem[p + k] == pattern[k % 4]
  }

  /** `n` is how far the bytes from `p` on repeat the pattern, up to `limit`. */
  ghost predicate PatternLength(mem: seq<byte>, p: nat, limit: int, pattern: Word, n: nat)
  {
    && n <= Max(0, limit - p)
    && (forall k :: 0 <= k < n ==> PatternAt(mem, p, pattern, k))
    && (p + n < limit ==> !PatternAt(mem, p, pattern, n))
  }

  /** The same as a number, from byte `k` of the pattern on. */
  function PatternRun(mem: seq<byte>, p: nat, limit: int, pattern: Word, k: nat): (n: nat)
    ensures n <= Max(0, limit - p)
    decreases limit - p
  {
    if p < limit && p < |mem| && mem[p] == pattern[k % 4] then 1 + PatternRun(mem, p + 1, limit, pattern, k + 1) else 0
  }

  lemma {:induction false} PatternRunFrom(mem: seq<byte>, p: nat, limit: int, pattern: Word, n: nat, k: nat)
    requires PatternLength(mem, p, limit, pattern, n) && k <= n
    ensures n == k + PatternRun(mem, p + k, limit, pattern, k)
    decreases n - k
  {
    if k < n {
      assert PatternAt(mem, p, pattern, k);
      PatternRunFrom(mem, p, limit, pattern, n, k + 1);
    } else {
      assert p + n < limit ==> !PatternAt(mem, p, pattern, n);
    }
  }

  /** Comparing with a pattern is comparing with a copy of it behind the memory. */
  lemma {:induction false} PatternAsMemory(mem: seq<byte>, p: nat, pattern: Word, k: nat)
    requires p + k < |mem| && k < 8
    ensures SameAt(mem + (pattern + pattern), p, |mem|, k) <==> PatternAt(mem, p, pattern, k)
  {
    assert (pattern + pattern)[k] == pattern[k % 4];
  }

  lemma {:induction false} DifferenceAt(m: seq<byte>, p: nat, q: nat, d: bv64)
    requires p + 8 <= |m| && q + 8 <= |m| && d == ReadArch(m, p) ^ ReadArch(m, q)
    ensures d == 0 ==> Agree(m, p, q, 8)
    ensures d != 0 ==> LowestByte(d) < 8 && Agree(m, p, q, LowestByte(d)) && !SameAt(m, p, q, LowestByte(d))
  {
    hide ReadArch, SameAt, LowestByte, Agree;
    ArchDifference(m, p, q);
    if d != 0 {
      LowestByteBelow8(d);
    }
  }

  lemma {:induction false} PatternDifference(mem: seq<byte>, p: nat, pattern: Word, d: bv64)
    requires p + 8 <= |mem| && d == ReadArch(mem, p) ^ ReadArch(pattern + pattern, 0)
    ensures d == 0 ==> PatternLength(mem, p, p + 8, pattern, 8)
    ensures d != 0 ==> LowestByte(d) < 8 && PatternLength(mem, p, p + 8, pattern, LowestByte(d))
  {
    hide ReadArch, SameAt, LowestByte, PatternAt, Agree, PatternLength;
    ArchOfParts(mem, p, pattern);
    DifferenceAt(mem + (pattern + pattern), p, |mem|, d);
    if d == 0 {
      PatternFromAgree(mem, p, pattern, 8);
    } else {
      PatternFromAgree(mem, p, pattern, LowestByte(d));
    }
  }

  lemma {:induction false} PatternFromAgree(mem: seq<byte>, p: nat, pattern: Word, n: nat)
    requires p + 8 <= |mem| && n <= 8
    requires var m := mem + (pattern + pattern);
             Agree(m, p, |mem|, n) && (n < 8 ==> !SameAt(m, p, |mem|, n))
    ensures PatternLength(mem, p, p + 8, pattern, n)
  {
    hide SameAt, PatternAt;
    forall k | 0 <= k < n
      ensures PatternAt(mem, p, pattern, k)
    {
      PatternAsMemory(mem, p, pattern, k);
    }
    if n < 8 {
      PatternAsMemory(mem, p, pattern, n);
    }
  }

  /** One 8-byte step: how many bytes follow the pattern. */
  method PatternWord(mem: seq<byte>, p: nat, pattern: Word) returns (n: nat)
    requires p + 8 <= |mem|
    ensures n <= 8 && PatternLength(mem, p, p + 8, pattern, n)
  {
    hide ReadArch, DeBruijn, LowestByte, PatternLength;
    var diff := ReadArch(mem, p) ^ ReadArch(pattern + pattern, 0);
    PatternDifference(mem, p, pattern, diff);
    if diff == 0 {
      return 8;
    }
    n := NbCommonBytes(diff);
  }

  lemma {:induction false} LowestByteBelow8(d: bv64)
    requires d != 0
    ensures LowestByte(d) < 8
  {
  }

  lemma {:induction false} ArchOfParts(mem: seq<byte>, p: nat, pattern: Word)
    requires p + 8 <= |mem|
    ensures ReadArch(mem + (pattern + pattern), p) == ReadArch(mem, p)
    ensures ReadArch(mem + (pattern + pattern), |mem|) == ReadArch(pattern + pattern, 0)
  {
    hide WordOf, BitsOf;
  }

  lemma {:induction false} PatternMore(mem: seq<byte>, p: nat, limit: int, pattern: Word, n: nat, m: nat)
    requires n % 4 == 0 && p + n <= Max(p, limit) && PatternLength(mem, p, p + n, pattern, n)
    requires PatternLength(mem, p + n, limit, pattern, m)
    ensures PatternLength(mem, p, limit, pattern, n + m)
  {
    hide PatternAt;
    var p' := p + n;
    forall k | 0 <= k < n + m
      ensures PatternAt(mem, p, pattern, k)
    {
      if k >= n {
        PatternShift(mem, p, pattern, n, k - n);
      }
    }
    PatternShift(mem, p, pattern, n, m);
  }

  /** After whole words the pattern starts again. */
  lemma {:induction false} PatternShift(mem: seq<byte>, p: nat, pattern: Word, n: nat, k: nat)
    requires n % 4 == 0
    ensures PatternAt(mem, p, pattern, n + k) <==> PatternAt(mem, p + n, pattern, k)
  {
  }

  /** LZ4HC_countPattern. */
  method CountPattern(mem: seq<byte>, ip: nat, iEnd: int, pattern: Word) returns (n: nat)
    requires iEnd <= |mem|
    ensures PatternLength(mem, ip, iEnd, pattern, n) && n == PatternRun(mem, ip, iEnd, pattern, 0)
  {
    n := CountWords(mem, ip, iEnd, pattern);
    PatternRunFrom(mem, ip, iEnd, pattern, n, 0);
  }

  /** Eight bytes at a time, then the rest. */
  method CountWords(mem: seq<byte>, ip: nat, iEnd: int, pattern: Word) returns (n: nat)
    requires iEnd <= |mem|
    ensures PatternLength(mem, ip, iEnd, pattern, n)
  {
    hide PatternLength;
    n := 0;
    NothingCounted(mem, ip, pattern);
    while ip + n < iEnd - 7
      invariant n % 8 == 0 && ip + n <= Max(ip, iEnd)
      invariant PatternLength(mem, ip, ip + n, pattern, n)
    {
      var m := PatternWord(mem, ip + n, pattern);
      if m < 8 {
        PatternMore(mem, ip, ip + n + 8, pattern, n, m);
        PatternStops(mem, ip, ip + n + 8, iEnd, pattern, n + m);
        return n + m;
      }
      PatternMore(mem, ip, ip + n + 8, pattern, n, 8);
      n := n + 8;
    }
    var m := PatternTail(mem, ip + n, iEnd, pattern);
    PatternMore(mem, ip, iEnd, pattern, n, m);
    n := n + m;
  }

  lemma {:induction false} PatternStops(mem: seq<byte>, p: nat, limit: int, limit': int, pattern: Word, n: nat)
    requires PatternLength(mem, p, limit, pattern, n) && p + n < limit <= limit'
    ensures PatternLength(mem, p, limit', pattern, n)
  {
  }

  lemma {:induction false} NothingCounted(mem: seq<byte>, p: nat, pattern: Word)
    ensures PatternLength(mem, p, p, pattern, 0)
  {
  }

  /** At most seven bytes are left; the word is shifted right by one byte at a time. */
  method PatternTail(mem: seq<byte>, ip: nat, iEnd: int, pattern: Word) returns (n: nat)
    requires iEnd <= |mem| && iEnd <= ip + 7
    ensures PatternLength(mem, ip, iEnd, pattern, n)
  {
    n := 0;
    while ip + n < iEnd && mem[ip + n] == (pattern + pattern)[n]
      invariant n <= Max(0, iEnd - ip)
      invariant forall k :: 0 <= k < n ==> PatternAt(mem, ip, pattern, k)
    {
      assert PatternAt(mem, ip, pattern, n);
      n := n + 1;
    }
  }

  ghost predicate PatternBefore(mem: seq<byte>, p: nat, pattern: Word, k: nat)
  {
    k < p <= |mem| && mem[p - 1 - k] == pattern[3 - k % 4]
  }

  lemma {:induction false} WordBefore(mem: seq<byte>, p: nat, pattern: Word)
    requires 4 <= p <= |mem|
    ensures mem[p - 4..p] == pattern <==> forall k :: 0 <= k < 4 ==> PatternBefore(mem, p, pattern, k)
  {
    var w := mem[p - 4..p];
    assert w == pattern <==> w[0] == pattern[0] && w[1] == pattern[1] && w[2] == pattern[2] && w[3] == pattern[3];
    assert PatternBefore(mem, p, pattern, 0) <==> w[3] == pattern[3];
    assert PatternBefore(mem, p, pattern, 1) <==> w[2] == pattern[2];
    assert PatternBefore(mem, p, pattern, 2) <==> w[1] == pattern[1];
    assert PatternBefore(mem, p, pattern, 3) <==> w[0] == pattern[0];
  }

  /** `n` is how far the bytes before `p`, down to `iLow`, repeat the pattern, read backwards. */
  ghost predicate BackLength(mem: seq<byte>, p: nat, iLow: nat, pattern: Word, n: nat)
  {
    && iLow + n <= p
    && (forall k :: 0 <= k < n ==> PatternBefore(mem, p, pattern, k))
    && (iLow < p - n ==> !PatternBefore(mem, p, pattern, n))
  }

  /** The same as a number, from the `k`th byte from the end of the pattern on. */
  function PatternBack(mem: seq<byte>, p: nat, low: nat, pattern: Word, k: nat): (n: nat)
    ensures low <= p ==> low + n <= p
  {
    if low < p <= |mem| && mem[p - 1] == pattern[3 - k % 4] then 1 + PatternBack(mem, p - 1, low, pattern, k + 1) else 0
  }

  lemma {:induction false} PatternBackFrom(mem: seq<byte>, p: nat, low: nat, pattern: Word, n: nat, k: nat)
    requires BackLength(mem, p, low, pattern, n) && k <= n && p <= |mem|
    ensures n == k + PatternBack(mem, p - k, low, pattern, k)
    decreases n - k
  {
    if k < n {
      assert PatternBefore(mem, p, pattern, k);
      PatternBackFrom(mem, p, low, pattern, n, k + 1);
    } else {
      assert low < p - n ==> !PatternBefore(mem, p, pattern, n);
    }
  }

  /** LZ4HC_reverseCountPattern. */
  method ReverseCountPattern(mem: seq<byte>, ip: nat, iLow: nat, pattern: Word) returns (n: nat)
    requires iLow <= ip <= |mem|
    ensures BackLength(mem, ip, iLow, pattern, n) && n == PatternBack(mem, ip, iLow, pattern, 0)
  {
    n := ReverseWords(mem, ip, iLow, pattern);
    PatternBackFrom(mem, ip, iLow, pattern, n, 0);
  }

  /** Words first, then bytes. */
  method ReverseWords(mem: seq<byte>, ip: nat, iLow: nat, pattern: Word) returns (n: nat)
    requires iLow <= ip <= |mem|
    ensures BackLength(mem, ip, iLow, pattern, n)
  {
    hide PatternBefore;
    n := 0;
    while ip - n >= iLow + 4
      invariant iLow + n <= ip && n % 4 == 0
      invariant forall k :: 0 <= k < n ==> PatternBefore(mem, ip, pattern, k)
    {
      WordBefore(mem, ip - n, pattern);
      if mem[ip - n - 4..ip - n] != pattern {
        break;
      }
      BeforeMore(mem, ip, ip - n, n, pattern, 4);
      n := n + 4;
    }
    var more := ReverseTail(mem, ip - n, iLow, pattern);
    BeforeMore(mem, ip, ip - n, n, pattern, more);
    BeforeShift(mem, ip, ip - n, pattern, more);
    n := n + more;
  }

  /** Fewer than four bytes are left, or the word before them differs from the pattern. */
  method ReverseTail(mem: seq<byte>, ip0: nat, iLow: nat, pattern: Word) returns (n: nat)
    requires iLow <= ip0 <= |mem| && (iLow + 4 <= ip0 ==> mem[ip0 - 4..ip0] != pattern)
    ensures n < 4 && BackLength(mem, ip0, iLow, pattern, n)
  {
    if iLow + 4 <= ip0 {
      WordBefore(mem, ip0, pattern);
    }
    var last := 3;
    n := 0;
    while ip0 - n > iLow
      invariant iLow + n <= ip0 && n == 3 - last && 0 <= last
      invariant forall k :: 0 <= k < n ==> PatternBefore(mem, ip0, pattern, k)
    {
      assert PatternBefore(mem, ip0, pattern, n) <==> mem[ip0 - n - 1] == pattern[last];
      if mem[ip0 - n - 1] != pattern[last] {
        break;
      }
      n, last := n + 1, last - 1;
    }
  }

  lemma {:induction false} BeforeMore(mem: seq<byte>, p: nat, q: nat, n: nat, pattern: Word, m: nat)
    requires q == p - n && n % 4 == 0 && n + m <= p <= |mem| && forall k :: 0 <= k < n ==>
               PatternBefore(mem, p, pattern, k)
    requires forall k :: 0 <= k < m ==> PatternBefore(mem, q, pattern, k)
    ensures forall k :: 0 <= k < n + m ==> PatternBefore(mem, p, pattern, k)
  {
    forall k | 0 <= k < n + m
      ensures PatternBefore(mem, p, pattern, k)
    {
      if k >= n {
        assert PatternBefore(mem, q, pattern, k - n);
      }
    }
  }

  lemma {:induction false} BeforeShift(mem: seq<byte>, p: nat, q: nat, pattern: Word, k: nat)
    requires q <= p <= |mem| && (p - q) % 4 == 0
    ensures PatternBefore(mem, q, pattern, k) <==> PatternBefore(mem, p, pattern, p - q + k)
  {
  }

  // ---------------------------------------------------------------- rotation

  /** LZ4HC_rotatePattern: rotating a little-endian word left by a byte moves every byte one place up. */
  function RotatePattern(rotate: int, pattern: Word): Word
  {
    [pattern[(0 - rotate) % 4], pattern[(1 - rotate) % 4], pattern[(2 - rotate) % 4], pattern[(3 - rotate) % 4]]
  }

  predicate Uniform(pattern: Word)
  {
    pattern[0] == pattern[1] == pattern[2] == pattern[3]
  }

  /** The two comparisons of halves and outer bytes accept exactly the words of one repeated byte. */
  predicate Repetitive(pattern: Word)
  {
    pattern[..2] == pattern[2..] && pattern[0] == pattern[3]
  }

  lemma {:induction false} RepetitiveIsUniform(pattern: Word)
    ensures Repetitive(pattern) <==> Uniform(pattern)
  {
    assert pattern[..2] == pattern[2..] <==> pattern[..2][0] == pattern[2..][0] && pattern[..2][1] == pattern[2..][1];
  }

  /** What a pattern goes on with after `n` bytes. */
  function Continued(n: nat, pattern: Word): Word
  {
    [pattern[n % 4], pattern[(n + 1) % 4], pattern[(n + 2) % 4], pattern[(n + 3) % 4]]
  }

  /**
    Rotation gives what a pattern goes on with for every number of bytes exactly when the pattern repeats one or
    two bytes: for patterns of four it turns the wrong way. The search only ever rotates patterns of one byte.
  */
  lemma {:induction false} RotationContinues(pattern: Word)
    ensures (forall n: nat :: RotatePattern(n, pattern) == Continued(n, pattern)) <==> pattern[..2] == pattern[2..]
  {
    assert pattern[..2] == pattern[2..] <==> pattern[..2][0] == pattern[2..][0] && pattern[..2][1] == pattern[2..][1];
    if forall n: nat :: RotatePattern(n, pattern) == Continued(n, pattern) {
      assert RotatePattern(1, pattern) == Continued(1, pattern);
      assert RotatePattern(1, pattern)[0] == pattern[3];
      assert RotatePattern(1, pattern)[1] == pattern[0];
    }
    if pattern[..2] == pattern[2..] {
      forall n: nat
        ensures RotatePattern(n, pattern) == Continued(n, pattern)
      {
        assert pattern[0] == pattern[2] && pattern[1] == pattern[3];
        TwoPeriodicRotates(pattern, n);
      }
    }
  }

  lemma {:induction false} TwoPeriodicRotates(pattern: Word, n: nat)
    requires pattern[0] == pattern[2] && pattern[1] == pattern[3]
    ensures RotatePattern(n, pattern) == Continued(n, pattern)
  {
    TwoPeriodic(pattern, n);
    TwoPeriodic(pattern, n + 1);
    TwoPeriodic(pattern, n + 2);
    TwoPeriodic(pattern, n + 3);
    TwoPeriodic(pattern, 0 - n);
    TwoPeriodic(pattern, 1 - n);
    TwoPeriodic(pattern, 2 - n);
    TwoPeriodic(pattern, 3 - n);
  }

  lemma {:induction false} RotationOfByte(rotate: int, pattern: Word)
    requires Uniform(pattern)
    ensures RotatePattern(rotate, pattern) == pattern
  {
    var i := rotate % 4;
    assert pattern[(0 - rotate) % 4] == pattern[0] == pattern[(1 - rotate) % 4];
  }

  lemma {:induction false} TwoPeriodic(pattern: Word, i: int)
    requires pattern[0] == pattern[2] && pattern[1] == pattern[3]
    ensures pattern[i % 4] == pattern[i % 2]
  {
  }
}
