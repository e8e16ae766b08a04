/**
  LZ4HC_InsertAndGetWiderMatch: the chain walk with backward extension, pattern analysis and chain swapping.
  Whatever path a candidate is reached by, a reported match really repeats earlier bytes; without the shortcuts
  and with attempts left, none that starts at the searched position is longer.
*/
module Lz4HcMatch {
  import opened Lz4Defs
  import opened Lz4Count
  import opened Lz4FastTable
  import opened Lz4HcChain
  import opened Lz4HcPattern

  ghost predicate EqualAt(s: Space, ref: int, i: int, k: int)
    requires s.Valid()
  {
    s.lowLimit <= ref + k < s.end && s.lowLimit <= i + k < s.end && s.At(ref + k) == s.At(i + k)
  }

  /** The `n` bytes at index `i` repeat those at the earlier index `ref`. */
  ghost predicate Repeats(s: Space, ref: int, i: int, n: int)
    requires s.Valid()
  {
    && s.lowLimit <= ref < i && i + n <= s.end
    && forall k :: 0 <= k < n ==> EqualAt(s, ref, i, k)
  }

  /** One search: at `ip`, extending backwards to `low` at most, forwards to `high`, beyond `minLen` bytes. */
  datatype Query = Query(ip: nat, low: nat, high: nat, minLen: nat)

  predicate QueryOk(s: Space, q: Query)
  {
    && s.Valid() && s.dictLimit <= q.low <= q.ip && q.ip + MINMATCH <= q.high && q.high + LASTLITERALS <= s.end
    && 1 <= q.minLen && q.ip - q.low < q.minLen && q.low + q.minLen <= q.high
  }

  /** What is known of the longest match so far: its length, the index it refers to, the index it starts at. */
  datatype Best = Best(longest: nat, ref: int, start: nat)

  ghost predicate Found(s: Space, q: Query, b: Best)
    requires QueryOk(s, q)
  {
    && q.low <= b.start <= q.ip && b.start + b.longest <= q.high && q.ip + MINMATCH <= b.start + b.longest
    && 1 <= b.start - b.ref <= DISTANCE_MAX && Repeats(s, b.ref, b.start, b.longest)
  }

  ghost predicate BestOk(s: Space, q: Query, b: Best)
    requires QueryOk(s, q)
  {
    && q.minLen <= b.longest && q.low + b.longest <= q.high
    && (b.longest > q.minLen ==> Found(s, q, b))
  }

  /** A match with the bytes at `m`: `n` bytes from the searched position on, and `back` before it. */
  ghost predicate Wide(s: Space, q: Query, m: int, back: nat, n: nat)
    requires QueryOk(s, q)
  {
    && MINMATCH <= n && q.ip + n <= q.high && q.low + back <= q.ip
    && (if m < s.dictLimit then s.lowLimit else s.dictLimit) + back <= m
    && Repeats(s, m - back, q.ip - back, back + n)
  }

  /** None of them is longer than `longest`. */
  ghost predicate Beaten(s: Space, q: Query, m: int, longest: nat)
    requires QueryOk(s, q)
  {
    forall back: nat, n: nat :: Wide(s, q, m, back, n) ==> back + n <= longest
  }

  /** None of them goes further back than `most` bytes. */
  ghost predicate NoFurther(s: Space, q: Query, m: int, most: nat)
    requires QueryOk(s, q)
  {
    forall back: nat, n: nat :: Wide(s, q, m, back, n) ==> back <= most
  }

  /** No match that starts at the searched position with the bytes at `m` is longer. */
  ghost predicate NoLonger(s: Space, q: Query, m: int, longest: nat)
    requires QueryOk(s, q)
  {
    forall n :: MINMATCH <= n && q.ip + n <= q.high && Repeats(s, m, q.ip, n) ==> n <= longest
  }

  // ---------------------------------------------------------------- from memory to indices

  /** A byte of the block and an earlier one, as indices and in memory. */
  lemma {:induction false} EqualInMemory(s: Space, ref: int, i: int, k: nat)
    requires s.Valid() && s.lowLimit <= ref < i && s.dictLimit <= i && i + k < s.end
    requires ref < s.dictLimit ==> ref + k < s.dictLimit
    ensures 0 <= s.Addr(ref) && 0 <= s.base + i
            && (EqualAt(s, ref, i, k) <==> SameAt(s.mem, s.base + i, s.Addr(ref), k))
  {
  }

  /** Bytes that agree in memory, both stretches inside one segment each. */
  lemma {:induction false} AgreeRepeats(s: Space, ref: int, i: int, n: nat)
    requires s.Valid() && s.lowLimit <= ref < i && s.dictLimit <= i && i + n <= s.end
    requires ref < s.dictLimit ==> ref + n <= s.dictLimit
    requires 0 <= s.Addr(ref) && 0 <= s.base + i && Agree(s.mem, s.base + i, s.Addr(ref), n)
    ensures Repeats(s, ref, i, n)
  {
    hide EqualAt, SameAt;
    forall k | 0 <= k < n
      ensures EqualAt(s, ref, i, k)
    {
      EqualInMemory(s, ref, i, k);
    }
  }

  lemma {:induction false} RepeatsAgree(s: Space, ref: int, i: int, n: nat, k: nat)
    requires s.Valid() && Repeats(s, ref, i, n) && s.dictLimit <= i && k < n
    requires ref < s.dictLimit ==> ref + k < s.dictLimit
    ensures 0 <= s.Addr(ref) && 0 <= s.base + i && SameAt(s.mem, s.base + i, s.Addr(ref), k)
  {
    EqualInMemory(s, ref, i, k);
  }

  lemma {:induction false} RepeatsJoin(s: Space, ref: int, i: int, n: nat, m: nat)
    requires s.Valid() && Repeats(s, ref, i, n) && Repeats(s, ref + n, i + n, m)
    ensures Repeats(s, ref, i, n + m)
  {
    forall k | 0 <= k < n + m
      ensures EqualAt(s, ref, i, k)
    {
      if k >= n {
        assert EqualAt(s, ref + n, i + n, k - n);
      }
    }
  }

  lemma {:induction false} RepeatsPart(s: Space, ref: int, i: int, n: nat, m: nat)
    requires s.Valid() && Repeats(s, ref, i, n) && m <= n
    ensures Repeats(s, ref, i, m) && Repeats(s, ref + m, i + m, n - m)
  {
    var ref', i' := ref + m, i + m;
    forall k | 0 <= k < n - m
      ensures EqualAt(s, ref', i', k)
    {
      assert EqualAt(s, ref, i, m + k);
    }
  }

  /** What there is of a wide match from the searched position on. */
  lemma {:induction false} WideForward(s: Space, q: Query, m: int, back: nat, n: nat)
    requires QueryOk(s, q) && Wide(s, q, m, back, n)
    ensures Repeats(s, m, q.ip, n)
  {
    RepeatsPart(s, m - back, q.ip - back, back + n, back);
  }

  lemma {:induction false} BothWays(s: Space, q: Query, m: int, n: nat, most: nat)
    requires QueryOk(s, q) && NoLonger(s, q, m, n) && NoFurther(s, q, m, most)
    ensures Beaten(s, q, m, n + most)
  {
    hide Wide, Repeats;
    forall back: nat, n': nat | Wide(s, q, m, back, n')
      ensures back + n' <= n + most
    {
      WideForward(s, q, m, back, n');
      WideShape(s, q, m, back, n');
    }
  }

  lemma {:induction false} WideShape(s: Space, q: Query, m: int, back: nat, n: nat)
    requires QueryOk(s, q) && Wide(s, q, m, back, n)
    ensures MINMATCH <= n && q.ip + n <= q.high && q.low + back <= q.ip
    ensures (if m < s.dictLimit then s.lowLimit else s.dictLimit) + back <= m
  {
  }

  /** Without a match of four bytes there is no wide one. */
  lemma {:induction false} NoneWide(s: Space, q: Query, m: int, longest: nat)
    requires QueryOk(s, q) && NoLonger(s, q, m, 0)
    ensures Beaten(s, q, m, longest)
  {
    hide Wide, Repeats;
    forall back: nat, n: nat | Wide(s, q, m, back, n)
      ensures false
    {
      WideForward(s, q, m, back, n);
      WideShape(s, q, m, back, n);
    }
  }

  /** A search that does not look back. */
  lemma {:induction false} BeatenForward(s: Space, q: Query, m: int, longest: nat)
    requires QueryOk(s, q) && q.low == q.ip && s.lowLimit <= m
    ensures Beaten(s, q, m, longest) <==> NoLonger(s, q, m, longest)
  {
    hide Repeats;
    if Beaten(s, q, m, longest) {
      forall n | MINMATCH <= n && q.ip + n <= q.high && Repeats(s, m, q.ip, n)
        ensures n <= longest
      {
        assert Wide(s, q, m, 0, n);
      }
    }
    if NoLonger(s, q, m, longest) {
      forall back: nat, n: nat | Wide(s, q, m, back, n)
        ensures back + n <= longest
      {
        WideForward(s, q, m, back, n);
      }
    }
  }

  /** Equal first four bytes have equal hashes. */
  lemma {:induction false} SameHash(s: Space, m: int, ip: int, n: nat)
    requires s.Valid() && s.dictLimit <= ip && ip + 4 <= s.end && s.Chained(m) && m < ip && 4 <= n
             && Repeats(s, m, ip, n)
    ensures s.HashAt(m) == s.HashAt(ip)
  {
    RepeatsAgree(s, m, ip, n, 0);
    RepeatsAgree(s, m, ip, n, 1);
    RepeatsAgree(s, m, ip, n, 2);
    RepeatsAgree(s, m, ip, n, 3);
    assert Read32(s.mem, s.Addr(m)) == Read32(s.mem, s.Addr(ip));
  }

  // ---------------------------------------------------------------- candidates

  /** The lowest index a match may refer to. */
  function LowestMatchIndex(s: Space, ip: nat): (low: nat)
    requires s.lowLimit <= ip
    ensures s.lowLimit <= low <= ip <= low + DISTANCE_MAX
    ensures s.lowLimit < low ==> low == ip - DISTANCE_MAX
  {
    if s.lowLimit + (DISTANCE_MAX + 1) > ip then s.lowLimit else ip - DISTANCE_MAX
  }

  /**
    A candidate the loop may look at. Only chain swapping, which needs a match of four bytes first and never goes
    backwards, may lead to the last three bytes of the dictionary. Without it all candidates have been in a chain.
  */
  predicate Candidate(s: Space, q: Query, m: int, longest: nat, swap: bool)
    requires s.lowLimit <= q.ip
  {
    LowestMatchIndex(s, q.ip) <= m < q.ip && (s.Chained(m) || (swap && MINMATCH <= longest && q.low == q.ip))
  }

  /** `n` bytes at two addresses, if they can be read, are the same. */
  predicate SameBytes(mem: seq<byte>, x: int, y: int, n: nat)
  {
    0 <= x && 0 <= y && x + n <= |mem| && y + n <= |mem| && mem[x..x + n] == mem[y..y + n]
  }

  /** The comparisons that a candidate has to pass before it is measured. */
  predicate Passes(s: Space, q: Query, longest: nat, m: nat)
  {
    && SameBytes(s.mem, s.Addr(m), s.base + q.ip, 4)
    && (m >= s.dictLimit ==>
          SameBytes(s.mem, s.base + q.low + longest - 1, s.base + m - (q.ip - q.low) + longest - 1, 2))
  }

  /** How far a candidate goes on; one of the dictionary may go on at the start of the prefix. */
  function Onward(s: Space, q: Query, m: nat): (n: nat)
    requires QueryOk(s, q) && s.lowLimit <= m
    ensures MINMATCH <= n
  {
    var p, r := s.base + q.ip, s.Addr(m);
    if m >= s.dictLimit then MINMATCH + Common(s.mem, p + MINMATCH, r + MINMATCH, s.base + q.high)
    else
      var vLimit := Min(q.ip + (s.dictLimit - m), q.high);
      var n := MINMATCH + Common(s.mem, p + MINMATCH, r + MINMATCH, s.base + vLimit);
      if q.ip + n == vLimit && vLimit < q.high
      then n + Common(s.mem, p + n, s.base + s.dictLimit, s.base + q.high) else n
  }

  /** How far it goes back, inside its segment. */
  function Backward(s: Space, q: Query, m: nat): (n: nat)
    requires QueryOk(s, q) && s.lowLimit <= m
    ensures q.low + n <= q.ip && (if m < s.dictLimit then s.lowLimit else s.dictLimit) + n <= m
  {
    if q.ip == q.low then 0
    else if m >= s.dictLimit then BytesBack(s.mem, s.base + q.ip, s.base + m, s.base + q.low, s.base + s.dictLimit)
    else BytesBack(s.mem, s.base + q.ip, s.dictBase + m, s.base + q.low, s.dictBase + s.lowLimit)
  }

  /** The best match once `m` has been tried, and the length that was measured. */
  function Measured(s: Space, q: Query, b: Best, m: nat): (r: (Best, nat))
    requires QueryOk(s, q) && s.lowLimit <= m
  {
    if !Passes(s, q, b.longest, m) then (b, 0)
    else
      var back := Backward(s, q, m);
      var len := Onward(s, q, m) + back;
      (if len > b.longest then Best(len, m - back, q.ip - back) else b, len)
  }

  /** The first four bytes of a chained index lie in one segment. */
  lemma {:induction false} ChainedReadsInside(s: Space, m: int)
    requires s.Valid() && s.Chained(m) && m + 4 <= s.end
    ensures if m < s.dictLimit then s.dictBase + s.lowLimit <= s.Addr(m) && s.Addr(m) + 4 <= s.dictBase + s.dictLimit
            else s.base + s.dictLimit <= s.Addr(m) && s.Addr(m) + 4 <= s.base + s.end
  {
  }

  /** A candidate in the prefix. */
  method TryPrefix(s: Space, q: Query, b: Best, m: nat) returns (b': Best, matchLength: nat)
    requires QueryOk(s, q) && BestOk(s, q, b) && LowestMatchIndex(s, q.ip) <= m < q.ip && s.dictLimit <= m
    ensures BestOk(s, q, b') && b.longest <= b'.longest
    ensures matchLength <= b'.longest && (matchLength == 0 || MINMATCH <= matchLength)
    ensures Beaten(s, q, m, b'.longest) && (b', matchLength) == Measured(s, q, b, m)
  {
    hide BestOk, NoLonger, Beaten, Found, CommonLength, Agree, Repeats, Onward, Backward, Passes;
    b', matchLength := b, 0;
    GateReads(s, q, b, m);
    var passed := Gate(s, q, b, m);
    if passed {
      var back: int, more: nat;
      back, more := PrefixLength(s, q, m);
      matchLength := MINMATCH + more - back;
      if matchLength > b.longest {
        b' := Best(matchLength, m + back, q.ip + back);
      }
      BetterIsFound(s, q, b, b', m, back, more);
    }
  }

  /** The addresses that the first comparison reads are in bounds. */
  lemma {:induction false} GateReads(s: Space, q: Query, b: Best, m: nat)
    requires QueryOk(s, q) && BestOk(s, q, b) && s.dictLimit <= m < q.ip
    ensures q.low + b.longest + 1 <= s.end && 1 <= b.longest && q.ip - q.low < b.longest
  {
  }

  lemma {:induction false} PassesInPrefix(s: Space, q: Query, longest: nat, m: nat, x: nat, y: nat)
    requires QueryOk(s, q) && s.dictLimit <= m < q.ip && q.low + longest + 1 <= s.end && q.ip - q.low < longest
    requires x == s.base + q.low + longest - 1 && y == s.base + m - (q.ip - q.low) + longest - 1
    ensures Passes(s, q, longest, m) <==>
            ReadEqual(s.mem, x, y, 2) && ReadEqual(s.mem, s.base + m, s.base + q.ip, 4)
  {
  }

  lemma {:induction false} PassesInDict(s: Space, q: Query, longest: nat, m: nat)
    requires QueryOk(s, q) && s.lowLimit <= m < s.dictLimit && s.dictBase + m + 4 <= |s.mem|
    ensures Passes(s, q, longest, m) <==> ReadEqual(s.mem, s.dictBase + m, s.base + q.ip, 4)
  {
  }

  /** Two bytes where a longer match must agree, then the first four. */
  method Gate(s: Space, q: Query, b: Best, m: nat) returns (passed: bool)
    requires QueryOk(s, q) && s.dictLimit <= m < q.ip
    requires q.low + b.longest + 1 <= s.end && 1 <= b.longest && q.ip - q.low < b.longest
    ensures passed ==> Repeats(s, m, q.ip, 4)
    ensures !passed ==> Beaten(s, q, m, b.longest)
    ensures passed == Passes(s, q, b.longest, m)
  {
    hide EqualAt, ReadEqual, Passes, Beaten, NoLonger, Repeats;
    var lookBack := q.ip - q.low;
    var x: nat, y: nat := s.base + q.low + b.longest - 1, s.base + m - lookBack + b.longest - 1;
    var p: nat, r: nat := s.base + q.ip, s.base + m;
    PassesInPrefix(s, q, b.longest, m, x, y);
    if !ReadEqual(s.mem, x, y, 2) {
      ReadEqual2(s.mem, r, p, b.longest - 1 - lookBack);
      ShorterThan(s, q, m, b.longest - 1 - lookBack, b.longest);
      return false;
    }
    ReadEqual4(s.mem, p, r, 0);
    if !ReadEqual(s.mem, r, p, 4) {
      ShorterThan4(s, q, m);
      NoneWide(s, q, m, b.longest);
      return false;
    }
    FourRepeat(s, m, q.ip);
    return true;
  }

  lemma {:induction false} FourRepeat(s: Space, m: nat, ip: nat)
    requires s.Valid() && s.dictLimit <= m < ip && ip + 4 <= s.end
    requires var p, r := s.base + ip, s.base + m;
             p >= 0 && r >= 0 && SameAt(s.mem, p, r, 0) && SameAt(s.mem, p, r, 1) && SameAt(s.mem, p, r, 2)
                 && SameAt(s.mem, p, r, 3)
    ensures Repeats(s, m, ip, 4)
  {
    hide SameAt;
    AgreeRepeats(s, m, ip, 4);
  }

  /** A match that would have to agree where the bytes differ does not exist. */
  lemma {:induction false} ShorterThan(s: Space, q: Query, m: nat, k: nat, longest: nat)
    requires QueryOk(s, q) && s.dictLimit <= m < q.ip && q.low + longest + 1 <= s.end
    requires longest == k + 1 + (q.ip - q.low)
    requires 0 <= s.base + m && 0 <= s.base + q.ip
    requires !(SameAt(s.mem, s.base + m, s.base + q.ip, k) && SameAt(s.mem, s.base + m, s.base + q.ip, k + 1))
    ensures Beaten(s, q, m, longest)
  {
    hide Wide, Repeats;
    forall back: nat, n: nat | Wide(s, q, m, back, n)
      ensures back + n <= longest
    {
      WideShape(s, q, m, back, n);
      WideForward(s, q, m, back, n);
      if back + n > longest {
        RepeatsAgree(s, m, q.ip, n, k);
        RepeatsAgree(s, m, q.ip, n, k + 1);
      }
    }
  }

  lemma {:induction false} ShorterThan4(s: Space, q: Query, m: nat)
    requires QueryOk(s, q) && s.dictLimit <= m < q.ip && 0 <= s.base + m && 0 <= s.base + q.ip
    requires var p, r := s.base + q.ip, s.base + m;
             !(SameAt(s.mem, p, r, 0) && SameAt(s.mem, p, r, 1) && SameAt(s.mem, p, r, 2) && SameAt(s.mem, p, r, 3))
    ensures NoLonger(s, q, m, 0)
  {
    forall n
      ensures !(MINMATCH <= n && q.ip + n <= q.high && Repeats(s, m, q.ip, n))
    {
      if MINMATCH <= n && q.ip + n <= q.high && Repeats(s, m, q.ip, n) {
        RepeatsAgree(s, m, q.ip, n, 0);
        RepeatsAgree(s, m, q.ip, n, 1);
        RepeatsAgree(s, m, q.ip, n, 2);
        RepeatsAgree(s, m, q.ip, n, 3);
      }
    }
  }

  /** How far a candidate of the prefix goes back and beyond its first four bytes. */
  method PrefixLength(s: Space, q: Query, m: nat) returns (back: int, more: nat)
    requires QueryOk(s, q) && s.dictLimit <= m < q.ip && Repeats(s, m, q.ip, 4)
    ensures back <= 0 && q.low <= q.ip + back && s.dictLimit <= m + back
    ensures q.ip + MINMATCH + more <= q.high && Repeats(s, m + back, q.ip + back, MINMATCH + more - back)
    ensures NoLonger(s, q, m, MINMATCH + more) && NoFurther(s, q, m, -back)
    ensures -back == Backward(s, q, m) && MINMATCH + more == Onward(s, q, m)
  {
    hide Agree, CommonLength, Repeats, NoLonger, NoFurther, Common, BytesBack;
    back := 0;
    var p: nat, r: nat := s.base + q.ip, s.base + m;
    if q.ip > q.low {
      back := CountBack(s.mem, p, r, s.base + q.low, s.base + s.dictLimit);
      BackRepeats(s, m, q.ip, back);
    } else {
      NothingRepeats(s, m, q.ip);
    }
    BackBeats(s, q, m, back, s.base + s.dictLimit);
    more := Count(s.mem, p + MINMATCH, r + MINMATCH, s.base + q.high);
    CommonIs(s.mem, p + MINMATCH, r + MINMATCH, s.base + q.high, more);
    CountRepeats(s, q.ip + MINMATCH, m + MINMATCH, s.base + q.high, more);
    RepeatsJoin(s, m, q.ip, 4, more);
    RepeatsJoin(s, m + back, q.ip + back, -back, MINMATCH + more);
    CountBeats(s, q, m, more, s.base + q.high);
  }

  /** Where counting back has stopped the bytes differ, or a bound is reached. */
  lemma {:induction false} BackBeats(s: Space, q: Query, m: nat, back: int, mMin: int)
    requires QueryOk(s, q) && s.lowLimit <= m < q.ip && back <= 0 && q.low <= q.ip + back
    requires mMin == if m < s.dictLimit then s.dictBase + s.lowLimit else s.base + s.dictLimit
    requires mMin <= s.Addr(m) + back
    requires q.ip + back == q.low || s.Addr(m) + back == mMin
             || s.mem[s.base + q.ip + back - 1] != s.mem[s.Addr(m) + back - 1]
    ensures NoFurther(s, q, m, -back)
  {
    hide Wide, Repeats;
    forall b: nat, n: nat | Wide(s, q, m, b, n)
      ensures b <= -back
    {
      WideShape(s, q, m, b, n);
      if b > -back {
        WideBack(s, q, m, b, n, -back);
      }
    }
  }

  lemma {:induction false} WideBack(s: Space, q: Query, m: nat, back: nat, n: nat, k: nat)
    requires QueryOk(s, q) && s.lowLimit <= m < q.ip && Wide(s, q, m, back, n) && k < back
    ensures 0 <= s.Addr(m) - k - 1 && s.mem[s.base + q.ip - k - 1] == s.mem[s.Addr(m) - k - 1]
  {
    RepeatsAgree(s, m - back, q.ip - back, back + n, back - k - 1);
  }

  lemma {:induction false} NothingRepeats(s: Space, m: int, ip: int)
    requires s.Valid() && s.lowLimit <= m < ip <= s.end
    ensures Repeats(s, m, ip, 0)
  {
  }

  lemma {:induction false} BackRepeats(s: Space, m: nat, ip: nat, back: int)
    requires s.Valid() && s.dictLimit <= m + back && m < ip <= s.end && back <= 0
    requires 0 <= s.base + m + back && Agree(s.mem, s.base + ip + back, s.base + m + back, -back)
    ensures Repeats(s, m + back, ip + back, -back)
  {
    AgreeRepeats(s, m + back, ip + back, -back);
  }

  lemma {:induction false} CountRepeats(s: Space, i: nat, ref: nat, limit: int, n: nat)
    requires s.Valid() && s.dictLimit <= ref < i
    requires limit <= s.base + s.end && i <= limit - s.base
    requires 0 <= s.base + ref && CommonLength(s.mem, s.base + i, s.base + ref, limit, n)
    ensures i + n <= limit - s.base && Repeats(s, ref, i, n)
  {
    AgreeRepeats(s, ref, i, n);
  }

  /** What was counted cannot be outdone with the same candidate. */
  lemma {:induction false} CountBeats(s: Space, q: Query, m: nat, more: nat, limit: int)
    requires QueryOk(s, q) && s.dictLimit <= m < q.ip && limit == s.base + q.high && 0 <= s.base + m
    requires CommonLength(s.mem, s.base + q.ip + 4, s.base + m + 4, limit, more)
    ensures NoLonger(s, q, m, MINMATCH + more)
  {
    forall n | MINMATCH <= n && q.ip + n <= q.high && Repeats(s, m, q.ip, n)
      ensures n <= MINMATCH + more
    {
      if n > MINMATCH + more {
        RepeatsAgree(s, m, q.ip, n, 4 + more);
      }
    }
  }

  /** The longer of the match known and the one just measured. */
  lemma {:induction false} BetterIsFound(s: Space, q: Query, b: Best, b': Best, m: nat, back: int, more: nat)
    requires QueryOk(s, q) && BestOk(s, q, b) && LowestMatchIndex(s, q.ip) <= m < q.ip
    requires back <= 0 && q.low <= q.ip + back && q.ip + MINMATCH + more <= q.high
    requires Repeats(s, m + back, q.ip + back, MINMATCH + more - back)
    requires b' == if MINMATCH + more - back > b.longest then Best(MINMATCH + more - back, m + back, q.ip + back) else b
    ensures BestOk(s, q, b') && MINMATCH + more - back <= b'.longest && b.longest <= b'.longest
    ensures NoLonger(s, q, m, MINMATCH + more) && NoFurther(s, q, m, -back) ==> Beaten(s, q, m, b'.longest)
  {
    hide NoLonger, NoFurther, Wide, Repeats;
    if NoLonger(s, q, m, MINMATCH + more) && NoFurther(s, q, m, -back) {
      BothWays(s, q, m, MINMATCH + more, -back);
      BeatenMore(s, q, m, MINMATCH + more - back, b'.longest);
    }
  }

  lemma {:induction false} BeatenMore(s: Space, q: Query, m: int, longest: nat, longest': nat)
    requires QueryOk(s, q) && Beaten(s, q, m, longest) && longest <= longest'
    ensures Beaten(s, q, m, longest')
  {
    hide Wide;
  }

  // ---------------------------------------------------------------- candidates in the external dictionary

  /** A candidate in the dictionary; the match may go on at the start of the prefix. */
  method TryDict(s: Space, q: Query, b: Best, m: nat, ghost swap: bool) returns (b': Best, matchLength: nat)
    requires QueryOk(s, q) && BestOk(s, q, b) && Candidate(s, q, m, b.longest, swap) && m < s.dictLimit
    requires swap ==> s.Padded()
    ensures BestOk(s, q, b') && b.longest <= b'.longest
    ensures matchLength <= b'.longest && (matchLength == 0 || MINMATCH <= matchLength)
    ensures s.Chained(m) ==> Beaten(s, q, m, b'.longest)
    ensures (b', matchLength) == Measured(s, q, b, m)
  {
    hide BestOk, NoLonger, NoFurther, Beaten, Found, CommonLength, Agree, Repeats, EqualAt, ReadEqual, Onward, Backward,
        Passes, BytesBack;
    b', matchLength := b, 0;
    var p: nat, r: nat := s.base + q.ip, s.dictBase + m;
    ReadEqual4(s.mem, p, r, 0);
    PassesInDict(s, q, b.longest, m);
    if !ReadEqual(s.mem, r, p, 4) {
      if s.Chained(m) {
        DictShorterThan4(s, q, m);
        NoneWide(s, q, m, b.longest);
      }
      return;
    }
    var forward := DictForward(s, q, m);
    var back := 0;
    if q.ip > q.low {
      back := CountBack(s.mem, p, r, s.base + q.low, s.dictBase + s.lowLimit);
      DictBack(s, m, q.ip, back);
    } else if s.Chained(m) {
      NothingRepeats(s, m, q.ip);
    }
    BackwardIs(s, q, m, back);
    BackBeats(s, q, m, back, s.dictBase + s.lowLimit);
    matchLength := forward - back;
    if matchLength > b.longest {
      b' := Best(matchLength, m + back, q.ip + back);
    }
    DictOutcome(s, q, b, b', m, back, forward, swap);
  }

  lemma {:induction false} BackwardIs(s: Space, q: Query, m: nat, back: int)
    requires QueryOk(s, q) && s.lowLimit <= m < s.dictLimit
    requires if q.ip > q.low
             then -back == BytesBack(s.mem, s.base + q.ip, s.dictBase + m, s.base + q.low, s.dictBase + s.lowLimit)
             else back == 0
    ensures -back == Backward(s, q, m)
  {
  }

  /** How far a candidate in the dictionary goes forward; in its last three bytes no further than the four compared. */
  method DictForward(s: Space, q: Query, m: nat) returns (n: nat)
    requires QueryOk(s, q) && s.lowLimit <= m < s.dictLimit && (s.Chained(m) || s.Padded())
    requires var p, r := s.base + q.ip, s.dictBase + m;
             SameAt(s.mem, p, r, 0) && SameAt(s.mem, p, r, 1) && SameAt(s.mem, p, r, 2) && SameAt(s.mem, p, r, 3)
    ensures MINMATCH <= n && q.ip + n <= q.high
    ensures s.Chained(m) ==> Repeats(s, m, q.ip, n) && NoLonger(s, q, m, n)
    ensures !s.Chained(m) ==> n == MINMATCH
    ensures n == Onward(s, q, m)
  {
    hide Repeats, NoLonger, Beaten, CommonLength, Agree, SameAt, Common;
    var p: nat, r: nat := s.base + q.ip, s.dictBase + m;
    var vLimit := q.ip + (s.dictLimit - m);
    if vLimit > q.high {
      vLimit := q.high;
    }
    n := Count(s.mem, p + MINMATCH, r + MINMATCH, s.base + vLimit);
    CommonIs(s.mem, p + MINMATCH, r + MINMATCH, s.base + vLimit, n);
    DictCount(s, q, m, vLimit, n);
    n := n + MINMATCH;
    if q.ip + n == vLimit && vLimit < q.high {
      var more := Count(s.mem, p + n, s.base + s.dictLimit, s.base + q.high);
      CommonIs(s.mem, p + n, s.base + s.dictLimit, s.base + q.high, more);
      DictGoesOn(s, q, m, n, more);
      n := n + more;
    }
  }

  lemma {:induction false} DictCount(s: Space, q: Query, m: nat, vLimit: nat, n: nat)
    requires QueryOk(s, q) && s.lowLimit <= m < s.dictLimit
    requires vLimit == Min(q.ip + (s.dictLimit - m), q.high)
    requires var p, r := s.base + q.ip, s.dictBase + m;
             && SameAt(s.mem, p, r, 0) && SameAt(s.mem, p, r, 1) && SameAt(s.mem, p, r, 2) && SameAt(s.mem, p, r, 3)
             && CommonLength(s.mem, p + 4, r + 4, s.base + vLimit, n)
    ensures !s.Chained(m) ==> n == 0 && vLimit < q.ip + 4
    ensures s.Chained(m) ==> q.ip + 4 + n <= vLimit && Repeats(s, m, q.ip, 4 + n)
    ensures s.Chained(m) && !(q.ip + 4 + n == vLimit < q.high) ==> NoLonger(s, q, m, 4 + n)
  {
    hide SameAt, Repeats;
    var p: nat, r: nat := s.base + q.ip, s.dictBase + m;
    if s.Chained(m) {
      AgreeMore(s.mem, p, r, 4, n);
      AgreeRepeats(s, m, q.ip, 4 + n);
      forall n' | MINMATCH <= n' && q.ip + n' <= q.high && Repeats(s, m, q.ip, n')
        ensures n' <= 4 + n || q.ip + 4 + n == vLimit < q.high
      {
        if n' > 4 + n && q.ip + 4 + n < vLimit {
          RepeatsAgree(s, m, q.ip, n', 4 + n);
          SameLater(s.mem, p, r, n);
        }
      }
    }
  }

  lemma {:induction false} SameLater(mem: seq<byte>, p: nat, r: nat, n: nat)
    ensures SameAt(mem, p, r, 4 + n) <==> SameAt(mem, p + 4, r + 4, n)
  {
  }

  /** The dictionary ends, the prefix begins. */
  lemma {:induction false} DictGoesOn(s: Space, q: Query, m: nat, n: nat, more: nat)
    requires QueryOk(s, q) && s.lowLimit <= m < s.dictLimit && m + n == s.dictLimit && q.ip + n <= q.high && 4 <= n
    requires Repeats(s, m, q.ip, n)
    requires CommonLength(s.mem, s.base + q.ip + n, s.base + s.dictLimit, s.base + q.high, more)
    ensures q.ip + n + more <= q.high && Repeats(s, m, q.ip, n + more) && NoLonger(s, q, m, n + more)
  {
    hide Repeats, EqualAt, SameAt;
    AgreeRepeats(s, s.dictLimit, q.ip + n, more);
    RepeatsJoin(s, m, q.ip, n, more);
    forall n' | MINMATCH <= n' && q.ip + n' <= q.high && Repeats(s, m, q.ip, n')
      ensures n' <= n + more
    {
      if n' > n + more {
        RepeatsPart(s, m, q.ip, n', n);
        RepeatsAgree(s, s.dictLimit, q.ip + n, n' - n, more);
      }
    }
  }

  lemma {:induction false} DictBack(s: Space, m: nat, ip: nat, back: int)
    requires s.Valid() && s.lowLimit <= m + back && m < s.dictLimit <= ip + back && ip <= s.end && back <= 0
    requires Agree(s.mem, s.base + ip + back, s.dictBase + m + back, -back)
    ensures Repeats(s, m + back, ip + back, -back)
  {
    AgreeRepeats(s, m + back, ip + back, -back);
  }

  lemma {:induction false} DictShorterThan4(s: Space, q: Query, m: nat)
    requires QueryOk(s, q) && s.lowLimit <= m < s.dictLimit && s.Chained(m)
    requires var p, r := s.base + q.ip, s.dictBase + m;
             !(SameAt(s.mem, p, r, 0) && SameAt(s.mem, p, r, 1) && SameAt(s.mem, p, r, 2) && SameAt(s.mem, p, r, 3))
    ensures NoLonger(s, q, m, 0)
  {
    forall n
      ensures !(MINMATCH <= n && q.ip + n <= q.high && Repeats(s, m, q.ip, n))
    {
      if MINMATCH <= n && q.ip + n <= q.high && Repeats(s, m, q.ip, n) {
        RepeatsAgree(s, m, q.ip, n, 0);
        RepeatsAgree(s, m, q.ip, n, 1);
        RepeatsAgree(s, m, q.ip, n, 2);
        RepeatsAgree(s, m, q.ip, n, 3);
      }
    }
  }

  lemma {:induction false} DictOutcome(s: Space, q: Query, b: Best, b': Best, m: nat, back: int, forward: nat,
      swap: bool)
    requires QueryOk(s, q) && BestOk(s, q, b) && Candidate(s, q, m, b.longest, swap)
    requires MINMATCH <= forward && q.ip + forward <= q.high && back <= 0 && q.low <= q.ip + back
    requires if s.Chained(m) then Repeats(s, m, q.ip, forward) && NoLonger(s, q, m, forward)
             && NoFurther(s, q, m, -back) && Repeats(s, m + back, q.ip + back, -back)
             else forward == MINMATCH && back == 0
    requires b' == if forward - back > b.longest then Best(forward - back, m + back, q.ip + back) else b
    ensures BestOk(s, q, b') && b.longest <= b'.longest && forward - back <= b'.longest
    ensures s.Chained(m) ==> Beaten(s, q, m, b'.longest)
  {
    hide Repeats, EqualAt, NoLonger, NoFurther, Beaten;
    if s.Chained(m) {
      RepeatsJoin(s, m + back, q.ip + back, -back, forward);
      BetterIsFound(s, q, b, b', m, back, forward - MINMATCH);
    }
  }
}
