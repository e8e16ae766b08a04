/**
  The loop of LZ4HC_InsertAndGetWiderMatch: which candidates are tried, in which order, and how runs of one byte are
  skipped.
*/
module Lz4HcSearch {
  import opened Lz4Defs
  import opened Lz4Count
  import opened Lz4FastTable
  import opened Lz4HcChain
  import opened Lz4HcPattern
  import opened Lz4HcMatch

  // ---------------------------------------------------------------- which index comes next

  /** The next index is out of reach or may be tried. */
  predicate Reachable(s: Space, q: Query, m: int, longest: nat, swap: bool)
    requires s.lowLimit <= q.ip
  {
    0 <= m < q.ip && (LowestMatchIndex(s, q.ip) <= m ==> Candidate(s, q, m, longest, swap))
  }

  lemma {:induction false} ReachableLonger(s: Space, q: Query, m: int, longest: nat, longest': nat, swap: bool)
    requires s.lowLimit <= q.ip && Reachable(s, q, m, longest, swap) && longest <= longest'
    ensures Reachable(s, q, m, longest', swap)
  {
  }

  /** Following a link from a chained index. */
  lemma {:induction false} FollowLink(s: Space, q: Query, c: seq<nat>, m: nat, longest: nat)
    requires QueryOk(s, q) && Links(s, c, q.ip) && s.Chained(m) && LowestMatchIndex(s, q.ip) <= m < q.ip
    ensures var d := c[m % MAXD]; 1 <= d <= DISTANCE_MAX && Reachable(s, q, m - d, longest, false)
    ensures NoneBetween(s, m - c[m % MAXD], m, s.HashAt(m))
    ensures m - c[m % MAXD] >= LowestMatchIndex(s, q.ip) ==> s.HashAt(m - c[m % MAXD]) == s.HashAt(m)
  {
    assert LinkOk(s, m, c[m % MAXD]);
  }

  /** LZ4HC_protectDictEnd, with its unsigned subtraction. */
  predicate ProtectDictEnd(dictLimit: nat, matchIndex: nat)
  {
    (dictLimit - 1 - matchIndex) % TWO32 >= 3
  }

  lemma {:induction false} ProtectedIsChained(s: Space, m: nat)
    requires s.Valid() && s.lowLimit <= m < s.end
    ensures ProtectDictEnd(s.dictLimit, m) <==> s.Chained(m)
  {
  }

  // ---------------------------------------------------------------- runs of one byte

  ghost predicate IsByte(s: Space, k: int, v: byte)
    requires s.Valid()
  {
    s.lowLimit <= k < s.end && s.At(k) == v
  }

  /** The `n` bytes at index `i` are all `v`. */
  ghost predicate Run(s: Space, i: int, n: nat, v: byte)
    requires s.Valid()
  {
    forall k :: i <= k < i + n ==> IsByte(s, k, v)
  }

  lemma {:induction false} RunJoin(s: Space, i: int, n: nat, m: nat, v: byte)
    requires s.Valid() && Run(s, i, n, v) && Run(s, i + n, m, v)
    ensures Run(s, i, n + m, v)
  {
  }

  /** Two runs of the same byte repeat each other. */
  lemma {:induction false} RunsRepeat(s: Space, ref: int, n: nat, i: int, m: nat, v: byte)
    requires s.Valid() && s.lowLimit <= ref < i && i + Min(n, m) <= s.end && Run(s, ref, n, v) && Run(s, i, m, v)
    ensures Repeats(s, ref, i, Min(n, m))
  {
    forall k | 0 <= k < Min(n, m)
      ensures EqualAt(s, ref, i, k)
    {
      assert IsByte(s, ref + k, v) && IsByte(s, i + k, v);
    }
  }

  /** Bytes counted in memory, inside one segment. */
  lemma {:induction false} CountedRun(s: Space, i: nat, p: nat, limit: int, pattern: Word, n: nat)
    requires s.Valid() && Uniform(pattern) && s.lowLimit <= i && i + n <= s.end && (n > 0 ==> p == s.Addr(i))
    requires i < s.dictLimit ==> i + n <= s.dictLimit
    requires PatternLength(s.mem, p, limit, pattern, n)
    ensures Run(s, i, n, pattern[0])
  {
    forall k | i <= k < i + n
      ensures IsByte(s, k, pattern[0])
    {
      assert PatternAt(s.mem, p, pattern, k - i);
    }
  }

  lemma {:induction false} CountedBackRun(s: Space, i: nat, p: nat, low: nat, pattern: Word, n: nat)
    requires s.Valid() && Uniform(pattern) && s.lowLimit + n <= i <= s.end
    requires n == 0 || if i - n < s.dictLimit then i <= s.dictLimit && p == s.dictBase + i else p == s.base + i
    requires BackLength(s.mem, p, low, pattern, n)
    ensures Run(s, i - n, n, pattern[0])
  {
    forall k | i - n <= k < i
      ensures IsByte(s, k, pattern[0])
    {
      assert PatternBefore(s.mem, p, pattern, i - 1 - k);
    }
  }

  lemma {:induction false} WordRun(s: Space, i: nat, pattern: Word)
    requires s.Valid() && Uniform(pattern) && s.Chained(i) && i + 4 <= s.end
    requires 0 <= s.Addr(i) && s.Addr(i) + 4 <= |s.mem| && s.mem[s.Addr(i)..s.Addr(i) + 4] == pattern
    ensures Run(s, i, 4, pattern[0])
  {
    var w := s.mem[s.Addr(i)..s.Addr(i) + 4];
    forall k | i <= k < i + 4
      ensures IsByte(s, k, pattern[0])
    {
      assert w[k - i] == s.mem[s.Addr(i) + (k - i)];
    }
  }

  /** The length of the run of a pattern at `i`, its first four bytes known; in the dictionary it may go on beyond. */
  function RunLength(s: Space, q: Query, i: nat, pattern: Word): (n: nat)
    requires QueryOk(s, q) && s.lowLimit <= i
  {
    if i < s.dictLimit then
      var n := 4 + PatternRun(s.mem, s.dictBase + i + 4, s.dictBase + s.dictLimit, pattern, 0);
      if i + n == s.dictLimit
      then n + PatternRun(s.mem, s.base + s.dictLimit, s.base + q.high, RotatePattern(n, pattern), 0) else n
    else 4 + PatternRun(s.mem, s.base + i + 4, s.base + q.high, pattern, 0)
  }

  /** How far it reaches back before `i`. */
  function RunBefore(s: Space, i: nat, pattern: Word): (n: nat)
    requires s.Valid() && s.lowLimit <= i
    ensures s.lowLimit + n <= i
  {
    if i < s.dictLimit then PatternBack(s.mem, s.dictBase + i, s.dictBase + s.lowLimit, pattern, 0)
    else
      var n := PatternBack(s.mem, s.base + i, s.base + s.dictLimit, pattern, 0);
      if i - n == s.dictLimit && s.lowLimit < s.dictLimit
      then n + PatternBack(s.mem, s.dictBase + s.dictLimit, s.dictBase + s.lowLimit,
                           RotatePattern(-(n as int), pattern), 0)
      else n
  }

  /** Both, not further back than matches may refer to. */
  function RunAround(s: Space, q: Query, i: nat, pattern: Word): (r: (nat, nat))
    requires QueryOk(s, q) && LowestMatchIndex(s, q.ip) <= i
    ensures LowestMatchIndex(s, q.ip) + r.1 <= i
  {
    (RunLength(s, q, i, pattern), i - Max(i - RunBefore(s, i, pattern), LowestMatchIndex(s, q.ip)))
  }

  /** The run of the pattern at `i` in the prefix, known to start with the pattern. */
  method PrefixRun(s: Space, q: Query, i: nat, pattern: Word) returns (n: nat)
    requires QueryOk(s, q) && s.dictLimit <= i && i + 4 <= q.high && Uniform(pattern) && Run(s, i, 4, pattern[0])
    ensures 4 <= n && i + n <= q.high && Run(s, i, n, pattern[0]) && n == RunLength(s, q, i, pattern)
  {
    hide Run, PatternRun;
    n := CountPattern(s.mem, s.base + i + 4, s.base + q.high, pattern);
    CountedRun(s, i + 4, s.base + i + 4, s.base + q.high, pattern, n);
    RunJoin(s, i, 4, n, pattern[0]);
    n := n + 4;
  }

  /** The same in the dictionary; the run may go on in the prefix. */
  method DictRun(s: Space, q: Query, i: nat, pattern: Word) returns (n: nat)
    requires QueryOk(s, q) && s.lowLimit <= i && i + 4 <= s.dictLimit && Uniform(pattern) && Run(s, i, 4, pattern[0])
    ensures 4 <= n && i + n <= q.high && Run(s, i, n, pattern[0]) && n == RunLength(s, q, i, pattern)
  {
    hide Run, PatternRun, RunLength;
    var p: nat, limit := s.dictBase + i, s.dictBase + s.dictLimit;
    n := CountPattern(s.mem, p + 4, limit, pattern);
    CountedRun(s, i + 4, p + 4, limit, pattern, n);
    RunJoin(s, i, 4, n, pattern[0]);
    n := n + 4;
    ghost var inside := n;
    if p + n == limit {
      var rotated := RotatePattern(n, pattern);
      RotationOfByte(n, pattern);
      var more := CountPattern(s.mem, s.base + s.dictLimit, s.base + q.high, rotated);
      CountedRun(s, s.dictLimit, s.base + s.dictLimit, s.base + q.high, pattern, more);
      RunJoin(s, i, n, more, pattern[0]);
      n := n + more;
    }
    DictRunIs(s, q, i, pattern, inside, n);
  }

  lemma {:induction false} DictRunIs(s: Space, q: Query, i: nat, pattern: Word, inside: nat, n: nat)
    requires QueryOk(s, q) && s.lowLimit <= i < s.dictLimit
    requires inside == 4 + PatternRun(s.mem, s.dictBase + i + 4, s.dictBase + s.dictLimit, pattern, 0)
    requires n == inside + (if i + inside != s.dictLimit then 0
                            else PatternRun(s.mem, s.base + s.dictLimit, s.base + q.high,
                                            RotatePattern(inside, pattern), 0))
    ensures n == RunLength(s, q, i, pattern)
  {
  }

  /** How far the run reaches back before `i`, into the dictionary if it covers all of the prefix before. */
  method BackRun(s: Space, i: nat, pattern: Word) returns (n: nat)
    requires s.Valid() && s.lowLimit <= i < s.end && Uniform(pattern)
    ensures s.lowLimit + n <= i && Run(s, i - n, n, pattern[0]) && n == RunBefore(s, i, pattern)
  {
    hide Run, PatternBefore, PatternBack, RunBefore;
    if i < s.dictLimit {
      n := ReverseCountPattern(s.mem, s.dictBase + i, s.dictBase + s.lowLimit, pattern);
      CountedBackRun(s, i, s.dictBase + i, s.dictBase + s.lowLimit, pattern, n);
      RunBeforeIs(s, i, pattern, n, n);
    } else {
      n := ReverseCountPattern(s.mem, s.base + i, s.base + s.dictLimit, pattern);
      CountedBackRun(s, i, s.base + i, s.base + s.dictLimit, pattern, n);
      ghost var inside := n;
      if i - n == s.dictLimit && s.lowLimit < s.dictLimit {
        var rotated := RotatePattern(-(n as int), pattern);
        RotationOfByte(-(n as int), pattern);
        var more := ReverseCountPattern(s.mem, s.dictBase + s.dictLimit, s.dictBase + s.lowLimit, rotated);
        CountedBackRun(s, s.dictLimit, s.dictBase + s.dictLimit, s.dictBase + s.lowLimit, pattern, more);
        RunJoin(s, i - n - more, more, n, pattern[0]);
        n := n + more;
      }
      RunBeforeIs(s, i, pattern, inside, n);
    }
  }

  lemma {:induction false} RunBeforeIs(s: Space, i: nat, pattern: Word, inside: nat, n: nat)
    requires s.Valid() && s.lowLimit <= i
    requires if i < s.dictLimit then inside == PatternBack(s.mem, s.dictBase + i, s.dictBase + s.lowLimit, pattern, 0)
             else inside == PatternBack(s.mem, s.base + i, s.base + s.dictLimit, pattern, 0)
    requires n == inside + (if i < s.dictLimit || i - inside != s.dictLimit || s.lowLimit == s.dictLimit then 0
                            else PatternBack(s.mem, s.dictBase + s.dictLimit, s.dictBase + s.lowLimit,
                                             RotatePattern(-(inside as int), pattern), 0))
    ensures n == RunBefore(s, i, pattern)
  {
  }

  // ---------------------------------------------------------------- pattern analysis

  datatype Repeat = Untested | NotRepetitive | Confirmed

  /** What testing the searched position for a pattern has shown. */
  ghost predicate RepeatOk(s: Space, q: Query, rep: Repeat, srcLen: nat, pattern: Word)
    requires QueryOk(s, q)
  {
    rep.Confirmed? ==> Uniform(pattern) && 4 <= srcLen && q.ip + srcLen <= q.high && Run(s, q.ip, srcLen, pattern[0])
  }

  function Tested(s: Space, q: Query, rep: Repeat, srcLen: nat, pattern: Word): (Repeat, nat)
    requires QueryOk(s, q)
  {
    if rep != Untested then (rep, srcLen)
    else if Repetitive(pattern) then (Confirmed, RunLength(s, q, q.ip, pattern))
    else (NotRepetitive, srcLen)
  }

  /** The first time a distance of one is met, the searched position is tested for a pattern. */
  method TestRepeat(s: Space, q: Query, rep: Repeat, srcLen: nat, pattern: Word) returns (rep': Repeat, srcLen': nat)
    requires QueryOk(s, q) && RepeatOk(s, q, rep, srcLen, pattern) && pattern == s.mem[s.base + q.ip..s.base + q.ip + 4]
    ensures RepeatOk(s, q, rep', srcLen', pattern) && (rep', srcLen') == Tested(s, q, rep, srcLen, pattern)
  {
    hide RunLength, Run;
    rep', srcLen' := rep, srcLen;
    if rep == Untested {
      if Repetitive(pattern) {
        RepetitiveIsUniform(pattern);
        rep' := Confirmed;
        WordRun(s, q.ip, pattern);
        srcLen' := PrefixRun(s, q, q.ip, pattern);
      } else {
        rep' := NotRepetitive;
      }
    }
  }

  /** A run of `n` bytes at `m`: the best match then, the next index, and whether the walk ends. */
  function Took(c: seq<nat>, q: Query, b: Best, m: nat, n: nat, srcLen: nat): (Best, nat, bool)
    requires |c| == MAXD
  {
    var maxML := Min(n, srcLen);
    if b.longest < maxML && q.ip - m > DISTANCE_MAX then (b, m, true)
    else
      var b' := if b.longest < maxML then Best(maxML, m, q.ip) else b;
      if c[m % MAXD] > m then (b', m, true) else (b', m - c[m % MAXD], false)
  }

  /** The same for the run around a candidate. */
  function Jumped(s: Space, c: seq<nat>, q: Query, b: Best, candidate: nat, pattern: Word, srcLen: nat)
      : (Best, nat, bool)
    requires QueryOk(s, q) && |c| == MAXD && LowestMatchIndex(s, q.ip) <= candidate
  {
    var (forward, back) := RunAround(s, q, candidate, pattern);
    if back + forward >= srcLen && forward <= srcLen then
      var m := Max(0, candidate + forward - srcLen);
      (b, if ProtectDictEnd(s.dictLimit, m) then m else s.dictLimit, false)
    else if !ProtectDictEnd(s.dictLimit, candidate - back) then (b, s.dictLimit, false)
    else if q.low != q.ip then (b, candidate - back, false)
    else Took(c, q, b, candidate - back, back + forward, srcLen)
  }

  /**
    Inside a longer run of the same byte the best index is computed, not searched for. The length reported here
    is the only one that no comparison of bytes has confirmed.
  */
  method PatternJump(s: Space, t: ChainTables, q: Query, b: Best, candidate: nat, pattern: Word, srcLen: nat)
      returns (b': Best, m: nat, stop: bool)
    requires QueryOk(s, q) && BestOk(s, q, b) && t.Exact(s) && t.nextToUpdate == q.ip
    requires RepeatOk(s, q, Confirmed, srcLen, pattern)
    requires LowestMatchIndex(s, q.ip) <= candidate && candidate + 1 < q.ip && s.Chained(candidate)
    requires Run(s, candidate, 4, pattern[0])
    ensures BestOk(s, q, b') && b.longest <= b'.longest
    ensures !stop ==> Reachable(s, q, m, b'.longest, false)
    ensures (b', m, stop) == Jumped(s, t.chainTable[..], q, b, candidate, pattern, srcLen)
  {
    hide Run, BestOk, Links, Heads, RunAround, Took;
    b', stop := b, false;
    var forward, back := MeasureRun(s, q, candidate, pattern);
    if back + forward >= srcLen && forward <= srcLen {
      m := candidate + forward - srcLen;
      ProtectedIsChained(s, m);
      if !ProtectDictEnd(s.dictLimit, m) {
        m := s.dictLimit;
      }
    } else {
      m := candidate - back;
      ProtectedIsChained(s, m);
      if !ProtectDictEnd(s.dictLimit, m) {
        m := s.dictLimit;
      } else if q.low == q.ip {
        b', m, stop := TakeRun(s, t, q, b, m, back + forward, pattern, srcLen);
      }
    }
  }

  /** The run around a candidate, not further back than matches may refer to. */
  method MeasureRun(s: Space, q: Query, candidate: nat, pattern: Word) returns (forward: nat, back: nat)
    requires QueryOk(s, q) && Uniform(pattern)
    requires LowestMatchIndex(s, q.ip) <= candidate && candidate + 1 < q.ip && s.Chained(candidate)
    requires Run(s, candidate, 4, pattern[0])
    ensures 4 <= forward && candidate + forward <= q.high && LowestMatchIndex(s, q.ip) + back <= candidate
    ensures Run(s, candidate - back, back + forward, pattern[0])
    ensures (forward, back) == RunAround(s, q, candidate, pattern)
  {
    hide Run, RunLength, RunBefore;
    if candidate < s.dictLimit {
      forward := DictRun(s, q, candidate, pattern);
    } else {
      forward := PrefixRun(s, q, candidate, pattern);
    }
    back := BackRun(s, candidate, pattern);
    ghost var whole := back;
    back := candidate - Max(candidate - back, LowestMatchIndex(s, q.ip));
    RunPart(s, candidate - whole, whole, candidate - back, pattern[0]);
    RunJoin(s, candidate - back, back, forward, pattern[0]);
  }

  /** A run of `n` bytes starts at `m0`: its match is taken, and the search goes on before it. */
  method TakeRun(s: Space, t: ChainTables, q: Query, b: Best, m0: nat, n: nat, pattern: Word, srcLen: nat)
      returns (b': Best, m: nat, stop: bool)
    requires QueryOk(s, q) && BestOk(s, q, b) && t.Exact(s) && t.nextToUpdate == q.ip && q.low == q.ip
    requires RepeatOk(s, q, Confirmed, srcLen, pattern)
    requires LowestMatchIndex(s, q.ip) <= m0 < q.ip && s.Chained(m0) && 4 <= n && Run(s, m0, n, pattern[0])
    ensures BestOk(s, q, b') && b.longest <= b'.longest
    ensures !stop ==> Reachable(s, q, m, b'.longest, false)
    ensures (b', m, stop) == Took(t.chainTable[..], q, b, m0, n, srcLen)
  {
    hide Run, BestOk, Links, Heads;
    b', m, stop := b, m0, false;
    var maxML := Min(n, srcLen);
    if b.longest < maxML {
      if q.ip - m > DISTANCE_MAX {
        stop := true;
        return;
      }
      b' := Best(maxML, m, q.ip);
    }
    PatternFound(s, q, b, b', m, n, srcLen, pattern[0]);
    FollowLink(s, q, t.chainTable[..], m, b'.longest);
    var d := t.chainTable[m % MAXD];
    if d > m {
      stop := true;
      return;
    }
    m := m - d;
  }

  lemma {:induction false} RunPart(s: Space, i: int, n: nat, i': int, v: byte)
    requires s.Valid() && Run(s, i, n, v) && i <= i' <= i + n
    ensures Run(s, i', i + n - i', v)
  {
  }

  lemma {:induction false} PatternFound(s: Space, q: Query, b: Best, b': Best, m: nat, n: nat, srcLen: nat, v: byte)
    requires QueryOk(s, q) && BestOk(s, q, b) && q.low == q.ip && LowestMatchIndex(s, q.ip) <= m < q.ip
    requires Run(s, m, n, v) && Run(s, q.ip, srcLen, v) && 4 <= n && 4 <= srcLen && q.ip + srcLen <= q.high
    requires b' == if b.longest < Min(n, srcLen) then Best(Min(n, srcLen), m, q.ip) else b
    ensures BestOk(s, q, b') && b.longest <= b'.longest
  {
    hide Run;
    RunsRepeat(s, m, n, q.ip, srcLen, v);
  }

  // ---------------------------------------------------------------- chain swapping

  /** Which position of a match is chosen: sampled at growing steps, the first with the largest distance so far. */
  function SwapFrom(c: seq<nat>, m: nat, end: int, pos: nat, accel: nat, distance: nat, chainPos: nat): (nat, nat)
    requires |c| == MAXD && 16 <= accel
    decreases end - pos
  {
    if pos >= end then (distance, chainPos)
    else if c[(m + pos) % MAXD] > distance then SwapFrom(c, m, end, pos + accel / 16, 16, c[(m + pos) % MAXD], pos)
    else SwapFrom(c, m, end, pos + accel / 16, accel + 1, distance, chainPos)
  }

  /** After a match of `longest` bytes: the position in it whose next candidate is farthest away, and how far. */
  method SwapChain(t: ChainTables, m: nat, longest: nat, chainPos: nat) returns (distance: nat, chainPos': nat)
    requires t.chainTable.Length == MAXD && MINMATCH <= longest
    ensures 1 <= distance && (distance == 1 ==> chainPos' == chainPos) && t.chainTable[m % MAXD] <= distance
    ensures distance > 1 ==> chainPos' + MINMATCH <= longest && distance == t.chainTable[(m + chainPos') % MAXD]
    ensures (distance, chainPos') == SwapFrom(t.chainTable[..], m, longest - MINMATCH + 1, 0, 16, 1, chainPos)
  {
    distance, chainPos' := 1, chainPos;
    var end := longest - MINMATCH + 1;
    var step, accel, pos := 1, 16, 0;
    while pos < end
      invariant 1 <= step && 16 <= accel && 0 <= pos
      invariant 1 <= distance && (distance == 1 ==> chainPos' == chainPos)
                && (pos > 0 ==> t.chainTable[m % MAXD] <= distance)
      invariant distance > 1 ==> chainPos' + MINMATCH <= longest && distance == t.chainTable[(m + chainPos') % MAXD]
      invariant SwapFrom(t.chainTable[..], m, end, pos, accel, distance, chainPos')
             == SwapFrom(t.chainTable[..], m, end, 0, 16, 1, chainPos)
      decreases end - pos
    {
      var candidateDist := t.chainTable[(m + pos) % MAXD];
      step := accel / 16;
      accel := accel + 1;
      if candidateDist > distance {
        distance, chainPos', accel := candidateDist, pos, 16;
      }
      pos := pos + step;
    }
  }

  // ---------------------------------------------------------------- the walk

  /** Where the walk stands: the index to try next, and what chain swapping and pattern analysis remember. */
  datatype Walk = Walk(m: nat, chainPos: nat, rep: Repeat, srcLen: nat, stop: bool)

  ghost predicate WalkOk(s: Space, q: Query, w: Walk, longest: nat, pattern: Word, swap: bool)
    requires QueryOk(s, q)
  {
    && RepeatOk(s, q, w.rep, w.srcLen, pattern)
    && (!w.stop ==> Reachable(s, q, w.m, longest, swap))
    && (w.chainPos > 0 ==> swap && MINMATCH <= longest && q.low == q.ip)
  }

  /** The best match after a candidate, and the length measured; one that is too near for fast decoding is left out. */
  function Tried(s: Space, q: Query, b: Best, m: nat, favorDecSpeed: bool): (Best, nat)
    requires QueryOk(s, q) && s.lowLimit <= m
  {
    if favorDecSpeed && q.ip - m < 8 then (b, 0) else Measured(s, q, b, m)
  }

  /** The index behind a candidate, unless chain swapping has something better. */
  function Onwards(s: Space, c: seq<nat>, q: Query, b: Best, w: Walk, pattern: Word, patternAnalysis: bool)
      : (Best, Walk)
    requires QueryOk(s, q) && |c| == MAXD && LowestMatchIndex(s, q.ip) <= w.m
  {
    if !(patternAnalysis && c[w.m % MAXD] == 1 && w.chainPos == 0) then (b, Followed(c, w))
    else
      var (rep, srcLen) := Tested(s, q, w.rep, w.srcLen, pattern);
      var w' := w.(rep := rep, srcLen := srcLen);
      if StartsRun(s, q, rep, w.m - 1, pattern) then
        var (b', m, stop) := Jumped(s, c, q, b, w.m - 1, pattern, srcLen);
        (b', w'.(m := m, stop := stop))
      else (b, Followed(c, w'))
  }

  function Followed(c: seq<nat>, w: Walk): Walk
    requires |c| == MAXD
  {
    w.(m := Max(0, w.m - c[(w.m + w.chainPos) % MAXD]))
  }

  /** The index before a candidate is in a run of the pattern that may be jumped over. */
  predicate StartsRun(s: Space, q: Query, rep: Repeat, candidate: int, pattern: Word)
    requires QueryOk(s, q)
  {
    && rep == Confirmed && LowestMatchIndex(s, q.ip) <= candidate && ProtectDictEnd(s.dictLimit, candidate)
    && 0 <= s.Addr(candidate) && s.Addr(candidate) + 4 <= |s.mem|
    && s.mem[s.Addr(candidate)..s.Addr(candidate) + 4] == pattern
  }

  /** From a tried candidate to the next. */
  function Stepped(s: Space, c: seq<nat>, q: Query, b: Best, w: Walk, matchLength: nat, pattern: Word,
                   patternAnalysis: bool, chainSwap: bool): (Best, Walk)
    requires QueryOk(s, q) && |c| == MAXD && LowestMatchIndex(s, q.ip) <= w.m
  {
    if chainSwap && matchLength == b.longest && w.m + b.longest <= q.ip then
      var (distance, chainPos) := SwapFrom(c, w.m, b.longest - MINMATCH + 1, 0, 16, 1, w.chainPos);
      var w' := w.(chainPos := chainPos);
      if distance > w.m then (b, w'.(stop := true))
      else if distance > 1 then (b, w'.(m := w.m - distance))
      else Onwards(s, c, q, b, w', pattern, patternAnalysis)
    else Onwards(s, c, q, b, w, pattern, patternAnalysis)
  }

  /** How to search: how many candidates at most, and with which shortcuts. */
  datatype Effort = Effort(attempts: nat, patternAnalysis: bool, chainSwap: bool, favorDecSpeed: bool)

  /** The walk, as a function. */
  function WalkFrom(s: Space, c: seq<nat>, q: Query, b: Best, w: Walk, pattern: Word, e: Effort): Best
    requires QueryOk(s, q) && |c| == MAXD
    decreases e.attempts
  {
    if w.stop || w.m < LowestMatchIndex(s, q.ip) || e.attempts == 0 then b
    else
      var (b1, matchLength) := Tried(s, q, b, w.m, e.favorDecSpeed);
      var (b2, w2) := Stepped(s, c, q, b1, w, matchLength, pattern, e.patternAnalysis, e.chainSwap);
      WalkFrom(s, c, q, b2, w2, pattern, e.(attempts := e.attempts - 1))
  }

  /** What a search finds. */
  function Searched(s: Space, t: Tables, q: Query, e: Effort): Best
    requires QueryOk(s, q) && t.Sized()
  {
    var t' := Inserted(s, t, q.ip);
    var pattern: Word := s.mem[s.base + q.ip..s.base + q.ip + 4];
    WalkFrom(s, t'.c, q, Best(q.minLen, 0, q.ip), Walk(t'.h[s.HashAt(q.ip)], 0, Untested, 0, false), pattern, e)
  }

  /** A candidate is measured, unless it is too near for fast decoding. */
  method Try(s: Space, q: Query, b: Best, m: nat, favorDecSpeed: bool, ghost swap: bool)
      returns (b': Best, matchLength: nat)
    requires QueryOk(s, q) && BestOk(s, q, b) && Candidate(s, q, m, b.longest, swap) && (swap ==> s.Padded())
    ensures BestOk(s, q, b') && b.longest <= b'.longest
    ensures matchLength <= b'.longest && (matchLength == 0 || MINMATCH <= matchLength)
    ensures !favorDecSpeed && s.Chained(m) ==> Beaten(s, q, m, b'.longest)
    ensures (b', matchLength) == Tried(s, q, b, m, favorDecSpeed)
  {
    hide BestOk, Beaten, Measured;
    if favorDecSpeed && q.ip - m < 8 {
      b', matchLength := b, 0;
    } else if m >= s.dictLimit {
      b', matchLength := TryPrefix(s, q, b, m);
    } else {
      b', matchLength := TryDict(s, q, b, m, swap);
    }
  }

  /** The step from a tried candidate to the next. */
  method Next(s: Space, t: ChainTables, q: Query, b: Best, w: Walk, matchLength: nat, pattern: Word,
              patternAnalysis: bool, chainSwap: bool) returns (b': Best, w': Walk)
    requires QueryOk(s, q) && BestOk(s, q, b) && t.Exact(s) && t.nextToUpdate == q.ip
    requires WalkOk(s, q, w, b.longest, pattern, chainSwap) && Candidate(s, q, w.m, b.longest, chainSwap) && !w.stop
    requires pattern == s.mem[s.base + q.ip..s.base + q.ip + 4]
    requires matchLength <= b.longest && (matchLength == 0 || MINMATCH <= matchLength)
    requires chainSwap ==> q.low == q.ip
    ensures BestOk(s, q, b') && b.longest <= b'.longest && WalkOk(s, q, w', b'.longest, pattern, chainSwap)
    ensures !patternAnalysis && !chainSwap && w.chainPos == 0 ==>
              b' == b && w' == w.(m := w'.m) && w'.m == w.m - t.chainTable[w.m % MAXD]
    ensures (b', w') == Stepped(s, t.chainTable[..], q, b, w, matchLength, pattern, patternAnalysis, chainSwap)
  {
    hide BestOk, Links, Heads, RepeatOk, SwapFrom, Onwards;
    LinksBounded(s, t, q);
    LongestPositive(s, q, b);
    b', w' := b, w;
    if chainSwap && matchLength == b.longest && w.m + b.longest <= q.ip {
      var distance, chainPos := SwapChain(t, w.m, b.longest, w.chainPos);
      w' := w'.(chainPos := chainPos);
      if distance > 1 {
        if distance > w.m {
          w' := w'.(stop := true);
          return;
        }
        w' := w'.(m := w.m - distance);
        return;
      }
    }
    b', w' := GoOn(s, t, q, b, w', pattern, patternAnalysis, chainSwap);
  }

  /** Its second half: pattern analysis, or the current chain. */
  method GoOn(s: Space, t: ChainTables, q: Query, b: Best, w: Walk, pattern: Word, patternAnalysis: bool,
              ghost swap: bool) returns (b': Best, w': Walk)
    requires QueryOk(s, q) && BestOk(s, q, b) && t.Exact(s) && t.nextToUpdate == q.ip
    requires WalkOk(s, q, w, b.longest, pattern, swap) && Candidate(s, q, w.m, b.longest, swap) && !w.stop
    requires pattern == s.mem[s.base + q.ip..s.base + q.ip + 4]
    ensures BestOk(s, q, b') && b.longest <= b'.longest && WalkOk(s, q, w', b'.longest, pattern, swap)
    ensures !patternAnalysis ==>
              b' == b && w' == w.(m := w'.m) && w'.m == w.m - t.chainTable[(w.m + w.chainPos) % MAXD]
    ensures (b', w') == Onwards(s, t.chainTable[..], q, b, w, pattern, patternAnalysis)
  {
    hide BestOk, Links, Heads, RepeatOk, Jumped, Tested, StartsRun, WalkOk, Candidate;
    LinksBounded(s, t, q);
    InReach(s, q, b, w.m, swap);
    b', w' := b, w;
    if patternAnalysis && t.chainTable[w.m % MAXD] == 1 && w'.chainPos == 0 {
      var jumped;
      b', w', jumped := TryPattern(s, t, q, b, w', pattern, swap);
      if jumped {
        return;
      }
    }
    w' := FollowChain(s, t, q, b.longest, w', pattern, swap);
  }

  lemma {:induction false} InReach(s: Space, q: Query, b: Best, m: nat, swap: bool)
    requires QueryOk(s, q) && Candidate(s, q, m, b.longest, swap)
    ensures LowestMatchIndex(s, q.ip) <= m < q.ip
  {
  }

  /** The last statement of the loop: on to the next index of the current chain. */
  method FollowChain(s: Space, t: ChainTables, q: Query, longest: nat, w: Walk, pattern: Word, ghost swap: bool)
      returns (w': Walk)
    requires QueryOk(s, q) && t.Exact(s) && t.nextToUpdate == q.ip
    requires WalkOk(s, q, w, longest, pattern, swap) && Candidate(s, q, w.m, longest, swap) && !w.stop
    ensures WalkOk(s, q, w', longest, pattern, swap)
    ensures w' == w.(m := w'.m) && w'.m == w.m - t.chainTable[(w.m + w.chainPos) % MAXD]
  {
    hide Links, Heads, RepeatOk;
    LinksBounded(s, t, q);
    if s.Chained(w.m) {
      FollowLink(s, q, t.chainTable[..], w.m, longest);
    }
    w' := w.(m := w.m - t.chainTable[(w.m + w.chainPos) % MAXD]);
  }

  lemma {:induction false} LongestPositive(s: Space, q: Query, b: Best)
    requires QueryOk(s, q) && BestOk(s, q, b)
    ensures 1 <= b.longest
  {
  }

  /** Pattern analysis, once the index directly before is next in the chain. */
  method TryPattern(s: Space, t: ChainTables, q: Query, b: Best, w: Walk, pattern: Word, ghost swap: bool)
      returns (b': Best, w': Walk, jumped: bool)
    requires QueryOk(s, q) && BestOk(s, q, b) && t.Exact(s) && t.nextToUpdate == q.ip
    requires WalkOk(s, q, w, b.longest, pattern, swap) && Candidate(s, q, w.m, b.longest, swap) && !w.stop
    requires pattern == s.mem[s.base + q.ip..s.base + q.ip + 4]
    ensures BestOk(s, q, b') && b.longest <= b'.longest && WalkOk(s, q, w', b'.longest, pattern, swap)
    ensures !jumped ==> b' == b && w' == w.(rep := w'.rep, srcLen := w'.srcLen)
    ensures var (rep, srcLen) := Tested(s, q, w.rep, w.srcLen, pattern);
            && jumped == StartsRun(s, q, rep, w.m - 1, pattern) && w'.rep == rep && w'.srcLen == srcLen
            && (jumped ==>
                  && (b', w'.m, w'.stop) == Jumped(s, t.chainTable[..], q, b, w.m - 1, pattern, srcLen)
                  && w'.chainPos == w.chainPos)
  {
    hide BestOk, RepeatOk, Run, Jumped, Tested, StartsRun, Links, Heads, ProtectDictEnd;
    b', jumped := b, false;
    var rep, srcLen := TestRepeat(s, q, w.rep, w.srcLen, pattern);
    w' := w.(rep := rep, srcLen := srcLen);
    var candidate := w.m - 1;
    if rep == Confirmed && candidate >= LowestMatchIndex(s, q.ip) && ProtectDictEnd(s.dictLimit, candidate) {
      CandidateReads(s, q, candidate);
      if s.mem[s.Addr(candidate)..s.Addr(candidate) + 4] == pattern {
        CandidateRun(s, q, candidate, srcLen, pattern);
        var m, stop;
        b', m, stop := PatternJump(s, t, q, b, candidate, pattern, srcLen);
        w' := w'.(m := m, stop := stop);
        jumped := true;
      }
    }
    StartsRunIs(s, q, rep, candidate, pattern, jumped);
  }

  lemma {:induction false} CandidateReads(s: Space, q: Query, candidate: nat)
    requires QueryOk(s, q) && LowestMatchIndex(s, q.ip) <= candidate < q.ip && ProtectDictEnd(s.dictLimit, candidate)
    ensures s.Chained(candidate) && 0 <= s.Addr(candidate) && s.Addr(candidate) + 4 <= |s.mem|
  {
    ProtectedIsChained(s, candidate);
    ChainedReadsInside(s, candidate);
  }

  lemma {:induction false} StartsRunIs(s: Space, q: Query, rep: Repeat, candidate: int, pattern: Word, jumped: bool)
    requires QueryOk(s, q)
    requires jumped <==>
             && rep == Confirmed && candidate >= LowestMatchIndex(s, q.ip) && ProtectDictEnd(s.dictLimit, candidate)
             && 0 <= s.Addr(candidate) && s.Addr(candidate) + 4 <= |s.mem|
             && s.mem[s.Addr(candidate)..s.Addr(candidate) + 4] == pattern
    ensures jumped == StartsRun(s, q, rep, candidate, pattern)
  {
  }

  lemma {:induction false} LinksBounded(s: Space, t: ChainTables, q: Query)
    requires t.Exact(s) && t.nextToUpdate == q.ip
    ensures forall k :: 0 <= k < MAXD ==> t.chainTable[k] <= DISTANCE_MAX
    ensures Links(s, t.chainTable[..], q.ip)
  {
    assert forall k :: 0 <= k < MAXD ==> t.chainTable[..][k] == t.chainTable[k];
  }

  lemma {:induction false} CandidateRun(s: Space, q: Query, candidate: nat, srcLen: nat, pattern: Word)
    requires QueryOk(s, q) && RepeatOk(s, q, Confirmed, srcLen, pattern) && s.Chained(candidate)
             && candidate + 4 <= s.end
    requires 0 <= s.Addr(candidate) && s.Addr(candidate) + 4 <= |s.mem|
    requires s.mem[s.Addr(candidate)..s.Addr(candidate) + 4] == pattern
    ensures Run(s, candidate, 4, pattern[0])
  {
    WordRun(s, candidate, pattern);
  }

  // ---------------------------------------------------------------- what a search achieves

  /** No index in reach, the last three of a dictionary aside, gives a longer match at the searched position. */
  ghost predicate Longest(s: Space, q: Query, longest: nat)
    requires QueryOk(s, q)
  {
    forall m :: LowestMatchIndex(s, q.ip) <= m < q.ip && s.Chained(m) ==> Beaten(s, q, m, longest)
  }

  /** A candidate in the chain of the searched position. */
  predicate InChain(s: Space, q: Query, j: int)
    requires s.lowLimit <= q.ip
  {
    LowestMatchIndex(s, q.ip) <= j < q.ip && s.Chained(j) && s.HashAt(j) == s.HashAt(q.ip)
  }

  /** How many indices between `lo` and `hi` have hash `x`. */
  function Later(s: Space, x: nat, lo: int, hi: int): nat
    decreases hi - lo
  {
    if hi - 1 <= lo then 0
    else Later(s, x, lo, hi - 1) + (if s.Chained(hi - 1) && s.HashAt(hi - 1) == x then 1 else 0)
  }

  /** Fewer than `attempts` candidates are newer than `j`. */
  predicate AmongNewest(s: Space, q: Query, j: int, attempts: nat)
    requires s.lowLimit <= q.ip
  {
    InChain(s, q, j) && Later(s, s.HashAt(q.ip), j, q.ip) < attempts
  }

  /** None of the newest `attempts` candidates gives a longer match. */
  ghost predicate NewestBeaten(s: Space, q: Query, attempts: nat, longest: nat)
    requires QueryOk(s, q)
  {
    forall j :: AmongNewest(s, q, j, attempts) ==> Beaten(s, q, j, longest)
  }

  /** None of the candidates above `m` does, and `m` is one, if it is in reach. */
  ghost predicate LongestAbove(s: Space, q: Query, m: int, longest: nat)
    requires QueryOk(s, q)
  {
    && (forall j :: m < j && InChain(s, q, j) ==> Beaten(s, q, j, longest))
    && (LowestMatchIndex(s, q.ip) <= m ==> s.Chained(m) && s.HashAt(m) == s.HashAt(q.ip))
  }

  lemma {:induction false} LaterNone(s: Space, x: nat, lo: int, hi: int)
    requires NoneBetween(s, lo, hi, x)
    ensures Later(s, x, lo, hi) == 0
    decreases hi - lo
  {
    if lo < hi - 1 {
      LaterNone(s, x, lo, hi - 1);
    }
  }

  lemma {:induction false} LaterOne(s: Space, x: nat, lo: int, mid: int, hi: int)
    requires lo < mid < hi && NoneBetween(s, lo, mid, x) && s.Chained(mid) && s.HashAt(mid) == x
    ensures Later(s, x, lo, hi) == Later(s, x, mid, hi) + 1
    decreases hi - mid
  {
    if mid == hi - 1 {
      LaterNone(s, x, lo, mid);
    } else {
      LaterOne(s, x, lo, mid, hi - 1);
    }
  }

  lemma {:induction false} LaterMore(s: Space, x: nat, lo: int, mid: int, hi: int)
    requires lo <= mid
    ensures Later(s, x, mid, hi) <= Later(s, x, lo, hi)
    ensures lo < mid < hi && s.Chained(mid) && s.HashAt(mid) == x ==> Later(s, x, mid, hi) < Later(s, x, lo, hi)
    decreases hi - mid
  {
    if mid < hi - 1 {
      LaterMore(s, x, lo, mid, hi - 1);
    }
  }

  lemma {:induction false} AboveFirst(s: Space, q: Query, h: seq<nat>, longest: nat, swap: bool)
    requires QueryOk(s, q) && Heads(s, h, q.ip)
    ensures LongestAbove(s, q, h[s.HashAt(q.ip)], longest)
    ensures Reachable(s, q, h[s.HashAt(q.ip)], longest, swap)
    ensures Later(s, s.HashAt(q.ip), h[s.HashAt(q.ip)], q.ip) == 0
    ensures LowestMatchIndex(s, q.ip) <= h[s.HashAt(q.ip)] ==> s.Chained(h[s.HashAt(q.ip)])
    ensures forall j :: AmongNewest(s, q, j, 1) ==> j == h[s.HashAt(q.ip)]
  {
    hide Later;
    var x := s.HashAt(q.ip);
    assert Latest(s, h[x], x, q.ip);
    LaterNone(s, x, h[x], q.ip);
    forall j | AmongNewest(s, q, j, 1)
      ensures j == h[x]
    {
      if j < h[x] {
        LaterMore(s, x, j, h[x], q.ip);
      }
    }
  }

  lemma {:induction false} AboveStep(s: Space, q: Query, c: seq<nat>, m: nat, longest: nat, longest': nat)
    requires QueryOk(s, q) && Links(s, c, q.ip) && LowestMatchIndex(s, q.ip) <= m < q.ip && longest <= longest'
    requires LongestAbove(s, q, m, longest) && Beaten(s, q, m, longest')
    ensures m >= c[m % MAXD] && LongestAbove(s, q, m - c[m % MAXD], longest')
    ensures var x := s.HashAt(q.ip); Later(s, x, m - c[m % MAXD], q.ip) == Later(s, x, m, q.ip) + 1
  {
    hide Beaten, Later;
    var m' := m - c[m % MAXD];
    FollowLink(s, q, c, m, longest);
    LaterOne(s, s.HashAt(q.ip), m', m, q.ip);
    forall j | m' < j && InChain(s, q, j)
      ensures Beaten(s, q, j, longest')
    {
      if m < j {
        BeatenMore(s, q, j, longest, longest');
      }
    }
  }

  /** Where the walk ends, out of reach or out of attempts. */
  lemma {:induction false} NewestSeen(s: Space, q: Query, m: int, longest: nat, attempts: nat)
    requires QueryOk(s, q) && LongestAbove(s, q, m, longest)
    requires m < LowestMatchIndex(s, q.ip) || attempts <= Later(s, s.HashAt(q.ip), m, q.ip)
    ensures NewestBeaten(s, q, attempts, longest)
  {
    hide Beaten, Later;
    forall j | AmongNewest(s, q, j, attempts)
      ensures Beaten(s, q, j, longest)
    {
      if j <= m {
        LaterMore(s, s.HashAt(q.ip), j, m, q.ip);
      }
    }
  }

  /** If there are no more candidates than attempts, nothing in reach is longer. */
  lemma {:induction false} AllSeen(s: Space, q: Query, attempts: nat, longest: nat)
    requires QueryOk(s, q) && NewestBeaten(s, q, attempts, longest)
    requires Later(s, s.HashAt(q.ip), LowestMatchIndex(s, q.ip) - 1, q.ip) <= attempts
    ensures Longest(s, q, longest)
  {
    hide Beaten, Later;
    forall j | LowestMatchIndex(s, q.ip) <= j < q.ip && s.Chained(j)
      ensures Beaten(s, q, j, longest)
    {
      if s.HashAt(j) == s.HashAt(q.ip) {
        LaterMore(s, s.HashAt(q.ip), LowestMatchIndex(s, q.ip) - 1, j, q.ip);
        assert AmongNewest(s, q, j, attempts);
      } else {
        OtherHash(s, q, j, longest);
      }
    }
  }

  lemma {:induction false} OtherHash(s: Space, q: Query, j: int, longest: nat)
    requires QueryOk(s, q) && LowestMatchIndex(s, q.ip) <= j < q.ip && s.Chained(j) && s.HashAt(j) != s.HashAt(q.ip)
    ensures Beaten(s, q, j, longest)
  {
    hide Wide, Repeats;
    forall back: nat, n: nat | Wide(s, q, j, back, n)
      ensures false
    {
      WideForward(s, q, j, back, n);
      WideShape(s, q, j, back, n);
      SameHash(s, j, q.ip, n);
    }
  }

  /** What the walk has shown: without shortcuts all candidates above `w.m` are beaten, one for each attempt. */
  ghost predicate Shown(s: Space, q: Query, b: Best, w: Walk, left: nat, attempts: nat)
    requires QueryOk(s, q)
  {
    && !w.stop && w.chainPos == 0 && LongestAbove(s, q, w.m, b.longest)
    && left + Later(s, s.HashAt(q.ip), w.m, q.ip) == attempts
  }

  /** The walk from the head of the chain. */
  method WalkChain(s: Space, t: ChainTables, q: Query, head: nat, pattern: Word, e: Effort) returns (b: Best)
    requires QueryOk(s, q) && t.Exact(s) && t.nextToUpdate == q.ip && (e.chainSwap ==> q.low == q.ip && s.Padded())
    requires head == t.hashTable[s.HashAt(q.ip)] && pattern == s.mem[s.base + q.ip..s.base + q.ip + 4]
    ensures BestOk(s, q, b)
    ensures !e.patternAnalysis && !e.chainSwap && !e.favorDecSpeed ==> NewestBeaten(s, q, e.attempts, b.longest)
    ensures !e.favorDecSpeed && e.attempts > 0 ==> NewestBeaten(s, q, 1, b.longest)
    ensures b
         == WalkFrom(s, t.chainTable[..], q, Best(q.minLen, 0, q.ip), Walk(head, 0, Untested, 0, false), pattern, e)
  {
    hide BestOk, LongestAbove, Beaten, Heads, Links, RepeatOk, Reachable, WalkFrom, Later, NewestBeaten, WalkOk, Shown,
        Tried, Stepped, InChain, AmongNewest;
    var attemptsLeft: nat := e.attempts;
    b := Best(q.minLen, 0, q.ip);
    var w := Walk(head, 0, Untested, 0, false);
    ghost var plain := !e.patternAnalysis && !e.chainSwap && !e.favorDecSpeed;
    WalkStarts(s, t, q, head, pattern, e);
    while !w.stop && w.m >= LowestMatchIndex(s, q.ip) && attemptsLeft != 0
      invariant BestOk(s, q, b) && WalkOk(s, q, w, b.longest, pattern, e.chainSwap)
      invariant plain ==> Shown(s, q, b, w, attemptsLeft, e.attempts)
      invariant attemptsLeft <= e.attempts && (attemptsLeft == e.attempts ==> w.m == head && !w.stop)
      invariant attemptsLeft < e.attempts && !e.favorDecSpeed ==> Beaten(s, q, head, b.longest)
      invariant WalkFrom(s, t.chainTable[..], q, b, w, pattern, e.(attempts := attemptsLeft))
             == WalkFrom(s, t.chainTable[..], q, Best(q.minLen, 0, q.ip), Walk(head, 0, Untested, 0, false), pattern, e)
      decreases attemptsLeft
    {
      WalkStep(s, t.chainTable[..], q, b, w, pattern, e.(attempts := attemptsLeft));
      ghost var b0, w0 := b, w;
      attemptsLeft := attemptsLeft - 1;
      b, w := TryAndNext(s, t, q, b, w, pattern, e.patternAnalysis, e.chainSwap, e.favorDecSpeed);
      if plain {
        ShownStep(s, t, q, b0, w0, b, w, attemptsLeft, e.attempts);
      }
      if attemptsLeft + 1 < e.attempts && !e.favorDecSpeed {
        BeatenMore(s, q, head, b0.longest, b.longest);
      }
    }
    WalkEnds(s, t.chainTable[..], q, b, w, pattern, e.(attempts := attemptsLeft));
    if plain {
      ShownAll(s, q, b, w, attemptsLeft, e.attempts);
    }
    FirstSeen(s, q, head, b.longest, e.favorDecSpeed || e.attempts == 0);
  }

  lemma {:induction false} WalkStarts(s: Space, t: ChainTables, q: Query, head: nat, pattern: Word, e: Effort)
    requires QueryOk(s, q) && t.Exact(s) && t.nextToUpdate == q.ip && head == t.hashTable[s.HashAt(q.ip)]
    ensures var w := Walk(head, 0, Untested, 0, false);
            var b := Best(q.minLen, 0, q.ip);
            && BestOk(s, q, b) && WalkOk(s, q, w, b.longest, pattern, e.chainSwap) && |t.chainTable[..]| == MAXD
            && Shown(s, q, b, w, e.attempts, e.attempts)
    ensures LowestMatchIndex(s, q.ip) <= head ==> s.Chained(head)
    ensures forall j :: AmongNewest(s, q, j, 1) ==> j == head
  {
    hide LongestAbove, Heads, Links, Later, AmongNewest, BestOk, RepeatOk, Reachable;
    NothingYet(s, q, pattern);
    HeadsOf(s, t);
    AboveFirst(s, q, t.hashTable[..], q.minLen, e.chainSwap);
  }

  lemma {:induction false} HeadsOf(s: Space, t: ChainTables)
    requires t.Exact(s)
    ensures Heads(s, t.hashTable[..], t.nextToUpdate) && |t.chainTable[..]| == MAXD
    ensures forall x :: 0 <= x < HC_HASHSIZE ==> t.hashTable[..][x] == t.hashTable[x]
  {
  }

  lemma {:induction false} ShownStep(s: Space, t: ChainTables, q: Query, b: Best, w: Walk, b': Best, w': Walk,
                                     left: nat, attempts: nat)
    requires QueryOk(s, q) && t.Exact(s) && Shown(s, q, b, w, left + 1, attempts)
    requires w.chainPos == 0 && LongestAbove(s, q, w.m, b.longest) ==>
               && !w'.stop && w'.chainPos == 0 && LongestAbove(s, q, w'.m, b'.longest)
               && Later(s, s.HashAt(q.ip), w'.m, q.ip) == Later(s, s.HashAt(q.ip), w.m, q.ip) + 1
    ensures Shown(s, q, b', w', left, attempts)
  {
    hide LongestAbove, Later;
  }

  lemma {:induction false} ShownAll(s: Space, q: Query, b: Best, w: Walk, left: nat, attempts: nat)
    requires QueryOk(s, q) && Shown(s, q, b, w, left, attempts)
    requires w.stop || w.m < LowestMatchIndex(s, q.ip) || left == 0
    ensures NewestBeaten(s, q, attempts, b.longest)
  {
    hide LongestAbove, Later, NewestBeaten;
    NewestSeen(s, q, w.m, b.longest, attempts);
  }

  /** LZ4HC_InsertAndGetWiderMatch without a dictionary context. */
  method InsertAndGetWiderMatch(s: Space, t: ChainTables, q: Query, maxNbAttempts: nat,
                                patternAnalysis: bool, chainSwap: bool, favorDecSpeed: bool)
      returns (b: Best)
    requires QueryOk(s, q) && t.Exact(s) && t.nextToUpdate <= q.ip && (chainSwap ==> q.low == q.ip && s.Padded())
    modifies t`nextToUpdate, t.hashTable, t.chainTable
    ensures t.Exact(s) && t.nextToUpdate == q.ip
    ensures BestOk(s, q, b)
    ensures !patternAnalysis && !chainSwap && !favorDecSpeed ==> NewestBeaten(s, q, maxNbAttempts, b.longest)
    ensures !favorDecSpeed && maxNbAttempts > 0 ==> NewestBeaten(s, q, 1, b.longest)
    ensures b == Searched(s, old(t.Value()), q, Effort(maxNbAttempts, patternAnalysis, chainSwap, favorDecSpeed))
    ensures t.Value() == Inserted(s, old(t.Value()), q.ip)
  {
    hide BestOk, Heads, Links, WalkFrom, Inserted, NewestBeaten;
    ghost var t0 := t.Value();
    t.Insert(s, q.ip);
    var pattern: Word := s.mem[s.base + q.ip..s.base + q.ip + 4];
    var h := HashHc(Read32(s.mem, s.base + q.ip));
    assert t.Value().h[h] == t.hashTable[h];
    b := WalkChain(s, t, q, t.hashTable[h], pattern, Effort(maxNbAttempts, patternAnalysis, chainSwap, favorDecSpeed));
  }

  /** The newest candidate is the first one tried. */
  lemma {:induction false} FirstSeen(s: Space, q: Query, first: int, longest: nat, untried: bool)
    requires QueryOk(s, q) && forall j :: AmongNewest(s, q, j, 1) ==> j == first
    requires !untried && LowestMatchIndex(s, q.ip) <= first ==> Beaten(s, q, first, longest)
    ensures !untried ==> NewestBeaten(s, q, 1, longest)
  {
    hide Beaten, Later;
  }

  lemma {:induction false} WalkStep(s: Space, c: seq<nat>, q: Query, b: Best, w: Walk, pattern: Word, e: Effort)
    requires QueryOk(s, q) && |c| == MAXD && !w.stop && LowestMatchIndex(s, q.ip) <= w.m && e.attempts > 0
    ensures var (b1, matchLength) := Tried(s, q, b, w.m, e.favorDecSpeed);
            var (b2, w2) := Stepped(s, c, q, b1, w, matchLength, pattern, e.patternAnalysis, e.chainSwap);
            WalkFrom(s, c, q, b, w, pattern, e) == WalkFrom(s, c, q, b2, w2, pattern, e.(attempts := e.attempts - 1))
  {
    hide Tried, Stepped;
  }

  lemma {:induction false} WalkEnds(s: Space, c: seq<nat>, q: Query, b: Best, w: Walk, pattern: Word, e: Effort)
    requires QueryOk(s, q) && |c| == MAXD && (w.stop || w.m < LowestMatchIndex(s, q.ip) || e.attempts == 0)
    ensures WalkFrom(s, c, q, b, w, pattern, e) == b
  {
  }

  lemma {:induction false} NothingYet(s: Space, q: Query, pattern: Word)
    requires QueryOk(s, q)
    ensures BestOk(s, q, Best(q.minLen, 0, q.ip)) && RepeatOk(s, q, Untested, 0, pattern)
  {
  }

  /** One turn of the loop. */
  method TryAndNext(s: Space, t: ChainTables, q: Query, b: Best, w: Walk, pattern: Word,
                    patternAnalysis: bool, chainSwap: bool, favorDecSpeed: bool) returns (b': Best, w': Walk)
    requires QueryOk(s, q) && t.Exact(s) && t.nextToUpdate == q.ip && (chainSwap ==> q.low == q.ip && s.Padded())
    requires BestOk(s, q, b) && WalkOk(s, q, w, b.longest, pattern, chainSwap) && !w.stop
             && w.m >= LowestMatchIndex(s, q.ip)
    requires pattern == s.mem[s.base + q.ip..s.base + q.ip + 4]
    ensures BestOk(s, q, b') && WalkOk(s, q, w', b'.longest, pattern, chainSwap) && b.longest <= b'.longest
    ensures !favorDecSpeed && s.Chained(w.m) ==> Beaten(s, q, w.m, b'.longest)
    ensures !patternAnalysis && !chainSwap && !favorDecSpeed && w.chainPos == 0
            && LongestAbove(s, q, w.m, b.longest) ==>
              && !w'.stop && w'.chainPos == 0 && LongestAbove(s, q, w'.m, b'.longest)
              && Later(s, s.HashAt(q.ip), w'.m, q.ip) == Later(s, s.HashAt(q.ip), w.m, q.ip) + 1
    ensures var (b1, matchLength) := Tried(s, q, b, w.m, favorDecSpeed);
            (b', w') == Stepped(s, t.chainTable[..], q, b1, w, matchLength, pattern, patternAnalysis, chainSwap)
  {
    hide BestOk, LongestAbove, Beaten, Heads, Links, RepeatOk, Tried, Stepped, Later;
    var matchLength;
    b', matchLength := Try(s, q, b, w.m, favorDecSpeed, chainSwap);
    ghost var b1 := b';
    ReachableLonger(s, q, w.m, b.longest, b'.longest, chainSwap);
    b', w' := Next(s, t, q, b', w, matchLength, pattern, patternAnalysis, chainSwap);
    if !favorDecSpeed && s.Chained(w.m) {
      BeatenMore(s, q, w.m, b1.longest, b'.longest);
    }
    if !patternAnalysis && !chainSwap && !favorDecSpeed && w.chainPos == 0 && LongestAbove(s, q, w.m, b.longest) {
      HereChained(s, q, w.m, b.longest);
      LinksBounded(s, t, q);
      AboveStep(s, q, t.chainTable[..], w.m, b.longest, b1.longest);
    }
  }

  lemma {:induction false} HereChained(s: Space, q: Query, m: nat, longest: nat)
    requires QueryOk(s, q) && LongestAbove(s, q, m, longest) && LowestMatchIndex(s, q.ip) <= m
    ensures s.Chained(m)
  {
  }

  /** LZ4HC_InsertAndFindBestMatch: forward only, from four bytes on. */
  method InsertAndFindBestMatch(s: Space, t: ChainTables, ip: nat, high: nat, maxNbAttempts: nat, patternAnalysis: bool)
      returns (b: Best)
    requires QueryOk(s, Query(ip, ip, high, MINMATCH - 1)) && t.Exact(s) && t.nextToUpdate <= ip
    modifies t`nextToUpdate, t.hashTable, t.chainTable
    ensures t.Exact(s) && t.nextToUpdate == ip && MINMATCH - 1 <= b.longest
    ensures MINMATCH <= b.longest ==> Found(s, Query(ip, ip, high, MINMATCH - 1), b) && b.start == ip
    ensures NewestBeaten(s, Query(ip, ip, high, MINMATCH - 1),
                         if patternAnalysis then Min(1, maxNbAttempts) else maxNbAttempts, b.longest)
    ensures b == Searched(s, old(t.Value()), Query(ip, ip, high, MINMATCH - 1),
                          Effort(maxNbAttempts, patternAnalysis, false, false))
    ensures t.Value() == Inserted(s, old(t.Value()), ip)
  {
    hide NewestBeaten, Searched, Inserted;
    var q := Query(ip, ip, high, MINMATCH - 1);
    b := InsertAndGetWiderMatch(s, t, q, maxNbAttempts, patternAnalysis, false, false);
    NoneOfNone(s, q, b.longest);
  }

  lemma {:induction false} NoneOfNone(s: Space, q: Query, longest: nat)
    requires QueryOk(s, q)
    ensures NewestBeaten(s, q, 0, longest)
  {
  }
}
