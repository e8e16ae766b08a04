/**
  The HC compression context: one-shot compression at every level, filling a given output size, and streams whose
  blocks stand one behind the other or in different places.
*/
module Lz4HcStream {
  import opened Lz4Defs
  import opened Lz4Format
  import opened Lz4Encode
  import opened Lz4FastTable
  import opened Lz4Stream
  import opened Lz4HcChain
  import opened Lz4HcEncode
  import opened Lz4HcPlan
  import opened Lz4HcLazy
  import opened Lz4HcOptimal

  const CLEVEL_DEFAULT: int := 9
  const CLEVEL_MAX: int := 12
  const GB2: nat := 0x8000_0000

  datatype Strategy = HashChain | Optimal

  /** One line of clTable. */
  datatype CParams = CParams(strat: Strategy, nbSearches: nat, targetLength: nat)

  /** clTable, for a level that has been brought into range. */
  function ParamsFor(level: int): CParams
  {
    if level <= 2 then CParams(HashChain, 2, 16)
    else if level == 3 then CParams(HashChain, 4, 16)
    else if level == 4 then CParams(HashChain, 8, 16)
    else if level == 5 then CParams(HashChain, 16, 16)
    else if level == 6 then CParams(HashChain, 32, 16)
    else if level == 7 then CParams(HashChain, 64, 16)
    else if level == 8 then CParams(HashChain, 128, 16)
    else if level == 9 then CParams(HashChain, 256, 16)
    else if level == 10 then CParams(Optimal, 96, 64)
    else if level == 11 then CParams(Optimal, 512, 128)
    else CParams(Optimal, 16384, OPT_NUM)
  }

  /** How a level is brought into range. */
  function Clamped(level: int): (r: int)
    ensures 1 <= r <= CLEVEL_MAX
  {
    if level < 1 then CLEVEL_DEFAULT else if level > CLEVEL_MAX then CLEVEL_MAX else level
  }

  /** The levels from 10 on, whose parser swaps chains. */
  predicate SwapsChains(level: int)
  {
    ParamsFor(Clamped(level)).strat == Optimal
  }

  /** Every entry is an index below `n`. */
  ghost predicate Below(h: seq<nat>, c: seq<nat>, n: int)
  {
    && |h| == HC_HASHSIZE && |c| == MAXD
    && (forall x :: 0 <= x < HC_HASHSIZE ==> h[x] < n)
    && (forall k :: 0 <= k < MAXD ==> c[k] <= DISTANCE_MAX)
  }

  /** Tables whose every entry is out of the window tell exactly that nothing is in the window. */
  lemma {:induction false} FreshIsExact(s: Space, h: seq<nat>, c: seq<nat>)
    requires s.Valid() && s.lowLimit == s.dictLimit && Below(h, c, s.lowLimit)
    ensures Heads(s, h, s.dictLimit) && Links(s, c, s.dictLimit)
  {
  }

  lemma {:induction false} ExactIsBelow(s: Space, h: seq<nat>, c: seq<nat>, next: int)
    requires Heads(s, h, next) && Links(s, c, next)
    ensures Below(h, c, next)
  {
    forall x | 0 <= x < HC_HASHSIZE
      ensures h[x] < next
    {
      assert Latest(s, h[x], x, next);
    }
  }

  /** A longer block, or less of the dictionary: the tables stay exact. */
  lemma {:induction false} ExactShrinks(s: Space, s': Space, h: seq<nat>, c: seq<nat>, next: int)
    requires Heads(s, h, next) && Links(s, c, next)
    requires s' == s.(end := s'.end, lowLimit := s'.lowLimit) && s.lowLimit <= s'.lowLimit
    ensures Heads(s', h, next) && Links(s', c, next)
  {
    forall i
      ensures s'.Chained(i) ==> s.Chained(i)
      ensures s'.HashAt(i) == s.HashAt(i)
    {
    }
    forall x | 0 <= x < HC_HASHSIZE
      ensures Latest(s', h[x], x, next)
    {
      assert Latest(s, h[x], x, next);
      NoneShrinks(s, s', h[x], next, x);
    }
    forall i | next - MAXD <= i < next && s'.Chained(i)
      ensures LinkOk(s', i, c[i % MAXD])
    {
      assert LinkOk(s, i, c[i % MAXD]);
      NoneShrinks(s, s', i - c[i % MAXD], i, s.HashAt(i));
    }
  }

  lemma {:induction false} NoneShrinks(s: Space, s': Space, lo: int, hi: int, x: nat)
    requires NoneBetween(s, lo, hi, x)
    requires s' == s.(end := s'.end, lowLimit := s'.lowLimit) && s.lowLimit <= s'.lowLimit
    ensures NoneBetween(s', lo, hi, x)
  {
    forall i | lo < i < hi && s'.Chained(i)
      ensures s'.HashAt(i) != x
    {
      assert s.Chained(i) && s'.HashAt(i) == s.HashAt(i);
    }
  }

  /** What was the prefix, when it becomes the dictionary. */
  function Switched(s: Space, newBlock: int): Space
  {
    Space(s.mem, newBlock - s.end, s.base, s.dictLimit, s.end, s.end)
  }

  lemma {:induction false} SwitchedSame(s: Space, newBlock: int, i: int)
    requires s.dictLimit <= i < s.end
    ensures Switched(s, newBlock).HashAt(i) == s.HashAt(i)
    ensures Switched(s, newBlock).Chained(i) <==> i < s.end - 3
    ensures s.Valid() ==> s.Chained(i)
  {
  }

  lemma {:induction false} NoneSwitched(s: Space, newBlock: int, lo: int, hi: int, hi': int, x: nat)
    requires s.Valid() && NoneBetween(s, lo, hi, x) && hi' <= s.end && (hi < hi' ==> s.end - 3 <= hi)
    ensures NoneBetween(Switched(s, newBlock), lo, hi', x)
  {
    var s' := Switched(s, newBlock);
    forall i | lo < i < hi' && s'.Chained(i)
      ensures s'.HashAt(i) != x
    {
      SwitchedSame(s, newBlock, i);
    }
  }

  /** LZ4HC_setExternalDict keeps the tables exact, once all but the last three positions have been inserted. */
  lemma {:induction false} SwitchedIsExact(s: Space, newBlock: int, h: seq<nat>, c: seq<nat>, next: int)
    requires s.Valid() && Heads(s, h, next) && Links(s, c, next)
    requires s.dictLimit <= next <= s.end && (s.end - 3 <= next || s.end < s.dictLimit + 4)
    requires s.dictLimit + 4 <= s.end ==> next == s.end - 3
    requires s.end < s.dictLimit + 4 ==> next == s.dictLimit
    ensures Heads(Switched(s, newBlock), h, s.end) && Links(Switched(s, newBlock), c, s.end)
  {
    var s' := Switched(s, newBlock);
    forall x | 0 <= x < HC_HASHSIZE
      ensures Latest(s', h[x], x, s.end)
    {
      assert Latest(s, h[x], x, next);
      NoneSwitched(s, newBlock, h[x], next, s.end, x);
      if s.dictLimit <= h[x] {
        SwitchedSame(s, newBlock, h[x]);
      }
    }
    forall i | s.end - MAXD <= i < s.end && s'.Chained(i)
      ensures LinkOk(s', i, c[i % MAXD])
    {
      SwitchedSame(s, newBlock, i);
      var d := c[i % MAXD];
      assert LinkOk(s, i, d);
      NoneSwitched(s, newBlock, i - d, i, i, s.HashAt(i));
      if s.dictLimit <= i - d {
        SwitchedSame(s, newBlock, i - d);
      }
    }
  }

  /** What a finished block means for its decoder. */
  lemma {:induction false} CompressedDecodes(k: Call, b: seq<byte>, r: nat, consumed: nat)
    requires k.Valid() && HcCompressed(k, b, r, consumed) && r > 0
    ensures consumed <= k.N() && r <= |b| && r <= CompressBound(k.N()) && (k.limit != NotLimited ==> r <= k.olimit)
    ensures DecodesAfter(b[..r], k.s.Window()[..k.Pos(k.source)],
              k.s.mem[k.s.base + k.source..k.s.base + k.source + consumed])
    ensures k.limit != FillOutput || CompressBound(k.N()) <= k.olimit ==> consumed == k.N()
  {
    hide Rest, WellFormed;
    BlockSlice(k, k.source, k.source + consumed);
    var v := k.s.Window();
    assert v[..k.Pos(k.source + consumed)] == v[..k.Pos(k.source)] + v[k.Pos(k.source)..k.Pos(k.source + consumed)];
  }

  lemma {:induction false} WindowGrows(s: Space, n: nat)
    requires s.Valid() && s.(end := s.end + n).Valid()
    ensures var w := s.(end := s.end + n).Window();
            w == s.Window() + s.mem[s.base + s.end..s.base + s.end + n] && w[..s.end - s.lowLimit] == s.Window()
  {
    hide Space.Window, DictPart, PrefixPart;
    var s' := s.(end := s.end + n);
    WindowParts(s);
    WindowParts(s');
    PartsGrow(s, n);
    SumAndMore(DictPart(s), PrefixPart(s), s.mem[s.base + s.end..s.base + s.end + n]);
  }

  lemma {:induction false} PartsGrow(s: Space, n: nat)
    requires s.Valid() && s.(end := s.end + n).Valid()
    ensures DictPart(s.(end := s.end + n)) == DictPart(s)
    ensures PrefixPart(s.(end := s.end + n)) == PrefixPart(s) + s.mem[s.base + s.end..s.base + s.end + n]
  {
    SliceJoin(s.mem, s.base + s.dictLimit, s.base + s.end, s.base + s.end + n);
  }

  /** Where a new window's indices start, `span` being how far they have got, and what the tables are then. */
  function StartOffset(span: int): nat
  {
    (if span < 0 || span > GB1 then 0 else span) + KB64
  }

  function StartTables(span: int, t: Tables): Tables
  {
    if span > GB1 then FreshTables() else Tables(t.h, t.c, StartOffset(span))
  }

  /** The tables of a fresh context. */
  function FreshTables(): (t: Tables)
    ensures t.Sized()
  {
    Tables(seq(HC_HASHSIZE, _ => 0), seq(MAXD, _ => 0xFFFF), KB64)
  }

  lemma {:induction false} ClearedIs(t: ChainTables)
    requires t.Cleared()
    ensures t.hashTable[..] == FreshTables().h && t.chainTable[..] == FreshTables().c
  {
  }

  /** How much of a dictionary a block of `n` bytes at `source` leaves: what lies behind it, if that is four bytes. */
  function DictLeft(dictAt: int, dictLen: int, source: nat, n: nat): int
  {
    var dictEnd := dictAt + dictLen;
    if source + n <= dictAt || dictEnd <= source then dictLen
    else if dictEnd - Min(source + n, dictEnd) < MINMATCH then 0
    else dictEnd - (source + n)
  }

  /** Where the two parts of a window lie: the dictionary, and the prefix that ends at `end`. */
  datatype Parts = Parts(dictAt: int, dictLen: int, prefixLen: int, end: int)
  {
    function Length(): int
    {
      dictLen + prefixLen
    }
  }

  /** Where indices have got too far, `span` being how far, only the last 64 KB of the prefix are kept. */
  function Reloaded(p: Parts, span: int): Parts
  {
    var prefix := Min(p.prefixLen, KB64);
    if span > GB2 then Parts(p.end - prefix, 0, prefix, p.end) else p
  }

  /** A block of `n` bytes somewhere else makes the prefix the dictionary, and cuts a dictionary that it runs into. */
  function Placed(p: Parts, source: nat, n: nat): Parts
  {
    var q := if source != p.end then Parts(p.end - p.prefixLen, p.prefixLen, 0, source) else p;
    var left := DictLeft(q.dictAt, q.dictLen, source, n);
    q.(dictAt := q.dictAt + (q.dictLen - left), dictLen := left)
  }

  /** How far indices have got then. */
  function ReloadedSpan(p: Parts, span: int): int
  {
    if span > GB2 then KB64 + Min(p.prefixLen, KB64) else span
  }

  /** With a block of `n` bytes at its end. */
  function Grown(p: Parts, n: nat): Parts
  {
    p.(prefixLen := p.prefixLen + n, end := p.end + n)
  }

  lemma {:induction false} PlacedInTwo(p: Parts, q: Parts, r: Parts, source: nat, n: nat)
    requires q == if source != p.end then Parts(p.end - p.prefixLen, p.prefixLen, 0, source) else p
    requires var left := DictLeft(q.dictAt, q.dictLen, source, n);
             r == q.(dictAt := q.dictAt + (q.dictLen - left), dictLen := left)
    ensures r == Placed(p, source, n)
  {
  }

  /** How much of its history an HC stream keeps for a block of `n` bytes at `source`. */
  function KeptHistory(p: Parts, span: int, source: nat, n: nat): int
  {
    Placed(Reloaded(p, span), source, n).Length()
  }

  /** All of it as long as indices go on, the block stands behind it and does not run into the dictionary. */
  lemma {:induction false} KeptAll(p: Parts, span: int, source: nat, n: nat)
    requires span <= GB2 && source == p.end && (source + n <= p.dictAt || p.dictAt + p.dictLen <= source)
    ensures KeptHistory(p, span, source, n) == p.Length()
  {
  }

  lemma {:induction false} KeptBounds(p: Parts, span: int, source: nat, n: nat)
    requires 0 <= p.dictLen && 0 <= p.prefixLen
    ensures var q := Placed(Reloaded(p, span), source, n);
            && q.end == source && 0 <= q.dictLen && 0 <= q.prefixLen
            && (if source == p.end then q.prefixLen <= p.prefixLen
                else q.prefixLen == 0 && q.Length() <= p.prefixLen)
            && (p.Length() == 0 ==> q.Length() == 0)
  {
  }

  class HcStream {
    const tables: ChainTables
    /** Whether `base` points to memory; until then only the distance to `end` counts. */
    var started: bool
    var base: int
    var end: int
    var dictBase: int
    var dictLimit: nat
    var lowLimit: nat
    var dirty: bool
    var favorDecSpeed: bool
    var compressionLevel: int

    /** Entries lie below the next index to be used, unless the tables are about to be cleared. */
    ghost predicate Valid()
      reads this`started, this`base, this`end, tables, tables.hashTable, tables.chainTable
    {
      && tables.hashTable.Length == HC_HASHSIZE && tables.chainTable.Length == MAXD && base <= end
      && ((!started && end - base > GB1) || Below(tables.hashTable[..], tables.chainTable[..], end - base))
    }

    /** The window of the next block of `n` bytes. */
    function SpaceFor(mem: seq<byte>, n: nat): Space
      reads this`base, this`end, this`dictBase, this`dictLimit, this`lowLimit
    {
      Space(mem, base, dictBase, lowLimit, dictLimit, if base <= end then end - base + n else n)
    }

    /** The call that the next block of `n` bytes amounts to. */
    function CallFor(mem: seq<byte>, n: nat, limit: Limit, capacity: int): Call
      reads this`base, this`end, this`dictBase, this`dictLimit, this`lowLimit
    {
      Call(SpaceFor(mem, n), Max(0, end - base), limit, Max(0, capacity))
    }

    /** The tables describe the window in this memory. */
    ghost predicate In(mem: seq<byte>)
      reads this`started, this`base, this`end, this`dictBase, this`dictLimit, this`lowLimit, tables,
          tables.hashTable, tables.chainTable
    {
      started ==> tables.Exact(SpaceFor(mem, 0)) && tables.nextToUpdate <= Max(dictLimit, end - base - 3)
    }

    /** Three more bytes can be read behind the dictionary, if there is one. */
    predicate PaddedIn(mem: seq<byte>)
      reads this`started, this`base, this`end, this`dictBase, this`dictLimit, this`lowLimit
    {
      started ==> SpaceFor(mem, 0).Padded()
    }

    /** The same when a block at `source` comes next, which may make the prefix the dictionary. */
    predicate StaysPadded(mem: seq<byte>, source: nat)
      reads this`started, this`base, this`end, this`dictBase, this`dictLimit, this`lowLimit
    {
      PaddedIn(mem) && (started && source != end && PrefixLen() > 0 ==> end + 3 <= |mem|)
    }

    /** What the next block can refer to. */
    ghost function History(mem: seq<byte>): seq<byte>
      requires In(mem)
      reads this`started, this`base, this`end, this`dictBase, this`dictLimit, this`lowLimit, tables,
          tables.hashTable, tables.chainTable
    {
      if started then SpaceFor(mem, 0).Window() else []
    }

    /** How much of the history stands directly before `end`. */
    function PrefixLen(): int
      reads this`started, this`base, this`end, this`dictLimit
    {
      if started then end - base - dictLimit else 0
    }

    /** The dictionary in front of that, and both together. */
    function WindowParts(): Parts
      reads this`started, this`base, this`end, this`dictBase, this`dictLimit, this`lowLimit
    {
      Parts(dictBase + lowLimit, dictLimit - lowLimit, PrefixLen(), end)
    }

    /** LZ4_initStreamHC on fresh memory. */
    constructor ()
      ensures end - base == TWO64 - 1 && !favorDecSpeed
      ensures Valid() && !started && !dirty && fresh(tables) && fresh(tables.hashTable) && fresh(tables.chainTable)
    {
      tables := new ChainTables();
      started, base, end := false, 0, TWO64 - 1;
      dictBase, dictLimit, lowLimit, dirty, favorDecSpeed, compressionLevel := 0, 0, 0, false, false, CLEVEL_DEFAULT;
    }

    /** LZ4_initStreamHC: the distance from `base` to `end` is such that the tables will be cleared. */
    method InitStream()
      requires tables.hashTable.Length == HC_HASHSIZE && tables.chainTable.Length == MAXD
      modifies this
      ensures Valid() && !started && !dirty && !favorDecSpeed && end - base == TWO64 - 1
    {
      started, base, end, dirty, favorDecSpeed, compressionLevel := false, 0, TWO64 - 1, false, false, CLEVEL_DEFAULT;
    }

    /** LZ4_setCompressionLevel. */
    method SetCompressionLevel(level: int)
      modifies this`compressionLevel
      ensures 1 <= level <= CLEVEL_MAX ==> compressionLevel == level
      ensures level < 1 ==> compressionLevel == 9
      ensures level > CLEVEL_MAX ==> compressionLevel == 12
    {
      compressionLevel := Clamped(level);
    }

    /** LZ4_resetStreamHC_fast: the tables are kept. */
    method ResetStreamFast(level: int)
      requires Valid()
      modifies this
      ensures Valid() && !started && !dirty
      ensures end - base == (if old(dirty) then TWO64 - 1 else old(end - base))
      ensures favorDecSpeed == (!old(dirty) && old(favorDecSpeed))
    {
      if dirty {
        InitStream();
      } else {
        end := end - base;
        base := 0;
        started := false;
      }
      SetCompressionLevel(level);
    }

    /** The first index of a new window. Where there is too little room above those used the tables are cleared. */
    method NewOffset() returns (startingOffset: nat)
      requires Valid()
      modifies tables.hashTable, tables.chainTable
      ensures KB64 <= startingOffset <= GB1 + KB64 && startingOffset == StartOffset(old(end - base))
      ensures Tables(tables.hashTable[..], tables.chainTable[..], startingOffset)
              == StartTables(old(end - base), old(tables.Value()))
      ensures tables.hashTable.Length == HC_HASHSIZE && tables.chainTable.Length == MAXD
      ensures Below(tables.hashTable[..], tables.chainTable[..], startingOffset)
    {
      startingOffset := end - base;
      if startingOffset > GB1 {
        tables.ClearTables();
        ClearedIs(tables);
        startingOffset := 0;
      }
      startingOffset := startingOffset + KB64;
    }

    /** LZ4HC_init_internal: indices go on 64 KB behind all that were used, or start anew. */
    method InitInternal(mem: seq<byte>, start: nat)
      requires Valid() && start <= |mem|
      modifies this, tables`nextToUpdate, tables.hashTable, tables.chainTable
      ensures Valid() && In(mem) && started && end == start && History(mem) == []
      ensures end - base <= GB1 + KB64 && dictLimit == lowLimit == end - base && tables.nextToUpdate == dictLimit
      ensures dictBase == base && end - base == StartOffset(old(end - base))
      ensures tables.Value() == StartTables(old(end - base), old(tables.Value()))
      ensures dirty == old(dirty) && favorDecSpeed == old(favorDecSpeed) && compressionLevel == old(compressionLevel)
    {
      hide Heads, Links, In, History, Valid, Below;
      var startingOffset := NewOffset();
      tables.nextToUpdate := startingOffset;
      base, end, dictBase := start - startingOffset, start, start - startingOffset;
      dictLimit, lowLimit, started := startingOffset, startingOffset, true;
      FreshIsExact(SpaceFor(mem, 0), tables.hashTable[..], tables.chainTable[..]);
      SettledNew(mem, SpaceFor(mem, 0));
    }

    /** LZ4HC_compress_generic_internal. */
    method CompressGeneric(mem: seq<byte>, n: int, dst: array<byte>, dstCapacity: int, level: int, limit: Limit)
        returns (r: nat, consumed: nat)
      requires Valid() && In(mem) && started && end + Max(0, n) <= |mem| && end - base <= GB2
      requires if limit == NotLimited then n < 0 || CompressBound(n) <= dst.Length else dstCapacity <= dst.Length
      requires SwapsChains(level) ==> PaddedIn(mem)
      modifies this`end, this`dirty, tables`nextToUpdate, tables.hashTable, tables.chainTable, dst
      ensures Valid() && In(mem)
      ensures n < 0 || n > MAX_INPUT_SIZE || (limit == FillOutput && dstCapacity < 1) ==> r == 0 && end == old(end)
      ensures 0 <= n <= MAX_INPUT_SIZE && !(limit == FillOutput && dstCapacity < 1) ==>
                end == old(end) + n && History(mem) == old(History(mem)) + mem[old(end)..old(end) + n]
                && BlockResult(mem, old(end), n, old(History(mem)), dst[..], dstCapacity, limit, r, consumed)
                && OutcomeFor(old(CallFor(mem, n, limit, dstCapacity)), old(tables.Value()), level, old(favorDecSpeed),
                              dst[..], r, consumed)
    {
      hide Valid, In, BlockResult, History, OutcomeFor;
      r, consumed := 0, 0;
      if limit == FillOutput && dstCapacity < 1 {
        return;
      }
      if n < 0 || n > MAX_INPUT_SIZE {
        return;
      }
      r, consumed := CompressAccepted(mem, n, dst, dstCapacity, level, limit);
      if r <= 0 {
        dirty := true;
      }
    }

    method CompressAccepted(mem: seq<byte>, n: nat, dst: array<byte>, dstCapacity: int, level: int, limit: Limit)
        returns (r: nat, consumed: nat)
      requires Valid() && In(mem) && started && end + n <= |mem| && end - base <= GB2
      requires n <= MAX_INPUT_SIZE && !(limit == FillOutput && dstCapacity < 1)
               && (SwapsChains(level) ==> PaddedIn(mem))
      requires if limit == NotLimited then CompressBound(n) <= dst.Length else dstCapacity <= dst.Length
      modifies this`end, tables`nextToUpdate, tables.hashTable, tables.chainTable, dst
      ensures Valid() && In(mem) && end == old(end) + n
              && History(mem) == old(History(mem)) + mem[old(end)..old(end) + n]
      ensures BlockResult(mem, old(end), n, old(History(mem)), dst[..], dstCapacity, limit, r, consumed)
      ensures OutcomeFor(old(CallFor(mem, n, limit, dstCapacity)), old(tables.Value()), level, old(favorDecSpeed),
                         dst[..], r, consumed)
    {
      hide Valid, In, History, HcCompressed, BlockResult, ChainTables.Exact, Space.Window, Outcome, LevelPlan;
      Prepared(mem, n);
      var k := Call(SpaceFor(mem, n), end - base, limit, if dstCapacity < 0 then 0 else dstCapacity);
      ghost var h := History(mem);
      end := end + n;
      r, consumed := CompressWith(k, tables, dst, level, favorDecSpeed);
      Settled(mem, k.s);
      BlockResultHolds(k, dst[..], dstCapacity, r, consumed, h);
    }

    // -------------------------------------------------------------- one block

    /** LZ4_compress_HC_extStateHC_fastReset: the tables of an earlier use are kept. */
    method CompressFastReset(mem: seq<byte>, source: nat, srcSize: int, dst: array<byte>, dstCapacity: int,
        level: int) returns (r: nat)
      requires Valid() && source + Max(0, srcSize) <= |mem| && dstCapacity <= dst.Length
      modifies this, tables`nextToUpdate, tables.hashTable, tables.chainTable, dst
      ensures Valid() && OneShot(mem, source, srcSize, dst[..], dstCapacity, r)
      ensures 0 <= srcSize <= MAX_INPUT_SIZE ==>
                var span := if old(dirty) then TWO64 - 1 else old(end - base);
                Writes(FreshCall(mem, source, StartOffset(span), srcSize), StartTables(span, old(tables.Value())),
                       level, old(!dirty && favorDecSpeed), dstCapacity, dst[..], r)
    {
      hide Valid, In, History, BlockResult, OneShot, OutcomeFor, Writes, StartOffset, StartTables;
      ResetStreamFast(level);
      InitInternal(mem, source);
      ghost var k := CallFor(mem, Max(0, srcSize), if dstCapacity < BoundOf(srcSize) then LimitedOutput else NotLimited,
                             dstCapacity);
      ghost var t, favor := tables.Value(), favorDecSpeed;
      var limit := if dstCapacity < BoundOf(srcSize) then LimitedOutput else NotLimited;
      ghost var consumed;
      r, consumed := CompressGeneric(mem, srcSize, dst, dstCapacity, level, limit);
      if 0 <= srcSize <= MAX_INPUT_SIZE {
        OneShotFromBlock(mem, source, srcSize, dst[..], dstCapacity, limit, r, consumed);
        OutcomeWrites(k, t, level, favor, dstCapacity, dst[..], r, consumed);
      } else {
        NothingDone(mem, source, srcSize, dst[..], dstCapacity);
      }
    }

    /** LZ4_compress_HC_extStateHC and LZ4_compress_HC: a fresh context. */
    method CompressExtState(mem: seq<byte>, source: nat, srcSize: int, dst: array<byte>, dstCapacity: int,
        level: int) returns (r: nat)
      requires tables.hashTable.Length == HC_HASHSIZE && tables.chainTable.Length == MAXD
      requires source + Max(0, srcSize) <= |mem| && dstCapacity <= dst.Length
      modifies this, tables`nextToUpdate, tables.hashTable, tables.chainTable, dst
      ensures Valid() && OneShot(mem, source, srcSize, dst[..], dstCapacity, r)
      ensures 0 <= srcSize <= MAX_INPUT_SIZE ==>
                Writes(FreshCall(mem, source, KB64, srcSize), FreshTables(), level, false, dstCapacity, dst[..], r)
    {
      hide OneShot, Writes;
      InitStream();
      r := CompressFastReset(mem, source, srcSize, dst, dstCapacity, level);
    }

    /** LZ4_compress_HC_destSize: as much of the input as fits. */
    method CompressDestSize(mem: seq<byte>, source: nat, srcSize: int, dst: array<byte>, targetDestSize: int,
        level: int)
        returns (r: nat, consumed: nat)
      requires tables.hashTable.Length == HC_HASHSIZE && tables.chainTable.Length == MAXD
      requires source + Max(0, srcSize) <= |mem| && targetDestSize <= dst.Length
      modifies this, tables`nextToUpdate, tables.hashTable, tables.chainTable, dst
      ensures Valid()
      ensures r == 0 <==> targetDestSize < 1 || srcSize < 0 || srcSize > MAX_INPUT_SIZE
      ensures r > 0 ==>
                && consumed <= srcSize && source + consumed <= |mem| && r <= dst.Length && r <= targetDestSize
                && DecodesAfter(dst[..r], [], mem[source..source + consumed])
                && (CompressBound(srcSize) <= targetDestSize ==> consumed == srcSize)
                && (consumed < srcSize ==> targetDestSize <= r + Lost(targetDestSize))
                && FillsRoom(FreshCall(mem, source, KB64, srcSize), FreshTables(), level, targetDestSize, dst[..], r,
                               consumed)
    {
      hide Valid, In, History, DecodesAfter, OutcomeFor, FillsRoom, Lost, FreshTables;
      InitStream();
      InitInternal(mem, source);
      SetCompressionLevel(level);
      ghost var k, t := CallFor(mem, Max(0, srcSize), FillOutput, targetDestSize), tables.Value();
      r, consumed := CompressGeneric(mem, srcSize, dst, targetDestSize, level, FillOutput);
      if 0 <= srcSize <= MAX_INPUT_SIZE && 1 <= targetDestSize {
        TargetFilled(FreshCall(mem, source, KB64, srcSize), t, level, targetDestSize, dst[..], r, consumed);
      }
    }

    // -------------------------------------------------------------- streams

    /** LZ4HC_setExternalDict: the prefix becomes the dictionary of a block that stands elsewhere. */
    method SetExternalDict(mem: seq<byte>, newBlock: nat)
      requires Valid() && In(mem) && started && newBlock <= |mem| && end - base < INDEX_LIMIT
      modifies this, tables`nextToUpdate, tables.hashTable, tables.chainTable
      ensures Valid() && In(mem) && started && end == newBlock && end - base == old(end - base)
      ensures IsSuffix(History(mem), old(History(mem))) && PrefixLen() == 0 && |History(mem)| == old(PrefixLen())
      ensures WindowParts() == old(Parts(end - PrefixLen(), PrefixLen(), 0, newBlock))
      ensures PaddedIn(mem) <==> old(PrefixLen() > 0 ==> end + 3 <= |mem|)
      ensures dirty == old(dirty) && favorDecSpeed == old(favorDecSpeed) && compressionLevel == old(compressionLevel)
    {
      hide Heads, Links, IsSuffix, Valid, In, History;
      var s := SpaceFor(mem, 0);
      SpanKnown(mem);
      InsertRest(mem);
      SwitchReady(mem, newBlock);
      MoveWindow(newBlock);
      SettledNew(mem, Switched(s, newBlock));
    }

    /** Its last statements. */
    method MoveWindow(newBlock: nat)
      requires base + dictLimit <= end
      modifies this`base, this`end, this`dictBase, this`dictLimit, this`lowLimit, tables`nextToUpdate
      ensures lowLimit == old(dictLimit) && dictLimit == old(end - base) && dictBase == old(base)
      ensures base == newBlock - dictLimit && end == newBlock && tables.nextToUpdate == dictLimit
    {
      lowLimit := dictLimit;
      dictLimit := end - base;
      dictBase := base;
      base := newBlock - dictLimit;
      end := newBlock;
      tables.nextToUpdate := dictLimit;
    }

    /** Its first statement: what is left of the prefix is inserted. */
    method InsertRest(mem: seq<byte>)
      requires Valid() && In(mem) && started
      modifies tables`nextToUpdate, tables.hashTable, tables.chainTable
      ensures Valid() && In(mem) && History(mem) == old(History(mem))
      ensures tables.nextToUpdate == (if dictLimit + 4 <= end - base then end - base - 3 else dictLimit)
    {
      hide Heads, Links;
      if end >= base + dictLimit + 4 {
        tables.Insert(SpaceFor(mem, 0), end - base - 3);
        ExactIsBelow(SpaceFor(mem, 0), tables.hashTable[..], tables.chainTable[..], tables.nextToUpdate);
        BelowMore(tables.hashTable[..], tables.chainTable[..], tables.nextToUpdate, end - base);
      }
    }

    lemma {:induction false} SwitchReady(mem: seq<byte>, newBlock: nat)
      requires Valid() && In(mem) && started && newBlock <= |mem| && end <= |mem|
      requires tables.nextToUpdate == (if dictLimit + 4 <= end - base then end - base - 3 else dictLimit)
      ensures var s' := Switched(SpaceFor(mem, 0), newBlock);
              && s'.Valid() && IsSuffix(s'.Window(), History(mem)) && dictLimit <= end - base
              && tables.hashTable.Length == HC_HASHSIZE && tables.chainTable.Length == MAXD
              && Heads(s', tables.hashTable[..], end - base) && Links(s', tables.chainTable[..], end - base)
    {
      hide Heads, Links, IsSuffix, Space.Window;
      SwitchedIsExact(SpaceFor(mem, 0), newBlock, tables.hashTable[..], tables.chainTable[..], tables.nextToUpdate);
      SwitchedWindow(SpaceFor(mem, 0), newBlock);
    }

    lemma {:induction false} SettledNew(mem: seq<byte>, s: Space)
      requires started && s == SpaceFor(mem, 0) && s.Valid() && base <= end
               && s.dictLimit == s.end == tables.nextToUpdate
      requires tables.hashTable.Length == HC_HASHSIZE && tables.chainTable.Length == MAXD
      requires Heads(s, tables.hashTable[..], s.end) && Links(s, tables.chainTable[..], s.end)
      ensures Valid() && In(mem) && History(mem) == s.Window()
    {
      hide Heads, Links, Space.Window;
      ExactIsBelow(s, tables.hashTable[..], tables.chainTable[..], s.end);
    }

    /** LZ4_loadDictHC: at most the last 64 KB of `n` bytes become the history. */
    method LoadDict(mem: seq<byte>, dictionary: nat, n: nat) returns (dictSize: nat)
      requires tables.hashTable.Length == HC_HASHSIZE && tables.chainTable.Length == MAXD && dictionary + n <= |mem|
      modifies this, tables`nextToUpdate, tables.hashTable, tables.chainTable
      ensures Valid() && In(mem) && started && end == dictionary + n && end - base <= GB1 + 2 * KB64
      ensures dictSize == Min(n, KB64) && History(mem) == mem[end - dictSize..end] && PrefixLen() == dictSize
      ensures PaddedIn(mem) && compressionLevel == Clamped(old(compressionLevel))
      ensures WindowParts() == Parts(end - dictSize, 0, dictSize, end) && end - base == KB64 + dictSize
      ensures !favorDecSpeed
    {
      hide Valid, In, History, Heads, Links, ChainTables.Exact, Space.Window;
      var from := dictionary;
      dictSize := n;
      if dictSize > KB64 {
        from := from + (dictSize - KB64);
        dictSize := KB64;
      }
      var cLevel := compressionLevel;
      InitStream();
      SetCompressionLevel(cLevel);
      InitInternal(mem, from);
      Extend(mem, dictSize);
      InsertRest(mem);
    }

    /** The next `n` bytes join the window without being compressed. */
    method Extend(mem: seq<byte>, n: nat)
      requires Valid() && In(mem) && started && end + n <= |mem| && end - base <= GB2 && n <= KB64
      modifies this`end
      ensures Valid() && In(mem) && end == old(end) + n
      ensures History(mem) == old(History(mem)) + mem[old(end)..old(end) + n]
    {
      hide Valid, In, History, ChainTables.Exact, Space.Window;
      Prepared(mem, n);
      ghost var s := SpaceFor(mem, n);
      end := end + n;
      Settled(mem, s);
    }

    /** The part of LZ4_compressHC_continue_generic that deals with a block overlapping the dictionary. */
    method TrimOverlap(mem: seq<byte>, source: nat, n: nat)
      requires Valid() && In(mem) && started
      modifies this`lowLimit
      ensures Valid() && In(mem) && IsSuffix(History(mem), old(History(mem))) && PrefixLen() == old(PrefixLen())
      ensures lowLimit == dictLimit || source + n <= dictBase + lowLimit || dictBase + dictLimit <= source
      ensures old(PaddedIn(mem)) ==> PaddedIn(mem)
      ensures var p := old(WindowParts());
              var left := DictLeft(p.dictAt, p.dictLen, source, n);
              WindowParts() == p.(dictAt := p.dictAt + (p.dictLen - left), dictLen := left)
    {
      hide Heads, Links, IsSuffix, Space.Window;
      var sourceEnd := source + n;
      var dictBegin, dictEnd := dictBase + lowLimit, dictBase + dictLimit;
      SuffixSelf(History(mem));
      ghost var s := SpaceFor(mem, 0);
      if sourceEnd > dictBegin && source < dictEnd {
        if sourceEnd > dictEnd {
          sourceEnd := dictEnd;
        }
        lowLimit := sourceEnd - dictBase;
        if dictLimit - lowLimit < 4 {
          lowLimit := dictLimit;
        }
        ExactShrinks(s, SpaceFor(mem, 0), tables.hashTable[..], tables.chainTable[..], tables.nextToUpdate);
        TrimmedWindow(s, lowLimit);
      }
    }

    /** The start of LZ4_compressHC_continue_generic: everything up to the compression of the block. */
    method PrepareContinue(mem: seq<byte>, source: nat, n: nat)
      requires Valid() && In(mem) && source + n <= |mem|
      modifies this, tables`nextToUpdate, tables.hashTable, tables.chainTable
      ensures Valid() && In(mem) && started && end == source && end - base <= GB2
      ensures old(StaysPadded(mem, source)) ==> PaddedIn(mem)
      ensures Clamped(compressionLevel) == Clamped(old(compressionLevel))
      ensures IsSuffix(History(mem), old(History(mem)))
      ensures if old(started) && old(end) == source then PrefixLen() <= old(PrefixLen())
              else PrefixLen() == 0 && |History(mem)| <= old(PrefixLen())
      ensures |History(mem)| == old(KeptFor(source, n)) && (favorDecSpeed ==> old(favorDecSpeed))
      ensures var (p, span) := old(Begun(source));
              WindowParts() == Placed(Reloaded(p, span), source, n) && end - base == ReloadedSpan(p, span)
    {
      hide Valid, Heads, Links, IsSuffix, Space.Window, ChainTables.Exact, In, History, Clamped, StartTables,
          StartOffset, PaddedIn, SpaceFor, Placed, Reloaded;
      SuffixSelf(History(mem));
      LengthsKnown(mem);
      if !started {
        InitInternal(mem, source);
        EmptySuffix(old(History(mem)));
        NoDictPadded(mem);
      }
      ghost var h0, p, span := History(mem), WindowParts(), end - base;
      PrepareStarted(mem, source, n);
      SuffixTwice(History(mem), h0, old(History(mem)));
      SuffixLength(History(mem), old(History(mem)));
      KeptBounds(p, span, source, n);
      LengthsKnown(mem);
    }

    lemma {:induction false} NoDictPadded(mem: seq<byte>)
      requires lowLimit == dictLimit
      ensures PaddedIn(mem)
    {
    }

    lemma {:induction false} PartsEnd()
      ensures WindowParts().end == end && WindowParts().prefixLen == PrefixLen()
    {
    }

    lemma {:induction false} LengthsKnown(mem: seq<byte>)
      requires Valid() && In(mem)
      ensures started ==> 0 <= WindowParts().dictLen && 0 <= PrefixLen() && |History(mem)| == WindowParts().Length()
    {
    }

    /** The same for a context that has been started. */
    method PrepareStarted(mem: seq<byte>, source: nat, n: nat)
      requires Valid() && In(mem) && started && source + n <= |mem|
      modifies this, tables`nextToUpdate, tables.hashTable, tables.chainTable
      ensures Valid() && In(mem) && started && end == source && end - base <= GB2
      ensures old(StaysPadded(mem, source)) ==> PaddedIn(mem)
      ensures Clamped(compressionLevel) == Clamped(old(compressionLevel))
      ensures IsSuffix(History(mem), old(History(mem)))
      ensures WindowParts() == Placed(Reloaded(old(WindowParts()), old(end - base)), source, n)
      ensures favorDecSpeed ==> old(favorDecSpeed)
      ensures end - base == ReloadedSpan(old(WindowParts()), old(end - base))
    {
      hide Valid, Heads, Links, IsSuffix, Space.Window, ChainTables.Exact, In, History, Clamped, WindowParts, Placed,
          Reloaded, PaddedIn, SpaceFor;
      ghost var h0 := History(mem);
      Reload(mem);
      ghost var h1 := History(mem);
      Place(mem, source, n);
      SuffixTwice(History(mem), h1, h0);
    }

    /** How much of the history a block of `n` bytes at `source` may refer to. */
    function KeptFor(source: nat, n: nat): int
      reads this`started, this`base, this`end, this`dictBase, this`dictLimit, this`lowLimit
    {
      var (p, span) := Begun(source);
      KeptHistory(p, span, source, n)
    }

    /** The window and how far indices have got, once the context has been started. */
    function Begun(source: nat): (Parts, int)
      reads this`started, this`base, this`end, this`dictBase, this`dictLimit, this`lowLimit
    {
      if started then (WindowParts(), end - base) else (Parts(source, 0, 0, source), StartOffset(end - base))
    }

    /** The window's end is moved to the block, which may make its prefix a dictionary or cut one that it overlaps. */
    method Place(mem: seq<byte>, source: nat, n: nat)
      requires Valid() && In(mem) && started && source + n <= |mem| && end - base <= GB2
      modifies this, tables`nextToUpdate, tables.hashTable, tables.chainTable
      ensures Valid() && In(mem) && started && end == source && end - base <= GB2
      ensures old(StaysPadded(mem, source)) ==> PaddedIn(mem)
      ensures compressionLevel == old(compressionLevel)
      ensures IsSuffix(History(mem), old(History(mem)))
      ensures WindowParts() == Placed(old(WindowParts()), source, n) && end - base == old(end - base)
      ensures favorDecSpeed == old(favorDecSpeed)
    {
      hide Valid, Heads, Links, IsSuffix, Space.Window, ChainTables.Exact, In, History, DictLeft, PaddedIn,
          SpaceFor, Placed, WindowParts;
      SuffixSelf(History(mem));
      PartsEnd();
      if source != end {
        SetExternalDict(mem, source);
      }
      ghost var h, q := History(mem), WindowParts();
      TrimOverlap(mem, source, n);
      SuffixTwice(History(mem), h, old(History(mem)));
      PlacedInTwo(old(WindowParts()), q, WindowParts(), source, n);
    }

    /** Before indices get too large the end of the prefix is loaded as if it were a dictionary. */
    method Reload(mem: seq<byte>)
      requires Valid() && In(mem) && started
      modifies this, tables`nextToUpdate, tables.hashTable, tables.chainTable
      ensures Valid() && In(mem) && started && end == old(end) && end - base <= GB2
      ensures old(PaddedIn(mem)) ==> PaddedIn(mem)
      ensures Clamped(compressionLevel) == Clamped(old(compressionLevel))
      ensures IsSuffix(History(mem), old(History(mem))) && PrefixLen() <= old(PrefixLen())
      ensures WindowParts() == Reloaded(old(WindowParts()), old(end - base)) && (favorDecSpeed ==> old(favorDecSpeed))
      ensures end - base == ReloadedSpan(old(WindowParts()), old(end - base))
    {
      hide Valid, Heads, Links, IsSuffix, Space.Window, ChainTables.Exact, In, History;
      SuffixSelf(History(mem));
      SpanKnown(mem);
      if end - base > GB2 {
        var dictSize: nat := end - base - dictLimit;
        if dictSize > KB64 {
          dictSize := KB64;
        }
        PrefixInHistory(mem, dictSize);
        var _ := LoadDict(mem, end - dictSize, dictSize);
      }
    }

    lemma {:induction false} SpanKnown(mem: seq<byte>)
      requires Valid() && In(mem)
      ensures base <= end && tables.hashTable.Length == HC_HASHSIZE && tables.chainTable.Length == MAXD
      ensures started ==> 0 <= base + dictLimit && dictLimit <= end - base < INDEX_LIMIT && end <= |mem|
    {
    }

    lemma {:induction false} PrefixInHistory(mem: seq<byte>, n: nat)
      requires In(mem) && started && n <= end - base - dictLimit
      ensures 0 <= end - n <= end <= |mem| && IsSuffix(mem[end - n..end], History(mem))
    {
    }

    /** LZ4_compress_HC_continue: `d` is the end of the earlier content that the block may refer to. */
    method CompressContinue(mem: seq<byte>, source: nat, n: nat, dst: array<byte>, dstCapacity: int)
        returns (r: nat, ghost d: seq<byte>, ghost k: Call, ghost t: Tables)
      requires Valid() && In(mem) && source + n <= |mem| && (SwapsChains(compressionLevel) ==> StaysPadded(mem, source))
      requires n <= MAX_INPUT_SIZE && dstCapacity <= dst.Length
      modifies this, tables`nextToUpdate, tables.hashTable, tables.chainTable, dst
      ensures Valid() && In(mem) && started && end == source + n
      ensures old(StaysPadded(mem, source)) ==> PaddedIn(mem)
      ensures Clamped(compressionLevel) == Clamped(old(compressionLevel))
      ensures IsSuffix(d, old(History(mem))) && History(mem) == d + mem[source..source + n]
      ensures |d| == old(KeptFor(source, n)) && (favorDecSpeed ==> old(favorDecSpeed))
      ensures var (p, span) := old(Begun(source));
              && WindowParts() == Grown(Placed(Reloaded(p, span), source, n), n)
              && end - base == ReloadedSpan(p, span) + n
      ensures if old(started) && old(end) == source then PrefixLen() <= old(PrefixLen()) + n
              else PrefixLen() == n && |d| <= old(PrefixLen())
      ensures r > 0 ==> r <= dst.Length && r <= dstCapacity && DecodesAfter(dst[..r], d, mem[source..source + n])
      ensures r == 0 ==> dstCapacity < CompressBound(n)
      ensures Exactly(k, t, d, mem, source, n)
      ensures Writes(k, t, compressionLevel, favorDecSpeed, dstCapacity, dst[..], r)
    {
      hide Valid, In, History, IsSuffix, DecodesAfter, KeptFor, OutcomeFor, Writes, Exactly, Placed, Reloaded,
          ReloadedSpan, Begun, CompressBound;
      PrepareContinue(mem, source, n);
      d := History(mem);
      ghost var limited := CallFor(mem, n, if dstCapacity < CompressBound(n) then LimitedOutput else NotLimited,
                                   dstCapacity);
      k, t := limited.Bare(), tables.Value();
      BlockDescribed(mem, source, n);
      ghost var consumed;
      r, consumed := CompressGeneric(mem, n, dst, dstCapacity, compressionLevel,
                                     if dstCapacity < CompressBound(n) then LimitedOutput else NotLimited);
      OutcomeWrites(limited, t, compressionLevel, favorDecSpeed, dstCapacity, dst[..], r, consumed);
    }

    /** Before the block is compressed the context describes it, and the tables what lies before it. */
    lemma {:induction false} BlockDescribed(mem: seq<byte>, source: nat, n: nat)
      requires Valid() && In(mem) && started && end == source && source + n <= |mem| && end - base <= GB2
      requires n <= MAX_INPUT_SIZE
      ensures Exactly(CallFor(mem, n, NotLimited, 0), tables.Value(), History(mem), mem, source, n)
    {
      hide Heads, Links, Space.Window, Valid, In, History;
      Prepared(mem, n);
      SpanKnown(mem);
    }

    /** The window with the next block at its end. */
    lemma {:induction false} Prepared(mem: seq<byte>, n: nat)
      requires Valid() && In(mem) && started && end + n <= |mem| && end - base <= GB2 && n <= MAX_INPUT_SIZE
      ensures var s := SpaceFor(mem, n);
              && s.Valid() && s.dictLimit <= end - base == s.end - n && tables.Exact(s)
              && tables.nextToUpdate <= Max(dictLimit, end - base - 3)
              && s.Window()[..end - base - s.lowLimit] == History(mem)
              && s.Window() == History(mem) + mem[end..end + n]
    {
      hide Heads, Links, Space.Window, Below;
      ExactShrinks(SpaceFor(mem, 0), SpaceFor(mem, n), tables.hashTable[..], tables.chainTable[..],
          tables.nextToUpdate);
      WindowGrows(SpaceFor(mem, 0), n);
    }

    lemma {:induction false} Settled(mem: seq<byte>, s: Space)
      requires started && s == SpaceFor(mem, 0) && base <= end && tables.Exact(s)
      requires tables.nextToUpdate <= Max(dictLimit, end - base - 3)
      ensures Valid() && In(mem) && History(mem) == s.Window()
    {
      hide Heads, Links, Space.Window;
      ExactIsBelow(s, tables.hashTable[..], tables.chainTable[..], tables.nextToUpdate);
      BelowMore(tables.hashTable[..], tables.chainTable[..], tables.nextToUpdate, end - base);
    }
  }

  lemma {:induction false} NothingDone(mem: seq<byte>, source: nat, srcSize: int, b: seq<byte>, capacity: int)
    requires srcSize < 0 || srcSize > MAX_INPUT_SIZE
    ensures OneShot(mem, source, srcSize, b, capacity, 0)
  {
  }

  lemma {:induction false} SuffixSelf(a: seq<byte>)
    ensures IsSuffix(a, a)
  {
  }

  lemma {:induction false} SuffixLength(a: seq<byte>, b: seq<byte>)
    requires IsSuffix(a, b)
    ensures |a| <= |b|
  {
  }

  lemma {:induction false} EmptySuffix(a: seq<byte>)
    ensures IsSuffix([], a)
  {
  }

  lemma {:induction false} SuffixTwice(a: seq<byte>, b: seq<byte>, c: seq<byte>)
    requires IsSuffix(a, b) && IsSuffix(b, c)
    ensures IsSuffix(a, c)
  {
    assert c[|c| - |a|..] == c[|c| - |b|..][|b| - |a|..];
  }

  lemma {:induction false} SuffixOfSum(a: seq<byte>, d: nat, b: seq<byte>)
    requires d <= |a|
    ensures IsSuffix(a[d..] + b, a + b)
  {
    assert (a + b)[d..] == a[d..] + b;
  }

  lemma {:induction false} SliceTail(m: seq<byte>, lo: nat, mid: nat, hi: nat)
    requires lo <= mid <= hi <= |m|
    ensures m[lo..hi][mid - lo..] == m[mid..hi]
  {
  }

  lemma {:induction false} SliceJoin(m: seq<byte>, lo: nat, mid: nat, hi: nat)
    requires lo <= mid <= hi <= |m|
    ensures m[lo..hi] == m[lo..mid] + m[mid..hi]
  {
  }

  lemma {:induction false} SumAndMore(a: seq<byte>, b: seq<byte>, c: seq<byte>)
    ensures a + (b + c) == (a + b) + c && (a + (b + c))[..|a| + |b|] == a + b
  {
  }

  /** The dictionary part of a window, and the rest. */
  function DictPart(s: Space): seq<byte>
    requires s.Valid()
  {
    if s.lowLimit < s.dictLimit then s.mem[s.dictBase + s.lowLimit..s.dictBase + s.dictLimit] else []
  }

  function PrefixPart(s: Space): seq<byte>
    requires s.Valid()
  {
    s.mem[s.base + s.dictLimit..s.base + s.end]
  }

  lemma {:induction false} WindowParts(s: Space)
    requires s.Valid()
    ensures s.Window() == DictPart(s) + PrefixPart(s) && |DictPart(s)| == s.dictLimit - s.lowLimit
  {
  }

  lemma {:induction false} TrimmedWindow(s: Space, lowLimit: nat)
    requires s.Valid() && s.lowLimit <= lowLimit <= s.dictLimit
    ensures s.(lowLimit := lowLimit).Valid() && IsSuffix(s.(lowLimit := lowLimit).Window(), s.Window())
  {
    var s' := s.(lowLimit := lowLimit);
    hide IsSuffix, Space.Window;
    WindowParts(s);
    WindowParts(s');
    SuffixOfSum(DictPart(s), lowLimit - s.lowLimit, PrefixPart(s));
    if lowLimit < s.dictLimit {
      SliceTail(s.mem, s.dictBase + s.lowLimit, s.dictBase + lowLimit, s.dictBase + s.dictLimit);
    }
    assert DictPart(s') == DictPart(s)[lowLimit - s.lowLimit..];
  }

  /** After a switch the window is the prefix there was. */
  lemma {:induction false} SwitchedWindow(s: Space, newBlock: int)
    requires s.Valid() && 0 <= newBlock <= |s.mem|
    ensures Switched(s, newBlock).Valid() && IsSuffix(Switched(s, newBlock).Window(), s.Window())
  {
    var s' := Switched(s, newBlock);
    hide IsSuffix, Space.Window;
    WindowParts(s);
    WindowParts(s');
    SuffixAlone(DictPart(s), PrefixPart(s));
  }

  lemma {:induction false} SuffixAlone(a: seq<byte>, b: seq<byte>)
    ensures IsSuffix(b + [], a + b)
  {
    assert b + [] == b;
  }

  /** A one-shot call in terms of its block. */
  lemma {:induction false} OneShotFromBlock(mem: seq<byte>, source: nat, n: nat, b: seq<byte>, capacity: int,
      limit: Limit, r: nat, consumed: nat)
    requires BlockResult(mem, source, n, [], b, capacity, limit, r, consumed) && n <= MAX_INPUT_SIZE
    requires limit == (if capacity < BoundOf(n) then LimitedOutput else NotLimited)
    ensures OneShot(mem, source, n, b, capacity, r)
  {
    hide DecodesAfter;
  }

  lemma {:induction false} BelowMore(h: seq<nat>, c: seq<nat>, n: int, n': int)
    requires Below(h, c, n) && n <= n'
    ensures Below(h, c, n')
  {
  }

  /** What the compression of a block of `n` bytes at address `from`, with history `h`, comes to. */
  ghost predicate BlockResult(mem: seq<byte>, from: int, n: nat, h: seq<byte>, b: seq<byte>, capacity: int,
      limit: Limit, r: nat, consumed: nat)
  {
    && (r == 0 ==> limit == LimitedOutput && capacity < CompressBound(n))
    && (r > 0 ==>
          && consumed <= n && r <= |b| && r <= CompressBound(n) && (limit != NotLimited ==> r <= capacity)
          && 0 <= from && from + consumed <= |mem| && DecodesAfter(b[..r], h, mem[from..from + consumed])
          && (limit != FillOutput || CompressBound(n) <= capacity ==> consumed == n))
  }

  lemma {:induction false} BlockResultHolds(k: Call, b: seq<byte>, capacity: int, r: nat, consumed: nat, h: seq<byte>)
    requires k.Valid() && h == k.s.Window()[..k.Pos(k.source)] && k.olimit == Max(0, capacity)
    requires r == 0 ==> k.limit == LimitedOutput && k.olimit < CompressBound(k.N())
    requires r > 0 ==> HcCompressed(k, b, r, consumed)
    ensures BlockResult(k.s.mem, k.s.base + k.source, k.N(), h, b, capacity, k.limit, r, consumed)
  {
    hide HcCompressed, DecodesAfter;
    if r > 0 {
      CompressedDecodes(k, b, r, consumed);
    }
  }

  /** What a level's parser plans for a block. */
  function LevelPlan(k: Call, t: Tables, level: int, favorDecSpeed: bool): (p: Planned)
    requires k.Valid() && t.Sized()
    ensures p.tables.Sized() && Goes(k, Output(Start, k.source), p.out)
  {
    var level' := Clamped(level);
    var params := ParamsFor(level');
    if params.strat == HashChain then ChainPlan(k, t, params.nbSearches)
    else OptimalPlan(k, t, SettingsFor(params.nbSearches, params.targetLength, level' == CLEVEL_MAX, favorDecSpeed))
  }

  /** Higher levels of one parser search more, and the last ones all prefer the parser that prices. */
  lemma {:induction false} EffortGrows(a: int, b: int)
    requires 2 <= a < b <= CLEVEL_MAX
    ensures ParamsFor(a).strat == ParamsFor(b).strat ==> ParamsFor(a).nbSearches < ParamsFor(b).nbSearches
    ensures ParamsFor(a).strat == Optimal ==> ParamsFor(b).strat == Optimal
    ensures ParamsFor(a).targetLength <= ParamsFor(b).targetLength && SwapsChains(b) == (10 <= b)
  {
  }

  /** A call turns out as its level's parser plans. */
  ghost predicate OutcomeFor(k: Call, t: Tables, level: int, favorDecSpeed: bool, b: seq<byte>, r: nat, consumed: nat)
  {
    k.Valid() && t.Sized() && Outcome(k, LevelPlan(k.Bare(), t, level, favorDecSpeed), b, r, consumed)
  }

  /** A block of `n` bytes at `source` behind the history `d`, and tables that tell exactly what lies before it. */
  ghost predicate Exactly(k: Call, t: Tables, d: seq<byte>, mem: seq<byte>, source: nat, n: nat)
  {
    && k.Valid() && k.s.mem == mem && k.s.base + k.source == source && k.N() == n
    && k.s.Window()[..k.Pos(k.source)] == d
    && k.s.dictLimit <= t.next <= k.source && Heads(k.s, t.h, t.next) && Links(k.s, t.c, t.next)
  }

  /** A new window at `start`, whose indices begin at `offset`, with one block in it. */
  function FreshCall(mem: seq<byte>, start: nat, offset: nat, n: nat): Call
  {
    Call(Space(mem, start - offset, start - offset, offset, offset, offset + n), offset, NotLimited, 0)
  }

  /** With room for `room` bytes the whole plan is written, or the call fails. */
  ghost predicate Writes(k: Call, t: Tables, level: int, favorDecSpeed: bool, room: int, b: seq<byte>, r: nat)
  {
    k.Valid() && t.Sized() && WritesWhole(k, LevelPlan(k, t, level, favorDecSpeed), room, b, r)
  }

  lemma {:induction false} OutcomeWrites(k: Call, t: Tables, level: int, favorDecSpeed: bool, room: int, b: seq<byte>,
                                         r: nat, consumed: nat)
    requires OutcomeFor(k, t, level, favorDecSpeed, b, r, consumed)
    requires if k.limit == NotLimited then CompressBound(k.N()) <= room
             else k.limit == LimitedOutput && k.olimit == Max(0, room)
    ensures Writes(k.Bare(), t, level, favorDecSpeed, room, b, r)
  {
    hide Outcome, WritesWhole, Goes;
    ghost var p := LevelPlan(k.Bare(), t, level, favorDecSpeed);
    WholeWritten(k, p, room, b, r, consumed);
  }

  /** An output to be filled takes as many of the planned sequences as fit. */
  ghost predicate FillsRoom(k: Call, t: Tables, level: int, room: nat, b: seq<byte>, r: nat, consumed: nat)
  {
    var k' := k.(limit := FillOutput, olimit := room);
    k'.Valid() && t.Sized() && Filled(k', LevelPlan(k'.Bare(), t, level, false), b, r, consumed)
  }

  lemma {:induction false} TargetFilled(k: Call, t: Tables, level: int, room: nat, b: seq<byte>, r: nat, consumed: nat)
    requires var k' := k.(limit := FillOutput, olimit := room);
             OutcomeFor(k', t, level, false, b, r, consumed) && r <= room
    ensures r > 0 && FillsRoom(k, t, level, room, b, r, consumed)
    ensures consumed < k.N() ==> room <= r + Lost(room)
  {
    hide LevelPlan, Filled, FillOf;
    var k' := k.(limit := FillOutput, olimit := room);
    var p := LevelPlan(k'.Bare(), t, level, false);
    if consumed < k.N() {
      FillsUp(k', p, b, r, consumed);
      var free := room - FillOf(k', p.out.ss).op - 1;
      assert (free + 240) / 255 <= (room + 239) / 255;
    }
  }

  /** Strategy and effort that a level asks for. */
  method CompressWith(k: Call, t: ChainTables, dst: array<byte>, level: int, favorDecSpeed: bool)
      returns (r: nat, consumed: nat)
    requires k.Valid() && t.Exact(k.s) && t.nextToUpdate <= k.source && (SwapsChains(level) ==> k.s.Padded())
    requires if k.limit == NotLimited then CompressBound(k.N()) <= dst.Length else k.olimit <= dst.Length
    modifies dst, t`nextToUpdate, t.hashTable, t.chainTable
    ensures t.Exact(k.s) && t.nextToUpdate <= Max(old(t.nextToUpdate), Mflimit(k))
    ensures r == 0 ==> k.limit == LimitedOutput && k.olimit < CompressBound(k.N())
    ensures r > 0 ==> HcCompressed(k, dst[..], r, consumed)
    ensures old(t.Value()).Sized()
            && Outcome(k, LevelPlan(k.Bare(), old(t.Value()), level, favorDecSpeed), dst[..], r, consumed)
  {
    hide HcCompressed, ChainTables.Exact, Outcome, ChainPlan, OptimalPlan;
    var level' := Clamped(level);
    var params := ParamsFor(level');
    ghost var regions;
    if params.strat == HashChain {
      r, consumed, regions := CompressHashChain(k, t, dst, params.nbSearches);
    } else {
      r, consumed, regions := CompressOptimal(k, t, dst, params.nbSearches, params.targetLength, level' == CLEVEL_MAX,
          favorDecSpeed);
    }
  }
}
