/**
  The compression context that survives calls, and the entry points of the fast compressor: one-shot,
  reusing a context, filling a given output size, and streaming.
*/
module Lz4Stream {
  import opened Lz4Defs
  import opened Lz4Format
  import opened Lz4Encode
  import opened Lz4FastTable
  import opened Lz4FastPlan
  import opened Lz4FastCompressor

  const KB4: nat := 4096
  const RENORM_LIMIT: nat := 0x8000_0000

  /** An entry is empty or lies at least 8 bytes before everything still to come. */
  ghost predicate Settled(t: seq<nat>, size: nat, offset: nat)
  {
    |t| == HASH_CELLS && size <= HASH_CELLS
    && forall h :: 0 <= h < size ==> t[h] == 0 || t[h] + 8 <= offset
  }

  ghost predicate AllZero(t: seq<nat>)
  {
    |t| == HASH_CELLS && forall h :: 0 <= h < HASH_CELLS ==> t[h] == 0
  }

  /** `t` is a suffix of `s`. */
  ghost predicate IsSuffix(t: seq<byte>, s: seq<byte>)
  {
    |t| <= |s| && s[|s| - |t|..] == t
  }

  /** What a successful call promises: some suffix `d` of the earlier content suffices to decode `content`. */
  ghost predicate DecodesAfter(out: seq<byte>, d: seq<byte>, content: seq<byte>)
  {
    Rest(out, 0, d) == Decoded(d + content) && WellFormed(out, |content|) && (content == [] ==> out == [0])
  }

  class Stream {
    const hashTable: array<nat>
    var currentOffset: nat
    var dirty: bool
    var tableType: TableType
    var dictionary: nat
    var dictSize: nat

    ghost predicate Valid()
      reads this, hashTable
    {
      && hashTable.Length == HASH_CELLS
      && currentOffset < INDEX_LIMIT && dictSize <= currentOffset
      && (tableType == ClearedTable ==> AllZero(hashTable[..]) && currentOffset == 0)
      && (tableType != ClearedTable ==> Settled(hashTable[..], TableSize(tableType), currentOffset))
    }

    /** The dictionary is memory; its content is what later blocks can refer to. */
    ghost predicate DictIn(mem: seq<byte>)
      reads this
    {
      dictionary + dictSize <= |mem|
    }

    ghost function Dict(mem: seq<byte>): seq<byte>
      reads this
      requires DictIn(mem)
    {
      mem[dictionary..dictionary + dictSize]
    }

    /** LZ4_initStream on fresh memory. */
    constructor ()
      ensures Valid() && fresh(hashTable) && !dirty && currentOffset == 0 && dictSize == 0 && tableType == ClearedTable
      ensures dictionary == 0 && hashTable[..] == NoEntries()
    {
      hashTable := new nat[HASH_CELLS](i => 0);
      currentOffset, dirty, tableType, dictionary, dictSize := 0, false, ClearedTable, 0, 0;
    }

    method ClearTable()
      requires hashTable.Length == HASH_CELLS
      modifies hashTable
      ensures AllZero(hashTable[..])
    {
      forall h | 0 <= h < HASH_CELLS {
        hashTable[h] := 0;
      }
    }

    /** LZ4_initStream and LZ4_resetStream: everything zero. */
    method Init()
      requires hashTable.Length == HASH_CELLS
      modifies this, hashTable
      ensures Valid() && !dirty && currentOffset == 0 && dictSize == 0 && tableType == ClearedTable && dictionary == 0
    {
      ClearTable();
      currentOffset, dirty, tableType, dictionary, dictSize := 0, false, ClearedTable, 0, 0;
    }

    /**
      LZ4_prepareTable: makes the table safe for a block of `inputSize` bytes without history. Afterwards no
      entry of an earlier use can be accepted: it is out of reach (ByU32), or lies below the block (ByU16).
    */
    method PrepareTable(inputSize: nat, tt: TableType)
      requires Valid() && tt != ClearedTable && inputSize <= INT_MAX
      modifies this, hashTable
      ensures Valid() && !dirty && dictSize == 0 && dictionary == 0 && (tableType == tt || tableType == ClearedTable)
      ensures currentOffset + inputSize < INDEX_LIMIT
      ensures forall h :: 0 <= h < TableSize(tt) ==>
                hashTable[h] == 0 == currentOffset
                || (tt == ByU32 && hashTable[h] + DISTANCE_MAX < currentOffset)
                || (tt == ByU16 && hashTable[h] < currentOffset)
      ensures tt == ByU16 && currentOffset != 0 ==> currentOffset + inputSize < 0xFFFF
      ensures currentOffset == PreparedOffset(old(dirty), old(tableType), old(currentOffset), inputSize, tt)
      ensures hashTable[..] == PreparedTable(old(dirty), old(tableType), old(currentOffset), inputSize, tt,
                                             old(hashTable[..]))
    {
      if dirty {
        Init();
        return;
      }
      if tableType != ClearedTable {
        if tableType != tt
           || (tt == ByU16 && currentOffset + inputSize >= 0xFFFF)
           || (tt == ByU32 && currentOffset > GB1)
           || inputSize >= KB4 {
          ClearTable();
          currentOffset := 0;
          tableType := ClearedTable;
        }
      }
      if currentOffset != 0 && tt == ByU32 {
        currentOffset := currentOffset + KB64;
      }
      dictionary := 0;
      dictSize := 0;
    }

    /** LZ4_resetStream_fast: whatever the context was used for, streaming may start anew. */
    method ResetFast()
      requires Valid()
      modifies this, hashTable
      ensures Valid() && !dirty && dictSize == 0 == dictionary && tableType != ByU16
      ensures forall h :: 0 <= h < HASHLOG_SIZE ==>
                hashTable[h] == 0 == currentOffset || hashTable[h] + DISTANCE_MAX < currentOffset
      ensures currentOffset == PreparedOffset(old(dirty), old(tableType), old(currentOffset), 0, ByU32)
      ensures hashTable[..] == PreparedTable(old(dirty), old(tableType), old(currentOffset), 0, ByU32,
                                             old(hashTable[..]))
    {
      PrepareTable(0, ByU32);
    }

    /** The block that a call of LZ4_compress_generic in the current state works on. */
    function BlockFor(mem: seq<byte>, source: nat, n: nat, tt: TableType, dict: DictDirective, small: bool,
                      limit: Limit, olimit: nat, acceleration: nat): Block
      reads this
    {
      Block(mem, source, n, currentOffset, tt, dict, dictionary, dictSize, small, limit, olimit, acceleration)
    }

    /** LZ4_compress_generic: rejects unsupported sizes, advances the context, compresses. */
    method CompressGeneric(mem: seq<byte>, source: nat, inputSize: int, dst: array<byte>, maxOutputSize: int,
        limit: Limit, tt: TableType, dict: DictDirective, small: bool, acceleration: nat, ghost k: Block)
        returns (r: nat, consumed: nat)
      requires Valid() && tt != ClearedTable
      requires limit == FillOutput ==> AllZero(hashTable[..])
      requires 0 <= inputSize && CallOk(limit, maxOutputSize, inputSize, tt) ==>
                 && k == BlockFor(mem, source, inputSize, tt, dict, small, limit, Max(0, maxOutputSize), acceleration)
                 && k.Valid() && TableOk(k, hashTable[..], Max(1, currentOffset)) && CounterFits(acceleration, k.n)
      requires 0 <= inputSize && tableType != tt ==> AllZero(hashTable[..])
      requires limit == NotLimited ==> inputSize < 0 || CompressBound(inputSize) <= dst.Length
      requires limit != NotLimited ==> maxOutputSize <= dst.Length
      modifies this, hashTable, dst
      ensures !CallOk(limit, maxOutputSize, inputSize, tt) || inputSize < 0 ==>
                r == 0 && unchanged(this) && unchanged(hashTable) && unchanged(dst)
      ensures CallOk(limit, maxOutputSize, inputSize, tt) && 0 <= inputSize ==>
                && (limit != FillOutput ==> Valid())
                && currentOffset == old(currentOffset) + inputSize && dictSize == old(dictSize) + inputSize
                && tableType == tt && dictionary == old(dictionary) && dirty == old(dirty) && k.Valid()
                && (r == 0 ==> limit == LimitedOutput && maxOutputSize < CompressBound(inputSize))
                && (r > 0 ==> Compressed(k, dst[..], r, consumed))
                && (r == 0 <==> TooLong(k, PlanOf(k, old(hashTable[..]))))
                && (r > 0 && limit == FillOutput ==>
                      Filled(k, PlanOf(k, old(hashTable[..])), dst[..], r, consumed))
                && (r > 0 && limit != FillOutput ==>
                      Complete(k, PlanOf(k, old(hashTable[..])), dst[..], hashTable[..], r, consumed))
    {
      hide Compressed, TableLeft, TableOk, Settled, CounterFits, Block.Valid, Block.Window, PlanOf, Filled, Complete;
      r, consumed := 0, 0;
      if limit == FillOutput && maxOutputSize < 1 {
        return;
      }
      if inputSize < 0 || inputSize > MAX_INPUT_SIZE {
        return;
      }
      if tt == ByU16 && inputSize >= LIMIT_64K {
        return;
      }
      var olimit := if maxOutputSize < 0 then 0 else maxOutputSize;
      var block := BlockFor(mem, source, inputSize, tt, dict, small, limit, olimit, acceleration);
      dictSize := dictSize + inputSize;
      currentOffset := currentOffset + inputSize;
      tableType := tt;
      ghost var t0 := hashTable[..];
      IndicesFit(k);
      PlanBounded(k, t0);
      r, consumed := CompressBlock(block, dst, hashTable);
      if limit != FillOutput {
        SettledAfter(k, t0, hashTable[..], TableSize(tt), k.startIndex + k.n);
      }
    }

    /** LZ4_compress_fast_extState: a fresh context, the 16-bit table for small inputs, no limit when none is needed. */
    method CompressFastExtState(mem: seq<byte>, source: nat, inputSize: int, dst: array<byte>, maxOutputSize: int,
        acceleration: int)
        returns (r: nat)
      requires hashTable.Length == HASH_CELLS && AccelerationOk(acceleration, inputSize) && inputSize <= INT_MAX
      requires source + Max(0, inputSize) <= |mem| && maxOutputSize <= dst.Length
      modifies this, hashTable, dst
      ensures Valid()
      ensures OneShot(mem, source, inputSize, dst[..], maxOutputSize, r)
      ensures 0 <= inputSize <= MAX_INPUT_SIZE ==>
                WritesPlan(OneShotBlock(mem, source, inputSize, 0, acceleration), NoEntries(), maxOutputSize, dst[..],
                           hashTable[..], r)
    {
      hide WritesPlan, OneShot;
      Init();
      NoEntriesIs(hashTable[..]);
      ghost var consumed;
      var tt := if inputSize < LIMIT_64K then ByU16 else ByU32;
      r, consumed := Dispatch(mem, source, inputSize, dst, maxOutputSize, acceleration, tt, false);
    }

    /** LZ4_compress_fast_extState_fastReset: the table of an earlier use is kept where that is safe. */
    method CompressFastReset(mem: seq<byte>, source: nat, inputSize: nat, dst: array<byte>, maxOutputSize: int,
        acceleration: int)
        returns (r: nat)
      requires Valid() && AccelerationOk(acceleration, inputSize) && inputSize <= INT_MAX
      requires source + inputSize <= |mem| && maxOutputSize <= dst.Length
      modifies this, hashTable, dst
      ensures Valid()
      ensures OneShot(mem, source, inputSize, dst[..], maxOutputSize, r)
      ensures var tt := if inputSize < LIMIT_64K then ByU16 else ByU32;
              var offset := PreparedOffset(old(dirty), old(tableType), old(currentOffset), inputSize, tt);
              var t := PreparedTable(old(dirty), old(tableType), old(currentOffset), inputSize, tt, old(hashTable[..]));
              inputSize <= MAX_INPUT_SIZE ==>
                WritesPlan(OneShotBlock(mem, source, inputSize, offset, acceleration), t, maxOutputSize, dst[..],
                           hashTable[..], r)
    {
      hide WritesPlan, OneShot, PreparedOffset, PreparedTable;
      var tt := if inputSize < LIMIT_64K then ByU16 else ByU32;
      PrepareTable(inputSize, tt);
      ghost var consumed;
      var small := tt == ByU16 && currentOffset != 0;
      r, consumed := Dispatch(mem, source, inputSize, dst, maxOutputSize, acceleration, tt, small);
    }

    /** The choice between unlimited and limited output that both share. */
    method Dispatch(mem: seq<byte>, source: nat, inputSize: int, dst: array<byte>, maxOutputSize: int,
        acceleration: int, tt: TableType, small: bool) returns (r: nat, ghost consumed: nat)
      requires Valid() && tt == (if inputSize < LIMIT_64K then ByU16 else ByU32)
      requires tableType != tt ==> tableType == ClearedTable
      requires AccelerationOk(acceleration, inputSize) && dictSize == 0 && dictionary == 0
      requires currentOffset + Max(0, inputSize) < INDEX_LIMIT
      requires small <==> tt == ByU16 && currentOffset != 0
      requires tt == ByU16 && currentOffset != 0 ==> currentOffset + inputSize < 0xFFFF
      requires forall h :: 0 <= h < TableSize(tt) ==>
                 hashTable[h] == 0 == currentOffset
                 || (tt == ByU32 && hashTable[h] + DISTANCE_MAX < currentOffset)
                 || (tt == ByU16 && hashTable[h] < currentOffset)
      requires source + Max(0, inputSize) <= |mem| && maxOutputSize <= dst.Length
      modifies this, hashTable, dst
      ensures Valid()
      ensures OneShot(mem, source, inputSize, dst[..], maxOutputSize, r)
      ensures 0 <= inputSize <= MAX_INPUT_SIZE ==>
                WritesPlan(OneShotBlock(mem, source, inputSize, old(currentOffset), acceleration), old(hashTable[..]),
                           maxOutputSize, dst[..], hashTable[..], r)
    {
      var acc := if acceleration < 1 then 1 else acceleration;
      hide OneShot, DecodesAfter, TableOk, EntryOk, Compressed, Settled, CounterFits, Block.Valid, PlanOf, TooLong,
          Complete, WritesPlan;
      ghost var t0 := hashTable[..];
      ghost var limit := if BoundOf(inputSize) <= maxOutputSize then NotLimited else LimitedOutput;
      ghost var olimit := if BoundOf(inputSize) <= maxOutputSize then 0 else Max(0, maxOutputSize);
      ghost var k := BlockFor(mem, source, Max(0, inputSize), tt, DictDirective.NoDict, small, limit, olimit, acc);
      if 0 <= inputSize && CallOk(limit, olimit, inputSize, tt) {
        NoDictReady(k, hashTable[..]);
      }
      if BoundOf(inputSize) <= maxOutputSize {
        r, consumed := CompressGeneric(mem, source, inputSize, dst, 0, NotLimited, tt, DictDirective.NoDict, small,
            acc, k);
      } else {
        r, consumed := CompressGeneric(mem, source, inputSize, dst, maxOutputSize, LimitedOutput, tt,
            DictDirective.NoDict, small, acc, k);
      }
      OneShotHolds(k, inputSize, dst[..], maxOutputSize, r, consumed);
      if 0 <= inputSize <= MAX_INPUT_SIZE {
        PlanWritten(k, t0, maxOutputSize, dst[..], hashTable[..], r, consumed);
      }
    }

    /**
      LZ4_compress_destSize_extState: as much of the input as fits into `targetDstSize` bytes. The context is
      not fit for reuse afterwards.
    */
    method CompressDestSize(mem: seq<byte>, source: nat, srcSize: int, dst: array<byte>, targetDstSize: int)
        returns (r: nat, consumed: nat)
      requires hashTable.Length == HASH_CELLS && srcSize <= INT_MAX
      requires source + Max(0, srcSize) <= |mem| && targetDstSize <= dst.Length
      modifies this, hashTable, dst
      ensures r > 0 ==>
                && 0 <= consumed <= srcSize && source + consumed <= |mem| && r <= dst.Length && r <= targetDstSize
                && DecodesAfter(dst[..r], [], mem[source..source + consumed])
                && (CompressBound(srcSize) <= targetDstSize ==> consumed == srcSize)
                && (consumed < srcSize ==> targetDstSize <= r + Lost(targetDstSize))
      ensures r == 0 <==> targetDstSize < 1 || srcSize < 0 || srcSize > MAX_INPUT_SIZE
      ensures r > 0 && targetDstSize < CompressBound(srcSize) ==>
                FillsTarget(OneShotBlock(mem, source, srcSize, 0, 1), targetDstSize, dst[..], r, consumed)
    {
      hide Valid, DecodesAfter, FillsTarget, WritesPlan, Lost;
      Init();
      NoEntriesIs(hashTable[..]);
      if 0 <= srcSize <= MAX_INPUT_SIZE {
        DefaultFits(srcSize);
      }
      if BoundOf(srcSize) <= targetDstSize {
        r := CompressFastExtState(mem, source, srcSize, dst, targetDstSize, 1);
        consumed := if srcSize < 0 then 0 else srcSize;
        BoundPositive(srcSize);
      } else {
        r, consumed := FillTarget(mem, source, srcSize, dst, targetDstSize);
      }
    }

    /** Its case of an output that may be too small. */
    method FillTarget(mem: seq<byte>, source: nat, srcSize: int, dst: array<byte>, targetDstSize: int)
        returns (r: nat, consumed: nat)
      requires Valid() && currentOffset == dictSize == dictionary == 0 && tableType == ClearedTable
      requires hashTable[..] == NoEntries()
      requires source + Max(0, srcSize) <= |mem| && targetDstSize <= dst.Length
      requires 0 <= srcSize <= MAX_INPUT_SIZE ==> CounterFits(1, srcSize)
      modifies this, hashTable, dst
      ensures r > 0 ==>
                && 0 <= consumed <= srcSize && source + consumed <= |mem| && r <= dst.Length && r <= targetDstSize
                && DecodesAfter(dst[..r], [], mem[source..source + consumed])
                && (consumed < srcSize ==> targetDstSize <= r + Lost(targetDstSize))
      ensures r == 0 <==> targetDstSize < 1 || srcSize < 0 || srcSize > MAX_INPUT_SIZE
      ensures r > 0 ==> FillsTarget(OneShotBlock(mem, source, srcSize, 0, 1), targetDstSize, dst[..], r, consumed)
    {
      hide Compressed, TableOk, EntryOk, DecodesAfter, CounterFits, Block.Valid, PlanOf, Filled, TooLong, Lost,
          NoEntries;
      var tt := if srcSize < LIMIT_64K then ByU16 else ByU32;
      ghost var k := BlockFor(mem, source, Max(0, srcSize), tt, DictDirective.NoDict, false, FillOutput,
          Max(0, targetDstSize), 1);
      if 0 <= srcSize && CallOk(FillOutput, targetDstSize, srcSize, tt) {
        NoDictReady(k, hashTable[..]);
      }
      r, consumed := CompressGeneric(mem, source, srcSize, dst, targetDstSize, FillOutput, tt, DictDirective.NoDict,
          false, 1, k);
      if r > 0 {
        FilledOutput(k, dst[..], r, consumed);
        AlmostFull(k, PlanOf(k, NoEntries()), dst[..], r, consumed);
      }
    }

    // -------------------------------------------------------------- streaming

    /** LZ4_renormDictT: indices are rebased before they get too large. */
    method RenormDict(nextSize: nat)
      requires Valid() && !dirty && nextSize <= MAX_INPUT_SIZE && tableType != ByU16
      modifies this, hashTable
      ensures Valid() && !dirty && tableType == old(tableType)
      ensures currentOffset + nextSize <= RENORM_LIMIT
      ensures dictSize <= old(dictSize) && dictionary + dictSize == old(dictionary + dictSize)
      ensures old(currentOffset) + nextSize <= RENORM_LIMIT ==> unchanged(this) && unchanged(hashTable)
      ensures old(currentOffset) + nextSize > RENORM_LIMIT ==>
                currentOffset == KB64 && dictSize == Min(old(dictSize), KB64)
                && forall h :: 0 <= h < HASHLOG_SIZE ==> hashTable[h] == Rebased(old(hashTable[h]), old(currentOffset))
      ensures hashTable[..] == RebasedTable(old(hashTable[..]), old(currentOffset), nextSize)
    {
      if currentOffset + nextSize > RENORM_LIMIT {
        var delta := currentOffset - KB64;
        var dictEnd := dictionary + dictSize;
        var i := 0;
        while i < HASHLOG_SIZE
          invariant 0 <= i <= HASHLOG_SIZE
          invariant forall h :: 0 <= h < i ==> hashTable[h] == Rebased(old(hashTable[h]), old(currentOffset))
          invariant forall h :: i <= h < HASH_CELLS ==> hashTable[h] == old(hashTable[h])
          modifies hashTable
        {
          if hashTable[i] < delta {
            hashTable[i] := 0;
          } else {
            hashTable[i] := hashTable[i] - delta;
          }
          i := i + 1;
        }
        currentOffset := KB64;
        if dictSize > KB64 {
          dictSize := KB64;
        }
        dictionary := dictEnd - dictSize;
      }
    }

    /** Dictionaries of one to three bytes are dropped unless the block follows them directly. */
    method DropTinyDict(source: nat, dictEnd: nat) returns (dictEnd': nat)
      requires Valid() && dictEnd == dictionary + dictSize
      modifies this`dictSize, this`dictionary
      ensures Valid() && dictEnd' == dictionary + dictSize
      ensures if 1 <= old(dictSize) <= 3 && dictEnd != source then dictSize == 0 && dictionary == source == dictEnd'
              else dictSize == old(dictSize) && dictionary == old(dictionary) && dictEnd' == dictEnd
    {
      dictEnd' := dictEnd;
      if (dictSize - 1) % TWO32 < 4 - 1 && dictEnd != source {
        dictSize := 0;
        dictionary := source;
        dictEnd' := source;
      }
    }

    /** A block that runs into the dictionary leaves only the part behind it. */
    method TrimOverlappedDict(sourceEnd: nat, dictEnd: nat)
      requires Valid() && dictEnd == dictionary + dictSize
      modifies this`dictSize, this`dictionary
      ensures Valid() && dictEnd == dictionary + dictSize && dictSize <= old(dictSize)
      ensures old(dictionary) < sourceEnd < dictEnd ==>
                && sourceEnd <= dictionary && (dictSize == 0 || MINMATCH <= dictSize)
                && dictSize == (if dictEnd - sourceEnd < MINMATCH then 0 else Min(dictEnd - sourceEnd, KB64))
      ensures !(old(dictionary) < sourceEnd < dictEnd) ==> unchanged(this)
    {
      if sourceEnd > dictionary && sourceEnd < dictEnd {
        dictSize := dictEnd - sourceEnd;
        if dictSize > KB64 {
          dictSize := KB64;
        }
        if dictSize < 4 {
          dictSize := 0;
        }
        dictionary := dictEnd - dictSize;
      }
    }

    /** The first half of LZ4_compress_fast_continue: indices rebased, unusable dictionaries dropped or trimmed. */
    method SettleDict(mem: seq<byte>, source: nat, inputSize: nat) returns (dictEnd: nat)
      requires Valid() && DictIn(mem) && tableType != ByU16 && !dirty
      requires source + inputSize <= |mem| && inputSize <= MAX_INPUT_SIZE
      requires source < dictionary || dictionary + dictSize <= source
      modifies this, hashTable
      ensures Valid() && DictIn(mem) && tableType == old(tableType) && !dirty
      ensures currentOffset + inputSize < INDEX_LIMIT && dictEnd == dictionary + dictSize
      ensures IsSuffix(Dict(mem), old(Dict(mem))) && dictSize <= old(dictSize)
      ensures currentOffset == RebasedOffset(old(currentOffset), inputSize)
      ensures dictSize == KeptSize(old(currentOffset), old(dictionary), old(dictSize), source, inputSize)
      ensures dictionary == KeptAt(old(currentOffset), old(dictionary), old(dictSize), source, inputSize)
      ensures hashTable[..] == RebasedTable(old(hashTable[..]), old(currentOffset), inputSize)
      ensures old(dictionary + dictSize) == source ==> dictEnd == source
      ensures old(dictionary + dictSize) != source && dictEnd == source ==> dictSize == 0
      ensures dictEnd != source ==> (dictSize == 0 || MINMATCH <= dictSize) && (dictionary != source || inputSize == 0)
    {
      hide Valid, IsSuffix, KeptSize, KeptAt, RebasedTable;
      ghost var dict0, size0 := dictionary, dictSize;
      dictEnd := SettleIndices(source, inputSize);
      SuffixByEnd(mem, dict0, size0, dictionary, dictSize);
    }

    /** What it does to the dictionary's place: what is left ends where it did. */
    method SettleIndices(source: nat, inputSize: nat) returns (dictEnd: nat)
      requires Valid() && tableType != ByU16 && !dirty && inputSize <= MAX_INPUT_SIZE
      requires source < dictionary || dictionary + dictSize <= source
      modifies this, hashTable
      ensures Valid() && tableType == old(tableType) && !dirty
      ensures currentOffset + inputSize < INDEX_LIMIT && dictEnd == dictionary + dictSize && dictSize <= old(dictSize)
      ensures dictEnd == old(dictionary + dictSize) || (dictSize == 0 && dictionary == source)
      ensures currentOffset == RebasedOffset(old(currentOffset), inputSize)
      ensures dictSize == KeptSize(old(currentOffset), old(dictionary), old(dictSize), source, inputSize)
      ensures dictionary == KeptAt(old(currentOffset), old(dictionary), old(dictSize), source, inputSize)
      ensures hashTable[..] == RebasedTable(old(hashTable[..]), old(currentOffset), inputSize)
      ensures old(dictionary + dictSize) == source ==> dictEnd == source
      ensures old(dictionary + dictSize) != source && dictEnd == source ==> dictSize == 0
      ensures dictEnd != source ==> (dictSize == 0 || MINMATCH <= dictSize) && (dictionary != source || inputSize == 0)
    {
      hide Valid, Rebased;
      dictEnd := dictionary + dictSize;
      RenormDict(inputSize);
      dictEnd := DropTinyDict(source, dictEnd);
      TrimOverlappedDict(source + inputSize, dictEnd);
    }

    /**
      LZ4_compress_fast_continue: a block of a stream. `d` is the suffix of the earlier content that the block
      may refer to.
    */
    method CompressFastContinue(mem: seq<byte>, source: nat, inputSize: nat, dst: array<byte>, maxOutputSize: int,
        acceleration: int)
        returns (r: nat, ghost d: seq<byte>)
      requires Valid() && DictIn(mem) && tableType != ByU16
      requires 0 < source && source + inputSize <= |mem| && inputSize <= MAX_INPUT_SIZE
      requires source < dictionary || dictionary + dictSize <= source
      requires maxOutputSize <= dst.Length && AccelerationOk(acceleration, inputSize)
      modifies this, hashTable, dst
      ensures Valid() && DictIn(mem) && tableType != ByU16 && dirty == old(dirty)
      ensures old(dirty) ==> r == 0
      ensures !old(dirty) ==>
                && IsSuffix(d, old(Dict(mem)))
                && |d| == KeptSize(old(currentOffset), old(dictionary), old(dictSize), source, inputSize)
                && Dict(mem) == (if old(dictionary + dictSize) == source then d else [])
                                + mem[source..source + inputSize]
                && dictionary + dictSize == source + inputSize
                && (r > 0 ==> r <= maxOutputSize && DecodesAfter(dst[..r], d, mem[source..source + inputSize]))
                && (r == 0 ==> maxOutputSize < CompressBound(inputSize))
      ensures !old(dirty) ==>
                var offset, dict, size := old(currentOffset), old(dictionary), old(dictSize);
                var k := StreamBlock(mem, source, inputSize, acceleration, RebasedOffset(offset, inputSize),
                                     KeptAt(offset, dict, size, source, inputSize),
                                     KeptSize(offset, dict, size, source, inputSize));
                currentOffset == RebasedOffset(offset, inputSize) + inputSize
                && WritesPlan(k, RebasedTable(old(hashTable[..]), offset, inputSize), maxOutputSize, dst[..],
                              hashTable[..], r)
    {
      hide DecodesAfter, Settled, IsSuffix, AllZero, KeptSize, KeptAt, RebasedTable, RebasedOffset, WritesPlan;
      d := [];
      if dirty {
        return 0, d;
      }
      var dictEnd := SettleDict(mem, source, inputSize);
      var acc := if acceleration < 1 then 1 else acceleration;
      d := Dict(mem);
      r := ContinueBlock(mem, source, inputSize, dst, maxOutputSize, acc, dictEnd);
    }

    /** The second half: the block itself, with its history in front of it or elsewhere. */
    method ContinueBlock(mem: seq<byte>, source: nat, inputSize: nat, dst: array<byte>, maxOutputSize: int, acc: nat,
        dictEnd: nat)
        returns (r: nat)
      requires Valid() && DictIn(mem) && tableType != ByU16
      requires 0 < source && source + inputSize <= |mem| && inputSize <= MAX_INPUT_SIZE
      requires currentOffset + inputSize < INDEX_LIMIT && dictEnd == dictionary + dictSize
      requires dictEnd != source ==> (dictSize == 0 || MINMATCH <= dictSize) && (dictionary != source || inputSize == 0)
      requires maxOutputSize <= dst.Length && 1 <= acc && CounterFits(acc, inputSize)
      modifies this, hashTable, dst
      ensures Valid() && DictIn(mem) && tableType != ByU16 && dirty == old(dirty)
      ensures Dict(mem) == (if dictEnd == source then old(Dict(mem)) else []) + mem[source..source + inputSize]
      ensures dictionary + dictSize == source + inputSize
      ensures r > 0 ==> r <= maxOutputSize && DecodesAfter(dst[..r], old(Dict(mem)), mem[source..source + inputSize])
      ensures r == 0 ==> maxOutputSize < CompressBound(inputSize)
      ensures var k := StreamBlock(mem, source, inputSize, acc, old(currentOffset), old(dictionary), old(dictSize));
              currentOffset == k.startIndex + inputSize
              && WritesPlan(k, old(hashTable[..]), maxOutputSize, dst[..], hashTable[..], r)
    {
      hide Valid, DecodesAfter, CounterFits, CompressBound, WritesPlan;
      ghost var dict0, size0 := dictionary, dictSize;
      r := ContinueGeneric(mem, source, inputSize, dst, maxOutputSize, acc, dictEnd == source);
      MoveDict(source, inputSize, dictEnd, dict0, size0);
      DictAfter(mem, dict0, size0, source, inputSize, dictionary, dictSize);
    }

    /** The dictionary after a block: with the block at its end, or the block alone. */
    method MoveDict(source: nat, inputSize: nat, dictEnd: nat, ghost dict0: nat, ghost size0: nat)
      requires Valid() && inputSize <= currentOffset
      requires dictEnd == dict0 + size0 && dictionary == dict0 && dictSize == size0 + inputSize
      modifies this`dictionary, this`dictSize
      ensures Valid() && dictionary + dictSize == source + inputSize
      ensures if dictEnd == source then dictionary == dict0 && dictSize == size0 + inputSize else dictSize == inputSize
    {
      hide Valid;
      if dictEnd != source {
        SetDict(source, inputSize);
      }
    }

    /** The call of LZ4_compress_generic that a stream's history asks for. */
    method ContinueGeneric(mem: seq<byte>, source: nat, inputSize: nat, dst: array<byte>, maxOutputSize: int,
        acc: nat, prefix: bool)
        returns (r: nat)
      requires Valid() && DictIn(mem) && tableType != ByU16
      requires 0 < source && source + inputSize <= |mem| && inputSize <= MAX_INPUT_SIZE
      requires currentOffset + inputSize < INDEX_LIMIT && prefix == (dictionary + dictSize == source)
      requires !prefix ==> (dictSize == 0 || MINMATCH <= dictSize) && (dictionary != source || inputSize == 0)
      requires maxOutputSize <= dst.Length && 1 <= acc && CounterFits(acc, inputSize)
      modifies this, hashTable, dst
      ensures Valid() && tableType == ByU32 && dirty == old(dirty)
      ensures dictionary == old(dictionary) && dictSize == old(dictSize) + inputSize && inputSize <= currentOffset
      ensures r > 0 ==> r <= maxOutputSize && DecodesAfter(dst[..r], old(Dict(mem)), mem[source..source + inputSize])
      ensures r == 0 ==> maxOutputSize < CompressBound(inputSize)
      ensures var k := StreamBlock(mem, source, inputSize, acc, old(currentOffset), old(dictionary), old(dictSize));
              currentOffset == k.startIndex + inputSize
              && WritesPlan(k, old(hashTable[..]), maxOutputSize, dst[..], hashTable[..], r)
    {
      hide Valid, Compressed, TableOk, EntryOk, DecodesAfter, Settled, AllZero, CounterFits, Block.Valid, PlanOf,
          TooLong, Complete, WritesPlan;
      ghost var t0 := hashTable[..];
      TableState();
      var small := dictSize < KB64 && dictSize < currentOffset;
      var mode := if prefix then DictDirective.WithPrefix64k else DictDirective.UsingExtDict;
      ghost var k := BlockFor(mem, source, inputSize, ByU32, mode, small, LimitedOutput, Max(0, maxOutputSize), acc);
      ContinueReady(k, hashTable[..], tableType);
      ghost var consumed;
      r, consumed := CompressGeneric(mem, source, inputSize, dst, maxOutputSize, LimitedOutput, ByU32, mode, small,
          acc, k);
      if r > 0 {
        ContinueDecodes(k, dst[..], r, consumed);
      }
      PlanWritten(k, t0, maxOutputSize, dst[..], hashTable[..], r, consumed);
    }

    /** From now on the block just compressed is the dictionary. */
    method SetDict(source: nat, n: nat)
      requires Valid() && n <= currentOffset
      modifies this`dictionary, this`dictSize
      ensures Valid() && dictionary == source && dictSize == n
    {
      dictionary := source;
      dictSize := n;
    }

    lemma {:induction false} TableState()
      requires Valid()
      ensures hashTable.Length == HASH_CELLS && dictSize <= currentOffset < INDEX_LIMIT
      ensures if tableType == ClearedTable then AllZero(hashTable[..])
              else Settled(hashTable[..], TableSize(tableType), currentOffset)
    {
    }
  }

  /** The checks on sizes that LZ4_compress_generic starts with. */
  predicate CallOk(limit: Limit, maxOutputSize: int, inputSize: int, tt: TableType)
  {
    !(limit == FillOutput && maxOutputSize < 1) && inputSize <= MAX_INPUT_SIZE
        && !(tt == ByU16 && inputSize >= LIMIT_64K)
  }

  // ---------------------------------------------------------------- what is written, exactly

  /** A cleared table. */
  function NoEntries(): (t: seq<nat>)
    ensures |t| == HASH_CELLS
  {
    seq(HASH_CELLS, _ => 0)
  }

  lemma {:induction false} NoEntriesIs(t: seq<nat>)
    requires AllZero(t)
    ensures t == NoEntries()
  {
  }

  /** The block of a one-shot call, for any room: small inputs use the 16-bit table. */
  function OneShotBlock(mem: seq<byte>, source: nat, n: nat, offset: nat, acceleration: int): Block
  {
    var tt := if n < LIMIT_64K then ByU16 else ByU32;
    Block(mem, source, n, offset, tt, DictDirective.NoDict, 0, 0, tt == ByU16 && offset != 0, NotLimited, 0,
          Max(1, acceleration))
  }

  /** The block of a streaming call, for any room: its history stands directly in front of it or elsewhere. */
  function StreamBlock(mem: seq<byte>, source: nat, n: nat, acceleration: int, offset: nat, dictionary: nat,
                       dictSize: nat): Block
  {
    var mode := if dictionary + dictSize == source then DictDirective.WithPrefix64k else DictDirective.UsingExtDict;
    Block(mem, source, n, offset, ByU32, mode, dictionary, dictSize, dictSize < KB64 && dictSize < offset, NotLimited,
          0, Max(1, acceleration))
  }

  /** With room for `room` bytes a call writes what is planned, and fails exactly if that is longer. */
  ghost predicate WritesPlan(k: Block, t: seq<nat>, room: int, b: seq<byte>, t': seq<nat>, r: nat)
  {
    && k.Valid() && |t| == HASH_CELLS
    && var p := PlanOf(k, t);
       && (r == 0 <==> room < PlanSize(k, p))
       && (r > 0 ==>
             && r == PlanSize(k, p) <= |b| && t' == p.table
             && b[..r] == Finished(k.mem, p.ss, p.anchor, k.Iend() - p.anchor))
  }

  /** Whatever way the call was told how much room there is. */
  lemma {:induction false} PlanWritten(k: Block, t0: seq<nat>, room: int, b: seq<byte>, t: seq<nat>, r: nat,
                                       consumed: nat)
    requires k.Valid() && |t0| == HASH_CELLS
    requires if k.limit == NotLimited then CompressBound(k.n) <= room
             else k.limit == LimitedOutput && k.olimit == Max(0, room)
    requires r == 0 <==> TooLong(k, PlanOf(k, t0))
    requires r > 0 ==> Complete(k, PlanOf(k, t0), b, t, r, consumed)
    ensures WritesPlan(k.(limit := NotLimited, olimit := 0), t0, room, b, t, r)
  {
    hide PlanOf;
    var k' := k.(limit := NotLimited, olimit := 0);
    PlanSame(k, k', t0);
    PlanBounded(k, t0);
    SomeBytes(k, PlanOf(k, t0));
  }

  lemma {:induction false} SomeBytes(k: Block, p: Planned)
    requires p.anchor <= k.Iend()
    ensures 1 <= PlanSize(k, p)
  {
  }

  /** An output to be filled takes as many of the planned sequences as fit. */
  ghost predicate FillsTarget(k: Block, room: nat, b: seq<byte>, r: nat, consumed: nat)
  {
    var k' := k.(limit := FillOutput, olimit := room);
    k'.Valid() && Filled(k', PlanOf(k', NoEntries()), b, r, consumed)
  }

  /** How many bytes may stay free at the end of an output of size `room`. */
  function Lost(room: int): int
  {
    ((room + 239) / 255 + 254) / 255
  }

  lemma {:induction false} AlmostFull(k: Block, p: Planned, b: seq<byte>, r: nat, consumed: nat)
    requires k.limit == FillOutput && Filled(k, p, b, r, consumed) && r <= k.olimit
    ensures consumed < k.n ==> k.olimit <= r + Lost(k.olimit)
  {
    hide FillOf, Filled;
    if consumed < k.n {
      FillsUp(k, p, b, r, consumed);
      var room := k.olimit - FillOf(k, p.ss).op - 1;
      assert (room + 240) / 255 <= (k.olimit + 239) / 255;
    }
  }

  lemma {:induction false} IndicesFit(k: Block)
    requires k.Valid()
    ensures k.dictSize <= k.startIndex && k.startIndex + k.n < INDEX_LIMIT
  {
  }

  /** LZ4_compressBound: sizes out of range, negative ones included, give 0. */
  function BoundOf(inputSize: int): nat
  {
    if inputSize < 0 then 0 else CompressBound(inputSize)
  }

  /** The contract of a one-shot call: what it writes decodes to the input; it fails only when room may be short. */
  ghost predicate OneShot(mem: seq<byte>, source: nat, inputSize: int, b: seq<byte>, maxOutputSize: int, r: nat)
  {
    && (r > 0 ==> 0 <= inputSize <= MAX_INPUT_SIZE && source + inputSize <= |mem| && r <= |b| && r <= maxOutputSize
                  && DecodesAfter(b[..r], [], mem[source..source + inputSize]))
    && (r == 0 ==> inputSize < 0 || inputSize > MAX_INPUT_SIZE || maxOutputSize < CompressBound(inputSize))
  }

  /** A table without reachable entries suits a block without history. */
  lemma {:induction false} NoDictReady(k: Block, t: seq<nat>)
    requires |t| == HASH_CELLS && k.dict == DictDirective.NoDict && k.dictSize == 0 && k.DictEnd() <= |k.mem|
    requires k.limit != FillOutput || (1 <= k.olimit && k.startIndex == 0)
    requires k.source + k.n <= |k.mem| && k.n <= MAX_INPUT_SIZE && 1 <= k.acceleration
    requires k.startIndex + k.n < INDEX_LIMIT
    requires k.tableType == (if k.n < LIMIT_64K then ByU16 else ByU32)
    requires k.small <==> k.tableType == ByU16 && k.startIndex != 0
    requires k.small ==> k.startIndex + k.n < 0xFFFF
    requires forall h :: 0 <= h < TableSize(k.tableType) ==>
               t[h] == 0 == k.startIndex
               || (k.tableType == ByU32 && t[h] + DISTANCE_MAX < k.startIndex)
               || (k.tableType == ByU16 && t[h] < k.startIndex)
    ensures k.Valid() && TableOk(k, t, Max(1, k.startIndex))
  {
  }

  lemma {:induction false} OneShotHolds(k: Block, inputSize: int, b: seq<byte>, maxOutputSize: int, r: nat,
      consumed: nat)
    requires 0 <= inputSize <= MAX_INPUT_SIZE && r > 0 ==>
               inputSize == k.n && k.Valid() && Compressed(k, b, r, consumed)
    requires k.dictSize == 0 && k.limit != FillOutput
    requires if k.limit == NotLimited then BoundOf(inputSize) <= maxOutputSize else k.olimit == Max(0, maxOutputSize)
    requires inputSize < 0 || inputSize > MAX_INPUT_SIZE ==> r == 0
    requires 0 <= inputSize <= MAX_INPUT_SIZE && r == 0 ==> maxOutputSize < CompressBound(inputSize)
    ensures OneShot(k.mem, k.source, inputSize, b, maxOutputSize, r)
  {
    if r > 0 {
      WindowWithoutDict(k);
    }
  }

  lemma {:induction false} WindowWithoutDict(k: Block)
    requires k.Valid() && k.dictSize == 0
    ensures k.Window() == k.mem[k.source..k.Iend()]
    ensures k.Window()[..0] == [] && forall c :: 0 <= c <= k.n ==> k.Window()[..c] == k.mem[k.source..k.source + c]
  {
    assert k.mem[k.dictionary..k.DictEnd()] == [];
    assert k.Window() == k.mem[k.source..k.Iend()];
  }

  lemma {:induction false} BoundPositive(n: int)
    ensures 0 <= n <= MAX_INPUT_SIZE ==> 16 <= CompressBound(n)
  {
  }

  lemma {:induction false} FilledOutput(k: Block, b: seq<byte>, r: nat, consumed: nat)
    requires k.Valid() && k.dictSize == 0 && r > 0 && Compressed(k, b, r, consumed)
    ensures consumed <= k.n && DecodesAfter(b[..r], [], k.mem[k.source..k.source + consumed])
    ensures k.limit != NotLimited ==> r <= k.olimit
  {
    WindowWithoutDict(k);
  }

  // ---------------------------------------------------------------- rebasing keeps what can be accepted

  /** LZ4_prepareTable keeps the table of an earlier use if it is of the right type and the input is small. */
  predicate Reuses(dirty: bool, tableType: TableType, offset: nat, n: nat, tt: TableType)
  {
    && !dirty && tableType == tt && n < KB4
    && (tt == ByU16 ==> offset + n < 0xFFFF) && (tt == ByU32 ==> offset <= GB1)
  }

  function PreparedOffset(dirty: bool, tableType: TableType, offset: nat, n: nat, tt: TableType): nat
  {
    if !Reuses(dirty, tableType, offset, n, tt) then 0
    else if offset != 0 && tt == ByU32 then offset + KB64 else offset
  }

  function PreparedTable(dirty: bool, tableType: TableType, offset: nat, n: nat, tt: TableType, t: seq<nat>): seq<nat>
  {
    if Reuses(dirty, tableType, offset, n, tt) then t else NoEntries()
  }

  function RebasedOffset(offset: nat, n: nat): nat
  {
    if offset + n > RENORM_LIMIT then KB64 else offset
  }

  function RebasedTable(t: seq<nat>, offset: nat, n: nat): seq<nat>
    requires |t| == HASH_CELLS
  {
    if offset + n > RENORM_LIMIT
    then seq(HASH_CELLS, h requires 0 <= h < HASH_CELLS => if h < HASHLOG_SIZE then Rebased(t[h], offset) else t[h])
    else t
  }

  /**
    How much of its dictionary a stream keeps for a block of `n` bytes at `source`: 64 KB at most when indices are
    rebased; nothing of fewer than four bytes unless they stand right before the block; of a dictionary that the
    block runs into only what lies behind it.
  */
  function KeptSize(offset: nat, dictionary: nat, dictSize: nat, source: nat, n: nat): (kept: nat)
    ensures kept <= dictSize
  {
    var end := dictionary + dictSize;
    var rebased := if offset + n > RENORM_LIMIT then Min(dictSize, KB64) else dictSize;
    var size := if rebased < MINMATCH && end != source then 0 else rebased;
    if end - size < source + n < end
    then (if end - (source + n) < MINMATCH then 0 else Min(end - (source + n), KB64))
    else size
  }

  function KeptAt(offset: nat, dictionary: nat, dictSize: nat, source: nat, n: nat): nat
  {
    if dictionary + dictSize != source && 1 <= dictSize < MINMATCH then source
    else dictionary + dictSize - KeptSize(offset, dictionary, dictSize, source, n)
  }

  /** The whole dictionary is kept unless one of the three things happens. */
  lemma {:induction false} KeptWhole(offset: nat, dictionary: nat, dictSize: nat, source: nat, n: nat)
    requires offset + n <= RENORM_LIMIT
    requires dictSize == 0 || MINMATCH <= dictSize || dictionary + dictSize == source
    requires !(dictionary < source + n < dictionary + dictSize)
    ensures KeptSize(offset, dictionary, dictSize, source, n) == dictSize
  {
  }

  /** What LZ4_renormDictT makes of an entry. */
  function Rebased(e: nat, offset: nat): nat
  {
    if e < offset - KB64 then 0 else if offset >= KB64 then e - (offset - KB64) else e
  }

  /**
    Rebasing changes no decision: for every later position the same entries are accepted, at the same distance.
    `low` is the index below which small dictionaries filter entries out, if they do.
  */
  lemma {:induction false} RebaseKeepsCandidates(k: Block, k': Block, e: nat, cur: nat)
    requires KB64 < k.startIndex <= cur && k.tableType == k'.tableType == ByU32 && k.small == k'.small
    requires k'.startIndex == KB64
    requires k.small ==> k'.dictSize == k.dictSize <= KB64
    ensures var delta := k.startIndex - KB64;
            var e' := Rebased(e, k.startIndex);
            && (Accepted(k, e, cur) <==> Accepted(k', e', cur - delta))
            && (Accepted(k, e, cur) ==> cur - e == (cur - delta) - e')
  {
  }

  // ---------------------------------------------------------------- lemmas for streaming

  lemma {:induction false} SuffixByEnd(mem: seq<byte>, a: nat, n: nat, b: nat, m: nat)
    requires a + n <= |mem| && m <= n && (m == 0 || a + n == b + m) && b + m <= |mem|
    ensures IsSuffix(mem[b..b + m], mem[a..a + n])
  {
  }

  /** A stream's table suits its next block, whichever way the block reaches its history. */
  lemma {:induction false} ContinueReady(k: Block, t: seq<nat>, tt: TableType)
    requires k.tableType == ByU32 && k.limit == LimitedOutput && 1 <= k.acceleration
    requires k.source + k.n <= |k.mem| && k.n <= MAX_INPUT_SIZE && k.startIndex + k.n < INDEX_LIMIT
             && k.DictEnd() <= |k.mem|
    requires k.dictSize <= k.startIndex
    requires if k.dict == DictDirective.WithPrefix64k then k.DictEnd() == k.source
             else
               && k.dict == DictDirective.UsingExtDict && k.DictEnd() != k.source
               && (k.dictionary != k.source || k.n == 0) && (k.dictSize == 0 || MINMATCH <= k.dictSize)
    requires k.small <==> k.dictSize < KB64 && k.dictSize < k.startIndex
    requires tt != ByU16 && (if tt == ClearedTable then AllZero(t) else Settled(t, TableSize(ByU32), k.startIndex))
    ensures k.Valid() && TableOk(k, t, Max(1, k.startIndex))
  {
  }

  lemma {:induction false} ContinueDecodes(k: Block, b: seq<byte>, r: nat, consumed: nat)
    requires k.Valid() && k.limit == LimitedOutput && Compressed(k, b, r, consumed)
    ensures r <= k.olimit && r <= |b|
    ensures DecodesAfter(b[..r], k.mem[k.dictionary..k.DictEnd()], k.mem[k.source..k.Iend()])
  {
    var d, c := k.mem[k.dictionary..k.DictEnd()], k.mem[k.source..k.Iend()];
    assert k.Window() == d + c && k.Window()[..k.dictSize] == d && k.Window()[..k.dictSize + k.n] == d + c;
  }

  /** The dictionary after a block: the block, with the old dictionary in front when it stood there. */
  lemma {:induction false} DictAfter(mem: seq<byte>, dict: nat, size: nat, source: nat, n: nat, dict': nat, size': nat)
    requires dict + size <= |mem| && source + n <= |mem| && dict' + size' == source + n
    requires if dict + size == source then dict' == dict else size' == n
    ensures mem[dict'..dict' + size']
              == (if dict + size == source then mem[dict..dict + size] else []) + mem[source..source + n]
  {
    var d, c := mem[dict..dict + size], mem[source..source + n];
    if dict + size != source {
      assert [] + c == c;
    } else {
      assert mem[dict'..dict' + size'] == d + c;
    }
  }

  lemma {:induction false} SettledAfter(k: Block, t0: seq<nat>, t: seq<nat>, size: nat, offset: nat)
    requires k.Valid() && TableLeft(k, t0, t) && size == TableSize(k.tableType) && offset == k.startIndex + k.n
    requires Settled(t0, size, k.startIndex) || AllZero(t0)
    ensures Settled(t, size, offset)
  {
  }
}
