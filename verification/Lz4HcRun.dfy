/**
  What the HC compressor writes is restored: one block at a time, and over whole runs of streaming compression and
  decompression.
*/
module Lz4HcRun {
  import opened Lz4Defs
  import opened Lz4Format
  import opened Lz4Copy
  import Lz4Decoder
  import Lz4FastTable
  import opened Lz4Stream
  import opened Lz4StreamDecode
  import opened Lz4StreamHistory
  import opened Lz4StreamRun
  import opened Lz4HcChain
  import opened Lz4HcEncode
  import opened Lz4HcStream

  /** A block compressed at any level decodes back to its input, into any buffer that can hold it. */
  method RoundTripHc(stream: HcStream, mem: seq<byte>, source: nat, n: nat, packed: array<byte>, maxOutputSize: int,
                     level: int, dst: array<byte>, capacity: nat) returns (r: nat, size: int)
    requires stream.tables.hashTable.Length == HC_HASHSIZE && stream.tables.chainTable.Length == MAXD && packed != dst
    requires source + n <= |mem| && n <= MAX_INPUT_SIZE && n <= capacity <= dst.Length && capacity <= INT_MAX
    requires maxOutputSize <= packed.Length && maxOutputSize <= INT_MAX
    modifies stream, stream.tables`nextToUpdate, stream.tables.hashTable, stream.tables.chainTable, packed, dst
    ensures r == 0 ==> maxOutputSize < CompressBound(n)
    ensures r > 0 ==> size == n && dst[..n] == mem[source..source + n]
  {
    r := stream.CompressExtState(mem, source, n, packed, maxOutputSize, level);
    size := 0;
    if r > 0 {
      var src := packed[..r];
      ghost var b0 := dst[..];
      size := DecompressSafe(src, dst, 0, capacity);
      var job := Lz4Decoder.Job(src, 0, capacity, 0, [], Lz4Decoder.NoDict, false);
      OutcomeRestores(job, b0, dst[..], size, [], [], [], mem[source..source + n]);
    }
  }

  // ---------------------------------------------------------------- runs

  /** Every block is followed by three more readable bytes. */
  ghost predicate Padded(cs: seq<Chunk>, memSize: nat)
  {
    forall i :: 0 <= i < |cs| ==> cs[i].source + cs[i].n + 3 <= memSize
  }

  /**
    The encoder's window is the end of the content. What it can take along elsewhere is in the decoder's prefix; all
    of it is, or the decoder stands at the end of the last block and both its stretches are content.
  */
  ghost predicate HcLinked(mem: seq<byte>, b: seq<byte>, cs: seq<Chunk>, i: nat, enc: HcStream, dec: StreamDecoder)
    requires i <= |cs| && forall x :: 0 <= x < i ==> cs[x].source + cs[x].n <= |mem|
    reads enc, enc.tables, enc.tables.hashTable, enc.tables.chainTable, dec
  {
    && enc.Valid() && enc.In(mem) && dec.Valid(|b|)
    && (SwapsChains(enc.compressionLevel) ==> enc.PaddedIn(mem))
    && IsSuffix(enc.History(mem), Content(mem, cs, i))
    && DecLinked(b, cs, i, Content(mem, cs, i), dec.externalDict, dec.extDictSize, dec.prefixEnd, dec.prefixSize)
    && (if i == 0 then !enc.started else enc.started && enc.end == cs[i - 1].source + cs[i - 1].n)
    && Remembers(b, cs, i, Content(mem, cs, i), StateOf(dec), enc.PrefixLen(), |enc.History(mem)|)
  }

  /** The decoder remembers a window of `history` bytes, of which `prefix` stand before its end. */
  ghost predicate Remembers(b: seq<byte>, cs: seq<Chunk>, i: nat, h: seq<byte>, d: DecState, prefix: int, history: nat)
    requires i <= |cs|
  {
    && prefix <= d.pSize && (prefix <= 0 || AtEnd(cs, i, d.pEnd))
    && (history <= d.pSize
        || (AtEnd(cs, i, d.pEnd) && PairLinked(b, h, d.ext, d.extSize, d.pEnd, d.pSize)
           && history <= d.extSize + d.pSize))
  }

  /** Where the encoder goes on the decoder sees enough. */
  lemma {:induction false} SeesEnough(b: seq<byte>, memSize: nat, cs: seq<Chunk>, i: nat, h: seq<byte>, st: DecState,
                                      started: bool, end: int, prefix: int, history: nat, d: nat)
    requires Layout(cs, memSize, |b|) && i < |cs| && Remembers(b, cs, i, h, st, prefix, history) && d <= history
    requires if i == 0 then !started else started && end == cs[i - 1].source + cs[i - 1].n
    requires !started ==> history == 0
    requires (started && end == cs[i].source) || d <= prefix || !started
    ensures Sees(b, h, st, cs[i].dest, d)
  {
    hide PairLinked, Apart;
    if i > 0 {
      assert Follows(cs[i - 1], cs[i]);
    }
  }

  /** And it remembers the new window. */
  lemma {:induction false} StillRemembers(b: seq<byte>, b': seq<byte>, memSize: nat, cs: seq<Chunk>, i: nat,
      h: seq<byte>, c: seq<byte>, st: DecState, started: bool, end: int, prefix: int, history: nat, d: nat,
      prefix': int)
    requires Layout(cs, memSize, |b|) && i < |cs| && Remembers(b, cs, i, h, st, prefix, history) && d <= history
    requires DecLinked(b, cs, i, h, st.ext, st.extSize, st.pEnd, st.pSize) && |b'| == |b|
    requires Framed(b, b', cs[i].dest, cs[i].dest + cs[i].capacity) && cs[i].dest + cs[i].n <= |b|
    requires b'[cs[i].dest..cs[i].dest + cs[i].n] == c
    requires if i == 0 then !started else started && end == cs[i - 1].source + cs[i - 1].n
    requires !started ==> prefix == 0 == history
    requires if started && end == cs[i].source then prefix' <= prefix + cs[i].n else prefix' == cs[i].n && d <= prefix
    ensures Remembers(b', cs, i + 1, h + c, After(st, cs[i].dest, cs[i].n), prefix', d + cs[i].n)
  {
    hide PairLinked, Apart, FromDests, IsSuffix;
    if i > 0 {
      assert Follows(cs[i - 1], cs[i]);
    }
    var on := st.pSize > 0 && st.pEnd == cs[i].dest;
    if 0 < cs[i].n && !on {
      PairStep(b, b', memSize, cs, i, h, c, st.ext, st.extSize, st.pEnd, st.pSize);
    } else if on && history > st.pSize {
      PairStep(b, b', memSize, cs, i, h, c, st.ext, st.extSize, st.pEnd, st.pSize);
    }
  }

  // ---------------------------------------------------------------- what blocks may refer to

  /** Where an encoder's window lies, and how far its indices have got. */
  datatype HcState = HcState(parts: Parts, span: int)

  /** Before block `i`: a new encoder starts its window where the first block does. */
  function HcBefore(cs: seq<Chunk>, i: nat): HcState
    requires i < |cs|
    decreases i, 0
  {
    if i == 0 then HcState(Parts(cs[0].source, 0, 0, cs[0].source), KB64) else HcAfter(cs, i)
  }

  function HcAfter(cs: seq<Chunk>, i: nat): HcState
    requires 0 < i <= |cs|
    decreases i - 1, 1
  {
    var st, c := HcBefore(cs, i - 1), cs[i - 1];
    HcState(Grown(Placed(Reloaded(st.parts, st.span), c.source, c.n), c.n), ReloadedSpan(st.parts, st.span) + c.n)
  }

  /** How much of the content before it block `i` may refer to. */
  function HcReach(cs: seq<Chunk>, i: nat): int
    requires i < |cs|
  {
    var st := HcBefore(cs, i);
    KeptHistory(st.parts, st.span, cs[i].source, cs[i].n)
  }

  ghost predicate HcAt(enc: HcStream, cs: seq<Chunk>, i: nat)
    requires i <= |cs|
    reads enc
  {
    && !enc.favorDecSpeed
    && if i == 0 then !enc.started && enc.end - enc.base == Lz4FastTable.TWO64 - 1
       else enc.started && HcState(enc.WindowParts(), enc.end - enc.base) == HcAfter(cs, i)
  }

  /**
    How block `i` is compressed: behind so much of the end of the content, with tables that tell exactly what lies
    before it, as its level plans, unless that is longer than its room.
  */
  ghost predicate HcPacked(mem: seq<byte>, cs: seq<Chunk>, i: nat, level: int, b: seq<byte>, r: nat)
    requires i < |cs| && forall x :: 0 <= x < i ==> cs[x].source + cs[x].n <= |mem|
  {
    exists d, k, t ::
      && |d| == HcReach(cs, i) && IsSuffix(d, Content(mem, cs, i))
      && Exactly(k, t, d, mem, cs[i].source, cs[i].n) && Writes(k, t, level, false, cs[i].maxOutputSize, b, r)
  }

  lemma {:induction false} PackedSo(mem: seq<byte>, cs: seq<Chunk>, i: nat, level: int, b: seq<byte>, r: nat,
                                    d: seq<byte>, k: Call, t: Tables)
    requires i < |cs| && forall x :: 0 <= x < i ==> cs[x].source + cs[x].n <= |mem|
    requires |d| == HcReach(cs, i) && IsSuffix(d, Content(mem, cs, i))
    requires Exactly(k, t, d, mem, cs[i].source, cs[i].n) && Writes(k, t, level, false, cs[i].maxOutputSize, b, r)
    ensures HcPacked(mem, cs, i, level, b, r)
  {
    hide IsSuffix, Exactly, Writes, HcReach, Content;
  }

  /** Levels out of range stand for others. */
  lemma {:induction false} SameLevel(k: Call, t: Tables, level: int, level': int, room: int, b: seq<byte>, r: nat)
    requires Writes(k, t, level, false, room, b, r) && Clamped(level) == Clamped(level')
    ensures Writes(k, t, level', false, room, b, r)
  {
  }

  lemma {:induction false} HcMoves(enc: HcStream, cs: seq<Chunk>, i: nat, p: Parts, span: int)
    requires i < |cs| && (p, span) == (HcBefore(cs, i).parts, HcBefore(cs, i).span)
    requires enc.started && !enc.favorDecSpeed
    requires enc.WindowParts() == Grown(Placed(Reloaded(p, span), cs[i].source, cs[i].n), cs[i].n)
    requires enc.end - enc.base == ReloadedSpan(p, span) + cs[i].n
    ensures HcAt(enc, cs, i + 1)
  {
    hide Placed, Reloaded, HcBefore;
  }

  lemma {:induction false} BegunIs(enc: HcStream, cs: seq<Chunk>, i: nat)
    requires i < |cs| && HcAt(enc, cs, i)
    ensures enc.Begun(cs[i].source) == (HcBefore(cs, i).parts, HcBefore(cs, i).span)
    ensures enc.KeptFor(cs[i].source, cs[i].n) == HcReach(cs, i)
  {
  }

  /** Compresses block `i`: behind as much of the end of the content as `HcReach` tells. */
  method EncodeBlock(mem: seq<byte>, cs: seq<Chunk>, i: nat, enc: HcStream, packed: array<byte>)
      returns (r: nat, ghost d: seq<byte>)
    requires i < |cs| && forall x :: 0 <= x <= i ==> cs[x].source + cs[x].n <= |mem|
    requires enc.Valid() && enc.In(mem) && HcAt(enc, cs, i) && IsSuffix(enc.History(mem), Content(mem, cs, i))
    requires SwapsChains(enc.compressionLevel) ==> enc.StaysPadded(mem, cs[i].source)
    requires cs[i].n <= MAX_INPUT_SIZE && cs[i].maxOutputSize <= packed.Length
    modifies enc, enc.tables`nextToUpdate, enc.tables.hashTable, enc.tables.chainTable, packed
    ensures enc.Valid() && enc.In(mem) && enc.started && enc.end == cs[i].source + cs[i].n
    ensures old(enc.StaysPadded(mem, cs[i].source)) ==> enc.PaddedIn(mem)
    ensures Clamped(enc.compressionLevel) == old(Clamped(enc.compressionLevel)) && HcAt(enc, cs, i + 1)
    ensures IsSuffix(d, old(enc.History(mem))) && |d| == HcReach(cs, i)
    ensures enc.History(mem) == d + mem[cs[i].source..cs[i].source + cs[i].n]
    ensures if old(enc.started) && old(enc.end) == cs[i].source then enc.PrefixLen() <= old(enc.PrefixLen()) + cs[i].n
            else enc.PrefixLen() == cs[i].n && |d| <= old(enc.PrefixLen())
    ensures r <= packed.Length && r <= cs[i].maxOutputSize
    ensures r > 0 ==> DecodesAfter(packed[..r], d, mem[cs[i].source..cs[i].source + cs[i].n])
    ensures r == 0 ==> cs[i].maxOutputSize < CompressBound(cs[i].n)
    ensures HcPacked(mem, cs, i, old(enc.compressionLevel), packed[..r], r)
  {
    hide IsSuffix, DecodesAfter, HcStream.Valid, HcStream.In, HcStream.History, Content, HcStream.StaysPadded,
        HcStream.PaddedIn, ParamsFor, Exactly, Writes, HcStream.KeptFor, HcReach, HcBefore, HcPacked, HcStream.Begun,
        Clamped, HcAt, Placed, Reloaded, ReloadedSpan;
    BegunIs(enc, cs, i);
    ghost var level, history := enc.compressionLevel, enc.History(mem);
    ghost var p, span := HcBefore(cs, i).parts, HcBefore(cs, i).span;
    NoFavor(enc, cs, i);
    ghost var k, t;
    r, d, k, t := enc.CompressContinue(mem, cs[i].source, cs[i].n, packed, cs[i].maxOutputSize);
    SuffixTrans(d, history, Content(mem, cs, i));
    SameLevel(k, t, enc.compressionLevel, level, cs[i].maxOutputSize, packed[..], r);
    WritesPart(k, t, level, cs[i].maxOutputSize, packed[..], r);
    PackedSo(mem, cs, i, level, packed[..r], r, d, k, t);
    HcMoves(enc, cs, i, p, span);
  }

  lemma {:induction false} NoFavor(enc: HcStream, cs: seq<Chunk>, i: nat)
    requires i <= |cs| && HcAt(enc, cs, i)
    ensures !enc.favorDecSpeed
  {
  }

  /** Compresses block `i` with LZ4_compress_HC_continue and decodes it with LZ4_decompress_safe_continue. */
  method HcStep(mem: seq<byte>, cs: seq<Chunk>, i: nat, enc: HcStream, dec: StreamDecoder, packed: array<byte>,
      out: array<byte>)
      returns (ok: bool, r: nat)
    requires Layout(cs, |mem|, out.Length) && (SwapsChains(enc.compressionLevel) ==> Padded(cs, |mem|))
    requires i < |cs| && packed != out && cs[i].maxOutputSize <= packed.Length
    requires HcLinked(mem, out[..], cs, i, enc, dec) && Restored(mem, out[..], cs, i) && HcAt(enc, cs, i)
    modifies enc, enc.tables`nextToUpdate, enc.tables.hashTable, enc.tables.chainTable, dec, packed, out
    ensures forall x :: 0 <= x <= i ==> cs[x].source + cs[x].n <= |mem|
    ensures Clamped(enc.compressionLevel) == old(Clamped(enc.compressionLevel))
    ensures r <= packed.Length && (r > 0 <==> ok)
    ensures HcPacked(mem, cs, i, old(enc.compressionLevel), packed[..r], r) && HcAt(enc, cs, i + 1)
    ensures !ok ==> cs[i].maxOutputSize < CompressBound(cs[i].n) && Restored(mem, out[..], cs, i)
    ensures ok ==> HcLinked(mem, out[..], cs, i + 1, enc, dec) && Restored(mem, out[..], cs, i + 1)
  {
    hide IsSuffix, DecodesAfter, FromSources, FromDests, Restored, HcStream.Valid, HcStream.In, HcStream.History, Sees,
        Content, DecLinked, Layout, Padded, Remembers, HcStream.PaddedIn, ParamsFor, HcReach, HcPacked, Clamped, HcAt;
    var c := cs[i];
    ContentNext(mem, cs, i, out.Length);
    ghost var h, content, b0 := Content(mem, cs, i), mem[c.source..c.source + c.n], out[..];
    ghost var started, end, prefix, history := enc.started, enc.end, enc.PrefixLen(), enc.History(mem);
    ghost var d0 := StateOf(dec);
    NothingBefore(enc, mem);
    ghost var d;
    if SwapsChains(enc.compressionLevel) {
      PaddedNext(mem, cs, i);
    }
    r, d := EncodeBlock(mem, cs, i, enc, packed);
    if r == 0 {
      return false, r;
    }
    SuffixTrans(d, history, h);
    SuffixShort(d, history);
    SeesEnough(b0, |mem|, cs, i, h, d0, started, end, prefix, |history|, |d|);
    DecodeNext(mem, cs, i, packed[..r], dec, out, h, d);
    StillRemembers(b0, out[..], |mem|, cs, i, h, content, d0, started, end, prefix, |history|, |d|, enc.PrefixLen());
    SuffixAppend(d, h, content);
    return true, r;
  }

  lemma {:induction false} WritesPart(k: Call, t: Tables, level: int, room: int, b: seq<byte>, r: nat)
    requires Writes(k, t, level, false, room, b, r)
    ensures r <= |b| || r == 0
    ensures r <= |b| ==> Writes(k, t, level, false, room, b[..r], r)
  {
    hide LevelPlan;
  }

  lemma {:induction false} PaddedNext(mem: seq<byte>, cs: seq<Chunk>, i: nat)
    requires Padded(cs, |mem|) && i < |cs|
    ensures i > 0 ==> cs[i - 1].source + cs[i - 1].n + 3 <= |mem|
  {
  }

  lemma {:induction false} ContentNext(mem: seq<byte>, cs: seq<Chunk>, i: nat, outSize: nat)
    requires Layout(cs, |mem|, outSize) && i < |cs|
    ensures ChunkOk(cs[i], |mem|, outSize)
    ensures forall x :: 0 <= x < i + 1 ==> cs[x].source + cs[x].n <= |mem|
    ensures Content(mem, cs, i + 1) == Content(mem, cs, i) + mem[cs[i].source..cs[i].source + cs[i].n]
  {
  }

  lemma {:induction false} NothingBefore(enc: HcStream, mem: seq<byte>)
    requires enc.In(mem)
    ensures !enc.started ==> enc.PrefixLen() == 0 && enc.History(mem) == []
  {
  }

  lemma {:induction false} HcLinkedAtStart(mem: seq<byte>, b: seq<byte>, cs: seq<Chunk>, enc: HcStream,
      dec: StreamDecoder)
    requires enc.Valid() && !enc.started
    requires dec.externalDict == 0 == dec.extDictSize && dec.prefixEnd == 0 == dec.prefixSize
    ensures HcLinked(mem, b, cs, 0, enc, dec) && Restored(mem, b, cs, 0)
  {
  }

  lemma {:induction false} PackedLevel(mem: seq<byte>, cs: seq<Chunk>, i: nat, level: int, level': int, b: seq<byte>,
                                       r: nat)
    requires i < |cs| && forall x :: 0 <= x < i ==> cs[x].source + cs[x].n <= |mem|
    requires Clamped(level) == Clamped(level')
    ensures HcPacked(mem, cs, i, level, b, r) ==> HcPacked(mem, cs, i, level', b, r)
  {
    hide IsSuffix, Exactly, Writes, HcReach, Content, Clamped;
    if HcPacked(mem, cs, i, level, b, r) {
      var d, k, t :|
        && |d| == HcReach(cs, i) && IsSuffix(d, Content(mem, cs, i))
        && Exactly(k, t, d, mem, cs[i].source, cs[i].n) && Writes(k, t, level, false, cs[i].maxOutputSize, b, r);
      SameLevel(k, t, level, level', cs[i].maxOutputSize, b, r);
      PackedSo(mem, cs, i, level', b, r, d, k, t);
    }
  }

  /**
    A whole run at any level: every block that was compressed is restored. The run ends early only at a block with
    less room than LZ4_COMPRESSBOUND asks for. Levels that swap chains may read three bytes behind each block.
  */
  method HcRun(mem: seq<byte>, cs: seq<Chunk>, level: int, packed: array<byte>, out: array<byte>)
      returns (done: nat, ghost blocks: seq<seq<byte>>)
    requires Layout(cs, |mem|, out.Length) && (SwapsChains(level) ==> Padded(cs, |mem|)) && packed != out
    requires forall i :: 0 <= i < |cs| ==> cs[i].maxOutputSize <= packed.Length
    modifies packed, out
    ensures done <= |cs| && Restored(mem, out[..], cs, done)
    ensures done < |cs| ==> cs[done].maxOutputSize < CompressBound(cs[done].n)
    ensures forall x :: 0 <= x < |cs| ==> cs[x].source + cs[x].n <= |mem|
    ensures |blocks| == done
            && forall i :: 0 <= i < done ==> blocks[i] != [] && HcPacked(mem, cs, i, level, blocks[i], |blocks[i]|)
    ensures done < |cs| ==> HcPacked(mem, cs, done, level, [], 0)
  {
    hide Layout, Padded, HcLinked, Restored, ParamsFor, HcPacked, HcAfter;
    SourcesInside(cs, |mem|, out.Length);
    var enc := new HcStream();
    enc.SetCompressionLevel(level);
    blocks := [];
    var dec := new StreamDecoder();
    HcLinkedAtStart(mem, out[..], cs, enc, dec);
    done := 0;
    while done < |cs|
      invariant done <= |cs|
      invariant fresh(enc) && fresh(enc.tables) && fresh(enc.tables.hashTable) && fresh(enc.tables.chainTable)
                && fresh(dec)
      invariant forall x :: 0 <= x < done ==> cs[x].source + cs[x].n <= |mem|
      invariant Clamped(enc.compressionLevel) == Clamped(level) && HcAt(enc, cs, done)
      invariant |blocks| == done
                && forall i :: 0 <= i < done ==> blocks[i] != [] && HcPacked(mem, cs, i, level, blocks[i], |blocks[i]|)
      invariant HcLinked(mem, out[..], cs, done, enc, dec) && Restored(mem, out[..], cs, done)
    {
      ghost var current := enc.compressionLevel;
      var ok, r := HcStep(mem, cs, done, enc, dec, packed, out);
      PackedLevel(mem, cs, done, current, level, packed[..r], r);
      if !ok {
        assert packed[..r] == [];
        return;
      }
      blocks := blocks + [packed[..r]];
      LayoutAt(cs, |mem|, out.Length, done);
      done := done + 1;
    }
  }
}
