/**
  Whole runs of streaming compression and decompression: for every number of blocks and every placement of
  them in memory, as long as the decoder starts a new segment only where the encoder does.
*/
module Lz4StreamRun {
  import opened Lz4Defs
  import opened Lz4Copy
  import Lz4Decoder
  import Lz4FastTable
  import Lz4Encode
  import Lz4FastPlan
  import opened Lz4Stream
  import opened Lz4StreamHistory
  import opened Lz4StreamDecode

  predicate ChunkOk(c: Chunk, memSize: nat, outSize: nat)
  {
    && 0 < c.source && c.source + c.n <= memSize && c.n <= MAX_INPUT_SIZE
    && c.n <= c.capacity <= INT_MAX && c.dest + c.capacity <= outSize
    && c.maxOutputSize <= INT_MAX && Lz4FastTable.AccelerationOk(c.acceleration, c.n)
  }

  /** Later blocks start outside earlier input and are decoded outside earlier output. */
  predicate Apart(earlier: Chunk, later: Chunk)
  {
    && !(earlier.source <= later.source < earlier.source + earlier.n)
    && (later.dest + later.capacity <= earlier.dest || earlier.dest + earlier.n <= later.dest)
  }

  /** The decoder may only leave its segment where the encoder leaves its own. */
  predicate Follows(earlier: Chunk, later: Chunk)
  {
    later.dest == earlier.dest + earlier.n || later.source != earlier.source + earlier.n
  }

  ghost predicate Layout(cs: seq<Chunk>, memSize: nat, outSize: nat)
  {
    && (forall i :: 0 <= i < |cs| ==> ChunkOk(cs[i], memSize, outSize))
    && (forall i, k :: 0 <= k < i < |cs| ==> Apart(cs[k], cs[i]))
    && (forall i, k :: 0 <= k && i == k + 1 < |cs| ==> Follows(cs[k], cs[i]))
  }

  /** Everything the first `i` blocks hold. */
  function Content(mem: seq<byte>, cs: seq<Chunk>, i: nat): seq<byte>
    requires i <= |cs| && forall x :: 0 <= x < i ==> cs[x].source + cs[x].n <= |mem|
  {
    if i == 0 then [] else Content(mem, cs, i - 1) + mem[cs[i - 1].source..cs[i - 1].source + cs[i - 1].n]
  }

  predicate InSource(c: Chunk, a: nat)
  {
    c.source <= a < c.source + c.n
  }

  predicate InDest(c: Chunk, a: nat)
  {
    c.dest <= a < c.dest + c.n
  }

  ghost predicate HasSource(cs: seq<Chunk>, i: nat, a: nat)
    requires i <= |cs|
  {
    exists k :: 0 <= k < i && InSource(cs[k], a)
  }

  ghost predicate HasDest(cs: seq<Chunk>, i: nat, a: nat)
    requires i <= |cs|
  {
    exists k :: 0 <= k < i && InDest(cs[k], a)
  }

  /** A stretch of the input memory lies in the first `i` blocks. */
  ghost predicate FromSources(cs: seq<Chunk>, i: nat, lo: nat, hi: nat)
    requires i <= |cs|
  {
    forall a :: lo <= a < hi ==> HasSource(cs, i, a)
  }

  /** A stretch of the output memory was decoded from the first `i` blocks. */
  ghost predicate FromDests(cs: seq<Chunk>, i: nat, lo: nat, hi: nat)
    requires i <= |cs|
  {
    forall a :: lo <= a < hi ==> HasDest(cs, i, a)
  }

  /** The encoder's dictionary ends where the last block did and holds the end of the content so far. */
  ghost predicate EncLinked(mem: seq<byte>, cs: seq<Chunk>, i: nat, h: seq<byte>, dictionary: nat, dictSize: nat)
    requires i <= |cs|
  {
    && dictionary + dictSize <= |mem|
    && IsSuffix(mem[dictionary..dictionary + dictSize], h)
    && FromSources(cs, i, dictionary, dictionary + dictSize)
    && (if i == 0 then dictSize == 0 == dictionary else dictionary + dictSize == cs[i - 1].source + cs[i - 1].n)
  }

  /** The decoder's prefix is the end of the content so far; both stretches hold decoded bytes. */
  ghost predicate DecLinked(b: seq<byte>, cs: seq<Chunk>, i: nat, h: seq<byte>, ext: nat, extSize: nat,
      prefixEnd: nat, prefixSize: nat)
    requires i <= |cs|
  {
    && prefixSize <= prefixEnd <= |b| && ext + extSize <= |b|
    && IsSuffix(b[prefixEnd - prefixSize..prefixEnd], h)
    && FromDests(cs, i, prefixEnd - prefixSize, prefixEnd) && FromDests(cs, i, ext, ext + extSize)
    && (i == 0 || prefixSize == 0 ==> prefixSize == 0 == extSize)
  }

  /** Both stretches together are the end of the content so far. */
  ghost predicate PairLinked(b: seq<byte>, h: seq<byte>, ext: nat, extSize: nat, prefixEnd: nat, prefixSize: nat)
  {
    && prefixSize <= prefixEnd <= |b| && ext + extSize <= |b|
    && IsSuffix(b[ext..ext + extSize] + b[prefixEnd - prefixSize..prefixEnd], h)
  }

  /** The prefix ends where the last block was decoded to. An empty block elsewhere leaves it where it was. */
  predicate AtEnd(cs: seq<Chunk>, i: nat, prefixEnd: nat)
    requires i <= |cs|
  {
    0 < i && prefixEnd == cs[i - 1].dest + cs[i - 1].n
  }

  // ---------------------------------------------------------------- the encoder's side

  lemma {:induction false} SourceClear(mem: seq<byte>, outSize: nat, cs: seq<Chunk>, i: nat, h: seq<byte>,
      dictionary: nat, dictSize: nat)
    requires Layout(cs, |mem|, outSize) && i < |cs| && EncLinked(mem, cs, i, h, dictionary, dictSize)
    ensures cs[i].source < dictionary || dictionary + dictSize <= cs[i].source
  {
    var s := cs[i].source;
    forall k | 0 <= k < i
      ensures !InSource(cs[k], s)
    {
      assert Apart(cs[k], cs[i]);
    }
    assert !HasSource(cs, i, s);
  }

  lemma {:induction false} FromSourcesStep(cs: seq<Chunk>, i: nat, lo: nat, hi: nat, lo': nat, hi': nat)
    requires i < |cs| && FromSources(cs, i, lo, hi)
    requires hi' == cs[i].source + cs[i].n
    requires cs[i].source <= lo' || (hi == cs[i].source && lo <= lo')
    ensures FromSources(cs, i + 1, lo', hi')
  {
    var i' := i + 1;
    forall a | lo' <= a < hi'
      ensures HasSource(cs, i', a)
    {
      if cs[i].source <= a {
        assert InSource(cs[i], a);
      } else {
        assert HasSource(cs, i, a);
        var k :| 0 <= k < i && InSource(cs[k], a);
        assert InSource(cs[k], a);
      }
    }
  }

  // ---------------------------------------------------------------- the decoder's side

  lemma {:induction false} FromDestsStep(cs: seq<Chunk>, i: nat, lo: nat, hi: nat, lo': nat, hi': nat)
    requires i < |cs| && FromDests(cs, i, lo, hi)
    requires hi' == cs[i].dest + cs[i].n
    requires cs[i].dest <= lo' || (hi == cs[i].dest && lo <= lo')
    ensures FromDests(cs, i + 1, lo', hi')
  {
    var i' := i + 1;
    forall a | lo' <= a < hi'
      ensures HasDest(cs, i', a)
    {
      if cs[i].dest <= a {
        assert InDest(cs[i], a);
      } else {
        assert HasDest(cs, i, a);
        var k :| 0 <= k < i && InDest(cs[k], a);
        assert InDest(cs[k], a);
      }
    }
  }

  lemma {:induction false} FromDestsLater(cs: seq<Chunk>, i: nat, lo: nat, hi: nat)
    requires i < |cs| && FromDests(cs, i, lo, hi)
    ensures FromDests(cs, i + 1, lo, hi)
  {
    var i' := i + 1;
    forall a | lo <= a < hi
      ensures HasDest(cs, i', a)
    {
      assert HasDest(cs, i, a);
      var k :| 0 <= k < i && InDest(cs[k], a);
      assert InDest(cs[k], a);
    }
  }

  /** What was decoded before is not touched by decoding the next block. */
  lemma {:induction false} DecodedKept(b: seq<byte>, b': seq<byte>, memSize: nat, cs: seq<Chunk>, i: nat, lo: nat,
      hi: nat)
    requires Layout(cs, memSize, |b|) && i < |cs| && FromDests(cs, i, lo, hi) && hi <= |b| && lo <= hi
    requires Framed(b, b', cs[i].dest, cs[i].dest + cs[i].capacity)
    ensures b'[lo..hi] == b[lo..hi]
  {
    forall a | lo <= a < hi
      ensures b'[a] == b[a]
    {
      assert HasDest(cs, i, a);
      var k :| 0 <= k < i && InDest(cs[k], a);
      assert Apart(cs[k], cs[i]);
    }
  }

  lemma {:induction false} SuffixTrans(a: seq<byte>, b: seq<byte>, c: seq<byte>)
    requires IsSuffix(a, b) && IsSuffix(b, c)
    ensures IsSuffix(a, c)
  {
    assert c[|c| - |a|..] == c[|c| - |b|..][|b| - |a|..];
  }

  lemma {:induction false} SuffixAppend(a: seq<byte>, b: seq<byte>, x: seq<byte>)
    requires IsSuffix(a, b)
    ensures IsSuffix(a + x, b + x)
  {
    assert (b + x)[|b + x| - |a + x|..] == b[|b| - |a|..] + x;
  }

  /** After a block the encoder is linked to the longer content. */
  lemma {:induction false} EncStep(mem: seq<byte>, outSize: nat, cs: seq<Chunk>, i: nat, h: seq<byte>, dict: nat,
      size: nat, d: seq<byte>, dict': nat, size': nat)
    requires Layout(cs, |mem|, outSize) && i < |cs| && EncLinked(mem, cs, i, h, dict, size)
    requires cs[i].source + cs[i].n <= |mem| && dict' + size' == cs[i].source + cs[i].n
    requires IsSuffix(d, mem[dict..dict + size])
    requires IsSuffix(mem[dict'..dict' + size'], d + mem[cs[i].source..cs[i].source + cs[i].n])
    requires if dict + size == cs[i].source then size' <= size + cs[i].n else size' == cs[i].n
    ensures EncLinked(mem, cs, i + 1, h + mem[cs[i].source..cs[i].source + cs[i].n], dict', size')
  {
    var c := mem[cs[i].source..cs[i].source + cs[i].n];
    SuffixTrans(d, mem[dict..dict + size], h);
    SuffixAppend(d, h, c);
    SuffixTrans(mem[dict'..dict' + size'], d + c, h + c);
    FromSourcesStep(cs, i, dict, dict + size, dict', dict' + size');
  }

  /** What a stretch of the output becomes when `n` bytes are decoded to `dest`: the decoder's new state. */
  datatype DecState = DecState(ext: nat, extSize: nat, pEnd: nat, pSize: nat)

  function After(d: DecState, dest: nat, n: nat): DecState
    requires d.pSize <= d.pEnd
  {
    var d' := if d.pSize == 0 || d.pEnd == dest then d else d.(ext := d.pEnd - d.pSize, extSize := d.pSize);
    if n == 0 then d'
    else d'.(pEnd := dest + n, pSize := (if d.pSize > 0 && d.pEnd == dest then d.pSize else 0) + n)
  }

  /** After a block the decoder is linked to the longer content, whether it starts, continues or switches segments. */
  lemma {:induction false} DecStep(b: seq<byte>, b': seq<byte>, memSize: nat, cs: seq<Chunk>, i: nat, h: seq<byte>,
      c: seq<byte>, ext: nat, extSize: nat, pEnd: nat, pSize: nat)
    requires Layout(cs, memSize, |b|) && i < |cs| && DecLinked(b, cs, i, h, ext, extSize, pEnd, pSize)
    requires Framed(b, b', cs[i].dest, cs[i].dest + cs[i].capacity) && cs[i].dest + cs[i].n <= |b|
    requires b'[cs[i].dest..cs[i].dest + cs[i].n] == c
    ensures var d := After(DecState(ext, extSize, pEnd, pSize), cs[i].dest, cs[i].n);
            && DecLinked(b', cs, i + 1, h + c, d.ext, d.extSize, d.pEnd, d.pSize)
  {
    hide IsSuffix;
    var d := DecState(ext, extSize, pEnd, pSize);
    var lo := pEnd - pSize;
    DecodedKept(b, b', memSize, cs, i, lo, pEnd);
    FromDestsLater(cs, i, lo, pEnd);
    FromDestsLater(cs, i, ext, ext + extSize);
    SuffixAppend(b[lo..pEnd], h, c);
    if cs[i].n == 0 {
      assert c == [] && h + c == h;
    } else if pSize > 0 && pEnd == cs[i].dest {
      FromDestsStep(cs, i, lo, pEnd, lo, cs[i].dest + cs[i].n);
      assert b'[lo..cs[i].dest + cs[i].n] == b[lo..pEnd] + c;
    } else {
      FromDestsStep(cs, i, pEnd, pEnd, cs[i].dest, cs[i].dest + cs[i].n);
      SuffixRight(h, c);
    }
  }

  /**
    The pair is the end of the content after every block that is not empty, unless it was not before and the block
    goes on in the same segment.
  */
  lemma {:induction false} PairStep(b: seq<byte>, b': seq<byte>, memSize: nat, cs: seq<Chunk>, i: nat, h: seq<byte>,
      c: seq<byte>, ext: nat, extSize: nat, pEnd: nat, pSize: nat)
    requires Layout(cs, memSize, |b|) && i < |cs| && DecLinked(b, cs, i, h, ext, extSize, pEnd, pSize)
    requires Framed(b, b', cs[i].dest, cs[i].dest + cs[i].capacity) && cs[i].dest + cs[i].n <= |b|
    requires b'[cs[i].dest..cs[i].dest + cs[i].n] == c
    requires if pSize > 0 && pEnd == cs[i].dest then PairLinked(b, h, ext, extSize, pEnd, pSize) else 0 < cs[i].n
    ensures var d := After(DecState(ext, extSize, pEnd, pSize), cs[i].dest, cs[i].n);
            PairLinked(b', h + c, d.ext, d.extSize, d.pEnd, d.pSize)
  {
    hide IsSuffix, FromDests, Layout;
    var lo, hi := pEnd - pSize, cs[i].dest + cs[i].n;
    var e, p := b[ext..ext + extSize], b[lo..pEnd];
    DecodedKept(b, b', memSize, cs, i, lo, pEnd);
    DecodedKept(b, b', memSize, cs, i, ext, ext + extSize);
    if pSize > 0 && pEnd == cs[i].dest {
      SuffixAppend(e + p, h, c);
      RolledOn(b', lo, pEnd, hi, e);
    } else if pSize == 0 {
      SuffixRight(h, c);
      assert b'[ext..ext + 0] + b'[cs[i].dest..hi] == c;
    } else {
      SuffixAppend(p, h, c);
      assert b'[lo..lo + pSize] + b'[cs[i].dest..hi] == p + c;
    }
  }

  lemma {:induction false} RolledOn(b: seq<byte>, lo: nat, mid: nat, hi: nat, e: seq<byte>)
    requires lo <= mid <= hi <= |b|
    ensures e + b[lo..hi] == (e + b[lo..mid]) + b[mid..hi]
  {
    assert b[lo..hi] == b[lo..mid] + b[mid..hi];
  }

  /** The decoder's state after the first `i` blocks. */
  function StateAfter(cs: seq<Chunk>, i: nat): (d: DecState)
    requires i <= |cs|
    ensures d.pSize <= d.pEnd && (d.pSize == 0 ==> d.extSize == 0)
  {
    if i == 0 then DecState(0, 0, 0, 0) else After(StateAfter(cs, i - 1), cs[i - 1].dest, cs[i - 1].n)
  }

  // ---------------------------------------------------------------- one block, then whole runs

  /**
    A decoder in this state, asked to decode to `dest`, can look back over `n` bytes of the content `h`: they are in its
    prefix, or it goes on where it is and both stretches are content.
  */
  ghost predicate Sees(b: seq<byte>, h: seq<byte>, d: DecState, dest: nat, n: nat)
  {
    n <= d.pSize || (d.pEnd == dest && PairLinked(b, h, d.ext, d.extSize, d.pEnd, d.pSize) && n <= d.extSize + d.pSize)
  }

  ghost function StateOf(dec: StreamDecoder): DecState
    reads dec
  {
    DecState(dec.externalDict, dec.extDictSize, dec.prefixEnd, dec.prefixSize)
  }

  /** The end of the view of the next call is the end of the content, and shows enough of it. */
  lemma {:induction false} ViewOfNext(dec: StreamDecoder, src: seq<byte>, b: seq<byte>, dest: nat, capacity: nat,
      h: seq<byte>, d: seq<byte>)
      returns (v: seq<byte>)
    requires dec.Valid(|b|) && dest + capacity <= |b| && |src| <= INT_MAX && capacity <= INT_MAX
    requires IsSuffix(dec.Prefix(b), h) && IsSuffix(d, h) && Sees(b, h, StateOf(dec), dest, |d|)
    ensures Lz4Decoder.ValidJob(dec.JobFor(src, b, dest, capacity), |b|)
    ensures IsSuffix(v, h) && Enough(v, d)
    ensures IsSuffix(v, Lz4Decoder.View(dec.JobFor(src, b, dest, capacity), b, dest))
  {
    hide IsSuffix, Lz4Decoder.View, StreamDecoder.JobFor, Lz4Decoder.ValidJob, StreamDecoder.External;
    ViewCases(dec, src, b, dest, capacity);
    SuffixShort(d, h);
    if dec.prefixSize == 0 || dec.prefixEnd != dest {
      v := dec.Prefix(b);
      NoPrefix(dec, b);
      SuffixRefl(v);
    } else if dec.prefixSize >= KB64 - 1 {
      v := LongTail(b, dest - dec.prefixSize, dest);
      SuffixTrans(v, dec.Prefix(b), h);
    } else if |d| <= dec.prefixSize {
      v := dec.Prefix(b);
      SuffixRight(dec.External(b), v);
    } else {
      v := dec.External(b) + dec.Prefix(b);
      SuffixRefl(v);
      PairIsSuffix(dec, b, h);
    }
  }

  lemma {:induction false} NoPrefix(dec: StreamDecoder, b: seq<byte>)
    requires dec.Valid(|b|)
    ensures dec.prefixSize == 0 ==> dec.Prefix(b) == []
  {
  }

  lemma {:induction false} PairIsSuffix(dec: StreamDecoder, b: seq<byte>, h: seq<byte>)
    requires dec.Valid(|b|)
    requires PairLinked(b, h, dec.externalDict, dec.extDictSize, dec.prefixEnd, dec.prefixSize)
    ensures IsSuffix(dec.External(b) + dec.Prefix(b), h)
    ensures |dec.External(b) + dec.Prefix(b)| == dec.extDictSize + dec.prefixSize
  {
  }

  /** The last 65535 bytes of a long prefix; the decoder may see one byte more, which need not be content. */
  lemma {:induction false} LongTail(b: seq<byte>, lo: nat, dest: nat) returns (v: seq<byte>)
    requires lo + DISTANCE_MAX <= dest <= |b|
    ensures IsSuffix(v, b[lo..dest]) && IsSuffix(v, b[Max(0, dest - KB64)..dest]) && |v| == DISTANCE_MAX
  {
    hide IsSuffix;
    v := b[dest - DISTANCE_MAX..dest];
    SliceSuffix(b, lo, dest - DISTANCE_MAX, dest);
    SliceSuffix(b, Max(0, dest - KB64), dest - DISTANCE_MAX, dest);
  }

  /** What the next call can see of the output memory. */
  ghost function NextView(dec: StreamDecoder, b: seq<byte>, dest: nat): seq<byte>
    requires dec.Valid(|b|) && dest <= |b|
    reads dec
  {
    if dec.prefixSize == 0 then []
    else if dec.prefixEnd != dest then dec.Prefix(b)
    else if dec.prefixSize >= KB64 - 1 then b[Max(0, dest - KB64)..dest]
    else dec.External(b) + dec.Prefix(b)
  }

  lemma {:induction false} ViewCases(dec: StreamDecoder, src: seq<byte>, b: seq<byte>, dest: nat, capacity: nat)
    requires dec.Valid(|b|) && dest + capacity <= |b| && |src| <= INT_MAX && capacity <= INT_MAX
    ensures var j := dec.JobFor(src, b, dest, capacity);
            && Lz4Decoder.ValidJob(j, |b|) && Lz4Decoder.LowIndex(j) <= dest
            && Lz4Decoder.View(j, b, dest) == NextView(dec, b, dest)
  {
    hide Lz4Decoder.View;
    var j := dec.JobFor(src, b, dest, capacity);
    if dec.prefixSize == 0 || dec.prefixEnd != dest {
      ViewWithoutPrefix(j, b, dest);
    } else if dec.prefixSize >= KB64 - 1 {
      ViewWithoutDict(j, b, dest);
    } else {
      ViewOfBoth(j, b, dest);
    }
  }

  lemma {:induction false} ViewWithoutPrefix(j: Lz4Decoder.Job, b: seq<byte>, dest: nat)
    requires j.low == dest <= |b|
    ensures Lz4Decoder.View(j, b, dest) == j.dict
  {
    assert b[dest..dest] == [];
  }

  lemma {:induction false} ViewWithoutDict(j: Lz4Decoder.Job, b: seq<byte>, dest: nat)
    requires j.dict == [] && Lz4Decoder.LowIndex(j) <= dest <= |b|
    ensures Lz4Decoder.View(j, b, dest) == b[Max(0, j.low)..dest]
  {
  }

  lemma {:induction false} ViewOfBoth(j: Lz4Decoder.Job, b: seq<byte>, dest: nat)
    requires 0 <= j.low <= dest <= |b|
    ensures Lz4Decoder.View(j, b, dest) == j.dict + b[j.low..dest]
  {
  }

  lemma {:induction false} SuffixRefl(a: seq<byte>)
    ensures IsSuffix(a, a)
  {
  }

  lemma {:induction false} SuffixRight(a: seq<byte>, b: seq<byte>)
    ensures IsSuffix(b, a + b)
  {
  }

  lemma {:induction false} SliceSuffix(b: seq<byte>, lo: nat, mid: nat, hi: nat)
    requires lo <= mid <= hi <= |b|
    ensures IsSuffix(b[mid..hi], b[lo..hi])
  {
  }

  /** Both sides are linked to the content of the first `i` blocks, and the decoder remembers at least as much. */
  ghost predicate Linked(mem: seq<byte>, b: seq<byte>, cs: seq<Chunk>, i: nat, enc: Stream, dec: StreamDecoder)
    requires i <= |cs| && forall x :: 0 <= x < i ==> cs[x].source + cs[x].n <= |mem|
    reads enc, enc.hashTable, dec
  {
    && enc.Valid() && !enc.dirty && enc.tableType != Lz4FastTable.ByU16 && dec.Valid(|b|)
    && EncLinked(mem, cs, i, Content(mem, cs, i), enc.dictionary, enc.dictSize)
    && DecLinked(b, cs, i, Content(mem, cs, i), dec.externalDict, dec.extDictSize, dec.prefixEnd, dec.prefixSize)
    && enc.dictSize <= dec.prefixSize && (enc.dictSize == 0 || AtEnd(cs, i, dec.prefixEnd))
    && StateOf(dec) == StateAfter(cs, i)
  }

  /** The first `i` blocks stand decoded where they belong. */
  ghost predicate Restored(mem: seq<byte>, b: seq<byte>, cs: seq<Chunk>, i: nat)
    requires i <= |cs|
  {
    forall k :: 0 <= k < i ==>
      cs[k].source + cs[k].n <= |mem| && cs[k].dest + cs[k].n <= |b|
      && b[cs[k].dest..cs[k].dest + cs[k].n] == mem[cs[k].source..cs[k].source + cs[k].n]
  }

  lemma {:induction false} RestoredStep(mem: seq<byte>, b: seq<byte>, b': seq<byte>, cs: seq<Chunk>, i: nat)
    requires Layout(cs, |mem|, |b|) && i < |cs| && Restored(mem, b, cs, i)
    requires Framed(b, b', cs[i].dest, cs[i].dest + cs[i].capacity) && cs[i].source + cs[i].n <= |mem|
    requires cs[i].dest + cs[i].n <= |b|
             && b'[cs[i].dest..cs[i].dest + cs[i].n] == mem[cs[i].source..cs[i].source + cs[i].n]
    ensures Restored(mem, b', cs, i + 1)
  {
    forall k | 0 <= k < i
      ensures b'[cs[k].dest..cs[k].dest + cs[k].n] == b[cs[k].dest..cs[k].dest + cs[k].n]
    {
      assert Apart(cs[k], cs[i]);
    }
  }

  /** The decoder's prefix still covers what the encoder may refer to. */
  lemma {:induction false} StillEnough(mem: seq<byte>, b: seq<byte>, cs: seq<Chunk>, i: nat, h: seq<byte>, dict: nat,
      size: nat, d: DecState, size': nat)
    requires Layout(cs, |mem|, |b|) && i < |cs| && size <= d.pSize && (size == 0 || AtEnd(cs, i, d.pEnd))
    requires EncLinked(mem, cs, i, h, dict, size) && DecLinked(b, cs, i, h, d.ext, d.extSize, d.pEnd, d.pSize)
    requires if dict + size == cs[i].source then size' <= size + cs[i].n else size' == cs[i].n
    ensures var d' := After(d, cs[i].dest, cs[i].n);
            size' <= d'.pSize && (size' == 0 || AtEnd(cs, i + 1, d'.pEnd))
  {
    if i > 0 {
      assert Follows(cs[i - 1], cs[i]);
    }
  }

  lemma {:induction false} SuffixShort(a: seq<byte>, b: seq<byte>)
    requires IsSuffix(a, b)
    ensures |a| <= |b|
  {
  }

  /** One call of LZ4_decompress_safe_continue on a block made with history `d`. */
  method DecodeCall(src: seq<byte>, dec: StreamDecoder, out: array<byte>, dest: nat, capacity: nat,
                    ghost h: seq<byte>, ghost d: seq<byte>, ghost content: seq<byte>)
    requires dec.Valid(out.Length) && dest + capacity <= out.Length && |src| <= INT_MAX
             && capacity <= INT_MAX && dec.DictApart(dest, capacity)
    requires IsSuffix(dec.Prefix(out[..]), h) && IsSuffix(d, h) && Sees(out[..], h, StateOf(dec), dest, |d|)
    requires DecodesAfter(src, d, content) && |content| <= capacity
    modifies dec, out
    ensures dest + |content| <= out.Length && out[dest..dest + |content|] == content
    ensures Framed(old(out[..]), out[..], dest, dest + capacity)
    ensures dec.Valid(out.Length) && old(dec.prefixSize <= dec.prefixEnd)
    ensures StateOf(dec) == After(old(StateOf(dec)), dest, |content|)
  {
    hide IsSuffix, DecodesAfter, StreamDecoder.JobFor, Lz4Decoder.Outcome, Lz4Decoder.View, Sees, StreamDecoder.Prefix;
    ghost var b0 := out[..];
    ghost var v := ViewOfNext(dec, src, b0, dest, capacity, h, d);
    ghost var job := dec.JobFor(src, b0, dest, capacity);
    JobShape(dec, src, b0, dest, capacity);
    var r := dec.DecompressSafeContinue(src, out, dest, capacity);
    OutcomeRestores(job, b0, out[..], r, h, v, d, content);
    OutcomeFramed(job, b0, out[..], r);
    assert content[..|content|] == content;
  }

  lemma {:induction false} OutcomeFramed(j: Lz4Decoder.Job, b0: seq<byte>, b: seq<byte>, r: int)
    requires Lz4Decoder.ValidJob(j, |b0|) && Lz4Decoder.Outcome(j, b0, b, r)
    ensures Framed(b0, b, j.start, j.oend)
  {
  }

  /** Decoded bytes are apart from where the next block is decoded to. */
  lemma {:induction false} DestsApart(cs: seq<Chunk>, memSize: nat, outSize: nat, i: nat, lo: nat, hi: nat)
    requires Layout(cs, memSize, outSize) && i < |cs| && FromDests(cs, i, lo, hi)
    ensures Disjoint(lo, hi, cs[i].dest, cs[i].dest + cs[i].capacity)
  {
    forall a | cs[i].dest <= a < cs[i].dest + cs[i].capacity
      ensures !HasDest(cs, i, a)
    {
      forall k | 0 <= k < i
        ensures !InDest(cs[k], a)
      {
        assert Apart(cs[k], cs[i]);
      }
    }
    var a := Max(lo, cs[i].dest);
    assert lo <= a < hi ==> HasDest(cs, i, a);
  }

  /** Decodes block `i`: the decoder is linked to the longer content. */
  method DecodeNext(mem: seq<byte>, cs: seq<Chunk>, i: nat, src: seq<byte>, dec: StreamDecoder, out: array<byte>,
                    ghost h: seq<byte>, ghost d: seq<byte>)
    requires Layout(cs, |mem|, out.Length) && i < |cs| && ChunkOk(cs[i], |mem|, out.Length) && |src| <= INT_MAX
    requires dec.Valid(out.Length) && Restored(mem, out[..], cs, i)
    requires DecLinked(out[..], cs, i, h, dec.externalDict, dec.extDictSize, dec.prefixEnd, dec.prefixSize)
    requires IsSuffix(d, h) && Sees(out[..], h, StateOf(dec), cs[i].dest, |d|)
    requires DecodesAfter(src, d, mem[cs[i].source..cs[i].source + cs[i].n])
    modifies dec, out
    ensures dec.Valid(out.Length) && Restored(mem, out[..], cs, i + 1)
    ensures old(dec.prefixSize <= dec.prefixEnd) && StateOf(dec) == After(old(StateOf(dec)), cs[i].dest, cs[i].n)
    ensures Framed(old(out[..]), out[..], cs[i].dest, cs[i].dest + cs[i].capacity) && cs[i].dest + cs[i].n <= out.Length
    ensures out[cs[i].dest..cs[i].dest + cs[i].n] == mem[cs[i].source..cs[i].source + cs[i].n]
    ensures DecLinked(out[..], cs, i + 1, h + mem[cs[i].source..cs[i].source + cs[i].n],
                      dec.externalDict, dec.extDictSize, dec.prefixEnd, dec.prefixSize)
  {
    hide IsSuffix, DecodesAfter, FromSources, FromDests, Restored, Layout, Apart, Follows, Sees;
    var c := cs[i];
    ghost var b0 := out[..];
    ghost var content := mem[c.source..c.source + c.n];
    ghost var ext, extSize, pEnd, pSize := dec.externalDict, dec.extDictSize, dec.prefixEnd, dec.prefixSize;
    DestsApart(cs, |mem|, out.Length, i, pEnd - pSize, pEnd);
    DestsApart(cs, |mem|, out.Length, i, ext, ext + extSize);
    DecodeCall(src, dec, out, c.dest, c.capacity, h, d, content);
    DecStep(b0, out[..], |mem|, cs, i, h, content, ext, extSize, pEnd, pSize);
    RestoredStep(mem, b0, out[..], cs, i);
  }

  lemma {:induction false} JobShape(dec: StreamDecoder, src: seq<byte>, b: seq<byte>, dest: nat, capacity: nat)
    requires dec.Valid(|b|) && dest + capacity <= |b|
    ensures var j := dec.JobFor(src, b, dest, capacity);
            j.src == src && j.start == dest && j.oend == dest + capacity && !j.partial
  {
  }

  ghost function EncOf(enc: Stream): EncState
    reads enc, enc.hashTable
  {
    EncState(enc.currentOffset, enc.dictionary, enc.dictSize, enc.hashTable[..])
  }

  lemma {:induction false} TableLength(enc: Stream)
    requires enc.Valid()
    ensures EncOf(enc).Valid()
  {
  }

  /** What one call makes of the encoder's state, if it succeeds. */
  lemma {:induction false} CallIsNext(mem: seq<byte>, e: EncState, c: Chunk, b: seq<byte>, t': seq<nat>,
                                      r: nat, e': EncState)
    requires e.Valid() && r <= |b|
    requires var s := Kept(e, c);
             && WritesPlan(BlockOf(mem, e, c), s.table, c.maxOutputSize, b, t', r)
             && (r > 0 ==>
                   && e'.offset == s.offset + c.n && e'.table == t' && e'.End() == c.source + c.n
                   && e'.dictSize == (if e.End() == c.source then s.dictSize else 0) + c.n)
    ensures BlockOf(mem, e, c).Valid() && (r == 0 <==> c.maxOutputSize < PackedSize(mem, e, c))
    ensures r > 0 ==> b[..r] == Packed(mem, e, c) && e' == Next(mem, e, c)
  {
    hide Lz4FastPlan.PlanOf, Lz4FastTable.Block.Valid, RebasedTable, RebasedOffset, Lz4Encode.Finished;
    if e.End() == c.source {
      AdjoiningKeeps(e, c);
    }
  }

  /** Compresses block `i`: the encoder is linked to the longer content, and used no more than its dictionary. */
  method EncodeNext(mem: seq<byte>, cs: seq<Chunk>, i: nat, enc: Stream, packed: array<byte>, ghost outSize: nat,
                    ghost h: seq<byte>) returns (r: nat, ghost d: seq<byte>)
    requires Layout(cs, |mem|, outSize) && i < |cs| && ChunkOk(cs[i], |mem|, outSize)
             && cs[i].maxOutputSize <= packed.Length
    requires enc.Valid() && !enc.dirty && enc.tableType != Lz4FastTable.ByU16
    requires EncLinked(mem, cs, i, h, enc.dictionary, enc.dictSize)
    modifies enc, enc.hashTable, packed
    ensures enc.Valid() && !enc.dirty && enc.tableType != Lz4FastTable.ByU16
    ensures r == 0 ==> cs[i].maxOutputSize < CompressBound(cs[i].n)
    ensures BlockOf(mem, old(EncOf(enc)), cs[i]).Valid()
    ensures r == 0 <==> cs[i].maxOutputSize < PackedSize(mem, old(EncOf(enc)), cs[i])
    ensures r > 0 ==>
              && r <= packed.Length && packed[..r] == Packed(mem, old(EncOf(enc)), cs[i])
              && EncOf(enc) == Next(mem, old(EncOf(enc)), cs[i]) && |d| == Kept(old(EncOf(enc)), cs[i]).dictSize
    ensures r > 0 ==>
              && r <= cs[i].maxOutputSize && IsSuffix(d, h) && |d| <= old(enc.dictSize)
              && DecodesAfter(packed[..r], d, mem[cs[i].source..cs[i].source + cs[i].n])
              && EncLinked(mem, cs, i + 1, h + mem[cs[i].source..cs[i].source + cs[i].n], enc.dictionary, enc.dictSize)
    ensures r > 0 ==> if old(enc.dictionary + enc.dictSize) == cs[i].source
                      then enc.dictSize <= old(enc.dictSize) + cs[i].n else enc.dictSize == cs[i].n
  {
    hide IsSuffix, DecodesAfter, FromSources, Stream.Valid, Layout, Lz4FastTable.CounterFits, WritesPlan, KeptSize,
        KeptAt, RebasedTable, RebasedOffset, StreamBlock, Next, Packed, PackedSize, Lz4FastTable.Block.Valid;
    var c := cs[i];
    ghost var e := EncOf(enc);
    TableLength(enc);
    ghost var dict, size := enc.dictionary, enc.dictSize;
    SourceClear(mem, outSize, cs, i, h, dict, size);
    r, d := enc.CompressFastContinue(mem, c.source, c.n, packed, c.maxOutputSize, c.acceleration);
    assert |enc.Dict(mem)| == enc.dictSize;
    CallIsNext(mem, e, c, packed[..], enc.hashTable[..], r, EncOf(enc));
    if r > 0 {
      SuffixTrans(d, mem[dict..dict + size], h);
      SuffixShort(d, mem[dict..dict + size]);
      EncStep(mem, outSize, cs, i, h, dict, size, d, enc.dictionary, enc.dictSize);
    }
  }

  /** Compresses block `i` with LZ4_compress_fast_continue and decodes it with LZ4_decompress_safe_continue. */
  method Step(mem: seq<byte>, cs: seq<Chunk>, i: nat, enc: Stream, dec: StreamDecoder, packed: array<byte>,
      out: array<byte>, ghost e0: EncState)
      returns (ok: bool, ghost block: seq<byte>)
    requires Layout(cs, |mem|, out.Length) && i < |cs| && packed != out && cs[i].maxOutputSize <= packed.Length
    requires Linked(mem, out[..], cs, i, enc, dec) && Restored(mem, out[..], cs, i)
    requires e0.Valid() && EncOf(enc) == Before(mem, cs, i, e0)
    modifies enc, enc.hashTable, dec, packed, out
    ensures !ok ==> cs[i].maxOutputSize < CompressBound(cs[i].n) && Restored(mem, out[..], cs, i)
                    && StopsAt(mem, cs, i, e0)
    ensures ok ==> Linked(mem, out[..], cs, i + 1, enc, dec) && Restored(mem, out[..], cs, i + 1)
                   && PackedAt(mem, cs, i, e0, block) && EncOf(enc) == Before(mem, cs, i + 1, e0)
  {
    hide IsSuffix, DecodesAfter, Stream.Valid, Restored, EncLinked, DecLinked, After, Layout, Content, Sees, Next, Kept,
        Packed, PackedSize, BlockOf, Lz4FastTable.Block.Valid;
    block := [];
    SourcesInside(cs, |mem|, out.Length);
    ghost var h, b0 := Content(mem, cs, i), out[..];
    ghost var dict, size := enc.dictionary, enc.dictSize;
    ghost var d0 := StateOf(dec);
    LayoutAt(cs, |mem|, out.Length, i);
    var r; ghost var d;
    r, d := EncodeNext(mem, cs, i, enc, packed, out.Length, h);
    if r == 0 {
      return false, block;
    }
    block := packed[..r];
    SeesPrefix(b0, h, d0, cs[i].dest, |d|);
    DecodeNext(mem, cs, i, packed[..r], dec, out, h, d);
    StillEnough(mem, b0, cs, i, h, dict, size, d0, enc.dictSize);
    ContentStep(mem, cs, i);
    return true, block;
  }

  lemma {:induction false} SourcesInside(cs: seq<Chunk>, memSize: nat, outSize: nat)
    requires Layout(cs, memSize, outSize)
    ensures forall x :: 0 <= x < |cs| ==> cs[x].source + cs[x].n <= memSize
  {
  }

  lemma {:induction false} SeesPrefix(b: seq<byte>, h: seq<byte>, d: DecState, dest: nat, n: nat)
    requires n <= d.pSize
    ensures Sees(b, h, d, dest, n)
  {
  }

  lemma {:induction false} ContentStep(mem: seq<byte>, cs: seq<Chunk>, i: nat)
    requires i < |cs| && forall x :: 0 <= x < i + 1 ==> cs[x].source + cs[x].n <= |mem|
    ensures Content(mem, cs, i + 1) == Content(mem, cs, i) + mem[cs[i].source..cs[i].source + cs[i].n]
  {
  }

  /** No block can have run before the first. */
  lemma {:induction false} LinkedAtStart(mem: seq<byte>, b: seq<byte>, cs: seq<Chunk>, enc: Stream, dec: StreamDecoder)
    requires enc.Valid() && !enc.dirty && enc.tableType != Lz4FastTable.ByU16 && enc.dictSize == 0 == enc.dictionary
    requires dec.externalDict == 0 == dec.extDictSize && dec.prefixEnd == 0 == dec.prefixSize
    ensures Linked(mem, b, cs, 0, enc, dec) && Restored(mem, b, cs, 0)
  {
  }

  /**
    A whole run: every block that was compressed is restored, and stays restored while later blocks are decoded. The
    run ends early only at a block with less room than LZ4_COMPRESSBOUND asks for.
  */
  method RunFrom(mem: seq<byte>, cs: seq<Chunk>, enc: Stream, packed: array<byte>, out: array<byte>)
      returns (done: nat, ghost blocks: seq<seq<byte>>)
    requires Layout(cs, |mem|, out.Length) && packed != out
    requires forall i :: 0 <= i < |cs| ==> cs[i].maxOutputSize <= packed.Length
    requires enc.Valid() && !enc.dirty && enc.tableType != Lz4FastTable.ByU16 && enc.dictSize == 0 == enc.dictionary
    modifies enc, enc.hashTable, packed, out
    ensures done <= |cs| && Restored(mem, out[..], cs, done)
    ensures |blocks| == done && AllPacked(mem, cs, old(EncOf(enc)), blocks)
    ensures done < |cs| ==>
              cs[done].maxOutputSize < CompressBound(cs[done].n) && StopsAt(mem, cs, done, old(EncOf(enc)))
  {
    hide Layout, Linked, Restored, PackedAt, StopsAt, Before;
    ghost var e0 := EncOf(enc);
    TableLength(enc);
    BeforeFirst(mem, cs, e0);
    blocks := [];
    var dec := new StreamDecoder();
    LinkedAtStart(mem, out[..], cs, enc, dec);
    done := 0;
    while done < |cs|
      invariant done <= |cs| && fresh(dec)
      invariant forall x :: 0 <= x < done ==> cs[x].source + cs[x].n <= |mem|
      invariant Linked(mem, out[..], cs, done, enc, dec) && Restored(mem, out[..], cs, done)
      invariant |blocks| == done && AllPacked(mem, cs, e0, blocks) && EncOf(enc) == Before(mem, cs, done, e0)
    {
      ghost var block;
      var ok;
      ok, block := Step(mem, cs, done, enc, dec, packed, out, e0);
      if !ok {
        return;
      }
      blocks := blocks + [block];
      LayoutAt(cs, |mem|, out.Length, done);
      done := done + 1;
    }
  }

  lemma {:induction false} BeforeFirst(mem: seq<byte>, cs: seq<Chunk>, e0: EncState)
    requires e0.Valid()
    ensures Before(mem, cs, 0, e0) == e0
  {
  }

  /** A run with a new context. */
  method Run(mem: seq<byte>, cs: seq<Chunk>, packed: array<byte>, out: array<byte>)
      returns (done: nat, ghost blocks: seq<seq<byte>>)
    requires Layout(cs, |mem|, out.Length) && packed != out
    requires forall i :: 0 <= i < |cs| ==> cs[i].maxOutputSize <= packed.Length
    modifies packed, out
    ensures done <= |cs| && Restored(mem, out[..], cs, done)
    ensures |blocks| == done && AllPacked(mem, cs, EncState(0, 0, 0, NoEntries()), blocks)
    ensures done < |cs| ==>
              && cs[done].maxOutputSize < CompressBound(cs[done].n)
              && StopsAt(mem, cs, done, EncState(0, 0, 0, NoEntries()))
  {
    hide Layout, Restored, Stream.Valid, AllPacked, StopsAt, NoEntries;
    var enc := new Stream();
    done, blocks := RunFrom(mem, cs, enc, packed, out);
  }

  /** Where LZ4_resetStream_fast leaves a context. */
  function ResetState(dirty: bool, tableType: Lz4FastTable.TableType, offset: nat, t: seq<nat>): EncState
  {
    EncState(PreparedOffset(dirty, tableType, offset, 0, Lz4FastTable.ByU32), 0, 0,
             PreparedTable(dirty, tableType, offset, 0, Lz4FastTable.ByU32, t))
  }

  /** A run with the context, and the table, of any earlier use. */
  method RunAgain(mem: seq<byte>, cs: seq<Chunk>, enc: Stream, packed: array<byte>, out: array<byte>)
      returns (done: nat, ghost blocks: seq<seq<byte>>)
    requires Layout(cs, |mem|, out.Length) && packed != out && enc.Valid()
    requires forall i :: 0 <= i < |cs| ==> cs[i].maxOutputSize <= packed.Length
    modifies enc, enc.hashTable, packed, out
    ensures done <= |cs| && Restored(mem, out[..], cs, done)
    ensures done < |cs| ==> cs[done].maxOutputSize < CompressBound(cs[done].n)
    ensures var e0 := ResetState(old(enc.dirty), old(enc.tableType), old(enc.currentOffset), old(enc.hashTable[..]));
            && e0.Valid() && |blocks| == done && AllPacked(mem, cs, e0, blocks)
            && (done < |cs| ==> StopsAt(mem, cs, done, e0))
  {
    hide Layout, Restored, Stream.Valid, AllPacked, StopsAt, NoEntries, PreparedOffset, PreparedTable;
    enc.ResetFast();
    TableLength(enc);
    done, blocks := RunFrom(mem, cs, enc, packed, out);
  }

  lemma {:induction false} LayoutAt(cs: seq<Chunk>, memSize: nat, outSize: nat, i: nat)
    requires Layout(cs, memSize, outSize) && i < |cs|
    ensures ChunkOk(cs[i], memSize, outSize)
  {
  }
}
