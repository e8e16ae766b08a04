/**
  The decoder's entry points: one call, part of a block, and streams whose blocks refer to what was decoded
  before. Every entry point restores the content that a block was made from.
*/
module Lz4StreamDecode {
  import opened Lz4Defs
  import opened Lz4Format
  import opened Lz4Copy
  import opened Lz4Safe
  import opened Lz4Decoder
  import Lz4FastTable
  import Lz4Stream

  // ---------------------------------------------------------------- what history a decoder needs

  /** A decoder sees enough: as much as the block refers to, or everything within reach of an offset. */
  predicate Enough(view: seq<byte>, d: seq<byte>)
  {
    |d| <= |view| || DISTANCE_MAX <= |view|
  }

  lemma {:induction false} SuffixSplit(s: seq<byte>, t: seq<byte>, h: seq<byte>)
    requires Lz4Stream.IsSuffix(s, h) && Lz4Stream.IsSuffix(t, h) && |s| <= |t|
    ensures t == t[..|t| - |s|] + s
  {
    var p := t[..|t| - |s|];
    assert t[|t| - |s|..] == h[|h| - |s|..];
  }

  /** A block made with history `d` decodes with any view of the same content that shows enough of it. */
  lemma {:induction false} ViewDecodes(src: seq<byte>, h: seq<byte>, d: seq<byte>, v: seq<byte>, content: seq<byte>)
    requires Lz4Stream.IsSuffix(d, h) && Lz4Stream.IsSuffix(v, h) && Enough(v, d)
    requires Lz4Stream.DecodesAfter(src, d, content)
    ensures Rest(src, 0, v) == Decoded(v + content)
  {
    hide Rest, WellFormed, Lz4Stream.IsSuffix;
    if |d| <= |v| {
      SuffixSplit(d, v, h);
      var p := v[..|v| - |d|];
      RestPrepend(src, 0, p, d);
      assert p + (d + content) == v + content;
    } else {
      SuffixSplit(v, d, h);
      var p := d[..|d| - |v|];
      RestTrim(src, 0, p, v);
      var out := Rest(src, 0, v).out;
      assert p + out == d + content;
      assert out == (d + content)[|p|..] == v + content;
    }
  }

  /** Whatever stands in front of what a block needs does not matter. */
  lemma {:induction false} WiderViewDecodes(src: seq<byte>, v: seq<byte>, view: seq<byte>, content: seq<byte>)
    requires Rest(src, 0, v) == Decoded(v + content) && Lz4Stream.IsSuffix(v, view)
    ensures Rest(src, 0, view) == Decoded(view + content)
  {
    hide Rest;
    var p := view[..|view| - |v|];
    assert view == p + v;
    RestPrepend(src, 0, p, v);
    assert p + (v + content) == view + content;
  }

  /**
    What a decoding call restores, given that the end `v` of its view is the end of the history `h` and shows
    enough of it: everything, or decoding partially as much as was asked for.
  */
  lemma {:induction false} OutcomeRestores(j: Job, b0: seq<byte>, b: seq<byte>, r: int, h: seq<byte>, v: seq<byte>,
                                           d: seq<byte>, content: seq<byte>)
    requires ValidJob(j, |b0|) && Outcome(j, b0, b, r)
    requires Lz4Stream.IsSuffix(d, h) && Lz4Stream.IsSuffix(v, h) && Enough(v, d)
    requires Lz4Stream.IsSuffix(v, View(j, b0, j.start)) && Lz4Stream.DecodesAfter(j.src, d, content)
    requires if j.partial then LengthsFit(true, |j.src|, |content|, View(j, b0, j.start))
             else |content| <= j.oend - j.start
    ensures r == Min(j.oend - j.start, |content|) >= 0
    ensures |b| == |b0| && b[j.start..j.start + r] == content[..r]
  {
    hide Rest, WellFormed, SafeDecode, Lz4Stream.IsSuffix;
    var w, cap := View(j, b0, j.start), j.oend - j.start;
    ViewDecodes(j.src, h, d, v, content);
    WiderViewDecodes(j.src, v, w, content);
    WellFormedDecodes(j.src, j.partial, |j.dict|, cap, w, |content|);
    CutOfContent(w, content, cap);
    ViewOfOutput(j, b0, b, r, content[..Min(cap, |content|)]);
  }

  lemma {:induction false} CutOfContent(w: seq<byte>, content: seq<byte>, cap: nat)
    ensures Cut(w + content, |w| + cap) == w + content[..Min(cap, |content|)]
  {
  }

  lemma {:induction false} ViewOfOutput(j: Job, b0: seq<byte>, b: seq<byte>, r: nat, c: seq<byte>)
    requires ValidJob(j, |b0|) && |b| == |b0| && r <= j.oend - j.start
    requires View(j, b, j.start + r) == View(j, b0, j.start) + c
    ensures r == |c| && b[j.start..j.start + r] == c
  {
    var w' := View(j, b, j.start + r);
    assert |w'| == |View(j, b0, j.start)| + r;
    assert b[j.start..j.start + r] == w'[|View(j, b0, j.start)|..];
  }

  // ---------------------------------------------------------------- one-shot decoding

  /** LZ4_decompress_safe. */
  method DecompressSafe(src: seq<byte>, dst: array<byte>, dest: nat, capacity: nat) returns (r: int)
    requires dest + capacity <= dst.Length && |src| <= INT_MAX && capacity <= INT_MAX
    modifies dst
    ensures Outcome(Job(src, dest, dest + capacity, dest, [], NoDict, false), old(dst[..]), dst[..], r)
  {
    r := Decompress(Job(src, dest, dest + capacity, dest, [], NoDict, false), dst);
  }

  /** LZ4_decompress_safe_partial. */
  method DecompressSafePartial(src: seq<byte>, dst: array<byte>, dest: nat, target: nat, capacity: nat) returns (r: int)
    requires dest + capacity <= dst.Length && |src| <= INT_MAX && capacity <= INT_MAX
    modifies dst
    ensures Outcome(Job(src, dest, dest + Min(target, capacity), dest, [], NoDict, true), old(dst[..]), dst[..], r)
  {
    r := Decompress(Job(src, dest, dest + Min(target, capacity), dest, [], NoDict, true), dst);
  }

  /** A one-shot block decodes back to its input, into any buffer that can hold it. */
  method RoundTripOneShot(stream: Lz4Stream.Stream, mem: seq<byte>, source: nat, n: nat, packed: array<byte>,
      maxOutputSize: int, acceleration: int, dst: array<byte>, capacity: nat) returns (r: nat, size: int)
    requires stream.hashTable.Length == Lz4FastTable.HASH_CELLS && packed != dst
    requires source + n <= |mem| && n <= MAX_INPUT_SIZE && n <= capacity <= dst.Length && capacity <= INT_MAX
    requires maxOutputSize <= packed.Length && maxOutputSize <= INT_MAX && Lz4FastTable.AccelerationOk(acceleration, n)
    modifies stream, stream.hashTable, packed, dst
    ensures r == 0 ==> maxOutputSize < CompressBound(n)
    ensures r > 0 ==> size == n && dst[..n] == mem[source..source + n]
  {
    r := stream.CompressFastExtState(mem, source, n, packed, maxOutputSize, acceleration);
    size := 0;
    if r > 0 {
      var src := packed[..r];
      ghost var b0 := dst[..];
      size := DecompressSafe(src, dst, 0, capacity);
      var job := Job(src, 0, capacity, 0, [], NoDict, false);
      OutcomeRestores(job, b0, dst[..], size, [], [], [], mem[source..source + n]);
    }
  }

  // ---------------------------------------------------------------- decoding a stream

  lemma {:induction false} OutcomeBounds(j: Job, b0: seq<byte>)
    requires ValidJob(j, |b0|)
    ensures forall b, r :: Outcome(j, b0, b, r) ==> r <= j.oend - j.start
  {
  }

  predicate Disjoint(lo: int, hi: int, lo': int, hi': int)
  {
    hi <= lo' || hi' <= lo || lo >= hi || lo' >= hi'
  }

  /** LZ4_streamDecode_t: two stretches of the output memory that hold what was decoded last. */
  class StreamDecoder {
    var externalDict: nat
    var extDictSize: nat
    var prefixEnd: nat
    var prefixSize: nat

    /** Both stretches lie in an output memory of `n` bytes. */
    predicate Valid(n: nat)
      reads this
    {
      prefixSize <= prefixEnd <= n && externalDict + extDictSize <= n
      && (prefixSize == 0 ==> extDictSize == 0)
    }

    ghost function Prefix(b: seq<byte>): seq<byte>
      reads this
      requires Valid(|b|)
    {
      b[prefixEnd - prefixSize..prefixEnd]
    }

    ghost function External(b: seq<byte>): seq<byte>
      reads this
      requires Valid(|b|)
    {
      b[externalDict..externalDict + extDictSize]
    }

    constructor ()
      ensures externalDict == 0 && extDictSize == 0 && prefixEnd == 0 && prefixSize == 0
    {
      externalDict, extDictSize, prefixEnd, prefixSize := 0, 0, 0, 0;
    }

    /** LZ4_setStreamDecode. */
    method SetStreamDecode(dictionary: nat, dictSize: nat)
      modifies this
      ensures prefixEnd == dictionary + dictSize && prefixSize == dictSize && extDictSize == 0
    {
      prefixSize := dictSize;
      prefixEnd := dictionary + dictSize;
      externalDict := 0;
      extDictSize := 0;
    }

    /** The call that the next block, decoded to `dest`, amounts to. */
    function JobFor(src: seq<byte>, b: seq<byte>, dest: nat, capacity: nat): Job
      reads this
      requires Valid(|b|) && dest + capacity <= |b|
    {
      var oend := dest + capacity;
      if prefixSize == 0 then Job(src, dest, oend, dest, [], NoDict, false)
      else if prefixEnd == dest then
        if prefixSize >= KB64 - 1 then Job(src, dest, oend, dest - KB64, [], WithPrefix64k, false)
        else if extDictSize == 0 then Job(src, dest, oend, dest - prefixSize, [], NoDict, false)
        else Job(src, dest, oend, dest - prefixSize, b[externalDict..externalDict + extDictSize], UsingExtDict, false)
      else Job(src, dest, oend, dest, b[prefixEnd - prefixSize..prefixEnd], UsingExtDict, false)
    }

    /** The output leaves alone the stretch that the call refers to as a dictionary. */
    predicate DictApart(dest: nat, capacity: nat)
      reads this
    {
      if prefixSize == 0 then true
      else if prefixEnd != dest then Disjoint(prefixEnd - prefixSize, prefixEnd, dest, dest + capacity)
      else prefixSize >= KB64 - 1 || Disjoint(externalDict, externalDict + extDictSize, dest, dest + capacity)
    }

    lemma {:induction false} JobIsValid(src: seq<byte>, b: seq<byte>, dest: nat, capacity: nat)
      requires Valid(|b|) && dest + capacity <= |b| && |src| <= INT_MAX && capacity <= INT_MAX
      ensures var j := JobFor(src, b, dest, capacity);
              ValidJob(j, |b|) && j.start == dest && j.oend == dest + capacity
    {
    }

    /** LZ4_decompress_safe_continue; the segment rolls on, or a new one starts and the old becomes the dictionary. */
    method DecompressSafeContinue(src: seq<byte>, out: array<byte>, dest: nat, capacity: nat) returns (r: int)
      requires Valid(out.Length) && dest + capacity <= out.Length && |src| <= INT_MAX && capacity <= INT_MAX
      requires DictApart(dest, capacity)
      modifies this, out
      ensures Outcome(old(JobFor(src, out[..], dest, capacity)), old(out[..]), out[..], r)
      ensures if old(prefixSize) == 0 || old(prefixEnd) == dest
              then externalDict == old(externalDict) && extDictSize == old(extDictSize)
              else externalDict == old(prefixEnd - prefixSize) && extDictSize == old(prefixSize)
      ensures r <= 0 ==> prefixSize == old(prefixSize) && prefixEnd == old(prefixEnd)
      ensures r > 0 ==>
                && prefixEnd == dest + r
                && prefixSize == (if old(prefixSize) > 0 && old(prefixEnd) == dest then old(prefixSize) else 0) + r
      ensures Valid(out.Length)
    {
      hide Outcome, JobFor;
      var job := JobFor(src, out[..], dest, capacity);
      JobIsValid(src, out[..], dest, capacity);
      OutcomeBounds(job, out[..]);
      if prefixSize == 0 {
        r := Decompress(job, out);
        if r <= 0 {
          return;
        }
        prefixSize := r;
        prefixEnd := dest + r;
      } else if prefixEnd == dest {
        r := Decompress(job, out);
        if r <= 0 {
          return;
        }
        prefixSize := prefixSize + r;
        prefixEnd := prefixEnd + r;
      } else {
        extDictSize := prefixSize;
        externalDict := prefixEnd - extDictSize;
        r := Decompress(job, out);
        if r <= 0 {
          return;
        }
        prefixSize := r;
        prefixEnd := dest + r;
      }
    }
  }
}
