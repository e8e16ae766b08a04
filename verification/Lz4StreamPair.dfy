/**
  When the streaming decoder's external dictionary and prefix are together the end of what was decoded: for which
  layouts of blocks they are, whatever the blocks hold.
*/
module Lz4StreamPair {
  import opened Lz4Defs
  import opened Lz4Copy
  import opened Lz4Stream
  import opened Lz4StreamDecode
  import opened Lz4StreamHistory
  import opened Lz4StreamRun

  /** What the first `i` blocks hold, read where they were decoded to. */
  function ContentAt(b: seq<byte>, cs: seq<Chunk>, i: nat): seq<byte>
    requires i <= |cs| && forall x :: 0 <= x < i ==> cs[x].dest + cs[x].n <= |b|
  {
    if i == 0 then [] else ContentAt(b, cs, i - 1) + b[cs[i - 1].dest..cs[i - 1].dest + cs[i - 1].n]
  }

  /** The last block that left a segment with something in it was empty. */
  predicate Doubled(cs: seq<Chunk>, i: nat)
    requires i <= |cs|
  {
    if i == 0 then false
    else
      var d := StateAfter(cs, i - 1);
      if 0 < d.pSize && d.pEnd != cs[i - 1].dest then cs[i - 1].n == 0 else Doubled(cs, i - 1)
  }

  /** External dictionary and prefix are, one behind the other, the end of what was decoded. */
  ghost predicate PairIsEnd(b: seq<byte>, cs: seq<Chunk>, i: nat)
    requires i <= |cs| && forall x :: 0 <= x < i ==> cs[x].dest + cs[x].n <= |b|
  {
    var d := StateAfter(cs, i);
    PairLinked(b, ContentAt(b, cs, i), d.ext, d.extSize, d.pEnd, d.pSize)
  }

  lemma {:induction false} DestsInside(cs: seq<Chunk>, memSize: nat, outSize: nat)
    requires Layout(cs, memSize, outSize)
    ensures forall x :: 0 <= x < |cs| ==> cs[x].dest + cs[x].n <= outSize
  {
  }

  // ---------------------------------------------------------------- where it is

  lemma {:induction false} FramedSelf(b: seq<byte>, lo: int, hi: int)
    ensures Framed(b, b, lo, hi)
  {
  }

  /** In memory where all blocks have been decoded each step of the state keeps what decoding keeps. */
  lemma {:induction false} StateLinked(b: seq<byte>, memSize: nat, cs: seq<Chunk>, i: nat)
    requires Layout(cs, memSize, |b|) && i <= |cs| && forall x :: 0 <= x < i ==> cs[x].dest + cs[x].n <= |b|
    ensures var d := StateAfter(cs, i);
            DecLinked(b, cs, i, ContentAt(b, cs, i), d.ext, d.extSize, d.pEnd, d.pSize)
    ensures !Doubled(cs, i) ==> PairIsEnd(b, cs, i)
  {
    hide Layout, DecLinked, PairLinked, After;
    if i == 0 {
      NothingLinked(b, cs);
    } else {
      StateLinked(b, memSize, cs, i - 1);
      DestsInside(cs, memSize, |b|);
      var d, h, c := StateAfter(cs, i - 1), ContentAt(b, cs, i - 1), cs[i - 1];
      FramedSelf(b, c.dest, c.dest + c.capacity);
      DecStep(b, b, memSize, cs, i - 1, h, b[c.dest..c.dest + c.n], d.ext, d.extSize, d.pEnd, d.pSize);
      if !Doubled(cs, i) {
        if 0 < d.pSize || 0 < c.n {
          PairStep(b, b, memSize, cs, i - 1, h, b[c.dest..c.dest + c.n], d.ext, d.extSize, d.pEnd, d.pSize);
        } else {
          NothingAfter(b, cs, i - 1, h, d, c.dest, ContentAt(b, cs, i));
        }
      }
    }
  }

  lemma {:induction false} NothingLinked(b: seq<byte>, cs: seq<Chunk>)
    ensures DecLinked(b, cs, 0, [], 0, 0, 0, 0) && PairLinked(b, [], 0, 0, 0, 0)
  {
  }

  lemma {:induction false} NothingAfter(b: seq<byte>, cs: seq<Chunk>, i: nat, h: seq<byte>, d: DecState, dest: nat,
      h': seq<byte>)
    requires i <= |cs| && DecLinked(b, cs, i, h, d.ext, d.extSize, d.pEnd, d.pSize) && d.pSize == 0 <= d.pEnd
    ensures var d' := After(d, dest, 0);
            PairLinked(b, h', d'.ext, d'.extSize, d'.pEnd, d'.pSize)
  {
  }

  // ---------------------------------------------------------------- where it need not be

  /** Then the external dictionary is the beginning of the prefix. */
  lemma {:induction false} DoubledShape(cs: seq<Chunk>, i: nat)
    requires i <= |cs| && Doubled(cs, i)
    ensures var d := StateAfter(cs, i);
            d.ext == d.pEnd - d.pSize && 0 < d.extSize <= d.pSize
  {
    if i > 0 && Doubled(cs, i - 1) {
      DoubledShape(cs, i - 1);
    }
  }

  /** An output memory with a single byte that is not zero. */
  function Marked(outSize: nat, lo: nat): (b: seq<byte>)
    ensures |b| == outSize && forall a :: 0 <= a < outSize ==> b[a] == (if a == lo then 1 else 0)
  {
    seq(outSize, a => if a == lo then 1 else 0)
  }

  /** It occurs once in what was decoded, for no address belongs to two blocks. */
  lemma {:induction false} MarkedOnce(cs: seq<Chunk>, memSize: nat, outSize: nat, i: nat, lo: nat, x: nat, y: nat)
    requires Layout(cs, memSize, outSize) && i <= |cs|
    requires forall x :: 0 <= x < |cs| ==> cs[x].dest + cs[x].n <= outSize
    requires var h := ContentAt(Marked(outSize, lo), cs, i);
             x < |h| && y < |h| && h[x] == 1 == h[y]
    ensures x == y && HasDest(cs, i, lo)
  {
    hide Layout, Apart, Marked;
    var b := Marked(outSize, lo);
    var c, n := cs[i - 1], |ContentAt(b, cs, i - 1)|;
    var part := b[c.dest..c.dest + c.n];
    assert ContentAt(b, cs, i) == ContentAt(b, cs, i - 1) + part;
    assert (x >= n ==> part[x - n] == 1) && (y >= n ==> part[y - n] == 1);
    if x < n || y < n {
      var z := if x < n then x else y;
      MarkedOnce(cs, memSize, outSize, i - 1, lo, z, z);
      var k :| 0 <= k < i - 1 && InDest(cs[k], lo);
      assert InDest(cs[k], lo);
      NotInBoth(cs, memSize, outSize, k, i - 1, lo);
      MarkedOnce(cs, memSize, outSize, i - 1, lo, x, y);
    } else {
      assert InDest(c, lo);
    }
  }

  lemma {:induction false} NotInBoth(cs: seq<Chunk>, memSize: nat, outSize: nat, k: nat, i: nat, a: nat)
    requires Layout(cs, memSize, outSize) && k < i < |cs| && InDest(cs[k], a)
    ensures !InDest(cs[i], a)
  {
    assert Apart(cs[k], cs[i]);
  }

  lemma {:induction false} FirstOfSuffix(a: seq<byte>, h: seq<byte>)
    requires IsSuffix(a, h) && 0 < |a|
    ensures |a| <= |h| && h[|h| - |a|] == a[0]
  {
  }

  /** With a byte that occurs only at the start of the prefix the pair is not the end of what was decoded. */
  lemma {:induction false} DoubledIsNotEnd(cs: seq<Chunk>, memSize: nat, outSize: nat, i: nat)
    requires Layout(cs, memSize, outSize) && i <= |cs| && Doubled(cs, i)
    requires forall x :: 0 <= x < |cs| ==> cs[x].dest + cs[x].n <= outSize
    ensures var d := StateAfter(cs, i);
            !PairIsEnd(Marked(outSize, d.pEnd - d.pSize), cs, i)
  {
    hide Layout, IsSuffix, Doubled, Marked;
    var d := StateAfter(cs, i);
    var lo := d.pEnd - d.pSize;
    var b := Marked(outSize, lo);
    var h := ContentAt(b, cs, i);
    DoubledShape(cs, i);
    StateLinked(b, memSize, cs, i);
    FirstOfSuffix(b[lo..d.pEnd], h);
    if PairIsEnd(b, cs, i) {
      FirstOfSuffix(b[d.ext..d.ext + d.extSize] + b[lo..d.pEnd], h);
      MarkedOnce(cs, memSize, outSize, i, lo, |h| - d.pSize, |h| - d.pSize - d.extSize);
    }
  }

  // ---------------------------------------------------------------- exactly when

  /**
    Whatever the blocks hold, the pair is the end of what was decoded, exactly if the last block that left a segment
    with something in it was not empty.
  */
  lemma {:induction false} PairIsExact(cs: seq<Chunk>, memSize: nat, outSize: nat, i: nat)
    requires Layout(cs, memSize, outSize) && i <= |cs|
    ensures forall x :: 0 <= x < |cs| ==> cs[x].dest + cs[x].n <= outSize
    ensures (forall b: seq<byte> :: |b| == outSize ==> PairIsEnd(b, cs, i)) <==> !Doubled(cs, i)
  {
    hide Layout, PairIsEnd, Doubled;
    DestsInside(cs, memSize, outSize);
    if Doubled(cs, i) {
      DoubledIsNotEnd(cs, memSize, outSize, i);
    } else {
      forall b: seq<byte> | |b| == outSize
        ensures PairIsEnd(b, cs, i)
      {
        StateLinked(b, memSize, cs, i);
      }
    }
  }

  /** That happens: a block of one byte, then an empty block that is decoded elsewhere. */
  lemma {:induction false} EmptyBlockElsewhere()
    ensures var cs := [Chunk(1, 1, 0, 1, 0, 1), Chunk(3, 0, 5, 0, 0, 1)];
            Layout(cs, 4, 5) && Doubled(cs, 2)
  {
    var cs := [Chunk(1, 1, 0, 1, 0, 1), Chunk(3, 0, 5, 0, 0, 1)];
    assert StateAfter(cs, 1) == After(StateAfter(cs, 0), 0, 1);
  }

  /** The content of restored blocks is what was compressed. */
  lemma {:induction false} ContentRestored(mem: seq<byte>, b: seq<byte>, cs: seq<Chunk>, i: nat)
    requires i <= |cs| && Restored(mem, b, cs, i)
    ensures ContentAt(b, cs, i) == Content(mem, cs, i)
  {
    if i == 0 {
    } else {
      ContentRestored(mem, b, cs, i - 1);
    }
  }

  /** So in a run both stretches of the decoder are the end of the content, unless the last block to leave was empty. */
  lemma {:induction false} PairOfRun(mem: seq<byte>, b: seq<byte>, cs: seq<Chunk>, i: nat, enc: Stream,
      dec: StreamDecoder)
    requires Layout(cs, |mem|, |b|) && i <= |cs| && forall x :: 0 <= x < i ==> cs[x].source + cs[x].n <= |mem|
    requires Linked(mem, b, cs, i, enc, dec) && Restored(mem, b, cs, i) && !Doubled(cs, i)
    ensures IsSuffix(dec.External(b) + dec.Prefix(b), Content(mem, cs, i))
  {
    hide Layout, Restored, IsSuffix, Doubled, Content;
    DestsInside(cs, |mem|, |b|);
    ContentRestored(mem, b, cs, i);
    StateLinked(b, |mem|, cs, i);
    PairIsSuffix(dec, b, Content(mem, cs, i));
  }
}
