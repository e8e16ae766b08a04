/**
  What a run of streaming compression writes and what its blocks may refer to: the encoder's state before each block
  follows from where the blocks stand and what they hold.
*/
module Lz4StreamHistory {
  import opened Lz4Defs
  import opened Lz4Format
  import opened Lz4Encode
  import opened Lz4FastTable
  import opened Lz4FastPlan
  import opened Lz4Stream

  /** One block of a run: where its input stands, where it is decoded to, and its compression parameters. */
  datatype Chunk = Chunk(source: nat, n: nat, dest: nat, capacity: nat, maxOutputSize: nat, acceleration: int)

  /** What an encoder keeps between blocks. */
  datatype EncState = EncState(offset: nat, dictionary: nat, dictSize: nat, table: seq<nat>)
  {
    function End(): nat
    {
      dictionary + dictSize
    }

    ghost predicate Valid()
    {
      |table| == HASH_CELLS
    }
  }

  /** Before a block: what is left of the dictionary. */
  function Kept(e: EncState, c: Chunk): (s: EncState)
    requires e.Valid()
    ensures s.Valid()
  {
    EncState(RebasedOffset(e.offset, c.n), KeptAt(e.offset, e.dictionary, e.dictSize, c.source, c.n),
             KeptSize(e.offset, e.dictionary, e.dictSize, c.source, c.n), RebasedTable(e.table, e.offset, c.n))
  }

  /** The block as LZ4_compress_generic sees it. */
  function BlockOf(mem: seq<byte>, e: EncState, c: Chunk): Block
    requires e.Valid()
  {
    var s := Kept(e, c);
    StreamBlock(mem, c.source, c.n, c.acceleration, s.offset, s.dictionary, s.dictSize)
  }

  /** After a block: it is the dictionary, behind what was kept if it stands there. */
  function Next(mem: seq<byte>, e: EncState, c: Chunk): (s: EncState)
    requires e.Valid()
    ensures s.Valid()
  {
    var s, k := Kept(e, c), BlockOf(mem, e, c);
    var t := if k.Valid() then PlanOf(k, s.table).table else s.table;
    if e.End() == c.source then EncState(s.offset + c.n, s.dictionary, s.dictSize + c.n, t)
    else EncState(s.offset + c.n, c.source, c.n, t)
  }

  /** The encoder's state before block `i`, if all before are compressed. */
  function Before(mem: seq<byte>, cs: seq<Chunk>, i: nat, e0: EncState): (e: EncState)
    requires i <= |cs| && e0.Valid()
    ensures e.Valid()
  {
    if i == 0 then e0 else Next(mem, Before(mem, cs, i - 1, e0), cs[i - 1])
  }

  /** What a block takes, and its bytes. */
  function PackedSize(mem: seq<byte>, e: EncState, c: Chunk): nat
    requires e.Valid() && BlockOf(mem, e, c).Valid()
  {
    var k := BlockOf(mem, e, c);
    PlanSize(k, PlanOf(k, Kept(e, c).table))
  }

  function Packed(mem: seq<byte>, e: EncState, c: Chunk): seq<byte>
    requires e.Valid() && BlockOf(mem, e, c).Valid()
  {
    var k := BlockOf(mem, e, c);
    var p := PlanOf(k, Kept(e, c).table);
    Finished(k.mem, p.ss, p.anchor, k.Iend() - p.anchor)
  }

  /** Block `i` of a run, compressed to `b`. */
  ghost predicate PackedAt(mem: seq<byte>, cs: seq<Chunk>, i: nat, e0: EncState, b: seq<byte>)
    requires i < |cs| && e0.Valid()
  {
    var e := Before(mem, cs, i, e0);
    BlockOf(mem, e, cs[i]).Valid() && PackedSize(mem, e, cs[i]) <= cs[i].maxOutputSize && b == Packed(mem, e, cs[i])
  }

  /** The output of block `i` has too little room. */
  ghost predicate StopsAt(mem: seq<byte>, cs: seq<Chunk>, i: nat, e0: EncState)
    requires i < |cs| && e0.Valid()
  {
    var e := Before(mem, cs, i, e0);
    BlockOf(mem, e, cs[i]).Valid() && cs[i].maxOutputSize < PackedSize(mem, e, cs[i])
  }

  /** What a run writes. */
  ghost predicate AllPacked(mem: seq<byte>, cs: seq<Chunk>, e0: EncState, blocks: seq<seq<byte>>)
    requires e0.Valid()
  {
    |blocks| <= |cs| && forall i :: 0 <= i < |blocks| ==> PackedAt(mem, cs, i, e0, blocks[i])
  }

  // ---------------------------------------------------------------- how far back blocks can refer

  /** How much the blocks from `j` to before `i` hold. */
  function Length(cs: seq<Chunk>, j: nat, i: nat): nat
    requires j <= i <= |cs|
    decreases i
  {
    if i == j then 0 else Length(cs, j, i - 1) + cs[i - 1].n
  }

  /** One stands behind the other in the input memory. */
  predicate Adjoins(earlier: Chunk, later: Chunk)
  {
    later.source == earlier.source + earlier.n
  }

  ghost predicate Segment(cs: seq<Chunk>, j: nat, i: nat)
    requires j <= i <= |cs|
  {
    forall x, y :: j <= x && y == x + 1 < i ==> Adjoins(cs[x], cs[y])
  }

  /** A block that goes on where the dictionary ends keeps all of it, up to 64 KB even when indices are rebased. */
  lemma {:induction false} AdjoiningKeeps(e: EncState, c: Chunk)
    requires e.Valid() && e.End() == c.source
    ensures Min(KB64, e.dictSize) <= Kept(e, c).dictSize <= e.dictSize && Kept(e, c).End() == e.End()
  {
  }

  /** After blocks that stand one behind the other the dictionary holds them all, or their last 64 KB at least. */
  lemma {:induction false} SegmentKept(mem: seq<byte>, cs: seq<Chunk>, j: nat, i: nat, e0: EncState)
    requires e0.Valid() && j < i <= |cs| && Segment(cs, j, i)
    ensures var e := Before(mem, cs, i, e0);
            e.End() == cs[i - 1].source + cs[i - 1].n && Min(KB64, Length(cs, j, i)) <= e.dictSize
    decreases i
  {
    hide Kept, BlockOf, PlanOf, Block.Valid;
    var e, c := Before(mem, cs, i - 1, e0), cs[i - 1];
    if e.End() == c.source {
      AdjoiningKeeps(e, c);
    }
    if j < i - 1 {
      SegmentKept(mem, cs, j, i - 1, e0);
      assert Adjoins(cs[i - 2], cs[i - 1]);
    } else {
      assert Length(cs, j, j) == 0;
    }
  }

  /**
    So a block may refer to all that blocks `j..i` of one segment hold, or to the last 64 KB of it at least, if it
    goes on behind them; and if it stands elsewhere, unless they hold fewer than four bytes or it runs into them.
  */
  lemma {:induction false} BlockReach(mem: seq<byte>, cs: seq<Chunk>, j: nat, i: nat, e0: EncState)
    requires e0.Valid() && j < i < |cs| && Segment(cs, j, i)
    requires var e := Before(mem, cs, i, e0);
             e.End() == cs[i].source
             || (MINMATCH <= Length(cs, j, i) && !(e.dictionary < cs[i].source + cs[i].n < e.End()))
    ensures Min(KB64, Length(cs, j, i)) <= Kept(Before(mem, cs, i, e0), cs[i]).dictSize
  {
    hide BlockOf, PlanOf, Block.Valid, Before;
    SegmentKept(mem, cs, j, i, e0);
  }
}
