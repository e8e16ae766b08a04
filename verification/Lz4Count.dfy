/**
  LZ4_count: the word-at-a-time loop, the De Bruijn lookup and the 4/2/1 tail together return exactly the
  length of the longest common prefix.
*/
module Lz4Count {
  import opened Lz4Defs

  function Bit(x: nat, m: bv8): bv8
  {
    if x % 2 == 1 then m else 0
  }

  /** The bit pattern of a byte. */
  function BitsOf(x: byte): bv8
  {
    Bit(x, 1) | Bit(x / 2, 2) | Bit(x / 2 / 2, 4) | Bit(x / 2 / 2 / 2, 8)
    | Bit(x / 2 / 2 / 2 / 2, 16) | Bit(x / 2 / 2 / 2 / 2 / 2, 32)
    | Bit(x / 2 / 2 / 2 / 2 / 2 / 2, 64) | Bit(x / 2 / 2 / 2 / 2 / 2 / 2 / 2, 128)
  }

  lemma {:induction false} OrBits(b0: bv8, b1: bv8, b2: bv8, b3: bv8, b4: bv8, b5: bv8, b6: bv8, b7: bv8, w: bv8)
    requires w == b0 | b1 | b2 | b3 | b4 | b5 | b6 | b7
    requires (b0 == 0 || b0 == 1) && (b1 == 0 || b1 == 2) && (b2 == 0 || b2 == 4) && (b3 == 0 || b3 == 8)
    requires (b4 == 0 || b4 == 16) && (b5 == 0 || b5 == 32) && (b6 == 0 || b6 == 64) && (b7 == 0 || b7 == 128)
    ensures b0 == w & 1 && b1 == w & 2 && b2 == w & 4 && b3 == w & 8
    ensures b4 == w & 16 && b5 == w & 32 && b6 == w & 64 && b7 == w & 128
  {
  }

  lemma {:induction false} HalvesAgree(x: nat, y: nat, m: bv8)
    requires x / 2 == y / 2 && m != 0 && Bit(x, m) == Bit(y, m)
    ensures x == y
  {
  }

  lemma {:induction false} BitsPick(x: byte, w: bv8)
    requires w == BitsOf(x)
    ensures Bit(x, 1) == w & 1 && Bit(x / 2, 2) == w & 2 && Bit(x / 2 / 2, 4) == w & 4
    ensures Bit(x / 2 / 2 / 2, 8) == w & 8 && Bit(x / 2 / 2 / 2 / 2, 16) == w & 16
    ensures Bit(x / 2 / 2 / 2 / 2 / 2, 32) == w & 32 && Bit(x / 2 / 2 / 2 / 2 / 2 / 2, 64) == w & 64
    ensures Bit(x / 2 / 2 / 2 / 2 / 2 / 2 / 2, 128) == w & 128
  {
    OrBits(Bit(x, 1), Bit(x / 2, 2), Bit(x / 2 / 2, 4), Bit(x / 2 / 2 / 2, 8), Bit(x / 2 / 2 / 2 / 2, 16),
           Bit(x / 2 / 2 / 2 / 2 / 2, 32), Bit(x / 2 / 2 / 2 / 2 / 2 / 2, 64),
           Bit(x / 2 / 2 / 2 / 2 / 2 / 2 / 2, 128), w);
  }

  lemma {:induction false} BitsInjective(x: byte, y: byte)
    requires BitsOf(x) == BitsOf(y)
    ensures x == y
  {
    hide BitsOf, Bit;
    BitsPick(x, BitsOf(x));
    BitsPick(y, BitsOf(y));
    var x1, y1 := x / 2, y / 2;
    var x2, y2 := x1 / 2, y1 / 2;
    var x3, y3 := x2 / 2, y2 / 2;
    var x4, y4 := x3 / 2, y3 / 2;
    var x5, y5 := x4 / 2, y4 / 2;
    var x6, y6 := x5 / 2, y5 / 2;
    HalvesAgree(x6 / 2, y6 / 2, 128);
    HalvesAgree(x6, y6, 64);
    HalvesAgree(x5, y5, 32);
    HalvesAgree(x4, y4, 16);
    HalvesAgree(x3, y3, 8);
    HalvesAgree(x2, y2, 4);
    HalvesAgree(x1, y1, 2);
    HalvesAgree(x, y, 1);
  }

  /** DeBruijnBytePos, eight entries a row. */
  function BytePos(slot: nat): nat
    requires slot < 64
  {
    if slot < 8 then [0, 0, 0, 0, 0, 1, 1, 2][slot]
    else if slot < 16 then [0, 3, 1, 3, 1, 4, 2, 7][slot - 8]
    else if slot < 24 then [0, 2, 3, 6, 1, 5, 3, 5][slot - 16]
    else if slot < 32 then [1, 3, 4, 4, 2, 5, 6, 7][slot - 24]
    else if slot < 40 then [7, 0, 1, 2, 3, 3, 4, 6][slot - 32]
    else if slot < 48 then [2, 6, 5, 5, 3, 4, 5, 6][slot - 40]
    else if slot < 56 then [7, 1, 2, 4, 6, 4, 4, 5][slot - 48]
    else [7, 2, 6, 5, 7, 6, 7, 7][slot - 56]
  }

  /** The table index: the top six bits of the product, as a number. */
  function Slot(i: bv64): (r: nat)
    ensures r < 64
  {
    ((i * 0x0218A392CDABBD3F) >> 58) as bv6 as nat
  }

  function DeBruijn(val: bv64): nat
  {
    BytePos(Slot(val & (0 - val)))
  }

  function LowestByte(val: bv64): nat
  {
    if val & 0xFF != 0 then 0
    else if val & 0xFF00 != 0 then 1
    else if val & 0xFF_0000 != 0 then 2
    else if val & 0xFF00_0000 != 0 then 3
    else if val & 0xFF_0000_0000 != 0 then 4
    else if val & 0xFF00_0000_0000 != 0 then 5
    else if val & 0xFF_0000_0000_0000 != 0 then 6
    else 7
  }

  /** `val & -val` keeps exactly the lowest set bit. */
  lemma {:induction false} LowestBit(val: bv64, i: bv64)
    requires val != 0 && i == val & (0 - val)
    ensures i != 0 && i & (i - 1) == 0
    ensures LowestByte(i) == LowestByte(val)
  {
  }

  /** The slots of the eight bits of a byte: one product after the other. */
  lemma {:induction false} SlotsOfByte0(i: bv64)
    requires i == 0x1 || i == 0x2 || i == 0x4 || i == 0x8
          || i == 0x10 || i == 0x20 || i == 0x40 || i == 0x80
    ensures BytePos(Slot(i)) == 0
  {
    assert Slot(0x1) == 0;
    assert Slot(0x2) == 1;
    assert Slot(0x4) == 2;
    assert Slot(0x8) == 4;
    assert Slot(0x10) == 8;
    assert Slot(0x20) == 16;
    assert Slot(0x40) == 33;
    assert Slot(0x80) == 3;
  }

  lemma {:induction false} SlotsOfByte1(i: bv64)
    requires i == 0x100 || i == 0x200 || i == 0x400 || i == 0x800
          || i == 0x1000 || i == 0x2000 || i == 0x4000 || i == 0x8000
    ensures BytePos(Slot(i)) == 1
  {
    assert Slot(0x100) == 6;
    assert Slot(0x200) == 12;
    assert Slot(0x400) == 24;
    assert Slot(0x800) == 49;
    assert Slot(0x1000) == 34;
    assert Slot(0x2000) == 5;
    assert Slot(0x4000) == 10;
    assert Slot(0x8000) == 20;
  }

  lemma {:induction false} SlotsOfByte2(i: bv64)
    requires i == 0x10000 || i == 0x20000 || i == 0x40000 || i == 0x80000
          || i == 0x100000 || i == 0x200000 || i == 0x400000 || i == 0x800000
    ensures BytePos(Slot(i)) == 2
  {
    assert Slot(0x10000) == 40;
    assert Slot(0x20000) == 17;
    assert Slot(0x40000) == 35;
    assert Slot(0x80000) == 7;
    assert Slot(0x100000) == 14;
    assert Slot(0x200000) == 28;
    assert Slot(0x400000) == 57;
    assert Slot(0x800000) == 50;
  }

  lemma {:induction false} SlotsOfByte3(i: bv64)
    requires i == 0x1000000 || i == 0x2000000 || i == 0x4000000 || i == 0x8000000
          || i == 0x10000000 || i == 0x20000000 || i == 0x40000000 || i == 0x80000000
    ensures BytePos(Slot(i)) == 3
  {
    assert Slot(0x1000000) == 36;
    assert Slot(0x2000000) == 9;
    assert Slot(0x4000000) == 18;
    assert Slot(0x8000000) == 37;
    assert Slot(0x10000000) == 11;
    assert Slot(0x20000000) == 22;
    assert Slot(0x40000000) == 44;
    assert Slot(0x80000000) == 25;
  }

  lemma {:induction false} SlotsOfByte4(i: bv64)
    requires i == 0x100000000 || i == 0x200000000 || i == 0x400000000 || i == 0x800000000
          || i == 0x1000000000 || i == 0x2000000000 || i == 0x4000000000 || i == 0x8000000000
    ensures BytePos(Slot(i)) == 4
  {
    assert Slot(0x100000000) == 51;
    assert Slot(0x200000000) == 38;
    assert Slot(0x400000000) == 13;
    assert Slot(0x800000000) == 27;
    assert Slot(0x1000000000) == 54;
    assert Slot(0x2000000000) == 45;
    assert Slot(0x4000000000) == 26;
    assert Slot(0x8000000000) == 53;
  }

  lemma {:induction false} SlotsOfByte5(i: bv64)
    requires i == 0x10000000000 || i == 0x20000000000 || i == 0x40000000000 || i == 0x80000000000
          || i == 0x100000000000 || i == 0x200000000000 || i == 0x400000000000 || i == 0x800000000000
    ensures BytePos(Slot(i)) == 5
  {
    assert Slot(0x10000000000) == 42;
    assert Slot(0x20000000000) == 21;
    assert Slot(0x40000000000) == 43;
    assert Slot(0x80000000000) == 23;
    assert Slot(0x100000000000) == 46;
    assert Slot(0x200000000000) == 29;
    assert Slot(0x400000000000) == 59;
    assert Slot(0x800000000000) == 55;
  }

  lemma {:induction false} SlotsOfByte6(i: bv64)
    requires i == 0x1000000000000 || i == 0x2000000000000 || i == 0x4000000000000 || i == 0x8000000000000
          || i == 0x10000000000000 || i == 0x20000000000000 || i == 0x40000000000000 || i == 0x80000000000000
    ensures BytePos(Slot(i)) == 6
  {
    assert Slot(0x1000000000000) == 47;
    assert Slot(0x2000000000000) == 30;
    assert Slot(0x4000000000000) == 61;
    assert Slot(0x8000000000000) == 58;
    assert Slot(0x10000000000000) == 52;
    assert Slot(0x20000000000000) == 41;
    assert Slot(0x40000000000000) == 19;
    assert Slot(0x80000000000000) == 39;
  }

  lemma {:induction false} SlotsOfByte7(i: bv64)
    requires i == 0x100000000000000 || i == 0x200000000000000 || i == 0x400000000000000 || i == 0x800000000000000
          || i == 0x1000000000000000 || i == 0x2000000000000000 || i == 0x4000000000000000 || i == 0x8000000000000000
    ensures BytePos(Slot(i)) == 7
  {
    assert Slot(0x100000000000000) == 15;
    assert Slot(0x200000000000000) == 31;
    assert Slot(0x400000000000000) == 63;
    assert Slot(0x800000000000000) == 62;
    assert Slot(0x1000000000000000) == 60;
    assert Slot(0x2000000000000000) == 56;
    assert Slot(0x4000000000000000) == 48;
    assert Slot(0x8000000000000000) == 32;
  }

  lemma {:induction false} SingleBitOfByte0(i: bv64)
    requires i != 0 && i & (i - 1) == 0 && i & 0xFF != 0
    ensures i == 0x1 || i == 0x2 || i == 0x4 || i == 0x8
         || i == 0x10 || i == 0x20 || i == 0x40 || i == 0x80
  {
  }

  lemma {:induction false} SingleBitOfByte1(i: bv64)
    requires i != 0 && i & (i - 1) == 0 && i & 0xFF00 != 0
    ensures i == 0x100 || i == 0x200 || i == 0x400 || i == 0x800
         || i == 0x1000 || i == 0x2000 || i == 0x4000 || i == 0x8000
  {
  }

  lemma {:induction false} SingleBitOfByte2(i: bv64)
    requires i != 0 && i & (i - 1) == 0 && i & 0xFF0000 != 0
    ensures i == 0x10000 || i == 0x20000 || i == 0x40000 || i == 0x80000
         || i == 0x100000 || i == 0x200000 || i == 0x400000 || i == 0x800000
  {
  }

  lemma {:induction false} SingleBitOfByte3(i: bv64)
    requires i != 0 && i & (i - 1) == 0 && i & 0xFF000000 != 0
    ensures i == 0x1000000 || i == 0x2000000 || i == 0x4000000 || i == 0x8000000
         || i == 0x10000000 || i == 0x20000000 || i == 0x40000000 || i == 0x80000000
  {
  }

  lemma {:induction false} SingleBitOfByte4(i: bv64)
    requires i != 0 && i & (i - 1) == 0 && i & 0xFF00000000 != 0
    ensures i == 0x100000000 || i == 0x200000000 || i == 0x400000000 || i == 0x800000000
         || i == 0x1000000000 || i == 0x2000000000 || i == 0x4000000000 || i == 0x8000000000
  {
  }

  lemma {:induction false} SingleBitOfByte5(i: bv64)
    requires i != 0 && i & (i - 1) == 0 && i & 0xFF0000000000 != 0
    ensures i == 0x10000000000 || i == 0x20000000000 || i == 0x40000000000 || i == 0x80000000000
         || i == 0x100000000000 || i == 0x200000000000 || i == 0x400000000000 || i == 0x800000000000
  {
  }

  lemma {:induction false} SingleBitOfByte6(i: bv64)
    requires i != 0 && i & (i - 1) == 0 && i & 0xFF000000000000 != 0
    ensures i == 0x1000000000000 || i == 0x2000000000000 || i == 0x4000000000000 || i == 0x8000000000000
         || i == 0x10000000000000 || i == 0x20000000000000 || i == 0x40000000000000 || i == 0x80000000000000
  {
  }

  lemma {:induction false} SingleBitOfByte7(i: bv64)
    requires i != 0 && i & (i - 1) == 0 && i & 0xFF00000000000000 != 0
    ensures i == 0x100000000000000 || i == 0x200000000000000 || i == 0x400000000000000 || i == 0x800000000000000
         || i == 0x1000000000000000 || i == 0x2000000000000000 || i == 0x4000000000000000 || i == 0x8000000000000000
  {
  }

  /** The De Bruijn multiplication finds the lowest non-zero byte. */
  lemma {:induction false} DeBruijnIsLowestByte(val: bv64)
    requires val != 0
    ensures DeBruijn(val) == LowestByte(val)
  {
    hide BytePos, Slot;
    var i := val & (0 - val);
    LowestBit(val, i);
    if i & 0xFF != 0 {
      SingleBitOfByte0(i);
      SlotsOfByte0(i);
    }
    if i & 0xFF00 != 0 {
      SingleBitOfByte1(i);
      SlotsOfByte1(i);
    }
    if i & 0xFF0000 != 0 {
      SingleBitOfByte2(i);
      SlotsOfByte2(i);
    }
    if i & 0xFF000000 != 0 {
      SingleBitOfByte3(i);
      SlotsOfByte3(i);
    }
    if i & 0xFF00000000 != 0 {
      SingleBitOfByte4(i);
      SlotsOfByte4(i);
    }
    if i & 0xFF0000000000 != 0 {
      SingleBitOfByte5(i);
      SlotsOfByte5(i);
    }
    if i & 0xFF000000000000 != 0 {
      SingleBitOfByte6(i);
      SlotsOfByte6(i);
    }
    if i & 0xFF00000000000000 != 0 {
      SingleBitOfByte7(i);
      SlotsOfByte7(i);
    }
  }

  /** LZ4_NbCommonBytes, in its portable form. */
  function NbCommonBytes(val: bv64): (r: nat)
    requires val != 0
    ensures r == LowestByte(val)
  {
    DeBruijnIsLowestByte(val);
    DeBruijn(val)
  }

  /** Eight bytes, read little-endian. */
  function WordOf(b0: bv8, b1: bv8, b2: bv8, b3: bv8, b4: bv8, b5: bv8, b6: bv8, b7: bv8): bv64
  {
    (b0 as bv64) | ((b1 as bv64) << 8) | ((b2 as bv64) << 16) | ((b3 as bv64) << 24)
    | ((b4 as bv64) << 32) | ((b5 as bv64) << 40) | ((b6 as bv64) << 48) | ((b7 as bv64) << 56)
  }

  /** LZ4_read_ARCH. */
  function ReadArch(mem: seq<byte>, p: nat): bv64
    requires p + 8 <= |mem|
  {
    WordOf(BitsOf(mem[p]), BitsOf(mem[p + 1]), BitsOf(mem[p + 2]), BitsOf(mem[p + 3]),
           BitsOf(mem[p + 4]), BitsOf(mem[p + 5]), BitsOf(mem[p + 6]), BitsOf(mem[p + 7]))
  }

  lemma {:induction false} WordDifference(
    a0: bv8, a1: bv8, a2: bv8, a3: bv8, a4: bv8, a5: bv8, a6: bv8, a7: bv8,
    b0: bv8, b1: bv8, b2: bv8, b3: bv8, b4: bv8, b5: bv8, b6: bv8, b7: bv8, d: bv64)
    requires d == WordOf(a0, a1, a2, a3, a4, a5, a6, a7) ^ WordOf(b0, b1, b2, b3, b4, b5, b6, b7)
    ensures d & 0xFF == 0 <==> a0 == b0
    ensures d & 0xFF00 == 0 <==> a1 == b1
    ensures d & 0xFF_0000 == 0 <==> a2 == b2
    ensures d & 0xFF00_0000 == 0 <==> a3 == b3
    ensures d & 0xFF_0000_0000 == 0 <==> a4 == b4
    ensures d & 0xFF00_0000_0000 == 0 <==> a5 == b5
    ensures d & 0xFF_0000_0000_0000 == 0 <==> a6 == b6
    ensures d & 0xFF00_0000_0000_0000 == 0 <==> a7 == b7
  {
  }

  lemma {:induction false} MaskedZero(d: bv64)
    requires d & 0xFF == 0 && d & 0xFF00 == 0 && d & 0xFF_0000 == 0 && d & 0xFF00_0000 == 0
    requires d & 0xFF_0000_0000 == 0 && d & 0xFF00_0000_0000 == 0
    requires d & 0xFF_0000_0000_0000 == 0 && d & 0xFF00_0000_0000_0000 == 0
    ensures d == 0
  {
  }

  ghost predicate SameAt(mem: seq<byte>, p: nat, q: nat, k: nat)
  {
    p + k < |mem| && q + k < |mem| && mem[p + k] == mem[q + k]
  }

  /** The first `n` bytes at `p` and `q` agree. */
  ghost predicate Agree(mem: seq<byte>, p: nat, q: nat, n: nat)
  {
    forall k :: 0 <= k < n ==> SameAt(mem, p, q, k)
  }

  lemma {:induction false} ByteDiffers(mem: seq<byte>, p: nat, q: nat, k: nat)
    requires p + k < |mem| && q + k < |mem|
    ensures SameAt(mem, p, q, k) <==> BitsOf(mem[p + k]) == BitsOf(mem[q + k])
  {
    hide BitsOf;
    if BitsOf(mem[p + k]) == BitsOf(mem[q + k]) {
      BitsInjective(mem[p + k], mem[q + k]);
    }
  }

  /** Byte by byte, a difference of words shows where the bytes differ. */
  lemma {:induction false} ArchBytes(mem: seq<byte>, p: nat, q: nat, d: bv64)
    requires p + 8 <= |mem| && q + 8 <= |mem| && d == ReadArch(mem, p) ^ ReadArch(mem, q)
    ensures d & 0xFF == 0 <==> SameAt(mem, p, q, 0)
    ensures d & 0xFF00 == 0 <==> SameAt(mem, p, q, 1)
    ensures d & 0xFF_0000 == 0 <==> SameAt(mem, p, q, 2)
    ensures d & 0xFF00_0000 == 0 <==> SameAt(mem, p, q, 3)
    ensures d & 0xFF_0000_0000 == 0 <==> SameAt(mem, p, q, 4)
    ensures d & 0xFF00_0000_0000 == 0 <==> SameAt(mem, p, q, 5)
    ensures d & 0xFF_0000_0000_0000 == 0 <==> SameAt(mem, p, q, 6)
    ensures d & 0xFF00_0000_0000_0000 == 0 <==> SameAt(mem, p, q, 7)
  {
    hide BitsOf, WordOf, SameAt;
    WordDifference(
      BitsOf(mem[p]), BitsOf(mem[p + 1]), BitsOf(mem[p + 2]), BitsOf(mem[p + 3]),
      BitsOf(mem[p + 4]), BitsOf(mem[p + 5]), BitsOf(mem[p + 6]), BitsOf(mem[p + 7]),
      BitsOf(mem[q]), BitsOf(mem[q + 1]), BitsOf(mem[q + 2]), BitsOf(mem[q + 3]),
      BitsOf(mem[q + 4]), BitsOf(mem[q + 5]), BitsOf(mem[q + 6]), BitsOf(mem[q + 7]), d);
    ByteDiffers(mem, p, q, 0);
    ByteDiffers(mem, p, q, 1);
    ByteDiffers(mem, p, q, 2);
    ByteDiffers(mem, p, q, 3);
    ByteDiffers(mem, p, q, 4);
    ByteDiffers(mem, p, q, 5);
    ByteDiffers(mem, p, q, 6);
    ByteDiffers(mem, p, q, 7);
  }

  /** XOR of two words: zero when all eight bytes agree, otherwise its lowest non-zero byte is the first difference. */
  lemma {:induction false} ArchDifference(mem: seq<byte>, p: nat, q: nat)
    requires p + 8 <= |mem| && q + 8 <= |mem|
    ensures var d := ReadArch(mem, p) ^ ReadArch(mem, q);
            if d == 0 then Agree(mem, p, q, 8)
            else Agree(mem, p, q, LowestByte(d)) && !SameAt(mem, p, q, LowestByte(d))
  {
    hide SameAt, ReadArch;
    var d := ReadArch(mem, p) ^ ReadArch(mem, q);
    ArchBytes(mem, p, q, d);
    if d != 0 && LowestByte(d) == 7 && d & 0xFF00_0000_0000_0000 == 0 {
      MaskedZero(d);
    }
  }

  /** `n` is the length of the longest common prefix of the bytes at `pIn` and `pMatch`, up to `limit`. */
  ghost predicate CommonLength(mem: seq<byte>, pIn: nat, pMatch: nat, limit: int, n: nat)
  {
    && n <= Max(0, limit - pIn)
    && Agree(mem, pIn, pMatch, n)
    && (pIn + n < limit ==> !SameAt(mem, pIn, pMatch, n))
  }

  lemma {:induction false} AgreeMore(mem: seq<byte>, p: nat, q: nat, n: nat, m: nat)
    requires Agree(mem, p, q, n) && Agree(mem, p + n, q + n, m)
    ensures Agree(mem, p, q, n + m)
  {
    forall k | 0 <= k < n + m
      ensures SameAt(mem, p, q, k)
    {
      if k >= n {
        assert SameAt(mem, p + n, q + n, k - n);
      }
    }
  }

  lemma {:induction false} CommonFrom(mem: seq<byte>, p: nat, q: nat, limit: int, n: nat, m: nat)
    requires Agree(mem, p, q, n) && CommonLength(mem, p + n, q + n, limit, m)
    requires p + n <= Max(p, limit)
    ensures CommonLength(mem, p, q, limit, n + m)
  {
    AgreeMore(mem, p, q, n, m);
  }

  /** LZ4_read32 and LZ4_read16 serve comparisons only: both sides read the same `n` bytes. */
  predicate ReadEqual(mem: seq<byte>, p: nat, q: nat, n: nat)
    requires p + n <= |mem| && q + n <= |mem|
  {
    mem[p..p + n] == mem[q..q + n]
  }

  lemma {:induction false} ReadEqual2(mem: seq<byte>, p: nat, q: nat, n: nat)
    requires p + n + 2 <= |mem| && q + n + 2 <= |mem|
    ensures ReadEqual(mem, q + n, p + n, 2) <==> SameAt(mem, p, q, n) && SameAt(mem, p, q, n + 1)
  {
    var x, y := mem[q + n..q + n + 2], mem[p + n..p + n + 2];
    assert x == y <==> x[0] == y[0] && x[1] == y[1];
  }

  lemma {:induction false} ReadEqual4(mem: seq<byte>, p: nat, q: nat, n: nat)
    requires p + n + 4 <= |mem| && q + n + 4 <= |mem|
    ensures ReadEqual(mem, q + n, p + n, 4) <==>
            SameAt(mem, p, q, n) && SameAt(mem, p, q, n + 1) && SameAt(mem, p, q, n + 2) && SameAt(mem, p, q, n + 3)
  {
    var x, y := mem[q + n..q + n + 4], mem[p + n..p + n + 4];
    assert x == y <==> x[0] == y[0] && x[1] == y[1] && x[2] == y[2] && x[3] == y[3];
  }

  /** The 4, 2 and 1 byte steps, with at most seven bytes left. */
  method CountTail(mem: seq<byte>, p: nat, q: nat, limit: int) returns (n: nat)
    requires p <= |mem| && limit <= |mem| && limit <= p + 7 && q + Max(0, limit - p) <= |mem|
    ensures CommonLength(mem, p, q, limit, n)
  {
    hide SameAt, ReadEqual;
    n := 0;
    if p < limit - 3 {
      ReadEqual4(mem, p, q, 0);
      if ReadEqual(mem, q, p, 4) {
        n := 4;
      }
    }
    if p + n < limit - 1 {
      ReadEqual2(mem, p, q, n);
      if ReadEqual(mem, q + n, p + n, 2) {
        n := n + 2;
      }
    }
    if p + n < limit {
      SameByte(mem, p, q, n);
      if mem[q + n] == mem[p + n] {
        n := n + 1;
      }
    }
  }

  lemma {:induction false} SameByte(mem: seq<byte>, p: nat, q: nat, n: nat)
    requires p + n < |mem| && q + n < |mem|
    ensures SameAt(mem, p, q, n) <==> mem[q + n] == mem[p + n]
  {
  }

  /** One word: how many of its eight bytes agree from the start. */
  method CountWord(mem: seq<byte>, p: nat, q: nat) returns (n: nat)
    requires p + 8 <= |mem| && q + 8 <= |mem|
    ensures n <= 8 && Agree(mem, p, q, n) && (n < 8 ==> !SameAt(mem, p, q, n))
  {
    hide ReadArch, SameAt, Agree, DeBruijn;
    ArchDifference(mem, p, q);
    var diff := ReadArch(mem, q) ^ ReadArch(mem, p);
    assert diff == ReadArch(mem, p) ^ ReadArch(mem, q);
    if diff == 0 {
      return 8;
    }
    return NbCommonBytes(diff);
  }

  /** LZ4_count: eight bytes at a time, then 4, 2 and 1. */
  method Count(mem: seq<byte>, pIn: nat, pMatch: nat, limit: int) returns (n: nat)
    requires pIn <= |mem| && limit <= |mem| && pMatch + Max(0, limit - pIn) <= |mem|
    ensures CommonLength(mem, pIn, pMatch, limit, n)
  {
    hide SameAt;
    n := 0;
    while pIn + n < limit - 7
      invariant pIn + n <= Max(pIn, limit)
      invariant Agree(mem, pIn, pMatch, n)
    {
      var same := CountWord(mem, pIn + n, pMatch + n);
      if same < 8 {
        CommonFrom(mem, pIn, pMatch, limit, n, same);
        return n + same;
      }
      AgreeMore(mem, pIn, pMatch, n, 8);
      n := n + 8;
    }
    var more := CountTail(mem, pIn + n, pMatch + n, limit);
    CommonFrom(mem, pIn, pMatch, limit, n, more);
    n := n + more;
  }

  // ---------------------------------------------------------------- as numbers

  lemma {:induction false} AgreeTail(mem: seq<byte>, p: nat, q: nat, n: nat, k: nat)
    requires Agree(mem, p, q, n) && k <= n
    ensures Agree(mem, p + k, q + k, n - k)
  {
    var p', q' := p + k, q + k;
    forall x | 0 <= x < n - k
      ensures SameAt(mem, p', q', x)
    {
      assert SameAt(mem, p, q, k + x);
    }
  }

  /** The longest common prefix, as a number. */
  function Common(mem: seq<byte>, p: nat, q: nat, limit: int): (n: nat)
    ensures p <= limit ==> p + n <= limit
    decreases limit - p
  {
    if p < limit && p < |mem| && q < |mem| && mem[p] == mem[q] then 1 + Common(mem, p + 1, q + 1, limit) else 0
  }

  lemma {:induction false} CommonIs(mem: seq<byte>, p: nat, q: nat, limit: int, n: nat)
    requires CommonLength(mem, p, q, limit, n)
    ensures n == Common(mem, p, q, limit)
    decreases n
  {
    if n > 0 {
      assert SameAt(mem, p, q, 0);
      AgreeTail(mem, p, q, n, 1);
      assert SameAt(mem, p + 1, q + 1, n - 1) <==> SameAt(mem, p, q, n);
      CommonIs(mem, p + 1, q + 1, limit, n - 1);
    }
  }

  lemma {:induction false} AgreeBack(mem: seq<byte>, p: nat, q: nat, n: nat)
    requires 0 < p <= |mem| && 0 < q <= |mem| && mem[p - 1] == mem[q - 1] && Agree(mem, p, q, n)
    ensures Agree(mem, p - 1, q - 1, n + 1)
  {
    assert SameAt(mem, p - 1, q - 1, 0);
    AgreeMore(mem, p - 1, q - 1, 1, n);
  }

  /** How many bytes before two addresses agree, down to a bound for either. */
  function BytesBack(mem: seq<byte>, ip: nat, m: nat, anchor: nat, low: nat): (n: nat)
    ensures anchor <= ip ==> n <= ip - anchor
    ensures low <= m ==> n <= m - low
  {
    if ip > anchor && m > low && ip <= |mem| && m <= |mem| && mem[ip - 1] == mem[m - 1]
    then 1 + BytesBack(mem, ip - 1, m - 1, anchor, low) else 0
  }

  /** In a stretch of equal bytes everything agrees, up to the limit. */
  lemma {:induction false} CommonInRun(mem: seq<byte>, p: nat, q: nat, limit: int, v: byte)
    requires q <= p <= limit <= |mem| && forall i :: q <= i < limit ==> mem[i] == v
    ensures Common(mem, p, q, limit) == limit - p
    decreases limit - p
  {
    if p < limit {
      CommonInRun(mem, p + 1, q + 1, limit, v);
    }
  }
}
