/**
  Chain swapping can lead into the last three bytes of a dictionary: an example in which the four bytes compared there
  are not all in memory.
*/
module Lz4HcSwap {
  import opened Lz4Defs
  import opened Lz4FastTable
  import opened Lz4HcChain
  import opened Lz4HcMatch
  import opened Lz4HcSearch

  const PREFIX: seq<byte> := [1, 2, 3, 4, 5, 1, 2, 3, 7, 5, 1, 2, 3, 4, 6, 5, 1, 2, 3, 4, 8, 0, 0, 0, 0, 0]

  /** The first index of the prefix. */
  const LIMIT: nat := KB64 + 3

  /** The searched position, and the head of its chain. */
  const IP: nat := LIMIT + 15
  const HEAD: nat := LIMIT + 9

  /** A block behind a dictionary of three bytes, which are the last of memory. */
  function Example(): Space
  {
    Space(PREFIX + [9, 9, 9], -(LIMIT as int), 26 - (KB64 as int), KB64, LIMIT, LIMIT + 26)
  }

  lemma {:induction false} ExampleIsValid()
    ensures Example().Valid() && !Example().Padded() && QueryOk(Example(), Query(IP, IP, IP + 6, MINMATCH - 1))
  {
  }

  /** The hash `x` of the four bytes at `i`, given the quotient `q` and remainder `r` that it is the upper part of. */
  lemma {:induction false} HashIs(i: nat, v: nat, q: nat, r: nat, x: nat)
    requires i <= 22 && Read32(PREFIX, i) == v
    requires v * 2654435761 == q * TWO32 + r && x * 0x2_0000 <= r < (x + 1) * 0x2_0000 <= TWO32
    ensures Example().HashAt(LIMIT + i) == x
  {
    hide HashHc;
    assert Example().Addr(LIMIT + i) == i;
    assert Example().mem[i..i + 4] == PREFIX[i..i + 4];
    SameBytes(i);
    HashFrom(v, q, r, x);
  }

  lemma {:induction false} HashFrom(v: nat, q: nat, r: nat, x: nat)
    requires v * 2654435761 == q * TWO32 + r && x * 0x2_0000 <= r < (x + 1) * 0x2_0000 <= TWO32
    ensures HashHc(v) == x
  {
    RemainderIs(v * 2654435761, q, r);
    UpperPart(r, x);
  }

  lemma {:induction false} RemainderIs(w: nat, q: nat, r: nat)
    requires w == q * TWO32 + r && r < TWO32
    ensures w % TWO32 == r
  {
  }

  lemma {:induction false} UpperPart(r: nat, x: nat)
    requires x * 0x2_0000 <= r < (x + 1) * 0x2_0000
    ensures r / 0x2_0000 == x
  {
  }

  lemma {:induction false} SameBytes(i: nat)
    requires i <= 22
    ensures Read32(Example().mem, i) == Read32(PREFIX, i)
  {
    var m, p := Example().mem, PREFIX;
    assert m[i] == p[i] && m[i + 1] == p[i + 1] && m[i + 2] == p[i + 2] && m[i + 3] == p[i + 3];
  }

  lemma {:induction false} Hashes0To3()
    ensures Example().HashAt(LIMIT + 0) == 7966
    ensures Example().HashAt(LIMIT + 1) == 8016
    ensures Example().HashAt(LIMIT + 2) == 25857
    ensures Example().HashAt(LIMIT + 3) == 13559
  {
    hide Space.HashAt;
    HashIs(0, 67305985, 41597386, 1044241329, 7966);
    HashIs(1, 84148994, 52006938, 1050674786, 8016);
    HashIs(2, 17105923, 10572041, 3389141267, 25857);
    HashIs(3, 33621252, 20779076, 1777294276, 13559);
  }

  lemma {:induction false} Hashes4To7()
    ensures Example().HashAt(LIMIT + 4) == 10872
    ensures Example().HashAt(LIMIT + 5) == 10398
    ensures Example().HashAt(LIMIT + 6) == 21977
    ensures Example().HashAt(LIMIT + 7) == 14391
  {
    hide Space.HashAt;
    HashIs(4, 50462981, 31187837, 1425084789, 10872);
    HashIs(5, 117637633, 72704055, 1363008433, 10398);
    HashIs(6, 84345602, 52128448, 2880636514, 21977);
    HashIs(7, 17106691, 10572516, 1886340115, 14391);
  }

  lemma {:induction false} Hashes8To11()
    ensures Example().HashAt(LIMIT + 8) == 8778
    ensures Example().HashAt(LIMIT + 9) == 10872
    ensures Example().HashAt(LIMIT + 10) == 7966
    ensures Example().HashAt(LIMIT + 11) == 30672
  {
    hide Space.HashAt;
    HashIs(8, 33621255, 20779078, 1150666967, 8778);
    HashIs(9, 50462981, 31187837, 1425084789, 10872);
    HashIs(10, 67305985, 41597386, 1044241329, 7966);
    HashIs(11, 100926210, 62375827, 4020242018, 30672);
  }

  lemma {:induction false} Hashes12To15()
    ensures Example().HashAt(LIMIT + 12) == 985
    ensures Example().HashAt(LIMIT + 13) == 27542
    ensures Example().HashAt(LIMIT + 14) == 21295
    ensures Example().HashAt(LIMIT + 15) == 10872
  {
    hide Space.HashAt;
    HashIs(12, 84280323, 52088104, 129184019, 985);
    HashIs(13, 17106436, 10572358, 3610053828, 27542);
    HashIs(14, 33621254, 20779077, 2791198502, 21295);
    HashIs(15, 50462981, 31187837, 1425084789, 10872);
  }

  lemma {:induction false} Hashes()
    ensures Example().HashAt(LIMIT) == Example().HashAt(HEAD + 1) == 7966
    ensures Example().HashAt(LIMIT + 4) == Example().HashAt(HEAD) == Example().HashAt(IP) == 10872
    ensures forall i :: LIMIT < i < HEAD + 1 ==> Example().HashAt(i) != 7966
    ensures forall i :: HEAD < i < IP ==> Example().HashAt(i) != 10872
  {
    hide Space.HashAt;
    Hashes0To3();
    Hashes4To7();
    Hashes8To11();
    Hashes12To15();
  }

  lemma {:induction false} PrefixAt(i: nat)
    requires i < 26
    ensures Example().Valid() && Example().At(LIMIT + i) == PREFIX[i]
  {
  }

  /** The head of the chain gives a match of exactly five bytes, which ends before the searched position. */
  lemma {:induction false} HeadMatches()
    ensures Example().Valid() && Repeats(Example(), HEAD, IP, 5) && !EqualAt(Example(), HEAD, IP, 5) && HEAD + 5 <= IP
  {
    hide Space.At;
    PrefixAt(9);
    PrefixAt(10);
    PrefixAt(11);
    PrefixAt(12);
    PrefixAt(13);
    PrefixAt(14);
    PrefixAt(15);
    PrefixAt(16);
    PrefixAt(17);
    PrefixAt(18);
    PrefixAt(19);
    PrefixAt(20);
    forall k | 0 <= k < 5
      ensures EqualAt(Example(), HEAD, IP, k)
    {
      assert k == 0 || k == 1 || k == 2 || k == 3 || k == 4;
    }
  }

  /**
    Whatever tables are exact for the example: swapping prefers the second position, whose link ends at the prefix's
    start.
  */
  lemma {:induction false} SwapLeads(h: seq<nat>, c: seq<nat>)
    requires Heads(Example(), h, IP) && Links(Example(), c, IP)
    ensures h[Example().HashAt(IP)] == HEAD
    ensures SwapFrom(c, HEAD, 5 - MINMATCH + 1, 0, 16, 1, 0) == (10, 1)
  {
    hide Space.HashAt;
    var s := Example();
    Hashes();
    ExampleIsValid();
    assert Latest(s, h[10872], 10872, IP) && s.Chained(HEAD);
    assert LinkOk(s, HEAD, c[HEAD % MAXD]) && s.Chained(LIMIT + 4);
    assert LinkOk(s, HEAD + 1, c[(HEAD + 1) % MAXD]) && s.Chained(HEAD + 1) && s.Chained(LIMIT);
  }

  /** So the next candidate is the last byte of the dictionary; three of the bytes compared there lie behind it. */
  lemma {:induction false} CandidateNotInside()
    ensures var s, m := Example(), HEAD - 10;
            && s.lowLimit <= m < s.dictLimit && !s.Chained(m) && m >= LowestMatchIndex(s, IP)
            && s.Addr(m) == s.dictBase + s.dictLimit - 1 && s.Addr(m) + 4 > |s.mem|
  {
  }

  /**
    Tables like that are made by inserting the prefix. The head of the searched position's chain gives a match of
    exactly five bytes; the swap that follows leads to an index whose four bytes are not all in memory.
  */
  method Reach() returns (t: ChainTables, distance: nat, chainPos: nat)
    ensures t.Exact(Example()) && t.nextToUpdate == IP && t.hashTable[Example().HashAt(IP)] == HEAD
    ensures Repeats(Example(), HEAD, IP, 5) && !EqualAt(Example(), HEAD, IP, 5) && HEAD + 5 <= IP
    ensures (distance, chainPos) == SwapFrom(t.chainTable[..], HEAD, 5 - MINMATCH + 1, 0, 16, 1, 0)
    ensures var m := HEAD - distance;
            && Example().lowLimit <= m < Example().dictLimit && !Example().Chained(m)
               && LowestMatchIndex(Example(), IP) <= m
            && Example().Addr(m) + 4 > |Example().mem|
  {
    hide Heads, Links, Repeats, EqualAt;
    t := new ChainTables();
    t.nextToUpdate := LIMIT;
    ExampleIsValid();
    NothingInserted(t.hashTable[..], t.chainTable[..]);
    t.Insert(Example(), IP);
    SwapLeads(t.hashTable[..], t.chainTable[..]);
    distance, chainPos := SwapChain(t, HEAD, 5, 0);
    CandidateNotInside();
    HeadMatches();
  }

  lemma {:induction false} NothingInserted(h: seq<nat>, c: seq<nat>)
    requires |h| == HC_HASHSIZE && (forall x :: 0 <= x < HC_HASHSIZE ==> h[x] == 0)
    requires |c| == MAXD && (forall k :: 0 <= k < MAXD ==> c[k] == 0xFFFF)
    ensures Heads(Example(), h, LIMIT) && Links(Example(), c, LIMIT)
  {
  }
}
