/**
  Where the fast search's counter leaves the range of an int: a block in which every probe misses, for each pair
  of an acceleration and a size that do not suit each other.
*/
module Lz4FastLimit {
  import opened Lz4Defs
  import opened Lz4Count
  import opened Lz4FastTable

  /** Zeros but for the bytes that the first search probes, which differ from all in reach before them. */
  function MissingByte(a: nat, i: nat): byte
    requires 1 <= a
  {
    if i == 1 then 2 else if 2 <= i && (i - 2) / a * a == i - 2 then 1 else 0
  }

  function MissingInput(a: nat, n: nat): (mem: seq<byte>)
    requires 1 <= a
    ensures |mem| == n
  {
    seq(n, i requires 0 <= i < n => MissingByte(a, i))
  }

  function MissingBlock(a: nat, n: nat): Block
    requires 1 <= a
  {
    Block(MissingInput(a, n), 0, n, 0, if n < LIMIT_64K then ByU16 else ByU32, DictDirective.NoDict, 0, 0, false,
          NotLimited, 0, a)
  }

  /** The first search starts at the second byte, so this is where its probe `j` looks. */
  lemma {:induction false} BytesInReach(a: nat, j: nat, m: nat)
    requires DISTANCE_MAX < a && j <= 65
    requires m < 1 + ProbePos(a, j) <= m + DISTANCE_MAX
    ensures MissingByte(a, m) != MissingByte(a, 1 + ProbePos(a, j))
  {
    if j > 0 {
      ProbesApart(a, j);
      var c := j - 1;
      assert 1 + ProbePos(a, j) == 2 + c * a;
      QuotientAtLeast(c, c * a, a);
      QuotientAtMost(c * a, c, a);
      if 2 <= m {
        BetweenMultiples(m - 2, c, a);
      }
    }
  }

  lemma {:induction false} BetweenMultiples(x: nat, c: nat, a: nat)
    requires 1 <= a && x < c * a < x + a
    ensures x / a * a != x
  {
    var q := x / a;
    ProductsGrow(c, q, a);
    ProductsGrow(q + 1, c, a);
    assert (q + 1) * a == q * a + a;
  }

  /** No probe of the first search can find a match. */
  lemma {:induction false} ProbeMisses(a: nat, n: nat, j: nat, m: nat, low: nat)
    requires DISTANCE_MAX < a && j <= 65 && n <= MAX_INPUT_SIZE && Probed(a, j, n - MFLIMIT)
    ensures !MatchAt(MissingBlock(a, n), 1 + ProbePos(a, j), m, low)
  {
    hide ProbePos, MissingByte;
    var k, ip := MissingBlock(a, n), 1 + ProbePos(a, j);
    if MatchAt(k, ip, m, low) {
      assert SameAt(k.mem, ip, m, 0);
      BytesInReach(a, j, m);
    }
  }

  /** So the first search of this block goes to its end, and its counter out of the range of an int. */
  method SearchOverflows(a: nat, n: nat, t: array<nat>) returns (ghost probes: nat)
    requires 1 <= a && n <= MAX_INPUT_SIZE && !CounterFits(a, n)
    requires t.Length == HASH_CELLS && forall h :: 0 <= h < HASH_CELLS ==> t[h] == 0
    modifies t
    ensures Counter(a, probes) > INT_MAX
  {
    hide ProbePos, MatchAt, MissingInput;
    LastProbeOverflows(a, n);
    var k := MissingBlock(a, n);
    PutFirst(k, t);
    var r, ip;
    ghost var top;
    r, ip, top, probes := FindMatch(k, t, 0, 1);
    ghost var last := LastProbe(a, n);
    if probes <= last {
      ProbesGrow(a, probes, last);
      ProbeMisses(a, n, probes - 1, if r.Hit? then r.m else 0, if r.Hit? then r.low else 0);
    }
  }
}
