/**
  The tables of the HC compressor: a hash table of most recent positions and, through 65536 reused 16-bit
  slots, chains of earlier positions with the same hash. Positions are indices, counted from `base`.
*/
module Lz4HcChain {
  import opened Lz4Defs
  import opened Lz4FastTable

  const HC_HASHSIZE: nat := 0x8000
  const MAXD: nat := 0x1_0000

  /** HASH_FUNCTION: 32-bit multiplication, upper 15 bits. */
  function HashHc(sequence: nat): (h: nat)
    ensures h < HC_HASHSIZE
  {
    (sequence * 2654435761) % TWO32 / 0x2_0000
  }

  /**
    What a context knows of memory while it compresses one block: indices from `dictLimit` on count from `base`,
    those below, down to `lowLimit`, are an external dictionary and count from `dictBase`. `end` is the index
    of the block's end.
  */
  datatype Space = Space(mem: seq<byte>, base: int, dictBase: int, lowLimit: nat, dictLimit: nat, end: nat) {
    predicate Valid()
    {
      && KB64 <= lowLimit <= dictLimit <= end < INDEX_LIMIT
      && 0 <= base + dictLimit && base + end <= |mem|
      && (lowLimit < dictLimit ==> 0 <= dictBase + lowLimit && dictBase + dictLimit <= |mem|)
    }

    /** Three more bytes can be read behind the dictionary. */
    predicate Padded()
    {
      lowLimit < dictLimit ==> dictBase + dictLimit + 3 <= |mem|
    }

    function Addr(i: int): int
    {
      if i < dictLimit then dictBase + i else base + i
    }

    /** The byte at an index. */
    function At(i: int): byte
      requires Valid() && lowLimit <= i < end
    {
      mem[Addr(i)]
    }

    /** Dictionary and prefix in one piece, as the decoder will see them. */
    function Window(): (w: seq<byte>)
      requires Valid()
      ensures |w| == end - lowLimit
    {
      (if lowLimit < dictLimit then mem[dictBase + lowLimit..dictBase + dictLimit]
          else []) + mem[base + dictLimit..base + end]
    }

    /** Indices that are, once passed, in a chain: all but the last three of the dictionary. */
    predicate Chained(i: int)
    {
      lowLimit <= i && !(dictLimit - 3 <= i < dictLimit)
    }

    /** The hash of the four bytes at an index. */
    function HashAt(i: int): (h: nat)
      ensures h < HC_HASHSIZE
    {
      if 0 <= Addr(i) && Addr(i) + 4 <= |mem| then HashHc(Read32(mem, Addr(i))) else 0
    }
  }

  lemma {:induction false} WindowAt(s: Space, i: nat)
    requires s.Valid() && s.lowLimit <= i < s.end
    ensures s.Window()[i - s.lowLimit] == s.At(i)
  {
  }

  // ---------------------------------------------------------------- what the tables hold

  /** No chained index strictly between two has this hash. */
  ghost predicate NoneBetween(s: Space, lo: int, hi: int, x: nat)
  {
    forall i :: lo < i < hi && s.Chained(i) ==> s.HashAt(i) != x
  }

  /** `e` is the last index before `top` with hash `x`, or there is none and `e` is out of the window. */
  ghost predicate Latest(s: Space, e: int, x: nat, top: int)
  {
    && e < top && (s.lowLimit <= e ==> s.Chained(e) && s.HashAt(e) == x)
    && NoneBetween(s, e, top, x)
  }

  /** A link leads to the index before with the same hash, or as far as a link can. */
  ghost predicate LinkOk(s: Space, i: int, d: nat)
  {
    && 1 <= d <= DISTANCE_MAX && NoneBetween(s, i - d, i, s.HashAt(i))
    && (d < DISTANCE_MAX && s.lowLimit <= i - d ==> s.Chained(i - d) && s.HashAt(i - d) == s.HashAt(i))
  }

  ghost predicate Heads(s: Space, h: seq<nat>, next: int)
  {
    |h| == HC_HASHSIZE && forall x :: 0 <= x < HC_HASHSIZE ==> Latest(s, h[x], x, next)
  }

  /** Only the latest 65536 indices still own their slot. */
  ghost predicate Links(s: Space, c: seq<nat>, next: int)
  {
    && |c| == MAXD && (forall k :: 0 <= k < MAXD ==> c[k] <= DISTANCE_MAX)
    && forall i :: next - MAXD <= i < next && s.Chained(i) ==> LinkOk(s, i, c[i % MAXD])
  }

  lemma {:induction false} SlotsDiffer(i: int, j: int)
    requires i < j < i + MAXD
    ensures i % MAXD != j % MAXD
  {
  }

  lemma {:induction false} HeadsStep(s: Space, h: seq<nat>, idx: nat)
    requires s.Valid() && Heads(s, h, idx) && s.Chained(idx)
    ensures Heads(s, h[s.HashAt(idx) := idx], idx + 1)
  {
    var h' := h[s.HashAt(idx) := idx];
    forall x | 0 <= x < HC_HASHSIZE
      ensures Latest(s, h'[x], x, idx + 1)
    {
      assert Latest(s, h[x], x, idx);
      var e := h'[x];
      forall i | e < i < idx + 1 && s.Chained(i)
        ensures s.HashAt(i) != x
      {
      }
    }
  }

  lemma {:induction false} LinksStep(s: Space, h: seq<nat>, c: seq<nat>, idx: nat)
    requires s.Valid() && Heads(s, h, idx) && Links(s, c, idx) && s.Chained(idx)
    ensures Links(s, c[idx % MAXD := Min(idx - h[s.HashAt(idx)], DISTANCE_MAX)], idx + 1)
  {
    hide LinkOk;
    var x := s.HashAt(idx);
    var d := Min(idx - h[x], DISTANCE_MAX);
    var c' := c[idx % MAXD := d];
    NewLinkOk(s, idx, h[x]);
    var next := idx + 1;
    forall i | next - MAXD <= i < next && s.Chained(i)
      ensures LinkOk(s, i, c'[i % MAXD])
    {
      if i < idx {
        SlotsDiffer(i, idx);
        assert LinkOk(s, i, c[i % MAXD]);
      }
    }
  }

  lemma {:induction false} NewLinkOk(s: Space, idx: nat, e: nat)
    requires Latest(s, e, s.HashAt(idx), idx)
    ensures LinkOk(s, idx, Min(idx - e, DISTANCE_MAX))
  {
  }

  // ---------------------------------------------------------------- what a walk along a chain visits

  /** Walking from index `i`, link by link, while not below `low`, visits `j`. */
  predicate Visits(c: seq<nat>, i: int, low: nat, j: int)
    requires |c| == MAXD
    decreases i
  {
    low <= i && (i == j || (1 <= c[i % MAXD] && Visits(c, i - c[i % MAXD], low, j)))
  }

  lemma {:induction false} VisitsFrom(s: Space, c: seq<nat>, next: int, i: int, low: nat, j: int)
    requires s.Valid() && Links(s, c, next) && s.lowLimit <= low && next - DISTANCE_MAX <= low
    requires i < next && (low <= i ==> s.Chained(i))
    ensures low <= i ==> (Visits(c, i, low, j) <==> low <= j <= i && s.Chained(j) && s.HashAt(j) == s.HashAt(i))
    ensures i < low ==> !Visits(c, i, low, j)
    decreases i
  {
    if low <= i {
      var d := c[i % MAXD];
      assert LinkOk(s, i, d);
      VisitsFrom(s, c, next, i - d, low, j);
    }
  }

  /**
    In spite of 16-bit slots that are reused and links that are cut off, a walk from the head of a hash visits
    exactly the earlier indices within reach that have this hash. The walk goes strictly downwards.
  */
  lemma {:induction false} WalkIsExact(s: Space, h: seq<nat>, c: seq<nat>, next: nat, x: nat, low: nat, j: int)
    requires s.Valid() && Heads(s, h, next) && Links(s, c, next) && x < HC_HASHSIZE
    requires s.lowLimit <= low && next - DISTANCE_MAX <= low
    ensures Visits(c, h[x], low, j) <==> low <= j < next && s.Chained(j) && s.HashAt(j) == x
  {
    assert Latest(s, h[x], x, next);
    VisitsFrom(s, c, next, h[x], low, j);
  }

  /** Both tables, and the first index that is not in them. */
  datatype Tables = Tables(h: seq<nat>, c: seq<nat>, next: nat)
  {
    predicate Sized()
    {
      |h| == HC_HASHSIZE && |c| == MAXD
    }
  }

  /** The next index has entered its chain. */
  function Entered(s: Space, t: Tables): (t': Tables)
    requires t.Sized()
    ensures t'.Sized() && t'.next == t.next + 1
  {
    var x := s.HashAt(t.next);
    var delta := Max(0, Min(t.next - t.h[x], DISTANCE_MAX));
    Tables(t.h[x := t.next], t.c[t.next % MAXD := delta], t.next + 1)
  }

  /** So have all before `target`. */
  function Inserted(s: Space, t: Tables, target: nat): (t': Tables)
    requires t.Sized()
    ensures t'.Sized() && t'.next == Max(t.next, target)
    decreases target - t.next
  {
    if t.next >= target then t else Inserted(s, Entered(s, t), target)
  }

  class ChainTables {
    const hashTable: array<nat>
    const chainTable: array<nat>
    var nextToUpdate: nat

    /** The tables tell exactly what lies before `nextToUpdate`. */
    ghost predicate Exact(s: Space)
      reads this, hashTable, chainTable
    {
      && s.Valid() && s.dictLimit <= nextToUpdate
      && hashTable.Length == HC_HASHSIZE && chainTable.Length == MAXD
      && Heads(s, hashTable[..], nextToUpdate) && Links(s, chainTable[..], nextToUpdate)
    }

    ghost function Value(): Tables
      reads this, hashTable, chainTable
    {
      Tables(hashTable[..], chainTable[..], nextToUpdate)
    }

    /** LZ4HC_clearTables. */
    constructor ()
      ensures fresh(hashTable) && fresh(chainTable) && Cleared()
    {
      hashTable := new nat[HC_HASHSIZE](i => 0);
      chainTable := new nat[MAXD](i => 0xFFFF);
    }

    ghost predicate Cleared()
      reads this, hashTable, chainTable
    {
      && hashTable.Length == HC_HASHSIZE && chainTable.Length == MAXD
      && (forall x :: 0 <= x < HC_HASHSIZE ==> hashTable[x] == 0)
      && (forall k :: 0 <= k < MAXD ==> chainTable[k] == 0xFFFF)
    }

    method ClearTables()
      requires hashTable.Length == HC_HASHSIZE && chainTable.Length == MAXD
      modifies hashTable, chainTable
      ensures Cleared()
    {
      forall x | 0 <= x < HC_HASHSIZE {
        hashTable[x] := 0;
      }
      forall k | 0 <= k < MAXD {
        chainTable[k] := 0xFFFF;
      }
    }

    /** LZ4HC_Insert: every index before `target` enters its chain. */
    method Insert(s: Space, target: nat)
      requires Exact(s) && nextToUpdate <= target && target + 3 <= s.end
      modifies this`nextToUpdate, hashTable, chainTable
      ensures Exact(s) && nextToUpdate == target && Value() == Inserted(s, old(Value()), target)
    {
      hide Heads, Links, Entered;
      var idx := nextToUpdate;
      while idx < target
        invariant s.dictLimit <= idx <= target
        invariant Heads(s, hashTable[..], idx) && Links(s, chainTable[..], idx)
        invariant Inserted(s, Tables(hashTable[..], chainTable[..], idx), target) == Inserted(s, old(Value()), target)
        modifies hashTable, chainTable
      {
        Enter(s, idx);
        idx := idx + 1;
      }
      nextToUpdate := target;
    }

    /** The body of its loop. */
    method Enter(s: Space, idx: nat)
      requires s.Valid() && s.dictLimit <= idx && idx + 4 <= s.end
      requires Heads(s, hashTable[..], idx) && Links(s, chainTable[..], idx)
      modifies hashTable, chainTable
      ensures Heads(s, hashTable[..], idx + 1) && Links(s, chainTable[..], idx + 1)
      ensures Tables(hashTable[..], chainTable[..], idx + 1)
              == Entered(s, Tables(old(hashTable[..]), old(chainTable[..]), idx))
    {
      HeadsStep(s, hashTable[..], idx);
      LinksStep(s, hashTable[..], chainTable[..], idx);
      var h := HashHc(Read32(s.mem, s.base + idx));
      assert h == s.HashAt(idx);
      assert Latest(s, hashTable[..][h], h, idx);
      ghost var ht, ct := hashTable[..], chainTable[..];
      var delta: nat := idx - hashTable[h];
      if delta > DISTANCE_MAX {
        delta := DISTANCE_MAX;
      }
      chainTable[idx % MAXD] := delta;
      hashTable[h] := idx;
      assert hashTable[..] == ht[h := idx];
      assert chainTable[..] == ct[idx % MAXD := delta];
    }
  }
}
