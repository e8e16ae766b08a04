/**
  What LZ4_compress_generic writes, as a function of its input and its table: the sequences of the unlimited run, the
  size they take, and how much of them is written when a given output is to be filled.
*/
module Lz4FastPlan {
  import opened Lz4Defs
  import opened Lz4Format
  import opened Lz4Encode
  import opened Lz4Count
  import opened Lz4FastTable

  /** The sequences of a block, where its last literals start, and the table it leaves. */
  datatype Planned = Planned(ss: Seqs, anchor: nat, table: seq<nat>)

  /** A sequence: literals, and the longest match at a candidate. */
  function SequenceAt(k: Block, anchor: nat, ip: nat, m: nat, low: nat): (s: Sequence)
    requires k.Valid() && anchor <= ip && ip + MFLIMIT <= k.Iend()
    ensures |s.lits| == ip - anchor && MINMATCH <= s.mlen && ip + s.mlen <= k.Iend() - LASTLITERALS
  {
    Sequence(k.mem[anchor..ip], Max(0, Offset(k, ip, m, low)), CodeOf(k, ip, m, low) + MINMATCH)
  }

  /** From a search at `ip` on. */
  function PlanSearch(k: Block, t: seq<nat>, anchor: nat, ip: nat, ss: Seqs): (p: Planned)
    requires k.Valid() && |t| == HASH_CELLS && k.source <= anchor <= ip && ip + MFLIMIT <= k.Iend() + 1
    ensures anchor <= p.anchor <= k.Iend() && |p.table| == HASH_CELLS
    ensures p.anchor == anchor || p.anchor + LASTLITERALS <= k.Iend()
    decreases k.Iend() - anchor, 1
  {
    var f := SearchFrom(k, t, ip, 0);
    if f.r.Miss? then Planned(ss, anchor, f.table)
    else
      var n := BytesBack(k.mem, f.ip, f.r.m, anchor, f.r.low);
      PlanMatch(k, f.table, anchor, f.ip - n, f.r.m - n, f.r.low, ss)
  }

  /** From a match on. */
  function PlanMatch(k: Block, t: seq<nat>, anchor: nat, ip: nat, m: nat, low: nat, ss: Seqs): (p: Planned)
    requires k.Valid() && |t| == HASH_CELLS && k.source <= anchor <= ip && ip + MFLIMIT <= k.Iend()
    ensures anchor <= p.anchor && p.anchor + LASTLITERALS <= k.Iend() && |p.table| == HASH_CELLS
    decreases k.Iend() - anchor, 0
  {
    var s := SequenceAt(k, anchor, ip, m, low);
    PlanBehind(k, t, ip + s.mlen, Snoc(ss, s))
  }

  /** Behind a match: the position there is tested before the search goes on. */
  function PlanBehind(k: Block, t: seq<nat>, next: nat, ss: Seqs): (p: Planned)
    requires k.Valid() && |t| == HASH_CELLS && k.source + MINMATCH <= next && next + LASTLITERALS <= k.Iend()
    ensures next <= p.anchor && p.anchor + LASTLITERALS <= k.Iend() && |p.table| == HASH_CELLS
    decreases k.Iend() - next, 2
  {
    if next >= k.Iend() - MFLIMIT + 1 then Planned(ss, next, t)
    else
      var t1 := t[Hash(k, next - 2) := k.Index(next - 2)];
      var r := ProbeResult(k, t1[Hash(k, next)], next);
      var t2 := t1[Hash(k, next) := k.Index(next)];
      if r.Hit? then PlanMatch(k, t2, next, next, r.m, r.low, ss) else PlanSearch(k, t2, next, next + 1, ss)
  }

  /** The whole block. */
  function PlanOf(k: Block, t: seq<nat>): (p: Planned)
    requires k.Valid() && |t| == HASH_CELLS
    ensures k.source <= p.anchor <= k.Iend() && |p.table| == HASH_CELLS
  {
    if k.n < MIN_LENGTH then Planned(Start, k.source, t)
    else PlanSearch(k, t[Hash(k, k.source) := k.Index(k.source)], k.source, k.source + 1, Start)
  }

  // ---------------------------------------------------------------- the limit plays no part

  predicate SameBut(k: Block, k': Block)
  {
    k' == k.(limit := k'.limit, olimit := k'.olimit) && k.Valid() && k'.Valid()
  }

  lemma {:induction false} HashSame(k: Block, k': Block, p: nat)
    requires SameBut(k, k') && p + 8 <= |k.mem|
    ensures Hash(k, p) == Hash(k', p) && k.Index(p) == k'.Index(p)
  {
  }

  lemma {:induction false} ProbeSame(k: Block, k': Block, e: nat, ip: nat)
    requires SameBut(k, k') && k.source <= ip && ip + 4 <= |k.mem|
    ensures ProbeResult(k, e, ip) == ProbeResult(k', e, ip)
  {
  }

  lemma {:induction false} SequenceSame(k: Block, k': Block, anchor: nat, ip: nat, m: nat, low: nat)
    requires SameBut(k, k') && anchor <= ip && ip + MFLIMIT <= k.Iend()
    ensures SequenceAt(k, anchor, ip, m, low) == SequenceAt(k', anchor, ip, m, low)
  {
    hide Common;
  }

  lemma {:induction false} SameBounds(k: Block, k': Block)
    requires SameBut(k, k')
    ensures k.Valid() && k'.Valid() && k.Iend() == k'.Iend() && k.mem == k'.mem && k.source == k'.source && k.n == k'.n
    ensures k.acceleration == k'.acceleration && 1 <= k.acceleration && k.Iend() <= |k.mem|
  {
  }

  lemma {:induction false} StepsGrow(a: nat, j: nat)
    requires 1 <= a
    ensures j > 0 ==> 1 <= Counter(a, j - 1) / 64
  {
  }

  lemma {:induction false} SearchSame(k: Block, k': Block, t: seq<nat>, ip: nat, j: nat)
    requires SameBut(k, k') && |t| == HASH_CELLS && k.source <= ip && ip + MFLIMIT <= k.Iend() + 1
    ensures SearchFrom(k, t, ip, j) == SearchFrom(k', t, ip, j)
    decreases k.Iend() - ip
  {
    hide Hash, ProbeResult, SearchFrom, Block.Valid, Block.Window, SameBut, Counter;
    SameBounds(k, k');
    StepsGrow(k.acceleration, j);
    HashSame(k, k', ip);
    ProbeSame(k, k', t[Hash(k, ip)], ip);
    var next := ip + (if j == 0 then 1 else Counter(k.acceleration, j - 1) / 64);
    SearchStep(k, t, ip, j, next);
    SearchStep(k', t, ip, j, next);
    if next <= k.Iend() - MFLIMIT + 1 {
      SearchSame(k, k', t[Hash(k, ip) := k.Index(ip)], next, j + 1);
    }
  }

  lemma {:induction false} PlanSearchSame(k: Block, k': Block, t: seq<nat>, anchor: nat, ip: nat, ss: Seqs)
    requires SameBut(k, k') && |t| == HASH_CELLS && k.source <= anchor <= ip && ip + MFLIMIT <= k.Iend() + 1
    ensures PlanSearch(k, t, anchor, ip, ss) == PlanSearch(k', t, anchor, ip, ss)
    decreases k.Iend() - anchor, 1
  {
    hide SearchFrom, PlanMatch, BytesBack;
    SearchSame(k, k', t, ip, 0);
    var f := SearchFrom(k, t, ip, 0);
    if f.r.Hit? {
      var n := BytesBack(k.mem, f.ip, f.r.m, anchor, f.r.low);
      PlanMatchSame(k, k', f.table, anchor, f.ip - n, f.r.m - n, f.r.low, ss);
    }
  }

  lemma {:induction false} PlanMatchSame(k: Block, k': Block, t: seq<nat>, anchor: nat, ip: nat, m: nat, low: nat,
      ss: Seqs)
    requires SameBut(k, k') && |t| == HASH_CELLS && k.source <= anchor <= ip && ip + MFLIMIT <= k.Iend()
    ensures PlanMatch(k, t, anchor, ip, m, low, ss) == PlanMatch(k', t, anchor, ip, m, low, ss)
    decreases k.Iend() - anchor, 0
  {
    hide PlanBehind, SequenceAt, Block.Valid, SameBut;
    SameBounds(k, k');
    SequenceSame(k, k', anchor, ip, m, low);
    var s := SequenceAt(k, anchor, ip, m, low);
    PlanBehindSame(k, k', t, ip + s.mlen, Snoc(ss, s));
  }

  lemma {:induction false} PlanBehindSame(k: Block, k': Block, t: seq<nat>, next: nat, ss: Seqs)
    requires SameBut(k, k') && |t| == HASH_CELLS && k.source + MINMATCH <= next && next + LASTLITERALS <= k.Iend()
    ensures PlanBehind(k, t, next, ss) == PlanBehind(k', t, next, ss)
    decreases k.Iend() - next, 2
  {
    hide PlanSearch, PlanMatch, Hash, ProbeResult, Block.Valid, SameBut;
    SameBounds(k, k');
    if next < k.Iend() - MFLIMIT + 1 {
      HashSame(k, k', next - 2);
      HashSame(k, k', next);
      var t1 := t[Hash(k, next - 2) := k.Index(next - 2)];
      ProbeSame(k, k', t1[Hash(k, next)], next);
      var r := ProbeResult(k, t1[Hash(k, next)], next);
      var t2 := t1[Hash(k, next) := k.Index(next)];
      if r.Hit? {
        PlanMatchSame(k, k', t2, next, next, r.m, r.low, ss);
      } else {
        PlanSearchSame(k, k', t2, next, next + 1, ss);
      }
    }
  }

  /** Calls that differ only in their output limit plan the same. */
  lemma {:induction false} PlanSame(k: Block, k': Block, t: seq<nat>)
    requires SameBut(k, k') && |t| == HASH_CELLS
    ensures PlanOf(k, t) == PlanOf(k', t)
  {
    hide PlanSearch, Hash, Block.Window;
    if k.n >= MIN_LENGTH {
      HashSame(k, k', k.source);
      PlanSearchSame(k, k', t[Hash(k, k.source) := k.Index(k.source)], k.source, k.source + 1, Start);
    }
  }

  // ---------------------------------------------------------------- bytes and sizes

  /** What a block takes: its sequences, and the last literals. */
  function PlanSize(k: Block, p: Planned): nat
    requires p.anchor <= k.Iend()
  {
    SizeOf(p.ss) + LitSize(k.Iend() - p.anchor)
  }

  /** A plan only adds to the sequences it starts with. */
  lemma {:induction false} PlanSearchExtends(k: Block, t: seq<nat>, anchor: nat, ip: nat, ss: Seqs)
    requires k.Valid() && |t| == HASH_CELLS && k.source <= anchor <= ip && ip + MFLIMIT <= k.Iend() + 1
    ensures Extends(ss, PlanSearch(k, t, anchor, ip, ss).ss)
    decreases k.Iend() - anchor, 1
  {
    hide SearchFrom, PlanMatch, BytesBack;
    var f := SearchFrom(k, t, ip, 0);
    if f.r.Hit? {
      var n := BytesBack(k.mem, f.ip, f.r.m, anchor, f.r.low);
      PlanMatchExtends(k, f.table, anchor, f.ip - n, f.r.m - n, f.r.low, ss);
      ExtendsFrom(ss, SequenceAt(k, anchor, f.ip - n, f.r.m - n, f.r.low), PlanSearch(k, t, anchor, ip, ss).ss);
    }
  }

  lemma {:induction false} PlanMatchExtends(k: Block, t: seq<nat>, anchor: nat, ip: nat, m: nat, low: nat, ss: Seqs)
    requires k.Valid() && |t| == HASH_CELLS && k.source <= anchor <= ip && ip + MFLIMIT <= k.Iend()
    ensures Extends(Snoc(ss, SequenceAt(k, anchor, ip, m, low)), PlanMatch(k, t, anchor, ip, m, low, ss).ss)
    decreases k.Iend() - anchor, 0
  {
    hide PlanBehind, SequenceAt;
    var s := SequenceAt(k, anchor, ip, m, low);
    PlanBehindExtends(k, t, ip + s.mlen, Snoc(ss, s));
  }

  lemma {:induction false} PlanBehindExtends(k: Block, t: seq<nat>, next: nat, ss: Seqs)
    requires k.Valid() && |t| == HASH_CELLS && k.source + MINMATCH <= next && next + LASTLITERALS <= k.Iend()
    ensures Extends(ss, PlanBehind(k, t, next, ss).ss)
    decreases k.Iend() - next, 2
  {
    hide PlanSearch, PlanMatch, Hash, ProbeResult, SequenceAt;
    if next < k.Iend() - MFLIMIT + 1 {
      var t1 := t[Hash(k, next - 2) := k.Index(next - 2)];
      var r := ProbeResult(k, t1[Hash(k, next)], next);
      var t2 := t1[Hash(k, next) := k.Index(next)];
      if r.Hit? {
        PlanMatchExtends(k, t2, next, next, r.m, r.low, ss);
        ExtendsFrom(ss, SequenceAt(k, next, next, r.m, r.low), PlanBehind(k, t, next, ss).ss);
      } else {
        PlanSearchExtends(k, t2, next, next + 1, ss);
      }
    }
  }

  /** So behind a match at least that match, a token and the last literals are to be written. */
  lemma {:induction false} PlanMatchSize(k: Block, t: seq<nat>, anchor: nat, ip: nat, m: nat, low: nat, ss: Seqs)
    requires k.Valid() && |t| == HASH_CELLS && k.source <= anchor <= ip && ip + MFLIMIT <= k.Iend()
    ensures SizeOf(ss) + LitSize(ip - anchor) + 2 + ExtSize(CodeOf(k, ip, m, low)) + 1 + LASTLITERALS
         <= PlanSize(k, PlanMatch(k, t, anchor, ip, m, low, ss))
  {
    hide PlanMatch, CodeOf;
    var s := SequenceAt(k, anchor, ip, m, low);
    PlanMatchExtends(k, t, anchor, ip, m, low, ss);
    SizeExtends(Snoc(ss, s), PlanMatch(k, t, anchor, ip, m, low, ss).ss);
  }

  /** What has been said of the block so far takes hardly more room than it. */
  predicate LeanAt(k: Block, ss: Seqs, anchor: nat)
  {
    k.source <= anchor && Lean(SizeOf(ss), anchor - k.source)
  }

  lemma {:induction false} LeanSnoc(k: Block, ss: Seqs, anchor: nat, s: Sequence)
    requires LeanAt(k, ss, anchor) && MINMATCH <= s.mlen
    ensures LeanAt(k, Snoc(ss, s), anchor + |s.lits| + s.mlen)
  {
    LeanStep(SizeOf(ss), anchor - k.source, |s.lits|, s.mlen);
  }

  lemma {:induction false} PlanSearchLean(k: Block, t: seq<nat>, anchor: nat, ip: nat, ss: Seqs)
    requires k.Valid() && |t| == HASH_CELLS && k.source <= anchor <= ip && ip + MFLIMIT <= k.Iend() + 1
    requires LeanAt(k, ss, anchor)
    ensures var p := PlanSearch(k, t, anchor, ip, ss); LeanAt(k, p.ss, p.anchor)
    decreases k.Iend() - anchor, 1
  {
    hide SearchFrom, PlanMatch, BytesBack, LeanAt;
    var f := SearchFrom(k, t, ip, 0);
    if f.r.Hit? {
      var n := BytesBack(k.mem, f.ip, f.r.m, anchor, f.r.low);
      PlanMatchLean(k, f.table, anchor, f.ip - n, f.r.m - n, f.r.low, ss);
    }
  }

  lemma {:induction false} PlanMatchLean(k: Block, t: seq<nat>, anchor: nat, ip: nat, m: nat, low: nat, ss: Seqs)
    requires k.Valid() && |t| == HASH_CELLS && k.source <= anchor <= ip && ip + MFLIMIT <= k.Iend()
    requires LeanAt(k, ss, anchor)
    ensures var p := PlanMatch(k, t, anchor, ip, m, low, ss); LeanAt(k, p.ss, p.anchor)
    decreases k.Iend() - anchor, 0
  {
    hide PlanBehind, SequenceAt, LeanAt;
    var s := SequenceAt(k, anchor, ip, m, low);
    LeanSnoc(k, ss, anchor, s);
    PlanBehindLean(k, t, ip + s.mlen, Snoc(ss, s));
  }

  lemma {:induction false} PlanBehindLean(k: Block, t: seq<nat>, next: nat, ss: Seqs)
    requires k.Valid() && |t| == HASH_CELLS && k.source + MINMATCH <= next && next + LASTLITERALS <= k.Iend()
    requires LeanAt(k, ss, next)
    ensures var p := PlanBehind(k, t, next, ss); LeanAt(k, p.ss, p.anchor)
    decreases k.Iend() - next, 2
  {
    hide PlanSearch, PlanMatch, Hash, ProbeResult, LeanAt;
    if next < k.Iend() - MFLIMIT + 1 {
      var t1 := t[Hash(k, next - 2) := k.Index(next - 2)];
      var r := ProbeResult(k, t1[Hash(k, next)], next);
      var t2 := t1[Hash(k, next) := k.Index(next)];
      if r.Hit? {
        PlanMatchLean(k, t2, next, next, r.m, r.low, ss);
      } else {
        PlanSearchLean(k, t2, next, next + 1, ss);
      }
    }
  }

  /** A block never takes more than the bound. */
  lemma {:induction false} PlanBounded(k: Block, t: seq<nat>)
    requires k.Valid() && |t| == HASH_CELLS
    ensures PlanSize(k, PlanOf(k, t)) <= CompressBound(k.n)
  {
    hide PlanSearch, Hash, Block.Window;
    var p := PlanOf(k, t);
    if k.n >= MIN_LENGTH {
      PlanSearchLean(k, t[Hash(k, k.source) := k.Index(k.source)], k.source, k.source + 1, Start);
    }
    LeanLast(SizeOf(p.ss), p.anchor - k.source, k.Iend() - p.anchor);
  }

  // ---------------------------------------------------------------- filling an output

  /** How far the output limit lets a match code go, and whether that shortened it. */
  function FittingCode(k: Block, op: nat, code: nat): int
  {
    if op + (1 + LASTLITERALS) + (code + 240) / 255 > k.olimit
    then 15 - 1 + (k.olimit - op - 1 - LASTLITERALS) * 255
    else code
  }

  /** The room left by a match written at `op`, where its offset ends. */
  lemma {:induction false} FittingCodeFits(k: Block, op: nat, code: nat)
    requires op + 1 + LASTLITERALS <= k.olimit
    ensures var c := FittingCode(k, op, code);
            && 0 <= c <= code && op + ExtSize(c) + 1 + LASTLITERALS <= k.olimit
            && (c < code ==> op + ExtSize(c) + 1 + LASTLITERALS == k.olimit)
            && (op + 9 <= k.olimit ==> MFLIMIT <= c + MINMATCH + (k.olimit - (op + ExtSize(c)) - 1))
  {
    var c := FittingCode(k, op, code);
    assert ExtSize(code) == (code + 240) / 255;
    if c != code {
      var r := k.olimit - op - 1 - LASTLITERALS;
      assert c == 14 + 255 * r;
      assert code + 240 >= 255 * (r + 1);
      assert ExtSize(c) == r;
    }
  }

  /**
    Sequences are taken one after the other. One whose literals leave no room for a match ends it, and one
    whose match does not fit is shortened and ends it.
  */
  function FillOf(k: Block, ss: Seqs): Filling
  {
    match ss
    case Start => Filling(Start, 0, k.source, true)
    case Snoc(i, s) => if FillOf(k, i).open then FillStep(k, FillOf(k, i), s) else FillOf(k, i)
  }

  function FillStep(k: Block, f: Filling, s: Sequence): Filling
  {
    var op := f.op + LitSize(|s.lits|) + 2;
    if op + 1 + MFLIMIT - MINMATCH > k.olimit then f.(open := false)
    else
      var code := Max(0, s.mlen - MINMATCH);
      var c := Max(0, FittingCode(k, op, code));
      Filling(Snoc(f.ss, s.(mlen := c + MINMATCH)), op + ExtSize(c), f.anchor + |s.lits| + c + MINMATCH, c == code)
  }

  lemma {:induction false} FillExtends(k: Block, a: Seqs, b: Seqs)
    requires Extends(a, b) && !FillOf(k, a).open
    ensures FillOf(k, b) == FillOf(k, a)
    decreases b
  {
    hide FillStep;
    if a != b {
      FillExtends(k, a, b.init);
    }
  }

  /** What becomes of a planned match: once it is cut or left out, the rest of the plan plays no part. */
  lemma {:induction false} MatchFills(k: Block, t: seq<nat>, anchor: nat, ip: nat, m: nat, low: nat, ss: Seqs, op: nat)
    requires k.Valid() && |t| == HASH_CELLS && k.source <= anchor <= ip && ip + MFLIMIT <= k.Iend()
    requires FillOf(k, ss) == Filling(ss, op, anchor, true)
    ensures var s := SequenceAt(k, anchor, ip, m, low);
            var f := FillStep(k, Filling(ss, op, anchor, true), s);
            FillOf(k, Snoc(ss, s)) == f && (!f.open ==> FillOf(k, PlanMatch(k, t, anchor, ip, m, low, ss).ss) == f)
  {
    hide PlanMatch, SequenceAt, FillStep;
    var s := SequenceAt(k, anchor, ip, m, low);
    PlanMatchExtends(k, t, anchor, ip, m, low, ss);
    if !FillStep(k, Filling(ss, op, anchor, true), s).open {
      FillExtends(k, Snoc(ss, s), PlanMatch(k, t, anchor, ip, m, low, ss).ss);
    }
  }

  // ---------------------------------------------------------------- an example of all sizes

  /** All bytes of a block are the same. */
  predicate OfOneByte(k: Block, v: byte)
  {
    k.Iend() <= |k.mem| && forall i :: k.source <= i < k.Iend() ==> k.mem[i] == v
  }

  lemma {:induction false} SameHashes(k: Block, v: byte, p: nat, q: nat)
    requires OfOneByte(k, v) && k.source <= p && k.source <= q && p + 8 <= k.Iend() && q + 8 <= k.Iend()
    ensures Hash(k, p) == Hash(k, q)
  {
    assert Read32(k.mem, p) == Read32(k.mem, q) && Read32(k.mem, p + 4) == Read32(k.mem, q + 4);
  }

  /** A second byte that finds the first one. */
  lemma {:induction false} FirstProbe(k: Block, v: byte)
    requires k.Valid() && OfOneByte(k, v) && k.dict == NoDict && k.startIndex == 0 && MIN_LENGTH <= k.n
    ensures ProbeResult(k, 0, k.source + 1) == Hit(k.source, k.source)
    ensures SequenceAt(k, k.source, k.source + 1, k.source, k.source) == Sequence([v], 1, k.n - 1 - LASTLITERALS)
  {
    var p, q := k.source + 1, k.source;
    assert k.mem[q..q + 4] == [v, v, v, v] == k.mem[p..p + 4];
    assert k.mem[q..p] == [v];
    CommonInRun(k.mem, p + MINMATCH, q + MINMATCH, k.Iend() - LASTLITERALS, v);
  }

  /**
    Without history a block of equal bytes, however long, is planned as one literal, one match and five literals,
    whatever the table holds.
  */
  lemma {:induction false} RunOfOneByte(k: Block, t: seq<nat>, v: byte)
    requires k.Valid() && |t| == HASH_CELLS && OfOneByte(k, v)
    requires k.dict == NoDict && k.startIndex == 0 && MIN_LENGTH <= k.n
    ensures var p := PlanOf(k, t);
            && p.ss == Snoc(Start, Sequence([v], 1, k.n - 1 - LASTLITERALS)) && p.anchor == k.Iend() - LASTLITERALS
            && PlanSize(k, p) == 10 + (k.n - 10 + 240) / 255
  {
    hide Hash, ProbeResult, SequenceAt, Block.Valid, SearchFrom, LitSize, SeqSize;
    var t0 := t[Hash(k, k.source) := 0];
    var ip := k.source + 1;
    SameHashes(k, v, k.source, ip);
    FirstProbe(k, v);
    assert k.Index(k.source) == 0 && k.Index(ip) == 1;
    SearchStep(k, t0, ip, 0, ip + 1);
    var f := SearchFrom(k, t0, ip, 0);
    assert f.r == Hit(k.source, k.source) && f.ip == ip;
    assert BytesBack(k.mem, ip, k.source, k.source, k.source) == 0;
    assert PlanSearch(k, t0, k.source, ip, Start) == PlanMatch(k, f.table, k.source, ip, k.source, k.source, Start);
    var s := Sequence([v], 1, k.n - 1 - LASTLITERALS);
    assert PlanBehind(k, f.table, k.Iend() - LASTLITERALS, Snoc(Start, s)).ss == Snoc(Start, s);
    OneMatchSize(s);
  }
}
