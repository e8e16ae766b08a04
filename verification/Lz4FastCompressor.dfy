/**
  LZ4_compress_generic over the 32-bit and the 16-bit table, with its three output disciplines and its
  three ways of reaching earlier content.
*/
module Lz4FastCompressor {
  import opened Lz4Defs
  import opened Lz4Format
  import opened Lz4Copy
  import opened Lz4Encode
  import opened Lz4Count
  import opened Lz4FastTable
  import opened Lz4FastPlan

  // ---------------------------------------------------------------- the invariant between sequences

  /** What is left of the output buffer, of length `cap`, after `op` bytes. */
  ghost predicate Room(k: Block, cap: nat, op: nat, ss: Seqs, anchor: nat)
  {
    && k.source <= anchor && Lean(op, anchor - k.source)
    && match k.limit
       case NotLimited => CompressBound(k.n) <= cap
       case LimitedOutput => k.olimit <= cap && (if ss.Snoc? then op + 1 + LASTLITERALS <= k.olimit else op == 0)
       case FillOutput =>
         && 1 <= k.olimit <= cap
         && (if ss.Snoc? then op + 1 + LASTLITERALS <= k.olimit
            && MFLIMIT <= ss.s.mlen + (k.olimit - op - 1) else op == 0)
  }

  ghost predicate EncInv(k: Block, b: seq<byte>, op: nat, ss: Seqs, anchor: nat)
    requires k.Valid()
  {
    && k.source <= anchor <= k.Iend()
    && Written(b, op, ss, k.Window(), k.dictSize, k.Pos(anchor))
    && (ss.Snoc? ==> anchor + LASTLITERALS <= k.Iend() && anchor + MFLIMIT <= k.Iend() + ss.s.mlen)
    && Room(k, |b|, op, ss, anchor)
  }

  lemma {:induction false} EncFramed(k: Block, a: seq<byte>, b: seq<byte>, op: nat, ss: Seqs, anchor: nat, hi: int)
    requires k.Valid() && EncInv(k, a, op, ss, anchor) && Framed(a, b, op, hi)
    ensures EncInv(k, b, op, ss, anchor)
  {
    WrittenFramed(a, b, op, ss, k.Window(), k.dictSize, k.Pos(anchor), hi);
  }

  datatype Step = Proceed | GiveUp | Last

  // ---------------------------------------------------------------- literals

  /** Room for a match after its literals end at `op`. */
  ghost predicate MatchRoom(k: Block, cap: nat, token: nat, op: nat, ss: Seqs, anchor: nat)
  {
    && Room(k, cap, token, ss, anchor)
    && match k.limit
       case NotLimited => true
       case LimitedOutput => op + 2 <= k.olimit
       case FillOutput => true
  }

  /** Filling the output: no further match fits behind `op`. */
  predicate Full(k: Block, op: nat)
  {
    k.limit == FillOutput && op + 2 + 1 + MFLIMIT - MINMATCH > k.olimit
  }

  /** Literals from `anchor` to `ip` behind the token at `token`. */
  method PutLiterals(k: Block, dst: array<byte>, token: nat, anchor: nat, ip: nat, ghost ss: Seqs)
      returns (res: Step, op: nat)
    requires k.Valid() && EncInv(k, dst[..], token, ss, anchor)
    requires anchor <= ip && Storable(k, ip)
    modifies dst
    ensures EncInv(k, dst[..], token, ss, anchor)
    ensures res == GiveUp ==> k.limit == LimitedOutput && k.olimit < token + LitSize(ip - anchor) + 2 + 1 + LASTLITERALS
    ensures res == Last <==> k.limit == FillOutput && Full(k, token + LitSize(ip - anchor))
    ensures res == Proceed ==>
              && op == token + LitSize(ip - anchor)
              && LiteralsWritten(dst[..], token, k.mem[anchor..ip])
              && MatchRoom(k, dst.Length, token, op, ss, anchor)
  {
    hide Written, Lean, LiteralsWritten, LitSize;
    var litLength := ip - anchor;
    LitSizeIs(litLength);
    if k.limit == LimitedOutput && token + 1 + litLength + (2 + 1 + LASTLITERALS) + litLength / 255 > k.olimit {
      return GiveUp, token;
    }
    if k.limit == FillOutput
       && token + 1 + (litLength + 240) / 255 + litLength + 2 + 1 + MFLIMIT - MINMATCH > k.olimit {
      return Last, token;
    }
    LiteralsFit(k, dst.Length, token, ss, anchor, litLength);
    ghost var before := dst[..];
    op := WriteLiterals(dst, token, k.mem, anchor, litLength);
    EncFramed(k, before, dst[..], token, ss, anchor, dst.Length);
    return Proceed, op;
  }

  lemma {:induction false} LiteralsFit(k: Block, cap: nat, token: nat, ss: Seqs, anchor: nat, n: nat)
    requires k.Valid() && Room(k, cap, token, ss, anchor) && anchor + n + MFLIMIT <= k.Iend()
    requires k.limit == LimitedOutput ==> token + 1 + n + 8 + n / 255 <= k.olimit
    requires k.limit == FillOutput ==> token + 1 + (n + 240) / 255 + n + 11 <= k.olimit
    ensures token + LitSize(n) + (if n == 0 then 8 else 7) <= cap
    ensures MatchRoom(k, cap, token, token + LitSize(n), ss, anchor)
  {
    assert ExtSize(n) == (n + 240) / 255;
    if k.limit == NotLimited {
      LeanLast(token, anchor - k.source, n);
      assert CompressBound(anchor - k.source + n) <= CompressBound(k.n);
    }
  }

  // ---------------------------------------------------------------- matches

  /** Match length: the lower half of the token, then the extension four bytes at a time. */
  method PutMatchLength(dst: array<byte>, token: nat, op: nat, code: nat) returns (op': nat)
    requires token < op <= dst.Length && dst[token] % 16 == 0
    requires ML_MASK <= code ==> op + ExtSize(code) + 3 <= dst.Length
    modifies dst
    ensures op' == op + ExtSize(code)
    ensures dst[token] == old(dst[token]) + Nibble(code) && Embedded(dst[..], op, LenExt(code))
    ensures forall i :: 0 <= i < op && i != token ==> dst[i] == old(dst[i])
  {
    var high := dst[token] / 16;
    if code >= ML_MASK {
      dst[token] := 16 * high + ML_MASK;
      ghost var b := dst[..];
      op' := WriteExtBy4(dst, op, code - ML_MASK);
      assert forall i :: 0 <= i < op ==> dst[..][i] == b[i];
    } else {
      dst[token] := 16 * high + code;
      op' := op;
    }
  }

  lemma {:induction false} RoomAfter(k: Block, cap: nat, token: nat, op: nat, ss: Seqs, anchor: nat, s: Sequence)
    requires k.Valid() && MatchRoom(k, cap, token, op, ss, anchor) && op == token + LitSize(|s.lits|)
    requires MINMATCH <= s.mlen && anchor + |s.lits| + s.mlen + LASTLITERALS <= k.Iend()
    requires k.limit != NotLimited ==>
               s.mlen - MINMATCH <= FittingCode(k, op + 2, s.mlen - MINMATCH) && op + 2 + 1 + LASTLITERALS <= k.olimit
    requires k.limit == FillOutput ==> op + 11 <= k.olimit
    ensures var code := s.mlen - MINMATCH;
            var op' := op + 2 + ExtSize(code);
            Room(k, cap, op', Snoc(ss, s), anchor + |s.lits| + s.mlen) && op' + 3 <= cap
  {
    var code := s.mlen - MINMATCH;
    LeanStep(token, anchor - k.source, |s.lits|, s.mlen);
    if k.limit == NotLimited {
      var consumed := anchor + |s.lits| + s.mlen - k.source;
      LeanLast(op + 2 + ExtSize(code), consumed, 0);
      assert CompressBound(consumed) <= CompressBound(k.n);
    } else {
      FittingCodeFits(k, op + 2, code);
    }
  }

  /** LZ4_clearHash over the positions that a shortened match gives up. */
  method ClearPositions(k: Block, t: array<nat>, from: nat, to: nat)
    requires k.Valid() && k.limit == FillOutput && t.Length == HASH_CELLS
    requires k.source < from <= to && to + 8 <= |k.mem| && TableInv(k, t[..], to)
    modifies t
    ensures TableInv(k, t[..], from - 1)
  {
    hide Hash;
    var ptr := from;
    while ptr <= to
      invariant from <= ptr <= to + 1
      invariant Hashed(k, t[..], to)
      invariant forall h :: 0 <= h < TableSize(k.tableType) ==> t[h] == 0 || !(from <= k.source + t[h] < ptr)
    {
      var h0 := Hash(k, ptr);
      ghost var before := t[..];
      t[h0] := 0;
      assert t[..] == before[h0 := 0];
      forall h | 0 <= h < TableSize(k.tableType)
        ensures t[h] == 0 || !(from <= k.source + t[h] < ptr + 1)
      {
        assert t[h] == t[..][h];
        if h != h0 {
          assert t[h] == before[h];
        }
      }
      ptr := ptr + 1;
    }
    Cleared(k, t[..], from, to);
  }

  lemma {:induction false} Cleared(k: Block, t: seq<nat>, from: nat, to: nat)
    requires k.Valid() && k.limit == FillOutput && k.source < from <= to + 1
    requires Hashed(k, t, to)
    requires forall h :: 0 <= h < TableSize(k.tableType) ==> t[h] == 0 || !(from <= k.source + t[h] < to + 1)
    ensures TableInv(k, t, from - 1)
  {
    hide Hash;
  }

  lemma {:induction false} MatchPrefix(v: seq<byte>, p: nat, off: nat, len: nat, len': nat)
    requires IsMatch(v, p, off, len) && len' <= len
    ensures IsMatch(v, p, off, len')
  {
  }

  /** A block position as the window sees it. */
  lemma {:induction false} WindowSlice(k: Block, a: nat, b: nat)
    requires k.Valid() && k.source <= a <= b <= k.Iend()
    ensures k.Window()[k.Pos(a)..k.Pos(b)] == k.mem[a..b]
  {
    var x, y := k.Window()[k.Pos(a)..k.Pos(b)], k.mem[a..b];
    forall i | 0 <= i < b - a
      ensures x[i] == y[i]
    {
      WindowAt(k, k.Pos(a) + i);
    }
    assert |x| == |y| == b - a;
  }

  lemma {:induction false} BlockSlice(k: Block, b: seq<byte>, op: nat, ss: Seqs, anchor: nat, ip: nat)
    requires k.Valid() && EncInv(k, b, op, ss, anchor) && anchor <= ip && ip + MFLIMIT <= k.Iend()
    ensures 0 <= k.Pos(anchor) <= k.Pos(ip) <= |k.Window()|
    ensures k.Window()[k.Pos(anchor)..k.Pos(ip)] == k.mem[anchor..ip]
  {
    hide Written;
    WindowSlice(k, anchor, ip);
  }

  /** Bytes of a match: offset, length, and the token they complete. */
  method WriteMatchBytes(dst: array<byte>, token: nat, op: nat, off: nat, code: nat) returns (op': nat)
    requires token < op && op + 2 + ExtSize(code) + 3 <= dst.Length && dst[token] % 16 == 0 && off <= DISTANCE_MAX
    modifies dst
    ensures op' == op + 2 + ExtSize(code) && MatchAdded(old(dst[..]), dst[..], token, op, off, code)
  {
    hide Embedded, ExtSize, MatchAdded;
    ghost var a := dst[..];
    WriteLE16(dst, op, off);
    ghost var mid := dst[..];
    op' := PutMatchLength(dst, token, op + 2, code);
    AddedInTwo(a, mid, dst[..], token, op, off, code);
  }

  /** One more match, behind its literals. */
  method WriteMatch(k: Block, dst: array<byte>, token: nat, op: nat, anchor: nat, ip: nat, off: nat, code: nat,
                    ghost ss: Seqs) returns (op': nat, ghost ss': Seqs)
    requires k.Valid() && EncInv(k, dst[..], token, ss, anchor) && MatchRoom(k, dst.Length, token, op, ss, anchor)
    requires anchor <= ip && ip + MFLIMIT <= k.Iend() && op == token + LitSize(ip - anchor)
    requires LiteralsWritten(dst[..], token, k.mem[anchor..ip])
    requires ip + code + MINMATCH + LASTLITERALS <= k.Iend()
    requires IsMatch(k.Window(), k.Pos(ip), off, code + MINMATCH)
    requires k.limit != NotLimited ==> code <= FittingCode(k, op + 2, code) && op + 2 + 1 + LASTLITERALS <= k.olimit
    requires k.limit == FillOutput ==> op + 11 <= k.olimit
    modifies dst
    ensures EncInv(k, dst[..], op', ss', ip + code + MINMATCH)
    ensures op' == op + 2 + ExtSize(code) && ss' == Snoc(ss, Sequence(k.mem[anchor..ip], off, code + MINMATCH))
  {
    hide EncInv, IsMatch, FittingCode, MatchRoom, ExtSize, LitSize, LiteralsWritten, MatchAdded, Block.Valid,
        Block.Window;
    ghost var a := dst[..];
    BlockSlice(k, a, token, ss, anchor, ip);
    MatchFits(k, a, token, op, anchor, ip, off, code, ss);
    op' := WriteMatchBytes(dst, token, op, off, code);
    ss' := Snoc(ss, Sequence(k.Window()[k.Pos(anchor)..k.Pos(ip)], off, code + MINMATCH));
    MatchKeepsInv(k, a, dst[..], token, op, anchor, ip, off, code, ss);
  }

  /** The sequence to be written, and the room behind it. */
  lemma {:induction false} MatchFits(k: Block, b: seq<byte>, token: nat, op: nat, anchor: nat, ip: nat, off: nat,
      code: nat, ss: Seqs)
    requires k.Valid() && EncInv(k, b, token, ss, anchor) && MatchRoom(k, |b|, token, op, ss, anchor)
    requires anchor <= ip && ip + MFLIMIT <= k.Iend() && op == token + LitSize(ip - anchor)
    requires LiteralsWritten(b, token, k.mem[anchor..ip])
    requires ip + code + MINMATCH + LASTLITERALS <= k.Iend()
    requires IsMatch(k.Window(), k.Pos(ip), off, code + MINMATCH)
    requires k.limit != NotLimited ==> code <= FittingCode(k, op + 2, code) && op + 2 + 1 + LASTLITERALS <= k.olimit
    requires k.limit == FillOutput ==> op + 11 <= k.olimit
    ensures 0 <= k.Pos(anchor) <= k.Pos(ip) <= |k.Window()|
    ensures token < op && op + 2 + ExtSize(code) + 3 <= |b| && b[token] % 16 == 0 && 1 <= off <= DISTANCE_MAX
    ensures var s := Sequence(k.Window()[k.Pos(anchor)..k.Pos(ip)], off, code + MINMATCH);
            Room(k, |b|, op + 2 + ExtSize(code), Snoc(ss, s), ip + code + MINMATCH)
  {
    hide Written, IsMatch, FittingCode, Room, MatchRoom, Block.Window;
    LiteralsEnd(b, token, k.mem[anchor..ip]);
    OffsetRange(k.Window(), k.Pos(ip), off, code + MINMATCH);
    RoomAfter(k, |b|, token, op, ss, anchor,
              Sequence(k.Window()[k.Pos(anchor)..k.Pos(ip)], off, code + MINMATCH));
  }

  /** The output with one more sequence. */
  lemma {:induction false} MatchKeepsInv(k: Block, a: seq<byte>, b: seq<byte>, token: nat, op: nat, anchor: nat,
      ip: nat, off: nat, code: nat, ss: Seqs)
    requires k.Valid() && EncInv(k, a, token, ss, anchor) && anchor <= ip && ip + MFLIMIT <= k.Iend()
    requires op == token + LitSize(ip - anchor) && LiteralsWritten(a, token, k.mem[anchor..ip])
    requires ip + code + MINMATCH + LASTLITERALS <= k.Iend()
    requires IsMatch(k.Window(), k.Pos(ip), off, code + MINMATCH) && MatchAdded(a, b, token, op, off, code)
    requires 0 <= k.Pos(anchor) <= k.Pos(ip) <= |k.Window()|
    requires var s := Sequence(k.Window()[k.Pos(anchor)..k.Pos(ip)], off, code + MINMATCH);
             Room(k, |a|, op + 2 + ExtSize(code), Snoc(ss, s), ip + code + MINMATCH)
    ensures var s := Sequence(k.Window()[k.Pos(anchor)..k.Pos(ip)], off, code + MINMATCH);
            EncInv(k, b, op + 2 + ExtSize(code), Snoc(ss, s), ip + code + MINMATCH)
  {
    hide Written, IsMatch, Room, LiteralsWritten, MatchAdded, LitSize, ExtSize, Block.Window;
    AddedSize(a, b, token, op, off, code);
    WindowSlice(k, anchor, ip);
    SequenceAdded(a, b, token, op, ss, k.Window(), k.dictSize, k.Pos(anchor), k.Pos(ip), off, code);
  }

  lemma {:induction false} LiteralsEnd(b: seq<byte>, token: nat, lits: seq<byte>)
    requires LiteralsWritten(b, token, lits)
    ensures token < |b| && token < token + LitSize(|lits|) && b[token] % 16 == 0
  {
  }

  lemma {:induction false} OffsetRange(v: seq<byte>, p: nat, off: nat, len: nat)
    requires IsMatch(v, p, off, len)
    ensures 1 <= off <= DISTANCE_MAX
  {
  }

  /** A match found at `ip`, ready to be written behind the literals that end at `op`. */
  ghost predicate MatchReady(k: Block, b: seq<byte>, t: seq<nat>, token: nat, op: nat, anchor: nat, ip: nat, m: nat,
                             low: nat, ss: Seqs, top: nat, filledIp: nat)
    requires k.Valid()
  {
    && EncInv(k, b, token, ss, anchor) && MatchRoom(k, |b|, token, op, ss, anchor)
    && anchor <= ip <= top && Storable(k, top) && op == token + LitSize(ip - anchor)
    && LiteralsWritten(b, token, k.mem[anchor..ip])
    && MatchAt(k, ip, m, low) && Agree(k.mem, ip, m, top - ip + 4)
    && (InDict(k, low) ==> m + (top - ip) + 4 <= k.DictEnd())
    && TableInv(k, t, top) && k.source <= anchor
    && (filledIp == top || (filledIp < top && ip == top) || Full(k, op))
  }

  /** The match code that is going to be written: counted, then cut down to what the output limit allows. */
  method FitMatch(k: Block, ghost cap: nat, ghost token: nat, op: nat, ghost anchor: nat, ip: nat, m: nat, low: nat,
                  ghost ss: Seqs, ghost top: nat)
      returns (ok: bool, code: nat, cut: bool)
    requires k.Valid() && Room(k, cap, token, ss, anchor) && MatchRoom(k, cap, token, op, ss, anchor)
    requires k.source <= anchor <= ip <= top && Storable(k, top) && op == token + LitSize(ip - anchor)
    requires MatchAt(k, ip, m, low) && Agree(k.mem, ip, m, top - ip + 4)
    requires InDict(k, low) ==> m + (top - ip) + 4 <= k.DictEnd()
    requires k.limit == FillOutput ==> op + 11 <= k.olimit
    ensures !ok ==> k.limit == LimitedOutput
                    && k.olimit < op + 2 + ExtSize(CodeOf(k, ip, m, low)) + 1 + LASTLITERALS
    ensures ok ==> code == (if k.limit == NotLimited then CodeOf(k, ip, m, low)
                            else FittingCode(k, op + 2, CodeOf(k, ip, m, low)))
                   && (k.limit == LimitedOutput ==> code == CodeOf(k, ip, m, low))
                   && cut == (code != CodeOf(k, ip, m, low))
    ensures 1 <= Offset(k, ip, m, low) <= DISTANCE_MAX && 0 <= k.Pos(ip)
    ensures ok ==>
              && IsMatch(k.Window(), k.Pos(ip), Offset(k, ip, m, low), code + MINMATCH)
              && ip + code + MINMATCH + LASTLITERALS <= k.Iend()
              && (k.limit != NotLimited ==>
                    code <= FittingCode(k, op + 2, code) && op + 2 + 1 + LASTLITERALS <= k.olimit)
              && (if cut then k.limit == FillOutput && op + 2 + ExtSize(code) + 1 + LASTLITERALS == k.olimit
                  else top < ip + code + MINMATCH)
  {
    hide IsMatch, Agree, Lean, CodeOf, Room, MatchRoom, Block.Window, EncInv, LenExt;
    cut := false;
    code := MatchCode(k, ip, m, low, top);
    LenExtSize(code);
    if k.limit != NotLimited && op + 2 + (1 + LASTLITERALS) + (code + 240) / 255 > k.olimit {
      if k.limit != FillOutput {
        return false, code, cut;
      }
      FittingCodeFits(k, op + 2, code);
      var code' := FittingCode(k, op + 2, code);
      FittingStable(k, op, code, code');
      MatchPrefix(k.Window(), k.Pos(ip), Offset(k, ip, m, low), MINMATCH + code, MINMATCH + code');
      return true, code', true;
    }
    return true, code, cut;
  }

  // ---------------------------------------------------------------- keeping to the plan

  /**
    Between two sequences: `q`, the plan from here on, is the plan `p` of the whole block. An output to be
    filled holds what is written of the plan's sequences so far, or has been closed by a shortened match.
  */
  ghost predicate Follows(k: Block, p: Planned, q: Planned, ss: Seqs, op: nat, anchor: nat)
  {
    if k.limit != FillOutput then q == p
    else (FillOf(k, ss) == Filling(ss, op, anchor, true) && q == p) || Closed(k, p, ss, op, anchor)
  }

  /** A shortened match leaves exactly the room for the last literals. */
  ghost predicate Closed(k: Block, p: Planned, ss: Seqs, op: nat, anchor: nat)
  {
    FillOf(k, p.ss) == Filling(ss, op, anchor, false) && op + 1 + LASTLITERALS == k.olimit
  }

  /** All sequences that are going to be written are. */
  ghost predicate Arrived(k: Block, p: Planned, t: seq<nat>, ss: Seqs, op: nat, anchor: nat)
  {
    if k.limit != FillOutput then p == Planned(ss, anchor, t)
    else FillOf(k, p.ss).ss == ss && FillOf(k, p.ss).op == op && FillOf(k, p.ss).anchor == anchor
  }

  /** The output does not fit. */
  ghost predicate TooLong(k: Block, p: Planned)
  {
    k.limit == LimitedOutput && p.anchor <= k.Iend() && k.olimit < PlanSize(k, p)
  }

  lemma {:induction false} WrittenSize(k: Block, b: seq<byte>, op: nat, ss: Seqs, anchor: nat)
    requires k.Valid() && EncInv(k, b, op, ss, anchor)
    ensures op == SizeOf(ss)
  {
    EncodedSizeOf(k.dictSize, ss);
  }

  /** A match that leaves no room for what is planned behind it. */
  lemma {:induction false} MatchTooLong(k: Block, b: seq<byte>, t: seq<nat>, token: nat, anchor: nat, ip: nat, m: nat,
                                        low: nat, ss: Seqs, p: Planned)
    requires k.Valid() && EncInv(k, b, token, ss, anchor) && |t| == HASH_CELLS
    requires k.source <= anchor <= ip && ip + MFLIMIT <= k.Iend() && k.limit == LimitedOutput
    requires Follows(k, p, PlanMatch(k, t, anchor, ip, m, low, ss), ss, token, anchor)
    requires k.olimit < token + LitSize(ip - anchor) + 2 + ExtSize(CodeOf(k, ip, m, low)) + 1 + LASTLITERALS
    ensures TooLong(k, p)
  {
    hide EncInv, PlanMatch, CodeOf, PlanSize, LitSize;
    WrittenSize(k, b, token, ss, anchor);
    PlanMatchSize(k, t, anchor, ip, m, low, ss);
  }

  /** An output that has no room for another match has all it is going to have. */
  lemma {:induction false} FullArrives(k: Block, t: seq<nat>, token: nat, anchor: nat, ip: nat, m: nat, low: nat,
                                       ss: Seqs, p: Planned)
    requires k.Valid() && |t| == HASH_CELLS && k.source <= anchor <= ip && ip + MFLIMIT <= k.Iend()
    requires Full(k, token + LitSize(ip - anchor))
    requires Follows(k, p, PlanMatch(k, t, anchor, ip, m, low, ss), ss, token, anchor)
    ensures Arrived(k, p, t, ss, token, anchor)
  {
    hide PlanMatch, CodeOf;
    if FillOf(k, ss) == Filling(ss, token, anchor, true) {
      MatchFills(k, t, anchor, ip, m, low, ss, token);
    }
  }

  /** A match written as `code` says, cut or not. */
  lemma {:induction false} MatchFollows(k: Block, t: seq<nat>, token: nat, anchor: nat, ip: nat, m: nat, low: nat,
                                        ss: Seqs, p: Planned, code: nat)
    requires k.Valid() && |t| == HASH_CELLS && k.source <= anchor <= ip && ip + MFLIMIT <= k.Iend()
    requires !Full(k, token + LitSize(ip - anchor)) && 0 <= Offset(k, ip, m, low)
    requires Follows(k, p, PlanMatch(k, t, anchor, ip, m, low, ss), ss, token, anchor)
    requires k.limit != FillOutput ==> code == CodeOf(k, ip, m, low)
    requires k.limit == FillOutput ==>
               && code == FittingCode(k, token + LitSize(ip - anchor) + 2, CodeOf(k, ip, m, low))
               && token + LitSize(ip - anchor) + 2 + 1 + LASTLITERALS <= k.olimit
    ensures var s := Sequence(k.mem[anchor..ip], Offset(k, ip, m, low), code + MINMATCH);
            var op' := token + LitSize(ip - anchor) + 2 + ExtSize(code);
            var next := ip + code + MINMATCH;
            && (code == CodeOf(k, ip, m, low) ==>
                  Follows(k, p, PlanBehind(k, t, next, Snoc(ss, s)), Snoc(ss, s), op', next))
            && (code != CodeOf(k, ip, m, low) ==> Closed(k, p, Snoc(ss, s), op', next))
  {
    hide PlanBehind, CodeOf, FittingCode, LitSize, ExtSize;
    if k.limit == FillOutput {
      FittingCodeFits(k, token + LitSize(ip - anchor) + 2, CodeOf(k, ip, m, low));
      if FillOf(k, ss) == Filling(ss, token, anchor, true) {
        MatchFills(k, t, anchor, ip, m, low, ss, token);
      }
    }
  }

  /** From the label _next_match to the end of the sequence. */
  method PutMatch(k: Block, dst: array<byte>, t: array<nat>, token: nat, op: nat, anchor: nat, ip: nat, m: nat,
      low: nat, filledIp: nat, ghost ss: Seqs, ghost top: nat, ghost p: Planned)
      returns (res: Step, op': nat, ip': nat, ghost ss': Seqs, ghost top': nat)
    requires k.Valid() && t.Length == HASH_CELLS
    requires MatchReady(k, dst[..], t[..], token, op, anchor, ip, m, low, ss, top, filledIp)
    requires k.source <= anchor <= ip && ip + MFLIMIT <= k.Iend()
    requires Follows(k, p, PlanMatch(k, t[..], anchor, ip, m, low, ss), ss, token, anchor)
    modifies dst, t
    ensures res == GiveUp ==> TooLong(k, p)
    ensures res == Last ==> k.limit == FillOutput && EncInv(k, dst[..], token, ss, anchor)
                            && Arrived(k, p, t[..], ss, token, anchor)
    ensures res == Proceed ==> EncInv(k, dst[..], op', ss', ip') && ip + MINMATCH <= ip' && ss'.Snoc?
                               && ip' + LASTLITERALS <= k.Iend()
                               && Follows(k, p, PlanBehind(k, t[..], ip', ss'), ss', op', ip')
    ensures TableInv(k, t[..], top') && (res == Proceed ==> top' < ip') && (top' == top || k.limit == FillOutput)
    ensures res == Proceed ==> filledIp < ip' || Full(k, op' + 1)
  {
    hide EncInv, IsMatch, Agree, Lean, TableInv, LiteralsWritten, MatchAt, FittingCode, CodeOf, PlanMatch, PlanBehind,
        Follows, Arrived, Closed, TooLong, LitSize, ExtSize, Room, MatchRoom;
    op', ip', ss', top' := op, ip, ss, top;
    if Full(k, op) {
      FullArrives(k, t[..], token, anchor, ip, m, low, ss, p);
      return Last, op', ip', ss', top';
    }
    EncRoom(k, dst[..], token, ss, anchor);
    var ok, code, cut := FitMatch(k, dst.Length, token, op, anchor, ip, m, low, ss, top);
    if !ok {
      MatchTooLong(k, dst[..], t[..], token, anchor, ip, m, low, ss, p);
      return GiveUp, op', ip', ss', top';
    }
    MatchFollows(k, t[..], token, anchor, ip, m, low, ss, p, code);
    var off := Offset(k, ip, m, low);
    ip' := ip + MINMATCH + code;
    op', ss' := WriteMatch(k, dst, token, op, anchor, ip, off, code, ss);
    if cut && ip' <= filledIp {
      ClearPositions(k, t, ip', filledIp);
      top' := ip' - 1;
    }
    if cut {
      ClosedFollows(k, p, PlanBehind(k, t[..], ip', ss'), ss', op', ip');
    }
    res := Proceed;
  }

  lemma {:induction false} EncRoom(k: Block, b: seq<byte>, op: nat, ss: Seqs, anchor: nat)
    requires k.Valid() && EncInv(k, b, op, ss, anchor)
    ensures Room(k, |b|, op, ss, anchor) && k.source <= anchor
  {
  }

  lemma {:induction false} ClosedFollows(k: Block, p: Planned, q: Planned, ss: Seqs, op: nat, anchor: nat)
    requires k.limit == FillOutput && Closed(k, p, ss, op, anchor)
    ensures Follows(k, p, q, ss, op, anchor)
  {
  }

  lemma {:induction false} FittingStable(k: Block, op: nat, code: nat, code': nat)
    requires k.limit != NotLimited && op + 2 + 1 + LASTLITERALS <= k.olimit
    requires code' == FittingCode(k, op + 2, code)
    requires code' >= 0
    ensures code' <= FittingCode(k, op + 2, code')
  {
  }

  /** The empty literal part of a match that follows directly on the one before. */
  method PutEmptyToken(k: Block, dst: array<byte>, op: nat, anchor: nat, ghost ss: Seqs)
    requires k.Valid() && EncInv(k, dst[..], op, ss, anchor) && ss.Snoc? && anchor + MFLIMIT <= k.Iend()
    modifies dst
    ensures EncInv(k, dst[..], op, ss, anchor)
    ensures LiteralsWritten(dst[..], op, []) && MatchRoom(k, dst.Length, op, op + 1, ss, anchor)
  {
    hide Written;
    ghost var before := dst[..];
    if k.limit == NotLimited {
      LeanLast(op, anchor - k.source, 0);
      assert CompressBound(anchor - k.source) <= CompressBound(k.n);
    }
    dst[op] := 0;
    EncFramed(k, before, dst[..], op, ss, anchor, op + 1);
  }

  // ---------------------------------------------------------------- last literals

  /** What a successful call leaves in the first `r` bytes of the output. */
  ghost predicate Compressed(k: Block, b: seq<byte>, r: nat, consumed: nat)
    requires k.Valid()
  {
    && consumed <= k.n && (k.limit != FillOutput ==> consumed == k.n)
    && 0 < r <= |b| && r <= CompressBound(k.n) && (k.limit != NotLimited ==> r <= k.olimit)
    && Rest(b[..r], 0, k.Window()[..k.dictSize]) == Decoded(k.Window()[..k.dictSize + consumed])
    && WellFormed(b[..r], consumed)
    && (consumed == 0 ==> b[..r] == [0])
  }

  /** The last literals chosen: they fit, and the end-of-block rules hold behind `ss`. */
  ghost predicate LastFits(k: Block, cap: nat, op: nat, anchor: nat, ss: Seqs, run: nat)
  {
    && anchor + run <= k.Iend() && (k.limit != FillOutput ==> anchor + run == k.Iend())
    && op + LitSize(run) <= cap && op + LitSize(run) <= CompressBound(k.n)
    && (k.limit != NotLimited ==> op + LitSize(run) <= k.olimit)
    && EndRules(ss, run)
  }

  /** How many literals end the block; fewer than are left only when the output is to be filled. */
  method LastRun(k: Block, ghost cap: nat, op: nat, anchor: nat, ghost ss: Seqs) returns (ok: bool, run: nat)
    requires k.Valid() && k.source <= anchor <= k.Iend() && Room(k, cap, op, ss, anchor)
    requires ss.Snoc? ==> anchor + LASTLITERALS <= k.Iend() && anchor + MFLIMIT <= k.Iend() + ss.s.mlen
    ensures !ok <==> k.limit == LimitedOutput && k.olimit < op + LitSize(k.Iend() - anchor)
    ensures ok ==> LastFits(k, cap, op, anchor, ss, run)
    ensures ok ==> run == (if k.limit == FillOutput then FittingRun(k.olimit, op, k.Iend() - anchor)
                           else k.Iend() - anchor)
  {
    hide Lean;
    run := k.Iend() - anchor;
    LeanLast(op, anchor - k.source, run);
    assert ExtSize(run) == (run + 240) / 255;
    if k.limit != NotLimited && op + run + 1 + (run + 240) / 255 > k.olimit {
      if k.limit != FillOutput {
        return false, 0;
      }
      FittingRunFits(k.olimit, op, run);
      assert ExtSize(FittingRun(k.olimit, op, run)) <= ExtSize(run);
      run := FittingRun(k.olimit, op, run);
    }
    return true, run;
  }

  /** The bytes a call leaves: the sequences it wrote, and as many literals behind them as it could. */
  ghost predicate Ends(k: Block, ss: Seqs, op: nat, anchor: nat, b: seq<byte>, r: nat, consumed: nat)
  {
    && k.source <= anchor <= k.Iend() <= |k.mem| && r <= |b| && consumed <= k.n
    && anchor <= k.source + consumed && r == op + LitSize(k.source + consumed - anchor)
    && b[..r] == Finished(k.mem, ss, anchor, k.source + consumed - anchor)
    && k.source + consumed - anchor == (if k.limit == FillOutput then FittingRun(k.olimit, op, k.Iend() - anchor)
                                        else k.Iend() - anchor)
  }

  lemma {:induction false} BytesEnd(k: Block, b: seq<byte>, op: nat, ss: Seqs, anchor: nat, run: nat, r: nat)
    requires k.Valid() && k.source <= anchor && Written(b, op, ss, k.Window(), k.dictSize, k.Pos(anchor))
    requires anchor + run <= |k.mem| && r == op + |LitPart(k.mem[anchor..anchor + run], 0)|
    requires Embedded(b, op, LitPart(k.mem[anchor..anchor + run], 0))
    ensures r <= |b| && b[..r] == Finished(k.mem, ss, anchor, run)
  {
    hide LitPart, Block.Valid, Block.Window, Expand;
    var e, f := EncodeSeqs(k.dictSize, ss), LitPart(k.mem[anchor..anchor + run], 0);
    BytesAreEncoded(k.dictSize, ss);
    EmbeddedJoin(b, 0, e, f);
    EmbeddedFits(b, 0, e + f);
    EmbeddedIsPrefix(b, e + f);
  }

  method PutLast(k: Block, dst: array<byte>, op: nat, anchor: nat, ghost ss: Seqs) returns (r: nat, consumed: nat)
    requires k.Valid() && EncInv(k, dst[..], op, ss, anchor)
    modifies dst
    ensures r == 0 <==> k.limit == LimitedOutput && k.olimit < op + LitSize(k.Iend() - anchor)
    ensures r > 0 ==> Compressed(k, dst[..], r, consumed) && Ends(k, ss, op, anchor, dst[..], r, consumed)
  {
    hide Written, Rest, WellFormed, EndRules, Embedded, Room, Block.Window, LitPart, LitSize, Finished, FittingRun,
        Framed;
    var ok, lastRun := LastRun(k, dst.Length, op, anchor, ss);
    if !ok {
      return 0, 0;
    }
    ghost var before := dst[..];
    r := WriteLastLiterals(dst, op, k.mem, anchor, lastRun);
    WrittenFramed(before, dst[..], op, ss, k.Window(), k.dictSize, k.Pos(anchor), r);
    LitSizeIs(lastRun);
    WindowSlice(k, anchor, anchor + lastRun);
    consumed := anchor + lastRun - k.source;
    BytesEnd(k, dst[..], op, ss, anchor, lastRun, r);
    BlockDone(dst[..], op, r, ss, k.Window(), k.dictSize, k.Pos(anchor), k.Pos(anchor + lastRun));
  }

  // ---------------------------------------------------------------- the main loop

  datatype After = Search | Ended | Failed

  /** Everything that holds between two sequences: output written, table behind the next position. */
  ghost predicate LoopInv(k: Block, b: seq<byte>, t: seq<nat>, op: nat, ss: Seqs, anchor: nat, ip: nat, top: nat)
    requires k.Valid()
  {
    && EncInv(k, b, op, ss, anchor) && TableInv(k, t, top)
    && anchor <= ip && top < ip && ip + MFLIMIT <= k.Iend() + 1
  }

  /** Tests the position right behind a match; a hit there starts a match without literals. */
  method NextPosition(k: Block, t: array<nat>, ghost top: nat, ip: nat) returns (r: Probe)
    requires k.Valid() && t.Length == HASH_CELLS && Storable(k, ip) && k.source + 2 <= ip
    requires top < ip && TableInv(k, t[..], top)
    modifies t
    ensures TableInv(k, t[..], ip)
    ensures r.Hit? ==> MatchAt(k, ip, r.m, r.low)
    ensures var t1 := old(t[..])[Hash(k, ip - 2) := k.Index(ip - 2)];
            r == ProbeResult(k, t1[Hash(k, ip)], ip) && t[..] == t1[Hash(k, ip) := k.Index(ip)]
  {
    hide Hash, TableInv, MatchAt, ProbeResult;
    PutPosition(k, t, top, ip - 2);
    r := ProbeAt(k, t, Max(top, ip - 2), ip, Hash(k, ip));
  }

  /** What the plan has behind a match, once the position there has been tested. */
  lemma {:induction false} BehindStep(k: Block, p: Planned, t: seq<nat>, next: nat, ss: Seqs, op: nat, t': seq<nat>,
                                      r: Probe)
    requires k.Valid() && |t| == HASH_CELLS && k.source + MINMATCH <= next && next + MFLIMIT <= k.Iend()
    requires Follows(k, p, PlanBehind(k, t, next, ss), ss, op, next)
    requires var t1 := t[Hash(k, next - 2) := k.Index(next - 2)];
             r == ProbeResult(k, t1[Hash(k, next)], next) && t' == t1[Hash(k, next) := k.Index(next)]
    ensures r.Miss? ==> Follows(k, p, PlanSearch(k, t', next, next + 1, ss), ss, op, next)
    ensures r.Hit? ==> Follows(k, p, PlanMatch(k, t', next, next, r.m, r.low, ss), ss, op, next)
  {
    hide Hash, ProbeResult, PlanSearch, PlanMatch;
  }

  lemma {:induction false} BehindEnd(k: Block, p: Planned, t: seq<nat>, next: nat, ss: Seqs, op: nat)
    requires k.Valid() && |t| == HASH_CELLS && k.source + MINMATCH <= next && next + LASTLITERALS <= k.Iend()
    requires Follows(k, p, PlanBehind(k, t, next, ss), ss, op, next) && next + MFLIMIT > k.Iend()
    ensures Arrived(k, p, t, ss, op, next)
  {
    hide Hash, ProbeResult, PlanSearch, PlanMatch;
  }

  /**
    The matches that follow one another without literals, starting with the one at hand, until the
    search has to be resumed or the block ends.
  */
  method PutMatches(k: Block, dst: array<byte>, t: array<nat>, token0: nat, op0: nat, anchor0: nat, ip0: nat, m0: nat,
                    low0: nat, filledIp: nat, ghost ss0: Seqs, ghost p: Planned)
      returns (res: After, op: nat, anchor: nat, ghost ss: Seqs, ghost top: nat)
    requires k.Valid() && t.Length == HASH_CELLS
    requires MatchReady(k, dst[..], t[..], token0, op0, anchor0, ip0, m0, low0, ss0, filledIp, filledIp)
    requires k.source <= anchor0 <= ip0 && ip0 + MFLIMIT <= k.Iend()
    requires Follows(k, p, PlanMatch(k, t[..], anchor0, ip0, m0, low0, ss0), ss0, token0, anchor0)
    modifies dst, t
    ensures res == Failed ==> TooLong(k, p)
    ensures res == Ended ==> EncInv(k, dst[..], op, ss, anchor) && Arrived(k, p, t[..], ss, op, anchor)
    ensures TableInv(k, t[..], top) && (k.limit != FillOutput ==> Storable(k, top))
    ensures res == Search ==>
              && ip0 < anchor == top && LoopInv(k, dst[..], t[..], op, ss, anchor, anchor + 1, top)
              && k.source <= anchor && anchor + MFLIMIT <= k.Iend()
              && Follows(k, p, PlanSearch(k, t[..], anchor, anchor + 1, ss), ss, op, anchor)
  {
    hide EncInv, MatchAt, TableInv, MatchRoom, LiteralsWritten, MatchReady, Follows, PlanMatch, PlanBehind, PlanSearch,
        TooLong, Arrived, Hash, ProbeResult, Block.Window;
    var token, ip, m, low := token0, ip0, m0, low0;
    op, anchor, ss, top := op0, anchor0, ss0, filledIp;
    ReadyStorable(k, dst[..], t[..], token, op, anchor, ip, m, low, ss, top, filledIp);
    while true
      invariant MatchReady(k, dst[..], t[..], token, op, anchor, ip, m, low, ss, top, filledIp)
      invariant k.limit != FillOutput ==> Storable(k, top)
      invariant ip0 <= ip && k.source <= anchor <= ip && ip + MFLIMIT <= k.Iend()
      invariant Follows(k, p, PlanMatch(k, t[..], anchor, ip, m, low, ss), ss, token, anchor)
      decreases k.Iend() - ip
    {
      var step;
      ghost var ss', top';
      var op', ip';
      step, op', ip', ss', top' := PutMatch(k, dst, t, token, op, anchor, ip, m, low, filledIp, ss, top, p);
      top := top';
      if step == GiveUp {
        return Failed, op, anchor, ss, top;
      }
      if step == Last {
        return Ended, token, anchor, ss, top;
      }
      op, anchor, ip, ss := op', ip', ip', ss';
      if ip >= k.Iend() - MFLIMIT + 1 {
        BehindEnd(k, p, t[..], ip, ss, op);
        return Ended, op, anchor, ss, top;
      }
      ghost var before := t[..];
      var r := NextPosition(k, t, top, ip);
      top := ip;
      BehindStep(k, p, before, ip, ss, op, t[..], r);
      if r.Miss? {
        return Search, op, anchor, ss, top;
      }
      PutEmptyToken(k, dst, op, anchor, ss);
      ReadyWithoutLiterals(k, dst[..], t[..], op, ip, r.m, r.low, ss, filledIp);
      token, op, m, low := op, op + 1, r.m, r.low;
    }
  }

  lemma {:induction false} ReadyStorable(k: Block, b: seq<byte>, t: seq<nat>, token: nat, op: nat, anchor: nat, ip: nat,
      m: nat, low: nat, ss: Seqs, top: nat, filledIp: nat)
    requires k.Valid() && MatchReady(k, b, t, token, op, anchor, ip, m, low, ss, top, filledIp)
    ensures Storable(k, top)
  {
  }

  lemma {:induction false} ReadyWithoutLiterals(k: Block, b: seq<byte>, t: seq<nat>, op: nat, ip: nat, m: nat, low: nat,
                                                ss: Seqs, filledIp: nat)
    requires k.Valid() && EncInv(k, b, op, ss, ip) && Storable(k, ip) && (filledIp < ip || Full(k, op + 1))
    requires LiteralsWritten(b, op, []) && MatchRoom(k, |b|, op, op + 1, ss, ip)
    requires TableInv(k, t, ip) && MatchAt(k, ip, m, low)
    ensures MatchReady(k, b, t, op, op + 1, ip, ip, m, low, ss, ip, filledIp)
  {
    assert k.mem[ip..ip] == [];
  }

  /** Readiness of the first match after a search, its literals written. */
  lemma {:induction false} ReadyAfterSearch(k: Block, b: seq<byte>, t: seq<nat>, token: nat, op: nat, anchor: nat,
      ip: nat, m: nat, low: nat, ss: Seqs, filledIp: nat)
    requires k.Valid() && EncInv(k, b, token, ss, anchor) && MatchRoom(k, |b|, token, op, ss, anchor)
    requires anchor <= ip <= filledIp && Storable(k, filledIp) && op == token + LitSize(ip - anchor)
    requires LiteralsWritten(b, token, k.mem[anchor..ip])
    requires MatchAt(k, ip, m, low) && Agree(k.mem, ip, m, filledIp - ip + 4)
    requires InDict(k, low) ==> m + (filledIp - ip) + 4 <= k.DictEnd()
    requires TableInv(k, t, filledIp)
    ensures MatchReady(k, b, t, token, op, anchor, ip, m, low, ss, filledIp, filledIp)
  {
  }

  /** What the plan has where a search ends. */
  lemma {:induction false} SearchLeads(k: Block, p: Planned, t: seq<nat>, anchor: nat, ip0: nat, ss: Seqs, op: nat,
                                       r: Probe, at: nat, t': seq<nat>)
    requires k.Valid() && |t| == HASH_CELLS && k.source <= anchor <= ip0 && ip0 + MFLIMIT <= k.Iend() + 1
    requires Follows(k, p, PlanSearch(k, t, anchor, ip0, ss), ss, op, anchor)
    requires Sought(r, at, t') == SearchFrom(k, t, ip0, 0)
    ensures r.Miss? ==> Arrived(k, p, t', ss, op, anchor)
    ensures r.Hit? ==>
              var n := BytesBack(k.mem, at, r.m, anchor, r.low);
              && |t'| == HASH_CELLS && n <= at - anchor && n <= r.m && at - n + MFLIMIT <= k.Iend()
              && Follows(k, p, PlanMatch(k, t', anchor, at - n, r.m - n, r.low, ss), ss, op, anchor)
  {
    hide SearchFrom, PlanMatch;
  }

  /** One turn of the main loop: search, catch up, literals, matches. */
  method Turn(k: Block, dst: array<byte>, t: array<nat>, op0: nat, anchor0: nat, ip0: nat, ghost ss0: Seqs,
      ghost top0: nat, ghost p: Planned)
      returns (res: After, op: nat, anchor: nat, ghost ss: Seqs, ghost top: nat)
    requires k.Valid() && t.Length == HASH_CELLS
    requires LoopInv(k, dst[..], t[..], op0, ss0, anchor0, ip0, top0) && k.source <= top0 && MIN_LENGTH <= k.n
    requires CounterFits(k.acceleration, k.n)
    requires k.source <= anchor0 <= ip0 && ip0 + MFLIMIT <= k.Iend() + 1
    requires Follows(k, p, PlanSearch(k, t[..], anchor0, ip0, ss0), ss0, op0, anchor0)
    modifies dst, t
    ensures res == Failed ==> TooLong(k, p)
    ensures res == Ended ==> EncInv(k, dst[..], op, ss, anchor) && Arrived(k, p, t[..], ss, op, anchor)
    ensures TableInv(k, t[..], top) && (k.limit != FillOutput ==> (Storable(k, top) || top == top0))
    ensures res == Search ==>
              && anchor0 < anchor && LoopInv(k, dst[..], t[..], op, ss, anchor, anchor + 1, top)
              && k.source <= top && k.source <= anchor && anchor + MFLIMIT <= k.Iend()
              && Follows(k, p, PlanSearch(k, t[..], anchor, anchor + 1, ss), ss, op, anchor)
  {
    hide EncInv, MatchAt, TableInv, MatchRoom, MatchReady, LiteralsWritten, Agree, Room, CounterFits, ProbePos, Counter,
        Follows, PlanSearch, PlanMatch, SearchFrom, TooLong, Arrived, BytesBack, LitSize, Full, Block.Window;
    op, anchor, ss := op0, anchor0, ss0;
    var r, ip;
    ghost var probes;
    ghost var before := t[..];
    r, ip, top, probes := FindMatch(k, t, top0, ip0);
    assert Counter(k.acceleration, probes) <= INT_MAX;
    SearchLeads(k, p, before, anchor, ip0, ss, op, r, ip, t[..]);
    if r.Miss? {
      return Ended, op, anchor, ss, top;
    }
    var filledIp := ip;
    var m;
    ip, m := CatchUp(k, anchor, filledIp, r.m, r.low);
    var step, opl := PutLiterals(k, dst, op, anchor, ip, ss);
    if step == GiveUp {
      MatchTooLong(k, dst[..], t[..], op, anchor, ip, m, r.low, ss, p);
      return Failed, op, anchor, ss, top;
    }
    if step == Last {
      FullArrives(k, t[..], op, anchor, ip, m, r.low, ss, p);
      return Ended, op, anchor, ss, top;
    }
    ReadyAfterSearch(k, dst[..], t[..], op, opl, anchor, ip, m, r.low, ss, filledIp);
    res, op, anchor, ss, top := PutMatches(k, dst, t, op, opl, anchor, ip, m, r.low, filledIp, ss, p);
  }

  /** The table a call leaves: no index within MFLIMIT of the end of the block. */
  ghost predicate TableLeft(k: Block, t0: seq<nat>, t: seq<nat>)
  {
    |t| == HASH_CELLS
    && if k.n < MIN_LENGTH then t == t0
       else forall h :: 0 <= h < TableSize(k.tableType) ==> t[h] + MFLIMIT <= k.startIndex + k.n
  }

  lemma {:induction false} StoredEnd(k: Block, t0: seq<nat>, t: seq<nat>, top: nat)
    requires k.Valid() && TableInv(k, t, top) && k.n >= MIN_LENGTH
    ensures k.limit != FillOutput && Storable(k, top) ==> TableLeft(k, t0, t)
  {
  }

  lemma {:induction false} StartInv(k: Block, b: seq<byte>)
    requires k.Valid()
    requires if k.limit == NotLimited then CompressBound(k.n) <= |b| else k.olimit <= |b|
    ensures EncInv(k, b, 0, Start, k.source)
  {
    NothingWritten(b, k.Window(), k.dictSize);
  }

  /** The plan is followed up to where the output ends. */
  ghost predicate Filled(k: Block, p: Planned, b: seq<byte>, r: nat, consumed: nat)
  {
    var f := FillOf(k, p.ss);
    Ends(k, f.ss, f.op, f.anchor, b, r, consumed)
  }

  /** The plan is followed to its end. */
  ghost predicate Complete(k: Block, p: Planned, b: seq<byte>, t: seq<nat>, r: nat, consumed: nat)
  {
    && consumed == k.n && p.table == t
    && p.anchor <= k.Iend() <= |k.mem| && r == PlanSize(k, p) <= |b|
    && b[..r] == Finished(k.mem, p.ss, p.anchor, k.Iend() - p.anchor)
  }

  lemma {:induction false} ArrivedEnds(k: Block, p: Planned, t: seq<nat>, c: seq<byte>, ss: Seqs, op: nat, anchor: nat,
                                       b: seq<byte>, r: nat, consumed: nat)
    requires k.Valid() && EncInv(k, c, op, ss, anchor) && Arrived(k, p, t, ss, op, anchor)
    requires r == 0 <==> k.limit == LimitedOutput && k.olimit < op + LitSize(k.Iend() - anchor)
    requires r > 0 ==> Ends(k, ss, op, anchor, b, r, consumed)
    ensures r == 0 <==> TooLong(k, p)
    ensures r > 0 && k.limit == FillOutput ==> Filled(k, p, b, r, consumed)
    ensures r > 0 && k.limit != FillOutput ==> Complete(k, p, b, t, r, consumed)
  {
    hide Written, Room;
    WrittenSize(k, c, op, ss, anchor);
  }

  /**
    LZ4_compress_generic once its arguments have been accepted; 0 tells that the output does not fit. It writes
    what is planned; it fails exactly if it is to keep to a limit that the planned block exceeds.
  */
  method CompressBlock(k: Block, dst: array<byte>, t: array<nat>) returns (r: nat, consumed: nat)
    requires k.Valid() && t.Length == HASH_CELLS && CounterFits(k.acceleration, k.n)
    requires if k.limit == NotLimited then CompressBound(k.n) <= dst.Length else k.olimit <= dst.Length
    requires TableOk(k, t[..], Max(1, k.startIndex))
    requires k.limit == FillOutput ==> forall h :: 0 <= h < HASH_CELLS ==> t[h] == 0
    modifies dst, t
    ensures r == 0 <==> TooLong(k, PlanOf(k, old(t[..])))
    ensures r > 0 ==> Compressed(k, dst[..], r, consumed)
    ensures r > 0 && k.limit != FillOutput ==> Complete(k, PlanOf(k, old(t[..])), dst[..], t[..], r, consumed)
    ensures r > 0 && k.limit == FillOutput ==> Filled(k, PlanOf(k, old(t[..])), dst[..], r, consumed)
    ensures k.limit != FillOutput ==> TableLeft(k, old(t[..]), t[..])
  {
    hide Written, TableInv, Room, Compressed, CounterFits, Follows, PlanSearch, TooLong, Arrived, Complete, Filled,
        Ends, EncInv, Hash, Block.Window;
    ghost var p := PlanOf(k, t[..]);
    ghost var ss := Start;
    var op: nat, anchor: nat := 0, k.source;
    StartInv(k, dst[..]);
    if k.n < MIN_LENGTH {
      StartArrives(k, p, t[..]);
      ghost var before := dst[..];
      r, consumed := PutLast(k, dst, op, anchor, ss);
      ArrivedEnds(k, p, t[..], before, ss, op, anchor, dst[..], r, consumed);
      return;
    }
    assert k.limit == FillOutput ==> Hashed(k, t[..], k.source);
    PutFirst(k, t);
    StartFollows(k, p, PlanSearch(k, t[..], k.source, k.source + 1, Start));
    ghost var top := k.source;
    var ip: nat := k.source + 1;
    var res := Search;
    while res == Search
      invariant TableInv(k, t[..], top) && (res != Failed ==> EncInv(k, dst[..], op, ss, anchor))
      invariant res == Search ==>
                  && LoopInv(k, dst[..], t[..], op, ss, anchor, ip, top) && k.source <= top
                  && k.source <= anchor <= ip && ip + MFLIMIT <= k.Iend() + 1
                  && Follows(k, p, PlanSearch(k, t[..], anchor, ip, ss), ss, op, anchor)
      invariant res == Failed ==> TooLong(k, p)
      invariant res == Ended ==> Arrived(k, p, t[..], ss, op, anchor)
      invariant k.limit != FillOutput ==> Storable(k, top)
      decreases res == Search, k.Iend() - anchor
    {
      res, op, anchor, ss, top := Turn(k, dst, t, op, anchor, ip, ss, top, p);
      ip := if res == Search then anchor + 1 else ip;
    }
    StoredEnd(k, old(t[..]), t[..], top);
    if res == Failed {
      return 0, 0;
    }
    ghost var before := dst[..];
    r, consumed := PutLast(k, dst, op, anchor, ss);
    ArrivedEnds(k, p, t[..], before, ss, op, anchor, dst[..], r, consumed);
  }

  lemma {:induction false} StartFollows(k: Block, p: Planned, q: Planned)
    requires q == p
    ensures Follows(k, p, q, Start, 0, k.source)
  {
  }

  lemma {:induction false} StartArrives(k: Block, p: Planned, t: seq<nat>)
    requires p == Planned(Start, k.source, t)
    ensures Arrived(k, p, t, Start, 0, k.source)
  {
  }

  // ---------------------------------------------------------------- what the limits do

  /**
    A call that keeps to a limit fails exactly if the unlimited call writes more than that; otherwise both write
    the same bytes and leave the same table.
  */
  lemma {:induction false} LimitedAgrees(k: Block, k': Block, t0: seq<nat>, b: seq<byte>, t: seq<nat>, r: nat,
                                         consumed: nat, b': seq<byte>, t': seq<nat>, r': nat, consumed': nat)
    requires SameBut(k, k') && k.limit == LimitedOutput && k'.limit == NotLimited && |t0| == HASH_CELLS
    requires r == 0 <==> TooLong(k, PlanOf(k, t0))
    requires r > 0 ==> Complete(k, PlanOf(k, t0), b, t, r, consumed)
    requires Complete(k', PlanOf(k', t0), b', t', r', consumed')
    ensures r == 0 <==> r' > k.olimit
    ensures r > 0 ==> r == r' && b[..r] == b'[..r'] && t == t' && consumed == consumed'
  {
    hide PlanOf;
    PlanSame(k, k', t0);
  }

  /**
    Where input is left over the output is full but for the bytes that the reckoning of the last literals loses: one
    for every 65025 bytes of them begun, if any.
  */
  lemma {:induction false} FillsUp(k: Block, p: Planned, b: seq<byte>, r: nat, consumed: nat)
    requires k.limit == FillOutput && Filled(k, p, b, r, consumed) && r <= k.olimit && consumed < k.n
    ensures var f := FillOf(k, p.ss);
            var room := k.olimit - f.op - 1;
            var e, x := (room + 240) / 255, (room + 240) % 255;
            && 0 <= room && r == k.olimit + (x - e) / 255
            && (f.op + LitSize(k.source + consumed - f.anchor + 1) <= k.olimit <==> x + 1 < e)
  {
    hide FillOf, Finished, FittingRun, LitSize;
    var f := FillOf(k, p.ss);
    FillingBehind(k.olimit, f.op, k.Iend() - f.anchor, k.source + consumed - f.anchor);
  }
}
