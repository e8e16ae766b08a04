/** LZ4HC_encodeSequence and the last literals of the HC compressors, under the three output disciplines. */
module Lz4HcEncode {
  import opened Lz4Defs
  import opened Lz4Format
  import opened Lz4Copy
  import opened Lz4Encode
  import opened Lz4FastTable
  import opened Lz4HcChain
  import opened Lz4HcMatch

  /** One block to compress: from index `source` to the end of the space, into at most `olimit` bytes. */
  datatype Call = Call(s: Space, source: nat, limit: Limit, olimit: nat) {
    predicate Valid()
    {
      && s.Valid() && s.dictLimit <= source <= s.end && N() <= MAX_INPUT_SIZE
      && (limit == FillOutput ==> 1 <= olimit)
    }

    function N(): nat
    {
      if source <= s.end then s.end - source else 0
    }

    /** The same block with all the room it may need. */
    function Bare(): Call
    {
      this.(limit := NotLimited, olimit := 0)
    }

    /** Position of an index in the window. */
    function Pos(i: int): int
    {
      i - s.lowLimit
    }

    /** The end that sequences must respect: filling the output keeps five bytes back for the last literals. */
    function Oend(): int
    {
      if limit == FillOutput then olimit - LASTLITERALS else olimit
    }
  }

  /** What is left of the output buffer, of length `cap`, after `op` bytes. */
  ghost predicate Room(k: Call, cap: nat, op: nat, ss: Seqs, anchor: nat)
  {
    && k.source <= anchor && Lean(op, anchor - k.source)
    && match k.limit
       case NotLimited => CompressBound(k.N()) <= cap
       case LimitedOutput => k.olimit <= cap && (if ss.Snoc? then op + LASTLITERALS <= k.olimit else op == 0)
       case FillOutput => 1 <= k.olimit <= cap && (if ss.Snoc? then op + 2 * LASTLITERALS <= k.olimit else op == 0)
  }

  ghost predicate HcInv(k: Call, b: seq<byte>, op: nat, ss: Seqs, anchor: nat)
    requires k.Valid()
  {
    && k.source <= anchor <= k.s.end
    && Written(b, op, ss, k.s.Window(), k.Pos(k.source), k.Pos(anchor))
    && (ss.Snoc? ==> anchor + LASTLITERALS <= k.s.end && anchor + MFLIMIT <= k.s.end + ss.s.mlen)
    && Room(k, |b|, op, ss, anchor)
  }

  lemma {:induction false} StartInv(k: Call, b: seq<byte>)
    requires k.Valid()
    requires if k.limit == NotLimited then CompressBound(k.N()) <= |b| else k.olimit <= |b|
    ensures HcInv(k, b, 0, Start, k.source)
  {
    NothingWritten(b, k.s.Window(), k.Pos(k.source));
  }

  lemma {:induction false} HcFramed(k: Call, a: seq<byte>, b: seq<byte>, op: nat, ss: Seqs, anchor: nat, hi: int)
    requires k.Valid() && HcInv(k, a, op, ss, anchor) && Framed(a, b, op, hi)
    ensures HcInv(k, b, op, ss, anchor)
  {
    WrittenFramed(a, b, op, ss, k.s.Window(), k.Pos(k.source), k.Pos(anchor), hi);
  }

  /** Part of the block, in the window and in memory. */
  lemma {:induction false} BlockSlice(k: Call, a: nat, b: nat)
    requires k.Valid() && k.source <= a <= b <= k.s.end
    ensures k.s.Window()[k.Pos(a)..k.Pos(b)] == k.s.mem[k.s.base + a..k.s.base + b]
  {
    var x, y := k.s.Window()[k.Pos(a)..k.Pos(b)], k.s.mem[k.s.base + a..k.s.base + b];
    forall i | 0 <= i < b - a
      ensures x[i] == y[i]
    {
      Lz4HcChain.WindowAt(k.s, a + i);
    }
  }

  /** Bytes that repeat, as a match in the window. */
  lemma {:induction false} RepeatsIsMatch(s: Space, ref: int, i: nat, n: nat)
    requires s.Valid() && Repeats(s, ref, i, n) && i - ref <= DISTANCE_MAX
    ensures IsMatch(s.Window(), i - s.lowLimit, i - ref, n)
  {
    var v, p, off := s.Window(), i - s.lowLimit, i - ref;
    forall x | p <= x < p + n
      ensures v[x] == v[x - off]
    {
      assert EqualAt(s, ref, i, x - p);
      Lz4HcChain.WindowAt(s, x + s.lowLimit);
      Lz4HcChain.WindowAt(s, x - off + s.lowLimit);
    }
  }

  // ---------------------------------------------------------------- one sequence

  /** LZ4HC's loop for the match length extension: two bytes at a time. */
  method WriteExtBy2(dst: array<byte>, op: nat, n: nat) returns (op': nat)
    requires op + n / 255 + 1 <= dst.Length
    modifies dst
    ensures op' == op + n / 255 + 1
    ensures Embedded(dst[..], op, ExtBytes(n))
    ensures Framed(old(dst[..]), dst[..], op, op')
  {
    var len := n;
    op' := op;
    while len >= 510
      invariant 0 <= len && op <= op' && len == n - 255 * (op' - op)
      invariant forall k :: op <= k < op' ==> dst[k] == 255
      invariant Framed(old(dst[..]), dst[..], op, op')
    {
      dst[op'] := 255;
      dst[op' + 1] := 255;
      op' := op' + 2;
      len := len - 510;
    }
    if len >= 255 {
      len := len - 255;
      dst[op'] := 255;
      op' := op' + 1;
    }
    dst[op'] := len;
    op' := op' + 1;
    ExtBytesEmbedded(dst[..], op, n);
  }

  /** Match length: the lower half of the token, then its extension. */
  method PutMatchLength(dst: array<byte>, token: nat, op: nat, code: nat) returns (op': nat)
    requires token < op <= dst.Length && dst[token] % 16 == 0 && op + ExtSize(code) <= dst.Length
    modifies dst
    ensures op' == op + ExtSize(code)
    ensures dst[token] == old(dst[token]) + Nibble(code) && Embedded(dst[..], op, LenExt(code))
    ensures forall i :: 0 <= i < op && i != token ==> dst[i] == old(dst[i])
  {
    var high := dst[token] / 16;
    if code >= ML_MASK {
      dst[token] := 16 * high + ML_MASK;
      ghost var b := dst[..];
      op' := WriteExtBy2(dst, op, code - ML_MASK);
      assert forall i :: 0 <= i < op ==> dst[..][i] == b[i];
    } else {
      dst[token] := 16 * high + code;
      op' := op;
    }
  }

  /** The two checks of the output limit pass. */
  predicate SequenceFits(k: Call, token: nat, ll: nat, code: nat)
  {
    k.limit == NotLimited
    || (token + 1 + ll / 255 + ll + (2 + 1 + LASTLITERALS) <= k.Oend()
        && token + LitSize(ll) + 2 + code / 255 + (1 + LASTLITERALS) <= k.Oend())
  }

  lemma {:induction false} LeanLiterals(op: nat, consumed: nat, ll: nat, n: nat)
    requires Lean(op, consumed) && consumed + ll + MFLIMIT <= n <= MAX_INPUT_SIZE
    ensures op + 1 + ll + (2 + 1 + LASTLITERALS) + ll / 255 <= CompressBound(n)
  {
    assert consumed / 255 + ll / 255 <= (consumed + ll) / 255 <= n / 255;
  }

  lemma {:induction false} LeanMatch(op: nat, consumed: nat, ll: nat, code: nat, n: nat)
    requires Lean(op, consumed) && consumed + ll + code + MINMATCH + LASTLITERALS <= n <= MAX_INPUT_SIZE
    ensures op + LitSize(ll) + 2 + (1 + LASTLITERALS) + (code + 240) / 255 <= CompressBound(n)
  {
    LeanStep(op, consumed, ll, code + MINMATCH);
    assert ExtSize(code) == (code + 240) / 255;
    assert (consumed + ll + code + MINMATCH) / 255 <= n / 255;
  }

  lemma {:induction false} TooSmall(k: Call, cap: nat, token: nat, ss: Seqs, anchor: nat, ll: nat, mlen: nat)
    requires k.Valid() && Room(k, cap, token, ss, anchor) && MINMATCH <= mlen
    requires anchor + ll + MFLIMIT <= k.s.end && anchor + ll + mlen + LASTLITERALS <= k.s.end
    requires !SequenceFits(k, token, ll, mlen - MINMATCH)
    ensures k.limit != NotLimited && k.Oend() < CompressBound(k.N())
  {
    LeanLiterals(token, anchor - k.source, ll, k.N());
    LeanMatch(token, anchor - k.source, ll, mlen - MINMATCH, k.N());
    assert (mlen - MINMATCH) / 255 <= (mlen - MINMATCH + 240) / 255;
  }

  lemma {:induction false} SequenceRoom(k: Call, cap: nat, token: nat, ss: Seqs, anchor: nat, s: Sequence)
    requires k.Valid() && Room(k, cap, token, ss, anchor) && MINMATCH <= s.mlen
    requires anchor + |s.lits| + MFLIMIT <= k.s.end && anchor + |s.lits| + s.mlen + LASTLITERALS <= k.s.end
    requires SequenceFits(k, token, |s.lits|, s.mlen - MINMATCH)
    ensures token + LitSize(|s.lits|) + (if |s.lits| == 0 then 8 else 7) <= cap
    ensures var op' := token + LitSize(|s.lits|) + 2 + ExtSize(s.mlen - MINMATCH);
            op' <= cap && Room(k, cap, op', Snoc(ss, s), anchor + |s.lits| + s.mlen)
  {
    var ll, code := |s.lits|, s.mlen - MINMATCH;
    LeanStep(token, anchor - k.source, ll, s.mlen);
    assert ExtSize(ll) <= ll / 255 + (if ll == 0 then 0 else 1);
    assert ExtSize(code) <= code / 255 + 1;
    if k.limit == NotLimited {
      LeanLast(token, anchor - k.source, ll);
      var consumed := anchor + ll + s.mlen - k.source;
      LeanLast(token + LitSize(ll) + 2 + ExtSize(code), consumed, 0);
      assert CompressBound(anchor - k.source + ll) <= CompressBound(k.N());
      assert CompressBound(consumed) <= CompressBound(k.N());
    }
  }

  /** Literals from `anchor` to `ip`, then a match of `mlen` bytes. */
  function SequenceOf(k: Call, anchor: nat, ip: nat, ref: int, mlen: nat): (s: Sequence)
    ensures mlen == s.mlen && (k.Valid() && k.source <= anchor <= ip <= k.s.end ==> |s.lits| == ip - anchor)
  {
    var a, b := k.s.base + anchor, k.s.base + ip;
    Sequence(if 0 <= a <= b <= |k.s.mem| then k.s.mem[a..b] else [], Max(0, ip - ref), mlen)
  }

  /** LZ4HC_encodeSequence; when it fails the output before the sequence is still what it was. */
  method EncodeSequence(k: Call, dst: array<byte>, op: nat, anchor: nat, ip: nat, ref: int, mlen: nat, ghost ss: Seqs)
      returns (ok: bool, op': nat, ghost ss': Seqs)
    requires k.Valid() && HcInv(k, dst[..], op, ss, anchor) && anchor <= ip && ip + MFLIMIT <= k.s.end
    requires MINMATCH <= mlen && ip + mlen + LASTLITERALS <= k.s.end
    requires 1 <= ip - ref <= DISTANCE_MAX && Repeats(k.s, ref, ip, mlen)
    modifies dst
    ensures ok <==> SequenceFits(k, op, ip - anchor, mlen - MINMATCH)
    ensures ok ==>
              && HcInv(k, dst[..], op', ss', ip + mlen)
              && op' == op + LitSize(ip - anchor) + 2 + ExtSize(mlen - MINMATCH)
              && k.source <= anchor && ss' == Snoc(ss, SequenceOf(k, anchor, ip, ref, mlen))
    ensures !ok ==> HcInv(k, dst[..], op, ss, anchor) && k.limit != NotLimited && k.Oend() < CompressBound(k.N())
  {
    hide Written, Room, Repeats, LiteralsWritten, Lean, LitSize;
    var code := mlen - MINMATCH;
    ok, op', ss' := false, op, ss;
    LitSizeIs(ip - anchor);
    if k.limit != NotLimited && op + 1 + (ip - anchor) / 255 + (ip - anchor) + (2 + 1 + LASTLITERALS) > k.Oend() {
      TooSmall(k, dst.Length, op, ss, anchor, ip - anchor, mlen);
      return;
    }
    LiteralsRoom(k, dst.Length, op, ss, anchor, ip - anchor);
    ghost var before := dst[..];
    var o := WriteLiterals(dst, op, k.s.mem, k.s.base + anchor, ip - anchor);
    HcFramed(k, before, dst[..], op, ss, anchor, dst.Length);
    if k.limit != NotLimited && o + 2 + code / 255 + (1 + LASTLITERALS) > k.Oend() {
      TooSmall(k, dst.Length, op, ss, anchor, ip - anchor, mlen);
      return;
    }
    ok := true;
    op', ss' := WriteMatch(k, dst, op, o, anchor, ip, ref, mlen, ss);
  }

  lemma {:induction false} LiteralsRoom(k: Call, cap: nat, token: nat, ss: Seqs, anchor: nat, ll: nat)
    requires k.Valid() && Room(k, cap, token, ss, anchor) && anchor + ll + MFLIMIT <= k.s.end
    requires k.limit != NotLimited ==> token + 1 + ll / 255 + ll + 8 <= k.Oend()
    ensures token + LitSize(ll) + (if ll == 0 then 8 else 7) <= cap
  {
    assert ExtSize(ll) <= ll / 255 + (if ll == 0 then 0 else 1);
    if k.limit == NotLimited {
      LeanLast(token, anchor - k.source, ll);
      assert CompressBound(anchor - k.source + ll) <= CompressBound(k.N());
    }
  }

  /** Offset and length behind the literals, and the token completed. */
  method WriteMatchBytes(dst: array<byte>, token: nat, op: nat, off: nat, code: nat) returns (op': nat)
    requires token < op && op + 2 + ExtSize(code) <= dst.Length && dst[token] % 16 == 0 && off <= DISTANCE_MAX
    modifies dst
    ensures op' == op + 2 + ExtSize(code) && MatchAdded(old(dst[..]), dst[..], token, op, off, code)
  {
    hide Embedded, ExtSize, MatchAdded;
    ghost var a := dst[..];
    WriteLE16(dst, op, off);
    ghost var mid := dst[..];
    op' := PutMatchLength(dst, token, op + 2, code);
    AddedInTwo(a, mid, dst[..], token, op, off, code);
  }

  /** One more match, behind its literals. */
  method WriteMatch(k: Call, dst: array<byte>, token: nat, op: nat, anchor: nat, ip: nat, ref: int, mlen: nat,
      ghost ss: Seqs)
      returns (op': nat, ghost ss': Seqs)
    requires k.Valid() && HcInv(k, dst[..], token, ss, anchor) && anchor <= ip && ip + MFLIMIT <= k.s.end
    requires MINMATCH <= mlen && ip + mlen + LASTLITERALS <= k.s.end
    requires 1 <= ip - ref <= DISTANCE_MAX && Repeats(k.s, ref, ip, mlen)
    requires op == token + LitSize(ip - anchor)
    requires LiteralsWritten(dst[..], token, k.s.mem[k.s.base + anchor..k.s.base + ip])
    requires SequenceFits(k, token, ip - anchor, mlen - MINMATCH)
    modifies dst
    ensures HcInv(k, dst[..], op', ss', ip + mlen) && op' == op + 2 + ExtSize(mlen - MINMATCH)
    ensures k.source <= anchor && ss' == Snoc(ss, SequenceOf(k, anchor, ip, ref, mlen))
  {
    hide HcInv, Repeats, SequenceFits, LitSize, ExtSize, MatchAdded, Space.Window;
    InvParts(k, dst[..], token, ss, anchor);
    LiteralsInside(k, dst[..], token, op, ss, anchor, ip, mlen);
    ghost var a := dst[..];
    assert dst[token] == a[token] == 16 * Nibble(ip - anchor);
    op' := WriteMatchBytes(dst, token, op, ip - ref, mlen - MINMATCH);
    ss' := Snoc(ss, Sequence(k.s.Window()[k.Pos(anchor)..k.Pos(ip)], ip - ref, mlen));
    MatchKeepsInv(k, a, dst[..], token, op, ss, anchor, ip, ref, mlen);
    BlockSlice(k, anchor, ip);
  }

  lemma {:induction false} LiteralsInside(k: Call, b: seq<byte>, token: nat, op: nat, ss: Seqs, anchor: nat, ip: nat,
      mlen: nat)
    requires k.Valid() && HcInv(k, b, token, ss, anchor) && anchor <= ip && ip + MFLIMIT <= k.s.end
    requires MINMATCH <= mlen && ip + mlen + LASTLITERALS <= k.s.end && op == token + LitSize(ip - anchor)
    requires SequenceFits(k, token, ip - anchor, mlen - MINMATCH)
    ensures token < op && op + 2 + ExtSize(mlen - MINMATCH) <= |b|
  {
    hide Written, Lean, Room, SequenceFits;
    BlockSlice(k, anchor, ip);
    SequenceRoom(k, |b|, token, ss, anchor, Sequence(k.s.mem[k.s.base + anchor..k.s.base + ip], 1, mlen));
  }

  /** The output with one more sequence. */
  lemma {:induction false} MatchKeepsInv(k: Call, a: seq<byte>, b: seq<byte>, token: nat, op: nat, ss: Seqs,
      anchor: nat, ip: nat, ref: int, mlen: nat)
    requires k.Valid() && HcInv(k, a, token, ss, anchor) && anchor <= ip && ip + MFLIMIT <= k.s.end
    requires MINMATCH <= mlen && ip + mlen + LASTLITERALS <= k.s.end
    requires 1 <= ip - ref <= DISTANCE_MAX && Repeats(k.s, ref, ip, mlen)
    requires op == token + LitSize(ip - anchor) && LiteralsWritten(a, token, k.s.mem[k.s.base + anchor..k.s.base + ip])
    requires SequenceFits(k, token, ip - anchor, mlen - MINMATCH)
             && MatchAdded(a, b, token, op, ip - ref, mlen - MINMATCH)
    ensures HcInv(k, b, op + 2 + ExtSize(mlen - MINMATCH),
                  Snoc(ss, Sequence(k.s.Window()[k.Pos(anchor)..k.Pos(ip)], ip - ref, mlen)), ip + mlen)
  {
    hide Written, IsMatch, Repeats, Lean, Room, SequenceFits, LiteralsWritten, MatchAdded, LitSize, ExtSize,
        Space.Window;
    var v, pos, p := k.s.Window(), k.Pos(anchor), k.Pos(ip);
    AddedSize(a, b, token, op, ip - ref, mlen - MINMATCH);
    BlockSlice(k, anchor, ip);
    SequenceRoom(k, |a|, token, ss, anchor, Sequence(v[pos..p], ip - ref, mlen));
    RepeatsIsMatch(k.s, ref, ip, mlen);
    SequenceAdded(a, b, token, op, ss, v, k.Pos(k.source), pos, p, ip - ref, mlen - MINMATCH);
  }

  // ---------------------------------------------------------------- last literals

  /** What a successful call leaves in the first `r` bytes of the output. */
  ghost predicate HcCompressed(k: Call, b: seq<byte>, r: nat, consumed: nat)
    requires k.Valid()
  {
    && consumed <= k.N() && (k.limit != FillOutput || CompressBound(k.N()) <= k.olimit ==> consumed == k.N())
    && 0 < r <= |b| && r <= CompressBound(k.N()) && (k.limit != NotLimited ==> r <= k.olimit)
    && Rest(b[..r], 0, k.s.Window()[..k.Pos(k.source)]) == Decoded(k.s.Window()[..k.Pos(k.source + consumed)])
    && WellFormed(b[..r], consumed)
    && (consumed == 0 ==> b[..r] == [0])
  }

  /** The last literals chosen: they fit, and the end-of-block rules hold behind `ss`. */
  ghost predicate LastFits(k: Call, cap: nat, op: nat, anchor: nat, ss: Seqs, run: nat)
  {
    && anchor + run <= k.s.end
       && (k.limit != FillOutput || CompressBound(k.N()) <= k.olimit ==> anchor + run == k.s.end)
    && op + LitSize(run) <= cap && op + LitSize(run) <= CompressBound(k.N())
    && (k.limit != NotLimited ==> op + LitSize(run) <= k.olimit)
    && EndRules(ss, run)
  }

  /** How many literals end the block. */
  method LastRun(k: Call, ghost cap: nat, op: nat, anchor: nat, ghost ss: Seqs) returns (ok: bool, run: nat)
    requires k.Valid() && k.source <= anchor <= k.s.end && Room(k, cap, op, ss, anchor)
    requires ss.Snoc? ==>
               anchor + LASTLITERALS <= k.s.end && anchor + MFLIMIT <= k.s.end + ss.s.mlen && MINMATCH <= ss.s.mlen
    ensures !ok ==> k.limit == LimitedOutput && k.olimit < CompressBound(k.N())
    ensures !ok <==> k.limit == LimitedOutput && k.olimit < op + LitSize(k.s.end - anchor)
    ensures ok ==> LastFits(k, cap, op, anchor, ss, run)
    ensures ok ==> run == (if k.limit == FillOutput then FittingRun(k.olimit, op, k.s.end - anchor)
                           else k.s.end - anchor)
  {
    hide Lean;
    run := k.s.end - anchor;
    LeanLast(op, anchor - k.source, run);
    assert ExtSize(run) == (run + 240) / 255;
    if k.limit != NotLimited && op + (1 + (run + 240) / 255 + run) > k.olimit {
      if k.limit == LimitedOutput {
        return false, 0;
      }
      FittingRunFits(k.olimit, op, run);
      assert ExtSize(FittingRun(k.olimit, op, run)) <= ExtSize(run);
      run := FittingRun(k.olimit, op, run);
    }
    return true, run;
  }

  lemma {:induction false} LastDone(k: Call, a: seq<byte>, b: seq<byte>, op: nat, anchor: nat, ss: Seqs, run: nat,
      r: nat, lits: seq<byte>)
    requires k.Valid() && HcInv(k, a, op, ss, anchor) && LastFits(k, |a|, op, anchor, ss, run) && Framed(a, b, op, r)
    requires lits == k.s.mem[k.s.base + anchor..k.s.base + anchor + run]
    requires Embedded(b, op, LitPart(lits, 0)) && r == op + LitSize(run) && |LitPart(lits, 0)| == LitSize(run)
    ensures 0 < r && HcCompressed(k, b, r, anchor + run - k.source)
  {
    hide Written, Rest, WellFormed, EndRules, Embedded, Room;
    WrittenFramed(a, b, op, ss, k.s.Window(), k.Pos(k.source), k.Pos(anchor), r);
    BlockSlice(k, anchor, anchor + run);
    BlockDone(b, op, r, ss, k.s.Window(), k.Pos(k.source), k.Pos(anchor), k.Pos(anchor + run));
  }

  /** The bytes a call leaves: the sequences it wrote, and as many literals behind them as it could. */
  ghost predicate Ends(k: Call, ss: Seqs, op: nat, anchor: nat, b: seq<byte>, r: nat, consumed: nat)
    requires k.Valid()
  {
    && k.source <= anchor <= k.source + consumed <= k.s.end && r <= |b|
    && r == op + LitSize(k.source + consumed - anchor)
    && b[..r] == Finished(k.s.mem, ss, k.s.base + anchor, k.source + consumed - anchor)
    && k.source + consumed - anchor == (if k.limit == FillOutput then FittingRun(k.olimit, op, k.s.end - anchor)
                                        else k.s.end - anchor)
  }

  lemma {:induction false} BytesEnd(k: Call, a: seq<byte>, b: seq<byte>, op: nat, ss: Seqs, anchor: nat, run: nat,
                                    r: nat)
    requires k.Valid() && HcInv(k, a, op, ss, anchor) && anchor + run <= k.s.end && Framed(a, b, op, r)
    requires r == op + |LitPart(k.s.mem[k.s.base + anchor..k.s.base + anchor + run], 0)|
    requires Embedded(b, op, LitPart(k.s.mem[k.s.base + anchor..k.s.base + anchor + run], 0))
    ensures r <= |b| && b[..r] == Finished(k.s.mem, ss, k.s.base + anchor, run)
  {
    hide LitPart, Room, Space.Window, Expand, Framed;
    WrittenFramed(a, b, op, ss, k.s.Window(), k.Pos(k.source), k.Pos(anchor), r);
    var n := k.Pos(k.source);
    var e, f := EncodeSeqs(n, ss), LitPart(k.s.mem[k.s.base + anchor..k.s.base + anchor + run], 0);
    BytesAreEncoded(n, ss);
    EmbeddedJoin(b, 0, e, f);
    EmbeddedFits(b, 0, e + f);
    EmbeddedIsPrefix(b, e + f);
  }

  /** The label _last_literals; 0 tells that the output does not fit. */
  method PutLast(k: Call, dst: array<byte>, op: nat, anchor: nat, ghost ss: Seqs) returns (r: nat, consumed: nat)
    requires k.Valid() && HcInv(k, dst[..], op, ss, anchor)
    modifies dst
    ensures r == 0 ==> k.limit == LimitedOutput && k.olimit < CompressBound(k.N())
    ensures r == 0 <==> k.limit == LimitedOutput && k.olimit < op + LitSize(k.s.end - anchor)
    ensures r > 0 ==> HcCompressed(k, dst[..], r, consumed) && Ends(k, ss, op, anchor, dst[..], r, consumed)
  {
    hide Finished, FittingRun, HcInv, HcCompressed, EndRules, Embedded, Room, LitSize, LitPart, Framed, Written;
    InvParts(k, dst[..], op, ss, anchor);
    var ok, lastRun := LastRun(k, dst.Length, op, anchor, ss);
    if !ok {
      return 0, 0;
    }
    ghost var before := dst[..];
    var from: nat := k.s.base + anchor;
    r := WriteLastLiterals(dst, op, k.s.mem, from, lastRun);
    BytesEnd(k, before, dst[..], op, ss, anchor, lastRun, r);
    LastDone(k, before, dst[..], op, anchor, ss, lastRun, r, k.s.mem[from..from + lastRun]);
    consumed := anchor + lastRun - k.source;
  }

  lemma {:induction false} InvParts(k: Call, b: seq<byte>, op: nat, ss: Seqs, anchor: nat)
    requires k.Valid() && HcInv(k, b, op, ss, anchor)
    ensures k.source <= anchor <= k.s.end && Room(k, |b|, op, ss, anchor) && op <= |b|
    ensures ss.Snoc? ==>
              anchor + LASTLITERALS <= k.s.end && anchor + MFLIMIT <= k.s.end + ss.s.mlen && MINMATCH <= ss.s.mlen
  {
  }
}
