/**
  Writing sequences: what the fast compressor and the HC compressor share when they put tokens, literals,
  offsets and lengths into the output buffer.
*/
module Lz4Encode {
  import opened Lz4Defs
  import opened Lz4Format
  import opened Lz4Copy

  lemma {:induction false} ExtBytesShape(n: nat)
    ensures |ExtBytes(n)| == n / 255 + 1
    ensures forall k :: 0 <= k < n / 255 ==> ExtBytes(n)[k] == 255
    ensures ExtBytes(n)[n / 255] == n % 255
    decreases n
  {
    if n >= 255 {
      ExtBytesShape(n - 255);
      var r := ExtBytes(n - 255);
      assert n / 255 == (n - 255) / 255 + 1;
      forall k | 0 <= k < n / 255
        ensures ExtBytes(n)[k] == 255
      {
        if k > 0 {
          assert ExtBytes(n)[k] == r[k - 1];
        }
      }
    }
  }

  /** The bytes `op..` hold a length extension: 255s and a last byte. */
  lemma {:induction false} ExtBytesEmbedded(b: seq<byte>, op: nat, n: nat)
    requires op + n / 255 + 1 <= |b|
    requires forall k :: op <= k < op + n / 255 ==> b[k] == 255
    requires b[op + n / 255] == n % 255
    ensures Embedded(b, op, ExtBytes(n))
  {
    ExtBytesShape(n);
  }

  /** The byte loop for a length extension. */
  method WriteExt(dst: array<byte>, op: nat, n: nat) returns (op': nat)
    requires op + n / 255 + 1 <= dst.Length
    modifies dst
    ensures op' == op + n / 255 + 1
    ensures Embedded(dst[..], op, ExtBytes(n))
    ensures Framed(old(dst[..]), dst[..], op, op')
  {
    var len := n;
    op' := op;
    while len >= 255
      invariant 0 <= len && op <= op' && len == n - 255 * (op' - op)
      invariant forall k :: op <= k < op' ==> dst[k] == 255
      invariant Framed(old(dst[..]), dst[..], op, op')
    {
      dst[op'] := 255;
      op' := op' + 1;
      len := len - 255;
    }
    dst[op'] := len;
    op' := op' + 1;
    ExtBytesEmbedded(dst[..], op, n);
  }

  /** The four-at-a-time form of the fast compressor; it writes up to three bytes too many. */
  method WriteExtBy4(dst: array<byte>, op: nat, n: nat) returns (op': nat)
    requires op + n / 255 + 4 <= dst.Length
    modifies dst
    ensures op' == op + n / 255 + 1
    ensures Embedded(dst[..], op, ExtBytes(n))
    ensures Framed(old(dst[..]), dst[..], op, op + n / 255 + 4)
  {
    var code := n;
    op' := op;
    Write255s(dst, op');
    while code >= 4 * 255
      invariant 0 <= code && op <= op' && code == n - 255 * (op' - op)
      invariant forall k :: op <= k < op' + 4 ==> dst[k] == 255
      invariant Framed(old(dst[..]), dst[..], op, op' + 4)
    {
      op' := op' + 4;
      Write255s(dst, op');
      code := code - 4 * 255;
    }
    op' := op' + code / 255;
    dst[op'] := code % 255;
    op' := op' + 1;
    ExtBytesEmbedded(dst[..], op, n);
  }

  /** LZ4_write32(op, 0xFFFFFFFF). */
  method Write255s(dst: array<byte>, op: nat)
    requires op + 4 <= dst.Length
    modifies dst
    ensures forall k :: op <= k < op + 4 ==> dst[k] == 255
    ensures Framed(old(dst[..]), dst[..], op, op + 4)
  {
    forall k | 0 <= k < 4 {
      dst[op + k] := 255;
    }
  }

  /** Bytes that no write touched are still there. */
  lemma {:induction false} EmbeddedFramed(a: seq<byte>, b: seq<byte>, ip: nat, e: seq<byte>, lo: int, hi: int)
    requires Embedded(a, ip, e) && Framed(a, b, lo, hi) && (ip + |e| <= lo || hi <= ip)
    ensures Embedded(b, ip, e)
  {
  }

  lemma {:induction false} EmbeddedJoin(b: seq<byte>, ip: nat, e: seq<byte>, f: seq<byte>)
    requires Embedded(b, ip, e) && Embedded(b, ip + |e|, f)
    ensures Embedded(b, ip, e + f)
  {
    forall k | 0 <= k < |e + f|
      ensures b[ip + k] == (e + f)[k]
    {
      if k >= |e| {
        assert b[ip + |e| + (k - |e|)] == f[k - |e|];
      }
    }
  }

  /** Token and length of a run of literals; `low` bits of the token stay free for the match. */
  method WriteLiteralLength(dst: array<byte>, token: nat, n: nat) returns (op: nat)
    requires token + 1 + ExtSize(n) <= dst.Length
    modifies dst
    ensures op == token + 1 + ExtSize(n)
    ensures dst[token] == 16 * Nibble(n) && Embedded(dst[..], token + 1, LenExt(n))
    ensures Framed(old(dst[..]), dst[..], token, op)
  {
    op := token + 1;
    if n >= RUN_MASK {
      dst[token] := 16 * RUN_MASK;
      ghost var b := dst[..];
      op := WriteExt(dst, op, n - RUN_MASK);
    } else {
      dst[token] := 16 * n;
    }
  }

  lemma {:induction false} LitPartEmbedded(b: seq<byte>, token: nat, lits: seq<byte>, low: nat)
    requires low <= 15 && token < |b| && b[token] == 16 * Nibble(|lits|) + low
    requires Embedded(b, token + 1, LenExt(|lits|))
    requires Embedded(b, token + 1 + ExtSize(|lits|), lits)
    ensures Embedded(b, token, LitPart(lits, low))
    ensures |LitPart(lits, low)| == LitSize(|lits|)
  {
    LenExtSize(|lits|);
    var t: seq<byte> := [16 * Nibble(|lits|) + low];
    assert Embedded(b, token, t);
    EmbeddedJoin(b, token, t, LenExt(|lits|));
    EmbeddedJoin(b, token, t + LenExt(|lits|), lits);
  }

  /** Token and length stand in `b`; with the literals behind them in `c` it is all there. */
  lemma {:induction false} LastWritten(a: seq<byte>, b: seq<byte>, c: seq<byte>, op: nat, lits: seq<byte>)
    requires op + LitSize(|lits|) <= |a| == |b|
    requires b[op] == 16 * Nibble(|lits|) && Embedded(b, op + 1, LenExt(|lits|))
    requires Framed(a, b, op, op + 1 + ExtSize(|lits|)) && Framed(b, c, op + 1 + ExtSize(|lits|), op + LitSize(|lits|))
    requires Embedded(c, op + 1 + ExtSize(|lits|), lits)
    ensures Embedded(c, op, LitPart(lits, 0)) && |LitPart(lits, 0)| == LitSize(|lits|)
    ensures Framed(a, c, op, op + LitSize(|lits|))
  {
    hide Embedded, LenExt, ExtSize, LitPart, Nibble;
    LenExtSize(|lits|);
    EmbeddedFramed(b, c, op + 1, LenExt(|lits|), op + 1 + ExtSize(|lits|), op + LitSize(|lits|));
    LitPartEmbedded(c, op, lits, 0);
  }

  lemma {:induction false} CopiedEmbedded(b: seq<byte>, op: nat, mem: seq<byte>, anchor: nat, n: nat)
    requires op + n <= |b| && anchor + n <= |mem|
    requires forall k :: op <= k < op + n ==> b[k] == mem[anchor + (k - op)]
    ensures Embedded(b, op, mem[anchor..anchor + n])
  {
  }

  /** Token, length and bytes of the last literals. */
  method WriteLastLiterals(dst: array<byte>, op: nat, mem: seq<byte>, anchor: nat, n: nat) returns (op': nat)
    requires op + LitSize(n) <= dst.Length && anchor + n <= |mem|
    modifies dst
    ensures op' == op + LitSize(n)
    ensures Embedded(dst[..], op, LitPart(mem[anchor..anchor + n], 0))
            && |LitPart(mem[anchor..anchor + n], 0)| == LitSize(n)
    ensures Framed(old(dst[..]), dst[..], op, op')
  {
    hide Embedded, LenExt, ExtSize, LitPart, Nibble, Framed;
    ghost var a := dst[..];
    op' := WriteLiteralLength(dst, op, n);
    ghost var b := dst[..];
    assert b[op] == dst[op];
    CopyFrom(dst, op', mem, anchor, n);
    CopiedEmbedded(dst[..], op', mem, anchor, n);
    LastWritten(a, b, dst[..], op, mem[anchor..anchor + n]);
    op' := op' + n;
  }

  // ---------------------------------------------------------------- the encoder's invariant

  /** `b[..op]` are the bytes of `ss`, and `ss` says `v[..pos]`; `v` starts with a history of `n` bytes. */
  ghost predicate Written(b: seq<byte>, op: nat, ss: Seqs, v: seq<byte>, n: nat, pos: nat)
  {
    && n <= pos <= |v| && op <= |b|
    && AllValid(n, ss) && Expand(v[..n], ss) == v[..pos]
    && Embedded(b, 0, EncodeSeqs(n, ss)) && op == |EncodeSeqs(n, ss)|
  }

  lemma {:induction false} NothingWritten(b: seq<byte>, v: seq<byte>, n: nat)
    requires n <= |v|
    ensures Written(b, 0, Start, v, n, n)
  {
  }

  lemma {:induction false} WrittenFramed(a: seq<byte>, b: seq<byte>, op: nat, ss: Seqs, v: seq<byte>, n: nat, pos: nat,
      hi: int)
    requires Written(a, op, ss, v, n, pos) && Framed(a, b, op, hi)
    ensures Written(b, op, ss, v, n, pos)
  {
    EmbeddedFramed(a, b, 0, EncodeSeqs(n, ss), op, hi);
  }

  /** The `mlen` bytes of `v` at `p` repeat those `off` before. */
  ghost predicate IsMatch(v: seq<byte>, p: nat, off: nat, mlen: nat)
  {
    && 1 <= off <= p && off <= DISTANCE_MAX && p + mlen <= |v|
    && forall k :: p <= k < p + mlen ==> v[k] == v[k - off]
  }

  /** A sequence that says what stands in `v` next. */
  lemma {:induction false} ApplyMatch(v: seq<byte>, pos: nat, p: nat, off: nat, mlen: nat)
    requires pos <= p && IsMatch(v, p, off, mlen) && MINMATCH <= mlen
    ensures ValidAfter(pos, Sequence(v[pos..p], off, mlen))
    ensures Apply(v[..pos], Sequence(v[pos..p], off, mlen)) == v[..p + mlen]
  {
    hide CopyMatch;
    var h, r := v[..p], v[..p + mlen];
    assert v[..pos] + v[pos..p] == h;
    CopyMatchUnique(h, r, off);
  }

  /** One more sequence written: literals from `pos` to `p`, then a match. */
  lemma {:induction false} WrittenSnoc(b: seq<byte>, op: nat, op': nat, ss: Seqs, v: seq<byte>, n: nat, pos: nat,
                                       p: nat, off: nat, mlen: nat)
    requires Written(b, op, ss, v, n, pos) && pos <= p
    requires IsMatch(v, p, off, mlen) && MINMATCH <= mlen
    requires var s := Sequence(v[pos..p], off, mlen);
             Embedded(b, op, EncodeSeq(s)) && op' == op + |EncodeSeq(s)|
    ensures Written(b, op', Snoc(ss, Sequence(v[pos..p], off, mlen)), v, n, p + mlen)
  {
    hide Embedded, CopyMatch, EncodeSeq;
    ApplyMatch(v, pos, p, off, mlen);
    var s := Sequence(v[pos..p], off, mlen);
    assert Total(ss) == pos - n;
    EmbeddedJoin(b, 0, EncodeSeqs(n, ss), EncodeSeq(s));
    assert op' <= |b| by {
      EmbeddedFits(b, op, EncodeSeq(s));
    }
  }

  lemma {:induction false} EmbeddedFits(b: seq<byte>, ip: nat, e: seq<byte>)
    requires Embedded(b, ip, e)
    ensures ip + |e| <= |b|
  {
  }

  /** Nothing to say takes one byte. */
  lemma {:induction false} EmptyBlock(b: seq<byte>, op: nat, r: nat, ss: Seqs, v: seq<byte>, n: nat)
    requires Written(b, op, ss, v, n, n)
    requires Embedded(b, op, LitPart([], 0)) && r == op + |LitPart([], 0)| <= |b|
    ensures b[..r] == [0]
  {
    assert Total(ss) == 0;
    assert ss.Start?;
    assert LitPart([], 0) == [0];
    assert b[0 + 0] == [0][0];
  }

  /** The finished block decodes to exactly the part of `v` it covers, and keeps the end-of-block rules. */
  lemma {:induction false} BlockDone(b: seq<byte>, op: nat, r: nat, ss: Seqs, v: seq<byte>, n: nat, pos: nat, q: nat)
    requires Written(b, op, ss, v, n, pos) && pos <= q <= |v|
    requires Embedded(b, op, LitPart(v[pos..q], 0)) && r == op + |LitPart(v[pos..q], 0)| <= |b|
    requires EndRules(ss, q - pos)
    ensures Rest(b[..r], 0, v[..n]) == Decoded(v[..q])
    ensures WellFormed(b[..r], q - n)
    ensures q == n ==> b[..r] == [0]
  {
    hide CopyMatch, Rest, Conforming, EndRules, LitPart;
    if q == n {
      EmptyBlock(b, op, r, ss, v, n);
    }
    var src, last := b[..r], v[pos..q];
    var e := EncodeSeqs(n, ss);
    EmbeddedPrefix(b, r, 0, e);
    EmbeddedPrefix(b, r, op, LitPart(last, 0));
    DecodeEncoded(src, v[..n], ss);
    LastDecodes(src, op, v[..pos], last);
    assert v[..pos] + last == v[..q];
    assert Total(ss) == pos - n;
    EncodedConforms(src, n, ss, q - pos);
  }

  lemma {:induction false} EmbeddedPrefix(b: seq<byte>, r: nat, ip: nat, e: seq<byte>)
    requires Embedded(b, ip, e) && ip + |e| <= r <= |b|
    ensures Embedded(b[..r], ip, e)
  {
  }

  // ---------------------------------------------------------------- offset and match length

  /** A token with its literals in place; its lower half is still zero. */
  ghost predicate LiteralsWritten(b: seq<byte>, token: nat, lits: seq<byte>)
  {
    && token < |b| && b[token] == 16 * Nibble(|lits|)
    && Embedded(b, token + 1, LenExt(|lits|))
    && Embedded(b, token + 1 + ExtSize(|lits|), lits)
  }

  /** Token, length and literals, copied in steps of eight bytes: the copy may overshoot by eight. */
  method WriteLiterals(dst: array<byte>, token: nat, mem: seq<byte>, anchor: nat, n: nat) returns (op: nat)
    requires token + LitSize(n) + (if n == 0 then 8 else 7) <= dst.Length
    requires anchor + n + 8 <= |mem|
    modifies dst
    ensures op == token + LitSize(n)
    ensures LiteralsWritten(dst[..], token, mem[anchor..anchor + n])
    ensures Framed(old(dst[..]), dst[..], token, dst.Length)
  {
    op := WriteLiteralLength(dst, token, n);
    ghost var mid := dst[..];
    LenExtSize(n);
    WildEndBound(op, op + n, 8);
    WildCopy8From(dst, op, mem, anchor, op + n);
    EmbeddedFramed(mid, dst[..], token + 1, LenExt(n), op, WildEnd(op, op + n, 8));
    op := op + n;
  }

  /** Bytes of an offset and of what extends a match length. */
  ghost predicate MatchWritten(b: seq<byte>, op: nat, off: nat, code: nat)
  {
    && op + 2 <= |b| && off <= DISTANCE_MAX && b[op] == off % 256 && b[op + 1] == off / 256
    && Embedded(b, op + 2, LenExt(code))
  }

  lemma {:induction false} SequenceWritten(a: seq<byte>, b: seq<byte>, token: nat, lits: seq<byte>, off: nat, code: nat)
    requires LiteralsWritten(a, token, lits) && |a| == |b|
    requires b[token] == a[token] + Nibble(code)
    requires forall k :: token < k < token + LitSize(|lits|) ==> 0 <= k < |a| && b[k] == a[k]
    requires MatchWritten(b, token + LitSize(|lits|), off, code)
    ensures var s := Sequence(lits, off, code + MINMATCH);
            Embedded(b, token, EncodeSeq(s)) && |EncodeSeq(s)| == SeqSize(s)
  {
    hide Embedded, LenExt, ExtSize, LitPart, MatchPart, MatchWritten;
    var s := Sequence(lits, off, code + MINMATCH);
    MatchPartEmbedded(b, token + LitSize(|lits|), off, code);
    LenExtSize(|lits|);
    EncodedSize(s);
    EmbeddedKept(a, b, token + 1, LenExt(|lits|));
    EmbeddedKept(a, b, token + 1 + ExtSize(|lits|), lits);
    LitPartEmbedded(b, token, lits, Nibble(code));
    EmbeddedJoin(b, token, LitPart(lits, Nibble(code)), MatchPart(off, code));
  }

  lemma {:induction false} EmbeddedKept(a: seq<byte>, b: seq<byte>, ip: nat, e: seq<byte>)
    requires Embedded(a, ip, e) && |a| == |b| && forall k :: ip <= k < ip + |e| ==> 0 <= k < |a| && b[k] == a[k]
    ensures Embedded(b, ip, e)
  {
  }

  lemma {:induction false} MatchPartEmbedded(b: seq<byte>, op: nat, off: nat, code: nat)
    requires MatchWritten(b, op, off, code)
    ensures off <= DISTANCE_MAX && Embedded(b, op, MatchPart(off, code))
  {
    var field: seq<byte> := [off % 256, off / 256];
    assert Embedded(b, op, field);
    EmbeddedJoin(b, op, field, LenExt(code));
  }

  /** LZ4_writeLE16. */
  method WriteLE16(dst: array<byte>, op: nat, off: nat)
    requires op + 2 <= dst.Length && off <= DISTANCE_MAX
    modifies dst
    ensures dst[op] == off % 256 && dst[op + 1] == off / 256
    ensures Framed(old(dst[..]), dst[..], op, op + 2)
  {
    dst[op] := off % 256;
    dst[op + 1] := off / 256;
  }

  /** `b` is `a` with a match behind the literals at `token`: offset and extension at `op`, code in the token. */
  ghost predicate MatchAdded(a: seq<byte>, b: seq<byte>, token: nat, op: nat, off: nat, code: nat)
  {
    && token < op <= |a| == |b|
    && b[token] == a[token] + Nibble(code)
    && (forall k :: 0 <= k < op && k != token ==> b[k] == a[k])
    && MatchWritten(b, op, off, code)
  }

  lemma {:induction false} AddedSize(a: seq<byte>, b: seq<byte>, token: nat, op: nat, off: nat, code: nat)
    requires MatchAdded(a, b, token, op, off, code)
    ensures |a| == |b|
  {
  }

  /** The two writes of a match, offset first. */
  lemma {:induction false} AddedInTwo(a: seq<byte>, mid: seq<byte>, b: seq<byte>, token: nat, op: nat, off: nat,
      code: nat)
    requires token < op && off <= DISTANCE_MAX && Framed(a, mid, op, op + 2) && |mid| == |b| && op + 2 <= |b|
    requires mid[op] == off % 256 && mid[op + 1] == off / 256
    requires b[token] == mid[token] + Nibble(code) && Embedded(b, op + 2, LenExt(code))
    requires forall i :: 0 <= i < op + 2 && i != token ==> b[i] == mid[i]
    ensures MatchAdded(a, b, token, op, off, code)
  {
  }

  /** One more sequence, as the encoders write it. */
  lemma {:induction false} SequenceAdded(a: seq<byte>, b: seq<byte>, token: nat, op: nat, ss: Seqs, v: seq<byte>,
      n: nat, pos: nat, p: nat, off: nat, code: nat)
    requires Written(a, token, ss, v, n, pos) && pos <= p <= |v|
    requires LiteralsWritten(a, token, v[pos..p]) && op == token + LitSize(p - pos)
    requires MatchAdded(a, b, token, op, off, code) && IsMatch(v, p, off, code + MINMATCH)
    ensures var s := Sequence(v[pos..p], off, code + MINMATCH);
            Written(b, op + 2 + ExtSize(code), Snoc(ss, s), v, n, p + code + MINMATCH)
  {
    hide IsMatch, EncodeSeq, MatchWritten, Expand, AllValid;
    var lits := v[pos..p];
    assert forall k :: token < k < token + LitSize(|lits|) ==> 0 <= k < |a| && b[k] == a[k];
    SequenceWritten(a, b, token, lits, off, code);
    EmbeddedFramed(a, b, 0, EncodeSeqs(n, ss), token, |a|);
    WrittenSnoc(b, token, op + 2 + ExtSize(code), ss, v, n, pos, p, off, code + MINMATCH);
  }

  // ---------------------------------------------------------------- how much room is needed

  /** The output never gets ahead of the input by more than 1/255 of it. */
  predicate Lean(op: nat, consumed: nat)
  {
    op <= consumed + consumed / 255
  }

  lemma {:induction false} LeanStep(op: nat, consumed: nat, ll: nat, mlen: nat)
    requires Lean(op, consumed) && MINMATCH <= mlen
    ensures Lean(op + LitSize(ll) + 2 + ExtSize(mlen - MINMATCH), consumed + ll + mlen)
  {
    var code := mlen - MINMATCH;
    assert ExtSize(ll) <= ll / 255 + 1;
    assert ExtSize(code) <= code;
    assert consumed / 255 + ll / 255 <= (consumed + ll + mlen) / 255;
  }

  lemma {:induction false} LeanLast(op: nat, consumed: nat, ll: nat)
    requires Lean(op, consumed) && consumed + ll <= MAX_INPUT_SIZE
    ensures op + LitSize(ll) + 14 <= CompressBound(consumed + ll)
  {
    assert ExtSize(ll) <= ll / 255 + 1;
    assert consumed / 255 + ll / 255 <= (consumed + ll) / 255;
  }

  // ---------------------------------------------------------------- filling the output

  /** The literals that still fit behind `op`. */
  function FittingRun(olimit: nat, op: nat, n: nat): int
  {
    if op + n + 1 + (n + 240) / 255 > olimit then (olimit - op - 1) - (olimit - op - 1 + 240) / 255 else n
  }

  lemma {:induction false} FittingRunFits(olimit: nat, op: nat, n: nat)
    requires op < olimit
    ensures var m := FittingRun(olimit, op, n);
            && 0 <= m <= n && op + LitSize(m) <= olimit
            && (m < n ==> Min(olimit - op - 1, 14) <= m)
  {
    var m := FittingRun(olimit, op, n);
    assert ExtSize(m) == (m + 240) / 255;
  }

  // ---------------------------------------------------------------- what is written, and its size

  /** The bytes of sequences, whatever they are. */
  function BytesOf(ss: Seqs): seq<byte>
  {
    match ss
    case Start => []
    case Snoc(i, s) => BytesOf(i) + (if s.offset <= DISTANCE_MAX && MINMATCH <= s.mlen then EncodeSeq(s) else [])
  }

  lemma {:induction false} BytesAreEncoded(n: nat, ss: Seqs)
    requires AllValid(n, ss)
    ensures BytesOf(ss) == EncodeSeqs(n, ss)
  {
    hide EncodeSeq;
    match ss
    case Start =>
    case Snoc(i, s) => BytesAreEncoded(n, i);
  }

  function SizeOf(ss: Seqs): nat
  {
    match ss
    case Start => 0
    case Snoc(i, s) => SizeOf(i) + (if MINMATCH <= s.mlen then SeqSize(s) else 0)
  }

  lemma {:induction false} EncodedSizeOf(n: nat, ss: Seqs)
    requires AllValid(n, ss)
    ensures |EncodeSeqs(n, ss)| == SizeOf(ss)
  {
    hide EncodeSeq;
    match ss
    case Start =>
    case Snoc(i, s) =>
      EncodedSizeOf(n, i);
      EncodedSize(s);
  }

  lemma {:induction false} LitSizeIs(n: nat)
    ensures LitSize(n) == 1 + (n + 240) / 255 + n && n / 255 <= (n + 240) / 255
  {
    LenExtSize(n);
  }

  /** One literal, a match, five literals. */
  lemma {:induction false} OneMatchSize(s: Sequence)
    requires |s.lits| == 1 && MINMATCH <= s.mlen
    ensures SizeOf(Snoc(Start, s)) + LitSize(LASTLITERALS) == 10 + (s.mlen - MINMATCH + 240) / 255
  {
    LenExtSize(s.mlen - MINMATCH);
    LitSizeIs(1);
    LitSizeIs(LASTLITERALS);
    assert SizeOf(Snoc(Start, s)) == SizeOf(Start) + SeqSize(s);
  }

  predicate Extends(a: Seqs, b: Seqs)
  {
    a == b || (b.Snoc? && Extends(a, b.init))
  }

  lemma {:induction false} ExtendsFrom(a: Seqs, s: Sequence, b: Seqs)
    requires Extends(Snoc(a, s), b)
    ensures Extends(a, b)
    decreases b
  {
    if Snoc(a, s) == b {
      assert Extends(a, b.init);
    } else {
      ExtendsFrom(a, s, b.init);
    }
  }

  lemma {:induction false} SizeExtends(a: Seqs, b: Seqs)
    requires Extends(a, b)
    ensures SizeOf(a) <= SizeOf(b)
    decreases b
  {
    hide SeqSize;
    if a != b {
      SizeExtends(a, b.init);
    }
  }

  /** A whole block: sequences, and last literals. */
  function Finished(mem: seq<byte>, ss: Seqs, anchor: nat, run: nat): seq<byte>
    requires anchor + run <= |mem|
  {
    BytesOf(ss) + LitPart(mem[anchor..anchor + run], 0)
  }

  lemma {:induction false} EmbeddedIsPrefix(b: seq<byte>, e: seq<byte>)
    requires Embedded(b, 0, e) && |e| <= |b|
    ensures b[..|e|] == e
  {
    assert forall i :: 0 <= i < |e| ==> b[0 + i] == e[i];
  }

  /** What is written of sequences, up to where the output ends; `open` as long as that is all. */
  datatype Filling = Filling(ss: Seqs, op: nat, anchor: nat, open: bool)

  /**
    The literals that fill `room` bytes are reckoned with a length field that would do for `room` literals, so
    some bytes may stay free: none as long as the quotient is not above the rest. One more literal would fit if and
    only if it is above the rest by two or more.
  */
  lemma {:induction false} FillingRun(room: nat, n: nat)
    requires n + (n + 240) / 255 > room
    ensures var run, e, x := FittingRun(room + 1, 0, n), (room + 240) / 255, (room + 240) % 255;
            && 0 <= run < n && LitSize(run) == room + 1 + (x - e) / 255 <= room + 1
            && (LitSize(run + 1) <= room + 1 <==> x + 1 < e)
  {
    var e, x := (room + 240) / 255, (room + 240) % 255;
    FittingRunFits(room + 1, 0, n);
    var run := FittingRun(room + 1, 0, n);
    LitSizeIs(run);
    LitSizeIs(run + 1);
    assert room + 240 == 255 * e + x;
    assert run + 240 == 255 * e + (x - e);
    FloorOfSum(e, x - e);
    FloorOfSum(e, x - e + 1);
  }

  /** The same behind `op` bytes. */
  lemma {:induction false} FillingBehind(olimit: nat, op: nat, rest: nat, run: nat)
    requires run == FittingRun(olimit, op, rest) && run < rest && op + LitSize(run) <= olimit
    ensures var room := olimit - op - 1;
            var e, x := (room + 240) / 255, (room + 240) % 255;
            && 0 <= room && op + LitSize(run) == olimit + (x - e) / 255
            && (op + LitSize(run + 1) <= olimit <==> x + 1 < e)
  {
    hide LitSize;
    LitSizeIs(run);
    FillingRun(olimit - op - 1, rest);
  }

  lemma {:induction false} FloorOfSum(e: int, y: int)
    ensures (255 * e + y) / 255 == e + y / 255
  {
  }

  /** 271 bytes to be filled with literals: one byte stays free although one more literal would fit. */
  lemma {:induction false} RoomLeft()
    ensures forall n :: 270 <= n ==> FittingRun(271, 0, n) == 268
    ensures LitSize(268) == 270 && LitSize(269) == 271
  {
    LitSizeIs(268);
    LitSizeIs(269);
  }
}
