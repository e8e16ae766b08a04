/**
  The LZ4 block format: sequences, what they expand to, how they are laid out in bytes, and
  a reference decoder that copies one byte at a time.
*/
module Lz4Format {
  import opened Lz4Defs

  datatype Sequence = Sequence(lits: seq<byte>, offset: nat, mlen: nat)

  // ---------------------------------------------------------------- meaning of a match

  /** Copies `len` bytes one at a time from `off` bytes back; source and target may overlap. */
  function CopyMatch(h: seq<byte>, off: nat, len: nat): (r: seq<byte>)
    requires 1 <= off <= |h|
    ensures |r| == |h| + len
    ensures h <= r
    decreases len
  {
    if len == 0 then h else CopyMatch(h + [h[|h| - off]], off, len - 1)
  }

  lemma {:induction false} CopyMatchPeriodic(h: seq<byte>, off: nat, len: nat)
    requires 1 <= off <= |h|
    ensures forall k :: |h| <= k < |h| + len ==> CopyMatch(h, off, len)[k] == CopyMatch(h, off, len)[k - off]
    decreases len
  {
    if len > 0 {
      var h' := h + [h[|h| - off]];
      CopyMatchPeriodic(h', off, len - 1);
      var r := CopyMatch(h, off, len);
      assert h' <= r;
      assert r[|h|] == h'[|h|] && r[|h| - off] == h'[|h| - off];
    }
  }

  /** Any extension of `h` with period `off` is what the byte-at-a-time copy produces. */
  lemma {:induction false} CopyMatchUnique(h: seq<byte>, r: seq<byte>, off: nat)
    requires 1 <= off <= |h| <= |r|
    requires h <= r
    requires forall k :: |h| <= k < |r| ==> r[k] == r[k - off]
    ensures r == CopyMatch(h, off, |r| - |h|)
    decreases |r| - |h|
  {
    if |h| < |r| {
      var h' := h + [h[|h| - off]];
      assert h' <= r by {
        assert r[|h|] == r[|h| - off] == h[|h| - off];
      }
      CopyMatchUnique(h', r, off);
    } else {
      assert r == h;
    }
  }

  lemma {:induction false} CopyMatchSplit(h: seq<byte>, off: nat, k: nat, len: nat)
    requires 1 <= off <= |h|
    requires k <= len
    ensures CopyMatch(CopyMatch(h, off, k), off, len - k) == CopyMatch(h, off, len)
    ensures CopyMatch(h, off, k) <= CopyMatch(h, off, len)
    decreases k
  {
    if k > 0 {
      CopyMatchSplit(h + [h[|h| - off]], off, k - 1, len - 1);
    }
  }

  /** Bytes in front of the window a copy can reach do not influence it. */
  lemma {:induction false} CopyMatchPrepend(p: seq<byte>, h: seq<byte>, off: nat, len: nat)
    requires 1 <= off <= |h|
    ensures CopyMatch(p + h, off, len) == p + CopyMatch(h, off, len)
    decreases len
  {
    if len > 0 {
      var c := [h[|h| - off]];
      assert (p + h)[|p + h| - off] == h[|h| - off];
      assert (p + h) + c == p + (h + c);
      CopyMatchPrepend(p, h + c, off, len - 1);
    }
  }

  predicate ValidAfter(n: nat, s: Sequence)
  {
    && 1 <= s.offset <= DISTANCE_MAX
    && s.offset <= n + |s.lits|
    && MINMATCH <= s.mlen
  }

  function Apply(h: seq<byte>, s: Sequence): (r: seq<byte>)
    requires ValidAfter(|h|, s)
    ensures |r| == |h| + |s.lits| + s.mlen
    ensures h <= r
  {
    CopyMatch(h + s.lits, s.offset, s.mlen)
  }

  function SeqLen(s: Sequence): nat
  {
    |s.lits| + s.mlen
  }

  /** The sequences of a block so far, the latest outermost. */
  datatype Seqs = Start | Snoc(init: Seqs, s: Sequence)

  function Total(ss: Seqs): nat
  {
    match ss
    case Start => 0
    case Snoc(i, s) => Total(i) + SeqLen(s)
  }

  /** Every offset stays inside a history of `n` bytes plus what was decoded before. */
  predicate AllValid(n: nat, ss: Seqs)
  {
    match ss
    case Start => true
    case Snoc(i, s) => AllValid(n, i) && ValidAfter(n + Total(i), s)
  }

  /** What a run of sequences turns the history `h` into. */
  function Expand(h: seq<byte>, ss: Seqs): (r: seq<byte>)
    requires AllValid(|h|, ss)
    ensures h <= r && |r| == |h| + Total(ss)
  {
    match ss
    case Start => h
    case Snoc(i, s) => Apply(Expand(h, i), s)
  }

  // ---------------------------------------------------------------- bytes of a sequence

  function ExtBytes(n: nat): (r: seq<byte>)
    ensures |r| == n / 255 + 1
  {
    if n < 255 then [n] else [255] + ExtBytes(n - 255)
  }

  function LenExt(len: nat): seq<byte>
  {
    if len < 15 then [] else ExtBytes(len - 15)
  }

  /** Number of bytes that follow the token nibble of a length field. */
  function ExtSize(len: nat): nat
  {
    if len < 15 then 0 else (len - 15) / 255 + 1
  }

  lemma {:induction false} LenExtSize(len: nat)
    ensures |LenExt(len)| == ExtSize(len) == (len + 240) / 255
  {
  }

  function Nibble(len: nat): nat
  {
    if len < 15 then len else 15
  }

  function LitPart(lits: seq<byte>, low: nat): seq<byte>
    requires low <= 15
  {
    [16 * Nibble(|lits|) + low] + LenExt(|lits|) + lits
  }

  function MatchPart(offset: nat, code: nat): seq<byte>
    requires offset <= DISTANCE_MAX
  {
    [offset % 256, offset / 256] + LenExt(code)
  }

  function EncodeSeq(s: Sequence): seq<byte>
    requires s.offset <= DISTANCE_MAX && MINMATCH <= s.mlen
  {
    LitPart(s.lits, Nibble(s.mlen - MINMATCH)) + MatchPart(s.offset, s.mlen - MINMATCH)
  }

  function EncodeSeqs(n: nat, ss: Seqs): seq<byte>
    requires AllValid(n, ss)
  {
    match ss
    case Start => []
    case Snoc(i, s) => EncodeSeqs(n, i) + EncodeSeq(s)
  }

  function EncodeBlock(n: nat, ss: Seqs, last: seq<byte>): seq<byte>
    requires AllValid(n, ss)
  {
    EncodeSeqs(n, ss) + LitPart(last, 0)
  }

  // ---------------------------------------------------------------- reference decoder

  /** Reads a run of 255s and its terminator: the sum of the bytes and the position after them. */
  function ReadExt(src: seq<byte>, ip: nat): (r: Option<(nat, nat)>)
    ensures r.Some? ==> ip < r.value.1 <= |src| && r.value.0 <= 255 * (r.value.1 - ip)
    decreases |src| - ip
  {
    if ip >= |src| then None
    else if src[ip] < 255 then Some((src[ip], ip + 1))
    else match ReadExt(src, ip + 1)
      case None => None
      case Some(p) => Some((255 + p.0, p.1))
  }

  /** A length field: its 4-bit part and, when that is 15, the bytes that extend it. */
  function ReadLength(src: seq<byte>, ip: nat, nib: nat): (r: Option<(nat, nat)>)
    requires ip <= |src|
    ensures r.Some? ==> ip <= r.value.1 <= |src| && nib <= r.value.0
  {
    if nib != 15 then Some((nib, ip))
    else match ReadExt(src, ip)
      case None => None
      case Some(p) => Some((15 + p.0, p.1))
  }

  datatype RefResult = Decoded(out: seq<byte>) | Malformed | ZeroOffset

  function ReadOffset(src: seq<byte>, ip: nat): (r: nat)
    requires ip + 2 <= |src|
    ensures r <= DISTANCE_MAX
  {
    (src[ip] as int) + 256 * (src[ip + 1] as int)
  }

  /**
    The reference decoder: decodes the rest of `src` from the token at `ip`, where `h` is everything
    decoded so far (a dictionary included). The three functions after it resume inside a sequence.
  */
  function Rest(src: seq<byte>, ip: nat, h: seq<byte>): RefResult
    requires ip <= |src|
    decreases |src| - ip, 0
  {
    if ip == |src| then Malformed
    else match ReadLength(src, ip + 1, src[ip] / 16)
      case None => Malformed
      case Some(p) => RestLits(src, p.1, src[ip] % 16, p.0, h)
  }

  /** ... at `llen` literals, after a token whose lower half is `nib`. */
  function RestLits(src: seq<byte>, ip: nat, nib: nat, llen: nat, h: seq<byte>): RefResult
    requires ip <= |src|
    decreases |src| - ip, 3
  {
    if ip + llen == |src| then Decoded(h + src[ip..])
    else if ip + llen + 2 > |src| then Malformed
    else RestMatchLen(src, ip + llen + 2, nib, ReadOffset(src, ip + llen), h + src[ip..ip + llen])
  }

  /** ... at the bytes that extend the match length. */
  function RestMatchLen(src: seq<byte>, ip: nat, nib: nat, off: nat, h: seq<byte>): RefResult
    requires ip <= |src|
    decreases |src| - ip, 2
  {
    match ReadLength(src, ip, nib)
    case None => Malformed
    case Some(p) => RestMatch(src, p.1, off, p.0 + MINMATCH, h)
  }

  /** ... at the copy of a match. */
  function RestMatch(src: seq<byte>, ip: nat, off: nat, mlen: nat, h: seq<byte>): RefResult
    requires ip <= |src|
    decreases |src| - ip, 1
  {
    if off == 0 then ZeroOffset
    else if off > |h| then Malformed
    else Rest(src, ip, CopyMatch(h, off, mlen))
  }

  /**
    The end-of-block rules (section "Parsing restrictions" of the LZ4 Block Format Description):
    every match starts at least MFLIMIT bytes and ends at least LASTLITERALS bytes before the end.
    `left` bytes of the block are still to be decoded.
  */
  predicate Conforming(src: seq<byte>, ip: nat, left: int)
    requires ip <= |src|
    decreases |src| - ip, 0
  {
    && ip < |src|
    && (match ReadLength(src, ip + 1, src[ip] / 16)
        case None => false
        case Some(p) => ConformingLits(src, p.1, src[ip] % 16, p.0, left))
  }

  predicate ConformingLits(src: seq<byte>, ip: nat, nib: nat, llen: nat, left: int)
    requires ip <= |src|
    decreases |src| - ip, 3
  {
    if ip + llen == |src| then llen == left
    else
      && ip + llen + 2 <= |src|
      && llen + MFLIMIT <= left
      && ConformingMatchLen(src, ip + llen + 2, nib, left - llen)
  }

  predicate ConformingMatchLen(src: seq<byte>, ip: nat, nib: nat, left: int)
    requires ip <= |src|
    decreases |src| - ip, 2
  {
    match ReadLength(src, ip, nib)
    case None => false
    case Some(p) => ConformingMatch(src, p.1, p.0 + MINMATCH, left)
  }

  predicate ConformingMatch(src: seq<byte>, ip: nat, mlen: nat, left: int)
    requires ip <= |src|
    decreases |src| - ip, 1
  {
    mlen + LASTLITERALS <= left && Conforming(src, ip, left - mlen)
  }

  ghost predicate WellFormed(src: seq<byte>, total: nat)
  {
    Conforming(src, 0, total)
  }

  /** A token whose sequence parses fully: literals at `lp`, offset after them, next token at `q`. */
  ghost predicate ParsesAt(src: seq<byte>, ip: nat, lp: nat, llen: nat, off: nat, mlen: nat, q: nat)
  {
    && ip < |src|
    && ReadLength(src, ip + 1, src[ip] / 16) == Some((llen, lp))
    && lp + llen + 2 <= |src|
    && off == ReadOffset(src, lp + llen)
    && MINMATCH <= mlen
    && ReadLength(src, lp + llen + 2, src[ip] % 16) == Some((mlen - MINMATCH, q))
  }

  /** The rest of a block is either its last literals or one full sequence and a shorter rest. */
  lemma {:induction false} RestCases(src: seq<byte>, ip: nat, h: seq<byte>)
      returns (last: bool, lp: nat, llen: nat, off: nat, mlen: nat, q: nat)
    requires ip <= |src| && Rest(src, ip, h).Decoded?
    ensures last ==>
              && ip < |src| && ReadLength(src, ip + 1, src[ip] / 16) == Some((llen, lp))
              && lp + llen == |src|
    ensures !last ==>
              && ParsesAt(src, ip, lp, llen, off, mlen, q) && ip < q <= |src|
              && 1 <= off <= DISTANCE_MAX && off <= |h| + llen
              && Rest(src, ip, h) == Rest(src, q, CopyMatch(h + src[lp..lp + llen], off, mlen))
  {
    hide CopyMatch;
    var nib := src[ip] % 16;
    var l := ReadLength(src, ip + 1, src[ip] / 16).value;
    llen, lp := l.0, l.1;
    last := lp + llen == |src|;
    off, mlen, q := 0, 0, 0;
    assert Rest(src, ip, h) == RestLits(src, lp, nib, llen, h);
    if last {
      assert ReadLength(src, ip + 1, src[ip] / 16) == Some((llen, lp));
    } else {
      off := ReadOffset(src, lp + llen);
      assert RestLits(src, lp, nib, llen, h) == RestMatchLen(src, lp + llen + 2, nib, off, h + src[lp..lp + llen]);
      var m := ReadLength(src, lp + llen + 2, src[ip] % 16).value;
      mlen, q := m.0 + MINMATCH, m.1;
      assert RestMatchLen(src, lp + llen + 2, nib, off, h + src[lp..lp + llen])
          == RestMatch(src, q, off, mlen, h + src[lp..lp + llen]);
    }
  }

  lemma {:induction false} RestLast(src: seq<byte>, ip: nat, h: seq<byte>, lp: nat, llen: nat)
    requires ip < |src| && ReadLength(src, ip + 1, src[ip] / 16) == Some((llen, lp)) && lp + llen == |src|
    ensures Rest(src, ip, h) == Decoded(h + src[lp..])
  {
  }

  lemma {:induction false} RestSequence(src: seq<byte>, ip: nat, h: seq<byte>, lp: nat, llen: nat, off: nat, mlen: nat,
      q: nat)
    requires ParsesAt(src, ip, lp, llen, off, mlen, q)
    requires 1 <= off <= |h| + llen
    ensures Rest(src, ip, h) == Rest(src, q, CopyMatch(h + src[lp..lp + llen], off, mlen))
  {
    hide CopyMatch, ReadLength, ReadOffset;
    var h1 := h + src[lp..lp + llen];
    assert RestMatch(src, q, off, mlen, h1) == Rest(src, q, CopyMatch(h1, off, mlen));
    assert RestLits(src, lp, src[ip] % 16, llen, h) == RestMatchLen(src, lp + llen + 2, src[ip] % 16, off, h1);
    assert RestMatchLen(src, lp + llen + 2, src[ip] % 16, off, h1) == RestMatch(src, q, off, mlen, h1);
  }

  /** Decoding only ever appends. */
  lemma {:induction false} RestExtends(src: seq<byte>, ip: nat, h: seq<byte>)
    requires ip <= |src| && Rest(src, ip, h).Decoded?
    ensures h <= Rest(src, ip, h).out
    decreases |src| - ip
  {
    var last, lp, llen, off, mlen, q := RestCases(src, ip, h);
    if last {
      RestLast(src, ip, h, lp, llen);
    } else {
      RestExtends(src, q, CopyMatch(h + src[lp..lp + llen], off, mlen));
    }
  }

  /** A longer history in front changes nothing for a block that already decodes. */
  lemma {:induction false} RestPrepend(src: seq<byte>, ip: nat, p: seq<byte>, h: seq<byte>)
    requires ip <= |src| && Rest(src, ip, h).Decoded?
    ensures Rest(src, ip, p + h) == Decoded(p + Rest(src, ip, h).out)
    decreases |src| - ip
  {
    hide CopyMatch, Rest, ReadLength, ReadOffset;
    var last, lp, llen, off, mlen, q := RestCases(src, ip, h);
    if last {
      RestLast(src, ip, h, lp, llen);
      RestLast(src, ip, p + h, lp, llen);
      assert (p + h) + src[lp..] == p + (h + src[lp..]);
    } else {
      var c := src[lp..lp + llen];
      assert (p + h) + c == p + (h + c);
      CopyMatchPrepend(p, h + c, off, mlen);
      RestSequence(src, ip, p + h, lp, llen, off, mlen, q);
      RestPrepend(src, q, p, CopyMatch(h + c, off, mlen));
    }
  }

  /** Conversely, offsets being at most DISTANCE_MAX, that much history is all a block can see. */
  lemma {:induction false} RestTrim(src: seq<byte>, ip: nat, p: seq<byte>, h: seq<byte>)
    requires ip <= |src| && |h| >= DISTANCE_MAX
    requires Rest(src, ip, p + h).Decoded?
    ensures Rest(src, ip, h).Decoded?
    ensures Rest(src, ip, p + h) == Decoded(p + Rest(src, ip, h).out)
    decreases |src| - ip
  {
    hide CopyMatch, Rest, ReadLength, ReadOffset;
    var last, lp, llen, off, mlen, q := RestCases(src, ip, p + h);
    if last {
      RestLast(src, ip, h, lp, llen);
    } else {
      var c := src[lp..lp + llen];
      assert (p + h) + c == p + (h + c);
      CopyMatchPrepend(p, h + c, off, mlen);
      RestSequence(src, ip, h, lp, llen, off, mlen, q);
      RestTrim(src, q, p, CopyMatch(h + c, off, mlen));
    }
    RestPrepend(src, ip, p, h);
  }

  /** While literals are still owed, at least a token and LASTLITERALS bytes of input remain. */
  lemma {:induction false} ConformingInputLeft(src: seq<byte>, ip: nat, left: int)
    requires ip <= |src| && Conforming(src, ip, left)
    requires LASTLITERALS <= left
    ensures ip + 1 + LASTLITERALS <= |src|
    decreases |src| - ip
  {
    var nib := src[ip] % 16;
    var l := ReadLength(src, ip + 1, src[ip] / 16).value;
    assert ConformingLits(src, l.1, nib, l.0, left);
    if l.1 + l.0 != |src| {
      assert ConformingMatchLen(src, l.1 + l.0 + 2, nib, left - l.0);
      var m := ReadLength(src, l.1 + l.0 + 2, nib).value;
      assert ConformingMatch(src, m.1, m.0 + MINMATCH, left - l.0);
      ConformingInputLeft(src, m.1, left - l.0 - (m.0 + MINMATCH));
    }
  }

  // ---------------------------------------------------------------- round trip

  /** The bytes `e` stand in `src` at position `ip`. */
  predicate Embedded(src: seq<byte>, ip: nat, e: seq<byte>)
  {
    ip + |e| <= |src| && forall k :: 0 <= k < |e| ==> src[ip + k] == e[k]
  }

  lemma {:induction false} EmbeddedParts(src: seq<byte>, ip: nat, a: seq<byte>, b: seq<byte>)
    requires Embedded(src, ip, a + b)
    ensures Embedded(src, ip, a) && Embedded(src, ip + |a|, b)
  {
    forall k | 0 <= k < |a|
      ensures src[ip + k] == a[k]
    {
      assert (a + b)[k] == a[k];
    }
    forall k | 0 <= k < |b|
      ensures src[ip + |a| + k] == b[k]
    {
      assert src[ip + (|a| + k)] == (a + b)[|a| + k] == b[k];
    }
  }

  lemma {:induction false} EmbeddedSlice(src: seq<byte>, ip: nat, e: seq<byte>)
    requires Embedded(src, ip, e)
    ensures src[ip..ip + |e|] == e
  {
  }

  lemma {:induction false} ReadExtInverts(src: seq<byte>, ip: nat, n: nat)
    requires Embedded(src, ip, ExtBytes(n))
    ensures ReadExt(src, ip) == Some((n, ip + |ExtBytes(n)|))
    decreases n
  {
    assert src[ip + 0] == ExtBytes(n)[0];
    if n >= 255 {
      EmbeddedParts(src, ip, [255], ExtBytes(n - 255));
      ReadExtInverts(src, ip + 1, n - 255);
    }
  }

  lemma {:induction false} ReadLengthInverts(src: seq<byte>, ip: nat, len: nat)
    requires Embedded(src, ip, LenExt(len))
    ensures ReadLength(src, ip, Nibble(len)) == Some((len, ip + ExtSize(len)))
  {
    if len >= 15 {
      ReadExtInverts(src, ip, len - 15);
    }
  }

  function LitSize(n: nat): nat
  {
    1 + ExtSize(n) + n
  }

  lemma {:induction false} EmbeddedFirst(src: seq<byte>, ip: nat, e: seq<byte>)
    requires Embedded(src, ip, e) && e != []
    ensures ip < |src| && src[ip] == e[0]
  {
    assert src[ip + 0] == e[0];
  }

  lemma {:induction false} TokenHalves(n: nat, low: nat)
    requires low <= 15
    ensures (16 * Nibble(n) + low) % 16 == low && (16 * Nibble(n) + low) / 16 == Nibble(n)
  {
  }

  /** The token and literals of a sequence, read back. */
  lemma {:induction false} LitPartInverts(src: seq<byte>, ip: nat, lits: seq<byte>, low: nat)
    requires low <= 15 && Embedded(src, ip, LitPart(lits, low))
    ensures |LitPart(lits, low)| == LitSize(|lits|)
    ensures src[ip] % 16 == low
    ensures ReadLength(src, ip + 1, src[ip] / 16) == Some((|lits|, ip + 1 + ExtSize(|lits|)))
    ensures Embedded(src, ip + 1 + ExtSize(|lits|), lits)
  {
    hide Embedded, LenExt, ExtSize, ReadLength;
    LenExtSize(|lits|);
    TokenHalves(|lits|, low);
    var token: seq<byte> := [16 * Nibble(|lits|) + low];
    EmbeddedParts(src, ip, token + LenExt(|lits|), lits);
    EmbeddedParts(src, ip, token, LenExt(|lits|));
    EmbeddedFirst(src, ip, token);
    ReadLengthInverts(src, ip + 1, |lits|);
  }

  function SeqSize(s: Sequence): nat
    requires MINMATCH <= s.mlen
  {
    LitSize(|s.lits|) + 2 + ExtSize(s.mlen - MINMATCH)
  }

  /** The offset and match length of a sequence, read back. */
  lemma {:induction false} MatchPartInverts(src: seq<byte>, ip: nat, offset: nat, code: nat)
    requires offset <= DISTANCE_MAX && Embedded(src, ip, MatchPart(offset, code))
    ensures ip + 2 <= |src| && ReadOffset(src, ip) == offset
    ensures ReadLength(src, ip + 2, Nibble(code)) == Some((code, ip + 2 + ExtSize(code)))
  {
    var field: seq<byte> := [offset % 256, offset / 256];
    EmbeddedParts(src, ip, field, LenExt(code));
    assert src[ip + 0] == field[0] && src[ip + 1] == field[1];
    ReadLengthInverts(src, ip + 2, code);
  }

  lemma {:induction false} EncodedParses(src: seq<byte>, ip: nat, s: Sequence)
    requires s.offset <= DISTANCE_MAX && MINMATCH <= s.mlen && Embedded(src, ip, EncodeSeq(s))
    ensures var lp := ip + 1 + ExtSize(|s.lits|);
            && ParsesAt(src, ip, lp, |s.lits|, s.offset, s.mlen, ip + SeqSize(s))
            && src[lp..lp + |s.lits|] == s.lits
  {
    hide ReadExt, LenExt, ExtSize, Embedded;
    var low := Nibble(s.mlen - MINMATCH);
    EmbeddedParts(src, ip, LitPart(s.lits, low), MatchPart(s.offset, s.mlen - MINMATCH));
    LitPartInverts(src, ip, s.lits, low);
    MatchPartInverts(src, ip + LitSize(|s.lits|), s.offset, s.mlen - MINMATCH);
    EmbeddedSlice(src, ip + 1 + ExtSize(|s.lits|), s.lits);
  }

  lemma {:induction false} EncodedSize(s: Sequence)
    requires s.offset <= DISTANCE_MAX && MINMATCH <= s.mlen
    ensures |EncodeSeq(s)| == SeqSize(s)
  {
    LenExtSize(|s.lits|);
    LenExtSize(s.mlen - MINMATCH);
  }

  lemma {:induction false} LastDecodes(src: seq<byte>, ip: nat, h: seq<byte>, last: seq<byte>)
    requires Embedded(src, ip, LitPart(last, 0)) && ip + |LitPart(last, 0)| == |src|
    ensures Rest(src, ip, h) == Decoded(h + last)
    ensures Conforming(src, ip, |last|)
  {
    hide Embedded, LitPart, ReadLength, LenExt, ExtSize;
    LitPartInverts(src, ip, last, 0);
    EmbeddedSlice(src, ip + 1 + ExtSize(|last|), last);
    RestLast(src, ip, h, ip + 1 + ExtSize(|last|), |last|);
    assert ConformingLits(src, ip + 1 + ExtSize(|last|), src[ip] % 16, |last|, |last|);
  }

  /** Decoding encoded sequences gives back what they mean. */
  lemma {:induction false} DecodeEncoded(src: seq<byte>, h: seq<byte>, ss: Seqs)
    requires AllValid(|h|, ss) && Embedded(src, 0, EncodeSeqs(|h|, ss))
    ensures Rest(src, 0, h) == Rest(src, |EncodeSeqs(|h|, ss)|, Expand(h, ss))
    decreases ss
  {
    hide Embedded, Rest, CopyMatch;
    match ss
    case Start =>
    case Snoc(i, s) =>
      var ip := |EncodeSeqs(|h|, i)|;
      EmbeddedParts(src, 0, EncodeSeqs(|h|, i), EncodeSeq(s));
      DecodeEncoded(src, h, i);
      OneDecodes(src, ip, Expand(h, i), s);
  }

  lemma {:induction false} OneDecodes(src: seq<byte>, ip: nat, h: seq<byte>, s: Sequence)
    requires ValidAfter(|h|, s) && Embedded(src, ip, EncodeSeq(s))
    ensures Rest(src, ip, h) == Rest(src, ip + |EncodeSeq(s)|, Apply(h, s))
  {
    hide CopyMatch, Rest, Embedded, ParsesAt;
    EncodedSize(s);
    EncodedParses(src, ip, s);
    RestSequence(src, ip, h, ip + 1 + ExtSize(|s.lits|), |s.lits|, s.offset, s.mlen, ip + SeqSize(s));
  }

  /** The end-of-block rules, said about sequences: only the last one can break them. */
  predicate EndRules(ss: Seqs, lastLen: nat)
  {
    ss.Snoc? ==> LASTLITERALS <= lastLen && MFLIMIT <= ss.s.mlen + lastLen
  }

  lemma {:induction false} ConformingSequence(src: seq<byte>, ip: nat, lp: nat, llen: nat, off: nat, mlen: nat, q: nat,
      left: int)
    requires ParsesAt(src, ip, lp, llen, off, mlen, q)
    requires Conforming(src, q, left - llen - mlen)
    requires llen + MFLIMIT <= left && llen + mlen + LASTLITERALS <= left
    ensures Conforming(src, ip, left)
  {
    assert ConformingMatch(src, q, mlen, left - llen);
    assert ConformingMatchLen(src, lp + llen + 2, src[ip] % 16, left - llen);
    assert ConformingLits(src, lp, src[ip] % 16, llen, left);
  }

  lemma {:induction false} OneConforms(src: seq<byte>, ip: nat, s: Sequence, left: int)
    requires s.offset <= DISTANCE_MAX && MINMATCH <= s.mlen && Embedded(src, ip, EncodeSeq(s))
    requires Conforming(src, ip + |EncodeSeq(s)|, left)
    requires LASTLITERALS <= left && MFLIMIT <= s.mlen + left
    ensures Conforming(src, ip, left + SeqLen(s))
  {
    hide Conforming, Embedded, ParsesAt;
    EncodedSize(s);
    EncodedParses(src, ip, s);
    ConformingSequence(src, ip, ip + 1 + ExtSize(|s.lits|), |s.lits|, s.offset, s.mlen, ip + SeqSize(s),
                       left + SeqLen(s));
  }

  lemma {:induction false} EncodedConforms(src: seq<byte>, n: nat, ss: Seqs, left: nat)
    requires AllValid(n, ss) && EndRules(ss, left) && Embedded(src, 0, EncodeSeqs(n, ss))
    requires Conforming(src, |EncodeSeqs(n, ss)|, left)
    ensures Conforming(src, 0, left + Total(ss))
    decreases ss
  {
    hide Embedded, Conforming;
    match ss
    case Start =>
    case Snoc(i, s) =>
      EmbeddedParts(src, 0, EncodeSeqs(n, i), EncodeSeq(s));
      OneConforms(src, |EncodeSeqs(n, i)|, s, left);
      EncodedConforms(src, n, i, left + SeqLen(s));
  }

  /** Round trip of the format itself, for any block and any history. */
  lemma {:induction false} RoundTrip(h: seq<byte>, ss: Seqs, last: seq<byte>)
    requires AllValid(|h|, ss) && EndRules(ss, |last|)
    ensures Rest(EncodeBlock(|h|, ss, last), 0, h) == Decoded(Expand(h, ss) + last)
    ensures WellFormed(EncodeBlock(|h|, ss, last), Total(ss) + |last|)
  {
    hide Embedded, Rest, Conforming, CopyMatch, LitPart;
    var src := EncodeBlock(|h|, ss, last);
    var ip := |EncodeSeqs(|h|, ss)|;
    EmbeddedParts(src, 0, EncodeSeqs(|h|, ss), LitPart(last, 0));
    DecodeEncoded(src, h, ss);
    LastDecodes(src, ip, Expand(h, ss), last);
    EncodedConforms(src, |h|, ss, |last|);
  }
}
