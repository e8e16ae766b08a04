/**
  LZ4_decompress_generic with an input-size end condition: the fast loop, the two-stage shortcut,
  the safe loop and partial decoding, each step proved to do what Lz4Safe says.
*/
module Lz4Decoder {
  import opened Lz4Defs
  import opened Lz4Format
  import opened Lz4Copy
  import opened Lz4Safe

  datatype DictMode = NoDict | WithPrefix64k | UsingExtDict

  /**
    One call: decode `src` into [start, oend) of the output buffer. The bytes from `low` on stand
    directly before `start`; `dict` is the external dictionary in front of them.
  */
  datatype Job = Job(src: seq<byte>, start: nat, oend: nat, low: int, dict: seq<byte>, mode: DictMode, partial: bool)

  /** The instantiations that exist in the library. */
  predicate ValidJob(j: Job, len: nat)
  {
    && j.start <= j.oend <= len
    && |j.src| <= INT_MAX && j.oend - j.start <= INT_MAX
    && (j.mode != UsingExtDict ==> j.dict == [])
    && (if j.mode == WithPrefix64k then j.low == j.start - KB64 && DISTANCE_MAX <= j.start else 0 <= j.low <= j.start)
    && (j.partial ==> j.mode == NoDict)
  }

  function LowIndex(j: Job): nat
  {
    if j.low < 0 then 0 else j.low
  }

  /** Everything a match at `op` can refer to. */
  ghost function View(j: Job, b: seq<byte>, op: nat): seq<byte>
    requires LowIndex(j) <= op <= |b|
  {
    j.dict + b[LowIndex(j)..op]
  }

  // ---------------------------------------------------------------- what a call is compared with

  /** What a call must come to: the output before it, and what decoding the input yields. */
  datatype Goal = Goal(b0: seq<byte>, r0: RefResult)

  datatype Stage =
    | AtToken
    | AtLiterals(nib: nat, llen: nat)
    | AtMatchLen(nib: nat, off: nat)
    | AtMatch(off: nat, mlen: nat)
    | Finished
    | Failed

  /** The decode, resumed at a stage. */
  ghost function Resume(j: Job, ip: nat, op: nat, st: Stage, h: seq<byte>): RefResult
    requires ip <= |j.src| && op <= j.oend && Shaped(j, ip, op, st)
  {
    match st
    case AtToken => Decode(j.src, j.partial, |j.dict|, ip, j.oend - op, h)
    case AtLiterals(nib, llen) => DecodeLits(j.src, j.partial, |j.dict|, ip, nib, llen, j.oend - op, h)
    case AtMatchLen(nib, off) => DecodeMatchLen(j.src, j.partial, |j.dict|, ip, nib, off, j.oend - op, h)
    case AtMatch(off, mlen) => DecodeMatch(j.src, j.partial, |j.dict|, ip, off, mlen, j.oend - op, h)
    case Finished => Decoded(h)
    case Failed => Malformed
  }

  /** What is known of a stage whatever the input is: reads and writes to come stay in bounds. */
  predicate Shaped(j: Job, ip: nat, op: nat, st: Stage)
  {
    match st
    case AtToken => ip < |j.src|
    case AtLiterals(nib, llen) => nib <= 15
    case AtMatchLen(nib, off) =>
      ip < |j.src| && nib <= 15 && off <= DISTANCE_MAX && (j.partial || op + MFLIMIT <= j.oend)
    case AtMatch(off, mlen) =>
      ip < |j.src| && off <= DISTANCE_MAX && MINMATCH <= mlen && (j.partial || op + MFLIMIT <= j.oend)
    case Finished => true
    case Failed => true
  }

  /** Nothing is claimed about what follows an offset of zero. */
  ghost predicate Comes(g: Goal, r: RefResult)
  {
    g.r0 != ZeroOffset ==> r == g.r0
  }

  ghost predicate Bounded(j: Job, g: Goal, b: seq<byte>, ip: nat, op: nat)
  {
    && ip <= |j.src| && LowIndex(j) <= j.start <= op <= j.oend <= |b|
    && Framed(g.b0, b, j.start, j.oend)
  }

  /** The invariant of decoding: within bounds, and what is still to be decoded leads to the goal. */
  ghost predicate Inv(j: Job, g: Goal, b: seq<byte>, ip: nat, op: nat, st: Stage)
  {
    && ValidJob(j, |b|) && Bounded(j, g, b, ip, op) && Shaped(j, ip, op, st)
    && Comes(g, Resume(j, ip, op, st, View(j, b, op)))
  }

  /** The same where `llen` literals with an offset behind them are to be copied. */
  ghost predicate InvOffset(j: Job, g: Goal, b: seq<byte>, ip: nat, op: nat, nib: nat, llen: nat)
  {
    && ValidJob(j, |b|) && Bounded(j, g, b, ip, op) && nib <= 15
    && ip + llen + 2 < |j.src| && op + llen <= j.oend && (j.partial || op + llen + MFLIMIT <= j.oend)
    && Comes(g, DecodeOffset(j.src, j.partial, |j.dict|, ip, nib, llen, j.oend - op, View(j, b, op)))
  }

  // ---------------------------------------------------------------- steps of the invariant

  /** The same in the shortcut. */
  ghost predicate InvShort(j: Job, g: Goal, b: seq<byte>, ip: nat, op: nat, nib: nat, llen: nat)
  {
    && ValidJob(j, |b|) && Bounded(j, g, b, ip, op) && nib <= 15 && llen < 15
    && ip < |j.src| - 16 && op + 32 <= j.oend
    && Comes(g, DecodeShort(j.src, j.partial, |j.dict|, ip, nib, llen, j.oend - op, View(j, b, op)))
  }

  /** A literal length of less than 15: the shortcut applies if there is room in both buffers. */
  lemma {:induction false} TokenStep(j: Job, g: Goal, b: seq<byte>, ip: nat, op: nat)
    requires Inv(j, g, b, ip, op, AtToken) && j.src[ip] / 16 != 15
    ensures if ip + 1 < |j.src| - 16 && op + 32 <= j.oend
            then InvShort(j, g, b, ip + 1, op, j.src[ip] % 16, j.src[ip] / 16)
            else Inv(j, g, b, ip + 1, op, AtLiterals(j.src[ip] % 16, j.src[ip] / 16))
  {
    hide DecodeShort, DecodeLits, View;
    LitFieldNibble(j.src, ip);
  }

  /** Literals far from both ends. */
  lemma {:induction false} LiteralsRoom(j: Job, g: Goal, b: seq<byte>, ip: nat, op: nat, nib: nat, llen: nat)
    requires Inv(j, g, b, ip, op, AtLiterals(nib, llen))
    requires op + llen + MFLIMIT <= j.oend && ip + llen + 2 + 1 + LASTLITERALS <= |j.src|
    ensures InvOffset(j, g, b, ip, op, nib, llen)
  {
    hide DecodeOffset, View;
  }

  lemma {:induction false} ViewLiterals(j: Job, b: seq<byte>, b': seq<byte>, ip: nat, op: nat, n: nat)
    requires LowIndex(j) <= op && op + n <= |b| == |b'| && ip + n <= |j.src|
    requires forall k :: 0 <= k < op ==> b'[k] == b[k]
    requires forall k :: op <= k < op + n ==> b'[k] == j.src[ip + (k - op)]
    ensures View(j, b', op + n) == View(j, b, op) + j.src[ip..ip + n]
  {
    assert b'[LowIndex(j)..op + n] == b[LowIndex(j)..op] + j.src[ip..ip + n];
  }

  /** Literals copied to `op`, overshooting at most to `hi`. */
  ghost predicate LiteralsAt(src: seq<byte>, b: seq<byte>, b': seq<byte>, ip: nat, op: nat, n: nat, hi: int)
  {
    && Framed(b, b', op, hi) && op + n <= hi <= |b| && ip + n <= |src|
    && forall k :: op <= k < op + n ==> b'[k] == src[ip + (k - op)]
  }

  lemma {:induction false} LiteralsDone(j: Job, g: Goal, b: seq<byte>, b': seq<byte>, ip: nat, op: nat, nib: nat,
      llen: nat)
    requires InvOffset(j, g, b, ip, op, nib, llen)
    requires LiteralsAt(j.src, b, b', ip, op, llen, j.oend)
    ensures Inv(j, g, b', ip + llen + 2, op + llen, AtMatchLen(nib, ReadOffset(j.src, ip + llen)))
  {
    hide DecodeMatchLen, View;
    ViewLiterals(j, b, b', ip, op, llen);
  }

  /** The first stage of the shortcut: its match is known to be quick, or is decoded as any other. */
  lemma {:induction false} ShortDone(j: Job, g: Goal, b: seq<byte>, b': seq<byte>, ip: nat, op: nat, nib: nat,
      llen: nat)
    requires InvShort(j, g, b, ip, op, nib, llen)
    requires LiteralsAt(j.src, b, b', ip, op, llen, j.oend)
    ensures var off, h1 := ReadOffset(j.src, ip + llen), View(j, b', op + llen);
            if Quick(nib, off, |j.dict|, |h1|) then InvQuick(j, g, b', ip + llen + 2, op + llen, off, nib + MINMATCH)
            else Inv(j, g, b', ip + llen + 2, op + llen, AtMatchLen(nib, off))
  {
    hide DecodeMatchLen, Decode, View, CopyMatch;
    ViewLiterals(j, b, b', ip, op, llen);
  }

  /** A quick match is to be copied. */
  ghost predicate InvQuick(j: Job, g: Goal, b: seq<byte>, ip: nat, op: nat, off: nat, mlen: nat)
  {
    && ValidJob(j, |b|) && Bounded(j, g, b, ip, op) && ip < |j.src|
    && op + mlen <= op + 18 <= j.oend && 8 <= off && off + |j.dict| <= |View(j, b, op)|
    && Comes(g, Decode(j.src, j.partial, |j.dict|, ip, j.oend - op - mlen, CopyMatch(View(j, b, op), off, mlen)))
  }

  /** Far from the end of the output a quick match is decoded as any other. */
  lemma {:induction false} QuickIsMatch(j: Job, g: Goal, b: seq<byte>, ip: nat, op: nat, nib: nat, off: nat)
    requires Inv(j, g, b, ip, op, AtMatchLen(nib, off)) && op + 18 + LASTLITERALS <= j.oend
    requires Quick(nib, off, |j.dict|, |View(j, b, op)|)
    ensures InvQuick(j, g, b, ip, op, off, nib + MINMATCH)
  {
    hide Decode, View, CopyMatch;
    MatchLenStep(j, g, b, ip, op, nib, off);
    MatchCases(j.src, j.partial, |j.dict|, ip, off, nib + MINMATCH, j.oend - op, View(j, b, op));
  }

  lemma {:induction false} MatchIsQuick(j: Job, g: Goal, b: seq<byte>, ip: nat, op: nat, nib: nat, off: nat)
    requires InvQuick(j, g, b, ip, op, off, nib + MINMATCH) && op + 18 + LASTLITERALS <= j.oend && nib < 15
    requires off <= DISTANCE_MAX
    ensures Inv(j, g, b, ip, op, AtMatchLen(nib, off))
  {
    hide Decode, View, CopyMatch;
    MatchCases(j.src, j.partial, |j.dict|, ip, off, nib + MINMATCH, j.oend - op, View(j, b, op));
    assert DecodeMatchLen(j.src, j.partial, |j.dict|, ip, nib, off, j.oend - op, View(j, b, op))
        == DecodeMatch(j.src, j.partial, |j.dict|, ip, off, nib + MINMATCH, j.oend - op, View(j, b, op));
  }

  lemma {:induction false} MatchLenStep(j: Job, g: Goal, b: seq<byte>, ip: nat, op: nat, nib: nat, off: nat)
    requires Inv(j, g, b, ip, op, AtMatchLen(nib, off)) && nib != 15
    ensures Inv(j, g, b, ip, op, AtMatch(off, nib + MINMATCH))
  {
    hide DecodeMatch, View;
  }

  /** The written bytes are the match, seen through the view. */
  ghost predicate Repeats(j: Job, b: seq<byte>, b': seq<byte>, op: nat, off: nat, len: nat)
    requires LowIndex(j) <= op && op + len <= |b| == |b'|
  {
    1 <= off <= |View(j, b, op)| ==> View(j, b', op + len) == CopyMatch(View(j, b, op), off, len)
  }

  lemma {:induction false} CopiedRepeats(j: Job, b: seq<byte>, b': seq<byte>, op: nat, off: nat, len: nat)
    requires LowIndex(j) <= op && op + len <= j.oend && Copied(b, b', op, off, len, j.oend)
    requires LowIndex(j) + off <= op
    ensures Repeats(j, b, b', op, off, len)
  {
    hide CopyMatch;
    var v, v' := View(j, b, op), View(j, b', op + len);
    var lo := LowIndex(j);
    assert v <= v' by {
      assert b'[lo..op + len][..op - lo] == b[lo..op];
    }
    forall k | |v| <= k < |v'|
      ensures v'[k] == v'[k - off]
    {
      var i := k - |j.dict| + lo;
      assert v'[k] == b'[i] && v'[k - off] == b'[i - off];
    }
    if 1 <= off {
      CopyMatchUnique(v, v', off);
    }
  }

  lemma {:induction false} MatchDone(j: Job, g: Goal, b: seq<byte>, b': seq<byte>, ip: nat, op: nat, off: nat,
      mlen: nat)
    requires Inv(j, g, b, ip, op, AtMatch(off, mlen))
    requires Framed(b, b', op, j.oend)
    requires if j.partial then op + mlen < j.oend else op + mlen + LASTLITERALS <= j.oend
    requires off <= |View(j, b, op)| && Repeats(j, b, b', op, off, mlen)
    ensures Inv(j, g, b', ip, op + mlen, AtToken)
  {
    hide CopyMatch, View, Decode;
    assert Framed(g.b0, b', j.start, j.oend);
    if off != 0 {
      MatchCases(j.src, j.partial, |j.dict|, ip, off, mlen, j.oend - op, View(j, b, op));
    }
  }

  lemma {:induction false} BadOffset(j: Job, g: Goal, b: seq<byte>, ip: nat, op: nat, st: Stage)
    requires Inv(j, g, b, ip, op, st)
    requires (st.AtMatch? || st.AtMatchLen?) && st.off > |View(j, b, op)|
    ensures Inv(j, g, b, ip, op, Failed)
  {
    hide View;
    if st.AtMatchLen? {
      match MatchField(j.src, ip, st.nib) {
        case None =>
        case Some(p) =>
          assert DecodeMatch(j.src, j.partial, |j.dict|, p.1, st.off, p.0 + MINMATCH, j.oend - op, View(j, b, op))
                   == Malformed;
      }
    }
  }

  // ---------------------------------------------------------------- lengths

  datatype LengthError = Ok | LoopError | InitialError

  function Longer(n: nat, r: Run): Run
  {
    Run(n + r.sum, r.next, r.ok)
  }

  /** read_variable_length, as the input-bounded decoders call it. The sum is kept in 32 bits and wraps. */
  method ReadVariableLength(src: seq<byte>, ip: nat, lencheck: int, initialCheck: bool)
      returns (length: U32, ip': nat, err: LengthError)
    requires ip <= |src| && lencheck <= |src|
    requires initialCheck || ip < |src|
    ensures err == InitialError <==> initialCheck && ip >= lencheck
    ensures err != InitialError ==>
              var r := RunLength(src, ip, lencheck);
              length == r.sum % WRAP32 && ip' == r.next && (err == Ok <==> r.ok)
  {
    length, ip' := 0, ip;
    if initialCheck && ip >= lencheck {
      return length, ip', InitialError;
    }
    ghost var sum := 0;
    while true
      invariant ip <= ip' < |src| && 0 <= sum && length == sum % WRAP32
      invariant RunLength(src, ip, lencheck) == Longer(sum, RunLength(src, ip', lencheck))
      decreases |src| - ip'
    {
      var s := src[ip'];
      AddMod(sum, s);
      length := (length as int + s as int) % WRAP32;
      ip' := ip' + 1;
      sum := sum + s;
      if ip' >= lencheck {
        return length, ip', LoopError;
      }
      if s != 255 {
        return length, ip', Ok;
      }
    }
  }

  lemma {:induction false} AddMod(a: nat, s: nat)
    ensures (a % WRAP32 + s) % WRAP32 == (a + s) % WRAP32
  {
  }

  /** Literal length with a nibble of 15. An unfinished run is no error here: its literals fail later. */
  method ReadLiteralLength(j: Job, ghost g: Goal, ghost b: seq<byte>, tok: nat, ghost op: nat)
      returns (ip': nat, st: Stage)
    requires Inv(j, g, b, tok, op, AtToken) && j.src[tok] / 16 == 15
    ensures ip' <= |j.src| && Inv(j, g, b, ip', op, st)
    ensures st.Failed? || (st.AtLiterals? && st.nib == j.src[tok] % 16 && 15 <= st.llen)
    ensures tok < ip'
  {
    hide DecodeShort, DecodeLits, View;
    var length, err;
    length, ip', err := ReadVariableLength(j.src, tok + 1, |j.src| - RUN_MASK, true);
    if err == InitialError {
      ip' := tok + 1;
      return ip', Failed;
    }
    st := AtLiterals(j.src[tok] % 16, 15 + length as int);
  }

  /** Match length with a nibble of 15: an unfinished run, or one that ends too close to the end, is an error. */
  method ReadMatchLength(j: Job, ghost g: Goal, ghost b: seq<byte>, ip: nat, ghost op: nat, off: nat)
      returns (ip': nat, st: Stage)
    requires Inv(j, g, b, ip, op, AtMatchLen(15, off))
    ensures ip' <= |j.src| && Inv(j, g, b, ip', op, st)
    ensures st.Failed? || (st.AtMatch? && st.off == off)
    ensures ip < ip'
  {
    hide DecodeMatch, View;
    var length, err;
    length, ip', err := ReadVariableLength(j.src, ip, |j.src| - LASTLITERALS + 1, false);
    if err == LoopError {
      return ip', Failed;
    }
    st := AtMatch(off, 15 + length as int + MINMATCH);
  }

  // ---------------------------------------------------------------- the safe loop

  /** Ending inside or after a run of literals: `n` of the `llen` bytes fit. */
  lemma {:induction false} LiteralsFinish(j: Job, g: Goal, b: seq<byte>, b': seq<byte>, ip: nat, op: nat,
                                          nib: nat, llen: nat, n: nat)
    requires Inv(j, g, b, ip, op, AtLiterals(nib, llen)) && n == Min(llen, j.oend - op)
    requires LiteralsAt(j.src, b, b', ip, op, n, op + n)
    requires op + llen + MFLIMIT > j.oend || ip + llen > |j.src| - (2 + 1 + LASTLITERALS)
    requires ip + llen == |j.src| || (j.partial && ip + llen <= |j.src| - (2 + 1 + LASTLITERALS))
    requires if j.partial then op + n == j.oend || ip + n == |j.src| else op + llen <= j.oend
    ensures Inv(j, g, b', ip + n, op + n, Finished)
  {
    hide View;
    ViewLiterals(j, b, b', ip, op, n);
  }

  /** Close to an end, but decoding partially: the output is not full yet. */
  lemma {:induction false} LiteralsGoOn(j: Job, g: Goal, b: seq<byte>, ip: nat, op: nat, nib: nat, llen: nat)
    requires Inv(j, g, b, ip, op, AtLiterals(nib, llen)) && j.partial
    requires op + llen < j.oend && ip + llen <= |j.src| - (2 + 1 + LASTLITERALS)
    ensures InvOffset(j, g, b, ip, op, nib, llen)
  {
    hide DecodeOffset, View;
  }

  /** Literals that can be neither the last ones nor followed by an offset. */
  lemma {:induction false} LiteralsFail(j: Job, g: Goal, b: seq<byte>, ip: nat, op: nat, nib: nat, llen: nat)
    requires Inv(j, g, b, ip, op, AtLiterals(nib, llen))
    requires op + llen + MFLIMIT > j.oend || ip + llen > |j.src| - (2 + 1 + LASTLITERALS)
    requires if j.partial then ip + llen > |j.src| - (2 + 1 + LASTLITERALS) && ip + llen != |j.src|
             else ip + llen != |j.src| || op + llen > j.oend
    ensures Inv(j, g, b, ip, op, Failed)
  {
    hide View;
  }

  /**
    The literal copy of the safe loop. Near either end it must be the last sequence (or, decoding
    partially, the output must be full); elsewhere a wild copy is safe.
  */
  method SafeLiterals(j: Job, ghost g: Goal, dst: array<byte>, ip: nat, op: nat, nib: nat, llen: nat)
      returns (ip': nat, op': nat, st: Stage)
    requires Inv(j, g, dst[..], ip, op, AtLiterals(nib, llen))
    modifies dst
    ensures Inv(j, g, dst[..], ip', op', st)
    ensures st.Failed? || st.Finished? || (st.AtMatchLen? && ip < ip')
    ensures ip <= ip'
  {
    hide Resume, Comes, DecodeOffset, View;
    var iend := |j.src|;
    ghost var b := dst[..];
    if op + llen > j.oend - MFLIMIT || ip + llen > iend - (2 + 1 + LASTLITERALS) {
      var n := llen;
      if j.partial {
        if ip + llen > iend - (2 + 1 + LASTLITERALS) && ip + llen != iend {
          LiteralsFail(j, g, b, ip, op, nib, llen);
          return ip, op, Failed;
        }
        if op + llen > j.oend {
          n := j.oend - op;
        }
      } else if ip + llen != iend || op + llen > j.oend {
        LiteralsFail(j, g, b, ip, op, nib, llen);
        return ip, op, Failed;
      }
      CopyFrom(dst, op, j.src, ip, n);
      if !j.partial || op + n == j.oend || ip + n == iend {
        LiteralsFinish(j, g, b, dst[..], ip, op, nib, llen, n);
        return ip + n, op + n, Finished;
      }
      LiteralsGoOn(j, g, b, ip, op, nib, llen);
    } else {
      LiteralsRoom(j, g, b, ip, op, nib, llen);
      WildEndBound(op, op + llen, 8);
      WildCopy8From(dst, op, j.src, ip, op + llen);
    }
    LiteralsDone(j, g, b, dst[..], ip, op, nib, llen);
    var offset := ReadOffset(j.src, ip + llen);
    return ip + llen + 2, op + llen, AtMatchLen(nib, offset);
  }

  // ---------------------------------------------------------------- matches

  /** The byte at index `i` of the output, where indices below `low` lie in the external dictionary. */
  function ByteAt(j: Job, b: seq<byte>, i: int): byte
    requires 0 <= j.low && j.low - |j.dict| <= i < |b|
  {
    if i < j.low then j.dict[|j.dict| - (j.low - i)] else b[i]
  }

  lemma {:induction false} ViewAt(j: Job, b: seq<byte>, op: nat, k: nat)
    requires 0 <= j.low <= op <= |b| && k < |View(j, b, op)|
    ensures |View(j, b, op)| == |j.dict| + (op - j.low)
    ensures View(j, b, op)[k] == ByteAt(j, b, k - |j.dict| + j.low)
    ensures |j.dict| <= k ==> View(j, b, op)[k] == b[k - |j.dict| + j.low]
  {
  }

  lemma {:induction false} ViewPrefix(j: Job, b: seq<byte>, b': seq<byte>, op: nat, len: nat)
    requires 0 <= j.low <= op && op + len <= |b| && Framed(b, b', op, op + len)
    ensures View(j, b, op) <= View(j, b', op + len) && |View(j, b', op + len)| == |View(j, b, op)| + len
    ensures |View(j, b, op)| == |j.dict| + (op - j.low)
  {
    assert b'[j.low..op + len][..op - j.low] == b[j.low..op];
  }

  lemma {:induction false} DictRepeats(j: Job, b: seq<byte>, b': seq<byte>, op: nat, off: nat, len: nat)
    requires 0 <= j.low <= op && op + len <= |b| && Framed(b, b', op, op + len)
    requires off <= |View(j, b, op)|
    requires forall k :: op <= k < op + len ==> b'[k] == ByteAt(j, b', k - off)
    ensures Repeats(j, b, b', op, off, len)
  {
    hide CopyMatch, View, ByteAt;
    var v, v' := View(j, b, op), View(j, b', op + len);
    ViewPrefix(j, b, b', op, len);
    forall k | |v| <= k < |v'|
      ensures v'[k] == v'[k - off]
    {
      var i := k - |j.dict| + j.low;
      ViewAt(j, b', op + len, k);
      ViewAt(j, b', op + len, k - off);
      assert b'[i] == ByteAt(j, b', i - off);
    }
    if 1 <= off {
      CopyMatchUnique(v, v', off);
    }
  }

  /** A match that starts in the external dictionary; it may run on into the prefix. */
  method CopyFromDict(j: Job, dst: array<byte>, op: nat, off: nat, len: nat)
    requires 0 <= j.low <= op && op + len <= dst.Length
    requires op - j.low < off <= op - j.low + |j.dict|
    modifies dst
    ensures Framed(old(dst[..]), dst[..], op, op + len)
    ensures Repeats(j, old(dst[..]), dst[..], op, off, len)
  {
    ghost var b := dst[..];
    var low := j.low;
    var dictEnd := |j.dict|;
    var inDict := low - (op - off);
    if len <= inDict {
      CopyFrom(dst, op, j.dict, dictEnd - inDict, len);
    } else {
      var rest := len - inDict;
      CopyFrom(dst, op, j.dict, dictEnd - inDict, inDict);
      ghost var mid := dst[..];
      if rest > op + inDict - low {
        CopyBytes(dst, op + inDict, low, rest);
      } else {
        CopyWithin(dst, op + inDict, low, rest);
      }
      SecondPart(j, mid, dst[..], op, off, len, inDict);
    }
    DictRepeats(j, b, dst[..], op, off, len);
  }

  lemma {:induction false} SecondPart(j: Job, mid: seq<byte>, b': seq<byte>, op: nat, off: nat, len: nat, inDict: nat)
    requires 0 <= j.low <= op && inDict == j.low - (op - off) && 0 < inDict < len && op + len <= |mid|
    requires off <= op - j.low + |j.dict|
    requires forall k :: op <= k < op + inDict ==> mid[k] == j.dict[|j.dict| - inDict + (k - op)]
    requires Framed(mid, b', op + inDict, op + len)
    requires Periodic(b', op + inDict, op + len, op + inDict - j.low)
    ensures forall k :: op <= k < op + len ==> b'[k] == ByteAt(j, b', k - off)
  {
  }

  /** Offsets within the prefix; otherwise the view still covers them when the check is passed or not needed. */
  lemma {:induction false} OffsetInView(j: Job, b: seq<byte>, op: nat, off: nat)
    requires ValidJob(j, |b|) && j.start <= op <= j.oend <= |b| && off <= DISTANCE_MAX
    ensures off > |View(j, b, op)| <==> op - off + |j.dict| < j.low
    ensures off <= |View(j, b, op)| && (j.mode != UsingExtDict || op - off >= j.low) ==> LowIndex(j) + off <= op
    ensures j.mode == WithPrefix64k || op - off >= j.low <==> off + |j.dict| <= |View(j, b, op)|
  {
  }

  /** The match copy of the safe loop. */
  method SafeMatch(j: Job, ghost g: Goal, dst: array<byte>, ip: nat, op: nat, off: nat, mlen: nat)
      returns (op': nat, st: Stage)
    requires Inv(j, g, dst[..], ip, op, AtMatch(off, mlen))
    modifies dst
    ensures Inv(j, g, dst[..], ip, op', st)
    ensures st.Failed? || st.Finished? || st.AtToken?
  {
    hide Resume, Comes, View, CopyMatch;
    ghost var b := dst[..];
    OffsetInView(j, b, op, off);
    if |j.dict| < KB64 && op - off + |j.dict| < j.low {
      BadOffset(j, g, b, ip, op, AtMatch(off, mlen));
      return op, Failed;
    }
    if j.mode == UsingExtDict && op - off < j.low {
      if op + mlen > j.oend - LASTLITERALS {
        MatchTooLong(j, g, b, dst[..], ip, op, off, mlen);
        return op, Failed;
      }
      CopyFromDict(j, dst, op, off, mlen);
    } else if j.partial && op + mlen > j.oend - MATCH_SAFEGUARD_DISTANCE {
      var n := Min(mlen, j.oend - op);
      CopyMatchPartial(dst, op, off, n);
      if op + n == j.oend {
        MatchCut(j, g, b, dst[..], ip, op, off, mlen, n);
        return op + n, Finished;
      }
      CopiedRepeats(j, b, dst[..], op, off, mlen);
    } else {
      var ok := CopyMatchSafe(dst, op, off, mlen, j.oend);
      if !ok {
        MatchTooLong(j, g, b, dst[..], ip, op, off, mlen);
        return op, Failed;
      }
      CopiedRepeats(j, b, dst[..], op, off, mlen);
    }
    MatchDone(j, g, b, dst[..], ip, op, off, mlen);
    return op + mlen, AtToken;
  }

  /** A match that reaches into the last LASTLITERALS bytes of the output. */
  lemma {:induction false} MatchTooLong(j: Job, g: Goal, b: seq<byte>, b': seq<byte>, ip: nat, op: nat, off: nat,
      mlen: nat)
    requires Inv(j, g, b, ip, op, AtMatch(off, mlen)) && !j.partial && op + mlen + LASTLITERALS > j.oend
    requires Framed(b, b', op, j.oend)
    ensures Inv(j, g, b', ip, op, Failed)
  {
    hide View;
  }

  /** Ending inside a match, the output being full. */
  lemma {:induction false} MatchCut(j: Job, g: Goal, b: seq<byte>, b': seq<byte>, ip: nat, op: nat,
                                    off: nat, mlen: nat, n: nat)
    requires Inv(j, g, b, ip, op, AtMatch(off, mlen)) && j.partial && off <= |View(j, b, op)|
    requires n <= mlen && op + n == j.oend && Copied(b, b', op, off, n, j.oend)
    requires LowIndex(j) + off <= op
    ensures Inv(j, g, b', ip, op + n, Finished)
  {
    hide CopyMatch, View, Copied, Decode;
    CopiedRepeats(j, b, b', op, off, n);
    CopiedFrames(b, b', op, off, n, j.oend);
    if off != 0 {
      MatchCases(j.src, j.partial, |j.dict|, ip, off, mlen, j.oend - op, View(j, b, op));
    }
  }

  lemma {:induction false} CopiedFrames(b: seq<byte>, b': seq<byte>, op: nat, off: nat, len: nat, lim: nat)
    requires Copied(b, b', op, off, len, lim)
    ensures Framed(b, b', op, lim)
  {
  }

  lemma {:induction false} CopiedWithin(b: seq<byte>, b': seq<byte>, op: nat, off: nat, len: nat, len': nat, lim: nat,
      lim': nat)
    requires Copied(b, b', op, off, len', lim) && len <= len' && lim <= lim' <= |b|
    ensures Copied(b, b', op, off, len, lim') && Framed(b, b', op, lim')
  {
  }

  /** A match of at most 18 bytes at a distance of at least 8, copied as 18 bytes. */
  method ShortMatch(j: Job, ghost g: Goal, dst: array<byte>, ip: nat, op: nat, off: nat, mlen: nat)
    requires InvQuick(j, g, dst[..], ip, op, off, mlen)
    modifies dst
    ensures Inv(j, g, dst[..], ip, op + mlen, AtToken)
  {
    hide View, Resume, Comes, Copied, CopyMatch;
    ghost var b := dst[..];
    QuickInPrefix(j, g, b, ip, op, off, mlen);
    Copy18(dst, op, off);
    CopiedWithin(b, dst[..], op, off, mlen, 18, op + 18, j.oend);
    CopiedRepeats(j, b, dst[..], op, off, mlen);
    QuickDone(j, g, b, dst[..], ip, op, off, mlen);
  }

  lemma {:induction false} QuickInPrefix(j: Job, g: Goal, b: seq<byte>, ip: nat, op: nat, off: nat, mlen: nat)
    requires InvQuick(j, g, b, ip, op, off, mlen)
    ensures LowIndex(j) + off <= op
  {
  }

  lemma {:induction false} QuickDone(j: Job, g: Goal, b: seq<byte>, b': seq<byte>, ip: nat, op: nat, off: nat,
      mlen: nat)
    requires InvQuick(j, g, b, ip, op, off, mlen) && Framed(b, b', op, j.oend) && Repeats(j, b, b', op, off, mlen)
    ensures Inv(j, g, b', ip, op + mlen, AtToken)
  {
    hide CopyMatch, View, Decode;
    assert Framed(g.b0, b', j.start, j.oend);
  }

  /** A token of the safe loop: the two-stage shortcut when both buffers have room, its length otherwise. */
  method SafeToken(j: Job, ghost g: Goal, dst: array<byte>, tok: nat, op: nat)
      returns (ip: nat, op': nat, st: Stage)
    requires Inv(j, g, dst[..], tok, op, AtToken)
    modifies dst
    ensures Inv(j, g, dst[..], ip, op', st) && tok < ip
    ensures !st.Finished?
  {
    hide Resume, Comes, DecodeOffset, DecodeShort, View;
    var llen := j.src[tok] / 16;
    var nib := j.src[tok] % 16;
    ip := tok + 1;
    ghost var b := dst[..];
    if llen == 15 {
      ip, st := ReadLiteralLength(j, g, b, tok, op);
      return ip, op, st;
    }
    TokenStep(j, g, b, tok, op);
    if ip < |j.src| - 16 && op <= j.oend - 32 {
      ip, op', st := Shortcut(j, g, dst, ip, op, nib, llen);
      return ip, op', st;
    }
    return ip, op, AtLiterals(nib, llen);
  }

  /** Both stages of the shortcut. */
  method Shortcut(j: Job, ghost g: Goal, dst: array<byte>, ip0: nat, op: nat, nib: nat, llen: nat)
      returns (ip: nat, op': nat, st: Stage)
    requires InvShort(j, g, dst[..], ip0, op, nib, llen)
    modifies dst
    ensures Inv(j, g, dst[..], ip, op', st) && ip0 < ip && (st.AtToken? || st.AtMatchLen?)
  {
    hide Resume, Comes, DecodeShort, View, InvQuick, Shaped;
    ghost var b := dst[..];
    CopyFrom(dst, op, j.src, ip0, 16);
    ShortDone(j, g, b, dst[..], ip0, op, nib, llen);
    var off := ReadOffset(j.src, ip0 + llen);
    ip, op' := ip0 + llen + 2, op + llen;
    OffsetInView(j, dst[..], op', off);
    if nib != 15 && off >= 8 && (j.mode == WithPrefix64k || op' - off >= j.low) {
      ShortMatch(j, g, dst, ip, op', off, nib + MINMATCH);
      return ip, op' + nib + MINMATCH, AtToken;
    }
    return ip, op', AtMatchLen(nib, off);
  }

  function StageRank(st: Stage): nat
  {
    match st
    case AtToken => 3
    case AtLiterals(_, _) => 2
    case AtMatchLen(_, _) => 5
    case AtMatch(_, _) => 4
    case Finished => 0
    case Failed => 0
  }

  /** The safe loop, entered at whatever stage the fast loop gave up. */
  method SafeLoop(j: Job, ghost g: Goal, dst: array<byte>, ip0: nat, op0: nat, st0: Stage)
      returns (ip: nat, op: nat, st: Stage)
    requires Inv(j, g, dst[..], ip0, op0, st0)
    modifies dst
    ensures Inv(j, g, dst[..], ip, op, st) && (st.Finished? || st.Failed?)
  {
    hide Resume, Comes, View;
    ip, op, st := ip0, op0, st0;
    while !st.Finished? && !st.Failed?
      invariant Inv(j, g, dst[..], ip, op, st)
      decreases |j.src| - ip, StageRank(st)
    {
      match st
      case AtToken =>
        ip, op, st := SafeToken(j, g, dst, ip, op);
      case AtLiterals(nib, llen) =>
        ip, op, st := SafeLiterals(j, g, dst, ip, op, nib, llen);
      case AtMatchLen(nib, off) =>
        if nib == 15 {
          ip, st := ReadMatchLength(j, g, dst[..], ip, op, off);
        } else {
          MatchLenStep(j, g, dst[..], ip, op, nib, off);
          st := AtMatch(off, nib + MINMATCH);
        }
      case AtMatch(off, mlen) =>
        op, st := SafeMatch(j, g, dst, ip, op, off, mlen);
    }
  }

  // ---------------------------------------------------------------- the fast loop

  /** First half of a fast-loop turn. When the input or output gets short the literals are left to the safe loop. */
  method FastLiterals(j: Job, ghost g: Goal, dst: array<byte>, tok: nat, op: nat)
      returns (ip: nat, op': nat, st: Stage)
    requires Inv(j, g, dst[..], tok, op, AtToken)
    requires op + FASTLOOP_SAFE_DISTANCE <= j.oend
    modifies dst
    ensures Inv(j, g, dst[..], ip, op', st) && tok < ip
    ensures st.Failed? || st.AtLiterals? || (st.AtMatchLen? && op' + 32 <= j.oend)
  {
    hide Resume, Comes, DecodeOffset, DecodeShort, View;
    var iend := |j.src|;
    var llen := j.src[tok] / 16;
    var nib := j.src[tok] % 16;
    ip := tok + 1;
    ghost var b := dst[..];
    if llen == 15 {
      ip, st := ReadLiteralLength(j, g, b, tok, op);
      if st.Failed? {
        return ip, op, st;
      }
      llen := st.llen;
      if op + llen > j.oend - 32 || ip + llen > iend - 32 {
        return ip, op, st;
      }
      LiteralsRoom(j, g, b, ip, op, nib, llen);
      WildEndBound(op, op + llen, 32);
      WildCopy32From(dst, op, j.src, ip, op + llen);
    } else {
      TokenStep(j, g, b, tok, op);
      if ip > iend - (16 + 1) {
        return ip, op, AtLiterals(nib, llen);
      }
      st := ShortLiterals(j, g, dst, ip, op, nib, llen);
      return ip + llen + 2, op + llen, st;
    }
    LiteralsDone(j, g, b, dst[..], ip, op, nib, llen);
    var off := ReadOffset(j.src, ip + llen);
    return ip + llen + 2, op + llen, AtMatchLen(nib, off);
  }

  /** Fewer than 15 literals, copied as 16 bytes; there is so much room that any match is decoded alike. */
  method ShortLiterals(j: Job, ghost g: Goal, dst: array<byte>, ip: nat, op: nat, nib: nat, llen: nat)
      returns (st: Stage)
    requires InvShort(j, g, dst[..], ip, op, nib, llen) && op + FASTLOOP_SAFE_DISTANCE <= j.oend
    modifies dst
    ensures Inv(j, g, dst[..], ip + llen + 2, op + llen, st) && st.AtMatchLen?
  {
    hide Resume, Comes, DecodeShort, View, InvQuick, Shaped;
    ghost var b := dst[..];
    CopyFrom(dst, op, j.src, ip, 16);
    ShortDone(j, g, b, dst[..], ip, op, nib, llen);
    var off := ReadOffset(j.src, ip + llen);
    if Quick(nib, off, |j.dict|, |View(j, dst[..], op + llen)|) {
      MatchIsQuick(j, g, dst[..], ip + llen + 2, op + llen, nib, off);
    }
    st := AtMatchLen(nib, off);
  }

  /** A match inside the output buffer, far from its end: by pattern at a short distance, 32 bytes at a time else. */
  method CopyFar(dst: array<byte>, op: nat, off: nat, mlen: nat, ghost oend: nat)
    requires off <= op && MINMATCH <= mlen && op + mlen + 32 <= oend <= dst.Length
    modifies dst
    ensures Copied(old(dst[..]), dst[..], op, off, mlen, oend)
  {
    ghost var b := dst[..];
    if off < 16 {
      ghost var end := UsingOffsetEnd(op, off, op + mlen);
      EightBytesSuffice(op, off, op + mlen);
      MemcpyUsingOffset(dst, op, off, op + mlen);
      CopiedWithin(b, dst[..], op, off, mlen, end - op, end, oend);
    } else {
      WildEndBound(op, op + mlen, 32);
      WildCopy32(dst, op, op - off, op + mlen);
      CopiedWithin(b, dst[..], op, off, mlen, WildEnd(op, op + mlen, 32) - op, WildEnd(op, op + mlen, 32), oend);
    }
  }

  /** The general match copy of the fast loop, at least FASTLOOP_SAFE_DISTANCE before the end. */
  method FastCopy(j: Job, ghost g: Goal, dst: array<byte>, ip: nat, op: nat, off: nat, mlen: nat)
      returns (op': nat, st: Stage)
    requires Inv(j, g, dst[..], ip, op, AtMatch(off, mlen))
    requires op + mlen < j.oend - FASTLOOP_SAFE_DISTANCE
    modifies dst
    ensures Inv(j, g, dst[..], ip, op', st)
    ensures st.Failed? || (st.AtToken? && op' == op + mlen)
  {
    hide Resume, Comes, View, CopyMatch;
    ghost var b := dst[..];
    OffsetInView(j, b, op, off);
    if |j.dict| < KB64 && op - off + |j.dict| < j.low {
      BadOffset(j, g, b, ip, op, AtMatch(off, mlen));
      return op, Failed;
    }
    if j.mode == UsingExtDict && op - off < j.low {
      CopyFromDict(j, dst, op, off, mlen);
    } else {
      CopyFar(dst, op, off, mlen, j.oend);
      CopiedRepeats(j, b, dst[..], op, off, mlen);
    }
    MatchDone(j, g, b, dst[..], ip, op, off, mlen);
    return op + mlen, AtToken;
  }

  /** Second half of a fast-loop turn; a match that ends near the end of the output is left to the safe loop. */
  method FastMatch(j: Job, ghost g: Goal, dst: array<byte>, ip: nat, op: nat, nib: nat, off: nat)
      returns (ip': nat, op': nat, st: Stage)
    requires Inv(j, g, dst[..], ip, op, AtMatchLen(nib, off))
    requires op + 32 <= j.oend
    modifies dst
    ensures Inv(j, g, dst[..], ip', op', st) && ip <= ip'
    ensures st.Failed? || st.AtMatch? || (st.AtToken? && op' + FASTLOOP_SAFE_DISTANCE <= j.oend)
  {
    hide Resume, Comes, View, Framed, InvQuick;
    ghost var b := dst[..];
    OffsetInView(j, b, op, off);
    ip', op' := ip, op;
    if nib == 15 {
      if |j.dict| < KB64 && op - off + |j.dict| < j.low {
        BadOffset(j, g, b, ip, op, AtMatchLen(nib, off));
        return ip, op, Failed;
      }
      ip', st := ReadMatchLength(j, g, b, ip, op, off);
      if st.Failed? || op + st.mlen >= j.oend - FASTLOOP_SAFE_DISTANCE {
        return ip', op, st;
      }
    } else {
      if op + nib + MINMATCH < j.oend - FASTLOOP_SAFE_DISTANCE {
        if j.mode == WithPrefix64k || op - off >= j.low {
          if off >= 8 {
            QuickIsMatch(j, g, b, ip, op, nib, off);
            ShortMatch(j, g, dst, ip, op, off, nib + MINMATCH);
            return ip, op + nib + MINMATCH, AtToken;
          }
        }
      }
      MatchLenStep(j, g, b, ip, op, nib, off);
      st := AtMatch(off, nib + MINMATCH);
      if op + st.mlen >= j.oend - FASTLOOP_SAFE_DISTANCE {
        return ip, op, st;
      }
    }
    op', st := FastCopy(j, g, dst, ip', op, off, st.mlen);
  }

  /** The fast loop: runs as long as there is FASTLOOP_SAFE_DISTANCE of output left. */
  method FastLoop(j: Job, ghost g: Goal, dst: array<byte>)
      returns (ip: nat, op: nat, st: Stage)
    requires Inv(j, g, dst[..], 0, j.start, AtToken)
    requires j.start + FASTLOOP_SAFE_DISTANCE <= j.oend
    modifies dst
    ensures Inv(j, g, dst[..], ip, op, st)
    ensures !st.AtToken?
  {
    hide Resume, Comes, View;
    ip, op, st := 0, j.start, AtToken;
    while st.AtToken?
      invariant Inv(j, g, dst[..], ip, op, st)
      invariant st.AtToken? ==> op + FASTLOOP_SAFE_DISTANCE <= j.oend
      decreases |j.src| - ip, StageRank(st)
    {
      ip, op, st := FastLiterals(j, g, dst, ip, op);
      if st.AtMatchLen? {
        ip, op, st := FastMatch(j, g, dst, ip, op, st.nib, st.off);
      }
    }
  }

  // ---------------------------------------------------------------- LZ4_decompress_generic

  /** What a call must do: exactly what SafeDecode says, up to an offset of zero, and writing nothing else. */
  ghost predicate Outcome(j: Job, b0: seq<byte>, b: seq<byte>, r: int)
    requires ValidJob(j, |b0|)
  {
    && r <= j.oend - j.start && -(|j.src| + 1) <= r && Framed(b0, b, j.start, j.oend)
    && (match SafeDecode(j.src, j.partial, |j.dict|, j.oend - j.start, View(j, b0, j.start))
        case Decoded(out) => 0 <= r && View(j, b, j.start + r) == out
        case Malformed => r < 0
        case ZeroOffset => true)
  }

  /** LZ4_decompress_generic for decoders that know the size of their input. */
  method Decompress(j: Job, dst: array<byte>) returns (r: int)
    requires ValidJob(j, dst.Length)
    modifies dst
    ensures Outcome(j, old(dst[..]), dst[..], r)
  {
    hide Resume, Comes, View, Decode;
    if j.oend == j.start {
      if j.partial {
        return 0;
      }
      return if |j.src| == 1 && j.src[0] == 0 then 0 else -1;
    }
    if |j.src| == 0 {
      return -1;
    }
    ghost var g := Goal(dst[..], SafeDecode(j.src, j.partial, |j.dict|, j.oend - j.start, View(j, dst[..], j.start)));
    var ip, op, st := 0, j.start, AtToken;
    StartsAtGoal(j, g, dst[..]);
    if j.oend - op >= FASTLOOP_SAFE_DISTANCE {
      ip, op, st := FastLoop(j, g, dst);
    }
    ip, op, st := SafeLoop(j, g, dst, ip, op, st);
    ReachesGoal(j, g, dst[..], ip, op, st);
    if st.Failed? {
      return -(ip as int) - 1;
    }
    return op - j.start;
  }

  lemma {:induction false} StartsAtGoal(j: Job, g: Goal, b: seq<byte>)
    requires ValidJob(j, |b|) && j.src != [] && j.start < j.oend
    requires g == Goal(b, SafeDecode(j.src, j.partial, |j.dict|, j.oend - j.start, View(j, b, j.start)))
    ensures Inv(j, g, b, 0, j.start, AtToken)
  {
    hide Decode, View;
  }

  lemma {:induction false} ReachesGoal(j: Job, g: Goal, b: seq<byte>, ip: nat, op: nat, st: Stage)
    requires Inv(j, g, b, ip, op, st) && (st.Finished? || st.Failed?) && ValidJob(j, |g.b0|)
    requires g.r0 == SafeDecode(j.src, j.partial, |j.dict|, j.oend - j.start, View(j, g.b0, j.start))
    ensures Outcome(j, g.b0, b, if st.Failed? then -(ip as int) - 1 else op - j.start)
  {
    hide SafeDecode, View;
  }

  /**
    In terms of the format: below the size limit, and unless the block holds an offset of zero, whatever a call reports
    is what the reference decoder says, or decoding partially the beginning of it.
  */
  lemma {:induction false} OutcomeIsReference(j: Job, b0: seq<byte>, b: seq<byte>, r: int)
    requires ValidJob(j, |b0|) && Outcome(j, b0, b, r) && 0 <= r
    requires |j.src| < SafeSize(View(j, b0, j.start)) && Rest(j.src, 0, View(j, b0, j.start)) != ZeroOffset
    ensures |b| == |b0|
    ensures var w := View(j, b0, j.start);
            Agrees(j.partial, |w| + (j.oend - j.start), View(j, b, j.start + r), Rest(j.src, 0, w))
  {
    hide SafeDecode, Rest, View, Agrees;
    SafeIsReference(j.src, j.partial, |j.dict|, j.oend - j.start, View(j, b0, j.start));
  }
}
