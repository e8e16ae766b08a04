/**
  LZ4_decompress_safe as a function of its input: what it reads, accepts and produces, with bytes copied one at a
  time. It is compared with the reference decoder of the format, which adds up lengths without limit and
  accepts blocks whatever comes last.
*/
module Lz4Safe {
  import opened Lz4Defs
  import opened Lz4Format

  const WRAP32: nat := 0x1_0000_0000

  // ---------------------------------------------------------------- lengths as they are read

  /** A run of length bytes: their sum, the position behind them, and whether `lencheck` was not reached. */
  datatype Run = Run(sum: nat, next: nat, ok: bool)

  /** What read_variable_length reads. */
  function RunLength(src: seq<byte>, ip: nat, lencheck: int): (r: Run)
    requires ip < |src| && lencheck <= |src|
    ensures ip < r.next <= |src| && r.sum <= 255 * (r.next - ip)
    ensures r.ok <==> r.next < lencheck
    ensures ip < lencheck ==> r.next <= lencheck
    decreases |src| - ip
  {
    if ip + 1 >= lencheck then Run(src[ip], ip + 1, false)
    else if src[ip] != 255 then Run(src[ip], ip + 1, true)
    else
      var r := RunLength(src, ip + 1, lencheck);
      Run(255 + r.sum, r.next, r.ok)
  }

  /** The literal length behind a token. A run that goes on too long is cut short; its literals do not fit then. */
  function LitField(src: seq<byte>, ip: nat): (r: Option<(nat, nat)>)
    requires ip < |src|
    ensures r.Some? ==> ip < r.value.1 <= |src|
  {
    if src[ip] / 16 < 15 then Some((src[ip] / 16, ip + 1))
    else if ip + 1 >= |src| - RUN_MASK then None
    else
      var r := RunLength(src, ip + 1, |src| - RUN_MASK);
      Some((15 + r.sum % WRAP32, r.next))
  }

  /** The match code behind an offset. */
  function MatchField(src: seq<byte>, ip: nat, nib: nat): (r: Option<(nat, nat)>)
    requires ip < |src|
    ensures r.Some? ==> ip <= r.value.1 < |src|
  {
    if nib < 15 then Some((nib, ip))
    else
      var r := RunLength(src, ip, |src| - LASTLITERALS + 1);
      if r.ok then Some((15 + r.sum % WRAP32, r.next)) else None
  }

  // ---------------------------------------------------------------- decoding

  /**
    Decodes from the token at `ip`, with `room` bytes of output left behind `h`, of which the first `ext` bytes
    stand in an external dictionary.
  */
  function Decode(src: seq<byte>, partial: bool, ext: nat, ip: nat, room: nat, h: seq<byte>): RefResult
    requires ip < |src|
    decreases |src| - ip, 4
  {
    match LitField(src, ip)
    case None => Malformed
    case Some(p) =>
      if Short(src, ip, room) then DecodeShort(src, partial, ext, p.1, src[ip] % 16, p.0, room, h)
      else DecodeLits(src, partial, ext, p.1, src[ip] % 16, p.0, room, h)
  }

  /** Fewer than 15 literals, and both buffers have room for the shortcut. */
  predicate Short(src: seq<byte>, ip: nat, room: nat)
    requires ip < |src|
  {
    src[ip] / 16 < 15 && ip + 1 < |src| - 16 && 32 <= room
  }

  /** A match for the second stage of the shortcut: not too long, not overlapping, not in the external dictionary. */
  predicate Quick(nib: nat, off: nat, ext: nat, n: nat)
  {
    nib < 15 && 8 <= off && off + ext <= n
  }

  /** ... in the shortcut. Its matches may end anywhere in the output. */
  function DecodeShort(src: seq<byte>, partial: bool, ext: nat, ip: nat, nib: nat, llen: nat, room: nat,
      h: seq<byte>): RefResult
    requires llen < 15 && ip + llen + 2 < |src| && 32 <= room
    decreases |src| - ip, 3
  {
    var off, h1 := ReadOffset(src, ip + llen), h + src[ip..ip + llen];
    if Quick(nib, off, ext, |h1|)
    then Decode(src, partial, ext, ip + llen + 2, room - llen - (nib + MINMATCH), CopyMatch(h1, off, nib + MINMATCH))
    else DecodeMatchLen(src, partial, ext, ip + llen + 2, nib, off, room - llen, h1)
  }

  /** ... from `llen` literals, which must be the last ones close to the end of the input, or of the output. */
  function DecodeLits(src: seq<byte>, partial: bool, ext: nat, ip: nat, nib: nat, llen: nat, room: nat,
      h: seq<byte>): RefResult
    requires ip <= |src|
    decreases |src| - ip, 5
  {
    if llen + MFLIMIT > room || ip + llen > |src| - (2 + 1 + LASTLITERALS) then
      if partial then
        if ip + llen > |src| - (2 + 1 + LASTLITERALS) && ip + llen != |src| then Malformed
        else
          var n := Min(llen, room);
          if n == room || ip + n == |src| then Decoded(h + src[ip..ip + n])
          else DecodeOffset(src, partial, ext, ip, nib, llen, room, h)
      else if ip + llen != |src| || llen > room then Malformed
      else Decoded(h + src[ip..ip + llen])
    else DecodeOffset(src, partial, ext, ip, nib, llen, room, h)
  }

  /** ... from `llen` literals with an offset behind them. */
  function DecodeOffset(src: seq<byte>, partial: bool, ext: nat, ip: nat, nib: nat, llen: nat, room: nat,
      h: seq<byte>): RefResult
    requires ip + llen + 2 < |src| && llen <= room
    decreases |src| - ip, 3
  {
    DecodeMatchLen(src, partial, ext, ip + llen + 2, nib, ReadOffset(src, ip + llen), room - llen,
        h + src[ip..ip + llen])
  }

  /** ... from the bytes that extend a match length. */
  function DecodeMatchLen(src: seq<byte>, partial: bool, ext: nat, ip: nat, nib: nat, off: nat, room: nat,
      h: seq<byte>): RefResult
    requires ip < |src|
    decreases |src| - ip, 6
  {
    match MatchField(src, ip, nib)
    case None => Malformed
    case Some(p) => DecodeMatch(src, partial, ext, p.1, off, p.0 + MINMATCH, room, h)
  }

  /** ... from the copy of a match, which must leave LASTLITERALS bytes of room unless decoding may stop anywhere. */
  function DecodeMatch(src: seq<byte>, partial: bool, ext: nat, ip: nat, off: nat, mlen: nat, room: nat,
      h: seq<byte>): RefResult
    requires ip < |src|
    decreases |src| - ip, 5
  {
    if off == 0 then ZeroOffset
    else if off > |h| then Malformed
    else if partial then
      if room <= mlen then Decoded(CopyMatch(h, off, room))
      else Decode(src, partial, ext, ip, room - mlen, CopyMatch(h, off, mlen))
    else if mlen + LASTLITERALS > room then Malformed
    else Decode(src, partial, ext, ip, room - mlen, CopyMatch(h, off, mlen))
  }

  /** The whole call, with `room` bytes of output. */
  function SafeDecode(src: seq<byte>, partial: bool, ext: nat, room: nat, h: seq<byte>): RefResult
  {
    if room == 0 then (if partial || src == [0] then Decoded(h) else Malformed)
    else if src == [] then Malformed
    else Decode(src, partial, ext, 0, room, h)
  }

  /** What a decode that does not fail consists of: the last literals, or one full sequence and a shorter rest. */
  lemma {:induction false} DecodeCases(src: seq<byte>, partial: bool, ext: nat, ip: nat, room: nat, h: seq<byte>)
      returns (last: bool, lp: nat, llen: nat, off: nat, mlen: nat, q: nat)
    requires ip < |src| && Decode(src, partial, ext, ip, room, h) != Malformed
    ensures LitField(src, ip) == Some((llen, lp)) && lp + llen <= |src|
    ensures last ==>
              && (lp + llen == |src| || (partial && room <= llen)) && (llen <= room || partial)
              && Decode(src, partial, ext, ip, room, h) == Decoded(h + src[lp..lp + Min(llen, room)])
    ensures !last ==>
              && lp + llen + 2 < |src| && llen <= room && off == ReadOffset(src, lp + llen) && off <= |h| + llen
              && MatchField(src, lp + llen + 2, src[ip] % 16) == Some((mlen - MINMATCH, q))
              && MINMATCH <= mlen && ip < q < |src|
              && Matched(src, partial, ext, q, off, mlen, room - llen, h + src[lp..lp + llen],
                 Decode(src, partial, ext, ip, room, h))
  {
    hide LitField, MatchField, CopyMatch, ReadOffset, DecodeMatch, Matched;
    var nib := src[ip] % 16;
    var l := LitField(src, ip).value;
    llen, lp := l.0, l.1;
    off, mlen, q := 0, 0, 0;
    LitFieldNibble(src, ip);
    var tight := llen + MFLIMIT > room || lp + llen > |src| - (2 + 1 + LASTLITERALS);
    last := !Short(src, ip, room) && tight && (!partial || room <= llen || lp + llen == |src|);
    if Short(src, ip, room) {
      off, mlen, q := ShortCases(src, partial, ext, lp, nib, llen, room, h);
    } else {
      assert Decode(src, partial, ext, ip, room, h) == DecodeLits(src, partial, ext, lp, nib, llen, room, h);
      if !last {
        assert Decode(src, partial, ext, ip, room, h) == DecodeOffset(src, partial, ext, lp, nib, llen, room, h);
        off, mlen, q := OffsetCases(src, partial, ext, lp, nib, llen, room, h);
      }
    }
  }

  /** A decode at a match: all of it is copied and decoding goes on, or as much as there is room for. */
  predicate Matched(src: seq<byte>, partial: bool, ext: nat, q: nat, off: nat, mlen: nat, room: nat, h: seq<byte>,
      r: RefResult)
    requires q < |src| && off <= |h|
  {
    if off == 0 then r == ZeroOffset
    else
      || (mlen <= room && r == Decode(src, partial, ext, q, room - mlen, CopyMatch(h, off, mlen)))
      || (partial && room <= mlen && r == Decoded(CopyMatch(h, off, room)))
  }

  lemma {:induction false} ShortCases(src: seq<byte>, partial: bool, ext: nat, lp: nat, nib: nat, llen: nat, room: nat,
      h: seq<byte>)
      returns (off: nat, mlen: nat, q: nat)
    requires llen < 15 && lp + llen + 2 < |src| && 32 <= room
    requires DecodeShort(src, partial, ext, lp, nib, llen, room, h) != Malformed
    ensures off == ReadOffset(src, lp + llen) && off <= |h| + llen && MINMATCH <= mlen
    ensures MatchField(src, lp + llen + 2, nib) == Some((mlen - MINMATCH, q)) && lp + llen + 2 <= q < |src|
    ensures Matched(src, partial, ext, q, off, mlen, room - llen, h + src[lp..lp + llen],
                    DecodeShort(src, partial, ext, lp, nib, llen, room, h))
  {
    hide CopyMatch, ReadOffset;
    off := ReadOffset(src, lp + llen);
    var h1 := h + src[lp..lp + llen];
    if Quick(nib, off, ext, |h1|) {
      mlen, q := nib + MINMATCH, lp + llen + 2;
    } else {
      assert DecodeShort(src, partial, ext, lp, nib, llen, room, h)
          == DecodeMatchLen(src, partial, ext, lp + llen + 2, nib, off, room - llen, h1);
      mlen, q := MatchLenCases(src, partial, ext, lp + llen + 2, nib, off, room - llen, h1);
    }
  }

  lemma {:induction false} OffsetCases(src: seq<byte>, partial: bool, ext: nat, lp: nat, nib: nat, llen: nat,
      room: nat, h: seq<byte>)
      returns (off: nat, mlen: nat, q: nat)
    requires lp + llen + 2 < |src| && llen <= room
    requires DecodeOffset(src, partial, ext, lp, nib, llen, room, h) != Malformed
    ensures off == ReadOffset(src, lp + llen) && off <= |h| + llen && MINMATCH <= mlen
    ensures MatchField(src, lp + llen + 2, nib) == Some((mlen - MINMATCH, q)) && lp + llen + 2 <= q < |src|
    ensures Matched(src, partial, ext, q, off, mlen, room - llen, h + src[lp..lp + llen],
                    DecodeOffset(src, partial, ext, lp, nib, llen, room, h))
  {
    hide CopyMatch, ReadOffset, MatchField, DecodeMatch, Matched;
    off := ReadOffset(src, lp + llen);
    var h1 := h + src[lp..lp + llen];
    assert DecodeOffset(src, partial, ext, lp, nib, llen, room, h)
        == DecodeMatchLen(src, partial, ext, lp + llen + 2, nib, off, room - llen, h1);
    mlen, q := MatchLenCases(src, partial, ext, lp + llen + 2, nib, off, room - llen, h1);
  }

  lemma {:induction false} MatchLenCases(src: seq<byte>, partial: bool, ext: nat, ip: nat, nib: nat, off: nat,
      room: nat, h: seq<byte>)
      returns (mlen: nat, q: nat)
    requires ip < |src| && DecodeMatchLen(src, partial, ext, ip, nib, off, room, h) != Malformed
    ensures off <= |h| && MINMATCH <= mlen
    ensures MatchField(src, ip, nib) == Some((mlen - MINMATCH, q)) && ip <= q < |src|
    ensures Matched(src, partial, ext, q, off, mlen, room, h, DecodeMatchLen(src, partial, ext, ip, nib, off, room, h))
  {
    hide MatchField, CopyMatch;
    var m := MatchField(src, ip, nib).value;
    mlen, q := m.0 + MINMATCH, m.1;
    assert DecodeMatchLen(src, partial, ext, ip, nib, off, room, h)
             == DecodeMatch(src, partial, ext, q, off, mlen, room, h);
    MatchNeedsOffset(src, partial, ext, q, off, mlen, room, h);
  }

  lemma {:induction false} LitFieldNibble(src: seq<byte>, ip: nat)
    requires ip < |src|
    ensures src[ip] / 16 < 15 ==> LitField(src, ip) == Some((src[ip] / 16, ip + 1))
  {
  }

  lemma {:induction false} MatchNeedsOffset(src: seq<byte>, partial: bool, ext: nat, ip: nat, off: nat, mlen: nat,
      room: nat, h: seq<byte>)
    requires ip < |src| && DecodeMatch(src, partial, ext, ip, off, mlen, room, h) != Malformed
    ensures off <= |h|
  {
  }

  // ---------------------------------------------------------------- where the shortcut is more lenient

  /**
    A sequence whose match ends in the last LASTLITERALS bytes of the output, or behind them, is accepted exactly if
    the shortcut copies it and the rest is accepted.
  */
  lemma {:induction false} LateMatch(src: seq<byte>, ext: nat, ip: nat, room: nat, h: seq<byte>, lp: nat, llen: nat,
      off: nat, mlen: nat, q: nat)
    requires ip < |src| && LitField(src, ip) == Some((llen, lp)) && lp + llen + 2 < |src|
             && off == ReadOffset(src, lp + llen)
    requires 1 <= off <= |h| + llen
    requires MINMATCH <= mlen && MatchField(src, lp + llen + 2, src[ip] % 16) == Some((mlen - MINMATCH, q))
    requires room < llen + mlen + LASTLITERALS
    ensures Decode(src, false, ext, ip, room, h).Decoded? <==>
              && Short(src, ip, room) && Quick(src[ip] % 16, off, ext, |h| + llen)
              && Decode(src, false, ext, q, room - llen - mlen, CopyMatch(h + src[lp..lp + llen], off, mlen)).Decoded?
  {
    hide CopyMatch, ReadOffset, Quick;
    var nib := src[ip] % 16;
    var h1 := h + src[lp..lp + llen];
    LitFieldNibble(src, ip);
    if llen <= room {
      assert DecodeMatchLen(src, false, ext, lp + llen + 2, nib, off, room - llen, h1)
          == DecodeMatch(src, false, ext, q, off, mlen, room - llen, h1) == Malformed;
    }
    if Short(src, ip, room) {
      assert Decode(src, false, ext, ip, room, h) == DecodeShort(src, false, ext, lp, nib, llen, room, h);
      QuickSize(nib, off, ext, |h1|);
    } else {
      assert Decode(src, false, ext, ip, room, h) == DecodeLits(src, false, ext, lp, nib, llen, room, h);
      if llen + MFLIMIT <= room && lp + llen <= |src| - (2 + 1 + LASTLITERALS) {
        assert DecodeLits(src, false, ext, lp, nib, llen, room, h)
            == DecodeOffset(src, false, ext, lp, nib, llen, room, h);
      }
    }
  }

  lemma {:induction false} QuickSize(nib: nat, off: nat, ext: nat, n: nat)
    ensures Quick(nib, off, ext, n) ==> nib < 15
  {
  }

  /** Fourteen literals, a match of eighteen bytes that fills an output of 32, and no last literals. */
  function LateBlock(off: byte): seq<byte>
  {
    [0xEE] + seq(14, i => 0) + [off, 0, 0]
  }

  /** Whether it is accepted depends on the distance of the match. */
  lemma {:induction false} LateBlockAccepted(off: byte)
    requires 1 <= off <= 14
    ensures SafeDecode(LateBlock(off), false, 0, 32, []).Decoded? <==> 8 <= off
  {
    hide CopyMatch;
    var src := LateBlock(off);
    assert src[15] == off && src[16] == src[17] == 0;
    var h := CopyMatch([] + src[1..15], off, 18);
    assert Decode(src, false, 0, 17, 0, h) == DecodeLits(src, false, 0, 18, 0, 0, 0, h);
    LateMatch(src, 0, 0, 32, [], 1, 14, off, 18, 17);
  }

  // ---------------------------------------------------------------- blocks without content

  lemma {:induction false} DecodeGrows(src: seq<byte>, partial: bool, ext: nat, ip: nat, room: nat, h: seq<byte>)
    requires ip < |src| && Decode(src, partial, ext, ip, room, h).Decoded?
    ensures |h| <= |Decode(src, partial, ext, ip, room, h).out|
    decreases |src| - ip
  {
    hide Decode, CopyMatch, LitField, MatchField, ReadOffset;
    var last, lp, llen, off, mlen, q := DecodeCases(src, partial, ext, ip, room, h);
    if !last && mlen <= room - llen
       && Decode(src, partial, ext, ip, room, h)
          == Decode(src, partial, ext, q, room - llen - mlen, CopyMatch(h + src[lp..lp + llen], off, mlen)) {
      DecodeGrows(src, partial, ext, q, room - llen - mlen, CopyMatch(h + src[lp..lp + llen], off, mlen));
    }
  }

  /** What decodes to nothing: one byte that announces no literals, but in an empty buffer only the zero byte. */
  lemma {:induction false} NoContent(src: seq<byte>, ext: nat, room: nat, h: seq<byte>)
    ensures SafeDecode(src, false, ext, room, h) == Decoded(h) <==>
              if room == 0 then src == [0] else |src| == 1 && src[0] < 16
  {
    hide Decode, CopyMatch, MatchField, ReadOffset;
    if room > 0 && src != [] {
      if |src| == 1 && src[0] < 16 {
        DecodeLast(src, false, ext, 0, room, h, 1, 0);
        assert h + src[1..1] == h;
      } else if Decode(src, false, ext, 0, room, h) == Decoded(h) {
        var last, lp, llen, off, mlen, q := DecodeCases(src, false, ext, 0, room, h);
        if !last && off != 0 {
          DecodeGrows(src, false, ext, q, room - llen - mlen, CopyMatch(h + src[lp..lp + llen], off, mlen));
        }
      }
    }
  }

  /** So the block of one byte 5 is rejected in an empty buffer and decodes to nothing in any other. */
  lemma {:induction false} EmptyBufferIsStricter(ext: nat, room: nat, h: seq<byte>)
    ensures SafeDecode([5], false, ext, room, h) == if room == 0 then Malformed else Decoded(h)
  {
    NoContent([5], ext, room, h);
  }

  // ---------------------------------------------------------------- when it is the reference decoder

  /** So many bytes of 255 add up to one less than what is lost. */
  const LONGEST: nat := 16843009

  /** The size from which an input can hold a length that does not fit into 32 bits, and be accepted. */
  function SafeSize(h: seq<byte>): nat
  {
    LONGEST + 9 + (if h == [] then 1 else 0)
  }

  /** The content from which a block can hold such a length. */
  function SafeTotal(h: seq<byte>): nat
  {
    WRAP32 + 24 + (if h == [] then 1 else 0)
  }

  lemma {:induction false} RunIsExt(src: seq<byte>, ip: nat, lencheck: int)
    requires ip < |src| && lencheck <= |src|
    ensures var r := RunLength(src, ip, lencheck);
            ReadExt(src, ip) == Some((r.sum, r.next)) || (!r.ok && 255 <= r.sum)
    decreases |src| - ip
  {
    if ip + 1 < lencheck && src[ip] == 255 {
      RunIsExt(src, ip + 1, lencheck);
    }
  }

  lemma {:induction false} ExtIsRun(src: seq<byte>, ip: nat, lencheck: int)
    requires ip < |src| && lencheck <= |src| && ReadExt(src, ip).Some? && ReadExt(src, ip).value.1 <= lencheck
    ensures var r := RunLength(src, ip, lencheck);
            ReadExt(src, ip) == Some((r.sum, r.next))
    decreases |src| - ip
  {
    if src[ip] == 255 {
      ExtIsRun(src, ip + 1, lencheck);
    }
  }

  lemma {:induction false} LitFieldSound(src: seq<byte>, ip: nat, llen: nat, lp: nat)
    requires ip < |src| && |src| - ip < LONGEST + 10
    requires LitField(src, ip) == Some((llen, lp)) && lp + llen <= |src|
    ensures ReadLength(src, ip + 1, src[ip] / 16) == Some((llen, lp))
  {
    if src[ip] / 16 == 15 {
      RunIsExt(src, ip + 1, |src| - RUN_MASK);
    }
  }

  lemma {:induction false} MatchFieldSound(src: seq<byte>, ip: nat, nib: nat, code: nat, q: nat)
    requires ip < |src| && |src| - ip <= LONGEST + 5 && nib <= 15
    requires MatchField(src, ip, nib) == Some((code, q))
    ensures ReadLength(src, ip, nib) == Some((code, q))
  {
    if nib == 15 {
      RunIsExt(src, ip, |src| - LASTLITERALS + 1);
    }
  }

  lemma {:induction false} LitFieldComplete(src: seq<byte>, ip: nat, llen: nat, lp: nat)
    requires ip < |src| <= INT_MAX
    requires ReadLength(src, ip + 1, src[ip] / 16) == Some((llen, lp)) && lp + llen <= |src|
    ensures LitField(src, ip) == Some((llen, lp))
  {
    if src[ip] / 16 == 15 {
      ExtIsRun(src, ip + 1, |src| - RUN_MASK);
    }
  }

  lemma {:induction false} MatchFieldComplete(src: seq<byte>, ip: nat, nib: nat, code: nat, q: nat)
    requires ip < |src| && nib <= 15 && q + LASTLITERALS <= |src|
    requires ReadLength(src, ip, nib) == Some((code, q)) && (nib == 15 ==> code - 15 < WRAP32)
    ensures MatchField(src, ip, nib) == Some((code, q))
  {
    if nib == 15 {
      ExtIsRun(src, ip, |src| - LASTLITERALS + 1);
    }
  }

  /** A decode of `lim` bytes at most, history included, is the reference's: all of it, or a prefix of it. */
  predicate Agrees(partial: bool, lim: nat, out: seq<byte>, ref: RefResult)
  {
    if partial then ref.Decoded? ==> out == ref.out[..Min(lim, |ref.out|)] else ref == Decoded(out)
  }

  lemma {:induction false} LiteralsExtend(src: seq<byte>, ip: nat, nib: nat, llen: nat, h: seq<byte>)
    requires ip <= |src| && RestLits(src, ip, nib, llen, h).Decoded?
    ensures ip + llen <= |src| && h + src[ip..ip + llen] <= RestLits(src, ip, nib, llen, h).out
    ensures ip + llen == |src| ==> h + src[ip..ip + llen] == RestLits(src, ip, nib, llen, h).out
  {
    if ip + llen != |src| {
      var q := ip + llen + 2;
      var h1 := h + src[ip..ip + llen];
      var off := ReadOffset(src, ip + llen);
      var p := ReadLength(src, q, nib).value;
      assert RestMatchLen(src, q, nib, off, h1) == RestMatch(src, p.1, off, p.0 + MINMATCH, h1);
      RestExtends(src, p.1, CopyMatch(h1, off, p.0 + MINMATCH));
    }
  }

  lemma {:induction false} LastAgrees(src: seq<byte>, partial: bool, ip: nat, room: nat, h: seq<byte>, lp: nat,
      llen: nat)
    requires ip < |src| && ReadLength(src, ip + 1, src[ip] / 16) == Some((llen, lp)) && lp + llen <= |src|
    requires (lp + llen == |src| || (partial && room <= llen)) && (llen <= room || partial)
    ensures Agrees(partial, |h| + room, h + src[lp..lp + Min(llen, room)], Rest(src, ip, h))
  {
    hide RestMatchLen;
    var ref := RestLits(src, lp, src[ip] % 16, llen, h);
    assert Rest(src, ip, h) == ref;
    if ref.Decoded? {
      LiteralsExtend(src, lp, src[ip] % 16, llen, h);
      assert h + src[lp..lp + Min(llen, room)] <= h + src[lp..lp + llen];
    }
  }

  lemma {:induction false} CutAgrees(src: seq<byte>, q: nat, room: nat, h: seq<byte>, off: nat, mlen: nat)
    requires q <= |src| && 1 <= off <= |h| && room <= mlen
    ensures Agrees(true, |h| + room, CopyMatch(h, off, room), Rest(src, q, CopyMatch(h, off, mlen)))
  {
    hide Rest, CopyMatch;
    if Rest(src, q, CopyMatch(h, off, mlen)).Decoded? {
      RestExtends(src, q, CopyMatch(h, off, mlen));
      CopyMatchSplit(h, off, room, mlen);
    }
  }

  lemma {:induction false} RestZero(src: seq<byte>, ip: nat, h: seq<byte>, lp: nat, llen: nat, code: nat, q: nat)
    requires ip < |src| && ReadLength(src, ip + 1, src[ip] / 16) == Some((llen, lp))
    requires lp + llen + 2 <= |src| && ReadOffset(src, lp + llen) == 0
    requires ReadLength(src, lp + llen + 2, src[ip] % 16) == Some((code, q))
    ensures Rest(src, ip, h) == ZeroOffset
  {
    hide CopyMatch, ReadLength, ReadOffset;
    var h1 := h + src[lp..lp + llen];
    assert RestLits(src, lp, src[ip] % 16, llen, h) == RestMatchLen(src, lp + llen + 2, src[ip] % 16, 0, h1);
    assert RestMatchLen(src, lp + llen + 2, src[ip] % 16, 0, h1) == RestMatch(src, q, 0, code + MINMATCH, h1);
  }

  /** A run that ends in time is a length for the reference too, whatever it adds up to. */
  lemma {:induction false} MatchFieldParses(src: seq<byte>, ip: nat, nib: nat)
    requires ip < |src| && nib <= 15 && MatchField(src, ip, nib).Some?
    ensures ReadLength(src, ip, nib).Some?
  {
    if nib == 15 {
      RunIsExt(src, ip, |src| - LASTLITERALS + 1);
    }
  }

  /** Below the size limit whatever is accepted is decoded as the format means it. */
  lemma {:induction false} Sound(src: seq<byte>, partial: bool, ext: nat, ip: nat, room: nat, h: seq<byte>)
    requires ip < |src| && |src| - ip < SafeSize(h) && Decode(src, partial, ext, ip, room, h) != Malformed
    ensures var r := Decode(src, partial, ext, ip, room, h);
            && (r.Decoded? ==> Agrees(partial, |h| + room, r.out, Rest(src, ip, h)))
            && (r == ZeroOffset ==> Rest(src, ip, h) == ZeroOffset)
    decreases |src| - ip
  {
    hide Decode, Rest, CopyMatch, LitField, MatchField, ReadLength, ReadOffset, Agrees;
    var last, lp, llen, off, mlen, q := DecodeCases(src, partial, ext, ip, room, h);
    LitFieldSound(src, ip, llen, lp);
    if last {
      LastAgrees(src, partial, ip, room, h, lp, llen);
    } else if off == 0 {
      MatchFieldParses(src, lp + llen + 2, src[ip] % 16);
      var p := ReadLength(src, lp + llen + 2, src[ip] % 16).value;
      RestZero(src, ip, h, lp, llen, p.0, p.1);
    } else {
      var h1 := h + src[lp..lp + llen];
      MatchFieldSound(src, lp + llen + 2, src[ip] % 16, mlen - MINMATCH, q);
      RestSequence(src, ip, h, lp, llen, off, mlen, q);
      if llen + mlen <= room
         && Decode(src, partial, ext, ip, room, h)
            == Decode(src, partial, ext, q, room - llen - mlen, CopyMatch(h1, off, mlen)) {
        Sound(src, partial, ext, q, room - llen - mlen, CopyMatch(h1, off, mlen));
      } else {
        CutAgrees(src, q, room - llen, h1, off, mlen);
      }
    }
  }

  lemma {:induction false} MatchCases(src: seq<byte>, partial: bool, ext: nat, ip: nat, off: nat, mlen: nat, room: nat,
      h: seq<byte>)
    requires ip < |src| && 1 <= off <= |h|
    ensures DecodeMatch(src, partial, ext, ip, off, mlen, room, h)
         == if partial && room <= mlen then Decoded(CopyMatch(h, off, room))
            else if !partial && mlen + LASTLITERALS > room then Malformed
            else Decode(src, partial, ext, ip, room - mlen, CopyMatch(h, off, mlen))
  {
  }

  /** LZ4_decompress_safe and LZ4_decompress_safe_partial are the reference decoder on inputs below the size limit. */
  lemma {:induction false} SafeIsReference(src: seq<byte>, partial: bool, ext: nat, room: nat, h: seq<byte>)
    requires |src| < SafeSize(h) && SafeDecode(src, partial, ext, room, h) != Malformed
    ensures var r := SafeDecode(src, partial, ext, room, h);
            && (r.Decoded? ==> Agrees(partial, |h| + room, r.out, Rest(src, 0, h)))
            && (r == ZeroOffset ==> Rest(src, 0, h) == ZeroOffset)
  {
    hide Rest, Decode;
    if room == 0 {
      if Rest(src, 0, h).Decoded? {
        RestExtends(src, 0, h);
      }
      if src == [0] {
        OneZeroByte(h);
      }
    } else {
      Sound(src, partial, ext, 0, room, h);
    }
  }

  lemma {:induction false} OneZeroByte(h: seq<byte>)
    ensures Rest([0], 0, h) == Decoded(h)
  {
    var src: seq<byte> := [0];
    assert ReadLength(src, 1, 0) == Some((0, 1));
    RestLast(src, 0, h, 1, 0);
    assert h + src[1..] == h;
  }

  // ---------------------------------------------------------------- well-formed blocks

  /** No length of the block needs more than 32 bits: its output is small enough, or it is itself. */
  predicate LengthsFit(partial: bool, size: nat, left: nat, h: seq<byte>)
  {
    partial ==> left < SafeTotal(h) || size < SafeSize(h)
  }

  lemma {:induction false} ConformingParts(src: seq<byte>, ip: nat, left: int, lp: nat, llen: nat, off: nat, mlen: nat,
      q: nat)
    requires ParsesAt(src, ip, lp, llen, off, mlen, q) && Conforming(src, ip, left)
    ensures llen + MFLIMIT <= left && llen + mlen + LASTLITERALS <= left
    ensures Conforming(src, q, left - llen - mlen) && q + 1 + LASTLITERALS <= |src|
  {
    assert ConformingLits(src, lp, src[ip] % 16, llen, left);
    assert ConformingMatchLen(src, lp + llen + 2, src[ip] % 16, left - llen);
    assert ConformingMatch(src, q, mlen, left - llen);
    ConformingInputLeft(src, q, left - llen - mlen);
  }

  lemma {:induction false} ConformingLast(src: seq<byte>, ip: nat, left: int, lp: nat, llen: nat)
    requires ip < |src| && ReadLength(src, ip + 1, src[ip] / 16) == Some((llen, lp)) && lp + llen == |src|
    requires Conforming(src, ip, left)
    ensures llen == left
  {
    assert ConformingLits(src, lp, src[ip] % 16, llen, left);
  }

  lemma {:induction false} DecodeLast(src: seq<byte>, partial: bool, ext: nat, ip: nat, room: nat, h: seq<byte>,
      lp: nat, llen: nat)
    requires ip < |src| && LitField(src, ip) == Some((llen, lp)) && lp + llen == |src| && (partial || llen <= room)
    ensures Decode(src, partial, ext, ip, room, h) == Decoded(h + src[lp..lp + Min(llen, room)])
  {
    hide DecodeOffset, DecodeShort;
    LitFieldNibble(src, ip);
    assert Decode(src, partial, ext, ip, room, h) == DecodeLits(src, partial, ext, lp, src[ip] % 16, llen, room, h);
  }

  lemma {:induction false} DecodeFull(src: seq<byte>, ext: nat, ip: nat, room: nat, h: seq<byte>, lp: nat, llen: nat)
    requires ip < |src| && LitField(src, ip) == Some((llen, lp)) && lp + llen + 2 + 1 + LASTLITERALS <= |src|
             && room <= llen
    ensures Decode(src, true, ext, ip, room, h) == Decoded(h + src[lp..lp + room])
  {
    hide DecodeOffset, DecodeShort;
    LitFieldNibble(src, ip);
    assert Decode(src, true, ext, ip, room, h) == DecodeLits(src, true, ext, lp, src[ip] % 16, llen, room, h);
  }

  /** A sequence that is neither too long for the output nor too close to the end of the input. */
  lemma {:induction false} DecodeSequence(src: seq<byte>, partial: bool, ext: nat, ip: nat, room: nat, h: seq<byte>,
                                          lp: nat, llen: nat, off: nat, mlen: nat, q: nat)
    requires ip < |src| && LitField(src, ip) == Some((llen, lp)) && lp + llen + 2 < |src|
             && off == ReadOffset(src, lp + llen)
    requires 1 <= off <= |h| + llen
    requires MINMATCH <= mlen && MatchField(src, lp + llen + 2, src[ip] % 16) == Some((mlen - MINMATCH, q))
    requires if partial then llen < room else llen + MFLIMIT <= room && llen + mlen + LASTLITERALS <= room
    requires lp + llen + 2 + 1 + LASTLITERALS <= |src|
    ensures Matched(src, partial, ext, q, off, mlen, room - llen, h + src[lp..lp + llen],
              Decode(src, partial, ext, ip, room, h))
  {
    hide LitField, CopyMatch, ReadOffset;
    var nib := src[ip] % 16;
    var h1 := h + src[lp..lp + llen];
    LitFieldNibble(src, ip);
    MatchCases(src, partial, ext, q, off, mlen, room - llen, h1);
    assert DecodeMatchLen(src, partial, ext, lp + llen + 2, nib, off, room - llen, h1)
        == DecodeMatch(src, partial, ext, q, off, mlen, room - llen, h1);
    if Short(src, ip, room) {
      assert Decode(src, partial, ext, ip, room, h) == DecodeShort(src, partial, ext, lp, nib, llen, room, h);
    } else {
      assert Decode(src, partial, ext, ip, room, h) == DecodeLits(src, partial, ext, lp, nib, llen, room, h);
      assert Decode(src, partial, ext, ip, room, h) == DecodeOffset(src, partial, ext, lp, nib, llen, room, h);
    }
  }

  /** The code of a match that the reference reads, as it is read here. */
  lemma {:induction false} CodeFits(src: seq<byte>, ip: nat, left: nat, h: seq<byte>, partial: bool, room: nat,
                                    lp: nat, llen: nat, off: nat, mlen: nat, q: nat)
    requires ParsesAt(src, ip, lp, llen, off, mlen, q) && Conforming(src, ip, left) && 1 <= off <= |h| + llen
    requires (if partial then LengthsFit(true, |src| - ip, left, h) else left <= room) && room <= INT_MAX
    ensures ip < lp && lp + llen + 2 <= q < |src|
    ensures MatchField(src, lp + llen + 2, src[ip] % 16) == Some((mlen - MINMATCH, q))
  {
    hide Conforming, MatchField;
    ConformingParts(src, ip, left, lp, llen, off, mlen, q);
    LitStart(src, ip, lp, llen);
    if src[ip] % 16 == 15 {
      var p := ReadExt(src, lp + llen + 2).value;
      assert p.0 <= 255 * (q - (lp + llen + 2));
      assert mlen == 15 + p.0 + MINMATCH;
      if |src| - ip < SafeSize(h) {
        assert q - (lp + llen + 2) <= LONGEST;
      }
    }
    MatchFieldComplete(src, lp + llen + 2, src[ip] % 16, mlen - MINMATCH, q);
  }

  lemma {:induction false} LitStart(src: seq<byte>, ip: nat, lp: nat, llen: nat)
    requires ip < |src| && ReadLength(src, ip + 1, src[ip] / 16) == Some((llen, lp))
    ensures ip < lp
  {
  }

  function Cut(out: seq<byte>, lim: nat): seq<byte>
  {
    out[..Min(lim, |out|)]
  }

  /**
    A well-formed block is accepted and decoded: whole if it fits, and otherwise, partially, up to the room there is.
  */
  lemma {:induction false} Complete(src: seq<byte>, partial: bool, ext: nat, ip: nat, room: nat, h: seq<byte>,
      left: nat)
    requires ip < |src| <= INT_MAX && room <= INT_MAX
    requires Rest(src, ip, h).Decoded? && |Rest(src, ip, h).out| == |h| + left && Conforming(src, ip, left)
    requires if partial then LengthsFit(true, |src| - ip, left, h) else left <= room
    ensures Decode(src, partial, ext, ip, room, h) == Decoded(Cut(Rest(src, ip, h).out, |h| + room))
    decreases |src| - ip
  {
    hide Decode, DecodeMatch, Rest, CopyMatch, LitField, MatchField, ReadLength, ReadOffset, Conforming, Cut;
    var last, lp, llen, off, mlen, q := RestCases(src, ip, h);
    if last {
      RestLast(src, ip, h, lp, llen);
      ConformingLast(src, ip, left, lp, llen);
      LitFieldComplete(src, ip, llen, lp);
      DecodeLast(src, partial, ext, ip, room, h, lp, llen);
      CutLast(h, src, lp, llen, room);
    } else {
      var h1 := h + src[lp..lp + llen];
      ConformingParts(src, ip, left, lp, llen, off, mlen, q);
      CodeFits(src, ip, left, h, partial, room, lp, llen, off, mlen, q);
      LitFieldComplete(src, ip, llen, lp);
      RestSequence(src, ip, h, lp, llen, off, mlen, q);
      RestExtends(src, q, CopyMatch(h1, off, mlen));
      if partial && room <= llen {
        DecodeFull(src, ext, ip, room, h, lp, llen);
        PrefixCut(h + src[lp..lp + room], h1, Rest(src, ip, h).out);
      } else {
        DecodeSequence(src, partial, ext, ip, room, h, lp, llen, off, mlen, q);
        if llen + mlen <= room {
          Complete(src, partial, ext, q, room - llen - mlen, CopyMatch(h1, off, mlen), left - llen - mlen);
        }
        if room <= llen + mlen {
          CopyMatchSplit(h1, off, room - llen, mlen);
          PrefixCut(CopyMatch(h1, off, room - llen), CopyMatch(h1, off, mlen), Rest(src, ip, h).out);
        }
      }
    }
  }

  lemma {:induction false} CutLast(h: seq<byte>, src: seq<byte>, lp: nat, llen: nat, room: nat)
    requires lp + llen == |src|
    ensures Cut(h + src[lp..], |h| + room) == h + src[lp..lp + Min(llen, room)]
  {
  }

  lemma {:induction false} PrefixCut(a: seq<byte>, b: seq<byte>, out: seq<byte>)
    requires a <= b <= out
    ensures a == Cut(out, |a|)
  {
  }

  /** Every well-formed block that fits is decoded, and every target up to the full size is reached. */
  lemma {:induction false} WellFormedDecodes(src: seq<byte>, partial: bool, ext: nat, room: nat, h: seq<byte>,
      total: nat)
    requires |src| <= INT_MAX && room <= INT_MAX
    requires Rest(src, 0, h).Decoded? && |Rest(src, 0, h).out| == |h| + total && WellFormed(src, total)
    requires if partial then LengthsFit(true, |src|, total, h) else total <= room && (0 < room || src == [0])
    ensures SafeDecode(src, partial, ext, room, h) == Decoded(Cut(Rest(src, 0, h).out, |h| + room))
  {
    hide Decode, Rest, Conforming;
    RestExtends(src, 0, h);
    if room == 0 {
      assert Rest(src, 0, h).out[..|h|] == h;
    } else {
      ConformingNotEmpty(src, total);
      Complete(src, partial, ext, 0, room, h, total);
    }
  }

  lemma {:induction false} ConformingNotEmpty(src: seq<byte>, total: nat)
    requires WellFormed(src, total)
    ensures src != []
  {
  }

  // ---------------------------------------------------------------- where the limits are exact

  /** As many literals as fit into `m` bytes together with their length field; at most one byte is left. */
  function Fill(m: nat): (b: nat)
    requires 1 <= m
    ensures LitSize(b) == m || LitSize(b) == m - 1
    ensures b < m < LitSize(b + 1)
  {
    if m == 1 then 0
    else
      var b := Fill(m - 1);
      if LitSize(b + 1) <= m then b + 1 else b
  }

  /** `a` literals, a match at offset 1 whose length takes 2^32 in its extension, and `b` last literals. */
  function LongMatch(a: nat): Sequence
  {
    Sequence(seq(a, i => 0), 1, 15 + WRAP32 + MINMATCH)
  }

  function LongBlock(a: nat, b: nat): seq<byte>
  {
    EncodeSeq(LongMatch(a)) + LitPart(seq(b, i => 0), 0)
  }

  lemma {:induction false} LongBlockSize(a: nat, b: nat)
    ensures |LongBlock(a, b)| == LitSize(a) + 2 + (LONGEST + 1) + LitSize(b)
  {
    hide LitPart;
    EncodedSize(LongMatch(a));
    LenExtSize(b);
    LitPartSize(seq(b, i => 0));
  }

  lemma {:induction false} LitPartSize(lits: seq<byte>)
    ensures |LitPart(lits, 0)| == LitSize(|lits|)
  {
    LenExtSize(|lits|);
  }

  /** What the format says the block means: more than 2^32 bytes. */
  lemma {:induction false} LongBlockMeans(a: nat, b: nat, h: seq<byte>)
    requires 1 <= |h| + a
    ensures var ref := Rest(LongBlock(a, b), 0, h);
            ref.Decoded? && |ref.out| == |h| + a + 15 + WRAP32 + MINMATCH + b
    ensures LASTLITERALS <= b ==> WellFormed(LongBlock(a, b), a + 15 + WRAP32 + MINMATCH + b)
  {
    hide Rest, LitPart, Conforming, CopyMatch, EncodeSeq, Embedded;
    var s, last: seq<byte> := LongMatch(a), seq(b, i => 0);
    var src := LongBlock(a, b);
    var ip := |EncodeSeq(s)|;
    EmbeddedWhole(src);
    EmbeddedParts(src, 0, EncodeSeq(s), LitPart(last, 0));
    OneDecodes(src, 0, h, s);
    LastDecodes(src, ip, Apply(h, s), last);
    if LASTLITERALS <= b {
      OneConforms(src, 0, s, b);
    }
  }

  lemma {:induction false} EmbeddedWhole(src: seq<byte>)
    ensures Embedded(src, 0, src)
  {
  }

  /** What is decoded instead: the length of the match has lost 2^32. */
  lemma {:induction false} LongBlockDecodes(a: nat, b: nat, partial: bool, ext: nat, room: nat, h: seq<byte>)
    requires 1 <= |h| + a && a < 15 && 4 <= b && |LongBlock(a, b)| <= INT_MAX && |LongBlock(a, b)| <= room
    ensures var r := SafeDecode(LongBlock(a, b), partial, ext, room, h);
            r.Decoded? && |r.out| == |h| + a + 15 + MINMATCH + b && |r.out| < |h| + room
  {
    hide Decode, DecodeMatch, LitPart, CopyMatch, EncodeSeq, Embedded, LitField, MatchField, ReadLength, ReadOffset;
    var s, last: seq<byte> := LongMatch(a), seq(b, i => 0);
    var src := LongBlock(a, b);
    var lp, q := 1 + ExtSize(a), SeqSize(s);
    LongBlockSize(a, b);
    EncodedSize(s);
    EmbeddedWhole(src);
    EmbeddedParts(src, 0, EncodeSeq(s), LitPart(last, 0));
    EncodedParses(src, 0, s);
    LitFieldComplete(src, 0, a, lp);
    NibbleIs15(src, lp + a + 2, src[0] % 16, q);
    DecodeSequence(src, partial, ext, 0, room, h, lp, a, 1, 15 + MINMATCH, q);
    var h1 := h + src[lp..lp + a];
    var h2 := CopyMatch(h1, 1, 15 + MINMATCH);
    LitPartInverts(src, q, last, 0);
    LitFieldComplete(src, q, b, q + 1 + ExtSize(b));
    DecodeLast(src, partial, ext, q, room - a - 15 - MINMATCH, h2, q + 1 + ExtSize(b), b);
  }

  lemma {:induction false} NibbleIs15(src: seq<byte>, ip: nat, nib: nat, q: nat)
    requires ip < |src| && nib <= 15 && q + LASTLITERALS <= |src|
    requires ReadLength(src, ip, nib) == Some((15 + WRAP32, q))
    ensures MatchField(src, ip, nib) == Some((15, q))
  {
    ExtIsRun(src, ip, |src| - LASTLITERALS + 1);
  }

  /** From the size limit on there is such a block of every size. */
  lemma {:induction false} LongBlockOf(n: nat, h: seq<byte>) returns (a: nat, b: nat)
    requires SafeSize(h) <= n
    ensures 1 <= |h| + a && a < 15 && 4 <= b && |LongBlock(a, b)| == n
  {
    a := if h == [] then 1 else 0;
    var m: nat := n - (LitSize(a) + 2 + (LONGEST + 1));
    b := Fill(m);
    if LitSize(b) != m {
      a := a + 1;
    }
    LongBlockSize(a, b);
  }

  /** Whatever input of this size is accepted is decoded as the format means it. */
  ghost predicate AlwaysReference(partial: bool, ext: nat, n: nat, h: seq<byte>)
  {
    forall src: seq<byte>, room: nat ::
      |src| == n && room <= INT_MAX && SafeDecode(src, partial, ext, room, h).Decoded? ==>
        Agrees(partial, |h| + room, SafeDecode(src, partial, ext, room, h).out, Rest(src, 0, h))
  }

  /** For exactly which sizes that holds, fully or partially decoding. */
  lemma {:induction false} SizeLimitIsExact(partial: bool, ext: nat, n: nat, h: seq<byte>)
    requires n <= INT_MAX
    ensures AlwaysReference(partial, ext, n, h) <==> n < SafeSize(h)
  {
    hide SafeDecode, Rest, LongBlock;
    if n < SafeSize(h) {
      forall src: seq<byte>, room: nat | |src| == n && room <= INT_MAX
          && SafeDecode(src, partial, ext, room, h).Decoded?
        ensures Agrees(partial, |h| + room, SafeDecode(src, partial, ext, room, h).out, Rest(src, 0, h))
      {
        SafeIsReference(src, partial, ext, room, h);
      }
    } else {
      var a, b := LongBlockOf(n, h);
      LongBlockMeans(a, b, h);
      LongBlockDecodes(a, b, partial, ext, n, h);
      assert !Agrees(partial, |h| + n, SafeDecode(LongBlock(a, b), partial, ext, n, h).out,
               Rest(LongBlock(a, b), 0, h));
    }
  }

  /** Every well-formed block of this content is decoded up to every target. */
  ghost predicate AlwaysPartial(ext: nat, total: nat, h: seq<byte>)
  {
    forall src: seq<byte>, room: nat ::
      |src| <= INT_MAX && room <= INT_MAX && WellFormed(src, total)
      && Rest(src, 0, h).Decoded? && |Rest(src, 0, h).out| == |h| + total ==>
        SafeDecode(src, true, ext, room, h) == Decoded(Cut(Rest(src, 0, h).out, |h| + room))
  }

  /** For exactly which contents that holds, of all up to well beyond the limit. */
  lemma {:induction false} TotalLimitIsExact(ext: nat, total: nat, h: seq<byte>)
    requires total <= WRAP32 + GB1
    ensures AlwaysPartial(ext, total, h) <==> total < SafeTotal(h)
  {
    hide SafeDecode, Rest, LongBlock, WellFormed;
    if total < SafeTotal(h) {
      forall src: seq<byte>, room: nat |
        && |src| <= INT_MAX && room <= INT_MAX && WellFormed(src, total)
        && Rest(src, 0, h).Decoded? && |Rest(src, 0, h).out| == |h| + total
        ensures SafeDecode(src, true, ext, room, h) == Decoded(Cut(Rest(src, 0, h).out, |h| + room))
      {
        WellFormedDecodes(src, true, ext, room, h, total);
      }
    } else {
      var a: nat := if h == [] then 1 else 0;
      var b: nat := total - (a + 15 + WRAP32 + MINMATCH);
      var src, n := LongBlock(a, b), |LongBlock(a, b)|;
      LongBlockSize(a, b);
      LongBlockMeans(a, b, h);
      LongBlockDecodes(a, b, true, ext, n, h);
      assert SafeDecode(src, true, ext, n, h) != Decoded(Cut(Rest(src, 0, h).out, |h| + n));
    }
  }
}
