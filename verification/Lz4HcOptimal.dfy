/**
  LZ4HC_compress_optimal: prices, the table of cheapest steps, its reversal in place, and the writing of the
  path. Whatever the prices make of it, the table only ever holds literals and matches that really exist.
*/
module Lz4HcOptimal {
  import opened Lz4Defs
  import opened Lz4Format
  import opened Lz4Encode
  import opened Lz4FastTable
  import opened Lz4HcChain
  import opened Lz4HcMatch
  import opened Lz4HcSearch
  import opened Lz4HcEncode
  import opened Lz4HcPlan
  import opened Lz4HcLazy

  const OPT_NUM: nat := 4096
  const TRAILING_LITERALS: nat := 3

  // ---------------------------------------------------------------- prices

  /** LZ4HC_literalsPrice. */
  function LiteralsPrice(litlen: nat): (price: nat)
  {
    if litlen >= RUN_MASK then litlen + 1 + (litlen - RUN_MASK) / 255 else litlen
  }

  /** LZ4HC_sequencePrice. */
  function SequencePrice(litlen: nat, mlen: nat): (price: nat)
  {
    var price := 1 + 2 + LiteralsPrice(litlen);
    if mlen >= ML_MASK + MINMATCH then price + 1 + (mlen - (ML_MASK + MINMATCH)) / 255 else price
  }

  /** Prices are sizes: what literals take beside the token, and what a whole sequence takes. */
  lemma {:induction false} PriceIsSize(lits: seq<byte>, off: nat, mlen: nat, low: nat)
    requires MINMATCH <= mlen && off <= DISTANCE_MAX && low <= 15
    ensures LiteralsPrice(|lits|) == |LitPart(lits, low)| - 1 == LitSize(|lits|) - 1
    ensures SequencePrice(|lits|, mlen) == |EncodeSeq(Sequence(lits, off, mlen))|
    ensures SequencePrice(|lits|, mlen) == LitSize(|lits|) + 2 + ExtSize(mlen - MINMATCH)
  {
    LenExtSize(|lits|);
    EncodedSize(Sequence(lits, off, mlen));
  }

  // ---------------------------------------------------------------- the table

  /** One cell: the cheapest way known to reach a position, and its last step: a literal or a match. */
  datatype Cell = Cell(price: int, off: int, mlen: int, litlen: int)

  /** The step that starts at `p` bytes behind `ip`. */
  ghost predicate StepOk(k: Call, ip: nat, p: nat, off: int, mlen: int)
    requires k.Valid()
  {
    mlen == 1 || (MINMATCH <= mlen && Good(k, Match(ip + p, ip + p - off, mlen)))
  }

  /** A cell's step ends at its position, and starts no earlier than the table. */
  ghost predicate CellOk(k: Call, ip: nat, c: Cell, p: nat)
    requires k.Valid()
  {
    0 <= c.litlen && (p == 0 ==> c.mlen == 1)
    && (0 < p ==> 1 <= c.mlen <= p && StepOk(k, ip, p - c.mlen, c.off, c.mlen))
  }

  ghost predicate CellsOk(k: Call, ip: nat, o: seq<Cell>, n: int)
    requires k.Valid()
  {
    |o| == OPT_NUM + TRAILING_LITERALS && n <= |o| && forall p :: 0 <= p < n ==> CellOk(k, ip, o[p], p)
  }

  lemma {:induction false} LiteralCell(k: Call, ip: nat, c: Cell, p: nat)
    requires k.Valid() && c.mlen == 1 && 0 <= c.litlen
    ensures CellOk(k, ip, c, p)
  {
  }

  /** A cell for the first `ml` bytes of a match at position `cur`. */
  lemma {:induction false} MatchCell(k: Call, ip: nat, cur: nat, off: int, len: nat, ml: nat, c: Cell)
    requires k.Valid() && Good(k, Match(ip + cur, ip + cur - off, len)) && MINMATCH <= ml <= len
    requires c.mlen == ml && c.off == off && 0 <= c.litlen
    ensures CellOk(k, ip, c, cur + ml)
  {
    hide Repeats;
    GoodFront(k, Match(ip + cur, ip + cur - off, len), ml);
  }

  /** One cell is set. */
  method SetCell(k: Call, ip: nat, opt: array<Cell>, p: nat, c: Cell, ghost n: int)
    requires k.Valid() && CellsOk(k, ip, opt[..], n) && p < opt.Length && CellOk(k, ip, c, p)
    modifies opt
    ensures CellsOk(k, ip, opt[..], n) && (p == n ==> CellsOk(k, ip, opt[..], n + 1))
    ensures opt[p] == c && forall i :: 0 <= i < opt.Length && i != p ==> opt[i] == old(opt[i])
  {
    hide CellOk;
    opt[p] := c;
  }

  // ---------------------------------------------------------------- finding matches

  /** How the parser searches and when it stops looking for something better. */
  datatype Settings = Settings(nbSearches: nat, sufficientLen: nat, fullUpdate: bool, favorDecSpeed: bool)

  /** What LZ4HC_FindLongerMatch finds; where fast decoding is favoured lengths just above 18 are cut to that. */
  function FoundLonger(k: Call, t: Tables, ip: nat, minLen: nat, c: Settings): (r: (nat, int, Tables))
    requires k.Valid() && t.Sized()
    ensures r.2.Sized()
  {
    var q := Query(ip, ip, Max(0, Matchlimit(k)), minLen);
    if !QueryOk(k.s, q) then (0, 0, t)
    else
      var b := Searched(k.s, t, q, Effort(c.nbSearches, true, true, c.favorDecSpeed));
      var t' := Inserted(k.s, t, ip);
      if b.longest <= minLen then (0, 0, t')
      else (if c.favorDecSpeed && 18 < b.longest <= 36 then 18 else b.longest, b.start - b.ref, t')
  }

  /** LZ4HC_FindLongerMatch: length 0 if there is none. */
  method FindLongerMatch(k: Call, t: ChainTables, ip: nat, minLen: nat, c: Settings) returns (len: nat, off: int)
    requires k.Valid() && k.source <= ip <= Mflimit(k) && 1 <= minLen && ip + minLen <= Matchlimit(k)
    requires t.Exact(k.s) && t.nextToUpdate <= ip && k.s.Padded()
    modifies t`nextToUpdate, t.hashTable, t.chainTable
    ensures t.Exact(k.s) && t.nextToUpdate == ip
    ensures len > 0 ==> Good(k, Match(ip, ip - off, len))
    ensures old(t.Value()).Sized() && (len, off, t.Value()) == FoundLonger(k.Bare(), old(t.Value()), ip, minLen, c)
    ensures len == 0 && !c.favorDecSpeed && c.nbSearches > 0 ==>
              NewestBeaten(k.s, Query(ip, ip, Matchlimit(k), minLen), 1, minLen)
  {
    hide Repeats, ChainTables.Exact, Searched, Inserted, NewestBeaten;
    SizedTables(k, t);
    var q := Query(ip, ip, Matchlimit(k), minLen);
    var b := InsertAndGetWiderMatch(k.s, t, q, c.nbSearches, true, true, c.favorDecSpeed);
    if b.longest <= minLen {
      AtLeastMin(k.s, q, b);
      return 0, 0;
    }
    len, off := b.longest, b.start - b.ref;
    if c.favorDecSpeed && 18 < len <= 36 {
      GoodFront(k, Match(ip, ip - off, len), 18);
      len := 18;
    }
  }

  lemma {:induction false} AtLeastMin(s: Space, q: Query, b: Best)
    requires QueryOk(s, q) && BestOk(s, q, b) && b.longest <= q.minLen
    ensures b.longest == q.minLen
  {
  }

  // ---------------------------------------------------------------- setting prices

  /** The cells behind position `last`. */
  function TrailingCells(o: seq<Cell>, last: nat): (r: seq<Cell>)
    requires last < |o|
    ensures |r| == |o|
  {
    seq(|o|, i requires 0 <= i < |o| => if last < i <= last + TRAILING_LITERALS
                                        then Cell(o[last].price + LiteralsPrice(i - last), 0, 1, i - last) else o[i])
  }

  /** The cells for a first match: literals, the steps over its first bytes, and what follows it. */
  function FirstCells(o: seq<Cell>, llen: nat, len: nat, off: int): (r: seq<Cell>)
    ensures |r| == |o|
  {
    seq(|o|, i requires 0 <= i < |o| =>
          if i < MINMATCH then Cell(LiteralsPrice(llen + i), 0, 1, llen + i)
          else if i <= len then Cell(SequencePrice(llen, i), off, i, llen)
          else if i <= len + TRAILING_LITERALS
          then Cell(SequencePrice(llen, len) + LiteralsPrice(i - len), 0, 1, i - len) else o[i])
  }

  /** The positions behind the last match are reached by literals. */
  method SetTrailing(k: Call, ip: nat, opt: array<Cell>, last: nat)
    requires k.Valid() && last < OPT_NUM && CellsOk(k, ip, opt[..], last + 1)
    modifies opt
    ensures CellsOk(k, ip, opt[..], last + TRAILING_LITERALS + 1)
    ensures forall i :: 0 <= i <= last ==> opt[i] == old(opt[i])
    ensures forall i :: last < i <= last + TRAILING_LITERALS ==>
              opt[i] == Cell(old(opt[last].price) + LiteralsPrice(i - last), 0, 1, i - last)
    ensures opt[..] == TrailingCells(old(opt[..]), last)
  {
    hide CellOk, LiteralsPrice;
    var addLit := 1;
    while addLit <= TRAILING_LITERALS
      invariant 1 <= addLit <= TRAILING_LITERALS + 1 && CellsOk(k, ip, opt[..], last + addLit)
      invariant forall i :: (0 <= i <= last || last + addLit <= i < opt.Length) ==> opt[i] == old(opt[i])
      invariant forall i :: last < i < last + addLit ==>
                  opt[i] == Cell(old(opt[last].price) + LiteralsPrice(i - last), 0, 1, i - last)
    {
      var c := Cell(opt[last].price + LiteralsPrice(addLit), 0, 1, addLit);
      LiteralCell(k, ip, c, last + addLit);
      SetCell(k, ip, opt, last + addLit, c, last + addLit);
      addLit := addLit + 1;
    }
  }

  /** The cells for the first match found. */
  method SetFirst(k: Call, ip: nat, opt: array<Cell>, llen: nat, len: nat, off: int)
    requires k.Valid() && opt.Length == OPT_NUM + TRAILING_LITERALS
    requires Good(k, Match(ip, ip - off, len)) && len < OPT_NUM
    modifies opt
    ensures CellsOk(k, ip, opt[..], len + TRAILING_LITERALS + 1)
    ensures forall i :: 0 <= i < MINMATCH ==> opt[i] == Cell(LiteralsPrice(llen + i), 0, 1, llen + i)
    ensures forall i :: MINMATCH <= i <= len ==> opt[i] == Cell(SequencePrice(llen, i), off, i, llen)
    ensures forall i :: len < i <= len + TRAILING_LITERALS ==>
              opt[i] == Cell(SequencePrice(llen, len) + LiteralsPrice(i - len), 0, 1, i - len)
    ensures opt[..] == FirstCells(old(opt[..]), llen, len, off)
  {
    hide CellOk, Good, LiteralsPrice, SequencePrice;
    assert MINMATCH <= len by {
      GoodLength(k, Match(ip, ip - off, len));
    }
    var rPos := 0;
    while rPos < MINMATCH
      invariant 0 <= rPos <= MINMATCH && CellsOk(k, ip, opt[..], rPos)
      invariant forall i :: 0 <= i < rPos ==> opt[i] == Cell(LiteralsPrice(llen + i), 0, 1, llen + i)
      invariant forall i :: rPos <= i < opt.Length ==> opt[i] == old(opt[i])
    {
      var c := Cell(LiteralsPrice(llen + rPos), 0, 1, llen + rPos);
      LiteralCell(k, ip, c, rPos);
      SetCell(k, ip, opt, rPos, c, rPos);
      rPos := rPos + 1;
    }
    var mlen := MINMATCH;
    while mlen <= len
      invariant MINMATCH <= mlen <= len + 1 && CellsOk(k, ip, opt[..], mlen)
      invariant forall i :: 0 <= i < MINMATCH ==> opt[i] == Cell(LiteralsPrice(llen + i), 0, 1, llen + i)
      invariant forall i :: MINMATCH <= i < mlen ==> opt[i] == Cell(SequencePrice(llen, i), off, i, llen)
      invariant forall i :: mlen <= i < opt.Length ==> opt[i] == old(opt[i])
    {
      var c := Cell(SequencePrice(llen, mlen), off, mlen, llen);
      MatchCell(k, ip, 0, off, len, mlen, c);
      SetCell(k, ip, opt, mlen, c, mlen);
      mlen := mlen + 1;
    }
    SetTrailing(k, ip, opt, len);
  }

  lemma {:induction false} GoodLength(k: Call, m: Match)
    requires k.Valid() && Good(k, m)
    ensures MINMATCH <= m.len && m.End() + LASTLITERALS <= k.s.end && k.source <= m.start
            && m.start + MFLIMIT <= k.s.end
  {
  }

  /** A cell reached by `litlen` more literals from `cur`, if that is cheaper. */
  function WithLiterals(o: seq<Cell>, cur: nat, litlen: nat): Cell
    requires cur + litlen < |o| && 0 <= o[cur].litlen
  {
    var base: nat := o[cur].litlen;
    var price := o[cur].price - LiteralsPrice(base) + LiteralsPrice(base + litlen);
    if price < o[cur + litlen].price then Cell(price, 0, 1, base + litlen) else o[cur + litlen]
  }

  function LiteralCells(o: seq<Cell>, cur: nat): (r: seq<Cell>)
    requires cur + MINMATCH <= |o| && 0 <= o[cur].litlen
    ensures |r| == |o|
  {
    seq(|o|, i requires 0 <= i < |o| => if cur < i < cur + MINMATCH then WithLiterals(o, cur, i - cur) else o[i])
  }

  /** Literals behind `cur`, where they are cheaper than what is known. */
  method SetLiterals(k: Call, ip: nat, opt: array<Cell>, cur: nat, last: nat)
    requires k.Valid() && cur < last < OPT_NUM && CellsOk(k, ip, opt[..], last + TRAILING_LITERALS + 1)
    modifies opt
    ensures CellsOk(k, ip, opt[..], last + TRAILING_LITERALS + 1) && 0 <= old(opt[cur].litlen)
    ensures forall i :: 0 <= i < opt.Length && !(cur < i < cur + MINMATCH) ==> opt[i] == old(opt[i])
    ensures forall i :: cur < i < cur + MINMATCH ==> opt[i] == WithLiterals(old(opt[..]), cur, i - cur)
    ensures cur + MINMATCH <= opt.Length && opt[..] == LiteralCells(old(opt[..]), cur)
  {
    assert CellOk(k, ip, opt[..][cur], cur);
    ghost var o := opt[..];
    hide CellOk, LiteralsPrice;
    var baseLitlen: nat := opt[cur].litlen;
    var litlen := 1;
    while litlen < MINMATCH
      invariant 1 <= litlen <= MINMATCH && CellsOk(k, ip, opt[..], last + TRAILING_LITERALS + 1)
      invariant forall i :: 0 <= i < opt.Length && !(cur < i < cur + litlen) ==> opt[i] == o[i]
      invariant forall i :: cur < i < cur + litlen ==> opt[i] == WithLiterals(o, cur, i - cur)
    {
      var price := opt[cur].price - LiteralsPrice(baseLitlen) + LiteralsPrice(baseLitlen + litlen);
      var pos := cur + litlen;
      if price < opt[pos].price {
        var c := Cell(price, 0, 1, baseLitlen + litlen);
        LiteralCell(k, ip, c, pos);
        SetCell(k, ip, opt, pos, c, last + TRAILING_LITERALS + 1);
      }
      litlen := litlen + 1;
    }
  }

  /** The step over the first `ml` bytes of a match at `cur`, with the literals that the best way to `cur` ends with. */
  function ByMatch(o: seq<Cell>, cur: nat, ml: nat, off: int): Cell
    requires cur < |o| && 0 <= o[cur].litlen
  {
    if o[cur].mlen == 1 then
      var ll: nat := o[cur].litlen;
      Cell((if cur > ll then o[cur - ll].price else 0) + SequencePrice(ll, ml), off, ml, ll)
    else Cell(o[cur].price + SequencePrice(0, ml), off, ml, 0)
  }

  /** It is taken beyond what has been priced, and where it costs no more (less, if fast decoding is favoured). */
  predicate Taken(o: seq<Cell>, cur: nat, ml: nat, off: int, last: nat, favorDecSpeed: bool)
    requires cur + ml < |o| && 0 <= o[cur].litlen
  {
    cur + ml > last + TRAILING_LITERALS
    || ByMatch(o, cur, ml, off).price <= o[cur + ml].price - (if favorDecSpeed then 1 else 0)
  }

  /** The table `o` after the steps of less than `ml` bytes of a match at `cur`. */
  ghost predicate Relaxed(o: seq<Cell>, o': seq<Cell>, cur: nat, ml: nat, off: int, last: nat, favorDecSpeed: bool)
    requires cur < |o| && 0 <= o[cur].litlen
  {
    && |o'| == |o|
    && forall i :: 0 <= i < |o| ==>
         o'[i] == if cur + MINMATCH <= i < cur + ml && Taken(o, cur, i - cur, off, last, favorDecSpeed)
                  then ByMatch(o, cur, i - cur, off)
                  else o[i]
  }

  function MatchCells(o: seq<Cell>, cur: nat, len: nat, off: int, last: nat, favorDecSpeed: bool): (r: seq<Cell>)
    requires cur < |o| && 0 <= o[cur].litlen
    ensures |r| == |o|
  {
    seq(|o|, i requires 0 <= i < |o| =>
          if cur + MINMATCH <= i <= cur + len && Taken(o, cur, i - cur, off, last, favorDecSpeed)
          then ByMatch(o, cur, i - cur, off) else o[i])
  }

  lemma {:induction false} RelaxedIs(o: seq<Cell>, o': seq<Cell>, cur: nat, len: nat, off: int, last: nat,
                                     favorDecSpeed: bool)
    requires cur < |o| && 0 <= o[cur].litlen && Relaxed(o, o', cur, len + 1, off, last, favorDecSpeed)
    ensures o' == MatchCells(o, cur, len, off, last, favorDecSpeed)
  {
    hide Taken, ByMatch;
  }

  lemma {:induction false} RelaxedStep(o: seq<Cell>, o': seq<Cell>, o'': seq<Cell>, cur: nat, ml: nat, off: int,
      last: nat, favorDecSpeed: bool)
    requires MINMATCH <= ml && cur + ml < |o| && 0 <= o[cur].litlen && Relaxed(o, o', cur, ml, off, last, favorDecSpeed)
    ensures o'[cur] == o[cur] && o'[cur + ml] == o[cur + ml]
    ensures Taken(o', cur, ml, off, last, favorDecSpeed) <==> Taken(o, cur, ml, off, last, favorDecSpeed)
    ensures |o''| == |o| && (forall i :: 0 <= i < |o| && i != cur + ml ==> o''[i] == o'[i])
            && o''[cur + ml] == (if Taken(o', cur, ml, off, last, favorDecSpeed) then ByMatch(o', cur, ml, off)
               else o'[cur + ml]) ==>
            Relaxed(o, o'', cur, ml + 1, off, last, favorDecSpeed)
  {
    hide Taken, ByMatch;
    SameChoice(o, o', cur, ml, off, last, favorDecSpeed);
  }

  /** A new match at `cur`, where its steps are cheaper than what is known or lead beyond it. */
  method SetMatches(k: Call, ip: nat, opt: array<Cell>, cur: nat, last0: nat, len: nat, off: int, favorDecSpeed: bool)
      returns (last: nat)
    requires k.Valid() && cur < last0 < OPT_NUM && CellsOk(k, ip, opt[..], last0 + TRAILING_LITERALS + 1)
    requires Good(k, Match(ip + cur, ip + cur - off, len)) && cur + len < OPT_NUM && 0 <= opt[cur].litlen
    modifies opt
    ensures last == if last0 < cur + len && Taken(old(opt[..]), cur, len, off, last0, favorDecSpeed)
                    then cur + len else last0
    ensures CellsOk(k, ip, opt[..], last + 1)
    ensures Relaxed(old(opt[..]), opt[..], cur, len + 1, off, last0, favorDecSpeed)
    ensures opt[..] == MatchCells(old(opt[..]), cur, len, off, last0, favorDecSpeed)
  {
    GoodLength(k, Match(ip + cur, ip + cur - off, len));
    ghost var o := opt[..];
    hide Good, CellsOk, Taken, ByMatch, Relaxed;
    CellsSize(k, ip, o, last0 + TRAILING_LITERALS + 1);
    last := last0;
    var ml := MINMATCH;
    NotRelaxed(o, cur, off, last0, favorDecSpeed);
    while ml <= len
      invariant MINMATCH <= ml <= len + 1
      invariant CellsOk(k, ip, opt[..], Max(last0 + TRAILING_LITERALS + 1, cur + ml))
      invariant Relaxed(o, opt[..], cur, ml, off, last0, favorDecSpeed)
      invariant last == if ml == len + 1 && last0 < cur + len && Taken(o, cur, len, off, last0, favorDecSpeed)
                        then cur + len else last0
    {
      last := RelaxOne(k, ip, opt, cur, last, len, off, ml, favorDecSpeed, o);
      ml := ml + 1;
    }
    TakenBeyond(o, cur, len, off, last0, favorDecSpeed);
    RelaxedIs(o, opt[..], cur, len, off, last0, favorDecSpeed);
    FewerCells(k, ip, opt[..], Max(last0 + TRAILING_LITERALS + 1, cur + ml), last + 1);
  }

  /** One length, in terms of the cells there were before the first. */
  method RelaxOne(k: Call, ip: nat, opt: array<Cell>, cur: nat, last0: nat, len: nat, off: int, ml: nat,
      favorDecSpeed: bool, ghost o: seq<Cell>) returns (last: nat)
    requires k.Valid() && cur < last0 < OPT_NUM && MINMATCH <= ml <= len && cur + len < OPT_NUM
    requires CellsOk(k, ip, opt[..], Max(last0 + TRAILING_LITERALS + 1, cur + ml)) && |o| == opt.Length
    requires Good(k, Match(ip + cur, ip + cur - off, len)) && 0 <= o[cur].litlen
    requires Relaxed(o, opt[..], cur, ml, off, last0, favorDecSpeed)
    modifies opt
    ensures CellsOk(k, ip, opt[..], Max(last0 + TRAILING_LITERALS + 1, cur + ml + 1))
    ensures Relaxed(o, opt[..], cur, ml + 1, off, last0, favorDecSpeed)
    ensures last == if ml == len && last0 < cur + len && Taken(o, cur, len, off, last0, favorDecSpeed)
                    then cur + len else last0
  {
    hide Good, CellOk, Taken, ByMatch, Relaxed;
    ghost var o' := opt[..];
    RelaxedStep(o, o', o', cur, ml, off, last0, favorDecSpeed);
    last := SetMatch(k, ip, opt, cur, last0, len, off, ml, favorDecSpeed, Max(last0 + TRAILING_LITERALS + 1, cur + ml));
    RelaxedStep(o, o', opt[..], cur, ml, off, last0, favorDecSpeed);
  }

  lemma {:induction false} CellsSize(k: Call, ip: nat, o: seq<Cell>, n: int)
    requires k.Valid() && CellsOk(k, ip, o, n)
    ensures |o| == OPT_NUM + TRAILING_LITERALS
  {
  }

  lemma {:induction false} FewerCells(k: Call, ip: nat, o: seq<Cell>, n: int, m: int)
    requires k.Valid() && CellsOk(k, ip, o, n) && m <= n
    ensures CellsOk(k, ip, o, m)
  {
  }

  lemma {:induction false} NotRelaxed(o: seq<Cell>, cur: nat, off: int, last: nat, favorDecSpeed: bool)
    requires cur < |o| && 0 <= o[cur].litlen
    ensures Relaxed(o, o, cur, MINMATCH, off, last, favorDecSpeed)
  {
  }

  lemma {:induction false} TakenBeyond(o: seq<Cell>, cur: nat, ml: nat, off: int, last: nat, favorDecSpeed: bool)
    requires cur + ml < |o| && 0 <= o[cur].litlen
    ensures cur + ml > last + TRAILING_LITERALS ==> Taken(o, cur, ml, off, last, favorDecSpeed)
  {
  }

  /** Cells behind `cur` have no say in the price of a step from there, the one it leads to aside. */
  lemma {:induction false} SameChoice(o: seq<Cell>, o': seq<Cell>, cur: nat, ml: nat, off: int, last: nat,
      favorDecSpeed: bool)
    requires MINMATCH <= ml && cur + ml < |o| == |o'| && 0 <= o[cur].litlen
    requires forall i :: 0 <= i < |o| && (i <= cur || i == cur + ml) ==> o'[i] == o[i]
    ensures ByMatch(o', cur, ml, off) == ByMatch(o, cur, ml, off)
    ensures Taken(o', cur, ml, off, last, favorDecSpeed) <==> Taken(o, cur, ml, off, last, favorDecSpeed)
  {
  }

  /** The step over its first `ml` bytes. */
  method SetMatch(k: Call, ip: nat, opt: array<Cell>, cur: nat, last0: nat, len: nat, off: int, ml: nat,
      favorDecSpeed: bool, ghost known: nat) returns (last: nat)
    requires k.Valid() && cur < last0 < OPT_NUM && MINMATCH <= ml <= len && cur + len < OPT_NUM
    requires CellsOk(k, ip, opt[..], known) && known == Max(last0 + TRAILING_LITERALS + 1, cur + ml)
    requires Good(k, Match(ip + cur, ip + cur - off, len)) && 0 <= opt[cur].litlen
    modifies opt
    ensures CellsOk(k, ip, opt[..], Max(last0 + TRAILING_LITERALS + 1, cur + ml + 1))
    ensures forall i :: 0 <= i < opt.Length && i != cur + ml ==> opt[i] == old(opt[i])
    ensures opt[cur + ml] == if Taken(old(opt[..]), cur, ml, off, last0, favorDecSpeed)
              then ByMatch(old(opt[..]), cur, ml, off)
                             else old(opt[cur + ml])
    ensures last == if ml == len && last0 < cur + ml && Taken(old(opt[..]), cur, ml, off, last0, favorDecSpeed)
                    then cur + ml
                    else last0
  {
    hide CellOk, Good, SequencePrice;
    var litlen: nat := opt[cur].litlen;
    last := last0;
    var pos := cur + ml;
    var ll := if opt[cur].mlen == 1 then litlen else 0;
    var price := if opt[cur].mlen == 1
      then (if cur > ll then opt[cur - ll].price else 0) + SequencePrice(ll, ml)
      else opt[cur].price + SequencePrice(0, ml);
    if pos > last + TRAILING_LITERALS || price <= opt[pos].price - (if favorDecSpeed then 1 else 0) {
      if ml == len && last < pos {
        last := pos;
      }
      var c := Cell(price, off, ml, ll);
      MatchCell(k, ip, cur, off, len, ml, c);
      SetCell(k, ip, opt, pos, c, known);
    }
  }

  // ---------------------------------------------------------------- the path

  /** From position `p` on the cells, read forwards, lead step by step to `e`, the first position not before `last`. */
  ghost predicate Path(k: Call, ip: nat, o: seq<Cell>, p: int, last: nat, e: nat)
    requires k.Valid()
    decreases last - p
  {
    if p >= last then p == e
    else
      && 0 <= p < |o| && 1 <= o[p].mlen && StepOk(k, ip, p, o[p].off, o[p].mlen)
      && Path(k, ip, o, p + o[p].mlen, last, e)
  }

  lemma {:induction false} PathFrame(k: Call, ip: nat, o: seq<Cell>, o': seq<Cell>, p: int, last: nat, e: nat)
    requires k.Valid() && Path(k, ip, o, p, last, e) && |o'| == |o| && forall i :: p <= i < |o| && 0 <= i ==>
               o'[i] == o[i]
    ensures Path(k, ip, o', p, last, e)
    decreases last - p
  {
    if p < last {
      PathFrame(k, ip, o, o', p + o[p].mlen, last, e);
    }
  }

  /** One step of a path: a literal, or a match of `mlen` bytes. */
  datatype Step = Step(p: int, off: int, mlen: int)

  /** The steps that lead to position `p`, as the cells, read backwards, tell. */
  ghost function StepsTo(k: Call, ip: nat, o: seq<Cell>, p: nat): (steps: seq<Step>)
    requires k.Valid() && CellsOk(k, ip, o, p + 1)
  {
    assert CellOk(k, ip, o[p], p);
    if p == 0 then [] else StepsTo(k, ip, o, p - o[p].mlen) + [Step(p - o[p].mlen, o[p].off, o[p].mlen)]
  }

  /** The same for cells of any kind. */
  function BackSteps(o: seq<Cell>, p: nat): (steps: seq<Step>)
  {
    if p == 0 || p >= |o| || !(1 <= o[p].mlen <= p) then []
    else BackSteps(o, p - o[p].mlen) + [Step(p - o[p].mlen, o[p].off, o[p].mlen)]
  }

  lemma {:induction false} BackStepsIs(k: Call, ip: nat, o: seq<Cell>, p: nat)
    requires k.Valid() && CellsOk(k, ip, o, p + 1)
    ensures StepsTo(k, ip, o, p) == BackSteps(o, p)
  {
    hide StepOk;
    assert CellOk(k, ip, o[p], p);
    if p > 0 {
      BackStepsIs(k, ip, o, p - o[p].mlen);
    }
  }

  /** The steps from position `p` on, as the cells, read forwards, tell. */
  ghost function StepsFrom(k: Call, ip: nat, o: seq<Cell>, p: int, last: nat, e: nat): (steps: seq<Step>)
    requires k.Valid() && Path(k, ip, o, p, last, e)
    decreases last - p
  {
    if p >= last then [] else [Step(p, o[p].off, o[p].mlen)] + StepsFrom(k, ip, o, p + o[p].mlen, last, e)
  }

  lemma {:induction false} StepsFrame(k: Call, ip: nat, o: seq<Cell>, o': seq<Cell>, p: int, last: nat, e: nat)
    requires k.Valid() && Path(k, ip, o, p, last, e) && |o'| == |o| && forall i :: p <= i < |o| && 0 <= i ==>
               o'[i] == o[i]
    ensures Path(k, ip, o', p, last, e) && StepsFrom(k, ip, o', p, last, e) == StepsFrom(k, ip, o, p, last, e)
    decreases last - p
  {
    hide StepOk;
    PathFrame(k, ip, o, o', p, last, e);
    if p < last {
      StepsFrame(k, ip, o, o', p + o[p].mlen, last, e);
    }
  }

  lemma {:induction false} StepsToFrame(k: Call, ip: nat, o: seq<Cell>, o': seq<Cell>, p: nat)
    requires k.Valid() && CellsOk(k, ip, o, p + 1) && |o'| == |o| && forall i :: 0 <= i <= p ==> o'[i] == o[i]
    ensures CellsOk(k, ip, o', p + 1) && StepsTo(k, ip, o', p) == StepsTo(k, ip, o, p)
  {
    hide StepOk;
    assert CellOk(k, ip, o[p], p);
    assert forall i :: 0 <= i <= p ==> CellOk(k, ip, o[i], i);
    if p > 0 {
      StepsToFrame(k, ip, o, o', p - o[p].mlen);
    }
  }

  /** Half-way through the traversal: below `p` the cells tell where they come from, behind it where to go. */
  ghost predicate Turned(k: Call, ip: nat, o: seq<Cell>, p: nat, off: int, mlen: int, last: nat, e: nat,
      steps: seq<Step>)
    requires k.Valid()
  {
    && CellsOk(k, ip, o, p + 1) && 1 <= mlen && StepOk(k, ip, p, off, mlen) && Path(k, ip, o, p + mlen, last, e)
    && steps == StepsTo(k, ip, o, p) + [Step(p, off, mlen)] + StepsFrom(k, ip, o, p + mlen, last, e)
  }

  lemma {:induction false} TurnStep(k: Call, ip: nat, o: seq<Cell>, o': seq<Cell>, p: nat, off: int, mlen: int,
      last: nat, e: nat, steps: seq<Step>)
    requires k.Valid() && Turned(k, ip, o, p, off, mlen, last, e, steps) && p < last
    requires o' == o[p := o[p].(mlen := mlen, off := off)]
    ensures o[p].mlen > p ==> Path(k, ip, o', 0, last, e) && StepsFrom(k, ip, o', 0, last, e) == steps
    ensures o[p].mlen <= p ==> 1 <= o[p].mlen && Turned(k, ip, o', p - o[p].mlen, o[p].off, o[p].mlen, last, e, steps)
  {
    hide StepOk, CellOk, StepsTo, StepsFrom, Path;
    CellStep(k, ip, o, p);
    Redirected(k, ip, o, o', p, off, mlen, last, e);
    if p == 0 {
      assert [] + [Step(p, off, mlen)] + StepsFrom(k, ip, o, p + mlen, last, e) == StepsFrom(k, ip, o', p, last, e);
    } else {
      assert steps == StepsTo(k, ip, o, p - o[p].mlen) + [Step(p - o[p].mlen, o[p].off, o[p].mlen)]
                      + ([Step(p, off, mlen)] + StepsFrom(k, ip, o, p + mlen, last, e));
    }
  }

  /** What it makes of the cells. */
  function TurnedCells(o: seq<Cell>, p: nat, mlen: int, off: int): (r: seq<Cell>)
    ensures |r| == |o|
    decreases p
  {
    if p >= |o| then o
    else
      var o' := o[p := o[p].(mlen := mlen, off := off)];
      if 1 <= o[p].mlen <= p then TurnedCells(o', p - o[p].mlen, o[p].mlen, o[p].off) else o'
  }

  lemma {:induction false} TurnedOnce(o: seq<Cell>, p: nat, mlen: int, off: int)
    requires p < |o| && (o[p].mlen > p || 1 <= o[p].mlen)
    ensures var o' := o[p := o[p].(mlen := mlen, off := off)];
            TurnedCells(o, p, mlen, off)
              == if o[p].mlen > p then o' else TurnedCells(o', p - o[p].mlen, o[p].mlen, o[p].off)
  {
  }

  /** The reverse traversal: cells that told where they were reached from now tell where to go, along the same steps. */
  method Reverse(k: Call, ip: nat, opt: array<Cell>, cur: nat, bestMlen: nat, bestOff: int, last: nat)
    requires k.Valid() && CellsOk(k, ip, opt[..], cur + 1) && cur < last <= cur + bestMlen
    requires 1 <= bestMlen && StepOk(k, ip, cur, bestOff, bestMlen)
    modifies opt
    ensures Path(k, ip, opt[..], 0, last, cur + bestMlen)
    ensures StepsFrom(k, ip, opt[..], 0, last, cur + bestMlen) ==
            StepsTo(k, ip, old(opt[..]), cur) + [Step(cur, bestOff, bestMlen)]
    ensures opt[..] == TurnedCells(old(opt[..]), cur, bestMlen, bestOff)
  {
    hide StepOk, CellsOk, StepsTo, StepsFrom, Path, Turned, TurnedCells;
    var candidate: nat, mlen: int, off: int := cur, bestMlen, bestOff;
    ghost var e := cur + bestMlen;
    ghost var steps := StepsTo(k, ip, opt[..], cur) + [Step(cur, bestOff, bestMlen)];
    TurnedAtStart(k, ip, opt[..], cur, bestOff, bestMlen, last);
    while true
      invariant candidate <= cur < opt.Length && Turned(k, ip, opt[..], candidate, off, mlen, last, e, steps)
      invariant TurnedCells(opt[..], candidate, mlen, off) == TurnedCells(old(opt[..]), cur, bestMlen, bestOff)
      decreases candidate
    {
      ghost var o := opt[..];
      var nextMlen, nextOff := opt[candidate].mlen, opt[candidate].off;
      opt[candidate] := opt[candidate].(mlen := mlen, off := off);
      TurnStep(k, ip, o, opt[..], candidate, off, mlen, last, e, steps);
      TurnedOnce(o, candidate, mlen, off);
      mlen, off := nextMlen, nextOff;
      if nextMlen > candidate {
        break;
      }
      candidate := candidate - nextMlen;
    }
  }

  lemma {:induction false} TurnedAtStart(k: Call, ip: nat, o: seq<Cell>, p: nat, off: int, mlen: nat, last: nat)
    requires k.Valid() && CellsOk(k, ip, o, p + 1) && p < last <= p + mlen && 1 <= mlen && StepOk(k, ip, p, off, mlen)
    ensures Turned(k, ip, o, p, off, mlen, last, p + mlen, StepsTo(k, ip, o, p) + [Step(p, off, mlen)]) && p < |o|
  {
    NoSteps(k, ip, o, p + mlen, last);
    var s := StepsTo(k, ip, o, p) + [Step(p, off, mlen)];
    assert s + [] == s;
  }

  lemma {:induction false} NoSteps(k: Call, ip: nat, o: seq<Cell>, e: nat, last: nat)
    requires k.Valid() && last <= e
    ensures Path(k, ip, o, e, last, e) && StepsFrom(k, ip, o, e, last, e) == []
  {
  }

  lemma {:induction false} CellStep(k: Call, ip: nat, o: seq<Cell>, p: nat)
    requires k.Valid() && CellsOk(k, ip, o, p + 1)
    ensures o[p].mlen > p <==> p == 0
    ensures p > 0 ==> 1 <= o[p].mlen && StepOk(k, ip, p - o[p].mlen, o[p].off, o[p].mlen)
    ensures StepsTo(k, ip, o, p) == if p == 0 then []
              else StepsTo(k, ip, o, p - o[p].mlen) + [Step(p - o[p].mlen, o[p].off, o[p].mlen)]
  {
    assert CellOk(k, ip, o[p], p);
  }

  /** A cell that now tells the next step. */
  lemma {:induction false} Redirected(k: Call, ip: nat, o: seq<Cell>, o': seq<Cell>, p: nat, off: int, mlen: int,
      last: nat, e: nat)
    requires k.Valid() && CellsOk(k, ip, o, p + 1) && p < last && o' == o[p := o[p].(mlen := mlen, off := off)]
    requires 1 <= mlen && StepOk(k, ip, p, off, mlen) && Path(k, ip, o, p + mlen, last, e)
    ensures Path(k, ip, o', p, last, e)
    ensures StepsFrom(k, ip, o', p, last, e) == [Step(p, off, mlen)] + StepsFrom(k, ip, o, p + mlen, last, e)
    ensures p > 0 ==> var q := p - o[p].mlen;
              0 <= q && CellsOk(k, ip, o', q + 1) && StepsTo(k, ip, o', q) == StepsTo(k, ip, o, q)
  {
    hide StepOk;
    StepsFrame(k, ip, o, o', p + mlen, last, e);
    assert CellOk(k, ip, o[p], p);
    if p > 0 {
      StepsToFrame(k, ip, o, o', p - o[p].mlen);
    }
  }

  // ---------------------------------------------------------------- writing the path

  /** What a path costs when `litlen` literals are waiting before it: the prices of its sequences. */
  function PathPrice(steps: seq<Step>, litlen: nat): nat
  {
    if steps == [] then 0
    else if steps[0].mlen < MINMATCH then PathPrice(steps[1..], litlen + 1)
    else SequencePrice(litlen, steps[0].mlen) + PathPrice(steps[1..], 0)
  }

  lemma {:induction false} FirstStep(k: Call, ip: nat, o: seq<Cell>, p: nat, last: nat, e: nat, litlen: nat)
    requires k.Valid() && Path(k, ip, o, p, last, e)
    ensures p >= last ==> p == e && PathPrice(StepsFrom(k, ip, o, p, last, e), litlen) == 0
    ensures p < last ==>
              && p < |o| && 1 <= o[p].mlen && StepOk(k, ip, p, o[p].off, o[p].mlen)
                 && Path(k, ip, o, p + o[p].mlen, last, e)
              && PathPrice(StepsFrom(k, ip, o, p, last, e), litlen) ==
                 (if o[p].mlen == 1 then PathPrice(StepsFrom(k, ip, o, p + 1, last, e), litlen + 1)
                  else SequencePrice(litlen, o[p].mlen) + PathPrice(StepsFrom(k, ip, o, p + o[p].mlen, last, e), 0))
  {
    hide Good, SequencePrice;
    if p < last {
      var rest := StepsFrom(k, ip, o, p + o[p].mlen, last, e);
      assert StepsFrom(k, ip, o, p, last, e)[1..] == rest;
    }
  }

  /** Not all of the steps are literals. */
  predicate HasMatch(steps: seq<Step>)
  {
    exists s :: s in steps && s.mlen != 1
  }

  lemma {:induction false} MatchAhead(k: Call, ip: nat, o: seq<Cell>, p: nat, last: nat, e: nat)
    requires k.Valid() && Path(k, ip, o, p, last, e)
    ensures p >= last ==> !HasMatch(StepsFrom(k, ip, o, p, last, e))
    ensures p < last ==>
              && p < |o| && 1 <= o[p].mlen && Path(k, ip, o, p + o[p].mlen, last, e)
              && (HasMatch(StepsFrom(k, ip, o, p, last, e))
                  <==> o[p].mlen != 1 || HasMatch(StepsFrom(k, ip, o, p + o[p].mlen, last, e)))
  {
    hide StepOk;
    if p < last {
      var step, rest := Step(p, o[p].off, o[p].mlen), StepsFrom(k, ip, o, p + o[p].mlen, last, e);
      assert StepsFrom(k, ip, o, p, last, e) == [step] + rest;
      assert forall s :: s in [step] + rest <==> s == step || s in rest;
    }
  }

  /** What is planned of a path: its matches, one behind the other. */
  function Walked(k: Call, o: Output, ip: nat, steps: seq<Step>): (o': Output)
    requires k.Valid()
    ensures Goes(k, o, o')
    decreases |steps|
  {
    GoesNowhere(k, o);
    if steps == [] then o
    else if steps[0].mlen == 1 then Walked(k, o, ip, steps[1..])
    else
      var o1 := Emitted(k, o, MatchOf(ip, steps[0]));
      var o2 := Walked(k, o1, ip, steps[1..]);
      GoesOn(k, o, o1, o2);
      o2
  }

  function MatchOf(ip: nat, s: Step): Match
  {
    Match(Max(0, ip + s.p), ip + s.p - s.off, Max(0, s.mlen))
  }

  lemma {:induction false} WalkedStep(k: Call, ip: nat, o: seq<Cell>, p: nat, last: nat, e: nat, out: Output)
    requires k.Valid() && Path(k, ip, o, p, last, e)
    ensures p >= last ==> Walked(k.Bare(), out, ip, StepsFrom(k, ip, o, p, last, e)) == out
    ensures p < last ==>
              && p < |o| && 1 <= o[p].mlen && Path(k, ip, o, p + o[p].mlen, last, e)
              && Walked(k.Bare(), out, ip, StepsFrom(k, ip, o, p, last, e))
                 == Walked(k.Bare(), if o[p].mlen == 1 then out
                                     else Emitted(k.Bare(), out, Match(ip + p, ip + p - o[p].off, o[p].mlen)),
                           ip, StepsFrom(k, ip, o, p + o[p].mlen, last, e))
  {
    hide StepOk, Emitted, Goes;
    if p < last {
      var rest := StepsFrom(k, ip, o, p + o[p].mlen, last, e);
      assert StepsFrom(k, ip, o, p, last, e)[1..] == rest;
    }
  }

  /** Where the path cannot be gone on with. */
  lemma {:induction false} WalkStuck(k: Call, ip: nat, out: Output, op: nat, steps: seq<Step>, m: Match)
    requires k.Valid() && Stuck(k, out, op, Emitted(k.Bare(), out, m))
    ensures Stuck(k, out, op, Walked(k.Bare(), Emitted(k.Bare(), out, m), ip, steps))
  {
    hide Stuck, Emitted, Goes, Walked;
    var one := Emitted(k.Bare(), out, m);
    BareSame(k, one, Walked(k.Bare(), one, ip, steps), m);
    StuckOn(k, out, op, one, Walked(k.Bare(), one, ip, steps));
  }

  /** The loop that encodes all recorded sequences in order; it writes what the prices of its sequences say. */
  method EncodePath(k: Call, dst: array<byte>, op0: nat, anchor0: nat, ip0: nat, opt: array<Cell>, last: nat,
      ghost e: nat, ghost ss0: Seqs)
      returns (ok: bool, ip: nat, op: nat, anchor: nat, ghost ss: Seqs)
    requires k.Valid() && HcInv(k, dst[..], op0, ss0, anchor0) && anchor0 <= ip0 && Path(k, ip0, opt[..], 0, last, e)
    requires Open(k, Output(ss0, anchor0), op0)
    modifies dst
    ensures HcInv(k, dst[..], op, ss, anchor) && Open(k, Output(ss, anchor), op)
    ensures var planned := Walked(k.Bare(), Output(ss0, anchor0), ip0, StepsFrom(k, ip0, opt[..], 0, last, e));
            if ok then Output(ss, anchor) == planned else Stuck(k, Output(ss, anchor), op, planned)
    ensures !ok ==> k.limit != NotLimited && k.Oend() < CompressBound(k.N())
    ensures ok ==> ip == ip0 + e && anchor <= ip
    ensures ok ==> op == op0 + PathPrice(StepsFrom(k, ip0, opt[..], 0, last, e), ip0 - anchor0)
    ensures ok && HasMatch(StepsFrom(k, ip0, opt[..], 0, last, e)) ==> ip0 + MINMATCH <= anchor
  {
    hide HcInv, Repeats, Path, StepsFrom, PathPrice, SequencePrice, StepOk, LitSize, Open, Stuck, Emitted, Walked, Goes,
        HasMatch;
    ok, ip, op, anchor, ss := true, ip0, op0, anchor0, ss0;
    var rPos := 0;
    ghost var o := opt[..];
    ghost var planned := Walked(k.Bare(), Output(ss0, anchor0), ip0, StepsFrom(k, ip0, o, 0, last, e));
    while rPos < last
      invariant ip == ip0 + rPos && anchor <= ip && HcInv(k, dst[..], op, ss, anchor)
      invariant Path(k, ip0, o, rPos, last, e)
      invariant op + PathPrice(StepsFrom(k, ip0, o, rPos, last, e), ip - anchor)
                == op0 + PathPrice(StepsFrom(k, ip0, o, 0, last, e), ip0 - anchor0)
      invariant Open(k, Output(ss, anchor), op)
      invariant Walked(k.Bare(), Output(ss, anchor), ip0, StepsFrom(k, ip0, o, rPos, last, e)) == planned
      invariant HasMatch(StepsFrom(k, ip0, o, 0, last, e)) ==>
                  ip0 + MINMATCH <= anchor || HasMatch(StepsFrom(k, ip0, o, rPos, last, e))
      decreases last - rPos
      modifies dst
    {
      FirstStep(k, ip0, o, rPos, last, e, ip - anchor);
      WalkedStep(k, ip0, o, rPos, last, e, Output(ss, anchor));
      MatchAhead(k, ip0, o, rPos, last, e);
      var ml: nat, off := opt[rPos].mlen, opt[rPos].off;
      if ml == 1 {
        ip := ip + 1;
        rPos := rPos + 1;
        continue;
      }
      MatchStep(k, ip0, rPos, off, ml);
      var m := Match(ip, ip - off, ml);
      GoodLength(k, m);
      SizeOfMatch(ip - anchor, ml);
      var op', ok'; ghost var ss';
      ok', op', ss' := Put(k, dst, op, anchor, m, ss);
      if !ok' {
        ok := false;
        WalkStuck(k, ip0, Output(ss, anchor), op, StepsFrom(k, ip0, o, rPos + ml, last, e), m);
        return;
      }
      rPos := rPos + ml;
      ip, op, anchor, ss := ip + ml, op', ip + ml, ss';
    }
    FirstStep(k, ip0, o, rPos, last, e, ip - anchor);
    WalkedStep(k, ip0, o, rPos, last, e, Output(ss, anchor));
    MatchAhead(k, ip0, o, rPos, last, e);
  }

  lemma {:induction false} MatchStep(k: Call, ip: nat, p: nat, off: int, mlen: nat)
    requires k.Valid() && StepOk(k, ip, p, off, mlen) && mlen != 1
    ensures Good(k, Match(ip + p, ip + p - off, mlen))
  {
  }

  lemma {:induction false} SizeOfMatch(litlen: nat, mlen: nat)
    requires MINMATCH <= mlen
    ensures SequencePrice(litlen, mlen) == LitSize(litlen) + 2 + ExtSize(mlen - MINMATCH)
  {
  }

  // ---------------------------------------------------------------- one region

  /** Searching at a position is not worth while if the next one costs no more. */
  predicate SkipSearch(o: seq<Cell>, cur: nat, fullUpdate: bool)
    requires cur + MINMATCH < |o|
  {
    if fullUpdate then o[cur + 1].price <= o[cur].price && o[cur + MINMATCH].price < o[cur].price + 3
    else o[cur + 1].price <= o[cur].price
  }

  /** The cells after one new match, and the last position that is priced. */
  function Extended(o: seq<Cell>, cur: nat, last: nat, len: nat, off: int, favorDecSpeed: bool): (r: (seq<Cell>, nat))
    requires |o| == OPT_NUM + TRAILING_LITERALS && cur < last < OPT_NUM && cur + len < OPT_NUM && 0 <= o[cur].litlen
    ensures |r.0| == |o| && (r.1 == last || last < r.1 == cur + len)
  {
    var o1 := LiteralCells(o, cur);
    var o2 := MatchCells(o1, cur, len, off, last, favorDecSpeed);
    var last' := if last < cur + len && Taken(o1, cur, len, off, last, favorDecSpeed) then cur + len else last;
    (TrailingCells(o2, last'), last')
  }

  /** The literals, the matches and what follows them, for one new match. */
  method Extend(k: Call, ip: nat, opt: array<Cell>, cur: nat, last0: nat, len: nat, off: int, favorDecSpeed: bool)
      returns (last: nat)
    requires k.Valid() && cur < last0 < OPT_NUM && CellsOk(k, ip, opt[..], last0 + TRAILING_LITERALS + 1)
    requires Good(k, Match(ip + cur, ip + cur - off, len)) && cur + len < OPT_NUM
    modifies opt
    ensures last == last0 || (last0 < last && last == cur + len)
    ensures CellsOk(k, ip, opt[..], last + TRAILING_LITERALS + 1)
    ensures 0 <= old(opt[cur].litlen) && opt.Length == OPT_NUM + TRAILING_LITERALS
    ensures (opt[..], last) == Extended(old(opt[..]), cur, last0, len, off, favorDecSpeed)
  {
    hide Good, CellOk, Taken, Relaxed, WithLiterals, ByMatch;
    SetLiterals(k, ip, opt, cur, last0);
    last := SetMatches(k, ip, opt, cur, last0, len, off, favorDecSpeed);
    SetTrailing(k, ip, opt, last);
  }

  /** The last step of the best path, the last position priced, and what the cells and the tables have become. */
  datatype Choice = Choice(cur: nat, mlen: int, off: int, last: nat, cells: seq<Cell>, tables: Tables)

  /** Pricing, from position `cur` on. */
  function PricedFrom(k: Call, t: Tables, o: seq<Cell>, ip: nat, cur: nat, last: nat, c: Settings): (r: Choice)
    requires k.Valid() && t.Sized() && |o| == OPT_NUM + TRAILING_LITERALS && cur <= last < OPT_NUM
    ensures r.tables.Sized() && |r.cells| == |o|
    decreases k.s.end - ip - cur
  {
    if cur >= last || ip + cur > Mflimit(k) then
      Choice(Max(0, last - o[last].mlen), o[last].mlen, o[last].off, last, o, t)
    else if SkipSearch(o, cur, c.fullUpdate) then PricedFrom(k, t, o, ip, cur + 1, last, c)
    else
      var (len, off, t') := FoundLonger(k, t, ip + cur, if c.fullUpdate then MINMATCH - 1 else last - cur, c);
      if len == 0 then PricedFrom(k, t', o, ip, cur + 1, last, c)
      else if len > c.sufficientLen || len + cur >= OPT_NUM || o[cur].litlen < 0 then
        Choice(cur, len, off, cur + 1, o, t')
      else
        var (o', last') := Extended(o, cur, last, len, off, c.favorDecSpeed);
        PricedFrom(k, t', o', ip, cur + 1, last', c)
  }

  lemma {:induction false} PricedStep(k: Call, t: Tables, o: seq<Cell>, ip: nat, cur: nat, last: nat, c: Settings)
    requires k.Valid() && t.Sized() && |o| == OPT_NUM + TRAILING_LITERALS && cur < last < OPT_NUM
    requires ip + cur <= Mflimit(k)
    ensures var p := PricedFrom(k, t, o, ip, cur, last, c);
            if SkipSearch(o, cur, c.fullUpdate) then p == PricedFrom(k, t, o, ip, cur + 1, last, c)
            else
              var (len, off, t') := FoundLonger(k, t, ip + cur, if c.fullUpdate then MINMATCH - 1 else last - cur, c);
              if len == 0 then p == PricedFrom(k, t', o, ip, cur + 1, last, c)
              else if len > c.sufficientLen || len + cur >= OPT_NUM then p == Choice(cur, len, off, cur + 1, o, t')
              else o[cur].litlen >= 0 ==>
                var (o', last') := Extended(o, cur, last, len, off, c.favorDecSpeed);
                p == PricedFrom(k, t', o', ip, cur + 1, last', c)
  {
    hide FoundLonger, Extended, SkipSearch;
  }

  lemma {:induction false} PricedEnd(k: Call, t: Tables, o: seq<Cell>, ip: nat, cur: nat, last: nat, c: Settings)
    requires k.Valid() && t.Sized() && |o| == OPT_NUM + TRAILING_LITERALS && cur <= last < OPT_NUM
    requires cur >= last || ip + cur > Mflimit(k)
    ensures PricedFrom(k, t, o, ip, cur, last, c)
            == Choice(Max(0, last - o[last].mlen), o[last].mlen, o[last].off, last, o, t)
  {
    hide FoundLonger, Extended, SkipSearch;
  }

  /** The cells, as pricing goes on. */
  ghost predicate Pricing(k: Call, t: ChainTables, o: seq<Cell>, ip: nat, cur: nat, last: nat, c: Settings, p: Choice)
    requires k.Valid()
    reads t, t.hashTable, t.chainTable
  {
    && 1 <= cur <= last < OPT_NUM && ip + last <= Matchlimit(k)
    && CellsOk(k, ip, o, last + TRAILING_LITERALS + 1)
    && t.Exact(k.s) && t.nextToUpdate <= ip + cur && t.Value().Sized()
    && PricedFrom(k.Bare(), t.Value(), o, ip, cur, last, c) == p
  }

  /** One position: a new match there may be taken into account, or be so long that it ends the region. */
  method PriceOne(k: Call, t: ChainTables, opt: array<Cell>, ip: nat, cur: nat, last0: nat, c: Settings,
                  ghost p: Choice) returns (last: nat, len: nat, off: int, ends: bool)
    requires k.Valid() && k.source <= ip && Pricing(k, t, opt[..], ip, cur, last0, c, p) && k.s.Padded()
    requires cur < last0 && ip + cur <= Mflimit(k)
    modifies opt, t`nextToUpdate, t.hashTable, t.chainTable
    ensures t.Exact(k.s) && t.nextToUpdate <= Max(old(t.nextToUpdate), Mflimit(k)) && t.nextToUpdate <= ip + cur
    ensures !ends ==> Pricing(k, t, opt[..], ip, cur + 1, last, c, p)
    ensures ends ==> Good(k, Match(ip + cur, ip + cur - off, len)) && CellsOk(k, ip, opt[..], cur + 1)
                     && p == Choice(cur, len, off, cur + 1, opt[..], t.Value())
  {
    hide Good, CellOk, ChainTables.Exact, PricedFrom, FoundLonger, Extended, SkipSearch, NewestBeaten;
    last, len, off, ends := last0, 0, 0, false;
    CellsSize(k, ip, opt[..], last0 + TRAILING_LITERALS + 1);
    PricedStep(k.Bare(), t.Value(), opt[..], ip, cur, last, c);
    if SkipSearch(opt[..], cur, c.fullUpdate) {
      return;
    }
    var minLen := if c.fullUpdate then MINMATCH - 1 else last - cur;
    len, off := FindLongerMatch(k, t, ip + cur, minLen, c);
    SizedTables(k, t);
    if len == 0 {
      return;
    }
    GoodLength(k, Match(ip + cur, ip + cur - off, len));
    if len > c.sufficientLen || len + cur >= OPT_NUM {
      FewerCells(k, ip, opt[..], last + TRAILING_LITERALS + 1, cur + 1);
      return last, len, off, true;
    }
    last := Extend(k, ip, opt, cur, last, len, off, c.favorDecSpeed);
  }

  /** All positions of a region are priced; the last step of the best path is returned. */
  method Fill(k: Call, t: ChainTables, opt: array<Cell>, ip: nat, last0: nat, c: Settings)
      returns (cur: nat, bestMlen: nat, bestOff: int, last: nat)
    requires k.Valid() && k.source <= ip && MINMATCH <= last0 < OPT_NUM && ip + last0 <= Matchlimit(k)
    requires CellsOk(k, ip, opt[..], last0 + TRAILING_LITERALS + 1)
    requires t.Exact(k.s) && t.nextToUpdate <= ip && k.s.Padded()
    modifies opt, t`nextToUpdate, t.hashTable, t.chainTable
    ensures CellsOk(k, ip, opt[..], cur + 1) && cur < last <= cur + bestMlen
    ensures 1 <= bestMlen && StepOk(k, ip, cur, bestOff, bestMlen)
    ensures t.Exact(k.s) && t.nextToUpdate <= ip + cur + bestMlen
            && t.nextToUpdate <= Max(old(t.nextToUpdate), Mflimit(k))
    ensures old(t.Value()).Sized() && |old(opt[..])| == OPT_NUM + TRAILING_LITERALS
    ensures Choice(cur, bestMlen, bestOff, last, opt[..], t.Value())
            == PricedFrom(k.Bare(), old(t.Value()), old(opt[..]), ip, 1, last0, c)
  {
    hide Good, CellOk, ChainTables.Exact, PricedFrom, Pricing, CellsOk;
    SizedTables(k, t);
    CellsSize(k, ip, opt[..], last0 + TRAILING_LITERALS + 1);
    ghost var p := PricedFrom(k.Bare(), t.Value(), opt[..], ip, 1, last0, c);
    cur, last := 1, last0;
    PricingStarts(k, t, opt[..], ip, last, c);
    while cur < last && ip + cur <= Mflimit(k)
      invariant 1 <= cur <= last && Pricing(k, t, opt[..], ip, cur, last, c, p)
      invariant t.nextToUpdate <= Max(old(t.nextToUpdate), Mflimit(k))
      decreases Mflimit(k) - cur
    {
      var len, off, ends;
      last, len, off, ends := PriceOne(k, t, opt, ip, cur, last, c, p);
      if ends {
        MatchIsStep(k, ip, cur, off, len);
        return cur, len, off, cur + 1;
      }
      PricingParts(k, t, opt[..], ip, cur + 1, last, c, p);
      cur := cur + 1;
    }
    PricingDone(k, t, opt[..], ip, cur, last, c, p);
    bestMlen, bestOff := opt[last].mlen, opt[last].off;
    cur := last - bestMlen;
  }

  /** The shortest step over the first match and the literals before its end are as they were set first. */
  predicate FirstStays(o: seq<Cell>, llen: nat, off: int)
  {
    && MINMATCH < |o| && (forall i :: 0 <= i < MINMATCH ==> o[i] == Cell(LiteralsPrice(llen + i), 0, 1, llen + i))
    && o[MINMATCH] == Cell(SequencePrice(llen, MINMATCH), off, MINMATCH, llen)
  }

  /** Four literals cost more than the shortest match. */
  lemma {:induction false} LiteralsCostMore(llen: nat)
    ensures SequencePrice(llen, MINMATCH) < LiteralsPrice(llen + MINMATCH)
  {
  }

  lemma {:induction false} FoundTwo(k: Call, t: Tables, ip: nat, minLen: nat, c: Settings)
    requires k.Valid() && t.Sized() && 1 <= minLen
    ensures FoundLonger(k, t, ip, minLen, c).0 != 1
  {
  }

  lemma {:induction false} StaysMatch(o: seq<Cell>, llen: nat, off: int)
    requires FirstStays(o, llen, off)
    ensures MINMATCH < |o| && o[MINMATCH].mlen == MINMATCH
  {
  }

  lemma {:induction false} LiteralKept(o: seq<Cell>, cur: nat, i: nat, llen: nat, off: int)
    requires 1 <= cur < i <= MINMATCH < |o| && FirstStays(o, llen, off)
    ensures o[cur] == Cell(LiteralsPrice(llen + cur), 0, 1, llen + cur) && WithLiterals(o, cur, i - cur) == o[i]
  {
    LiteralsCostMore(llen);
    hide LiteralsPrice, SequencePrice;
    assert o[cur] == Cell(LiteralsPrice(llen + cur), 0, 1, llen + cur);
    assert o[cur].litlen + (i - cur) == llen + i;
    if i < MINMATCH {
      assert o[i] == Cell(LiteralsPrice(llen + i), 0, 1, llen + i);
    }
  }

  lemma {:induction false} LiteralsKeep(o: seq<Cell>, cur: nat, llen: nat, off: int)
    requires 1 <= cur && cur + MINMATCH <= |o| && 0 <= o[cur].litlen && FirstStays(o, llen, off)
    ensures FirstStays(LiteralCells(o, cur), llen, off)
  {
    hide LiteralsPrice, SequencePrice, FirstStays, WithLiterals;
    forall i | 0 <= i <= MINMATCH
      ensures LiteralCells(o, cur)[i] == o[i]
    {
      if cur < i {
        LiteralKept(o, cur, i, llen, off);
      }
    }
    SameFirst(o, LiteralCells(o, cur), llen, off);
  }

  lemma {:induction false} SameFirst(o: seq<Cell>, o': seq<Cell>, llen: nat, off: int)
    requires FirstStays(o, llen, off) && MINMATCH < |o'| && forall i :: 0 <= i <= MINMATCH ==> o'[i] == o[i]
    ensures FirstStays(o', llen, off)
  {
    hide LiteralsPrice, SequencePrice;
    assert forall i :: 0 <= i < MINMATCH ==> o'[i] == o[i];
    assert o'[MINMATCH] == o[MINMATCH];
  }

  lemma {:induction false} ExtendedKeeps(o: seq<Cell>, cur: nat, last: nat, len: nat, off: int, favorDecSpeed: bool,
                                         llen: nat, first: int)
    requires |o| == OPT_NUM + TRAILING_LITERALS && 1 <= cur < last < OPT_NUM && cur + len < OPT_NUM
    requires 0 <= o[cur].litlen && MINMATCH <= last && FirstStays(o, llen, first)
    ensures FirstStays(Extended(o, cur, last, len, off, favorDecSpeed).0, llen, first)
  {
    hide LiteralsPrice, SequencePrice, Taken, ByMatch;
    var o1 := LiteralCells(o, cur);
    LiteralsKeep(o, cur, llen, first);
    assert FirstStays(MatchCells(o1, cur, len, off, last, favorDecSpeed), llen, first);
  }

  /** Pricing never gives up the shortest step over the first match, so no way to a later position is all literals. */
  lemma {:induction false} PricedKeeps(k: Call, t: Tables, o: seq<Cell>, ip: nat, cur: nat, last: nat, c: Settings,
                                       llen: nat, first: int)
    requires k.Valid() && t.Sized() && |o| == OPT_NUM + TRAILING_LITERALS && 1 <= cur <= last < OPT_NUM
    requires MINMATCH <= last && FirstStays(o, llen, first)
    ensures var p := PricedFrom(k, t, o, ip, cur, last, c);
            FirstStays(p.cells, llen, first) && (p.mlen == 1 ==> MINMATCH <= p.cur)
    decreases k.s.end - ip - cur
  {
    hide FirstStays, Extended, SkipSearch, FoundLonger;
    if cur >= last || ip + cur > Mflimit(k) {
      StaysMatch(o, llen, first);
    } else if SkipSearch(o, cur, c.fullUpdate) {
      PricedKeeps(k, t, o, ip, cur + 1, last, c, llen, first);
    } else {
      var (len, off, t') := FoundLonger(k, t, ip + cur, if c.fullUpdate then MINMATCH - 1 else last - cur, c);
      FoundTwo(k, t, ip + cur, if c.fullUpdate then MINMATCH - 1 else last - cur, c);
      if len == 0 {
        PricedKeeps(k, t', o, ip, cur + 1, last, c, llen, first);
      } else if !(len > c.sufficientLen || len + cur >= OPT_NUM || o[cur].litlen < 0) {
        var (o', last') := Extended(o, cur, last, len, off, c.favorDecSpeed);
        ExtendedKeeps(o, cur, last, len, off, c.favorDecSpeed, llen, first);
        PricedKeeps(k, t', o', ip, cur + 1, last', c, llen, first);
      }
    }
  }

  lemma {:induction false} WayHasMatch(k: Call, ip: nat, o: seq<Cell>, p: nat, llen: nat, first: int)
    requires k.Valid() && CellsOk(k, ip, o, p + 1) && FirstStays(o, llen, first) && MINMATCH <= p
    ensures HasMatch(StepsTo(k, ip, o, p))
  {
    hide StepOk;
    assert CellOk(k, ip, o[p], p);
    var before, step := StepsTo(k, ip, o, p - o[p].mlen), Step(p - o[p].mlen, o[p].off, o[p].mlen);
    assert step in before + [step];
    if o[p].mlen == 1 {
      WayHasMatch(k, ip, o, p - 1, llen, first);
      var s :| s in before && s.mlen != 1;
      assert s in before + [step];
    }
  }

  lemma {:induction false} WholeHasMatch(k: Call, ip: nat, o: seq<Cell>, cur: nat, s: Step, llen: nat, first: int)
    requires k.Valid() && CellsOk(k, ip, o, cur + 1) && FirstStays(o, llen, first) && (s.mlen == 1 ==> MINMATCH <= cur)
    ensures HasMatch(StepsTo(k, ip, o, cur) + [s])
  {
    hide CellsOk, FirstStays, StepsTo;
    var before := StepsTo(k, ip, o, cur);
    assert s in before + [s];
    if s.mlen == 1 {
      WayHasMatch(k, ip, o, cur, llen, first);
      var s' :| s' in before && s'.mlen != 1;
      assert s' in before + [s];
    }
  }

  lemma {:induction false} PricingStarts(k: Call, t: ChainTables, o: seq<Cell>, ip: nat, last: nat, c: Settings)
    requires k.Valid() && MINMATCH <= last < OPT_NUM && ip + last <= Matchlimit(k)
    requires CellsOk(k, ip, o, last + TRAILING_LITERALS + 1)
    requires t.Exact(k.s) && t.nextToUpdate <= ip && t.Value().Sized()
    ensures Pricing(k, t, o, ip, 1, last, c, PricedFrom(k.Bare(), t.Value(), o, ip, 1, last, c))
  {
    hide CellOk, PricedFrom, ChainTables.Exact;
  }

  lemma {:induction false} PricingParts(k: Call, t: ChainTables, o: seq<Cell>, ip: nat, cur: nat, last: nat,
                                        c: Settings, p: Choice)
    requires k.Valid() && Pricing(k, t, o, ip, cur, last, c, p)
    ensures 1 <= cur <= last
  {
  }

  /** When all positions are priced the last cell tells the last step. */
  lemma {:induction false} PricingDone(k: Call, t: ChainTables, o: seq<Cell>, ip: nat, cur: nat, last: nat,
                                       c: Settings, p: Choice)
    requires k.Valid() && Pricing(k, t, o, ip, cur, last, c, p) && (cur >= last || ip + cur > Mflimit(k))
    ensures last < |o| && t.Exact(k.s) && 1 <= o[last].mlen <= last && t.nextToUpdate <= ip + cur && cur <= last
    ensures CellsOk(k, ip, o, last - o[last].mlen + 1)
    ensures StepOk(k, ip, last - o[last].mlen, o[last].off, o[last].mlen)
    ensures p == Choice(last - o[last].mlen, o[last].mlen, o[last].off, last, o, t.Value())
  {
    hide CellOk, PricedFrom, ChainTables.Exact, StepOk;
    PricedEnd(k.Bare(), t.Value(), o, ip, cur, last, c);
    FewerCells(k, ip, o, last + TRAILING_LITERALS + 1, last + 1);
    CellStep(k, ip, o, last);
    FewerCells(k, ip, o, last + TRAILING_LITERALS + 1, last - o[last].mlen + 1);
  }

  lemma {:induction false} MatchIsStep(k: Call, ip: nat, cur: nat, off: int, len: nat)
    requires k.Valid() && Good(k, Match(ip + cur, ip + cur - off, len))
    ensures StepOk(k, ip, cur, off, len) && MINMATCH <= len
  {
    hide Repeats;
  }

  // ---------------------------------------------------------------- what the parser plans

  /** What a region comes to: its output, where the main loop goes on, the cells and the tables. */
  datatype Priced = Priced(out: Output, ip: nat, cells: seq<Cell>, tables: Tables)

  function RegionPlan(k: Call, t: Tables, o: seq<Cell>, out: Output, ip: nat, len: nat, off: int, c: Settings)
      : (r: Priced)
    requires k.Valid() && t.Sized() && |o| == OPT_NUM + TRAILING_LITERALS && 1 <= len < OPT_NUM
    ensures r.tables.Sized() && |r.cells| == |o| && Goes(k, out, r.out)
  {
    var ch := PricedFrom(k, t, FirstCells(o, Max(0, ip - out.anchor), len, off), ip, 1, len, c);
    var steps := BackSteps(ch.cells, ch.cur) + [Step(ch.cur, ch.off, ch.mlen)];
    Priced(Walked(k, out, ip, steps), Max(0, ip + ch.cur + ch.mlen), TurnedCells(ch.cells, ch.cur, ch.mlen, ch.off),
           ch.tables)
  }

  /** The main loop. */
  function OptimalFrom(k: Call, t: Tables, o: seq<Cell>, out: Output, ip: nat, c: Settings): (p: Planned)
    requires k.Valid() && t.Sized() && |o| == OPT_NUM + TRAILING_LITERALS && c.sufficientLen < OPT_NUM
    ensures p.tables.Sized() && Goes(k, out, p.out)
    decreases k.s.end - ip
  {
    GoesNowhere(k, out);
    if ip > Mflimit(k) then Planned(out, t)
    else
      var (len, off, t') := FoundLonger(k, t, ip, MINMATCH - 1, c);
      if len == 0 then OptimalFrom(k, t', o, out, ip + 1, c)
      else if len > c.sufficientLen then
        var out' := Emitted(k, out, Match(ip, ip - off, len));
        var p := OptimalFrom(k, t', o, out', ip + len, c);
        GoesOn(k, out, out', p.out);
        p
      else
        var r := RegionPlan(k, t', o, out, ip, len, off, c);
        if ip < r.ip then
          var p := OptimalFrom(k, r.tables, r.cells, r.out, r.ip, c);
          GoesOn(k, out, r.out, p.out);
          p
        else Planned(r.out, r.tables)
  }

  function NoCells(): (o: seq<Cell>)
    ensures |o| == OPT_NUM + TRAILING_LITERALS
  {
    seq(OPT_NUM + TRAILING_LITERALS, _ => Cell(0, 0, 0, 0))
  }

  /** The whole block. */
  function OptimalPlan(k: Call, t: Tables, c: Settings): (p: Planned)
    requires k.Valid() && t.Sized() && c.sufficientLen < OPT_NUM
    ensures p.tables.Sized() && Goes(k, Output(Start, k.source), p.out)
  {
    OptimalFrom(k, t, NoCells(), Output(Start, k.source), k.source, c)
  }

  // ---------------------------------------------------------------- the main loop

  /** From a first match to the end of the path that turns out cheapest. */
  method Region(k: Call, t: ChainTables, dst: array<byte>, op0: nat, anchor0: nat, ip0: nat, opt: array<Cell>,
      len: nat, off: int, c: Settings, ghost ss0: Seqs)
      returns (ok: bool, ip: nat, op: nat, anchor: nat, ghost ss: Seqs)
    requires k.Valid() && HcInv(k, dst[..], op0, ss0, anchor0) && anchor0 <= ip0
             && opt.Length == OPT_NUM + TRAILING_LITERALS
    requires Good(k, Match(ip0, ip0 - off, len)) && len < OPT_NUM && t.Exact(k.s) && t.nextToUpdate <= ip0
             && k.s.Padded() && Open(k, Output(ss0, anchor0), op0)
    modifies dst, opt, t`nextToUpdate, t.hashTable, t.chainTable
    ensures HcInv(k, dst[..], op, ss, anchor) && t.Exact(k.s) && t.nextToUpdate <= Max(old(t.nextToUpdate), Mflimit(k))
    ensures !ok ==> k.limit != NotLimited && k.Oend() < CompressBound(k.N())
    ensures ok ==> ip0 + MINMATCH <= anchor <= ip && t.nextToUpdate <= ip
    ensures Open(k, Output(ss, anchor), op) && 1 <= len && old(t.Value()).Sized()
    ensures var r := RegionPlan(k.Bare(), old(t.Value()), old(opt[..]), Output(ss0, anchor0), ip0, len, off, c);
            if ok then r == Priced(Output(ss, anchor), ip, opt[..], t.Value())
            else Stuck(k, Output(ss, anchor), op, r.out)
  {
    hide HcInv, Good, CellsOk, Path, StepOk, StepsTo, StepsFrom, PathPrice, ChainTables.Exact, Open, Stuck, PricedFrom,
        Walked, Goes, FirstCells, TurnedCells, BackSteps, HasMatch;
    GoodLength(k, Match(ip0, ip0 - off, len));
    SizedTables(k, t);
    SetFirst(k, ip0, opt, ip0 - anchor0, len, off);
    PricedKeeps(k.Bare(), t.Value(), opt[..], ip0, 1, len, c, ip0 - anchor0, off);
    var cur, bestMlen, bestOff, last := Fill(k, t, opt, ip0, len, c);
    BackStepsIs(k, ip0, opt[..], cur);
    WholeHasMatch(k, ip0, opt[..], cur, Step(cur, bestOff, bestMlen), ip0 - anchor0, off);
    Reverse(k, ip0, opt, cur, bestMlen, bestOff, last);
    ok, ip, op, anchor, ss := EncodePath(k, dst, op0, anchor0, ip0, opt, last, cur + bestMlen, ss0);
  }

  /** A match good enough to be written without further ado. */
  method Immediate(k: Call, dst: array<byte>, op0: nat, anchor0: nat, ip0: nat, len: nat, off: int, ghost ss0: Seqs)
      returns (full: bool, ip: nat, op: nat, anchor: nat, ghost ss: Seqs)
    requires k.Valid() && HcInv(k, dst[..], op0, ss0, anchor0) && anchor0 <= ip0 && Good(k, Match(ip0, ip0 - off, len))
    requires Open(k, Output(ss0, anchor0), op0)
    modifies dst
    ensures HcInv(k, dst[..], op, ss, anchor) && Open(k, Output(ss, anchor), op)
    ensures if full then k.limit != NotLimited && k.Oend() < CompressBound(k.N()) && ip == ip0
            else ip == anchor == ip0 + len
    ensures var planned := Emitted(k.Bare(), Output(ss0, anchor0), Match(ip0, ip0 - off, len));
            if full then Stuck(k, Output(ss, anchor), op, planned) else Output(ss, anchor) == planned
  {
    hide HcInv, Repeats, Open, Stuck, Emitted, Goes;
    var ok;
    ok, op, ss := Put(k, dst, op0, anchor0, Match(ip0, ip0 - off, len), ss0);
    if !ok {
      return true, ip0, op0, anchor0, ss0;
    }
    return false, ip0 + len, op, ip0 + len, ss;
  }

  /**
    Up to `ip` every position is passed over for want of a match, or lies in a region that starts with a match found
    and in which a match written ends.
  */
  ghost predicate PassedOver(k: Call, rs: seq<Stretch>, ss: Seqs, ip: nat, attempts: nat)
    requires k.Valid()
  {
    && (forall r :: r in rs ==> StartsWithMatch(k, r.from) && MatchWithin(k, ss, r))
    && forall x :: k.source <= x < ip && x <= Mflimit(k) ==> NoMatchAt(k, x, attempts) || InRegion(rs, x)
  }

  ghost predicate StartsWithMatch(k: Call, x: nat)
    requires k.Valid()
  {
    exists m: Match :: m.start == x && Good(k, m)
  }

  predicate MatchWithin(k: Call, ss: Seqs, r: Stretch)
  {
    exists x :: r.from + MINMATCH <= x <= r.to && MatchEndsAt(k, ss, x)
  }

  lemma {:induction false} WithinStays(k: Call, ss: Seqs, ss': Seqs, r: Stretch)
    requires MatchWithin(k, ss, r) && Extends(ss, ss')
    ensures MatchWithin(k, ss', r)
  {
    var x :| r.from + MINMATCH <= x <= r.to && MatchEndsAt(k, ss, x);
    EndsStay(k, ss, ss', x);
  }

  lemma {:induction false} OnePassed(k: Call, rs: seq<Stretch>, ss: Seqs, ip: nat, attempts: nat)
    requires k.Valid() && PassedOver(k, rs, ss, ip, attempts) && NoMatchAt(k, ip, attempts)
    ensures PassedOver(k, rs, ss, ip + 1, attempts)
  {
    hide NoMatchAt, InRegion, StartsWithMatch, MatchWithin;
  }

  lemma {:induction false} RegionPassed(k: Call, rs: seq<Stretch>, ss: Seqs, ss': Seqs, m: Match, x: nat, to: nat,
                                        attempts: nat)
    requires k.Valid() && PassedOver(k, rs, ss, m.start, attempts) && Good(k, m) && Extends(ss, ss')
    requires m.start + MINMATCH <= x <= to && MatchEndsAt(k, ss', x)
    ensures PassedOver(k, rs + [Stretch(m.start, to)], ss', to, attempts)
  {
    hide NoMatchAt, Good, MatchEndsAt, Extends;
    var last := Stretch(m.start, to);
    var rs' := rs + [last];
    assert last in rs';
    assert MatchWithin(k, ss', last);
    forall r | r in rs'
      ensures StartsWithMatch(k, r.from) && MatchWithin(k, ss', r)
    {
      if r in rs {
        WithinStays(k, ss, ss', r);
      }
    }
    forall y | k.source <= y < to && y <= Mflimit(k)
      ensures NoMatchAt(k, y, attempts) || InRegion(rs', y)
    {
      if y < m.start {
        RegionStays(rs, rs', y);
      }
    }
  }

  /** How many of the newest candidates a search is sure to have looked at. */
  function SureAttempts(c: Settings): nat
  {
    if c.favorDecSpeed || c.nbSearches == 0 then 0 else 1
  }

  lemma {:induction false} NoneFound(k: Call, ip: nat, c: Settings)
    requires k.Valid() && k.source <= ip <= Mflimit(k)
    requires !c.favorDecSpeed && c.nbSearches > 0 ==>
               NewestBeaten(k.s, Query(ip, ip, Matchlimit(k), MINMATCH - 1), 1, MINMATCH - 1)
    ensures NoMatchAt(k, ip, SureAttempts(c))
  {
    NoneOfNone(k.s, Query(ip, ip, Matchlimit(k), MINMATCH - 1), MINMATCH - 1);
  }

  /** Between two turns of the main loop. */
  ghost predicate LoopOk(k: Call, b: seq<byte>, op: nat, out: Output, ip: nat, o: seq<Cell>, t: Tables, p: Planned,
                         regions: seq<Stretch>, c: Settings)
    requires k.Valid()
  {
    && HcInv(k, b, op, out.ss, out.anchor) && out.anchor <= ip && k.source <= ip && Open(k, out, op)
    && t.Sized() && |o| == OPT_NUM + TRAILING_LITERALS && c.sufficientLen < OPT_NUM
    && OptimalFrom(k.Bare(), t, o, out, ip, c) == p
    && PassedOver(k, regions, out.ss, ip, SureAttempts(c))
  }

  lemma {:induction false} OptimalStep(k: Call, t: Tables, o: seq<Cell>, out: Output, ip: nat, c: Settings)
    requires k.Valid() && t.Sized() && |o| == OPT_NUM + TRAILING_LITERALS && c.sufficientLen < OPT_NUM
    requires ip <= Mflimit(k)
    ensures var p := OptimalFrom(k.Bare(), t, o, out, ip, c);
            var (len, off, t') := FoundLonger(k.Bare(), t, ip, MINMATCH - 1, c);
            if len == 0 then p == OptimalFrom(k.Bare(), t', o, out, ip + 1, c)
            else if len > c.sufficientLen then
              var out' := Emitted(k.Bare(), out, Match(ip, ip - off, len));
              p == OptimalFrom(k.Bare(), t', o, out', ip + len, c) && Goes(k.Bare(), out', p.out)
            else
              var r := RegionPlan(k.Bare(), t', o, out, ip, len, off, c);
              && Goes(k.Bare(), r.out, p.out)
              && (ip < r.ip ==> p == OptimalFrom(k.Bare(), r.tables, r.cells, r.out, r.ip, c))
  {
    hide FoundLonger, RegionPlan, Emitted, Goes;
    var (len, off, t') := FoundLonger(k.Bare(), t, ip, MINMATCH - 1, c);
    if 0 < len <= c.sufficientLen {
      GoesNowhere(k.Bare(), RegionPlan(k.Bare(), t', o, out, ip, len, off, c).out);
    }
  }

  lemma {:induction false} OptimalEnd(k: Call, t: Tables, o: seq<Cell>, out: Output, ip: nat, c: Settings)
    requires k.Valid() && t.Sized() && |o| == OPT_NUM + TRAILING_LITERALS && c.sufficientLen < OPT_NUM
    requires ip > Mflimit(k)
    ensures OptimalFrom(k.Bare(), t, o, out, ip, c) == Planned(out, t)
  {
    hide FoundLonger, RegionPlan, Emitted, Goes;
  }

  /** The output is full: there is no room for the whole block, or it has been filled. */
  lemma {:induction false} Overflow(k: Call, b: seq<byte>, op: nat, o: Output, planned: Output, p: Planned)
    requires k.Valid() && HcInv(k, b, op, o.ss, o.anchor) && Open(k, o, op)
    requires Stuck(k, o, op, planned) && Goes(k.Bare(), planned, p.out)
    ensures if k.limit == LimitedOutput then TooLong(k, p) else Arrived(k, p, o, op)
    ensures k.limit != NotLimited
  {
    hide HcInv, Open, Stuck, Goes, TooLong, Arrived;
    BareSame(k, planned, p.out, Match(0, 0, 0));
    StuckOn(k, o, op, planned, p.out);
    StuckEnds(k, b, op, o, p);
  }

  /** One turn: a search, and what becomes of a match. */
  method Turn(k: Call, t: ChainTables, dst: array<byte>, op0: nat, anchor0: nat, ip0: nat, opt: array<Cell>,
              c: Settings, ghost ss0: Seqs, ghost p: Planned, ghost regions0: seq<Stretch>)
      returns (full: bool, ip: nat, op: nat, anchor: nat, ghost ss: Seqs, ghost regions: seq<Stretch>)
    requires k.Valid() && t.Exact(k.s) && t.nextToUpdate <= ip0 <= Mflimit(k) && k.s.Padded() && k.source <= ip0
    requires LoopOk(k, dst[..], op0, Output(ss0, anchor0), ip0, opt[..], t.Value(), p, regions0, c)
    modifies dst, opt, t`nextToUpdate, t.hashTable, t.chainTable
    ensures t.Exact(k.s) && t.nextToUpdate <= Max(old(t.nextToUpdate), Mflimit(k))
    ensures !full ==> ip0 < ip && t.nextToUpdate <= ip && k.source <= ip
                      && LoopOk(k, dst[..], op, Output(ss, anchor), ip, opt[..], t.Value(), p, regions, c)
    ensures full ==>
              && HcInv(k, dst[..], op, ss, anchor) && k.limit != NotLimited && k.Oend() < CompressBound(k.N())
              && (if k.limit == LimitedOutput then TooLong(k, p) else Arrived(k, p, Output(ss, anchor), op))
  {
    hide HcInv, ChainTables.Exact, Open, Stuck, OptimalFrom, Arrived, TooLong, Goes, PassedOver, FoundLonger,
        RegionPlan, NewestBeaten, Good, Emitted;
    full, ip, op, anchor, ss, regions := false, ip0, op0, anchor0, ss0, regions0;
    OptimalStep(k, t.Value(), opt[..], Output(ss, anchor), ip, c);
    var len, off := FindLongerMatch(k, t, ip, MINMATCH - 1, c);
    SizedTables(k, t);
    if len == 0 {
      NoneFound(k, ip, c);
      OnePassed(k, regions, ss, ip, SureAttempts(c));
      ip := ip + 1;
      return;
    }
    ghost var first := Match(ip, ip - off, len);
    GoodLength(k, first);
    if len > c.sufficientLen {
      full, ip, op, anchor, ss := Immediate(k, dst, op, anchor, ip, len, off, ss);
      if full {
        Overflow(k, dst[..], op, Output(ss, anchor), Emitted(k.Bare(), Output(ss0, anchor0), first), p);
        return;
      }
    } else {
      ghost var t1, o1 := t.Value(), opt[..];
      var ok;
      ok, ip, op, anchor, ss := Region(k, t, dst, op, anchor, ip, opt, len, off, c, ss);
      full := !ok;
      if full {
        Overflow(k, dst[..], op, Output(ss, anchor),
                 RegionPlan(k.Bare(), t1, o1, Output(ss0, anchor0), ip0, len, off, c).out, p);
        return;
      }
    }
    SizedTables(k, t);
    LastEnd(k, dst[..], op, ss, anchor);
    GoesParts(k.Bare(), Output(ss0, anchor0), Output(ss, anchor));
    RegionPassed(k, regions, ss0, ss, first, anchor, ip, SureAttempts(c));
    regions := regions + [Stretch(ip0, ip)];
  }

  lemma {:induction false} LoopStarts(k: Call, b: seq<byte>, t: Tables, o: seq<Cell>, c: Settings)
    requires k.Valid() && HcInv(k, b, 0, Start, k.source) && t.Sized() && o == NoCells() && c.sufficientLen < OPT_NUM
    ensures LoopOk(k, b, 0, Output(Start, k.source), k.source, o, t, OptimalPlan(k.Bare(), t, c), [], c)
  {
    hide HcInv, OptimalFrom;
    StartOpen(k);
  }

  lemma {:induction false} LoopEnds(k: Call, b: seq<byte>, op: nat, out: Output, ip: nat, o: seq<Cell>, t: Tables,
                                    p: Planned, regions: seq<Stretch>, c: Settings)
    requires k.Valid() && LoopOk(k, b, op, out, ip, o, t, p, regions, c) && ip > Mflimit(k)
    ensures Arrived(k, p, out, op) && p.tables == t && HcInv(k, b, op, out.ss, out.anchor)
    ensures k.limit != FillOutput ==> PassedOver(k, regions, p.out.ss, k.s.end, SureAttempts(c))
  {
    hide HcInv, OptimalFrom, NoMatchAt, InRegion, StartsWithMatch, MatchWithin;
    OptimalEnd(k, t, o, out, ip, c);
    PlanArrives(k, p, out, op, t);
  }

  lemma {:induction false} LoopParts(k: Call, b: seq<byte>, op: nat, out: Output, ip: nat, o: seq<Cell>, t: Tables,
                                     p: Planned, regions: seq<Stretch>, c: Settings)
    requires k.Valid() && LoopOk(k, b, op, out, ip, o, t, p, regions, c)
    ensures HcInv(k, b, op, out.ss, out.anchor)
  {
  }

  /** What LZ4HC_compress_optimal makes of its parameters. */
  function SettingsFor(nbSearches: nat, targetLen: nat, fullUpdate: bool, favorDecSpeed: bool): (c: Settings)
    ensures c.sufficientLen < OPT_NUM
  {
    Settings(nbSearches, if targetLen >= OPT_NUM then OPT_NUM - 1 else targetLen, fullUpdate, favorDecSpeed)
  }

  /** LZ4HC_compress_optimal; it swaps chains, and so may read three bytes behind a dictionary. */
  method CompressOptimal(k: Call, t: ChainTables, dst: array<byte>, nbSearches: nat, targetLen: nat, fullUpdate: bool,
                         favorDecSpeed: bool)
      returns (r: nat, consumed: nat, ghost regions: seq<Stretch>)
    requires k.Valid() && t.Exact(k.s) && t.nextToUpdate <= k.source && k.s.Padded()
    requires if k.limit == NotLimited then CompressBound(k.N()) <= dst.Length else k.olimit <= dst.Length
    modifies dst, t`nextToUpdate, t.hashTable, t.chainTable
    ensures t.Exact(k.s) && t.nextToUpdate <= Max(old(t.nextToUpdate), Mflimit(k))
    ensures r == 0 ==> k.limit == LimitedOutput && k.olimit < CompressBound(k.N())
    ensures r > 0 ==> HcCompressed(k, dst[..], r, consumed)
    ensures var c := SettingsFor(nbSearches, targetLen, fullUpdate, favorDecSpeed);
            && old(t.Value()).Sized()
            && Outcome(k, OptimalPlan(k.Bare(), old(t.Value()), c), dst[..], r, consumed)
            && (r > 0 && k.limit != FillOutput ==>
                  && t.Value() == OptimalPlan(k.Bare(), old(t.Value()), c).tables
                  && PassedOver(k, regions, OptimalPlan(k.Bare(), old(t.Value()), c).out.ss, k.s.end, SureAttempts(c)))
  {
    hide HcInv, HcCompressed, ChainTables.Exact, LoopOk, Outcome, Arrived, TooLong, PassedOver, Ends, OptimalPlan, Goes;
    SizedTables(k, t);
    var c := SettingsFor(nbSearches, targetLen, fullUpdate, favorDecSpeed);
    ghost var p := OptimalPlan(k.Bare(), t.Value(), c);
    regions := [];
    ghost var ss := Start;
    var op: nat, anchor: nat, ip: nat := 0, k.source, k.source;
    StartInv(k, dst[..]);
    var opt := new Cell[OPT_NUM + TRAILING_LITERALS](i => Cell(0, 0, 0, 0));
    assert opt[..] == NoCells();
    LoopStarts(k, dst[..], t.Value(), opt[..], c);
    var full := false;
    while !full && ip <= Mflimit(k)
      invariant t.Exact(k.s) && t.nextToUpdate <= Max(old(t.nextToUpdate), Mflimit(k))
      invariant HcInv(k, dst[..], op, ss, anchor)
      invariant !full ==> t.nextToUpdate <= ip && k.source <= ip
                          && LoopOk(k, dst[..], op, Output(ss, anchor), ip, opt[..], t.Value(), p, regions, c)
      invariant full ==> k.limit == FillOutput && Arrived(k, p, Output(ss, anchor), op)
      decreases !full, k.s.end - ip
    {
      full, ip, op, anchor, ss, regions := Turn(k, t, dst, op, anchor, ip, opt, c, ss, p, regions);
      if full && k.limit == LimitedOutput {
        TooLongFails(k, p, dst[..]);
        return 0, 0, regions;
      }
      if !full {
        LoopParts(k, dst[..], op, Output(ss, anchor), ip, opt[..], t.Value(), p, regions, c);
      }
    }
    if !full {
      LoopEnds(k, dst[..], op, Output(ss, anchor), ip, opt[..], t.Value(), p, regions, c);
    }
    ghost var before := dst[..];
    r, consumed := PutLast(k, dst, op, anchor, ss);
    ArrivedEnds(k, p, Output(ss, anchor), op, before, dst[..], r, consumed);
  }
}
