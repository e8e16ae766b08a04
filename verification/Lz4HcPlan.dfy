/**
  What the HC parsers write, told apart from the writing: matches put one behind the other, the size they come to, and
  what becomes of them when the output is limited or to be filled.
*/
module Lz4HcPlan {
  import opened Lz4Defs
  import opened Lz4Format
  import opened Lz4Encode
  import opened Lz4FastTable
  import opened Lz4HcChain
  import opened Lz4HcMatch
  import opened Lz4HcEncode

  /** A match: where it starts, the index it repeats, its length. */
  datatype Match = Match(start: nat, ref: int, len: nat) {
    function End(): nat
    {
      start + len
    }

    /** Without its first `c` bytes. */
    function After(c: nat): Match
      requires c <= len
    {
      Match(start + c, ref + c, len - c)
    }
  }

  /** Sequences, and where the literals behind them start. */
  datatype Output = Output(ss: Seqs, anchor: nat)

  /** A whole block: its sequences, and the tables it leaves. */
  datatype Planned = Planned(out: Output, tables: Tables)

  /** A match that can be put behind the output. */
  predicate Fits(k: Call, o: Output, m: Match)
  {
    k.source <= o.anchor <= m.start && MINMATCH <= m.len && m.End() + LASTLITERALS <= k.s.end
  }

  function SequenceFor(k: Call, o: Output, m: Match): Sequence
  {
    SequenceOf(k, o.anchor, m.start, m.ref, m.len)
  }

  /** The output with one more match. */
  function Emitted(k: Call, o: Output, m: Match): (o': Output)
    requires k.Valid()
    ensures Goes(k, o, o')
  {
    if Fits(k, o, m) then
      EmittedGoes(k, o, m);
      Output(Snoc(o.ss, SequenceFor(k, o, m)), m.End())
    else
      o
  }

  /** Outputs end five bytes before the block does, and are hardly longer than what they say. */
  predicate InBlock(k: Call, o: Output)
  {
    && k.source <= o.anchor <= k.s.end && (o.ss.Snoc? ==> o.anchor + LASTLITERALS <= k.s.end)
    && Lean(SizeOf(o.ss), o.anchor - k.source)
  }

  /** What comes later only adds to what was there. */
  predicate Goes(k: Call, o: Output, o': Output)
  {
    Extends(o.ss, o'.ss) && (InBlock(k, o) ==> InBlock(k, o'))
  }

  lemma {:induction false} EmittedGoes(k: Call, o: Output, m: Match)
    requires k.Valid() && Fits(k, o, m)
    ensures Goes(k, o, Output(Snoc(o.ss, SequenceFor(k, o, m)), m.End()))
  {
    hide SequenceOf;
    var s := SequenceFor(k, o, m);
    assert Extends(o.ss, Snoc(o.ss, s).init);
    if InBlock(k, o) {
      LeanStep(SizeOf(o.ss), o.anchor - k.source, m.start - o.anchor, m.len);
    }
  }

  lemma {:induction false} ExtendsOn(a: Seqs, b: Seqs, c: Seqs)
    requires Extends(a, b) && Extends(b, c)
    ensures Extends(a, c)
    decreases c
  {
    if b != c {
      ExtendsOn(a, b, c.init);
    }
  }

  lemma {:induction false} GoesOn(k: Call, a: Output, b: Output, c: Output)
    requires Goes(k, a, b) && Goes(k, b, c)
    ensures Goes(k, a, c)
  {
    hide InBlock;
    ExtendsOn(a.ss, b.ss, c.ss);
  }

  /** Plans are made without regard to limits. */
  lemma {:induction false} BareSame(k: Call, o: Output, o': Output, m: Match)
    requires k.Valid()
    ensures k.Bare().Valid() && k.Bare().N() == k.N()
    ensures Fits(k.Bare(), o, m) <==> Fits(k, o, m)
    ensures Emitted(k.Bare(), o, m) == Emitted(k, o, m)
    ensures Goes(k.Bare(), o, o') <==> Goes(k, o, o')
  {
    hide Extends, Lean;
  }

  // ---------------------------------------------------------------- size

  /** What a block takes: its sequences, and the last literals. */
  function PlanSize(k: Call, o: Output): nat
    requires o.anchor <= k.s.end
  {
    SizeOf(o.ss) + LitSize(k.s.end - o.anchor)
  }

  /** Never more than the bound. */
  lemma {:induction false} SizeBounded(k: Call, o: Output)
    requires k.Valid() && InBlock(k, o)
    ensures 1 <= PlanSize(k, o) <= CompressBound(k.N())
  {
    LeanLast(SizeOf(o.ss), o.anchor - k.source, k.s.end - o.anchor);
  }

  lemma {:induction false} WrittenSize(k: Call, b: seq<byte>, op: nat, o: Output)
    requires k.Valid() && HcInv(k, b, op, o.ss, o.anchor)
    ensures op == SizeOf(o.ss) && InBlock(k, o)
  {
    EncodedSizeOf(k.Pos(k.source), o.ss);
  }

  // ---------------------------------------------------------------- limits

  /** Filling an output takes sequences one after the other, up to the first that does not fit. */
  function FillOf(k: Call, ss: Seqs): Filling
  {
    match ss
    case Start => Filling(Start, 0, k.source, true)
    case Snoc(i, s) => if FillOf(k, i).open then FillStep(k, FillOf(k, i), s) else FillOf(k, i)
  }

  function FillStep(k: Call, f: Filling, s: Sequence): Filling
  {
    var code := Max(0, s.mlen - MINMATCH);
    if SequenceFits(k, f.op, |s.lits|, code)
    then Filling(Snoc(f.ss, s), f.op + LitSize(|s.lits|) + 2 + ExtSize(code), f.anchor + |s.lits| + s.mlen, true)
    else f.(open := false)
  }

  lemma {:induction false} FillExtends(k: Call, a: Seqs, b: Seqs)
    requires Extends(a, b) && !FillOf(k, a).open
    ensures FillOf(k, b) == FillOf(k, a)
    decreases b
  {
    hide FillStep;
    if a != b {
      FillExtends(k, a, b.init);
    }
  }

  /** An output to be filled has taken everything so far. */
  ghost predicate Open(k: Call, o: Output, op: nat)
  {
    k.limit == FillOutput ==> FillOf(k, o.ss) == Filling(o.ss, op, o.anchor, true)
  }

  /** The next match of what is planned does not fit. */
  ghost predicate Stuck(k: Call, o: Output, op: nat, planned: Output)
    requires k.Valid()
  {
    exists m: Match :: Fits(k, o, m) && !SequenceFits(k, op, m.start - o.anchor, m.len - MINMATCH)
                       && Goes(k, Emitted(k, o, m), planned)
  }

  lemma {:induction false} StuckOn(k: Call, o: Output, op: nat, planned: Output, later: Output)
    requires k.Valid() && Stuck(k, o, op, planned) && Goes(k, planned, later)
    ensures Stuck(k, o, op, later)
  {
    hide Goes, SequenceFits, Emitted;
    var m: Match :| Fits(k, o, m) && !SequenceFits(k, op, m.start - o.anchor, m.len - MINMATCH)
                    && Goes(k, Emitted(k, o, m), planned);
    GoesOn(k, Emitted(k, o, m), planned, later);
  }

  /** All sequences that are going to be written are. */
  ghost predicate Arrived(k: Call, p: Planned, o: Output, op: nat)
  {
    if k.limit != FillOutput then p.out == o
    else FillOf(k, p.out.ss).ss == o.ss && FillOf(k, p.out.ss).op == op && FillOf(k, p.out.ss).anchor == o.anchor
  }

  /** The output does not fit. */
  ghost predicate TooLong(k: Call, p: Planned)
  {
    k.limit == LimitedOutput && p.out.anchor <= k.s.end && k.olimit < PlanSize(k, p.out)
  }

  /** What a match that does not fit means for the whole. */
  lemma {:induction false} StuckEnds(k: Call, b: seq<byte>, op: nat, o: Output, p: Planned)
    requires k.Valid() && HcInv(k, b, op, o.ss, o.anchor) && Open(k, o, op) && Stuck(k, o, op, p.out)
    ensures k.limit == LimitedOutput ==> TooLong(k, p)
    ensures k.limit == FillOutput ==> Arrived(k, p, o, op)
    ensures k.limit != NotLimited
  {
    hide HcInv, Goes, Extends, SequenceFits, LitSize, ExtSize, SequenceOf, FillOf;
    var m: Match :| Fits(k, o, m) && !SequenceFits(k, op, m.start - o.anchor, m.len - MINMATCH)
                    && Goes(k, Emitted(k, o, m), p.out);
    var s := SequenceFor(k, o, m);
    WrittenSize(k, b, op, o);
    GoesParts(k, Emitted(k, o, m), p.out);
    EmittedGoes(k, o, m);
    GoesParts(k, o, Emitted(k, o, m));
    SizeExtends(Snoc(o.ss, s), p.out.ss);
    NotFitting(k, op, m.start - o.anchor, m.len - MINMATCH);
    if k.limit == LimitedOutput {
      SizesAdd(k, o, s, p.out);
    }
    if k.limit == FillOutput {
      FillStops(k, o, op, s);
      FillExtends(k, Snoc(o.ss, s), p.out.ss);
    }
  }

  lemma {:induction false} GoesParts(k: Call, o: Output, o': Output)
    requires Goes(k, o, o')
    ensures Extends(o.ss, o'.ss) && (InBlock(k, o) ==> InBlock(k, o'))
  {
  }

  lemma {:induction false} NotFitting(k: Call, op: nat, ll: nat, code: nat)
    requires !SequenceFits(k, op, ll, code)
    ensures k.limit != NotLimited && k.Oend() < op + LitSize(ll) + 2 + ExtSize(code) + 1 + LASTLITERALS
  {
    LitSizeIs(ll);
    LenExtSize(code);
    assert code / 255 <= (code + 240) / 255;
  }

  lemma {:induction false} SizesAdd(k: Call, o: Output, s: Sequence, later: Output)
    requires SizeOf(Snoc(o.ss, s)) <= SizeOf(later.ss) && Extends(Snoc(o.ss, s), later.ss) && MINMATCH <= s.mlen
    requires InBlock(k, later)
    ensures SizeOf(o.ss) + LitSize(|s.lits|) + 2 + ExtSize(s.mlen - MINMATCH) + 1 + LASTLITERALS <= PlanSize(k, later)
  {
    hide Lean, Extends;
    NotStart(Snoc(o.ss, s), later.ss);
  }

  lemma {:induction false} NotStart(a: Seqs, b: Seqs)
    requires Extends(a, b) && a.Snoc?
    ensures b.Snoc?
  {
  }

  lemma {:induction false} FillStops(k: Call, o: Output, op: nat, s: Sequence)
    requires FillOf(k, o.ss) == Filling(o.ss, op, o.anchor, true) && MINMATCH <= s.mlen
    requires !SequenceFits(k, op, |s.lits|, s.mlen - MINMATCH)
    ensures FillOf(k, Snoc(o.ss, s)) == Filling(o.ss, op, o.anchor, false)
  {
    hide SequenceFits;
  }

  /** A match that has been written. */
  lemma {:induction false} StaysOpen(k: Call, o: Output, op: nat, m: Match)
    requires k.Valid() && Open(k, o, op) && Fits(k, o, m)
    requires SequenceFits(k, op, m.start - o.anchor, m.len - MINMATCH)
    ensures Emitted(k, o, m) == Output(Snoc(o.ss, SequenceFor(k, o, m)), m.End())
    ensures Open(k, Emitted(k, o, m), op + LitSize(m.start - o.anchor) + 2 + ExtSize(m.len - MINMATCH))
  {
    hide SequenceFits, SequenceOf, LitSize, ExtSize, Goes;
  }

  // ---------------------------------------------------------------- what a call makes of a plan

  /** The plan is followed up to where the output ends. */
  ghost predicate Filled(k: Call, p: Planned, b: seq<byte>, r: nat, consumed: nat)
    requires k.Valid()
  {
    var f := FillOf(k, p.out.ss);
    Ends(k, f.ss, f.op, f.anchor, b, r, consumed)
  }

  /** The plan is followed to its end. */
  ghost predicate Complete(k: Call, p: Planned, b: seq<byte>, r: nat, consumed: nat)
    requires k.Valid()
  {
    && consumed == k.N() && k.source <= p.out.anchor <= k.s.end && r == PlanSize(k, p.out) <= |b|
    && b[..r] == Finished(k.s.mem, p.out.ss, k.s.base + p.out.anchor, k.s.end - p.out.anchor)
  }

  /** How a call turns out: it fails exactly if it is to keep to a limit that the planned block exceeds. */
  ghost predicate Outcome(k: Call, p: Planned, b: seq<byte>, r: nat, consumed: nat)
    requires k.Valid()
  {
    && (r == 0 <==> TooLong(k, p))
    && (r > 0 ==> if k.limit == FillOutput then Filled(k, p, b, r, consumed) else Complete(k, p, b, r, consumed))
  }

  lemma {:induction false} ArrivedEnds(k: Call, p: Planned, o: Output, op: nat, c: seq<byte>, b: seq<byte>, r: nat,
                                       consumed: nat)
    requires k.Valid() && HcInv(k, c, op, o.ss, o.anchor) && Arrived(k, p, o, op)
    requires r == 0 <==> k.limit == LimitedOutput && k.olimit < op + LitSize(k.s.end - o.anchor)
    requires r > 0 ==> Ends(k, o.ss, op, o.anchor, b, r, consumed)
    ensures Outcome(k, p, b, r, consumed)
  {
    hide HcInv, LitSize, FillOf, InBlock, Finished, FittingRun;
    WrittenSize(k, c, op, o);
    InvParts(k, c, op, o.ss, o.anchor);
  }

  /** With room for `room` bytes a call writes the whole plan, and fails exactly if that is longer. */
  ghost predicate WritesWhole(k: Call, p: Planned, room: int, b: seq<byte>, r: nat)
  {
    && k.Valid() && k.source <= p.out.anchor <= k.s.end
    && (r == 0 <==> room < PlanSize(k, p.out))
    && (r > 0 ==>
          && r == PlanSize(k, p.out) <= |b|
          && b[..r] == Finished(k.s.mem, p.out.ss, k.s.base + p.out.anchor, k.s.end - p.out.anchor))
  }

  /** Whatever way the call was told how much room there is. */
  lemma {:induction false} WholeWritten(k: Call, p: Planned, room: int, b: seq<byte>, r: nat, consumed: nat)
    requires k.Valid() && Outcome(k, p, b, r, consumed) && Goes(k.Bare(), Output(Start, k.source), p.out)
    requires if k.limit == NotLimited then CompressBound(k.N()) <= room
             else k.limit == LimitedOutput && k.olimit == Max(0, room)
    ensures WritesWhole(k.Bare(), p, room, b, r)
  {
    hide Finished, Extends, SizeOf, LitSize;
    StartInBlock(k);
    SizeBounded(k, p.out);
  }

  lemma {:induction false} StartInBlock(k: Call)
    requires k.Valid()
    ensures InBlock(k.Bare(), Output(Start, k.source))
  {
  }

  /** Where input is left over the output is full but for what the reckoning of the last literals loses. */
  lemma {:induction false} FillsUp(k: Call, p: Planned, b: seq<byte>, r: nat, consumed: nat)
    requires k.Valid() && k.limit == FillOutput && Filled(k, p, b, r, consumed) && r <= k.olimit && consumed < k.N()
    ensures var f := FillOf(k, p.out.ss);
            var room := k.olimit - f.op - 1;
            var e, x := (room + 240) / 255, (room + 240) % 255;
            && 0 <= room && r == k.olimit + (x - e) / 255
            && (f.op + LitSize(k.source + consumed - f.anchor + 1) <= k.olimit <==> x + 1 < e)
  {
    hide FillOf, Finished, FittingRun, LitSize;
    var f := FillOf(k, p.out.ss);
    FillingBehind(k.olimit, f.op, k.s.end - f.anchor, k.source + consumed - f.anchor);
  }

  /** Calls that differ in their output limit only: the limited one fails exactly if the unlimited one writes more. */
  lemma {:induction false} LimitedAgrees(k: Call, k': Call, p: Planned, b: seq<byte>, r: nat, consumed: nat,
                                         b': seq<byte>, r': nat, consumed': nat)
    requires k' == k.(limit := NotLimited, olimit := k'.olimit) && k.limit == LimitedOutput && k.Valid() && k'.Valid()
    requires Outcome(k, p, b, r, consumed) && Outcome(k', p, b', r', consumed')
    ensures r == 0 <==> r' > k.olimit
    ensures r > 0 ==> r == r' && b[..r] == b'[..r'] && consumed == consumed'
  {
  }
}
