/**
  LZ4HC_compress_hashChain: the lazy parser that weighs up to three overlapping matches before it writes one.
  Every run of its search states writes matches of at least four bytes that follow each other left to right.
*/
module Lz4HcLazy {
  import opened Lz4Defs
  import opened Lz4Format
  import opened Lz4Encode
  import opened Lz4FastTable
  import opened Lz4HcChain
  import opened Lz4Count
  import opened Lz4HcPattern
  import opened Lz4HcMatch
  import opened Lz4HcSearch
  import opened Lz4HcEncode
  import opened Lz4HcPlan

  const OPTIMAL_ML: nat := ML_MASK - 1 + MINMATCH

  ghost predicate Good(k: Call, m: Match)
    requires k.Valid()
  {
    && MINMATCH <= m.len && m.End() + LASTLITERALS <= k.s.end && k.source <= m.start && m.start + MFLIMIT <= k.s.end
    && 1 <= m.start - m.ref <= DISTANCE_MAX && Repeats(k.s, m.ref, m.start, m.len)
  }

  /** A good match without its first `c` bytes. */
  lemma {:induction false} GoodPart(k: Call, m: Match, c: nat)
    requires k.Valid() && Good(k, m)
    requires c + MINMATCH <= m.len && m.start + c + MFLIMIT <= k.s.end
    ensures Good(k, m.After(c))
  {
    RepeatsPart(k.s, m.ref, m.start, m.len, c);
  }

  /** A good match cut to its first `len` bytes. */
  lemma {:induction false} GoodFront(k: Call, m: Match, len: nat)
    requires k.Valid() && Good(k, m) && MINMATCH <= len <= m.len
    ensures Good(k, m.(len := len))
  {
    RepeatsPart(k.s, m.ref, m.start, m.len, len);
  }

  // ---------------------------------------------------------------- the states

  datatype Phase = Search2 | Search3 | Proceed | Full

  /**
    The matches at hand. `m1` is the next to be written; `m0` is what `m1` was before it was replaced by a longer
    one that starts up to two bytes later; `m2` is the match after `m1`.
  */
  datatype Hand = Hand(phase: Phase, m0: Match, m1: Match, m2: Match)

  /** At the label _Search2. The first match need not start where the match before its replacement did. */
  ghost predicate Ready2(k: Call, anchor: nat, m0: Match, m1: Match)
    requires k.Valid()
  {
    && Good(k, m0) && Good(k, m1) && anchor <= m0.start <= m1.start <= m0.start + 2
    && (m0 == m1 || m0.len < m1.len)
  }

  /**
    At the label _Search3. The second match starts at least two bytes after the first and at most one byte behind
    its end, and where it comes close to either bound it is long enough for every cut to leave four bytes.
  */
  ghost predicate Ready3(k: Call, anchor: nat, m1: Match, m2: Match)
    requires k.Valid()
  {
    && Good(k, m1) && Good(k, m2) && anchor <= m1.start && m1.End() + MFLIMIT <= k.s.end
    && m1.start + 2 <= m2.start <= m1.End() + 1 && 8 <= (m2.start - m1.start) + m2.len
    && (m2.start == m1.End() + 1 ==> 5 <= m2.len)
  }

  ghost predicate HandOk(k: Call, anchor: nat, h: Hand)
    requires k.Valid()
  {
    match h.phase
    case Search2 => Ready2(k, anchor, h.m0, h.m1)
    case Search3 => Ready3(k, anchor, h.m1, h.m2)
    case Proceed => true
    case Full => true
  }

  /** The end of the newest match: it moves right with every search. */
  function Frontier(h: Hand): nat
  {
    if h.phase == Search3 then h.m2.End() else h.m1.End()
  }

  // ---------------------------------------------------------------- searching

  function Mflimit(k: Call): int
  {
    k.s.end - MFLIMIT
  }

  function Matchlimit(k: Call): int
  {
    k.s.end - LASTLITERALS
  }

  /** How this parser searches: with pattern analysis, if asked for, but without chain swapping. */
  function Trying(attempts: nat, patternAnalysis: bool): Effort
  {
    Effort(attempts, patternAnalysis, false, false)
  }

  /** What a search at the end of a match finds: nothing if the end of the block is too near. */
  function SearchedBehind(k: Call, t: Tables, m: Match, back: nat, e: Effort): (r: (Option<Match>, Tables))
    requires k.Valid() && t.Sized()
    ensures r.1.Sized()
  {
    var q := Query(Max(0, m.End() - back), m.start, Max(0, Matchlimit(k)), m.len);
    if m.End() > Mflimit(k) || !QueryOk(k.s, q) then (None, t)
    else
      var b := Searched(k.s, t, q, e);
      (if b.longest == m.len then None else Some(Match(b.start, b.ref, b.longest)), Inserted(k.s, t, q.ip))
  }

  /** A wider match at the end of `m`, `back` bytes before it; None if the end is too near or nothing wider is found. */
  method SearchBehind(k: Call, t: ChainTables, m: Match, back: nat, attempts: nat, patternAnalysis: bool)
      returns (r: Option<Match>)
    requires k.Valid() && Good(k, m) && 2 <= back <= 3
    requires t.Exact(k.s) && t.nextToUpdate <= m.End() - back
    modifies t`nextToUpdate, t.hashTable, t.chainTable
    ensures t.Exact(k.s) && t.nextToUpdate <= m.End() - back && t.nextToUpdate <= Max(old(t.nextToUpdate), Mflimit(k))
    ensures r.Some? ==> Good(k, r.value) && m.len < r.value.len && m.End() + MFLIMIT <= k.s.end
                        && m.start <= r.value.start <= m.End() - back && m.End() + 4 - back <= r.value.End()
    ensures r.None? && m.End() <= Mflimit(k) ==>
              NewestBeaten(k.s, Query(m.End() - back, m.start, Matchlimit(k), m.len),
                           if patternAnalysis then Min(1, attempts) else attempts, m.len)
    ensures (r, t.Value()) == SearchedBehind(k.Bare(), old(t.Value()), m, back, Trying(attempts, patternAnalysis))
  {
    hide NewestBeaten, Searched, Inserted, ChainTables.Exact, Repeats;
    SizedTables(k, t);
    if m.End() > Mflimit(k) {
      return None;
    }
    var q := Query(m.End() - back, m.start, Matchlimit(k), m.len);
    var b := InsertAndGetWiderMatch(k.s, t, q, attempts, patternAnalysis, false, false);
    NoneOfNone(k.s, q, b.longest);
    if b.longest == m.len {
      return None;
    }
    r := Some(Match(b.start, b.ref, b.longest));
  }

  lemma {:induction false} SizedTables(k: Call, t: ChainTables)
    requires t.Exact(k.s)
    ensures t.Value().Sized()
  {
  }

  // ---------------------------------------------------------------- how overlapping matches are cut

  /** At _Search3: a second match that starts inside the first is moved back to where the first, cut, will end. */
  function Corrected(m1: Match, m2: Match): Match
  {
    var d := m2.start - m1.start;
    if d < OPTIMAL_ML then
      var ml := if m1.len > OPTIMAL_ML then OPTIMAL_ML else m1.len;
      var newMl := if m1.start + ml > m2.End() - MINMATCH then d + m2.len - MINMATCH else ml;
      if 0 < newMl - d <= m2.len then m2.After(newMl - d) else m2
    else m2
  }

  lemma {:induction false} CorrectedIsGood(k: Call, anchor: nat, m1: Match, m2: Match)
    requires k.Valid() && Ready3(k, anchor, m1, m2)
    ensures var m := Corrected(m1, m2);
            && Good(k, m) && m.End() == m2.End() && m.len <= m2.len && m.ref - m.start == m2.ref - m2.start
            && m1.start + MINMATCH <= m.start <= m1.End() + 1 && m2.start <= m.start
            && (m.start == m1.End() + 1 ==> 5 <= m.len)
  {
    hide Repeats;
    var m := Corrected(m1, m2);
    if m != m2 {
      GoodPart(k, m2, m.start - m2.start);
    }
  }

  /** The length left to the first match when it is written, and what becomes of the second. */
  function Cut(m1: Match, m2: Match): (r: (int, Match))
  {
    if m2.start < m1.End() then
      var d := m2.start - m1.start;
      if d < OPTIMAL_ML then
        var ml := if m1.len > OPTIMAL_ML then OPTIMAL_ML else m1.len;
        var ml' := if m1.start + ml > m2.End() - MINMATCH then d + m2.len - MINMATCH else ml;
        (ml', if 0 < ml' - d <= m2.len then m2.After(ml' - d) else m2)
      else (d, m2)
    else (m1.len, m2)
  }

  lemma {:induction false} CutIsGood(k: Call, m1: Match, m2: Match)
    requires k.Valid() && Good(k, m1) && Good(k, m2) && m1.start + MINMATCH <= m2.start && m1.End() + MFLIMIT <= k.s.end
    ensures var (ml, m) := Cut(m1, m2);
            && MINMATCH <= ml <= m1.len && Good(k, m) && m1.start + ml <= m.start && m.End() == m2.End()
            && m2.start <= m.start <= Max(m2.start, m1.End()) && m.len <= m2.len
  {
    hide Repeats;
    var (ml, m) := Cut(m1, m2);
    if m != m2 {
      GoodPart(k, m2, m.start - m2.start);
    }
  }

  // ---------------------------------------------------------------- what the parser plans

  /** A second match has been found: the first may be restored to what it was, or dropped. */
  function Weigh(h: Hand, m2: Match): Hand
  {
    var m1 := if h.m0.start < h.m1.start && m2.start < h.m1.start + h.m0.len then h.m0 else h.m1;
    if m2.start - m1.start < 3 then Hand(Search2, h.m0, m2, m2) else Hand(Search3, h.m0, m1, m2)
  }

  /** How much of the first match is written, and the state behind it. */
  function MoveUp(h: Hand, m2: Match, m3: Match): (int, Hand)
  {
    var m1 := h.m1;
    if m3.start < m1.End() + 3 then
      // no room for the second match: the third becomes the first, the second is kept as what it was before
      var c := m1.End() - m2.start;
      var kept := if c <= 0 then m2 else if m2.len < c + MINMATCH then m3 else m2.After(c);
      (m1.len, Hand(Search2, kept, m3, m3))
    else
      var (ml, m) := Cut(m1, m2);
      (ml, Hand(Search3, h.m0, m, m3))
  }

  /** A first match that is written in front of a second one ends where that one starts. */
  function InFront(m1: Match, m2: Match): Match
  {
    if m2.start < m1.End() then m1.(len := Max(0, m2.start - m1.start)) else m1
  }

  datatype State = State(h: Hand, out: Output, t: Tables)

  /** One step of the parser. */
  function NextState(k: Call, st: State, e: Effort): (st': State)
    requires k.Valid() && st.t.Sized()
    ensures st'.t.Sized() && Goes(k, st.out, st'.out)
  {
    var h := st.h;
    GoesNowhere(k, st.out);
    if h.phase == Search2 then
      var (found, t) := SearchedBehind(k, st.t, h.m1, 2, e);
      if found.None? then State(h.(phase := Proceed), Emitted(k, st.out, h.m1), t)
      else State(Weigh(h, found.value), st.out, t)
    else if h.phase == Search3 then
      var m2 := Corrected(h.m1, h.m2);
      var (found, t) := SearchedBehind(k, st.t, m2, 3, e);
      if found.None? then
        var one := Emitted(k, st.out, InFront(h.m1, m2));
        GoesOn(k, st.out, one, Emitted(k, one, m2));
        State(h.(phase := Proceed), Emitted(k, one, m2), t)
      else if found.value.start < h.m1.End() then State(Hand(Search3, h.m0, h.m1, found.value), st.out, t)
      else
        var (ml, next) := MoveUp(h, m2, found.value);
        State(next, Emitted(k, st.out, h.m1.(len := Max(0, ml))), t)
    else st
  }

  lemma {:induction false} GoesNowhere(k: Call, o: Output)
    ensures Goes(k, o, o)
  {
  }

  predicate Going(h: Hand)
  {
    h.phase == Search2 || h.phase == Search3
  }

  /** Steps up to where the main loop goes on; every one moves the frontier right. */
  function Parsed(k: Call, st: State, e: Effort): (st': State)
    requires k.Valid() && st.t.Sized()
    ensures st'.t.Sized() && Goes(k, st.out, st'.out)
    decreases k.s.end - Frontier(st.h)
  {
    GoesNowhere(k, st.out);
    if !Going(st.h) then st
    else
      var st1 := NextState(k, st, e);
      if Going(st1.h) && Frontier(st.h) < Frontier(st1.h) <= k.s.end then
        var st2 := Parsed(k, st1, e);
        GoesOn(k, st.out, st1.out, st2.out);
        st2
      else st1
  }

  function FirstState(m: Match, o: Output, t: Tables): State
  {
    State(Hand(Search2, m, m, m), o, t)
  }

  /** The main loop. */
  function Chained(k: Call, t: Tables, o: Output, ip: nat, e: Effort): (p: Planned)
    requires k.Valid() && t.Sized() && k.source <= ip
    ensures p.tables.Sized() && Goes(k, o, p.out)
    decreases k.s.end - ip
  {
    GoesNowhere(k, o);
    if ip > Mflimit(k) then Planned(o, t)
    else
      var b := Searched(k.s, t, Query(ip, ip, Matchlimit(k), MINMATCH - 1), e);
      var t' := Inserted(k.s, t, ip);
      if b.longest < MINMATCH then Chained(k, t', o, ip + 1, e)
      else
        var st := Parsed(k, FirstState(Match(ip, b.ref, b.longest), o, t'), e);
        if ip < st.out.anchor then
          var p := Chained(k, st.t, st.out, st.out.anchor, e);
          GoesOn(k, o, st.out, p.out);
          p
        else Planned(st.out, st.t)
  }

  /** The whole block. */
  function ChainPlan(k: Call, t: Tables, attempts: nat): (p: Planned)
    requires k.Valid() && t.Sized()
    ensures p.tables.Sized() && Goes(k, Output(Start, k.source), p.out)
  {
    var o := Output(Start, k.source);
    GoesNowhere(k, o);
    if k.N() < MIN_LENGTH then Planned(o, t) else Chained(k, t, o, k.source, Trying(attempts, attempts > 128))
  }

  // ---------------------------------------------------------------- the steps

  /** A match is written with LZ4HC_encodeSequence, or what is planned does not fit. */
  method Put(k: Call, dst: array<byte>, op: nat, anchor: nat, m: Match, ghost ss: Seqs)
      returns (ok: bool, op': nat, ghost ss': Seqs)
    requires k.Valid() && HcInv(k, dst[..], op, ss, anchor) && Good(k, m) && anchor <= m.start
    requires Open(k, Output(ss, anchor), op)
    modifies dst
    ensures ok ==>
              && HcInv(k, dst[..], op', ss', m.End()) && Open(k, Output(ss', m.End()), op')
              && op' == op + LitSize(m.start - anchor) + 2 + ExtSize(m.len - MINMATCH)
              && Output(ss', m.End()) == Emitted(k.Bare(), Output(ss, anchor), m)
    ensures !ok ==>
              && HcInv(k, dst[..], op, ss, anchor) && op' == op && ss' == ss
              && k.limit != NotLimited && k.Oend() < CompressBound(k.N())
              && Stuck(k, Output(ss, anchor), op, Emitted(k.Bare(), Output(ss, anchor), m))
  {
    hide HcInv, Repeats, Open, Stuck, Emitted, SequenceFits, SequenceOf, LitSize, ExtSize, Goes;
    ghost var o := Output(ss, anchor);
    FitsGood(k, dst[..], op, o, m);
    BareSame(k, o, o, m);
    ok, op', ss' := EncodeSequence(k, dst, op, anchor, m.start, m.ref, m.len, ss);
    if ok {
      StaysOpen(k, o, op, m);
    } else {
      op', ss' := op, ss;
      StuckHere(k, o, op, m);
    }
  }

  lemma {:induction false} FitsGood(k: Call, b: seq<byte>, op: nat, o: Output, m: Match)
    requires k.Valid() && HcInv(k, b, op, o.ss, o.anchor) && Good(k, m) && o.anchor <= m.start
    ensures Fits(k, o, m)
  {
  }

  lemma {:induction false} StuckHere(k: Call, o: Output, op: nat, m: Match)
    requires k.Valid() && Fits(k, o, m) && !SequenceFits(k, op, m.start - o.anchor, m.len - MINMATCH)
    ensures Stuck(k, o, op, Emitted(k, o, m))
  {
    hide Emitted, SequenceFits;
    GoesNowhere(k, Emitted(k, o, m));
  }

  /** From _Search2: either the first match is written, or there is a second. */
  method Step2(k: Call, t: ChainTables, dst: array<byte>, op: nat, anchor: nat, h: Hand, attempts: nat,
               patternAnalysis: bool, ghost ss: Seqs)
      returns (h': Hand, ip': nat, op': nat, anchor': nat, ghost ss': Seqs)
    requires k.Valid() && HcInv(k, dst[..], op, ss, anchor) && h.phase == Search2 && HandOk(k, anchor, h)
    requires t.Exact(k.s) && t.nextToUpdate <= h.m1.End() - 2 && Open(k, Output(ss, anchor), op)
    modifies dst, t`nextToUpdate, t.hashTable, t.chainTable
    ensures HcInv(k, dst[..], op', ss', anchor') && HandOk(k, anchor', h') && t.Exact(k.s)
    ensures t.nextToUpdate <= Max(old(t.nextToUpdate), Mflimit(k)) && Open(k, Output(ss', anchor'), op')
    ensures h'.phase == Full ==> k.limit != NotLimited && k.Oend() < CompressBound(k.N())
    ensures h'.phase == Proceed ==> ip' == anchor' == h.m1.End() && t.nextToUpdate <= ip'
    ensures h'.phase == Search2 ==> t.nextToUpdate <= h'.m1.End() - 2 && Frontier(h) < Frontier(h')
    ensures h'.phase == Search3 ==> t.nextToUpdate <= h'.m2.End() - 3 && Frontier(h) < Frontier(h')
    ensures old(t.Value()).Sized()
    ensures StepIs(k, NextState(k.Bare(), State(h, Output(ss, anchor), old(t.Value())),
                              Trying(attempts, patternAnalysis)), h', Output(ss', anchor'), op', t.Value())
  {
    hide HcInv, Repeats, ChainTables.Exact, SearchedBehind, Open, Emitted, Goes, Stuck, NewestBeaten;
    h', ip', op', anchor', ss' := h, h.m1.start, op, anchor, ss;
    SizedTables(k, t);
    var found := SearchBehind(k, t, h.m1, 2, attempts, patternAnalysis);
    if found == None {
      var ok;
      ok, op', ss' := Put(k, dst, op, anchor, h.m1, ss);
      if !ok {
        h' := h.(phase := Full);
        return;
      }
      anchor', ip' := h.m1.End(), h.m1.End();
      h' := h.(phase := Proceed);
      return;
    }
    h' := Weigh(h, found.value);
    WeighIsOk(k, anchor, h, found.value);
  }

  /** A step comes out as planned, or what is planned does not fit. */
  ghost predicate StepIs(k: Call, planned: State, h: Hand, o: Output, op: nat, t: Tables)
    requires k.Valid()
  {
    if h.phase == Full then Stuck(k, o, op, planned.out) else planned == State(h, o, t)
  }

  lemma {:induction false} WeighIsOk(k: Call, anchor: nat, h: Hand, m2: Match)
    requires k.Valid() && h.phase == Search2 && HandOk(k, anchor, h) && Good(k, m2)
    requires h.m1.len < m2.len && h.m1.End() + MFLIMIT <= k.s.end
    requires h.m1.start <= m2.start <= h.m1.End() - 2 && h.m1.End() + 2 <= m2.End()
    ensures HandOk(k, anchor, Weigh(h, m2)) && Frontier(Weigh(h, m2)) == m2.End()
  {
    hide Repeats;
  }

  /** From _Search3, corrected: no third match; the first two are written. */
  method WriteTwo(k: Call, dst: array<byte>, op: nat, anchor: nat, m1: Match, m2: Match, ghost ss: Seqs)
      returns (ok: bool, op': nat, anchor': nat, ghost ss': Seqs)
    requires k.Valid() && HcInv(k, dst[..], op, ss, anchor) && anchor <= m1.start
    requires Good(k, m1) && Good(k, m2) && m1.start + MINMATCH <= m2.start && Open(k, Output(ss, anchor), op)
    modifies dst
    ensures HcInv(k, dst[..], op', ss', anchor') && (ok ==> anchor' == m2.End()) && Open(k, Output(ss', anchor'), op')
    ensures !ok ==> k.limit != NotLimited && k.Oend() < CompressBound(k.N())
    ensures var both := Emitted(k.Bare(), Emitted(k.Bare(), Output(ss, anchor), InFront(m1, m2)), m2);
            if ok then Output(ss', anchor') == both else Stuck(k, Output(ss', anchor'), op', both)
  {
    hide HcInv, Repeats, Open, Emitted, Goes, Stuck;
    var ml := m1.len;
    if m2.start < m1.start + ml {
      ml := m2.start - m1.start;
    }
    GoodFront(k, m1, ml);
    ghost var one := Emitted(k.Bare(), Output(ss, anchor), InFront(m1, m2));
    ghost var both := Emitted(k.Bare(), one, m2);
    anchor' := anchor;
    ok, op', ss' := Put(k, dst, op, anchor, m1.(len := ml), ss);
    if !ok {
      BareSame(k, one, both, m2);
      StuckOn(k, Output(ss, anchor), op, one, both);
      return;
    }
    anchor' := m1.start + ml;
    var op1 := op';
    ghost var ss1 := ss';
    ok, op', ss' := Put(k, dst, op1, anchor', m2, ss1);
    if !ok {
      return;
    }
    anchor' := m2.End();
  }

  /** From _Search3. */
  method Step3(k: Call, t: ChainTables, dst: array<byte>, op: nat, anchor: nat, h: Hand, attempts: nat,
               patternAnalysis: bool, ghost ss: Seqs)
      returns (h': Hand, ip': nat, op': nat, anchor': nat, ghost ss': Seqs)
    requires k.Valid() && HcInv(k, dst[..], op, ss, anchor) && h.phase == Search3 && HandOk(k, anchor, h)
    requires t.Exact(k.s) && t.nextToUpdate <= h.m2.End() - 3 && Open(k, Output(ss, anchor), op)
    modifies dst, t`nextToUpdate, t.hashTable, t.chainTable
    ensures HcInv(k, dst[..], op', ss', anchor') && HandOk(k, anchor', h') && t.Exact(k.s)
    ensures t.nextToUpdate <= Max(old(t.nextToUpdate), Mflimit(k)) && Open(k, Output(ss', anchor'), op')
    ensures h'.phase == Full ==> k.limit != NotLimited && k.Oend() < CompressBound(k.N())
    ensures h'.phase == Proceed ==> ip' == anchor' == h.m2.End() && t.nextToUpdate <= ip'
    ensures h'.phase == Search2 ==> t.nextToUpdate <= h'.m1.End() - 2 && Frontier(h) < Frontier(h')
    ensures h'.phase == Search3 ==> t.nextToUpdate <= h'.m2.End() - 3 && Frontier(h) < Frontier(h')
    ensures old(t.Value()).Sized()
    ensures StepIs(k, NextState(k.Bare(), State(h, Output(ss, anchor), old(t.Value())),
                              Trying(attempts, patternAnalysis)), h', Output(ss', anchor'), op', t.Value())
  {
    hide HcInv, Repeats, ChainTables.Exact, Corrected, SearchedBehind, Open, Emitted, Goes, Stuck, InFront, MoveUp,
        NewestBeaten;
    ip', op', anchor', ss' := h.m1.start, op, anchor, ss;
    SizedTables(k, t);
    var m1, m2 := h.m1, Corrected(h.m1, h.m2);
    CorrectedIsGood(k, anchor, h.m1, h.m2);
    var found := SearchBehind(k, t, m2, 3, attempts, patternAnalysis);
    if found == None {
      var ok;
      ok, op', anchor', ss' := WriteTwo(k, dst, op, anchor, m1, m2, ss);
      ip' := m2.End();
      h' := h.(phase := if ok then Proceed else Full);
      return;
    }
    var m3 := found.value;
    if m3.start < m1.End() {
      h' := Hand(Search3, h.m0, m1, m3);
      return;
    }
    h', op', anchor', ss' := WriteFirst(k, dst, op, anchor, h, m2, m3, ss);
  }

  /** With a third match behind the first: the first is written, and the two others move up. */
  method WriteFirst(k: Call, dst: array<byte>, op: nat, anchor: nat, h: Hand, m2: Match, m3: Match, ghost ss: Seqs)
      returns (h': Hand, op': nat, anchor': nat, ghost ss': Seqs)
    requires k.Valid() && HcInv(k, dst[..], op, ss, anchor) && h.phase == Search3 && HandOk(k, anchor, h)
    requires m2 == Corrected(h.m1, h.m2) && Good(k, m3) && m2.len < m3.len && m2.End() + MFLIMIT <= k.s.end
    requires m2.start <= m3.start <= m2.End() - 3 && m2.End() + 1 <= m3.End() && h.m1.End() <= m3.start
    requires Open(k, Output(ss, anchor), op)
    modifies dst
    ensures HcInv(k, dst[..], op', ss', anchor') && HandOk(k, anchor', h') && Open(k, Output(ss', anchor'), op')
    ensures h'.phase == Full ==> k.limit != NotLimited && k.Oend() < CompressBound(k.N())
    ensures h'.phase == Full || (h'.phase == Search2 && h'.m1 == m3) || (h'.phase == Search3 && h'.m2 == m3)
    ensures var (ml, next) := MoveUp(h, m2, m3);
            var one := Emitted(k.Bare(), Output(ss, anchor), h.m1.(len := Max(0, ml)));
            if h'.phase == Full then Stuck(k, Output(ss', anchor'), op', one)
            else h' == next && Output(ss', anchor') == one
  {
    hide HcInv, Good, Corrected, Open, Emitted, Goes, Stuck;
    CorrectedIsGood(k, anchor, h.m1, h.m2);
    op', anchor', ss' := op, anchor, ss;
    var (ml, next) := MoveUp(h, m2, m3);
    MoveUpIsOk(k, anchor, h, m2, m3);
    GoodFront(k, h.m1, ml);
    var ok;
    ok, op', ss' := Put(k, dst, op, anchor, h.m1.(len := ml), ss);
    if !ok {
      return h.(phase := Full), op', anchor', ss';
    }
    anchor' := h.m1.start + ml;
    h' := next;
  }

  lemma {:induction false} MoveUpIsOk(k: Call, anchor: nat, h: Hand, m2: Match, m3: Match)
    requires k.Valid() && h.phase == Search3 && HandOk(k, anchor, h)
    requires m2 == Corrected(h.m1, h.m2) && Good(k, m3) && m2.len < m3.len && m2.End() + MFLIMIT <= k.s.end
    requires m2.start <= m3.start <= m2.End() - 3 && h.m1.End() <= m3.start
    ensures var (ml, next) := MoveUp(h, m2, m3);
            && MINMATCH <= ml <= h.m1.len && HandOk(k, h.m1.start + ml, next)
            && ((next.phase == Search2 && next.m1 == m3) || (next.phase == Search3 && next.m2 == m3))
  {
    hide Repeats, Corrected, Cut;
    CorrectedIsGood(k, anchor, h.m1, h.m2);
    var m1 := h.m1;
    if m3.start < m1.End() + 3 {
      var c := m1.End() - m2.start;
      if m2.start < m1.End() && c + MINMATCH <= m2.len {
        GoodPart(k, m2, c);
      }
    } else {
      CutIsGood(k, m1, m2);
    }
  }

  // ---------------------------------------------------------------- the parser

  /** From a first match to the point where the main loop goes on, or the output is full. */
  method Parse(k: Call, t: ChainTables, dst: array<byte>, op0: nat, anchor0: nat, first: Match, attempts: nat,
               patternAnalysis: bool, ghost ss0: Seqs)
      returns (full: bool, ip: nat, op: nat, anchor: nat, ghost ss: Seqs)
    requires k.Valid() && HcInv(k, dst[..], op0, ss0, anchor0) && Good(k, first) && anchor0 <= first.start
    requires t.Exact(k.s) && t.nextToUpdate <= first.End() - 2 && Open(k, Output(ss0, anchor0), op0)
    modifies dst, t`nextToUpdate, t.hashTable, t.chainTable
    ensures HcInv(k, dst[..], op, ss, anchor) && t.Exact(k.s) && t.nextToUpdate <= Max(old(t.nextToUpdate), Mflimit(k))
    ensures full ==> k.limit != NotLimited && k.Oend() < CompressBound(k.N())
    ensures !full ==> ip == anchor && first.End() <= ip && t.nextToUpdate <= ip
    ensures Open(k, Output(ss, anchor), op) && old(t.Value()).Sized()
    ensures var st := Parsed(k.Bare(), FirstState(first, Output(ss0, anchor0), old(t.Value())),
                             Trying(attempts, patternAnalysis));
            if full then Stuck(k, Output(ss, anchor), op, st.out)
            else st.out == Output(ss, anchor) && st.t == t.Value()
  {
    hide HcInv, Good, ChainTables.Exact, Open, Stuck, Parsed, NextState, HandOk, Goes;
    var h := Hand(Search2, first, first, first);
    Ready2At(k, anchor0, first);
    SizedTables(k, t);
    ghost var e := Trying(attempts, patternAnalysis);
    ghost var planned := Parsed(k.Bare(), FirstState(first, Output(ss0, anchor0), t.Value()), e);
    ip, op, anchor, ss := first.start, op0, anchor0, ss0;
    while h.phase == Search2 || h.phase == Search3
      invariant HcInv(k, dst[..], op, ss, anchor) && HandOk(k, anchor, h) && t.Exact(k.s)
      invariant t.nextToUpdate <= Max(old(t.nextToUpdate), Mflimit(k)) && Open(k, Output(ss, anchor), op)
      invariant h.phase == Search2 ==> t.nextToUpdate <= h.m1.End() - 2
      invariant h.phase == Search3 ==> t.nextToUpdate <= h.m2.End() - 3
      invariant h.phase == Full ==> k.limit != NotLimited && k.Oend() < CompressBound(k.N())
      invariant h.phase == Proceed ==> ip == anchor && first.End() <= ip && t.nextToUpdate <= ip
      invariant Going(h) ==> first.End() <= Frontier(h) <= k.s.end
      invariant t.Value().Sized()
      invariant if h.phase == Full then Stuck(k, Output(ss, anchor), op, planned.out)
                else Parsed(k.Bare(), State(h, Output(ss, anchor), t.Value()), e) == planned
      decreases h.phase == Search2 || h.phase == Search3, k.s.end - Frontier(h)
    {
      FrontierInside(k, anchor, h);
      ghost var st := State(h, Output(ss, anchor), t.Value());
      if h.phase == Search2 {
        h, ip, op, anchor, ss := Step2(k, t, dst, op, anchor, h, attempts, patternAnalysis, ss);
      } else {
        h, ip, op, anchor, ss := Step3(k, t, dst, op, anchor, h, attempts, patternAnalysis, ss);
      }
      FrontierInside(k, anchor, h);
      SizedTables(k, t);
      ParsedStep(k, st, e, h, Output(ss, anchor), op, t.Value());
    }
    ParsedEnd(k, h, Output(ss, anchor), t.Value(), e);
    full := h.phase == Full;
  }

  lemma {:induction false} ParsedStep(k: Call, st: State, e: Effort, h: Hand, o: Output, op: nat, t: Tables)
    requires k.Valid() && st.t.Sized() && t.Sized() && Going(st.h)
    requires StepIs(k, NextState(k.Bare(), st, e), h, o, op, t)
    requires Going(h) ==> Frontier(st.h) < Frontier(h) <= k.s.end
    ensures h.phase == Full ==> Stuck(k, o, op, Parsed(k.Bare(), st, e).out)
    ensures h.phase != Full ==> Parsed(k.Bare(), State(h, o, t), e) == Parsed(k.Bare(), st, e)
  {
    hide NextState, Stuck, Goes;
    var st1 := NextState(k.Bare(), st, e);
    if h.phase == Full {
      if Going(st1.h) && Frontier(st.h) < Frontier(st1.h) <= k.s.end {
        var st2 := Parsed(k.Bare(), st1, e);
        BareSame(k, st1.out, st2.out, st.h.m1);
        StuckOn(k, o, op, st1.out, st2.out);
      }
    }
  }

  lemma {:induction false} ParsedEnd(k: Call, h: Hand, o: Output, t: Tables, e: Effort)
    requires k.Valid() && t.Sized() && !Going(h)
    ensures Parsed(k.Bare(), State(h, o, t), e) == State(h, o, t)
  {
    hide NextState, Goes;
  }

  lemma {:induction false} Ready2At(k: Call, anchor: nat, m: Match)
    requires k.Valid() && Good(k, m) && anchor <= m.start
    ensures HandOk(k, anchor, Hand(Search2, m, m, m)) && m.End() <= k.s.end
  {
  }

  lemma {:induction false} FrontierInside(k: Call, anchor: nat, h: Hand)
    requires k.Valid() && HandOk(k, anchor, h)
    ensures h.phase == Search2 || h.phase == Search3 ==> Frontier(h) <= k.s.end
  {
  }

  // ---------------------------------------------------------------- what is passed over

  /**
    The search at `x` has not found a match: none of its newest candidates gives one, `attempts` of them where the
    search takes no shortcuts, and the newest at least where it does.
  */
  ghost predicate NoMatchAt(k: Call, x: nat, attempts: nat)
    requires k.Valid()
  {
    && k.source <= x <= Mflimit(k)
    && NewestBeaten(k.s, Query(x, x, Matchlimit(k), MINMATCH - 1), attempts, MINMATCH - 1)
  }

  /** A stretch of the block that starts with a match found and at whose end a match written ends. */
  datatype Stretch = Stretch(from: nat, to: nat)

  ghost predicate InRegion(rs: seq<Stretch>, x: nat)
  {
    exists r :: r in rs && r.from <= x < r.to
  }

  /** A match of these sequences ends at `x`. */
  predicate MatchEndsAt(k: Call, ss: Seqs, x: nat)
  {
    ss.Snoc? && (x == k.source + Total(ss) || MatchEndsAt(k, ss.init, x))
  }

  ghost predicate RegionsOk(k: Call, rs: seq<Stretch>, ss: Seqs)
  {
    forall r :: r in rs ==> r.from + MINMATCH <= r.to && MatchEndsAt(k, ss, r.to)
  }

  /** Up to `ip` every position is passed over for want of a match, or lies in a region. */
  ghost predicate PassedOver(k: Call, rs: seq<Stretch>, ss: Seqs, ip: nat, attempts: nat)
    requires k.Valid()
  {
    && RegionsOk(k, rs, ss)
    && forall x :: k.source <= x < ip && x <= Mflimit(k) ==> NoMatchAt(k, x, attempts) || InRegion(rs, x)
  }

  lemma {:induction false} OnePassed(k: Call, rs: seq<Stretch>, ss: Seqs, ip: nat, attempts: nat)
    requires k.Valid() && PassedOver(k, rs, ss, ip, attempts) && NoMatchAt(k, ip, attempts)
    ensures PassedOver(k, rs, ss, ip + 1, attempts)
  {
    hide NoMatchAt, InRegion, RegionsOk;
  }

  lemma {:induction false} EndsStay(k: Call, ss: Seqs, ss': Seqs, x: nat)
    requires MatchEndsAt(k, ss, x) && Extends(ss, ss')
    ensures MatchEndsAt(k, ss', x)
    decreases ss'
  {
    if ss != ss' {
      EndsStay(k, ss, ss'.init, x);
    }
  }

  lemma {:induction false} RegionPassed(k: Call, rs: seq<Stretch>, ss: Seqs, ss': Seqs, ip: nat, to: nat, attempts: nat)
    requires k.Valid() && PassedOver(k, rs, ss, ip, attempts) && Extends(ss, ss')
    requires ip + MINMATCH <= to && MatchEndsAt(k, ss', to)
    ensures PassedOver(k, rs + [Stretch(ip, to)], ss', to, attempts)
  {
    hide NoMatchAt, MatchEndsAt, Extends;
    var rs' := rs + [Stretch(ip, to)];
    assert Stretch(ip, to) in rs';
    forall r | r in rs'
      ensures r.from + MINMATCH <= r.to && MatchEndsAt(k, ss', r.to)
    {
      if r in rs {
        EndsStay(k, ss, ss', r.to);
      }
    }
    forall x | k.source <= x < to && x <= Mflimit(k)
      ensures NoMatchAt(k, x, attempts) || InRegion(rs', x)
    {
      if x < ip {
        RegionStays(rs, rs', x);
      }
    }
  }

  lemma {:induction false} RegionStays(rs: seq<Stretch>, rs': seq<Stretch>, x: nat)
    requires forall r :: r in rs ==> r in rs'
    ensures InRegion(rs, x) ==> InRegion(rs', x)
  {
  }

  lemma {:induction false} LastEnd(k: Call, b: seq<byte>, op: nat, ss: Seqs, anchor: nat)
    requires k.Valid() && HcInv(k, b, op, ss, anchor) && k.source < anchor
    ensures MatchEndsAt(k, ss, anchor)
  {
    TotalIs(k, b, op, ss, anchor);
  }

  lemma {:induction false} TotalIs(k: Call, b: seq<byte>, op: nat, ss: Seqs, anchor: nat)
    requires k.Valid() && HcInv(k, b, op, ss, anchor)
    ensures Total(ss) == anchor - k.source
  {
    var n, v := k.Pos(k.source), k.s.Window();
    assert Expand(v[..n], ss) == v[..k.Pos(anchor)];
  }

  /** How many of the newest candidates a search is sure to have looked at. */
  function SureAttempts(attempts: nat): nat
  {
    if attempts > 128 then 1 else attempts
  }

  // ---------------------------------------------------------------- the main loop

  lemma {:induction false} StartOpen(k: Call)
    ensures Open(k, Output(Start, k.source), 0)
  {
  }

  lemma {:induction false} NothingPassed(k: Call, attempts: nat)
    requires k.Valid()
    ensures PassedOver(k, [], Start, k.source, attempts)
  {
  }

  lemma {:induction false} AllPassed(k: Call, rs: seq<Stretch>, ss: Seqs, ip: nat, attempts: nat)
    requires k.Valid() && PassedOver(k, rs, ss, ip, attempts) && ip > Mflimit(k)
    ensures PassedOver(k, rs, ss, k.s.end, attempts)
  {
    hide NoMatchAt, InRegion, RegionsOk;
  }

  /** One turn of the main loop, in the plan. */
  lemma {:induction false} ChainStep(k: Call, t: Tables, o: Output, ip: nat, e: Effort)
    requires k.Valid() && t.Sized() && k.source <= ip <= Mflimit(k)
    ensures var b := Searched(k.s, t, Query(ip, ip, Matchlimit(k), MINMATCH - 1), e);
            var t' := Inserted(k.s, t, ip);
            var p := Chained(k.Bare(), t, o, ip, e);
            if b.longest < MINMATCH then p == Chained(k.Bare(), t', o, ip + 1, e)
            else
              var st := Parsed(k.Bare(), FirstState(Match(ip, b.ref, b.longest), o, t'), e);
              && Goes(k, st.out, p.out)
              && (ip < st.out.anchor ==> p == Chained(k.Bare(), st.t, st.out, st.out.anchor, e))
  {
    hide Searched, Inserted, Parsed, Extends, Lean;
    var b := Searched(k.s, t, Query(ip, ip, Matchlimit(k), MINMATCH - 1), e);
    if MINMATCH <= b.longest {
      var st := Parsed(k.Bare(), FirstState(Match(ip, b.ref, b.longest), o, Inserted(k.s, t, ip)), e);
      GoesNowhere(k, st.out);
    }
  }

  lemma {:induction false} ChainEnd(k: Call, t: Tables, o: Output, ip: nat, e: Effort)
    requires k.Valid() && t.Sized() && k.source <= ip && ip > Mflimit(k)
    ensures Chained(k.Bare(), t, o, ip, e) == Planned(o, t)
  {
    hide Searched, Inserted, Parsed, Goes;
  }

  /** The output is full: there is no room for the whole block, or it has been filled. */
  lemma {:induction false} Overflow(k: Call, b: seq<byte>, op: nat, o: Output, t: Tables, o0: Output, first: Match,
                                    e: Effort)
    requires k.Valid() && t.Sized() && k.source <= first.start <= Mflimit(k) && MINMATCH <= first.len
    requires HcInv(k, b, op, o.ss, o.anchor) && Open(k, o, op)
    requires var f := Searched(k.s, t, Query(first.start, first.start, Matchlimit(k), MINMATCH - 1), e);
             first == Match(first.start, f.ref, f.longest)
    requires Stuck(k, o, op, Parsed(k.Bare(), FirstState(first, o0, Inserted(k.s, t, first.start)), e).out)
    ensures var p := Chained(k.Bare(), t, o0, first.start, e);
            && (k.limit == LimitedOutput ==> TooLong(k, p)) && (k.limit == FillOutput ==> Arrived(k, p, o, op))
            && k.limit != NotLimited
  {
    hide HcInv, Open, Stuck, Parsed, Searched, Inserted, Chained, Goes, TooLong, Arrived;
    ChainStep(k, t, o0, first.start, e);
    var p := Chained(k.Bare(), t, o0, first.start, e);
    StuckOn(k, o, op, Parsed(k.Bare(), FirstState(first, o0, Inserted(k.s, t, first.start)), e).out, p.out);
    StuckEnds(k, b, op, o, p);
  }

  lemma {:induction false} ParsedExtends(k: Call, t: Tables, o0: Output, first: Match, e: Effort, o: Output)
    requires k.Valid() && t.Sized()
    requires Parsed(k.Bare(), FirstState(first, o0, Inserted(k.s, t, first.start)), e).out == o
    ensures Extends(o0.ss, o.ss)
  {
    hide Parsed, Inserted, Extends;
  }

  lemma {:induction false} PlanArrives(k: Call, p: Planned, o: Output, op: nat, t: Tables)
    requires p == Planned(o, t) && Open(k, o, op)
    ensures Arrived(k, p, o, op)
  {
  }

  /** Between two turns of the main loop. */
  ghost predicate LoopOk(k: Call, b: seq<byte>, op: nat, o: Output, ip: nat, t: Tables, p: Planned,
                         regions: seq<Stretch>, attempts: nat)
    requires k.Valid()
  {
    && HcInv(k, b, op, o.ss, o.anchor) && k.source <= o.anchor <= ip && Open(k, o, op)
    && t.Sized() && Chained(k.Bare(), t, o, ip, Trying(attempts, attempts > 128)) == p
    && PassedOver(k, regions, o.ss, ip, SureAttempts(attempts))
  }

  /** One turn: a search, and what the parser makes of a match. */
  method Turn(k: Call, t: ChainTables, dst: array<byte>, op0: nat, anchor0: nat, ip0: nat, attempts: nat,
              ghost ss0: Seqs, ghost p: Planned, ghost regions0: seq<Stretch>)
      returns (full: bool, ip: nat, op: nat, anchor: nat, ghost ss: Seqs, ghost regions: seq<Stretch>)
    requires k.Valid() && t.Exact(k.s) && t.nextToUpdate <= ip0 <= Mflimit(k) && k.source <= anchor0 <= ip0
    requires LoopOk(k, dst[..], op0, Output(ss0, anchor0), ip0, t.Value(), p, regions0, attempts)
    modifies dst, t`nextToUpdate, t.hashTable, t.chainTable
    ensures t.Exact(k.s) && t.nextToUpdate <= Max(old(t.nextToUpdate), Mflimit(k))
    ensures !full ==> ip0 < ip && t.nextToUpdate <= ip && k.source <= anchor <= ip
                      && LoopOk(k, dst[..], op, Output(ss, anchor), ip, t.Value(), p, regions, attempts)
    ensures full ==>
              && HcInv(k, dst[..], op, ss, anchor) && k.limit != NotLimited && k.Oend() < CompressBound(k.N())
              && (if k.limit == LimitedOutput then TooLong(k, p) else Arrived(k, p, Output(ss, anchor), op))
  {
    hide HcInv, ChainTables.Exact, Open, Stuck, Chained, Arrived, TooLong, Goes, PassedOver, Searched, Inserted, Parsed,
        NewestBeaten, Extends, MatchEndsAt;
    full, ip, op, anchor, ss, regions := false, ip0, op0, anchor0, ss0, regions0;
    ghost var e := Trying(attempts, attempts > 128);
    ghost var t0, o0 := t.Value(), Output(ss0, anchor0);
    var b := InsertAndFindBestMatch(k.s, t, ip, Matchlimit(k), attempts, attempts > 128);
    SizedTables(k, t);
    ChainStep(k, t0, o0, ip, e);
    if b.longest < MINMATCH {
      NoneFound(k, ip, attempts, b.longest);
      OnePassed(k, regions, ss, ip, SureAttempts(attempts));
      ip := ip + 1;
      return;
    }
    var first := Match(ip, b.ref, b.longest);
    FirstIsGood(k, first, b);
    full, ip, op, anchor, ss := Parse(k, t, dst, op, anchor, first, attempts, attempts > 128, ss);
    if full {
      Overflow(k, dst[..], op, Output(ss, anchor), t0, o0, first, e);
      return;
    }
    SizedTables(k, t);
    LastEnd(k, dst[..], op, ss, anchor);
    ParsedExtends(k, t0, o0, first, e, Output(ss, anchor));
    RegionPassed(k, regions, ss0, ss, ip0, ip, SureAttempts(attempts));
    regions := regions + [Stretch(ip0, ip)];
  }

  lemma {:induction false} FirstIsGood(k: Call, m: Match, b: Best)
    requires k.Valid() && k.source <= m.start <= Mflimit(k) && MINMATCH <= b.longest
    requires m == Match(m.start, b.ref, b.longest) && b.start == m.start
    requires Found(k.s, Query(m.start, m.start, Matchlimit(k), MINMATCH - 1), b)
    ensures Good(k, m)
  {
  }

  lemma {:induction false} NoneFound(k: Call, ip: nat, attempts: nat, longest: nat)
    requires k.Valid() && k.source <= ip <= Mflimit(k) && longest < MINMATCH
    requires NewestBeaten(k.s, Query(ip, ip, Matchlimit(k), MINMATCH - 1),
                          if attempts > 128 then Min(1, attempts) else attempts, longest)
    ensures NoMatchAt(k, ip, SureAttempts(attempts))
  {
    hide AmongNewest, Wide;
    var q := Query(ip, ip, Matchlimit(k), MINMATCH - 1);
    forall j | AmongNewest(k.s, q, j, SureAttempts(attempts))
      ensures Beaten(k.s, q, j, MINMATCH - 1)
    {
      BeatenMore(k.s, q, j, longest, MINMATCH - 1);
    }
  }

  lemma {:induction false} LoopStarts(k: Call, b: seq<byte>, t: Tables, attempts: nat)
    requires k.Valid() && HcInv(k, b, 0, Start, k.source) && t.Sized() && MIN_LENGTH <= k.N()
    ensures LoopOk(k, b, 0, Output(Start, k.source), k.source, t, ChainPlan(k.Bare(), t, attempts), [], attempts)
  {
    hide HcInv, Chained;
  }

  lemma {:induction false} LoopEnds(k: Call, b: seq<byte>, op: nat, o: Output, ip: nat, t: Tables, p: Planned,
                                    regions: seq<Stretch>, attempts: nat)
    requires k.Valid() && LoopOk(k, b, op, o, ip, t, p, regions, attempts) && ip > Mflimit(k)
    ensures Arrived(k, p, o, op) && p.tables == t && p.out == o
    ensures PassedOver(k, regions, p.out.ss, k.s.end, SureAttempts(attempts)) && HcInv(k, b, op, o.ss, o.anchor)
  {
    hide HcInv, Chained, PassedOver;
    ChainEnd(k, t, o, ip, Trying(attempts, attempts > 128));
    AllPassed(k, regions, o.ss, ip, SureAttempts(attempts));
    PlanArrives(k, p, o, op, t);
  }

  lemma {:induction false} LoopParts(k: Call, b: seq<byte>, op: nat, o: Output, ip: nat, t: Tables, p: Planned,
                                     regions: seq<Stretch>, attempts: nat)
    requires k.Valid() && LoopOk(k, b, op, o, ip, t, p, regions, attempts)
    ensures k.source <= o.anchor <= ip && HcInv(k, b, op, o.ss, o.anchor)
  {
  }

  lemma {:induction false} ShortArrives(k: Call, t: Tables, attempts: nat)
    requires k.Valid() && t.Sized() && k.N() < MIN_LENGTH
    ensures var p := ChainPlan(k.Bare(), t, attempts);
            && Arrived(k, p, Output(Start, k.source), 0) && p.tables == t
            && PassedOver(k, [], p.out.ss, k.source, SureAttempts(attempts))
  {
    StartOpen(k);
    NothingPassed(k, SureAttempts(attempts));
  }

  /** LZ4HC_compress_hashChain; `attempts` beyond 128 turn pattern analysis on. */
  method CompressHashChain(k: Call, t: ChainTables, dst: array<byte>, attempts: nat)
      returns (r: nat, consumed: nat, ghost regions: seq<Stretch>)
    requires k.Valid() && t.Exact(k.s) && t.nextToUpdate <= k.source
    requires if k.limit == NotLimited then CompressBound(k.N()) <= dst.Length else k.olimit <= dst.Length
    modifies dst, t`nextToUpdate, t.hashTable, t.chainTable
    ensures t.Exact(k.s) && t.nextToUpdate <= Max(old(t.nextToUpdate), Mflimit(k))
    ensures r == 0 ==> k.limit == LimitedOutput && k.olimit < CompressBound(k.N())
    ensures r > 0 ==> HcCompressed(k, dst[..], r, consumed)
    ensures old(t.Value()).Sized() && Outcome(k, ChainPlan(k.Bare(), old(t.Value()), attempts), dst[..], r, consumed)
    ensures r > 0 && k.limit != FillOutput ==>
              && t.Value() == ChainPlan(k.Bare(), old(t.Value()), attempts).tables
              && PassedOver(k, regions, ChainPlan(k.Bare(), old(t.Value()), attempts).out.ss,
                            if k.N() < MIN_LENGTH then k.source else k.s.end, SureAttempts(attempts))
  {
    hide HcInv, HcCompressed, ChainTables.Exact, LoopOk, Outcome, Arrived, TooLong, PassedOver, Ends, ChainPlan, Goes;
    SizedTables(k, t);
    ghost var p := ChainPlan(k.Bare(), t.Value(), attempts);
    regions := [];
    ghost var ss := Start;
    var op: nat, anchor: nat, ip: nat := 0, k.source, k.source;
    StartInv(k, dst[..]);
    if k.N() >= MIN_LENGTH {
      LoopStarts(k, dst[..], t.Value(), attempts);
      var full := false;
      while !full && ip <= Mflimit(k)
        invariant t.Exact(k.s) && t.nextToUpdate <= Max(old(t.nextToUpdate), Mflimit(k))
        invariant HcInv(k, dst[..], op, ss, anchor)
        invariant !full ==> t.nextToUpdate <= ip && k.source <= anchor <= ip
                            && LoopOk(k, dst[..], op, Output(ss, anchor), ip, t.Value(), p, regions, attempts)
        invariant full ==> k.limit == FillOutput && Arrived(k, p, Output(ss, anchor), op)
        decreases !full, k.s.end - ip
      {
        full, ip, op, anchor, ss, regions := Turn(k, t, dst, op, anchor, ip, attempts, ss, p, regions);
        if full && k.limit == LimitedOutput {
          TooLongFails(k, p, dst[..]);
          return 0, 0, regions;
        }
        if !full {
          LoopParts(k, dst[..], op, Output(ss, anchor), ip, t.Value(), p, regions, attempts);
        }
      }
      if !full {
        LoopEnds(k, dst[..], op, Output(ss, anchor), ip, t.Value(), p, regions, attempts);
      }
    } else {
      ShortArrives(k, t.Value(), attempts);
    }
    ghost var before := dst[..];
    r, consumed := PutLast(k, dst, op, anchor, ss);
    ArrivedEnds(k, p, Output(ss, anchor), op, before, dst[..], r, consumed);
  }

  lemma {:induction false} TooLongFails(k: Call, p: Planned, b: seq<byte>)
    requires k.Valid() && TooLong(k, p)
    ensures Outcome(k, p, b, 0, 0) && k.limit == LimitedOutput
  {
  }

  // ---------------------------------------------------------------- an example of all sizes

  /** A block of equal bytes in a new window, and tables none of whose entries is in reach. */
  ghost predicate OneByteOnly(k: Call, t: Tables, v: byte)
  {
    && k.Valid() && t.Sized() && k.s.lowLimit == k.s.dictLimit == k.source == t.next && MIN_LENGTH <= k.N()
    && (forall x :: 0 <= x < HC_HASHSIZE ==> t.h[x] + DISTANCE_MAX < k.source)
    && forall i :: k.s.base + k.source <= i < k.s.base + k.s.end ==> k.s.mem[i] == v
  }

  lemma {:induction false} OneHash(k: Call, t: Tables, v: byte)
    requires OneByteOnly(k, t, v)
    ensures k.s.HashAt(k.source) == k.s.HashAt(k.source + 1)
  {
    var a := k.s.base + k.source;
    assert Read32(k.s.mem, a) == Read32(k.s.mem, a + 1);
  }

  /** At the first byte there is no candidate. */
  lemma {:induction false} NothingThere(k: Call, t: Tables, v: byte, e: Effort)
    requires OneByteOnly(k, t, v)
    ensures var q := Query(k.source, k.source, Matchlimit(k), MINMATCH - 1);
            Searched(k.s, t, q, e) == Best(MINMATCH - 1, 0, k.source) && Inserted(k.s, t, k.source) == t
  {
  }

  /** At the second there is one, and it goes on up to the end. */
  lemma {:induction false} FirstThere(k: Call, t: Tables, v: byte)
    requires OneByteOnly(k, t, v)
    ensures var q := Query(k.source + 1, k.source + 1, Matchlimit(k), MINMATCH - 1);
            var b := Best(MINMATCH - 1, 0, q.ip);
            var len := k.N() - 1 - LASTLITERALS;
            Measured(k.s, q, b, k.source) == (Best(len, k.source, q.ip), len)
  {
    var q := Query(k.source + 1, k.source + 1, Matchlimit(k), MINMATCH - 1);
    var a := k.s.base + k.source;
    assert k.s.mem[a..a + 4] == [v, v, v, v] == k.s.mem[a + 1..a + 5];
    assert k.s.mem[a + 2..a + 4] == [v, v] == k.s.mem[a + 3..a + 5];
    CommonInRun(k.s.mem, a + 1 + MINMATCH, a + MINMATCH, k.s.base + q.high, v);
  }

  lemma {:induction false} RunSearched(k: Call, t: Tables, v: byte, e: Effort)
    requires OneByteOnly(k, t, v) && 1 <= e.attempts && !e.chainSwap && !e.favorDecSpeed
    ensures var q := Query(k.source + 1, k.source + 1, Matchlimit(k), MINMATCH - 1);
            Searched(k.s, t, q, e) == Best(k.N() - 1 - LASTLITERALS, k.source, k.source + 1)
  {
    hide Measured, Space.HashAt, WalkFrom, Stepped;
    var q := Query(k.source + 1, k.source + 1, Matchlimit(k), MINMATCH - 1);
    OneHash(k, t, v);
    FirstThere(k, t, v);
    var t' := Inserted(k.s, t, q.ip);
    OneEntered(k, t, v);
    var pattern: Word := k.s.mem[k.s.base + q.ip..k.s.base + q.ip + 4];
    var w := Walk(k.source, 0, Untested, 0, false);
    var b := Best(k.N() - 1 - LASTLITERALS, k.source, k.source + 1);
    OutOfReach(k, t', q, b, w, b.longest, pattern, e);
    var (b2, w2) := Stepped(k.s, t'.c, q, b, w, b.longest, pattern, e.patternAnalysis, e.chainSwap);
    WalkStep(k.s, t'.c, q, Best(MINMATCH - 1, 0, q.ip), w, pattern, e);
    WalkEnds(k.s, t'.c, q, b, w2, pattern, e.(attempts := e.attempts - 1));
  }

  lemma {:induction false} OneEntered(k: Call, t: Tables, v: byte)
    requires OneByteOnly(k, t, v)
    ensures var t' := Inserted(k.s, t, k.source + 1);
            && t' == Entered(k.s, t) && t'.h[k.s.HashAt(k.source)] == k.source
            && t'.c[k.source % MAXD] == DISTANCE_MAX
  {
    assert Inserted(k.s, Entered(k.s, t), k.source + 1) == Entered(k.s, t);
  }

  lemma {:induction false} OutOfReach(k: Call, t: Tables, q: Query, b: Best, w: Walk, len: nat, pattern: Word,
                                      e: Effort)
    requires k.Valid() && t.Sized() && QueryOk(k.s, q) && t.c[k.source % MAXD] == DISTANCE_MAX && !e.chainSwap
    requires q.ip == k.source + 1 && k.s.lowLimit == k.source && w == Walk(k.source, 0, Untested, 0, false)
    ensures var (b2, w2) := Stepped(k.s, t.c, q, b, w, len, pattern, e.patternAnalysis, e.chainSwap);
            b2 == b && w2.m < LowestMatchIndex(k.s, q.ip)
  {
  }

  /** The match is written as it is: behind it there is no room for another. */
  lemma {:induction false} OneByteWritten(k: Call, t: Tables, v: byte, t': Tables, e: Effort)
    requires OneByteOnly(k, t, v) && t'.Sized()
    ensures var m, o := Match(k.source + 1, k.source, k.N() - 1 - LASTLITERALS), Output(Start, k.source);
            && Emitted(k, o, m) == Output(Snoc(Start, Sequence([v], 1, m.len)), m.End())
            && Parsed(k, FirstState(m, o, t'), e).out == Emitted(k, o, m)
  {
    hide Searched, Inserted, OneByteOnly, Lean, Extends, LitSize, SeqSize, SizeOf;
    OneByteParts(k, t, v);
    assert k.s.mem[k.s.base + k.source..k.s.base + k.source + 1] == [v];
  }

  /** Levels up to 9 compress it, however long it is, as one literal, one match and five literals. */
  lemma {:induction false} RunOfOneByte(k: Call, t: Tables, v: byte, attempts: nat)
    requires OneByteOnly(k, t, v) && 1 <= attempts
    ensures var o := ChainPlan(k, t, attempts).out;
            && o.ss == Snoc(Start, Sequence([v], 1, k.N() - 1 - LASTLITERALS)) && o.anchor == k.s.end - LASTLITERALS
            && PlanSize(k, o) == 10 + (k.N() - 10 + 240) / 255
  {
    hide Searched, Inserted, OneByteOnly, Lean, Extends, LitSize, SeqSize, SizeOf;
    var e := Trying(attempts, attempts > 128);
    var o, ip := Output(Start, k.source), k.source + 1;
    OneByteParts(k, t, v);
    NothingThere(k, t, v, e);
    RunSearched(k, t, v, e);
    OneByteWritten(k, t, v, Inserted(k.s, t, ip), e);
    assert Chained(k, t, o, k.source, e) == Chained(k, t, o, ip, e);
    OneMatchSize(Sequence([v], 1, k.N() - 1 - LASTLITERALS));
  }

  lemma {:induction false} OneByteParts(k: Call, t: Tables, v: byte)
    requires OneByteOnly(k, t, v)
    ensures k.Valid() && t.Sized() && MIN_LENGTH <= k.N() && k.s.mem[k.s.base + k.source] == v
  {
  }
}
