/**
  The fast compressor's hash table: hash functions, what its entries may be, and the search that probes it.
  Positions are addresses in one read-only memory; table entries are indices, `startIndex` being the index
  of the first byte of the block.
*/
module Lz4FastTable {
  import opened Lz4Defs
  import opened Lz4Format
  import opened Lz4Count
  import opened Lz4Encode

  datatype TableType = ClearedTable | ByU32 | ByU16
  datatype DictDirective = NoDict | WithPrefix64k | UsingExtDict
  datatype Limit = NotLimited | LimitedOutput | FillOutput

  const HASHLOG_SIZE: nat := 4096
  const HASH_CELLS: nat := 8192
  const TWO32: nat := 0x1_0000_0000
  const TWO64: nat := 0x1_0000_0000_0000_0000

  /** Indices stay so low that adding LZ4_DISTANCE_MAX to them does not leave 32 bits. */
  const INDEX_LIMIT: nat := TWO32 - KB64

  /**
    The accelerations at which no search of `n` bytes takes its counter out of the range of an int:
    `CounterIsExact`. Inputs of fewer than MIN_LENGTH bytes are not searched.
  */
  predicate CounterFits(a: nat, n: nat)
  {
    n < MIN_LENGTH || a == 0 || 64 * a + 2 + (n - MIN_LENGTH) / a <= INT_MAX
  }

  /** The same for a parameter that, below 1, stands for the default. Inputs of unsupported sizes are not searched. */
  predicate AccelerationOk(acceleration: int, n: int)
  {
    n < 0 || n > MAX_INPUT_SIZE || CounterFits(Max(1, acceleration), n)
  }

  /** The largest acceleration at which the counter stays an int on all inputs. */
  const ACCELERATION_MAX: nat := 0x1FF_FFFE

  /** One call of LZ4_compress_generic, after its checks on the size. */
  datatype Block = Block(mem: seq<byte>, source: nat, n: nat, startIndex: nat, tableType: TableType,
                         dict: DictDirective, dictionary: nat, dictSize: nat, small: bool,
                         limit: Limit, olimit: nat, acceleration: nat)
  {
    function Iend(): nat
    {
      source + n
    }

    function DictEnd(): nat
    {
      dictionary + dictSize
    }

    /** Index of an address inside the block. */
    function Index(p: int): int
    {
      startIndex + (p - source)
    }

    /** Place of an address inside the block, counted from the start of the dictionary. */
    function Pos(p: int): int
    {
      dictSize + (p - source)
    }

    predicate Valid()
    {
      && source + n <= |mem| && n <= MAX_INPUT_SIZE
      && dictSize <= startIndex && startIndex + n < INDEX_LIMIT
      && 1 <= acceleration
      && (tableType == ByU32 || (tableType == ByU16 && n < LIMIT_64K && dict == NoDict))
      && (tableType == ByU16 ==> startIndex == 0 || (small && startIndex + n < 0xFFFF))
      && (dict == NoDict ==> dictSize == 0)
      && (dict == WithPrefix64k ==> DictEnd() == source)
      && (dict == UsingExtDict ==> DictEnd() != source && (dictionary != source || n == 0))
      && (dict == UsingExtDict ==> dictSize == 0 || MINMATCH <= dictSize)
      && DictEnd() <= |mem|
      && (limit == FillOutput ==> dict == NoDict && startIndex == 0 && !small && 1 <= olimit)
    }

    /** Dictionary and block, as the decoder will see them. */
    function Window(): (w: seq<byte>)
      requires Valid()
      ensures |w| == dictSize + n
    {
      mem[dictionary..DictEnd()] + mem[source..Iend()]
    }
  }

  // ---------------------------------------------------------------- hashing

  function Read32(mem: seq<byte>, p: nat): nat
    requires p + 4 <= |mem|
  {
    (mem[p] as int) + 0x100 * (mem[p + 1] as int) + 0x1_0000 * (mem[p + 2] as int) + 0x100_0000 * (mem[p + 3] as int)
  }

  function Read64(mem: seq<byte>, p: nat): nat
    requires p + 8 <= |mem|
  {
    Read32(mem, p) + TWO32 * Read32(mem, p + 4)
  }

  /** LZ4_hash4 for the 16-bit table. */
  function Hash4(sequence: nat): nat
  {
    (sequence * 2654435761) % TWO32 / 0x8_0000
  }

  /** LZ4_hash5 for the 32-bit table. */
  function Hash5(sequence: nat): nat
  {
    ((sequence * 0x100_0000) % TWO64 * 889523592379) % TWO64 / 0x10_0000_0000_0000
  }

  function TableSize(tt: TableType): nat
  {
    if tt == ByU16 then HASH_CELLS else HASHLOG_SIZE
  }

  /** LZ4_hashPosition. */
  function Hash(k: Block, p: nat): (h: nat)
    requires p + 8 <= |k.mem|
    ensures h < TableSize(k.tableType) <= HASH_CELLS
  {
    if k.tableType == ByU16 then Hash4(Read32(k.mem, p)) else Hash5(Read64(k.mem, p))
  }

  // ---------------------------------------------------------------- what the table may hold

  /**
    An entry seen when index `cur` is probed: it lies before `cur`; unless small dictionaries are
    filtered out it lies in the window or beyond reach; inside a dictionary it leaves four bytes to read.
  */
  predicate EntryOk(k: Block, e: nat, cur: int)
  {
    && e < cur
    && (k.small || k.startIndex - k.dictSize <= e || (k.tableType == ByU32 && e + DISTANCE_MAX < k.startIndex))
    && (k.dict == UsingExtDict && k.startIndex - k.dictSize <= e < k.startIndex ==> e + 4 <= k.startIndex)
  }

  ghost predicate TableOk(k: Block, t: seq<nat>, cur: int)
  {
    |t| == HASH_CELLS && forall h :: 0 <= h < TableSize(k.tableType) ==> EntryOk(k, t[h], cur)
  }

  lemma {:induction false} TableLater(k: Block, t: seq<nat>, cur: int, cur': int)
    requires TableOk(k, t, cur) && cur <= cur'
    ensures TableOk(k, t, cur')
  {
  }

  /** Every entry stands in the cell its position hashes to: what clearing positions relies on. */
  ghost predicate Hashed(k: Block, t: seq<nat>, top: nat)
  {
    |t| == HASH_CELLS
    && forall h :: 0 <= h < TableSize(k.tableType) ==>
         t[h] == 0 || (k.startIndex == 0 && k.source + t[h] <= top && top + 8 <= |k.mem|
             && Hash(k, k.source + t[h]) == h)
  }

  ghost predicate TableInv(k: Block, t: seq<nat>, top: nat)
  {
    TableOk(k, t, k.Index(top) + 1) && (k.limit == FillOutput ==> Hashed(k, t, top))
  }

  /** LZ4_putIndexOnHash and LZ4_putPositionOnHash; storing to a 16-bit cell truncates. */
  method PutIndex(k: Block, t: array<nat>, idx: nat, h: nat)
    requires t.Length == HASH_CELLS && h < HASH_CELLS && (k.tableType == ByU16 ==> idx < 0x1_0000) && idx < TWO32
    modifies t
    ensures t[..] == old(t[..])[h := idx]
  {
    t[h] := if k.tableType == ByU16 then idx % 0x1_0000 else idx % TWO32;
  }

  /** Storing position `p`, the newest so far. */
  lemma {:induction false} PutNewest(k: Block, t: seq<nat>, top: nat, p: nat)
    requires k.Valid() && |t| == HASH_CELLS
    requires TableOk(k, t, Max(1, k.Index(p))) && (k.limit == FillOutput ==> Hashed(k, t, top))
    requires top <= p && k.source <= p && p + 8 <= |k.mem|
    ensures TableInv(k, t[Hash(k, p) := k.Index(p)], p)
  {
    hide Hash;
    var h0 := Hash(k, p);
    var t' := t[h0 := k.Index(p)];
    forall h | 0 <= h < TableSize(k.tableType)
      ensures EntryOk(k, t'[h], k.Index(p) + 1)
    {
    }
  }

  /** The positions a compressor may store: they end MFLIMIT bytes before the block does. */
  predicate Storable(k: Block, p: nat)
  {
    k.source <= p && p + MFLIMIT <= k.Iend()
  }

  /** All of them fit the cells of their table, so that no store ever truncates. */
  lemma {:induction false} StoredIndexFits(k: Block, p: nat)
    requires k.Valid() && Storable(k, p)
    ensures k.tableType == ByU16 ==> k.Index(p) < 0x1_0000
    ensures 0 <= k.Index(p) < TWO32
  {
  }

  /** LZ4_putPosition, for the first byte of a block. */
  method PutFirst(k: Block, t: array<nat>)
    requires k.Valid() && t.Length == HASH_CELLS && Storable(k, k.source)
    requires TableOk(k, t[..], Max(1, k.startIndex)) && (k.limit == FillOutput ==> Hashed(k, t[..], k.source))
    modifies t
    ensures TableInv(k, t[..], k.source)
    ensures t[..] == old(t[..])[Hash(k, k.source) := k.Index(k.source)]
  {
    hide Hash;
    StoredIndexFits(k, k.source);
    PutNewest(k, t[..], k.source, k.source);
    PutIndex(k, t, k.Index(k.source), Hash(k, k.source));
  }

  lemma {:induction false} PutInside(k: Block, t: seq<nat>, top: nat, p: nat)
    requires k.Valid() && TableInv(k, t, top)
    requires k.source <= p && p + 8 <= |k.mem| && top + 8 <= |k.mem|
    ensures TableInv(k, t[Hash(k, p) := k.Index(p)], Max(top, p))
  {
    hide Hash;
    var h0 := Hash(k, p);
    var t' := t[h0 := k.Index(p)];
    var q := Max(top, p);
    forall h | 0 <= h < TableSize(k.tableType)
      ensures EntryOk(k, t'[h], k.Index(q) + 1)
    {
    }
  }

  /** LZ4_putPosition. */
  method PutPosition(k: Block, t: array<nat>, ghost top: nat, p: nat)
    requires k.Valid() && t.Length == HASH_CELLS && Storable(k, p) && top < k.Iend() && top + 8 <= |k.mem|
    requires TableInv(k, t[..], top)
    modifies t
    ensures TableInv(k, t[..], Max(top, p))
    ensures t[..] == old(t[..])[Hash(k, p) := k.Index(p)]
  {
    hide Hash;
    StoredIndexFits(k, p);
    PutInside(k, t[..], top, p);
    PutIndex(k, t, k.Index(p), Hash(k, p));
  }

  // ---------------------------------------------------------------- candidates

  /** A candidate: an address, and the low end of the segment it lies in. */
  predicate CandidateAt(k: Block, ip: nat, m: nat, low: nat)
  {
    && low <= m
    && (low == k.source - (if k.dict == WithPrefix64k then k.dictSize else 0)
       || (k.dict == UsingExtDict && low == k.dictionary))
    && 1 <= Offset(k, ip, m, low) <= DISTANCE_MAX
  }

  predicate InDict(k: Block, low: nat)
  {
    k.dict == UsingExtDict && low == k.dictionary
  }

  /** Distance between a position and its candidate, in the window. */
  function Offset(k: Block, ip: nat, m: nat, low: nat): int
  {
    if InDict(k, low) then k.Pos(ip) - (m - k.dictionary) else ip - m
  }

  /** A match: the candidate's first four bytes are those at `ip`. */
  ghost predicate MatchAt(k: Block, ip: nat, m: nat, low: nat)
  {
    && CandidateAt(k, ip, m, low)
    && m + 4 <= (if InDict(k, low) then k.DictEnd() else ip + 4)
    && Agree(k.mem, ip, m, 4)
  }

  /** The tests between reading an entry and reading its bytes let through only what lies in the window. */
  predicate Accepted(k: Block, e: nat, cur: nat)
  {
    && !(k.small && e < k.startIndex - k.dictSize)
    && !(k.tableType != ByU16 && e + DISTANCE_MAX < cur)
  }

  /** Where the bytes of index `e` are, and the low end of their segment. */
  function Locate(k: Block, e: int): (r: (int, int))
  {
    if k.dict == UsingExtDict then
      if e < k.startIndex then (k.DictEnd() - k.startIndex + e, k.dictionary)
          else (k.source - k.startIndex + e, k.source)
    else (k.source - k.startIndex + e, k.source - (if k.dict == WithPrefix64k then k.dictSize else 0))
  }

  lemma {:induction false} AcceptedIsInWindow(k: Block, e: nat, ip: nat)
    requires k.Valid() && Storable(k, ip) && EntryOk(k, e, k.Index(ip)) && Accepted(k, e, k.Index(ip))
    ensures k.startIndex - k.dictSize <= e && k.Index(ip) - e <= DISTANCE_MAX
    ensures var (m, low) := Locate(k, e);
            && 0 <= low && CandidateAt(k, ip, m, low) && Offset(k, ip, m, low) == k.Index(ip) - e
            && m + 4 <= |k.mem| && m + 4 <= (if InDict(k, low) then k.DictEnd() else ip + 4)
  {
  }

  datatype Probe = Miss | Hit(m: nat, low: nat)

  /** What comes of reading entry `e` at `ip`: a hit exactly if it passes the tests and its four bytes are the same. */
  function ProbeResult(k: Block, e: nat, ip: nat): Probe
    requires k.source <= ip && ip + 4 <= |k.mem|
  {
    var (m, low) := Locate(k, e);
    if Accepted(k, e, k.Index(ip)) && 0 <= low <= m && m + 4 <= |k.mem| && ReadEqual(k.mem, m, ip, 4)
    then Hit(m, low) else Miss
  }

  /** One probe: read the entry of `ip`'s hash, replace it by `ip`, and test the candidate. */
  method ProbeAt(k: Block, t: array<nat>, ghost top: nat, ip: nat, h: nat) returns (r: Probe)
    requires k.Valid() && t.Length == HASH_CELLS && Storable(k, ip) && h == Hash(k, ip)
    requires top < ip && TableInv(k, t[..], top)
    modifies t
    ensures TableInv(k, t[..], ip)
    ensures r.Hit? ==> MatchAt(k, ip, r.m, r.low)
    ensures r == ProbeResult(k, old(t[h]), ip) && t[..] == old(t[..])[h := k.Index(ip)]
  {
    hide Hash, Agree;
    var current := k.Index(ip);
    TableLater(k, t[..], k.Index(top) + 1, current);
    assert t[h] == t[..][h] && EntryOk(k, t[..][h], current);
    var matchIndex := t[h];
    var (m, low) := Locate(k, matchIndex);
    StoredIndexFits(k, ip);
    TableLater(k, t[..], current, Max(1, current));
    PutNewest(k, t[..], top, ip);
    PutIndex(k, t, current, h);
    if !Accepted(k, matchIndex, current) {
      return Miss;
    }
    AcceptedIsInWindow(k, matchIndex, ip);
    ReadEqualAgrees(k.mem, ip, m);
    if ReadEqual(k.mem, m, ip, 4) {
      return Hit(m, low);
    }
    return Miss;
  }

  lemma {:induction false} ReadEqualAgrees(mem: seq<byte>, p: nat, q: nat)
    requires p + 4 <= |mem| && q + 4 <= |mem|
    ensures ReadEqual(mem, q, p, 4) <==> Agree(mem, p, q, 4)
  {
    hide SameAt;
    ReadEqual4(mem, p, q, 0);
  }

  // ---------------------------------------------------------------- the search

  lemma {:induction false} QuotientShrinks(n: nat, m: nat, a: nat)
    requires 1 <= a && n <= m
    ensures n / a <= m / a
  {
    var x, y := n / a, m / a;
    assert x * a <= n && m < (y + 1) * a;
    if x > y {
      ProductsGrow(y + 1, x, a);
    }
  }

  lemma {:induction false} ProductsGrow(i: nat, j: nat, a: nat)
    ensures i <= j ==> i * a <= j * a
  {
  }

  lemma {:induction false} QuotientAtLeast(i: nat, n: nat, a: nat)
    requires 1 <= a && i * a <= n
    ensures i <= n / a
  {
    var y := n / a;
    assert n < (y + 1) * a;
    if i > y {
      ProductsGrow(y + 1, i, a);
    }
  }

  lemma {:induction false} CounterProduct(c: int, a: int)
    ensures (c - 64 * a) * a == (c - 64) + (a - 1) * (c - 64 * (a + 1))
  {
    var square := a * a;
    assert (c - 64 * a) * a == c * a - 64 * square;
    assert (a - 1) * (c - 64 * (a + 1)) == c * a - c - 64 * square + 64;
  }

  lemma {:induction false} ProductNonNegative(x: int, y: int)
    requires x >= 0 && y >= 0
    ensures x * y >= 0
  {
  }

  lemma {:induction false} QuotientAtMost(n: nat, q: int, a: nat)
    requires 1 <= a && n <= q * a
    ensures n / a <= q
  {
    var y := n / a;
    assert y * a <= n;
    if q < y {
      ProductsGrow(if q < 0 then 0 else q + 1, y, a);
    }
  }

  lemma {:induction false} CounterFitsUpToLimit(a: nat)
    requires 1 <= a <= ACCELERATION_MAX
    ensures CounterFits(a, MAX_INPUT_SIZE)
  {
    var c := INT_MAX - 2;
    CounterProduct(c, a);
    ProductNonNegative(a - 1, c - 64 * (a + 1));
    assert (c - 64 * a) * a >= c - 64;
    QuotientAtMost(MAX_INPUT_SIZE - MIN_LENGTH, c - 64 * a, a);
  }

  /** Less input takes fewer probes. */
  lemma {:induction false} CounterFitsLess(a: nat, n: nat, m: nat)
    requires CounterFits(a, m) && n <= m
    ensures CounterFits(a, n)
  {
    if MIN_LENGTH <= n && 1 <= a {
      QuotientShrinks(n - MIN_LENGTH, m - MIN_LENGTH, a);
    }
  }

  lemma {:induction false} DefaultFits(n: nat)
    requires n <= MAX_INPUT_SIZE
    ensures CounterFits(1, n)
  {
  }

  /** The search counter after `j` probes: it starts at the acceleration shifted by LZ4_skipTrigger. */
  function Counter(a: nat, j: nat): nat
  {
    64 * a + j
  }

  /** How far the search goes for probe `j` if all before miss: one byte, then as far as the counter said before. */
  function ProbePos(a: nat, j: nat): nat
  {
    if j == 0 then 0
    else if j == 1 then 1
    else ProbePos(a, j - 1) + Counter(a, j - 2) / 64
  }

  lemma {:induction false} ProbeNext(a: nat, j: nat)
    ensures ProbePos(a, j + 1) == ProbePos(a, j) + (if j == 0 then 1 else Counter(a, j - 1) / 64)
    ensures ProbePos(a, 0) == 0
  {
  }

  /** A search with `room` bytes up to its limit comes to probe `j`, which raises the counter. */
  predicate Probed(a: nat, j: nat, room: int)
  {
    ProbePos(a, j) <= room
  }

  lemma {:induction false} ProbesApart(a: nat, j: nat)
    requires 1 <= j
    ensures (j - 1) * a + 1 <= ProbePos(a, j)
    ensures j <= 65 ==> ProbePos(a, j) == (j - 1) * a + 1
  {
    if j == 1 {
    } else {
      ProbesApart(a, j - 1);
      assert (j - 1) * a == (j - 2) * a + a;
    }
  }

  lemma {:induction false} ProbesGrow(a: nat, i: nat, j: nat)
    requires i <= j
    ensures ProbePos(a, i) <= ProbePos(a, j)
  {
    if i == j {
    } else {
      ProbesGrow(a, i, j - 1);
    }
  }

  /** While the acceleration suits the size of the input, every probe finds the counter below INT_MAX. */
  lemma {:induction false} SearchCounterFits(a: nat, n: nat, j: nat)
    requires 1 <= a && CounterFits(a, n) && MIN_LENGTH <= n && Probed(a, j, n - MFLIMIT)
    ensures Counter(a, j) + 1 <= INT_MAX
  {
    if j > 0 {
      ProbesApart(a, j);
      QuotientAtLeast(j - 1, n - MIN_LENGTH, a);
    } else {
      QuotientAtLeast(0, n - MIN_LENGTH, a);
    }
  }

  /** Where it does not, the counter leaves the range of an int at this probe. */
  function LastProbe(a: nat, n: nat): nat
    requires 1 <= a && MIN_LENGTH <= n
  {
    (n - MIN_LENGTH) / a + 1
  }

  lemma {:induction false} LastProbeOverflows(a: nat, n: nat)
    requires 1 <= a && MIN_LENGTH <= n <= MAX_INPUT_SIZE && !CounterFits(a, n)
    ensures ACCELERATION_MAX < a && LastProbe(a, n) <= 65
    ensures Probed(a, LastProbe(a, n), n - MFLIMIT) && Counter(a, LastProbe(a, n)) + 1 > INT_MAX
  {
    if a <= ACCELERATION_MAX {
      CounterFitsUpToLimit(a);
      CounterFitsLess(a, n, MAX_INPUT_SIZE);
    }
    var q := (n - MIN_LENGTH) / a;
    QuotientAtMost(n - MIN_LENGTH, 64, a);
    ProbesApart(a, q + 1);
    assert q * a <= n - MIN_LENGTH;
  }

  /** The first search of a block has this room: if all its probes miss, they overflow the counter exactly then. */
  lemma {:induction false} CounterIsExact(a: nat, n: nat)
    requires 1 <= a && MIN_LENGTH <= n <= MAX_INPUT_SIZE
    ensures (exists j: nat :: Probed(a, j, n - MFLIMIT) && Counter(a, j) + 1 > INT_MAX) <==> !CounterFits(a, n)
  {
    hide CounterFits, Probed, Counter;
    if CounterFits(a, n) {
      forall j: nat | Probed(a, j, n - MFLIMIT)
        ensures Counter(a, j) + 1 <= INT_MAX
      {
        SearchCounterFits(a, n, j);
      }
    } else {
      LastProbeOverflows(a, n);
    }
  }

  /** On the largest input just above the limit this takes 64 probes; further above it the counter starts too high. */
  lemma {:induction false} CounterOverflows(a: nat)
    requires ACCELERATION_MAX < a
    ensures var j := if a == ACCELERATION_MAX + 1 then 63 else 0;
            && Probed(a, j, MAX_INPUT_SIZE - MFLIMIT) && Counter(a, j) + 1 > INT_MAX
            && (if j > 0 then Counter(a, j - 1) + 1 <= INT_MAX else Counter(a, 0) > INT_MAX)
    ensures !CounterFits(a, MAX_INPUT_SIZE)
  {
    var j := if a == ACCELERATION_MAX + 1 then 63 else 0;
    if j > 0 {
      ProbesApart(a, j);
    }
    CounterIsExact(a, MAX_INPUT_SIZE);
  }

  /** Up to exactly which acceleration the counter stays an int whatever the input is. */
  lemma {:induction false} AccelerationLimit(a: nat)
    requires 1 <= a
    ensures a <= ACCELERATION_MAX <==> forall n :: 0 <= n <= MAX_INPUT_SIZE ==> CounterFits(a, n)
  {
    hide CounterFits;
    if a <= ACCELERATION_MAX {
      CounterFitsUpToLimit(a);
      forall n | 0 <= n <= MAX_INPUT_SIZE
        ensures CounterFits(a, n)
      {
        CounterFitsLess(a, n, MAX_INPUT_SIZE);
      }
    } else {
      CounterOverflows(a);
    }
  }

  datatype Sought = Sought(r: Probe, ip: nat, table: seq<nat>)

  /** The search from probe `j` at `ip` on, with the table `t`. */
  function SearchFrom(k: Block, t: seq<nat>, ip: nat, j: nat): (f: Sought)
    requires k.Valid() && |t| == HASH_CELLS && k.source <= ip && ip + MFLIMIT <= k.Iend() + 1
    ensures |f.table| == HASH_CELLS && ip <= f.ip
    ensures f.r.Hit? ==> f.ip + MFLIMIT <= k.Iend() && f.r.low <= f.r.m
    decreases k.Iend() - ip
  {
    var next := ip + (if j == 0 then 1 else Counter(k.acceleration, j - 1) / 64);
    if next > k.Iend() - MFLIMIT + 1 then Sought(Miss, ip, t)
    else
      var h := Hash(k, ip);
      var r := ProbeResult(k, t[h], ip);
      var t' := t[h := k.Index(ip)];
      if r.Hit? then Sought(r, ip, t') else SearchFrom(k, t', next, j + 1)
  }

  lemma {:induction false} SearchStep(k: Block, t: seq<nat>, ip: nat, j: nat, next: nat)
    requires k.Valid() && |t| == HASH_CELLS && k.source <= ip && ip + MFLIMIT <= k.Iend() + 1
    requires next == ip + (if j == 0 then 1 else Counter(k.acceleration, j - 1) / 64)
    ensures next > k.Iend() - MFLIMIT + 1 ==> SearchFrom(k, t, ip, j) == Sought(Miss, ip, t)
    ensures next <= k.Iend() - MFLIMIT + 1 ==>
              var r, t' := ProbeResult(k, t[Hash(k, ip)], ip), t[Hash(k, ip) := k.Index(ip)];
              SearchFrom(k, t, ip, j) == if r.Hit? then Sought(r, ip, t') else SearchFrom(k, t', next, j + 1)
  {
    hide Hash, ProbeResult;
  }

  /** The search loop: steps grow with the number of failed probes; near the end of the block it gives up. */
  method FindMatch(k: Block, t: array<nat>, ghost top0: nat, ip0: nat)
      returns (r: Probe, ip: nat, ghost top: nat, ghost probes: nat)
    requires k.Valid() && t.Length == HASH_CELLS
    requires k.source <= top0 < ip0 && ip0 + MFLIMIT <= k.Iend() + 1 && MIN_LENGTH <= k.n
    requires TableInv(k, t[..], top0)
    modifies t
    ensures TableInv(k, t[..], top) && (top == top0 || Storable(k, top))
    ensures r.Hit? ==> ip0 <= ip == top && Storable(k, ip) && MatchAt(k, ip, r.m, r.low)
    ensures 1 <= probes && ip == ip0 + ProbePos(k.acceleration, probes - 1)
    ensures Probed(k.acceleration, probes - 1, k.Iend() - MFLIMIT + 1 - ip0)
    ensures r.Miss? ==> !Probed(k.acceleration, probes, k.Iend() - MFLIMIT + 1 - ip0)
    ensures CounterFits(k.acceleration, k.n) ==> Counter(k.acceleration, probes) <= INT_MAX
    ensures Sought(r, ip, t[..]) == SearchFrom(k, old(t[..]), ip0, 0)
  {
    hide Hash, TableInv, MatchAt, CounterFits, ProbePos, ProbeResult, SearchFrom, Block.Window;
    var mflimitPlusOne := k.Iend() - MFLIMIT + 1;
    var forwardIp := ip0;
    var step := 1;
    var searchMatchNb := k.acceleration * 64;
    var forwardH := Hash(k, forwardIp);
    top, probes := top0, 0;
    ProbeNext(k.acceleration, 0);
    while true
      invariant top < forwardIp <= mflimitPlusOne && ip0 <= forwardIp && (top == top0 || Storable(k, top))
      invariant TableInv(k, t[..], top) && forwardH == Hash(k, forwardIp)
      invariant searchMatchNb == Counter(k.acceleration, probes)
      invariant forwardIp == ip0 + ProbePos(k.acceleration, probes)
      invariant step == (if probes == 0 then 1 else Counter(k.acceleration, probes - 1) / 64)
      invariant SearchFrom(k, t[..], forwardIp, probes) == SearchFrom(k, old(t[..]), ip0, 0)
      decreases mflimitPlusOne - forwardIp
    {
      var h := forwardH;
      ip := forwardIp;
      forwardIp := forwardIp + step;
      SearchStep(k, t[..], ip, probes, forwardIp);
      step := searchMatchNb / 64;
      searchMatchNb := searchMatchNb + 1;
      if CounterFits(k.acceleration, k.n) {
        SearchCounterFits(k.acceleration, k.n, probes);
      }
      ProbeNext(k.acceleration, probes);
      probes := probes + 1;
      if forwardIp > mflimitPlusOne {
        return Miss, ip, top, probes;
      }
      forwardH := Hash(k, forwardIp);
      r := ProbeAt(k, t, top, ip, h);
      top := ip;
      if r.Hit? {
        return r, ip, top, probes;
      }
    }
  }

  // ---------------------------------------------------------------- extending a match

  lemma {:induction false} AgreeFewer(mem: seq<byte>, p: nat, q: nat, n: nat, m: nat)
    requires Agree(mem, p, q, n) && m <= n
    ensures Agree(mem, p, q, m)
  {
  }

  /** Catch up: the match is extended backwards, not before `anchor` and not out of its segment. */
  method CatchUp(k: Block, anchor: nat, ip0: nat, m0: nat, low: nat) returns (ip: nat, m: nat)
    requires k.Valid() && anchor <= ip0 && Storable(k, ip0) && MatchAt(k, ip0, m0, low)
    ensures anchor <= ip <= ip0 && MatchAt(k, ip, m, low)
    ensures Agree(k.mem, ip, m, ip0 - ip + 4)
    ensures InDict(k, low) ==> m + (ip0 - ip) + 4 <= k.DictEnd()
    ensures ip == ip0 - BytesBack(k.mem, ip0, m0, anchor, low) && m == m0 - (ip0 - ip)
  {
    hide Agree;
    ip, m := ip0, m0;
    while ip > anchor && m > low && k.mem[ip - 1] == k.mem[m - 1]
      invariant anchor <= ip <= ip0 && low <= m && ip0 - ip == m0 - m
      invariant Agree(k.mem, ip, m, ip0 - ip + 4)
      invariant ip - BytesBack(k.mem, ip, m, anchor, low) == ip0 - BytesBack(k.mem, ip0, m0, anchor, low)
    {
      AgreeBack(k.mem, ip, m, ip0 - ip + 4);
      ip, m := ip - 1, m - 1;
    }
    AgreeFewer(k.mem, ip, m, ip0 - ip + 4, 4);
  }

  /** A window position is an address in the dictionary or in the block. */
  lemma {:induction false} WindowAt(k: Block, pos: nat)
    requires k.Valid() && pos < k.dictSize + k.n
    ensures k.Window()[pos]
              == (if pos < k.dictSize then k.mem[k.dictionary + pos] else k.mem[k.source + pos - k.dictSize])
    ensures k.dict != UsingExtDict ==> k.Window()[pos] == k.mem[k.source - k.dictSize + pos]
  {
  }

  /** Bytes that agree in memory, one stretch inside one segment, are a match in the window. */
  lemma {:induction false} AgreeIsMatch(k: Block, ip: nat, m: nat, low: nat, len: nat)
    requires k.Valid() && k.source <= ip && CandidateAt(k, ip, m, low) && ip + len <= k.Iend()
    requires InDict(k, low) ==> m + len <= k.DictEnd()
    requires Agree(k.mem, ip, m, len)
    ensures IsMatch(k.Window(), k.Pos(ip), Offset(k, ip, m, low), len)
  {
    var v, p, off := k.Window(), k.Pos(ip), Offset(k, ip, m, low);
    assert off <= p;
    assert |v| == k.dictSize + k.n;
    forall x | p <= x < p + len
      ensures v[x] == v[x - off]
    {
      WindowAt(k, x);
      WindowAt(k, x - off);
      assert SameAt(k.mem, ip, m, x - p);
    }
  }

  lemma {:induction false} MatchJoin(v: seq<byte>, p: nat, off: nat, a: nat, b: nat)
    requires IsMatch(v, p, off, a) && IsMatch(v, p + a, off, b)
    ensures IsMatch(v, p, off, a + b)
  {
  }

  /** The counted length covers at least what is already known to agree. */
  lemma {:induction false} CountCovers(mem: seq<byte>, p: nat, q: nat, limit: int, n: nat, known: nat)
    requires CommonLength(mem, p, q, limit, n) && Agree(mem, p, q, known) && p + known <= limit
    ensures known <= n
  {
    assert n < known ==> SameAt(mem, p, q, n);
  }

  /** The length of the longest match at a candidate, minus MINMATCH. */
  function CodeOf(k: Block, ip: nat, m: nat, low: nat): (code: nat)
    requires ip + MFLIMIT <= k.Iend()
    ensures ip + MINMATCH + code <= k.Iend() - LASTLITERALS
  {
    var matchlimit := k.Iend() - LASTLITERALS;
    if InDict(k, low) then
      var limit := Min(ip + (k.DictEnd() - m), matchlimit);
      var code := Common(k.mem, ip + MINMATCH, m + MINMATCH, limit);
      if ip + MINMATCH + code == limit then code + Common(k.mem, limit, k.source, matchlimit) else code
    else Common(k.mem, ip + MINMATCH, m + MINMATCH, matchlimit)
  }

  /** Length of a match minus MINMATCH. A match in an external dictionary may go on at the start of the block. */
  method MatchCode(k: Block, ip: nat, m: nat, low: nat, ghost top: nat) returns (code: nat)
    requires k.Valid() && k.source <= ip <= top && Storable(k, top)
    requires MatchAt(k, ip, m, low) && Agree(k.mem, ip, m, top - ip + 4)
    requires InDict(k, low) ==> m + (top - ip) + 4 <= k.DictEnd()
    ensures ip + MINMATCH + code <= k.Iend() - LASTLITERALS && top < ip + MINMATCH + code
    ensures IsMatch(k.Window(), k.Pos(ip), Offset(k, ip, m, low), MINMATCH + code)
    ensures code == CodeOf(k, ip, m, low)
  {
    hide Agree, CommonLength, IsMatch, Common;
    var matchlimit := k.Iend() - LASTLITERALS;
    AgreeTail(k.mem, ip, m, top - ip + 4, 4);
    if InDict(k, low) {
      var limit := ip + (k.DictEnd() - m);
      if limit > matchlimit {
        limit := matchlimit;
      }
      code := Count(k.mem, ip + MINMATCH, m + MINMATCH, limit);
      CommonIs(k.mem, ip + MINMATCH, m + MINMATCH, limit, code);
      CountBounds(k.mem, ip, m, limit, code, top);
      MatchFromCount(k, ip, m, low, limit, code);
      if ip + MINMATCH + code == limit {
        var more := Count(k.mem, limit, k.source, matchlimit);
        CommonIs(k.mem, limit, k.source, matchlimit, more);
        MatchGoesOn(k, ip, m, low, limit, code, more);
        code := code + more;
      }
    } else {
      code := Count(k.mem, ip + MINMATCH, m + MINMATCH, matchlimit);
      CommonIs(k.mem, ip + MINMATCH, m + MINMATCH, matchlimit, code);
      CountBounds(k.mem, ip, m, matchlimit, code, top);
      MatchFromCount(k, ip, m, low, matchlimit, code);
    }
  }

  lemma {:induction false} CountBounds(mem: seq<byte>, ip: nat, m: nat, limit: int, code: nat, top: nat)
    requires CommonLength(mem, ip + 4, m + 4, limit, code) && ip <= top
    requires Agree(mem, ip + 4, m + 4, top - ip)
    requires ip + 4 <= limit
    ensures ip + 4 + code <= limit
    ensures top + 4 <= limit ==> top < ip + 4 + code
  {
    if top + 4 <= limit {
      CountCovers(mem, ip + 4, m + 4, limit, code, top - ip);
    }
  }

  lemma {:induction false} MatchFromCount(k: Block, ip: nat, m: nat, low: nat, limit: int, code: nat)
    requires k.Valid() && k.source <= ip && MatchAt(k, ip, m, low) && limit <= k.Iend()
    requires CommonLength(k.mem, ip + 4, m + 4, limit, code) && ip + 4 + code <= limit
    requires InDict(k, low) ==> limit <= ip + (k.DictEnd() - m)
    ensures IsMatch(k.Window(), k.Pos(ip), Offset(k, ip, m, low), 4 + code)
  {
    AgreeMore(k.mem, ip, m, 4, code);
    AgreeIsMatch(k, ip, m, low, 4 + code);
  }

  /** Where the dictionary ends the window goes on with the block. */
  lemma {:induction false} AgreeAcross(k: Block, ip: nat, off: nat, more: nat)
    requires k.Valid() && k.source <= ip && ip + more <= k.Iend() && k.Pos(ip) - off == k.dictSize
             && 1 <= off <= DISTANCE_MAX
    requires Agree(k.mem, ip, k.source, more)
    ensures IsMatch(k.Window(), k.Pos(ip), off, more)
  {
    var v := k.Window();
    forall x | k.Pos(ip) <= x < k.Pos(ip) + more
      ensures v[x] == v[x - off]
    {
      WindowAt(k, x);
      WindowAt(k, x - off);
      assert SameAt(k.mem, ip, k.source, x - k.Pos(ip));
    }
  }

  lemma {:induction false} MatchGoesOn(k: Block, ip: nat, m: nat, low: nat, limit: int, code: nat, more: nat)
    requires k.Valid() && k.source <= ip && CandidateAt(k, ip, m, low) && InDict(k, low)
    requires ip + 4 + code == limit <= k.Iend() - LASTLITERALS
    requires limit == Min(ip + (k.DictEnd() - m), k.Iend() - LASTLITERALS)
    requires IsMatch(k.Window(), k.Pos(ip), Offset(k, ip, m, low), 4 + code)
    requires CommonLength(k.mem, limit, k.source, k.Iend() - LASTLITERALS, more)
    ensures limit + more <= k.Iend() - LASTLITERALS
    ensures IsMatch(k.Window(), k.Pos(ip), Offset(k, ip, m, low), 4 + code + more)
  {
    hide Agree, IsMatch;
    if more > 0 {
      var off := Offset(k, ip, m, low);
      AgreeAcross(k, limit, off, more);
      MatchJoin(k.Window(), k.Pos(ip), off, 4 + code, more);
    }
  }
}
