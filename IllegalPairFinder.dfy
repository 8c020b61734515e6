/** The illegal TID/SID pair finder. For every TID it marks, in a packed bit-set
    of 65536 bits, the SID produced by each of the 65536 seeds whose upper half
    is that TID, then reports every SID whose bit is still clear.

    As the program is written, the bit-set is zeroed once before the first TID
    and never cleared again, so the bits set for one TID stay set for all later
    TIDs: the SIDs reported for TID `t` are those that no TID in `0..t` reaches.
    `FindIllegalPairs` models that. `FindIllegalPairsCleared` is the variant
    that clears the bit-set before each TID and reports, for each TID, exactly
    the SIDs that this TID cannot reach. */
module IllegalPairFinder {
  import opened Generator

  /** Bits per cell of the bit-set (an `unsigned int`) and the number of cells. */
  const CellBits := 32
  const CellCount := 0x800

  /** One output line `tid/sid`. */
  datatype IdPair = IdPair(tid: int, sid: int)

  /** The seed `(tid << 16) | offset`; the two bit fields are disjoint, so the
      OR is the sum. */
  function Seed(tid: int, offset: int): Word
    requires 0 <= tid < IdCount && 0 <= offset < IdCount
  {
    tid * 0x10000 + offset
  }

  /** The two fields of a seed come back out: its upper half is the TID and
      its lower half the offset, so distinct pairs give distinct seeds. */
  lemma SeedFields(tid: int, offset: int)
    requires 0 <= tid < IdCount && 0 <= offset < IdCount
    ensures Hi(Seed(tid, offset)) == tid && Seed(tid, offset) % 0x10000 == offset
  {
  }

  /** `gcrng((tid << 16) | offset) >> 16`: the SID produced from that seed. */
  function SidOf(tid: int, offset: int): (sid: nat)
    requires 0 <= tid < IdCount && 0 <= offset < IdCount
    ensures sid < IdCount
  {
    SeedSid(Seed(tid, offset))
  }

  /** The SIDs that some seed of `tid` produces. */
  ghost function Reached(tid: int): set<int>
    requires 0 <= tid < IdCount
  {
    set i | 0 <= i < IdCount :: SidOf(tid, i)
  }

  /** The SIDs that some seed of some TID in `0..n-1` produces: the bits that
      are set once the TIDs below `n` have been populated into one bit-set. */
  ghost function ReachedBefore(n: int): set<int>
    requires 0 <= n <= IdCount
    decreases n
  {
    if n == 0 then {} else ReachedBefore(n - 1) + Reached(n - 1)
  }

  /** Bit `bit` of a cell, as the scan tests it: `(cell >> bit) & 1`. A bit
      position below 32 fits in five bits. */
  predicate BitAt(cell: bv32, bit: int)
    requires 0 <= bit < CellBits
  {
    (cell >> (bit as bv5)) & 1 == 1
  }

  /** A cell with bit `bit` set: `cell | 1 << bit`. */
  function WithBit(cell: bv32, bit: int): bv32
    requires 0 <= bit < CellBits
  {
    cell | (1 << (bit as bv5))
  }

  /** Bit positions are told apart by their five-bit codes. */
  lemma BitPositionCode(a: int, b: int)
    requires 0 <= a < CellBits && 0 <= b < CellBits
    ensures (a as bv5 == b as bv5) <==> a == b
  {
    assert a as bv5 as int == a;
    assert b as bv5 as int == b;
  }

  /** OR-ing in the one-bit mask at `bit` sets that bit and keeps the others. */
  lemma OrMaskAt(cell: bv32, bit: bv5, other: bv5)
    ensures ((cell | (1 << bit)) >> other) & 1 == 1 <==> (other == bit || (cell >> other) & 1 == 1)
  {
  }

  /** Setting a bit sets exactly that bit and leaves the others of the cell alone. */
  lemma WithBitAt(cell: bv32, bit: int, other: int)
    requires 0 <= bit < CellBits && 0 <= other < CellBits
    ensures BitAt(WithBit(cell, bit), other) == (other == bit || BitAt(cell, other))
  {
    OrMaskAt(cell, bit as bv5, other as bv5);
    BitPositionCode(bit, other);
  }

  /** No bit of a zero cell is set. */
  lemma ZeroCellClear(bit: int)
    requires 0 <= bit < CellBits
    ensures !BitAt(0, bit)
  {
  }

  /** The populate loop stores SID `sid` in cell `sid >> 5` at bit `sid & 31`;
      the scan names bit `off` of cell `i` as `32 * i | off`. The two agree:
      each SID has exactly one cell and bit, and naming that cell and bit gives
      the SID back. */
  lemma CellAndBit(sid: int, i: int, off: int)
    requires 0 <= sid < IdCount && 0 <= i < CellCount && 0 <= off < CellBits
    ensures 0 <= sid / CellBits < CellCount
    ensures 0 <= CellBits * i + off < IdCount
    ensures (CellBits * i + off == sid) <==> (sid / CellBits == i && sid % CellBits == off)
  {
  }

  /** The scan's output for one TID as a reference definition: `IdPair(tid, s)`
      for every `s` in `0..n-1` that is not in `marked`, in ascending order. */
  function Gaps(tid: int, marked: set<int>, n: nat): seq<IdPair>
    decreases n
  {
    if n == 0 then []
    else Gaps(tid, marked, n - 1) + (if n - 1 in marked then [] else [IdPair(tid, n - 1)])
  }

  /** Every entry of `pairs` is `(tid, s)` for an unmarked `s` below `n`. */
  ghost predicate EntriesUnmarked(tid: int, marked: set<int>, n: int, pairs: seq<IdPair>) {
    forall j | 0 <= j < |pairs| ::
      pairs[j].tid == tid && 0 <= pairs[j].sid < n && pairs[j].sid !in marked
  }

  /** Every unmarked `s` below `n` has an entry `(tid, s)` in `pairs`. */
  ghost predicate UnmarkedListed(tid: int, marked: set<int>, n: int, pairs: seq<IdPair>) {
    forall s | 0 <= s < n && s !in marked :: IdPair(tid, s) in pairs
  }

  /** The SIDs of `pairs` strictly ascend. */
  predicate SidsAscend(pairs: seq<IdPair>) {
    forall j, k | 0 <= j < k < |pairs| :: pairs[j].sid < pairs[k].sid
  }

  /** `pairs` reports TID `tid` against the SIDs below `n`: exactly the
      unmarked ones, in ascending order. */
  ghost predicate GapReport(tid: int, marked: set<int>, n: int, pairs: seq<IdPair>) {
    EntriesUnmarked(tid, marked, n, pairs) && UnmarkedListed(tid, marked, n, pairs) && SidsAscend(pairs)
  }

  /** The order of the output lines: by TID, then by SID. */
  predicate Before(p: IdPair, q: IdPair) {
    p.tid < q.tid || (p.tid == q.tid && p.sid < q.sid)
  }

  predicate Ascending(pairs: seq<IdPair>) {
    forall j, k | 0 <= j < k < |pairs| :: Before(pairs[j], pairs[k])
  }

  /** A pair the program reports: its SID is produced by no seed of its own
      TID or of any smaller TID, because the bit-set is never cleared. */
  ghost predicate ReportedAsWritten(p: IdPair) {
    0 <= p.tid < IdCount && 0 <= p.sid < IdCount && p.sid !in ReachedBefore(p.tid + 1)
  }

  /** A pair that is illegal: no seed of its TID produces its SID. */
  ghost predicate Illegal(p: IdPair) {
    0 <= p.tid < IdCount && 0 <= p.sid < IdCount && p.sid !in Reached(p.tid)
  }

  /** The packed bit-set `sidArray`: 2048 cells of 32 bits, one bit per SID. */
  class SidArray {
    var cells: array<bv32>

    ghost predicate Valid()
      reads this
    {
      cells.Length == CellCount
    }

    /** Whether the bit of `sid` is set. */
    predicate TestBit(sid: int)
      reads this, cells
      requires Valid() && 0 <= sid < IdCount
    {
      BitAt(cells[sid / CellBits], sid % CellBits)
    }

    /** The SIDs whose bit is set. */
    ghost function Marked(): set<int>
      reads this, cells
      requires Valid()
    {
      set sid | 0 <= sid < IdCount && TestBit(sid)
    }

    /** The zero-initialised array `sidArray[...] = {0}`. */
    constructor ()
      ensures Valid() && fresh(cells)
      ensures Marked() == {}
    {
      cells := new bv32[CellCount](_ => 0);
      new;
      forall sid | 0 <= sid < IdCount
        ensures !TestBit(sid)
      {
        ZeroCellClear(sid % CellBits);
      }
    }

    /** `sidArray[sid >> 5] |= 1 << (sid & 31)`: mark `sid`, and nothing else. */
    method SetBit(sid: int)
      requires Valid() && 0 <= sid < IdCount
      modifies cells
      ensures Valid()
      ensures Marked() == old(Marked()) + {sid}
      ensures forall c | 0 <= c < CellCount && c != sid / CellBits :: cells[c] == old(cells[c])
    {
      var cell := sid / CellBits;
      cells[cell] := WithBit(cells[cell], sid % CellBits);
      forall s | 0 <= s < IdCount
        ensures TestBit(s) == (s == sid || old(TestBit(s)))
      {
        if s / CellBits == cell {
          WithBitAt(old(cells[cell]), sid % CellBits, s % CellBits);
        }
      }
    }

    /** Clear every bit: the reset that the corrected variant
        `FindIllegalPairsCleared` does before every TID. The program as
        written never clears; its one reset is the zero initialiser, the
        constructor. */
    method Clear()
      requires Valid()
      modifies cells
      ensures Valid()
      ensures Marked() == {}
    {
      var i := 0;
      while i < CellCount
        invariant 0 <= i <= CellCount
        invariant forall j :: 0 <= j < i ==> cells[j] == 0
      {
        cells[i] := 0;
        i := i + 1;
      }
      forall sid | 0 <= sid < IdCount
        ensures !TestBit(sid)
      {
        ZeroCellClear(sid % CellBits);
      }
    }

    /** The populate loop for one TID: mark the SID of every seed
        `(tid << 16) | i`, `i` in `0..0xFFFF`. A bit ends up set iff it was set
        before or some seed of `tid` produces its SID. */
    method Populate(tid: int)
      requires Valid() && 0 <= tid < IdCount
      modifies cells
      ensures Valid()
      ensures Marked() == old(Marked()) + Reached(tid)
    {
      var i := 0;
      while i < IdCount
        invariant 0 <= i <= IdCount
        invariant Valid()
        invariant Marked() == old(Marked()) + (set j | 0 <= j < i :: SidOf(tid, j))
      {
        var sid := SidOf(tid, i);
        SetBit(sid);
        assert (set j | 0 <= j < i + 1 :: SidOf(tid, j))
            == (set j | 0 <= j < i :: SidOf(tid, j)) + {sid};
        i := i + 1;
      }
    }

    /** The gap-scan loop for one TID: visit bit `off` of cell `i` for every
        cell in ascending order and every bit in ascending order, and emit
        `(tid, 32 * i | off)` for each clear bit. Nothing is modified. */
    method Scan(tid: int) returns (pairs: seq<IdPair>)
      requires Valid() && 0 <= tid < IdCount
      ensures GapReport(tid, Marked(), IdCount, pairs)
      ensures |pairs| + |Marked()| == IdCount
    {
      pairs := [];
      var i := 0;
      while i < CellCount
        invariant 0 <= i <= CellCount
        invariant GapReport(tid, Marked(), CellBits * i, pairs)
      {
        var off := 0;
        while off < CellBits
          invariant 0 <= off <= CellBits
          invariant GapReport(tid, Marked(), CellBits * i + off, pairs)
        {
          var sid := CellBits * i + off;
          CellAndBit(sid, i, off);
          assert sid in Marked() <==> BitAt(cells[i], off);
          if !BitAt(cells[i], off) {
            pairs := pairs + [IdPair(tid, sid)];
          }
          off := off + 1;
        }
        i := i + 1;
      }
      ReportCount(tid, Marked(), IdCount, pairs);
    }

    /** One pass of the TID loop: populate, then scan. */
    method PopulateAndScan(tid: int) returns (gaps: seq<IdPair>)
      requires Valid() && 0 <= tid < IdCount
      modifies cells
      ensures Valid()
      ensures Marked() == old(Marked()) + Reached(tid)
      ensures GapReport(tid, old(Marked()) + Reached(tid), IdCount, gaps)
    {
      Populate(tid);
      gaps := Scan(tid);
    }
  }

  /** The program: print the header, then for TIDs `0..0xFFFF` in order run the
      populate loop and the gap scan on the one bit-set, which is zeroed once
      and never cleared between TIDs. The output lists exactly the pairs whose
      SID no seed of that TID or an earlier one produces, ordered by TID and
      then by SID. */
  method FindIllegalPairs() returns (header: string, pairs: seq<IdPair>)
    ensures header == "TID/SID"
    ensures Ascending(pairs)
    ensures forall p :: p in pairs <==> ReportedAsWritten(p)
  {
    header := "TID/SID";
    var sidArray := new SidArray();
    pairs := [];
    var tid := 0;
    while tid < IdCount
      invariant 0 <= tid <= IdCount
      invariant sidArray.Valid() && fresh(sidArray.cells)
      invariant sidArray.Marked() == ReachedBefore(tid)
      invariant Ascending(pairs)
      invariant forall p :: p in pairs <==> ReportedAsWritten(p) && p.tid < tid
    {
      var gaps := sidArray.PopulateAndScan(tid);
      AppendReport(pairs, tid, ReachedBefore(tid + 1), gaps);
      pairs := pairs + gaps;
      tid := tid + 1;
    }
  }

  /** Appending the report for TID `tid` to pairs that all have smaller TIDs
      keeps the output ascending. */
  lemma AppendReport(pairs: seq<IdPair>, tid: int, marked: set<int>, gaps: seq<IdPair>)
    requires Ascending(pairs) && forall p | p in pairs :: p.tid < tid
    requires GapReport(tid, marked, IdCount, gaps)
    ensures Ascending(pairs + gaps)
  {
  }

  /** The program with the bit-set cleared before every TID, as the output
      is meant to be: it lists exactly the illegal pairs, the pairs whose SID
      no seed of that TID produces, ordered by TID and then by SID. */
  method FindIllegalPairsCleared() returns (header: string, pairs: seq<IdPair>)
    ensures header == "TID/SID"
    ensures Ascending(pairs)
    ensures forall p :: p in pairs <==> Illegal(p)
  {
    header := "TID/SID";
    var sidArray := new SidArray();
    pairs := [];
    var tid := 0;
    while tid < IdCount
      invariant 0 <= tid <= IdCount
      invariant sidArray.Valid() && fresh(sidArray.cells)
      invariant Ascending(pairs)
      invariant forall p :: p in pairs <==> Illegal(p) && p.tid < tid
    {
      sidArray.Clear();
      ghost var cleared := sidArray.Marked();
      var gaps := sidArray.PopulateAndScan(tid);
      assert cleared + Reached(tid) == Reached(tid);
      AppendReport(pairs, tid, Reached(tid), gaps);
      pairs := pairs + gaps;
      tid := tid + 1;
    }
  }

  /** The accumulation as written loses illegal pairs: SID 2 is produced by
      seed 60195 of TID 0 but by no seed of TID 1, so `(1, 2)` is illegal,
      yet the bit of SID 2 is still set from TID 0 when TID 1 is scanned. */
  lemma AccumulationMissesPair()
    ensures SidOf(0, 60195) == 2
    ensures Illegal(IdPair(1, 2))
    ensures !ReportedAsWritten(IdPair(1, 2))
  {
    forall i | 0 <= i < IdCount
      ensures SidOf(1, i) != 2
    {
      TidOneMissesSidTwo(i);
    }
    assert SidOf(0, 60195) == 2;
    ReachedBeforeMember(2, 2);
  }

  /** No seed of TID 1 gives SID 2. Before the wrap, the next generator value
      of seed `0x10000 + i` lies in the `q`-th block of 2^32, with `q` one of
      3, 4, 5 and 6 as `i` grows; within a block consecutive offsets are
      0x343FD apart, more than the 0x10000 values with SID 2, and the first
      offset of each block lands just outside them. */
  lemma TidOneMissesSidTwo(i: int)
    requires 0 <= i < IdCount
    ensures SidOf(1, i) != 2
  {
    var x := Seed(1, i) * 0x343FD + 0x269EC3;
    var q := if i < 14728 then 3 else if i < 34796 then 4 else if i < 54865 then 5 else 6;
    assert q * WordRange <= x < (q + 1) * WordRange;
    var r := x - q * WordRange;
    ModMultiple(r, q);
    assert Step(Seed(1, i)) == r;
    if i == 14728 {
      assert r == 201259;
    } else if i == 34796 {
      assert r == 46847;
    } else if i == 54865 {
      assert r == 106448;
    } else {
      assert r < 2 * 0x10000 || 3 * 0x10000 <= r;
    }
  }

  /** The SIDs of `marked` below `n`. */
  ghost function MarkedBelow(marked: set<int>, n: int): set<int> {
    set s | s in marked && 0 <= s < n
  }

  /** The reference listing of the unmarked SIDs below `n` and the marked
      SIDs below `n` together number `n`. */
  lemma {:induction false} GapsCount(tid: int, marked: set<int>, n: nat)
    ensures |Gaps(tid, marked, n)| + |MarkedBelow(marked, n)| == n
    decreases n
  {
    if n == 0 {
      assert MarkedBelow(marked, 0) == {};
    } else {
      GapsCount(tid, marked, n - 1);
      GapsStep(tid, marked, n);
      if n - 1 in marked {
        assert MarkedBelow(marked, n) == MarkedBelow(marked, n - 1) + {n - 1};
      } else {
        assert MarkedBelow(marked, n) == MarkedBelow(marked, n - 1);
      }
    }
  }

  /** A scan emits as many SIDs as there are clear bits: the emitted SIDs and
      the set bits add up to the number of SIDs scanned. */
  lemma ReportCount(tid: int, marked: set<int>, n: nat, pairs: seq<IdPair>)
    requires GapReport(tid, marked, n, pairs)
    requires forall s | s in marked :: 0 <= s < n
    ensures |pairs| + |marked| == n
  {
    ReportIsGaps(tid, marked, n, pairs);
    GapsCount(tid, marked, n);
    assert MarkedBelow(marked, n) == marked;
  }

  /** The reference definition is a report: the scan's contract pins down
      what `Gaps` computes. */
  lemma {:induction false} GapsIsReport(tid: int, marked: set<int>, n: nat)
    ensures GapReport(tid, marked, n, Gaps(tid, marked, n))
    decreases n
  {
    if n > 0 {
      GapsIsReport(tid, marked, n - 1);
    }
  }

  /** A report up to a marked SID `n - 1` is also a report up to `n - 1`. */
  lemma ReportBelowMarked(tid: int, marked: set<int>, n: int, pairs: seq<IdPair>)
    requires 0 < n && n - 1 in marked && GapReport(tid, marked, n, pairs)
    ensures GapReport(tid, marked, n - 1, pairs)
  {
    forall j | 0 <= j < |pairs|
      ensures pairs[j].sid < n - 1
    {
      assert pairs[j].sid !in marked;
    }
  }

  /** In a report up to an unmarked SID `n - 1`, that SID comes last. */
  lemma UnmarkedComesLast(tid: int, marked: set<int>, n: int, pairs: seq<IdPair>)
    requires 0 < n && n - 1 !in marked
    requires EntriesUnmarked(tid, marked, n, pairs) && UnmarkedListed(tid, marked, n, pairs)
    requires SidsAscend(pairs)
    ensures |pairs| > 0 && pairs[|pairs| - 1] == IdPair(tid, n - 1)
  {
    assert IdPair(tid, n - 1) in pairs;
    var last := |pairs| - 1;
    var j :| 0 <= j < |pairs| && pairs[j] == IdPair(tid, n - 1);
    var lastPair := pairs[last];
    assert lastPair.sid < n;
    assert j == last;
  }

  /** Dropping that last SID leaves a report up to `n - 1`. */
  lemma FrontIsReport(tid: int, marked: set<int>, n: int, pairs: seq<IdPair>)
    requires 0 < n && |pairs| > 0 && pairs[|pairs| - 1] == IdPair(tid, n - 1)
    requires GapReport(tid, marked, n, pairs)
    ensures GapReport(tid, marked, n - 1, pairs[..|pairs| - 1])
  {
    var last := |pairs| - 1;
    var front := pairs[..last];
    forall j | 0 <= j < |front|
      ensures front[j].sid < n - 1
    {
      assert pairs[j].sid < pairs[last].sid;
    }
    forall s | 0 <= s < n - 1 && s !in marked
      ensures IdPair(tid, s) in front
    {
      var i :| 0 <= i < |pairs| && pairs[i] == IdPair(tid, s);
      assert i != last;
      assert front[i] == pairs[i];
    }
  }

  /** A report up to an unmarked SID `n - 1` is a report up to `n - 1`
      followed by that SID. */
  lemma ReportBelowUnmarked(tid: int, marked: set<int>, n: int, pairs: seq<IdPair>)
    returns (front: seq<IdPair>)
    requires 0 < n && n - 1 !in marked && GapReport(tid, marked, n, pairs)
    ensures pairs == front + [IdPair(tid, n - 1)]
    ensures GapReport(tid, marked, n - 1, front)
  {
    UnmarkedComesLast(tid, marked, n, pairs);
    FrontIsReport(tid, marked, n, pairs);
    front := pairs[..|pairs| - 1];
    SplitLast(pairs);
  }

  /** A non-empty sequence is its front followed by its last element. */
  lemma SplitLast(pairs: seq<IdPair>)
    requires |pairs| > 0
    ensures pairs == pairs[..|pairs| - 1] + [pairs[|pairs| - 1]]
  {
  }

  /** Each entry of a report up to `n` is an unmarked SID below `n`. */
  lemma ReportEntry(tid: int, marked: set<int>, n: int, pairs: seq<IdPair>, j: int)
    requires GapReport(tid, marked, n, pairs) && 0 <= j < |pairs|
    ensures pairs[j] == IdPair(tid, pairs[j].sid)
    ensures 0 <= pairs[j].sid < n && pairs[j].sid !in marked
  {
  }

  /** Nothing is reported below SID 0. */
  lemma ReportBelowZero(tid: int, marked: set<int>, pairs: seq<IdPair>)
    requires GapReport(tid, marked, 0, pairs)
    ensures pairs == []
  {
    if |pairs| > 0 {
      ReportEntry(tid, marked, 0, pairs, 0);
      assert false;
    }
  }

  /** One more SID extends the reference sequence by at most that SID. */
  lemma GapsStep(tid: int, marked: set<int>, n: nat)
    requires n > 0
    ensures n - 1 in marked ==> Gaps(tid, marked, n) == Gaps(tid, marked, n - 1)
    ensures n - 1 !in marked ==> Gaps(tid, marked, n) == Gaps(tid, marked, n - 1) + [IdPair(tid, n - 1)]
  {
  }

  /** A report is unique: any sequence meeting the scan's contract is the
      reference sequence `Gaps`, so the contract fixes the output line by line. */
  lemma {:induction false} ReportIsGaps(tid: int, marked: set<int>, n: nat, pairs: seq<IdPair>)
    requires GapReport(tid, marked, n, pairs)
    ensures pairs == Gaps(tid, marked, n)
    decreases n, 1
  {
    if n == 0 {
      ReportBelowZero(tid, marked, pairs);
    } else if n - 1 in marked {
      ReportIsGapsMarked(tid, marked, n, pairs);
    } else {
      ReportIsGapsUnmarked(tid, marked, n, pairs);
    }
  }

  /** The case of `ReportIsGaps` where SID `n - 1` is marked. */
  lemma {:induction false} ReportIsGapsMarked(tid: int, marked: set<int>, n: nat, pairs: seq<IdPair>)
    requires 0 < n && n - 1 in marked && GapReport(tid, marked, n, pairs)
    ensures pairs == Gaps(tid, marked, n)
    decreases n, 0
  {
    ReportBelowMarked(tid, marked, n, pairs);
    ReportIsGaps(tid, marked, n - 1, pairs);
    GapsStep(tid, marked, n);
  }

  /** The case of `ReportIsGaps` where SID `n - 1` is unmarked. */
  lemma {:induction false} ReportIsGapsUnmarked(tid: int, marked: set<int>, n: nat, pairs: seq<IdPair>)
    requires 0 < n && n - 1 !in marked && GapReport(tid, marked, n, pairs)
    ensures pairs == Gaps(tid, marked, n)
    decreases n, 0
  {
    var front := ReportBelowUnmarked(tid, marked, n, pairs);
    ReportIsGaps(tid, marked, n - 1, front);
    GapsStep(tid, marked, n);
  }

  /** A SID is set after the TIDs below `n` exactly when some seed of one of
      those TIDs produces it. */
  lemma {:induction false} ReachedBeforeMember(n: int, s: int)
    requires 0 <= n <= IdCount
    ensures s in ReachedBefore(n) <==>
            exists u, i | 0 <= u < n && 0 <= i < IdCount :: SidOf(u, i) == s
    decreases n
  {
    if n > 0 {
      ReachedBeforeMember(n - 1, s);
      if s in Reached(n - 1) {
        var i :| 0 <= i < IdCount && SidOf(n - 1, i) == s;
        assert SidOf(n - 1, i) == s;
      }
    }
  }

  /** Bits only grow: the set after more TIDs contains the set after fewer. */
  lemma {:induction false} ReachedBeforeGrows(m: int, n: int)
    requires 0 <= m <= n <= IdCount
    ensures ReachedBefore(m) <= ReachedBefore(n)
    decreases n - m
  {
    if m < n {
      ReachedBeforeGrows(m, n - 1);
    }
  }

  /** Every pair the program reports is illegal, and for TID 0, whose bit-set
      starts empty, the program reports exactly the illegal pairs. */
  lemma ReportedIsIllegal(p: IdPair)
    ensures ReportedAsWritten(p) ==> Illegal(p)
    ensures p.tid == 0 ==> (ReportedAsWritten(p) <==> Illegal(p))
  {
    if 0 <= p.tid < IdCount {
      assert ReachedBefore(p.tid + 1) == ReachedBefore(p.tid) + Reached(p.tid);
    }
    if p.tid == 0 {
      assert ReachedBefore(1) == Reached(0);
    }
  }

  /** Seed 0 (TID 0, offset 0) steps to 0x269EC3, so SID 0x26 is legal for
      TID 0 and the program never reports `0/38`. */
  lemma FirstSeed()
    ensures Step(Seed(0, 0)) == 0x269EC3
    ensures SidOf(0, 0) == 0x26
    ensures !Illegal(IdPair(0, 0x26)) && !ReportedAsWritten(IdPair(0, 0x26))
  {
    assert ReachedBefore(1) == Reached(0);
  }

  /** The last seed `(0xFFFF << 16) | 0xFFFF` is 0xFFFFFFFF and steps to
      0x235AC6, so SID 0x23 is legal for TID 0xFFFF (and, by
      `ReportedIsIllegal`, never reported for it). */
  lemma LastSeed()
    ensures Seed(0xFFFF, 0xFFFF) == 0xFFFF_FFFF
    ensures Step(Seed(0xFFFF, 0xFFFF)) == 0x235AC6
    ensures SidOf(0xFFFF, 0xFFFF) == 0x23
    ensures !Illegal(IdPair(0xFFFF, 0x23))
  {
    assert SidOf(0xFFFF, 0xFFFF) == 0x23;
  }
}
