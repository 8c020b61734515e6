/** The single-pair seed search. Given a TID and a SID, it walks the seeds
    whose upper half is the TID, and for each seed whose next generator
    value has the SID as its upper half it reports the seed together with
    the seed 1100 steps earlier. When nothing is found the pair is declared
    impossible.

    The loop bound `(tid << 16) + 0x10000` is computed in 32 bits. For TID
    0xFFFF it wraps to 0, so the loop runs zero times and every SID is
    declared impossible for that TID. `SearchSeeds` models the loop as
    written; `SearchSeedsFixed` walks the 65536 offsets instead. */
module SeedSearcher {
  import opened Generator
  import IllegalPairFinder

  /** The delay between the seed and the frame the player acts on. */
  const RewindDelay := 1100

  /** One reported seed: `Seed: <seed> (-1100: <rewound>)`. */
  datatype SeedHit = SeedHit(seed: Word, rewound: Word)

  /** The loop bound `(tid << 16) + 0x10000`, wrapping in 32 bits. */
  function ScanBound(tid: nat): Word
    requires tid < IdCount
  {
    (IllegalPairFinder.Seed(tid, 0) + IdCount) % WordRange
  }

  /** A seed gives SID `sid` when the SID derived from it is `sid`. */
  predicate GivesSid(seed: Word, sid: nat) {
    SeedSid(seed) == sid
  }

  /** Every line of `hits` is for a seed in `[lo, hi)` that gives `sid`,
      with the seed 1100 steps before it. */
  ghost predicate SeedEntries(lo: int, hi: int, sid: nat, hits: seq<SeedHit>) {
    forall j | 0 <= j < |hits| ::
      lo <= hits[j].seed < hi && GivesSid(hits[j].seed, sid)
      && hits[j].rewound == IterBack(hits[j].seed, RewindDelay)
  }

  /** Every seed in `[lo, hi)` that gives `sid` has a line. */
  ghost predicate SeedsComplete(lo: int, hi: int, sid: nat, hits: seq<SeedHit>) {
    forall seed: Word | lo <= seed < hi && GivesSid(seed, sid) ::
      exists j | 0 <= j < |hits| :: hits[j].seed == seed
  }

  /** The lines come in strictly ascending order of seed. */
  predicate SeedsAscend(hits: seq<SeedHit>) {
    forall j, k | 0 <= j < k < |hits| :: hits[j].seed < hits[k].seed
  }

  /** `hits` reports, for the seeds in `[lo, hi)`, exactly those that give
      `sid`, in ascending order of seed, each with its rewound seed. */
  ghost predicate SeedReport(lo: int, hi: int, sid: nat, hits: seq<SeedHit>) {
    SeedEntries(lo, hi, sid, hits) && SeedsComplete(lo, hi, sid, hits) && SeedsAscend(hits)
  }

  /** A complete report is empty exactly when no seed in its range gives the
      SID. */
  lemma SeedVerdict(lo: int, hi: int, sid: nat, hits: seq<SeedHit>)
    requires SeedReport(lo, hi, sid, hits)
    ensures |hits| == 0 ==> forall seed: Word | lo <= seed < hi :: !GivesSid(seed, sid)
    ensures |hits| != 0 ==> exists seed: Word | lo <= seed < hi :: GivesSid(seed, sid)
  {
    if |hits| != 0 {
      assert GivesSid(hits[0].seed, sid);
    }
  }

  /** `gcrngr1100`: the seed 1100 steps before `input`. Stepping forward
      1100 times from the result gives `input` back. */
  method Rewind1100(input: Word) returns (r: Word)
    ensures r == IterBack(input, RewindDelay)
    ensures Iter(r, RewindDelay) == input
  {
    r := Rewind(input, RewindDelay);
  }

  /** Reporting one more seed keeps a report in ascending order. */
  lemma ExtendReport(lo: int, seed: Word, sid: nat, hits: seq<SeedHit>, hit: SeedHit)
    requires SeedReport(lo, seed, sid, hits)
    requires hit.seed == seed && GivesSid(seed, sid) && hit.rewound == IterBack(seed, RewindDelay)
    requires lo <= seed
    ensures SeedReport(lo, seed + 1, sid, hits + [hit])
  {
    var next := hits + [hit];
    forall s: Word | lo <= s < seed + 1 && GivesSid(s, sid)
      ensures exists j | 0 <= j < |next| :: next[j].seed == s
    {
      if s == seed {
        assert next[|hits|].seed == s;
      } else {
        var j :| 0 <= j < |hits| && hits[j].seed == s;
        assert next[j].seed == s;
      }
    }
  }

  /** Skipping a seed that does not give the SID keeps a report a report. */
  lemma SkipSeed(lo: int, seed: Word, sid: nat, hits: seq<SeedHit>)
    requires SeedReport(lo, seed, sid, hits) && !GivesSid(seed, sid)
    ensures SeedReport(lo, seed + 1, sid, hits)
  {
    forall s: Word | lo <= s < seed + 1 && GivesSid(s, sid)
      ensures exists j | 0 <= j < |hits| :: hits[j].seed == s
    {
      assert s != seed;
    }
  }

  /** The counting loop as written: `seed` runs from `tid << 16` while it is
      below the wrapped bound. `matches` counts the reports, and the pair is
      declared impossible exactly when no seed in the range gives the SID. */
  method SearchSeeds(tid: nat, sid: nat) returns (hits: seq<SeedHit>, matches: nat)
    requires tid < IdCount && sid < IdCount
    ensures SeedReport(IllegalPairFinder.Seed(tid, 0), ScanBound(tid), sid, hits)
    ensures matches == |hits|
    ensures matches == 0 <==>
            forall seed: Word | IllegalPairFinder.Seed(tid, 0) <= seed < ScanBound(tid) :: !GivesSid(seed, sid)
  {
    hits := [];
    matches := 0;
    var bound := ScanBound(tid);
    var seed := IllegalPairFinder.Seed(tid, 0);
    while seed < bound
      invariant IllegalPairFinder.Seed(tid, 0) <= seed
      invariant bound < IllegalPairFinder.Seed(tid, 0) ==> seed == IllegalPairFinder.Seed(tid, 0) && hits == []
      invariant IllegalPairFinder.Seed(tid, 0) <= bound ==> seed <= bound
      invariant SeedReport(IllegalPairFinder.Seed(tid, 0), seed, sid, hits)
      invariant matches == |hits|
      decreases bound - seed
    {
      if GivesSid(seed, sid) {
        var rewound := Rewind1100(seed);
        ExtendReport(IllegalPairFinder.Seed(tid, 0), seed, sid, hits, SeedHit(seed, rewound));
        hits := hits + [SeedHit(seed, rewound)];
        matches := matches + 1;
      } else {
        SkipSeed(IllegalPairFinder.Seed(tid, 0), seed, sid, hits);
      }
      seed := seed + 1;
    }
    SeedVerdict(IllegalPairFinder.Seed(tid, 0), ScanBound(tid), sid, hits);
  }

  /** The range the loop walks. Below TID 0xFFFF it is exactly the 65536
      seeds whose upper half is the TID; for TID 0xFFFF the bound wraps to 0
      and the range is empty. */
  lemma ScanRange(tid: nat)
    requires tid < IdCount
    ensures tid < 0xFFFF ==> ScanBound(tid) == IllegalPairFinder.Seed(tid, 0) + IdCount
    ensures tid < 0xFFFF ==>
            forall seed: Word :: IllegalPairFinder.Seed(tid, 0) <= seed < ScanBound(tid) <==> Hi(seed) == tid
    ensures tid == 0xFFFF ==> ScanBound(tid) == 0
  {
  }

  /** The seed search over the 65536 offsets of the TID, `(tid << 16) | i`
      for `i` in `0..0xFFFF`, which needs no 32-bit bound. The pair is
      declared impossible exactly when it is illegal, i.e. no seed of the
      TID gives the SID. */
  method SearchSeedsFixed(tid: nat, sid: nat) returns (hits: seq<SeedHit>, matches: nat)
    requires tid < IdCount && sid < IdCount
    ensures SeedReport(IllegalPairFinder.Seed(tid, 0), IllegalPairFinder.Seed(tid, 0) + IdCount, sid, hits)
    ensures matches == |hits|
    ensures matches == 0 <==> IllegalPairFinder.Illegal(IllegalPairFinder.IdPair(tid, sid))
  {
    hits := [];
    matches := 0;
    var offset := 0;
    while offset < IdCount
      invariant 0 <= offset <= IdCount
      invariant SeedReport(IllegalPairFinder.Seed(tid, 0), IllegalPairFinder.Seed(tid, 0) + offset, sid, hits)
      invariant matches == |hits|
    {
      var seed := IllegalPairFinder.Seed(tid, offset);
      if GivesSid(seed, sid) {
        var rewound := Rewind1100(seed);
        ExtendReport(IllegalPairFinder.Seed(tid, 0), seed, sid, hits, SeedHit(seed, rewound));
        hits := hits + [SeedHit(seed, rewound)];
        matches := matches + 1;
      } else {
        SkipSeed(IllegalPairFinder.Seed(tid, 0), seed, sid, hits);
      }
      offset := offset + 1;
    }
    ReportVerdict(tid, sid, hits);
  }

  /** A complete report of the TID's seeds is empty exactly when the pair is
      illegal in the sense of the illegal-pair finder. */
  lemma ReportVerdict(tid: nat, sid: nat, hits: seq<SeedHit>)
    requires tid < IdCount && sid < IdCount
    requires SeedReport(IllegalPairFinder.Seed(tid, 0), IllegalPairFinder.Seed(tid, 0) + IdCount, sid, hits)
    ensures |hits| == 0 <==> IllegalPairFinder.Illegal(IllegalPairFinder.IdPair(tid, sid))
  {
    if |hits| > 0 {
      var i := hits[0].seed - IllegalPairFinder.Seed(tid, 0);
      assert IllegalPairFinder.Seed(tid, i) == hits[0].seed;
      assert IllegalPairFinder.SidOf(tid, i) == sid;
    } else if sid in IllegalPairFinder.Reached(tid) {
      var i :| 0 <= i < IdCount && IllegalPairFinder.SidOf(tid, i) == sid;
      assert GivesSid(IllegalPairFinder.Seed(tid, i), sid);
      assert false;
    }
  }

  /** The wrap-around as written: for TID 0xFFFF the walked range is empty,
      so SID 0xBC29 is declared impossible, although seed 0xFFFF0000, whose
      upper half is 0xFFFF, steps to 0xBC299EC3 and so gives SID 0xBC29. */
  lemma WrapMissesLegalPair()
    ensures ScanBound(0xFFFF) == 0
    ensures ScanBound(0xFFFF) < IllegalPairFinder.Seed(0xFFFF, 0)
    ensures Hi(0xFFFF_0000) == 0xFFFF && Step(0xFFFF_0000) == 0xBC29_9EC3
    ensures GivesSid(0xFFFF_0000, 0xBC29)
    ensures !IllegalPairFinder.Illegal(IllegalPairFinder.IdPair(0xFFFF, 0xBC29))
  {
    assert IllegalPairFinder.SidOf(0xFFFF, 0) == 0xBC29;
  }

  /** The corrected search reports seed 0xFFFF0000 for the pair
      `(0xFFFF, 0xBC29)`, first, so it does not declare the pair impossible. */
  lemma FixedFindsWrappedPair(hits: seq<SeedHit>)
    requires SeedReport(IllegalPairFinder.Seed(0xFFFF, 0), IllegalPairFinder.Seed(0xFFFF, 0) + IdCount, 0xBC29, hits)
    ensures |hits| > 0 && hits[0].seed == 0xFFFF_0000
  {
    assert GivesSid(0xFFFF_0000, 0xBC29);
    var j :| 0 <= j < |hits| && hits[j].seed == 0xFFFF_0000;
  }
}
