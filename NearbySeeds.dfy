/** The nearby-seed tool. From a seed the user is at (or aims for) it
    reports how far away another seed is, which nearby seeds give a chosen
    TID, which nearby seeds make a PID shiny, and, when the user hit the
    wrong TID, which seeds within 9999 frames on either side of the target
    would have given the TID they got. */
module NearbySeeds {
  import opened Generator

  /** `MAX_DISTANCE`: the forward scans look at distances below it. */
  const MaxDistance := 999999

  /** The number of frames that counts as "very nearby" for the rewind. */
  const NearWindow := 10000

  /** `gcrngr10000`: the seed 10000 steps before `input`. Stepping forward
      10000 times from the result gives `input` back. */
  method Rewind10000(input: Word) returns (r: Word)
    ensures r == IterBack(input, NearWindow)
    ensures Iter(r, NearWindow) == input
  {
    r := Rewind(input, NearWindow);
  }

  // ---------------------------------------------------------------------
  // Distance to a seed (feature 1)

  /** The result of `distanceToSeed`: the number of advances, or, when the
      target is not met within 2^32 advances, no answer. */
  datatype Distance = Advances(n: nat) | Unreached

  /** `n` advances from `start` reach `target`, and no fewer do. */
  ghost predicate FirstHit(start: Word, target: Word, n: nat) {
    Iter(start, n) == target && forall k | 0 <= k < n :: Iter(start, k) != target
  }

  /** `distanceToSeed`: step from `start` until the target is met, counting
      the steps. The count is the least number of advances that reaches the
      target, and it is 0 exactly when the user is at the target already. */
  method DistanceToSeed(start: Word, target: Word) returns (d: Distance)
    ensures d.Advances? ==> d.n < WordRange && FirstHit(start, target, d.n)
    ensures d == Advances(0) <==> start == target
    ensures d.Unreached? ==> forall k | 0 <= k < WordRange :: Iter(start, k) != target
  {
    var cur := start;
    var distance := 0;
    while cur != target && distance < WordRange
      invariant 0 <= distance <= WordRange
      invariant cur == Iter(start, distance)
      invariant forall k | 0 <= k < distance :: Iter(start, k) != target
      decreases WordRange - distance
    {
      IterSucc(start, distance);
      cur := Step(cur);
      distance := distance + 1;
    }
    if cur == target && distance < WordRange {
      d := Advances(distance);
    } else {
      d := Unreached;
    }
  }

  /** One advance brings the target one step closer. */
  lemma FirstHitAdvance(start: Word, target: Word, n: nat)
    requires FirstHit(start, target, n) && n > 0
    ensures FirstHit(Step(start), target, n - 1)
  {
    forall k | 0 <= k < n - 1
      ensures Iter(Step(start), k) != target
    {
      assert Iter(start, k + 1) == Iter(Step(start), k);
    }
  }

  // ---------------------------------------------------------------------
  // Forward scans (features 2 and 3)

  /** One reported line, `tid/sid: distance`: the TID and SID the seed at
      that distance would give. */
  datatype Sighting = Sighting(tid: nat, sid: nat, distance: nat)

  /** What a forward scan looks for: a seed giving a fixed TID, or a seed
      whose TID and SID make a PID with the given folded halves shiny. */
  datatype Want = TidIs(tid: nat) | ShinyFor(fold: nat)

  /** Bitwise exclusive or, bit by bit from the lowest. */
  function Xor(a: nat, b: nat): nat
    decreases a + b
  {
    if a == 0 then b
    else if b == 0 then a
    else 2 * Xor(a / 2, b / 2) + (if a % 2 == b % 2 then 0 else 1)
  }

  /** 2 to the power `n`. */
  function Pow2(n: nat): (p: nat)
    ensures p > 0
  {
    if n == 0 then 1 else 2 * Pow2(n - 1)
  }

  /** The exclusive or of two `n`-bit values is an `n`-bit value. */
  lemma {:induction false} XorBelow(a: nat, b: nat, n: nat)
    requires a < Pow2(n) && b < Pow2(n)
    ensures Xor(a, b) < Pow2(n)
    decreases n
  {
    if a != 0 && b != 0 {
      XorBelow(a / 2, b / 2, n - 1);
    }
  }

  lemma Pow2Sixteen()
    ensures Pow2(16) == 0x10000
  {
    assert Pow2(4) == 16 by {
      assert Pow2(1) == 2 && Pow2(2) == 4 && Pow2(3) == 8;
    }
    assert Pow2(8) == 256 by {
      assert Pow2(5) == 32 && Pow2(6) == 64 && Pow2(7) == 128;
    }
    assert Pow2(12) == 4096 by {
      assert Pow2(9) == 512 && Pow2(10) == 1024 && Pow2(11) == 2048;
    }
    assert Pow2(13) == 8192 && Pow2(14) == 16384 && Pow2(15) == 32768;
  }

  /** The PID fold `(pid & 0xffff) ^ (pid >> 16)`, a 16-bit value. */
  function Fold(pid: Word): (f: nat)
    ensures f < 0x10000
  {
    Pow2Sixteen();
    XorBelow(pid % 0x10000, pid / 0x10000, 16);
    Xor(pid % 0x10000, pid / 0x10000)
  }

  /** The TID and SID the seed gives make a PID with folded halves `fold`
      shiny: `tid ^ sid ^ fold < 8`. */
  predicate Shiny(s: Word, fold: nat) {
    Xor(Xor(Hi(s), SeedSid(s)), fold) < 8
  }

  /** Whether a forward scan reports the seed `s`: case 2 tests its TID
      (`(currSeed >> 16) == tid`), case 3 the shiny test. */
  predicate Wanted(want: Want, s: Word) {
    match want
    case TidIs(tid) => Hi(s) == tid
    case ShinyFor(fold) => Shiny(s, fold)
  }

  /** The line reported for the seed `s` at `distance`. */
  function SightingAt(s: Word, distance: nat): Sighting {
    Sighting(Hi(s), SeedSid(s), distance)
  }

  /** Every line of `hits` is for a distance in `[lo, hi)` from `start` whose
      seed is wanted, and carries that seed's TID and SID. */
  ghost predicate ForwardEntries(start: Word, want: Want, lo: int, hi: int, hits: seq<Sighting>) {
    forall j | 0 <= j < |hits| ::
      lo <= hits[j].distance < hi && Wanted(want, Iter(start, hits[j].distance))
      && hits[j] == SightingAt(Iter(start, hits[j].distance), hits[j].distance)
  }

  /** Every distance in `[lo, hi)` whose seed is wanted has a line. */
  ghost predicate ForwardComplete(start: Word, want: Want, lo: int, hi: int, hits: seq<Sighting>) {
    forall d: nat | lo <= d < hi && Wanted(want, Iter(start, d)) ::
      exists j | 0 <= j < |hits| :: hits[j].distance == d
  }

  /** The lines come in strictly ascending order of distance. */
  predicate DistancesAscend(hits: seq<Sighting>) {
    forall j, k | 0 <= j < k < |hits| :: hits[j].distance < hits[k].distance
  }

  /** `hits` reports, for the distances in `[lo, hi)` from `start`, exactly
      those whose seed is wanted, in ascending order of distance, each with
      the TID and SID of that seed. */
  ghost predicate ForwardReport(start: Word, want: Want, lo: int, hi: int, hits: seq<Sighting>) {
    && ForwardEntries(start, want, lo, hi, hits)
    && ForwardComplete(start, want, lo, hi, hits)
    && DistancesAscend(hits)
  }

  /** A complete report is empty exactly when nothing in its range is wanted. */
  lemma ForwardVerdict(start: Word, want: Want, lo: int, hi: int, hits: seq<Sighting>)
    requires ForwardReport(start, want, lo, hi, hits)
    ensures |hits| == 0 ==> forall d: nat | lo <= d < hi :: !Wanted(want, Iter(start, d))
    ensures |hits| != 0 ==> exists d: nat | lo <= d < hi :: Wanted(want, Iter(start, d))
  {
    if |hits| != 0 {
      assert Wanted(want, Iter(start, hits[0].distance));
    }
  }

  lemma ForwardExtend(start: Word, want: Want, lo: int, d: nat, hits: seq<Sighting>)
    requires ForwardReport(start, want, lo, d, hits) && lo <= d
    requires Wanted(want, Iter(start, d))
    ensures ForwardReport(start, want, lo, d + 1, hits + [SightingAt(Iter(start, d), d)])
  {
    var next := hits + [SightingAt(Iter(start, d), d)];
    forall e: nat | lo <= e < d + 1 && Wanted(want, Iter(start, e))
      ensures exists j | 0 <= j < |next| :: next[j].distance == e
    {
      if e == d {
        assert next[|hits|].distance == e;
      } else {
        var j :| 0 <= j < |hits| && hits[j].distance == e;
        assert next[j].distance == e;
      }
    }
  }

  lemma ForwardSkip(start: Word, want: Want, lo: int, d: nat, hits: seq<Sighting>)
    requires ForwardReport(start, want, lo, d, hits)
    requires !Wanted(want, Iter(start, d))
    ensures ForwardReport(start, want, lo, d + 1, hits)
  {
    forall e: nat | lo <= e < d + 1 && Wanted(want, Iter(start, e))
      ensures exists j | 0 <= j < |hits| :: hits[j].distance == e
    {
      assert e != d;
    }
  }

  /** The forward scan of features 2 and 3 and of the late half of feature
      4: advance from `start` for distances 1 to `limit - 1` and report each
      seed that is wanted. `matches` counts the reports, and no report is
      made exactly when no seed in the range is wanted. */
  method ScanAhead(start: Word, want: Want, limit: nat) returns (hits: seq<Sighting>, matches: nat)
    requires 1 <= limit
    ensures ForwardReport(start, want, 1, limit, hits)
    ensures matches == |hits|
    ensures matches == 0 <==> forall d: nat | 1 <= d < limit :: !Wanted(want, Iter(start, d))
  {
    hits := [];
    matches := 0;
    var cur := start;
    var distance := 1;
    while distance < limit
      invariant 1 <= distance <= limit
      invariant cur == Iter(start, distance - 1)
      invariant ForwardReport(start, want, 1, distance, hits)
      invariant matches == |hits|
    {
      IterSucc(start, distance - 1);
      cur := Step(cur);
      if Wanted(want, cur) {
        ForwardExtend(start, want, 1, distance, hits);
        hits := hits + [SightingAt(cur, distance)];
        matches := matches + 1;
      } else {
        ForwardSkip(start, want, 1, distance, hits);
      }
      distance := distance + 1;
    }
    ForwardVerdict(start, want, 1, limit, hits);
  }

  /** Feature 2: the nearby seeds that give the TID `tid`. Each line carries
      that TID and the SID of the next step. */
  method CustomTid(start: Word, tid: nat) returns (hits: seq<Sighting>, matches: nat)
    requires tid < IdCount
    ensures ForwardReport(start, TidIs(tid), 1, MaxDistance, hits)
    ensures forall j | 0 <= j < |hits| :: hits[j].tid == tid
    ensures matches == |hits|
    ensures matches == 0 <==> forall d: nat | 1 <= d < MaxDistance :: Hi(Iter(start, d)) != tid
  {
    hits, matches := ScanAhead(start, TidIs(tid), MaxDistance);
  }

  /** Feature 3: fold the PID and report the nearby seeds whose TID and SID
      make it shiny. */
  method MakePidShiny(start: Word, pid: Word) returns (hits: seq<Sighting>, matches: nat)
    ensures ForwardReport(start, ShinyFor(Fold(pid)), 1, MaxDistance, hits)
    ensures matches == |hits|
    ensures matches == 0 <==>
            forall d: nat | 1 <= d < MaxDistance :: !Shiny(Iter(start, d), Fold(pid))
  {
    var fold := Fold(pid);
    hits, matches := ScanAhead(start, ShinyFor(fold), MaxDistance);
  }

  // ---------------------------------------------------------------------
  // TID offset from the target (feature 4)

  /** Every line of `hits` is for a distance in `[lo, 10000)` before
      `target` whose seed gives `tid`, and carries that seed's TID and SID. */
  ghost predicate BackEntries(target: Word, tid: nat, lo: int, hits: seq<Sighting>) {
    forall j | 0 <= j < |hits| ::
      lo <= hits[j].distance < NearWindow && Hi(IterBack(target, hits[j].distance)) == tid
      && hits[j] == SightingAt(IterBack(target, hits[j].distance), hits[j].distance)
  }

  /** Every distance in `[lo, 10000)` before `target` whose seed gives `tid`
      has a line. */
  ghost predicate BackComplete(target: Word, tid: nat, lo: int, hits: seq<Sighting>) {
    forall d: nat | lo <= d < NearWindow && Hi(IterBack(target, d)) == tid ::
      exists j | 0 <= j < |hits| :: hits[j].distance == d
  }

  /** The lines come in strictly descending order of distance: the earliest
      seed first. */
  predicate DistancesDescend(hits: seq<Sighting>) {
    forall j, k | 0 <= j < k < |hits| :: hits[j].distance > hits[k].distance
  }

  /** `hits` reports, for the distances in `[lo, 10000)` before `target`,
      exactly those whose seed gives `tid`, farthest first. */
  ghost predicate BackReport(target: Word, tid: nat, lo: int, hits: seq<Sighting>) {
    BackEntries(target, tid, lo, hits) && BackComplete(target, tid, lo, hits) && DistancesDescend(hits)
  }

  lemma BackExtend(target: Word, tid: nat, d: nat, hits: seq<Sighting>)
    requires BackReport(target, tid, d + 1, hits) && d < NearWindow
    requires Hi(IterBack(target, d)) == tid
    ensures BackReport(target, tid, d, hits + [SightingAt(IterBack(target, d), d)])
  {
    var next := hits + [SightingAt(IterBack(target, d), d)];
    forall e: nat | d <= e < NearWindow && Hi(IterBack(target, e)) == tid
      ensures exists j | 0 <= j < |next| :: next[j].distance == e
    {
      if e == d {
        assert next[|hits|].distance == e;
      } else {
        var j :| 0 <= j < |hits| && hits[j].distance == e;
        assert next[j].distance == e;
      }
    }
  }

  lemma BackSkip(target: Word, tid: nat, d: nat, hits: seq<Sighting>)
    requires BackReport(target, tid, d + 1, hits)
    requires Hi(IterBack(target, d)) != tid
    ensures BackReport(target, tid, d, hits)
  {
    forall e: nat | d <= e < NearWindow && Hi(IterBack(target, e)) == tid
      ensures exists j | 0 <= j < |hits| :: hits[j].distance == e
    {
      assert e != d;
    }
  }

  /** A complete backward report is empty exactly when no seed in its range
      gives the TID. */
  lemma BackVerdict(target: Word, tid: nat, lo: int, hits: seq<Sighting>)
    requires BackReport(target, tid, lo, hits)
    ensures |hits| == 0 ==> forall d: nat | lo <= d < NearWindow :: Hi(IterBack(target, d)) != tid
    ensures |hits| != 0 ==> exists d: nat | lo <= d < NearWindow :: Hi(IterBack(target, d)) == tid
  {
    if |hits| != 0 {
      assert Hi(IterBack(target, hits[0].distance)) == tid;
    }
  }

  /** Feature 4. When the target seed itself gives the TID the user got,
      nothing is scanned. Otherwise the seeds 9999 down to 1 frames before
      the target are examined, by rewinding 10000 frames and stepping
      forward, then one more step lands on the target itself, which is
      skipped, and the seeds 1 to 9999 frames after it are examined. */
  method TidOffset(target: Word, tid: nat)
    returns (gotTarget: bool, early: seq<Sighting>, late: seq<Sighting>, matches: nat)
    requires tid < IdCount
    ensures gotTarget <==> Hi(target) == tid
    ensures gotTarget ==> early == [] && late == []
    ensures !gotTarget ==> BackReport(target, tid, 1, early)
    ensures !gotTarget ==> ForwardReport(target, TidIs(tid), 1, NearWindow, late)
    ensures matches == |early| + |late|
    ensures !gotTarget ==>
            (matches == 0 <==>
             forall d: nat | 1 <= d < NearWindow ::
               Hi(IterBack(target, d)) != tid && Hi(Iter(target, d)) != tid)
  {
    early, late, matches := [], [], 0;
    if Hi(target) == tid {
      gotTarget := true;
      return;
    }
    gotTarget := false;
    var cur := Rewind10000(target);
    var distance := NearWindow - 1;
    while distance > 0
      invariant 0 <= distance < NearWindow
      invariant cur == IterBack(target, distance + 1)
      invariant BackReport(target, tid, distance + 1, early)
      invariant matches == |early|
    {
      IterBackSucc(target, distance);
      StepRoundTrip(IterBack(target, distance));
      cur := Step(cur);
      if Hi(cur) == tid {
        BackExtend(target, tid, distance, early);
        early := early + [SightingAt(cur, distance)];
        matches := matches + 1;
      } else {
        BackSkip(target, tid, distance, early);
      }
      distance := distance - 1;
    }
    IterBackSucc(target, 0);
    StepRoundTrip(target);
    cur := Step(cur);
    assert cur == target;
    var found;
    late, found := ScanAhead(cur, TidIs(tid), NearWindow);
    matches := matches + found;
    BackVerdict(target, tid, 1, early);
  }

  /** A line "d frames early" is for the one seed from which `d` advances
      reach the target, and every seed that reaches the target in `d`
      advances, for `d` in 1 to 9999, and gives the TID is reported. */
  lemma EarlyMeansBefore(target: Word, tid: nat, early: seq<Sighting>, s: Word, d: nat)
    requires BackReport(target, tid, 1, early)
    requires 1 <= d < NearWindow && Iter(s, d) == target && Hi(s) == tid
    ensures exists j | 0 <= j < |early| :: early[j].distance == d && early[j].sid == SeedSid(s)
    ensures forall j | 0 <= j < |early| :: Iter(IterBack(target, early[j].distance), early[j].distance) == target
  {
    RewindUnique(s, target, d);
    var j :| 0 <= j < |early| && early[j].distance == d;
    forall j | 0 <= j < |early|
      ensures Iter(IterBack(target, early[j].distance), early[j].distance) == target
    {
      ReplayRewound(target, early[j].distance);
    }
  }

  /** Exclusive or is its own inverse. */
  lemma {:induction false} XorCancel(a: nat, b: nat)
    ensures Xor(Xor(a, b), b) == a
    decreases a + b
  {
    if a != 0 && b != 0 {
      var c := Xor(a, b);
      XorZero(a, b);
      if c != 0 {
        XorCancel(a / 2, b / 2);
        XorHalves(a, b);
        assert Xor(c, b) == 2 * Xor(c / 2, b / 2) + (if c % 2 == b % 2 then 0 else 1);
        assert Xor(c / 2, b / 2) == a / 2;
        assert (if c % 2 == b % 2 then 0 else 1) == a % 2;
      }
    } else if a == 0 {
      XorZero(b, b);
    }
  }

  /** Exclusive or does not depend on the order of its operands. */
  lemma {:induction false} XorSymmetric(a: nat, b: nat)
    ensures Xor(a, b) == Xor(b, a)
    decreases a + b
  {
    if a != 0 && b != 0 {
      XorSymmetric(a / 2, b / 2);
    }
  }

  /** The lowest bit and the remaining bits of an exclusive or. */
  lemma XorHalves(a: nat, b: nat)
    ensures Xor(a, b) / 2 == Xor(a / 2, b / 2)
    ensures Xor(a, b) % 2 == (if a % 2 == b % 2 then 0 else 1)
  {
  }

  /** The exclusive or of two values is 0 exactly when they are equal. */
  lemma {:induction false} XorZero(a: nat, b: nat)
    ensures Xor(a, b) == 0 <==> a == b
    decreases a + b
  {
    if a != 0 && b != 0 {
      XorZero(a / 2, b / 2);
    }
  }

  lemma EighthBySteps(x: nat)
    ensures x / 2 / 2 / 2 == x / 8
  {
  }

  /** Dropping the lowest three bits commutes with exclusive or. */
  lemma XorEighths(a: nat, b: nat)
    ensures Xor(a, b) / 8 == Xor(a / 8, b / 8)
  {
    XorHalves(a, b);
    XorHalves(a / 2, b / 2);
    XorHalves(a / 2 / 2, b / 2 / 2);
    EighthBySteps(a);
    EighthBySteps(b);
    EighthBySteps(Xor(a, b));
  }

  /** Folding loses nothing: xoring the fold with either half gives the
      other half back. */
  lemma FoldRecovers(pid: Word)
    ensures Xor(Fold(pid), pid / 0x10000) == pid % 0x10000
    ensures Xor(Fold(pid), pid % 0x10000) == pid / 0x10000
  {
    XorCancel(pid % 0x10000, pid / 0x10000);
    XorSymmetric(pid % 0x10000, pid / 0x10000);
    XorCancel(pid / 0x10000, pid % 0x10000);
  }

  /** A seed makes the PID shiny exactly when `tid ^ sid` and the fold agree
      above the lowest three bits. */
  lemma ShinyByUpperBits(s: Word, fold: nat)
    ensures Shiny(s, fold) <==> Xor(Hi(s), SeedSid(s)) / 8 == fold / 8
  {
    var x := Xor(Hi(s), SeedSid(s));
    XorEighths(x, fold);
    XorZero(x / 8, fold / 8);
  }
}
