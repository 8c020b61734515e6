# PokeGC-TIDTool in Dafny

A model of the three C tools of PokeGC-TIDTool. All three are built on the
GameCube random number generator, the linear congruential step
`x ↦ x·0x343FD + 0x269EC3 (mod 2^32)`, and its exact inverse
`x ↦ x·0xB9B33155 + 0xA170F641 (mod 2^32)`. The TID a seed gives is the
upper half of the seed. The SID is the upper half of the next value.

- `Generator` holds the step, the inverse step, repeated application
  (`Iter`, `IterBack`), the round-trip law, and the rewind loop shared by
  `gcrngr1100` and `gcrngr10000`.
- `IllegalPairFinder` holds the illegal-pair finder. `SidArray` is a class
  over an `array<bv32>` of 2048 cells, one bit per SID. It has `SetBit`,
  `TestBit`, the populate loop and the gap scan. The whole program loops over
  the TIDs with the bit-set zeroed once, as the code does
  (`FindIllegalPairs`). A variant that clears the bit-set before every TID
  is `FindIllegalPairsCleared`.
- `SeedSearcher` holds the single-pair seed search, first as written
  (`SearchSeeds`, with the 32-bit loop bound), then corrected
  (`SearchSeedsFixed`).
- `NearbySeeds` holds the nearby-seed tool:
  - feature 1, `distanceToSeed`;
  - the forward TID scan (feature 2);
  - the PID fold and the shiny test (feature 3);
  - the rewind-then-replay scan around a target seed (feature 4).
- `Prompts` holds the validity checks the prompts apply to what `scanf`
  read: TID and SID below 0x10000, and the menu choice in 1..4.

The generator values, seeds and PIDs, all C `unsigned int`s, are `Word`s,
integers in `[0, 2^32)`, and every wrap is written out as `% 2^32`. TIDs,
SIDs, seed offsets and distances are unbounded integers: `nat` in the seed
search, the nearby-seed tool and the prompts, and `int` in the illegal-pair
finder (`IdPair`, `Seed`, `SidOf`, `Reached`, `ReachedBefore`, the bit-set
methods). The C code keeps these IDs below 0x10000, by the prompt checks or
by its loop bounds. The operations that model its computations say so in
their `requires`: `SearchSeeds`, `SearchSeedsFixed`, `ScanBound`,
`CustomTid`, `TidOffset`, `Seed`, `SidOf`, `Reached` and the bit-set
methods. `Hi` and `SeedSid` promise results below `IdCount`. The predicates
that describe reports, such as `GivesSid` and `SeedReport`, accept any
natural. Shifts and masks by
constants on these values (`tid << 16`, `seed >> 16`, `pid & 0xffff`) are
written as division, remainder, multiplication and addition. The cells of the
illegal-pair finder's bit-set (`CLUSTER`, an `unsigned int`) are `bv32`
instead, and a bit is tested and set with bit-vector shifts and masks:
`(cell >> bit) & 1` and `cell | (1 << bit)`,
with the bit position converted to `bv5`. Printed lines are values of
datatypes (`IdPair`, `SeedHit`, `Sighting`), not formatted text. The "no
match" messages are the verdict `matches == 0`, which each scan relates to
the scanned range.

The illegal-pair finder's own comments describe a bit-set that belongs to
one TID: each cell holds the SIDs reachable "for a given TID"
(IllegalPairFinder.c:41), and a clear bit is read as a combination that was
never found and so is invalid (IllegalPairFinder.c:70). The code zeroes the
array only once, before the first TID (IllegalPairFinder.c:43), so bits set
for earlier TIDs stay set. `FindIllegalPairs` follows the code;
`FindIllegalPairsCleared` clears the bit-set before every TID, as the
comments read.

## Model

| member | source | states |
|---|---|---|
| Generator.Step | SeedSearcher.c:18-21 | `gcrng`, one generator step `input * 0x343fd + 0x269ec3` reduced modulo 2^32; the same function is at IllegalPairFinder.c:24-27 and NearbySeeds.c:21-24 |
| Generator.Unstep | SeedSearcher.c:28 | one backward step `input * 0xb9b33155 + 0xa170f641` reduced modulo 2^32, the body of both rewind loops (also NearbySeeds.c:32) |
| Generator.Hi | IllegalPairFinder.c:59 | the upper half `s >> 16` of a Word is a 16-bit ID |
| Generator.SeedSid | SeedSearcher.c:68 | `gcrng(seed) >> 16`, the SID derived from a seed, is a 16-bit ID; every module takes a seed's SID from this one definition |
| Generator.StepRoundTrip | SeedSearcher.c:18-28 | the backward step undoes the forward step, and the forward step undoes the backward step, for every 32-bit value |
| Generator.IterSucc | NearbySeeds.c:41-44 | one more forward step is stepping the state reached so far |
| Generator.IterBackSucc | SeedSearcher.c:26-29 | one more backward step is unstepping the state reached so far |
| Generator.ReplayAfterRewind | NearbySeeds.c:203-213 | replaying `k` steps after rewinding `n >= k` steps lands `n - k` steps behind the start |
| Generator.ReplayRewound | SeedSearcher.c:23-32 | rewinding `n` steps and replaying `n` steps returns to the start |
| Generator.RewindUnique | NearbySeeds.c:203-211 | a seed that reaches `t` in `n` steps is the seed `n` backward steps from `t` |
| Generator.Rewind | SeedSearcher.c:23-32 | the rewind loop yields `IterBack(input, count)`, and stepping forward `count` times from it gives `input` |
| IllegalPairFinder.Seed | IllegalPairFinder.c:59 | the seed `(tid << 16)` OR `i`, as the sum `tid * 0x10000 + i`, the two fields being disjoint; the seed search takes its seeds from it too |
| IllegalPairFinder.SeedFields | IllegalPairFinder.c:59 | the upper half of `Seed(tid, i)` is `tid` and its lower half is `i` |
| IllegalPairFinder.SidOf | IllegalPairFinder.c:59 | the SID of seed `i` of a TID, `gcrng` of that seed shifted right by 16, is a 16-bit ID |
| IllegalPairFinder.BitAt | IllegalPairFinder.c:71 | bit `bit` of a `bv32` cell, tested as `(cell >> bit) & 1 == 1` |
| IllegalPairFinder.WithBit | IllegalPairFinder.c:60 | the cell `cell` OR `1 << bit` |
| IllegalPairFinder.WithBitAt | IllegalPairFinder.c:60 | OR-ing in `1 << bit` sets that bit and leaves every other bit of the cell as it was |
| IllegalPairFinder.ZeroCellClear | IllegalPairFinder.c:43 | no bit of a zeroed cell is set |
| IllegalPairFinder.CellAndBit | IllegalPairFinder.c:71-73 | the scan's index `32*i OR off` is `sid` exactly when `i == sid >> 5` and `off == sid & 31`, so set and test agree |
| IllegalPairFinder.SidArray.constructor | IllegalPairFinder.c:43 | the zero-initialised bit-set has no SID marked |
| IllegalPairFinder.SidArray.TestBit | IllegalPairFinder.c:71 | the bit of SID `sid`: bit `sid % 32` of cell `sid / 32` |
| IllegalPairFinder.SidArray.SetBit | IllegalPairFinder.c:60 | the marked SIDs gain exactly `sid`, and every other cell is unchanged |
| IllegalPairFinder.SidArray.Clear | IllegalPairFinder.c:43 | after clearing, no SID is marked |
| IllegalPairFinder.SidArray.Populate | IllegalPairFinder.c:56-61 | a bit is set afterwards iff it was set before or some offset `i < 0x10000` of the TID gives that SID |
| IllegalPairFinder.SidArray.Scan | IllegalPairFinder.c:65-76 | the scan emits `(tid, sid)` iff the bit of `sid` is clear, in strictly ascending SID order, changes nothing, and emitted SIDs plus set bits number 65536 |
| IllegalPairFinder.SidArray.PopulateAndScan | IllegalPairFinder.c:56-76 | one TID iteration: the marked set grows by the SIDs the TID reaches, and the report lists the SIDs in neither |
| IllegalPairFinder.FindIllegalPairs | IllegalPairFinder.c:50-77 | header `TID/SID`, then pairs ascending by TID then SID, and a pair is listed iff its SID is reached by no TID in `0..tid` |
| IllegalPairFinder.AppendReport | IllegalPairFinder.c:53-73 | appending the next TID's report keeps the output ascending, so there are no duplicates |
| IllegalPairFinder.FindIllegalPairsCleared | IllegalPairFinder.c:50-77 | with the bit-set cleared per TID, a pair is listed iff it is illegal, in ascending order |
| IllegalPairFinder.AccumulationMissesPair | IllegalPairFinder.c:43-77 | pair `(1, 2)` is illegal, but the program as written does not list it, since TID 0 marks SID 2 |
| IllegalPairFinder.TidOneMissesSidTwo | IllegalPairFinder.c:56-60 | no seed of TID 1 gives SID 2, so the pair `(1, 2)` is illegal |
| IllegalPairFinder.GapsCount | IllegalPairFinder.c:65-76 | the reference listing of clear bits below `n` and the set bits below `n` number `n` together |
| IllegalPairFinder.ReportCount | IllegalPairFinder.c:56-76 | for every TID, the emitted SIDs plus the set bits number 65536 |
| IllegalPairFinder.GapsIsReport | IllegalPairFinder.c:65-76 | the recursive reference listing satisfies the scan's contract |
| IllegalPairFinder.ReportIsGaps | IllegalPairFinder.c:65-76 | any output that satisfies the scan's contract is the reference listing, so the contract fixes the output |
| IllegalPairFinder.ReachedBeforeMember | IllegalPairFinder.c:53-61 | a SID is marked after TIDs `0..n-1` iff some seed of one of those TIDs gives it |
| IllegalPairFinder.ReachedBeforeGrows | IllegalPairFinder.c:53-61 | the marked set only grows from one TID to the next |
| IllegalPairFinder.ReportedIsIllegal | IllegalPairFinder.c:53-77 | every pair the program lists is illegal, and for TID 0 the listed pairs are exactly the illegal ones |
| IllegalPairFinder.FirstSeed | IllegalPairFinder.c:24-27 | `gcrng(0) == 0x269EC3`, so SID 0x26 is reachable for TID 0 and is not listed |
| IllegalPairFinder.LastSeed | IllegalPairFinder.c:24-27 | seed 0xFFFFFFFF steps, with wrap-around, to 0x235AC6, so `(0xFFFF, 0x23)` is legal |
| SeedSearcher.Rewind1100 | SeedSearcher.c:23-32 | `gcrngr1100(s)` is 1100 backward steps from `s`, and 1100 forward steps from it give `s` |
| SeedSearcher.SeedVerdict | SeedSearcher.c:75-83 | a complete report is empty iff no seed in its range gives the SID |
| SeedSearcher.SearchSeeds | SeedSearcher.c:64-83 | the loop reports exactly the seeds of `[tid << 16, bound)` giving the SID, ascending, each with its 1100-step rewind; `matches` equals the count; "impossible" is printed iff no seed in that range gives the SID |
| SeedSearcher.ScanBound | SeedSearcher.c:66 | the loop bound `(tid << 16) + 0x10000`, reduced modulo 2^32 as the `unsigned int` sum is |
| SeedSearcher.GivesSid | SeedSearcher.c:68 | the test `(gcrng(seed) >> 16) == sid`, via `SeedSid` |
| SeedSearcher.ScanRange | SeedSearcher.c:66 | below TID 0xFFFF the loop visits exactly the seeds whose upper half is the TID; for TID 0xFFFF the bound wraps to 0 |
| SeedSearcher.SearchSeedsFixed | SeedSearcher.c:64-83 | walking the 65536 offsets instead, "impossible" is printed iff the pair is illegal |
| SeedSearcher.ReportVerdict | SeedSearcher.c:75-83 | a complete report over a TID's seeds is empty iff the pair is illegal in the finder's sense |
| SeedSearcher.WrapMissesLegalPair | SeedSearcher.c:66 | for TID 0xFFFF the scanned range is empty, although seed 0xFFFF0000 gives SID 0xBC29, so the legal pair `(0xFFFF, 0xBC29)` is declared impossible |
| SeedSearcher.FixedFindsWrappedPair | SeedSearcher.c:66-72 | the corrected search reports seed 0xFFFF0000 first for that pair |
| Prompts.AcceptId | SeedSearcher.c:53-62 | a TID or SID is accepted iff `scanf` matched and the value is below 0x10000 |
| Prompts.AcceptWord | NearbySeeds.c:85-88 | a seed or PID is accepted iff `scanf` matched |
| Prompts.FeatureNumber | NearbySeeds.c:59-63 | each feature has a menu number in 1..4 |
| Prompts.ParseChoice | NearbySeeds.c:66-72 | a menu choice is accepted iff it is in 1..4, and it selects the feature with that number |
| Prompts.ChoiceRoundTrip | NearbySeeds.c:59-72 | typing a feature's number selects it, and distinct features have distinct numbers |
| NearbySeeds.Rewind10000 | NearbySeeds.c:26-35 | `gcrngr10000(s)` is 10000 backward steps from `s`, and 10000 forward steps from it give `s` |
| NearbySeeds.DistanceToSeed | NearbySeeds.c:37-46 | the result is the least `d` with `Iter(start, d) == target`; it is 0 iff `start == target`; no answer means no hit below 2^32 steps |
| NearbySeeds.FirstHitAdvance | NearbySeeds.c:41-44 | one advance towards the target lowers the least distance by one |
| NearbySeeds.Xor | NearbySeeds.c:163 | the C `^` on naturals, bit by bit from the lowest: the low bits differ or not, and the rest is the exclusive or of the halves |
| NearbySeeds.Shiny | NearbySeeds.c:168 | the shiny test `(tid ^ sid ^ fold) < 8` for a seed's TID `Hi(s)` and SID `SeedSid(s)` |
| NearbySeeds.XorBelow | NearbySeeds.c:163 | the exclusive or of two `n`-bit values is an `n`-bit value |
| NearbySeeds.Fold | NearbySeeds.c:163 | the PID fold `(pid & 0xFFFF) ^ (pid >> 16)` is below 0x10000 |
| NearbySeeds.ForwardVerdict | NearbySeeds.c:142-145 | a complete forward report is empty iff no distance in its range is wanted |
| NearbySeeds.ScanAhead | NearbySeeds.c:132-140 | distance `d` in `1..limit-1` is reported iff the seed `d` steps ahead is wanted; reports ascend by distance; each carries that seed's TID and the next step's SID; `matches` is their count |
| NearbySeeds.CustomTid | NearbySeeds.c:131-146 | a distance `d` in `1..999998` is reported iff `Iter(curr, d) >> 16 == tid`; "sorry" iff there is none |
| NearbySeeds.MakePidShiny | NearbySeeds.c:163-179 | a distance in `1..999998` is reported iff its seed's TID ^ SID ^ fold is below 8; "sorry" iff there is none |
| NearbySeeds.BackVerdict | NearbySeeds.c:224-227 | a complete backward report is empty iff no seed in its range gives the TID |
| NearbySeeds.TidOffset | NearbySeeds.c:196-228 | exits without scanning iff the target gives the TID; otherwise the line "d frames early" is for `IterBack(target, d)` and "d frames late" for `Iter(target, d)`, both for `d` in 1..9999; early lines come farthest first; the target itself is skipped; `matches` counts both halves; "sorry" iff neither half has a hit |
| NearbySeeds.EarlyMeansBefore | NearbySeeds.c:203-211 | a line "d frames early" is for a seed from which `d` advances reach the target, and every seed that reaches the target in `d` advances and gives the TID is reported |
| NearbySeeds.XorCancel | NearbySeeds.c:163 | exclusive or is its own inverse |
| NearbySeeds.XorSymmetric | NearbySeeds.c:163 | exclusive or does not depend on operand order |
| NearbySeeds.XorZero | NearbySeeds.c:168 | an exclusive or is 0 iff its operands are equal |
| NearbySeeds.XorEighths | NearbySeeds.c:168 | dropping the low three bits commutes with exclusive or |
| NearbySeeds.FoldRecovers | NearbySeeds.c:163 | xoring the fold with either half of the PID gives the other half back, so the fold loses nothing |
| NearbySeeds.ShinyByUpperBits | NearbySeeds.c:168 | a seed makes the PID shiny iff `tid ^ sid` and the fold agree above their low three bits |

## Left out

- Console I/O is not modelled: `printf`, `puts`, the `scanf` calls, the `flush` helpers and the closing `getchar` pause. Only the checks the prompts apply are kept (`Prompts`).
- The re-prompt loops are left out. At end of input, `flush` spins forever because `getchar` never returns `'\n'`; that behaviour is left out too.
- The `switch` in the nearby-seed tool's `main` is one method per feature. The choice itself is `Prompts.ParseChoice`.
- The `sizeof(CLUSTER)` ternary and other cell widths are left out. The cell is fixed at 32 bits, shift 5. The C expression `1 << 31` is an `int` shift; it is modelled as setting bit 31 of the unsigned cell.
- IllegalPairFinder.SidArray.SetBit: idempotence is stated on the set of marked SIDs, not as equality of the cell's raw bits. Setting a marked SID leaves the marked set as it was.
- NearbySeeds.DistanceToSeed: termination is not proved, because that needs the generator's full period of 2^32. The loop stops after 2^32 steps with no answer. The wrap of the C `unsigned int` counter after 2^32 steps is not modelled.
- The illegal-pair finder's output is not computed. Its contracts quantify over TIDs, offsets and SIDs instead.
- Each of the three programs writes only to stdout and returns 0 from `main`; the return value is not modelled.

## Findings

| source | as written | input that shows it | evidently intended | confidence | as-written member | corrected member |
|---|---|---|---|---|---|---|
| SeedSearcher.c:66 | the loop bound `(tid << 16) + 0x10000` is computed in 32 bits and wraps to 0 for TID 0xFFFF, so the loop never runs | TID 65535 with SID 48169 (0xBC29): seed 0xFFFF0000 steps to 0xBC299EC3, yet the pair is declared impossible | scan all 65536 seeds of the TID, and call the pair impossible only when it is illegal | not executed | SeedSearcher.WrapMissesLegalPair | SeedSearcher.SearchSeedsFixed |
| IllegalPairFinder.c:43 | the bit-set is zeroed once and never cleared between TIDs, so bits set for earlier TIDs hide illegal pairs of later ones | pair TID 1 / SID 2: no seed of TID 1 gives SID 2, but seed 60195 of TID 0 does, so the pair is not listed | clear the bit-set before populating each TID, and list exactly the illegal pairs | not executed | IllegalPairFinder.AccumulationMissesPair | IllegalPairFinder.FindIllegalPairsCleared |
