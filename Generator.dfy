/** The GameCube linear congruential generator shared by all three tools,
    its exact inverse, and repeated application of either.

    The tools keep every value in a C `unsigned int`, so a value is a Word,
    an integer in [0, 2^32), and every product and sum is reduced modulo 2^32
    as the hardware does. Shifts and masks by constants on Words are written
    as the equivalent division, remainder, multiplication and addition. */
module Generator {

  /** 2^32, the number of distinct `unsigned int` values. */
  const WordRange := 0x1_0000_0000

  type Word = x: int | 0 <= x < WordRange

  /** 2^16, the number of 16-bit IDs (TIDs, SIDs) and of seeds per TID. */
  const IdCount := 0x10000

  /** One generator step (`gcrng`): `input * 0x343fd + 0x269ec3`, wrapping. */
  function Step(s: Word): Word {
    (s * 0x343FD + 0x269EC3) % WordRange
  }

  /** One backward step, the body of the rewind loops:
      `input * 0xb9b33155 + 0xa170f641`, wrapping. */
  function Unstep(s: Word): Word {
    (s * 0xB9B33155 + 0xA170F641) % WordRange
  }

  /** The upper 16 bits of a Word (`s >> 16`), the ID the game derives from it. */
  function Hi(s: Word): (h: nat)
    ensures h < IdCount
  {
    s / 0x10000
  }

  /** `gcrng(seed) >> 16`: the SID the game derives from a seed, the upper
      half of the next generator value (the seed's own upper half is the TID). */
  function SeedSid(s: Word): (sid: nat)
    ensures sid < IdCount
  {
    Hi(Step(s))
  }

  /** Adding a multiple of 2^32 to a Word does not change it modulo 2^32. */
  lemma ModMultiple(x: Word, k: int)
    ensures (x + k * WordRange) % WordRange == x
  {
  }

  /** The backward step undoes the forward step, and the forward step undoes
      the backward step, for every Word: `0xb9b33155` is the inverse of
      `0x343fd` modulo 2^32 and the increments cancel under it. */
  lemma StepRoundTrip(s: Word)
    ensures Unstep(Step(s)) == s
    ensures Step(Unstep(s)) == s
  {
    var y := s * 0x343FD + 0x269EC3;
    var q := y / WordRange;
    assert Step(s) == y - q * WordRange;
    assert 0x343FD * 0xB9B33155 == 155243 * WordRange + 1;
    assert 0x269EC3 * 0xB9B33155 + 0xA170F641 == 1835972 * WordRange;
    ModMultiple(s, s * 155243 + 1835972 - q * 0xB9B33155);

    var z := s * 0xB9B33155 + 0xA170F641;
    var p := z / WordRange;
    assert Unstep(s) == z - p * WordRange;
    assert 0xA170F641 * 0x343FD + 0x269EC3 == 0x20F33 * WordRange;
    ModMultiple(s, s * 155243 + 0x20F33 - p * 0x343FD);
  }

  /** The state after `n` forward steps from `s`. */
  ghost function Iter(s: Word, n: nat): Word
    decreases n
  {
    if n == 0 then s else Iter(Step(s), n - 1)
  }

  /** The state after `n` backward steps from `s`. */
  ghost function IterBack(s: Word, n: nat): Word
    decreases n
  {
    if n == 0 then s else IterBack(Unstep(s), n - 1)
  }

  /** Taking one more forward step is stepping the state reached so far. */
  lemma {:induction false} IterSucc(s: Word, n: nat)
    ensures Iter(s, n + 1) == Step(Iter(s, n))
    decreases n
  {
    if n > 0 {
      IterSucc(Step(s), n - 1);
    }
  }

  /** Taking one more backward step is unstepping the state reached so far. */
  lemma {:induction false} IterBackSucc(s: Word, n: nat)
    ensures IterBack(s, n + 1) == Unstep(IterBack(s, n))
    decreases n
  {
    if n > 0 {
      IterBackSucc(Unstep(s), n - 1);
    }
  }

  /** Replaying `k` forward steps after rewinding `n >= k` steps leaves the
      state `n - k` steps behind the start. */
  lemma {:induction false} ReplayAfterRewind(s: Word, n: nat, k: nat)
    requires k <= n
    ensures Iter(IterBack(s, n), k) == IterBack(s, n - k)
    decreases k
  {
    if k > 0 {
      calc {
        Iter(IterBack(s, n), k);
        { IterSucc(IterBack(s, n), k - 1); }
        Step(Iter(IterBack(s, n), k - 1));
        { ReplayAfterRewind(s, n, k - 1); }
        Step(IterBack(s, n - k + 1));
        { IterBackSucc(s, n - k); }
        Step(Unstep(IterBack(s, n - k)));
        { StepRoundTrip(IterBack(s, n - k)); }
        IterBack(s, n - k);
      }
    }
  }

  /** Rewinding `n` steps and replaying `n` steps returns to the start. */
  lemma ReplayRewound(s: Word, n: nat)
    ensures Iter(IterBack(s, n), n) == s
  {
    ReplayAfterRewind(s, n, n);
  }

  /** A seed that reaches `t` in `n` forward steps is the seed `n` backward
      steps from `t`: the generator is a bijection, so the predecessor is
      unique. */
  lemma {:induction false} RewindUnique(s: Word, t: Word, n: nat)
    requires Iter(s, n) == t
    ensures s == IterBack(t, n)
    decreases n
  {
    if n > 0 {
      RewindUnique(Step(s), t, n - 1);
      IterBackSucc(t, n - 1);
      StepRoundTrip(s);
    }
  }

  /** The rewind loop shared by `gcrngr1100` and `gcrngr10000`: apply the
      backward step `count` times to `input`. */
  method Rewind(input: Word, count: nat) returns (r: Word)
    ensures r == IterBack(input, count)
    ensures Iter(r, count) == input
  {
    r := input;
    var i := 0;
    while i < count
      invariant 0 <= i <= count
      invariant r == IterBack(input, i)
    {
      IterBackSucc(input, i);
      r := Unstep(r);
      i := i + 1;
    }
    ReplayRewound(input, count);
  }
}
