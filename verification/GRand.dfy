/** The random number generator: 624 words, regenerated in place. */
module GRands {
  import opened Arithmetic
  import opened MersenneTwister

  /** The array half way through regeneration: the first `kk` words are the next ones. */
  ghost predicate Mixing(mt: seq<Word>, init: seq<Word>, base: nat, kk: nat) {
    && |mt| == N && |init| == N && kk <= N
    && (forall i :: 0 <= i < kk ==> mt[i] == Term(init, base + N + i))
    && (forall i :: kk <= i < N ==> mt[i] == Term(init, base + i))
  }

  lemma MixingStart(mt: seq<Word>, init: seq<Word>, base: nat)
    requires |mt| == N && |init| == N && forall i :: 0 <= i < N ==> mt[i] == Term(init, base + i)
    ensures Mixing(mt, init, base, 0)
  {
  }

  /** The next word of the recurrence, from whichever half of the array its third input is in. */
  lemma MixingStep(mt: seq<Word>, init: seq<Word>, base: nat, kk: nat)
    requires Mixing(mt, init, base, kk) && kk < N
    ensures |mt| == N
    ensures kk < N - M ==> Mixing(mt[kk := Next(mt[kk], mt[kk + 1], mt[kk + M])], init, base, kk + 1)
    ensures N - M <= kk < N - 1 ==> Mixing(mt[kk := Next(mt[kk], mt[kk + 1], mt[kk + M - N])], init, base, kk + 1)
    ensures kk == N - 1 ==> Mixing(mt[kk := Next(mt[kk], mt[0], mt[M - 1])], init, base, kk + 1)
  {
    hide Next;
    var t := Term(init, base + N + kk);
    assert t == Next(mt[kk], if kk < N - 1 then mt[kk + 1] else mt[0], if kk < N - M then mt[kk + M] else mt[kk + M - N]);
  }

  lemma MixingDone(mt: seq<Word>, init: seq<Word>, base: nat)
    requires Mixing(mt, init, base, N)
    ensures |mt| == N && |init| == N && forall i :: 0 <= i < N ==> mt[i] == Term(init, base + N + i)
  {
  }

  /** What regeneration does to the array, place by place. */
  ghost predicate NextBlock(was: seq<Word>, now: seq<Word>) {
    && |was| == |now| == 624
    && (forall i :: 0 <= i < 227 ==> now[i] == Next(was[i], was[i + 1], was[i + 397]))
    && (forall i :: 227 <= i < 623 ==> now[i] == Next(was[i], was[i + 1], now[i - 227]))
    && now[623] == Next(was[623], now[0], now[396])
  }

  lemma Regenerated(was: seq<Word>, now: seq<Word>, init: seq<Word>, base: nat)
    requires Mixing(was, init, base, 0) && Mixing(now, init, base, 624)
    ensures NextBlock(was, now)
  {
    hide Next, Term;
    forall i: nat | i < 624 ensures now[i] == Next(Term(init, base + i), Term(init, base + i + 1), Term(init, base + i + 397)) {
      LaterTerm(init, base + i);
    }
  }

  lemma LaterTerm(init: seq<Word>, k: nat)
    requires |init| == 624
    ensures Term(init, k + 624) == Next(Term(init, k), Term(init, k + 1), Term(init, k + 397))
  {
    hide Next;
  }

  // ---------------------------------------------------------------- seeding by an array

  const KEY_SEED: Word := 19650218

  predicate SeedOk(seed: seq<Word>) {
    1 <= |seed| < 0x1_0000_0000
  }

  /** How often the first loop of g_rand_set_seed_array runs. */
  function Rounds(seed: seq<Word>): nat {
    if N > |seed| then N else |seed|
  }

  function FirstMix(x: Word, last: Word, key: Word, j: nat): Word
    requires j < 0x1_0000_0000
  {
    (x ^ ((last ^ (last >> 30)) * 1664525)) + key + j as Word
  }

  function SecondMix(x: Word, last: Word, i: nat): Word
    requires i < N
  {
    (x ^ ((last ^ (last >> 30)) * 1566083941)) - i as Word
  }

  /** Which word of the seed round `r` uses: they are taken in turn. */
  function KeyIndex(seed: seq<Word>, r: nat): (j: nat)
    requires SeedOk(seed)
    ensures j < |seed|
  {
    r % |seed|
  }

  /** The words that seeding by an array writes, in the order in which they are written and
      without the array: each is mixed from the word before it and the word 623 before it. */
  function KeyTerm(seed: seq<Word>, n: nat): Word
    requires SeedOk(seed)
  {
    if n < N - 1 then Seeded(KEY_SEED, n + 1) else
      var r: nat := n - (N - 1);
      var last := if r == 0 then Seeded(KEY_SEED, 0) else KeyTerm(seed, n - 1);
      if r < Rounds(seed) then FirstMix(KeyTerm(seed, r), last, seed[KeyIndex(seed, r)], KeyIndex(seed, r))
      else SecondMix(KeyTerm(seed, r), last, 1 + r % (N - 1))
  }

  lemma MixesAre(x: Word, last: Word, key: Word, j: nat, i: nat)
    requires j < 0x1_0000_0000 && i < 624
    ensures FirstMix(x, last, key, j) == (x ^ ((last ^ (last >> 30)) * 1664525)) + key + j as Word
    ensures SecondMix(x, last, i) == (x ^ ((last ^ (last >> 30)) * 1566083941)) - i as Word
  {
  }

  /** Which words each of them is mixed from, by number: first the 623 words of the seed 19650218, then
      as many rounds as the larger of 624 and the length of the seed, then 623 more. */
  lemma KeyTermIs(seed: seq<Word>, r: nat)
    requires 1 <= |seed| < 0x1_0000_0000
    ensures r < 623 ==> KeyTerm(seed, r) == Seeded(19650218, r + 1)
    ensures var last := if r == 0 then Seeded(19650218, 0) else KeyTerm(seed, r + 622);
            KeyTerm(seed, r + 623) == if r < 624 || r < |seed| then FirstMix(KeyTerm(seed, r), last, seed[r % |seed|], r % |seed|)
                                                               else SecondMix(KeyTerm(seed, r), last, 1 + r % 623)
  {
    hide Seeded, FirstMix, SecondMix;
  }

  /** How many words were written when slot `i` is next in the `lap`-th lap around the array. */
  ghost function Round(lap: nat, i: nat): nat
    requires i >= 1
  {
    lap * (N - 1) + i - 1
  }

  /** The array as a ring: in its `lap`-th lap, slots 1 to `i` - 1 hold the newest words, the
      rest those of the lap before, and slot `i` - 1 the last word written. */
  ghost predicate Keying(mt: seq<Word>, seed: seq<Word>, lap: nat, i: nat) {
    && |mt| == N && SeedOk(seed) && 1 <= i < N
    && (forall p :: 1 <= p < i ==> mt[p] == KeyTerm(seed, Round(lap + 1, p)))
    && (forall p :: i <= p < N ==> mt[p] == KeyTerm(seed, Round(lap, p)))
    && mt[i - 1] == LastTerm(seed, Round(lap, i))
  }

  /** The word written before round `r`. */
  ghost function LastTerm(seed: seq<Word>, r: nat): Word
    requires SeedOk(seed)
  {
    if r == 0 then Seeded(KEY_SEED, 0) else KeyTerm(seed, r + N - 2)
  }

  lemma KeyingStart(mt: seq<Word>, seed: seq<Word>)
    requires |mt| == N && SeedOk(seed) && forall k :: 0 <= k < N ==> mt[k] == Seeded(KEY_SEED, k)
    ensures Keying(mt, seed, 0, 1) && Round(0, 1) == KeyIndex(seed, 0) == 0
  {
    hide Seeded;
  }

  lemma Laps(lap: nat, i: nat)
    requires 1 <= i < N
    ensures Round(lap, i) % (N - 1) == i - 1 && Round(lap + 1, i) == Round(lap, i) + N - 1
    ensures Round(lap, i + 1) == Round(lap, i) + 1 && Round(lap + 1, 1) == Round(lap, N)
  {
    QuotientUnique(Round(lap, i), N - 1, lap);
    DivMod(Round(lap, i), N - 1);
  }

  /** What the next round reads from the array is what the next word is made of. */
  lemma KeyingRead(mt: seq<Word>, seed: seq<Word>, lap: nat, i: nat)
    requires Keying(mt, seed, lap, i)
    ensures |mt| == N && SeedOk(seed) && 1 <= i < N
    ensures var r := Round(lap, i);
            KeyTerm(seed, r + N - 1) ==
              if r < Rounds(seed) then FirstMix(mt[i], mt[i - 1], seed[KeyIndex(seed, r)], KeyIndex(seed, r)) else SecondMix(mt[i], mt[i - 1], i)
  {
    hide Seeded, FirstMix, SecondMix, Rounds, Round, KeyIndex;
    Laps(lap, i);
  }

  /** Writing it where it came from moves the ring on by one word. */
  lemma KeyingStep(mt: seq<Word>, seed: seq<Word>, lap: nat, i: nat)
    requires Keying(mt, seed, lap, i)
    ensures |mt| == N && SeedOk(seed) && 1 <= i < N
    ensures var v := KeyTerm(seed, Round(lap, i) + N - 1);
            && (i + 1 < N ==> Keying(mt[i := v], seed, lap, i + 1) && Round(lap, i + 1) == Round(lap, i) + 1)
            && (i + 1 == N ==> Keying(mt[i := v][0 := v], seed, lap + 1, 1) && Round(lap + 1, 1) == Round(lap, i) + 1)
  {
    hide Seeded, KeyTerm, Round;
    Laps(lap, i);
  }

  /** In the end each slot but the first holds the last word that was written to it. */
  lemma KeyingDone(mt: seq<Word>, seed: seq<Word>, lap: nat, i: nat)
    requires Keying(mt, seed, lap, i)
    ensures |mt| == N && SeedOk(seed) && 1 <= i < N
    ensures forall n: nat :: Round(lap, i) <= n < Round(lap, i) + N - 1 ==> mt[1 + n % (N - 1)] == KeyTerm(seed, n)
  {
    hide Seeded, KeyTerm;
    var r := Round(lap, i);
    forall n: nat | r <= n < r + N - 1 ensures mt[1 + n % (N - 1)] == KeyTerm(seed, n) {
      SlotHolds(mt, seed, lap, i, n);
    }
  }

  lemma SlotHolds(mt: seq<Word>, seed: seq<Word>, lap: nat, i: nat, n: nat)
    requires Keying(mt, seed, lap, i) && Round(lap, i) <= n < Round(lap, i) + N - 1
    ensures mt[1 + n % (N - 1)] == KeyTerm(seed, n)
  {
    hide Seeded, KeyTerm;
    var q := if n < Round(lap, N) then lap else lap + 1;
    QuotientUnique(n, N - 1, q);
    DivMod(n, N - 1);
    assert n == Round(q, 1 + n % (N - 1));
  }

  lemma NextIndex(seed: seq<Word>, r: nat)
    requires SeedOk(seed)
    ensures var j := KeyIndex(seed, r); KeyIndex(seed, r + 1) == if j + 1 == |seed| then 0 else j + 1
  {
    var d: nat := |seed|;
    DivMod(r, d);
    var q: nat := if r % d + 1 == d then r / d + 1 else r / d;
    assert q == r / d + 1 ==> d * q == d * (r / d) + d;
    QuotientUnique(r + 1, d, q);
    DivMod(r + 1, d);
  }

  // ---------------------------------------------------------------- the generator

  class GRand {
    const mt: array<Word>
    var mti: nat
    /** The words after seeding, and how far the array has moved along the sequence since. */
    ghost var init: seq<Word>
    ghost var base: nat

    ghost predicate Valid()
      reads this, mt
    {
      && mt.Length == N && |init| == N && mti <= N && base + mti >= N
      && forall i :: 0 <= i < N ==> mt[i] == Term(init, base + i)
    }

    /** How many numbers were drawn since seeding. */
    ghost function Drawn(): nat
      reads this, mt
      requires Valid()
    {
      base + mti - N
    }

    /** g_rand_set_seed, version 22. */
    method SetSeed(seed: Word)
      requires mt.Length == N
      modifies this, mt
      ensures Valid() && mti == N && Drawn() == 0 && !Stuck(init, 0)
      ensures forall k :: 0 <= k < N ==> mt[k] == init[k] == Seeded(seed, k)
    {
      hide SeedStep, Stuck;
      mt[0] := seed;
      mti := 1;
      while mti < N
        invariant 1 <= mti <= N && forall k :: 0 <= k < mti ==> mt[k] == Seeded(seed, k)
      {
        mt[mti] := SeedStep(mt[mti - 1], mti);
        mti := mti + 1;
      }
      init, base := mt[..], 0;
      SeededNotStuck(seed, init);
    }

    constructor (seed: Word)
      ensures Valid() && fresh(mt) && Drawn() == 0 && !Stuck(init, 0)
      ensures forall k :: 0 <= k < N ==> init[k] == Seeded(seed, k)
    {
      mt := new Word[N];
      mti := N;
      new;
      SetSeed(seed);
    }

    /** The block of g_rand_int that generates 624 words at one time. */
    method Regenerate()
      requires Valid() && mti == N
      modifies this`mti, this`base, mt
      ensures Valid() && mti == 0 && base == old(base) + 624 && Drawn() == old(Drawn())
      ensures NextBlock(old(mt[..]), mt[..])
    {
      hide Next, Term, Mixing, NextBlock;
      ghost var was := mt[..];
      var kk: nat := 0;
      MixingStart(mt[..], init, base);
      while kk < N - M
        invariant kk <= N - M && Mixing(mt[..], init, base, kk) && base == old(base)
      {
        MixingStep(mt[..], init, base, kk);
        ghost var before := mt[..];
        mt[kk] := Next(mt[kk], mt[kk + 1], mt[kk + M]);
        assert mt[..] == before[kk := mt[kk]];
        kk := kk + 1;
      }
      while kk < N - 1
        invariant N - M <= kk <= N - 1 && Mixing(mt[..], init, base, kk) && base == old(base)
      {
        MixingStep(mt[..], init, base, kk);
        ghost var before := mt[..];
        mt[kk] := Next(mt[kk], mt[kk + 1], mt[kk + M - N]);
        assert mt[..] == before[kk := mt[kk]];
        kk := kk + 1;
      }
      MixingStep(mt[..], init, base, N - 1);
      ghost var before := mt[..];
      mt[N - 1] := Next(mt[N - 1], mt[0], mt[M - 1]);
      assert mt[..] == before[N - 1 := mt[N - 1]];
      mti := 0;
      base := base + N;
      Regenerated(was, mt[..], init, base - N);
      MixingDone(mt[..], init, base - N);
    }

    /** g_rand_int: the n-th number is the n-th tempered word after the first 624. */
    method Int() returns (y: Word)
      requires Valid()
      modifies this`mti, this`base, mt
      ensures Valid() && Drawn() == old(Drawn()) + 1 && y == Temper(Term(init, 624 + old(Drawn())))
    {
      hide Next, Term, NextBlock, TemperU, TemperS, TemperT, TemperL;
      if mti >= N {
        Regenerate();
      }
      y := mt[mti];
      mti := mti + 1;
      y := TemperU(y);
      y := TemperS(y);
      y := TemperT(y);
      y := TemperL(y);
    }

    /** Writes a word into the ring and moves on, as both loops of g_rand_set_seed_array do. */
    method Put(i0: nat, v: Word, ghost seed: seq<Word>, ghost lap0: nat) returns (i: nat, ghost lap: nat)
      requires mt.Length == N && SeedOk(seed) && 1 <= i0 < N && Keying(mt[..], seed, lap0, i0) && v == KeyTerm(seed, Round(lap0, i0) + N - 1)
      modifies mt
      ensures 1 <= i < N && Keying(mt[..], seed, lap, i) && Round(lap, i) == Round(lap0, i0) + 1
    {
      hide KeyTerm, Keying;
      KeyingStep(mt[..], seed, lap0, i0);
      ghost var before := mt[..];
      mt[i0] := v;
      assert mt[..] == before[i0 := v];
      i, lap := i0 + 1, lap0;
      if i >= N {
        mt[0] := mt[N - 1];
        assert mt[..] == before[i0 := v][0 := v];
        i, lap := 1, lap0 + 1;
      }
    }

    /** The first loop of g_rand_set_seed_array. */
    method MixKeys(seed: seq<Word>) returns (i: nat, ghost lap: nat)
      requires mt.Length == N && SeedOk(seed) && Keying(mt[..], seed, 0, 1) && Round(0, 1) == KeyIndex(seed, 0) == 0
      modifies mt
      ensures 1 <= i < N && Keying(mt[..], seed, lap, i) && Round(lap, i) == Rounds(seed)
    {
      hide KeyTerm, FirstMix, SecondMix, Keying, Round, KeyIndex;
      var j: nat, k: nat := 0, if N > |seed| then N else |seed|;
      i, lap := 1, 0;
      while k > 0
        invariant 1 <= i < N && Keying(mt[..], seed, lap, i)
        invariant j == KeyIndex(seed, Round(lap, i)) && Round(lap, i) + k == Rounds(seed)
      {
        KeyingRead(mt[..], seed, lap, i);
        NextIndex(seed, Round(lap, i));
        i, lap := Put(i, FirstMix(mt[i], mt[i - 1], seed[j], j), seed, lap);
        j := j + 1;
        if j >= |seed| {
          j := 0;
        }
        k := k - 1;
      }
    }

    /** The second loop of g_rand_set_seed_array. */
    method MixIndices(seed: seq<Word>, i0: nat, ghost lap0: nat) returns (i: nat, ghost lap: nat)
      requires mt.Length == N && SeedOk(seed) && 1 <= i0 < N && Keying(mt[..], seed, lap0, i0) && Round(lap0, i0) == Rounds(seed)
      modifies mt
      ensures 1 <= i < N && Keying(mt[..], seed, lap, i) && Round(lap, i) == Rounds(seed) + N - 1
    {
      hide KeyTerm, FirstMix, SecondMix, Rounds, Round, Keying;
      var k: nat := N - 1;
      i, lap := i0, lap0;
      while k > 0
        invariant 1 <= i < N && Keying(mt[..], seed, lap, i) && Round(lap, i) + k == Rounds(seed) + N - 1
      {
        KeyingRead(mt[..], seed, lap, i);
        i, lap := Put(i, SecondMix(mt[i], mt[i - 1], i), seed, lap);
        k := k - 1;
      }
    }

    /** g_rand_set_seed_array. */
    method SetSeedArray(seed: seq<Word>)
      requires mt.Length == N && SeedOk(seed)
      modifies this, mt
      ensures Valid() && Drawn() == 0 && !Stuck(init, 0) && init[0] == 0x80000000
      ensures forall n: nat :: Rounds(seed) + N - 1 <= n < Rounds(seed) + 2 * (N - 1) ==> init[1 + n % (N - 1)] == KeyTerm(seed, n)
    {
      hide Term, Seeded, SeedStep, Stuck, KeyTerm, Keying, Rounds, Round, KeyIndex;
      SetSeed(KEY_SEED);
      KeyingStart(mt[..], seed);
      var i, lap := MixKeys(seed);
      i, lap := MixIndices(seed, i, lap);
      KeyingDone(mt[..], seed, lap, i);
      mt[0] := 0x80000000;
      init, base := mt[..], 0;
      ArrayNotStuck(init);
    }
  }

  lemma ArrayNotStuck(init: seq<Word>)
    requires |init| == N && init[0] == UPPER_MASK
    ensures !Stuck(init, 0) && forall i :: 0 <= i < N ==> Term(init, i) == init[i]
  {
  }

  /** For every seed and every n: the first n numbers drawn. */
  method Draw(seed: Word, n: nat) returns (rand: GRand, drawn: seq<Word>)
    ensures |drawn| == n && rand.Valid() && forall k :: 0 <= k < n ==> drawn[k] == Temper(Term(rand.init, 624 + k))
    ensures forall k :: 0 <= k < 624 ==> rand.init[k] == Seeded(seed, k)
    ensures forall k :: !Stuck(rand.init, k)
  {
    hide Term, Temper, Seeded, Stuck;
    rand := new GRand(seed);
    drawn := [];
    for i := 0 to n
      invariant rand.Valid() && fresh(rand) && fresh(rand.mt) && rand.Drawn() == i == |drawn| && !Stuck(rand.init, 0)
      invariant forall k :: 0 <= k < N ==> rand.init[k] == Seeded(seed, k)
      invariant forall k :: 0 <= k < i ==> drawn[k] == Temper(Term(rand.init, N + k))
    {
      var y := rand.Int();
      drawn := drawn + [y];
    }
    forall k: nat ensures !Stuck(rand.init, k) { NeverStuck(rand.init, k); }
  }
}
