/** The words of mt19937: recurrence, tempering and seeding. */
module MersenneTwister {
  const N: nat := 624
  const M: nat := 397

  type Word = bv32

  const MATRIX_A: Word := 0x9908b0df
  const UPPER_MASK: Word := 0x80000000
  const LOWER_MASK: Word := 0x7fffffff

  // ------------------------------------------------------- the recurrence

  /** The top bit of one word and the other bits of the next. */
  function Mixed(a: Word, b: Word): Word {
    (a & UPPER_MASK) | (b & LOWER_MASK)
  }

  /** The product of a word with the matrix A. */
  function TimesA(y: Word): Word {
    (y >> 1) ^ (if y & 1 == 0 then 0 else MATRIX_A)
  }

  /** The word 624 places after `a`, where `b` follows `a` and `c` is 397 places after it. */
  function Next(a: Word, b: Word, c: Word): Word {
    c ^ TimesA(Mixed(a, b))
  }

  /** The k-th word of the sequence that starts with the 624 words `init`. */
  function Term(init: seq<Word>, k: nat): Word
    requires |init| == N
  {
    if k < N then init[k] else Next(Term(init, k - N), Term(init, k - N + 1), Term(init, k - N + M))
  }

  // ------------------------------------------------------- what enters a word

  /** Exclusive or, as a name. */
  function Xor(a: Word, b: Word): Word {
    a ^ b
  }

  lemma XorIs(a: Word, b: Word)
    ensures Xor(a, b) == a ^ b
  {
  }

  lemma XorSwap(a: Word, b: Word, c: Word)
    ensures Xor(Xor(a, b), c) == Xor(Xor(a, c), b)
    ensures Xor(a, Xor(b, c)) == Xor(Xor(a, b), c)
  {
    XorRaw(a, b, c);
    XorTwo(a, b, c);
    XorTwo(a, c, b);
    hide Xor;
  }

  lemma XorRaw(a: Word, b: Word, c: Word)
    ensures (a ^ b) ^ c == (a ^ c) ^ b && a ^ (b ^ c) == (a ^ b) ^ c
  {
  }

  lemma XorTwo(a: Word, b: Word, c: Word)
    ensures Xor(Xor(a, b), c) == (a ^ b) ^ c && Xor(a, Xor(b, c)) == a ^ (b ^ c)
  {
  }

  lemma XorMedial(a: Word, b: Word, c: Word, d: Word)
    ensures Xor(Xor(a, b), Xor(c, d)) == Xor(Xor(a, c), Xor(b, d))
  {
    hide Xor;
    XorSwap(Xor(a, b), c, d);
    XorSwap(a, b, c);
    XorSwap(Xor(a, c), b, d);
  }

  lemma MixedIs(a: Word, b: Word)
    ensures Mixed(a, b) == (a & 0x80000000) | (b & 0x7fffffff)
  {
  }

  lemma NextForm(a: Word, b: Word, c: Word)
    ensures Next(a, b, c) == Xor(c, TimesA(Mixed(a, b)))
  {
    hide TimesA, Mixed;
  }

  lemma MixedLow(a: Word, b: Word)
    ensures Mixed(a, Xor(b, 1)) == Xor(Mixed(a, b), 1)
  {
  }

  lemma MixedTop(a: Word, b: Word)
    ensures Mixed(Xor(a, 0x80000000), b) == Xor(Mixed(a, b), 0x80000000)
  {
  }

  lemma TimesAForm(y: Word)
    ensures y & 1 == 0 ==> TimesA(y) == y >> 1
    ensures y & 1 != 0 ==> TimesA(y) == Xor(y >> 1, 0x9908b0df)
  {
  }

  lemma FlipLow(y: Word)
    ensures Xor(y, 1) >> 1 == y >> 1 && (Xor(y, 1) & 1 == 0 <==> y & 1 != 0)
  {
  }

  lemma FlipTop(y: Word)
    ensures Xor(y, 0x80000000) >> 1 == Xor(y >> 1, 0x40000000) && Xor(y, 0x80000000) & 1 == y & 1
  {
  }

  lemma XorTwice(a: Word, b: Word)
    ensures Xor(Xor(a, b), b) == a
  {
  }

  lemma TimesALow(y: Word)
    ensures TimesA(Xor(y, 1)) == Xor(TimesA(y), 0x9908b0df)
  {
    hide Xor, TimesA;
    FlipLow(y);
    TimesAForm(y);
    TimesAForm(Xor(y, 1));
    XorTwice(y >> 1, 0x9908b0df);
  }

  lemma TimesATop(y: Word)
    ensures TimesA(Xor(y, 0x80000000)) == Xor(TimesA(y), 0x40000000)
  {
    hide Xor, TimesA;
    FlipTop(y);
    TimesAForm(y);
    TimesAForm(Xor(y, 0x80000000));
    XorSwap(y >> 1, 0x9908b0df, 0x40000000);
  }

  /** Changing one bit of the inputs of the recurrence: the third enters as it is, the lowest bit of
      the second adds the constant of the matrix, and the top bit of the first is shifted by one. */
  lemma NextXor(a: Word, b: Word, c: Word, d: Word)
    ensures Next(a, b, Xor(c, d)) == Xor(Next(a, b, c), d)
    ensures Next(a, Xor(b, 1), c) == Xor(Next(a, b, c), 0x9908b0df)
    ensures Next(Xor(a, 0x80000000), b, c) == Xor(Next(a, b, c), 0x40000000)
  {
    hide Next, Xor, TimesA, Mixed;
    var y := Mixed(a, b);
    NextForm(a, b, c);
    NextForm(a, b, Xor(c, d));
    NextForm(a, Xor(b, 1), c);
    NextForm(Xor(a, 0x80000000), b, c);
    XorSwap(c, d, TimesA(y));
    MixedLow(a, b);
    MixedTop(a, b);
    TimesALow(y);
    TimesATop(y);
    XorSwap(c, TimesA(y), 0x9908b0df);
    XorSwap(c, TimesA(y), 0x40000000);
  }

  lemma Sequence(init: seq<Word>)
    requires |init| == 624
    ensures Term(init, 624) == Next(init[0], init[1], init[397])
  {
    hide Next;
  }

  /** So, for every state: what a change of one word does to word 624. */
  lemma Dependence(init: seq<Word>, d: Word)
    requires |init| == 624
    ensures Term(init[397 := Xor(init[397], d)], 624) == Xor(Term(init, 624), d)
    ensures Term(init[1 := Xor(init[1], 1)], 624) == Xor(Term(init, 624), 0x9908b0df)
    ensures Term(init[0 := Xor(init[0], 0x80000000)], 624) == Xor(Term(init, 624), 0x40000000)
  {
    hide Next, Term, Xor;
    var a, b, c := init[0], init[1], init[397];
    Sequence(init);
    Sequence(init[397 := Xor(c, d)]);
    Sequence(init[1 := Xor(b, 1)]);
    Sequence(init[0 := Xor(a, 0x80000000)]);
    NextXor(a, b, c, d);
  }

  /** No other word enters. */
  lemma OnlyThree(init: seq<Word>, other: seq<Word>)
    requires |init| == |other| == 624 && init[0] == other[0] && init[1] == other[1] && init[397] == other[397]
    ensures Term(init, 624) == Term(other, 624)
  {
    hide Next, Term;
    Sequence(init);
    Sequence(other);
  }

  /** Every later word is made in the same way from the words before it. */
  lemma SameRecurrence(init: seq<Word>, k: nat)
    requires |init| == 624
    ensures var state := seq(624, i requires 0 <= i < 624 => Term(init, k + i)); Term(init, k + 624) == Term(state, 624)
  {
    hide Next;
    Sequence(seq(624, i requires 0 <= i < 624 => Term(init, k + i)));
  }

  // ------------------------------------------------------- never stuck

  lemma AInvertible(y: Word)
    requires TimesA(y) == 0
    ensures y == 0
  {
  }

  lemma MixedZero(a: Word, b: Word)
    ensures Mixed(a, b) == 0 ==> a & UPPER_MASK == 0 && b & LOWER_MASK == 0
    ensures b & LOWER_MASK == 0 && b & UPPER_MASK == 0 ==> b == 0
  {
  }

  lemma XorZero(c: Word, d: Word)
    requires c ^ d == 0 && c == 0
    ensures d == 0
  {
  }

  /** The state from which only zeros come: the top bit of the first word and all the other words
      are zero. */
  ghost predicate Stuck(init: seq<Word>, k: nat)
    requires |init| == N
  {
    Term(init, k) & UPPER_MASK == 0 && forall i :: k < i < k + N ==> Term(init, i) == 0
  }

  /** A stuck state can only come from a stuck state. */
  lemma StuckBefore(init: seq<Word>, k: nat)
    requires |init| == N && Stuck(init, k + 1)
    ensures Stuck(init, k)
  {
    hide Next;
    var a, b, c := Term(init, k), Term(init, k + 1), Term(init, k + M);
    assert Term(init, k + N) == Next(a, b, c);
    NextZero(a, b, c);
  }

  lemma NextZero(a: Word, b: Word, c: Word)
    requires Next(a, b, c) == 0 && c == 0 && b & UPPER_MASK == 0
    ensures a & UPPER_MASK == 0 && b == 0
  {
    XorZero(c, TimesA(Mixed(a, b)));
    AInvertible(Mixed(a, b));
    MixedZero(a, b);
  }

  /** So a generator that does not start stuck never gets stuck. */
  lemma {:induction false} NeverStuck(init: seq<Word>, k: nat)
    requires |init| == N && !Stuck(init, 0)
    ensures !Stuck(init, k)
  {
    if k > 0 {
      NeverStuck(init, k - 1);
      if Stuck(init, k) {
        StuckBefore(init, k - 1);
      }
    }
  }

  // ------------------------------------------------------- tempering

  const MASK_B: Word := 0x9d2c5680
  const MASK_C: Word := 0xefc60000

  function TemperU(y: Word): Word { y ^ (y >> 11) }
  function TemperS(y: Word): Word { y ^ ((y << 7) & MASK_B) }
  function TemperT(y: Word): Word { y ^ ((y << 15) & MASK_C) }
  function TemperL(y: Word): Word { y ^ (y >> 18) }

  function Temper(y: Word): Word {
    TemperL(TemperT(TemperS(TemperU(y))))
  }

  function DoubleU(y: Word): Word { y ^ (y >> 22) }

  function UntemperU(z: Word): Word { TemperU(TemperU(TemperU(z))) }

  function UntemperS(z: Word): Word {
    var a := z ^ ((z << 7) & MASK_B);
    var b := z ^ ((a << 7) & MASK_B);
    var c := z ^ ((b << 7) & MASK_B);
    z ^ ((c << 7) & MASK_B)
  }

  function Untemper(z: Word): Word {
    UntemperU(UntemperS(TemperT(TemperL(z))))
  }

  lemma ShiftedTwice(y: Word)
    ensures (y ^ (y >> 11)) ^ ((y ^ (y >> 11)) >> 11) == y ^ (y >> 22)
    ensures (y ^ (y >> 22)) ^ ((y ^ (y >> 22)) >> 22) == y
    ensures (y ^ (y >> 18)) ^ ((y ^ (y >> 18)) >> 18) == y
  {
  }

  /** Shifting by 11 twice is shifting by 22, which is its own inverse. */
  lemma TwiceU(y: Word)
    ensures TemperU(TemperU(y)) == DoubleU(y)
  {
    calc {
      TemperU(TemperU(y));
      TemperU(y ^ (y >> 11));
      (y ^ (y >> 11)) ^ ((y ^ (y >> 11)) >> 11);
      { ShiftedTwice(y); }
      y ^ (y >> 22);
    }
  }

  lemma TwiceDouble(y: Word)
    ensures DoubleU(DoubleU(y)) == y
  {
    calc {
      DoubleU(DoubleU(y));
      DoubleU(y ^ (y >> 22));
      (y ^ (y >> 22)) ^ ((y ^ (y >> 22)) >> 22);
      { ShiftedTwice(y); }
      y;
    }
  }

  lemma InverseU(y: Word)
    ensures UntemperU(TemperU(y)) == y && TemperU(UntemperU(y)) == y
  {
    hide TemperU, DoubleU;
    TwiceU(y);
    TwiceU(DoubleU(y));
    TwiceDouble(y);
  }

  lemma InverseS(y: Word)
    ensures UntemperS(TemperS(y)) == y && TemperS(UntemperS(y)) == y
  {
  }

  lemma InverseT(y: Word)
    ensures TemperT(TemperT(y)) == y
  {
  }

  lemma InverseL(y: Word)
    ensures TemperL(TemperL(y)) == y
  {
    calc {
      TemperL(TemperL(y));
      TemperL(y ^ (y >> 18));
      (y ^ (y >> 18)) ^ ((y ^ (y >> 18)) >> 18);
      { ShiftedTwice(y); }
      y;
    }
  }

  /** Tempering is a bijection. */
  lemma TemperBijective(y: Word)
    ensures Untemper(Temper(y)) == y && Temper(Untemper(y)) == y
  {
    hide TemperU, TemperS, TemperT, TemperL, UntemperU, UntemperS;
    InverseL(TemperT(TemperS(TemperU(y))));
    InverseT(TemperS(TemperU(y)));
    InverseS(TemperU(y));
    InverseU(y);
    InverseU(UntemperS(TemperT(TemperL(y))));
    InverseS(TemperT(TemperL(y)));
    InverseT(TemperL(y));
    InverseL(y);
  }

  function PartU(y: Word): Word { y >> 11 }
  function PartS(y: Word): Word { (y << 7) & MASK_B }
  function PartT(y: Word): Word { (y << 15) & MASK_C }
  function PartL(y: Word): Word { y >> 18 }

  lemma Forms(y: Word)
    ensures TemperU(y) == Xor(y, y >> 11)
    ensures TemperS(y) == Xor(y, (y << 7) & MASK_B)
    ensures TemperT(y) == Xor(y, (y << 15) & MASK_C)
    ensures TemperL(y) == Xor(y, y >> 18)
  {
  }

  lemma LinearU(a: Word, b: Word)
    ensures TemperU(Xor(a, b)) == Xor(TemperU(a), TemperU(b))
  {
    FormU(a);
    FormU(b);
    FormU(Xor(a, b));
    PartsU(a, b);
    hide Xor, TemperU, PartU;
    XorMedial(a, b, PartU(a), PartU(b));
  }

  lemma FormU(y: Word)
    ensures TemperU(y) == Xor(y, PartU(y))
  {
    hide Xor, TemperU;
    Forms(y);
  }

  lemma LinearS(a: Word, b: Word)
    ensures TemperS(Xor(a, b)) == Xor(TemperS(a), TemperS(b))
  {
    FormS(a);
    FormS(b);
    FormS(Xor(a, b));
    PartsS(a, b);
    hide Xor, TemperS, PartS;
    XorMedial(a, b, PartS(a), PartS(b));
  }

  lemma FormS(y: Word)
    ensures TemperS(y) == Xor(y, PartS(y))
  {
    hide Xor, TemperS;
    Forms(y);
  }

  lemma LinearT(a: Word, b: Word)
    ensures TemperT(Xor(a, b)) == Xor(TemperT(a), TemperT(b))
  {
    FormT(a);
    FormT(b);
    FormT(Xor(a, b));
    PartsT(a, b);
    hide Xor, TemperT, PartT;
    XorMedial(a, b, PartT(a), PartT(b));
  }

  lemma FormT(y: Word)
    ensures TemperT(y) == Xor(y, PartT(y))
  {
    hide Xor, TemperT;
    Forms(y);
  }

  lemma LinearL(a: Word, b: Word)
    ensures TemperL(Xor(a, b)) == Xor(TemperL(a), TemperL(b))
  {
    FormL(a);
    FormL(b);
    FormL(Xor(a, b));
    PartsL(a, b);
    hide Xor, TemperL, PartL;
    XorMedial(a, b, PartL(a), PartL(b));
  }

  lemma FormL(y: Word)
    ensures TemperL(y) == Xor(y, PartL(y))
  {
    hide Xor, TemperL;
    Forms(y);
  }

  lemma PartsU(a: Word, b: Word)
    ensures PartU(Xor(a, b)) == Xor(PartU(a), PartU(b))
  {
  }

  lemma PartsS(a: Word, b: Word)
    ensures PartS(Xor(a, b)) == Xor(PartS(a), PartS(b))
  {
  }

  lemma PartsT(a: Word, b: Word)
    ensures PartT(Xor(a, b)) == Xor(PartT(a), PartT(b))
  {
  }

  lemma PartsL(a: Word, b: Word)
    ensures PartL(Xor(a, b)) == Xor(PartL(a), PartL(b))
  {
  }

  lemma TemperXor(a: Word, b: Word)
    ensures Temper(Xor(a, b)) == Xor(Temper(a), Temper(b))
  {
    hide TemperU, TemperS, TemperT, TemperL, Xor;
    LinearU(a, b);
    LinearS(TemperU(a), TemperU(b));
    LinearT(TemperS(TemperU(a)), TemperS(TemperU(b)));
    LinearL(TemperT(TemperS(TemperU(a))), TemperT(TemperS(TemperU(b))));
  }

  /** Tempering is linear over exclusive or, so its 32 values at single bits determine it. */
  lemma TemperLinear(a: Word, b: Word)
    ensures Temper(a ^ b) == Temper(a) ^ Temper(b)
  {
    hide Temper, Xor;
    TemperXor(a, b);
    XorIs(a, b);
    XorIs(Temper(a), Temper(b));
  }

  lemma TemperLowBits()
    ensures Temper(0x1) == 0x400091 && Temper(0x2) == 0x2 && Temper(0x4) == 0x1020244 && Temper(0x8) == 0x2040489
    ensures Temper(0x10) == 0x10 && Temper(0x20) == 0x8001220 && Temper(0x40) == 0x40 && Temper(0x80) == 0x20404890
    ensures Temper(0x100) == 0x800120 && Temper(0x200) == 0x1000240 && Temper(0x400) == 0x2000480 && Temper(0x800) == 0x4440990
    ensures Temper(0x1000) == 0x8081200 && Temper(0x2000) == 0x1022244 && Temper(0x4000) == 0x22244c81 && Temper(0x8000) == 0x40009010
  {
  }

  lemma TemperHighBits()
    ensures Temper(0x10000) == 0x88013220 && Temper(0x20000) == 0x1020000 && Temper(0x40000) == 0x20444891 && Temper(0x80000) == 0x4880022
    ensures Temper(0x100000) == 0x9100044 && Temper(0x200000) == 0x12200088 && Temper(0x400000) == 0x4440911 && Temper(0x800000) == 0x8881222
    ensures Temper(0x1000000) == 0x81000040 && Temper(0x2000000) == 0x22204888 && Temper(0x4000000) == 0x44009100 && Temper(0x8000000) == 0x88012200
    ensures Temper(0x10000000) == 0x11020440 && Temper(0x20000000) == 0x20040801 && Temper(0x40000000) == 0x44081102 && Temper(0x80000000) == 0x88102204
  {
  }

  // ------------------------------------------------------- seeding

  /** The words that g_rand_set_seed computes from a seed. */
  function Seeded(seed: Word, k: nat): Word
    requires k < N
  {
    if k == 0 then seed else SeedStep(Seeded(seed, k - 1), k)
  }

  function SeedStep(x: Word, k: nat): Word
    requires k < N
  {
    1812433253 * (x ^ (x >> 30)) + k as Word
  }

  /** The words of a seed in numbers, and the first ones of the seed 5489. */
  lemma SeedStepIs(x: Word, k: nat)
    requires k < 624
    ensures SeedStep(x, k) == 1812433253 * (x ^ (x >> 30)) + k as Word
  {
  }

  lemma SeededExample()
    ensures Seeded(5489, 1) == 1301868182 && Seeded(5489, 2) == 2938499221 && Seeded(5489, 3) == 2950281878
  {
    assert Seeded(5489, 0) == 5489;
    assert Seeded(5489, 1) == SeedStep(5489, 1) == 1301868182;
    assert Seeded(5489, 2) == SeedStep(1301868182, 2) == 2938499221;
    assert Seeded(5489, 3) == SeedStep(2938499221, 3) == 2950281878;
  }

  lemma SeedFromZero(x: Word, k: nat)
    requires k < N && x == 0
    ensures SeedStep(x, k) == k as Word
  {
  }

  /** No seed gives a stuck generator. */
  lemma SeededNotStuck(seed: Word, init: seq<Word>)
    requires |init| == N && forall k :: 0 <= k < N ==> init[k] == Seeded(seed, k)
    ensures !Stuck(init, 0)
  {
    hide SeedStep;
    assert Term(init, 1) == Seeded(seed, 1) && Term(init, 2) == SeedStep(Seeded(seed, 1), 2);
    if Term(init, 1) == 0 {
      SeedFromZero(Seeded(seed, 1), 2);
      assert Term(init, 2) == 2;
    }
  }
}
