/** The integer mixers behind the primitive hashes are bijections of the 64-bit words, so
    distinct keys never collide under one seed. */
module IntegerMix {

  type Word = bv64

  function TimesGolden(x: Word): Word { x * 0x9E3779B97F4A7C15 }
  function OverGolden(x: Word): Word { x * 0xF1DE83E19937733D }
  function TimesFirst(x: Word): Word { x * 0xff51afd7ed558ccd }
  function OverFirst(x: Word): Word { x * 0x4f74430c22a54005 }
  function TimesSecond(x: Word): Word { x * 0xc4ceb9fe1a85ec53 }
  function OverSecond(x: Word): Word { x * 0x9cb4b2f8129337db }
  function Fold33(x: Word): Word { x ^ (x >> 33) }
  function Fold29(x: Word): Word { x ^ (x >> 29) }
  function Unfold29(x: Word): Word { x ^ (x >> 29) ^ (x >> 58) }

  /** The cheap mixer: a product with an odd constant, then one fold of the high bits. */
  function FastIntMix(x: Word): Word { Fold29(TimesGolden(x)) }

  /** Its inverse: the fold unrolled, then the product with the constant's inverse. */
  function FastIntUnmix(y: Word): Word { OverGolden(Unfold29(y)) }

  /** The finalizer: fold, multiply, fold, multiply, fold. */
  function SplitMixFinalize(x: Word): Word {
    Fold33(TimesSecond(Fold33(TimesFirst(Fold33(x)))))
  }

  function SplitMixUnfinalize(y: Word): Word {
    Fold33(OverFirst(Fold33(OverSecond(Fold33(y)))))
  }

  lemma GoldenUndone(x: Word)
    ensures OverGolden(TimesGolden(x)) == x && TimesGolden(OverGolden(x)) == x
  {
    assert OverGolden(x * 0x9E3779B97F4A7C15) == x && TimesGolden(x) == x * 0x9E3779B97F4A7C15;
    assert TimesGolden(x * 0xF1DE83E19937733D) == x && OverGolden(x) == x * 0xF1DE83E19937733D;
  }

  lemma FirstUndone(x: Word)
    ensures OverFirst(TimesFirst(x)) == x && TimesFirst(OverFirst(x)) == x
  {
    assert OverFirst(x * 0xff51afd7ed558ccd) == x && TimesFirst(x) == x * 0xff51afd7ed558ccd;
    assert TimesFirst(x * 0x4f74430c22a54005) == x && OverFirst(x) == x * 0x4f74430c22a54005;
  }

  lemma SecondUndone(x: Word)
    ensures OverSecond(TimesSecond(x)) == x && TimesSecond(OverSecond(x)) == x
  {
    assert OverSecond(x * 0xc4ceb9fe1a85ec53) == x && TimesSecond(x) == x * 0xc4ceb9fe1a85ec53;
    assert TimesSecond(x * 0x9cb4b2f8129337db) == x && OverSecond(x) == x * 0x9cb4b2f8129337db;
  }

  /** A fold by more than half the width undoes itself. */
  lemma Fold33Undone(x: Word)
    ensures Fold33(Fold33(x)) == x
  {
    assert Fold33(x ^ (x >> 33)) == x && Fold33(x) == x ^ (x >> 33);
  }

  lemma Fold29Undone(x: Word)
    ensures Unfold29(Fold29(x)) == x && Fold29(Unfold29(x)) == x
  {
    assert Unfold29(x ^ (x >> 29)) == x && Fold29(x) == x ^ (x >> 29);
    assert Fold29(x ^ (x >> 29) ^ (x >> 58)) == x && Unfold29(x) == x ^ (x >> 29) ^ (x >> 58);
  }

  /** The cheap mixer is a bijection: its inverse undoes it on both sides. */
  lemma FastIntMixBijective(x: Word)
    ensures FastIntUnmix(FastIntMix(x)) == x
    ensures FastIntMix(FastIntUnmix(x)) == x
  {
    hide TimesGolden, OverGolden, Fold29, Unfold29;
    Fold29Undone(TimesGolden(x));
    GoldenUndone(x);
    Fold29Undone(x);
    GoldenUndone(Unfold29(x));
  }

  /** So is the finalizer. */
  lemma SplitMixBijective(x: Word)
    ensures SplitMixUnfinalize(SplitMixFinalize(x)) == x
    ensures SplitMixFinalize(SplitMixUnfinalize(x)) == x
  {
    hide TimesFirst, OverFirst, TimesSecond, OverSecond, Fold33;
    var f := Fold33(x);
    Fold33Undone(x);
    FirstUndone(f);
    Fold33Undone(TimesFirst(f));
    SecondUndone(Fold33(TimesFirst(f)));
    Fold33Undone(TimesSecond(Fold33(TimesFirst(f))));
    SecondUndone(f);
    Fold33Undone(OverSecond(f));
    FirstUndone(Fold33(OverSecond(f)));
    Fold33Undone(OverFirst(Fold33(OverSecond(f))));
  }

  /** The hash of an int64, taken as its two's-complement word. */
  function HashInt64(value: Word, seed: Word): Word { FastIntMix(value ^ seed) }

  function Widen(value: bv32): Word { value as Word }
  function WithHighOnes(x: Word): Word { x | 0xFFFF_FFFF_0000_0000 }
  function LowHalf(x: Word): Word { x & 0xFFFF_FFFF }
  predicate IsNegative(value: bv32) { value & 0x8000_0000 != 0 }

  /** The word of the int64 that a 32-bit word's sign extends it to. */
  function SignExtend(value: bv32): Word {
    if IsNegative(value) then WithHighOnes(Widen(value)) else Widen(value)
  }

  function HashInt32(value: bv32, seed: Word): Word { FastIntMix(SignExtend(value) ^ seed) }

  function Flag(value: bool): Word { if value then 1 else 0 }

  function HashBoolean(value: bool, seed: Word): Word {
    SplitMixFinalize(Flag(value) ^ seed)
  }

  lemma XorInjective(x: Word, y: Word, seed: Word)
    ensures x ^ seed == y ^ seed <==> x == y
  {
    assert (x ^ seed) ^ seed == x && (y ^ seed) ^ seed == y;
  }

  /** Under one seed two int64 hashes agree only on equal values. */
  lemma Int64NeverCollides(a: Word, b: Word, seed: Word)
    ensures HashInt64(a, seed) == HashInt64(b, seed) <==> a == b
  {
    FastIntMixBijective(a ^ seed);
    FastIntMixBijective(b ^ seed);
    XorInjective(a, b, seed);
  }

  lemma SignExtendInjective(a: bv32, b: bv32)
    ensures SignExtend(a) == SignExtend(b) <==> a == b
  {
    hide Widen, WithHighOnes, LowHalf, IsNegative;
    LowOfWide(a);
    LowOfWide(b);
    WidenInjective(a, b);
  }

  lemma LowOfWide(a: bv32)
    ensures LowHalf(Widen(a)) == Widen(a)
    ensures LowHalf(WithHighOnes(Widen(a))) == Widen(a)
  {
    hide Widen, WithHighOnes;
    LowOfLiteral(a);
    WideAs(a);
  }

  lemma LowOfLiteral(a: bv32)
    ensures LowHalf(a as Word) == a as Word
    ensures LowHalf((a as Word) | 0xFFFF_FFFF_0000_0000) == a as Word
  {
  }

  lemma WideAs(a: bv32)
    ensures Widen(a) == a as Word && WithHighOnes(a as Word) == (a as Word) | 0xFFFF_FFFF_0000_0000
  {
  }

  lemma WidenInjective(a: bv32, b: bv32)
    ensures Widen(a) == Widen(b) <==> a == b
  {
    hide Widen;
    WideAs(a);
    WideAs(b);
  }

  /** Nor do two int32 hashes; and an int32 hashes as the int64 of the same number. */
  lemma Int32NeverCollides(a: bv32, b: bv32, seed: Word)
    ensures HashInt32(a, seed) == HashInt32(b, seed) <==> a == b
    ensures HashInt32(a, seed) == HashInt64(SignExtend(a), seed)
  {
    Int64NeverCollides(SignExtend(a), SignExtend(b), seed);
    SignExtendInjective(a, b);
  }

  lemma SplitMixNeverCollides(x: Word, y: Word, seed: Word)
    ensures SplitMixFinalize(x ^ seed) == SplitMixFinalize(y ^ seed) <==> x == y
  {
    hide SplitMixFinalize, SplitMixUnfinalize;
    SplitMixBijective(x ^ seed);
    SplitMixBijective(y ^ seed);
    XorInjective(x, y, seed);
  }

  /** Nor do two booleans' hashes. */
  lemma BooleanNeverCollides(a: bool, b: bool, seed: Word)
    ensures HashBoolean(a, seed) == HashBoolean(b, seed) <==> a == b
  {
    hide HashBoolean, SplitMixFinalize, Flag;
    FlagHash(a, seed);
    FlagHash(b, seed);
    SplitMixNeverCollides(Flag(a), Flag(b), seed);
    FlagInjective(a, b);
  }

  lemma FlagHash(value: bool, seed: Word)
    ensures HashBoolean(value, seed) == SplitMixFinalize(Flag(value) ^ seed)
  {
    hide SplitMixFinalize, Flag;
  }

  lemma FlagInjective(a: bool, b: bool)
    ensures Flag(a) == Flag(b) <==> a == b
  {
  }

  /** The mixers on fixed words: the constants and the folds. */
  lemma MixersOnWords()
    ensures FastIntMix(1) == 0x9e3779bd8ef1b1de && FastIntMix(5) == 0x1715609fc4df6892
    ensures FastIntMix(0xffff_ffff_ffff_ffff) == 0x61c886458ef1b1df
  {
  }

  lemma FinalizerOnWords()
    ensures SplitMixFinalize(1) == 0xb456bcfc34c2cb2c && SplitMixFinalize(5) == 0xd66ad737d54c5575
    ensures SplitMixFinalize(0) == 0
  {
  }

  /** The hashes on fixed values: the seed is mixed in by exclusive or, an int32 extends its sign, and
      true and false hash as 1 and 0. */
  lemma HashesOnValues()
    ensures HashInt64(4, 1) == 0x1715609fc4df6892
    ensures HashInt32(0xffff_ffff, 0) == 0x61c886458ef1b1df && HashInt32(5, 0) == 0x1715609fc4df6892
    ensures HashBoolean(true, 4) == 0xd66ad737d54c5575 && HashBoolean(false, 5) == 0xd66ad737d54c5575
  {
    hide FastIntMix, SplitMixFinalize;
    MixersOnWords();
    FinalizerOnWords();
    SignsOnValues();
  }

  lemma SignsOnValues()
    ensures SignExtend(0xffff_ffff) == 0xffff_ffff_ffff_ffff && SignExtend(5) == 5
    ensures (4 as Word) ^ 1 == 5
  {
  }
}
