/** How an unsigned integer survives a conversion to a 32-bit float.

    A block of the bounding-volume hierarchy stores node indices, offsets and counts as
    float32 words. `Round` is the conversion C performs: to nearest, ties to even, on a 24-bit
    significand. Every float32 that is a natural of 2^24 or more is an even one. */
module Float32 {

  /** The bound up to which every natural is a float32. */
  const EXACT: nat := 0x100_0000

  /** The naturals a float32 can hold. */
  predicate IsFloat32(m: nat) {
    m < EXACT || (m % 2 == 0 && IsFloat32(m / 2))
  }

  /** Where a value lies above its integer part. */
  datatype Fraction = Zero | BelowHalf | Half | AboveHalf {
    /** The fraction after halving a value whose integer part ended in bit. */
    function Shift(bit: nat): Fraction {
      if bit == 0 then (if Zero? then Zero else BelowHalf)
      else (if Zero? then Half else AboveHalf)
    }

    ghost predicate Describes(d: real) {
      match this
      case Zero => d == 0.0
      case BelowHalf => 0.0 < d < 0.5
      case Half => d == 0.5
      case AboveHalf => 0.5 < d < 1.0
    }
  }

  /** Shifts n right to 24 bits, keeping what falls off as a fraction, and rounds there. */
  function RoundFrom(n: nat, f: Fraction): nat {
    if n >= EXACT then 2 * RoundFrom(n / 2, f.Shift(n % 2))
    else if f == AboveHalf || (f == Half && n % 2 == 1) then n + 1
    else n
  }

  /** (float) n, as the natural it denotes. */
  function Round(n: nat): nat { RoundFrom(n, Zero) }

  /** (float) n as a word of a block. */
  function Word(n: nat): real { Round(n) as real }

  /** (uint32_t) w: truncation toward zero of a non-negative word. */
  function Index(w: real): (n: nat)
    ensures w < 0.0 ==> n == 0
    ensures w >= 0.0 ==> n as real <= w < n as real + 1.0
  {
    if w < 0.0 then 0 else w.Floor
  }

  function Distance(a: real, b: real): real { if a <= b then b - a else a - b }

  lemma NearestBelow(n: nat, f: Fraction, x: real, m: nat)
    requires f.Describes(x - n as real) && n < EXACT
    ensures IsFloat32(RoundFrom(n, f))
    ensures Distance(RoundFrom(n, f) as real, x) <= Distance(m as real, x)
  {
    assert EXACT / 2 < EXACT;
    if m <= n {
      assert m as real <= n as real;
    } else {
      assert m as real >= n as real + 1.0;
    }
  }

  /** Twice the nearer of two to half of x is the nearer of their doubles to x. */
  lemma Doubled(r: nat, k: nat, x: real)
    requires Distance(r as real, x / 2.0) <= Distance(k as real, x / 2.0)
    ensures Distance((2 * r) as real, x) <= Distance((2 * k) as real, x)
  {
    assert (2 * r) as real == 2.0 * r as real && (2 * k) as real == 2.0 * k as real;
  }

  /** The fraction of half of x. */
  lemma Halved(n: nat, f: Fraction, x: real)
    requires f.Describes(x - n as real)
    ensures n as real <= x && f.Shift(n % 2).Describes(x / 2.0 - (n / 2) as real)
  {
    assert n as real == 2.0 * (n / 2) as real + (n % 2) as real;
  }

  /** A float32 at or above 2^24 is even; below it, the next one is nearer to x. */
  lemma EvenNearest(m: nat, x: real)
    requires IsFloat32(m) && EXACT as real <= x
    ensures var m' := if m % 2 == 0 then m else m + 1;
      IsFloat32(m' / 2) && m' % 2 == 0 && Distance(m' as real, x) <= Distance(m as real, x)
  {
    if m % 2 == 1 {
      assert m as real + 1.0 <= EXACT as real;
    }
  }

  /** What x rounds to is a float32, and no float32 is nearer to x. */
  lemma {:induction false} RoundFromIsNearest(n: nat, f: Fraction, x: real, m: nat)
    requires f.Describes(x - n as real) && IsFloat32(m)
    ensures IsFloat32(RoundFrom(n, f))
    ensures Distance(RoundFrom(n, f) as real, x) <= Distance(m as real, x)
    decreases n
  {
    hide Distance;
    if n >= EXACT {
      var m' := if m % 2 == 0 then m else m + 1;
      var r := RoundFrom(n / 2, f.Shift(n % 2));
      Halved(n, f, x);
      EvenNearest(m, x);
      RoundFromIsNearest(n / 2, f.Shift(n % 2), x / 2.0, m' / 2);
      Doubled(r, m' / 2, x);
    } else {
      NearestBelow(n, f, x, m);
    }
  }

  lemma RoundIsNearest(n: nat, m: nat)
    requires IsFloat32(m)
    ensures IsFloat32(Round(n))
    ensures Distance(Word(n), n as real) <= Distance(m as real, n as real)
  {
    RoundFromIsNearest(n, Zero, n as real, m);
  }

  /** A natural survives the trip through a word exactly when it is a float32. */
  lemma SurvivesIff(n: nat)
    ensures Index(Word(n)) == n <==> IsFloat32(n)
  {
    if IsFloat32(n) {
      RoundIsNearest(n, n);
    } else {
      RoundIsNearest(n, 0);
    }
  }

  lemma ExactUpTo(n: nat)
    requires n <= EXACT
    ensures Index(Word(n)) == n && Word(n) == n as real
  {
    assert IsFloat32(EXACT / 2);
    RoundIsNearest(n, n);
  }

  lemma IndexOfWord(n: nat)
    requires n <= EXACT
    ensures Index(Word(n)) == n
  {
    ExactUpTo(n);
  }

  /** Halfway cases go to the even significand, downwards and upwards. */
  lemma TiesToEven()
    ensures Round(0x100_0001) == 0x100_0000 && Round(0x100_0003) == 0x100_0004
    ensures Round(0x200_0006) == 0x200_0008 && Round(0x200_0005) == 0x200_0004 && Round(0xFFFF_FFFF) == 0x1_0000_0000
  {
  }
}
