/** The synthetic compile benchmark's reference run: one object per class, four passes of dynamic
    dispatch, a last pass of folds. Every quantity is computed in Word, whose operations are all
    checked to stay in [0, 2^41). */
module SynthProgram {
  import opened Basics

  const LIMIT: int := 0x200_0000_0000
  newtype Word = x: int | 0 <= x < LIMIT

  const M: Word := 1000003
  const MOD: nat := 1000003
  const ROUNDS: nat := 4

  /** The constants of one class and the seed of its fields. */
  datatype Consts = Consts(a: nat, b: nat, c: nat, d: nat, s: nat) {
    predicate InRange() {
      3 <= a < 900003 && 1 <= b < 1000001 && 1 <= c < 1000001 && 2 <= d < 99 && 1 <= s < 1001
    }

    /** The fields the constructor computes. */
    function X(): nat { (s * a + b) % MOD }
    function Y(): nat { (s * d + c) % MOD }
  }

  /** The eight rounds of step with nothing reduced on the way. */
  function Raw(k: Consts, v: nat, i: nat): nat {
    if i == 0 then v else Raw(k, v, i - 1) * k.a + k.b + (i - 1)
  }

  lemma RawStep(k: Consts, v: nat, i: nat)
    ensures (Raw(k, v, i) % MOD * k.a + k.b + i) % MOD == Raw(k, v, i + 1) % MOD
    ensures Raw(k, v, 0) == v
  {
    ReduceLate(Raw(k, v, i), k.a, k.b + i);
  }

  function StepOf(k: Consts, v: nat): nat { Raw(k, v, 8) % MOD }

  function MixOf(k: Consts, v: nat, w: nat): nat {
    if v > w then (v - w + k.c) % MOD else (w - v + k.a) % MOD
  }

  /** The six rounds of fold at once: one to six make twenty-one. */
  function FoldOf(k: Consts, v: nat): nat { (21 * (v % 1024) + 6 * k.X()) % MOD }

  function ApplyOf(k: Consts, v: nat): nat {
    var t := MixOf(k, StepOf(k, v), k.Y());
    (MixOf(k, t, FoldOf(k, t)) * k.d + k.X()) % MOD
  }

  /** A product and sum reduced early or late. */
  lemma ReduceLate(p: nat, a: nat, c: nat)
    ensures (p % MOD * a + c) % MOD == (p * a + c) % MOD
  {
    var q, r := p / MOD, p % MOD;
    var t, u := (r * a + c) / MOD, (r * a + c) % MOD;
    assert p * a + c == (q * MOD + r) * a + c;
    assert (q * MOD + r) * a == q * a * MOD + r * a;
    RemainderUnique(p * a + c, MOD, q * a + t, u);
  }

  lemma ProductFits(r: nat, a: nat)
    requires r < MOD && a < MOD
    ensures r * a <= (MOD - 1) * (MOD - 1)
  {
    MulMono(r, MOD - 1, a);
    MulMono(a, MOD - 1, MOD - 1);
  }

  class Obj {
    const A: Word
    const B: Word
    const C: Word
    const D: Word
    const x: Word
    const y: Word
    var calls: Word

    /** The object of the class with these constants. */
    ghost predicate Of(k: Consts) {
      && k.InRange() && A as int == k.a && B as int == k.b && C as int == k.c && D as int == k.d
      && x as int == k.X() && y as int == k.Y()
    }

    constructor (k: Consts)
      requires k.InRange()
      ensures Of(k) && calls == 0
    {
      ProductFits(k.s, k.a);
      ProductFits(k.s, k.d);
      var a, b, c, d, s := k.a as Word, k.b as Word, k.c as Word, k.d as Word, k.s as Word;
      A, B, C, D := a, b, c, d;
      x := (s * a + b) % M;
      y := (s * d + c) % M;
      calls := 0;
    }

    method Step(v: Word, ghost k: Consts) returns (r: Word)
      requires Of(k) && v < M
      ensures r as int == StepOf(k, v as int)
    {
      hide Raw;
      r := v;
      RawStep(k, v as int, 0);
      var i: Word := 0;
      while i < 8
        invariant i <= 8 && r < M && r as int == Raw(k, v as int, i as int) % MOD
      {
        ProductFits(r as int, k.a);
        RawStep(k, v as int, i as int);
        r := (r * A + B + i) % M;
        i := i + 1;
      }
    }

    method Mix(v: Word, w: Word, ghost k: Consts) returns (r: Word)
      requires Of(k) && v < M && w < M
      ensures r as int == MixOf(k, v as int, w as int) && r < M
    {
      if v > w {
        return (v - w + C) % M;
      }
      return (w - v + A) % M;
    }

    method Fold(v: Word, ghost k: Consts) returns (r: Word)
      requires Of(k)
      ensures r as int == FoldOf(k, v as int) && r < M
    {
      r := 0;
      var i: Word := 0;
      while i < 6
        invariant i <= 6 && r < M && r as int == FoldRaw(v as int % 1024, k.X(), i as int) % MOD
      {
        ReduceLate(FoldRaw(v as int % 1024, k.X(), i as int), 1, v as int % 1024 * (i as int + 1) + k.X());
        r := (r + (v % 1024) * (i + 1) + x) % M;
        i := i + 1;
      }
      FoldRawSix(v as int % 1024, k.X());
    }

    method Twist(v: Word, ghost k: Consts) returns (r: Word)
      requires Of(k) && v < M
      ensures r as int == MixOf(k, StepOf(k, v as int), k.Y()) && r < M
    {
      var s := Step(v, k);
      r := Mix(s, y, k);
    }

    method Count() returns (c: Word)
      requires calls as int + 1 < LIMIT
      modifies this
      ensures c == calls == old(calls) + 1
    {
      calls := calls + 1;
      return calls;
    }

    method Apply(v: Word, ghost k: Consts) returns (r: Word)
      requires Of(k) && v < M && calls as int + 1 < LIMIT
      modifies this
      ensures r as int == ApplyOf(k, v as int) && r < M && calls == old(calls) + 1
    {
      var _ := Count();
      var t := Twist(v, k);
      var f := Fold(t, k);
      var m := Mix(t, f, k);
      ProductFits(m as int, k.d);
      r := (m * D + x) % M;
    }
  }

  /** The rounds of fold with nothing reduced on the way. */
  function FoldRaw(low: nat, x: nat, i: nat): nat {
    if i == 0 then 0 else FoldRaw(low, x, i - 1) + low * i + x
  }

  lemma FoldRawSix(low: nat, x: nat)
    ensures FoldRaw(low, x, 6) == 21 * low + 6 * x
  {
    assert FoldRaw(low, x, 1) == low + x;
    assert FoldRaw(low, x, 2) == 3 * low + 2 * x;
    assert FoldRaw(low, x, 3) == 6 * low + 3 * x;
    assert FoldRaw(low, x, 4) == 10 * low + 4 * x;
  }

  /** One pass over the objects of these constants, each applied to what the one before gave. */
  function PassOf(ks: seq<Consts>, v: nat): nat {
    if ks == [] then v else ApplyOf(ks[|ks| - 1], PassOf(ks[..|ks| - 1], v))
  }

  function PassesOf(ks: seq<Consts>, v: nat, rounds: nat): nat {
    if rounds == 0 then v else PassOf(ks, PassesOf(ks, v, rounds - 1))
  }

  /** The last pass: each class's fold of the value and the class's number, added on. */
  function TailOf(ks: seq<Consts>, v: nat): nat {
    if ks == [] then v
    else
      var p := TailOf(ks[..|ks| - 1], v);
      (p + FoldOf(ks[|ks| - 1], p + (|ks| - 1))) % MOD
  }

  function ChecksumOf(ks: seq<Consts>): nat { TailOf(ks, PassesOf(ks, 1, ROUNDS)) }

  /** One object for each class, all different. */
  ghost predicate Stages(objs: seq<Obj>, ks: seq<Consts>) {
    && |objs| == |ks| && (forall i :: 0 <= i < |objs| ==> objs[i].Of(ks[i]))
    && forall i, j :: 0 <= i < j < |objs| ==> objs[i] != objs[j]
  }

  method Build(ks: seq<Consts>) returns (objs: seq<Obj>)
    requires forall k :: k in ks ==> k.InRange()
    ensures Stages(objs, ks) && fresh(objs) && forall o :: o in objs ==> o.calls == 0
  {
    objs := [];
    var i := 0;
    while i < |ks|
      invariant i <= |ks| && Stages(objs, ks[..i]) && fresh(objs) && forall o :: o in objs ==> o.calls == 0
    {
      var o := new Obj(ks[i]);
      objs := objs + [o];
      i := i + 1;
    }
    assert ks[..|ks|] == ks;
  }

  method Pass(objs: seq<Obj>, start: Word, n: Word, ghost ks: seq<Consts>) returns (v: Word)
    requires Stages(objs, ks) && start < M && n as int + 1 < LIMIT && forall o :: o in objs ==> o.calls == n
    modifies objs
    ensures v as int == PassOf(ks, start as int) && v < M && forall o :: o in objs ==> o.calls == n + 1
  {
    v := start;
    var j := 0;
    while j < |objs|
      invariant j <= |objs| && v < M && v as int == PassOf(ks[..j], start as int)
      invariant forall i :: 0 <= i < |objs| ==> objs[i].calls == if i < j then n + 1 else n
    {
      assert ks[..j + 1][..j] == ks[..j];
      v := objs[j].Apply(v, ks[j]);
      j := j + 1;
    }
    assert ks[..|ks|] == ks;
  }

  /** Each class's fold, through its own type and a new object. */
  method Tail(ks: seq<Consts>, start: Word) returns (v: Word)
    requires ROUNDS * |ks| < LIMIT && start < M && forall k :: k in ks ==> k.InRange()
    ensures v as int == TailOf(ks, start as int) && v < M
  {
    hide FoldOf;
    v := start;
    var i := 0;
    while i < |ks|
      invariant i <= |ks| && v < M && v as int == TailOf(ks[..i], start as int)
    {
      assert ks[..i + 1][..i] == ks[..i];
      var d := new Obj(ks[i]);
      var f := d.Fold(v + i as Word, ks[i]);
      v := (v + f) % M;
      i := i + 1;
    }
    assert ks[..|ks|] == ks;
  }

  method Total(objs: seq<Obj>) returns (calls: Word)
    requires ROUNDS * |objs| < LIMIT && forall o :: o in objs ==> o.calls == 4
    ensures calls as int == ROUNDS * |objs|
  {
    calls := 0;
    var j := 0;
    while j < |objs|
      invariant j <= |objs| && calls as int == ROUNDS * j
    {
      assert objs[j] in objs;
      calls := calls + objs[j].calls;
      j := j + 1;
    }
  }

  /** The whole run, for any number of classes whose calls can be counted in a Word: no step leaves
      [0, 2^41), the checksum is below M, and every class was called once a round. */
  method Run(ks: seq<Consts>) returns (checksum: Word, calls: Word)
    requires ROUNDS * |ks| < LIMIT && forall k :: k in ks ==> k.InRange()
    ensures checksum as int == ChecksumOf(ks) && checksum < M && calls as int == ROUNDS * |ks|
  {
    hide TailOf, PassOf;
    var objs := Build(ks);
    var v: Word := 1;
    var round: Word := 0;
    while round < 4
      invariant round <= 4 && v < M && v as int == PassesOf(ks, 1, round as int)
      invariant forall o :: o in objs ==> o.calls == round
    {
      v := Pass(objs, v, round, ks);
      round := round + 1;
    }
    calls := Total(objs);
    checksum := Tail(ks, v);
  }

  /** The quotient towards zero, and towards minus infinity, by a positive divisor. */
  function Truncated(a: int, b: int): int
    requires b > 0
  {
    if a >= 0 then a / b else -(-a / b)
  }

  function Floored(a: int, b: int): int
    requires b > 0
  {
    a / b
  }

  /** The renderings' remainder and the reference's agree exactly on what is not negative or is a
      multiple. */
  lemma RemaindersAgreeIff(a: int, b: int)
    requires b > 0
    ensures a - Truncated(a, b) * b == a - Floored(a, b) * b <==> a >= 0 || a % b == 0
  {
    if a < 0 {
      var q, r := a / b, a % b;
      assert a == q * b + r;
      assert -a == -q * b - r;
      if r == 0 {
        RemainderUnique(-a, b, -q, 0);
      } else {
        assert -a == (-q - 1) * b + (b - r);
        RemainderUnique(-a, b, -q - 1, b - r);
      }
    }
  }

  type Bits = bv64

  function Left13(x: Bits): Bits { x ^ (x << 13) }
  function Right7(x: Bits): Bits { x ^ (x >> 7) }
  function Left17(x: Bits): Bits { x ^ (x << 17) }
  function Unleft13(x: Bits): Bits { x ^ (x << 13) ^ (x << 26) ^ (x << 39) ^ (x << 52) }
  function Unleft17(x: Bits): Bits { x ^ (x << 17) ^ (x << 34) ^ (x << 51) }
  function Unright7(x: Bits): Bits {
    x ^ (x >> 7) ^ (x >> 14) ^ (x >> 21) ^ (x >> 28) ^ (x >> 35) ^ (x >> 42) ^ (x >> 49) ^ (x >> 56) ^ (x >> 63)
  }

  /** One step of the generator. */
  function Xorshift(x: Bits): Bits { Left17(Right7(Left13(x))) }
  function Unxorshift(y: Bits): Bits { Unleft13(Unright7(Unleft17(y))) }

  lemma Left13Undone(x: Bits)
    ensures Unleft13(Left13(x)) == x
  {
    assert Unleft13(x ^ (x << 13)) == x && Left13(x) == x ^ (x << 13);
  }

  lemma Right7Undone(x: Bits)
    ensures Unright7(Right7(x)) == x
  {
    assert Unright7(x ^ (x >> 7)) == x && Right7(x) == x ^ (x >> 7);
  }

  lemma Left17Undone(x: Bits)
    ensures Unleft17(Left17(x)) == x
  {
    assert Unleft17(x ^ (x << 17)) == x && Left17(x) == x ^ (x << 17);
  }

  /** No two states step to the same one. */
  lemma XorshiftUndone(x: Bits)
    ensures Unxorshift(Xorshift(x)) == x
  {
    hide Left13, Right7, Left17, Unleft13, Unright7, Unleft17;
    Left13Undone(x);
    Right7Undone(Left13(x));
    Left17Undone(Right7(Left13(x)));
  }

  lemma UnxorshiftZero()
    ensures Unxorshift(0) == 0
  {
  }

  /** The state after j steps. */
  function State(seed: Bits, j: nat): Bits {
    if j == 0 then seed else Xorshift(State(seed, j - 1))
  }

  /** The generator never sticks at zero. */
  lemma {:induction false} NeverZero(seed: Bits, j: nat)
    requires seed != 0
    ensures State(seed, j) != 0
  {
    hide Xorshift, Unxorshift;
    if j > 0 {
      NeverZero(seed, j - 1);
      XorshiftUndone(State(seed, j - 1));
      UnxorshiftZero();
    }
  }

  /** The constants made of the five numbers that follow state j. */
  function Drawn(seed: Bits, j: nat): (k: Consts)
    ensures k.InRange()
  {
    Consts(State(seed, j + 1) as nat % 900000 + 3, State(seed, j + 2) as nat % 1000000 + 1,
           State(seed, j + 3) as nat % 1000000 + 1, State(seed, j + 4) as nat % 97 + 2,
           State(seed, j + 5) as nat % 1000 + 1)
  }

  class Generator {
    var x: Bits

    constructor (seed: Bits)
      ensures x == seed
    {
      x := seed;
    }

    method Next() returns (r: Bits)
      modifies this
      ensures r == x == Xorshift(old(x))
    {
      hide Left13, Right7, Left17;
      x := Left13(x);
      x := Right7(x);
      x := Left17(x);
      return x;
    }
  }

  /** The constants of the next class, from the next five numbers. */
  method Draw(rng: Generator, ghost seed: Bits, ghost j: nat) returns (k: Consts)
    requires rng.x == State(seed, j)
    modifies rng
    ensures k == Drawn(seed, j) && rng.x == State(seed, j + 5)
  {
    hide Xorshift;
    var a := rng.Next();
    assert a == State(seed, j + 1);
    var b := rng.Next();
    assert b == State(seed, j + 2);
    var c := rng.Next();
    assert c == State(seed, j + 3);
    var d := rng.Next();
    assert d == State(seed, j + 4);
    var s := rng.Next();
    assert s == State(seed, j + 5);
    k := Consts(a as nat % 900000 + 3, b as nat % 1000000 + 1, c as nat % 1000000 + 1,
                d as nat % 97 + 2, s as nat % 1000 + 1);
  }

  /** The model's constants: five numbers for each class, all in their ranges. */
  method DrawAll(n: nat, seed: Bits) returns (ks: seq<Consts>)
    ensures |ks| == n && forall i :: 0 <= i < n ==> ks[i] == Drawn(seed, 5 * i)
  {
    hide Xorshift, Drawn, State;
    var rng := new Generator(seed);
    StateZero(seed);
    ks := [];
    var i := 0;
    while i < n
      invariant i <= n && |ks| == i && rng.x == State(seed, 5 * i) && fresh(rng)
      invariant forall h :: 0 <= h < i ==> ks[h] == Drawn(seed, 5 * h)
    {
      var k := Draw(rng, seed, 5 * i);
      ks := ks + [k];
      i := i + 1;
    }
  }

  lemma StateZero(seed: Bits)
    ensures State(seed, 0) == seed
  {
  }

  /** A call in steps, from the eight rounds with nothing reduced. */
  lemma Applied(k: Consts, v: nat, raw: nat, t: nat, m: nat)
    requires Raw(k, v, 8) == raw && MixOf(k, raw % MOD, k.Y()) == t && MixOf(k, t, FoldOf(k, t)) == m
    ensures ApplyOf(k, v) == (m * k.d + k.X()) % MOD
  {
    hide Raw, MixOf, FoldOf;
  }

  /** The eight rounds of two classes on small values, and both ways of mixing. */
  lemma SmallSteps()
    ensures StepOf(Consts(3, 1, 2, 2, 1), 1) == 11477 && StepOf(Consts(5, 7, 11, 3, 2), 1) == 98626
    ensures MixOf(Consts(5, 7, 11, 3, 2), 9, 4) == 16 && MixOf(Consts(5, 7, 11, 3, 2), 4, 9) == 10
    ensures MixOf(Consts(5, 7, 11, 3, 2), 4, 4) == 5 && FoldOf(Consts(5, 7, 11, 3, 2), 1030) == 228
  {
    assert Raw(Consts(3, 1, 2, 2, 1), 1, 4) == 139 && Raw(Consts(5, 7, 11, 3, 2), 1, 4) == 1755;
  }

  lemma AppliedA1()
    ensures ApplyOf(Consts(3, 1, 2, 2, 1), 1) == 14048
  {
    var k := Consts(3, 1, 2, 2, 1);
    assert Raw(k, 1, 2) == 14;
    assert Raw(k, 1, 4) == 139;
    assert Raw(k, 1, 6) == 1272;
    Applied(k, 1, 11477, 11475, 7022);
  }

  lemma AppliedA2()
    ensures ApplyOf(Consts(3, 1, 2, 2, 1), 571448) == 493216
  {
    var k := Consts(3, 1, 2, 2, 1);
    assert Raw(k, 571448, 2) == 5143037;
    assert Raw(k, 571448, 4) == 46287346;
    assert Raw(k, 571448, 6) == 416586135;
    Applied(k, 571448, 3749275244, 263995, 246606);
  }

  lemma AppliedA3()
    ensures ApplyOf(Consts(3, 1, 2, 2, 1), 873901) == 266005
  {
    var k := Consts(3, 1, 2, 2, 1);
    assert Raw(k, 873901, 2) == 7865114;
    assert Raw(k, 873901, 4) == 70786039;
    assert Raw(k, 873901, 6) == 637074372;
    Applied(k, 873901, 5733669377, 652176, 633002);
  }

  lemma AppliedA4()
    ensures ApplyOf(Consts(3, 1, 2, 2, 1), 775321) == 727277
  {
    var k := Consts(3, 1, 2, 2, 1);
    assert Raw(k, 775321, 2) == 6977894;
    assert Raw(k, 775321, 4) == 62801059;
    assert Raw(k, 775321, 6) == 565209552;
    Applied(k, 775321, 5086885997, 870737, 863638);
  }

  lemma AppliedB1()
    ensures ApplyOf(Consts(5, 7, 11, 3, 2), 14048) == 571448
  {
    var k := Consts(5, 7, 11, 3, 2);
    assert Raw(k, 14048, 2) == 351243;
    assert Raw(k, 14048, 4) == 8781130;
    assert Raw(k, 14048, 6) == 219528317;
    Applied(k, 14048, 5488208004, 191534, 190477);
  }

  lemma AppliedB2()
    ensures ApplyOf(Consts(5, 7, 11, 3, 2), 493216) == 873901
  {
    var k := Consts(5, 7, 11, 3, 2);
    assert Raw(k, 493216, 2) == 12330443;
    assert Raw(k, 493216, 4) == 308261130;
    assert Raw(k, 493216, 6) == 7706528317;
    Applied(k, 493216, 192663208004, 630012, 624629);
  }

  lemma AppliedB3()
    ensures ApplyOf(Consts(5, 7, 11, 3, 2), 266005) == 775321
  {
    var k := Consts(5, 7, 11, 3, 2);
    assert Raw(k, 266005, 2) == 6650168;
    assert Raw(k, 266005, 4) == 166254255;
    assert Raw(k, 266005, 6) == 4156356442;
    Applied(k, 266005, 103908911129, 599399, 591769);
  }

  lemma AppliedB4()
    ensures ApplyOf(Consts(5, 7, 11, 3, 2), 727277) == 257497
  {
    var k := Consts(5, 7, 11, 3, 2);
    assert Raw(k, 727277, 2) == 18181968;
    assert Raw(k, 727277, 4) == 454549255;
    assert Raw(k, 727277, 6) == 11363731442;
    Applied(k, 727277, 284093286129, 433847, 419161);
  }

  lemma PassOfTwo(p: Consts, q: Consts, u: nat, v: nat, w: nat, rounds: nat)
    requires PassesOf([p, q], 1, rounds) == u && ApplyOf(p, u) == v && ApplyOf(q, v) == w
    ensures PassesOf([p, q], 1, rounds + 1) == w
  {
    hide ApplyOf;
    assert [p, q][..1] == [p] && [p][..0] == [];
    assert PassOf([p], u) == v;
  }

  lemma TailOfTwo(p: Consts, q: Consts, u: nat, v: nat, w: nat)
    requires (u + FoldOf(p, u)) % MOD == v && (v + FoldOf(q, v + 1)) % MOD == w
    ensures TailOf([p, q], u) == w
  {
    hide FoldOf;
    assert [p, q][..1] == [p] && [p][..0] == [];
    assert TailOf([p], u) == v;
  }

  /** The checksum of a program of two classes. */
  lemma TwoClasses()
    ensures ChecksumOf([Consts(3, 1, 2, 2, 1), Consts(5, 7, 11, 3, 2)]) == 271567
  {
    hide ApplyOf, PassOf, TailOf, FoldOf;
    var p, q := Consts(3, 1, 2, 2, 1), Consts(5, 7, 11, 3, 2);
    assert PassesOf([p, q], 1, 0) == 1;
    hide PassesOf;
    FirstPasses(p, q);
    LastPasses(p, q);
    LastFolds();
    TailOfTwo(p, q, 257497, 267454, 271567);
  }

  lemma LastFolds()
    ensures FoldOf(Consts(3, 1, 2, 2, 1), 257497) == 9957 && FoldOf(Consts(5, 7, 11, 3, 2), 267455) == 4113
  {
  }

  lemma FirstPasses(p: Consts, q: Consts)
    requires p == Consts(3, 1, 2, 2, 1) && q == Consts(5, 7, 11, 3, 2) && PassesOf([p, q], 1, 0) == 1
    ensures PassesOf([p, q], 1, 2) == 873901
  {
    hide ApplyOf, PassesOf;
    AppliedA1();
    AppliedB1();
    AppliedA2();
    AppliedB2();
    PassOfTwo(p, q, 1, 14048, 571448, 0);
    PassOfTwo(p, q, 571448, 493216, 873901, 1);
  }

  lemma LastPasses(p: Consts, q: Consts)
    requires p == Consts(3, 1, 2, 2, 1) && q == Consts(5, 7, 11, 3, 2) && PassesOf([p, q], 1, 2) == 873901
    ensures PassesOf([p, q], 1, 4) == 257497
  {
    hide ApplyOf, PassesOf;
    AppliedA3();
    AppliedB3();
    AppliedA4();
    AppliedB4();
    PassOfTwo(p, q, 873901, 266005, 775321, 2);
    PassOfTwo(p, q, 775321, 727277, 257497, 3);
  }

  /** The generator's first five numbers. */
  lemma FirstNumbers()
    ensures State(0x5EEDC0DE20261025, 1) == 0x369d471ebd6cf545 && State(0x5EEDC0DE20261025, 2) == 0x4466e695fe5dddef
    ensures State(0x5EEDC0DE20261025, 3) == 0xfa5cc33b0243fd94 && State(0x5EEDC0DE20261025, 4) == 0xca94e220a5d49f6f
    ensures State(0x5EEDC0DE20261025, 5) == 0xf89353dd19770d91
  {
    hide Xorshift;
    FirstSteps();
    var seed := 0x5EEDC0DE20261025;
    assert State(seed, 0) == seed;
    assert State(seed, 1) == Xorshift(State(seed, 0)) && State(seed, 2) == Xorshift(State(seed, 1));
    assert State(seed, 3) == Xorshift(State(seed, 2)) && State(seed, 4) == Xorshift(State(seed, 3));
  }

  lemma FirstSteps()
    ensures Xorshift(0x5EEDC0DE20261025) == 0x369d471ebd6cf545 && Xorshift(0x369d471ebd6cf545) == 0x4466e695fe5dddef
    ensures Xorshift(0x4466e695fe5dddef) == 0xfa5cc33b0243fd94 && Xorshift(0xfa5cc33b0243fd94) == 0xca94e220a5d49f6f
    ensures Xorshift(0xca94e220a5d49f6f) == 0xf89353dd19770d91
  {
  }

  /** The constants of the first class. */
  lemma FirstClass()
    ensures Drawn(0x5EEDC0DE20261025, 0) == Consts(307016, 666672, 861397, 46, 42)
  {
    hide State, Xorshift;
    FirstNumbers();
    FirstFields();
    LastFields();
  }

  lemma FirstFields()
    ensures (0x369d471ebd6cf545 as Bits) as nat % 900000 == 307013
    ensures (0x4466e695fe5dddef as Bits) as nat % 1000000 == 666671
  {
  }

  lemma LastFields()
    ensures (0xfa5cc33b0243fd94 as Bits) as nat % 1000000 == 861396
    ensures (0xca94e220a5d49f6f as Bits) as nat % 97 == 44 && (0xf89353dd19770d91 as Bits) as nat % 1000 == 41
  {
  }
}
