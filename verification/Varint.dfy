/** The 64-bit integers, signed bytes and varints the emitted wire codecs share. */
module Varint {
  import opened Basics

  const TWO63: int := 0x8000_0000_0000_0000
  const TWO64: int := 0x1_0000_0000_0000_0000

  predicate IsInt64(v: int) { -TWO63 <= v < TWO63 }
  predicate IsInt32(v: int) { -0x8000_0000 <= v < 0x8000_0000 }

  newtype Int8 = x: int | -128 <= x < 128

  /** (int8) x: the low byte, read as a signed one. */
  function ToInt8(x: int): (b: Int8)
    ensures Unsigned(b) == x % 256
  {
    var u := x % 256;
    (if u >= 128 then u - 256 else u) as Int8
  }

  /** ((int64) b) & 255. */
  function Unsigned(b: Int8): (u: nat)
    ensures u < 256 && u == b as int % 256
  {
    if b < 0 then b as int + 256 else b as int
  }

  /** A sum, difference or shift brought back to 64 bits. */
  function Wrap64(x: int): (v: int)
    ensures IsInt64(v) && (IsInt64(x) ==> v == x) && v % TWO64 == x % TWO64
  {
    var u := x % TWO64;
    if u >= TWO63 then u - TWO64 else u
  }

  /** (int32) x. */
  function Wrap32(x: int): (v: int)
    ensures IsInt32(v) && (IsInt32(x) ==> v == x) && v % 0x1_0000_0000 == x % 0x1_0000_0000
  {
    var u := x % 0x1_0000_0000;
    if u >= 0x8000_0000 then u - 0x1_0000_0000 else u
  }

  /** The bytes the writer emits for v: seven bits a byte, the last one below 128. Any value below
      128, negative ones included, stops it at once. */
  function VarBytes(v: int): (bytes: seq<Int8>)
    ensures |bytes| >= 1
    decreases if v < 0 then 0 else v
  {
    if v >= 128 then [ToInt8(v % 128 + 128)] + VarBytes(v / 128) else [ToInt8(v)]
  }

  function VarLen(v: int): nat { |VarBytes(v)| }

  /** vlen and varint_len: counts the bytes without writing them. */
  method CountVar(v: int) returns (n: nat)
    ensures n == VarLen(v)
  {
    n := 1;
    var x := v;
    while x >= 128
      invariant n >= 1 && VarLen(v) == n - 1 + VarLen(x)
    {
      x := x / 128;
      n := n + 1;
    }
  }

  /** w with ws written from at on. */
  function Splice<T>(w: seq<T>, at: nat, ws: seq<T>): (w': seq<T>)
    requires at + |ws| <= |w|
    ensures |w'| == |w|
  {
    w[..at] + ws + w[at + |ws|..]
  }

  lemma SpliceNext<T>(w: seq<T>, at: nat, ws: seq<T>, x: T)
    requires at + |ws| < |w|
    ensures Splice(w, at, ws)[at + |ws| := x] == Splice(w, at, ws + [x])
  {
  }

  lemma VarBytesStep(v: int)
    requires v >= 128
    ensures VarBytes(v) == [ToInt8(v % 128 + 128)] + VarBytes(v / 128)
  {
  }

  /** putVar: writes v at p and returns the position after it. */
  method PutVar(b: array<Int8>, p: nat, v: int) returns (o: nat)
    requires p + VarLen(v) <= b.Length
    modifies b
    ensures o == p + VarLen(v)
    ensures b[..] == Splice(old(b[..]), p, VarBytes(v))
  {
    hide Splice, VarBytes, ToInt8;
    o := p;
    var x := v;
    ghost var w, done: seq<Int8> := b[..], [];
    SpliceNothing(w, p);
    while x >= 128
      invariant o == p + |done| && done + VarBytes(x) == VarBytes(v)
      invariant b[..] == Splice(w, p, done)
    {
      VarBytesStep(x);
      var c := ToInt8(x % 128 + 128);
      SpliceNext(w, p, done, c);
      Regroup(done, [c], VarBytes(x / 128));
      b[o] := c;
      done := done + [c];
      x := x / 128;
      o := o + 1;
    }
    VarBytesLast(x);
    SpliceNext(w, p, done, ToInt8(x));
    b[o] := ToInt8(x);
    o := o + 1;
  }

  lemma SpliceNothing<T>(w: seq<T>, p: nat)
    requires p <= |w|
    ensures Splice(w, p, []) == w
  {
  }

  lemma VarBytesLast(v: int)
    requires v < 128
    ensures VarBytes(v) == [ToInt8(v)]
  {
  }

  lemma Pow2Seven(n: nat)
    ensures Pow2(n + 7) == 128 * Pow2(n)
  {
    assert Pow2(n + 7) == 2 * Pow2(n + 6) == 4 * Pow2(n + 5) == 8 * Pow2(n + 4);
    assert Pow2(n + 4) == 2 * Pow2(n + 3) == 4 * Pow2(n + 2) == 8 * Pow2(n + 1);
  }

  /** x shifted left by sh. */
  function Shifted(x: nat, sh: nat): nat { x * Pow2(sh) }

  /** The reader's loop: the low seven bits of each byte join the bits below sh, 64 of them kept,
      until a byte below 128. None stands for an index past the end of the bytes. */
  function ReadFrom(bytes: seq<Int8>, p: nat, sh: nat, acc: nat): (r: Option<(int, nat)>)
    ensures r.Some? ==> IsInt64(r.value.0) && p < r.value.1 <= |bytes|
    decreases |bytes| - p
  {
    if p >= |bytes| then None
    else
      var c := Unsigned(bytes[p]);
      var acc' := (acc + Shifted(c % 128, sh)) % TWO64;
      if c >= 128 then ReadFrom(bytes, p + 1, sh + 7, acc') else Some((Wrap64(acc'), p + 1))
  }

  function ReadVar(bytes: seq<Int8>, p: nat): (r: Option<(int, nat)>)
    ensures r.Some? ==> IsInt64(r.value.0) && p < r.value.1 <= |bytes|
  {
    ReadFrom(bytes, p, 0, 0)
  }

  /** The reader as the emitted code runs it. */
  method GetVar(bytes: array<Int8>, p: nat) returns (r: Option<(int, nat)>)
    ensures r == ReadVar(bytes[..], p)
  {
    var o, v, sh, c := p, 0, 0, 128;
    while c >= 128
      invariant v >= 0 && sh >= 0 && o >= p && 0 <= c < 256
      invariant c >= 128 ==> ReadVar(bytes[..], p) == ReadFrom(bytes[..], o, sh, v)
      invariant c < 128 ==> ReadVar(bytes[..], p) == Some((Wrap64(v), o))
      decreases c >= 128, bytes.Length - o
    {
      if o >= bytes.Length {
        return None;
      }
      c := Unsigned(bytes[o]);
      v := (v + Shifted(c % 128, sh)) % TWO64;
      sh := sh + 7;
      o := o + 1;
    }
    r := Some((Wrap64(v), o));
  }

  /** A number is its low seven bits and the rest, shifted by seven more. */
  lemma SplitGroup(v: nat, sh: nat)
    ensures Shifted(v % 128, sh) + Shifted(v / 128, sh + 7) == Shifted(v, sh)
  {
    var p, q, r := Pow2(sh), v / 128, v % 128;
    Pow2Seven(sh);
    assert v == 128 * q + r;
    assert q * (128 * p) == 128 * q * p;
    assert r * p + 128 * q * p == (r + 128 * q) * p;
  }

  lemma ReadStep(bytes: seq<Int8>, p: nat, sh: nat, acc: nat)
    requires p < |bytes|
    ensures
      var c := Unsigned(bytes[p]);
      var acc' := (acc + Shifted(c % 128, sh)) % TWO64;
      ReadFrom(bytes, p, sh, acc) ==
      if c >= 128 then ReadFrom(bytes, p + 1, sh + 7, acc') else Some((Wrap64(acc'), p + 1))
  {
  }

  lemma FirstByte(bytes: seq<Int8>, p: nat, v: nat)
    requires p + VarLen(v) <= |bytes| && bytes[p..p + VarLen(v)] == VarBytes(v)
    ensures Unsigned(bytes[p]) == if v >= 128 then v % 128 + 128 else v
    ensures v >= 128 ==> VarLen(v) == 1 + VarLen(v / 128)
    ensures v >= 128 ==> bytes[p + 1..p + 1 + VarLen(v / 128)] == VarBytes(v / 128)
    ensures v < 128 ==> VarLen(v) == 1
  {
    assert bytes[p] == bytes[p..p + VarLen(v)][0];
    if v >= 128 {
      assert bytes[p + 1..p + VarLen(v)] == bytes[p..p + VarLen(v)][1..];
    }
  }

  /** Reading from the middle of a varint adds its remaining groups to the bits read so far. */
  lemma {:induction false} ReadWritten(bytes: seq<Int8>, p: nat, sh: nat, acc: nat, v: nat)
    requires p + VarLen(v) <= |bytes| && bytes[p..p + VarLen(v)] == VarBytes(v)
    requires acc + Shifted(v, sh) < TWO63
    ensures ReadFrom(bytes, p, sh, acc) == Some((acc + Shifted(v, sh), p + VarLen(v)))
    decreases v
  {
    hide Shifted, ReadFrom, VarBytes, VarLen, Unsigned;
    FirstByte(bytes, p, v);
    SplitGroup(v, sh);
    ReadStep(bytes, p, sh, acc);
    if v >= 128 {
      assert (v % 128 + 128) % 128 == v % 128;
      ReadWritten(bytes, p + 1, sh + 7, acc + Shifted(v % 128, sh), v / 128);
    }
  }

  /** What the writer wrote for a non-negative int64, the reader reads, wherever it stands. */
  lemma VarRoundTrip(bytes: seq<Int8>, p: nat, v: int)
    requires 0 <= v < TWO63 && p + VarLen(v) <= |bytes| && bytes[p..p + VarLen(v)] == VarBytes(v)
    ensures ReadVar(bytes, p) == Some((v, p + VarLen(v)))
  {
    assert Shifted(v, 0) == v * 1;
    ReadWritten(bytes, p, 0, 0, v);
  }

  /** A negative value is lost: one byte is written, and what is read back is not negative. */
  lemma NegativeIsLost(v: int)
    requires -TWO63 <= v < 0
    ensures ReadVar(VarBytes(v) + [0], 0).Some? && ReadVar(VarBytes(v) + [0], 0).value.0 >= 0
  {
    var bytes := VarBytes(v) + [0];
    VarBytesLast(v);
    hide ReadFrom, Shifted, VarBytes, Unsigned;
    assert bytes == [ToInt8(v), 0];
    ReadStep(bytes, 0, 0, 0);
    var c := Unsigned(bytes[0]);
    ShiftedBasics(c % 128);
    ZeroByte();
    if c >= 128 {
      ReadStep(bytes, 1, 7, c % 128);
    }
  }

  lemma ShiftedBasics(x: nat)
    ensures Shifted(x, 0) == x && Shifted(0, 7) == 0
  {
    assert Shifted(x, 0) == x * 1;
  }

  lemma ZeroByte()
    ensures Unsigned(0) == 0
  {
  }

  /** An int64 survives writing and reading, whatever follows it, exactly when it is not negative. */
  lemma SurvivesIff(v: int)
    requires IsInt64(v)
    ensures v >= 0 <==> forall tail: seq<Int8> :: ReadVar(VarBytes(v) + tail, 0) == Some((v, VarLen(v)))
  {
    if v >= 0 {
      forall tail: seq<Int8>
        ensures ReadVar(VarBytes(v) + tail, 0) == Some((v, VarLen(v)))
      {
        VarRoundTrip(VarBytes(v) + tail, 0, v);
      }
    } else {
      NegativeIsLost(v);
      assert ReadVar(VarBytes(v) + [0], 0) != Some((v, VarLen(v)));
    }
  }

  /** The least value with more than m varint bytes. */
  function Limit(m: nat): (l: nat)
    ensures l >= 1
  {
    Pow2(7 * m)
  }

  lemma {:induction false} LengthBelowLimit(v: nat, m: nat)
    requires m >= 1
    ensures VarLen(v) <= m <==> v < Limit(m)
    decreases m
  {
    Pow2Seven(7 * (m - 1));
    assert 7 * (m - 1) + 7 == 7 * m;
    if m == 1 {
      assert Pow2(0) == 1;
    } else if v >= 128 {
      LengthBelowLimit(v / 128, m - 1);
    }
  }

  /** While fewer than 64 bits are read, the value read has no more bits than that. */
  lemma {:induction false} ReadBelow(bytes: seq<Int8>, p: nat, sh: nat, acc: nat)
    requires acc < Pow2(sh) && ReadFrom(bytes, p, sh, acc).Some?
    requires var p' := ReadFrom(bytes, p, sh, acc).value.1; sh + 7 * (p' - p) <= 63
    ensures var (z, p') := ReadFrom(bytes, p, sh, acc).value; 0 <= z < Pow2(sh + 7 * (p' - p))
    decreases |bytes| - p
  {
    hide Shifted, Pow2, Unsigned;
    ReadStep(bytes, p, sh, acc);
    var c := Unsigned(bytes[p]);
    ShiftedFits(c % 128, sh, acc);
    Pow2Grows(sh + 7, 63);
    Pow2Of63();
    if c >= 128 {
      ReadBelow(bytes, p + 1, sh + 7, acc + Shifted(c % 128, sh));
    }
  }

  lemma ShiftedFits(c: nat, sh: nat, acc: nat)
    requires c < 128 && acc < Pow2(sh)
    ensures acc + Shifted(c, sh) < Pow2(sh + 7)
  {
    Pow2Seven(sh);
    MulMono(c, 127, Pow2(sh));
  }

  lemma {:induction false} Pow2Grows(a: nat, b: nat)
    requires a <= b
    ensures Pow2(a) <= Pow2(b)
    decreases b - a
  {
    if a < b {
      Pow2Grows(a + 1, b);
    }
  }

  lemma Pow2Of63()
    ensures Pow2(63) == TWO63
  {
    hide Pow2;
    Pow2Zero();
    Pow2Seven(0);
    Pow2Seven(7);
    Pow2Seven(14);
    Pow2Seven(21);
    Pow2Seven(28);
    Pow2Seven(35);
    Pow2Seven(42);
    Pow2Seven(49);
    Pow2Seven(56);
  }

  lemma Pow2Zero()
    ensures Pow2(0) == 1
  {
  }

  /** Nine bytes are enough for every int64 the writer does not lose. */
  lemma NineBytes(v: int)
    requires IsInt64(v)
    ensures VarLen(v) <= 9
  {
    if v >= 0 {
      Pow2Of63();
      LengthBelowLimit(v, 9);
    }
  }

  lemma {:induction false} LengthGrows(v: int, w: int)
    requires v <= w
    ensures VarLen(v) <= VarLen(w)
    decreases if w < 0 then 0 else w
  {
    if w >= 128 && v >= 128 {
      LengthGrows(v / 128, w / 128);
    }
  }

  /** No reading of a value takes fewer bytes than writing it; and a negative one takes ten. */
  lemma ReadTakesLength(bytes: seq<Int8>, p: nat)
    requires ReadVar(bytes, p).Some?
    ensures var (z, p') := ReadVar(bytes, p).value; p' - p >= VarLen(z) && (z < 0 ==> p' - p >= 10)
  {
    hide Pow2, VarBytes;
    var (z, p') := ReadVar(bytes, p).value;
    var m := p' - p;
    NineBytes(z);
    if m <= 9 {
      Pow2Zero();
      ReadBelow(bytes, p, 0, 0);
      LengthBelowLimit(z, m);
    }
  }

  /** storeU64: the eight bytes of a 64-bit pattern, lowest first. */
  function Le64(v: int): (bytes: seq<Int8>)
    ensures |bytes| == 8
  {
    var b := Bytes(v % TWO64, 8);
    seq(8, i requires 0 <= i < 8 => ToInt8(b[i]))
  }

  /** loadU64 at p. */
  function Load64(bytes: seq<Int8>, p: nat): (v: int)
    requires p + 8 <= |bytes|
    ensures IsInt64(v)
  {
    var b := bytes[p..p + 8];
    Wrap64(BytesValue(seq<nat>(8, i requires 0 <= i < 8 => Unsigned(b[i]))))
  }

  lemma Pow256Of8()
    ensures Pow256(8) == TWO64
  {
    assert Pow256(0) == 1 && Pow256(1) == 256 && Pow256(2) == 0x1_0000 && Pow256(3) == 0x100_0000;
    assert Pow256(4) == 0x1_0000_0000 && Pow256(5) == 0x100_0000_0000 && Pow256(6) == 0x1_0000_0000_0000;
    assert Pow256(7) == 0x100_0000_0000_0000;
  }

  /** Any 64-bit pattern comes back from its eight bytes. */
  lemma LoadOfStore(bytes: seq<Int8>, p: nat, v: int)
    requires IsInt64(v) && p + 8 <= |bytes| && bytes[p..p + 8] == Le64(v)
    ensures Load64(bytes, p) == v
  {
    hide Bytes, BytesValue, Pow256, ToInt8, Unsigned;
    Pow256Of8();
    var b := Bytes(v % TWO64, 8);
    BytesRoundTrip(v % TWO64, 8);
    var stored := bytes[p..p + 8];
    assert seq<nat>(8, i requires 0 <= i < 8 => Unsigned(stored[i])) == b;
  }

  /** Byte i of a stored pattern is its i-th base-256 digit, the lowest first. */
  lemma Le64At(v: int, i: nat)
    requires i < 8
    ensures Unsigned(Le64(v)[i]) == v % TWO64 / Pow256(i) % 256
  {
    BytesAt(v % TWO64, 8, i);
  }

  /** Any eight bytes are the ones their pattern is stored as. */
  lemma StoreOfLoad(bytes: seq<Int8>, p: nat)
    requires p + 8 <= |bytes|
    ensures Le64(Load64(bytes, p)) == bytes[p..p + 8]
  {
    hide Bytes, BytesValue, Pow256;
    var b := bytes[p..p + 8];
    var u := seq<nat>(8, i requires 0 <= i < 8 => Unsigned(b[i]));
    ValueRoundTrip(u);
    Pow256Of8();
    assert Load64(bytes, p) % TWO64 == BytesValue(u);
    forall i | 0 <= i < 8
      ensures Le64(Load64(bytes, p))[i] == b[i]
    {
      SameByte(ToInt8(u[i]), b[i]);
    }
  }

  lemma SameByte(a: Int8, b: Int8)
    requires Unsigned(a) == Unsigned(b)
    ensures a == b
  {
  }

  lemma GroupOf(v: nat, i: nat)
    requires i >= 1
    ensures v / 128 / Pow2(7 * (i - 1)) == v / Pow2(7 * i)
  {
    hide Pow2;
    DivTwice(v, 128, Pow2(7 * (i - 1)));
    Pow2Seven(7 * (i - 1));
    assert 7 * (i - 1) + 7 == 7 * i;
  }

  /** Byte i of a varint holds the i-th group of seven bits, and the top bit in all but the last. */
  lemma {:induction false} VarByteAt(v: nat, i: nat)
    requires i < VarLen(v)
    ensures Unsigned(VarBytes(v)[i]) == v / Pow2(7 * i) % 128 + if i + 1 < VarLen(v) then 128 else 0
    decreases v
  {
    hide ToInt8, Unsigned, VarBytes, Pow2;
    Pow2Zero();
    if v < 128 {
      VarBytesLast(v);
    } else if i == 0 {
      VarBytesStep(v);
    } else {
      VarBytesStep(v);
      VarByteAt(v / 128, i - 1);
      GroupOf(v, i);
    }
  }

  /** The bytes of 300, and the two ways a byte below 128 and a negative number take one. */
  lemma VarBytesOf300()
    ensures VarBytes(300) == [-84, 2] && VarBytes(127) == [127] && VarBytes(128) == [-128, 1]
    ensures VarBytes(-1) == [-1] && VarBytes(-300) == [-44]
  {
    assert VarBytes(2) == [2] && VarBytes(1) == [1];
  }

  /** Bytes of all ones set one group of seven bits after another. */
  lemma {:induction false} ReadOnes(bytes: seq<Int8>, k: nat)
    requires k <= 9 && |bytes| == 10 && forall i :: 0 <= i < 9 ==> bytes[i] == -1
    ensures ReadVar(bytes, 0) == ReadFrom(bytes, k, 7 * k, Pow2(7 * k) - 1)
  {
    hide ReadFrom, Pow2;
    Pow2Zero();
    if k > 0 {
      ReadOnes(bytes, k - 1);
      ReadStep(bytes, k - 1, 7 * (k - 1), Pow2(7 * (k - 1)) - 1);
      Pow2Seven(7 * (k - 1));
      Pow2Grows(7 * k, 63);
      Pow2Of63();
      assert Unsigned(bytes[k - 1]) == 255;
      assert Shifted(127, 7 * (k - 1)) == 127 * Pow2(7 * (k - 1));
    }
  }

  /** Ten bytes can spell a negative number; of the tenth only the lowest bit counts. */
  lemma TenBytesReadNegative()
    ensures ReadVar([-1, -1, -1, -1, -1, -1, -1, -1, -1, 1], 0) == Some((-1, 10))
    ensures ReadVar([-1, -1, -1, -1, -1, -1, -1, -1, -1, 127], 0) == Some((-1, 10))
  {
    hide ReadFrom, Pow2;
    var a: seq<Int8> := [-1, -1, -1, -1, -1, -1, -1, -1, -1, 1];
    var b: seq<Int8> := [-1, -1, -1, -1, -1, -1, -1, -1, -1, 127];
    Pow2Of63();
    ReadOnes(a, 9);
    ReadOnes(b, 9);
    ReadStep(a, 9, 63, TWO63 - 1);
    ReadStep(b, 9, 63, TWO63 - 1);
  }
}
