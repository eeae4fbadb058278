/** The emitted Avro codec, for any list of field kinds: zigzag varints and eight-byte doubles with
    no tags, encoded and decoded in field order. A record comes back exactly when every integer of
    it is below 2^62 in magnitude. */
module Avro {
  import opened Basics
  import opened Varint
  import opened Protobuf
  import AvroSchema

  const TWO62: int := 0x4000_0000_0000_0000

  /** zz, with the wrap-around of its 64-bit shift and subtraction. */
  function ZigZag(v: int): (z: int)
    ensures IsInt64(z)
  {
    if v < 0 then Wrap64(Wrap64(Wrap64(-v) * 2) - 1) else Wrap64(v * 2)
  }

  /** unzz; z & 1 is z modulo 2, and z >> 1 rounds down. */
  function UnZigZag(z: int): (v: int)
    ensures IsInt64(v)
  {
    if z % 2 == 0 then Wrap64(z / 2) else Wrap64(-(Wrap64(z + 1) / 2))
  }

  /** Inside 2^62 zigzag keeps the value and gives the varint writer a non-negative number;
      outside it, what comes back is another value or a number the writer loses. */
  lemma ZigZagIff(v: int)
    requires IsInt64(v)
    ensures -TWO62 < v < TWO62 <==> ZigZag(v) >= 0 && UnZigZag(ZigZag(v)) == v
    ensures -TWO62 < v < TWO62 ==> ZigZag(v) == if v < 0 then -2 * v - 1 else 2 * v
  {
    if -TWO62 < v < TWO62 {
      ZigZagInside(v);
    } else {
      ZigZagOutside(v);
    }
  }

  lemma ZigZagInside(v: int)
    requires -TWO62 < v < TWO62
    ensures ZigZag(v) == (if v < 0 then -2 * v - 1 else 2 * v) && UnZigZag(ZigZag(v)) == v
  {
  }

  lemma ZigZagOutside(v: int)
    requires IsInt64(v) && !(-TWO62 < v < TWO62)
    ensures ZigZag(v) < 0 || UnZigZag(ZigZag(v)) != v
  {
    if v == -TWO62 {
      assert ZigZag(v) == TWO63 - 1;
    } else {
      assert ZigZag(v) < 0;
    }
  }

  function FieldBytes(kind: Kind, v: int): seq<Int8> {
    if kind == F64 then Le64(v) else VarBytes(ZigZag(v))
  }

  /** The encoded record from field i on. */
  function EncodeFrom(kinds: seq<Kind>, rec: seq<int>, i: nat): seq<Int8>
    requires i <= |kinds| == |rec|
    decreases |kinds| - i
  {
    if i == |kinds| then [] else FieldBytes(kinds[i], rec[i]) + EncodeFrom(kinds, rec, i + 1)
  }

  /** One field at p: its value and the position behind it. */
  function DecodeField(kind: Kind, bytes: seq<Int8>, p: nat): (r: Option<(int, nat)>)
    ensures r.Some? ==> InRange(kind, r.value.0) && p < r.value.1 <= |bytes|
  {
    if kind == F64 then
      if p + 8 > |bytes| then None else Some((Load64(bytes, p), p + 8))
    else match ReadVar(bytes, p)
      case None => None
      case Some((z, o)) => Some((if kind == I32 then Wrap32(UnZigZag(z)) else UnZigZag(z), o))
  }

  /** The fields from i on, read from p; and the position behind them. */
  function DecodeFields(kinds: seq<Kind>, bytes: seq<Int8>, i: nat, p: nat): (r: Option<(seq<int>, nat)>)
    requires i <= |kinds|
    ensures r.Some? ==> |r.value.0| == |kinds| - i
    decreases |kinds| - i
  {
    if i == |kinds| then Some(([], p))
    else match DecodeField(kinds[i], bytes, p)
      case None => None
      case Some((v, o)) =>
        match DecodeFields(kinds, bytes, i + 1, o)
        case None => None
        case Some((rest, end)) => Some(([v] + rest, end))
  }

  /** The record the bytes start with. */
  function Decoded(kinds: seq<Kind>, bytes: seq<Int8>): Option<seq<int>> {
    match DecodeFields(kinds, bytes, 0, 0)
    case None => None
    case Some((rec, _)) => Some(rec)
  }

  /** An integer the codec brings back. */
  predicate Kept(kind: Kind, v: int) { kind == I64 ==> -TWO62 < v < TWO62 }

  lemma FieldRoundTrip(kind: Kind, v: int, bytes: seq<Int8>, p: nat)
    requires InRange(kind, v) && Kept(kind, v)
    requires var o := p + |FieldBytes(kind, v)|; o <= |bytes| && bytes[p..o] == FieldBytes(kind, v)
    ensures DecodeField(kind, bytes, p) == Some((v, p + |FieldBytes(kind, v)|))
  {
    hide VarBytes, ReadVar, Le64, Load64, ZigZag, UnZigZag;
    if kind == F64 {
      StoreLength(v);
      LoadOfStore(bytes, p, v);
    } else {
      ZigZagIff(v);
      LengthIs(ZigZag(v));
      VarRoundTrip(bytes, p, ZigZag(v));
    }
  }

  lemma StoreLength(v: int)
    ensures |Le64(v)| == 8
  {
  }

  /** What a zigzag number must have been to decode to v: at least as long as the one v encodes
      to, or negative; and for a value outside 2^62 never what was written. */
  lemma UnZigZagSource(z: int, v: int)
    requires IsInt64(z) && IsInt64(v) && UnZigZag(z) == v
    ensures -TWO62 < v < TWO62 ==> z < 0 || z == ZigZag(v)
    ensures !(-TWO62 < v < TWO62) ==> (v == TWO62 && z == TWO63 - 1 && ZigZag(v) < 0) || (v == -TWO62 && z < 0)
  {
  }

  lemma Source32(z: int, v: int)
    requires IsInt64(z) && IsInt32(v) && Wrap32(UnZigZag(z)) == v
    ensures z < 0 || z >= ZigZag(v)
  {
  }

  /** A field that decodes to v takes no fewer bytes than v is written with, and more when v is an
      integer the codec does not keep. */
  lemma FieldTakesMore(kind: Kind, v: int, bytes: seq<Int8>, p: nat)
    requires InRange(kind, v) && DecodeField(kind, bytes, p).Some? && DecodeField(kind, bytes, p).value.0 == v
    ensures var o := DecodeField(kind, bytes, p).value.1;
      && o - p >= |FieldBytes(kind, v)|
      && (!Kept(kind, v) ==> o - p > |FieldBytes(kind, v)|)
  {
    hide VarBytes, ReadVar, Le64, Load64, ZigZag, UnZigZag, Wrap32;
    if kind == F64 {
      StoreLength(v);
    } else {
      var (z, o) := ReadVar(bytes, p).value;
      ReadTakesLength(bytes, p);
      NineBytes(ZigZag(v));
      LengthIs(ZigZag(v));
      if kind == I32 {
        Source32(z, v);
        if z >= 0 {
          LengthGrows(ZigZag(v), z);
        }
      } else {
        UnZigZagSource(z, v);
        if !Kept(kind, v) && z >= 0 {
          LengthGrows(0x1_0000, z);
          LongerThanTwo();
          NegativeLength(ZigZag(v));
        }
      }
    }
  }

  lemma LongerThanTwo()
    ensures VarLen(0x1_0000) > 2
  {
    LengthAtTwo(0x1_0000);
  }

  lemma NegativeLength(z: int)
    requires z < 0
    ensures VarLen(z) == 1
  {
  }

  /** Decoding a record's fields to its own values takes no fewer bytes than encoding them, and
      more if one of them is not kept. */
  lemma {:induction false} RecordTakesMore(kinds: seq<Kind>, rec: seq<int>, bytes: seq<Int8>, i: nat, p: nat)
    requires IsRecord(kinds, rec) && i <= |kinds| && DecodeFields(kinds, bytes, i, p).Some?
    requires DecodeFields(kinds, bytes, i, p).value.0 == rec[i..]
    ensures var end := DecodeFields(kinds, bytes, i, p).value.1;
      && (i < |kinds| ==> end <= |bytes|)
      && end - p >= |EncodeFrom(kinds, rec, i)|
      && ((exists j :: i <= j < |kinds| && !Kept(kinds[j], rec[j])) ==> end - p > |EncodeFrom(kinds, rec, i)|)
    decreases |kinds| - i
  {
    hide DecodeField, FieldBytes;
    if i < |kinds| {
      var (v, o) := DecodeField(kinds[i], bytes, p).value;
      var rest := DecodeFields(kinds, bytes, i + 1, o).value.0;
      assert rec[i..] == [v] + rest;
      assert rest == rec[i + 1..] && v == rec[i];
      FieldTakesMore(kinds[i], rec[i], bytes, p);
      FieldEnds(kinds[i], bytes, p);
      RecordTakesMore(kinds, rec, bytes, i + 1, o);
    }
  }

  lemma FieldEnds(kind: Kind, bytes: seq<Int8>, p: nat)
    requires DecodeField(kind, bytes, p).Some?
    ensures DecodeField(kind, bytes, p).value.1 <= |bytes|
  {
  }

  /** Decoding what was written for kept fields gives them back, to the last byte. */
  lemma {:induction false} RecordRoundTrip(kinds: seq<Kind>, rec: seq<int>, bytes: seq<Int8>, i: nat, p: nat)
    requires IsRecord(kinds, rec) && i <= |kinds| && p <= |bytes| && bytes[p..] == EncodeFrom(kinds, rec, i)
    requires forall j :: i <= j < |kinds| ==> Kept(kinds[j], rec[j])
    ensures DecodeFields(kinds, bytes, i, p) == Some((rec[i..], |bytes|))
    decreases |kinds| - i
  {
    hide DecodeField, FieldBytes;
    if i < |kinds| {
      var c := FieldBytes(kinds[i], rec[i]);
      assert bytes[p..][..|c|] == c;
      assert bytes[p..p + |c|] == bytes[p..][..|c|];
      assert bytes[p + |c|..] == bytes[p..][|c|..];
      FieldRoundTrip(kinds[i], rec[i], bytes, p);
      RecordRoundTrip(kinds, rec, bytes, i + 1, p + |c|);
      assert rec[i..] == [rec[i]] + rec[i + 1..];
    }
  }

  /** The exact condition: a record decodes from its own encoding to itself if and only if every
      int64 of it lies strictly between -2^62 and 2^62. */
  lemma RoundTripIff(kinds: seq<Kind>, rec: seq<int>)
    requires IsRecord(kinds, rec)
    ensures
      Decoded(kinds, EncodeFrom(kinds, rec, 0)) == Some(rec)
      <==> forall j :: 0 <= j < |kinds| ==> Kept(kinds[j], rec[j])
  {
    hide DecodeFields, EncodeFrom;
    var bytes := EncodeFrom(kinds, rec, 0);
    assert bytes[0..] == bytes && rec[0..] == rec;
    if forall j :: 0 <= j < |kinds| ==> Kept(kinds[j], rec[j]) {
      RecordRoundTrip(kinds, rec, bytes, 0, 0);
    } else if DecodeFields(kinds, bytes, 0, 0).Some? && DecodeFields(kinds, bytes, 0, 0).value.0 == rec {
      RecordTakesMore(kinds, rec, bytes, 0, 0);
    }
  }

  /** The encoded record up to field n. */
  function EncodeTo(kinds: seq<Kind>, rec: seq<int>, n: nat): seq<Int8>
    requires n <= |kinds| == |rec|
  {
    if n == 0 then [] else EncodeTo(kinds, rec, n - 1) + FieldBytes(kinds[n - 1], rec[n - 1])
  }

  lemma {:induction false} FrontAndBack(kinds: seq<Kind>, rec: seq<int>, i: nat)
    requires i <= |kinds| == |rec|
    ensures EncodeTo(kinds, rec, i) + EncodeFrom(kinds, rec, i) == EncodeFrom(kinds, rec, 0)
    decreases i
  {
    hide FieldBytes;
    if i > 0 {
      FrontAndBack(kinds, rec, i - 1);
      Regroup(EncodeTo(kinds, rec, i - 1), FieldBytes(kinds[i - 1], rec[i - 1]), EncodeFrom(kinds, rec, i));
    }
  }

  /** The size of the first n fields: eight bytes a double, counted beforehand, and one length per
      integer. */
  function Doubles(kinds: seq<Kind>, n: nat): nat
    requires n <= |kinds|
  {
    if n == 0 then 0 else Doubles(kinds, n - 1) + if kinds[n - 1] == F64 then 8 else 0
  }

  /** One step of resolve: whether the schema text is taken, and the length remembered after it. */
  function ResolveStep(kinds: seq<Kind>, resolvedLen: int, def: string): (r: (bool, int)) {
    if resolvedLen == |def| then (true, resolvedLen)
    else if AvroSchema.KindsFrom(def, 0, 0) != AvroSchema.Letters(kinds) then (false, resolvedLen)
    else (true, |def|)
  }

  /** The length remembered after resolving a list of schema texts. */
  function ResolvedAfter(kinds: seq<Kind>, defs: seq<string>): int {
    if defs == [] then -1
    else ResolveStep(kinds, ResolvedAfter(kinds, defs[..|defs| - 1]), defs[|defs| - 1]).1
  }

  predicate RightKinds(kinds: seq<Kind>, def: string) {
    AvroSchema.KindsFrom(def, 0, 0) == AvroSchema.Letters(kinds)
  }

  /** The length of the last text of the right kinds; -1 when there was none. */
  function LastRight(kinds: seq<Kind>, defs: seq<string>): int {
    if defs == [] then -1
    else if RightKinds(kinds, defs[|defs| - 1]) then |defs[|defs| - 1]|
    else LastRight(kinds, defs[..|defs| - 1])
  }

  /** Over every run the remembered length is that of the last text of the right kinds; texts that
      slipped through do not change it. */
  lemma {:induction false} RememberedLength(kinds: seq<Kind>, defs: seq<string>)
    ensures ResolvedAfter(kinds, defs) == LastRight(kinds, defs)
  {
    if defs != [] {
      RememberedLength(kinds, defs[..|defs| - 1]);
    }
  }

  /** After any schema texts at all, a text is refused if and only if its kinds are wrong and it is
      not as long as the last one whose kinds were right. */
  lemma {:induction false} RefusedIff(kinds: seq<Kind>, defs: seq<string>, def: string)
    ensures !ResolveStep(kinds, ResolvedAfter(kinds, defs), def).0
      <==> !RightKinds(kinds, def) && |def| != LastRight(kinds, defs)
  {
    RememberedLength(kinds, defs);
  }

  function Blank(n: nat): string { seq(n, _ => ' ') }

  lemma {:induction false} BlankHasNoKinds(n: nat, i: nat)
    ensures AvroSchema.KindsFrom(Blank(n), i, 0) == ""
    decreases n - i
  {
    if i + 7 < n {
      BlankHasNoKinds(n, i + 1);
    }
  }

  /** So the promise to refuse every text of wrong kinds holds after a run if and only if the run
      brought none of the right kinds: after one, a blank text as long as it slips through. */
  lemma RefusesAllWrongIff(kinds: seq<Kind>, defs: seq<string>)
    requires kinds != []
    ensures (forall def :: !RightKinds(kinds, def) ==> !ResolveStep(kinds, ResolvedAfter(kinds, defs), def).0)
      <==> forall d :: d in defs ==> !RightKinds(kinds, d)
  {
    hide ResolveStep, ResolvedAfter, AvroSchema.KindsFrom;
    forall def
      ensures !ResolveStep(kinds, ResolvedAfter(kinds, defs), def).0
        <==> !RightKinds(kinds, def) && |def| != LastRight(kinds, defs)
    {
      RefusedIff(kinds, defs, def);
    }
    NoneRightIff(kinds, defs);
    if LastRight(kinds, defs) >= 0 {
      BlankHasNoKinds(LastRight(kinds, defs), 0);
      assert !RightKinds(kinds, Blank(LastRight(kinds, defs)));
    }
  }

  lemma {:induction false} NoneRightIff(kinds: seq<Kind>, defs: seq<string>)
    ensures LastRight(kinds, defs) >= -1
    ensures LastRight(kinds, defs) == -1 <==> forall d :: d in defs ==> !RightKinds(kinds, d)
  {
    hide RightKinds;
    if defs != [] {
      NoneRightIff(kinds, defs[..|defs| - 1]);
      assert defs == defs[..|defs| - 1] + [defs[|defs| - 1]];
    }
  }

  /** Two printed schemas of equal length but other kinds: the wrong one is refused at first, and
      slips through after the right one. */
  lemma SameLengthSlipsThrough()
    ensures
      var (kinds, other) := ([F64, I32], [I32, F64]);
      var (good, bad) := (AvroSchema.Avsc(kinds), AvroSchema.Avsc(other));
      && AvroSchema.KindsFrom(bad, 0, 0) != AvroSchema.Letters(kinds)
      && !ResolveStep(kinds, ResolvedAfter(kinds, []), bad).0
      && ResolveStep(kinds, ResolvedAfter(kinds, [good]), bad).0
  {
    var kinds, other := [F64, I32], [I32, F64];
    var good, bad := AvroSchema.Avsc(kinds), AvroSchema.Avsc(other);
    hide AvroSchema.KindsFrom;
    AvroSchema.KindsOfPrinted(kinds);
    AvroSchema.KindsOfPrinted(other);
    AvroSchema.LettersInjective(kinds, other);
    AvroSchema.LengthOfTwo(F64, I32);
    AvroSchema.LengthOfTwo(I32, F64);
    hide AvroSchema.Avsc;
    ResolvedOnce(kinds, good);
  }

  lemma ResolvedOnce(kinds: seq<Kind>, good: string)
    requires AvroSchema.KindsFrom(good, 0, 0) == AvroSchema.Letters(kinds)
    ensures ResolvedAfter(kinds, [good]) == |good| && ResolvedAfter(kinds, []) == -1
  {
    assert [good][..0] == [];
    assert ResolvedAfter(kinds, []) == -1;
  }

  /** The schema encoder: the compiled field kinds, and the length of the last schema resolved.
      seen is every schema text it has met. */
  class Encoder {
    const kinds: seq<Kind>
    var resolvedLen: int
    ghost var seen: seq<string>

    ghost predicate Valid()
      reads this
    {
      resolvedLen == ResolvedAfter(kinds, seen)
    }

    constructor (kinds: seq<Kind>)
      ensures Valid() && this.kinds == kinds && seen == []
    {
      this.kinds := kinds;
      resolvedLen := -1;
      seen := [];
    }

    /** False stands for the exception. */
    method Resolve(def: string) returns (ok: bool)
      requires Valid()
      modifies this
      ensures Valid() && seen == old(seen) + [def]
      ensures (ok, resolvedLen) == ResolveStep(kinds, old(resolvedLen), def)
      ensures !ok <==> !RightKinds(kinds, def) && |def| != LastRight(kinds, old(seen))
    {
      hide AvroSchema.KindsFrom, AvroSchema.Letters;
      RefusedIff(kinds, seen, def);
      seen := seen + [def];
      assert seen[..|seen| - 1] == old(seen);
      if resolvedLen == |def| {
        return true;
      }
      var k := AvroSchema.KindsOf(def);
      if k != AvroSchema.Letters(kinds) {
        return false;
      }
      resolvedLen := |def|;
      return true;
    }

    /** Null stands for the exception. */
    method Encode(rec: seq<int>, def: string) returns (b: array?<Int8>)
      requires Valid() && IsRecord(kinds, rec)
      modifies this
      ensures Valid() && seen == old(seen) + [def]
      ensures b == null <==> !RightKinds(kinds, def) && |def| != LastRight(kinds, old(seen))
      ensures b != null ==> fresh(b) && b[..] == EncodeFrom(kinds, rec, 0)
    {
      var ok := Resolve(def);
      if !ok {
        return null;
      }
      b := WriteRecord(kinds, rec);
    }

    method Decode(bytes: array<Int8>, def: string) returns (r: Option<seq<int>>)
      requires Valid()
      modifies this
      ensures Valid() && seen == old(seen) + [def]
      ensures !RightKinds(kinds, def) && |def| != LastRight(kinds, old(seen)) ==> r == None
      ensures RightKinds(kinds, def) || |def| == LastRight(kinds, old(seen)) ==> r == Decoded(kinds, bytes[..])
    {
      var ok := Resolve(def);
      if !ok {
        return None;
      }
      r := ReadRecord(kinds, bytes);
    }
  }


  method WriteRecord(kinds: seq<Kind>, rec: seq<int>) returns (b: array<Int8>)
    requires IsRecord(kinds, rec)
    ensures fresh(b) && b[..] == EncodeFrom(kinds, rec, 0)
  {
    hide FieldBytes, VarLen, VarBytes, Splice, EncodeFrom, ZigZag, Le64;
    var s := Doubles(kinds, |kinds|);
    ghost var base := s;
    EncodeToSize(kinds, rec, 0);
    for i := 0 to |kinds|
      invariant s + Doubles(kinds, i) == base + |EncodeTo(kinds, rec, i)|
    {
      EncodeToSize(kinds, rec, i + 1);
      if kinds[i] != F64 {
        var n := CountVar(ZigZag(rec[i]));
        s := s + n;
      }
    }
    b := new Int8[s](_ => 0);
    ghost var w := b[..];
    SpliceNothing(w, 0);
    var p := 0;
    for i := 0 to |kinds|
      invariant p == |EncodeTo(kinds, rec, i)| && b.Length == s
      invariant p <= s && b[..] == Splice(w, 0, EncodeTo(kinds, rec, i))
    {
      EncodeToSize(kinds, rec, i + 1);
      EncodeToGrows(kinds, rec, i + 1);
      FieldLength(kinds[i], rec[i]);
      SpliceAppend(w, EncodeTo(kinds, rec, i), FieldBytes(kinds[i], rec[i]));
      if kinds[i] == F64 {
        p := Put(b, p, Le64(rec[i]));
      } else {
        p := PutVar(b, p, ZigZag(rec[i]));
      }
    }
    SpliceAll(w, EncodeTo(kinds, rec, |kinds|));
    FrontAndBack(kinds, rec, |kinds|);
    NothingLeft(kinds, rec);
  }

  lemma NothingLeft(kinds: seq<Kind>, rec: seq<int>)
    requires |kinds| == |rec|
    ensures EncodeFrom(kinds, rec, |kinds|) == []
  {
  }

  lemma SpliceAppend(w: seq<Int8>, done: seq<Int8>, x: seq<Int8>)
    requires |done| + |x| <= |w|
    ensures Splice(Splice(w, 0, done), |done|, x) == Splice(w, 0, done + x)
  {
  }

  lemma FieldLength(kind: Kind, v: int)
    ensures FieldBytes(kind, v) == if kind == F64 then Le64(v) else VarBytes(ZigZag(v))
    ensures |FieldBytes(kind, v)| == if kind == F64 then 8 else VarLen(ZigZag(v))
  {
  }

  lemma EncodeToSize(kinds: seq<Kind>, rec: seq<int>, n: nat)
    requires n <= |kinds| == |rec|
    ensures n == 0 ==> EncodeTo(kinds, rec, n) == []
    ensures n > 0 ==> EncodeTo(kinds, rec, n) == EncodeTo(kinds, rec, n - 1) + FieldBytes(kinds[n - 1], rec[n - 1])
    ensures n > 0 ==> |EncodeTo(kinds, rec, n)| == |EncodeTo(kinds, rec, n - 1)| +
                      if kinds[n - 1] == F64 then 8 else VarLen(ZigZag(rec[n - 1]))
  {
    hide Le64, VarBytes;
    if n > 0 {
      FieldLength(kinds[n - 1], rec[n - 1]);
    }
  }

  lemma {:induction false} EncodeToGrows(kinds: seq<Kind>, rec: seq<int>, n: nat)
    requires n <= |kinds| == |rec|
    ensures |EncodeTo(kinds, rec, n)| <= |EncodeTo(kinds, rec, |kinds|)|
    decreases |kinds| - n
  {
    hide FieldBytes;
    if n < |kinds| {
      EncodeToGrows(kinds, rec, n + 1);
    }
  }

  method ReadRecord(kinds: seq<Kind>, bytes: array<Int8>) returns (r: Option<seq<int>>)
    ensures r == Decoded(kinds, bytes[..])
  {
    hide ReadVar, Load64, UnZigZag, Wrap32;
    var rec: seq<int>, p: nat := [], 0;
    assert forall rest: seq<int> :: [] + rest == rest;
    for i := 0 to |kinds|
      invariant |rec| == i
      invariant DecodeFields(kinds, bytes[..], 0, 0) == match DecodeFields(kinds, bytes[..], i, p)
          case None => None
          case Some((rest, end)) => Some((rec + rest, end))
    {
      var v;
      if kinds[i] == F64 {
        if p + 8 > bytes.Length {
          return None;
        }
        v := Load64(bytes[..], p);
        p := p + 8;
      } else {
        var z := GetVar(bytes, p);
        if z.None? {
          return None;
        }
        v := UnZigZag(z.value.0);
        if kinds[i] == I32 {
          v := Wrap32(v);
        }
        p := z.value.1;
      }
      Tail(rec, v);
      rec := rec + [v];
    }
    assert rec + [] == rec;
    r := Some(rec);
  }

  lemma Tail(rec: seq<int>, v: int)
    ensures forall rest: seq<int> :: rec + ([v] + rest) == rec + [v] + rest
  {
  }

  /** A whole record: no tags, zigzag integers, little-endian doubles. */
  lemma RecordInBytes()
    ensures EncodeFrom([F64, I32, I64], [0x3FF0_0000_0000_0000, -1, 150], 0)
         == [0, 0, 0, 0, 0, 0, -16, 63, 1, -84, 2]
  {
    hide Le64, VarBytes, EncodeFrom;
    var kinds, rec := [F64, I32, I64], [0x3FF0_0000_0000_0000, -1, 150];
    EncodeStep(kinds, rec, 0);
    EncodeStep(kinds, rec, 1);
    EncodeStep(kinds, rec, 2);
    NothingLeft(kinds, rec);
    OneAsBytes();
    VarBytesOf300();
    VarBytesLast(1);
  }

  lemma EncodeStep(kinds: seq<Kind>, rec: seq<int>, i: nat)
    requires i < |kinds| == |rec|
    ensures EncodeFrom(kinds, rec, i) == FieldBytes(kinds[i], rec[i]) + EncodeFrom(kinds, rec, i + 1)
  {
  }

  /** Zigzag at the ends of the range, where its shifts and sums wrap. */
  lemma ZigZagAtTheEnds()
    ensures ZigZag(TWO62) == -TWO63 && ZigZag(-TWO62) == TWO63 - 1 && ZigZag(-TWO63) == -1
    ensures UnZigZag(TWO63 - 1) == TWO62 && UnZigZag(-1) == 0 && UnZigZag(-2) == -1 && UnZigZag(-TWO63) == -TWO62
  {
  }

  /** A varint too wide for an int32 field leaves its low 32 bits there, as a signed number; an int64
      field keeps it whole. */
  lemma WideVarint(bytes: seq<Int8>, p: nat, z: int, o: nat)
    requires ReadVar(bytes, p) == Some((z, o))
    ensures DecodeField(I64, bytes, p) == Some((UnZigZag(z), o))
    ensures DecodeField(I32, bytes, p).Some? && DecodeField(I32, bytes, p).value.1 == o
    ensures var v := DecodeField(I32, bytes, p).value.0;
      -0x8000_0000 <= v < 0x8000_0000 && v % 0x1_0000_0000 == UnZigZag(z) % 0x1_0000_0000
  {
    hide ReadVar, UnZigZag;
  }
}
