/** Exactly which values, fields and records the protobuf codec brings back. */
module ProtobufExact {
  import opened Basics
  import opened Varint
  import opened Protobuf

  /** The one byte a negative integer is written as: cut off behind it when its top bit is set, and
      otherwise read as that byte. */
  lemma ReadNegative(bytes: seq<Int8>, p: nat, v: int)
    requires -TWO63 <= v < 0 && p + 1 == |bytes| && bytes[p..] == VarBytes(v)
    ensures ReadVar(bytes, p) == if v % 256 < 128 then Some((v % 256, p + 1)) else None
  {
    hide Shifted, VarBytes;
    VarBytesLast(v);
    assert bytes[p] == bytes[p..][0] == ToInt8(v);
    ReadStep(bytes, p, 0, 0);
    ShiftedBasics(Unsigned(bytes[p]) % 128);
  }

  /** One round of the tag loop at a varint field. */
  lemma VarintRound(bytes: seq<Int8>, p: nat, k: nat, p1: nat, slots: seq<int>)
    requires p < |bytes| && 1 <= k <= MAX_FIELD && k < |slots| && ReadVar(bytes, p) == Some((8 * k, p1))
    ensures DecodeMessage(bytes, p, slots) == match ReadVar(bytes, p1)
      case None => None
      case Some((v, p2)) => DecodeMessage(bytes, p2, slots[k := v])
  {
    hide ReadVar, Load64;
  }

  /** A field whose integer is negative, last in a message: the decode fails, or its slot gets a byte
      that is not negative. */
  lemma DecodeNegative(bytes: seq<Int8>, p: nat, f: Field, slots: seq<int>)
    requires 1 <= f.k <= MAX_FIELD && InRange(f.kind, f.v) && f.kind != F64 && f.v < 0 && f.k < |slots|
    requires p + |Chunk(f)| == |bytes| && bytes[p..] == Chunk(f)
    ensures DecodeMessage(bytes, p, slots) == if f.v % 256 < 128 then Some(slots[f.k := f.v % 256]) else None
  {
    hide ReadVar, VarBytes, VarLen, TagBytes, DecodeMessage;
    var tag := Tag(f.k, f.kind);
    var head, tail := TagBytes(tag), VarBytes(f.v);
    TagIsVarintIff(f.k, f.kind);
    LengthIs(tag);
    VarBytesLast(f.v);
    assert bytes[p..p + |head + tail|] == head + tail;
    Halves(bytes, p, head, tail);
    VarRoundTrip(bytes, p, tag);
    VarintRound(bytes, p, f.k, p + |head|, slots);
    ReadNegative(bytes, p + |head|, f.v);
    DecodeEnd(bytes, |bytes|, slots[f.k := f.v % 256]);
  }

  /** A chunk sets its slot to its value whatever follows and whatever the slots hold, if and only
      if it carries no negative integer. */
  lemma ChunkSurvivesIff(f: Field)
    requires 1 <= f.k <= MAX_FIELD && InRange(f.kind, f.v)
    ensures Carried(f) <==> forall tail: seq<Int8>, slots: seq<int> :: f.k < |slots| ==>
      DecodeMessage(Chunk(f) + tail, 0, slots) == DecodeMessage(Chunk(f) + tail, |Chunk(f)|, slots[f.k := f.v])
  {
    hide DecodeMessage, Chunk;
    if Carried(f) {
      forall tail: seq<Int8>, slots: seq<int> | f.k < |slots|
        ensures DecodeMessage(Chunk(f) + tail, 0, slots)
             == DecodeMessage(Chunk(f) + tail, |Chunk(f)|, slots[f.k := f.v])
      {
        DecodeChunk(Chunk(f) + tail, 0, f, slots);
      }
    } else {
      var slots := seq(f.k + 1, _ => 0);
      var bytes := Chunk(f) + [];
      DecodeNegative(bytes, 0, f, slots);
      DecodeEnd(bytes, |Chunk(f)|, slots[f.k := f.v]);
      assert slots[f.k := f.v][f.k] < 0;
    }
  }

  /** The record comes back from its own message, decoded into these slots. */
  predicate ComesBack(kinds: seq<Kind>, rec: seq<int>, slots: seq<int>)
    requires |rec| == |kinds| && |slots| == |kinds| + 1
  {
    var d := DecodeMessage(Chunks(Fields(kinds, rec)), 0, slots);
    d.Some? && FromSlots(kinds, d.value) == rec
  }

  /** A record whose last field is its only negative integer comes back from no slots at all. */
  lemma LastNegativeIsLost(kinds: seq<Kind>, rec: seq<int>, slots: seq<int>)
    requires IsRecord(kinds, rec) && 1 <= |kinds| <= MAX_FIELD && |slots| == |kinds| + 1
    requires kinds[|kinds| - 1] != F64 && rec[|kinds| - 1] < 0
    requires forall i :: 0 <= i < |kinds| - 1 && kinds[i] != F64 ==> rec[i] >= 0
    ensures !ComesBack(kinds, rec, slots)
  {
    hide Chunks, Chunk, DecodeMessage, Assign;
    var fs, n := Fields(kinds, rec), |kinds| - 1;
    var front, last := fs[..n], fs[n];
    assert fs == front + [last];
    ChunksAppend(front, last);
    var bytes, p := Chunks(fs), |Chunks(front)|;
    assert bytes[0..p] == Chunks(front) && bytes[p..] == Chunk(last);
    DecodeChunks(bytes, 0, front, slots);
    DecodeNegative(bytes, p, last, Assign(slots, front));
  }

  /** The least such record, decoded: cut off inside its varint. */
  lemma NegativeRecordIsLost(slots: seq<int>)
    requires |slots| == 2
    ensures DecodeMessage(Chunks(Fields([I64], [-1])), 0, slots) == None
  {
    hide DecodeMessage, Chunk;
    var f := Field(1, I64, -1);
    assert Fields([I64], [-1]) == [] + [f];
    ChunksAppend([], f);
    NoChunks();
    assert Chunks([] + [f]) == Chunk(f);
    assert Chunk(f)[0..] == Chunk(f);
    DecodeNegative(Chunk(f), 0, f, slots);
  }

  /** The fewest bytes a slot can be set in so that a field of this kind reads v: eight as a wire-1
      payload, or a varint. */
  function Least(kind: Kind, v: int): nat {
    if v >= 0 && VarLen(v) <= 8 then VarLen(v) else if v < 0 && kind == I32 then 5 else 8
  }

  lemma VarintTakesLeast(bytes: seq<Int8>, p: nat, kind: Kind, v: int)
    requires ReadVar(bytes, p).Some? && InRange(kind, v) && FromSlot(kind, ReadVar(bytes, p).value.0) == v
    ensures ReadVar(bytes, p).value.1 - p >= Least(kind, v)
  {
    hide VarBytes, ReadVar;
    var (z, p') := ReadVar(bytes, p).value;
    ReadTakesLength(bytes, p);
    if z >= 0 {
      if v >= 0 {
        LengthGrows(v, z);
      } else {
        LengthGrows(0x8000_0000, z);
        FiveBytes();
      }
    }
  }

  lemma FiveBytes()
    ensures VarLen(0x8000_0000) == 5
  {
    assert VarLen(8) == 1;
    assert VarLen(0x400) == 2;
    assert VarLen(0x2_0000) == 3;
    assert VarLen(0x100_0000) == 4;
  }

  /** A tag that leads to field k takes as many bytes as the generator counts. */
  lemma TagTakes(bytes: seq<Int8>, p: nat, k: nat)
    requires ReadVar(bytes, p).Some? && 1 <= k <= MAX_FIELD && Wrap32(ReadVar(bytes, p).value.0 / 8) == k
    ensures ReadVar(bytes, p).value.1 - p >= VarLen(8 * k)
  {
    hide VarBytes, ReadVar;
    var tag := ReadVar(bytes, p).value.0;
    ReadTakesLength(bytes, p);
    LengthAtTwo(8 * k);
    if tag >= 0 {
      LengthGrows(8 * k, tag);
    }
  }

  /** What field k of the record costs a decode that has to set it. */
  function Cost(kinds: seq<Kind>, rec: seq<int>, k: nat): nat
    requires 1 <= k <= |kinds| == |rec|
  {
    VarLen(8 * k) + Least(kinds[k - 1], rec[k - 1])
  }

  predicate Reads(kinds: seq<Kind>, rec: seq<int>, k: nat, slot: int)
    requires 1 <= k <= |kinds| == |rec|
  {
    FromSlot(kinds[k - 1], slot) == rec[k - 1]
  }

  /** What the fields up to n cost that do not read right yet. */
  function Owed(kinds: seq<Kind>, rec: seq<int>, slots: seq<int>, n: nat): nat
    requires n <= |kinds| == |rec| && |slots| == |kinds| + 1
  {
    if n == 0 then 0
    else Owed(kinds, rec, slots, n - 1) + if Reads(kinds, rec, n, slots[n]) then 0 else Cost(kinds, rec, n)
  }

  /** Setting one slot pays for at most that field. */
  lemma {:induction false} OwedAfter(kinds: seq<Kind>, rec: seq<int>, slots: seq<int>, k: nat, x: int, n: nat)
    requires n <= |kinds| == |rec| && |slots| == |kinds| + 1 && k < |slots|
    ensures Owed(kinds, rec, slots, n) <= Owed(kinds, rec, slots[k := x], n)
      + if 1 <= k <= n && Reads(kinds, rec, k, x) then Cost(kinds, rec, k) else 0
  {
    hide Cost, Reads;
    if n > 0 {
      OwedAfter(kinds, rec, slots, k, x, n - 1);
    }
  }

  /** One round of the tag loop: it sets one slot, and setting it right takes at least its cost. */
  lemma DecodeRound(kinds: seq<Kind>, rec: seq<int>, bytes: seq<Int8>, p: nat, slots: seq<int>)
    returns (k: nat, x: int, p': nat)
    requires IsRecord(kinds, rec) && |kinds| <= MAX_FIELD && |slots| == |kinds| + 1
    requires p < |bytes| && DecodeMessage(bytes, p, slots).Some?
    ensures p < p' <= |bytes| && k < |slots|
    ensures DecodeMessage(bytes, p, slots) == DecodeMessage(bytes, p', slots[k := x])
    ensures k >= 1 && Reads(kinds, rec, k, x) ==> p' - p >= Cost(kinds, rec, k)
  {
    hide ReadVar, Load64, VarBytes, VarLen, FromSlot, Wrap32;
    var (tag, p1) := ReadVar(bytes, p).value;
    ReadAdvances(bytes, p);
    k := Wrap32(tag / 8);
    if k >= 1 {
      TagTakes(bytes, p, k);
    }
    if tag % 8 == 1 {
      x, p' := Load64(bytes, p1), p1 + 8;
    } else {
      var (v, p2) := ReadVar(bytes, p1).value;
      ReadAdvances(bytes, p1);
      x, p' := v, p2;
      if k >= 1 && Reads(kinds, rec, k, x) {
        VarintTakesLeast(bytes, p1, kinds[k - 1], rec[k - 1]);
      }
    }
  }

  /** A message that decodes to the record is at least as long as what the slots owe it. */
  lemma {:induction false} DecodePays(kinds: seq<Kind>, rec: seq<int>, bytes: seq<Int8>, p: nat, slots: seq<int>)
    requires IsRecord(kinds, rec) && |kinds| <= MAX_FIELD && |slots| == |kinds| + 1 && p <= |bytes|
    requires DecodeMessage(bytes, p, slots).Some? && FromSlots(kinds, DecodeMessage(bytes, p, slots).value) == rec
    ensures |bytes| - p >= Owed(kinds, rec, slots, |kinds|)
    decreases |bytes| - p
  {
    hide DecodeMessage, Owed, Cost;
    if p == |bytes| {
      DecodeEnd(bytes, p, slots);
      NothingOwed(kinds, rec, slots, |kinds|);
    } else {
      var k, x, p' := DecodeRound(kinds, rec, bytes, p, slots);
      DecodePays(kinds, rec, bytes, p', slots[k := x]);
      OwedAfter(kinds, rec, slots, k, x, |kinds|);
    }
  }

  lemma {:induction false} NothingOwed(kinds: seq<Kind>, rec: seq<int>, slots: seq<int>, n: nat)
    requires n <= |kinds| == |rec| && |slots| == |kinds| + 1 && FromSlots(kinds, slots) == rec
    ensures Owed(kinds, rec, slots, n) == 0
  {
    hide Cost;
    if n > 0 {
      NothingOwed(kinds, rec, slots, n - 1);
      assert FromSlots(kinds, slots)[n - 1] == rec[n - 1];
    }
  }

  /** A value the codec writes in no more bytes than any way of setting it takes: a double of 2^49
      or more or with the sign bit set, as a pattern, and an integer below 2^56. */
  predicate Tight(kind: Kind, v: int) {
    if kind == F64 then v < 0 || v >= Pow2(49) else v < Pow2(56)
  }

  predicate AllTight(kinds: seq<Kind>, rec: seq<int>)
    requires |rec| == |kinds|
  {
    forall i :: 0 <= i < |kinds| ==> Tight(kinds[i], rec[i])
  }

  /** No slot up to n reads as the record's field. */
  predicate AllWrong(kinds: seq<Kind>, rec: seq<int>, slots: seq<int>, n: nat)
    requires n <= |kinds| == |rec| && |slots| == |kinds| + 1
  {
    forall k :: 1 <= k <= n ==> !Reads(kinds, rec, k, slots[k])
  }

  lemma TightIsLeast(kind: Kind, v: int)
    requires InRange(kind, v) && Tight(kind, v)
    ensures Least(kind, v) >= if kind == F64 then 8 else VarLen(v)
    ensures kind != F64 && v < 0 ==> Least(kind, v) > VarLen(v)
  {
    hide Pow2;
    if v >= 0 {
      LengthBelowLimit(v, 7);
      LengthBelowLimit(v, 8);
    }
  }

  /** Where every slot reads wrong, a tight record owes its own length, and more when it has a
      negative integer. */
  lemma {:induction false} OwesItsLength(kinds: seq<Kind>, rec: seq<int>, slots: seq<int>, n: nat)
    requires IsRecord(kinds, rec) && n <= |kinds| && |slots| == |kinds| + 1
    requires AllTight(kinds, rec) && AllWrong(kinds, rec, slots, n)
    ensures Owed(kinds, rec, slots, n) >= GeneratorSize(kinds, rec, n)
    ensures (exists i :: 0 <= i < n && kinds[i] != F64 && rec[i] < 0) ==>
      Owed(kinds, rec, slots, n) > GeneratorSize(kinds, rec, n)
  {
    hide Tight, Least, Reads, VarLen, VarBytes;
    if n > 0 {
      OwesItsLength(kinds, rec, slots, n - 1);
      TightIsLeast(kinds[n - 1], rec[n - 1]);
    }
  }

  /** A tight record with a negative integer anywhere comes back from no slots that hold none of its
      values. */
  lemma TightNegativeIsLost(kinds: seq<Kind>, rec: seq<int>, slots: seq<int>)
    requires IsRecord(kinds, rec) && |kinds| <= MAX_FIELD && |slots| == |kinds| + 1
    requires AllTight(kinds, rec) && AllWrong(kinds, rec, slots, |kinds|)
    requires exists i :: 0 <= i < |kinds| && kinds[i] != F64 && rec[i] < 0
    ensures !ComesBack(kinds, rec, slots)
  {
    hide DecodeMessage, Chunks, Owed, Tight, Reads, FromSlots;
    OwesItsLength(kinds, rec, slots, |kinds|);
    EncodedSize(kinds, rec, |kinds|);
    var bytes := Chunks(Fields(kinds, rec));
    assert Fields(kinds, rec)[..|kinds|] == Fields(kinds, rec);
    if ComesBack(kinds, rec, slots) {
      DecodePays(kinds, rec, bytes, 0, slots);
    }
  }

  /** Slots that hold none of a record's values. */
  function WrongSlots(kinds: seq<Kind>, rec: seq<int>): (slots: seq<int>)
    requires |rec| == |kinds|
    ensures |slots| == |kinds| + 1
    ensures AllWrong(kinds, rec, slots, |kinds|)
  {
    seq(|kinds| + 1, k requires 0 <= k <= |kinds| => if k >= 1 && rec[k - 1] == 0 then 1 else 0)
  }

  /** A tight record comes back from every slots if and only if it has no negative integer. */
  lemma TightRoundTripIff(kinds: seq<Kind>, rec: seq<int>)
    requires IsRecord(kinds, rec) && |kinds| <= MAX_FIELD && AllTight(kinds, rec)
    ensures (forall slots: seq<int> :: |slots| == |kinds| + 1 ==> ComesBack(kinds, rec, slots))
      <==> forall i :: 0 <= i < |kinds| && kinds[i] != F64 ==> rec[i] >= 0
  {
    hide ComesBack, Tight, Reads;
    if forall i :: 0 <= i < |kinds| && kinds[i] != F64 ==> rec[i] >= 0 {
      forall slots: seq<int> | |slots| == |kinds| + 1
        ensures ComesBack(kinds, rec, slots)
      {
        NonNegativeComesBack(kinds, rec, slots);
      }
    } else {
      TightNegativeIsLost(kinds, rec, WrongSlots(kinds, rec));
    }
  }

  lemma NonNegativeComesBack(kinds: seq<Kind>, rec: seq<int>, slots: seq<int>)
    requires IsRecord(kinds, rec) && |kinds| <= MAX_FIELD && |slots| == |kinds| + 1
    requires forall i :: 0 <= i < |kinds| && kinds[i] != F64 ==> rec[i] >= 0
    ensures ComesBack(kinds, rec, slots)
  {
    hide DecodeMessage, Chunks, FromSlots;
    RoundTrip(kinds, rec, slots);
  }
}
