/** The emitted protobuf codec, for any list of field kinds: exact pre-sizing, the encoder, and the
    decoder's tag loop over scratch slots it keeps from one call to the next. */
module Protobuf {
  import opened Basics
  import opened Varint

  datatype Kind = F64 | I32 | I64

  /** A field number, its kind, and its value; a float64 stands as its 64-bit pattern. */
  datatype Field = Field(k: nat, kind: Kind, v: int)

  predicate InRange(kind: Kind, v: int) {
    if kind == I32 then IsInt32(v) else IsInt64(v)
  }

  /** What the codec carries: a field number whose tag takes at most two bytes, and an integer
      that is not negative. */
  predicate Carried(f: Field) {
    1 <= f.k <= MAX_FIELD && InRange(f.kind, f.v) && (f.kind != F64 ==> f.v >= 0)
  }

  const MAX_FIELD: nat := 2047

  function Tag(k: nat, kind: Kind): nat { 8 * k + if kind == F64 then 1 else 0 }

  /** The tag as the generator spells it out: one byte, or always two. */
  function TagBytes(tag: nat): seq<Int8> {
    if tag < 128 then [ToInt8(tag)] else [ToInt8(tag % 128 + 128), ToInt8(tag / 128)]
  }

  function Payload(f: Field): seq<Int8> {
    if f.kind == F64 then Le64(f.v) else VarBytes(f.v)
  }

  function Chunk(f: Field): seq<Int8> { TagBytes(Tag(f.k, f.kind)) + Payload(f) }

  function Chunks(fs: seq<Field>): seq<Int8> {
    if fs == [] then [] else Chunk(fs[0]) + Chunks(fs[1..])
  }

  predicate IsRecord(kinds: seq<Kind>, rec: seq<int>) {
    |rec| == |kinds| && forall i :: 0 <= i < |kinds| ==> InRange(kinds[i], rec[i])
  }

  /** The fields of a record, numbered from 1. */
  function Fields(kinds: seq<Kind>, rec: seq<int>): seq<Field>
    requires |rec| == |kinds|
  {
    seq(|kinds|, i requires 0 <= i < |kinds| => Field(i + 1, kinds[i], rec[i]))
  }

  /** A two-byte tag is the varint of its number up to field 2047, and only up to there. */
  lemma TagIsVarintIff(k: nat, kind: Kind)
    ensures TagBytes(Tag(k, kind)) == VarBytes(Tag(k, kind)) <==> k <= MAX_FIELD
    ensures |TagBytes(Tag(k, kind))| == VarLen(8 * k) <==> k <= MAX_FIELD
  {
    var tag := Tag(k, kind);
    LengthAtTwo(tag);
    LengthAtTwo(8 * k);
    if 128 <= tag < 0x4000 {
      assert VarBytes(tag / 128) == [ToInt8(tag / 128)];
    }
  }

  lemma LengthAtTwo(v: nat)
    ensures VarLen(v) == 1 <==> v < 128
    ensures VarLen(v) <= 2 <==> v < 0x4000
  {
    if v >= 128 {
      assert VarLen(v) == 1 + VarLen(v / 128);
    }
  }

  /** The generator's size of the first n fields, computed from the record alone. */
  function GeneratorSize(kinds: seq<Kind>, rec: seq<int>, n: nat): nat
    requires n <= |kinds| == |rec|
  {
    if n == 0 then 0
    else GeneratorSize(kinds, rec, n - 1) + VarLen(8 * n) + if kinds[n - 1] == F64 then 8 else VarLen(rec[n - 1])
  }

  /** The constant the generator puts at the head of size: every tag, and every double. */
  function FixedPart(kinds: seq<Kind>, n: nat): nat
    requires n <= |kinds|
  {
    if n == 0 then 0 else FixedPart(kinds, n - 1) + VarLen(8 * n) + if kinds[n - 1] == F64 then 8 else 0
  }

  /** size: the constant, then one length per integer field. */
  method Size(kinds: seq<Kind>, rec: seq<int>) returns (s: nat)
    requires |kinds| == |rec|
    ensures s == GeneratorSize(kinds, rec, |kinds|)
  {
    s := FixedPart(kinds, |kinds|);
    ghost var base := s;
    for i := 0 to |kinds|
      invariant s + FixedPart(kinds, i) == base + GeneratorSize(kinds, rec, i)
    {
      if kinds[i] != F64 {
        var n := CountVar(rec[i]);
        s := s + n;
      }
    }
  }

  lemma {:induction false} ChunksAppend(fs: seq<Field>, f: Field)
    ensures Chunks(fs + [f]) == Chunks(fs) + Chunk(f)
  {
    hide Chunk;
    if fs == [] {
      assert fs + [f] == [f];
      assert Chunks([f][1..]) == [];
    } else {
      ChunksAppend(fs[1..], f);
      assert (fs + [f])[1..] == fs[1..] + [f];
    }
  }

  /** The encoded message is exactly as long as the generator says. */
  lemma {:induction false} EncodedSize(kinds: seq<Kind>, rec: seq<int>, n: nat)
    requires n <= |kinds| == |rec| && n <= MAX_FIELD
    ensures |Chunks(Fields(kinds, rec)[..n])| == GeneratorSize(kinds, rec, n)
  {
    hide Chunks, TagBytes, VarBytes, VarLen;
    if n == 0 {
      NoChunks();
    } else {
      EncodedSize(kinds, rec, n - 1);
      var fs := Fields(kinds, rec);
      assert fs[..n] == fs[..n - 1] + [fs[n - 1]];
      ChunksAppend(fs[..n - 1], fs[n - 1]);
      TagIsVarintIff(n, kinds[n - 1]);
      PayloadLength(fs[n - 1]);
    }
  }

  lemma NoChunks()
    ensures Chunks([]) == []
  {
  }

  lemma PayloadLength(f: Field)
    ensures |Payload(f)| == if f.kind == F64 then 8 else VarLen(f.v)
  {
  }

  /** Writes ws at p. */
  method Put(b: array<Int8>, p: nat, ws: seq<Int8>) returns (o: nat)
    requires p + |ws| <= b.Length
    modifies b
    ensures o == p + |ws| && b[..] == Splice(old(b[..]), p, ws)
  {
    ghost var w := b[..];
    forall i | 0 <= i < |ws| {
      b[p + i] := ws[i];
    }
    o := p + |ws|;
    assert b[..] == Splice(w, p, ws);
  }

  lemma SpliceTwo(w: seq<Int8>, done: seq<Int8>, x: seq<Int8>, y: seq<Int8>)
    requires |done| + |x| + |y| <= |w|
    ensures Splice(Splice(Splice(w, 0, done), |done|, x), |done| + |x|, y) == Splice(w, 0, done + (x + y))
  {
  }

  lemma SpliceAll(w: seq<Int8>, ws: seq<Int8>)
    requires |ws| == |w|
    ensures Splice(w, 0, ws) == ws
  {
  }

  /** The encoder: one exact buffer, one chunk per field in order. */
  method Encode(kinds: seq<Kind>, rec: seq<int>) returns (b: array<Int8>)
    requires IsRecord(kinds, rec) && |kinds| <= MAX_FIELD
    ensures fresh(b) && b[..] == Chunks(Fields(kinds, rec))
  {
    hide Chunk, Chunks, TagBytes, VarBytes, VarLen, Le64, Splice, Tag;
    ghost var fs := Fields(kinds, rec);
    var size := Size(kinds, rec);
    b := new Int8[size](_ => 0);
    ghost var w := b[..];
    EncodedSize(kinds, rec, |kinds|);
    assert fs[..|kinds|] == fs;
    NoChunks();
    SpliceNothing(w, 0);
    var p := 0;
    for i := 0 to |kinds|
      invariant p == |Chunks(fs[..i])| && b.Length == size
      invariant p <= size && b[..] == Splice(w, 0, Chunks(fs[..i]))
    {
      ghost var done := Chunks(fs[..i]);
      ghost var tag, payload := TagBytes(Tag(i + 1, kinds[i])), Payload(fs[i]);
      ChunkFits(fs, i);
      SpliceTwo(w, done, tag, payload);
      p := Put(b, p, TagBytes(Tag(i + 1, kinds[i])));
      if kinds[i] == F64 {
        p := Put(b, p, Le64(rec[i]));
      } else {
        LengthIs(rec[i]);
        p := PutVar(b, p, rec[i]);
      }
      assert fs[..i + 1] == fs[..i] + [fs[i]];
    }
    SpliceAll(w, Chunks(fs));
  }

  lemma LengthIs(v: int)
    ensures VarLen(v) == |VarBytes(v)|
  {
  }

  /** Field i's chunk is its tag and its payload, and fits behind the chunks before it. */
  lemma ChunkFits(fs: seq<Field>, i: nat)
    requires i < |fs|
    ensures Chunks(fs[..i + 1]) == Chunks(fs[..i]) + (TagBytes(Tag(fs[i].k, fs[i].kind)) + Payload(fs[i]))
    ensures |Chunks(fs[..i + 1])| <= |Chunks(fs)|
    decreases |fs|
  {
    hide Chunks, TagBytes, Payload;
    assert fs[..i + 1] == fs[..i] + [fs[i]];
    ChunksAppend(fs[..i], fs[i]);
    assert fs == fs[..i + 1] + fs[i + 1..];
    ChunksConcat(fs[..i + 1], fs[i + 1..]);
  }

  lemma {:induction false} ChunksConcat(fs: seq<Field>, gs: seq<Field>)
    ensures Chunks(fs + gs) == Chunks(fs) + Chunks(gs)
  {
    hide Chunk;
    if fs == [] {
      assert fs + gs == gs;
    } else {
      ChunksConcat(fs[1..], gs);
      assert (fs + gs)[1..] == fs[1..] + gs;
      Regroup(Chunk(fs[0]), Chunks(fs[1..]), Chunks(gs));
    }
  }

  /** The decoder's tag loop from p on: a tag, then eight bytes for wire type 1 and a varint for any
      other, into the slot of the field number. None stands for an index out of bounds. */
  function DecodeMessage(bytes: seq<Int8>, p: nat, slots: seq<int>): (r: Option<seq<int>>)
    ensures r.Some? ==> |r.value| == |slots|
    decreases |bytes| - p
  {
    if p >= |bytes| then Some(slots)
    else match ReadVar(bytes, p)
      case None => None
      case Some((tag, p1)) =>
        var field := Wrap32(tag / 8);
        if !(0 <= field < |slots|) then None
        else if tag % 8 == 1 then
          if p1 + 8 > |bytes| then None
          else DecodeMessage(bytes, p1 + 8, slots[field := Load64(bytes, p1)])
        else match ReadVar(bytes, p1)
          case None => None
          case Some((v, p2)) => DecodeMessage(bytes, p2, slots[field := v])
  }

  /** A field read out of its slot. */
  function FromSlot(kind: Kind, slot: int): int { if kind == I32 then Wrap32(slot) else slot }

  /** The record read out of the slots. */
  function FromSlots(kinds: seq<Kind>, slots: seq<int>): (rec: seq<int>)
    requires |slots| == |kinds| + 1
    ensures |rec| == |kinds|
  {
    seq(|kinds|, i requires 0 <= i < |kinds| => FromSlot(kinds[i], slots[i + 1]))
  }

  /** The decoder object with its scratch slots, one per field number, and one for number 0. */
  class Decoder {
    const kinds: seq<Kind>
    const slots: array<int>

    ghost predicate Valid() reads this { slots.Length == |kinds| + 1 }

    constructor (kinds: seq<Kind>)
      ensures Valid() && this.kinds == kinds && fresh(slots)
    {
      this.kinds := kinds;
      slots := new int[|kinds| + 1](_ => 0);
    }

    /** Decodes into whatever the slots hold from the calls before. */
    method Decode(bytes: array<Int8>) returns (r: Option<seq<int>>)
      requires Valid()
      modifies slots
      ensures Valid()
      ensures var d := DecodeMessage(bytes[..], 0, old(slots[..]));
        && r == (if d.Some? then Some(FromSlots(kinds, d.value)) else None)
        && (d.Some? ==> slots[..] == d.value)
    {
      hide ReadVar, Load64;
      var p := 0;
      while p < bytes.Length
        invariant DecodeMessage(bytes[..], p, slots[..]) == DecodeMessage(bytes[..], 0, old(slots[..]))
        decreases bytes.Length - p
      {
        var t := GetVar(bytes, p);
        if t.None? {
          return None;
        }
        var (tag, p1) := t.value;
        ReadAdvances(bytes[..], p);
        var field := Wrap32(tag / 8);
        if !(0 <= field < slots.Length) {
          return None;
        }
        ghost var before := slots[..];
        if tag % 8 == 1 {
          if p1 + 8 > bytes.Length {
            return None;
          }
          slots[field] := Load64(bytes[..], p1);
          p := p1 + 8;
        } else {
          var v := GetVar(bytes, p1);
          if v.None? {
            return None;
          }
          ReadAdvances(bytes[..], p1);
          slots[field] := v.value.0;
          p := v.value.1;
        }
        assert slots[..] == before[field := slots[field]];
      }
      r := Some(FromSlots(kinds, slots[..]));
    }
  }

  lemma ReadAdvances(bytes: seq<Int8>, p: nat)
    ensures ReadVar(bytes, p).Some? ==> p < ReadVar(bytes, p).value.1 <= |bytes|
  {
  }

  /** Decoding one chunk sets its field's slot and goes on behind it. */
  lemma DecodeChunk(bytes: seq<Int8>, p: nat, f: Field, slots: seq<int>)
    requires Carried(f) && f.k < |slots| && p + |Chunk(f)| <= |bytes| && bytes[p..p + |Chunk(f)|] == Chunk(f)
    ensures DecodeMessage(bytes, p, slots) == DecodeMessage(bytes, p + |Chunk(f)|, slots[f.k := f.v])
  {
    hide ReadVar, Load64, VarBytes, VarLen, Le64, TagBytes;
    var tag, p1, p2 := Tag(f.k, f.kind), p + |TagBytes(Tag(f.k, f.kind))|, p + |Chunk(f)|;
    TagIsVarintIff(f.k, f.kind);
    LengthIs(tag);
    PayloadLength(f);
    Halves(bytes, p, TagBytes(tag), Payload(f));
    VarRoundTrip(bytes, p, tag);
    if f.kind == F64 {
      LoadOfStore(bytes, p1, f.v);
    } else {
      LengthIs(f.v);
      VarRoundTrip(bytes, p1, f.v);
    }
  }

  lemma Halves(bytes: seq<Int8>, p: nat, x: seq<Int8>, y: seq<Int8>)
    requires p + |x| + |y| <= |bytes| && bytes[p..p + |x + y|] == x + y
    ensures bytes[p..p + |x|] == x && bytes[p + |x|..p + |x| + |y|] == y
  {
    assert x == (x + y)[..|x|] && y == (x + y)[|x|..];
    assert bytes[p..p + |x|] == bytes[p..p + |x + y|][..|x|];
    var all, second := bytes[p..p + |x + y|], bytes[p + |x|..p + |x| + |y|];
    forall i | 0 <= i < |second|
      ensures second[i] == y[i]
    {
      assert all[|x| + i] == bytes[p + (|x| + i)];
    }
  }

  /** The slots after a list of chunks, each overwriting its own. */
  function Assign(slots: seq<int>, fs: seq<Field>): (slots': seq<int>)
    requires forall f :: f in fs ==> f.k < |slots|
    ensures |slots'| == |slots|
    decreases |fs|
  {
    if fs == [] then slots else Assign(slots[fs[0].k := fs[0].v], fs[1..])
  }

  /** Decoding chunks in any order, with repeats, assigns them one after another and goes on behind
      them. */
  lemma {:induction false} DecodeChunks(bytes: seq<Int8>, p: nat, fs: seq<Field>, slots: seq<int>)
    requires forall f :: f in fs ==> Carried(f) && f.k < |slots|
    requires p + |Chunks(fs)| <= |bytes| && bytes[p..p + |Chunks(fs)|] == Chunks(fs)
    ensures DecodeMessage(bytes, p, slots) == DecodeMessage(bytes, p + |Chunks(fs)|, Assign(slots, fs))
    decreases |fs|
  {
    hide Chunk, DecodeMessage, Carried;
    if fs != [] {
      var c, rest := Chunk(fs[0]), Chunks(fs[1..]);
      Halves(bytes, p, c, rest);
      DecodeChunk(bytes, p, fs[0], slots);
      DecodeChunks(bytes, p + |c|, fs[1..], slots[fs[0].k := fs[0].v]);
    }
  }

  lemma DecodeEnd(bytes: seq<Int8>, p: nat, slots: seq<int>)
    requires p >= |bytes|
    ensures DecodeMessage(bytes, p, slots) == Some(slots)
  {
  }

  /** The last value given for field k, or what its slot held before. */
  function LastValue(fs: seq<Field>, k: nat, before: int): int {
    if fs == [] then before
    else if fs[|fs| - 1].k == k then fs[|fs| - 1].v
    else LastValue(fs[..|fs| - 1], k, before)
  }

  lemma {:induction false} AssignAppend(slots: seq<int>, fs: seq<Field>, f: Field)
    requires (forall g :: g in fs ==> g.k < |slots|) && f.k < |slots|
    ensures Assign(slots, fs + [f]) == Assign(slots, fs)[f.k := f.v]
    decreases |fs|
  {
    if fs == [] {
      assert fs + [f] == [f];
    } else {
      AssignAppend(slots[fs[0].k := fs[0].v], fs[1..], f);
      assert (fs + [f])[1..] == fs[1..] + [f];
    }
  }

  /** Of repeated fields the last one wins; a slot no chunk names keeps its old contents. */
  lemma {:induction false} LastOneWins(slots: seq<int>, fs: seq<Field>, k: nat)
    requires (forall g :: g in fs ==> g.k < |slots|) && k < |slots|
    ensures Assign(slots, fs)[k] == LastValue(fs, k, slots[k])
    decreases |fs|
  {
    hide Assign;
    if fs == [] {
      AssignNothing(slots);
    } else {
      var front, last := fs[..|fs| - 1], fs[|fs| - 1];
      assert fs == front + [last];
      AssignAppend(slots, front, last);
      LastOneWins(slots, front, k);
    }
  }

  lemma AssignNothing(slots: seq<int>)
    ensures Assign(slots, []) == slots
  {
  }

  /** A list of chunks that only repeats a record's own fields gives each field its value. */
  lemma {:induction false} LastValueAgrees(fs: seq<Field>, f: Field, before: int)
    requires f in fs && forall g :: g in fs && g.k == f.k ==> g.v == f.v
    ensures LastValue(fs, f.k, before) == f.v
  {
    if fs[|fs| - 1].k != f.k {
      assert f in fs[..|fs| - 1];
      LastValueAgrees(fs[..|fs| - 1], f, before);
    }
  }

  /** The round trip: whatever the slots held before, a message made of a record's chunks in any
      order, each present at least once, decodes to the record. */
  lemma RoundTripInAnyOrder(kinds: seq<Kind>, rec: seq<int>, fs: seq<Field>, slots: seq<int>)
    requires IsRecord(kinds, rec) && |kinds| <= MAX_FIELD && |slots| == |kinds| + 1
    requires forall i :: 0 <= i < |kinds| && kinds[i] != F64 ==> rec[i] >= 0
    requires forall f :: f in fs ==> f in Fields(kinds, rec)
    requires forall f :: f in Fields(kinds, rec) ==> f in fs
    ensures DecodeMessage(Chunks(fs), 0, slots).Some?
    ensures FromSlots(kinds, DecodeMessage(Chunks(fs), 0, slots).value) == rec
  {
    hide Chunks, DecodeMessage, Assign, LastValue;
    var all := Fields(kinds, rec);
    forall f | f in fs
      ensures Carried(f) && f.k < |slots|
    {
      assert f in all;
    }
    assert Chunks(fs)[0..|Chunks(fs)|] == Chunks(fs);
    DecodeChunks(Chunks(fs), 0, fs, slots);
    DecodeEnd(Chunks(fs), |Chunks(fs)|, Assign(slots, fs));
    forall i | 0 <= i < |kinds|
      ensures Assign(slots, fs)[i + 1] == rec[i]
    {
      assert all[i] in fs;
      LastOneWins(slots, fs, i + 1);
      LastValueAgrees(fs, all[i], slots[i + 1]);
    }
  }

  /** In particular what Encode wrote. */
  lemma RoundTrip(kinds: seq<Kind>, rec: seq<int>, slots: seq<int>)
    requires IsRecord(kinds, rec) && |kinds| <= MAX_FIELD && |slots| == |kinds| + 1
    requires forall i :: 0 <= i < |kinds| && kinds[i] != F64 ==> rec[i] >= 0
    ensures DecodeMessage(Chunks(Fields(kinds, rec)), 0, slots).Some?
    ensures FromSlots(kinds, DecodeMessage(Chunks(Fields(kinds, rec)), 0, slots).value) == rec
  {
    RoundTripInAnyOrder(kinds, rec, Fields(kinds, rec), slots);
  }

  lemma BytesStep(u: nat, n: nat)
    requires n >= 1
    ensures Bytes(u, n) == [u % 256] + Bytes(u / 256, n - 1)
  {
  }

  lemma OneAsDigits()
    ensures Bytes(0x3FF0_0000_0000_0000, 8) == [0, 0, 0, 0, 0, 0, 240, 63]
  {
    hide Bytes;
    BytesStep(0x3FF0_0000_0000_0000, 8);
    BytesStep(0x3F_F000_0000_0000, 7);
    BytesStep(0x3FF0_0000_0000, 6);
    BytesStep(0x3F_F000_0000, 5);
    BytesStep(0x3FF0_0000, 4);
    BytesStep(0x3F_F000, 3);
    BytesStep(0x3FF0, 2);
    BytesStep(0x3F, 1);
  }

  /** The double 1.0, in its eight bytes. */
  lemma OneAsBytes()
    ensures Le64(0x3FF0_0000_0000_0000) == [0, 0, 0, 0, 0, 0, -16, 63]
  {
    hide Bytes;
    OneAsDigits();
  }

  /** A double at field 5 under wire type 1, and an int32 at field 16, whose tag takes two bytes. */
  lemma ChunksInBytes()
    ensures Chunk(Field(5, F64, 0x3FF0_0000_0000_0000)) == [41, 0, 0, 0, 0, 0, 0, -16, 63]
    ensures Chunk(Field(16, I32, 300)) == [-128, 1, -84, 2]
    ensures Chunk(Field(100, I64, 0)) == [-96, 6, 0]
  {
    hide Le64, VarBytes;
    OneAsBytes();
    VarBytesOf300();
    VarBytesLast(0);
  }

  /** A whole message: its fields numbered from 1, in order, nothing around them. */
  lemma MessageInBytes()
    ensures Chunks(Fields([I32, F64, I64], [300, 0x3FF0_0000_0000_0000, 5]))
         == [8, -84, 2, 17, 0, 0, 0, 0, 0, 0, -16, 63, 24, 5]
  {
    hide Le64, VarBytes, Chunks;
    var a, b, c := Field(1, I32, 300), Field(2, F64, 0x3FF0_0000_0000_0000), Field(3, I64, 5);
    assert Fields([I32, F64, I64], [300, 0x3FF0_0000_0000_0000, 5]) == [] + [a] + [b] + [c];
    NoChunks();
    ChunksAppend([], a);
    ChunksAppend([] + [a], b);
    ChunksAppend([] + [a] + [b], c);
    OneAsBytes();
    VarBytesOf300();
    VarBytesLast(5);
  }

  /** Wire types other than 1 are read as varints, a field number without a slot fails, and so does
      a message that ends early. */
  lemma OddMessages()
    ensures DecodeMessage([13, 7], 0, [0, 0]) == Some([0, 7])
    ensures DecodeMessage([0, 9], 0, [0, 0]) == Some([9, 0])
    ensures DecodeMessage([16, 7], 0, [0, 0]) == None
    ensures DecodeMessage([8], 0, [0, 0]) == None && DecodeMessage([9, 1, 2], 0, [0, 0]) == None
    ensures DecodeMessage([], 0, [3, 4]) == Some([3, 4])
  {
    hide ReadFrom, VarBytes;
    OneByteReads([13, 7], 0);
    OneByteReads([13, 7], 1);
    OneByteReads([0, 9], 0);
    OneByteReads([0, 9], 1);
    OneByteReads([16, 7], 0);
    OneByteReads([8], 0);
    OneByteReads([9, 1, 2], 0);
    assert ReadVar([8], 1) == None by {
      NothingReads([8]);
    }
    assert [0, 0][1 := 7] == [0, 7] && [0, 0][0 := 9] == [9, 0];
    DecodeEnd([13, 7], 2, [0, 7]);
    DecodeEnd([0, 9], 2, [9, 0]);
  }

  lemma OneByteReads(bytes: seq<Int8>, p: nat)
    requires p < |bytes| && bytes[p] >= 0
    ensures ReadVar(bytes, p) == Some((bytes[p] as int, p + 1))
  {
    hide Shifted;
    ReadStep(bytes, p, 0, 0);
    ShiftedBasics(Unsigned(bytes[p]) % 128);
  }

  lemma NothingReads(bytes: seq<Int8>)
    ensures ReadVar(bytes, |bytes|) == None
  {
  }

  /** Reading the slots out, number 0 passed over: an int32 field keeps its slot's low 32 bits, as a
      signed number, and the others their whole slot. */
  lemma SlotsAreRead()
    ensures FromSlots([I32, I64, I32, F64], [9, 0x1_0000_0005, 0x1_0000_0005, 0x8000_0000, -1])
         == [5, 0x1_0000_0005, -0x8000_0000, -1]
  {
  }

  /** Of a tag's field number only the low 32 bits count, read as a signed number. */
  lemma WideTag(bytes: seq<Int8>, p: nat, slots: seq<int>, tag: int, p1: nat, v: int, p2: nat, field: nat)
    requires p < |bytes| && ReadVar(bytes, p) == Some((tag, p1)) && ReadVar(bytes, p1) == Some((v, p2))
    requires field < 0x8000_0000 && tag / 8 % 0x1_0000_0000 == field && tag % 8 != 1
    ensures DecodeMessage(bytes, p, slots) ==
      if field < |slots| then DecodeMessage(bytes, p2, slots[field := v]) else None
  {
    hide ReadVar;
    assert Wrap32(tag / 8) == field;
  }

  /** A field number with its 32nd bit set is negative, and has no slot. */
  lemma NegativeField(bytes: seq<Int8>, p: nat, slots: seq<int>, tag: int, p1: nat)
    requires p < |bytes| && ReadVar(bytes, p) == Some((tag, p1)) && tag / 8 % 0x1_0000_0000 >= 0x8000_0000
    ensures DecodeMessage(bytes, p, slots) == None
  {
    hide ReadVar;
    assert Wrap32(tag / 8) < 0;
  }
}
