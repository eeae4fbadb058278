/** SipHash-2-4 as a streaming state: a partial word in a buffer, the four state words, and the
    count of bytes. Whatever way a message is cut into updates, the first finish gives the
    SipHash-2-4 of the whole (section 2 of the SipHash paper by Aumasson and Bernstein). */
module SipHash {
  import opened Basics

  type Word = bv64
  type Byte = bv8

  datatype V = V(v0: Word, v1: Word, v2: Word, v3: Word)

  function Rotl(x: Word, n: bv7): Word
    requires 0 < n < 64
  {
    (x << n) | (x >> (64 - n))
  }

  function Add(x: Word, y: Word): Word { x + y }
  function Xor(x: Word, y: Word): Word { x ^ y }

  /** The round as the paper interleaves it: two half-rounds on the pairs (v0, v1) and (v2, v3),
      then two on (v2, v1) and (v0, v3). */
  function Round(s: V): V {
    var a0, a2 := Add(s.v0, s.v1), Add(s.v2, s.v3);
    var a1, a3 := Xor(Rotl(s.v1, 13), a0), Xor(Rotl(s.v3, 16), a2);
    var c0 := Rotl(a0, 32);
    var b2, b0 := Add(a2, a1), Add(c0, a3);
    var b1, b3 := Xor(Rotl(a1, 17), b2), Xor(Rotl(a3, 21), b0);
    V(b0, b1, Rotl(b2, 32), b3)
  }

  function Sub(x: Word, y: Word): Word { x - y }

  function Rotr(x: Word, n: bv7): Word
    requires 0 < n < 64
  {
    (x >> n) | (x << (64 - n))
  }

  /** The round run backwards. */
  function Unround(s: V): V {
    var b2 := Rotr(s.v2, 32);
    var a1, a3 := Rotr(Xor(s.v1, b2), 17), Rotr(Xor(s.v3, s.v0), 21);
    var a2, c0 := Sub(b2, a1), Sub(s.v0, a3);
    var a0 := Rotr(c0, 32);
    var v1, v3 := Rotr(Xor(a1, a0), 13), Rotr(Xor(a3, a2), 16);
    V(Sub(a0, v1), v1, Sub(a2, v3), v3)
  }

  lemma SubOfSum(x: Word, y: Word)
    ensures Sub(x + y, y) == x && Add(x, y) == x + y
  {
  }

  lemma AddOfDifference(x: Word, y: Word)
    ensures Add(x - y, y) == x && Sub(x, y) == x - y
  {
  }

  lemma AddUndone(x: Word, y: Word)
    ensures Sub(Add(x, y), y) == x && Add(Sub(x, y), y) == x
  {
    hide Add, Sub;
    SubOfSum(x, y);
    AddOfDifference(x, y);
  }

  lemma XorUndone(x: Word, y: Word)
    ensures Xor(Xor(x, y), y) == x
  {
    assert Xor(x ^ y, y) == x && Xor(x, y) == x ^ y;
  }

  lemma Rot13Undone(x: Word)
    ensures Rotr(Rotl(x, 13), 13) == x && Rotl(Rotr(x, 13), 13) == x
  {
    assert Rotr((x << 13) | (x >> 51), 13) == x && Rotl(x, 13) == (x << 13) | (x >> 51);
    assert Rotl((x >> 13) | (x << 51), 13) == x && Rotr(x, 13) == (x >> 13) | (x << 51);
  }

  lemma Rot16Undone(x: Word)
    ensures Rotr(Rotl(x, 16), 16) == x && Rotl(Rotr(x, 16), 16) == x
  {
    assert Rotr((x << 16) | (x >> 48), 16) == x && Rotl(x, 16) == (x << 16) | (x >> 48);
    assert Rotl((x >> 16) | (x << 48), 16) == x && Rotr(x, 16) == (x >> 16) | (x << 48);
  }

  lemma Rot17Undone(x: Word)
    ensures Rotr(Rotl(x, 17), 17) == x && Rotl(Rotr(x, 17), 17) == x
  {
    assert Rotr((x << 17) | (x >> 47), 17) == x && Rotl(x, 17) == (x << 17) | (x >> 47);
    assert Rotl((x >> 17) | (x << 47), 17) == x && Rotr(x, 17) == (x >> 17) | (x << 47);
  }

  lemma Rot21Undone(x: Word)
    ensures Rotr(Rotl(x, 21), 21) == x && Rotl(Rotr(x, 21), 21) == x
  {
    assert Rotr((x << 21) | (x >> 43), 21) == x && Rotl(x, 21) == (x << 21) | (x >> 43);
    assert Rotl((x >> 21) | (x << 43), 21) == x && Rotr(x, 21) == (x >> 21) | (x << 43);
  }

  lemma Rot32Undone(x: Word)
    ensures Rotr(Rotl(x, 32), 32) == x && Rotl(Rotr(x, 32), 32) == x
  {
    assert Rotr((x << 32) | (x >> 32), 32) == x && Rotl(x, 32) == (x << 32) | (x >> 32);
    assert Rotl((x >> 32) | (x << 32), 32) == x && Rotr(x, 32) == (x >> 32) | (x << 32);
  }

  /** The round loses nothing: run backwards it gives the four words back. */
  lemma RoundUndone(s: V)
    ensures Unround(Round(s)) == s
  {
    hide Add, Sub, Xor, Rotl, Rotr;
    var a0, a2 := Add(s.v0, s.v1), Add(s.v2, s.v3);
    var a1, a3 := Xor(Rotl(s.v1, 13), a0), Xor(Rotl(s.v3, 16), a2);
    var c0 := Rotl(a0, 32);
    var b2, b0 := Add(a2, a1), Add(c0, a3);
    Rot32Undone(b2);
    XorUndone(Rotl(a1, 17), b2);
    Rot17Undone(a1);
    XorUndone(Rotl(a3, 21), b0);
    Rot21Undone(a3);
    AddUndone(a2, a1);
    AddUndone(c0, a3);
    Rot32Undone(a0);
    XorUndone(Rotl(s.v1, 13), a0);
    Rot13Undone(s.v1);
    XorUndone(Rotl(s.v3, 16), a2);
    Rot16Undone(s.v3);
    AddUndone(s.v0, s.v1);
    AddUndone(s.v2, s.v3);
  }

  /** And it reaches every state: the round is a permutation. */
  lemma UnroundUndone(s: V)
    ensures Round(Unround(s)) == s
  {
    hide Add, Sub, Xor, Rotl, Rotr;
    var b2 := Rotr(s.v2, 32);
    var a1, a3 := Rotr(Xor(s.v1, b2), 17), Rotr(Xor(s.v3, s.v0), 21);
    var a2, c0 := Sub(b2, a1), Sub(s.v0, a3);
    var a0 := Rotr(c0, 32);
    var v1, v3 := Rotr(Xor(a1, a0), 13), Rotr(Xor(a3, a2), 16);
    AddUndone(a0, v1);
    AddUndone(a2, v3);
    Rot13Undone(Xor(a1, a0));
    XorUndone(a1, a0);
    Rot16Undone(Xor(a3, a2));
    XorUndone(a3, a2);
    Rot32Undone(c0);
    AddUndone(b2, a1);
    AddUndone(s.v0, a3);
    Rot17Undone(Xor(s.v1, b2));
    XorUndone(s.v1, b2);
    Rot21Undone(Xor(s.v3, s.v0));
    XorUndone(s.v3, s.v0);
    Rot32Undone(s.v2);
  }

  function LoadLe64(p: seq<Byte>): Word
    requires |p| == 8
  {
    (p[0] as Word) | ((p[1] as Word) << 8) | ((p[2] as Word) << 16) | ((p[3] as Word) << 24)
    | ((p[4] as Word) << 32) | ((p[5] as Word) << 40) | ((p[6] as Word) << 48) | ((p[7] as Word) << 56)
  }

  function Init(k0: Word, k1: Word): V {
    V(Xor(k0, 0x736f6d6570736575), Xor(k1, 0x646f72616e646f6d),
      Xor(k0, 0x6c7967656e657261), Xor(k1, 0x7465646279746573))
  }

  /** Two compression rounds around the message word m. */
  function Compress(s: V, m: Word): V {
    var t := Round(Round(s.(v3 := Xor(s.v3, m))));
    t.(v0 := Xor(t.v0, m))
  }

  /** All words of a message whose length is a multiple of eight, compressed in order. */
  function Absorb(s: V, msg: seq<Byte>): V
    requires |msg| % 8 == 0
  {
    if msg == [] then s
    else Compress(Absorb(s, msg[..|msg| - 8]), LoadLe64(msg[|msg| - 8..]))
  }

  function Zeros(n: nat): (z: seq<Byte>)
    ensures |z| == n
  {
    seq(n, _ => 0)
  }

  /** The low byte of a count. */
  function LowByte(n: nat): Byte { (n % 256) as Byte }

  /** The padded message: null bytes up to the last byte of a word, which is the length. */
  function Padded(msg: seq<Byte>): (p: seq<Byte>)
    ensures |p| == 8 * (|msg| / 8 + 1) && msg <= p
  {
    msg + Zeros(7 - |msg| % 8) + [LowByte(|msg|)]
  }

  function Rounds(s: V, n: nat): V {
    if n == 0 then s else Round(Rounds(s, n - 1))
  }

  function Finish(s: V): Word {
    var t := Rounds(s.(v2 := Xor(s.v2, 0xFF)), 4);
    Xor(Xor(Xor(t.v0, t.v1), t.v2), t.v3)
  }

  /** SipHash-2-4 of a message under a 128-bit key. */
  function SipHash24(k0: Word, k1: Word, msg: seq<Byte>): Word {
    Finish(Absorb(Init(k0, k1), Padded(msg)))
  }

  lemma AbsorbWord(s: V, msg: seq<Byte>, word: seq<Byte>)
    requires |msg| % 8 == 0 && |word| == 8
    ensures Absorb(s, msg + word) == Compress(Absorb(s, msg), LoadLe64(word))
  {
    assert (msg + word)[..|msg|] == msg && (msg + word)[|msg|..] == word;
  }

  /** v and the buffered tail are what the bytes msg leave behind: the whole words absorbed. */
  ghost predicate Held(v: V, tail: seq<Byte>, init: V, msg: seq<Byte>) {
    && |tail| == |msg| % 8
    && tail == msg[|msg| - |tail|..]
    && v == Absorb(init, msg[..|msg| - |tail|])
  }

  lemma HeldNothing(init: V)
    ensures Held(init, [], init, [])
  {
  }

  lemma HeldMore(v: V, tail: seq<Byte>, init: V, msg: seq<Byte>, chunk: seq<Byte>)
    requires Held(v, tail, init, msg) && |tail| + |chunk| < 8
    ensures Held(v, tail + chunk, init, msg + chunk)
  {
    hide Absorb;
    var whole := |msg| - |tail|;
    assert (msg + chunk)[..whole] == msg[..whole];
    assert (msg + chunk)[whole..] == tail + chunk;
  }

  lemma HeldWord(v: V, tail: seq<Byte>, init: V, msg: seq<Byte>, chunk: seq<Byte>)
    requires Held(v, tail, init, msg) && |tail| + |chunk| == 8
    ensures Held(Compress(v, LoadLe64(tail + chunk)), [], init, msg + chunk)
  {
    hide Compress, LoadLe64, Absorb, Init;
    var whole := msg[..|msg| - |tail|];
    AbsorbWord(init, whole, tail + chunk);
    assert whole + (tail + chunk) == msg + chunk;
    assert (msg + chunk)[..|msg + chunk|] == msg + chunk;
  }

  /** The last word the code makes of the tail is the last word of the padded message. */
  lemma HeldFinish(v: V, tail: seq<Byte>, k0: Word, k1: Word, msg: seq<Byte>)
    requires Held(v, tail, Init(k0, k1), msg)
    ensures |tail| <= 7
    ensures SipHash24(k0, k1, msg) ==
            Finish(Compress(v, LoadLe64(tail + Zeros(7 - |tail|) + [LowByte(|msg| % 0x1_0000_0000_0000_0000)])))
  {
    hide Compress, LoadLe64, LowByte, Init, Finish, Absorb, Padded;
    var whole, last := msg[..|msg| - |tail|], tail + Zeros(7 - |tail|) + [LowByte(|msg|)];
    LowByteOfCount(|msg|);
    AbsorbWord(Init(k0, k1), whole, last);
    assert msg == whole + tail;
    PaddedSplit(whole, tail);
  }

  lemma PaddedSplit(whole: seq<Byte>, tail: seq<Byte>)
    requires |whole| % 8 == 0 && |tail| < 8
    ensures Padded(whole + tail) == whole + (tail + Zeros(7 - |tail|) + [LowByte(|whole + tail|)])
  {
    hide LowByte;
    assert |whole + tail| % 8 == |tail|;
  }

  lemma LowByteOfCount(n: nat)
    ensures LowByte(n % 0x1_0000_0000_0000_0000) == LowByte(n)
  {
    var q, r := n / 0x1_0000_0000_0000_0000, n % 0x1_0000_0000_0000_0000;
    RemainderUnique(n, 256, q * 0x100_0000_0000_0000 + r / 256, r % 256);
  }

  lemma CountAdds(n: nat, m: nat)
    ensures (n % 0x1_0000_0000_0000_0000 + m) % 0x1_0000_0000_0000_0000 == (n + m) % 0x1_0000_0000_0000_0000
  {
  }

  /** The streaming state; msg is the message so far, and the key what it was set up with. */
  class State {
    var v: V
    const buf: array<Byte>
    var bufLen: nat
    var totalBytes: nat
    ghost var k0: Word
    ghost var k1: Word
    ghost var msg: seq<Byte>

    ghost predicate Core(bytes: seq<Byte>)
      reads this, buf
    {
      buf.Length == 8 && bufLen <= 7 && Held(v, buf[..bufLen], Init(k0, k1), bytes)
    }

    ghost predicate Valid()
      reads this, buf
    {
      Core(msg) && totalBytes == |msg| % 0x1_0000_0000_0000_0000
    }

    constructor (k0: Word, k1: Word)
      ensures Valid() && fresh(buf) && msg == [] && this.k0 == k0 && this.k1 == k1
    {
      hide Init;
      v := Init(k0, k1);
      buf := new Byte[8](_ => 0);
      bufLen, totalBytes := 0, 0;
      this.k0, this.k1, msg := k0, k1, [];
    }

    /** Starts over under another key, from any state, one that was finished included. */
    method Reset(k0: Word, k1: Word)
      requires buf.Length == 8
      modifies this
      ensures Valid() && msg == [] && this.k0 == k0 && this.k1 == k1
    {
      hide Init, Held;
      v := Init(k0, k1);
      bufLen, totalBytes := 0, 0;
      HeldNothing(v);
      assert buf[..bufLen] == [];
      this.k0, this.k1, msg := k0, k1, [];
    }

    method SipRound()
      modifies this`v
      ensures v == Round(old(v))
    {
      hide Add, Xor, Rotl;
      v := v.(v0 := Add(v.v0, v.v1));
      v := v.(v1 := Rotl(v.v1, 13));
      v := v.(v1 := Xor(v.v1, v.v0));
      v := v.(v0 := Rotl(v.v0, 32));
      v := v.(v2 := Add(v.v2, v.v3));
      v := v.(v3 := Rotl(v.v3, 16));
      v := v.(v3 := Xor(v.v3, v.v2));
      v := v.(v0 := Add(v.v0, v.v3));
      v := v.(v3 := Rotl(v.v3, 21));
      v := v.(v3 := Xor(v.v3, v.v0));
      v := v.(v2 := Add(v.v2, v.v1));
      v := v.(v1 := Rotl(v.v1, 17));
      v := v.(v1 := Xor(v.v1, v.v2));
      v := v.(v2 := Rotl(v.v2, 32));
    }

    method AbsorbBlock(block: seq<Byte>)
      requires |block| == 8
      modifies this`v
      ensures v == Compress(old(v), LoadLe64(block))
    {
      hide Round, LoadLe64, Xor;
      var m := LoadLe64(block);
      v := v.(v3 := Xor(v.v3, m));
      SipRound();
      SipRound();
      v := v.(v0 := Xor(v.v0, m));
    }

    /** Copies n bytes of data from pos on behind the buffered ones. */
    method Fill(data: seq<Byte>, pos: nat, n: nat)
      requires buf.Length == 8 && bufLen + n <= 8 && pos + n <= |data|
      modifies this`bufLen, buf
      ensures bufLen == old(bufLen) + n
      ensures buf[..bufLen] == old(buf[..bufLen]) + data[pos..pos + n]
    {
      forall i | 0 <= i < n {
        buf[bufLen + i] := data[pos + i];
      }
      bufLen := bufLen + n;
    }

    /** Fills the buffer up while a partial word waits in it. */
    method TopUp(data: seq<Byte>, ghost before: seq<Byte>) returns (pos: nat)
      requires Core(before)
      modifies this`v, this`bufLen, buf
      ensures pos <= |data| && Core(before + data[..pos]) && (pos < |data| ==> bufLen == 0)
    {
      hide Held, Compress, LoadLe64, Init;
      pos := 0;
      assert before + data[..pos] == before;
      while bufLen > 0 && pos < |data|
        invariant pos <= |data| && Core(before + data[..pos])
        decreases |data| - pos
      {
        var toCopy := 8 - bufLen;
        if toCopy > |data| - pos {
          toCopy := |data| - pos;
        }
        ghost var tail, done, chunk := buf[..bufLen], before + data[..pos], data[pos..pos + toCopy];
        Fill(data, pos, toCopy);
        pos := pos + toCopy;
        assert done + chunk == before + data[..pos];
        if bufLen == 8 {
          assert buf[..] == buf[..8] == tail + chunk;
          HeldWord(v, tail, Init(k0, k1), done, chunk);
          AbsorbBlock(buf[..]);
          bufLen := 0;
        } else {
          HeldMore(v, tail, Init(k0, k1), done, chunk);
        }
      }
    }

    /** Absorbs whole words straight from the data, then buffers what is left. */
    method TakeRest(data: seq<Byte>, start: nat, ghost before: seq<Byte>)
      requires start <= |data| && Core(before + data[..start]) && (start < |data| ==> bufLen == 0)
      modifies this`v, this`bufLen, buf
      ensures Core(before + data)
    {
      hide Held, Compress, LoadLe64, Init;
      var pos := start;
      while |data| - pos >= 8
        invariant pos <= |data| && Core(before + data[..pos]) && (pos < |data| ==> bufLen == 0)
      {
        ghost var done, chunk := before + data[..pos], data[pos..pos + 8];
        assert buf[..0] == [] && [] + chunk == chunk;
        HeldWord(v, [], Init(k0, k1), done, chunk);
        AbsorbBlock(data[pos..pos + 8]);
        pos := pos + 8;
        assert done + chunk == before + data[..pos];
      }
      assert before + data[..pos] + data[pos..] == before + data;
      if pos < |data| {
        ghost var done, chunk := before + data[..pos], data[pos..pos + (|data| - pos)];
        assert buf[..0] == [];
        HeldMore(v, [], Init(k0, k1), done, chunk);
        Fill(data, pos, |data| - pos);
        assert buf[..bufLen] == [] + chunk;
        assert done + chunk == before + data;
      } else {
        assert before + data[..pos] == before + data;
      }
    }

    method Update(data: seq<Byte>)
      requires Valid()
      modifies this, buf
      ensures Valid() && msg == old(msg) + data && k0 == old(k0) && k1 == old(k1)
    {
      hide Held, Init;
      CountAdds(|msg|, |data|);
      totalBytes := (totalBytes + |data|) % 0x1_0000_0000_0000_0000;
      var pos := TopUp(data, msg);
      TakeRest(data, pos, msg);
      msg := msg + data;
    }

    /** The digest. It uses the state up: the words are no longer those of any message. */
    method Digest() returns (h: Word)
      requires Valid()
      modifies this`v
      ensures h == SipHash24(k0, k1, msg)
    {
      hide Round, LoadLe64, Xor, Compress, Held, Init, LowByte, SipHash24;
      HeldFinish(v, buf[..bufLen], k0, k1, msg);
      AbsorbBlock(buf[..bufLen] + Zeros(7 - bufLen) + [LowByte(totalBytes)]);
      v := v.(v2 := Xor(v.v2, 0xFF));
      ghost var start := v;
      var i := 0;
      while i < 4
        invariant 0 <= i <= 4 && v == Rounds(start, i)
      {
        SipRound();
        i := i + 1;
      }
      h := Xor(Xor(Xor(v.v0, v.v1), v.v2), v.v3);
    }
  }

  /** What the bridges feed the state: raw bytes, of which len count, or one fixed-width value. */
  datatype Piece =
    | Bytes(data: seq<Byte>, len: int)
    | I8(b: bv8)
    | I16(h: bv16)
    | I32(w: bv32)
    | I64(x: bv64)
  {
    predicate Fits() { Bytes? ==> len <= |data| }

    /** The bytes a piece stands for: none for a length of zero or less, little-endian otherwise. */
    function Encoding(): seq<Byte>
      requires Fits()
    {
      match this
      case Bytes(data, len) => if len <= 0 then [] else data[..len]
      case I8(b) => [b]
      case I16(h) => [(h & 0xFF) as Byte, ((h >> 8) & 0xFF) as Byte]
      case I32(w) =>
        [(w & 0xFF) as Byte, ((w >> 8) & 0xFF) as Byte, ((w >> 16) & 0xFF) as Byte, ((w >> 24) & 0xFF) as Byte]
      case I64(x) => LeBytes64(x)
    }
  }

  function LeBytes64(x: Word): (p: seq<Byte>)
    ensures |p| == 8
  {
    [(x & 0xFF) as Byte, ((x >> 8) & 0xFF) as Byte, ((x >> 16) & 0xFF) as Byte, ((x >> 24) & 0xFF) as Byte,
     ((x >> 32) & 0xFF) as Byte, ((x >> 40) & 0xFF) as Byte, ((x >> 48) & 0xFF) as Byte, ((x >> 56) & 0xFF) as Byte]
  }

  /** The message a list of pieces spells. */
  function Message(pieces: seq<Piece>): seq<Byte>
    requires forall p :: p in pieces ==> p.Fits()
  {
    if pieces == [] then [] else Message(pieces[..|pieces| - 1]) + pieces[|pieces| - 1].Encoding()
  }

  method Feed(s: State, p: Piece)
    requires s.Valid() && p.Fits()
    modifies s, s.buf
    ensures s.Valid() && s.msg == old(s.msg) + p.Encoding() && s.k0 == old(s.k0) && s.k1 == old(s.k1)
  {
    hide Init, Held, LeBytes64;
    if p.Bytes? && p.len <= 0 {
      assert s.msg + [] == s.msg;
      return;
    }
    s.Update(p.Encoding());
  }

  /** Whatever the pieces, the first digest is the SipHash-2-4 of the bytes they spell. */
  method Stream(k0: Word, k1: Word, pieces: seq<Piece>) returns (h: Word)
    requires forall p :: p in pieces ==> p.Fits()
    ensures h == SipHash24(k0, k1, Message(pieces))
  {
    hide SipHash24, Init, Held;
    var s := new State(k0, k1);
    for i := 0 to |pieces|
      invariant s.Valid() && fresh(s) && fresh(s.buf) && s.k0 == k0 && s.k1 == k1
      invariant s.msg == Message(pieces[..i])
    {
      Feed(s, pieces[i]);
      assert pieces[..i + 1][..i] == pieces[..i];
    }
    assert pieces[..|pieces|] == pieces;
    h := s.Digest();
  }

  method OneShot(data: seq<Byte>, len: int, k0: Word, k1: Word) returns (h: Word)
    requires len <= |data|
    ensures h == SipHash24(k0, k1, if len > 0 then data[..len] else [])
  {
    hide SipHash24, Init, Held;
    var s := new State(k0, k1);
    if len > 0 {
      assert [] + data[..len] == data[..len];
      s.Update(data[..len]);
    }
    h := s.Digest();
  }

  /** Reading the eight bytes of a word back gives the word. */
  /** Behind whole words, a 64-bit integer written little-endian compresses that very integer. */
  lemma WriteCompressesValue(s: V, msg: seq<Byte>, x: Word)
    requires |msg| % 8 == 0
    ensures Absorb(s, msg + LeBytes64(x)) == Compress(Absorb(s, msg), x)
  {
    hide Absorb, Compress, LoadLe64, LeBytes64;
    AbsorbWord(s, msg, LeBytes64(x));
    LoadOfBytes(x);
  }

  lemma LoadOfBytes(x: Word)
    ensures LoadLe64(LeBytes64(x)) == x
  {
  }

  /** The last byte of the padding counts the message modulo 256, the others are null. */
  lemma PaddingIs(msg: seq<Byte>, i: nat)
    requires |msg| <= i < |Padded(msg)|
    ensures Padded(msg)[i] == if i == |Padded(msg)| - 1 then (|msg| % 256) as Byte else 0
  {
    assert |msg + Zeros(7 - |msg| % 8)| == |Padded(msg)| - 1;
  }

  /** The words of the published vector's padded message. */
  lemma VectorWords()
    ensures LoadLe64([0, 1, 2, 3, 4, 5, 6, 7]) == 0x0706050403020100
    ensures LoadLe64([8, 9, 10, 11, 12, 13, 14, 15]) == 0x0f0e0d0c0b0a0908
  {
  }

  lemma VectorInit()
    ensures Init(0x0706050403020100, 0x0f0e0d0c0b0a0908)
         == V(0x7469686173716475, 0x6b617f6d656e6665, 0x6b7f62616d677361, 0x7b6b696e727e6c7b)
  {
  }

  lemma VectorRound1()
    ensures Round(V(0x7469686173716475, 0x6b617f6d656e6665, 0x6b7f62616d677361, 0x7c6d6c6a717c6d7b))
         == V(0x64668a929363847f, 0x4ed232083d9aa8dc, 0xf2f74892d8141a2e, 0x9290f9810552f4a8)
  {
  }

  lemma VectorRound2()
    ensures Round(V(0x64668a929363847f, 0x4ed232083d9aa8dc, 0xf2f74892d8141a2e, 0x9290f9810552f4a8))
         == V(0x4d07749cdd0858e0, 0x0d52f6f62a4f59a4, 0x634cb3577b01fd3d, 0xa5224d6f55c7d9c8)
  {
  }

  lemma VectorRound3()
    ensures Round(V(0x4a017198de0a59e0, 0x0d52f6f62a4f59a4, 0x634cb3577b01fd3d, 0xaa2c40635ecdd0c0))
         == V(0x557560fb6063d060, 0x4c8e675bd961133e, 0xbd3d002b1703a181, 0xfb9441179a4a7315)
  {
  }

  lemma VectorRound4()
    ensures Round(V(0x557560fb6063d060, 0x4c8e675bd961133e, 0xbd3d002b1703a181, 0xfb9441179a4a7315))
         == V(0x338bbea7645fb759, 0x414fc3fb98efe374, 0xccf13ea527b9f4bd, 0x5293f5da84008f82)
  {
  }

  lemma VectorRound5()
    ensures Round(V(0x3c85b3ab6f55be51, 0x414fc3fb98efe374, 0xccf13ea527b9f442, 0x5293f5da84008f82))
         == V(0xf2a55244a20e48fe, 0xac5ad16ccc3ca6e4, 0x9fe5adb0a52f393a, 0xfd41d55e88f30308)
  {
  }

  lemma VectorRound6()
    ensures Round(V(0xf2a55244a20e48fe, 0xac5ad16ccc3ca6e4, 0x9fe5adb0a52f393a, 0xfd41d55e88f30308))
         == V(0xb6c3fbdecc2ae4b4, 0x1638c86adc6b3cf0, 0x28b8b6ab62553d46, 0xc9465e86ec43eb95)
  {
  }

  lemma VectorRound7()
    ensures Round(V(0xb6c3fbdecc2ae4b4, 0x1638c86adc6b3cf0, 0x28b8b6ab62553d46, 0xc9465e86ec43eb95))
         == V(0x58101b167209a5e6, 0xf8792ae75b66e7dd, 0x1da14c3ec7f0b4f7, 0x7624ba8a41bc4ad9)
  {
  }

  lemma VectorRound8()
    ensures Round(V(0x58101b167209a5e6, 0xf8792ae75b66e7dd, 0x1da14c3ec7f0b4f7, 0x7624ba8a41bc4ad9))
         == V(0xf6bcd53893fecff1, 0x54b9964c7ea0d937, 0x1b38329c099bb55a, 0x1814bb89ad7be679)
  {
  }

  lemma VectorCompress()
    ensures Compress(V(0x7469686173716475, 0x6b617f6d656e6665, 0x6b7f62616d677361, 0x7b6b696e727e6c7b),
                     0x0706050403020100)
         == V(0x4a017198de0a59e0, 0x0d52f6f62a4f59a4, 0x634cb3577b01fd3d, 0xa5224d6f55c7d9c8)
    ensures Compress(V(0x4a017198de0a59e0, 0x0d52f6f62a4f59a4, 0x634cb3577b01fd3d, 0xa5224d6f55c7d9c8),
                     0x0f0e0d0c0b0a0908)
         == V(0x3c85b3ab6f55be51, 0x414fc3fb98efe374, 0xccf13ea527b9f4bd, 0x5293f5da84008f82)
  {
    hide Round;
    VectorRound1();
    VectorRound2();
    VectorRound3();
    VectorRound4();
  }

  lemma VectorFinish()
    ensures Finish(V(0x3c85b3ab6f55be51, 0x414fc3fb98efe374, 0xccf13ea527b9f4bd, 0x5293f5da84008f82))
         == 0xa129ca6149be45e5
  {
    hide Round;
    var s := V(0x3c85b3ab6f55be51, 0x414fc3fb98efe374, 0xccf13ea527b9f442, 0x5293f5da84008f82);
    VectorRound5();
    VectorRound6();
    VectorRound7();
    VectorRound8();
    assert Rounds(s, 4) == Round(Round(Round(Round(Rounds(s, 0)))));
  }

  /** The vector the paper publishes: the key bytes 0 to 15 and the message bytes 0 to 14. */
  lemma PublishedVector()
    ensures SipHash24(0x0706050403020100, 0x0f0e0d0c0b0a0908, [0, 1, 2, 3, 4, 5, 6, 7, 8, 9, 10, 11, 12, 13, 14])
         == 0xa129ca6149be45e5
  {
    hide Init, Compress, LoadLe64, Finish, Absorb;
    var msg: seq<Byte> := [0, 1, 2, 3, 4, 5, 6, 7, 8, 9, 10, 11, 12, 13, 14];
    var one: seq<Byte>, two: seq<Byte> := [0, 1, 2, 3, 4, 5, 6, 7], [8, 9, 10, 11, 12, 13, 14, 15];
    assert Padded(msg) == [] + one + two;
    var init := Init(0x0706050403020100, 0x0f0e0d0c0b0a0908);
    AbsorbNothing(init);
    AbsorbWord(init, [], one);
    AbsorbWord(init, [] + one, two);
    VectorInit();
    VectorWords();
    VectorCompress();
    VectorFinish();
  }

  lemma AbsorbNothing(s: V)
    ensures Absorb(s, []) == s
  {
  }

  lemma MessageOfFour(a: Piece, b: Piece, c: Piece, e: Piece)
    requires a.Fits() && b.Fits() && c.Fits() && e.Fits()
    ensures Message([a, b, c, e]) == a.Encoding() + b.Encoding() + c.Encoding() + e.Encoding()
  {
    hide Message;
    MessageGrows([], a);
    MessageGrows([a], b);
    MessageGrows([a, b], c);
    MessageGrows([a, b, c], e);
    assert [] + [a] == [a] && [a] + [b] == [a, b] && [a, b] + [c] == [a, b, c] && [a, b, c] + [e] == [a, b, c, e];
  }

  /** The same message as four fixed-width writes. */
  lemma PublishedVectorAsWrites()
    ensures var pieces := [I64(0x0706050403020100), I32(0x0b0a0908), I16(0x0d0c), I8(0x0e)];
      SipHash24(0x0706050403020100, 0x0f0e0d0c0b0a0908, Message(pieces)) == 0xa129ca6149be45e5
  {
    hide SipHash24, Message, LeBytes64;
    MessageOfFour(I64(0x0706050403020100), I32(0x0b0a0908), I16(0x0d0c), I8(0x0e));
    WritesSpell();
    assert [0 as Byte, 1, 2, 3, 4, 5, 6, 7] + [8 as Byte, 9, 10, 11] + [12 as Byte, 13] + [14 as Byte]
        == [0, 1, 2, 3, 4, 5, 6, 7, 8, 9, 10, 11, 12, 13, 14];
    PublishedVector();
  }

  lemma WritesSpell()
    ensures I64(0x0706050403020100).Encoding() == [0, 1, 2, 3, 4, 5, 6, 7]
    ensures I32(0x0b0a0908).Encoding() == [8, 9, 10, 11]
    ensures I16(0x0d0c).Encoding() == [12, 13]
    ensures I8(0x0e).Encoding() == [14]
  {
  }

  lemma MessageGrows(pieces: seq<Piece>, p: Piece)
    requires p.Fits() && forall q :: q in pieces ==> q.Fits()
    ensures forall q :: q in pieces + [p] ==> q.Fits()
    ensures Message(pieces + [p]) == Message(pieces) + p.Encoding() && Message([]) == []
  {
    assert (pieces + [p])[..|pieces|] == pieces;
  }
}
