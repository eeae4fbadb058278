/** The metadata blob of an Arrow schema: a count, then length-prefixed keys and values, written
    for the MX extension type and read back by skipping pairs. Bytes are characters below 256;
    32-bit lengths are little-endian. */
module ArrowMetadata {
  import opened Basics
  import opened Decimals
  import opened Varint

  const NAME_KEY: string := "ARROW:extension:name"
  const META_KEY: string := "ARROW:extension:metadata"
  const MX_NAME: string := "cajeta.mxfp4"

  const METADATA_SIZE: nat := 128
  const EXTMETA_SIZE: nat := 32

  /** An int32 as it lies in memory. */
  function Le32(n: int): (b: string)
    ensures |b| == 4
  {
    var b := Bytes(n % 0x1_0000_0000, 4);
    seq(4, i requires 0 <= i < 4 => b[i] as char)
  }

  function Load32(buf: string, p: nat): (n: int)
    requires p + 4 <= |buf|
    ensures IsInt32(n)
  {
    var b := buf[p..p + 4];
    Wrap32(BytesValue(seq<nat>(4, i requires 0 <= i < 4 => b[i] as nat % 256)))
  }

  lemma LoadOfLe32(buf: string, p: nat, n: int)
    requires IsInt32(n) && p + 4 <= |buf| && buf[p..p + 4] == Le32(n)
    ensures Load32(buf, p) == n
  {
    hide Bytes, BytesValue;
    assert Pow256(2) == 0x1_0000 && Pow256(4) == 0x1_0000_0000;
    var b := Bytes(n % 0x1_0000_0000, 4);
    BytesRoundTrip(n % 0x1_0000_0000, 4);
    var stored := buf[p..p + 4];
    assert seq<nat>(4, i requires 0 <= i < 4 => stored[i] as nat % 256) == b;
  }

  datatype Pair = Pair(key: string, val: string) {
    /** Lengths a 32-bit prefix can hold. */
    predicate Fits() { IsInt32(|key|) && IsInt32(|val|) }
  }

  function PairBytes(p: Pair): (b: string)
    ensures |b| == 8 + |p.key| + |p.val|
  {
    Le32(|p.key|) + p.key + Le32(|p.val|) + p.val
  }

  function PairsBytes(ps: seq<Pair>): string {
    if ps == [] then "" else PairBytes(ps[0]) + PairsBytes(ps[1..])
  }

  function Blob(ps: seq<Pair>): string {
    Le32(|ps|) + PairsBytes(ps)
  }

  /** Missing: every pair was passed over; Outside: a length led past the bytes given. */
  datatype Scan = Found(val: string) | Missing | Outside

  /** What the reader finds in the pairs left, from position p on. */
  function ScanFrom(buf: string, p: nat, left: int, key: string): Scan
    decreases if left < 0 then 0 else left
  {
    if left <= 0 then Missing
    else if p + 4 > |buf| then Outside
    else
      var kl := Load32(buf, p);
      if kl < 0 || p + 4 + kl + 4 > |buf| then Outside
      else
        var q := p + 4 + kl;
        var vl := Load32(buf, q);
        if vl < 0 || q + 4 + vl > |buf| then Outside
        else if kl == |key| && buf[p + 4..q] == key then Found(buf[q + 4..q + 4 + vl])
        else ScanFrom(buf, q + 4 + vl, left - 1, key)
  }

  /** The count, then that many pairs. */
  function ScanBlob(buf: string, key: string): Scan {
    if |buf| < 4 then Outside else ScanFrom(buf, 4, Load32(buf, 0), key)
  }

  /** The value of the first pair with the key. */
  function FirstOf(ps: seq<Pair>, key: string): Scan {
    if ps == [] then Missing
    else if ps[0].key == key then Found(ps[0].val)
    else FirstOf(ps[1..], key)
  }

  /** The reader's loop: takes the pairs in order and stops at the first with the key. */
  method FindValue(buf: string, key: string) returns (r: Scan)
    requires IsInt32(|key|)
    ensures r == ScanBlob(buf, key)
  {
    hide Load32;
    if |buf| < 4 {
      return Outside;
    }
    var pairs := Load32(buf, 0);
    var p: nat, k := 4, 0;
    while k < pairs
      invariant ScanFrom(buf, p, pairs - k, key) == ScanFrom(buf, 4, pairs, key)
      decreases pairs - k
    {
      if p + 4 > |buf| {
        return Outside;
      }
      var kl := Load32(buf, p);
      p := p + 4;
      if kl < 0 || p + kl + 4 > |buf| {
        return Outside;
      }
      var at := p;
      p := p + kl;
      var vl := Load32(buf, p);
      p := p + 4;
      if vl < 0 || p + vl > |buf| {
        return Outside;
      }
      var val := p;
      p := p + vl;
      if kl == |key| && buf[at..at + kl] == key {
        return Found(buf[val..p]);
      }
      k := k + 1;
    }
    return Missing;
  }

  /** The parts of a pair where it lies in the bytes. */
  lemma PairParts(buf: string, p: nat, pair: Pair)
    requires pair.Fits() && p + |PairBytes(pair)| <= |buf| && buf[p..p + |PairBytes(pair)|] == PairBytes(pair)
    ensures var q := p + 4 + |pair.key|;
      && Load32(buf, p) == |pair.key| && buf[p + 4..q] == pair.key
      && Load32(buf, q) == |pair.val| && buf[q + 4..q + 4 + |pair.val|] == pair.val
  {
    hide Load32, Le32;
    var b, k, v := PairBytes(pair), |pair.key|, |pair.val|;
    FourParts(Le32(k), pair.key, Le32(v), pair.val);
    SliceOf(buf, p, p + |b|, b, 0, 4);
    SliceOf(buf, p, p + |b|, b, 4, 4 + k);
    SliceOf(buf, p, p + |b|, b, 4 + k, 8 + k);
    SliceOf(buf, p, p + |b|, b, 8 + k, 8 + k + v);
    LoadOfLe32(buf, p, k);
    LoadOfLe32(buf, p + 4 + k, v);
  }

  lemma FourParts(w: string, x: string, y: string, z: string)
    ensures var s, i, j := w + x + y + z, |w| + |x|, |w| + |x| + |y|;
      s[0..|w|] == w && s[|w|..i] == x && s[i..j] == y && s[j..j + |z|] == z
  {
    var i, j := |w| + |x|, |w| + |x| + |y|;
    var s := w + x + y + z;
    assert (w + x)[|w|..] == x;
    assert s[..i] == w + x && s[|w|..i] == s[..i][|w|..];
    assert s[..j] == w + x + y && s[i..j] == s[..j][i..] == y;
  }

  /** Reading what was written finds the first pair with the key, whatever follows the blob. */
  lemma {:induction false} ScanFindsFirst(buf: string, p: nat, ps: seq<Pair>, key: string)
    requires forall pair :: pair in ps ==> pair.Fits()
    requires p + |PairsBytes(ps)| <= |buf| && buf[p..p + |PairsBytes(ps)|] == PairsBytes(ps)
    ensures ScanFrom(buf, p, |ps|, key) == FirstOf(ps, key)
    decreases |ps|
  {
    hide Load32, PairBytes;
    if ps != [] {
      var b, rest := PairBytes(ps[0]), PairsBytes(ps[1..]);
      assert b + rest == PairsBytes(ps);
      var next := p + |b|;
      assert buf[p..next] == (b + rest)[..|b|] == b;
      assert buf[next..next + |rest|] == (b + rest)[|b|..] == rest;
      PairParts(buf, p, ps[0]);
      if ps[0].key != key {
        ScanFindsFirst(buf, next, ps[1..], key);
      }
    }
  }

  /** The blob's reader. */
  lemma ReaderFindsFirst(ps: seq<Pair>, rest: string, key: string)
    requires IsInt32(|ps|) && forall pair :: pair in ps ==> pair.Fits()
    ensures ScanBlob(Blob(ps) + rest, key) == FirstOf(ps, key)
  {
    var buf := Blob(ps) + rest;
    assert buf[0..4] == Le32(|ps|);
    LoadOfLe32(buf, 0, |ps|);
    assert buf[4..4 + |PairsBytes(ps)|] == PairsBytes(ps);
    ScanFindsFirst(buf, 4, ps, key);
  }

  /** memcpy of src to position at. */
  method Copy(b: array<char>, at: nat, src: string)
    requires at + |src| <= b.Length
    modifies b
    ensures b[..] == Splice(old(b[..]), at, src)
  {
    var i := 0;
    while i < |src|
      invariant i <= |src| && b[..] == Splice(old(b[..]), at, src[..i])
    {
      SpliceNext(old(b[..]), at, src[..i], src[i]);
      assert src[..i + 1] == src[..i] + [src[i]];
      b[at + i] := src[i];
      i := i + 1;
    }
    assert src[..|src|] == src;
  }

  lemma SpliceAfter(w: string, at: nat, x: string, y: string)
    requires at + |x| + |y| <= |w|
    ensures Splice(Splice(w, at, x), at + |x|, y) == Splice(w, at, x + y)
  {
  }

  /** Writes a pair at p and returns how many bytes it took. */
  method MetaPut(b: array<char>, p: nat, key: string, val: string) returns (n: nat)
    requires p + |PairBytes(Pair(key, val))| <= b.Length
    modifies b
    ensures n == |PairBytes(Pair(key, val))| && b[..] == Splice(old(b[..]), p, PairBytes(Pair(key, val)))
  {
    hide Splice, Le32;
    ghost var w := b[..];
    var kl, vl := |key|, |val|;
    n := 0;
    Copy(b, p + n, Le32(kl));
    n := n + 4;
    Copy(b, p + n, key);
    n := n + kl;
    SpliceAfter(w, p, Le32(kl), key);
    Copy(b, p + n, Le32(vl));
    n := n + 4;
    SpliceAfter(w, p, Le32(kl) + key, Le32(vl));
    Copy(b, p + n, val);
    n := n + vl;
    SpliceAfter(w, p, Le32(kl) + key + Le32(vl), val);
  }

  /** %d. */
  function Printed(n: int): string {
    if n < 0 then "-" + Decimal(-n) else Decimal(n)
  }

  function BlockText(n: int): string {
    "{\"block\":" + Printed(n) + "}"
  }

  /** snprintf into EXTMETA_SIZE bytes: cut where the terminator must go. */
  function ExtMeta(n: int): string {
    var t := BlockText(n);
    if |t| < EXTMETA_SIZE then t else t[..EXTMETA_SIZE - 1]
  }

  function MxPairs(n: int): seq<Pair> {
    [Pair(NAME_KEY, MX_NAME), Pair(META_KEY, ExtMeta(n))]
  }

  /** No 32-bit block size is cut, and the blob is at most 97 bytes: it fits its buffer. */
  lemma MxFits(n: int)
    requires IsInt32(n)
    ensures ExtMeta(n) == BlockText(n) && |BlockText(n)| <= 21
    ensures |Blob(MxPairs(n))| == 76 + |BlockText(n)| <= 97 < METADATA_SIZE
  {
    hide Le32, Decimal, PairBytes;
    PrintedLength(n);
    MxBlob(n);
  }

  lemma PrintedLength(n: int)
    requires IsInt32(n)
    ensures |Printed(n)| <= 11
  {
    hide Decimal;
    assert Pow10(5) == 100000 && Pow10(10) == 100000 * Pow10(5);
    DecimalLength(if n < 0 then -n else n, 10);
  }

  /** The block size printed into a fresh metadata buffer under the extension's name. */
  method ExportMx(blockSize: int) returns (metadata: array<char>)
    requires IsInt32(blockSize)
    ensures fresh(metadata) && metadata.Length == METADATA_SIZE
    ensures |Blob(MxPairs(blockSize))| <= METADATA_SIZE
    ensures metadata[..] == Splice(seq(METADATA_SIZE, i => '\0'), 0, Blob(MxPairs(blockSize)))
  {
    hide Splice, Le32, PairBytes, ExtMeta;
    MxFits(blockSize);
    metadata := new char[METADATA_SIZE](i => '\0');
    ghost var zeros := seq(METADATA_SIZE, i => '\0');
    assert metadata[..] == zeros;
    var extMeta := ExtMeta(blockSize);
    MxBlob(blockSize);
    Copy(metadata, 0, Le32(2));
    var off := 4;
    var n := MetaPut(metadata, off, NAME_KEY, MX_NAME);
    SpliceAfter(zeros, 0, Le32(2), PairBytes(Pair(NAME_KEY, MX_NAME)));
    off := off + n;
    n := MetaPut(metadata, off, META_KEY, extMeta);
    SpliceAfter(zeros, 0, Le32(2) + PairBytes(Pair(NAME_KEY, MX_NAME)), PairBytes(Pair(META_KEY, extMeta)));
    off := off + n;
  }

  lemma MxBlob(n: int)
    ensures Blob(MxPairs(n)) == Le32(2) + PairBytes(Pair(NAME_KEY, MX_NAME)) + PairBytes(Pair(META_KEY, ExtMeta(n)))
  {
    hide Le32, PairBytes, ExtMeta;
    var ps := MxPairs(n);
    assert ps[1..] == [ps[1]] && ps[1..][1..] == [];
    assert PairsBytes(ps[1..]) == PairBytes(ps[1]) + "";
    Regroup(Le32(2), PairBytes(ps[0]), PairBytes(ps[1]));
  }

  /** 1 for the MX extension, 0 for none, -1 for another; absent metadata is none. */
  function KindOf(r: Scan): Option<int> {
    match r
    case Found(val) => Some(if val == MX_NAME then 1 else -1)
    case Missing => Some(0)
    case Outside => None
  }

  function BlockOf(r: Scan): Option<int> {
    match r
    case Found(val) => Some(DigitsOf(val))
    case Missing => Some(0)
    case Outside => None
  }

  method ReadExtKind(metadata: Option<string>) returns (kind: Option<int>)
    ensures kind == if metadata.None? then Some(0) else KindOf(ScanBlob(metadata.value, NAME_KEY))
  {
    match metadata
    case None => return Some(0);
    case Some(buf) =>
      var r := FindValue(buf, NAME_KEY);
      return KindOf(r);
  }

  /** The digits of the extension metadata, in order, whatever stands around them. */
  method ReadExtBlock(metadata: Option<string>) returns (block: Option<int>)
    ensures block == if metadata.None? then Some(0) else BlockOf(ScanBlob(metadata.value, META_KEY))
  {
    match metadata
    case None => return Some(0);
    case Some(buf) =>
      var r := FindValue(buf, META_KEY);
      match r {
        case Missing => return Some(0);
        case Outside => return None;
        case Found(val) =>
          var n, i := 0, 0;
          while i < |val|
            invariant i <= |val| && n == DigitsOf(val[..i])
          {
            assert val[..i + 1] == val[..i] + [val[i]];
            DigitsAppend(val[..i], val[i]);
            if '0' <= val[i] <= '9' {
              n := n * 10 + (val[i] as int - '0' as int);
            }
            i := i + 1;
          }
          assert val[..|val|] == val;
          return Some(n);
      }
  }

  /** The digits of the block text are the block size without its sign. */
  lemma DigitsOfBlockText(n: int)
    ensures DigitsOf(BlockText(n)) == if n < 0 then -n else n
  {
    hide Decimal, DigitsOf;
    var m := if n < 0 then -n else n;
    var pre := "{\"block\":" + (if n < 0 then "-" else "");
    TextBefore(pre);
    DigitsOfDecimal(pre, m);
    DigitsAppend(pre + Decimal(m), '}');
    assert BlockText(n) == pre + Decimal(m) + ['}'];
  }

  lemma TextBefore(pre: string)
    requires pre == "{\"block\":" || pre == "{\"block\":-"
    ensures DigitsOf(pre) == 0
  {
    hide DigitsOf;
    assert forall c :: c in pre ==> !IsDigit(c);
    NoDigits(pre);
  }

  lemma {:induction false} NoDigits(s: string)
    requires forall c :: c in s ==> !IsDigit(c)
    ensures DigitsOf(s) == 0
  {
    if s != "" {
      NoDigits(s[..|s| - 1]);
    }
  }

  /** Exporting any 32-bit block size and reading the buffer back gives kind 1 and the size's
      magnitude: the size itself exactly when it is not negative. */
  lemma ExportReadsBack(n: int)
    requires IsInt32(n)
    ensures |Blob(MxPairs(n))| <= METADATA_SIZE
    ensures var buf := Splice(seq(METADATA_SIZE, i => '\0'), 0, Blob(MxPairs(n)));
      && KindOf(ScanBlob(buf, NAME_KEY)) == Some(1)
      && BlockOf(ScanBlob(buf, META_KEY)) == Some(if n < 0 then -n else n)
      && (BlockOf(ScanBlob(buf, META_KEY)) == Some(n) <==> n >= 0)
  {
    hide Blob, ScanBlob, DigitsOf, BlockText, ExtMeta;
    MxFits(n);
    var zeros: string, blob := seq(METADATA_SIZE, i => '\0'), Blob(MxPairs(n));
    var buf := Splice(zeros, 0, blob);
    assert buf == blob + zeros[|blob|..];
    var ps := MxPairs(n);
    ReaderFindsFirst(ps, zeros[|blob|..], NAME_KEY);
    ReaderFindsFirst(ps, zeros[|blob|..], META_KEY);
    assert NAME_KEY != META_KEY by {
      assert |NAME_KEY| == 20 && |META_KEY| == 24;
    }
    assert FirstOf(ps, NAME_KEY) == Found(MX_NAME);
    assert FirstOf(ps, META_KEY) == FirstOf(ps[1..], META_KEY) == Found(ExtMeta(n));
    DigitsOfBlockText(n);
  }

  /** The lowest byte of a stored length comes first. */
  lemma Le32At(n: int, i: nat)
    requires i < 4
    ensures Le32(n)[i] as int == n % 0x1_0000_0000 / Pow256(i) % 256
  {
    hide Bytes;
    BytesAt(n % 0x1_0000_0000, 4, i);
  }

  lemma SmallLengths(n: nat)
    requires n < 256
    ensures Le32(n) == [n as char, '\0', '\0', '\0']
  {
    assert Bytes(0, 2) == [0, 0];
    assert Bytes(0, 3) == [0, 0, 0];
    assert Bytes(n, 4) == [n, 0, 0, 0];
  }

  /** A blob of one pair, byte by byte. */
  lemma BlobInBytes()
    ensures Blob([Pair("k", "vw")]) == [1 as char, '\0', '\0', '\0', 1 as char, '\0', '\0', '\0', 'k']
                                       + [2 as char, '\0', '\0', '\0', 'v', 'w']
  {
    hide Le32;
    SmallLengths(1);
    SmallLengths(2);
    assert PairsBytes([]) == "" && [Pair("k", "vw")][1..] == [];
  }

  /** The pairs exported for a block size. */
  lemma ExportedPairs(n: nat)
    requires n < 0x8000_0000
    ensures MxPairs(n) == [Pair("ARROW:extension:name", "cajeta.mxfp4"),
                           Pair("ARROW:extension:metadata", "{\"block\":" + Decimal(n) + "}")]
  {
    hide Decimal;
    MxFits(n);
  }

  lemma NegativeBlock()
    ensures ExtMeta(-32) == "{\"block\":-32}"
  {
  }

  /** What stands first under the key, by position. */
  lemma {:induction false} FirstOfAt(ps: seq<Pair>, key: string, i: nat)
    requires i <= |ps| && forall h :: 0 <= h < i ==> ps[h].key != key
    requires i < |ps| ==> ps[i].key == key
    ensures FirstOf(ps, key) == if i < |ps| then Found(ps[i].val) else Missing
  {
    if i > 0 {
      FirstOfAt(ps[1..], key, i - 1);
    }
  }

  /** The kind read from any list of pairs: the first extension name decides. */
  lemma KindOfPairs(ps: seq<Pair>, rest: string, i: nat)
    requires IsInt32(|ps|) && forall pair :: pair in ps ==> pair.Fits()
    requires i <= |ps| && forall h :: 0 <= h < i ==> ps[h].key != "ARROW:extension:name"
    requires i < |ps| ==> ps[i].key == "ARROW:extension:name"
    ensures i == |ps| ==> KindOf(ScanBlob(Blob(ps) + rest, NAME_KEY)) == Some(0)
    ensures i < |ps| && ps[i].val == "cajeta.mxfp4" ==> KindOf(ScanBlob(Blob(ps) + rest, NAME_KEY)) == Some(1)
    ensures i < |ps| && ps[i].val != "cajeta.mxfp4" ==> KindOf(ScanBlob(Blob(ps) + rest, NAME_KEY)) == Some(-1)
  {
    hide Blob, ScanBlob;
    ReaderFindsFirst(ps, rest, NAME_KEY);
    FirstOfAt(ps, NAME_KEY, i);
  }

  /** The block size read from any list of pairs: the digits of the first extension metadata. */
  lemma BlockOfPairs(ps: seq<Pair>, rest: string, i: nat)
    requires IsInt32(|ps|) && forall pair :: pair in ps ==> pair.Fits()
    requires i <= |ps| && forall h :: 0 <= h < i ==> ps[h].key != "ARROW:extension:metadata"
    requires i < |ps| ==> ps[i].key == "ARROW:extension:metadata"
    ensures i == |ps| ==> BlockOf(ScanBlob(Blob(ps) + rest, META_KEY)) == Some(0)
    ensures i < |ps| ==> BlockOf(ScanBlob(Blob(ps) + rest, META_KEY)) == Some(DigitsOf(ps[i].val))
  {
    hide Blob, ScanBlob, DigitsOf;
    ReaderFindsFirst(ps, rest, META_KEY);
    FirstOfAt(ps, META_KEY, i);
  }

  /** A reader led outside: a count without pairs, and a negative length. */
  lemma LedOutside(key: string)
    ensures ScanBlob("", key) == Outside && ScanBlob(Le32(1), key) == Outside
    ensures ScanBlob(Le32(1) + Le32(-1) + Le32(0), key) == Outside && ScanBlob(Le32(0), key) == Missing
    ensures ScanBlob(Le32(-1), key) == Missing
  {
    hide Le32, Load32;
    LoadOfLe32(Le32(1), 0, 1);
    LoadOfLe32(Le32(0), 0, 0);
    LoadOfLe32(Le32(-1), 0, -1);
    var buf := Le32(1) + Le32(-1) + Le32(0);
    assert buf[0..4] == Le32(1) && buf[4..8] == Le32(-1);
    LoadOfLe32(buf, 0, 1);
    LoadOfLe32(buf, 4, -1);
  }
}
