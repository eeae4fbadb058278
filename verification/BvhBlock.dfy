/** A block: header, node table, reference table and, for triangles, the vertices. Building one
    from boxes or from triangles, its size read back from its header, and the walk over it. */
module BvhBlock {
  import opened Basics
  import opened Float32
  import opened BvhTree
  import opened BvhBuilder
  import opened BvhWalk

  const HDR_WORDS: nat := 8
  const TRI_WORDS: nat := 9
  const FLAG_AABBS: nat := 1
  const FLAG_TRIANGLES: nat := 2

  /** Where the reference table of a block over count primitives starts. */
  function RefOffset(count: nat): nat
    requires count >= 1
  {
    HDR_WORDS + NODE_WORDS * NodesFor(count)
  }

  /** The words the builder allocates. */
  function Allocated(count: nat, flag: nat): nat
    requires count >= 1
  {
    RefOffset(count) + count + (if flag == FLAG_TRIANGLES then count * TRI_WORDS else 0)
  }

  /** The whole size of a block, read from its own header. */
  function BlockWords(blk: seq<real>): nat
    requires |blk| >= HDR_WORDS
  {
    var primCount := Index(blk[2]);
    var words := Index(blk[5]) + primCount;
    if Index(blk[6]) / 2 % 2 == 1 then words + primCount * TRI_WORDS else words
  }

  ghost predicate Header(w: seq<real>, count: nat, flag: nat)
    requires count >= 1 && |w| >= HDR_WORDS
  {
    && w[0] == 1.0 && w[1] == Word(NodesFor(count)) && w[2] == Word(count) && w[3] == 0.0
    && w[4] == Word(HDR_WORDS) && w[5] == Word(RefOffset(count)) && w[6] == Word(flag) && w[7] == Word(NODE_WORDS)
  }

  /** The reference offset is odd, so a float32 word holds it if and only if it is at most 2^24. */
  lemma RefOffsetExactIff(count: nat)
    requires count >= 1
    ensures RefOffset(count) == 18 * count - 1
    ensures Index(Word(RefOffset(count))) == RefOffset(count) <==> 18 * count - 1 <= EXACT
  {
    SurvivesIff(RefOffset(count));
  }

  /** For a count that is itself a float32 word, the size read from the header is the size
      allocated if and only if the reference offset fits, for both geometries. */
  lemma BlockWordsIff(blk: seq<real>, count: nat, flag: nat)
    requires 1 <= count <= EXACT && |blk| >= HDR_WORDS && Header(blk, count, flag)
    requires flag == FLAG_AABBS || flag == FLAG_TRIANGLES
    ensures BlockWords(blk) == Allocated(count, flag) <==> 18 * count - 1 <= EXACT
  {
    ExactUpTo(count);
    ExactUpTo(flag);
    RefOffsetExactIff(count);
  }

  /** The tables of a block over ps in leaf order. */
  ghost predicate Layout(w: seq<real>, ps: seq<Prim>, flag: nat) {
    && ps != [] && |w| == Allocated(|ps|, flag) && Header(w, |ps|, flag)
    && w[HDR_WORDS..RefOffset(|ps|)] == Nodes(ps, 0, 0)
    && w[RefOffset(|ps|)..RefOffset(|ps|) + |ps|] == Refs(ps)
    && MedianCut(ps)
  }

  /** w is a block over the caller's primitives, in some order. */
  ghost predicate IsBlock(w: seq<real>, input: seq<Prim>, flag: nat) {
    exists ps :: multiset(ps) == multiset(input) && Layout(w, ps, flag)
  }

  /** Box i of the caller's array, with the middle of the box as its centroid. */
  function AabbPrim(boxes: seq<real>, i: nat): Prim
    requires 6 * i + 6 <= |boxes|
  {
    var b := NodeBox(boxes, 6 * i);
    Prim(Vec(0.5 * (b.lo.x + b.hi.x), 0.5 * (b.lo.y + b.hi.y), 0.5 * (b.lo.z + b.hi.z)), b, i)
  }

  function AabbPrims(boxes: seq<real>, count: nat): seq<Prim>
    requires 6 * count <= |boxes|
  {
    seq(count, i requires 0 <= i < count => AabbPrim(boxes, i))
  }

  /** Fills in the header of a block whose tables are in place. */
  method WriteHeader(blk: array<real>, count: nat, flag: nat, nodes: nat)
    requires count >= 1 && blk.Length >= HDR_WORDS && nodes == NodesFor(count)
    modifies blk
    ensures Header(blk[..], count, flag)
    ensures blk[HDR_WORDS..] == old(blk[HDR_WORDS..])
  {
    blk[0], blk[1], blk[2], blk[3] := 1.0, Word(nodes), Word(count), 0.0;
    blk[4], blk[5], blk[6], blk[7] := Word(HDR_WORDS), Word(RefOffset(count)), Word(flag), Word(NODE_WORDS);
  }

  /** Builds the tables over prims into a fresh block, then its header. Words past the tables
      stay as they were. */
  method FillBlock(prims: array<Prim>, blk: array<real>, flag: nat)
    requires prims.Length >= 1 && blk.Length == Allocated(prims.Length, flag)
    modifies prims, blk
    ensures IsBlock(blk[..], old(prims[..]), flag)
    ensures blk[RefOffset(prims.Length) + prims.Length..] == old(blk[RefOffset(prims.Length) + prims.Length..])
  {
    hide Nodes, ExtentOf, MedianCut, Word;
    var count := prims.Length;
    ghost var before, input := blk[..], prims[..];
    var cur := new Cursor();
    var root := Build(prims, 0, count, blk, HDR_WORDS, RefOffset(count), cur);
    ghost var built, ps := blk[..], prims[..];
    assert input[0..count] == input && ps[0..count] == ps;
    WriteHeader(blk, count, flag, cur.next);
    assert blk[HDR_WORDS..] == built[HDR_WORDS..];
    LayoutFrom(built, blk[..], ps, flag);
    assert Layout(blk[..], ps, flag);
    TailKept(before, built, blk[..], count);
  }

  lemma LayoutFrom(built: seq<real>, w: seq<real>, ps: seq<Prim>, flag: nat)
    requires ps != [] && |built| == |w| == Allocated(|ps|, flag) && Header(w, |ps|, flag)
    requires w[HDR_WORDS..] == built[HDR_WORDS..]
    requires Holds(built, ps, HDR_WORDS, RefOffset(|ps|), 0, |ps|, 0)
    ensures Layout(w, ps, flag)
  {
    hide Nodes, ExtentOf, MedianCut, Word;
    assert ps[0..|ps|] == ps;
    var off, tables := RefOffset(|ps|), built[HDR_WORDS..];
    SliceOf(w, HDR_WORDS, |w|, tables, 0, off - HDR_WORDS);
    SliceOf(built, HDR_WORDS, |w|, tables, 0, off - HDR_WORDS);
    SliceOf(w, HDR_WORDS, |w|, tables, off - HDR_WORDS, off - HDR_WORDS + |ps|);
    SliceOf(built, HDR_WORDS, |w|, tables, off - HDR_WORDS, off - HDR_WORDS + |ps|);
  }

  lemma TailKept(before: seq<real>, built: seq<real>, w: seq<real>, count: nat)
    requires count >= 1 && |before| == |w| && RefOffset(count) + count <= |w|
    requires Only(before, built, HDR_WORDS, RefOffset(count), RefOffset(count), RefOffset(count) + count)
    requires w[HDR_WORDS..] == built[HDR_WORDS..]
    ensures w[RefOffset(count) + count..] == before[RefOffset(count) + count..]
  {
    var end := RefOffset(count) + count;
    assert w[end..] == w[HDR_WORDS..][end - HDR_WORDS..] == built[end..];
  }

  /** The block over count boxes of six words each, or null when there is nothing to build. */
  method BuildAabbs(boxes: array?<real>, count: nat) returns (blk: array?<real>)
    requires boxes != null ==> 6 * count <= boxes.Length
    ensures blk == null <==> boxes == null || count == 0
    ensures blk != null ==> fresh(blk) && IsBlock(blk[..], AabbPrims(boxes[..], count), FLAG_AABBS)
  {
    if boxes == null || count == 0 {
      return null;
    }
    var prims := new Prim[count](_ => Prim(Vec(0.0, 0.0, 0.0), EMPTY, 0));
    var b := new real[Allocated(count, FLAG_AABBS)](_ => 0.0);
    for i := 0 to count
      invariant forall k :: 0 <= k < i ==> prims[k] == AabbPrim(boxes[..], k)
    {
      prims[i] := AabbPrim(boxes[..], i);
    }
    assert prims[..] == AabbPrims(boxes[..], count);
    FillBlock(prims, b, FLAG_AABBS);
    blk := b;
  }

  /** Where vertex v of triangle t starts in a soup with stride words a vertex. */
  function VertexAt(t: nat, v: nat, stride: nat): nat {
    (t * 3 + v) * stride
  }

  function Vertex(verts: seq<real>, t: nat, v: nat, stride: nat): Vec
    requires VertexAt(t, v, stride) + 3 <= |verts|
  {
    var at := VertexAt(t, v, stride);
    Vec(verts[at], verts[at + 1], verts[at + 2])
  }

  /** The words a soup of count triangles reaches over. */
  function SoupSpan(count: nat, stride: nat): nat {
    if count == 0 then 0 else (count * 3 - 1) * stride + 3
  }

  lemma VertexInside(t: nat, v: nat, count: nat, stride: nat)
    requires t < count && v < 3
    ensures VertexAt(t, v, stride) + 3 <= SoupSpan(count, stride)
  {
    MulMono(t * 3 + v, count * 3 - 1, stride);
  }

  function Min3(a: real, b: real, c: real): real {
    var lo := if a < b then a else b;
    if lo < c then lo else c
  }

  function Max3(a: real, b: real, c: real): real {
    var hi := if a > b then a else b;
    if hi > c then hi else c
  }

  /** A triangle's bounding box and the mean of its vertices. */
  function TrianglePrim(a: Vec, b: Vec, c: Vec, t: nat): (p: Prim)
    ensures p.orig == t
    ensures forall box ::
      Encloses(box, p.box) <==> Encloses(box, Box(a, a)) && Encloses(box, Box(b, b)) && Encloses(box, Box(c, c))
  {
    var lo := Vec(Min3(a.x, b.x, c.x), Min3(a.y, b.y, c.y), Min3(a.z, b.z, c.z));
    var hi := Vec(Max3(a.x, b.x, c.x), Max3(a.y, b.y, c.y), Max3(a.z, b.z, c.z));
    Prim(Vec((a.x + b.x + c.x) / 3.0, (a.y + b.y + c.y) / 3.0, (a.z + b.z + c.z) / 3.0), Box(lo, hi), t)
  }

  /** Triangle t of the soup. */
  function SoupPrim(verts: seq<real>, count: nat, stride: nat, t: nat): Prim
    requires t < count && stride >= 3 && SoupSpan(count, stride) <= |verts|
  {
    VertexInside(t, 0, count, stride);
    VertexInside(t, 1, count, stride);
    VertexInside(t, 2, count, stride);
    TrianglePrim(Vertex(verts, t, 0, stride), Vertex(verts, t, 1, stride), Vertex(verts, t, 2, stride), t)
  }

  function SoupPrims(verts: seq<real>, count: nat, stride: nat): seq<Prim>
    requires stride >= 3 && SoupSpan(count, stride) <= |verts|
  {
    seq(count, t requires 0 <= t < count => SoupPrim(verts, count, stride, t))
  }

  function TriWords(a: Vec, b: Vec, c: Vec): seq<real> {
    [a.x, a.y, a.z, b.x, b.y, b.z, c.x, c.y, c.z]
  }

  /** The nine vertex words of triangle t, packed tightly. */
  function SoupWords(verts: seq<real>, count: nat, stride: nat, t: nat): (ws: seq<real>)
    requires t < count && stride >= 3 && SoupSpan(count, stride) <= |verts|
    ensures |ws| == TRI_WORDS
  {
    VertexInside(t, 0, count, stride);
    VertexInside(t, 1, count, stride);
    VertexInside(t, 2, count, stride);
    TriWords(Vertex(verts, t, 0, stride), Vertex(verts, t, 1, stride), Vertex(verts, t, 2, stride))
  }

  /** The packed vertices of the soup start at word off of w. */
  ghost predicate HoldsSoup(w: seq<real>, off: nat, verts: seq<real>, count: nat, stride: nat, upTo: nat)
    requires upTo <= count && stride >= 3 && SoupSpan(count, stride) <= |verts| && off + TRI_WORDS * upTo <= |w|
  {
    forall t {:trigger SoupWords(verts, count, stride, t)} | 0 <= t < upTo ::
      w[off + TRI_WORDS * t..off + TRI_WORDS * t + TRI_WORDS] == SoupWords(verts, count, stride, t)
  }

  /** Packing one more triangle behind the ones before. */
  lemma SoupStep(w: seq<real>, w': seq<real>, off: nat, verts: seq<real>, count: nat, stride: nat, t: nat)
    requires t < count && stride >= 3 && SoupSpan(count, stride) <= |verts| && off + TRI_WORDS * t + TRI_WORDS <= |w|
    requires HoldsSoup(w, off, verts, count, stride, t)
    requires Only(w, w', off + TRI_WORDS * t, off + TRI_WORDS * t + TRI_WORDS, 0, 0)
    requires w'[off + TRI_WORDS * t..off + TRI_WORDS * t + TRI_WORDS] == SoupWords(verts, count, stride, t)
    ensures HoldsSoup(w', off, verts, count, stride, t + 1)
  {
    hide SoupWords;
    forall u {:trigger SoupWords(verts, count, stride, u)} | 0 <= u < t + 1
      ensures w'[off + TRI_WORDS * u..off + TRI_WORDS * u + TRI_WORDS] == SoupWords(verts, count, stride, u)
    {
      if u < t {
        PieceKept(w, w', off + TRI_WORDS * t, off + TRI_WORDS * t + TRI_WORDS, 0, 0,
                  off + TRI_WORDS * u, off + TRI_WORDS * u + TRI_WORDS);
      }
    }
  }

  lemma SoupKept(w: seq<real>, w': seq<real>, off: nat, verts: seq<real>, count: nat, stride: nat)
    requires stride >= 3 && SoupSpan(count, stride) <= |verts| && off + TRI_WORDS * count <= |w| == |w'|
    requires HoldsSoup(w, off, verts, count, stride, count) && w[off..] == w'[off..]
    ensures HoldsSoup(w', off, verts, count, stride, count)
  {
    hide SoupWords;
    forall u {:trigger SoupWords(verts, count, stride, u)} | 0 <= u < count
      ensures w'[off + TRI_WORDS * u..off + TRI_WORDS * u + TRI_WORDS] == SoupWords(verts, count, stride, u)
    {
      SliceOf(w, off, |w|, w[off..], TRI_WORDS * u, TRI_WORDS * u + TRI_WORDS);
      SliceOf(w', off, |w|, w[off..], TRI_WORDS * u, TRI_WORDS * u + TRI_WORDS);
    }
  }

  method CopyTriangle(blk: array<real>, at: nat, ws: seq<real>)
    requires |ws| == TRI_WORDS && at + TRI_WORDS <= blk.Length
    modifies blk
    ensures blk[..][at..at + TRI_WORDS] == ws
    ensures Only(old(blk[..]), blk[..], at, at + TRI_WORDS, 0, 0)
  {
    for k := 0 to TRI_WORDS
      invariant forall i :: 0 <= i < k ==> blk[at + i] == ws[i]
      invariant forall i :: 0 <= i < blk.Length && !(at <= i < at + TRI_WORDS) ==> blk[i] == old(blk[i])
    {
      blk[at + k] := ws[k];
    }
  }

  method PackTriangle(blk: array<real>, off: nat, verts: array<real>, count: nat, stride: nat, t: nat)
    requires blk != verts && t < count && stride >= 3 && SoupSpan(count, stride) <= verts.Length
    requires off + TRI_WORDS * t + TRI_WORDS <= blk.Length
    requires HoldsSoup(blk[..], off, verts[..], count, stride, t)
    modifies blk
    ensures HoldsSoup(blk[..], off, verts[..], count, stride, t + 1)
  {
    hide SoupWords, HoldsSoup, Only;
    ghost var before := blk[..];
    CopyTriangle(blk, off + TRI_WORDS * t, SoupWords(verts[..], count, stride, t));
    SoupStep(before, blk[..], off, verts[..], count, stride, t);
  }

  /** The block over a soup of count triangles, with its vertices packed behind the tables, or
      null when there is nothing to build. */
  method BuildTriangles(verts: array?<real>, count: nat, stride: nat) returns (blk: array?<real>)
    requires verts != null && stride >= 3 ==> SoupSpan(count, stride) <= verts.Length
    ensures blk == null <==> verts == null || count == 0 || stride < 3
    ensures blk != null ==> fresh(blk) && IsBlock(blk[..], SoupPrims(verts[..], count, stride), FLAG_TRIANGLES)
    ensures blk != null ==> RefOffset(count) + count + TRI_WORDS * count == blk.Length
    ensures blk != null ==> HoldsSoup(blk[..], RefOffset(count) + count, verts[..], count, stride, count)
  {
    if verts == null || count == 0 || stride < 3 {
      return null;
    }
    hide SoupWords, SoupPrim, HoldsSoup, IsBlock;
    var prims := new Prim[count](_ => Prim(Vec(0.0, 0.0, 0.0), EMPTY, 0));
    var b := new real[Allocated(count, FLAG_TRIANGLES)](_ => 0.0);
    var dataOff := RefOffset(count) + count;
    SoupStart(b[..], dataOff, verts[..], count, stride);
    for t := 0 to count
      invariant forall k :: 0 <= k < t ==> prims[k] == SoupPrim(verts[..], count, stride, k)
      invariant HoldsSoup(b[..], dataOff, verts[..], count, stride, t)
    {
      prims[t] := SoupPrim(verts[..], count, stride, t);
      PackTriangle(b, dataOff, verts, count, stride, t);
    }
    assert prims[..] == SoupPrims(verts[..], count, stride);
    ghost var before := b[..];
    FillBlock(prims, b, FLAG_TRIANGLES);
    SoupKept(before, b[..], dataOff, verts[..], count, stride);
    blk := b;
  }

  lemma SoupStart(w: seq<real>, off: nat, verts: seq<real>, count: nat, stride: nat)
    requires stride >= 3 && SoupSpan(count, stride) <= |verts| && off <= |w|
    ensures HoldsSoup(w, off, verts, count, stride, 0)
  {
  }

  /** What the walk needs of a block: its header tells where the tables are, and the walk over
      the tables reports brute force's answer over the caller's primitives. */
  lemma TablesWalk(w: seq<real>, ps: seq<Prim>, input: seq<Prim>, flag: nat, hit: Box -> bool)
    requires Layout(w, ps, flag) && multiset(ps) == multiset(input) && 18 * |ps| - 1 <= EXACT && Monotone(hit)
    requires forall i :: 0 <= i < |input| ==> input[i].orig == i
    ensures |ps| == |input|
    ensures Index(w[1]) == NodesFor(|ps|) && Index(w[3]) == 0
    ensures Index(w[4]) == HDR_WORDS && Index(w[5]) == RefOffset(|ps|)
    ensures
      var ws, rs := w[HDR_WORDS..RefOffset(|ps|)], w[RefOffset(|ps|)..RefOffset(|ps|) + |ps|];
      && Threaded(ws, 0, |rs|) && Visit(ws, rs, hit, 0) == Hits(ps, hit)
    ensures multiset(Hits(ps, hit)) == multiset(Hits(input, hit))
  {
    hide ExtentOf, Nodes, Hits, Visit, LeafBox;
    assert |multiset(ps)| == |multiset(input)|;
    forall p | p in ps
      ensures p.orig <= EXACT
    {
      assert p in multiset(input);
    }
    ExactUpTo(NodesFor(|ps|));
    ExactUpTo(RefOffset(|ps|));
    ExactUpTo(HDR_WORDS);
    WalkIsBruteForce(w[HDR_WORDS..RefOffset(|ps|)], w[RefOffset(|ps|)..RefOffset(|ps|) + |ps|], hit, ps);
    HitsOfPermutation(ps, input, hit);
  }

  lemma OpenBlock(w: seq<real>, input: seq<Prim>, flag: nat, hit: Box -> bool) returns (ps: seq<Prim>)
    requires |input| >= 1 && 18 * |input| - 1 <= EXACT && IsBlock(w, input, flag) && Monotone(hit)
    requires forall i :: 0 <= i < |input| ==> input[i].orig == i
    ensures |ps| == |input| && RefOffset(|ps|) + |ps| <= |w|
    ensures Index(w[1]) == NodesFor(|ps|) && Index(w[3]) == 0
    ensures Index(w[4]) == HDR_WORDS && Index(w[5]) == RefOffset(|ps|)
    ensures
      var ws, rs := w[HDR_WORDS..RefOffset(|ps|)], w[RefOffset(|ps|)..RefOffset(|ps|) + |ps|];
      && Threaded(ws, 0, |rs|) && Visit(ws, rs, hit, 0) == Hits(ps, hit)
    ensures multiset(Hits(ps, hit)) == multiset(Hits(input, hit))
  {
    hide ExtentOf, Nodes, Hits, Visit, LeafBox, Threaded, Word, Refs, MedianCut;
    ps :| multiset(ps) == multiset(input) && Layout(w, ps, flag);
    assert |multiset(ps)| == |multiset(input)|;
    TablesWalk(w, ps, input, flag, hit);
  }

  /** One step of the walk, read in the block: what it reports, and the node it goes on to. */
  lemma BlockStep(w: seq<real>, ws: seq<real>, rs: seq<real>, off: nat, hit: Box -> bool,
                  i: nat, next: nat, report: seq<nat>)
    requires HDR_WORDS + |ws| == off && off + |rs| <= |w| && NODE_WORDS * i + NODE_WORDS <= |ws|
    requires ws == w[HDR_WORDS..off] && rs == w[off..off + |rs|] && Threaded(ws, 0, |rs|)
    requires var at := HDR_WORDS + NODE_WORDS * i;
      if hit(NodeBox(w, at)) then
        && next == i + 1
        && (Index(w[at + 8]) > 0 ==> Index(w[at + 7]) < |rs| && report == [Index(w[off + Index(w[at + 7])])])
        && (Index(w[at + 8]) == 0 ==> report == [])
      else next == Index(w[at + 6]) && report == []
    ensures Visit(ws, rs, hit, i) == report + Visit(ws, rs, hit, next)
  {
    hide Visit, Threaded, Index, Word, Report, NodeSound, NodeBox;
    NodeIsSound(w, ws, |rs|, off, i);
    if hit(NodeBox(w, HDR_WORDS + NODE_WORDS * i)) {
      HitStep(w, ws, rs, off, hit, i);
      ReportInBlock(w, ws, rs, off, i);
    } else {
      MissStep(w, ws, rs, off, hit, i);
      Regroup([], [], Visit(ws, rs, hit, next));
    }
  }

  lemma HitStep(w: seq<real>, ws: seq<real>, rs: seq<real>, off: nat, hit: Box -> bool, i: nat)
    requires HDR_WORDS <= off <= |w| && ws == w[HDR_WORDS..off] && NODE_WORDS * i + NODE_WORDS <= |ws|
    requires Threaded(ws, 0, |rs|) && hit(NodeBox(w, HDR_WORDS + NODE_WORDS * i))
    ensures NodeSound(ws, 0, |rs|, i)
    ensures Visit(ws, rs, hit, i) == Report(ws, rs, i) + Visit(ws, rs, hit, i + 1)
  {
    hide Visit, Threaded, Index, Report, NodeSound, NodeBox;
    NodeIsSound(w, ws, |rs|, off, i);
    SameBox(w, ws, off, i);
    VisitStep(ws, rs, hit, i);
  }

  lemma MissStep(w: seq<real>, ws: seq<real>, rs: seq<real>, off: nat, hit: Box -> bool, i: nat)
    requires HDR_WORDS <= off <= |w| && ws == w[HDR_WORDS..off] && NODE_WORDS * i + NODE_WORDS <= |ws|
    requires Threaded(ws, 0, |rs|) && !hit(NodeBox(w, HDR_WORDS + NODE_WORDS * i))
    ensures Visit(ws, rs, hit, i) == Visit(ws, rs, hit, Index(w[HDR_WORDS + NODE_WORDS * i + 6]))
  {
    hide Visit, Threaded, Index, Report, NodeSound, NodeBox;
    SameBox(w, ws, off, i);
    SameTail(w, ws, HDR_WORDS, off, NODE_WORDS * i);
    VisitStep(ws, rs, hit, i);
  }

  /** What a node reports, read in the block. */
  lemma ReportInBlock(w: seq<real>, ws: seq<real>, rs: seq<real>, off: nat, i: nat)
    requires HDR_WORDS + |ws| == off && off + |rs| <= |w| && NODE_WORDS * i + NODE_WORDS <= |ws|
    requires ws == w[HDR_WORDS..off] && rs == w[off..off + |rs|] && NodeSound(ws, 0, |rs|, i)
    ensures var at := HDR_WORDS + NODE_WORDS * i;
      && (Index(w[at + 8]) > 0 ==>
            Index(w[at + 7]) < |rs| && Report(ws, rs, i) == [Index(w[off + Index(w[at + 7])])])
      && (Index(w[at + 8]) == 0 ==> Report(ws, rs, i) == [])
  {
    hide Index;
    SameTail(w, ws, HDR_WORDS, off, NODE_WORDS * i);
    assert forall k {:trigger rs[k]} :: 0 <= k < |rs| ==> rs[k] == w[off + k];
  }

  lemma NodeIsSound(w: seq<real>, ws: seq<real>, slots: nat, off: nat, i: nat)
    requires Threaded(ws, 0, slots) && NODE_WORDS * i + NODE_WORDS <= |ws|
    requires HDR_WORDS <= off <= |w| && ws == w[HDR_WORDS..off]
    ensures NodeSound(ws, 0, slots, i)
    ensures i < Index(w[HDR_WORDS + NODE_WORDS * i + 6])
    ensures NODE_WORDS * Index(w[HDR_WORDS + NODE_WORDS * i + 6]) <= |ws|
    ensures Index(w[HDR_WORDS + NODE_WORDS * i + 8]) > 0 ==> Index(w[HDR_WORDS + NODE_WORDS * i + 7]) < slots
  {
    hide Index;
    SameTail(w, ws, HDR_WORDS, off, NODE_WORDS * i);
    assert NodeSound(ws, 0, slots, i);
  }

  lemma SameBox(w: seq<real>, ws: seq<real>, off: nat, i: nat)
    requires HDR_WORDS <= off <= |w| && ws == w[HDR_WORDS..off] && NODE_WORDS * i + NODE_WORDS <= |ws|
    ensures NodeBox(w, HDR_WORDS + NODE_WORDS * i) == NodeBox(ws, NODE_WORDS * i)
  {
  }

  lemma EachOnce(found: seq<nat>, ps: seq<Prim>, input: seq<Prim>, hit: Box -> bool)
    requires found == Hits(ps, hit) && multiset(Hits(ps, hit)) == multiset(Hits(input, hit))
    requires forall i :: 0 <= i < |input| ==> input[i].orig == i
    ensures forall j: nat :: multiset(found)[j] == if j < |input| && hit(LeafBox(input[j])) then 1 else 0
  {
    hide Hits, LeafBox;
    forall j: nat
      ensures multiset(found)[j] == if j < |input| && hit(LeafBox(input[j])) then 1 else 0
    {
      HitsOnce(input, 0, hit, j);
    }
  }

  /** The walk over a block in memory, from its header on: every primitive whose box passes is
      reported exactly once, by its original index, within nodeCount steps. */
  method Walk(blk: array<real>, hit: Box -> bool, ghost input: seq<Prim>, ghost flag: nat)
    returns (found: seq<nat>, steps: nat)
    requires |input| >= 1 && 18 * |input| - 1 <= EXACT && IsBlock(blk[..], input, flag) && Monotone(hit)
    requires forall i :: 0 <= i < |input| ==> input[i].orig == i
    ensures steps <= NodesFor(|input|)
    ensures forall j: nat :: multiset(found)[j] == if j < |input| && hit(LeafBox(input[j])) then 1 else 0
  {
    hide Hits, Visit, LeafBox, Threaded, NodeSound, Index, IsBlock, Monotone;
    ghost var w := blk[..];
    ghost var ps := OpenBlock(w, input, flag, hit);
    ghost var off := RefOffset(|ps|);
    ghost var ws, rs := w[HDR_WORDS..off], w[off..off + |ps|];
    var count, nodes, refs := Index(blk[1]), Index(blk[4]), Index(blk[5]);
    var i := Index(blk[3]);
    found, steps := [], 0;
    while i < count
      invariant steps <= i <= count
      invariant found + Visit(ws, rs, hit, i) == Hits(ps, hit)
    {
      var at := nodes + NODE_WORDS * i;
      NodeIsSound(w, ws, |rs|, off, i);
      var next, report := i + 1, [];
      if hit(NodeBox(blk[..], at)) {
        if Index(blk[at + 8]) > 0 {
          report := [Index(blk[refs + Index(blk[at + 7])])];
        }
      } else {
        next := Index(blk[at + 6]);
      }
      BlockStep(w, ws, rs, off, hit, i, next, report);
      Regroup(found, report, Visit(ws, rs, hit, next));
      found := found + report;
      i := next;
      steps := steps + 1;
    }
    VisitEnd(ws, rs, hit, i);
    Regroup(found, [], []);
    EachOnce(found, ps, input, hit);
  }

  /** End to end over boxes inside the sentinels: building a block and walking it reports index j
      once if box j itself passes, and never otherwise. */
  method QueryAabbs(boxes: array<real>, count: nat, hit: Box -> bool) returns (found: seq<nat>, steps: nat)
    requires 6 * count <= boxes.Length && 1 <= 18 * count <= EXACT + 1 && Monotone(hit)
    requires forall i :: 0 <= i < count ==> InLimit(NodeBox(boxes[..], 6 * i))
    ensures steps <= 2 * count - 1
    ensures forall j: nat :: multiset(found)[j] == if j < count && hit(NodeBox(boxes[..], 6 * j)) then 1 else 0
  {
    ghost var input := AabbPrims(boxes[..], count);
    var blk := BuildAabbs(boxes, count);
    found, steps := Walk(blk, hit, input, FLAG_AABBS);
    forall j: nat
      ensures multiset(found)[j] == if j < count && hit(NodeBox(boxes[..], 6 * j)) then 1 else 0
    {
      if j < count {
        LeafBoxIsOwnIff(input[j]);
      }
    }
  }

  /** The node table of a block is at most k levels high if and only if the block holds at most 2^k
      primitives. */
  lemma BlockHeightIff(w: seq<real>, input: seq<Prim>, flag: nat, k: nat)
    requires |input| >= 1 && NodesFor(|input|) <= EXACT && IsBlock(w, input, flag)
    requires forall i :: 0 <= i < |input| ==> input[i].orig == i
    ensures RefOffset(|input|) <= |w|
    ensures TableHeight(w[HDR_WORDS..RefOffset(|input|)], 0) <= k <==> |input| <= Pow2(k)
  {
    hide ExtentOf, Nodes, TableHeight, Word, MedianCut;
    var ps: seq<Prim> :| multiset(ps) == multiset(input) && Layout(w, ps, flag);
    assert |multiset(ps)| == |multiset(input)|;
    forall p | p in ps
      ensures p.orig <= EXACT
    {
      assert p in multiset(input);
    }
    TableHeightIff(w[HDR_WORDS..RefOffset(|ps|)], Refs(ps), ps, k);
  }

  /** The last node of a table is the leaf of its last reference slot. */
  lemma {:induction false} LastNodeIsLeaf(ps: seq<Prim>, first: nat, idx: nat)
    requires ps != []
    ensures var ws := Nodes(ps, first, idx);
      |ws| >= NODE_WORDS && ws[|ws| - 2] == Word(first + |ps| - 1) && ws[|ws| - 1] == 1.0
    decreases |ps|
  {
    hide ExtentOf, Word, Nodes;
    if |ps| > 1 {
      var mid := |ps| / 2;
      LastNodeIsLeaf(ps[mid..], first + mid, idx + 1 + NodesFor(mid));
      NodesInterior(ps, first, idx);
    } else {
      RootWords(ps, first, idx);
    }
  }

  /** The node at which the walk stands after so many steps, as it reads the block. */
  function NodeAfter(w: seq<real>, hit: Box -> bool, steps: nat): nat {
    if steps == 0 then 0
    else
      var i := NodeAfter(w, hit, steps - 1);
      var at := HDR_WORDS + NODE_WORDS * i;
      if at + NODE_WORDS > |w| || hit(NodeBox(w, at)) then i + 1 else Index(w[at + 6])
  }

  /** The test that passes every box. */
  const ALWAYS: Box -> bool := _ => true

  lemma {:induction false} AlwaysHitVisitsAll(w: seq<real>, steps: nat)
    ensures NodeAfter(w, ALWAYS, steps) == steps
  {
    hide NodeBox, Index;
    if steps > 0 {
      AlwaysHitVisitsAll(w, steps - 1);
    }
  }

  /** Where the walk reads the reference of node i's leaf. */
  function ReadAt(w: seq<real>, i: nat): nat
    requires |w| >= HDR_WORDS + NODE_WORDS * (i + 1)
  {
    Index(w[5]) + Index(w[HDR_WORDS + NODE_WORDS * i + 7])
  }

  /** The words of the last leaf, and where the header says the references are. */
  lemma LastLeafWords(w: seq<real>, ps: seq<Prim>, flag: nat)
    requires Layout(w, ps, flag)
    ensures HDR_WORDS + NODE_WORDS * NodesFor(|ps|) <= |w| && w[5] == Word(RefOffset(|ps|))
    ensures var at := HDR_WORDS + NODE_WORDS * (NodesFor(|ps|) - 1);
      w[at + 7] == Word(|ps| - 1) && w[at + 8] == 1.0
  {
    hide ExtentOf, Nodes, Word, MedianCut, Refs;
    LastNodeIsLeaf(ps, 0, 0);
    var ws, last := w[HDR_WORDS..RefOffset(|ps|)], NodesFor(|ps|) - 1;
    assert ws[|ws| - 2] == w[HDR_WORDS + NODE_WORDS * last + 7] && ws[|ws| - 1] == w[HDR_WORDS + NODE_WORDS * last + 8];
  }

  /** The limit is the walk's own: under a test that always passes it comes to the last leaf, and
      reads that leaf's reference where it was stored if and only if the reference offset fits. */
  lemma LastReadIff(w: seq<real>, input: seq<Prim>, flag: nat)
    requires |input| >= 1 && NodesFor(|input|) <= EXACT && IsBlock(w, input, flag)
    ensures var last := NodeAfter(w, ALWAYS, NodesFor(|input|) - 1);
      && last == NodesFor(|input|) - 1 && HDR_WORDS + NODE_WORDS * (last + 1) <= |w|
      && Index(w[HDR_WORDS + NODE_WORDS * last + 8]) == 1
      && Index(w[HDR_WORDS + NODE_WORDS * last + 7]) == |input| - 1
      && (ReadAt(w, last) == RefOffset(|input|) + |input| - 1 <==> 18 * |input| - 1 <= EXACT)
  {
    hide ExtentOf, Nodes, Word, MedianCut, Index, NodeAfter, Refs, Header;
    var ps: seq<Prim> :| multiset(ps) == multiset(input) && Layout(w, ps, flag);
    assert |multiset(ps)| == |multiset(input)|;
    LastLeafWords(w, ps, flag);
    AlwaysHitVisitsAll(w, NodesFor(|ps|) - 1);
    ExactUpTo(|ps| - 1);
    IndexOfOne();
    RefOffsetExactIff(|ps|);
  }

  /** From the first count that does not fit, the last leaf's reference is read past the block. */
  lemma FirstTooLarge(w: seq<real>, input: seq<Prim>)
    requires |input| == 932068 && IsBlock(w, input, FLAG_AABBS)
    ensures 18 * (|input| - 1) - 1 <= EXACT < 18 * |input| - 1
    ensures HDR_WORDS + NODE_WORDS * NodesFor(|input|) <= |w| && ReadAt(w, NodesFor(|input|) - 1) == |w|
  {
    hide ExtentOf, Nodes, Word, MedianCut, Index;
    LastReadIff(w, input, FLAG_AABBS);
    var ps: seq<Prim> :| multiset(ps) == multiset(input) && Layout(w, ps, FLAG_AABBS);
    assert |multiset(ps)| == |multiset(input)|;
    RoundsUp();
  }

  lemma RoundsUp()
    ensures Index(Word(16777223)) == 16777224
  {
    assert Round(16777223) == 16777224;
  }

  /** Box i of the caller's words: corner k is word k of the six, the centroid their middle. */
  lemma AabbPrimsAt(boxes: seq<real>, count: nat, i: nat, k: nat)
    requires i < count && k < 3 && 6 * count <= |boxes|
    ensures var p := AabbPrims(boxes, count)[i];
      && p.orig == i && p.box.lo.At(k) == boxes[6 * i + k] && p.box.hi.At(k) == boxes[6 * i + 3 + k]
      && 2.0 * p.c.At(k) == boxes[6 * i + k] + boxes[6 * i + 3 + k]
  {
    BoxInWords(boxes, 6 * i, k);
  }

  /** Where coordinate k of vertex v of triangle t lies in the soup. */
  lemma SoupInside(verts: seq<real>, count: nat, stride: nat, t: nat, v: nat, k: nat)
    requires t < count && v < 3 && k < 3 && stride >= 3 && SoupSpan(count, stride) <= |verts|
    ensures 0 <= (t * 3 + v) * stride + k < |verts|
    ensures VertexAt(t, v, stride) + 3 <= |verts|
    ensures Vertex(verts, t, v, stride).At(k) == verts[(t * 3 + v) * stride + k]
  {
    VertexInside(t, v, count, stride);
  }

  /** The packed vertices, word by word: the soup's own coordinates in their order. */
  lemma SoupPacked(w: seq<real>, off: nat, verts: seq<real>, count: nat, stride: nat, t: nat, v: nat, k: nat)
    requires t < count && v < 3 && k < 3 && stride >= 3 && SoupSpan(count, stride) <= |verts|
    requires off + TRI_WORDS * count <= |w| && HoldsSoup(w, off, verts, count, stride, count)
    ensures 0 <= (t * 3 + v) * stride + k < |verts|
    ensures w[off + 9 * t + 3 * v + k] == verts[(t * 3 + v) * stride + k]
  {
    hide SoupSpan, HoldsSoup, VertexAt, Vertex;
    SoupInside(verts, count, stride, t, v, k);
    assert w[off + TRI_WORDS * t..off + TRI_WORDS * t + TRI_WORDS] == SoupWords(verts, count, stride, t) by {
      PackedTriangle(w, off, verts, count, stride, t);
    }
    assert w[off + 9 * t + 3 * v + k] == SoupWords(verts, count, stride, t)[3 * v + k];
  }

  lemma PackedTriangle(w: seq<real>, off: nat, verts: seq<real>, count: nat, stride: nat, t: nat)
    requires t < count && stride >= 3 && SoupSpan(count, stride) <= |verts|
    requires off + TRI_WORDS * count <= |w| && HoldsSoup(w, off, verts, count, stride, count)
    ensures w[off + TRI_WORDS * t..off + TRI_WORDS * t + TRI_WORDS] == SoupWords(verts, count, stride, t)
  {
    hide SoupWords;
  }

  /** The three words a triangle has on axis k. */
  function Coordinates(verts: seq<real>, count: nat, stride: nat, t: nat, k: nat): (cs: seq<real>)
    requires t < count && k < 3 && stride >= 3 && SoupSpan(count, stride) <= |verts|
    ensures |cs| == 3
  {
    SoupInside(verts, count, stride, t, 0, k);
    SoupInside(verts, count, stride, t, 1, k);
    SoupInside(verts, count, stride, t, 2, k);
    [verts[t * 3 * stride + k], verts[(t * 3 + 1) * stride + k], verts[(t * 3 + 2) * stride + k]]
  }

  /** On every axis a triangle's box runs from the least to the greatest of its three coordinates,
      and its centroid is their mean. */
  lemma SoupPrimsAt(verts: seq<real>, count: nat, stride: nat, t: nat, k: nat)
    requires t < count && k < 3 && stride >= 3 && SoupSpan(count, stride) <= |verts|
    ensures var p, cs := SoupPrims(verts, count, stride)[t], Coordinates(verts, count, stride, t, k);
      && p.orig == t && p.box.lo.At(k) in cs && p.box.hi.At(k) in cs
      && (forall v :: 0 <= v < 3 ==> p.box.lo.At(k) <= cs[v] <= p.box.hi.At(k))
      && 3.0 * p.c.At(k) == cs[0] + cs[1] + cs[2]
  {
    hide SoupSpan, Vertex;
    SoupInside(verts, count, stride, t, 0, k);
    SoupInside(verts, count, stride, t, 1, k);
    SoupInside(verts, count, stride, t, 2, k);
    TriangleByAxis(Vertex(verts, t, 0, stride), Vertex(verts, t, 1, stride), Vertex(verts, t, 2, stride), t, k);
  }

  lemma TriangleByAxis(a: Vec, b: Vec, c: Vec, t: nat, k: nat)
    requires k < 3
    ensures var p, cs := TrianglePrim(a, b, c, t), [a.At(k), b.At(k), c.At(k)];
      && p.orig == t && p.box.lo.At(k) in cs && p.box.hi.At(k) in cs
      && (forall v :: 0 <= v < 3 ==> p.box.lo.At(k) <= cs[v] <= p.box.hi.At(k))
      && 3.0 * p.c.At(k) == a.At(k) + b.At(k) + c.At(k)
  {
    assert [a.At(k), b.At(k), c.At(k)][0] == a.At(k);
  }

  /** The words of a table over one and over two primitives. */
  lemma OneNode(p: Prim, first: nat, idx: nat)
    requires idx < EXACT && first <= EXACT
    ensures Nodes([p], first, idx) == BoxWords(LeafBox(p)) + [(idx + 1) as real, first as real, 1.0]
  {
    hide BoxWords, LeafBox, Word;
    ExactUpTo(idx + 1);
    ExactUpTo(first);
    assert ExtentOf([p]).box == LeafBox(p) by {
      OneExtent(p);
    }
  }

  lemma OneExtent(p: Prim)
    ensures ExtentOf([p]).box == LeafBox(p) && ExtentOf([p]).cent == Union(EMPTY, Box(p.c, p.c))
  {
    assert [p][..0] == [];
  }

  lemma TwoExtent(p: Prim, q: Prim)
    ensures ExtentOf([p, q]).box == Union(LeafBox(p), q.box)
    ensures ExtentOf([p, q]).cent == Union(Union(EMPTY, Box(p.c, p.c)), Box(q.c, q.c))
  {
    assert [p, q][..1] == [p];
    OneExtent(p);
  }

  lemma ThreeNodes(p: Prim, q: Prim)
    ensures Nodes([p, q], 0, 0) ==
      BoxWords(Union(LeafBox(p), q.box)) + [3.0, 0.0, 0.0]
      + (BoxWords(LeafBox(p)) + [2.0, 0.0, 1.0]) + (BoxWords(LeafBox(q)) + [3.0, 1.0, 1.0])
  {
    hide BoxWords, LeafBox, Word, Nodes, ExtentOf;
    NodesInterior([p, q], 0, 0);
    assert [p, q][..1] == [p] && [p, q][1..] == [q];
    OneNode(p, 0, 1);
    OneNode(q, 1, 2);
    TwoExtent(p, q);
    ExactUpTo(3);
  }

  /** A whole block in words: two boxes apart on the x axis, given in descending order. */
  lemma TwoBoxBlock(w: seq<real>)
    requires IsBlock(w, AabbPrims([2.0, 0.0, 0.0, 4.0, 0.0, 0.0, 0.0, 0.0, 0.0, 2.0, 0.0, 0.0], 2), FLAG_AABBS)
    ensures w == [1.0, 3.0, 2.0, 0.0, 8.0, 35.0, 1.0, 9.0]
      + [0.0, 0.0, 0.0, 4.0, 0.0, 0.0, 3.0, 0.0, 0.0]
      + [0.0, 0.0, 0.0, 2.0, 0.0, 0.0, 2.0, 0.0, 1.0]
      + [2.0, 0.0, 0.0, 4.0, 0.0, 0.0, 3.0, 1.0, 1.0]
      + [1.0, 0.0]
  {
    hide Nodes, ExtentOf, MedianCut, Word, Refs, Header, AabbPrims;
    var p := Prim(Vec(3.0, 0.0, 0.0), Box(Vec(2.0, 0.0, 0.0), Vec(4.0, 0.0, 0.0)), 0);
    var q := Prim(Vec(1.0, 0.0, 0.0), Box(Vec(0.0, 0.0, 0.0), Vec(2.0, 0.0, 0.0)), 1);
    TwoPrims(p, q);
    var ps: seq<Prim> :| multiset(ps) == multiset([p, q]) && Layout(w, ps, FLAG_AABBS);
    TwoInOrder(ps, p, q);
    TwoRefs(q, p);
    TwoBoxNodes(q, p);
    HeaderInWords(w, 2, FLAG_AABBS);
    assert w == w[..HDR_WORDS] + w[HDR_WORDS..35] + w[35..37];
  }

  lemma TwoPrims(p: Prim, q: Prim)
    requires p == Prim(Vec(3.0, 0.0, 0.0), Box(Vec(2.0, 0.0, 0.0), Vec(4.0, 0.0, 0.0)), 0)
    requires q == Prim(Vec(1.0, 0.0, 0.0), Box(Vec(0.0, 0.0, 0.0), Vec(2.0, 0.0, 0.0)), 1)
    ensures AabbPrims([2.0, 0.0, 0.0, 4.0, 0.0, 0.0, 0.0, 0.0, 0.0, 2.0, 0.0, 0.0], 2) == [p, q]
  {
  }

  lemma TwoBoxNodes(p: Prim, q: Prim)
    requires p.box == Box(Vec(0.0, 0.0, 0.0), Vec(2.0, 0.0, 0.0))
    requires q.box == Box(Vec(2.0, 0.0, 0.0), Vec(4.0, 0.0, 0.0))
    ensures Nodes([p, q], 0, 0) == [0.0, 0.0, 0.0, 4.0, 0.0, 0.0, 3.0, 0.0, 0.0]
      + [0.0, 0.0, 0.0, 2.0, 0.0, 0.0, 2.0, 0.0, 1.0] + [2.0, 0.0, 0.0, 4.0, 0.0, 0.0, 3.0, 1.0, 1.0]
  {
    hide Nodes;
    ThreeNodes(p, q);
    assert LeafBox(p) == p.box && LeafBox(q) == q.box;
  }

  lemma TwoRefs(p: Prim, q: Prim)
    requires p.orig <= EXACT && q.orig <= EXACT
    ensures Refs([p, q]) == [p.orig as real, q.orig as real]
  {
    hide Word;
    ExactUpTo(p.orig);
    ExactUpTo(q.orig);
  }

  /** The median cut puts the primitive with the lesser centroid first. */
  lemma TwoInOrder(ps: seq<Prim>, p: Prim, q: Prim)
    requires multiset(ps) == multiset([p, q]) && MedianCut(ps)
    requires p.c == Vec(3.0, 0.0, 0.0) && q.c == Vec(1.0, 0.0, 0.0)
    ensures ps == [q, p]
  {
    hide ExtentOf;
    assert |multiset(ps)| == 2 && |ps| == 2;
    assert ps == [ps[0], ps[1]];
    assert ps[0] in multiset([p, q]) && ps[1] in multiset([p, q]);
    assert multiset(ps)[p] == 1;
    TwoExtent(ps[0], ps[1]);
    assert ps[0] in ps[..1] && ps[1] in ps[1..];
  }

  lemma HeaderInWords(w: seq<real>, count: nat, flag: nat)
    requires 1 <= count && 18 * count - 1 <= EXACT && |w| >= HDR_WORDS && Header(w, count, flag) && flag <= 2
    ensures w[..HDR_WORDS] == [1.0, (2 * count - 1) as real, count as real, 0.0, 8.0, (18 * count - 1) as real,
      flag as real, 9.0]
  {
    hide Word;
    ExactUpTo(NodesFor(count));
    ExactUpTo(count);
    ExactUpTo(HDR_WORDS);
    ExactUpTo(RefOffset(count));
    ExactUpTo(flag);
    ExactUpTo(NODE_WORDS);
  }

  /** Of three primitives the left half is one: node 1 is a leaf, and node 2 holds the other two. */
  lemma ThreeLeaves(ps: seq<Prim>)
    requires |ps| == 3
    ensures var ws := Nodes(ps, 0, 0);
      && ws[6..9] == [5.0, 0.0, 0.0] && ws[15..18] == [2.0, 0.0, 1.0] && ws[24..27] == [5.0, 0.0, 0.0]
      && ws[33..36] == [4.0, 1.0, 1.0] && ws[42..45] == [5.0, 2.0, 1.0]
  {
    hide BoxWords, LeafBox, Word, Nodes, ExtentOf;
    NodesInterior(ps, 0, 0);
    assert ps[..1] == [ps[0]] && ps[1..] == [ps[1], ps[2]];
    OneNode(ps[0], 0, 1);
    RightTwo(ps[1], ps[2]);
    ExactUpTo(5);
  }

  lemma RightTwo(p: Prim, q: Prim)
    ensures var ws := Nodes([p, q], 1, 2);
      |ws| == 27 && ws[6..9] == [5.0, 0.0, 0.0] && ws[15..18] == [4.0, 1.0, 1.0] && ws[24..27] == [5.0, 2.0, 1.0]
  {
    hide BoxWords, LeafBox, Word, Nodes, ExtentOf;
    assert [p, q][..1] == [p] && [p, q][1..] == [q];
    NodesInterior([p, q], 1, 2);
    OneNode(p, 1, 3);
    OneNode(q, 2, 4);
    ExactUpTo(5);
  }

  /** The size of a block in words, and the header of either kind. */
  lemma BlocksInWords(w: seq<real>, input: seq<Prim>, flag: nat)
    requires 1 <= |input| && 18 * |input| - 1 <= EXACT && IsBlock(w, input, flag)
    ensures flag == FLAG_AABBS ==> |w| == 19 * |input| - 1
    ensures flag == FLAG_TRIANGLES ==> |w| == 28 * |input| - 1
    ensures flag == FLAG_AABBS || flag == FLAG_TRIANGLES ==>
      w[..8] == [1.0, (2 * |input| - 1) as real, |input| as real, 0.0, 8.0, (18 * |input| - 1) as real,
                 if flag == FLAG_TRIANGLES then 2.0 else 1.0, 9.0]
  {
    hide Nodes, MedianCut, Refs, Header, Word;
    var ps: seq<Prim> :| multiset(ps) == multiset(input) && Layout(w, ps, flag);
    assert |multiset(ps)| == |multiset(input)|;
    if flag == FLAG_AABBS || flag == FLAG_TRIANGLES {
      HeaderInWords(w, |ps|, flag);
    }
  }
}
