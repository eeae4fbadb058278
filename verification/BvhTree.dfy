/** The primitives of a bounding-volume hierarchy, their extents, and what a threaded
    subtree in a block of words means. */
module BvhTree {
  import opened Basics
  import opened Float32

  const NODE_WORDS: nat := 9

  datatype Vec = Vec(x: real, y: real, z: real) {
    function At(axis: nat): real {
      if axis == 0 then x else if axis == 1 then y else z
    }
  }

  datatype Box = Box(lo: Vec, hi: Vec)

  /** c is the centroid the builder sorts by; orig is the caller's index. */
  datatype Prim = Prim(c: Vec, box: Box, orig: nat)

  /** What one pass over a range accumulates: the union of the boxes, and of the centroids. */
  datatype Extent = Extent(box: Box, cent: Box)

  predicate Below(a: Vec, b: Vec) { a.x <= b.x && a.y <= b.y && a.z <= b.z }

  predicate Encloses(outer: Box, inner: Box) {
    Below(outer.lo, inner.lo) && Below(inner.hi, outer.hi)
  }

  /** The inverted box the accumulation starts from. */
  const HUGE: real := 1000000000000000000000000000000.0
  const EMPTY: Box := Box(Vec(HUGE, HUGE, HUGE), Vec(-HUGE, -HUGE, -HUGE))

  function Min(a: real, b: real): real { if b < a then b else a }
  function Max(a: real, b: real): real { if b > a then b else a }

  function Union(a: Box, b: Box): Box {
    Box(Vec(Min(a.lo.x, b.lo.x), Min(a.lo.y, b.lo.y), Min(a.lo.z, b.lo.z)),
        Vec(Max(a.hi.x, b.hi.x), Max(a.hi.y, b.hi.y), Max(a.hi.z, b.hi.z)))
  }

  function Grow(e: Extent, p: Prim): Extent {
    Extent(Union(e.box, p.box), Union(e.cent, Box(p.c, p.c)))
  }

  function ExtentOf(ps: seq<Prim>): Extent {
    if ps == [] then Extent(EMPTY, EMPTY) else Grow(ExtentOf(ps[..|ps| - 1]), ps[|ps| - 1])
  }

  /** The extent encloses every primitive, whatever the coordinates. */
  lemma {:induction false} ExtentEncloses(ps: seq<Prim>)
    ensures Encloses(ExtentOf(ps).box, EMPTY) && Encloses(ExtentOf(ps).cent, EMPTY)
    ensures forall p :: p in ps ==>
      Encloses(ExtentOf(ps).box, p.box) && Encloses(ExtentOf(ps).cent, Box(p.c, p.c))
  {
    if ps != [] {
      ExtentEncloses(ps[..|ps| - 1]);
      assert forall p :: p in ps ==> p in ps[..|ps| - 1] || p == ps[|ps| - 1];
    }
  }

  /** No extent is smaller: whatever encloses the start box and every primitive encloses it. */
  lemma {:induction false} ExtentLeast(ps: seq<Prim>, e: Extent)
    requires Encloses(e.box, EMPTY) && Encloses(e.cent, EMPTY)
    requires forall p :: p in ps ==> Encloses(e.box, p.box) && Encloses(e.cent, Box(p.c, p.c))
    ensures Encloses(e.box, ExtentOf(ps).box) && Encloses(e.cent, ExtentOf(ps).cent)
  {
    if ps != [] {
      ExtentLeast(ps[..|ps| - 1], e);
    }
  }

  /** The box a leaf stores for its primitive. */
  function LeafBox(p: Prim): Box { Union(EMPTY, p.box) }

  /** Inside the sentinels, where a stored box loses nothing. */
  predicate InLimit(b: Box) {
    Below(b.lo, EMPTY.lo) && Below(EMPTY.hi, b.hi)
  }

  lemma LeafBoxIsOwnIff(p: Prim)
    ensures LeafBox(p) == p.box <==> InLimit(p.box)
  {
  }

  /** With coordinates inside the sentinels a box is the exact union of its range: the least
      box that encloses every primitive. */
  lemma ExtentIsExactUnion(ps: seq<Prim>, b: Box)
    requires ps != [] && InLimit(ps[0].box)
    ensures Encloses(b, ExtentOf(ps).box) <==> forall p :: p in ps ==> Encloses(b, p.box)
  {
    ExtentEncloses(ps);
    assert ps[0] in ps;
    if forall p :: p in ps ==> Encloses(b, p.box) {
      assert Encloses(b, ps[0].box);
      var cent := ExtentOf(ps).cent;
      ExtentLeast(ps, Extent(b, cent));
    }
  }

  lemma ExtentOfPermutation(ps: seq<Prim>, qs: seq<Prim>)
    requires multiset(ps) == multiset(qs)
    ensures ExtentOf(ps) == ExtentOf(qs)
  {
    assert forall p :: p in ps <==> p in multiset(ps);
    assert forall p :: p in qs <==> p in multiset(qs);
    ExtentEncloses(ps);
    ExtentEncloses(qs);
    ExtentLeast(ps, ExtentOf(qs));
    ExtentLeast(qs, ExtentOf(ps));
  }

  /** The longest centroid extent; the earlier axis on a tie. */
  function LongestAxis(c: Box): (axis: nat)
    ensures axis < 3
    ensures forall k: nat :: k < 3 ==> c.hi.At(k) - c.lo.At(k) <= c.hi.At(axis) - c.lo.At(axis)
    ensures forall k: nat :: k < axis ==> c.hi.At(k) - c.lo.At(k) < c.hi.At(axis) - c.lo.At(axis)
  {
    var axis := if c.hi.y - c.lo.y > c.hi.x - c.lo.x then 1 else 0;
    if c.hi.z - c.lo.z > c.hi.At(axis) - c.lo.At(axis) then 2 else axis
  }

  /** The nodes of a subtree over n primitives: a full binary tree, one primitive a leaf. */
  function NodesFor(n: nat): nat
    requires n >= 1
  {
    2 * n - 1
  }

  function NodeBox(ws: seq<real>, at: nat): Box
    requires at + 6 <= |ws|
  {
    Box(Vec(ws[at], ws[at + 1], ws[at + 2]), Vec(ws[at + 3], ws[at + 4], ws[at + 5]))
  }

  function BoxWords(b: Box): (ws: seq<real>)
    ensures |ws| == 6
  {
    [b.lo.x, b.lo.y, b.lo.z, b.hi.x, b.hi.y, b.hi.z]
  }

  /** The node words of a threaded subtree over ps, depth first: its root is node idx and its
      leaves own the reference slots from first on. A node holds its box, its escape (the node
      past its subtree), and for a leaf the reference slot and the count 1. */
  function Nodes(ps: seq<Prim>, first: nat, idx: nat): (ws: seq<real>)
    requires ps != []
    ensures |ws| == NODE_WORDS * NodesFor(|ps|)
    decreases |ps|
  {
    var head, escape := BoxWords(ExtentOf(ps).box), Word(idx + NodesFor(|ps|));
    if |ps| == 1 then
      head + [escape, Word(first), 1.0]
    else
      var mid := |ps| / 2;
      head + [escape, 0.0, 0.0] + Nodes(ps[..mid], first, idx + 1)
                                + Nodes(ps[mid..], first + mid, idx + 1 + NodesFor(mid))
  }

  /** The caller's index of each primitive, in leaf order. */
  function Refs(ps: seq<Prim>): (ws: seq<real>)
    ensures |ws| == |ps|
  {
    seq(|ps|, i requires 0 <= i < |ps| => Word(ps[i].orig))
  }

  lemma RefsHalves(ps: seq<Prim>, mid: nat)
    requires mid <= |ps|
    ensures Refs(ps[..mid]) + Refs(ps[mid..]) == Refs(ps)
  {
  }

  lemma NodesInterior(ps: seq<Prim>, first: nat, idx: nat)
    requires |ps| > 1
    ensures
      var mid := |ps| / 2;
      Nodes(ps, first, idx) == BoxWords(ExtentOf(ps).box) + [Word(idx + NodesFor(|ps|)), 0.0, 0.0]
                               + Nodes(ps[..mid], first, idx + 1)
                               + Nodes(ps[mid..], first + mid, idx + 1 + NodesFor(mid))
  {
  }

  /** Nothing left of the cut lies beyond anything right of it. */
  ghost predicate Cut(left: seq<Prim>, right: seq<Prim>, axis: nat) {
    forall p, q :: p in left && q in right ==> p.c.At(axis) <= q.c.At(axis)
  }

  /** Every range of the recursion is cut at its median on the longest axis of its centroids. */
  ghost predicate MedianCut(ps: seq<Prim>)
    decreases |ps|
  {
    |ps| > 1 ==>
      var mid := |ps| / 2;
      && Cut(ps[..mid], ps[mid..], LongestAxis(ExtentOf(ps).cent))
      && MedianCut(ps[..mid]) && MedianCut(ps[mid..])
  }

  /** The levels below the root of a subtree over n primitives. */
  function Height(n: nat): nat
    requires n >= 1
  {
    if n == 1 then 0
    else 1 + (if Height(n / 2) > Height(n - n / 2) then Height(n / 2) else Height(n - n / 2))
  }

  /** The median cut keeps the height at exactly the ceiling of log2 n. */
  lemma {:induction false} HeightIsCeilLog2(n: nat, k: nat)
    requires n >= 1
    ensures Height(n) <= k <==> n <= Pow2(k)
    decreases n
  {
    if n > 1 {
      if k > 0 {
        HeightIsCeilLog2(n / 2, k - 1);
        HeightIsCeilLog2(n - n / 2, k - 1);
      }
    }
  }

  /** Boxes axis by axis: enclosing, the union, and the limit that a stored box keeps to. */
  lemma BoxesByAxis(a: Box, b: Box, k: nat)
    requires k < 3
    ensures Encloses(a, b) <==> forall i: nat :: i < 3 ==> a.lo.At(i) <= b.lo.At(i) && b.hi.At(i) <= a.hi.At(i)
    ensures Union(a, b).lo.At(k) in {a.lo.At(k), b.lo.At(k)} && Union(a, b).hi.At(k) in {a.hi.At(k), b.hi.At(k)}
    ensures InLimit(a) <==> forall i: nat :: i < 3 ==> a.lo.At(i) <= 1.0e30 && a.hi.At(i) >= -1.0e30
  {
    assert a.lo.At(0) == a.lo.x && a.lo.At(1) == a.lo.y && a.lo.At(2) == a.lo.z;
    assert a.hi.At(0) == a.hi.x && a.hi.At(1) == a.hi.y && a.hi.At(2) == a.hi.z;
    assert b.lo.At(0) == b.lo.x && b.lo.At(1) == b.lo.y && b.lo.At(2) == b.lo.z;
  }

  /** The six words of a box: its lower corner, then its upper one. */
  lemma BoxInWords(ws: seq<real>, at: nat, k: nat)
    requires at + 6 <= |ws| && k < 3
    ensures NodeBox(ws, at).lo.At(k) == ws[at + k] && NodeBox(ws, at).hi.At(k) == ws[at + 3 + k]
    ensures BoxWords(NodeBox(ws, at)) == ws[at..at + 6]
  {
  }
}
