/** The recursive builder: it sorts a range of primitives in place, cuts it at the median and
    emits the nodes depth first through two shared cursors. */
module BvhBuilder {
  import opened Float32
  import opened BvhTree

  /** The cursors all levels of the recursion share: the next free node and reference slot. */
  class Cursor {
    var next: nat
    var pr: nat

    constructor ()
      ensures next == 0 && pr == 0
    {
      next, pr := 0, 0;
    }
  }

  ghost predicate SortedOn(ps: seq<Prim>, axis: nat) {
    forall i, j :: 0 <= i < j < |ps| ==> ps[i].c.At(axis) <= ps[j].c.At(axis)
  }

  /** p' is p with the range lo..hi rearranged. */
  ghost predicate Rearranged(p: seq<Prim>, p': seq<Prim>, lo: nat, hi: nat)
    requires lo <= hi <= |p|
  {
    && |p'| == |p|
    && p'[..lo] == p[..lo]
    && multiset(p'[lo..hi]) == multiset(p[lo..hi])
    && p'[hi..] == p[hi..]
  }

  /** A node table at n and a reference table at r leave room for a subtree at node idx. */
  predicate Fits(w: seq<real>, p: seq<Prim>, n: nat, r: nat, lo: nat, hi: nat, idx: nat) {
    lo < hi <= |p| && n + NODE_WORDS * (idx + NodesFor(hi - lo)) <= r && r + |p| <= |w|
  }

  /** The subtree at node idx holds the range lo..hi of p, cut at medians throughout. */
  ghost predicate Holds(w: seq<real>, p: seq<Prim>, n: nat, r: nat, lo: nat, hi: nat, idx: nat)
    requires Fits(w, p, n, r, lo, hi, idx)
  {
    && w[n + NODE_WORDS * idx..n + NODE_WORDS * (idx + NodesFor(hi - lo))] == Nodes(p[lo..hi], lo, idx)
    && w[r + lo..r + hi] == Refs(p[lo..hi])
    && MedianCut(p[lo..hi])
  }

  /** w' differs from w at most in the words a..b and c..d. */
  ghost predicate Only(w: seq<real>, w': seq<real>, a: nat, b: nat, c: nat, d: nat) {
    && |w'| == |w|
    && forall k | 0 <= k < |w| :: w'[k] == w[k] || a <= k < b || c <= k < d
  }

  method Swap(prims: array<Prim>, lo: nat, hi: nat, i: nat, j: nat)
    requires lo <= i <= j < hi <= prims.Length
    modifies prims
    ensures prims[..] == old(prims[..])[i := old(prims[j])][j := old(prims[i])]
    ensures Rearranged(old(prims[..]), prims[..], lo, hi)
  {
    ghost var before := prims[..];
    prims[i], prims[j] := prims[j], prims[i];
    ghost var s := before[lo..hi];
    assert prims[..][lo..hi] == s[i - lo := s[j - lo]][j - lo := s[i - lo]];
  }

  /** Stands for qsort: its contract says no more than that the range comes out rearranged and
      in order of the chosen centroid coordinate, equal ones in any order. */
  method SortRange(prims: array<Prim>, lo: nat, hi: nat, axis: nat)
    requires lo <= hi <= prims.Length
    modifies prims
    ensures Rearranged(old(prims[..]), prims[..], lo, hi)
    ensures SortedOn(prims[..][lo..hi], axis)
  {
    for i := lo to hi
      invariant Rearranged(old(prims[..]), prims[..], lo, hi)
      invariant forall a, b :: lo <= a < i && a < b < hi ==> prims[a].c.At(axis) <= prims[b].c.At(axis)
    {
      var least := i;
      for j := i to hi
        invariant i <= least < hi
        invariant forall b :: i <= b < j ==> prims[least].c.At(axis) <= prims[b].c.At(axis)
      {
        if prims[j].c.At(axis) < prims[least].c.At(axis) {
          least := j;
        }
      }
      Swap(prims, lo, hi, i, least);
    }
  }

  /** One pass over the range accumulates both the box union and the centroid union. */
  method Measure(prims: array<Prim>, lo: nat, hi: nat) returns (e: Extent)
    requires lo <= hi <= prims.Length
    ensures e == ExtentOf(prims[..][lo..hi])
  {
    e := Extent(EMPTY, EMPTY);
    for i := lo to hi
      invariant e == ExtentOf(prims[..][lo..i])
    {
      e := Grow(e, prims[i]);
      assert prims[..][lo..i + 1][..i - lo] == prims[..][lo..i];
    }
  }

  method WriteBox(blk: array<real>, at: nat, b: Box)
    requires at + 6 <= blk.Length
    modifies blk
    ensures blk[..][at..at + 6] == BoxWords(b)
    ensures Only(old(blk[..]), blk[..], at, at + 6, 0, 0)
  {
    blk[at], blk[at + 1], blk[at + 2] := b.lo.x, b.lo.y, b.lo.z;
    blk[at + 3], blk[at + 4], blk[at + 5] := b.hi.x, b.hi.y, b.hi.z;
  }

  /** A leaf's words, written after its box, make the subtree of one primitive. */
  lemma LeafHolds(w1: seq<real>, n: nat, r: nat, p: seq<Prim>, lo: nat, idx: nat)
    requires Fits(w1, p, n, r, lo, lo + 1, idx)
    requires w1[n + NODE_WORDS * idx..n + NODE_WORDS * idx + 6] == BoxWords(ExtentOf(p[lo..lo + 1]).box)
    ensures
      var at := n + NODE_WORDS * idx;
      var w := w1[r + lo := Word(p[lo].orig)][at + 7 := Word(lo)][at + 8 := 1.0][at + 6 := Word(idx + 1)];
      Holds(w, p, n, r, lo, lo + 1, idx) && Only(w1, w, at, at + NODE_WORDS, r + lo, r + lo + 1)
    ensures Rearranged(p, p, lo, lo + 1)
  {
    var at := n + NODE_WORDS * idx;
    var w := w1[r + lo := Word(p[lo].orig)][at + 7 := Word(lo)][at + 8 := 1.0][at + 6 := Word(idx + 1)];
    assert w[at..at + 9] == w1[at..at + 6] + [Word(idx + 1), Word(lo), 1.0];
    assert w[r + lo..r + lo + 1] == Refs(p[lo..lo + 1]);
  }

  /** The reference slot and the last words of a leaf over prims[lo]. */
  method EmitLeaf(prims: array<Prim>, lo: nat, blk: array<real>, n: nat, r: nat, idx: nat, cur: Cursor)
    requires Fits(blk[..], prims[..], n, r, lo, lo + 1, idx) && cur.pr == lo && cur.next == idx + 1
    requires blk[..][n + NODE_WORDS * idx..n + NODE_WORDS * idx + 6] == BoxWords(ExtentOf(prims[..][lo..lo + 1]).box)
    modifies blk, cur`pr
    ensures cur.pr == lo + 1
    ensures Fits(blk[..], prims[..], n, r, lo, lo + 1, idx) && Holds(blk[..], prims[..], n, r, lo, lo + 1, idx)
    ensures Only(old(blk[..]), blk[..], n + NODE_WORDS * idx, n + NODE_WORDS * (idx + 1), r + lo, r + lo + 1)
    ensures Rearranged(prims[..], prims[..], lo, lo + 1)
  {
    hide ExtentOf, Nodes;
    var at := n + NODE_WORDS * idx;
    LeafHolds(blk[..], n, r, prims[..], lo, idx);
    ghost var w := blk[..][r + lo := Word(prims[lo].orig)][at + 7 := Word(lo)][at + 8 := 1.0][at + 6 := Word(idx + 1)];
    var first := cur.pr;
    blk[r + cur.pr] := Word(prims[lo].orig);
    cur.pr := cur.pr + 1;
    blk[at + 7] := Word(first);
    blk[at + 8] := 1.0;
    blk[at + 6] := Word(cur.next);
    assert blk[..] == w;
  }

  /** Rearranging the halves of a sorted range keeps it cut at the middle. */
  lemma CutKept(sorted: seq<Prim>, ps: seq<Prim>, mid: nat, axis: nat)
    requires SortedOn(sorted, axis) && mid <= |sorted| && mid <= |ps|
    requires multiset(sorted[..mid]) == multiset(ps[..mid])
    requires multiset(sorted[mid..]) == multiset(ps[mid..])
    ensures Cut(ps[..mid], ps[mid..], axis)
  {
    forall p, q | p in ps[..mid] && q in ps[mid..]
      ensures p.c.At(axis) <= q.c.At(axis)
    {
      assert p in multiset(ps[..mid]) && q in multiset(ps[mid..]);
      assert p in sorted[..mid] && q in sorted[mid..];
    }
  }

  /** Rearranging a range, then its left half, then its right half. */
  lemma HalvesRearranged(p0: seq<Prim>, p1: seq<Prim>, p2: seq<Prim>, p3: seq<Prim>, lo: nat, mid: nat, hi: nat)
    requires lo <= mid <= hi <= |p0|
    requires Rearranged(p0, p1, lo, hi) && Rearranged(p1, p2, lo, mid) && Rearranged(p2, p3, mid, hi)
    ensures Rearranged(p0, p3, lo, hi) && multiset(p0[lo..hi]) == multiset(p3[lo..hi])
    ensures p3[lo..mid] == p2[lo..mid] && p3[lo..hi][..mid - lo] == p3[lo..mid] && p3[lo..hi][mid - lo..] == p3[mid..hi]
    ensures multiset(p3[lo..mid]) == multiset(p1[lo..hi][..mid - lo])
    ensures multiset(p3[mid..hi]) == multiset(p1[lo..hi][mid - lo..])
  {
    assert p3[lo..mid] == p3[..mid][lo..] == p2[lo..mid];
    assert p2[mid..hi] == p2[mid..][..hi - mid] == p1[mid..hi];
    assert p1[lo..hi][..mid - lo] == p1[lo..mid] && p1[lo..hi][mid - lo..] == p1[mid..hi];
    assert p1[lo..hi] == p1[lo..mid] + p1[mid..hi];
    assert p3[lo..hi] == p3[lo..mid] + p3[mid..hi];
    assert p3[..lo] == p3[..mid][..lo] == p2[..lo];
    assert p2[hi..] == p2[mid..][hi - mid..] == p1[hi..];
  }

  /** A piece of the block outside what changed is what it was. */
  lemma PieceKept(w: seq<real>, w': seq<real>, a: nat, b: nat, c: nat, d: nat, from: nat, to: nat)
    requires Only(w, w', a, b, c, d) && from <= to <= |w|
    requires (to <= a || b <= from) && (to <= c || d <= from)
    ensures w'[from..to] == w[from..to]
  {
  }

  lemma BoxThenRest(w0: seq<real>, w1: seq<real>, w: seq<real>, at: nat, ea: nat, rl: nat, rh: nat)
    requires at + 6 <= ea && Only(w0, w1, at, at + 6, 0, 0) && Only(w1, w, at, ea, rl, rh)
    ensures Only(w0, w, at, ea, rl, rh)
  {
  }

  /** Head, left part, right part and tail written one after another, each leaving the others
      alone, and the references in two parts beside them. */
  lemma PiecesJoined(w1: seq<real>, w2: seq<real>, w3: seq<real>, w: seq<real>,
                     at: nat, la: nat, ra: nat, ea: nat, rl: nat, rm: nat, rh: nat)
    requires at + 9 == la <= ra <= ea <= rl <= rm <= rh <= |w1|
    requires Only(w1, w2, la, ra, rl, rm) && Only(w2, w3, ra, ea, rm, rh) && Only(w3, w, at + 6, la, 0, 0)
    ensures w[at..ea] == w1[at..at + 6] + w[at + 6..la] + w2[la..ra] + w3[ra..ea]
    ensures w[rl..rh] == w2[rl..rm] + w3[rm..rh]
    ensures Only(w1, w, at, ea, rl, rh)
  {
    PieceKept(w1, w2, la, ra, rl, rm, at, at + 6);
    PieceKept(w2, w3, ra, ea, rm, rh, at, at + 6);
    PieceKept(w3, w, at + 6, la, 0, 0, at, at + 6);
    PieceKept(w2, w3, ra, ea, rm, rh, la, ra);
    PieceKept(w3, w, at + 6, la, 0, 0, la, ra);
    PieceKept(w3, w, at + 6, la, 0, 0, ra, ea);
    PieceKept(w2, w3, ra, ea, rm, rh, rl, rm);
    PieceKept(w3, w, at + 6, la, 0, 0, rl, rm);
    PieceKept(w3, w, at + 6, la, 0, 0, rm, rh);
    assert w[at..ea] == w[at..at + 6] + w[at + 6..la] + w[la..ra] + w[ra..ea];
    assert w[rl..rh] == w[rl..rm] + w[rm..rh];
  }

  /** The words of an interior node once both halves are built. */
  function WithTail(w: seq<real>, at: nat, end: nat): (w': seq<real>)
    requires at + 9 <= |w|
    ensures |w'| == |w| && w'[at + 6..at + 9] == [Word(end), 0.0, 0.0]
    ensures Only(w, w', at + 6, at + 9, 0, 0)
  {
    w[at + 7 := 0.0][at + 8 := 0.0][at + 6 := Word(end)]
  }

  /** The last words of an interior node that ends at end. */
  method EmitInterior(blk: array<real>, at: nat, end: nat)
    requires at + NODE_WORDS <= blk.Length
    modifies blk
    ensures blk[..] == WithTail(old(blk[..]), at, end)
  {
    blk[at + 7] := 0.0;
    blk[at + 8] := 0.0;
    blk[at + 6] := Word(end);
  }

  /** Both halves and the node's own words make the words of the range. */
  lemma NodesJoined(w1: seq<real>, w2: seq<real>, w3: seq<real>, n: nat, r: nat, ps: seq<Prim>, mid: nat,
                    lo: nat, idx: nat, right: nat, end: nat)
    requires |ps| > 1 && mid == |ps| / 2 && right == idx + 1 + NodesFor(mid) && end == idx + NodesFor(|ps|)
    requires n + NODE_WORDS * end <= r && r + lo + |ps| <= |w1| == |w2| == |w3|
    requires w1[n + NODE_WORDS * idx..n + NODE_WORDS * idx + 6] == BoxWords(ExtentOf(ps).box)
    requires Only(w1, w2, n + NODE_WORDS * (idx + 1), n + NODE_WORDS * right, r + lo, r + lo + mid)
    requires w2[n + NODE_WORDS * (idx + 1)..n + NODE_WORDS * right] == Nodes(ps[..mid], lo, idx + 1)
    requires w2[r + lo..r + lo + mid] == Refs(ps[..mid])
    requires Only(w2, w3, n + NODE_WORDS * right, n + NODE_WORDS * end, r + lo + mid, r + lo + |ps|)
    requires w3[n + NODE_WORDS * right..n + NODE_WORDS * end] == Nodes(ps[mid..], lo + mid, right)
    requires w3[r + lo + mid..r + lo + |ps|] == Refs(ps[mid..])
    ensures
      var w := WithTail(w3, n + NODE_WORDS * idx, end);
      && w[n + NODE_WORDS * idx..n + NODE_WORDS * end] == Nodes(ps, lo, idx)
      && w[r + lo..r + lo + |ps|] == Refs(ps)
      && Only(w1, w, n + NODE_WORDS * idx, n + NODE_WORDS * end, r + lo, r + lo + |ps|)
  {
    hide ExtentOf, Nodes, Only, Word, WithTail, Refs, BoxWords;
    var at, la := n + NODE_WORDS * idx, n + NODE_WORDS * (idx + 1);
    var ra, ea := n + NODE_WORDS * right, n + NODE_WORDS * end;
    var w := WithTail(w3, at, end);
    PiecesJoined(w1, w2, w3, w, at, la, ra, ea, r + lo, r + lo + mid, r + lo + |ps|);
    NodesInterior(ps, lo, idx);
    RefsHalves(ps, mid);
  }

  /** The two halves, built one after the other, and the node's own words make the subtree. */
  lemma HalvesHold(w1: seq<real>, w2: seq<real>, w3: seq<real>, n: nat, r: nat, p2: seq<Prim>, p3: seq<Prim>,
                   lo: nat, mid: nat, hi: nat, idx: nat, right: nat, end: nat)
    requires hi - lo > 1 && Fits(w1, p3, n, r, lo, hi, idx) && |w1| == |w2| == |w3| && |p2| == |p3|
    requires mid == lo + (hi - lo) / 2 && right == idx + 1 + NodesFor(mid - lo) && end == idx + NodesFor(hi - lo)
    requires w1[n + NODE_WORDS * idx..n + NODE_WORDS * idx + 6] == BoxWords(ExtentOf(p3[lo..hi]).box)
    requires Cut(p3[lo..mid], p3[mid..hi], LongestAxis(ExtentOf(p3[lo..hi]).cent))
    requires Only(w1, w2, n + NODE_WORDS * (idx + 1), n + NODE_WORDS * right, r + lo, r + mid)
    requires Holds(w2, p2, n, r, lo, mid, idx + 1) && p2[lo..mid] == p3[lo..mid]
    requires Only(w2, w3, n + NODE_WORDS * right, n + NODE_WORDS * end, r + mid, r + hi)
    requires Holds(w3, p3, n, r, mid, hi, right)
    ensures Holds(WithTail(w3, n + NODE_WORDS * idx, end), p3, n, r, lo, hi, idx)
    ensures Only(w1, WithTail(w3, n + NODE_WORDS * idx, end),
                 n + NODE_WORDS * idx, n + NODE_WORDS * end, r + lo, r + hi)
  {
    hide ExtentOf, Nodes, Only, Cut, Refs, WithTail;
    var ps := p3[lo..hi];
    assert ps[..mid - lo] == p3[lo..mid] && ps[mid - lo..] == p3[mid..hi];
    assert r + lo + (mid - lo) == r + mid && r + lo + |ps| == r + hi && lo + (mid - lo) == mid;
    NodesJoined(w1, w2, w3, n, r, ps, mid - lo, lo, idx, right, end);
  }

  /** The same from the range before it was sorted and its halves rearranged. */
  lemma SortedHalvesHold(w1: seq<real>, w2: seq<real>, w3: seq<real>, n: nat, r: nat,
                         p0: seq<Prim>, p1: seq<Prim>, p2: seq<Prim>, p3: seq<Prim>,
                         lo: nat, mid: nat, hi: nat, idx: nat, right: nat, end: nat, axis: nat)
    requires hi - lo > 1 && Fits(w1, p0, n, r, lo, hi, idx) && |w1| == |w2| == |w3| && |p0| == |p1| == |p2| == |p3|
    requires mid == lo + (hi - lo) / 2 && right == idx + 1 + NodesFor(mid - lo) && end == idx + NodesFor(hi - lo)
    requires w1[n + NODE_WORDS * idx..n + NODE_WORDS * idx + 6] == BoxWords(ExtentOf(p0[lo..hi]).box)
    requires axis == LongestAxis(ExtentOf(p0[lo..hi]).cent)
    requires Rearranged(p0, p1, lo, hi) && SortedOn(p1[lo..hi], axis)
    requires Rearranged(p1, p2, lo, mid) && Rearranged(p2, p3, mid, hi)
    requires Only(w1, w2, n + NODE_WORDS * (idx + 1), n + NODE_WORDS * right, r + lo, r + mid)
    requires Holds(w2, p2, n, r, lo, mid, idx + 1)
    requires Only(w2, w3, n + NODE_WORDS * right, n + NODE_WORDS * end, r + mid, r + hi)
    requires Holds(w3, p3, n, r, mid, hi, right)
    ensures Rearranged(p0, p3, lo, hi)
    ensures Holds(WithTail(w3, n + NODE_WORDS * idx, end), p3, n, r, lo, hi, idx)
    ensures Only(w1, WithTail(w3, n + NODE_WORDS * idx, end),
                 n + NODE_WORDS * idx, n + NODE_WORDS * end, r + lo, r + hi)
  {
    hide ExtentOf, Nodes, Only, Holds, Rearranged, SortedOn, Word, Cut, LongestAxis, MedianCut, Refs,
         BoxWords, WithTail;
    HalvesRearranged(p0, p1, p2, p3, lo, mid, hi);
    ExtentOfPermutation(p0[lo..hi], p3[lo..hi]);
    CutKept(p1[lo..hi], p3[lo..hi], mid - lo, axis);
    HalvesHold(w1, w2, w3, n, r, p2, p3, lo, mid, hi, idx, right, end);
  }

  /** Sorts a range on an axis, builds both halves and completes the node above them. */
  method BuildHalves(prims: array<Prim>, lo: nat, hi: nat, axis: nat,
                     blk: array<real>, n: nat, r: nat, idx: nat, cur: Cursor)
    requires Fits(blk[..], prims[..], n, r, lo, hi, idx) && hi - lo > 1 && cur.pr == lo && cur.next == idx + 1
    requires axis == LongestAxis(ExtentOf(prims[..][lo..hi]).cent)
    requires blk[..][n + NODE_WORDS * idx..n + NODE_WORDS * idx + 6] == BoxWords(ExtentOf(prims[..][lo..hi]).box)
    modifies prims, blk, cur
    ensures cur.next == idx + NodesFor(hi - lo) && cur.pr == hi
    ensures Rearranged(old(prims[..]), prims[..], lo, hi)
    ensures Fits(blk[..], prims[..], n, r, lo, hi, idx) && Holds(blk[..], prims[..], n, r, lo, hi, idx)
    ensures Only(old(blk[..]), blk[..], n + NODE_WORDS * idx, n + NODE_WORDS * cur.next, r + lo, r + hi)
    decreases hi - lo, 0
  {
    hide ExtentOf, Nodes, Only, Holds, Rearranged, SortedOn, Word, Cut, LongestAxis, MedianCut, Refs,
         BoxWords, WithTail;
    ghost var w1, p0 := blk[..], prims[..];
    ghost var end := idx + NodesFor(hi - lo);
    SortRange(prims, lo, hi, axis);
    ghost var p1 := prims[..];
    var mid := lo + (hi - lo) / 2;
    var left := Build(prims, lo, mid, blk, n, r, cur);
    ghost var w2, p2 := blk[..], prims[..];
    var right := Build(prims, mid, hi, blk, n, r, cur);
    ghost var w3, p3 := blk[..], prims[..];
    SortedHalvesHold(w1, w2, w3, n, r, p0, p1, p2, p3, lo, mid, hi, idx, right, end, axis);
    assert cur.next == end;
    EmitInterior(blk, n + NODE_WORDS * idx, cur.next);
    assert blk[..] == WithTail(w3, n + NODE_WORDS * idx, end);
  }

  /** Builds the subtree of prims[lo..hi) and returns its root: the node the cursor stood at. */
  method Build(prims: array<Prim>, lo: nat, hi: nat, blk: array<real>, n: nat, r: nat, cur: Cursor) returns (idx: nat)
    requires Fits(blk[..], prims[..], n, r, lo, hi, cur.next) && cur.pr == lo
    modifies prims, blk, cur
    ensures idx == old(cur.next) && cur.next == idx + NodesFor(hi - lo) && cur.pr == hi
    ensures Rearranged(old(prims[..]), prims[..], lo, hi)
    ensures Fits(blk[..], prims[..], n, r, lo, hi, idx) && Holds(blk[..], prims[..], n, r, lo, hi, idx)
    ensures Only(old(blk[..]), blk[..], n + NODE_WORDS * idx, n + NODE_WORDS * cur.next, r + lo, r + hi)
    decreases hi - lo, 1
  {
    hide ExtentOf, Nodes, Only, Holds, Rearranged, SortedOn, Word, Cut, LongestAxis, MedianCut, Refs, BoxWords;
    ghost var w0 := blk[..];
    idx := cur.next;
    cur.next := cur.next + 1;
    var at := n + NODE_WORDS * idx;
    var e := Measure(prims, lo, hi);
    WriteBox(blk, at, e.box);
    ghost var w1 := blk[..];
    if hi - lo <= 1 {
      EmitLeaf(prims, lo, blk, n, r, idx, cur);
    } else {
      BuildHalves(prims, lo, hi, LongestAxis(e.cent), blk, n, r, idx, cur);
    }
    BoxThenRest(w0, w1, blk[..], at, n + NODE_WORDS * cur.next, r + lo, r + hi);
  }
}
