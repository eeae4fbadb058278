/** The stackless walk over a threaded node table, and why it agrees with testing every
    primitive: a hit goes on to the next node, a miss to the escape, the end of the table stops. */
module BvhWalk {
  import opened Basics
  import opened Float32
  import opened BvhTree

  /** A box test that passes a box whenever it passes a box inside it. */
  ghost predicate Monotone(hit: Box -> bool) {
    forall outer: Box, inner: Box :: Encloses(outer, inner) && hit(inner) ==> hit(outer)
  }

  /** Brute force: the original indices of the primitives whose box, as a leaf stores it, passes. */
  function Hits(ps: seq<Prim>, hit: Box -> bool): seq<nat> {
    if ps == [] then []
    else (if hit(LeafBox(ps[0])) then [ps[0].orig] else []) + Hits(ps[1..], hit)
  }

  lemma HitsStep(ps: seq<Prim>, hit: Box -> bool)
    ensures ps == [] ==> Hits(ps, hit) == []
    ensures ps != [] ==> Hits(ps, hit) == (if hit(LeafBox(ps[0])) then [ps[0].orig] else []) + Hits(ps[1..], hit)
  {
  }

  lemma {:induction false} HitsConcat(ps: seq<Prim>, qs: seq<Prim>, hit: Box -> bool)
    ensures Hits(ps + qs, hit) == Hits(ps, hit) + Hits(qs, hit)
  {
    hide LeafBox, Hits;
    HitsStep(ps, hit);
    if ps == [] {
      assert ps + qs == qs;
    } else {
      HitsConcat(ps[1..], qs, hit);
      HitsStep(ps + qs, hit);
      assert (ps + qs)[1..] == ps[1..] + qs;
    }
  }

  lemma {:induction false} NoHits(ps: seq<Prim>, hit: Box -> bool)
    requires forall p :: p in ps ==> !hit(LeafBox(p))
    ensures Hits(ps, hit) == []
  {
    if ps != [] {
      NoHits(ps[1..], hit);
    }
  }

  /** The first element of ps, found in a permutation of it. */
  lemma FoundIn(ps: seq<Prim>, qs: seq<Prim>) returns (k: nat)
    requires multiset(ps) == multiset(qs) && ps != []
    ensures k < |qs| && qs[k] == ps[0]
    ensures multiset(ps[1..]) == multiset(qs[..k] + qs[k + 1..])
  {
    assert ps[0] in multiset(qs);
    k :| 0 <= k < |qs| && qs[k] == ps[0];
    Middle(qs, k);
    HeadFirst(ps);
    assert multiset(ps[1..]) == multiset(ps) - multiset{ps[0]};
  }

  lemma HeadFirst(ps: seq<Prim>)
    requires ps != []
    ensures multiset(ps) == multiset{ps[0]} + multiset(ps[1..])
  {
    assert ps == [ps[0]] + ps[1..];
  }

  lemma Middle(qs: seq<Prim>, k: nat)
    requires k < |qs|
    ensures multiset(qs) == multiset{qs[k]} + multiset(qs[..k] + qs[k + 1..])
  {
    assert qs == qs[..k] + [qs[k]] + qs[k + 1..];
    assert multiset(qs[..k] + qs[k + 1..]) == multiset(qs[..k]) + multiset(qs[k + 1..]);
  }

  lemma HitsWithout(qs: seq<Prim>, k: nat, hit: Box -> bool)
    requires k < |qs|
    ensures multiset(Hits(qs, hit)) == multiset(Hits([qs[k]], hit)) + multiset(Hits(qs[..k] + qs[k + 1..], hit))
  {
    var a, p, b := qs[..k], [qs[k]], qs[k + 1..];
    assert qs == a + (p + b);
    HitsConcat(a, p + b, hit);
    HitsConcat(p, b, hit);
    HitsConcat(a, b, hit);
  }

  /** Brute force over a permutation reports the same indices, each as often. */
  lemma {:induction false} HitsOfPermutation(ps: seq<Prim>, qs: seq<Prim>, hit: Box -> bool)
    requires multiset(ps) == multiset(qs)
    ensures multiset(Hits(ps, hit)) == multiset(Hits(qs, hit))
    decreases |ps|
  {
    if ps == [] {
      assert |multiset(qs)| == 0;
    } else {
      hide Hits;
      var k := FoundIn(ps, qs);
      HitsOfPermutation(ps[1..], qs[..k] + qs[k + 1..], hit);
      HitsWithout(ps, 0, hit);
      assert ps[..0] + ps[1..] == ps[1..];
      HitsWithout(qs, k, hit);
    }
  }

  /** When the primitives carry the indices from base on in order, brute force reports index j
      once if box j passes and not at all otherwise. */
  lemma {:induction false} HitsOnce(ps: seq<Prim>, base: nat, hit: Box -> bool, j: nat)
    requires forall i :: 0 <= i < |ps| ==> ps[i].orig == base + i
    ensures multiset(Hits(ps, hit))[j] == if base <= j < base + |ps| && hit(LeafBox(ps[j - base])) then 1 else 0
  {
    if ps != [] {
      HitsOnce(ps[1..], base + 1, hit, j);
      HitsConcat([ps[0]], ps[1..], hit);
      assert ps == [ps[0]] + ps[1..];
    }
  }

  /** The words of both halves sit where the recursion put them. */
  lemma HalvesInside(ps: seq<Prim>, first: nat, idx: nat, left: seq<real>, right: seq<real>)
    requires |ps| > 1
    requires left == Nodes(ps[..|ps| / 2], first, idx + 1)
    requires right == Nodes(ps[|ps| / 2..], first + |ps| / 2, idx + 1 + NodesFor(|ps| / 2))
    ensures var ws := Nodes(ps, first, idx);
      && ws[6] == Word(idx + NodesFor(|ps|)) && ws[7] == 0.0 && ws[8] == 0.0
      && ws[NODE_WORDS..NODE_WORDS + |left|] == left && ws[NODE_WORDS + |left|..] == right
  {
    hide ExtentOf, Word;
    NodesInterior(ps, first, idx);
  }

  /** Every node of a table based at node base has an escape that leads forward and not past the
      table, and every leaf has one of the reference slots. */
  ghost predicate Threaded(ws: seq<real>, base: nat, slots: nat) {
    forall j: nat :: NODE_WORDS * j + NODE_WORDS <= |ws| ==> NodeSound(ws, base, slots, j)
  }

  ghost predicate NodeSound(ws: seq<real>, base: nat, slots: nat, j: nat)
    requires NODE_WORDS * j + NODE_WORDS <= |ws|
  {
    var escape := Index(ws[NODE_WORDS * j + 6]);
    && base + j < escape && NODE_WORDS * (escape - base) <= |ws|
    && (Index(ws[NODE_WORDS * j + 8]) > 0 ==> Index(ws[NODE_WORDS * j + 7]) < slots)
  }

  /** A root before two threaded tables makes a threaded table. */
  lemma ThreadedJoin(ws: seq<real>, left: seq<real>, right: seq<real>, idx: nat, slots: nat, l: nat, r: nat)
    requires |left| == NODE_WORDS * l && |right| == NODE_WORDS * r && |ws| == NODE_WORDS * (1 + l + r)
    requires ws[NODE_WORDS..NODE_WORDS + |left|] == left && ws[NODE_WORDS + |left|..] == right
    requires Index(ws[6]) == idx + 1 + l + r && ws[8] == 0.0
    requires Threaded(left, idx + 1, slots) && Threaded(right, idx + 1 + l, slots)
    ensures Threaded(ws, idx, slots)
  {
    forall j: nat | NODE_WORDS * j + NODE_WORDS <= |ws|
      ensures NodeSound(ws, idx, slots, j)
    {
      if j == 0 {
      } else if j < 1 + l {
        var k := j - 1;
        assert NodeSound(left, idx + 1, slots, k);
        SameTail(ws, left, NODE_WORDS, NODE_WORDS + |left|, NODE_WORDS * k);
      } else {
        var k := j - 1 - l;
        assert NodeSound(right, idx + 1 + l, slots, k);
        SameTail(ws, right, NODE_WORDS + |left|, |ws|, NODE_WORDS * k);
      }
    }
  }

  lemma SameTail(ws: seq<real>, part: seq<real>, a: nat, b: nat, at: nat)
    requires a <= b <= |ws| && ws[a..b] == part && at + 9 <= |part|
    ensures ws[a + at + 6] == part[at + 6] && ws[a + at + 7] == part[at + 7] && ws[a + at + 8] == part[at + 8]
  {
  }

  lemma InteriorThreaded(ps: seq<Prim>, first: nat, idx: nat, slots: nat)
    requires |ps| > 1 && idx + NodesFor(|ps|) <= EXACT
    requires Threaded(Nodes(ps[..|ps| / 2], first, idx + 1), idx + 1, slots)
    requires Threaded(Nodes(ps[|ps| / 2..], first + |ps| / 2, idx + 1 + NodesFor(|ps| / 2)),
                      idx + 1 + NodesFor(|ps| / 2), slots)
    ensures Threaded(Nodes(ps, first, idx), idx, slots)
  {
    hide ExtentOf, Word, Nodes, Threaded;
    var mid := |ps| / 2;
    var left, right := Nodes(ps[..mid], first, idx + 1), Nodes(ps[mid..], first + mid, idx + 1 + NodesFor(mid));
    HalvesInside(ps, first, idx, left, right);
    ExactUpTo(idx + NodesFor(|ps|));
    ThreadedJoin(Nodes(ps, first, idx), left, right, idx, slots, NodesFor(mid), NodesFor(|ps| - mid));
  }

  lemma {:induction false} NodesThreaded(ps: seq<Prim>, first: nat, idx: nat, slots: nat)
    requires ps != [] && idx + NodesFor(|ps|) <= EXACT && first + |ps| <= slots <= EXACT
    ensures Threaded(Nodes(ps, first, idx), idx, slots)
    decreases |ps|
  {
    hide ExtentOf, Word, Nodes;
    if |ps| > 1 {
      var mid := |ps| / 2;
      NodesThreaded(ps[..mid], first, idx + 1, slots);
      NodesThreaded(ps[mid..], first + mid, idx + 1 + NodesFor(mid), slots);
      InteriorThreaded(ps, first, idx, slots);
    } else {
      RootWords(ps, first, idx);
      ExactUpTo(idx + 1);
      ExactUpTo(first);
      assert NodeSound(Nodes(ps, first, idx), idx, slots, 0);
    }
  }

  /** What node i adds to the report when its box passes: nothing, or a leaf's reference. */
  function Report(ws: seq<real>, refs: seq<real>, i: nat): seq<nat>
    requires NODE_WORDS * i + NODE_WORDS <= |ws| && NodeSound(ws, 0, |refs|, i)
  {
    var first := Index(ws[NODE_WORDS * i + 7]);
    if Index(ws[NODE_WORDS * i + 8]) > 0 then [Index(refs[first])] else []
  }

  /** The walk from node i of a threaded table to its end. */
  function Visit(ws: seq<real>, refs: seq<real>, hit: Box -> bool, i: nat): seq<nat>
    requires Threaded(ws, 0, |refs|)
    decreases |ws| - NODE_WORDS * i
  {
    if NODE_WORDS * i + NODE_WORDS > |ws| then []
    else
      assert NodeSound(ws, 0, |refs|, i);
      if hit(NodeBox(ws, NODE_WORDS * i)) then Report(ws, refs, i) + Visit(ws, refs, hit, i + 1)
      else Visit(ws, refs, hit, Index(ws[NODE_WORDS * i + 6]))
  }

  /** The words, exact, of a subtree of ps based at node idx inside a larger table. */
  ghost predicate Inside(ws: seq<real>, refs: seq<real>, ps: seq<Prim>, first: nat, idx: nat) {
    && ps != [] && NODE_WORDS * (idx + NodesFor(|ps|)) <= |ws| && first + |ps| <= |refs|
    && idx + NodesFor(|ps|) <= EXACT && first + |ps| <= EXACT && (forall p :: p in ps ==> p.orig <= EXACT)
    && ws[NODE_WORDS * idx..NODE_WORDS * (idx + NodesFor(|ps|))] == Nodes(ps, first, idx)
    && refs[first..first + |ps|] == Refs(ps)
  }

  lemma RootWords(ps: seq<Prim>, first: nat, idx: nat)
    requires ps != []
    ensures
      var ws := Nodes(ps, first, idx);
      && NodeBox(ws, 0) == ExtentOf(ps).box && ws[6] == Word(idx + NodesFor(|ps|))
      && if |ps| == 1 then ws[7] == Word(first) && ws[8] == 1.0 else ws[8] == 0.0
  {
    hide ExtentOf, Word;
    if |ps| > 1 {
      NodesInterior(ps, first, idx);
    }
  }

  lemma InsideNodes(ws: seq<real>, refs: seq<real>, ps: seq<Prim>, first: nat, idx: nat)
    requires Inside(ws, refs, ps, first, idx)
    ensures ps != [] && NODE_WORDS * (idx + NodesFor(|ps|)) <= |ws|
    ensures idx + NodesFor(|ps|) <= EXACT && first <= EXACT
    ensures ws[NODE_WORDS * idx..NODE_WORDS * (idx + NodesFor(|ps|))] == Nodes(ps, first, idx)
  {
  }

  lemma RootInside(ws: seq<real>, refs: seq<real>, ps: seq<Prim>, first: nat, idx: nat)
    requires Inside(ws, refs, ps, first, idx)
    ensures NODE_WORDS * idx + NODE_WORDS <= |ws|
    ensures NodeBox(ws, NODE_WORDS * idx) == ExtentOf(ps).box
    ensures Index(ws[NODE_WORDS * idx + 6]) == idx + NodesFor(|ps|)
    ensures |ps| == 1 ==> Index(ws[NODE_WORDS * idx + 7]) == first && Index(ws[NODE_WORDS * idx + 8]) == 1
    ensures |ps| > 1 ==> Index(ws[NODE_WORDS * idx + 8]) == 0
  {
    hide Inside, ExtentOf, Word, Nodes, NodeBox, Index;
    InsideNodes(ws, refs, ps, first, idx);
    RootWords(ps, first, idx);
    var at, escape, own := NODE_WORDS * idx, idx + NodesFor(|ps|), Nodes(ps, first, idx);
    SameNode(ws, at, NODE_WORDS * escape, own);
    IndexOfWord(escape);
    IndexOfWord(first);
    IndexOfOne();
    assert ws[at + 6] == Word(escape);
  }

  lemma IndexOfOne()
    ensures Index(1.0) == 1 && Index(0.0) == 0
  {
  }

  lemma RootReport(ws: seq<real>, refs: seq<real>, ps: seq<Prim>, first: nat, idx: nat)
    requires Inside(ws, refs, ps, first, idx)
    ensures Report(ws, refs, idx) == if |ps| == 1 then [ps[0].orig] else []
  {
    hide ExtentOf, Word, Nodes;
    RootInside(ws, refs, ps, first, idx);
    ExactUpTo(ps[0].orig);
    assert refs[first..first + |ps|][0] == refs[first];
  }

  lemma SameNode(ws: seq<real>, at: nat, end: nat, own: seq<real>)
    requires at + 9 <= end <= |ws| && ws[at..end] == own
    ensures NodeBox(ws, at) == NodeBox(own, 0)
    ensures ws[at + 6] == own[6] && ws[at + 7] == own[7] && ws[at + 8] == own[8]
  {
  }

  lemma HalvesOfInside(ws: seq<real>, refs: seq<real>, ps: seq<Prim>, mid: nat, first: nat, idx: nat)
    requires Inside(ws, refs, ps, first, idx) && |ps| > 1 && mid == |ps| / 2
    ensures Inside(ws, refs, ps[..mid], first, idx + 1)
    ensures Inside(ws, refs, ps[mid..], first + mid, idx + 1 + NodesFor(mid))
  {
    hide ExtentOf, Word, Nodes, Refs;
    NodesOfHalves(ws, ps, mid, first, idx);
    RefsOfHalves(refs, ps, mid, first);
  }

  lemma NodesOfHalves(ws: seq<real>, ps: seq<Prim>, mid: nat, first: nat, idx: nat)
    requires |ps| > 1 && mid == |ps| / 2 && NODE_WORDS * (idx + NodesFor(|ps|)) <= |ws|
    requires ws[NODE_WORDS * idx..NODE_WORDS * (idx + NodesFor(|ps|))] == Nodes(ps, first, idx)
    ensures ws[NODE_WORDS * (idx + 1)..NODE_WORDS * (idx + 1 + NodesFor(mid))] == Nodes(ps[..mid], first, idx + 1)
    ensures ws[NODE_WORDS * (idx + 1 + NodesFor(mid))..NODE_WORDS * (idx + NodesFor(|ps|))]
         == Nodes(ps[mid..], first + mid, idx + 1 + NodesFor(mid))
  {
    hide ExtentOf, Word, Nodes, Refs;
    var at, end := NODE_WORDS * idx, NODE_WORDS * (idx + NodesFor(|ps|));
    var left, right := Nodes(ps[..mid], first, idx + 1), Nodes(ps[mid..], first + mid, idx + 1 + NodesFor(mid));
    HalvesInside(ps, first, idx, left, right);
    var all := Nodes(ps, first, idx);
    SliceOf(ws, at, end, all, 9, 9 + |left|);
    SliceOf(ws, at, end, all, 9 + |left|, |all|);
  }

  lemma RefsOfHalves(refs: seq<real>, ps: seq<Prim>, mid: nat, first: nat)
    requires mid <= |ps| && first + |ps| <= |refs| && refs[first..first + |ps|] == Refs(ps)
    ensures refs[first..first + mid] == Refs(ps[..mid]) && refs[first + mid..first + |ps|] == Refs(ps[mid..])
  {
    hide Refs;
    RefsHalves(ps, mid);
    SliceOf(refs, first, first + |ps|, Refs(ps), 0, mid);
    SliceOf(refs, first, first + |ps|, Refs(ps), mid, |ps|);
  }

  /** The levels below node i, read from the table: none for a leaf; an interior node's left child
      is the next node, its right child the one the left child escapes to. */
  function TableHeight(ws: seq<real>, i: nat): nat
    decreases |ws| - NODE_WORDS * i
  {
    if NODE_WORDS * (i + 2) > |ws| || Index(ws[NODE_WORDS * i + 8]) > 0 then 0
    else
      var right := Index(ws[NODE_WORDS * (i + 1) + 6]);
      if right <= i then 0
      else 1 + Greater(TableHeight(ws, i + 1), TableHeight(ws, right))
  }

  function Greater(a: nat, b: nat): nat { if a > b then a else b }

  lemma TableHeightStep(ws: seq<real>, i: nat, right: nat)
    requires NODE_WORDS * (i + 2) <= |ws| && Index(ws[NODE_WORDS * i + 8]) == 0
    requires Index(ws[NODE_WORDS * (i + 1) + 6]) == right > i
    ensures TableHeight(ws, i) == 1 + Greater(TableHeight(ws, i + 1), TableHeight(ws, right))
  {
  }

  lemma TableHeightLeaf(ws: seq<real>, i: nat)
    requires NODE_WORDS * (i + 1) <= |ws| && Index(ws[NODE_WORDS * i + 8]) > 0
    ensures TableHeight(ws, i) == 0
  {
  }

  /** A subtree in the table is exactly as high as the recursion that cut its range in two. */
  lemma {:induction false} SubtreeHeight(ws: seq<real>, refs: seq<real>, ps: seq<Prim>, first: nat, idx: nat)
    requires Inside(ws, refs, ps, first, idx)
    ensures TableHeight(ws, idx) == Height(|ps|)
    decreases |ps|
  {
    hide Inside, TableHeight, Index, NodeBox, ExtentOf, Nodes, Word;
    InsideNodes(ws, refs, ps, first, idx);
    RootInside(ws, refs, ps, first, idx);
    if |ps| == 1 {
      TableHeightLeaf(ws, idx);
    } else {
      var mid := |ps| / 2;
      var right := idx + 1 + NodesFor(mid);
      HalvesOfInside(ws, refs, ps, mid, first, idx);
      InsideNodes(ws, refs, ps[..mid], first, idx + 1);
      RootInside(ws, refs, ps[..mid], first, idx + 1);
      SubtreeHeight(ws, refs, ps[..mid], first, idx + 1);
      SubtreeHeight(ws, refs, ps[mid..], first + mid, right);
      TableHeightStep(ws, idx, right);
    }
  }

  /** The table a build writes is at most k levels high if and only if it holds at most 2^k
      primitives. */
  lemma TableHeightIff(ws: seq<real>, refs: seq<real>, ps: seq<Prim>, k: nat)
    requires ps != [] && NodesFor(|ps|) <= EXACT && forall p :: p in ps ==> p.orig <= EXACT
    requires ws == Nodes(ps, 0, 0) && refs == Refs(ps)
    ensures TableHeight(ws, 0) <= k <==> |ps| <= Pow2(k)
  {
    hide ExtentOf, Nodes, TableHeight;
    assert ws[0..|ws|] == ws && refs[0..|refs|] == refs;
    assert Inside(ws, refs, ps, 0, 0);
    SubtreeHeight(ws, refs, ps, 0, 0);
    HeightIsCeilLog2(|ps|, k);
  }

  /** A miss at a box misses everything inside. */
  lemma MissesAll(ps: seq<Prim>, hit: Box -> bool)
    requires Monotone(hit) && !hit(ExtentOf(ps).box)
    ensures Hits(ps, hit) == []
  {
    ExtentEncloses(ps);
    forall p | p in ps
      ensures !hit(LeafBox(p))
    {
      assert Encloses(ExtentOf(ps).box, LeafBox(p));
    }
    NoHits(ps, hit);
  }

  /** One step of the walk. */
  lemma VisitStep(ws: seq<real>, refs: seq<real>, hit: Box -> bool, i: nat)
    requires Threaded(ws, 0, |refs|) && NODE_WORDS * i + NODE_WORDS <= |ws|
    ensures Visit(ws, refs, hit, i) ==
            if hit(NodeBox(ws, NODE_WORDS * i)) then Report(ws, refs, i) + Visit(ws, refs, hit, i + 1)
            else Visit(ws, refs, hit, Index(ws[NODE_WORDS * i + 6]))
  {
  }

  /** The walk through a subtree reports its primitives' hits, in leaf order, and comes out at
      the subtree's escape. */
  lemma {:induction false} VisitSubtree(ws: seq<real>, refs: seq<real>, hit: Box -> bool,
                                        ps: seq<Prim>, first: nat, idx: nat)
    requires Threaded(ws, 0, |refs|) && Monotone(hit) && Inside(ws, refs, ps, first, idx) && ps != []
    ensures Visit(ws, refs, hit, idx) == Hits(ps, hit) + Visit(ws, refs, hit, idx + NodesFor(|ps|))
    decreases |ps|, 1
  {
    hide Inside, ExtentOf, Nodes, Threaded, Report, Visit, Hits, Monotone, LeafBox;
    RootInside(ws, refs, ps, first, idx);
    RootReport(ws, refs, ps, first, idx);
    VisitStep(ws, refs, hit, idx);
    if !hit(NodeBox(ws, NODE_WORDS * idx)) {
      MissesAll(ps, hit);
      Regroup([], [], Visit(ws, refs, hit, idx + NodesFor(|ps|)));
    } else if |ps| == 1 {
      LeafHit(ps, hit);
    } else {
      Regroup([], [], Visit(ws, refs, hit, idx + 1));
      VisitHalves(ws, refs, hit, ps, |ps| / 2, first, idx);
    }
  }

  lemma {:induction false} VisitHalves(ws: seq<real>, refs: seq<real>, hit: Box -> bool, ps: seq<Prim>, mid: nat,
                                       first: nat, idx: nat)
    requires Threaded(ws, 0, |refs|) && Monotone(hit) && Inside(ws, refs, ps, first, idx)
    requires |ps| > 1 && mid == |ps| / 2 && Visit(ws, refs, hit, idx) == Visit(ws, refs, hit, idx + 1)
    ensures Visit(ws, refs, hit, idx) == Hits(ps, hit) + Visit(ws, refs, hit, idx + NodesFor(|ps|))
    decreases |ps|, 0
  {
    hide Inside, ExtentOf, Nodes, Threaded, Report, Visit, Hits, Monotone, LeafBox;
    var right := idx + 1 + NodesFor(mid);
    HalvesOfInside(ws, refs, ps, mid, first, idx);
    VisitSubtree(ws, refs, hit, ps[..mid], first, idx + 1);
    VisitSubtree(ws, refs, hit, ps[mid..], first + mid, right);
    VisitJoin(ws, refs, hit, ps, mid, idx, right);
  }

  lemma VisitJoin(ws: seq<real>, refs: seq<real>, hit: Box -> bool, ps: seq<Prim>, mid: nat, idx: nat, right: nat)
    requires Threaded(ws, 0, |refs|) && 0 < mid < |ps| && right == idx + 1 + NodesFor(mid)
    requires Visit(ws, refs, hit, idx) == Visit(ws, refs, hit, idx + 1)
    requires Visit(ws, refs, hit, idx + 1) == Hits(ps[..mid], hit) + Visit(ws, refs, hit, right)
    requires Visit(ws, refs, hit, right) == Hits(ps[mid..], hit) + Visit(ws, refs, hit, right + NodesFor(|ps| - mid))
    ensures Visit(ws, refs, hit, idx) == Hits(ps, hit) + Visit(ws, refs, hit, idx + NodesFor(|ps|))
  {
    hide Threaded, Visit, Hits;
    HitsConcat(ps[..mid], ps[mid..], hit);
    assert ps[..mid] + ps[mid..] == ps;
    assert right + NodesFor(|ps| - mid) == idx + NodesFor(|ps|);
    Regroup(Hits(ps[..mid], hit), Hits(ps[mid..], hit), Visit(ws, refs, hit, idx + NodesFor(|ps|)));
  }

  lemma LeafHit(ps: seq<Prim>, hit: Box -> bool)
    requires |ps| == 1 && hit(ExtentOf(ps).box)
    ensures Hits(ps, hit) == [ps[0].orig]
  {
    assert ps[..0] == [];
    assert ExtentOf(ps).box == LeafBox(ps[0]);
    assert Hits(ps[1..], hit) == [];
  }

  /** The walk over a whole table reports brute force's answer, in leaf order. */
  lemma WalkIsBruteForce(ws: seq<real>, refs: seq<real>, hit: Box -> bool, ps: seq<Prim>)
    requires ps != [] && NodesFor(|ps|) <= EXACT && Monotone(hit)
    requires forall p :: p in ps ==> p.orig <= EXACT
    requires ws == Nodes(ps, 0, 0) && refs == Refs(ps)
    ensures Threaded(ws, 0, |refs|) && Visit(ws, refs, hit, 0) == Hits(ps, hit)
  {
    hide ExtentOf, Nodes, Threaded, Visit, Hits, LeafBox;
    NodesThreaded(ps, 0, 0, |refs|);
    assert ws[0..|ws|] == ws && refs[0..|refs|] == refs;
    assert Inside(ws, refs, ps, 0, 0);
    VisitSubtree(ws, refs, hit, ps, 0, 0);
    assert Visit(ws, refs, hit, NodesFor(|ps|)) == [] by {
      VisitEnd(ws, refs, hit, NodesFor(|ps|));
    }
    Regroup(Hits(ps, hit), [], []);
  }

  lemma VisitEnd(ws: seq<real>, refs: seq<real>, hit: Box -> bool, i: nat)
    requires Threaded(ws, 0, |refs|) && |ws| < NODE_WORDS * i + NODE_WORDS
    ensures Visit(ws, refs, hit, i) == []
  {
  }
}
