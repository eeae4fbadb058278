/** The layered dependency graph of the start-up benchmark, for any number of levels and any
    width: its edges, its acyclicity, and the value its root computes. */
module DiGraph {
  import opened Basics

  /** At least one level of at least one component. */
  datatype Graph = Graph(levels: nat, width: nat) {
    predicate Valid() { levels >= 1 && width >= 1 }
  }

  datatype Node = Node(level: nat, at: nat)
  const ROOT: Node := Node(0, 0)

  predicate Has(g: Graph, v: Node) { v.level < g.levels && v.at < g.width }

  /** What a component injects: its two successors on the next level, and, for the root, also the
      rest of its own level. */
  function Deps(g: Graph, v: Node): (ds: seq<Node>)
    requires g.Valid() && Has(g, v)
    ensures forall d :: d in ds ==> Has(g, d) && Rank(g, d) < Rank(g, v)
  {
    Next(g, v) + (if v == ROOT then Rest(g) else [])
  }

  /** The next position, wrapping around. */
  function Beside(g: Graph, j: nat): (k: nat)
    requires j < g.width
    ensures k == if j + 1 == g.width then 0 else j + 1
  {
    (j + 1) % g.width
  }

  function Next(g: Graph, v: Node): seq<Node>
    requires Has(g, v)
  {
    if v.level < g.levels - 1 then [Node(v.level + 1, v.at), Node(v.level + 1, Beside(g, v.at))] else []
  }

  function Rest(g: Graph): seq<Node>
    requires g.Valid()
  {
    seq(g.width - 1, k requires 0 <= k < g.width - 1 => Node(0, k + 1))
  }

  /** Strictly smaller along every edge. */
  function Rank(g: Graph, v: Node): nat
    requires Has(g, v)
  {
    2 * (g.levels - v.level) + (if v == ROOT then 1 else 0)
  }

  function Row(level: nat, width: nat): seq<Node> {
    seq(width, j requires 0 <= j < width => Node(level, j))
  }

  /** The components of the first n levels. */
  function Nodes(n: nat, width: nat): seq<Node> {
    if n == 0 then [] else Nodes(n - 1, width) + Row(n - 1, width)
  }

  ghost predicate Distinct(vs: seq<Node>) {
    forall i, j :: 0 <= i < j < |vs| ==> vs[i] != vs[j]
  }

  lemma {:induction false} NodesHas(n: nat, width: nat, v: Node)
    ensures v in Nodes(n, width) <==> v.level < n && v.at < width
  {
    if n > 0 {
      NodesHas(n - 1, width, v);
      if v.level == n - 1 && v.at < width {
        assert Row(n - 1, width)[v.at] == v;
      }
    }
  }

  /** The list of components holds every component of the graph, once. */
  lemma {:induction false} NodesAreAll(n: nat, width: nat)
    ensures forall v :: v in Nodes(n, width) <==> v.level < n && v.at < width
    ensures Distinct(Nodes(n, width)) && |Nodes(n, width)| == n * width
  {
    forall v
      ensures v in Nodes(n, width) <==> v.level < n && v.at < width
    {
      NodesHas(n, width, v);
    }
    if n > 0 {
      NodesAreAll(n - 1, width);
      var above, row := Nodes(n - 1, width), Row(n - 1, width);
      assert forall i :: 0 <= i < |above| ==> above[i] in above;
      assert n * width == (n - 1) * width + width;
    }
  }

  /** The root is the only component that uses its own level; every other edge goes one level down. */
  lemma SameLevelOnlyFromRoot(g: Graph, v: Node, d: Node)
    requires g.Valid() && Has(g, v) && d in Deps(g, v)
    ensures d.level == v.level + 1 || (v == ROOT && d.level == 0 && d != ROOT)
  {
  }

  /** A chain of injections. */
  ghost predicate Path(g: Graph, p: seq<Node>)
    requires g.Valid()
  {
    && p != [] && (forall i :: 0 <= i < |p| ==> Has(g, p[i]))
    && forall i :: 0 <= i < |p| - 1 ==> p[i + 1] in Deps(g, p[i])
  }

  /** Ranks fall along a chain, so no component injects itself through others, and no chain is
      longer than the levels and one. */
  lemma {:induction false} NoCycle(g: Graph, p: seq<Node>)
    requires g.Valid() && Path(g, p)
    ensures |p| > 1 ==> p[0] != p[|p| - 1]
    ensures Rank(g, p[|p| - 1]) + (|p| - 1) <= Rank(g, p[0])
    ensures p[|p| - 1].level + 2 >= |p| && |p| <= g.levels + 1
  {
    if |p| > 1 {
      var q := p[..|p| - 1];
      assert Path(g, q);
      NoCycle(g, q);
      assert p[|p| - 1] in Deps(g, q[|q| - 1]);
      SameLevelOnlyFromRoot(g, q[|q| - 1], p[|p| - 1]);
      if |q| > 1 {
        NotRootAfterStart(g, q);
      }
    }
  }

  lemma NotRootAfterStart(g: Graph, p: seq<Node>)
    requires g.Valid() && Path(g, p) && |p| > 1
    ensures p[|p| - 1] != ROOT
  {
    assert p[|p| - 2 + 1] in Deps(g, p[|p| - 2]);
    SameLevelOnlyFromRoot(g, p[|p| - 2], p[|p| - 1]);
  }

  /** A chain from the root to v: straight down v's column. */
  function Route(v: Node): (p: seq<Node>)
    ensures p != [] && p[0] == ROOT && p[|p| - 1] == v
    decreases v.level
  {
    if v.level == 0 then (if v.at == 0 then [ROOT] else [ROOT, v])
    else Route(Node(v.level - 1, v.at)) + [v]
  }

  /** The edge straight down a column, and the root's edges along its level. */
  lemma RouteEdge(g: Graph, v: Node)
    requires g.Valid() && Has(g, v)
    ensures v.level > 0 ==> v in Deps(g, Node(v.level - 1, v.at))
    ensures v.level == 0 && v.at > 0 ==> v in Deps(g, ROOT)
  {
    if v.level > 0 {
      assert Next(g, Node(v.level - 1, v.at))[0] == v;
    } else if v.at > 0 {
      assert Rest(g)[v.at - 1] == v;
    }
  }

  /** Every component is reached from the root. */
  lemma {:induction false} AllReachable(g: Graph, v: Node)
    requires g.Valid() && Has(g, v)
    ensures Path(g, Route(v))
    decreases v.level
  {
    hide Deps, Rank;
    RouteEdge(g, v);
    if v.level > 0 {
      AllReachable(g, Node(v.level - 1, v.at));
    }
  }

  /** A component's own number and the values of what it injects, recomputed on every call. */
  function Value(g: Graph, v: Node): nat
    requires g.Valid() && Has(g, v)
    decreases Rank(g, v), |Deps(g, v)| + 1
  {
    10 * v.level + v.at + 1 + SumValues(g, Rank(g, v), Deps(g, v))
  }

  function SumValues(g: Graph, rank: nat, ds: seq<Node>): nat
    requires g.Valid() && forall d :: d in ds ==> Has(g, d) && Rank(g, d) < rank
    decreases rank, |ds|
  {
    if ds == [] then 0 else Value(g, ds[0]) + SumValues(g, rank, ds[1..])
  }

  lemma {:induction false} SumAppend(g: Graph, rank: nat, a: seq<Node>, b: seq<Node>)
    requires g.Valid() && forall d :: d in a + b ==> Has(g, d) && Rank(g, d) < rank
    ensures forall d :: d in a || d in b ==> d in a + b
    ensures SumValues(g, rank, a + b) == SumValues(g, rank, a) + SumValues(g, rank, b)
    decreases |a|
  {
    hide Value, Rank;
    assert forall d :: d in a || d in b ==> d in a + b;
    if a == [] {
      assert a + b == b;
    } else {
      assert (a + b)[0] == a[0] && (a + b)[1..] == a[1..] + b;
      SumAppend(g, rank, a[1..], b);
    }
  }

  /** The values a level sums to, up to position n, not counting what the root adds of its own
      level. */
  function LevelSum(g: Graph, level: nat, n: nat): nat
    requires g.Valid() && level < g.levels && n <= g.width
    decreases g.levels - level, 1, n
  {
    if n == 0 then 0 else LevelSum(g, level, n - 1) + Plain(g, level, n - 1)
  }

  /** The value of a component with its level's rest left out. */
  function Plain(g: Graph, level: nat, j: nat): nat
    requires g.Valid() && level < g.levels && j < g.width
    decreases g.levels - level, 0
  {
    10 * level + j + 1 +
    (if level < g.levels - 1 then Plain(g, level + 1, j) + Plain(g, level + 1, Beside(g, j)) else 0)
  }

  lemma PairSum(g: Graph, rank: nat, a: Node, b: Node)
    requires g.Valid() && Has(g, a) && Has(g, b) && Rank(g, a) < rank && Rank(g, b) < rank
    ensures SumValues(g, rank, [a, b]) == Value(g, a) + Value(g, b)
  {
    hide Value, Rank;
    SingleSum(g, rank, b);
    assert [a, b][1..] == [b];
    assert SumValues(g, rank, [a, b]) == Value(g, a) + SumValues(g, rank, [a, b][1..]);
  }

  lemma SingleSum(g: Graph, rank: nat, a: Node)
    requires g.Valid() && Has(g, a) && Rank(g, a) < rank
    ensures SumValues(g, rank, [a]) == Value(g, a)
  {
    hide Value, Rank;
    assert [a][1..] == [];
  }

  /** Off the root, that is the value. */
  lemma {:induction false} ValueIsPlain(g: Graph, v: Node)
    requires g.Valid() && Has(g, v) && v != ROOT
    ensures Value(g, v) == Plain(g, v.level, v.at)
    decreases g.levels - v.level
  {
    if v.level < g.levels - 1 {
      ValueIsPlain(g, Node(v.level + 1, v.at));
      ValueIsPlain(g, Node(v.level + 1, Beside(g, v.at)));
      PairSum(g, Rank(g, v), Node(v.level + 1, v.at), Node(v.level + 1, Beside(g, v.at)));
      assert Deps(g, v) == [Node(v.level + 1, v.at), Node(v.level + 1, Beside(g, v.at))];
    } else {
      assert Deps(g, v) == [];
    }
  }

  lemma {:induction false} RestSum(g: Graph, rank: nat, n: nat)
    requires g.Valid() && n <= g.width - 1
    requires forall d :: d in Rest(g)[..n] ==> Has(g, d) && Rank(g, d) < rank
    ensures SumValues(g, rank, Rest(g)[..n]) + Plain(g, 0, 0) == LevelSum(g, 0, n + 1)
  {
    hide Plain, Value;
    if n == 0 {
      assert LevelSum(g, 0, 1) == LevelSum(g, 0, 0) + Plain(g, 0, 0);
    } else {
      assert Rest(g)[..n] == Rest(g)[..n - 1] + [Node(0, n)];
      SingleSum(g, rank, Node(0, n));
      RestSum(g, rank, n - 1);
      SumAppend(g, rank, Rest(g)[..n - 1], [Node(0, n)]);
      ValueIsPlain(g, Node(0, n));
    }
  }

  lemma NextSum(g: Graph)
    requires g.Valid()
    ensures 1 + SumValues(g, Rank(g, ROOT), Next(g, ROOT)) == Plain(g, 0, 0)
  {
    hide SumValues, Value;
    if g.levels > 1 {
      ValueIsPlain(g, Node(1, 0));
      ValueIsPlain(g, Node(1, Beside(g, 0)));
      PairSum(g, Rank(g, ROOT), Node(1, 0), Node(1, Beside(g, 0)));
    } else {
      EmptySum(g, Rank(g, ROOT));
    }
  }

  lemma EmptySum(g: Graph, rank: nat)
    requires g.Valid()
    ensures SumValues(g, rank, []) == 0
  {
  }

  lemma RootUnfolds(g: Graph)
    requires g.Valid()
    ensures Value(g, ROOT) == 1 + SumValues(g, Rank(g, ROOT), Next(g, ROOT) + Rest(g))
  {
    hide SumValues, Next, Rest;
  }

  /** The root's value is its whole level's. */
  lemma RootIsLevelSum(g: Graph)
    requires g.Valid()
    ensures Value(g, ROOT) == LevelSum(g, 0, g.width)
  {
    hide SumValues, Value, Plain, LevelSum;
    var rank := Rank(g, ROOT);
    RootUnfolds(g);
    SumAppend(g, rank, Next(g, ROOT), Rest(g));
    NextSum(g);
    assert Rest(g)[..g.width - 1] == Rest(g);
    RestSum(g, rank, g.width - 1);
  }

  /** The own numbers of a level's first n components. */
  function OwnSum(level: nat, n: nat): nat {
    if n == 0 then 0 else OwnSum(level, n - 1) + (10 * level + n)
  }

  lemma PlainUnfolds(g: Graph, level: nat, j: nat)
    requires g.Valid() && level + 1 < g.levels && j < g.width
    ensures Plain(g, level, j) == 10 * level + j + 1 + Plain(g, level + 1, j) + Plain(g, level + 1, Beside(g, j))
  {
  }

  lemma LevelUnfolds(g: Graph, level: nat, n: nat)
    requires g.Valid() && level < g.levels && 0 < n <= g.width
    ensures LevelSum(g, level, n) == LevelSum(g, level, n - 1) + Plain(g, level, n - 1)
    ensures LevelSum(g, level, 0) == 0
  {
  }

  /** What the next level adds: each of its components is injected twice. */
  lemma {:induction false} LevelStep(g: Graph, level: nat, n: nat)
    requires g.Valid() && level + 1 < g.levels && n <= g.width
    ensures LevelSum(g, level, n) == OwnSum(level, n) + LevelSum(g, level + 1, n)
        + (if n == g.width then LevelSum(g, level + 1, n)
           else LevelSum(g, level + 1, n + 1) - Plain(g, level + 1, 0))
  {
    hide Plain, LevelSum;
    if n > 0 {
      LevelStep(g, level, n - 1);
      LevelUnfolds(g, level, n);
      LevelUnfolds(g, level + 1, n);
      PlainUnfolds(g, level, n - 1);
    } else {
      LevelUnfolds(g, level, 1);
    }
    if n < g.width {
      LevelUnfolds(g, level + 1, n + 1);
    }
  }

  lemma {:induction false} LastLevel(g: Graph, n: nat)
    requires g.Valid() && n <= g.width
    ensures LevelSum(g, g.levels - 1, n) == OwnSum(g.levels - 1, n)
  {
    if n > 0 {
      LastLevel(g, n - 1);
    }
  }

  /** From level on, every level's own numbers times two to the distance. */
  function Weighted(g: Graph, level: nat, scale: nat): nat
    requires level <= g.levels
    decreases g.levels - level
  {
    if level == g.levels then 0 else scale * OwnSum(level, g.width) + Weighted(g, level + 1, 2 * scale)
  }

  lemma {:induction false} WeightedScales(g: Graph, level: nat, scale: nat)
    requires level <= g.levels
    ensures Weighted(g, level, 2 * scale) == 2 * Weighted(g, level, scale)
    decreases g.levels - level
  {
    if level < g.levels {
      WeightedScales(g, level + 1, 2 * scale);
      var own := OwnSum(level, g.width);
      assert 2 * scale * own == 2 * (scale * own);
    }
  }

  lemma {:induction false} LevelIsWeighted(g: Graph, level: nat)
    requires g.Valid() && level < g.levels
    ensures LevelSum(g, level, g.width) == Weighted(g, level, 1)
    decreases g.levels - level
  {
    if level == g.levels - 1 {
      LastLevel(g, g.width);
      assert Weighted(g, g.levels, 2) == 0;
    } else {
      LevelStep(g, level, g.width);
      LevelIsWeighted(g, level + 1);
      WeightedScales(g, level + 1, 1);
    }
  }

  /** The root computes the sum over the levels l of 2^l times the own numbers of level l. */
  lemma RootValue(g: Graph)
    requires g.Valid()
    ensures Value(g, ROOT) == Weighted(g, 0, 1)
  {
    RootIsLevelSum(g);
    LevelIsWeighted(g, 0);
  }

  lemma {:induction false} OwnSumClosed(level: nat, n: nat)
    ensures 2 * OwnSum(level, n) == 20 * level * n + n * (n + 1)
  {
    if n > 0 {
      OwnSumClosed(level, n - 1);
      assert 20 * level * n == 20 * level * (n - 1) + 20 * level;
      assert n * (n + 1) == (n - 1) * n + 2 * n;
    }
  }

  /** The value in closed form. */
  lemma RootValueClosed(g: Graph)
    requires g.Valid()
    ensures 2 * Value(g, ROOT) ==
      g.width * (g.width + 1) * (Pow2(g.levels) - 1) + 20 * g.width * ((g.levels - 2) * Pow2(g.levels) + 2)
  {
    hide Value, Weighted;
    assert Pow2(0) == 1;
    RootValue(g);
    WeightedClosed(g, 0);
  }

  lemma {:induction false} WeightedClosed(g: Graph, level: nat)
    requires level <= g.levels
    ensures 2 * Weighted(g, level, Pow2(level)) ==
         g.width * (g.width + 1) * (Pow2(g.levels) - Pow2(level))
         + 20 * g.width * ((g.levels - 2) * Pow2(g.levels) - (level - 2) * Pow2(level))
    decreases g.levels - level
  {
    if level < g.levels {
      WeightedClosed(g, level + 1);
      OwnSumClosed(level, g.width);
      ClosedStep(g.width, level, Pow2(level), OwnSum(level, g.width), g.levels, Pow2(g.levels));
    }
  }

  /** One level's share, as a difference of the closed form. */
  lemma ClosedStep(w: nat, l: nat, p: nat, own: nat, top: nat, q: nat)
    requires 2 * own == 20 * l * w + w * (w + 1)
    ensures 2 * (p * own) + w * (w + 1) * (q - 2 * p) + 20 * w * ((top - 2) * q - (l - 1) * (2 * p))
         == w * (w + 1) * (q - p) + 20 * w * ((top - 2) * q - (l - 2) * p)
  {
    var a := w * (w + 1);
    calc {
      2 * (p * own);
      p * (2 * own);
      p * (20 * l * w + a);
      p * (20 * l * w) + p * a;
    }
    assert a * (q - 2 * p) + p * a == a * (q - p);
    assert (l - 1) * (2 * p) == 2 * (l * p) - 2 * p;
    assert (l - 2) * p == l * p - 2 * p;
    assert p * (20 * l * w) == 20 * w * (l * p);
    var x := (top - 2) * q;
    assert 20 * w * (x - (2 * (l * p) - 2 * p)) + 20 * w * (l * p) == 20 * w * (x - (l * p - 2 * p));
  }

  /** The graph the generator writes: ten levels of ten. */
  lemma PublishedValue()
    ensures Value(Graph(10, 10), ROOT) == 875665 && |Nodes(10, 10)| == 100
  {
    hide Value, Nodes;
    RootValueClosed(Graph(10, 10));
    NodesAreAll(10, 10);
    PowTen();
  }

  lemma PowTen()
    ensures Pow2(10) == 1024
  {
    assert Pow2(5) == 32;
  }

  /** The edges, in levels and positions: straight down, down and one to the right around the end,
      and from the first component of all to the others of its level. */
  lemma DepsAre(g: Graph, v: Node, d: Node)
    requires g.Valid() && Has(g, v)
    ensures d in Deps(g, v) <==>
      || (v.level + 1 < g.levels && d.level == v.level + 1 && (d.at == v.at || d.at == (v.at + 1) % g.width))
      || (v.level == 0 && v.at == 0 && d.level == 0 && 1 <= d.at < g.width)
  {
    var below := Next(g, v);
    if d in below {
      assert d == below[0] || d == below[1];
    } else if v.level + 1 < g.levels {
      assert below[0] in below && below[1] in below;
    }
    if v == ROOT && d.level == 0 && 1 <= d.at < g.width {
      assert Rest(g)[d.at - 1] == d;
    }
  }

  /** Some of the generated graph's injections, in their order. */
  lemma GeneratedDeps()
    ensures Deps(Graph(10, 10), Node(3, 9)) == [Node(4, 9), Node(4, 0)] && Deps(Graph(10, 10), Node(9, 4)) == []
    ensures Deps(Graph(10, 3), Node(0, 0)) == [Node(1, 0), Node(1, 1), Node(0, 1), Node(0, 2)]
  {
  }

  /** The components are listed level by level. */
  lemma {:induction false} NodesInOrder(n: nat, width: nat, v: Node)
    requires v.level < n && v.at < width
    ensures |Nodes(n, width)| == n * width && 0 <= v.level * width + v.at < n * width
    ensures Nodes(n, width)[v.level * width + v.at] == v
  {
    NodesAreAll(n, width);
    NodesAreAll(n - 1, width);
    assert n * width == (n - 1) * width + width;
    if v.level < n - 1 {
      NodesInOrder(n - 1, width, v);
    }
  }
}
