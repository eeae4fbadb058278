/** The generator of keys and of one-edit queries, and why the trigram index always finds the key
    a query was made from. */
module QueryGen {
  import opened Trigram
  import Osa

  /** The next state of the generator: a product and sum below 2^63, cut to 31 bits. */
  function Next(x: nat): (y: nat)
    ensures y < 0x8000_0000
    ensures x < 0x8000_0000 ==> x * 1103515245 + 12345 < 0x8000_0000_0000_0000
  {
    (x * 1103515245 + 12345) % 0x8000_0000
  }

  /** The top 16 bits of the state, scaled to 0..m. */
  function Scaled(x: nat, m: nat): nat {
    x / 0x8000 * m / 0x1_0000
  }

  /** A draw from m stays below m. */
  lemma ScaledBelow(x: nat, m: nat)
    requires x < 0x8000_0000 && m > 0
    ensures Scaled(x, m) < m
  {
    var q := x / 0x8000;
    assert q < 0x1_0000;
    Product(q, m);
  }

  lemma Product(q: nat, m: nat)
    requires q < 0x1_0000 && m > 0
    ensures q * m / 0x1_0000 < m
  {
    assert q * m <= 0xFFFF * m;
  }

  /** A draw is the share of m that the top sixteen bits are of 2^16, rounded down. */
  lemma ScaledIsShare(x: nat, m: nat)
    ensures Scaled(x, m) * 0x1_0000 <= x / 0x8000 * m < Scaled(x, m) * 0x1_0000 + 0x1_0000
    ensures Scaled(0x8000, 0x1_0000) == 1 && Scaled(0x7FFF, 0x1_0000) == 0
  {
  }

  class Lcg {
    var x: nat

    constructor (seed: nat)
      ensures x == seed
    {
      x := seed;
    }

    method Rnd(m: nat) returns (r: nat)
      modifies this
      ensures x == Next(old(x)) && r == Scaled(x, m)
      ensures m > 0 ==> r < m
    {
      x := Next(x);
      r := Scaled(x, m);
      if m > 0 {
        ScaledBelow(x, m);
      }
    }
  }

  /** The next number drawn in state x. */
  function Draw(x: nat, m: nat): (r: nat)
    requires m > 0
    ensures r < m
  {
    ScaledBelow(Next(x), m);
    Scaled(Next(x), m)
  }

  /** The state after j draws. */
  function State(x: nat, j: nat): nat {
    if j == 0 then x else Next(State(x, j - 1))
  }

  function Letter(x: nat): (c: char)
    ensures 'a' <= c <= 'z'
  {
    (97 + Draw(x, 26)) as char
  }

  function KeyLength(x: nat): (n: nat)
    ensures 8 <= n <= 16
  {
    8 + Draw(x, 9)
  }

  /** The key drawn in state x: its length, then its letters. */
  function KeyText(x: nat): (s: string)
    ensures |s| == KeyLength(x)
  {
    seq(KeyLength(x), j requires 0 <= j < KeyLength(x) => Letter(State(x, 1 + j)))
  }

  /** The state in which key i is drawn. */
  function KeyStart(x: nat, i: nat): nat {
    if i == 0 then x else State(KeyStart(x, i - 1), 1 + KeyLength(KeyStart(x, i - 1)))
  }

  predicate IsKey(s: string) {
    8 <= |s| <= 16 && forall i :: 0 <= i < |s| ==> 'a' <= s[i] <= 'z'
  }

  /** The first k keys of seed 777: each of 8 to 16 lower-case letters. */
  method Keys(k: nat) returns (out: seq<string>)
    ensures |out| == k
    ensures forall i :: 0 <= i < k ==> out[i] == KeyText(KeyStart(777, i)) && IsKey(out[i])
  {
    hide Scaled, Next, Draw;
    var g := new Lcg(777);
    out := [];
    for i := 0 to k
      invariant |out| == i && g.x == KeyStart(777, i)
      invariant forall h :: 0 <= h < i ==> out[h] == KeyText(KeyStart(777, h)) && IsKey(out[h])
    {
      var key := DrawKey(g);
      out := out + [key];
    }
  }

  method DrawKey(g: Lcg) returns (s: string)
    modifies g
    ensures s == KeyText(old(g.x)) && IsKey(s) && g.x == State(old(g.x), 1 + KeyLength(old(g.x)))
  {
    hide Scaled, Next;
    ghost var x := g.x;
    var r := g.Rnd(9);
    var n := 8 + r;
    assert State(x, 0) == x && g.x == State(x, 1);
    s := [];
    for j := 0 to n
      invariant g.x == State(x, 1 + j) && |s| == j && forall h :: 0 <= h < j ==> s[h] == Letter(State(x, 1 + h))
    {
      var c := g.Rnd(26);
      s := s + [(97 + c) as char];
    }
  }

  datatype Edit = Substitute(p: nat, c: char) | Transpose(p: nat) | Delete(p: nat) {
    predicate Fits(n: nat) {
      if Transpose? then p + 1 < n else p < n
    }
  }

  function Apply(key: string, e: Edit): string
    requires e.Fits(|key|)
  {
    match e
    case Substitute(p, c) => key[..p] + [c] + key[p + 1..]
    case Transpose(p) => key[..p] + [key[p + 1], key[p]] + key[p + 2..]
    case Delete(p) => key[..p] + key[p + 1..]
  }

  /** s is one edit away from the key it was drawn from. */
  ghost predicate Drawn(ks: seq<string>, src: nat, e: Edit, s: string) {
    src < |ks| && e.Fits(|ks[src]|) && s == Apply(ks[src], e)
  }

  ghost predicate IsQuery(ks: seq<string>, s: string) {
    exists src: nat, e: Edit :: Drawn(ks, src, e, s)
  }

  /** The key a query is made from, the edit, and the state after drawing both. */
  datatype Query = Query(src: nat, e: Edit, next: nat)

  predicate Editable(ks: seq<string>) { ks != [] && forall i :: 0 <= i < |ks| ==> |ks[i]| >= 2 }

  /** The query drawn in state x. */
  function QueryAt(ks: seq<string>, x: nat): (q: Query)
    requires Editable(ks)
    ensures q.src < |ks| && q.e.Fits(|ks[q.src]|)
  {
    var src, op, y := Draw(x, |ks|), Draw(State(x, 1), 3), State(x, 2);
    var n := |ks[src]|;
    if op == 0 then Query(src, Substitute(Draw(y, n), Letter(State(x, 3))), State(x, 4))
    else if op == 1 then Query(src, Transpose(Draw(y, n - 1)), State(x, 3))
    else Query(src, Delete(Draw(y, n)), State(x, 3))
  }

  function TextOf(ks: seq<string>, q: Query): string
    requires q.src < |ks| && q.e.Fits(|ks[q.src]|)
  {
    Apply(ks[q.src], q.e)
  }

  /** The state in which query i is drawn. */
  function QueryStart(ks: seq<string>, x: nat, i: nat): nat
    requires Editable(ks)
  {
    if i == 0 then x else QueryAt(ks, QueryStart(ks, x, i - 1)).next
  }

  /** The first q queries of seed 999 over the keys ks. */
  method Queries(ks: seq<string>, q: nat) returns (out: seq<string>)
    requires q > 0 ==> Editable(ks)
    ensures |out| == q
    ensures forall i :: 0 <= i < q ==> out[i] == TextOf(ks, QueryAt(ks, QueryStart(ks, 999, i))) && IsQuery(ks, out[i])
  {
    hide Scaled, Next, Draw, QueryAt, QueryStart, TextOf, IsQuery;
    var g := new Lcg(999);
    if q > 0 {
      QueryStarts(ks, 999, 0);
    }
    out := [];
    for i := 0 to q
      invariant |out| == i && (q > 0 ==> g.x == QueryStart(ks, 999, i))
      invariant forall h :: 0 <= h < i ==>
        out[h] == TextOf(ks, QueryAt(ks, QueryStart(ks, 999, h))) && IsQuery(ks, out[h])
    {
      QueryStarts(ks, 999, i);
      var s := DrawQuery(g, ks);
      out := out + [s];
    }
  }

  lemma QueryStarts(ks: seq<string>, x: nat, i: nat)
    requires Editable(ks)
    ensures QueryStart(ks, x, 0) == x && QueryStart(ks, x, i + 1) == QueryAt(ks, QueryStart(ks, x, i)).next
  {
    hide QueryAt;
  }

  method DrawQuery(g: Lcg, ks: seq<string>) returns (s: string)
    requires Editable(ks)
    modifies g
    ensures s == TextOf(ks, QueryAt(ks, old(g.x))) && g.x == QueryAt(ks, old(g.x)).next && IsQuery(ks, s)
  {
    hide Scaled, Next;
    ghost var x := g.x;
    var src := g.Rnd(|ks|);
    assert State(x, 0) == x && g.x == State(x, 1);
    var key := ks[src];
    var op := g.Rnd(3);
    assert g.x == State(x, 2);
    var n := |key|;
    if op == 0 {
      var p := g.Rnd(n);
      assert g.x == State(x, 3);
      var c := g.Rnd(26);
      s := key[..p] + [(97 + c) as char] + key[p + 1..];
    } else if op == 1 {
      var p := g.Rnd(n - 1);
      s := key[..p] + [key[p + 1], key[p]] + key[p + 2..];
    } else {
      var p := g.Rnd(n);
      s := key[..p] + key[p + 1..];
    }
    ghost var q := QueryAt(ks, x);
    assert Drawn(ks, q.src, q.e, s);
  }

  lemma SameFront(a: string, b: string, p: nat)
    requires p <= |a| && p <= |b| && a[..p] == b[..p]
    ensures Osa.Dist(a, b, p, p) == 0
  {
    hide Osa.Dist, Osa.Entry;
    assert a[0..p] == a[..p] && b[0..p] == b[..p];
    Osa.DistStep(a, b, 0, 0);
    Osa.MatchRun(a, b, 0, 0, p);
  }

  lemma SameBack(a: string, b: string, i: nat, k: nat)
    requires i <= |a| && k <= |b| && |a| - i == |b| - k && a[i..] == b[k..]
    ensures Osa.Dist(a, b, |a|, |b|) <= Osa.Dist(a, b, i, k)
  {
    hide Osa.Dist, Osa.Entry;
    assert a[i..|a|] == a[i..] && b[k..|b|] == b[k..];
    Osa.MatchRun(a, b, i, k, |a| - i);
  }

  /** Strings that agree before and after one step are at distance one at most. */
  lemma OneStepApart(a: string, b: string, p: nat, i: nat, k: nat)
    requires p <= i <= |a| && p <= k <= |b| && |a| - i == |b| - k
    requires a[..p] == b[..p] && a[i..] == b[k..]
    requires Osa.Dist(a, b, i, k) <= Osa.Dist(a, b, p, p) + 1
    ensures Osa.Distance(a, b) <= 1
  {
    hide Osa.Dist, Osa.Entry;
    SameFront(a, b, p);
    SameBack(a, b, i, k);
  }

  /** An edit is at most one step of the alignment distance. */
  lemma EditWithinOne(key: string, e: Edit)
    requires e.Fits(|key|)
    ensures Osa.Distance(key, Apply(key, e)) <= 1
  {
    hide Osa.Dist, Osa.Distance;
    var s, p := Apply(key, e), e.p;
    match e
    case Substitute(_, _) =>
      Osa.DistStep(key, s, p + 1, p + 1);
      OneStepApart(key, s, p, p + 1, p + 1);
    case Transpose(_) =>
      Osa.DistStep(key, s, p + 2, p + 2);
      OneStepApart(key, s, p, p + 2, p + 2);
    case Delete(_) =>
      Osa.DistStep(key, s, p + 1, p);
      Osa.DistGrows(key, s, p + 1, p);
      OneStepApart(key, s, p, p + 1, p);
  }

  /** One edit leaves a whole trigram of a key of seven characters or more, at its front or at
      its end. */
  lemma EditSharesGram(key: string, e: Edit)
    requires |key| >= 7 && e.Fits(|key|)
    ensures Shares(key, Apply(key, e))
  {
    var s, n := Apply(key, e), |key|;
    if e.p >= 3 {
      WindowShared(key, 0, s, 0);
    } else {
      WindowShared(key, n - 3, s, |s| - 3);
    }
  }

  /** A key and an edit of it with no gram in common. */
  ghost predicate Loses(key: string, e: Edit, n: nat) {
    |key| == n && e.Fits(n) && !Shares(key, Apply(key, e))
  }

  /** Seven is the least such length: every shorter one has a key and an edit with no gram left. */
  lemma SevenIsLeast(n: nat)
    requires 1 <= n < 7
    ensures exists key: string, e: Edit :: Loses(key, e, n)
  {
    hide Loses;
    match n
    case 1 => LosesOne();
    case 2 => LosesTwo();
    case 3 => LosesThree();
    case 4 => LosesFour();
    case 5 => LosesFive();
    case _ => LosesSix();
  }

  lemma LosesOne()
    ensures Loses("a", Substitute(0, 'z'), 1)
  {
    assert Apply("a", Substitute(0, 'z')) == "z";
    WholeLoses("a", "z");
  }

  lemma LosesTwo()
    ensures Loses("ab", Substitute(1, 'z'), 2)
  {
    assert Apply("ab", Substitute(1, 'z')) == "az";
    WholeLoses("ab", "az");
  }

  lemma LosesThree()
    ensures Loses("abc", Substitute(1, 'z'), 3)
  {
    assert Apply("abc", Substitute(1, 'z')) == "azc";
    NoPlainWindow("abc", "azc");
  }

  lemma LosesFour()
    ensures Loses("abcd", Substitute(2, 'z'), 4)
  {
    assert Apply("abcd", Substitute(2, 'z')) == "abzd";
    NoPlainWindow("abcd", "abzd");
  }

  lemma LosesFive()
    ensures Loses("abcde", Substitute(2, 'z'), 5)
  {
    assert Apply("abcde", Substitute(2, 'z')) == "abzde";
    NoPlainWindow("abcde", "abzde");
  }

  lemma LosesSix()
    ensures Loses("abcdef", Transpose(2), 6)
  {
    assert Apply("abcdef", Transpose(2)) == "abdcef";
    NoPlainWindow("abcdef", "abdcef");
  }

  lemma LowerPlain(s: string)
    requires forall c :: c in s ==> 'a' <= c <= 'z'
    ensures forall i {:trigger s[i]} :: 0 <= i < |s| ==> Lower(s[i]) == s[i]
  {
    assert forall i :: 0 <= i < |s| ==> s[i] in s;
  }

  lemma NoPlainWindow(a: string, b: string)
    requires |a| >= 3 && |b| >= 3 && (forall c :: c in a ==> 'a' <= c <= 'z')
    requires forall c :: c in b ==> 'a' <= c <= 'z'
    requires forall i, j :: 0 <= i < |a| - 2 && 0 <= j < |b| - 2 ==>
      a[i] != b[j] || a[i + 1] != b[j + 1] || a[i + 2] != b[j + 2]
    ensures !Shares(a, b)
  {
    hide Shares, Lower;
    LowerPlain(a);
    LowerPlain(b);
    forall i, j | 0 <= i < |a| - 2 && 0 <= j < |b| - 2
      ensures Lower(a[i]) != Lower(b[j]) || Lower(a[i + 1]) != Lower(b[j + 1]) || Lower(a[i + 2]) != Lower(b[j + 2])
    {
    }
    NoWindowShared(a, b);
  }

  lemma WholeLoses(a: string, b: string)
    requires 0 < |a| < 3 && 0 < |b| < 3 && Lower(a[|a| - 1]) != Lower(b[|b| - 1])
    ensures !Shares(a, b)
  {
    assert LowerAll(a)[|a| - 1] != LowerAll(b)[|b| - 1];
    assert Grams(a) == [LowerAll(a)] && Grams(b) == [LowerAll(b)];
  }

  /** The index always returns the key a query was made from, and that key is within one step of
      the query: within every threshold the fuzzy search uses. */
  lemma SourceIsFound(ks: seq<string>, src: nat, e: Edit, s: string)
    requires forall i :: 0 <= i < |ks| ==> |ks[i]| >= 7
    requires Drawn(ks, src, e, s)
    ensures src in CandidateSet(ks, s) && Osa.Distance(s, ks[src]) <= 1
  {
    EditSharesGram(ks[src], e);
    EditWithinOne(ks[src], e);
    Osa.DistanceSymmetric(ks[src], s);
  }

  lemma SourceOf(ks: seq<string>, s: string) returns (src: nat, e: Edit)
    requires IsQuery(ks, s)
    ensures Drawn(ks, src, e, s)
  {
    src, e :| Drawn(ks, src, e, s);
  }

  /** The number of candidates of the first n queries together. */
  ghost function CandidateCount(ks: seq<string>, qs: seq<string>, n: nat): nat
    requires n <= |qs|
  {
    if n == 0 then 0 else CandidateCount(ks, qs, n - 1) + |CandidateSet(ks, qs[n - 1])|
  }

  /** Every query counts at least the key it was made from. */
  lemma {:induction false} EveryQueryCounts(ks: seq<string>, qs: seq<string>, n: nat)
    requires forall i :: 0 <= i < |ks| ==> |ks[i]| >= 7
    requires n <= |qs| && forall i :: 0 <= i < n ==> IsQuery(ks, qs[i])
    ensures CandidateCount(ks, qs, n) >= n
  {
    hide CandidateSet, IsQuery, Drawn, Osa.Distance;
    if n > 0 {
      EveryQueryCounts(ks, qs, n - 1);
      var src, e := SourceOf(ks, qs[n - 1]);
      SourceIsFound(ks, src, e, qs[n - 1]);
      assert CandidateSet(ks, qs[n - 1]) != {};
    }
  }

  /** The postings of the index over ks, and the candidates of all queries. */
  method Count(ks: seq<string>, qs: seq<string>) returns (post: nat, cand: nat)
    ensures post == GramCount(ks, |ks|) && cand == CandidateCount(ks, qs, |qs|)
  {
    post := 0;
    for i := 0 to |ks|
      invariant post == GramCount(ks, i)
    {
      post := post + |Grams(ks[i])|;
    }
    var index := BuildIndex(ks);
    cand := 0;
    for i := 0 to |qs|
      invariant cand == CandidateCount(ks, qs, i)
    {
      var seen := Candidates(ks, index, qs[i]);
      cand := cand + |seen|;
    }
  }

  /** The eleven states from which the first key of seed 777 is drawn. */
  lemma StatesOfFirstKey()
    ensures State(777, 1) == 585382158 && State(777, 2) == 325238575 && State(777, 3) == 614852924
    ensures State(777, 4) == 1209845445 && State(777, 5) == 976148506 && State(777, 6) == 1239818059
    ensures State(777, 7) == 1401314600 && State(777, 8) == 898107969 && State(777, 9) == 760372198
    ensures State(777, 10) == 1576363303 && State(777, 11) == 1769481172
  {
    StatesFrom(777, 585382158, 325238575, 614852924, 0);
    StatesFrom(614852924, 1209845445, 976148506, 1239818059, 3);
    StatesFrom(1239818059, 1401314600, 898107969, 760372198, 6);
    StatesFrom(760372198, 1576363303, 1769481172, 218761597, 9);
  }

  lemma StatesFrom(x: nat, a: nat, b: nat, c: nat, j: nat)
    requires State(777, j) == x && Next(x) == a && Next(a) == b && Next(b) == c
    ensures State(777, j + 1) == a && State(777, j + 2) == b && State(777, j + 3) == c
  {
    hide Next;
  }

  /** The first key of seed 777, and the state in which the second one is drawn. */
  lemma FirstKey()
    ensures KeyText(777) == "dholpqkjtv" && KeyStart(777, 1) == 1769481172
  {
    hide State, Letter, KeyLength;
    StatesOfFirstKey();
    FirstLetters();
    assert KeyStart(777, 0) == 777;
  }

  lemma LetterIs(x: nat, y: nat, c: char)
    requires Next(x) == y && 97 + Scaled(y, 26) == c as int
    ensures Letter(x) == c
  {
    hide Next, Scaled;
  }

  lemma FirstLetters()
    ensures KeyLength(777) == 10
    ensures Letter(585382158) == 'd' && Letter(325238575) == 'h' && Letter(614852924) == 'o'
    ensures Letter(1209845445) == 'l' && Letter(976148506) == 'p' && Letter(1239818059) == 'q'
    ensures Letter(1401314600) == 'k' && Letter(898107969) == 'j' && Letter(760372198) == 't'
    ensures Letter(1576363303) == 'v'
  {
    hide Letter;
    FrontLetters();
    BackLetters();
  }

  lemma FrontLetters()
    ensures Letter(585382158) == 'd' && Letter(325238575) == 'h' && Letter(614852924) == 'o'
    ensures Letter(1209845445) == 'l' && Letter(976148506) == 'p'
  {
    hide Letter;
    LetterIs(585382158, 325238575, 'd');
    LetterIs(325238575, 614852924, 'h');
    LetterIs(614852924, 1209845445, 'o');
    LetterIs(1209845445, 976148506, 'l');
    LetterIs(976148506, 1239818059, 'p');
  }

  lemma BackLetters()
    ensures Letter(1239818059) == 'q' && Letter(1401314600) == 'k' && Letter(898107969) == 'j'
    ensures Letter(760372198) == 't' && Letter(1576363303) == 'v'
  {
    hide Letter;
    LetterIs(1239818059, 1401314600, 'q');
    LetterIs(1401314600, 898107969, 'k');
    LetterIs(898107969, 760372198, 'j');
    LetterIs(760372198, 1576363303, 't');
    LetterIs(1576363303, 1769481172, 'v');
  }

  /** Three draws in a row, and the state behind each. */
  lemma Draws(x: nat, a: nat, b: nat, c: nat)
    requires Next(x) == a && Next(a) == b && Next(b) == c
    ensures State(x, 1) == a && State(x, 2) == b && State(x, 3) == c && State(x, 4) == Next(c)
    ensures forall m: nat :: m > 0 ==> Draw(x, m) == Scaled(a, m)
    ensures forall m: nat :: m > 0 ==> Draw(a, m) == Scaled(b, m)
    ensures forall m: nat :: m > 0 ==> Draw(b, m) == Scaled(c, m)
  {
    hide Next, Scaled;
  }

  /** The first, third and fourth queries of seed 999 over two keys: one of each kind of edit. */
  lemma FirstQueries()
    ensures var ks := ["abcdefgh", "ijklmnopq"];
      && QueryAt(ks, 999) == Query(0, Delete(1), 296717874)
      && QueryAt(ks, 1808030590) == Query(1, Substitute(3, 'j'), 818327946)
      && QueryAt(ks, 818327946) == Query(0, Transpose(3), 1044579953)
  {
    hide State, Draw, Letter;
    Draws(999, 752630676, 1550100029, 296717874);
    Draws(1808030590, 2012186847, 137062700, 948920309);
    Draws(818327946, 695063547, 1232858136, 1044579953);
    assert Letter(948920309) == 'j' && Next(948920309) == 818327946 by {
      DrawnLetter();
    }
  }

  lemma DrawnLetter()
    ensures Letter(948920309) == 'j' && Next(948920309) == 818327946
  {
    hide Letter;
    LetterIs(948920309, 818327946, 'j');
  }

  lemma EditedTexts()
    ensures Apply("abcdefgh", Delete(1)) == "acdefgh" && Apply("abcdefgh", Transpose(3)) == "abcedfgh"
    ensures Apply("ijklmnopq", Substitute(3, 'j')) == "ijkjmnopq"
  {
  }

  /** The pairs of one of the first n queries and a key that share a gram. */
  ghost function Pairs(ks: seq<string>, qs: seq<string>, n: nat): set<(nat, nat)>
    requires n <= |qs|
  {
    set k: nat, i: nat | k < n && i < |ks| && Shares(ks[i], qs[k]) :: (k, i)
  }

  /** The candidate total is the number of those pairs. */
  lemma {:induction false} CandidatePairs(ks: seq<string>, qs: seq<string>, n: nat)
    requires n <= |qs|
    ensures CandidateCount(ks, qs, n) == |Pairs(ks, qs, n)|
  {
    hide Shares;
    if n > 0 {
      CandidatePairs(ks, qs, n - 1);
      var cs := CandidateSet(ks, qs[n - 1]);
      var last := PairedWith(cs, n - 1);
      PairsStep(ks, qs, n, last);
    } else {
      assert Pairs(ks, qs, n) == {};
    }
  }

  lemma PairsStep(ks: seq<string>, qs: seq<string>, n: nat, last: set<(nat, nat)>)
    requires 0 < n <= |qs|
    requires forall p :: p in last <==> p.0 == n - 1 && p.1 in CandidateSet(ks, qs[n - 1])
    ensures |Pairs(ks, qs, n)| == |Pairs(ks, qs, n - 1)| + |last|
  {
    hide Shares;
    var before, after := Pairs(ks, qs, n - 1), Pairs(ks, qs, n);
    forall p
      ensures p in after <==> p in before || p in last
      ensures p !in before || p !in last
    {
    }
    assert after == before + last && before !! last;
  }

  lemma {:induction false} PairedWith(s: set<nat>, k: nat) returns (ps: set<(nat, nat)>)
    ensures |ps| == |s| && forall p :: p in ps <==> p.0 == k && p.1 in s
  {
    ps := {};
    if s != {} {
      var i :| i in s;
      var rest := PairedWith(s - {i}, k);
      ps := rest + {(k, i)};
    }
  }
}
