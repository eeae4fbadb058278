/** The trigram index over a list of keys, and the candidates a query finds through it. */
module Trigram {
  import opened Basics

  /** Lower-casing, on the ASCII letters. */
  function Lower(c: char): char {
    if 'A' <= c <= 'Z' then c + 32 as char else c
  }

  function LowerAll(s: string): string {
    seq(|s|, i requires 0 <= i < |s| => Lower(s[i]))
  }

  /** The trigrams of s in order, with repeats; a shorter non-empty string is one gram. */
  function Grams(s: string): seq<string> {
    var t := LowerAll(s);
    if t == [] then []
    else if |t| < 3 then [t]
    else seq(|t| - 2, i requires 0 <= i < |t| - 2 => t[i..i + 3])
  }

  ghost predicate Shares(a: string, b: string) {
    exists g :: g in Grams(a) && g in Grams(b)
  }

  /** Equal windows of three characters are a shared gram. */
  lemma WindowShared(a: string, i: nat, b: string, j: nat)
    requires i + 3 <= |a| && j + 3 <= |b|
    requires a[i] == b[j] && a[i + 1] == b[j + 1] && a[i + 2] == b[j + 2]
    ensures Shares(a, b)
  {
    var s, t := LowerAll(a), LowerAll(b);
    assert s[i..i + 3] == t[j..j + 3];
    assert Grams(a)[i] == s[i..i + 3] && Grams(b)[j] == t[j..j + 3];
    assert s[i..i + 3] in Grams(a) && s[i..i + 3] in Grams(b);
  }

  /** Strings with no equal window share no gram. */
  lemma NoWindowShared(a: string, b: string)
    requires |a| >= 3 && |b| >= 3
    requires forall i, j :: 0 <= i < |a| - 2 && 0 <= j < |b| - 2 ==>
      Lower(a[i]) != Lower(b[j]) || Lower(a[i + 1]) != Lower(b[j + 1]) || Lower(a[i + 2]) != Lower(b[j + 2])
    ensures !Shares(a, b)
  {
    var s, t := LowerAll(a), LowerAll(b);
    forall i, j | 0 <= i < |Grams(a)| && 0 <= j < |Grams(b)|
      ensures Grams(a)[i] != Grams(b)[j]
    {
      assert s[i..i + 3][0] == s[i] && s[i..i + 3][1] == s[i + 1] && s[i..i + 3][2] == s[i + 2];
      assert t[j..j + 3][0] == t[j] && t[j..j + 3][1] == t[j + 1] && t[j..j + 3][2] == t[j + 2];
    }
  }

  /** One posting of key i for every occurrence of g among gs. */
  function Occurrences(gs: seq<string>, g: string, i: nat): seq<nat> {
    if gs == [] then []
    else Occurrences(gs[..|gs| - 1], g, i) + if gs[|gs| - 1] == g then [i] else []
  }

  /** The posting list of g over the first n keys. */
  function Postings(ks: seq<string>, n: nat, g: string): seq<nat>
    requires n <= |ks|
  {
    if n == 0 then [] else Postings(ks, n - 1, g) + Occurrences(Grams(ks[n - 1]), g, n - 1)
  }

  lemma {:induction false} OccurrencesMember(gs: seq<string>, g: string, i: nat)
    ensures forall x: nat :: x in Occurrences(gs, g, i) <==> x == i && g in gs
  {
    if gs != [] {
      OccurrencesMember(gs[..|gs| - 1], g, i);
      assert g in gs <==> g in gs[..|gs| - 1] || gs[|gs| - 1] == g;
    }
  }

  /** A posting list names exactly the keys that have the gram. */
  lemma {:induction false} PostingsMember(ks: seq<string>, n: nat, g: string)
    requires n <= |ks|
    ensures forall x: nat :: x in Postings(ks, n, g) <==> x < n && g in Grams(ks[x])
  {
    hide Grams, Occurrences;
    if n > 0 {
      PostingsMember(ks, n - 1, g);
      OccurrencesMember(Grams(ks[n - 1]), g, n - 1);
    }
  }

  type Index = map<string, seq<nat>>

  function Lookup(index: Index, g: string): seq<nat> {
    if g in index then index[g] else []
  }

  /** The lengths of all posting lists together. */
  ghost function Total(index: Index): nat {
    if index == map[] then 0
    else var g :| g in index; |index[g]| + Total(index - {g})
  }

  lemma {:induction false} TotalWithout(index: Index, g: string)
    requires g in index
    ensures Total(index) == |index[g]| + Total(index - {g})
    decreases |index|
  {
    var h :| h in index && Total(index) == |index[h]| + Total(index - {h});
    if h != g {
      TotalWithout(index - {h}, g);
      TotalWithout(index - {g}, h);
      assert index - {h} - {g} == index - {g} - {h};
    }
  }

  /** Appending one posting adds one to the total. */
  lemma TotalAppend(index: Index, g: string, i: nat)
    ensures Total(index[g := Lookup(index, g) + [i]]) == Total(index) + 1
  {
    var index' := index[g := Lookup(index, g) + [i]];
    TotalWithout(index', g);
    if g in index {
      TotalWithout(index, g);
      assert index' - {g} == index - {g};
    } else {
      assert index' - {g} == index;
    }
  }

  /** The number of grams of the first n keys, repeats counted. */
  function GramCount(ks: seq<string>, n: nat): nat
    requires n <= |ks|
  {
    if n == 0 then 0 else GramCount(ks, n - 1) + |Grams(ks[n - 1])|
  }

  /** The index holds, for every gram, the postings of the first n keys and of the first m grams
      of the key after them. */
  ghost predicate Holds(index: Index, ks: seq<string>, n: nat, gs: seq<string>)
    requires n <= |ks|
  {
    forall g :: Lookup(index, g) == Postings(ks, n, g) + Occurrences(gs, g, n)
  }

  /** Appends one posting per gram occurrence, key after key. */
  method BuildIndex(ks: seq<string>) returns (index: Index)
    ensures forall g :: Lookup(index, g) == Postings(ks, |ks|, g)
    ensures Total(index) == GramCount(ks, |ks|)
  {
    hide Holds, Postings, Occurrences, Grams, Lookup;
    index := map[];
    HoldsStart(ks);
    for i := 0 to |ks|
      invariant Holds(index, ks, i, [])
      invariant Total(index) == GramCount(ks, i)
    {
      var gs := Grams(ks[i]);
      for j := 0 to |gs|
        invariant Holds(index, ks, i, gs[..j])
        invariant Total(index) == GramCount(ks, i) + j
      {
        TotalAppend(index, gs[j], i);
        HoldsAppend(index, ks, i, gs, j);
        index := index[gs[j] := Lookup(index, gs[j]) + [i]];
      }
      assert gs[..|gs|] == gs;
      assert Total(index) == GramCount(ks, i + 1);
      HoldsNext(index, ks, i);
    }
    HoldsEnd(index, ks);
  }

  lemma HoldsStart(ks: seq<string>)
    ensures Holds(map[], ks, 0, [])
  {
  }

  lemma HoldsEnd(index: Index, ks: seq<string>)
    requires Holds(index, ks, |ks|, [])
    ensures forall g :: Lookup(index, g) == Postings(ks, |ks|, g)
  {
    forall g
      ensures Lookup(index, g) == Postings(ks, |ks|, g)
    {
      assert Lookup(index, g) == Postings(ks, |ks|, g) + Occurrences([], g, |ks|);
    }
  }

  lemma OccurrencesStep(gs: seq<string>, j: nat, g: string, i: nat)
    requires j < |gs|
    ensures Occurrences(gs[..j + 1], g, i) == Occurrences(gs[..j], g, i) + if gs[j] == g then [i] else []
  {
    assert gs[..j + 1][..j] == gs[..j];
  }

  lemma HoldsAppend(index: Index, ks: seq<string>, i: nat, gs: seq<string>, j: nat)
    requires i < |ks| && j < |gs| && Holds(index, ks, i, gs[..j])
    ensures Holds(index[gs[j] := Lookup(index, gs[j]) + [i]], ks, i, gs[..j + 1])
  {
    hide Grams, Postings, Occurrences;
    var index' := index[gs[j] := Lookup(index, gs[j]) + [i]];
    forall g
      ensures Lookup(index', g) == Postings(ks, i, g) + Occurrences(gs[..j + 1], g, i)
    {
      assert Lookup(index, g) == Postings(ks, i, g) + Occurrences(gs[..j], g, i);
      OccurrencesStep(gs, j, g, i);
      Regroup(Postings(ks, i, g), Occurrences(gs[..j], g, i), if gs[j] == g then [i] else []);
    }
  }

  lemma HoldsNext(index: Index, ks: seq<string>, i: nat)
    requires i < |ks| && Holds(index, ks, i, Grams(ks[i]))
    ensures Holds(index, ks, i + 1, [])
  {
    forall g
      ensures Lookup(index, g) == Postings(ks, i + 1, g) + Occurrences([], g, i + 1)
    {
      assert Postings(ks, i + 1, g) == Postings(ks, i, g) + Occurrences(Grams(ks[i]), g, i);
    }
  }

  /** The keys that share a gram with the query. */
  ghost function CandidateSet(ks: seq<string>, q: string): set<nat> {
    set i: nat | i < |ks| && Shares(ks[i], q)
  }

  /** Looks every gram of the query up and collects the keys posted under them. */
  method Candidates(ks: seq<string>, index: Index, q: string) returns (seen: set<nat>)
    requires forall g :: Lookup(index, g) == Postings(ks, |ks|, g)
    ensures seen == CandidateSet(ks, q)
  {
    seen := {};
    var gs := Grams(q);
    for j := 0 to |gs|
      invariant forall i: nat :: i in seen <==> i < |ks| && exists g :: g in gs[..j] && g in Grams(ks[i])
    {
      PostingsMember(ks, |ks|, gs[j]);
      ghost var before := seen;
      seen := seen + set i | i in Lookup(index, gs[j]);
      CollectStep(ks, gs, j, before, seen);
    }
    assert gs[..|gs|] == gs;
  }

  lemma CollectStep(ks: seq<string>, gs: seq<string>, j: nat, before: set<nat>, after: set<nat>)
    requires j < |gs|
    requires forall i: nat :: i in before <==> i < |ks| && exists g :: g in gs[..j] && g in Grams(ks[i])
    requires forall i: nat :: i in after <==> i in before || (i < |ks| && gs[j] in Grams(ks[i]))
    ensures forall i: nat :: i in after <==> i < |ks| && exists g :: g in gs[..j + 1] && g in Grams(ks[i])
  {
    hide Grams;
    assert gs[..j + 1] == gs[..j] + [gs[j]];
  }

  /** The grams in characters: every window of three, lower-cased, or a shorter string whole. */
  lemma GramsAre(s: string, i: nat, j: nat)
    requires i < |Grams(s)|
    ensures |Grams(s)| == if |s| < 3 then 1 else |s| - 2
    ensures |Grams(s)[i]| == if |s| < 3 then |s| else 3
    ensures j < |Grams(s)[i]| ==> i + j < |s| && (!('A' <= s[i + j] <= 'Z') ==> Grams(s)[i][j] == s[i + j])
    ensures j < |Grams(s)[i]| && 'A' <= s[i + j] <= 'Z' ==> Grams(s)[i][j] as int == s[i + j] as int + 32
  {
  }

  lemma GramsOfTexts()
    ensures Grams("") == [] && Grams("aB") == ["ab"] && Grams("AbCd") == ["abc", "bcd"]
  {
    assert LowerAll("aB") == "ab" && LowerAll("AbCd") == "abcd";
    assert "abcd"[0..3] == "abc" && "abcd"[1..4] == "bcd";
  }

  /** A posting list is in key order, and names a key as often as the key has the gram. */
  lemma {:induction false} PostingsCount(ks: seq<string>, n: nat, g: string, x: nat)
    requires n <= |ks|
    ensures multiset(Postings(ks, n, g))[x] == if x < n then multiset(Grams(ks[x]))[g] else 0
    ensures forall i, j :: 0 <= i < j < |Postings(ks, n, g)| ==> Postings(ks, n, g)[i] <= Postings(ks, n, g)[j]
    ensures forall i :: 0 <= i < |Postings(ks, n, g)| ==> Postings(ks, n, g)[i] < n
  {
    hide Grams, Occurrences;
    if n > 0 {
      PostingsCount(ks, n - 1, g, x);
      OccurrencesCount(Grams(ks[n - 1]), g, n - 1, x);
    }
  }

  lemma {:induction false} OccurrencesCount(gs: seq<string>, g: string, i: nat, x: nat)
    ensures multiset(Occurrences(gs, g, i))[x] == if x == i then multiset(gs)[g] else 0
    ensures forall k :: 0 <= k < |Occurrences(gs, g, i)| ==> Occurrences(gs, g, i)[k] == i
  {
    if gs != [] {
      OccurrencesCount(gs[..|gs| - 1], g, i, x);
      assert gs == gs[..|gs| - 1] + [gs[|gs| - 1]];
    }
  }
}
