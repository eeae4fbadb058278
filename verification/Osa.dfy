/** Optimal string alignment distance: the three-row dynamic program, and what its answer means.

    An alignment edits a string into another in steps that each consume the end of one or both
    prefixes: match, substitute, insert, delete, and the swap of two adjacent characters, which
    are then never edited again. */
module Osa {

  datatype Step = Match | Substitute | Insert | Delete | Swap {
    function Cost(): nat { if Match? then 0 else 1 }
  }

  /** The steps, taken in order, edit a[..i] into b[..k]. */
  ghost predicate Aligns(a: string, b: string, i: nat, k: nat, steps: seq<Step>)
    requires i <= |a| && k <= |b|
    decreases |steps|
  {
    if steps == [] then i == 0 && k == 0
    else
      var rest := steps[..|steps| - 1];
      match steps[|steps| - 1]
      case Match => i > 0 && k > 0 && a[i - 1] == b[k - 1] && Aligns(a, b, i - 1, k - 1, rest)
      case Substitute => i > 0 && k > 0 && Aligns(a, b, i - 1, k - 1, rest)
      case Insert => k > 0 && Aligns(a, b, i, k - 1, rest)
      case Delete => i > 0 && Aligns(a, b, i - 1, k, rest)
      case Swap => i > 1 && k > 1 && a[i - 1] == b[k - 2] && a[i - 2] == b[k - 1] && Aligns(a, b, i - 2, k - 2, rest)
  }

  function Cost(steps: seq<Step>): nat {
    if steps == [] then 0 else Cost(steps[..|steps| - 1]) + steps[|steps| - 1].Cost()
  }

  function Min(x: nat, y: nat): nat { if y < x then y else x }

  predicate Swapped(a: string, b: string, i: nat, k: nat)
    requires i <= |a| && k <= |b|
  {
    i > 1 && k > 1 && a[i - 1] == b[k - 2] && a[i - 2] == b[k - 1]
  }

  /** An entry of the table from the entries above it, left of it, before both, and two before
      both; the last counts only where the strings swap two characters. */
  function Entry(a: string, b: string, i: nat, k: nat, up: nat, left: nat, diag: nat, corner: nat): nat
    requires 0 < i <= |a| && 0 < k <= |b|
  {
    var cost := if a[i - 1] == b[k - 1] then 0 else 1;
    var best := Min(Min(up + 1, left + 1), diag + cost);
    if Swapped(a, b, i, k) then Min(best, corner + 1) else best
  }

  /** The distance between the prefixes a[..i] and b[..k]. */
  function Dist(a: string, b: string, i: nat, k: nat): nat
    requires i <= |a| && k <= |b|
  {
    if i == 0 then k
    else if k == 0 then i
    else
      var corner := if i > 1 && k > 1 then Dist(a, b, i - 2, k - 2) else 0;
      Entry(a, b, i, k, Dist(a, b, i - 1, k), Dist(a, b, i, k - 1), Dist(a, b, i - 1, k - 1), corner)
  }

  lemma DistStep(a: string, b: string, i: nat, k: nat)
    requires i <= |a| && k <= |b|
    ensures i == 0 ==> Dist(a, b, i, k) == k
    ensures k == 0 ==> Dist(a, b, i, k) == i
    ensures i > 0 && k > 0 ==>
      var corner := if i > 1 && k > 1 then Dist(a, b, i - 2, k - 2) else 0;
      Dist(a, b, i, k) ==
        Entry(a, b, i, k, Dist(a, b, i - 1, k), Dist(a, b, i, k - 1), Dist(a, b, i - 1, k - 1), corner)
  {
  }

  function Distance(a: string, b: string): nat { Dist(a, b, |a|, |b|) }

  /** Row i of the table. */
  ghost predicate IsRow(row: seq<nat>, a: string, b: string, i: nat)
    requires i <= |a| && |row| <= |b| + 1
  {
    forall k :: 0 <= k < |row| ==> row[k] == Dist(a, b, i, k)
  }

  /** The next entry of a row, from the row so far and the two rows above. */
  lemma NextEntry(pp: seq<nat>, p: seq<nat>, c: seq<nat>, a: string, b: string, i: nat, k: nat)
    requires 0 < i <= |a| && 0 < k <= |b| && |p| == |pp| == |b| + 1 && |c| == k
    requires IsRow(p, a, b, i - 1) && IsRow(c, a, b, i) && (i > 1 ==> IsRow(pp, a, b, i - 2))
    ensures k > 1 ==> IsRow(c + [Entry(a, b, i, k, p[k], c[k - 1], p[k - 1], pp[k - 2])], a, b, i)
    ensures k == 1 ==> IsRow(c + [Entry(a, b, i, k, p[k], c[k - 1], p[k - 1], 0)], a, b, i)
  {
    hide Dist;
    DistStep(a, b, i, k);
  }

  /** Fills one row after another, keeping the two rows above, and returns the last entry. */
  method Compute(a: string, b: string) returns (d: nat)
    ensures d == Distance(a, b)
  {
    var n, m := |a|, |b|;
    if n == 0 {
      return m;
    }
    if m == 0 {
      return n;
    }
    var pp := new nat[m + 1](_ => 0);
    var p := new nat[m + 1](k => k);
    for i := 1 to n + 1
      invariant p.Length == m + 1 && pp.Length == m + 1
      invariant IsRow(p[..], a, b, i - 1)
      invariant i > 1 ==> IsRow(pp[..], a, b, i - 2)
    {
      var c := NextRow(a, b, i, pp, p);
      pp, p := p, c;
    }
    d := p[..][m];
  }

  method NextRow(a: string, b: string, i: nat, pp: array<nat>, p: array<nat>) returns (c: array<nat>)
    requires 0 < i <= |a| && p.Length == pp.Length == |b| + 1
    requires IsRow(p[..], a, b, i - 1) && (i > 1 ==> IsRow(pp[..], a, b, i - 2))
    ensures fresh(c) && c.Length == |b| + 1 && IsRow(c[..], a, b, i)
  {
    hide Dist, IsRow;
    var m := |b|;
    c := new nat[m + 1](k => if k == 0 then i else 0);
    FirstEntry(c[..1], a, b, i);
    for k := 1 to m + 1
      invariant IsRow(c[..k], a, b, i)
    {
      var cost := if a[i - 1] == b[k - 1] then 0 else 1;
      var best := Min(Min(p[k] + 1, c[k - 1] + 1), p[k - 1] + cost);
      if i > 1 && k > 1 && a[i - 1] == b[k - 2] && a[i - 2] == b[k - 1] {
        best := Min(best, pp[k - 2] + 1);
      }
      NextEntry(pp[..], p[..], c[..k], a, b, i, k);
      ghost var before := c[..k];
      c[k] := best;
      assert c[..k + 1] == before + [best];
    }
    assert c[..m + 1] == c[..];
  }

  lemma FirstEntry(row: seq<nat>, a: string, b: string, i: nat)
    requires i <= |a| && row == [i]
    ensures IsRow(row, a, b, i)
  {
  }

  /** No alignment is cheaper than the distance. */
  lemma {:induction false} DistIsLowerBound(a: string, b: string, i: nat, k: nat, steps: seq<Step>)
    requires i <= |a| && k <= |b| && Aligns(a, b, i, k, steps)
    ensures Dist(a, b, i, k) <= Cost(steps)
    decreases |steps|
  {
    hide Dist;
    DistStep(a, b, i, k);
    if steps != [] {
      var rest := steps[..|steps| - 1];
      match steps[|steps| - 1]
      case Match => DistIsLowerBound(a, b, i - 1, k - 1, rest);
      case Substitute => DistIsLowerBound(a, b, i - 1, k - 1, rest);
      case Insert => DistIsLowerBound(a, b, i, k - 1, rest); DistGrows(a, b, i, k);
      case Delete => DistIsLowerBound(a, b, i - 1, k, rest); DistGrows(a, b, i, k);
      case Swap => DistIsLowerBound(a, b, i - 2, k - 2, rest);
    }
  }

  /** Neighbouring entries differ by at most one step. */
  lemma DistGrows(a: string, b: string, i: nat, k: nat)
    requires i <= |a| && k <= |b|
    ensures i > 0 ==> Dist(a, b, i, k) <= Dist(a, b, i - 1, k) + 1
    ensures k > 0 ==> Dist(a, b, i, k) <= Dist(a, b, i, k - 1) + 1
  {
    hide Dist;
    DistStep(a, b, i, k);
    if i > 0 { DistStep(a, b, i - 1, k); }
    if k > 0 { DistStep(a, b, i, k - 1); }
  }

  lemma Extend(a: string, b: string, i: nat, k: nat, rest: seq<Step>, last: Step)
    requires i <= |a| && k <= |b|
    requires match last
      case Match => i > 0 && k > 0 && a[i - 1] == b[k - 1] && Aligns(a, b, i - 1, k - 1, rest)
      case Substitute => i > 0 && k > 0 && Aligns(a, b, i - 1, k - 1, rest)
      case Insert => k > 0 && Aligns(a, b, i, k - 1, rest)
      case Delete => i > 0 && Aligns(a, b, i - 1, k, rest)
      case Swap => Swapped(a, b, i, k) && Aligns(a, b, i - 2, k - 2, rest)
    ensures Aligns(a, b, i, k, rest + [last]) && Cost(rest + [last]) == Cost(rest) + last.Cost()
  {
    assert (rest + [last])[..|rest|] == rest;
  }

  /** Some alignment attains the distance. */
  lemma {:induction false} DistIsAttained(a: string, b: string, i: nat, k: nat) returns (steps: seq<Step>)
    requires i <= |a| && k <= |b|
    ensures Aligns(a, b, i, k, steps) && Cost(steps) == Dist(a, b, i, k)
    decreases i + k
  {
    hide Dist;
    DistStep(a, b, i, k);
    DistStep(a, b, 0, if k > 0 then k - 1 else 0);
    DistStep(a, b, if i > 0 then i - 1 else 0, 0);
    if i == 0 && k == 0 {
      steps := [];
    } else if i == 0 {
      var rest := DistIsAttained(a, b, i, k - 1);
      Extend(a, b, i, k, rest, Insert);
      steps := rest + [Insert];
    } else if k == 0 {
      var rest := DistIsAttained(a, b, i - 1, k);
      Extend(a, b, i, k, rest, Delete);
      steps := rest + [Delete];
    } else {
      var last, i', k' := BestStep(a, b, i, k);
      var rest := DistIsAttained(a, b, i', k');
      Extend(a, b, i, k, rest, last);
      steps := rest + [last];
    }
  }

  /** The step the minimum was taken at. */
  lemma BestStep(a: string, b: string, i: nat, k: nat) returns (last: Step, i': nat, k': nat)
    requires 0 < i <= |a| && 0 < k <= |b|
    ensures i' <= i && k' <= k && i' + k' < i + k
    ensures Dist(a, b, i, k) == Dist(a, b, i', k') + last.Cost()
    ensures match last
      case Match => i' == i - 1 && k' == k - 1 && a[i - 1] == b[k - 1]
      case Substitute => i' == i - 1 && k' == k - 1
      case Insert => i' == i && k' == k - 1
      case Delete => i' == i - 1 && k' == k
      case Swap => Swapped(a, b, i, k) && i' == i - 2 && k' == k - 2
  {
    hide Dist;
    DistStep(a, b, i, k);
    var d := Dist(a, b, i, k);
    if a[i - 1] == b[k - 1] && d == Dist(a, b, i - 1, k - 1) {
      last, i', k' := Match, i - 1, k - 1;
    } else if Swapped(a, b, i, k) && d == Dist(a, b, i - 2, k - 2) + 1 {
      last, i', k' := Swap, i - 2, k - 2;
    } else if d == Dist(a, b, i - 1, k) + 1 {
      last, i', k' := Delete, i - 1, k;
    } else if d == Dist(a, b, i, k - 1) + 1 {
      last, i', k' := Insert, i, k - 1;
    } else {
      last, i', k' := Substitute, i - 1, k - 1;
    }
  }

  /** The distance is the minimum cost over all alignments. */
  lemma DistanceIsMinimum(a: string, b: string)
    ensures forall steps :: Aligns(a, b, |a|, |b|, steps) ==> Distance(a, b) <= Cost(steps)
    ensures exists steps :: Aligns(a, b, |a|, |b|, steps) && Cost(steps) == Distance(a, b)
  {
    forall steps | Aligns(a, b, |a|, |b|, steps)
      ensures Distance(a, b) <= Cost(steps)
    {
      DistIsLowerBound(a, b, |a|, |b|, steps);
    }
    var best := DistIsAttained(a, b, |a|, |b|);
  }

  lemma {:induction false} DistSymmetric(a: string, b: string, i: nat, k: nat)
    requires i <= |a| && k <= |b|
    ensures Dist(a, b, i, k) == Dist(b, a, k, i)
    decreases i + k
  {
    hide Dist;
    DistStep(a, b, i, k);
    DistStep(b, a, k, i);
    if i > 0 && k > 0 {
      DistSymmetric(a, b, i - 1, k);
      DistSymmetric(a, b, i, k - 1);
      DistSymmetric(a, b, i - 1, k - 1);
      if i > 1 && k > 1 {
        DistSymmetric(a, b, i - 2, k - 2);
      }
    }
  }

  lemma DistanceSymmetric(a: string, b: string)
    ensures Distance(a, b) == Distance(b, a)
  {
    DistSymmetric(a, b, |a|, |b|);
  }

  /** The distance lies between the difference of the lengths and the longer length. */
  lemma {:induction false} DistBounds(a: string, b: string, i: nat, k: nat)
    requires i <= |a| && k <= |b|
    ensures i - k <= Dist(a, b, i, k) && k - i <= Dist(a, b, i, k)
    ensures Dist(a, b, i, k) <= if i < k then k else i
    decreases i + k
  {
    hide Dist;
    DistStep(a, b, i, k);
    if i > 0 && k > 0 {
      DistBounds(a, b, i - 1, k);
      DistBounds(a, b, i, k - 1);
      DistBounds(a, b, i - 1, k - 1);
      if i > 1 && k > 1 {
        DistBounds(a, b, i - 2, k - 2);
      }
    }
  }

  /** The distance is zero exactly on equal strings. */
  lemma {:induction false} DistZeroIff(a: string, b: string, i: nat, k: nat)
    requires i <= |a| && k <= |b|
    ensures Dist(a, b, i, k) == 0 <==> a[..i] == b[..k]
    decreases i + k
  {
    hide Dist;
    DistStep(a, b, i, k);
    if i > 0 && k > 0 {
      DistZeroIff(a, b, i - 1, k - 1);
      assert a[..i] == a[..i - 1] + [a[i - 1]] && b[..k] == b[..k - 1] + [b[k - 1]];
      assert a[..i] == b[..k] <==> a[..i - 1] == b[..k - 1] && a[i - 1] == b[k - 1];
    }
  }

  lemma DistanceZeroIff(a: string, b: string)
    ensures Distance(a, b) == 0 <==> a == b
  {
    DistZeroIff(a, b, |a|, |b|);
    assert a[..|a|] == a && b[..|b|] == b;
  }

  /** Equal stretches cost nothing. */
  lemma {:induction false} MatchRun(a: string, b: string, i: nat, k: nat, t: nat)
    requires i + t <= |a| && k + t <= |b| && a[i..i + t] == b[k..k + t]
    ensures Dist(a, b, i + t, k + t) <= Dist(a, b, i, k)
    decreases t
  {
    hide Dist;
    DistStep(a, b, i + t, k + t);
    if t > 0 {
      assert a[i..i + t][..t - 1] == a[i..i + t - 1] && b[k..k + t][..t - 1] == b[k..k + t - 1];
      MatchRun(a, b, i, k, t - 1);
      assert a[i..i + t][t - 1] == b[k..k + t][t - 1];
    }
  }

  /** A swap costs one, case counts, and nothing is matched for free. */
  lemma ShortDistances()
    ensures Distance("ab", "ba") == 1 && Distance("", "abc") == 3 && Distance("a", "A") == 1
  {
  }

  /** A swapped pair is not edited again: with an insertion inside it the distance is 3, not 2. */
  lemma SwappedPairIsFinal()
    ensures Distance("ca", "abc") == 3
  {
    var a, b := "ca", "abc";
    assert Dist(a, b, 1, 1) == 1 && Dist(a, b, 1, 2) == 2 && Dist(a, b, 2, 1) == 1 && Dist(a, b, 1, 3) == 2;
    assert Dist(a, b, 2, 2) == 2;
  }
}
