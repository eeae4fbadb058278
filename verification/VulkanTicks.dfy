/** The Vulkan profiler's tick arithmetic and its choices of queue family and device. Unsigned
    64-bit words are naturals below 2^64. */
module VulkanTicks {
  import opened Basics

  const WORD: nat := 0x1_0000_0000_0000_0000

  /** Bitwise and. */
  function And(x: nat, y: nat): nat {
    if x == 0 || y == 0 then 0 else (x % 2) * (y % 2) + 2 * And(x / 2, y / 2)
  }

  /** All ones below the valid width; every bit when the width is a word or more. */
  function Mask(validBits: nat): nat {
    if validBits >= 64 then WORD - 1 else Pow2(validBits) - 1
  }

  /** The masked difference of two readings, wrapping at the word; a width of 0 makes no duration. */
  function DeltaTicks(start: nat, end: nat, validBits: nat): nat {
    if validBits == 0 then 0 else And((end - start) % WORD, Mask(validBits))
  }

  lemma AndStep(x: nat, p: nat)
    requires p >= 1
    ensures And(x, 2 * p - 1) == x % 2 + 2 * And(x / 2, p - 1)
  {
    assert (2 * p - 1) / 2 == p - 1 && (2 * p - 1) % 2 == 1;
  }

  lemma {:induction false} AndOnes(x: nat, n: nat)
    ensures And(x, Pow2(n) - 1) == x % Pow2(n)
  {
    hide And;
    if n > 0 {
      AndOnes(x / 2, n - 1);
      AndStep(x, Pow2(n - 1));
      HalfRemainder(x, Pow2(n - 1));
    } else {
      AndZero(x);
    }
  }

  lemma AndZero(x: nat)
    ensures And(x, 0) == 0
  {
  }

  lemma HalfRemainder(x: nat, p: nat)
    requires p >= 1
    ensures x % (2 * p) == x % 2 + 2 * (x / 2 % p)
  {
    var q, r := x / 2 / p, x / 2 % p;
    assert x / 2 == q * p + r;
    assert x == q * (2 * p) + (2 * r + x % 2);
    RemainderUnique(x, 2 * p, q, 2 * r + x % 2);
  }

  lemma {:induction false} Pow2Sum(a: nat, b: nat)
    ensures Pow2(a + b) == Pow2(a) * Pow2(b)
  {
    if a > 0 {
      Pow2Sum(a - 1, b);
    }
  }

  lemma WordIsPow2()
    ensures WORD == Pow2(64)
  {
    assert Pow2(8) == 256;
    Pow2Sum(8, 8);
    Pow2Sum(16, 16);
    Pow2Sum(32, 32);
  }

  /** The width that counts. */
  function Width(validBits: nat): nat { if validBits >= 64 then 64 else validBits }

  lemma DeltaIsRemainder(start: nat, end: nat, validBits: nat)
    requires validBits >= 1
    ensures DeltaTicks(start, end, validBits) == (end - start) % WORD % Pow2(Width(validBits))
  {
    WordIsPow2();
    AndOnes((end - start) % WORD, Width(validBits));
  }

  /** A reading of a counter: right in the low width bits, anything above them. */
  ghost predicate Reads(word: nat, count: nat, width: nat) {
    word < WORD && word % Pow2(width) == count % Pow2(width)
  }

  lemma Collect(q: int, k: int, p: int, s: int)
    ensures q * (k * p) + s * p == (q * k + s) * p
  {
  }

  /** A remainder by a multiple of p keeps the remainder by p. */
  lemma RemainderTwice(x: int, k: nat, p: nat)
    requires k >= 1 && p >= 1 && k * p >= 1
    ensures x % (k * p) % p == x % p
  {
    var m := k * p;
    var q, r := x / m, x % m;
    Collect(q, k, p, r / p);
    assert x == q * m + r && r == r / p * p + r % p;
    RemainderUnique(x, p, q * k + r / p, r % p);
  }

  lemma RemainderOfWord(x: int, w: nat)
    requires w <= 64
    ensures x % WORD % Pow2(w) == x % Pow2(w)
  {
    hide Pow2;
    WordIsPow2();
    Pow2Sum(64 - w, w);
    RemainderTwice(x, Pow2(64 - w), Pow2(w));
  }

  lemma Differences(i: int, j: int, m: int, n: int, p: int)
    ensures j * p - i * p == (n * p - m * p) + ((j - i) - (n - m)) * p
  {
  }

  /** Congruent readings have congruent differences. */
  lemma SameRemainders(a: int, b: int, t: int, u: int, p: nat)
    requires p >= 1 && a % p == t % p && b % p == u % p
    ensures (b - a) % p == (u - t) % p
  {
    var i, j, m, n := a / p, b / p, t / p, u / p;
    Differences(i, j, m, n, p);
    var d, q, k := (u - t) % p, (u - t) / p, (j - i) - (n - m);
    Collect(k, 1, p, q);
    RemainderUnique(b - a, p, k + q, d);
  }

  /** Readings that agree with the true counts only in the valid bits give the exact duration,
      precisely when it is not negative and below one turn of the counter. */
  lemma DeltaExactIff(t0: nat, t1: nat, start: nat, end: nat, validBits: nat)
    requires validBits >= 1
    requires Reads(start, t0, Width(validBits)) && Reads(end, t1, Width(validBits))
    ensures DeltaTicks(start, end, validBits) == t1 - t0 <==> 0 <= t1 - t0 < Pow2(Width(validBits))
  {
    var w := Width(validBits);
    var p := Pow2(w);
    DeltaIsRemainder(start, end, validBits);
    RemainderOfWord(end - start, w);
    SameRemainders(start, end, t0, t1, p);
    if 0 <= t1 - t0 < p {
      RemainderUnique(t1 - t0, p, 0, t1 - t0);
    }
  }

  /** The span tracking. */
  class Tracker {
    var lastEnd: nat
    var haveLast: bool
    var resets: nat

    function Now(): Track
      reads this
    {
      Track(lastEnd, haveLast, resets)
    }

    constructor ()
      ensures Now() == Track(0, false, 0)
    {
      lastEnd, haveLast, resets := 0, false, 0;
    }

    /** Whether the span starts before the previous one's end, counting it if so. */
    method NoteSpan(start: nat, end: nat) returns (nonmonotonic: bool)
      modifies this
      ensures Now() == Step(old(Now()), Span(start, end)) && nonmonotonic == Flags(old(Now()), start)
    {
      nonmonotonic := false;
      if haveLast && start < lastEnd {
        nonmonotonic := true;
        resets := resets + 1;
      }
      lastEnd := end;
      haveLast := true;
    }

    /** configure does this too. */
    method ResetTracking()
      modifies this`lastEnd, this`haveLast
      ensures Now() == Step(old(Now()), Rebase)
    {
      lastEnd := 0;
      haveLast := false;
    }

    method Reset()
      modifies this
      ensures Now() == Step(old(Now()), Zero)
    {
      lastEnd, haveLast, resets := 0, false, 0;
    }
  }

  datatype Track = Track(lastEnd: nat, haveLast: bool, resets: nat)

  /** A span noted, the tracking cleared, or everything zeroed. */
  datatype Op = Span(start: nat, end: nat) | Rebase | Zero

  predicate Flags(t: Track, start: nat) { t.haveLast && start < t.lastEnd }

  function Step(t: Track, op: Op): Track {
    match op
    case Span(start, end) => Track(end, true, t.resets + (if Flags(t, start) then 1 else 0))
    case Rebase => Track(0, false, t.resets)
    case Zero => Track(0, false, 0)
  }

  function After(ops: seq<Op>): Track {
    if ops == [] then Track(0, false, 0) else Step(After(ops[..|ops| - 1]), ops[|ops| - 1])
  }

  /** Where counting begins: after the last zeroing. */
  function Begin(ops: seq<Op>): (b: nat)
    ensures b <= |ops| && (b == 0 || ops[b - 1] == Zero) && forall k :: b <= k < |ops| ==> ops[k] != Zero
  {
    if ops == [] then 0 else if ops[|ops| - 1] == Zero then |ops| else Begin(ops[..|ops| - 1])
  }

  /** A span right after a span that had not ended by its start: nothing came between to clear the
      tracking. */
  predicate Early(ops: seq<Op>, k: nat) {
    0 < k < |ops| && ops[k].Span? && ops[k - 1].Span? && ops[k].start < ops[k - 1].end
  }

  ghost function EarlySpans(ops: seq<Op>): set<nat> {
    set k | Begin(ops) <= k < |ops| && Early(ops, k)
  }

  lemma TrackingIsLast(ops: seq<Op>)
    ensures ops != [] && ops[|ops| - 1].Span? ==> After(ops).haveLast && After(ops).lastEnd == ops[|ops| - 1].end
    ensures ops == [] || !ops[|ops| - 1].Span? ==> !After(ops).haveLast
  {
  }

  lemma LastStep(ops: seq<Op>)
    requires ops != []
    ensures var rest, n := ops[..|ops| - 1], |ops| - 1;
      && (ops[n] == Zero ==> After(ops).resets == 0)
      && (ops[n] != Zero ==> After(ops).resets == After(rest).resets + (if Early(ops, n) then 1 else 0))
  {
    TrackingIsLast(ops[..|ops| - 1]);
  }

  lemma EarlyLast(ops: seq<Op>)
    requires ops != []
    ensures var rest, n := ops[..|ops| - 1], |ops| - 1;
      && (ops[n] == Zero ==> EarlySpans(ops) == {})
      && (ops[n] != Zero ==> n !in EarlySpans(rest))
      && (ops[n] != Zero ==> EarlySpans(ops) == EarlySpans(rest) + (if Early(ops, n) then {n} else {}))
  {
    var rest, n := ops[..|ops| - 1], |ops| - 1;
    assert forall k :: 0 <= k < n ==> Early(ops, k) == Early(rest, k);
  }

  /** Over every sequence, the counter is the number of spans that start before the previous
      span's end, since tracking was last cleared. */
  lemma {:induction false} ResetsCountEarly(ops: seq<Op>)
    ensures After(ops).resets == |EarlySpans(ops)|
  {
    if ops != [] {
      hide After, EarlySpans, Early;
      LastStep(ops);
      EarlyLast(ops);
      ResetsCountEarly(ops[..|ops| - 1]);
    }
  }

  /** Of a clock that never goes back, read exactly at its width, a span within one turn after the
      previous end is counted just when the counter rolled over in between. */
  lemma RollOverIsFlagged(t0: nat, t1: nat, width: nat, resets: nat)
    requires t0 <= t1 < t0 + Pow2(width)
    ensures Flags(Track(t0 % Pow2(width), true, resets), t1 % Pow2(width))
      <==> t1 / Pow2(width) != t0 / Pow2(width)
  {
    hide Pow2;
    var p := Pow2(width);
    var q, r := t0 / p, t0 % p;
    var sum := r + (t1 - t0);
    if sum < p {
      RemainderUnique(t1, p, q, sum);
    } else {
      Collect(1, 1, p, q);
      RemainderUnique(t1, p, q + 1, sum - p);
    }
  }

  predicate Computes(flags: nat) { flags / 2 % 2 == 1 }

  /** The first compute family with timestamps, or else the first compute family, or -1. */
  method PickQueueFamily(flags: seq<nat>, validBits: seq<nat>, n: int) returns (family: int, timingOk: bool)
    requires n <= |flags| && n <= |validBits|
    ensures family == -1 <==> forall i :: 0 <= i < n ==> !Computes(flags[i])
    ensures timingOk <==> exists i :: 0 <= i < n && Computes(flags[i]) && validBits[i] != 0
    ensures family != -1 ==> 0 <= family < n && Computes(flags[family]) && (timingOk ==> validBits[family] != 0)
    ensures forall i :: 0 <= i < family && Computes(flags[i]) ==> timingOk && validBits[i] == 0
  {
    var firstCompute := -1;
    timingOk := false;
    if n <= 0 {
      return -1, false;
    }
    var i := 0;
    while i < n
      invariant 0 <= i <= n && -1 <= firstCompute < i && !timingOk
      invariant forall k :: 0 <= k < i && Computes(flags[k]) ==> validBits[k] == 0 && 0 <= firstCompute <= k
      invariant firstCompute >= 0 ==> Computes(flags[firstCompute])
    {
      if Computes(flags[i]) {
        if firstCompute < 0 {
          firstCompute := i;
        }
        if validBits[i] != 0 {
          return i, true;
        }
      }
      i := i + 1;
    }
    return firstCompute, false;
  }

  const MOLTENVK: nat := 14
  const KOSMICKRISP: nat := 28

  function DriverRank(id: nat): nat {
    if id == KOSMICKRISP then 2 else if id == MOLTENVK then 1 else 0
  }

  /** The driver a forcing text asks for; 0 when it asks for none. */
  function Wanted(force: Option<string>): nat {
    match force
    case None => 0
    case Some(name) => if name == "kosmickrisp" then KOSMICKRISP else if name == "moltenvk" then MOLTENVK else 0
  }

  /** The first device of the forced driver, or -1; unforced, the first of the highest rank. */
  method PickDevice(driverIds: seq<nat>, n: int, force: Option<string>) returns (device: int)
    requires n <= |driverIds|
    ensures device == -1 <==> n <= 0 || (Wanted(force) != 0 && forall i :: 0 <= i < n ==> driverIds[i] != Wanted(force))
    ensures device != -1 ==> 0 <= device < n
    ensures device != -1 && Wanted(force) != 0 ==>
      driverIds[device] == Wanted(force) && forall i :: 0 <= i < device ==> driverIds[i] != Wanted(force)
    ensures device != -1 && Wanted(force) == 0 ==>
      && (forall i :: 0 <= i < n ==> DriverRank(driverIds[i]) <= DriverRank(driverIds[device]))
      && (forall i :: 0 <= i < device ==> DriverRank(driverIds[i]) < DriverRank(driverIds[device]))
  {
    if n <= 0 {
      return -1;
    }
    var want := Wanted(force);
    if want != 0 {
      var i := 0;
      while i < n
        invariant 0 <= i <= n && forall k :: 0 <= k < i ==> driverIds[k] != want
      {
        if driverIds[i] == want {
          return i;
        }
        i := i + 1;
      }
      return -1;
    }
    var best, i := 0, 1;
    while i < n
      invariant 1 <= i <= n && 0 <= best < i
      invariant forall k :: 0 <= k < i ==> DriverRank(driverIds[k]) <= DriverRank(driverIds[best])
      invariant forall k :: 0 <= k < best ==> DriverRank(driverIds[k]) < DriverRank(driverIds[best])
    {
      if DriverRank(driverIds[i]) > DriverRank(driverIds[best]) {
        best := i;
      }
      i := i + 1;
    }
    return best;
  }

  /** The queue flag tested is bit 1. */
  lemma ComputesIff(flags: nat)
    ensures Computes(flags) <==> And(flags, 2) == 2
    ensures And(12, 10) == 8 && And(10, 12) == 8
  {
    if flags > 0 {
      assert And(flags, 2) == 2 * And(flags / 2, 1);
      assert And(flags / 2, 1) == flags / 2 % 2;
    }
  }

  /** A reading that wraps at the word, one that wraps at 36 bits, and a family without ticks. */
  lemma KnownDeltas(start: nat, end: nat)
    ensures DeltaTicks(start, end, 0) == 0
    ensures DeltaTicks(0xFFFF_FFFF_FFFF_FFFE, 3, 64) == 5 && DeltaTicks(0xF_FFFF_FFFE, 3, 36) == 5
    ensures DeltaTicks(0xABCD_000F_FFFF_FFFE, 0x1234_0000_0000_0003, 36) == 5
  {
    hide And, Pow2;
    WordIsPow2();
    assert Pow2(36) == 0x10_0000_0000 by {
      SmallPowers();
    }
    DeltaIsRemainder(0xFFFF_FFFF_FFFF_FFFE, 3, 64);
    DeltaIsRemainder(0xF_FFFF_FFFE, 3, 36);
    DeltaIsRemainder(0xABCD_000F_FFFF_FFFE, 0x1234_0000_0000_0003, 36);
  }

  lemma SmallPowers()
    ensures Pow2(36) == 0x10_0000_0000
  {
    assert Pow2(4) == 16;
    Pow2Sum(4, 4);
    Pow2Sum(8, 8);
    Pow2Sum(16, 16);
    Pow2Sum(32, 4);
  }

  /** Which driver is forced by which text, and which is preferred. */
  lemma Drivers(id: nat, name: string)
    ensures Wanted(Some("kosmickrisp")) == 28 && Wanted(Some("moltenvk")) == 14 && Wanted(None) == 0
    ensures name != "kosmickrisp" && name != "moltenvk" ==> Wanted(Some(name)) == 0
    ensures DriverRank(28) > DriverRank(14) && (id != 28 && id != 14 ==> DriverRank(14) > DriverRank(id))
    ensures id != 28 && id != 14 ==> DriverRank(id) == DriverRank(0)
  {
    assert |"kosmickrisp"| != |"moltenvk"|;
  }
}
