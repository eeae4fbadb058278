/** What several modules use: an optional value, powers of two, facts about
    remainders and sequences. */
module Basics {

  datatype Option<+T> = None | Some(value: T)

  function Pow2(n: nat): (p: nat)
    ensures p >= 1
  {
    if n == 0 then 1 else 2 * Pow2(n - 1)
  }

  lemma MulMono(a: nat, b: nat, u: nat)
    requires a <= b
    ensures a * u <= b * u
  {
  }

  lemma Multiple(d: int, p: nat)
    ensures d >= 1 ==> d * p >= p
    ensures d <= -1 ==> d * p + p <= 0
  {
    if d >= 1 {
      MulMono(1, d, p);
    } else if d <= -1 {
      MulMono(1, -d, p);
    }
  }

  lemma RemainderUnique(x: int, p: nat, q: int, r: nat)
    requires r < p && x == q * p + r
    ensures x % p == r && x / p == q
  {
    var d := x / p - q;
    assert x == x / p * p + x % p;
    assert d * p == r - x % p;
    Multiple(d, p);
  }

  /** The low n bytes of u, the lowest first. */
  function Bytes(u: nat, n: nat): (b: seq<nat>)
    ensures |b| == n && forall i :: 0 <= i < n ==> b[i] < 256
  {
    if n == 0 then [] else [u % 256] + Bytes(u / 256, n - 1)
  }

  function BytesValue(b: seq<nat>): nat {
    if b == [] then 0 else b[0] + 256 * BytesValue(b[1..])
  }

  function Pow256(n: nat): (p: nat)
    ensures p >= 1
  {
    if n == 0 then 1 else 256 * Pow256(n - 1)
  }

  lemma {:induction false} BytesRoundTrip(u: nat, n: nat)
    requires u < Pow256(n)
    ensures BytesValue(Bytes(u, n)) == u
  {
    if n > 0 {
      BytesRoundTrip(u / 256, n - 1);
      assert Bytes(u, n)[1..] == Bytes(u / 256, n - 1);
    }
  }

  lemma Nested(s: nat, t: nat, r: nat, a: nat, b: nat)
    ensures (s * b + t) * a + r == s * (a * b) + (t * a + r)
  {
  }

  lemma BelowProduct(t: nat, r: nat, a: nat, b: nat)
    requires t < b && r < a
    ensures t * a + r < a * b
  {
    MulMono(t + 1, b, a);
  }

  lemma Quotients(x: nat, a: nat, b: nat, q: nat, r: nat, s: nat, t: nat)
    requires r < a && t < b && x == q * a + r && q == s * b + t
    ensures a * b >= 1 && x / (a * b) == s
  {
    Nested(s, t, r, a, b);
    BelowProduct(t, r, a, b);
    RemainderUnique(x, a * b, s, t * a + r);
  }

  lemma Divided(x: nat, a: nat)
    requires a >= 1
    ensures x == x / a * a + x % a && x % a < a
  {
  }

  /** Dividing twice is dividing by the product. */
  lemma DivTwice(x: nat, a: nat, b: nat)
    requires a >= 1 && b >= 1
    ensures a * b >= 1 && x / a / b == x / (a * b)
  {
    var q := x / a;
    Divided(x, a);
    Divided(q, b);
    Quotients(x, a, b, q, x % a, q / b, q % b);
  }

  /** Byte i is the i-th base-256 digit. */
  lemma {:induction false} BytesAt(u: nat, n: nat, i: nat)
    requires i < n
    ensures Bytes(u, n)[i] == u / Pow256(i) % 256
  {
    if i == 0 {
      assert Pow256(0) == 1;
    } else {
      BytesAt(u / 256, n - 1, i - 1);
      DivTwice(u, 256, Pow256(i - 1));
    }
  }

  /** Bytes are the bytes of their value. */
  lemma {:induction false} ValueRoundTrip(b: seq<nat>)
    requires forall i :: 0 <= i < |b| ==> b[i] < 256
    ensures BytesValue(b) < Pow256(|b|) && Bytes(BytesValue(b), |b|) == b
  {
    if b != [] {
      ValueRoundTrip(b[1..]);
      var v := BytesValue(b[1..]);
      RemainderUnique(BytesValue(b), 256, v, b[0]);
    }
  }

  lemma Regroup<T>(a: seq<T>, b: seq<T>, c: seq<T>)
    ensures a + (b + c) == a + b + c
    ensures a + [] == a && [] + c == c
  {
  }

  /** A slice of a slice. */
  lemma SliceOf<T>(w: seq<T>, a: nat, b: nat, s: seq<T>, from: nat, to: nat)
    requires a <= b <= |w| && w[a..b] == s && from <= to <= |s|
    ensures w[a + from..a + to] == s[from..to]
  {
    var part := w[a + from..a + to];
    forall i | 0 <= i < |part|
      ensures part[i] == s[from..to][i]
    {
      assert s[from + i] == w[a + (from + i)];
    }
  }
}
