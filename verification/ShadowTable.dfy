/** The shadow of the non-blocking mode last set on each descriptor: an open-addressed table with
    linear probing, which is to behave as a map of at most CAP entries. */
module ShadowTable {

  const CAP: nat := 1024
  const FREE: int := -1

  /** The 32-bit multiply-mix of the descriptor, reduced to a slot. */
  function Home(fd: int): (h: nat)
    ensures h < CAP
  {
    (fd % 0x1_0000_0000) * 2654435761 % 0x1_0000_0000 % CAP
  }

  /** The i-th slot of the probe sequence from home, wrapping around. */
  function Slot(home: nat, i: nat): (s: nat)
    ensures s < CAP
  {
    (home + i) % CAP
  }

  /** Which probe from home meets slot s. */
  function Probe(home: nat, s: nat): (i: nat)
    requires home < CAP && s < CAP
    ensures i < CAP && Slot(home, i) == s
  {
    if s >= home then s - home else s + CAP - home
  }

  lemma ProbeUnique(home: nat, i: nat)
    requires home < CAP && i < CAP
    ensures Probe(home, Slot(home, i)) == i
  {
  }

  datatype Table = Table(fds: seq<int>, vals: seq<int>) {
    predicate Sized() { |fds| == CAP && |vals| == CAP }
  }

  /** The first probe from i on that meets fd or a free slot; CAP when none does. */
  function Find(fds: seq<int>, fd: int, i: nat): (r: nat)
    requires |fds| == CAP && i <= CAP
    ensures i <= r <= CAP
    ensures forall j :: i <= j < r ==> fds[Slot(Home(fd), j)] != fd && fds[Slot(Home(fd), j)] != FREE
    ensures r < CAP ==> fds[Slot(Home(fd), r)] == fd || fds[Slot(Home(fd), r)] == FREE
    decreases CAP - i
  {
    if i == CAP || fds[Slot(Home(fd), i)] == fd || fds[Slot(Home(fd), i)] == FREE then i else Find(fds, fd, i + 1)
  }

  function Bit(val: int): int { if val != 0 then 1 else 0 }

  /** Records val for fd where the probing stops; a table without such a slot stays as it is. */
  function Put(t: Table, fd: int, val: int): (t': Table)
    requires t.Sized()
    ensures t'.Sized()
  {
    var i := Find(t.fds, fd, 0);
    if i == CAP then t
    else Table(t.fds[Slot(Home(fd), i) := fd], t.vals[Slot(Home(fd), i) := Bit(val)])
  }

  function Get(t: Table, fd: int): int
    requires t.Sized()
  {
    var i := Find(t.fds, fd, 0);
    if i < CAP && t.fds[Slot(Home(fd), i)] == fd then t.vals[Slot(Home(fd), i)] else -1
  }

  ghost predicate Unique(fds: seq<int>) {
    forall s, u :: 0 <= s < u < |fds| && fds[s] != FREE ==> fds[s] != fds[u]
  }

  /** No free slot lies on the way from the home of the entry in slot s to slot s. */
  ghost predicate Reached(fds: seq<int>, s: nat)
    requires |fds| == CAP && s < CAP
  {
    forall j :: 0 <= j < Probe(Home(fds[s]), s) ==> fds[Slot(Home(fds[s]), j)] != FREE
  }

  ghost predicate WellFormed(t: Table) {
    && t.Sized() && Unique(t.fds)
    && (forall s :: 0 <= s < CAP ==> t.vals[s] == 0 || t.vals[s] == 1)
    && forall s :: 0 <= s < CAP && t.fds[s] != FREE ==> Reached(t.fds, s)
  }

  /** The map the table stands for. */
  ghost function Contents(t: Table): map<int, int>
    requires t.Sized() && Unique(t.fds)
  {
    map s | 0 <= s < CAP && t.fds[s] != FREE :: t.fds[s] := t.vals[s]
  }

  /** A held descriptor is where its probe stops. */
  lemma FindHeld(t: Table, s: nat)
    requires WellFormed(t) && s < CAP && t.fds[s] != FREE
    ensures Find(t.fds, t.fds[s], 0) == Probe(Home(t.fds[s]), s)
  {
    var i, j := Find(t.fds, t.fds[s], 0), Probe(Home(t.fds[s]), s);
    assert Reached(t.fds, s);
    assert Slot(Home(t.fds[s]), j) == s;
    if i < j {
      assert t.fds[Slot(Home(t.fds[s]), i)] == t.fds[s];
      assert Slot(Home(t.fds[s]), i) == s;
      ProbeUnique(Home(t.fds[s]), i);
    }
  }

  lemma HeldSlot(t: Table, fd: int) returns (s: nat)
    requires t.Sized() && Unique(t.fds) && fd in Contents(t)
    ensures s < CAP && t.fds[s] == fd && fd != FREE && Contents(t)[fd] == t.vals[s]
  {
    s :| 0 <= s < CAP && t.fds[s] != FREE && t.fds[s] == fd;
  }

  lemma InContents(t: Table, s: nat)
    requires t.Sized() && Unique(t.fds) && s < CAP && t.fds[s] != FREE
    ensures t.fds[s] in Contents(t) && Contents(t)[t.fds[s]] == t.vals[s]
  {
  }

  /** For every descriptor but the marker of a free slot, get is a lookup in the map. */
  lemma GetIsLookup(t: Table, fd: int)
    requires WellFormed(t) && fd != FREE
    ensures Get(t, fd) == if fd in Contents(t) then Contents(t)[fd] else -1
  {
    hide Contents, Find, Home, Slot, Probe;
    var i := Find(t.fds, fd, 0);
    if fd in Contents(t) {
      var s := HeldSlot(t, fd);
      FindHeld(t, s);
    } else if i < CAP && t.fds[Slot(Home(fd), i)] == fd {
      InContents(t, Slot(Home(fd), i));
    }
  }

  function FreeCount(fds: seq<int>): nat {
    if fds == [] then 0 else FreeCount(fds[..|fds| - 1]) + (if fds[|fds| - 1] == FREE then 1 else 0)
  }

  ghost function Held(fds: seq<int>): set<int> {
    set s | 0 <= s < |fds| && fds[s] != FREE :: fds[s]
  }

  /** Held descriptors and free slots make up the table. */
  lemma {:induction false} HeldCount(fds: seq<int>)
    requires Unique(fds)
    ensures |Held(fds)| + FreeCount(fds) == |fds|
  {
    if fds != [] {
      var rest, last := fds[..|fds| - 1], fds[|fds| - 1];
      HeldCount(rest);
      if last == FREE {
        assert Held(fds) == Held(rest);
      } else {
        assert Held(fds) == Held(rest) + {last};
        assert last !in Held(rest);
      }
    }
  }

  lemma {:induction false} FreeCountZero(fds: seq<int>)
    ensures FreeCount(fds) == 0 <==> FREE !in fds
  {
    if fds != [] {
      FreeCountZero(fds[..|fds| - 1]);
      assert fds == fds[..|fds| - 1] + [fds[|fds| - 1]];
    }
  }

  /** The map is full exactly when no slot is free. */
  lemma FullIff(t: Table)
    requires t.Sized() && Unique(t.fds)
    ensures |Contents(t)| <= CAP && (|Contents(t)| == CAP <==> FREE !in t.fds)
  {
    assert Contents(t).Keys == Held(t.fds);
    HeldCount(t.fds);
    FreeCountZero(t.fds);
  }

  /** A probe that finds neither the descriptor nor a free slot has met every slot. */
  lemma FindSeesAll(t: Table, fd: int)
    requires t.Sized() && Find(t.fds, fd, 0) == CAP
    ensures FREE !in t.fds && fd !in t.fds
  {
    forall s | 0 <= s < CAP
      ensures t.fds[s] != FREE && t.fds[s] != fd
    {
      assert Slot(Home(fd), Probe(Home(fd), s)) == s;
    }
  }

  /** Put keeps the table well formed. */
  lemma PutKeeps(t: Table, fd: int, val: int)
    requires WellFormed(t)
    ensures WellFormed(Put(t, fd, val))
  {
    var i := Find(t.fds, fd, 0);
    var t' := Put(t, fd, val);
    if i < CAP {
      PutUnique(t, fd, val);
      forall s | 0 <= s < CAP && t'.fds[s] != FREE
        ensures Reached(t'.fds, s)
      {
        PutReached(t, fd, val, s);
      }
    }
  }

  lemma PutUnique(t: Table, fd: int, val: int)
    requires WellFormed(t) && Find(t.fds, fd, 0) < CAP
    ensures Unique(Put(t, fd, val).fds)
  {
    hide Home, Slot, Probe, Find;
    var at := Slot(Home(fd), Find(t.fds, fd, 0));
    if fd != FREE && t.fds[at] == FREE {
      forall s | 0 <= s < CAP
        ensures t.fds[s] != fd
      {
        if t.fds[s] == fd {
          FindHeld(t, s);
        }
      }
    }
  }

  lemma PutReached(t: Table, fd: int, val: int, s: nat)
    requires WellFormed(t) && Find(t.fds, fd, 0) < CAP && s < CAP && Put(t, fd, val).fds[s] != FREE
    ensures Reached(Put(t, fd, val).fds, s)
  {
    hide Home, Slot, Probe, Find, Unique;
    var i := Find(t.fds, fd, 0);
    var at := Slot(Home(fd), i);
    var t' := Put(t, fd, val);
    if t.fds[s] != FREE {
      assert t.fds[s] == t'.fds[s];
      assert Reached(t.fds, s);
      assert fd == FREE ==> t'.fds == t.fds;
    } else {
      assert s == at && t'.fds[s] == fd;
      ProbeUnique(Home(fd), i);
    }
  }

  /** Put records the mode while there is room or the descriptor is known; a new descriptor on a
      full table is dropped with every other entry as it was. The marker of a free slot is never
      recorded. */
  lemma PutIsUpdate(t: Table, fd: int, val: int)
    requires WellFormed(t)
    ensures WellFormed(Put(t, fd, val))
    ensures Contents(Put(t, fd, val)) ==
      if fd != FREE && (fd in Contents(t) || |Contents(t)| < CAP) then Contents(t)[fd := Bit(val)] else Contents(t)
  {
    hide Home, Slot, Probe, Find, Reached;
    PutKeeps(t, fd, val);
    FullIff(t);
    var i := Find(t.fds, fd, 0);
    var at := Slot(Home(fd), i);
    var t' := Put(t, fd, val);
    if i == CAP {
      FindSeesAll(t, fd);
    } else if fd == FREE {
      assert t' == Table(t.fds, t.vals[at := Bit(val)]);
      FreeWrite(t, at, Bit(val));
    } else {
      UpdatedContents(t, at, fd, Bit(val));
      if t.fds[at] == fd {
        InContents(t, at);
      } else {
        assert FREE in t.fds;
      }
    }
  }

  /** What a free slot's value is does not matter. */
  lemma FreeWrite(t: Table, at: nat, bit: int)
    requires t.Sized() && Unique(t.fds) && at < CAP && t.fds[at] == FREE
    ensures Contents(Table(t.fds, t.vals[at := bit])) == Contents(t)
  {
  }

  lemma UpdatedContents(t: Table, at: nat, fd: int, bit: int)
    requires t.Sized() && Unique(t.fds) && at < CAP && fd != FREE
    requires t.fds[at] == fd || t.fds[at] == FREE
    requires Unique(t.fds[at := fd])
    ensures Contents(Table(t.fds[at := fd], t.vals[at := bit])) == Contents(t)[fd := bit]
  {
    hide Contents, Unique;
    var t' := Table(t.fds[at := fd], t.vals[at := bit]);
    InContents(t', at);
    forall k | k in Contents(t)
      ensures k in Contents(t')
    {
      var s := HeldSlot(t, k);
      InContents(t', s);
    }
    forall k | k in Contents(t')
      ensures k in Contents(t)[fd := bit] && Contents(t')[k] == Contents(t)[fd := bit][k]
    {
      var s := HeldSlot(t', k);
      if s != at {
        InContents(t, s);
        if k == fd {
          SameSlot(t', s, at);
        }
      }
    }
  }

  lemma SameSlot(t: Table, s: nat, u: nat)
    requires t.Sized() && Unique(t.fds) && s < CAP && u < CAP && t.fds[s] == t.fds[u] != FREE
    ensures s == u
  {
  }

  /** The marker of a free slot is the one argument get can be wrong on: it answers -1 for it only
      when no slot is free. */
  lemma GetFaithfulIff(t: Table, fd: int)
    requires WellFormed(t)
    ensures Get(t, fd) == (if fd in Contents(t) then Contents(t)[fd] else -1) <==> fd != FREE || |Contents(t)| == CAP
  {
    hide Home, Slot, Probe, Find, Reached;
    FullIff(t);
    if fd != FREE {
      GetIsLookup(t, fd);
    } else {
      if Find(t.fds, fd, 0) == CAP {
        FindSeesAll(t, fd);
      }
    }
  }

  /** The table before the first call has run. */
  function Empty(): Table {
    Table(seq(CAP, i => FREE), seq(CAP, i => 0))
  }

  lemma EmptyIsEmpty()
    ensures WellFormed(Empty()) && Contents(Empty()) == map[]
  {
  }

  /** The table after a sequence of puts. */
  function After(puts: seq<(int, int)>): (t: Table)
    ensures t.Sized()
  {
    if puts == [] then Empty() else Put(After(puts[..|puts| - 1]), puts[|puts| - 1].0, puts[|puts| - 1].1)
  }

  /** The mode last put for fd; -1 when there was none. */
  function Last(puts: seq<(int, int)>, fd: int): int {
    if puts == [] then -1
    else if puts[|puts| - 1].0 == fd then Bit(puts[|puts| - 1].1)
    else Last(puts[..|puts| - 1], fd)
  }

  /** The first CAP distinct descriptors put. */
  function Admitted(puts: seq<(int, int)>): (a: set<int>)
    ensures |a| <= CAP && FREE !in a
  {
    if puts == [] then {}
    else
      var a, fd := Admitted(puts[..|puts| - 1]), puts[|puts| - 1].0;
      if fd != FREE && (fd in a || |a| < CAP) then a + {fd} else a
  }

  /** After any puts at all, the map holds exactly the admitted descriptors, each with the mode
      last put for it. */
  lemma {:induction false} RunIsMap(puts: seq<(int, int)>)
    ensures WellFormed(After(puts)) && Contents(After(puts)).Keys == Admitted(puts)
    ensures forall fd :: fd in Admitted(puts) ==> Contents(After(puts))[fd] == Last(puts, fd)
  {
    hide Reached, Unique, Contents, Put;
    if puts == [] {
      EmptyIsEmpty();
    } else {
      var rest, fd := puts[..|puts| - 1], puts[|puts| - 1].0;
      RunIsMap(rest);
      PutIsUpdate(After(rest), fd, puts[|puts| - 1].1);
      SizeOfKeys(Contents(After(rest)));
    }
  }

  lemma SizeOfKeys(m: map<int, int>)
    ensures |m.Keys| == |m|
  {
  }

  ghost function Fds(puts: seq<(int, int)>): set<int> {
    set p | p in puts && p.0 != FREE :: p.0
  }

  lemma FdsSplit(puts: seq<(int, int)>)
    requires puts != []
    ensures var rest, fd := puts[..|puts| - 1], puts[|puts| - 1].0;
      Fds(puts) == if fd == FREE then Fds(rest) else Fds(rest) + {fd}
  {
    var rest, last := puts[..|puts| - 1], puts[|puts| - 1];
    assert puts == rest + [last];
    assert forall p :: p in puts <==> p in rest || p == last;
    if last.0 != FREE {
      assert last in puts;
    }
  }

  /** As long as no more than CAP descriptors were put, all are admitted. */
  lemma {:induction false} AllAdmitted(puts: seq<(int, int)>)
    requires |Fds(puts)| <= CAP
    ensures Admitted(puts) == Fds(puts)
  {
    if puts != [] {
      var rest, fd := puts[..|puts| - 1], puts[|puts| - 1].0;
      FdsSplit(puts);
      if fd != FREE && fd !in Fds(rest) {
        assert |Fds(puts)| == |Fds(rest)| + 1;
      } else {
        assert Fds(puts) == Fds(rest);
      }
      AllAdmitted(rest);
    }
  }

  lemma {:induction false} LastNone(puts: seq<(int, int)>, fd: int)
    requires fd !in Fds(puts) && fd != FREE
    ensures Last(puts, fd) == -1
  {
    if puts != [] {
      FdsSplit(puts);
      LastNone(puts[..|puts| - 1], fd);
    }
  }

  /** For up to CAP distinct descriptors, get returns the mode last put, or -1. */
  lemma GetReturnsLast(puts: seq<(int, int)>, fd: int)
    requires |Fds(puts)| <= CAP && fd != FREE
    ensures Get(After(puts), fd) == Last(puts, fd)
  {
    hide Reached, Unique, Contents, Get, Admitted, Last, Fds;
    RunIsMap(puts);
    AllAdmitted(puts);
    GetIsLookup(After(puts), fd);
    if fd !in Fds(puts) {
      LastNone(puts, fd);
    }
  }

  /** Descriptors spread by the product with 2654435761, negative ones as unsigned 32-bit words, over
      1024 slots. */
  lemma HomesAre()
    ensures CAP == 1024 && FREE == -1 && Home(0) == 0 && Home(1) == 433 && Home(5) == 117 && Home(-2) == 158
  {
    HomeOf(1, 1, 0, 2654435761);
    HomeOf(5, 5, 3, 387276917);
    HomeOf(-2, 4294967294, 2654435759, 3281063070);
  }

  /** The mix of one descriptor, as the 32-bit word u, with what its product leaves above 32 bits. */
  lemma HomeOf(fd: int, u: nat, high: nat, low: nat)
    requires fd % 0x1_0000_0000 == u && low < 0x1_0000_0000 && u * 2654435761 == high * 0x1_0000_0000 + low
    ensures Home(fd) == low % 1024
  {
  }

  /** Probing goes on to the next slot, and from the last to slot 0. */
  lemma SlotsAre(home: nat, i: nat)
    requires home < 1024 && i < 1024
    ensures Slot(home, i) == if home + i < 1024 then home + i else home + i - 1024
    ensures Probe(home, home) == 0
  {
  }

  /** Two descriptors of one home: the second is stored one slot on. */
  lemma Collision()
    ensures var t := After([(5, 7), (1029, 0)]);
      && t.fds[117] == 5 && t.vals[117] == 1 && t.fds[118] == 1029 && t.vals[118] == 0
      && forall s :: 0 <= s < 1024 && s != 117 && s != 118 ==> t.fds[s] == -1
  {
    hide Home;
    HomesAre();
    HomeOf(1029, 1029, 635, 4110165109);
    var a := [(5, 7)];
    var b := [(5, 7), (1029, 0)];
    assert b[..1] == a && a[..0] == [];
    assert After(a) == Put(Empty(), 5, 7);
    assert Find(After(a).fds, 1029, 1) == 1;
  }

  /** One more put, told in the modes themselves: the descriptor then answers 0 for a zero mode and 1
      for any other, and every other descriptor answers as before. */
  lemma PutThenGet(puts: seq<(int, int)>, fd: int, val: int, other: int)
    requires |Fds(puts + [(fd, val)])| <= 1024 && fd != -1 && other != -1 && other != fd
    ensures Get(After(puts + [(fd, val)]), fd) == if val == 0 then 0 else 1
    ensures Get(After(puts + [(fd, val)]), other) == Get(After(puts), other)
  {
    hide Get, After, Fds, Put;
    var more := puts + [(fd, val)];
    assert more[..|more| - 1] == puts;
    FdsSplit(more);
    if fd in Fds(puts) {
      assert Fds(more) == Fds(puts);
    } else {
      assert |Fds(more)| == |Fds(puts)| + 1;
    }
    GetReturnsLast(more, fd);
    GetReturnsLast(more, other);
    GetReturnsLast(puts, other);
  }

  /** A descriptor never put answers -1. */
  lemma GetUnknown(puts: seq<(int, int)>, fd: int)
    requires |Fds(puts)| <= 1024 && fd != -1 && forall i :: 0 <= i < |puts| ==> puts[i].0 != fd
    ensures Get(After(puts), fd) == -1
  {
    hide Get, After;
    assert fd !in Fds(puts);
    GetReturnsLast(puts, fd);
    LastNone(puts, fd);
  }

  /** The two global arrays and the flag that says they have been set up. */
  class Shadow {
    const fds: array<int>
    const vals: array<int>
    var ready: bool

    ghost predicate Valid()
      reads this, fds, vals
    {
      && fds != vals && fds.Length == CAP && vals.Length == CAP
      && (ready ==> WellFormed(Table(fds[..], vals[..])))
      && (!ready ==> forall i :: 0 <= i < CAP ==> vals[i] == 0)
    }

    ghost function Now(): Table
      reads this, fds, vals
    {
      if ready then Table(fds[..], vals[..]) else Empty()
    }

    constructor ()
      ensures Valid() && fresh(fds) && fresh(vals) && Now() == Empty()
    {
      fds := new int[CAP](i => 0);
      vals := new int[CAP](i => 0);
      ready := false;
    }

    method EnsureReady()
      requires Valid()
      modifies this`ready, fds
      ensures Valid() && ready && Now() == old(Now())
    {
      if ready {
        return;
      }
      var i := 0;
      while i < CAP
        invariant i <= CAP && forall j :: 0 <= j < i ==> fds[j] == FREE
      {
        fds[i] := FREE;
        i := i + 1;
      }
      ready := true;
      assert Table(fds[..], vals[..]) == Empty();
      EmptyIsEmpty();
    }

    /** Records val, as 0 or 1, for fd: the map gains or changes that one entry, or, when full and
        fd is new, stays as it is. */
    method Record(fd: int, val: int)
      requires Valid()
      modifies this`ready, fds, vals
      ensures Valid() && Now() == Put(old(Now()), fd, val)
    {
      hide WellFormed, Home, Empty;
      EnsureReady();
      ghost var t := Now();
      PutKeeps(t, fd, val);
      var start := Home(fd);
      var i := 0;
      while i < CAP
        invariant i <= CAP && Find(t.fds, fd, 0) == Find(t.fds, fd, i)
        invariant ready && fds[..] == t.fds && vals[..] == t.vals
      {
        var s := Slot(start, i);
        if fds[s] == fd || fds[s] == FREE {
          fds[s] := fd;
          vals[s] := Bit(val);
          return;
        }
        i := i + 1;
      }
    }

    /** The mode recorded for fd, or -1. */
    method Query(fd: int) returns (out: int)
      requires Valid()
      modifies this`ready, fds
      ensures Valid() && Now() == old(Now()) && out == Get(Now(), fd)
    {
      hide WellFormed, Home, Empty;
      EnsureReady();
      ghost var t := Now();
      out := -1;
      var start := Home(fd);
      var i := 0;
      while i < CAP
        invariant i <= CAP && Find(t.fds, fd, 0) == Find(t.fds, fd, i) && out == -1
      {
        var s := Slot(start, i);
        if fds[s] == fd {
          return vals[s];
        }
        if fds[s] == FREE {
          return;
        }
        i := i + 1;
      }
    }
  }
}
