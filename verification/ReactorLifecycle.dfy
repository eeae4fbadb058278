/** The reactor's lazy start and its shutdown (the POSIX branch): a latch and the two ends of a
    wake pipe, changed in critical sections that any number of threads interleave. */
module ReactorLifecycle {
  import opened Basics

  const CLOSED: int := -1

  /** What the process asked the system for. */
  datatype Event = Opened(fd: int) | Shut(fd: int) | Wrote(fd: int)

  /** What the mutex guards, and the calls made so far. */
  datatype Global = Global(started: bool, readFd: int, writeFd: int, log: seq<Event>)

  /** What a pipe() call gave: two different descriptors, or a failure. */
  predicate PipeResult(pipe: Option<(int, int)>) {
    pipe.Some? ==> pipe.value.0 >= 0 && pipe.value.1 >= 0 && pipe.value.0 != pipe.value.1
  }

  /** Opens the pipe unless one is open; a failure leaves both ends as they are. */
  function Open(g: Global, pipe: Option<(int, int)>): Global {
    if g.readFd >= 0 || pipe.None? then g
    else g.(readFd := pipe.value.0, writeFd := pipe.value.1,
            log := g.log + [Opened(pipe.value.0)] + [Opened(pipe.value.1)])
  }

  /** init's one critical section. */
  function Start(g: Global, pipe: Option<(int, int)>): Global {
    if g.started then g else Open(g, pipe).(started := true)
  }

  function ShutEnd(log: seq<Event>, fd: int): seq<Event> {
    if fd >= 0 then log + [Shut(fd)] else log
  }

  /** Closes whichever ends are open. */
  function Close(g: Global): Global {
    g.(readFd := if g.readFd >= 0 then CLOSED else g.readFd, writeFd := if g.writeFd >= 0 then CLOSED else g.writeFd,
       log := ShutEnd(ShutEnd(g.log, g.readFd), g.writeFd))
  }

  /** shutdown's second critical section; nothing is checked again. */
  function Stop(g: Global): Global {
    Close(g.(started := false))
  }

  /** A thread between its critical sections: about to write a wake byte to the descriptor it read
      under the mutex, and, in a shutdown, to enter the second section after that. */
  datatype Phase = Idle | Waking(wfd: int, closing: bool) | Closing

  /** Where shutdown's first section leaves its thread: done, about to wake, or past that. */
  function EnterPhase(g: Global): Phase {
    if !g.started then Idle else if g.writeFd >= 0 then Waking(g.writeFd, true) else Closing
  }

  /** Where wake's section leaves its thread. */
  function PokePhase(g: Global): Phase {
    if g.writeFd >= 0 then Waking(g.writeFd, false) else Idle
  }

  datatype State = State(g: Global, threads: seq<Phase>)

  datatype Op =
    | Init(t: nat, pipe: Option<(int, int)>)
    | Enter(t: nat)   // shutdown's first section
    | Poke(t: nat)    // wake's section
    | Write(t: nat)   // the write outside the mutex
    | Leave(t: nat)   // shutdown's second section

  predicate Can(s: State, op: Op) {
    op.t < |s.threads| &&
    match op
    case Init(t, pipe) => s.threads[t].Idle? && PipeResult(pipe)
    case Enter(t) => s.threads[t].Idle?
    case Poke(t) => s.threads[t].Idle?
    case Write(t) => s.threads[t].Waking?
    case Leave(t) => s.threads[t].Closing?
  }

  function Apply(s: State, op: Op): (s': State)
    requires Can(s, op)
    ensures |s'.threads| == |s.threads|
  {
    match op
    case Init(t, pipe) => s.(g := Start(s.g, pipe))
    case Enter(t) => s.(threads := s.threads[t := EnterPhase(s.g)])
    case Poke(t) => s.(threads := s.threads[t := PokePhase(s.g)])
    case Write(t) =>
      State(s.g.(log := s.g.log + [Wrote(s.threads[t].wfd)]),
            s.threads[t := if s.threads[t].closing then Closing else Idle])
    case Leave(t) => State(Stop(s.g), s.threads[t := Idle])
  }

  function Ends(g: Global): set<int> {
    (if g.readFd >= 0 then {g.readFd} else {}) + (if g.writeFd >= 0 then {g.writeFd} else {})
  }

  /** How often fd was opened, less how often it was closed. */
  function Balance(log: seq<Event>, fd: int): int {
    if log == [] then 0
    else
      var e := log[|log| - 1];
      Balance(log[..|log| - 1], fd) + (if e == Opened(fd) then 1 else if e == Shut(fd) then -1 else 0)
  }

  /** At every moment, each descriptor has been closed as often as it was opened, or once less. */
  ghost predicate Bracketed(log: seq<Event>) {
    forall n: nat, fd :: n <= |log| ==> 0 <= Balance(log[..n], fd) <= 1
  }

  ghost predicate Inv(g: Global) {
    && ((g.readFd == CLOSED && g.writeFd == CLOSED) || (g.readFd >= 0 && g.writeFd >= 0 && g.readFd != g.writeFd))
    && (g.readFd >= 0 ==> g.started)
    && Bracketed(g.log)
    && forall fd :: Balance(g.log, fd) == if fd in Ends(g) then 1 else 0
  }

  function Fresh(): Global { Global(false, CLOSED, CLOSED, []) }

  lemma FreshHolds()
    ensures Inv(Fresh())
  {
  }

  lemma BalanceAppend(log: seq<Event>, e: Event, fd: int)
    ensures Balance(log + [e], fd) ==
      Balance(log, fd) + (if e == Opened(fd) then 1 else if e == Shut(fd) then -1 else 0)
  {
    assert (log + [e])[..|log|] == log;
  }

  /** An event that opens a closed descriptor, closes an open one, or does neither. */
  lemma BracketedAppend(log: seq<Event>, e: Event)
    requires Bracketed(log)
    requires e.Opened? ==> Balance(log, e.fd) == 0
    requires e.Shut? ==> Balance(log, e.fd) == 1
    ensures Bracketed(log + [e])
  {
    hide Balance;
    forall n: nat, fd | n <= |log + [e]|
      ensures 0 <= Balance((log + [e])[..n], fd) <= 1
    {
      if n <= |log| {
        assert (log + [e])[..n] == log[..n];
      } else {
        assert (log + [e])[..n] == log + [e];
        assert log[..|log|] == log;
        BalanceAppend(log, e, fd);
      }
    }
  }

  lemma OpenKeeps(g: Global, pipe: Option<(int, int)>)
    requires Inv(g) && PipeResult(pipe)
    ensures Inv(Open(g, pipe).(started := true))
  {
    hide Balance, Bracketed;
    if g.readFd < 0 && pipe.Some? {
      var (r, w) := pipe.value;
      var log := g.log + [Opened(r)];
      BracketedAppend(g.log, Opened(r));
      BalanceAppend(g.log, Opened(r), w);
      BracketedAppend(log, Opened(w));
      forall fd
        ensures Balance(log + [Opened(w)], fd) == if fd in Ends(Open(g, pipe)) then 1 else 0
      {
        BalanceAppend(g.log, Opened(r), fd);
        BalanceAppend(log, Opened(w), fd);
      }
    }
  }

  lemma StopKeeps(g: Global)
    requires Inv(g)
    ensures Inv(Stop(g)) && Ends(Stop(g)) == {}
  {
    hide Balance, Bracketed;
    if g.readFd >= 0 {
      var log := g.log + [Shut(g.readFd)];
      BracketedAppend(g.log, Shut(g.readFd));
      BalanceAppend(g.log, Shut(g.readFd), g.writeFd);
      BracketedAppend(log, Shut(g.writeFd));
      forall fd
        ensures Balance(log + [Shut(g.writeFd)], fd) == 0
      {
        BalanceAppend(g.log, Shut(g.readFd), fd);
        BalanceAppend(log, Shut(g.writeFd), fd);
      }
    }
  }

  lemma WriteKeeps(g: Global, wfd: int)
    requires Inv(g)
    ensures Inv(g.(log := g.log + [Wrote(wfd)]))
  {
    hide Balance, Bracketed;
    BracketedAppend(g.log, Wrote(wfd));
    forall fd
      ensures Balance(g.log + [Wrote(wfd)], fd) == if fd in Ends(g) then 1 else 0
    {
      BalanceAppend(g.log, Wrote(wfd), fd);
    }
  }

  /** Every step of every thread keeps the invariant. */
  lemma StepKeeps(s: State, op: Op)
    requires Inv(s.g) && Can(s, op)
    ensures Inv(Apply(s, op).g)
  {
    hide Inv, Stop, Open;
    match op
    case Init(t, pipe) => OpenKeeps(s.g, pipe);
    case Write(t) => WriteKeeps(s.g, s.threads[t].wfd);
    case Leave(t) => StopKeeps(s.g);
    case _ =>
  }

  ghost predicate Runs(s: State, ops: seq<Op>)
    decreases |ops|
  {
    ops == [] || (Can(s, ops[0]) && Runs(Apply(s, ops[0]), ops[1..]))
  }

  function After(s: State, ops: seq<Op>): State
    requires Runs(s, ops)
    decreases |ops|
  {
    if ops == [] then s else After(Apply(s, ops[0]), ops[1..])
  }

  /** Under every interleaving: the two ends are both open or both closed, open ends mean the latch
      is set, each opened end is closed at most once, and with the latch clear all are closed. */
  lemma {:induction false} RunKeeps(s: State, ops: seq<Op>)
    requires Inv(s.g) && Runs(s, ops)
    ensures var g := After(s, ops).g;
      && Inv(g) && (g.readFd >= 0 <==> g.writeFd >= 0) && (g.readFd >= 0 ==> g.started)
      && Bracketed(g.log) && (!g.started ==> forall fd :: Balance(g.log, fd) == 0)
    decreases |ops|
  {
    hide Balance, Bracketed, Apply, Can;
    if ops != [] {
      StepKeeps(s, ops[0]);
      RunKeeps(Apply(s, ops[0]), ops[1..]);
    }
  }

  /** In a bracketed log, two closings of a descriptor have an opening of it between them. */
  lemma ClosedOncePerOpening(log: seq<Event>, i: nat, j: nat, fd: int)
    requires Bracketed(log) && i < j < |log| && log[i] == Shut(fd) && log[j] == Shut(fd)
    ensures exists k :: i < k < j && log[k] == Opened(fd)
  {
    BalanceAt(log, i, fd);
    BalanceAt(log, j, fd);
    assert Balance(log[..i], fd) <= 1 && 0 <= Balance(log[..j + 1], fd);
    if forall k :: i < k < j ==> log[k] != Opened(fd) {
      NoOpening(log, i + 1, j, fd);
    }
  }

  lemma BalanceAt(log: seq<Event>, i: nat, fd: int)
    requires i < |log|
    ensures Balance(log[..i + 1], fd) ==
      Balance(log[..i], fd) + (if log[i] == Opened(fd) then 1 else if log[i] == Shut(fd) then -1 else 0)
  {
    assert log[..i + 1] == log[..i] + [log[i]];
    BalanceAppend(log[..i], log[i], fd);
  }

  lemma {:induction false} NoOpening(log: seq<Event>, i: nat, j: nat, fd: int)
    requires i <= j <= |log| && forall k :: i <= k < j ==> log[k] != Opened(fd)
    ensures Balance(log[..j], fd) <= Balance(log[..i], fd)
    decreases j - i
  {
    if i < j {
      NoOpening(log, i, j - 1, fd);
      BalanceAt(log, j - 1, fd);
    }
  }

  /** The steps are other threads' than t, and no pipe call hands out fd again. */
  ghost predicate Apart(ops: seq<Op>, t: nat, fd: int) {
    forall i :: 0 <= i < |ops| ==>
      && ops[i].t != t
      && (ops[i].Init? && ops[i].pipe.Some? ==> ops[i].pipe.value.0 != fd && ops[i].pipe.value.1 != fd)
  }

  ghost predicate SomeLeave(ops: seq<Op>) {
    exists i :: 0 <= i < |ops| && ops[i].Leave?
  }

  lemma StepApart(s: State, op: Op, t: nat, fd: int)
    requires Inv(s.g) && Can(s, op) && t < |s.threads| && Apart([op], t, fd)
    ensures Apply(s, op).threads[t] == s.threads[t]
    ensures op.Leave? ==> fd !in Ends(Apply(s, op).g) || fd < 0
    ensures !op.Leave? && fd >= 0 ==> (fd in Ends(Apply(s, op).g) <==> fd in Ends(s.g))
  {
    assert [op][0] == op;
    assert op.t != t;
  }

  lemma {:induction false} StaysClosed(s: State, ops: seq<Op>, t: nat, fd: int)
    requires Inv(s.g) && Runs(s, ops) && t < |s.threads| && Apart(ops, t, fd) && fd >= 0 && fd !in Ends(s.g)
    ensures fd !in Ends(After(s, ops).g) && |After(s, ops).threads| == |s.threads|
    ensures After(s, ops).threads[t] == s.threads[t]
    decreases |ops|
  {
    hide Inv, Apply, Can, Ends;
    if ops != [] {
      ApartParts(ops, t, fd);
      StepApart(s, ops[0], t, fd);
      StepKeeps(s, ops[0]);
      StaysClosed(Apply(s, ops[0]), ops[1..], t, fd);
    }
  }

  lemma ApartParts(ops: seq<Op>, t: nat, fd: int)
    requires Apart(ops, t, fd) && ops != []
    ensures Apart([ops[0]], t, fd) && Apart(ops[1..], t, fd)
  {
  }

  /** Between the moment a thread reads an open end under the mutex and its write, the end stays
      open exactly when no shutdown ran its second section, as long as the system does not hand
      the number out again. */
  lemma {:induction false} WakeReachesOpenIff(s: State, ops: seq<Op>, t: nat, fd: int)
    requires Inv(s.g) && Runs(s, ops) && t < |s.threads| && Apart(ops, t, fd)
    requires s.threads[t].Waking? && s.threads[t].wfd == fd && fd in Ends(s.g)
    ensures |After(s, ops).threads| == |s.threads| && After(s, ops).threads[t] == s.threads[t]
    ensures fd in Ends(After(s, ops).g) <==> !SomeLeave(ops)
    decreases |ops|
  {
    hide Inv, Apply, Can;
    if ops != [] {
      ApartParts(ops, t, fd);
      StepApart(s, ops[0], t, fd);
      StepKeeps(s, ops[0]);
      if ops[0].Leave? {
        hide Ends;
        StaysClosed(Apply(s, ops[0]), ops[1..], t, fd);
      } else {
        WakeReachesOpenIff(Apply(s, ops[0]), ops[1..], t, fd);
        if SomeLeave(ops) {
          var i :| 0 <= i < |ops| && ops[i].Leave?;
          assert ops[1..][i - 1] == ops[i];
        }
      }
    }
  }

  /** The condition is needed: of two overlapping shutdowns, the slower writes its wake byte to an
      end the other has closed. */
  lemma OverlappingShutdowns() returns (ops: seq<Op>)
    ensures var s := State(Fresh(), [Idle, Idle]);
      Runs(s, ops) && After(s, ops).g.log == [Opened(3), Opened(4), Wrote(4), Shut(3), Shut(4), Wrote(4)]
  {
    ops := [Init(0, Some((3, 4))), Enter(0), Enter(1), Write(0), Leave(0), Write(1)];
    var s0 := State(Fresh(), [Idle, Idle]);
    var s1 := Apply(s0, ops[0]);
    assert s1 == State(Global(true, 3, 4, [Opened(3), Opened(4)]), [Idle, Idle]);
    var s2 := Apply(s1, ops[1]);
    assert s2 == State(s1.g, [Waking(4, true), Idle]);
    var s3 := Apply(s2, ops[2]);
    assert s3 == State(s1.g, [Waking(4, true), Waking(4, true)]);
    var s4 := Apply(s3, ops[3]);
    assert s4 == State(s1.g.(log := [Opened(3), Opened(4), Wrote(4)]), [Closing, Waking(4, true)]);
    var s5 := Apply(s4, ops[4]);
    assert s5 == State(Global(false, -1, -1, [Opened(3), Opened(4), Wrote(4), Shut(3), Shut(4)]),
                       [Idle, Waking(4, true)]);
    var s6 := Apply(s5, ops[5]);
    assert s6.g.log == [Opened(3), Opened(4), Wrote(4), Shut(3), Shut(4), Wrote(4)];
    SixSteps(s0, ops, s1, s2, s3, s4, s5, s6);
  }

  lemma SixSteps(s0: State, ops: seq<Op>, s1: State, s2: State, s3: State, s4: State, s5: State, s6: State)
    requires |ops| == 6
    requires Can(s0, ops[0]) && Apply(s0, ops[0]) == s1 && Can(s1, ops[1]) && Apply(s1, ops[1]) == s2
    requires Can(s2, ops[2]) && Apply(s2, ops[2]) == s3 && Can(s3, ops[3]) && Apply(s3, ops[3]) == s4
    requires Can(s4, ops[4]) && Apply(s4, ops[4]) == s5 && Can(s5, ops[5]) && Apply(s5, ops[5]) == s6
    ensures Runs(s0, ops) && After(s0, ops) == s6
  {
    hide Can, Apply;
    var o1, o2, o3, o4, o5 := ops[1..], ops[2..], ops[3..], ops[4..], ops[5..];
    assert o1[1..] == o2 && o2[1..] == o3 && o3[1..] == o4 && o4[1..] == o5 && o5[1..] == [];
    assert Runs(s6, []) && After(s6, []) == s6;
    assert Runs(s5, o5) && After(s5, o5) == s6;
    assert Runs(s4, o4) && After(s4, o4) == s6;
    assert Runs(s3, o3) && After(s3, o3) == s6;
    assert Runs(s2, o2) && After(s2, o2) == s6;
    assert Runs(s1, o1) && After(s1, o1) == s6;
  }

  /** The globals, changed only inside the critical sections below. */
  class Lifecycle {
    var started: bool
    var readFd: int
    var writeFd: int
    var log: seq<Event>

    function Now(): Global
      reads this
    {
      Global(started, readFd, writeFd, log)
    }

    constructor ()
      ensures Now() == Fresh()
    {
      started, readFd, writeFd, log := false, CLOSED, CLOSED, [];
    }

    method WakePipeOpenLocked(pipe: Option<(int, int)>) returns (ok: bool)
      modifies this
      ensures Now() == Open(old(Now()), pipe) && (ok <==> old(readFd) >= 0 || pipe.Some?)
    {
      if readFd >= 0 {
        return true;
      }
      if pipe.None? {
        return false;
      }
      log := log + [Opened(pipe.value.0)] + [Opened(pipe.value.1)];
      readFd := pipe.value.0;
      writeFd := pipe.value.1;
      return true;
    }

    method WakePipeCloseLocked()
      modifies this
      ensures Now() == Close(old(Now()))
    {
      if readFd >= 0 {
        log := log + [Shut(readFd)];
        readFd := CLOSED;
      }
      if writeFd >= 0 {
        log := log + [Shut(writeFd)];
        writeFd := CLOSED;
      }
    }

    method Init(pipe: Option<(int, int)>)
      modifies this
      ensures Now() == Start(old(Now()), pipe)
    {
      if !started {
        var _ := WakePipeOpenLocked(pipe);
        started := true;
      }
    }

    /** shutdown up to its first unlock: whether it goes on, and the end to write to; together the
        phase the Enter step puts the thread in. */
    method ShutdownEnter() returns (go: bool, wfd: int)
      ensures go == started
      ensures EnterPhase(Now()) == if !go then Idle else if wfd >= 0 then Waking(wfd, true) else Closing
    {
      if !started {
        return false, CLOSED;
      }
      return true, writeFd;
    }

    /** wake up to its unlock: the end to write to, or a negative number. */
    method WakeEnter() returns (wfd: int)
      ensures PokePhase(Now()) == if wfd >= 0 then Waking(wfd, false) else Idle
    {
      return writeFd;
    }

    /** shutdown from its second lock on. */
    method ShutdownLeave()
      modifies this
      ensures Now() == Stop(old(Now()))
    {
      started := false;
      WakePipeCloseLocked();
    }
  }

  lemma RunsBefore(s: State, op: Op, rest: seq<Op>, s': State, end: State)
    requires Can(s, op) && Apply(s, op) == s' && Runs(s', rest) && After(s', rest) == end
    ensures Runs(s, [op] + rest) && After(s, [op] + rest) == end
  {
    hide Can, Apply;
    assert ([op] + rest)[0] == op && ([op] + rest)[1..] == rest;
  }

  /** A pipe that fails leaves the reactor started without one: a later start changes nothing, a
      wake has nothing to write to, and a shutdown closes nothing. The next start opens a pipe. */
  lemma FailedPipe(r: int, w: int) returns (ops: seq<Op>)
    requires PipeResult(Some((r, w)))
    ensures ops == [Init(0, None), Init(0, Some((r, w))), Poke(0), Enter(0), Leave(0)]
                   + [Init(0, Some((r, w))), Poke(0), Write(0)]
    ensures var s := State(Fresh(), [Idle]);
      Runs(s, ops) && After(s, ops) == State(Global(true, r, w, [Opened(r), Opened(w), Wrote(w)]), [Idle])
  {
    var bare := Global(true, -1, -1, []);
    var open := Global(true, r, w, [Opened(r), Opened(w)]);
    var end := State(Global(true, r, w, [Opened(r), Opened(w), Wrote(w)]), [Idle]);
    assert Apply(State(open, [Waking(w, false)]), Write(0)) == end;
    assert Runs(end, []) && After(end, []) == end;
    ops := [];
    RunsBefore(State(open, [Waking(w, false)]), Write(0), ops, end, end);
    ops := [Write(0)] + ops;
    RunsBefore(State(open, [Idle]), Poke(0), ops, State(open, [Waking(w, false)]), end);
    ops := [Poke(0)] + ops;
    RunsBefore(State(Fresh(), [Idle]), Init(0, Some((r, w))), ops, State(open, [Idle]), end);
    ops := [Init(0, Some((r, w)))] + ops;
    RunsBefore(State(bare, [Closing]), Leave(0), ops, State(Fresh(), [Idle]), end);
    ops := [Leave(0)] + ops;
    RunsBefore(State(bare, [Idle]), Enter(0), ops, State(bare, [Closing]), end);
    ops := [Enter(0)] + ops;
    RunsBefore(State(bare, [Idle]), Poke(0), ops, State(bare, [Idle]), end);
    ops := [Poke(0)] + ops;
    RunsBefore(State(bare, [Idle]), Init(0, Some((r, w))), ops, State(bare, [Idle]), end);
    ops := [Init(0, Some((r, w)))] + ops;
    RunsBefore(State(Fresh(), [Idle]), Init(0, None), ops, State(bare, [Idle]), end);
    ops := [Init(0, None)] + ops;
  }

  /** A shutdown of what was never started does nothing. */
  lemma NotStarted(t: nat, s: State)
    requires t < |s.threads| && s.threads[t] == Idle && !s.g.started
    ensures Can(s, Enter(t)) && Apply(s, Enter(t)) == s
  {
  }
}
