/** Execution epochs: a bounded stack of saved registry extents. Popping to a depth rolls every
    registry, the backend selection, the debug table and the at-exit chain back to what they were
    when that epoch was pushed. */
module Epoch {

  /** An entry of a registry that owns its name; 0 stands for NULL. */
  datatype Entry = Entry(name: nat, obj: nat)
  const EMPTY: Entry := Entry(0, 0)

  /** An array and how much of it is in use. */
  datatype Registry<T> = Registry(items: seq<T>, count: nat) {
    predicate Valid() { count <= |items| }
  }

  function Used<T>(r: Registry<T>): seq<T>
    requires r.Valid()
  {
    r.items[..r.count]
  }

  function Added<T>(r: Registry<T>, x: T): (r': Registry<T>)
    requires r.count < |r.items|
  {
    Registry(r.items[r.count := x], r.count + 1)
  }

  /** The entries from a on, up to b, cleared. */
  function Cleared<T>(es: seq<T>, a: nat, b: nat, zero: T): (r: seq<T>)
    requires b <= |es|
    ensures |r| == |es|
  {
    seq(|es|, i requires 0 <= i < |es| => if a <= i < b then zero else es[i])
  }

  /** Only the first n entries in use, the dropped ones cleared. */
  function CutTo<T>(r: Registry<T>, n: nat, zero: T): (r': Registry<T>)
    requires r.Valid()
  {
    Registry(Cleared(r.items, n, r.count, zero), n)
  }

  lemma AddedUsed<T>(r: Registry<T>, x: T)
    requires r.count < |r.items|
    ensures Added(r, x).Valid() && Used(Added(r, x)) == Used(r) + [x]
  {
  }

  /** Cutting back to a prefix of what is in use leaves that prefix. */
  lemma CutUsed<T>(r: Registry<T>, p: seq<T>, zero: T)
    requires r.Valid() && p <= Used(r)
    ensures CutTo(r, |p|, zero).Valid() && Used(CutTo(r, |p|, zero)) == p
  {
    assert p == Used(r)[..|p|];
  }

  lemma ShortenedUsed<T>(r: Registry<T>, p: seq<T>)
    requires r.Valid() && p <= Used(r)
    ensures r.(count := |p|).Valid() && Used(r.(count := |p|)) == p
  {
    assert p == Used(r)[..|p|];
  }

  /** Two cuts make the lower one. */
  lemma CutTwice<T>(r: Registry<T>, m: nat, n: nat, zero: T)
    requires r.Valid() && n <= m <= r.count
    ensures CutTo(r, m, zero).Valid() && CutTo(CutTo(r, m, zero), n, zero) == CutTo(r, n, zero)
  {
  }

  const MAX_DEPTH: nat := 64

  /** The bundled mask, the active backend and the forced one. */
  datatype Selection = Selection(bundled: nat, active: int, forced: int)

  /** The debug location table. */
  datatype Debug = Debug(entries: nat, count: int)

  /** The extents one push saves. */
  datatype Saved = Saved(classes: nat, modules: nat, manifests: nat, kparams: nat, dynshared: nat,
                         kernels: nat, census: nat, calib: nat, selection: Selection, debug: Debug, atexitHead: nat)

  /** The global state. The at-exit chain is the list of its nodes from the head on; freed lists
      what was handed to free. */
  datatype State = State(
    classes: Registry<Entry>, kernels: Registry<Entry>, modules: Registry<nat>, census: Registry<nat>, hint: nat,
    manifests: Registry<nat>, kparams: Registry<nat>, dynshared: Registry<nat>, calib: Registry<nat>,
    selection: Selection, debug: Debug, atexit: seq<nat>, registryGen: nat, manifestGen: nat,
    epochs: seq<Saved>, depth: nat, freedNames: seq<nat>, freedNodes: seq<nat>)
  {
    predicate Valid() {
      && classes.Valid() && kernels.Valid() && modules.Valid() && census.Valid()
      && manifests.Valid() && kparams.Valid() && dynshared.Valid() && calib.Valid()
      && |epochs| == MAX_DEPTH && depth <= MAX_DEPTH
    }
  }

  /** What a program sees of the registries, and what an epoch is to bring back. */
  datatype View = View(classes: seq<Entry>, kernels: seq<Entry>, modules: seq<nat>, census: seq<nat>,
                       manifests: seq<nat>, kparams: seq<nat>, dynshared: seq<nat>, calib: seq<nat>,
                       selection: Selection, debug: Debug, atexit: seq<nat>)

  function ViewOf(s: State): View
    requires s.Valid()
  {
    View(Used(s.classes), Used(s.kernels), Used(s.modules), Used(s.census),
         Used(s.manifests), Used(s.kparams), Used(s.dynshared), Used(s.calib), s.selection, s.debug, s.atexit)
  }

  function Head(chain: seq<nat>): nat { if chain == [] then 0 else chain[0] }

  function SavedOf(v: View): Saved {
    Saved(|v.classes|, |v.modules|, |v.manifests|, |v.kparams|, |v.dynshared|, |v.kernels|, |v.census|, |v.calib|,
          v.selection, v.debug, Head(v.atexit))
  }

  function Names(es: seq<Entry>): seq<nat> {
    seq(|es|, i requires 0 <= i < |es| => es[i].name)
  }

  /** The names of the entries a cut to n drops, in the order they are freed. */
  function Freed(r: Registry<Entry>, n: nat): seq<nat>
    requires r.Valid()
  {
    if n <= r.count then Names(r.items[n..r.count]) else []
  }

  /** The chain from the first node equal to stop on; empty when there is none. */
  function Unlinked(chain: seq<nat>, stop: nat): seq<nat> {
    if chain == [] || chain[0] == stop then chain else Unlinked(chain[1..], stop)
  }

  /** The nodes taken off before that. */
  function Dropped(chain: seq<nat>, stop: nat): seq<nat> {
    if chain == [] || chain[0] == stop then [] else [chain[0]] + Dropped(chain[1..], stop)
  }

  /** Records the extents of the present view as one more level; at MAX_DEPTH nothing happens, and
      the second result is 0. */
  function Push(s: State): (r: (State, nat))
    requires s.Valid()
    ensures r.0.Valid()
  {
    if s.depth >= MAX_DEPTH then (s, 0)
    else (s.(epochs := s.epochs[s.depth := SavedOf(ViewOf(s))], depth := s.depth + 1), s.depth + 1)
  }

  /** Goes back to level d, if there is one: the registries to the extents it saved, the rest to the
      values it saved, the at-exit chain to its head; the level itself and those above are gone. */
  function PopTo(s: State, d: int): (s': State)
    requires s.Valid()
    ensures |s'.epochs| == MAX_DEPTH && s'.depth <= s.depth
  {
    if d < 1 || d > s.depth then s
    else
      var e := s.epochs[d - 1];
      s.(classes := CutTo(s.classes, e.classes, EMPTY), kernels := CutTo(s.kernels, e.kernels, EMPTY),
         modules := CutTo(s.modules, e.modules, 0), census := CutTo(s.census, e.census, 0), hint := 0,
         manifests := s.manifests.(count := e.manifests), kparams := s.kparams.(count := e.kparams),
         dynshared := s.dynshared.(count := e.dynshared), calib := s.calib.(count := e.calib),
         selection := e.selection, debug := e.debug, atexit := Unlinked(s.atexit, e.atexitHead),
         registryGen := s.registryGen + 1, manifestGen := s.manifestGen + 1, depth := d - 1,
         freedNames := s.freedNames + Freed(s.classes, e.classes) + Freed(s.kernels, e.kernels),
         freedNodes := s.freedNodes + Dropped(s.atexit, e.atexitHead))
  }

  /** An append-only registration, a change of what is overwritten in place, a push or a pop. */
  datatype Op =
    | Class(e: Entry) | Kernel(e: Entry) | Module(x: nat) | Census(x: nat, hint: nat)
    | Manifest(x: nat) | Kparam(x: nat) | Dynshared(x: nat) | Calib(x: nat)
    | Select(selection: Selection) | DebugTable(debug: Debug) | AtExit(node: nat)
    | OpenEpoch | CloseTo(d: int)

  predicate Room<T>(r: Registry<T>) { r.count < |r.items| }

  /** Room in the registry, and an address malloc has not handed out to a live node. */
  predicate Can(s: State, op: Op) {
    match op
    case Class(_) => Room(s.classes)
    case Kernel(_) => Room(s.kernels)
    case Module(_) => Room(s.modules)
    case Census(_, _) => Room(s.census)
    case Manifest(_) => Room(s.manifests)
    case Kparam(_) => Room(s.kparams)
    case Dynshared(_) => Room(s.dynshared)
    case Calib(_) => Room(s.calib)
    case AtExit(node) => node != 0 && node !in s.atexit
    case _ => true
  }

  function Apply(s: State, op: Op): (s': State)
    requires s.Valid() && Can(s, op)
    ensures |s'.epochs| == MAX_DEPTH
  {
    match op
    case Class(e) => s.(classes := Added(s.classes, e))
    case Kernel(e) => s.(kernels := Added(s.kernels, e))
    case Module(x) => s.(modules := Added(s.modules, x))
    case Census(x, h) => s.(census := Added(s.census, x), hint := h)
    case Manifest(x) => s.(manifests := Added(s.manifests, x))
    case Kparam(x) => s.(kparams := Added(s.kparams, x))
    case Dynshared(x) => s.(dynshared := Added(s.dynshared, x))
    case Calib(x) => s.(calib := Added(s.calib, x))
    case Select(sel) => s.(selection := sel)
    case DebugTable(dbg) => s.(debug := dbg)
    case AtExit(node) => s.(atexit := [node] + s.atexit)
    case OpenEpoch => Push(s).0
    case CloseTo(d) => PopTo(s, d)
  }

  /** b extends a: longer registries, and a longer at-exit chain in front. */
  ghost predicate Extends(b: View, a: View) {
    && a.classes <= b.classes && a.kernels <= b.kernels && a.modules <= b.modules && a.census <= b.census
    && a.manifests <= b.manifests && a.kparams <= b.kparams && a.dynshared <= b.dynshared && a.calib <= b.calib
    && IsSuffix(a.atexit, b.atexit)
  }

  ghost predicate IsSuffix(a: seq<nat>, b: seq<nat>) {
    |a| <= |b| && b[|b| - |a|..] == a
  }

  ghost predicate Distinct(chain: seq<nat>) {
    && (forall i :: 0 <= i < |chain| ==> chain[i] != 0)
    && forall i, j :: 0 <= i < j < |chain| ==> chain[i] != chain[j]
  }

  /** The invariant of every run: views[i] is what the program saw when level i+1 was pushed; each
      saved record is that view's extents, and every later view, the present one included,
      extends it. */
  ghost predicate Inv(s: State, views: seq<View>) {
    && s.Valid() && |views| == s.depth && Distinct(s.atexit)
    && (forall i :: 0 <= i < s.depth ==> s.epochs[i] == SavedOf(views[i]))
    && (forall i, j :: 0 <= i <= j < s.depth ==> Extends(views[j], views[i]))
    && (forall i :: 0 <= i < s.depth ==> Extends(ViewOf(s), views[i]))
  }

  /** Before the first push nothing is asked but room and distinct at-exit nodes. */
  lemma InvAtStart(s: State)
    requires s.Valid() && s.depth == 0 && Distinct(s.atexit)
    ensures Inv(s, [])
  {
  }

  lemma InvBasics(s: State, views: seq<View>)
    requires Inv(s, views)
    ensures s.Valid() && |views| == s.depth && Distinct(s.atexit)
  {
  }

  /** What the invariant says of one level. */
  lemma InvLevel(s: State, views: seq<View>, d: int)
    requires Inv(s, views) && 1 <= d <= s.depth
    ensures s.Valid() && |views| == s.depth && s.epochs[d - 1] == SavedOf(views[d - 1])
    ensures Extends(ViewOf(s), views[d - 1])
  {
  }

  lemma ExtendsTransitive(c: View, b: View, a: View)
    requires Extends(c, b) && Extends(b, a)
    ensures Extends(c, a)
  {
    assert a.atexit == b.atexit[|b.atexit| - |a.atexit|..];
    assert b.atexit == c.atexit[|c.atexit| - |b.atexit|..];
    assert c.atexit[|c.atexit| - |a.atexit|..] == a.atexit;
  }

  lemma SelfExtends(v: View)
    ensures Extends(v, v)
  {
  }

  /** A push records the present view as the newest level. */
  lemma PushKeeps(s: State, views: seq<View>)
    requires Inv(s, views) && s.depth < MAX_DEPTH
    ensures Inv(Push(s).0, views + [ViewOf(s)]) && ViewOf(Push(s).0) == ViewOf(s)
  {
    hide Extends, Used, Distinct;
    SelfExtends(ViewOf(s));
  }

  /** A registration extends the view. */
  lemma RegistrationExtends(s: State, op: Op)
    requires s.Valid() && Can(s, op) && !op.OpenEpoch? && !op.CloseTo? && Distinct(s.atexit)
    ensures Apply(s, op).Valid() && Extends(ViewOf(Apply(s, op)), ViewOf(s)) && Distinct(Apply(s, op).atexit)
    ensures Apply(s, op).depth == s.depth && Apply(s, op).epochs == s.epochs
  {
    hide Used, Added, Distinct, IsSuffix;
    SelfSuffix(s.atexit);
    match op
    case Class(e) => AddedUsed(s.classes, e);
    case Kernel(e) => AddedUsed(s.kernels, e);
    case Module(x) => AddedUsed(s.modules, x);
    case Census(x, _) => AddedUsed(s.census, x);
    case Manifest(x) => AddedUsed(s.manifests, x);
    case Kparam(x) => AddedUsed(s.kparams, x);
    case Dynshared(x) => AddedUsed(s.dynshared, x);
    case Calib(x) => AddedUsed(s.calib, x);
    case AtExit(node) => Linked(s.atexit, node);
    case _ =>
  }

  lemma SelfSuffix(chain: seq<nat>)
    ensures IsSuffix(chain, chain)
  {
  }

  lemma Linked(chain: seq<nat>, node: nat)
    requires Distinct(chain) && node != 0 && node !in chain
    ensures Distinct([node] + chain) && IsSuffix(chain, [node] + chain)
  {
  }

  lemma RegistrationKeeps(s: State, views: seq<View>, op: Op)
    requires Inv(s, views) && Can(s, op) && !op.OpenEpoch? && !op.CloseTo?
    ensures Inv(Apply(s, op), views)
  {
    hide Extends, Apply, Can, Distinct, ViewOf, SavedOf;
    RegistrationExtends(s, op);
    forall i | 0 <= i < s.depth
      ensures Extends(ViewOf(Apply(s, op)), views[i])
    {
      ExtendsTransitive(ViewOf(Apply(s, op)), ViewOf(s), views[i]);
    }
  }

  /** Unlinking down to the head of a suffix leaves the suffix; down to 0, nothing. */
  lemma {:induction false} UnlinkedIsSuffix(chain: seq<nat>, kept: seq<nat>)
    requires Distinct(chain) && IsSuffix(kept, chain)
    ensures Unlinked(chain, Head(kept)) == kept
    ensures Dropped(chain, Head(kept)) + kept == chain
    decreases |chain|
  {
    if chain != [] {
      if |kept| == |chain| {
        assert kept == chain;
      } else {
        assert IsSuffix(kept, chain[1..]);
        assert Distinct(chain[1..]);
        if kept != [] {
          assert kept[0] == chain[|chain| - |kept|];
        }
        UnlinkedIsSuffix(chain[1..], kept);
      }
    }
  }

  lemma SuffixDistinct(chain: seq<nat>, kept: seq<nat>)
    requires Distinct(chain) && IsSuffix(kept, chain)
    ensures Distinct(kept)
  {
    assert forall i :: 0 <= i < |kept| ==> kept[i] == chain[|chain| - |kept| + i];
  }

  /** Going back to the extents of a view the present one extends brings that view back. */
  lemma PopRestoresView(s: State, v: View, d: nat)
    requires s.Valid() && Distinct(s.atexit) && 1 <= d <= s.depth
    requires s.epochs[d - 1] == SavedOf(v) && Extends(ViewOf(s), v)
    ensures PopTo(s, d).Valid() && ViewOf(PopTo(s, d)) == v && PopTo(s, d).depth == d - 1
    ensures PopTo(s, d).epochs == s.epochs && Distinct(PopTo(s, d).atexit)
  {
    hide Used, CutTo, Unlinked, Dropped, Freed, Distinct;
    CutUsed(s.classes, v.classes, EMPTY);
    CutUsed(s.kernels, v.kernels, EMPTY);
    CutUsed(s.modules, v.modules, 0);
    CutUsed(s.census, v.census, 0);
    ShortenedUsed(s.manifests, v.manifests);
    ShortenedUsed(s.kparams, v.kparams);
    ShortenedUsed(s.dynshared, v.dynshared);
    ShortenedUsed(s.calib, v.calib);
    UnlinkedIsSuffix(s.atexit, v.atexit);
    SuffixDistinct(s.atexit, v.atexit);
  }

  /** Popping to a level brings its view back, whatever was registered above it. */
  lemma PopRestores(s: State, views: seq<View>, d: nat)
    requires Inv(s, views) && 1 <= d <= s.depth
    ensures PopTo(s, d).Valid() && ViewOf(PopTo(s, d)) == views[d - 1]
    ensures Inv(PopTo(s, d), views[..d - 1])
  {
    hide Extends, PopTo, ViewOf, Distinct, SavedOf;
    PopRestoresView(s, views[d - 1], d);
  }

  /** The views behind the levels after one operation. */
  function ViewsAfter(s: State, views: seq<View>, op: Op): seq<View>
    requires s.Valid() && |views| == s.depth
  {
    match op
    case OpenEpoch => if s.depth < MAX_DEPTH then views + [ViewOf(s)] else views
    case CloseTo(d) => if 1 <= d <= s.depth then views[..d - 1] else views
    case _ => views
  }

  /** Every operation keeps the invariant. */
  lemma StepKeeps(s: State, views: seq<View>, op: Op)
    requires Inv(s, views) && Can(s, op)
    ensures Inv(Apply(s, op), ViewsAfter(s, views, op))
  {
    hide Inv, ViewOf, PopTo, Push, Can;
    InvBasics(s, views);
    match op
    case OpenEpoch =>
      if s.depth < MAX_DEPTH {
        PushKeeps(s, views);
      } else {
        FullPush(s);
      }
    case CloseTo(d) =>
      if 1 <= d <= s.depth {
        PopRestores(s, views, d);
      } else {
        IdlePop(s, d);
      }
    case _ => RegistrationKeeps(s, views, op);
  }

  lemma FullPush(s: State)
    requires s.Valid() && s.depth >= MAX_DEPTH
    ensures Push(s) == (s, 0)
  {
  }

  lemma IdlePop(s: State, d: int)
    requires s.Valid() && (d < 1 || d > s.depth)
    ensures PopTo(s, d) == s
  {
  }

  /** A run that never pops the level keep or one below it. */
  ghost predicate Runs(s: State, ops: seq<Op>, keep: nat)
    decreases |ops|
  {
    s.Valid() && (ops != [] ==>
      && Can(s, ops[0])
      && (ops[0].CloseTo? ==> ops[0].d > keep || ops[0].d < 1)
      && Runs(Apply(s, ops[0]), ops[1..], keep))
  }

  function After(s: State, ops: seq<Op>): State
    requires Runs(s, ops, 0)
    decreases |ops|
  {
    if ops == [] then s else After(Apply(s, ops[0]), ops[1..])
  }

  lemma {:induction false} RunsBelow(s: State, ops: seq<Op>, keep: nat)
    requires Runs(s, ops, keep)
    ensures Runs(s, ops, 0)
    decreases |ops|
  {
    hide Apply, Can;
    if ops != [] {
      RunsBelow(Apply(s, ops[0]), ops[1..], keep);
    }
  }

  /** Over every run the invariant holds, and the levels up to keep stay as they are. */
  lemma {:induction false} RunKeeps(s: State, views: seq<View>, ops: seq<Op>, keep: nat) returns (views': seq<View>)
    requires Inv(s, views) && Runs(s, ops, keep) && keep <= s.depth
    ensures Runs(s, ops, 0) && Inv(After(s, ops), views')
    ensures keep <= |views'| && views'[..keep] == views[..keep]
    decreases |ops|
  {
    hide Inv, Apply, Can, ViewOf;
    InvBasics(s, views);
    RunsBelow(s, ops, keep);
    if ops == [] {
      views' := views;
    } else {
      StepKeeps(s, views, ops[0]);
      var s1, views1 := Apply(s, ops[0]), ViewsAfter(s, views, ops[0]);
      InvBasics(s1, views1);
      assert views1[..keep] == views[..keep];
      views' := RunKeeps(s1, views1, ops[1..], keep);
    }
  }

  /** Push, run anything that stays above that level, pop to it: the program sees exactly what it
      saw before the push, and the depth is what it was. */
  lemma PopUndoesRun(s: State, views: seq<View>, ops: seq<Op>)
    requires Inv(s, views) && s.depth < MAX_DEPTH && Runs(Push(s).0, ops, Push(s).1)
    ensures Runs(Push(s).0, ops, 0) && After(Push(s).0, ops).Valid()
    ensures
      var last := PopTo(After(Push(s).0, ops), Push(s).1);
      last.Valid() && ViewOf(last) == ViewOf(s) && last.depth == s.depth
  {
    hide Inv, Apply, Can, ViewOf, PopTo;
    InvBasics(s, views);
    var (s1, d) := Push(s);
    PushKeeps(s, views);
    var views' := RunKeeps(s1, views + [ViewOf(s)], ops, d);
    var s2 := After(s1, ops);
    InvBasics(s2, views');
    assert views'[d - 1] == views'[..d][d - 1] == (views + [ViewOf(s)])[d - 1];
    PopRestores(s2, views', d);
    InvBasics(PopTo(s2, d), views'[..d - 1]);
  }

  /** The names the registries own. */
  function Owned(s: State): seq<nat>
    requires s.Valid()
  {
    Names(Used(s.classes)) + Names(Used(s.kernels))
  }

  lemma NamesAppend(es: seq<Entry>, e: Entry)
    ensures Names(es + [e]) == Names(es) + [e.name]
  {
  }

  /** What a cut frees and what it leaves in use are what was in use. */
  lemma CutConserves(r: Registry<Entry>, p: seq<Entry>)
    requires r.Valid() && p <= Used(r)
    ensures CutTo(r, |p|, EMPTY).Valid()
    ensures Names(Used(CutTo(r, |p|, EMPTY))) + Freed(r, |p|) == Names(Used(r))
  {
    CutUsed(r, p, EMPTY);
  }

  /** What a pop does to the registries that own names and to the chain, field by field. */
  lemma PopParts(s: State, d: int)
    requires s.Valid() && 1 <= d <= s.depth
    ensures var e, s' := s.epochs[d - 1], PopTo(s, d);
      && s'.classes == CutTo(s.classes, e.classes, EMPTY) && s'.kernels == CutTo(s.kernels, e.kernels, EMPTY)
      && s'.freedNames == s.freedNames + Freed(s.classes, e.classes) + Freed(s.kernels, e.kernels)
      && s'.atexit == Unlinked(s.atexit, e.atexitHead)
      && s'.freedNodes == s.freedNodes + Dropped(s.atexit, e.atexitHead)
  {
  }

  lemma MultisetParts(freed: seq<nat>, a: seq<nat>, b: seq<nat>, p: seq<nat>, q: seq<nat>)
    ensures multiset(freed + a + b) + multiset(p + q) == multiset(freed) + multiset((p + a) + (q + b))
  {
  }

  /** A pop hands to free exactly the names and nodes it takes out of use, each once: freed and
      owned together stay the same. */
  lemma PopConserves(s: State, views: seq<View>, d: int)
    requires Inv(s, views)
    ensures var s' := PopTo(s, d);
      && s'.Valid()
      && multiset(s'.freedNames) + multiset(Owned(s')) == multiset(s.freedNames) + multiset(Owned(s))
      && s'.freedNodes + s'.atexit == s.freedNodes + s.atexit
  {
    hide Inv, ViewOf, Unlinked, Dropped, CutTo, Names, Freed, Used, PopTo, Distinct;
    InvBasics(s, views);
    if 1 <= d <= s.depth {
      var v, s' := views[d - 1], PopTo(s, d);
      PopRestores(s, views, d);
      InvLevel(s, views, d);
      ViewParts(s);
      PopParts(s, d);
      CutConserves(s.classes, v.classes);
      CutConserves(s.kernels, v.kernels);
      UnlinkedIsSuffix(s.atexit, v.atexit);
      MultisetParts(s.freedNames, Freed(s.classes, |v.classes|), Freed(s.kernels, |v.kernels|),
                    Names(Used(s'.classes)), Names(Used(s'.kernels)));
      assert s.freedNodes + Dropped(s.atexit, Head(v.atexit)) + v.atexit
          == s.freedNodes + (Dropped(s.atexit, Head(v.atexit)) + v.atexit);
    } else {
      IdlePop(s, d);
    }
  }

  lemma ViewParts(s: State)
    requires s.Valid()
    ensures ViewOf(s).classes == Used(s.classes) && ViewOf(s).kernels == Used(s.kernels) && ViewOf(s).atexit == s.atexit
  {
  }

  /** The names an operation hands to the registries. */
  function Registered(op: Op): seq<nat> {
    match op
    case Class(e) => [e.name]
    case Kernel(e) => [e.name]
    case _ => []
  }

  function RegisteredAll(ops: seq<Op>): seq<nat> {
    if ops == [] then [] else Registered(ops[0]) + RegisteredAll(ops[1..])
  }

  lemma RegistrationConserves(s: State, op: Op)
    requires s.Valid() && Can(s, op) && !op.CloseTo?
    ensures Apply(s, op).Valid() && Apply(s, op).freedNames == s.freedNames
    ensures multiset(Owned(Apply(s, op))) == multiset(Owned(s)) + multiset(Registered(op))
  {
    hide Names, Used, Added, ViewOf, SavedOf;
    match op
    case Class(e) =>
      AddedUsed(s.classes, e);
      NamesAppend(Used(s.classes), e);
    case Kernel(e) =>
      AddedUsed(s.kernels, e);
      NamesAppend(Used(s.kernels), e);
    case Module(x) => AddedUsed(s.modules, x);
    case Census(x, _) => AddedUsed(s.census, x);
    case Manifest(x) => AddedUsed(s.manifests, x);
    case Kparam(x) => AddedUsed(s.kparams, x);
    case Dynshared(x) => AddedUsed(s.dynshared, x);
    case Calib(x) => AddedUsed(s.calib, x);
    case _ =>
  }

  lemma StepConserves(s: State, views: seq<View>, op: Op)
    requires Inv(s, views) && Can(s, op)
    ensures Apply(s, op).Valid()
    ensures multiset(Apply(s, op).freedNames) + multiset(Owned(Apply(s, op)))
         == multiset(s.freedNames) + multiset(Owned(s)) + multiset(Registered(op))
  {
    hide Inv, Can, Owned, PopTo, Push;
    InvBasics(s, views);
    if op.CloseTo? {
      PopConserves(s, views, op.d);
    } else {
      RegistrationConserves(s, op);
    }
  }

  /** Over every run, what was registered is either owned or freed, once for each registration. */
  lemma {:induction false} RunConserves(s: State, views: seq<View>, ops: seq<Op>)
    requires Inv(s, views) && Runs(s, ops, 0)
    ensures After(s, ops).Valid()
    ensures multiset(After(s, ops).freedNames) + multiset(Owned(After(s, ops)))
         == multiset(s.freedNames) + multiset(Owned(s)) + multiset(RegisteredAll(ops))
    decreases |ops|
  {
    hide Inv, Apply, Can, Owned, Registered;
    InvBasics(s, views);
    if ops != [] {
      StepKeeps(s, views, ops[0]);
      StepConserves(s, views, ops[0]);
      RunConserves(Apply(s, ops[0]), ViewsAfter(s, views, ops[0]), ops[1..]);
    }
  }

  /** Push, run anything above that level, pop to it: exactly the names registered since were
      freed, once for each registration, and none older. */
  lemma PopFreesRegistered(s: State, views: seq<View>, ops: seq<Op>)
    requires Inv(s, views) && s.depth < MAX_DEPTH && Runs(Push(s).0, ops, Push(s).1)
    ensures Runs(Push(s).0, ops, 0) && After(Push(s).0, ops).Valid()
    ensures multiset(PopTo(After(Push(s).0, ops), Push(s).1).freedNames)
         == multiset(s.freedNames) + multiset(RegisteredAll(ops))
  {
    hide Inv, Apply, Can, ViewOf, PopTo, Owned;
    InvBasics(s, views);
    var (s1, d) := Push(s);
    PushKeeps(s, views);
    var views1 := views + [ViewOf(s)];
    var views2 := RunKeeps(s1, views1, ops, d);
    var s2 := After(s1, ops);
    RunConserves(s1, views1, ops);
    PopConserves(s2, views2, d);
    PopUndoesRun(s, views, ops);
    var s3 := PopTo(s2, d);
    SameView(s1, s);
    SameView(s3, s);
    assert s1.freedNames == s.freedNames;
    Cancel(multiset(s3.freedNames), multiset(s.freedNames) + multiset(RegisteredAll(ops)), multiset(Owned(s)));
  }

  lemma Cancel(a: multiset<nat>, b: multiset<nat>, c: multiset<nat>)
    requires a + c == b + c
    ensures a == b
  {
    assert a + c - c == a && b + c - c == b;
  }

  /** What a pop leaves in the tables, entry by entry: nothing in any slot it drops, and everything
      else as it was; the census hint is wiped. */
  lemma PopEntries(s: State, d: int, i: nat)
    requires s.Valid() && 1 <= d <= s.depth
    ensures PopTo(s, d).hint == 0
    ensures |PopTo(s, d).classes.items| == |s.classes.items|
    ensures i < |s.classes.items| ==>
      PopTo(s, d).classes.items[i] ==
      (if s.epochs[d - 1].classes <= i < s.classes.count then Entry(0, 0) else s.classes.items[i])
    ensures |PopTo(s, d).kernels.items| == |s.kernels.items|
    ensures i < |s.kernels.items| ==>
      PopTo(s, d).kernels.items[i] ==
      (if s.epochs[d - 1].kernels <= i < s.kernels.count then Entry(0, 0) else s.kernels.items[i])
    ensures |PopTo(s, d).modules.items| == |s.modules.items|
    ensures i < |s.modules.items| ==>
      PopTo(s, d).modules.items[i] == (if s.epochs[d - 1].modules <= i < s.modules.count then 0 else s.modules.items[i])
    ensures |PopTo(s, d).census.items| == |s.census.items|
    ensures i < |s.census.items| ==>
      PopTo(s, d).census.items[i] == (if s.epochs[d - 1].census <= i < s.census.count then 0 else s.census.items[i])
  {
    hide Freed, Dropped, Unlinked;
  }

  /** The names a pop hands to free, in order: the dropped classes' from the lowest slot up, then the
      dropped kernels'. */
  lemma PopFreesInOrder(s: State, d: int, i: nat)
    requires s.Valid() && 1 <= d <= s.depth
    requires s.epochs[d - 1].classes <= s.classes.count && s.epochs[d - 1].kernels <= s.kernels.count
    ensures var e, n, freed := s.epochs[d - 1], |s.freedNames|, PopTo(s, d).freedNames;
      var c, k := s.classes.count - e.classes, s.kernels.count - e.kernels;
      && |freed| == n + c + k && freed[..n] == s.freedNames
      && (i < c ==> freed[n + i] == s.classes.items[e.classes + i].name)
      && (i < k ==> freed[n + c + i] == s.kernels.items[e.kernels + i].name)
  {
    hide CutTo, Dropped, Unlinked;
  }

  /** Only the sixty-fifth push is refused; every other answers the new depth, and saves the extents
      where the pop to it will look. */
  lemma PushAnswers(s: State)
    requires s.Valid()
    ensures Push(s).1 == if s.depth >= 64 then 0 else s.depth + 1
    ensures s.depth < 64 ==>
      var e := Push(s).0.epochs[s.depth];
      && e.classes == s.classes.count && e.kernels == s.kernels.count && e.modules == s.modules.count
      && e.census == s.census.count && e.manifests == s.manifests.count && e.kparams == s.kparams.count
      && e.dynshared == s.dynshared.count && e.calib == s.calib.count && e.selection == s.selection
      && e.debug == s.debug && e.atexitHead == (if s.atexit == [] then 0 else s.atexit[0])
  {
  }

  /** Equal but for the generation counters and the order in which names were freed. */
  ghost predicate Agree(a: State, b: State) {
    && a.(registryGen := 0, manifestGen := 0, freedNames := [])
       == b.(registryGen := 0, manifestGen := 0, freedNames := [])
    && multiset(a.freedNames) == multiset(b.freedNames)
  }

  /** The levels from the top down to d popped one at a time; stops short of a pop that would put
      a count past the end of its array, which the invariant rules out. */
  function PopEach(s: State, d: nat): State
    requires s.Valid() && 1 <= d
    decreases s.depth
  {
    if s.depth < d || !PopTo(s, s.depth).Valid() then s else PopEach(PopTo(s, s.depth), d)
  }

  /** Popping the top level first makes no difference. */
  lemma PopTopFirst(s: State, views: seq<View>, d: nat)
    requires Inv(s, views) && 1 <= d < s.depth
    ensures PopTo(s, s.depth).Valid() && Agree(PopTo(PopTo(s, s.depth), d), PopTo(s, d))
    ensures PopTo(PopTo(s, s.depth), d).registryGen == PopTo(s, d).registryGen + 1
    ensures PopTo(PopTo(s, s.depth), d).manifestGen == PopTo(s, d).manifestGen + 1
  {
    hide Inv, Unlinked, Dropped, CutTo, Freed, ViewOf, Owned, Extends;
    InvBasics(s, views);
    var n := s.depth;
    var s1 := PopTo(s, n);
    PopRestores(s, views, n);
    InvBasics(s1, views[..n - 1]);
    PopRestores(s1, views[..n - 1], d);
    PopRestores(s, views, d);
    InvBasics(PopTo(s1, d), views[..n - 1][..d - 1]);
    InvBasics(PopTo(s, d), views[..d - 1]);
    PopConserves(s, views, n);
    PopConserves(s1, views[..n - 1], d);
    PopConserves(s, views, d);
    RegistriesAgree(s, views, d);
    SameView(PopTo(s1, d), PopTo(s, d));
    SameFreed(PopTo(s1, d), PopTo(s, d));
  }

  lemma RegistriesAgree(s: State, views: seq<View>, d: nat)
    requires Inv(s, views) && 1 <= d < s.depth
    ensures PopTo(s, s.depth).Valid()
    ensures var a, b := PopTo(PopTo(s, s.depth), d), PopTo(s, d);
      a.classes == b.classes && a.kernels == b.kernels && a.modules == b.modules && a.census == b.census
  {
    hide Inv, Unlinked, Dropped, CutTo, Freed, ViewOf, Extends, SavedOf;
    InvBasics(s, views);
    PopRestores(s, views, s.depth);
    LevelExtents(s, views, d);
    var e, f := s.epochs[d - 1], s.epochs[s.depth - 1];
    CutTwice(s.classes, f.classes, e.classes, EMPTY);
    CutTwice(s.kernels, f.kernels, e.kernels, EMPTY);
    CutTwice(s.modules, f.modules, e.modules, 0);
    CutTwice(s.census, f.census, e.census, 0);
  }

  /** Saved extents grow with the level, up to the present ones. */
  lemma LevelExtents(s: State, views: seq<View>, d: nat)
    requires Inv(s, views) && 1 <= d < s.depth
    ensures var e, f := s.epochs[d - 1], s.epochs[s.depth - 1];
      && e.classes <= f.classes <= s.classes.count && e.kernels <= f.kernels <= s.kernels.count
      && e.modules <= f.modules <= s.modules.count && e.census <= f.census <= s.census.count
  {
    assert Extends(views[s.depth - 1], views[d - 1]) && Extends(ViewOf(s), views[s.depth - 1]);
  }

  lemma SameView(a: State, b: State)
    requires a.Valid() && b.Valid() && ViewOf(a) == ViewOf(b)
    ensures Used(a.classes) == Used(b.classes) && Used(a.kernels) == Used(b.kernels)
    ensures a.selection == b.selection && a.debug == b.debug && a.atexit == b.atexit && Owned(a) == Owned(b)
  {
  }

  /** Of what is freed and owned together, equal owned parts leave equal freed parts. */
  lemma SameFreed(a: State, b: State)
    requires a.Valid() && b.Valid() && Owned(a) == Owned(b) && a.atexit == b.atexit
    requires multiset(a.freedNames) + multiset(Owned(a)) == multiset(b.freedNames) + multiset(Owned(b))
    requires a.freedNodes + a.atexit == b.freedNodes + b.atexit
    ensures multiset(a.freedNames) == multiset(b.freedNames) && a.freedNodes == b.freedNodes
  {
    var o, k := multiset(Owned(a)), |a.freedNodes|;
    assert multiset(a.freedNames) + o - o == multiset(a.freedNames);
    assert multiset(b.freedNames) + o - o == multiset(b.freedNames);
    assert a.freedNodes == (a.freedNodes + a.atexit)[..k] == (b.freedNodes + b.atexit)[..k] == b.freedNodes;
  }

  /** One pop to a level agrees with popping the levels one at a time; the generation counters
      move once for each. */
  lemma {:induction false} PopEachAgrees(s: State, views: seq<View>, d: nat)
    requires Inv(s, views) && 1 <= d <= s.depth
    ensures Agree(PopEach(s, d), PopTo(s, d))
    ensures PopEach(s, d).registryGen == s.registryGen + (s.depth - d + 1)
    ensures PopEach(s, d).manifestGen == s.manifestGen + (s.depth - d + 1)
    decreases s.depth
  {
    hide Inv, PopTo, ViewOf;
    InvBasics(s, views);
    var s1 := PopTo(s, s.depth);
    PopRestores(s, views, s.depth);
    PopDepth(s, s.depth);
    PopDepth(s, d);
    if d < s.depth {
      PopEachAgrees(s1, views[..s.depth - 1], d);
      PopTopFirst(s, views, d);
    }
  }

  lemma PopDepth(s: State, d: int)
    requires s.Valid() && 1 <= d <= s.depth
    ensures PopTo(s, d).depth == d - 1
    ensures PopTo(s, d).registryGen == s.registryGen + 1 && PopTo(s, d).manifestGen == s.manifestGen + 1
  {
  }
}
