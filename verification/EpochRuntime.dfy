/** The runtime's registries in memory, and push and pop_to as they run over them. */
module EpochRuntime {
  import opened Epoch

  /** The registries in memory, with the record of what was handed to free. */
  class Runtime {
    const classTable: array<Entry>
    const kernelTable: array<Entry>
    const moduleTable: array<nat>
    const censusTable: array<nat>
    var classCount: nat
    var kernelCount: nat
    var moduleCount: nat
    var censusCount: nat
    var hint: nat
    var manifests: Registry<nat>
    var kparams: Registry<nat>
    var dynshared: Registry<nat>
    var calib: Registry<nat>
    var selection: Selection
    var debug: Debug
    var atexit: seq<nat>
    var registryGen: nat
    var manifestGen: nat
    const epochs: array<Saved>
    var depth: nat
    var freedNames: seq<nat>
    var freedNodes: seq<nat>

    ghost function Now(): State
      reads this, classTable, kernelTable, moduleTable, censusTable, epochs
    {
      State(Registry(classTable[..], classCount), Registry(kernelTable[..], kernelCount),
                  Registry(moduleTable[..], moduleCount), Registry(censusTable[..], censusCount), hint,
                  manifests, kparams, dynshared, calib, selection, debug, atexit, registryGen, manifestGen,
                  epochs[..], depth, freedNames, freedNodes)
    }

    ghost predicate Separate() {
      classTable != kernelTable && moduleTable != censusTable
    }

    ghost predicate Valid()
      reads this, classTable, kernelTable, moduleTable, censusTable, epochs
    {
      Separate() && Now().Valid()
    }

    /** One more level in the array, with the depth the specification's push gives. */
    method Push() returns (d: nat)
      requires Valid()
      modifies this`depth, epochs
      ensures Valid() && (Now(), d) == Epoch.Push(old(Now()))
    {
      if depth >= MAX_DEPTH {
        return 0;
      }
      epochs[depth] := Saved(classCount, moduleCount, manifests.count, kparams.count, dynshared.count,
                             kernelCount, censusCount, calib.count, selection, debug, Head(atexit));
      depth := depth + 1;
      return depth;
    }

    method Unlink(stop: nat)
      modifies this`atexit, this`freedNodes
      ensures Now() == old(Now()).(atexit := Unlinked(old(atexit), stop),
                                   freedNodes := old(freedNodes) + Dropped(old(atexit), stop))
    {
      ghost var was := atexit;
      while atexit != [] && atexit[0] != stop
        invariant Unlinked(was, stop) == Unlinked(atexit, stop)
        invariant old(freedNodes) + Dropped(was, stop) == freedNodes + Dropped(atexit, stop)
        decreases |atexit|
      {
        freedNodes := freedNodes + [atexit[0]];
        atexit := atexit[1..];
      }
    }

    /** The class registry, its names freed. */
    method DropClasses(n: nat)
      requires Separate() && Now().classes.Valid()
      modifies this`classCount, this`freedNames, classTable
      ensures Now() == old(Now()).(classes := CutTo(old(Now()).classes, n, EMPTY),
                                   freedNames := old(freedNames) + Freed(old(Now()).classes, n))
    {
      hide Cleared, Names;
      var freed := Free(classTable, n, classCount);
      freedNames := freedNames + freed;
      classCount := n;
    }

    /** The module registry and the kernel registry, the latter's names freed. */
    method DropLaunch(modules: nat, kernels: nat)
      requires Separate() && Now().modules.Valid() && Now().kernels.Valid()
      modifies this`moduleCount, moduleTable, this`kernelCount, this`freedNames, kernelTable
      ensures Now() == old(Now()).(modules := CutTo(old(Now()).modules, modules, 0),
                                   kernels := CutTo(old(Now()).kernels, kernels, EMPTY),
                                   freedNames := old(freedNames) + Freed(old(Now()).kernels, kernels))
    {
      hide Cleared, Names;
      Clear(moduleTable, modules, moduleCount);
      moduleCount := modules;
      var freed := Free(kernelTable, kernels, kernelCount);
      freedNames := freedNames + freed;
      kernelCount := kernels;
    }

    /** The census and its hint table. */
    method DropCensus(n: nat)
      requires Separate() && Now().census.Valid()
      modifies this`censusCount, this`hint, censusTable
      ensures Now() == old(Now()).(census := CutTo(old(Now()).census, n, 0), hint := 0)
    {
      hide Cleared;
      Clear(censusTable, n, censusCount);
      censusCount := n;
      hint := 0;
    }

    /** The registries a pop only shortens. */
    method Shorten(e: Saved)
      modifies this`manifests, this`kparams, this`dynshared, this`calib
      ensures Now() == old(Now()).(
          manifests := old(manifests).(count := e.manifests), kparams := old(kparams).(count := e.kparams),
          dynshared := old(dynshared).(count := e.dynshared), calib := old(calib).(count := e.calib))
    {
      manifests := manifests.(count := e.manifests);
      kparams := kparams.(count := e.kparams);
      dynshared := dynshared.(count := e.dynshared);
      calib := calib.(count := e.calib);
    }

    /** What a push saved by value, and the generation counters. */
    method Overwrite(e: Saved)
      modifies this`selection, this`debug, this`registryGen, this`manifestGen
      ensures Now() == old(Now()).(selection := e.selection, debug := e.debug,
                                   registryGen := old(registryGen) + 1, manifestGen := old(manifestGen) + 1)
    {
      selection := e.selection;
      registryGen := registryGen + 1;
      manifestGen := manifestGen + 1;
      debug := e.debug;
    }

    /** Leaves exactly the state the specification's pop leaves. */
    method PopTo(d: int)
      requires Valid()
      modifies this, classTable, kernelTable, moduleTable, censusTable
      ensures Now() == Epoch.PopTo(old(Now()), d)
    {
      hide CutTo, Freed, Unlinked, Dropped;
      if d < 1 || d > depth {
        return;
      }
      var e := epochs[d - 1];
      DropClasses(e.classes);
      DropLaunch(e.modules, e.kernels);
      DropCensus(e.census);
      Shorten(e);
      Overwrite(e);
      Unlink(e.atexitHead);
      depth := d - 1;
    }
  }

  /** Frees the names from lo up to hi and clears their entries. */
  method Free(table: array<Entry>, lo: nat, hi: nat) returns (freed: seq<nat>)
    requires hi <= table.Length
    modifies table
    ensures table[..] == Cleared(old(table[..]), lo, hi, EMPTY)
    ensures freed == Epoch.Freed(Registry(old(table[..]), hi), lo)
  {
    ghost var was := table[..];
    freed := [];
    var i := lo;
    while i < hi
      invariant lo <= i && (i <= hi || i == lo)
      invariant table[..] == Cleared(was, lo, if i <= hi then i else hi, EMPTY)
      invariant freed == if i <= hi then Names(was[lo..i]) else []
    {
      assert Names(was[lo..i + 1]) == Names(was[lo..i]) + [was[i].name];
      freed := freed + [table[i].name];
      table[i] := EMPTY;
      i := i + 1;
    }
  }

  /** Zeroes the records from lo up to hi. */
  method Clear(table: array<nat>, lo: nat, hi: nat)
    requires hi <= table.Length
    modifies table
    ensures table[..] == Cleared(old(table[..]), lo, hi, 0)
  {
    var i := lo;
    while i < hi
      invariant lo <= i && (i <= hi || i == lo)
      invariant table[..] == Cleared(old(table[..]), lo, if i <= hi then i else hi, 0)
    {
      table[i] := 0;
      i := i + 1;
    }
  }
}
