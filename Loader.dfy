/**
 * The loader embedded in the emitted bundle. `require(params)` looks the
 * module up in the table, builds a fresh `exports` object and evaluates the
 * module's code with `localRequire`, which maps a specifier through the
 * requiring module's own `dependencies` before calling `require` again.
 * Nothing is cached: every call runs the module's code anew.
 *
 * What the evaluated code does is outside the model except for one thing:
 * `calls(id)` lists, in order, the specifiers that module `id` passes to
 * `require` when its code runs. The result of a load is the trace of module
 * executions in the order they start. The JavaScript call stack is finite;
 * `depth` is the number of nested `require` frames still available.
 */
module RuntimeLoader {
  import opened Wrappers
  import opened Paths
  import opened Modules

  datatype LoadError =
    | ModuleNotFound(id: string)   // `modules[params]` is undefined, so reading `.code` throws
    | StackOverflow                // nesting exhausted the call stack

  /** What `require` ends up with when a specifier is not a property: `String(undefined)`. */
  const UndefinedKey: string := "undefined"

  /** `modules[params].dependencies[name]`, as a property key. */
  function LocalResolve(deps: DepMap, name: string): string {
    match Get(deps, name)
    case Some(target) => target
    case None => UndefinedKey
  }

  /** `require(id)`: the trace of executions it causes, or the error it throws. */
  function Require(modules: Table, calls: string -> seq<string>, id: string, depth: nat): (r: Result<seq<string>, LoadError>)
    ensures r.Success? ==> id in modules && r.value != [] && r.value[0] == id
    decreases depth, 0, 0
  {
    if depth == 0 then Failure(StackOverflow)
    else if id !in modules then Failure(ModuleNotFound(id))
    else
      match RunCode(modules, calls, modules[id].dependencies, calls(id), depth - 1)
      case Success(rest) => Success([id] + rest)
      case Failure(e) => Failure(e)
  }

  /** Evaluating code that calls `localRequire` on each of `names` in turn. */
  function RunCode(modules: Table, calls: string -> seq<string>, deps: DepMap, names: seq<string>, depth: nat): Result<seq<string>, LoadError>
    decreases depth, 1, |names|
  {
    if names == [] then Success([])
    else
      match Require(modules, calls, LocalResolve(deps, names[0]), depth)
      case Failure(e) => Failure(e)
      case Success(first) =>
        match RunCode(modules, calls, deps, names[1..], depth)
        case Success(rest) => Success(first + rest)
        case Failure(e) => Failure(e)
  }

  /**
   * The bundle's last statement: `require(entry)`. It runs the entry first,
   * or throws because the entry is not a key or the stack is exhausted.
   */
  function Bootstrap(bundle: Bundle, calls: string -> seq<string>, depth: nat): (r: Result<seq<string>, LoadError>)
    ensures r.Success? ==> bundle.entry in bundle.modules && r.value != [] && r.value[0] == bundle.entry
    ensures 0 < depth && bundle.entry !in bundle.modules ==> r == Failure(ModuleNotFound(bundle.entry))
    ensures depth == 0 ==> r == Failure(StackOverflow)
  {
    Require(bundle.modules, calls, bundle.entry, depth)
  }

  // ---------------------------------------------------------------------
  // Local resolution

  /**
   * A declared specifier resolves to the identifier the bundler recorded
   * for it in the requiring module; an undeclared one to "undefined".
   */
  lemma LocalResolveSpec(importer: string, imports: seq<string>, name: string)
    ensures name in imports ==> LocalResolve(DependencyMap(importer, imports), name) == Resolve(importer, name)
    ensures name !in imports ==> LocalResolve(DependencyMap(importer, imports), name) == UndefinedKey
  {
    DependencyMapSpec(importer, imports);
  }

  /** A property that is present names the target of one of the bindings. */
  lemma GetFound(d: DepMap, key: string) returns (k: nat)
    requires key in Keys(d)
    ensures k < |d| && Get(d, key) == Some(d[k].target)
    decreases |d|
  {
    if d[0].specifier == key {
      k := 0;
    } else {
      assert key in Keys(d[1..]);
      var k' := GetFound(d[1..], key);
      k := k' + 1;
    }
  }

  /**
   * The first module a module's code requires is found through the
   * requiring module's own dependency map: the trace goes on with that
   * target.
   */
  lemma FirstRequireIsLocal(modules: Table, calls: string -> seq<string>, id: string, depth: nat)
    requires id in modules && calls(id) != []
    ensures var r := Require(modules, calls, id, depth);
      r.Success? ==> |r.value| >= 2 && r.value[1] == LocalResolve(modules[id].dependencies, calls(id)[0])
  {
    if depth > 0 {
      var names := calls(id);
      var x := LocalResolve(modules[id].dependencies, names[0]);
      match Require(modules, calls, x, depth - 1)
      case Failure(_) =>
      case Success(first) =>
        match RunCode(modules, calls, modules[id].dependencies, names[1..], depth - 1)
        case Failure(_) =>
        case Success(rest) =>
          assert Require(modules, calls, id, depth) == Success([id] + (first + rest));
    }
  }

  /**
   * Two modules whose code starts with the same specifier, bound to
   * different targets in their own dependency maps, load different modules
   * next.
   */
  lemma SameNameDifferentTargets(modules: Table, calls: string -> seq<string>, a: string, b: string, depth: nat)
    requires a in modules && b in modules && calls(a) != [] && calls(b) != [] && calls(a)[0] == calls(b)[0]
    requires LocalResolve(modules[a].dependencies, calls(a)[0]) != LocalResolve(modules[b].dependencies, calls(b)[0])
    requires Require(modules, calls, a, depth).Success? && Require(modules, calls, b, depth).Success?
    ensures var ta, tb := Require(modules, calls, a, depth).value, Require(modules, calls, b, depth).value;
      |ta| >= 2 && |tb| >= 2 && ta[1] != tb[1]
  {
    FirstRequireIsLocal(modules, calls, a, depth);
    FirstRequireIsLocal(modules, calls, b, depth);
  }

  // ---------------------------------------------------------------------
  // No cache: every call executes

  /** How many of `names` resolve to `x` through `deps`. */
  function CountResolving(deps: DepMap, names: seq<string>, x: string): nat
    decreases |names|
  {
    if names == [] then 0
    else (if LocalResolve(deps, names[0]) == x then 1 else 0) + CountResolving(deps, names[1..], x)
  }

  /**
   * Code that requires `x` several times runs `x` at least that many
   * times: the loader keeps no module cache.
   */
  lemma {:induction false} EveryRequireExecutes(modules: Table, calls: string -> seq<string>, deps: DepMap, names: seq<string>, depth: nat, x: string)
    requires RunCode(modules, calls, deps, names, depth).Success?
    ensures multiset(RunCode(modules, calls, deps, names, depth).value)[x] >= CountResolving(deps, names, x)
    decreases |names|
  {
    if names != [] {
      var first := Require(modules, calls, LocalResolve(deps, names[0]), depth).value;
      var rest := RunCode(modules, calls, deps, names[1..], depth).value;
      EveryRequireExecutes(modules, calls, deps, names[1..], depth, x);
      assert first == [first[0]] + first[1..];
      assert multiset(first + rest) == multiset([first[0]]) + multiset(first[1..]) + multiset(rest);
    }
  }

  /**
   * A module required by two modules of one load runs twice, and so does
   * everything it requires: two `require` calls give two distinct
   * `exports` objects.
   */
  lemma SharedModuleRunsTwice(modules: Table, calls: string -> seq<string>, id: string, depth: nat, a: string, b: string, x: string)
    requires id in modules && calls(id) == [a, b]
    requires LocalResolve(modules[id].dependencies, a) == x && LocalResolve(modules[id].dependencies, b) == x
    requires Require(modules, calls, id, depth).Success?
    ensures multiset(Require(modules, calls, id, depth).value)[x] >= 2
  {
    var deps := modules[id].dependencies;
    var rest := RunCode(modules, calls, deps, [a, b], depth - 1).value;
    EveryRequireExecutes(modules, calls, deps, [a, b], depth - 1, x);
    assert [a, b][1..] == [b] && [b][1..] == [];
    assert CountResolving(deps, [b], x) == 1;
    assert CountResolving(deps, [a, b], x) == 2;
    assert Require(modules, calls, id, depth).value == [id] + rest;
  }

  // ---------------------------------------------------------------------
  // Evaluation cycles

  /**
   * A set of modules each of whose code starts by requiring a module of
   * the set: without a cache, loading any of them never returns and
   * overflows the stack, whatever its size.
   */
  ghost predicate FirstRequireCycle(modules: Table, calls: string -> seq<string>, cycle: set<string>) {
    forall m {:trigger calls(m)} :: m in cycle ==> m in modules && calls(m) != [] && LocalResolve(modules[m].dependencies, calls(m)[0]) in cycle
  }

  lemma {:induction false} FirstRequireCycleOverflows(modules: Table, calls: string -> seq<string>, cycle: set<string>, id: string, depth: nat)
    requires id in cycle && FirstRequireCycle(modules, calls, cycle)
    ensures Require(modules, calls, id, depth) == Failure(StackOverflow)
    decreases depth
  {
    if depth > 0 {
      var name := calls(id)[0];
      var x := LocalResolve(modules[id].dependencies, name);
      assert x in cycle;
      FirstRequireOverflows(modules, calls, id, depth);
      FirstRequireCycleOverflows(modules, calls, cycle, x, depth - 1);
    }
  }

  /** A module whose first require overflows overflows too. */
  lemma FirstRequireOverflows(modules: Table, calls: string -> seq<string>, id: string, depth: nat)
    requires depth > 0 && id in modules && calls(id) != []
    ensures Require(modules, calls, LocalResolve(modules[id].dependencies, calls(id)[0]), depth - 1) == Failure(StackOverflow)
      ==> Require(modules, calls, id, depth) == Failure(StackOverflow)
  {
  }

  /** A module whose first import is itself overflows the stack. */
  lemma SelfImportOverflows(modules: Table, calls: string -> seq<string>, id: string, depth: nat)
    requires id in modules && calls(id) != [] && LocalResolve(modules[id].dependencies, calls(id)[0]) == id
    ensures Require(modules, calls, id, depth) == Failure(StackOverflow)
  {
    FirstRequireCycleOverflows(modules, calls, {id}, id, depth);
  }

  // ---------------------------------------------------------------------
  // Missing modules

  /** Every specifier a module's code requires is one of its recorded dependencies. */
  ghost predicate Declared(modules: Table, calls: string -> seq<string>) {
    forall id, n :: id in modules && n in calls(id) ==> n in Keys(modules[id].dependencies)
  }

  /**
   * In a table closed under dependencies, code that requires only what it
   * imported never hits a missing module: a load succeeds or runs out of
   * stack.
   */
  lemma {:induction false} ClosedNeverMissing(modules: Table, calls: string -> seq<string>, id: string, depth: nat)
    requires Closed(modules) && Declared(modules, calls) && id in modules
    ensures !Require(modules, calls, id, depth).Failure? || Require(modules, calls, id, depth).error == StackOverflow
    decreases depth, 0, 0
  {
    if depth > 0 {
      ClosedRunCodeNeverMissing(modules, calls, id, calls(id), depth - 1);
    }
  }

  lemma {:induction false} ClosedRunCodeNeverMissing(modules: Table, calls: string -> seq<string>, id: string, names: seq<string>, depth: nat)
    requires Closed(modules) && Declared(modules, calls) && id in modules
    requires forall n :: n in names ==> n in calls(id)
    ensures var r := RunCode(modules, calls, modules[id].dependencies, names, depth);
      !r.Failure? || r.error == StackOverflow
    decreases depth, 1, |names|
  {
    if names != [] {
      var deps := modules[id].dependencies;
      assert names[0] in calls(id);
      var k := GetFound(deps, names[0]);
      var x := LocalResolve(deps, names[0]);
      assert x == deps[k].target && x in modules;
      ClosedNeverMissing(modules, calls, x, depth);
      ClosedRunCodeNeverMissing(modules, calls, id, names[1..], depth);
    }
  }

  /**
   * Code that requires a specifier its module never imported asks the
   * table for the key "undefined".
   */
  lemma UndeclaredRequire(modules: Table, calls: string -> seq<string>, id: string, depth: nat)
    requires id in modules && calls(id) != [] && calls(id)[0] !in Keys(modules[id].dependencies)
    requires depth >= 2 && UndefinedKey !in modules
    ensures Require(modules, calls, id, depth) == Failure(ModuleNotFound(UndefinedKey))
  {
    var deps := modules[id].dependencies;
    GetAbsent(deps, calls(id)[0]);
    assert LocalResolve(deps, calls(id)[0]) == UndefinedKey;
    assert Require(modules, calls, UndefinedKey, depth - 1) == Failure(ModuleNotFound(UndefinedKey));
    assert RunCode(modules, calls, deps, calls(id), depth - 1) == Failure(ModuleNotFound(UndefinedKey));
  }

  lemma GetAbsent(d: DepMap, key: string)
    requires key !in Keys(d)
    ensures Get(d, key) == None
    decreases |d|
  {
    if d != [] {
      assert Keys(d)[0] == d[0].specifier;
      assert Keys(d)[1..] == Keys(d[1..]);
      GetAbsent(d[1..], key);
    }
  }

  /**
   * A bundle whose table is closed and contains the entry loads without a
   * missing module when every module requires only what it imported.
   */
  lemma BootstrapNeverMissing(bundle: Bundle, calls: string -> seq<string>, depth: nat)
    requires Closed(bundle.modules) && Declared(bundle.modules, calls) && bundle.entry in bundle.modules
    ensures var r := Bootstrap(bundle, calls, depth);
      && (r.Success? ==> r.value[0] == bundle.entry)
      && (r.Failure? ==> r.error == StackOverflow)
  {
    ClosedNeverMissing(bundle.modules, calls, bundle.entry, depth);
  }
}
