/**
 * The records the bundler builds: the dependency map of one file, the
 * per-file record pushed onto the worklist, and the module table the
 * bundle embeds.
 */
module Modules {
  import opened Wrappers
  import opened Paths

  /**
   * What the external parser and transformer report for one file: the
   * source text of every import declaration, in traversal order and with
   * repeats, and the transpiled code.
   */
  datatype Source = Source(imports: seq<string>, code: string)

  /** The ways reading, parsing or transpiling a file can fail. */
  datatype BuildError = SourceNotFound(file: string) | SyntaxError(file: string)

  /** One property of a `dependencies` object: raw specifier to identifier. */
  datatype Binding = Binding(specifier: string, target: string)

  /**
   * A `dependencies` object. Its properties are kept in insertion order,
   * which is the order `for (key in dependencies)` visits them.
   */
  type DepMap = seq<Binding>

  /** An element of `modulesArr`: `{ entryFile, dependencies, code }`. */
  datatype ModuleRecord = ModuleRecord(entryFile: string, dependencies: DepMap, code: string)

  /** A value of `modulesObj`: `{ dependencies, code }`. */
  datatype ModuleEntry = ModuleEntry(dependencies: DepMap, code: string)

  /** `modulesObj`, keyed by `entryFile`. */
  type Table = map<string, ModuleEntry>

  /** What the emitted artifact carries: the table and the bootstrap id. */
  datatype Bundle = Bundle(modules: Table, entry: string)

  /** The specifiers of a dependency map, in property order. */
  function Keys(d: DepMap): (ks: seq<string>)
    ensures |ks| == |d| && forall k :: 0 <= k < |d| ==> ks[k] == d[k].specifier
    decreases |d|
  {
    if d == [] then [] else [d[0].specifier] + Keys(d[1..])
  }

  function Targets(d: DepMap): seq<string> {
    seq(|d|, k requires 0 <= k < |d| => d[k].target)
  }

  ghost predicate Distinct(s: seq<string>) {
    forall a, b :: 0 <= a < b < |s| ==> s[a] != s[b]
  }

  /** `dependencies[key]`: the target of the property named `key`, if any. */
  function Get(d: DepMap, key: string): Option<string>
    decreases |d|
  {
    if d == [] then None
    else if d[0].specifier == key then Some(d[0].target)
    else Get(d[1..], key)
  }

  /**
   * `dependencies[key] = value`: a new property goes at the end, an existing
   * one keeps its place and takes the new value.
   */
  function Put(d: DepMap, key: string, value: string): DepMap
    decreases |d|
  {
    if d == [] then [Binding(key, value)]
    else if d[0].specifier == key then [Binding(key, value)] + d[1..]
    else [d[0]] + Put(d[1..], key, value)
  }

  /**
   * An assignment appends a new key and keeps the place of an existing one;
   * afterwards the key reads back the value and every other key reads as before.
   */
  lemma {:induction false} PutSpec(d: DepMap, key: string, value: string)
    ensures var r := Put(d, key, value);
      && Keys(r) == (if key in Keys(d) then Keys(d) else Keys(d) + [key])
      && Get(r, key) == Some(value)
      && (forall other :: other != key ==> Get(r, other) == Get(d, other))
      && (forall b :: b in r ==> b in d || b == Binding(key, value))
    decreases |d|
  {
    var r := Put(d, key, value);
    if d == [] {
    } else if d[0].specifier == key {
      assert r[1..] == d[1..];
    } else {
      PutSpec(d[1..], key, value);
      assert r[1..] == Put(d[1..], key, value);
      assert key in Keys(d) <==> key in Keys(d[1..]);
    }
  }

  /** One `Put` per specifier, in order, each bound to `resolve` of itself. */
  function Assign(specs: seq<string>, resolve: string -> string): DepMap
    decreases |specs|
  {
    if specs == [] then []
    else Put(Assign(specs[..|specs| - 1], resolve), specs[|specs| - 1], resolve(specs[|specs| - 1]))
  }

  /** One more specifier is one more `Put` on the map built so far. */
  lemma AssignSnoc(specs: seq<string>, spec: string, resolve: string -> string)
    ensures Assign(specs + [spec], resolve) == Put(Assign(specs, resolve), spec, resolve(spec))
  {
    var s := specs + [spec];
    assert s[..|s| - 1] == specs && s[|s| - 1] == spec;
  }

  lemma {:induction false} AssignKeys(specs: seq<string>, resolve: string -> string)
    ensures var d := Assign(specs, resolve);
      Distinct(Keys(d)) && forall key :: key in Keys(d) <==> key in specs
    decreases |specs|
  {
    if specs != [] {
      var init := specs[..|specs| - 1];
      var last := specs[|specs| - 1];
      var d0 := Assign(init, resolve);
      AssignKeys(init, resolve);
      PutSpec(d0, last, resolve(last));
      SnocMembers(specs);
    }
  }

  lemma AssignValues(specs: seq<string>, resolve: string -> string)
    ensures var d := Assign(specs, resolve);
      && (forall key :: Get(d, key) == if key in specs then Some(resolve(key)) else None)
      && (forall b :: b in d ==> b.target == resolve(b.specifier))
  {
    AssignGet(specs, resolve);
    AssignTargets(specs, resolve);
  }

  lemma {:induction false} AssignGet(specs: seq<string>, resolve: string -> string)
    ensures forall key :: Get(Assign(specs, resolve), key) == if key in specs then Some(resolve(key)) else None
    decreases |specs|
  {
    if specs != [] {
      var init := specs[..|specs| - 1];
      var last := specs[|specs| - 1];
      AssignGet(init, resolve);
      PutSpec(Assign(init, resolve), last, resolve(last));
      SnocMembers(specs);
    }
  }

  lemma {:induction false} AssignTargets(specs: seq<string>, resolve: string -> string)
    ensures forall b :: b in Assign(specs, resolve) ==> b.target == resolve(b.specifier)
    decreases |specs|
  {
    if specs != [] {
      var init := specs[..|specs| - 1];
      var last := specs[|specs| - 1];
      AssignTargets(init, resolve);
      PutSpec(Assign(init, resolve), last, resolve(last));
    }
  }

  /** The members of a non-empty list are those of its front and its last element. */
  lemma SnocMembers(specs: seq<string>)
    requires specs != []
    ensures forall key :: key in specs <==> key in specs[..|specs| - 1] || key == specs[|specs| - 1]
  {
    assert specs == specs[..|specs| - 1] + [specs[|specs| - 1]];
  }

  /** A prefix one longer is the shorter prefix and one more element. */
  lemma TakeSnoc(s: seq<string>, k: nat)
    requires k < |s|
    ensures s[..k + 1] == s[..k] + [s[k]]
  {
  }

  /** Position of the first occurrence of `x` in `s`. */
  function FirstIndex(s: seq<string>, x: string): (i: nat)
    requires x in s
    ensures i < |s| && s[i] == x && x !in s[..i]
    decreases |s|
  {
    if s[0] == x then 0 else 1 + FirstIndex(s[1..], x)
  }

  lemma FirstIndexOfPrefix(s: seq<string>, extra: seq<string>, x: string)
    requires x in s
    ensures x in s + extra && FirstIndex(s + extra, x) == FirstIndex(s, x)
  {
    var i := FirstIndex(s, x);
    assert (s + extra)[i] == x;
  }

  /** Keys after one more specifier: a new one is appended, a repeat changes nothing. */
  lemma KeysSnoc(specs: seq<string>, resolve: string -> string)
    requires specs != []
    ensures var init, last := specs[..|specs| - 1], specs[|specs| - 1];
      Keys(Assign(specs, resolve))
        == if last in init then Keys(Assign(init, resolve))
           else Keys(Assign(init, resolve)) + [last]
  {
    var init, last := specs[..|specs| - 1], specs[|specs| - 1];
    AssignKeys(init, resolve);
    PutSpec(Assign(init, resolve), last, resolve(last));
  }

  /** `ks` lists elements of `s` in the order of their first occurrence in `s`. */
  ghost predicate InFirstOccurrenceOrder(ks: seq<string>, s: seq<string>) {
    forall a, b :: 0 <= a < b < |ks| ==>
      ks[a] in s && ks[b] in s && FirstIndex(s, ks[a]) < FirstIndex(s, ks[b])
  }

  lemma OrderSnoc(ks: seq<string>, kb: seq<string>, init: seq<string>, last: string)
    requires InFirstOccurrenceOrder(kb, init)
    requires forall x :: x in kb <==> x in init
    requires ks == if last in init then kb else kb + [last]
    ensures InFirstOccurrenceOrder(ks, init + [last])
  {
    var s := init + [last];
    forall a, b | 0 <= a < b < |ks|
      ensures ks[a] in s && ks[b] in s && FirstIndex(s, ks[a]) < FirstIndex(s, ks[b])
    {
      assert kb[a] in kb;
      FirstIndexOfPrefix(init, [last], ks[a]);
      if b < |kb| {
        assert kb[b] in kb;
        FirstIndexOfPrefix(init, [last], ks[b]);
      } else {
        assert ks[b] == last && last !in init;
      }
    }
  }

  lemma {:induction false} AssignOrder(specs: seq<string>, resolve: string -> string)
    ensures InFirstOccurrenceOrder(Keys(Assign(specs, resolve)), specs)
    decreases |specs|
  {
    if specs != [] {
      var init := specs[..|specs| - 1];
      var last := specs[|specs| - 1];
      assert specs == init + [last];
      AssignOrder(init, resolve);
      KeysSnoc(specs, resolve);
      AssignKeys(init, resolve);
      OrderSnoc(Keys(Assign(specs, resolve)), Keys(Assign(init, resolve)), init, last);
    }
  }

  /**
   * The `dependencies` object `transform` builds for `importer`: one
   * property assignment per import declaration, in traversal order.
   */
  function DependencyMap(importer: string, specs: seq<string>): DepMap {
    Assign(specs, Resolver(importer))
  }

  /** Resolution of every specifier met in the file `importer`. */
  function Resolver(importer: string): string -> string {
    spec => Resolve(importer, spec)
  }

  /**
   * The dependency map has one property per distinct specifier, each holding
   * the resolved identifier of that specifier.
   */
  lemma DependencyMapSpec(importer: string, specs: seq<string>)
    ensures var d := DependencyMap(importer, specs);
      && Distinct(Keys(d))
      && (forall key :: key in Keys(d) <==> key in specs)
      && (forall key :: Get(d, key) == if key in specs then Some(Resolve(importer, key)) else None)
      && (forall b :: b in d ==> b.target == Resolve(importer, b.specifier))
  {
    AssignKeys(specs, Resolver(importer));
    AssignValues(specs, Resolver(importer));
  }

  /**
   * The keys of a dependency map appear in the order in which each specifier
   * was first imported.
   */
  lemma DependencyOrder(importer: string, specs: seq<string>)
    ensures InFirstOccurrenceOrder(Keys(DependencyMap(importer, specs)), specs)
  {
    AssignOrder(specs, Resolver(importer));
  }

  /** Every target of a dependency map is written as a "./"-relative path. */
  lemma TargetsAreRelative(importer: string, specs: seq<string>)
    ensures forall t :: t in Targets(DependencyMap(importer, specs)) ==> |t| >= 2 && t[..2] == "./"
  {
    var d := DependencyMap(importer, specs);
    DependencyMapSpec(importer, specs);
    forall t | t in Targets(d) ensures |t| >= 2 && t[..2] == "./" {
      var k :| 0 <= k < |d| && Targets(d)[k] == t;
      assert d[k] in d;
    }
  }

  /** The record `transform(parse(id), id)` returns for a file. */
  function RecordFor(id: string, src: Source): ModuleRecord {
    ModuleRecord(id, DependencyMap(id, src.imports), src.code)
  }

  function EntryOf(r: ModuleRecord): ModuleEntry {
    ModuleEntry(r.dependencies, r.code)
  }

  /** Every dependency target of every module is itself a module of the table. */
  ghost predicate Closed(t: Table) {
    forall id, k :: id in t && 0 <= k < |t[id].dependencies| ==> t[id].dependencies[k].target in t
  }
}
