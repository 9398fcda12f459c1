/**
 * The bundler object: `run` compiles the entry, walks the worklist
 * `modulesArr` while appending the records of every dependency, folds the
 * array into `modulesObj` and hands the table to `generate`.
 */
module MiniWebpack {
  import opened Wrappers
  import opened Paths
  import opened Modules
  import opened ImportGraph

  datatype OutputOptions = OutputOptions(path: string, filename: string)

  datatype Options = Options(entry: string, output: OutputOptions)

  class Webpack {
    const entry: string
    const output: OutputOptions

    constructor (options: Options)
      ensures entry == options.entry && output == options.output
    {
      entry := options.entry;
      output := options.output;
    }

    /**
     * `transform`: one property assignment per import declaration met by
     * the traversal, then the record of the file.
     */
    method Transform(entryFile: string, src: Source) returns (record: ModuleRecord)
      ensures record == RecordFor(entryFile, src)
    {
      var resolve := Resolver(entryFile);
      var dependencies: DepMap := [];
      var k := 0;
      while k < |src.imports|
        invariant 0 <= k <= |src.imports|
        invariant dependencies == Assign(src.imports[..k], resolve)
      {
        var spec := src.imports[k];
        TakeSnoc(src.imports, k);
        AssignSnoc(src.imports[..k], spec, resolve);
        dependencies := Put(dependencies, spec, resolve(spec));
        k := k + 1;
      }
      assert src.imports[..k] == src.imports;
      record := ModuleRecord(entryFile, dependencies, src.code);
    }

    /**
     * `modulesArr.forEach(item => modulesObj[item.entryFile] = ...)`: the
     * table has one key per distinct `entryFile`, holding the last record
     * written under it.
     */
    method Tabulate(records: seq<ModuleRecord>) returns (modulesObj: Table)
      ensures forall id :: id in modulesObj <==> exists k :: 0 <= k < |records| && records[k].entryFile == id
      ensures forall id :: id in modulesObj ==>
        exists k :: 0 <= k < |records| && records[k].entryFile == id
          && modulesObj[id] == EntryOf(records[k])
          && forall l :: k < l < |records| ==> records[l].entryFile != id
    {
      modulesObj := map[];
      var n := 0;
      while n < |records|
        invariant 0 <= n <= |records|
        invariant forall id :: id in modulesObj <==> exists k :: 0 <= k < n && records[k].entryFile == id
        invariant forall id :: id in modulesObj ==>
          exists k :: 0 <= k < n && records[k].entryFile == id
            && modulesObj[id] == EntryOf(records[k])
            && forall l :: k < l < n ==> records[l].entryFile != id
      {
        var item := records[n];
        modulesObj := modulesObj[item.entryFile := ModuleEntry(item.dependencies, item.code)];
        n := n + 1;
      }
    }

    /** `generate`: the artifact embeds the table and bootstraps `this.entry`. */
    function Generate(modulesObj: Table): Bundle {
      Bundle(modulesObj, entry)
    }

    /**
     * One pass of the outer loop of `run`: the dependencies of record `i`,
     * then the inner `for (var key in dependencies)`, which compiles each
     * target in property order and pushes its record. A compile error
     * aborts the build. `compiled` grows by the targets handed to the
     * compiler.
     */
    method PushDependencies(compile: Compiler, modulesArr: seq<ModuleRecord>, i: nat, ghost compiled: seq<string>)
      returns (failure: Option<BuildError>, modulesArr': seq<ModuleRecord>, ghost compiled': seq<string>)
      requires Worklist(compile, entry, compiled, modulesArr, i) && i < |compiled|
      ensures compiled' != [] && Unfolded(Edges(compile), entry, compiled')
      ensures failure.None? ==> Worklist(compile, entry, compiled', modulesArr', i + 1)
      ensures failure.Some? ==>
        && compile(compiled'[|compiled'| - 1]) == Failure(failure.value)
        && RecordsOf(compile, compiled'[..|compiled'| - 1], modulesArr')
    {
      ghost var next := Edges(compile);
      var dependencies := modulesArr[i].dependencies;
      ghost var kids := Targets(dependencies);
      RecordEdges(compile, compiled, modulesArr, i);
      WorklistStep(next, entry, compiled, i, compiled + kids);
      ghost var h: nat :| compiled + kids <= BfsFrom(next, [entry], h);
      ghost var order := BfsFrom(next, [entry], h);

      modulesArr' := modulesArr;
      compiled' := compiled;
      var j := 0;
      while j < |dependencies|
        invariant 0 <= j <= |dependencies| == |kids|
        invariant compiled' == compiled + kids[..j] && compiled' <= order
        invariant RecordsOf(compile, compiled', modulesArr')
      {
        var target := dependencies[j].target;
        var src := compile(target);
        assert kids[j] == target;
        TakeOneMore(compiled, kids, j);
        PrefixOfExtension(compiled, kids, j + 1, order);
        ghost var before := compiled';
        compiled' := compiled' + [target];
        if src.Failure? {
          assert compiled'[..|compiled'| - 1] == before;
          return Some(src.error), modulesArr', compiled';
        }
        var record := Transform(target, src.value);
        RecordsOfSnoc(compile, before, modulesArr', target, record);
        modulesArr' := modulesArr' + [record];
        j := j + 1;
      }
      assert kids[..j] == kids;
      return None, modulesArr', compiled';
    }

    /**
     * The worklist loop of `run`: the entry's record, then for each record
     * in turn the records of its dependency targets. The ghost `compiled`
     * lists the ids handed to the compiler, in call order; it is always a
     * prefix of the breadth-first unfolding, and the whole build order when
     * no compile fails. The loop comes to an end exactly when `Stops` holds.
     */
    method Collect(compile: Compiler) returns (failure: Option<BuildError>, modulesArr: seq<ModuleRecord>, ghost compiled: seq<string>)
      requires Stops(compile, entry)
      ensures Collected(compile, entry, failure, modulesArr, compiled)
      ensures Outcome(compile, entry, failure, modulesArr)
    {
      var first := compile(entry);
      compiled := [entry];
      if first.Failure? {
        EntryFailure(compile, entry, first.error);
        return Some(first.error), [], compiled;
      }
      var record := Transform(entry, first.value);
      WorklistInit(compile, entry, record);
      failure, modulesArr, compiled := Drain(compile, [record], compiled);
    }

    /**
     * The `for (let i=0; i< modulesArr.length; i++)` loop itself, from
     * the state where only the entry's record is on the worklist.
     */
    method Drain(compile: Compiler, modulesArr: seq<ModuleRecord>, ghost compiled: seq<string>)
      returns (failure: Option<BuildError>, modulesArr': seq<ModuleRecord>, ghost compiled': seq<string>)
      requires Stops(compile, entry) && Worklist(compile, entry, compiled, modulesArr, 0)
      ensures Collected(compile, entry, failure, modulesArr', compiled')
      ensures Outcome(compile, entry, failure, modulesArr')
    {
      ghost var bound := StopBound(compile, entry);
      modulesArr', compiled' := modulesArr, compiled;
      RecordsCompile(compile, compiled', modulesArr');
      var i := 0;
      while i < |modulesArr'|
        invariant Worklist(compile, entry, compiled', modulesArr', i)
        invariant |compiled'| <= bound
        decreases bound - i
      {
        failure, modulesArr', compiled' := PushDependencies(compile, modulesArr', i, compiled');
        if failure.None? {
          RecordsCompile(compile, compiled', modulesArr');
        }
        if failure.Some? {
          OutcomeOf(compile, entry, failure, modulesArr', compiled');
          return;
        }
        i := i + 1;
      }
      WorklistComplete(compile, entry, compiled', modulesArr', i);
      failure := None;
      OutcomeOf(compile, entry, failure, modulesArr', compiled');
    }

    /**
     * `run`: collect the records, fold them into the table, generate. It
     * returns exactly when `Stops` holds: the import paths from the entry
     * are bounded, or a file of the unfolding fails to compile (see
     * ImportGraph.CycleStopsOnlyOnFailure).
     */
    method Run(compile: Compiler) returns (r: Result<Bundle, BuildError>, ghost compiled: seq<string>)
      requires Stops(compile, entry)
      ensures compiled != [] && Unfolded(Edges(compile), entry, compiled)
      ensures forall k :: 0 <= k < |compiled| - 1 ==> compile(compiled[k]).Success?
      ensures r.Failure? ==> compile(compiled[|compiled| - 1]) == Failure(r.error)
      ensures r.Failure? ==> FirstFailure(compile, entry, r.error)
      ensures r.Success? ==>
        && Terminates(Edges(compile), entry)
        && compiled == BuildOrder(Edges(compile), entry)
        && forall id :: id in compiled ==> compile(id).Success?
      ensures r.Success? ==> r.value.entry == entry && entry in r.value.modules
      ensures r.Success? ==> forall id :: id in r.value.modules <==> id in BuildOrder(Edges(compile), entry)
      ensures r.Success? ==> forall id :: id in r.value.modules ==>
        compile(id).Success? && r.value.modules[id] == EntryOf(RecordFor(id, compile(id).value))
      ensures r.Success? ==> Closed(r.value.modules)
    {
      var failure, modulesArr;
      failure, modulesArr, compiled := Collect(compile);
      if failure.Some? {
        OutcomeFirstFailure(compile, entry, failure.value, modulesArr);
        RecordsOfAll(compile, compiled[..|compiled| - 1], modulesArr);
        assert forall k :: 0 <= k < |compiled| - 1 ==> compiled[k] == compiled[..|compiled| - 1][k];
        return Failure(failure.value), compiled;
      }
      var modulesObj := Tabulate(modulesArr);
      TableOfBuildOrder(compile, entry, modulesArr, modulesObj);
      r := Success(Generate(modulesObj));
    }
  }

  /**
   * The state of the worklist loop before iteration `i`: the records are
   * those of the compiled ids, and the ids are the entry followed by the
   * children of the first `i` of them, a prefix of the unfolding.
   */
  ghost predicate Worklist(compile: Compiler, entry: string, ids: seq<string>, records: seq<ModuleRecord>, i: nat) {
    && i <= |ids|
    && RecordsOf(compile, ids, records)
    && ids == [entry] + ChildrenOf(Edges(compile), ids[..i])
    && Unfolded(Edges(compile), entry, ids)
  }

  /**
   * The state the worklist loop ends in. The ghost `compiled` lists the
   * ids handed to the compiler, in call order, and is a prefix of the
   * unfolding. After an error, the last of them is the file that failed and
   * the records are those of the others; otherwise the import paths are
   * bounded, `compiled` is the build order and the records are theirs.
   */
  ghost predicate Collected(compile: Compiler, entry: string, failure: Option<BuildError>,
                            records: seq<ModuleRecord>, compiled: seq<string>) {
    && compiled != [] && Unfolded(Edges(compile), entry, compiled)
    && (failure.Some? ==>
      && compile(compiled[|compiled| - 1]) == Failure(failure.value)
      && RecordsOf(compile, compiled[..|compiled| - 1], records))
    && (failure.None? ==>
      && Terminates(Edges(compile), entry)
      && compiled == BuildOrder(Edges(compile), entry)
      && RecordsOf(compile, compiled, records))
  }

  /** The build that stops at once, the entry failing to compile. */
  lemma EntryFailure(compile: Compiler, entry: string, e: BuildError)
    requires compile(entry) == Failure(e)
    ensures Collected(compile, entry, Some(e), [], [entry])
    ensures Outcome(compile, entry, Some(e), [])
  {
    WorklistStart(Edges(compile), entry);
    assert [entry][..0] == [];
    OutcomeOf(compile, entry, Some(e), [], [entry]);
  }

  /** The worklist holding only the entry's record, before the first iteration. */
  lemma WorklistInit(compile: Compiler, entry: string, record: ModuleRecord)
    requires compile(entry).Success? && record == RecordFor(entry, compile(entry).value)
    ensures Worklist(compile, entry, [entry], [record], 0)
  {
    WorklistStart(Edges(compile), entry);
    RecordsOfSingle(compile, entry, record);
  }

  /**
   * What the worklist loop leaves behind, in terms of the unfolding alone:
   * with no error, the import paths are bounded and the records are those
   * of the whole build order; with an error, the records are those of the
   * unfolding up to the first file whose compilation failed, and the error
   * is that file's.
   */
  ghost predicate Outcome(compile: Compiler, entry: string, failure: Option<BuildError>, records: seq<ModuleRecord>) {
    match failure
    case None =>
      && Terminates(Edges(compile), entry)
      && RecordsOf(compile, BuildOrder(Edges(compile), entry), records)
    case Some(e) =>
      exists h: nat ::
        var order := BfsFrom(Edges(compile), [entry], h);
        && |records| < |order|
        && compile(order[|records|]) == Failure(e)
        && RecordsOf(compile, order[..|records|], records)
  }

  lemma OutcomeOf(compile: Compiler, entry: string, failure: Option<BuildError>, records: seq<ModuleRecord>, compiled: seq<string>)
    requires Collected(compile, entry, failure, records, compiled)
    ensures Outcome(compile, entry, failure, records)
  {
    if failure.Some? {
      var h: nat :| compiled <= BfsFrom(Edges(compile), [entry], h);
      var order := BfsFrom(Edges(compile), [entry], h);
      var n := |compiled| - 1;
      assert |records| == n;
      assert order[n] == compiled[n];
      assert order[..n] == compiled[..n];
    }
  }

  /** A failed outcome carries the error of the first failing file of the unfolding. */
  lemma OutcomeFirstFailure(compile: Compiler, entry: string, e: BuildError, records: seq<ModuleRecord>)
    requires Outcome(compile, entry, Some(e), records)
    ensures FirstFailure(compile, entry, e)
  {
    var h: nat :|
      var order := BfsFrom(Edges(compile), [entry], h);
      && |records| < |order|
      && compile(order[|records|]) == Failure(e)
      && RecordsOf(compile, order[..|records|], records);
    var order := BfsFrom(Edges(compile), [entry], h);
    RecordsCompile(compile, order[..|records|], records);
    assert CompilesAll(compile, order[..|records|]);
  }

  /** The ids whose records were pushed all compile. */
  lemma RecordsCompile(compile: Compiler, ids: seq<string>, records: seq<ModuleRecord>)
    requires RecordsOf(compile, ids, records)
    ensures CompilesAll(compile, ids)
  {
    RecordsOfAll(compile, ids, records);
  }

  /** When the loop index catches up, every file of the build order has been compiled. */
  lemma WorklistComplete(compile: Compiler, entry: string, ids: seq<string>, records: seq<ModuleRecord>, i: nat)
    requires Worklist(compile, entry, ids, records, i) && i >= |records|
    ensures Terminates(Edges(compile), entry) && ids == BuildOrder(Edges(compile), entry)
  {
    assert i == |ids| && ids[..i] == ids[..|ids|];
    WorklistDone(Edges(compile), entry, ids);
  }

  /** `record` is what `transform(parse(id), id)` returns, the compile having succeeded. */
  ghost predicate Compiled(compile: Compiler, id: string, record: ModuleRecord) {
    compile(id).Success? && record == RecordFor(id, compile(id).value)
  }

  /** Record `k` is the record of the `k`-th compiled id. */
  ghost predicate RecordsOf(compile: Compiler, ids: seq<string>, records: seq<ModuleRecord>)
    decreases |ids|
  {
    && |records| == |ids|
    && (ids != [] ==>
      && RecordsOf(compile, ids[..|ids| - 1], records[..|records| - 1])
      && Compiled(compile, ids[|ids| - 1], records[|records| - 1]))
  }

  lemma RecordsOfSnoc(compile: Compiler, ids: seq<string>, records: seq<ModuleRecord>, id: string, record: ModuleRecord)
    requires RecordsOf(compile, ids, records) && Compiled(compile, id, record)
    ensures RecordsOf(compile, ids + [id], records + [record])
  {
    assert (ids + [id])[..|ids|] == ids;
    assert (records + [record])[..|records|] == records;
  }

  lemma RecordsOfSingle(compile: Compiler, id: string, record: ModuleRecord)
    requires Compiled(compile, id, record)
    ensures RecordsOf(compile, [id], [record])
  {
    assert [id][..0] == [] && [record][..0] == [];
  }

  lemma {:induction false} RecordsOfAt(compile: Compiler, ids: seq<string>, records: seq<ModuleRecord>, k: nat)
    requires RecordsOf(compile, ids, records) && k < |ids|
    ensures Compiled(compile, ids[k], records[k])
    decreases |ids|
  {
    var n := |ids| - 1;
    if k < n {
      assert RecordsOf(compile, ids[..n], records[..n]);
      RecordsOfAt(compile, ids[..n], records[..n], k);
      assert ids[..n][k] == ids[k] && records[..n][k] == records[k];
    } else {
      assert k == n && ids != [];
    }
  }

  lemma RecordsOfAll(compile: Compiler, ids: seq<string>, records: seq<ModuleRecord>)
    requires RecordsOf(compile, ids, records)
    ensures forall k :: 0 <= k < |ids| ==> Compiled(compile, ids[k], records[k])
  {
    forall k | 0 <= k < |ids| ensures Compiled(compile, ids[k], records[k]) {
      RecordsOfAt(compile, ids, records, k);
    }
  }

  /** The targets of a compiled record are the successors of its id in the import graph. */
  lemma RecordEdges(compile: Compiler, ids: seq<string>, records: seq<ModuleRecord>, i: nat)
    requires RecordsOf(compile, ids, records) && i < |ids|
    ensures Targets(records[i].dependencies) == Edges(compile)(ids[i])
  {
    RecordsOfAt(compile, ids, records, i);
  }

  /**
   * Folding the records of the whole build order gives a table keyed by
   * exactly the discovered files, each holding its own record, and closed
   * under dependencies.
   */
  lemma TableOfBuildOrder(compile: Compiler, entry: string, records: seq<ModuleRecord>, table: Table)
    requires Terminates(Edges(compile), entry)
    requires RecordsOf(compile, BuildOrder(Edges(compile), entry), records)
    requires forall id :: id in table <==> exists k :: 0 <= k < |records| && records[k].entryFile == id
    requires forall id :: id in table ==>
      exists k :: 0 <= k < |records| && records[k].entryFile == id && table[id] == EntryOf(records[k])
    ensures entry in table
    ensures forall id :: id in table <==> id in BuildOrder(Edges(compile), entry)
    ensures forall id :: id in table ==>
      compile(id).Success? && table[id] == EntryOf(RecordFor(id, compile(id).value))
    ensures Closed(table)
  {
    var order := BuildOrder(Edges(compile), entry);
    BuildOrderIsFifo(Edges(compile), entry);
    RecordsOfAll(compile, order, records);
    assert Compiled(compile, order[0], records[0]);
    TableEntries(compile, order, records, table);
    TableKeys(order, records, table);
    TableClosed(compile, entry, table);
  }

  lemma TableEntries(compile: Compiler, ids: seq<string>, records: seq<ModuleRecord>, table: Table)
    requires |records| == |ids| && forall k :: 0 <= k < |ids| ==> Compiled(compile, ids[k], records[k])
    requires forall id :: id in table ==>
      exists k :: 0 <= k < |records| && records[k].entryFile == id && table[id] == EntryOf(records[k])
    ensures forall id :: id in table ==>
      compile(id).Success? && table[id] == EntryOf(RecordFor(id, compile(id).value))
  {
    forall id | id in table
      ensures compile(id).Success? && table[id] == EntryOf(RecordFor(id, compile(id).value))
    {
      var k :| 0 <= k < |records| && records[k].entryFile == id && table[id] == EntryOf(records[k]);
      assert Compiled(compile, ids[k], records[k]);
    }
  }

  lemma TableKeys(ids: seq<string>, records: seq<ModuleRecord>, table: Table)
    requires |records| == |ids| && forall k :: 0 <= k < |ids| ==> records[k].entryFile == ids[k]
    requires forall id :: id in table <==> exists k :: 0 <= k < |records| && records[k].entryFile == id
    ensures forall id :: id in table <==> id in ids
  {
    forall id | id in ids ensures id in table {
      var k :| 0 <= k < |ids| && ids[k] == id;
      assert records[k].entryFile == id;
    }
  }

  lemma TableClosed(compile: Compiler, entry: string, table: Table)
    requires Terminates(Edges(compile), entry)
    requires forall id :: id in table <==> id in BuildOrder(Edges(compile), entry)
    requires forall id :: id in table ==>
      compile(id).Success? && table[id] == EntryOf(RecordFor(id, compile(id).value))
    ensures Closed(table)
  {
    var next := Edges(compile);
    BuildOrderClosed(next, entry);
    forall id | id in table ensures Targets(table[id].dependencies) == next(id) {
    }
    ClosedUnderEdges(next, BuildOrder(next, entry), table);
  }

  /** A table whose edges are those of a closed list of its keys is closed. */
  lemma ClosedUnderEdges(next: string -> seq<string>, order: seq<string>, table: Table)
    requires forall id :: id in table <==> id in order
    requires forall j, x :: 0 <= j < |order| && x in next(order[j]) ==> x in order
    requires forall id :: id in table ==> Targets(table[id].dependencies) == next(id)
    ensures Closed(table)
  {
    forall id, k | id in table && 0 <= k < |table[id].dependencies|
      ensures table[id].dependencies[k].target in table
    {
      var j :| 0 <= j < |order| && order[j] == id;
      assert Targets(table[id].dependencies)[k] in next(order[j]);
    }
  }
}
