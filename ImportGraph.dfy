/**
 * The order in which `run` discovers files. The worklist `modulesArr` is
 * read with a growing index while records are appended behind it, so it is
 * a breadth-first unfolding of the import graph: nothing is deduplicated,
 * and every import path from the entry yields one record.
 */
module ImportGraph {
  import opened Wrappers
  import opened Paths
  import opened Modules

  /**
   * `transform(parse(id), id)` up to the dependency map: reading the file,
   * parsing it and transpiling it, which can fail.
   */
  type Compiler = string -> Result<Source, BuildError>

  /**
   * The ids appended to the worklist when the record of `id` is processed,
   * in `for..in` order. A file that fails to compile has none: the build
   * stops there.
   */
  function Children(compile: Compiler, id: string): seq<string> {
    match compile(id)
    case Success(src) => Targets(DependencyMap(id, src.imports))
    case Failure(_) => []
  }

  /** The import graph of a compiler, as a successor function. */
  function Edges(compile: Compiler): string -> seq<string> {
    id => Children(compile, id)
  }

  /** The children of each id in turn, concatenated. */
  function ChildrenOf(next: string -> seq<string>, ids: seq<string>): seq<string>
    decreases |ids|
  {
    if ids == [] then []
    else ChildrenOf(next, ids[..|ids| - 1]) + next(ids[|ids| - 1])
  }

  /** Endpoints of the import paths of length `k` that start in `roots`. */
  function LevelFrom(next: string -> seq<string>, roots: seq<string>, k: nat): seq<string> {
    if k == 0 then roots else ChildrenOf(next, LevelFrom(next, roots, k - 1))
  }

  /** Levels `0 .. h-1`, one after the other. */
  function BfsFrom(next: string -> seq<string>, roots: seq<string>, h: nat): seq<string> {
    if h == 0 then [] else BfsFrom(next, roots, h - 1) + LevelFrom(next, roots, h - 1)
  }

  /** Every import path from the entry is shorter than some bound. */
  ghost predicate Terminates(next: string -> seq<string>, entry: string) {
    exists h: nat :: LevelFrom(next, [entry], h) == []
  }

  /** The ids of `modulesArr` when the loop stops, in order. */
  ghost function BuildOrder(next: string -> seq<string>, entry: string): seq<string>
    requires Terminates(next, entry)
  {
    var h: nat :| LevelFrom(next, [entry], h) == [];
    BfsFrom(next, [entry], h)
  }

  /**
   * `ids` is a prefix of the breadth-first unfolding from the entry, which
   * may be infinite: it is a prefix of the unfolding cut at some depth.
   */
  ghost predicate Unfolded(next: string -> seq<string>, entry: string, ids: seq<string>) {
    exists h: nat :: ids <= BfsFrom(next, [entry], h)
  }

  /** Some file of the unfolding from the entry fails to compile. */
  ghost predicate ReachesFailure(compile: Compiler, entry: string) {
    exists h: nat, x :: x in BfsFrom(Edges(compile), [entry], h) && compile(x).Failure?
  }

  /**
   * The worklist loop comes to an end: either the import paths from the
   * entry are bounded, or the unfolding reaches a file whose compilation
   * throws, however long it is.
   */
  ghost predicate Stops(compile: Compiler, entry: string) {
    Terminates(Edges(compile), entry) || ReachesFailure(compile, entry)
  }

  /** Every id of `ids` compiles. */
  ghost predicate CompilesAll(compile: Compiler, ids: seq<string>) {
    forall k :: 0 <= k < |ids| ==> compile(ids[k]).Success?
  }

  /**
   * `e` is the error of the first file, in unfolding order, whose
   * compilation fails.
   */
  ghost predicate FirstFailure(compile: Compiler, entry: string, e: BuildError) {
    exists h: nat, p: nat ::
      var order := BfsFrom(Edges(compile), [entry], h);
      && p < |order|
      && compile(order[p]) == Failure(e)
      && CompilesAll(compile, order[..p])
  }

  /** Some file reachable from the entry imports itself, directly or not. */
  ghost predicate ReachableCycle(next: string -> seq<string>, entry: string) {
    exists x, k: nat, m: nat ::
      x in LevelFrom(next, [entry], k) && 1 <= m && x in LevelFrom(next, [x], m)
  }

  // ---------------------------------------------------------------------
  // Structure of ChildrenOf, LevelFrom and BfsFrom

  lemma {:induction false} ChildrenOfAppend(next: string -> seq<string>, a: seq<string>, b: seq<string>)
    ensures ChildrenOf(next, a + b) == ChildrenOf(next, a) + ChildrenOf(next, b)
    decreases |b|
  {
    if b == [] {
      assert a + b == a;
    } else {
      var b' := b[..|b| - 1];
      AppendInit(a, b);
      ChildrenOfAppend(next, a, b');
    }
  }

  lemma AppendInit(a: seq<string>, b: seq<string>)
    requires b != []
    ensures var ab := a + b;
      ab[..|ab| - 1] == a + b[..|b| - 1] && ab[|ab| - 1] == b[|b| - 1]
  {
    var ab := a + b;
    assert ab[..|ab| - 1] == a + b[..|b| - 1];
  }

  lemma ChildrenOfSingle(next: string -> seq<string>, x: string)
    ensures ChildrenOf(next, [x]) == next(x)
  {
    assert [x][..0] == [];
  }

  lemma ChildrenOfPrefix(next: string -> seq<string>, a: seq<string>, b: seq<string>)
    requires a <= b
    ensures ChildrenOf(next, a) <= ChildrenOf(next, b)
  {
    assert b == a + b[|a|..];
    ChildrenOfAppend(next, a, b[|a|..]);
  }

  /** A child of any listed id is among the children of the list. */
  lemma ChildrenOfContains(next: string -> seq<string>, ids: seq<string>, j: nat, x: string)
    requires j < |ids| && x in next(ids[j])
    ensures x in ChildrenOf(next, ids)
  {
    assert ids == ids[..j] + [ids[j]] + ids[j + 1..];
    ChildrenOfAppend(next, ids[..j] + [ids[j]], ids[j + 1..]);
    ChildrenOfAppend(next, ids[..j], [ids[j]]);
    ChildrenOfSingle(next, ids[j]);
  }

  /** Every element of the children of a list is a child of one of its ids. */
  lemma {:induction false} ChildrenOfMember(next: string -> seq<string>, ids: seq<string>, x: string) returns (j: nat)
    requires x in ChildrenOf(next, ids)
    ensures j < |ids| && x in next(ids[j])
    decreases |ids|
  {
    var init := ids[..|ids| - 1];
    if x in next(ids[|ids| - 1]) {
      j := |ids| - 1;
    } else {
      j := ChildrenOfMember(next, init, x);
      assert ids[j] == init[j];
    }
  }

  /** Appending the children of the first `h` levels to the roots gives `h + 1` levels. */
  lemma {:induction false} BfsStep(next: string -> seq<string>, roots: seq<string>, h: nat)
    ensures roots + ChildrenOf(next, BfsFrom(next, roots, h)) == BfsFrom(next, roots, h + 1)
    decreases h
  {
    if h == 0 {
      assert roots + [] == roots;
      assert [] + roots == roots;
    } else {
      var before, last := BfsFrom(next, roots, h - 1), LevelFrom(next, roots, h - 1);
      BfsStep(next, roots, h - 1);
      ChildrenOfAppend(next, before, last);
      assert BfsFrom(next, roots, h) == before + last;
      assert LevelFrom(next, roots, h) == ChildrenOf(next, last);
      calc {
        roots + ChildrenOf(next, before + last);
        roots + (ChildrenOf(next, before) + ChildrenOf(next, last));
        (roots + ChildrenOf(next, before)) + ChildrenOf(next, last);
        BfsFrom(next, roots, h) + LevelFrom(next, roots, h);
      }
    }
  }

  lemma {:induction false} BfsPrefix(next: string -> seq<string>, roots: seq<string>, k: nat, h: nat)
    requires k <= h
    ensures BfsFrom(next, roots, k) <= BfsFrom(next, roots, h)
    decreases h - k
  {
    if k < h {
      BfsPrefix(next, roots, k, h - 1);
    }
  }

  /** Once a level is empty, all later ones are, and the unfolding stops growing. */
  lemma {:induction false} DrainedStays(next: string -> seq<string>, roots: seq<string>, h: nat, h2: nat)
    requires LevelFrom(next, roots, h) == [] && h <= h2
    ensures LevelFrom(next, roots, h2) == []
    ensures BfsFrom(next, roots, h2) == BfsFrom(next, roots, h)
    decreases h2 - h
  {
    if h < h2 {
      DrainedStays(next, roots, h, h2 - 1);
      assert BfsFrom(next, roots, h2) == BfsFrom(next, roots, h2 - 1) + [];
    }
  }

  lemma BuildOrderIs(next: string -> seq<string>, entry: string, h: nat)
    requires LevelFrom(next, [entry], h) == []
    ensures Terminates(next, entry)
    ensures BuildOrder(next, entry) == BfsFrom(next, [entry], h)
  {
    var h0: nat :| LevelFrom(next, [entry], h0) == [] && BuildOrder(next, entry) == BfsFrom(next, [entry], h0);
    if h0 <= h {
      DrainedStays(next, [entry], h0, h);
    } else {
      DrainedStays(next, [entry], h, h0);
    }
  }

  // ---------------------------------------------------------------------
  // FIFO order and closure

  /**
   * The worklist is first-in first-out: it is the entry followed by the
   * children of each of its records in turn.
   */
  lemma BuildOrderIsFifo(next: string -> seq<string>, entry: string)
    requires Terminates(next, entry)
    ensures var order := BuildOrder(next, entry);
      order == [entry] + ChildrenOf(next, order) && order[0] == entry
  {
    var h: nat :| LevelFrom(next, [entry], h) == [];
    BuildOrderIs(next, entry, h);
    BfsStep(next, [entry], h);
    assert BfsFrom(next, [entry], h + 1) == BfsFrom(next, [entry], h) + [];
  }

  /** Every dependency of a discovered file is discovered too. */
  lemma BuildOrderClosed(next: string -> seq<string>, entry: string)
    requires Terminates(next, entry)
    ensures var order := BuildOrder(next, entry);
      forall j, x :: 0 <= j < |order| && x in next(order[j]) ==> x in order
  {
    var order := BuildOrder(next, entry);
    BuildOrderIsFifo(next, entry);
    forall j, x | 0 <= j < |order| && x in next(order[j])
      ensures x in order
    {
      ChildrenOfContains(next, order, j, x);
    }
  }

  /** A list that is its own unfolding step contains every level. */
  lemma {:induction false} BfsPrefixOfFixpoint(next: string -> seq<string>, roots: seq<string>, ids: seq<string>, k: nat)
    requires ids == roots + ChildrenOf(next, ids)
    ensures BfsFrom(next, roots, k) <= ids
    decreases k
  {
    if k > 0 {
      BfsPrefixOfFixpoint(next, roots, ids, k - 1);
      ChildrenOfPrefix(next, BfsFrom(next, roots, k - 1), ids);
      BfsStep(next, roots, k - 1);
      PrefixAfterSame(roots, ChildrenOf(next, BfsFrom(next, roots, k - 1)), ChildrenOf(next, ids));
    }
  }

  lemma PrefixAfterSame(r: seq<string>, a: seq<string>, b: seq<string>)
    requires a <= b
    ensures r + a <= r + b
  {
    assert r + b == (r + a) + b[|a|..];
  }

  /**
   * The state in which the loop stops (the index has caught up with the
   * length) determines the worklist: it is the full breadth-first order.
   */
  lemma FixpointIsBuildOrder(next: string -> seq<string>, entry: string, ids: seq<string>)
    requires Terminates(next, entry)
    requires ids <= BuildOrder(next, entry)
    requires ids == [entry] + ChildrenOf(next, ids)
    ensures ids == BuildOrder(next, entry)
  {
    var h: nat :| LevelFrom(next, [entry], h) == [];
    BuildOrderIs(next, entry, h);
    BfsPrefixOfFixpoint(next, [entry], ids, h);
  }

  // ---------------------------------------------------------------------
  // The worklist loop, one record at a time

  /** Before the loop: the worklist holds the entry alone, a prefix of the unfolding. */
  lemma WorklistStart(next: string -> seq<string>, entry: string)
    ensures var ids := [entry];
      ids == [entry] + ChildrenOf(next, ids[..0]) && Unfolded(next, entry, ids)
  {
    assert [entry][..0] == [];
    assert BfsFrom(next, [entry], 1) == [] + [entry];
  }

  /**
   * Processing record `i` appends its children; the worklist stays the
   * entry followed by the children of the records processed so far, and
   * stays a prefix of the unfolding, whether or not that is finite.
   */
  lemma WorklistStep(next: string -> seq<string>, entry: string, ids: seq<string>, i: nat, ids': seq<string>)
    requires i < |ids| && ids == [entry] + ChildrenOf(next, ids[..i])
    requires Unfolded(next, entry, ids)
    requires ids' == ids + next(ids[i])
    ensures ids' == [entry] + ChildrenOf(next, ids'[..i + 1]) && Unfolded(next, entry, ids')
  {
    WorklistUnfold(next, entry, ids, i);
    assert ids'[..i + 1] == ids[..i + 1];
    var h: nat :| ids <= BfsFrom(next, [entry], h);
    var cut := BfsFrom(next, [entry], h);
    assert ids[..i + 1] <= cut;
    ChildrenOfPrefix(next, ids[..i + 1], cut);
    PrefixAfterSame([entry], ChildrenOf(next, ids[..i + 1]), ChildrenOf(next, cut));
    BfsStep(next, [entry], h);
    assert ids' <= BfsFrom(next, [entry], h + 1);
  }

  lemma WorklistUnfold(next: string -> seq<string>, entry: string, ids: seq<string>, i: nat)
    requires i < |ids| && ids == [entry] + ChildrenOf(next, ids[..i])
    ensures ids + next(ids[i]) == [entry] + ChildrenOf(next, ids[..i + 1])
  {
    assert ids[..i + 1] == ids[..i] + [ids[i]];
    ChildrenOfAppend(next, ids[..i], [ids[i]]);
    ChildrenOfSingle(next, ids[i]);
  }

  /** A prefix of a prefix is a prefix: appending part of the next block keeps it. */
  lemma PrefixOfExtension(ids: seq<string>, kids: seq<string>, j: nat, order: seq<string>)
    requires j <= |kids| && ids + kids <= order
    ensures ids + kids[..j] <= order
  {
    assert ids + kids[..j] == (ids + kids)[..|ids| + j];
  }

  /** Taking one more element of a block appends that element. */
  lemma TakeOneMore(ids: seq<string>, kids: seq<string>, j: nat)
    requires j < |kids|
    ensures ids + kids[..j + 1] == (ids + kids[..j]) + [kids[j]]
  {
    assert kids[..j + 1] == kids[..j] + [kids[j]];
  }

  /**
   * When the index catches up with the length, the import paths are
   * bounded and the worklist is the whole build order.
   */
  lemma WorklistDone(next: string -> seq<string>, entry: string, ids: seq<string>)
    requires ids == [entry] + ChildrenOf(next, ids[..|ids|])
    requires Unfolded(next, entry, ids)
    ensures Terminates(next, entry) && ids == BuildOrder(next, entry)
  {
    assert ids[..|ids|] == ids;
    LoopExitImpliesTerminates(next, entry, ids);
    UnfoldedInBuildOrder(next, entry, ids);
    FixpointIsBuildOrder(next, entry, ids);
  }

  /** With bounded import paths, a prefix of the unfolding is a prefix of the build order. */
  lemma UnfoldedInBuildOrder(next: string -> seq<string>, entry: string, ids: seq<string>)
    requires Terminates(next, entry) && Unfolded(next, entry, ids)
    ensures ids <= BuildOrder(next, entry)
  {
    var h: nat :| ids <= BfsFrom(next, [entry], h);
    var h0: nat :| LevelFrom(next, [entry], h0) == [];
    BuildOrderIs(next, entry, h0);
    if h <= h0 {
      BfsPrefix(next, [entry], h, h0);
    } else {
      DrainedStays(next, [entry], h0, h);
    }
  }

  /** Two cuts of the unfolding agree wherever both are defined. */
  lemma BfsAgree(next: string -> seq<string>, roots: seq<string>, h1: nat, h2: nat, p: nat)
    requires p < |BfsFrom(next, roots, h1)| && p < |BfsFrom(next, roots, h2)|
    ensures BfsFrom(next, roots, h1)[p] == BfsFrom(next, roots, h2)[p]
  {
    if h1 <= h2 {
      BfsPrefix(next, roots, h1, h2);
    } else {
      BfsPrefix(next, roots, h2, h1);
    }
  }

  /**
   * When the loop stops, it stops after finitely many compilations: there
   * is a bound on the length of every prefix of the unfolding whose files
   * all compile. It is the length of the build order, or else the position
   * of a file that fails.
   */
  lemma StopBound(compile: Compiler, entry: string) returns (bound: nat)
    requires Stops(compile, entry)
    ensures forall ids :: Unfolded(Edges(compile), entry, ids) && CompilesAll(compile, ids) ==> |ids| <= bound
  {
    var next := Edges(compile);
    if Terminates(next, entry) {
      bound := |BuildOrder(next, entry)|;
      forall ids | Unfolded(next, entry, ids) && CompilesAll(compile, ids)
        ensures |ids| <= bound
      {
        UnfoldedInBuildOrder(next, entry, ids);
      }
    } else {
      var h: nat, x :| x in BfsFrom(next, [entry], h) && compile(x).Failure?;
      var p :| 0 <= p < |BfsFrom(next, [entry], h)| && BfsFrom(next, [entry], h)[p] == x;
      bound := p;
      forall ids | Unfolded(next, entry, ids) && CompilesAll(compile, ids)
        ensures |ids| <= bound
      {
        if |ids| > p {
          var h1: nat :| ids <= BfsFrom(next, [entry], h1);
          BfsAgree(next, [entry], h1, h, p);
          assert false;
        }
      }
    }
  }

  /** With no empty level below `h`, the unfolding has at least `h` entries. */
  lemma {:induction false} LevelsNonEmptyGrow(next: string -> seq<string>, roots: seq<string>, h: nat)
    requires forall k: nat :: k < h ==> LevelFrom(next, roots, k) != []
    ensures |BfsFrom(next, roots, h)| >= h
    decreases h
  {
    if h > 0 {
      LevelsNonEmptyGrow(next, roots, h - 1);
    }
  }

  /**
   * If the loop ever stops, the import paths from the entry are bounded:
   * a worklist that is its own unfolding step exists only then.
   */
  lemma LoopExitImpliesTerminates(next: string -> seq<string>, entry: string, ids: seq<string>)
    requires ids == [entry] + ChildrenOf(next, ids)
    ensures Terminates(next, entry)
  {
    if !Terminates(next, entry) {
      var h := |ids| + 1;
      LevelsNonEmptyGrow(next, [entry], h);
      BfsPrefixOfFixpoint(next, [entry], ids, h);
    }
  }

  // ---------------------------------------------------------------------
  // Import cycles

  lemma {:induction false} LevelCompose(next: string -> seq<string>, roots: seq<string>, a: nat, b: nat)
    ensures LevelFrom(next, roots, a + b) == LevelFrom(next, LevelFrom(next, roots, a), b)
    decreases b
  {
    if b > 0 {
      LevelCompose(next, roots, a, b - 1);
    }
  }

  lemma {:induction false} LevelAppend(next: string -> seq<string>, r1: seq<string>, r2: seq<string>, k: nat)
    ensures LevelFrom(next, r1 + r2, k) == LevelFrom(next, r1, k) + LevelFrom(next, r2, k)
    decreases k
  {
    if k > 0 {
      LevelAppend(next, r1, r2, k - 1);
      ChildrenOfAppend(next, LevelFrom(next, r1, k - 1), LevelFrom(next, r2, k - 1));
    }
  }

  /** What a root reaches in `k` steps, a list containing that root reaches too. */
  lemma LevelMember(next: string -> seq<string>, roots: seq<string>, i: nat, y: string, k: nat)
    requires i < |roots| && y in LevelFrom(next, [roots[i]], k)
    ensures y in LevelFrom(next, roots, k)
  {
    assert roots == roots[..i] + [roots[i]] + roots[i + 1..];
    LevelAppend(next, roots[..i] + [roots[i]], roots[i + 1..], k);
    LevelAppend(next, roots[..i], [roots[i]], k);
  }

  lemma {:induction false} CycleRecurs(next: string -> seq<string>, entry: string, x: string, k: nat, m: nat, n: nat)
    returns (j: nat)
    requires x in LevelFrom(next, [entry], k) && 1 <= m && x in LevelFrom(next, [x], m)
    ensures j >= n && x in LevelFrom(next, [entry], j)
    decreases n
  {
    if n == 0 {
      j := k;
    } else {
      var j0 := CycleRecurs(next, entry, x, k, m, n - 1);
      var level := LevelFrom(next, [entry], j0);
      var i :| 0 <= i < |level| && level[i] == x;
      LevelMember(next, level, i, x, m);
      LevelCompose(next, [entry], j0, m);
      j := j0 + m;
    }
  }

  /**
   * An import cycle reachable from the entry makes every level non-empty:
   * the loop never catches up with the array, which grows without bound.
   */
  lemma CycleNeverTerminates(next: string -> seq<string>, entry: string)
    requires ReachableCycle(next, entry)
    ensures !Terminates(next, entry)
    ensures forall h: nat :: |BfsFrom(next, [entry], h)| >= h
  {
    var x, k: nat, m: nat :| x in LevelFrom(next, [entry], k) && 1 <= m && x in LevelFrom(next, [x], m);
    forall h: nat ensures LevelFrom(next, [entry], h) != [] {
      var j := CycleRecurs(next, entry, x, k, m, h);
      if LevelFrom(next, [entry], h) == [] {
        DrainedStays(next, [entry], h, j);
      }
    }
    forall h: nat ensures |BfsFrom(next, [entry], h)| >= h {
      LevelsNonEmptyGrow(next, [entry], h);
    }
  }

  /**
   * With a reachable cycle the build can only end with an error: some file
   * of the unbounded unfolding fails to compile.
   */
  lemma CycleStopsOnlyOnFailure(compile: Compiler, entry: string)
    requires ReachableCycle(Edges(compile), entry) && Stops(compile, entry)
    ensures ReachesFailure(compile, entry)
  {
    CycleNeverTerminates(Edges(compile), entry);
  }

  // ---------------------------------------------------------------------
  // Acyclic graphs over finitely many files

  /** An element of level `k` is the end of an import path of length `k`. */
  lemma {:induction false} ExtractPath(next: string -> seq<string>, roots: seq<string>, k: nat, y: string)
    returns (p: seq<string>)
    requires y in LevelFrom(next, roots, k)
    ensures |p| == k + 1 && p[k] == y
    ensures forall t :: 0 <= t <= k ==> p[t] in LevelFrom(next, roots, t)
    ensures forall t :: 0 <= t < k ==> p[t + 1] in next(p[t])
    decreases k
  {
    if k == 0 {
      p := [y];
    } else {
      var level := LevelFrom(next, roots, k - 1);
      var j := ChildrenOfMember(next, level, y);
      var q := ExtractPath(next, roots, k - 1, level[j]);
      PathSnoc(next, roots, k, q, y);
      p := q + [y];
    }
  }

  /** Extending a path through the levels by a child of its last element. */
  lemma PathSnoc(next: string -> seq<string>, roots: seq<string>, k: nat, q: seq<string>, y: string)
    requires 1 <= k && |q| == k
    requires forall t :: 0 <= t < k ==> q[t] in LevelFrom(next, roots, t)
    requires forall t :: 0 <= t < k - 1 ==> q[t + 1] in next(q[t])
    requires y in LevelFrom(next, roots, k) && y in next(q[k - 1])
    ensures var p := q + [y];
      && (forall t :: 0 <= t <= k ==> p[t] in LevelFrom(next, roots, t))
      && (forall t :: 0 <= t < k ==> p[t + 1] in next(p[t]))
  {
    var p := q + [y];
    forall t | 0 <= t <= k ensures p[t] in LevelFrom(next, roots, t) {
      if t < k {
        assert p[t] == q[t];
      }
    }
    forall t | 0 <= t < k ensures p[t + 1] in next(p[t]) {
      assert p[t] == q[t];
      if t + 1 < k {
        assert p[t + 1] == q[t + 1];
      }
    }
  }

  /** The tail of an import path lies in the corresponding level of its head. */
  lemma {:induction false} PathLevel(next: string -> seq<string>, p: seq<string>, i: nat, j: nat)
    requires i <= j < |p|
    requires forall t :: 0 <= t < |p| - 1 ==> p[t + 1] in next(p[t])
    ensures p[j] in LevelFrom(next, [p[i]], j - i)
    decreases j
  {
    if j > i {
      PathLevel(next, p, i, j - 1);
      var level := LevelFrom(next, [p[i]], j - 1 - i);
      var t :| 0 <= t < |level| && level[t] == p[j - 1];
      ChildrenOfContains(next, level, t, p[j]);
    }
  }

  /** More positions than values: some value repeats. */
  lemma {:induction false} Pigeonhole(p: seq<string>, files: set<string>) returns (i: nat, j: nat)
    requires forall t :: 0 <= t < |p| ==> p[t] in files
    requires |p| > |files|
    ensures i < j < |p| && p[i] == p[j]
    decreases |p|
  {
    if p[0] in p[1..] {
      var t :| 0 <= t < |p[1..]| && p[1..][t] == p[0];
      i, j := 0, t + 1;
    } else {
      var rest := files - {p[0]};
      assert forall t :: 0 <= t < |p[1..]| ==> p[1..][t] in rest;
      var i', j' := Pigeonhole(p[1..], rest);
      i, j := i' + 1, j' + 1;
    }
  }

  /**
   * When only finitely many files import anything, a graph without a cycle
   * reachable from the entry has bounded import paths.
   */
  lemma AcyclicTerminates(next: string -> seq<string>, entry: string, files: set<string>)
    requires forall id :: next(id) != [] ==> id in files
    requires !ReachableCycle(next, entry)
    ensures Terminates(next, entry)
  {
    var n := |files| + 1;
    if LevelFrom(next, [entry], n) != [] {
      var y := LevelFrom(next, [entry], n)[0];
      var p := ExtractPath(next, [entry], n, y);
      var q := p[..n];
      forall t | 0 <= t < |q| ensures q[t] in files {
        assert p[t + 1] in next(p[t]);
      }
      var i, j := Pigeonhole(q, files);
      PathLevel(next, p, i, j);
    }
  }

  /**
   * Over finitely many compilable files, an import graph without a cycle
   * reachable from the entry makes the loop terminate.
   */
  lemma AcyclicBuildTerminates(compile: Compiler, entry: string, files: set<string>)
    requires forall id :: compile(id).Success? ==> id in files
    requires !ReachableCycle(Edges(compile), entry)
    ensures Terminates(Edges(compile), entry)
  {
    AcyclicTerminates(Edges(compile), entry, files);
  }

  // ---------------------------------------------------------------------
  // No deduplication: one compile per import path

  /** Number of import paths of length `k` starting at `id`. */
  function PathCount(next: string -> seq<string>, id: string, k: nat): nat
    decreases k, 0, 0
  {
    if k == 0 then 1 else PathCountAll(next, next(id), k - 1)
  }

  /** Number of import paths of length `k` starting at any of `ids`. */
  function PathCountAll(next: string -> seq<string>, ids: seq<string>, k: nat): nat
    decreases k, 1, |ids|
  {
    if ids == [] then 0 else PathCount(next, ids[0], k) + PathCountAll(next, ids[1..], k)
  }

  /** Number of import paths from `id` shorter than `h`. */
  function PathsBelow(next: string -> seq<string>, id: string, h: nat): nat {
    if h == 0 then 0 else PathsBelow(next, id, h - 1) + PathCount(next, id, h - 1)
  }

  lemma {:induction false} PathCountAllAppend(next: string -> seq<string>, a: seq<string>, b: seq<string>, k: nat)
    ensures PathCountAll(next, a + b, k) == PathCountAll(next, a, k) + PathCountAll(next, b, k)
    decreases |a|
  {
    if a == [] {
      assert a + b == b;
    } else {
      assert (a + b)[0] == a[0] && (a + b)[1..] == a[1..] + b;
      PathCountAllAppend(next, a[1..], b, k);
    }
  }

  lemma {:induction false} PathCountAllChildren(next: string -> seq<string>, ids: seq<string>, k: nat)
    ensures PathCountAll(next, ids, k + 1) == PathCountAll(next, ChildrenOf(next, ids), k)
    decreases |ids|
  {
    if ids != [] {
      var init, last := ids[..|ids| - 1], ids[|ids| - 1];
      assert ids == init + [last];
      PathCountAllAppend(next, init, [last], k + 1);
      PathCountAllChildren(next, init, k);
      PathCountAllAppend(next, ChildrenOf(next, init), next(last), k);
    }
  }

  lemma {:induction false} PathCountAllZero(next: string -> seq<string>, ids: seq<string>)
    ensures PathCountAll(next, ids, 0) == |ids|
    decreases |ids|
  {
    if ids != [] {
      PathCountAllZero(next, ids[1..]);
    }
  }

  /** Level `k` has one entry per import path of length `k`. */
  lemma {:induction false} LevelSizeIsPathCount(next: string -> seq<string>, roots: seq<string>, k: nat)
    ensures |LevelFrom(next, roots, k)| == PathCountAll(next, roots, k)
    decreases k
  {
    if k == 0 {
      PathCountAllZero(next, roots);
    } else {
      var kids := ChildrenOf(next, roots);
      LevelCompose(next, roots, 1, k - 1);
      assert LevelFrom(next, roots, 1) == kids;
      assert LevelFrom(next, roots, k) == LevelFrom(next, kids, k - 1);
      LevelSizeIsPathCount(next, kids, k - 1);
      PathCountAllChildren(next, roots, k - 1);
    }
  }

  /**
   * The loop compiles one file per import path from the entry (the entry
   * itself being the empty path), however often a file is shared.
   */
  lemma CompileCountIsPathCount(next: string -> seq<string>, entry: string, h: nat)
    requires LevelFrom(next, [entry], h) == []
    ensures |BuildOrder(next, entry)| == PathsBelow(next, entry, h)
    ensures forall k: nat :: k >= h ==> PathCount(next, entry, k) == 0
  {
    BuildOrderIs(next, entry, h);
    BfsSizeIsPathsBelow(next, entry, h);
    forall k: nat | k >= h ensures PathCount(next, entry, k) == 0 {
      DrainedStays(next, [entry], h, k);
      LevelSizeIsPathCount(next, [entry], k);
    }
  }

  lemma {:induction false} BfsSizeIsPathsBelow(next: string -> seq<string>, entry: string, h: nat)
    ensures |BfsFrom(next, [entry], h)| == PathsBelow(next, entry, h)
    decreases h
  {
    if h > 0 {
      BfsSizeIsPathsBelow(next, entry, h - 1);
      LevelSizeIsPathCount(next, [entry], h - 1);
    }
  }

  /** Children shared by two positions of a list are listed twice among its children. */
  lemma {:induction false} SharedChildTwice(next: string -> seq<string>, s: seq<string>, i: nat, j: nat, x: string)
    requires i < j < |s| && x in next(s[i]) && x in next(s[j])
    ensures multiset(ChildrenOf(next, s))[x] >= 2
    decreases |s|
  {
    var n := |s| - 1;
    var init := s[..n];
    assert init[i] == s[i];
    if j < n {
      assert init[j] == s[j];
      SharedChildTwice(next, init, i, j, x);
      assert multiset(ChildrenOf(next, s)) == multiset(ChildrenOf(next, init)) + multiset(next(s[n]));
    } else {
      ChildrenOfContains(next, init, i, x);
      TwiceInConcat(ChildrenOf(next, init), next(s[n]), x);
    }
  }

  lemma TwiceInConcat(ca: seq<string>, cb: seq<string>, x: string)
    requires x in ca && x in cb
    ensures multiset(ca + cb)[x] >= 2
  {
    assert multiset(ca + cb) == multiset(ca) + multiset(cb);
    assert x in multiset(ca) && x in multiset(cb);
  }

  /** Every level is part of the worklist, multiplicities included. */
  lemma LevelInBuildOrder(next: string -> seq<string>, entry: string, k: nat)
    requires Terminates(next, entry)
    ensures multiset(LevelFrom(next, [entry], k)) <= multiset(BuildOrder(next, entry))
  {
    var h: nat :| LevelFrom(next, [entry], h) == [];
    BuildOrderIs(next, entry, h);
    if k < h {
      BfsPrefix(next, [entry], k + 1, h);
      var order := BuildOrder(next, entry);
      var upto := BfsFrom(next, [entry], k + 1);
      assert upto == BfsFrom(next, [entry], k) + LevelFrom(next, [entry], k);
      MiddleIsSubMultiset(BfsFrom(next, [entry], k), LevelFrom(next, [entry], k), order);
    } else {
      DrainedStays(next, [entry], h, k);
    }
  }

  lemma MiddleIsSubMultiset(before: seq<string>, middle: seq<string>, whole: seq<string>)
    requires before + middle <= whole
    ensures multiset(middle) <= multiset(whole)
  {
    var rest := whole[|before + middle|..];
    assert whole == before + middle + rest;
    assert multiset(whole) == multiset(before) + multiset(middle) + multiset(rest);
  }

  /**
   * A file imported by two different importers of the entry is compiled
   * (and recorded) at least twice.
   */
  lemma SharedImportCompiledTwice(next: string -> seq<string>, entry: string, i: nat, j: nat, shared: string)
    requires Terminates(next, entry)
    requires i < j < |next(entry)|
    requires shared in next(next(entry)[i]) && shared in next(next(entry)[j])
    ensures multiset(BuildOrder(next, entry))[shared] >= 2
  {
    assert LevelFrom(next, [entry], 0) == [entry];
    var level1 := LevelFrom(next, [entry], 1);
    assert level1 == ChildrenOf(next, LevelFrom(next, [entry], 0));
    ChildrenOfSingle(next, entry);
    var level2 := LevelFrom(next, [entry], 2);
    assert level2 == ChildrenOf(next, level1);
    SharedChildTwice(next, level1, i, j, shared);
    LevelInBuildOrder(next, entry, 2);
    var order := BuildOrder(next, entry);
    assert multiset(level2)[shared] <= multiset(order)[shared];
  }
}
