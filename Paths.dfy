/**
 * Resolution of an import specifier against the importing file, as done by
 * `'./' + path.join(path.dirname(importer), specifier)`.
 *
 * Paths are handled as lists of segments separated by '/'. The normaliser
 * follows the POSIX rules for a relative path: empty and "." segments vanish,
 * ".." removes the previous segment unless that one is itself "..", and a
 * ".." with nothing left to remove is kept.
 */
module Paths {

  /** No segment contains the separator. */
  ghost predicate SlashFree(segs: seq<string>) {
    forall k :: 0 <= k < |segs| ==> '/' !in segs[k]
  }

  /**
   * The segments of a relative path after `path.normalize`: no empty or "."
   * segment, and every ".." precedes every other segment. The text Node
   * produces from them is `Render` of the segments, followed by a '/' when
   * the input ended in one.
   */
  ghost predicate Canonical(segs: seq<string>) {
    forall k :: 0 <= k < |segs| ==>
      && segs[k] != ""
      && segs[k] != "."
      && (segs[k] == ".." ==> forall j :: 0 <= j < k ==> segs[j] == "..")
  }

  /** Splits a path at every '/', keeping empty segments (as `s.split('/')`). */
  function Split(s: string): (segs: seq<string>)
    ensures |segs| >= 1
    ensures SlashFree(segs)
    decreases |s|
  {
    if s == [] then [""]
    else if s[0] == '/' then [""] + Split(s[1..])
    else
      var rest := Split(s[1..]);
      [[s[0]] + rest[0]] + rest[1..]
  }

  /** Glues segments together with '/' between neighbours. */
  function Join(segs: seq<string>): string
    decreases |segs|
  {
    if segs == [] then ""
    else if |segs| == 1 then segs[0]
    else segs[0] + "/" + Join(segs[1..])
  }

  lemma JoinCons(x: string, rest: seq<string>)
    ensures Join([x] + rest) == if rest == [] then x else x + "/" + Join(rest)
  {
    assert ([x] + rest)[1..] == rest;
  }

  /** Joining the pieces of a split gives back the original text. */
  lemma {:induction false} JoinSplit(s: string)
    ensures Join(Split(s)) == s
    decreases |s|
  {
    if s != [] {
      JoinSplit(s[1..]);
      if s[0] == '/' {
        JoinSplitSlash(s);
      } else {
        JoinSplitChar(s);
      }
    }
  }

  lemma JoinSplitSlash(s: string)
    requires s != [] && s[0] == '/' && Join(Split(s[1..])) == s[1..]
    ensures Join(Split(s)) == s
  {
    JoinCons("", Split(s[1..]));
    assert s == "/" + s[1..];
  }

  lemma JoinSplitChar(s: string)
    requires s != [] && s[0] != '/' && Join(Split(s[1..])) == s[1..]
    ensures Join(Split(s)) == s
  {
    var rest := Split(s[1..]);
    var head, tail := rest[0], rest[1..];
    HeadTail(rest);
    JoinCons([s[0]] + head, tail);
    JoinCons(head, tail);
    ConsTail(s);
    if tail != [] {
      ConsAssoc(s[0], head, Join(tail));
    }
  }

  lemma HeadTail(r: seq<string>)
    requires r != []
    ensures r == [r[0]] + r[1..]
  {
  }

  lemma ConsTail(s: string)
    requires s != []
    ensures s == [s[0]] + s[1..]
  {
  }

  lemma ConsAssoc(c: char, h: string, j: string)
    ensures [c] + h + "/" + j == [c] + (h + "/" + j)
  {
  }

  /** A slash-free prefix glues onto the first piece of whatever follows it. */
  lemma {:induction false} SplitPrefix(x: string, t: string)
    requires '/' !in x
    ensures Split(x + t) == [x + Split(t)[0]] + Split(t)[1..]
    decreases |x|
  {
    if x == [] {
      var st := Split(t);
      assert x + t == t;
      assert st == [st[0]] + st[1..];
      assert x + st[0] == st[0];
    } else {
      assert (x + t)[0] == x[0];
      assert (x + t)[1..] == x[1..] + t;
      SplitPrefix(x[1..], t);
      assert [x[0]] + (x[1..] + Split(t)[0]) == x + Split(t)[0];
    }
  }

  /** Splitting a join of slash-free segments gives back the segments. */
  lemma {:induction false} SplitJoin(segs: seq<string>)
    requires |segs| >= 1 && SlashFree(segs)
    ensures Split(Join(segs)) == segs
    decreases |segs|
  {
    if |segs| == 1 {
      assert Split("") == [""];
      SplitPrefix(segs[0], "");
      assert segs[0] + "" == segs[0];
      assert Join(segs) == segs[0];
      assert segs == [segs[0]];
    } else {
      var j := Join(segs[1..]);
      SplitJoin(segs[1..]);
      assert Join(segs) == segs[0] + ("/" + j);
      assert ("/" + j)[0] == '/' && ("/" + j)[1..] == j;
      assert Split("/" + j) == [""] + segs[1..];
      SplitPrefix(segs[0], "/" + j);
      assert segs[0] + "" == segs[0];
      assert ([""] + segs[1..])[1..] == segs[1..];
      assert segs == [segs[0]] + segs[1..];
    }
  }

  /** One step of `path.normalize` on a relative path. */
  function Step(stack: seq<string>, seg: string): seq<string> {
    if seg == "" || seg == "." then stack
    else if seg == ".." then
      if |stack| > 0 && stack[|stack| - 1] != ".." then stack[..|stack| - 1]
      else stack + [".."]
    else stack + [seg]
  }

  function NormalizeFrom(stack: seq<string>, segs: seq<string>): (r: seq<string>)
    ensures Canonical(stack) ==> Canonical(r)
    ensures SlashFree(stack) && SlashFree(segs) ==> SlashFree(r)
    decreases |segs|
  {
    if segs == [] then stack
    else NormalizeFrom(Step(stack, segs[0]), segs[1..])
  }

  /** `path.normalize` on the segments of a relative path. */
  function Normalize(segs: seq<string>): (r: seq<string>)
    ensures Canonical(r)
    ensures SlashFree(segs) ==> SlashFree(r)
  {
    NormalizeFrom([], segs)
  }

  /** Normalising a concatenation continues from where the first part stopped. */
  lemma {:induction false} NormalizeFromAppend(stack: seq<string>, a: seq<string>, b: seq<string>)
    ensures NormalizeFrom(stack, a + b) == NormalizeFrom(NormalizeFrom(stack, a), b)
    decreases |a|
  {
    if a == [] {
      assert a + b == b;
    } else {
      assert (a + b)[0] == a[0];
      assert (a + b)[1..] == a[1..] + b;
      NormalizeFromAppend(Step(stack, a[0]), a[1..], b);
    }
  }

  /** Normalisation leaves a canonical continuation of a canonical stack alone. */
  lemma {:induction false} NormalizeFromCanonical(stack: seq<string>, c: seq<string>)
    requires Canonical(stack + c)
    ensures NormalizeFrom(stack, c) == stack + c
    decreases |c|
  {
    if c != [] {
      var n := |stack|;
      assert (stack + c)[n] == c[0];
      if c[0] == ".." && n > 0 {
        assert (stack + c)[n - 1] == stack[n - 1];
      }
      assert Step(stack, c[0]) == stack + [c[0]];
      assert stack + c == (stack + [c[0]]) + c[1..];
      NormalizeFromCanonical(stack + [c[0]], c[1..]);
    }
  }

  /** Normalisation is idempotent. */
  lemma NormalizeIdempotent(segs: seq<string>)
    ensures Normalize(Normalize(segs)) == Normalize(segs)
  {
    var c := Normalize(segs);
    assert [] + c == c;
    NormalizeFromCanonical([], c);
  }

  /** Normalising a prefix first does not change the normal form of the whole. */
  lemma NormalizeAbsorbs(a: seq<string>, b: seq<string>)
    ensures Normalize(Normalize(a) + b) == Normalize(a + b)
  {
    var c := Normalize(a);
    NormalizeFromAppend([], c, b);
    assert [] + c == c;
    NormalizeFromCanonical([], c);
    NormalizeFromAppend([], a, b);
  }

  /** Drops the empty segments that trailing slashes leave at the end. */
  function TrimTrailing(segs: seq<string>): (r: seq<string>)
    ensures |r| <= |segs| && r == segs[..|r|]
    ensures r == [] || r[|r| - 1] != ""
    decreases |segs|
  {
    if segs != [] && segs[|segs| - 1] == "" then TrimTrailing(segs[..|segs| - 1])
    else segs
  }

  /** The segments of `path.dirname(p)`: everything before the last segment. */
  function DirSegments(p: string): (d: seq<string>)
    ensures SlashFree(d)
  {
    var segs := TrimTrailing(Split(p));
    if segs == [] then [] else segs[..|segs| - 1]
  }

  /** The normalised segments of `path.join(path.dirname(importer), spec)`. */
  function Target(importer: string, spec: string): (c: seq<string>)
    ensures Canonical(c) && SlashFree(c)
  {
    Normalize(DirSegments(importer) + Split(spec))
  }

  /** Text of a normalised relative path; the empty path is ".". */
  function Render(c: seq<string>): string {
    if c == [] then "." else Join(c)
  }

  /**
   * Whether the text `path.join` normalises ends in '/'. The directory of a
   * relative importer without repeated separators never does, so this is
   * decided by the specifier. The exception is an importer such as
   * "a//b.js", whose directory is "a/", with the empty specifier, which
   * `path.join` skips: Node then keeps the '/', and the model does not.
   */
  predicate TrailingSlash(spec: string) {
    |spec| > 0 && spec[|spec| - 1] == '/'
  }

  /**
   * The dependency identifier recorded for `spec` imported from `importer`.
   * `path.normalize` keeps a trailing separator, so "./lib/" and "./lib"
   * give different identifiers.
   */
  function Resolve(importer: string, spec: string): (id: string)
    ensures |id| >= 2 && id[..2] == "./"
    ensures id[|id| - 1] == '/' <==> TrailingSlash(spec)
  {
    var text := Render(Target(importer, spec));
    RenderLast(Target(importer, spec));
    "./" + text + (if TrailingSlash(spec) then "/" else "")
  }

  /** The rendered text of normalised segments is never empty and never ends in '/'. */
  lemma RenderLast(c: seq<string>)
    requires Canonical(c) && SlashFree(c)
    ensures |Render(c)| > 0 && Render(c)[|Render(c)| - 1] != '/'
  {
    if c != [] {
      JoinLast(c);
      var last := c[|c| - 1];
      assert last != "" && '/' !in last;
      assert last[|last| - 1] in last;
    }
  }

  /** A join ends with the last character of its last segment. */
  lemma {:induction false} JoinLast(segs: seq<string>)
    requires segs != [] && segs[|segs| - 1] != ""
    ensures var j, last := Join(segs), segs[|segs| - 1];
      |j| > 0 && j[|j| - 1] == last[|last| - 1]
    decreases |segs|
  {
    if |segs| > 1 {
      JoinLast(segs[1..]);
      assert segs[1..][|segs| - 2] == segs[|segs| - 1];
    }
  }

  /** The segments of an identifier, after "." : the target, or "." for the empty one. */
  function IdSegments(c: seq<string>, trailing: bool): seq<string> {
    (if c == [] then ["."] else c) + (if trailing then [""] else [])
  }

  /** A trailing '/' adds one empty segment to a join. */
  lemma {:induction false} JoinSnocEmpty(segs: seq<string>)
    requires segs != []
    ensures Join(segs + [""]) == Join(segs) + "/"
    decreases |segs|
  {
    if |segs| == 1 {
      assert segs + [""] == [segs[0], ""];
      assert Join([""]) == "";
    } else {
      JoinSnocEmpty(segs[1..]);
      assert (segs + [""])[1..] == segs[1..] + [""];
      ConsAssocText(segs[0], Join(segs[1..]));
    }
  }

  lemma ConsAssocText(h: string, j: string)
    ensures h + "/" + (j + "/") == (h + "/" + j) + "/"
  {
  }

  /** The identifier is "./" followed by the join of its segments. */
  lemma ResolveText(importer: string, spec: string)
    ensures Resolve(importer, spec) == "./" + Join(IdSegments(Target(importer, spec), TrailingSlash(spec)))
  {
    var c := Target(importer, spec);
    var x := if c == [] then ["."] else c;
    var text := Render(c);
    assert text == Join(x);
    if TrailingSlash(spec) {
      JoinSnocEmpty(x);
      assert "./" + text + "/" == "./" + (text + "/");
    } else {
      assert x + [] == x;
      assert "./" + text + "" == "./" + text;
    }
  }

  /** The segments of the prefix of a path that names its directory. */
  function Parent(c: seq<string>): seq<string> {
    if c == [] then [] else c[..|c| - 1]
  }

  /**
   * An identifier splits back into "." followed by its normalised target,
   * and an empty last segment when the specifier ended in '/'.
   */
  lemma ResolveSplit(importer: string, spec: string)
    ensures Split(Resolve(importer, spec)) == ["."] + IdSegments(Target(importer, spec), TrailingSlash(spec))
  {
    var x := IdSegments(Target(importer, spec), TrailingSlash(spec));
    ResolveText(importer, spec);
    SplitDotSlash(x);
  }

  lemma SplitDotSlash(x: seq<string>)
    requires |x| >= 1 && SlashFree(x)
    ensures Split("./" + Join(x)) == ["."] + x
  {
    var r := Join(x);
    DotSlash(r);
    SplitPrefix(".", "/" + r);
    SplitJoin(x);
  }

  lemma DotSlash(r: string)
    ensures "./" + r == "." + ("/" + r)
    ensures ("/" + r)[0] == '/' && ("/" + r)[1..] == r
    ensures "." + "" == "."
  {
  }

  /** A sibling import from a file at the top level: "./b.js" in "a.js". */
  lemma ResolveSiblingExample()
    ensures Resolve("a.js", "./b.js") == "./b.js"
  {
    SiblingSegments();
    SiblingNormalize();
    assert Render(["b.js"]) == "b.js";
  }

  lemma SiblingSegments()
    ensures DirSegments("a.js") == [] && Split("./b.js") == [".", "b.js"]
  {
    assert Join(["a.js"]) == "a.js";
    SplitJoin(["a.js"]);
    assert Join([".", "b.js"]) == "./b.js";
    SplitJoin([".", "b.js"]);
  }

  lemma SiblingNormalize()
    ensures Normalize([] + [".", "b.js"]) == ["b.js"]
  {
    assert [] + [".", "b.js"] == ["."] + ["b.js"];
    NormalizeFromCons([], ".", ["b.js"]);
    NormalizeFromCons([], "b.js", []);
  }

  /**
   * A directory import keeps its trailing separator: "./lib/" and "./lib",
   * imported from "a.js", are recorded as different identifiers.
   */
  lemma ResolveTrailingExample()
    ensures Resolve("a.js", "./lib/") == "./lib/"
    ensures Resolve("a.js", "./lib/") != Resolve("a.js", "./lib")
  {
    TrailingTarget();
    assert TrailingSlash("./lib/") && !TrailingSlash("./lib");
    ResolveText("a.js", "./lib/");
    assert IdSegments(["lib"], true) == ["lib", ""];
    assert Join(["lib", ""]) == "lib/";
  }

  lemma TrailingTarget()
    ensures Target("a.js", "./lib/") == ["lib"]
  {
    TrailingSegments();
    TrailingNormalize();
  }

  lemma TrailingSegments()
    ensures DirSegments("a.js") == [] && Split("./lib/") == [".", "lib", ""]
  {
    assert Join(["a.js"]) == "a.js";
    SplitJoin(["a.js"]);
    assert Join([".", "lib", ""]) == "./lib/";
    SplitJoin([".", "lib", ""]);
  }

  lemma TrailingNormalize()
    ensures Normalize([] + [".", "lib", ""]) == ["lib"]
  {
    assert [] + [".", "lib", ""] == ["."] + (["lib"] + [""]);
    NormalizeFromCons([], ".", ["lib"] + [""]);
    NormalizeFromCons([], "lib", [""]);
    NormalizeFromCons(["lib"], "", []);
  }

  lemma NormalizeFromCons(stack: seq<string>, seg: string, rest: seq<string>)
    ensures NormalizeFrom(stack, [seg] + rest) == NormalizeFrom(Step(stack, seg), rest)
  {
    assert ([seg] + rest)[1..] == rest;
  }

  /**
   * Two imports receive the same identifier exactly when they name the same
   * normalised path and agree on a trailing '/': the identifier is a
   * faithful key for what was written.
   */
  lemma ResolveInjective(i1: string, s1: string, i2: string, s2: string)
    ensures Resolve(i1, s1) == Resolve(i2, s2)
        <==> Target(i1, s1) == Target(i2, s2) && TrailingSlash(s1) == TrailingSlash(s2)
  {
    if Resolve(i1, s1) == Resolve(i2, s2) {
      var c1, c2 := Target(i1, s1), Target(i2, s2);
      var x1, x2 := IdSegments(c1, TrailingSlash(s1)), IdSegments(c2, TrailingSlash(s2));
      ResolveSplit(i1, s1);
      ResolveSplit(i2, s2);
      assert ["."] + x1 == ["."] + x2;
      assert x1 == (["."] + x1)[1..];
      assert x2 == (["."] + x2)[1..];
      IdSegmentsInjective(c1, TrailingSlash(s1), c2, TrailingSlash(s2));
    }
  }

  lemma IdSegmentsInjective(c1: seq<string>, t1: bool, c2: seq<string>, t2: bool)
    requires Canonical(c1) && Canonical(c2)
    requires IdSegments(c1, t1) == IdSegments(c2, t2)
    ensures c1 == c2 && t1 == t2
  {
    var x1 := if c1 == [] then ["."] else c1;
    var x2 := if c2 == [] then ["."] else c2;
    assert x1[|x1| - 1] != "" && x2[|x2| - 1] != "";
    if t1 {
      assert x1 == IdSegments(c1, t1)[..|x1|];
      assert x2 == IdSegments(c2, t2)[..|x2|];
    } else {
      assert x1 == IdSegments(c1, t1) && x2 == IdSegments(c2, t2);
    }
  }

  /** The directory of a recorded identifier is "." followed by the parent of its target. */
  lemma DirOfResolved(importer: string, spec: string)
    ensures DirSegments(Resolve(importer, spec)) == ["."] + Parent(Target(importer, spec))
  {
    ResolveSplit(importer, spec);
    DirOfIdSegments(Target(importer, spec), TrailingSlash(spec));
  }

  lemma DirOfIdSegments(c: seq<string>, trailing: bool)
    requires Canonical(c)
    ensures var segs := TrimTrailing(["."] + IdSegments(c, trailing));
      segs != [] && segs[..|segs| - 1] == ["."] + Parent(c)
  {
    var x := if c == [] then ["."] else c;
    var full := ["."] + x;
    var segs := ["."] + IdSegments(c, trailing);
    assert full[|full| - 1] == x[|x| - 1] != "";
    if trailing {
      assert segs == full + [""];
      assert segs[..|segs| - 1] == full;
    } else {
      assert segs == full + [];
    }
    assert TrimTrailing(segs) == full;
    if c != [] {
      assert full[..|full| - 1] == ["."] + c[..|c| - 1];
    }
  }

  /**
   * When the recorded identifier is later used as an importer itself, its
   * directory is the parent of the normalised target: the next level of
   * imports resolves as `path.join(dirname(target), spec2)`.
   */
  lemma ResolveFromDependency(importer: string, spec: string, spec2: string)
    ensures Target(Resolve(importer, spec), spec2)
         == Normalize(Parent(Target(importer, spec)) + Split(spec2))
  {
    var id := Resolve(importer, spec);
    DirOfResolved(importer, spec);
    NormalizeDotPrefix(DirSegments(id), Parent(Target(importer, spec)), Split(spec2));
  }

  lemma NormalizeDotPrefix(d: seq<string>, rest: seq<string>, tail: seq<string>)
    requires d == ["."] + rest
    ensures Normalize(d + tail) == Normalize(rest + tail)
  {
    assert d + tail == ["."] + (rest + tail);
    NormalizeDot(rest + tail);
  }

  lemma NormalizeDot(rest: seq<string>)
    ensures Normalize(["."] + rest) == Normalize(rest)
  {
    assert (["."] + rest)[0] == "." && (["."] + rest)[1..] == rest;
    assert Step([], ".") == [];
  }
}
