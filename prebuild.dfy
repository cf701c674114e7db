/**
 * `optimizeDeps` (vite/index.js:16-50): once per cache directory, map every declared
 * dependency to the bundler output that serves it, and record that manifest.
 */
module Prebuild {
  import opened Results
  import opened JsStrings
  import opened Imports

  /** `outputs.find(found)`, as an index; `None` is `undefined`. */
  function FindFirst(outputs: seq<string>, found: string -> bool): (r: Option<nat>)
    ensures r.Some? ==> r.value < |outputs| && found(outputs[r.value])
    ensures r.Some? ==> forall j :: 0 <= j < r.value ==> !found(outputs[j])
    ensures r.None? ==> forall j :: 0 <= j < |outputs| ==> !found(outputs[j])
    decreases |outputs|
  {
    if outputs == [] then None
    else if found(outputs[0]) then Some(0)
    else match FindFirst(outputs[1..], found)
      case None => None
      case Some(i) => Some(i + 1)
  }

  /** `'/' + outputs[i]` for the output `find` picks, or "/undefined" when it picks none. */
  function Absolute(outputs: seq<string>, pick: Option<nat>): string
    requires pick.Some? ==> pick.value < |outputs|
  {
    match pick
    case None => "/undefined"
    case Some(i) => "/" + outputs[i]
  }

  /**
   * The matcher as written, `'/' + outputs.find(output => output.endsWith(`${dep}.js`))`: the
   * first output whose name ends with `dep + ".js"`, made absolute; with no such output,
   * string concatenation with `undefined` yields "/undefined".
   */
  function SuffixServedPath(outputs: seq<string>, dep: string): (r: string)
    ensures |r| > 0 && r[0] == '/'
    ensures (forall j :: 0 <= j < |outputs| ==> !EndsWith(outputs[j], dep + ".js")) ==> r == "/undefined"
    ensures forall i :: FirstEndingWith(outputs, dep + ".js", i) ==> r == "/" + outputs[i]
  {
    Absolute(outputs, FindFirst(outputs, o => EndsWith(o, dep + ".js")))
  }

  /** `outputs[i]` is the first output whose name ends with `suffix`. */
  predicate FirstEndingWith(outputs: seq<string>, suffix: string, i: int) {
    0 <= i < |outputs| && EndsWith(outputs[i], suffix) &&
    forall j :: 0 <= j < i ==> !EndsWith(outputs[j], suffix)
  }

  /**
   * Which test picks a dependency's bundle: the suffix test vite/index.js:45 applies, or the
   * corrected test on the file name.
   */
  datatype Matcher = SuffixMatch | FileNameMatch

  /** The path the manifest records for `dep` when `matcher` picks its bundle. */
  function Served(matcher: Matcher, outputs: seq<string>, dep: string): (r: string)
    ensures |r| > 0 && r[0] == '/'
  {
    match matcher
    case SuffixMatch => SuffixServedPath(outputs, dep)
    case FileNameMatch => ServedPath(outputs, dep)
  }

  /**
   * The manifest `optimizeDeps` writes for these dependencies and bundler outputs: each
   * declared name maps to the path `matcher` picks for it, or "/undefined".
   */
  function ManifestOf(deps: seq<string>, outputs: seq<string>, matcher: Matcher): (m: Manifest)
    ensures m.Keys == set d | d in deps
    ensures forall d :: d in m ==> m[d] == Served(matcher, outputs, d)
  {
    map d | d in deps :: Served(matcher, outputs, d)
  }

  /** Every path in a built manifest is absolute: it starts with '/'. */
  lemma ManifestPathsAbsolute(deps: seq<string>, outputs: seq<string>, matcher: Matcher)
    ensures forall d :: d in ManifestOf(deps, outputs, matcher) ==>
              |ManifestOf(deps, outputs, matcher)[d]| > 0 && ManifestOf(deps, outputs, matcher)[d][0] == '/'
  {
  }

  /**
   * A built manifest never maps a name to another name: its paths start with '/', which no
   * dependency name does. This is what a second `importAnalysis` pass relies on.
   */
  lemma ManifestNoValueIsKey(deps: seq<string>, outputs: seq<string>, matcher: Matcher)
    requires forall d :: d in deps ==> |d| == 0 || d[0] != '/'
    ensures NoValueIsKey(ManifestOf(deps, outputs, matcher))
  {
    var m := ManifestOf(deps, outputs, matcher);
    forall k | k in m ensures m[k] !in m {
      var v := m[k];
      assert |v| > 0 && v[0] == '/';
      assert v !in deps;
    }
  }

  /** The `deps.forEach` loop filling the `data` object one dependency at a time. */
  method BuildManifest(deps: seq<string>, outputs: seq<string>, matcher: Matcher) returns (data: Manifest)
    ensures data.Keys == set d | d in deps
    ensures forall d :: d in data ==> data[d] == Served(matcher, outputs, d)
    ensures data == ManifestOf(deps, outputs, matcher)
  {
    data := map[];
    for i := 0 to |deps|
      invariant data.Keys == set d | d in deps[..i]
      invariant forall d :: d in data ==> data[d] == Served(matcher, outputs, d)
    {
      assert deps[..i + 1] == deps[..i] + [deps[i]];
      data := data[deps[i] := Served(matcher, outputs, deps[i])];
    }
    assert deps[..|deps|] == deps;
  }

  /** How a call of `optimizeDeps` ends. */
  datatype PrebuildOutcome =
    | AlreadyCached   // the cache directory exists: `return false`
    | Prebuilt        // the manifest was written: the promise resolves with no value
    | BundlerRejected // the bundler's build call rejected after the directory was created

  /** The part of the file system `optimizeDeps` reads and writes. */
  datatype CacheState = CacheState(cacheExists: bool, manifest: Option<Manifest>)

  /** A manifest file lives inside the cache directory. */
  predicate Consistent(st: CacheState) {
    st.manifest.Some? ==> st.cacheExists
  }

  /**
   * One call of `optimizeDeps`, given the declared dependency names and the bundler's output
   * file names (`None` when the build rejects); `matcher` picks each dependency's bundle.
   */
  function Step(st: CacheState, deps: seq<string>, bundle: Option<seq<string>>, matcher: Matcher): (r: (CacheState, PrebuildOutcome))
    ensures st.cacheExists <==> r.1 == AlreadyCached
    ensures st.cacheExists ==> r.0 == st
    ensures !st.cacheExists ==> r.0.cacheExists
    ensures r.1 == BundlerRejected <==> !st.cacheExists && bundle.None?
    ensures r.1 == BundlerRejected ==> r.0.manifest == st.manifest
    ensures r.1 == Prebuilt ==> bundle.Some? && r.0.manifest == Some(ManifestOf(deps, bundle.value, matcher))
  {
    if st.cacheExists then (st, AlreadyCached)
    else if bundle.None? then (CacheState(true, st.manifest), BundlerRejected)
    else (CacheState(true, Some(ManifestOf(deps, bundle.value, matcher))), Prebuilt)
  }

  /** Every call leaves the cache directory in place and keeps the state consistent. */
  lemma StepKeepsConsistent(st: CacheState, deps: seq<string>, bundle: Option<seq<string>>, matcher: Matcher)
    requires Consistent(st)
    ensures Step(st, deps, bundle, matcher).0.cacheExists && Consistent(Step(st, deps, bundle, matcher).0)
  {
  }

  /**
   * `optimizeDeps` is idempotent: after any call, a further call returns `false` and changes
   * nothing, whatever dependencies and bundler it is given.
   */
  lemma StepIdempotent(st: CacheState, deps: seq<string>, bundle: Option<seq<string>>,
                       deps': seq<string>, bundle': Option<seq<string>>, matcher: Matcher)
    ensures var st' := Step(st, deps, bundle, matcher).0;
            Step(st', deps', bundle', matcher) == (st', AlreadyCached)
  {
  }

  /**
   * A failed build still created the directory: later calls report it as cached although no
   * manifest was written, so the first request with imports finds the manifest missing.
   */
  lemma RejectedBuildLeavesNoManifest(deps: seq<string>, deps': seq<string>, bundle': Option<seq<string>>,
                                      matcher: Matcher)
    ensures var st := Step(CacheState(false, None), deps, None, matcher).0;
            st == CacheState(true, None) && Step(st, deps', bundle', matcher).1 == AlreadyCached
  {
  }

  /** The cache directory and its manifest file, updated in place by `optimizeDeps`. */
  class PrebuildCache {
    var cacheExists: bool
    var manifest: Option<Manifest>

    ghost predicate Valid()
      reads this
    {
      Consistent(CacheState(cacheExists, manifest))
    }

    constructor (cacheExists: bool, manifest: Option<Manifest>)
      requires manifest.Some? ==> cacheExists
      ensures Valid() && this.cacheExists == cacheExists && this.manifest == manifest
    {
      this.cacheExists := cacheExists;
      this.manifest := manifest;
    }

    /**
     * `optimizeDeps()`: the guard, `mkdirSync`, the build and the manifest write; the program
     * picks bundles with `SuffixMatch`.
     */
    method OptimizeDeps(deps: seq<string>, bundle: Option<seq<string>>, matcher: Matcher) returns (outcome: PrebuildOutcome)
      requires Valid()
      modifies this
      ensures Valid() && cacheExists
      ensures (CacheState(cacheExists, manifest), outcome) ==
              Step(CacheState(old(cacheExists), old(manifest)), deps, bundle, matcher)
      ensures old(cacheExists) ==> outcome == AlreadyCached && manifest == old(manifest)
    {
      if cacheExists {
        return AlreadyCached;
      }
      cacheExists := true;
      if bundle.None? {
        return BundlerRejected;
      }
      var data := BuildManifest(deps, bundle.value, matcher);
      manifest := Some(data);
      outcome := Prebuilt;
    }
  }

  /** `file` is the name of the file at path `o`: the whole path, or what follows a '/'. */
  predicate NamesFile(o: string, file: string) {
    o == file || EndsWith(o, "/" + file)
  }

  /**
   * The evidently intended match: the first output whose file name is `dep + ".js"`, made
   * absolute as the matcher as written does, and "/undefined" when there is none. A scoped
   * name such as "@vue/shared" is matched by the path that ends in "/@vue/shared.js".
   */
  function ServedPath(outputs: seq<string>, dep: string): (r: string)
    ensures |r| > 0 && r[0] == '/'
    ensures (forall j :: 0 <= j < |outputs| ==> !NamesFile(outputs[j], dep + ".js")) ==> r == "/undefined"
    ensures r != "/undefined" ==> NamesFile(r[1..], dep + ".js")
    ensures forall i :: FirstNamed(outputs, dep + ".js", i) ==> r == "/" + outputs[i]
  {
    var file := dep + ".js";
    var pick := FindFirst(outputs, o => NamesFile(o, file));
    if pick.Some? then
      var p := pick.value;
      assert FirstNamed(outputs, file, p);
      FirstNamedUnique(outputs, file, p);
      assert ("/" + outputs[p])[1..] == outputs[p];
      Absolute(outputs, pick)
    else
      Absolute(outputs, pick)
  }

  /** `outputs[i]` is the first output whose file name is `file`. */
  predicate FirstNamed(outputs: seq<string>, file: string, i: int) {
    0 <= i < |outputs| && NamesFile(outputs[i], file) &&
    forall j :: 0 <= j < i ==> !NamesFile(outputs[j], file)
  }

  /** Only one output can be the first with a given file name. */
  lemma FirstNamedUnique(outputs: seq<string>, file: string, p: int)
    requires FirstNamed(outputs, file, p)
    ensures forall i :: FirstNamed(outputs, file, i) ==> i == p
  {
  }

  /**
   * As written, a dependency whose name ends another's is served the other's bundle when that
   * bundle is listed first: "react" gets "preact.js", and both share one file.
   */
  lemma SuffixMatchConfusesDependencies(dir: string)
    ensures var outputs := [dir + "/preact.js", dir + "/react.js"];
            SuffixServedPath(outputs, "react") == "/" + dir + "/preact.js" &&
            SuffixServedPath(outputs, "preact") == "/" + dir + "/preact.js"
  {
    var outputs := [dir + "/preact.js", dir + "/react.js"];
    assert EndsWith(outputs[0], "react" + ".js") by {
      assert outputs[0][|outputs[0]| - 8..] == "react.js";
    }
    assert FirstEndingWith(outputs, "react" + ".js", 0);
    assert FirstEndingWith(outputs, "preact" + ".js", 0) by {
      assert outputs[0][|outputs[0]| - 9..] == "preact.js";
    }
  }

  /** A path ends with every file name it has. */
  lemma NamesFileEndsWith(o: string, file: string)
    ensures NamesFile(o, file) ==> EndsWith(o, file)
  {
    if EndsWith(o, "/" + file) {
      assert o[|o| - |file|..] == o[|o| - |file| - 1..][1..];
    }
  }

  /** Two suffixes of one text: the shorter is a suffix of the longer. */
  lemma SuffixOfSuffix(o: string, a: string, b: string)
    requires EndsWith(o, a) && EndsWith(o, b) && |a| <= |b|
    ensures EndsWith(b, a)
  {
    assert b[|b| - |a|..] == o[|o| - |a|..];
  }

  /** Two file names of one path are equal, or one is the other behind a '/'. */
  lemma NamesOfOnePath(o: string, f1: string, f2: string)
    requires NamesFile(o, f1) && NamesFile(o, f2)
    ensures f1 == f2 || EndsWith(f1, "/" + f2) || EndsWith(f2, "/" + f1)
  {
    NamesFileEndsWith(o, f1);
    NamesFileEndsWith(o, f2);
    if |f1| == |f2| {
      SuffixOfSuffix(o, f1, f2);
    } else if |f1| < |f2| {
      SuffixOfSuffix(o, "/" + f1, f2);
    } else {
      SuffixOfSuffix(o, "/" + f2, f1);
    }
  }

  /** Names that become equal after appending the same extension were equal. */
  lemma SameSuffixSameName(a: string, b: string, ext: string)
    ensures a + ext == b + ext ==> a == b
  {
    if a + ext == b + ext {
      assert a == (a + ext)[..|a|];
      assert b == (b + ext)[..|b|];
    }
  }

  /** A path suffix that survives appending the same extension to both names. */
  lemma StripExtension(a: string, b: string, ext: string)
    requires EndsWith(a + ext, "/" + (b + ext))
    ensures EndsWith(a, "/" + b)
  {
    var s := "/" + b;
    assert "/" + (b + ext) == s + ext;
    assert (a + ext)[|a + ext| - |s + ext|..] == a[|a| - |s|..] + ext;
    SameSuffixSameName(a[|a| - |s|..], s, ext);
  }

  /**
   * A path that has `a + ".js"` as its file name does not have `b + ".js"` as well, unless
   * one name is the other behind a '/'.
   */
  lemma DistinctNamesDistinctFiles(o: string, a: string, b: string)
    requires a != b && !EndsWith(a, "/" + b) && !EndsWith(b, "/" + a)
    requires NamesFile(o, a + ".js")
    ensures !NamesFile(o, b + ".js")
  {
    if NamesFile(o, b + ".js") {
      NamesOfOnePath(o, a + ".js", b + ".js");
      SameSuffixSameName(a, b, ".js");
      if EndsWith(a + ".js", "/" + (b + ".js")) {
        StripExtension(a, b, ".js");
      } else if EndsWith(b + ".js", "/" + (a + ".js")) {
        StripExtension(b, a, ".js");
      }
    }
  }

  /**
   * Corrected, two dependencies are never served the same bundle, unless one name is the other
   * behind a '/' (as "@vue/shared" is "shared" behind "@vue/").
   */
  lemma ServedPathsDistinct(outputs: seq<string>, d1: string, d2: string)
    requires d1 != d2 && !EndsWith(d1, "/" + d2) && !EndsWith(d2, "/" + d1)
    requires ServedPath(outputs, d1) != "/undefined"
    ensures ServedPath(outputs, d1) != ServedPath(outputs, d2)
  {
    var r := ServedPath(outputs, d1);
    if r == ServedPath(outputs, d2) {
      DistinctNamesDistinctFiles(r[1..], d1, d2);
    }
  }

  /** The bundle of `name` in a directory has `name` as its file name. */
  lemma InDirectory(dir: string, name: string)
    ensures NamesFile(dir + "/" + name, name)
  {
    var o := dir + "/" + name;
    assert o[|o| - |name| - 1..] == "/" + name;
  }

  /**
   * Corrected, a dependency is served its own bundle even when another dependency's bundle is
   * listed first in the same directory ("react" after "preact").
   */
  lemma ServedPathServesOwnBundle(dir: string, other: string, dep: string)
    requires other != dep && !EndsWith(other, "/" + dep) && !EndsWith(dep, "/" + other)
    ensures var outputs := [dir + "/" + (other + ".js"), dir + "/" + (dep + ".js")];
            ServedPath(outputs, dep) == "/" + outputs[1]
  {
    var file := dep + ".js";
    var outputs := [dir + "/" + (other + ".js"), dir + "/" + file];
    InDirectory(dir, other + ".js");
    InDirectory(dir, file);
    DistinctNamesDistinctFiles(outputs[0], other, dep);
    assert FirstNamed(outputs, file, 1);
  }

  /** Corrected, a scoped name such as "@vue/shared" is still served its bundle. */
  lemma ServedPathKeepsScopedNames(dir: string, dep: string)
    ensures ServedPath([dir + "/" + (dep + ".js")], dep) == "/" + dir + "/" + (dep + ".js")
  {
    InDirectory(dir, dep + ".js");
    assert FirstNamed([dir + "/" + (dep + ".js")], dep + ".js", 0);
  }

  /**
   * The two matchers agree whenever the first output ending with `dep + ".js"` has it as its
   * file name: the correction changes only the outputs the suffix test confuses.
   */
  lemma MatchersAgree(outputs: seq<string>, dep: string, i: int)
    requires FirstEndingWith(outputs, dep + ".js", i) && NamesFile(outputs[i], dep + ".js")
    ensures ServedPath(outputs, dep) == SuffixServedPath(outputs, dep) == "/" + outputs[i]
  {
    forall j | 0 <= j < i ensures !NamesFile(outputs[j], dep + ".js") {
      NamesFileEndsWith(outputs[j], dep + ".js");
    }
    assert FirstNamed(outputs, dep + ".js", i);
  }
}
