/**
 * The manifest steps of build (src/commands/build.ts): the stylesheet files
 * found under ./src are merged into the configuration's files dictionary,
 * and every entry, in enumeration order, is checked for existence and copied
 * into the distribution directory. The filesystem is a set of existing paths
 * plus the log of copies issued.
 */
module Manifest {
  import opened Wrappers
  import opened Strings
  import opened PathUtils

  /** cssFile.replace(/^(\.\/)?src\//, ""): a leading "./src/" or "src/" is dropped. */
  function StripSrcRoot(path: string): (r: string)
    ensures StartsWith(path, "./src/") ==> path == "./src/" + r
    ensures !StartsWith(path, "./src/") && StartsWith(path, "src/") ==> path == "src/" + r
    ensures !StartsWith(path, "./src/") && !StartsWith(path, "src/") ==> r == path
  {
    if StartsWith(path, "./src/") then path[6..]
    else if StartsWith(path, "src/") then path[4..]
    else path
  }

  /** No key is listed twice. */
  ghost predicate Distinct(keys: seq<string>) {
    forall i, j :: 0 <= i < j < |keys| ==> keys[i] != keys[j]
  }

  /**
   * A dictionary as JavaScript holds it: the keys in enumeration order, each
   * once, and the value of each key.
   */
  ghost predicate WellFormed(keys: seq<string>, values: map<string, string>) {
    Distinct(keys) && forall k :: k in values <==> k in keys
  }

  /** A dictionary value: enumeration order and contents. */
  datatype Dict = Dict(keys: seq<string>, values: map<string, string>)

  /**
   * `files[key] = value`: an existing key keeps its place and takes the new
   * value; a new key is enumerated last.
   */
  function Assign(d: Dict, key: string, value: string): (r: Dict)
    ensures r.values == d.values[key := value]
    ensures key in d.values ==> r.keys == d.keys
    ensures key !in d.values ==> r.keys == d.keys + [key]
  {
    Dict(if key in d.values then d.keys else d.keys + [key], d.values[key := value])
  }

  /** The dictionary after the merge loop of lines 178-181. */
  function WithCssFiles(d: Dict, cssFiles: seq<string>): Dict
    decreases |cssFiles|
  {
    if cssFiles == [] then d
    else WithCssFiles(Assign(d, cssFiles[0], StripSrcRoot(cssFiles[0])), cssFiles[1..])
  }

  /** Assigning keeps the dictionary well formed. */
  lemma AssignWellFormed(d: Dict, key: string, value: string)
    requires WellFormed(d.keys, d.values)
    ensures WellFormed(Assign(d, key, value).keys, Assign(d, key, value).values)
  {
  }

  /** The merge keeps the dictionary well formed. */
  lemma {:induction false} WithCssFilesWellFormed(d: Dict, cssFiles: seq<string>)
    requires WellFormed(d.keys, d.values)
    ensures WellFormed(WithCssFiles(d, cssFiles).keys, WithCssFiles(d, cssFiles).values)
    decreases |cssFiles|
  {
    if cssFiles != [] {
      AssignWellFormed(d, cssFiles[0], StripSrcRoot(cssFiles[0]));
      WithCssFilesWellFormed(Assign(d, cssFiles[0], StripSrcRoot(cssFiles[0])), cssFiles[1..]);
    }
  }

  /**
   * After the merge a key is present exactly when it was before or is a
   * stylesheet; a key that is not a stylesheet keeps its value.
   */
  lemma {:induction false} WithCssFilesKeepsOthers(d: Dict, cssFiles: seq<string>, k: string)
    ensures k in WithCssFiles(d, cssFiles).values <==> k in d.values || k in cssFiles
    ensures k !in cssFiles && k in d.values ==> WithCssFiles(d, cssFiles).values[k] == d.values[k]
    decreases |cssFiles|
  {
    if cssFiles != [] {
      var d' := Assign(d, cssFiles[0], StripSrcRoot(cssFiles[0]));
      WithCssFilesKeepsOthers(d', cssFiles[1..], k);
      assert k in cssFiles <==> k == cssFiles[0] || k in cssFiles[1..];
    }
  }

  /** After the merge every stylesheet maps to its path with the source root dropped. */
  lemma {:induction false} WithCssFilesMapsCss(d: Dict, cssFiles: seq<string>, i: nat)
    requires i < |cssFiles|
    ensures cssFiles[i] in WithCssFiles(d, cssFiles).values
    ensures WithCssFiles(d, cssFiles).values[cssFiles[i]] == StripSrcRoot(cssFiles[i])
    decreases |cssFiles|
  {
    var d' := Assign(d, cssFiles[0], StripSrcRoot(cssFiles[0]));
    if i > 0 {
      WithCssFilesMapsCss(d', cssFiles[1..], i - 1);
    } else if cssFiles[0] in cssFiles[1..] {
      var j :| 0 <= j < |cssFiles[1..]| && cssFiles[1..][j] == cssFiles[0];
      WithCssFilesMapsCss(d', cssFiles[1..], j);
    } else {
      WithCssFilesKeepsOthers(d', cssFiles[1..], cssFiles[0]);
    }
  }

  /** The keys present before the merge keep their places at the front. */
  lemma {:induction false} WithCssFilesKeepsOrder(d: Dict, cssFiles: seq<string>)
    ensures |d.keys| <= |WithCssFiles(d, cssFiles).keys|
    ensures WithCssFiles(d, cssFiles).keys[..|d.keys|] == d.keys
    decreases |cssFiles|
  {
    if cssFiles != [] {
      var d' := Assign(d, cssFiles[0], StripSrcRoot(cssFiles[0]));
      WithCssFilesKeepsOrder(d', cssFiles[1..]);
      var r := WithCssFiles(d', cssFiles[1..]);
      assert d'.keys[..|d.keys|] == d.keys;
      assert r.keys[..|d.keys|] == r.keys[..|d'.keys|][..|d.keys|];
    }
  }

  /** The configuration's files dictionary, which the merge updates in place. */
  class ManifestFiles {
    var keys: seq<string>
    var values: map<string, string>

    ghost predicate Valid()
      reads this
    {
      WellFormed(keys, values)
    }

    /** The dictionary's current value. */
    function Contents(): Dict
      reads this
    {
      Dict(keys, values)
    }

    /** The dictionary parsed from the configuration, in enumeration order. */
    constructor (d: Dict)
      requires WellFormed(d.keys, d.values)
      ensures Valid() && Contents() == d
    {
      keys := d.keys;
      values := d.values;
    }

    /** `files[key] = value` */
    method Set(key: string, value: string)
      requires Valid()
      modifies this
      ensures Valid() && Contents() == Assign(old(Contents()), key, value)
    {
      if key !in values {
        keys := keys + [key];
      }
      values := values[key := value];
    }

    /** Lines 178-181: every stylesheet is mapped to its path below the source root. */
    method MergeCss(cssFiles: seq<string>)
      requires Valid()
      modifies this
      ensures Valid() && Contents() == WithCssFiles(old(Contents()), cssFiles)
    {
      var i := 0;
      while i < |cssFiles|
        invariant 0 <= i <= |cssFiles|
        invariant Valid()
        invariant WithCssFiles(Contents(), cssFiles[i..]) == WithCssFiles(old(Contents()), cssFiles)
      {
        assert cssFiles[i..][1..] == cssFiles[i + 1..];
        var cssFile := cssFiles[i];
        Set(cssFile, StripSrcRoot(cssFile));
        i := i + 1;
      }
    }
  }

  /** One fs.cpSync(source, target, {recursive: true}) issued by the copy loop. */
  datatype CopyOp = CopyOp(source: string, target: string)

  /**
   * Lines 187-197: the destination is the distribution directory, "/" and
   * the manifest value; its write descriptor gives the target, completed
   * with the last segment of the source when the descriptor's file name is
   * absent or empty.
   */
  function CopyTarget(distDir: string, source: string, value: string): string {
    ResolvedTarget(distDir + "/" + value, source)
  }

  /** The target for one destination: `fileName ? dir/fileName : dir/sourceFileName`. */
  function ResolvedTarget(destination: string, source: string): string {
    var w := PathToWriteOptions(destination);
    if w.fileName.Some? && w.fileName.value != "" then w.directory + "/" + w.fileName.value
    else w.directory + "/" + LastSegment(source)
  }

  /** A file destination that starts with "./" has a slash in its normalisation. */
  lemma FileDestinationHasSlash(destination: string)
    requires StartsWith(destination, "./") && IsFile(destination)
    ensures '/' in NormalizedPath(destination)
  {
    var n := NormalizedPath(destination);
    assert destination[0] == '.' && destination[1] == '/';
    assert |n| > 0 && n[0] == '.';
    assert |n| >= 2 by { assert n[|n| - 1] != '.'; }
    assert n[1] == destination[1] by { assert StartsWith(destination, n); }
  }

  /** A file destination resolves to its normalisation, completed when that ends with a slash. */
  lemma ResolvedFileTarget(destination: string, source: string)
    requires StartsWith(destination, "./") && IsFile(destination)
    ensures var n := NormalizedPath(destination);
      && (!EndsWith(n, "/") ==> ResolvedTarget(destination, source) == n)
      && (EndsWith(n, "/") ==> ResolvedTarget(destination, source) == n + LastSegment(source))
  {
    FileDestinationHasSlash(destination);
    var n := NormalizedPath(destination);
    var w := PathToWriteOptions(destination);
    var f := w.fileName.value;
    assert n == w.directory + "/" + f;
    if f == "" {
      assert n == w.directory + "/";
      assert EndsWith(n, "/");
    } else {
      assert n[|n| - 1] == f[|f| - 1];
      assert f[|f| - 1] != '/';
      assert !EndsWith(n, "/");
    }
  }


  /**
   * With a distribution directory that starts with "./", as the build's
   * always does, the copy target is the normalised destination itself when
   * it names a file, and the normalised destination followed by the
   * source's last segment when it names a directory (or ends with a slash
   * after normalisation).
   */
  lemma CopyTargetResolves(distDir: string, source: string, value: string)
    requires StartsWith(distDir, "./")
    ensures var n := NormalizedPath(distDir + "/" + value);
      var t := CopyTarget(distDir, source, value);
      && (IsFile(distDir + "/" + value) && !EndsWith(n, "/") ==> t == n)
      && (IsFile(distDir + "/" + value) && EndsWith(n, "/") ==> t == n + LastSegment(source))
      && (!IsFile(distDir + "/" + value) ==> t == n + "/" + LastSegment(source))
  {
    var destination := distDir + "/" + value;
    assert StartsWith(destination, "./");
    if IsFile(destination) {
      ResolvedFileTarget(destination, source);
    }
  }

  /** A file destination: the target is the destination itself. */
  lemma CopyTargetFileExample(distDir: string, source: string, value: string)
    requires distDir == "./dist" && source == "README.md" && value == "docs/README.md"
    ensures CopyTarget(distDir, source, value) == "./dist/docs/README.md"
  {
    var d := distDir + "/" + value;
    FileDestinationExample(d);
    CopyTargetResolves(distDir, source, value);
  }

  /** `./dist/docs/README.md` is a file and its own normalisation. */
  lemma FileDestinationExample(d: string)
    requires d == "./dist" + "/" + "docs/README.md"
    ensures d == "./dist/docs/README.md" && NormalizedPath(d) == d && !EndsWith(d, "/") && IsFile(d)
  {
    assert d == "./dist/docs/README.md";
    assert d[|d| - 1] == 'd';
    assert !EndsWith(d, "/.") && !EndsWith(d, "/");
    assert NormalizedPath(d) == d;
    assert d[0] == '.';
  }


  /**
   * "docs/" under "./dist" names a file, not a directory: the "." of the
   * leading "./" satisfies the heuristic, so the source is copied to
   * "./dist/docs" and its own name is not appended.
   */
  lemma CopyTargetTrailingSlashExample(distDir: string, source: string, value: string)
    requires distDir == "./dist" && source == "README.md" && value == "docs/"
    ensures CopyTarget(distDir, source, value) == "./dist/docs"
  {
    var d := distDir + "/" + value;
    TrailingSlashDestinationExample(d);
    CopyTargetResolves(distDir, source, value);
  }

  /** `./dist/docs/` normalises to `./dist/docs`, a file that does not end with a slash. */
  lemma TrailingSlashDestinationExample(d: string)
    requires d == "./dist" + "/" + "docs/"
    ensures NormalizedPath(d) == "./dist/docs" && !EndsWith(NormalizedPath(d), "/") && IsFile(d)
  {
    var n := "./dist/docs";
    assert d == n + "/";
    NormalizedSlash(n);
    assert n[0] == '.' && n[|n| - 1] == 's';
  }


  /** "./" names a directory: the source keeps its own name. */
  lemma CopyTargetRootExample(distDir: string, source: string, value: string)
    requires distDir == "./dist" && source == "package.json" && value == "./"
    ensures CopyTarget(distDir, source, value) == "./dist/./package.json"
  {
    PlainNameExample(source);
    LastSegmentOfPlain(source);
    var d := distDir + "/" + value;
    RootDestinationExample(d);
    CopyTargetResolves(distDir, source, value);
    RootTargetExample(NormalizedPath(d), source);
  }

  /** `package.json` has no slash. */
  lemma PlainNameExample(source: string)
    requires source == "package.json"
    ensures '/' !in source
  {
  }

  /** `./dist` joined with `./` normalises to `./dist/.`, which is not a file. */
  lemma RootDestinationExample(d: string)
    requires d == "./dist" + "/" + "./"
    ensures NormalizedPath(d) == "./dist/." && !IsFile(d)
  {
    assert d == "./dist/./";
    IsFileDotSegment(d);
    assert NormalizedPath(d) == "./dist/.";
  }

  /** `./dist/.`, a slash and `package.json`. */
  lemma RootTargetExample(n: string, source: string)
    requires n == "./dist/." && source == "package.json"
    ensures n + "/" + source == "./dist/./package.json"
  {
  }


  /** A name without slashes is its own last segment. */
  lemma LastSegmentOfPlain(s: string)
    requires '/' !in s
    ensures LastSegment(s) == s
  {
    JoinSplitSlash(s);
  }

  /** The message of the error thrown for a missing source (line 184). */
  function MissingSourceMessage(source: string): (m: string)
    ensures EndsWith(m, source + " does not exist")
  {
    "\U{1F9E8}\U{26A0}\U{FE0F}\U{1F4A3} Source " + source + " does not exist"
  }

  /** The paths below `target` that exist after a recursive copy of `source`. */
  function CopiedPaths(existing: set<string>, source: string, target: string): set<string> {
    set p | p in existing && StartsWith(p, source + "/") :: target + p[|source|..]
  }

  /** The directories leading to `target`, which the copy creates when missing. */
  function ParentDirectories(target: string): set<string> {
    set i | 0 < i < |target| && target[i] == '/' :: target[..i]
  }

  /** The paths that exist after fs.cpSync(source, target, {recursive: true}). */
  function AfterCopy(existing: set<string>, source: string, target: string): (r: set<string>)
    ensures existing <= r && target in r
  {
    existing + {target} + ParentDirectories(target) + CopiedPaths(existing, source, target)
  }

  /** The filesystem as the copy loop sees it, and the copies issued so far. */
  datatype Disk = Disk(existing: set<string>, log: seq<CopyOp>)

  /** The state after the copy loop and whether it ran to the end or threw. */
  datatype CopyRun = CopyRun(disk: Disk, outcome: Outcome<string>)

  /** Every key has a value. */
  ghost predicate Keyed(keys: seq<string>, values: map<string, string>) {
    forall i :: 0 <= i < |keys| ==> keys[i] in values
  }

  /** The copy issued for each entry, in enumeration order, when none is missing. */
  function Plan(distDir: string, keys: seq<string>, values: map<string, string>): (ops: seq<CopyOp>)
    requires Keyed(keys, values)
    ensures |ops| == |keys|
  {
    if keys == [] then []
    else [CopyOp(keys[0], CopyTarget(distDir, keys[0], values[keys[0]]))] + Plan(distDir, keys[1..], values)
  }

  /**
   * Lines 182-202 over the planned copies: for each one in order, throw if
   * its source does not exist (at that moment), else copy it.
   */
  function RunCopies(disk: Disk, ops: seq<CopyOp>): CopyRun
    decreases |ops|
  {
    if ops == [] then CopyRun(disk, Pass)
    else if ops[0].source !in disk.existing then CopyRun(disk, Fail(MissingSourceMessage(ops[0].source)))
    else RunCopies(Copied(disk, ops[0].source, ops[0].target), ops[1..])
  }

  /** The state after one copy: the new paths exist and the copy is logged. */
  function Copied(disk: Disk, source: string, target: string): (r: Disk)
    ensures disk.existing <= r.existing
    ensures r.log == disk.log + [CopyOp(source, target)]
  {
    Disk(AfterCopy(disk.existing, source, target), disk.log + [CopyOp(source, target)])
  }

  /** The planned copy of the i-th entry. */
  lemma {:induction false} PlanAt(distDir: string, keys: seq<string>, values: map<string, string>, i: nat)
    requires Keyed(keys, values) && i < |keys|
    ensures Plan(distDir, keys, values)[i] == CopyOp(keys[i], CopyTarget(distDir, keys[i], values[keys[i]]))
  {
    if i > 0 {
      PlanAt(distDir, keys[1..], values, i - 1);
    }
  }

  /**
   * The copies issued are a prefix of the planned ones, in order. The loop
   * ends normally exactly when that prefix is all of them; otherwise it
   * throws naming the source of the first copy not issued, which does not
   * exist, and nothing after it is copied.
   */
  lemma {:induction false} RunCopiesIssuesPrefix(disk: Disk, ops: seq<CopyOp>)
    ensures var r := RunCopies(disk, ops);
      var k := |r.disk.log| - |disk.log|;
      && 0 <= k <= |ops|
      && r.disk.log == disk.log + ops[..k]
      && (r.outcome.Pass? <==> k == |ops|)
      && (r.outcome.Fail? ==> r.outcome.error == MissingSourceMessage(ops[k].source) && ops[k].source !in r.disk.existing)
    decreases |ops|
  {
    if ops != [] && ops[0].source in disk.existing {
      var disk' := Copied(disk, ops[0].source, ops[0].target);
      RunCopiesIssuesPrefix(disk', ops[1..]);
      var r := RunCopies(disk', ops[1..]);
      var k' := |r.disk.log| - |disk'.log|;
      LogAfterFirst(disk.log, ops, k');
    }
  }

  /** Logging the first copy, then a prefix of the others, logs a prefix of all of them. */
  lemma LogAfterFirst(log: seq<CopyOp>, ops: seq<CopyOp>, k: nat)
    requires k < |ops|
    ensures (log + [ops[0]]) + ops[1..][..k] == log + ops[..k + 1]
    ensures k + 1 < |ops| ==> ops[1..][k] == ops[k + 1]
  {
    assert ops[..k + 1] == [ops[0]] + ops[1..][..k];
  }

  /** A copy whose source exists is issued, and the loop goes on from the new state. */
  lemma RunCopiesStep(disk: Disk, op: CopyOp, rest: seq<CopyOp>)
    requires op.source in disk.existing
    ensures RunCopies(disk, [op] + rest) == RunCopies(Copied(disk, op.source, op.target), rest)
  {
    assert ([op] + rest)[1..] == rest;
  }

  /** The copy loop never removes a path. */
  lemma {:induction false} RunCopiesGrows(disk: Disk, ops: seq<CopyOp>)
    ensures disk.existing <= RunCopies(disk, ops).disk.existing
    decreases |ops|
  {
    if ops != [] && ops[0].source in disk.existing {
      RunCopiesGrows(Copied(disk, ops[0].source, ops[0].target), ops[1..]);
    }
  }

  /** When every source exists beforehand, every copy is issued and nothing is thrown. */
  lemma {:induction false} RunCopiesAllPresent(disk: Disk, ops: seq<CopyOp>)
    requires forall i :: 0 <= i < |ops| ==> ops[i].source in disk.existing
    ensures RunCopies(disk, ops).outcome == Pass
    ensures RunCopies(disk, ops).disk.log == disk.log + ops
    decreases |ops|
  {
    if ops != [] {
      var disk' := Copied(disk, ops[0].source, ops[0].target);
      SourcesStillPresent(disk.existing, disk'.existing, ops);
      RunCopiesAllPresent(disk', ops[1..]);
      LogAll(disk.log, ops);
    }
  }

  /** Sources present before a copy are present after it, for the remaining copies too. */
  lemma SourcesStillPresent(before: set<string>, after: set<string>, ops: seq<CopyOp>)
    requires ops != [] && before <= after
    requires forall i :: 0 <= i < |ops| ==> ops[i].source in before
    ensures forall i :: 0 <= i < |ops[1..]| ==> ops[1..][i].source in after
  {
    forall i | 0 <= i < |ops[1..]| ensures ops[1..][i].source in after {
      assert ops[1..][i] == ops[i + 1];
    }
  }

  /** Logging the first copy, then the others, logs all of them. */
  lemma LogAll(log: seq<CopyOp>, ops: seq<CopyOp>)
    requires ops != []
    ensures (log + [ops[0]]) + ops[1..] == log + ops
  {
    assert ops == [ops[0]] + ops[1..];
  }

  /** A loop that ends normally found every source, so each exists afterwards. */
  lemma {:induction false} RunCopiesPassSourcesExist(disk: Disk, ops: seq<CopyOp>)
    requires RunCopies(disk, ops).outcome.Pass?
    ensures forall i :: 0 <= i < |ops| ==> ops[i].source in RunCopies(disk, ops).disk.existing
    decreases |ops|
  {
    if ops != [] {
      var disk' := Copied(disk, ops[0].source, ops[0].target);
      RunCopiesPassSourcesExist(disk', ops[1..]);
      RunCopiesGrows(disk', ops[1..]);
      forall i | 1 <= i < |ops| ensures ops[i] == ops[1..][i - 1] { }
    }
  }

  /** The filesystem the copy loop works on: fs.existsSync and fs.cpSync. */
  class FileSystem {
    var existing: set<string>
    var log: seq<CopyOp>

    /** The current state. */
    function State(): Disk
      reads this
    {
      Disk(existing, log)
    }

    constructor (existing: set<string>)
      ensures State() == Disk(existing, [])
    {
      this.existing := existing;
      log := [];
    }

    /** fs.existsSync(path) */
    method Exists(path: string) returns (b: bool)
      ensures b <==> path in existing
    {
      b := path in existing;
    }

    /** fs.cpSync(source, target, {recursive: true}) */
    method Copy(source: string, target: string)
      modifies this
      ensures State() == Copied(old(State()), source, target)
    {
      existing := AfterCopy(existing, source, target);
      log := log + [CopyOp(source, target)];
    }
  }

  /** The plan for the entries from the i-th on starts with the i-th entry's copy. */
  lemma PlanFrom(distDir: string, keys: seq<string>, values: map<string, string>, i: nat)
    requires Keyed(keys, values) && i < |keys|
    ensures Keyed(keys[i..], values) && Keyed(keys[i + 1..], values)
    ensures Plan(distDir, keys[i..], values)
         == [CopyOp(keys[i], CopyTarget(distDir, keys[i], values[keys[i]]))] + Plan(distDir, keys[i + 1..], values)
  {
    assert keys[i..][1..] == keys[i + 1..];
  }

  /** Lines 182-202: the copy loop over the merged dictionary. */
  method CopyFiles(files: ManifestFiles, fs: FileSystem, distDir: string) returns (r: Outcome<string>)
    requires files.Valid()
    modifies fs
    ensures CopyRun(fs.State(), r) == RunCopies(old(fs.State()), Plan(distDir, files.keys, files.values))
  {
    var keys := files.keys;
    var values := files.values;
    assert Keyed(keys, values);
    ghost var goal := RunCopies(fs.State(), Plan(distDir, keys, values));
    assert keys[0..] == keys;
    var i := 0;
    r := Pass;
    while i < |keys|
      invariant 0 <= i <= |keys|
      invariant Keyed(keys[i..], values)
      invariant RunCopies(fs.State(), Plan(distDir, keys[i..], values)) == goal
    {
      var source := keys[i];
      assert source == keys[i..][0];
      PlanFrom(distDir, keys, values, i);
      var present := fs.Exists(source);
      if !present {
        r := Fail(MissingSourceMessage(source));
        return;
      }
      var target := CopyTarget(distDir, source, values[source]);
      RunCopiesStep(fs.State(), CopyOp(source, target), Plan(distDir, keys[i + 1..], values));
      fs.Copy(source, target);
      i := i + 1;
    }
  }
}
