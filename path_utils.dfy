/**
 * The string-level path helpers at the top of src/commands/build.ts:
 * normalisation, the file-or-directory heuristic, base-path standardisation,
 * the "./" prefix and the split of a destination into directory and file name.
 */
module PathUtils {
  import opened Wrappers
  import opened Strings

  /**
   * getNormalizedPath: removes one trailing "/." and then at most one
   * trailing "/". Both regular expressions are anchored at the end of the
   * input, so each removes at most one occurrence.
   */
  function NormalizedPath(path: string): (r: string)
    ensures StartsWith(path, r)
    ensures EndsWith(path, "//.") ==> r == path[..|path| - 3]
    ensures EndsWith(path, "/.") && !EndsWith(path, "//.") ==> r == path[..|path| - 2]
    ensures EndsWith(path, "/") ==> r == path[..|path| - 1]
    ensures !EndsWith(path, "/.") && !EndsWith(path, "/") ==> r == path
    ensures |path| > 0 && path[0] != '/' ==> |r| > 0 && r[0] == path[0]
  {
    var a := if EndsWith(path, "/.") then path[..|path| - 2] else path;
    assert EndsWith(path, "//.") <==> EndsWith(path, "/.") && EndsWith(a, "/") by {
      assert "//." == "/" + "/.";
      EndsWithConcat(path, "/", "/.");
    }
    assert EndsWith(path, "//.") ==> a[..|a| - 1] == path[..|path| - 3];
    assert EndsWith(path, "/") ==> a == path by {
      if EndsWith(path, "/") { assert path[|path| - 1] == '/'; }
    }
    assert |path| > 0 && path[0] != '/' ==> |a| > 0 && a[0] == path[0] by {
      if EndsWith(path, "/.") && |path| == 2 { assert path[0] == '/'; }
    }
    assert |a| > 0 && a[0] != '/' ==> !EndsWith(a, "/") || |a| > 1 by {
      if EndsWith(a, "/") && |a| == 1 { assert a[0] == '/'; }
    }
    if EndsWith(a, "/") then a[..|a| - 1] else a
  }

  /** Normalisation is not idempotent: a path ending in "//" loses only one of its slashes. */
  lemma NormalizedPathNotIdempotent(d: string)
    ensures NormalizedPath(d + "//") == d + "/"
    ensures NormalizedPath(NormalizedPath(d + "//")) != NormalizedPath(d + "//")
  {
    assert (d + "/") + "/" == d + "//";
    NormalizedSlash(d + "/");
    NormalizedSlash(d);
    assert |d| != |d + "/"|;
  }

  /** "a/." and "a/" both normalise to "a". */
  lemma NormalizedPathExamples(d: string)
    requires d == "a"
    ensures NormalizedPath(d + "/.") == d && NormalizedPath(d + "/") == d
  {
    assert !EndsWith(d, "/") by { assert d[0] == 'a'; }
    NormalizedSlashDot(d);
    NormalizedSlash(d);
  }


  /** One trailing slash is removed. */
  lemma NormalizedSlash(d: string)
    ensures NormalizedPath(d + "/") == d
  {
    var p := d + "/";
    assert p[|p| - 1] == '/';
    assert EndsWith(p, "/") && p[..|p| - 1] == d;
  }

  /** A trailing "/." is removed when no slash is left before it. */
  lemma NormalizedSlashDot(d: string)
    requires !EndsWith(d, "/")
    ensures NormalizedPath(d + "/.") == d
  {
    var p := d + "/.";
    assert p[|p| - 2..] == "/.";
    assert "//." == "/" + "/.";
    EndsWithConcat(p, "/", "/.");
    assert p[..|p| - 2] == d;
  }


  /** isFile: the normalised path contains a "." and does not end with ".". */
  predicate IsFile(path: string) {
    var n := NormalizedPath(path);
    '.' in n && n[|n| - 1] != '.'
  }

  /**
   * A path that starts with "./" (every destination under the distribution
   * directory does) is a file exactly when its normalisation does not end
   * with ".": the dot the heuristic asks for is always there.
   */
  lemma IsFileUnderDotSlash(path: string)
    requires StartsWith(path, "./")
    ensures IsFile(path) <==> !EndsWith(NormalizedPath(path), ".")
  {
    var n := NormalizedPath(path);
    assert path[0] == '.';
    assert n[0] == '.';
    assert "." == ['.'];
    EndsWithChar(n, '.');
  }


  /** `./` normalises to `.`, which ends with a dot. */
  lemma IsFileDotSlash(p: string)
    requires p == "./"
    ensures !IsFile(p)
  {
    assert NormalizedPath(p) == ".";
  }

  /** `./dist/./` normalises to `./dist/.`, which ends with a dot. */
  lemma IsFileDotSegment(p: string)
    requires p == "./dist/./"
    ensures !IsFile(p)
  {
    assert NormalizedPath(p) == "./dist/.";
  }

  /** `a/b.` ends with a dot. */
  lemma IsFileTrailingDot(p: string)
    requires p == "a/b."
    ensures !IsFile(p)
  {
    assert NormalizedPath(p) == p;
  }

  /** `a/b` holds no dot. */
  lemma IsFileNoDot(p: string)
    requires p == "a/b"
    ensures !IsFile(p)
  {
    assert NormalizedPath(p) == p;
  }

  /** `a/b.ts` holds a dot and ends with a letter. */
  lemma IsFileWithExtension(p: string)
    requires p == "a/b.ts"
    ensures IsFile(p)
  {
    assert NormalizedPath(p) == p && p[3] == '.';
  }

  /** `./dist/docs/` counts as a file: its dot is the one of the leading `./`. */
  lemma IsFileDottedDirectory(p: string)
    requires p == "./dist/docs/"
    ensures IsFile(p)
  {
    assert NormalizedPath(p) == "./dist/docs";
  }

  /** The classifications the heuristic gives to typical inputs. */
  lemma IsFileExamples()
    ensures !IsFile("./") && !IsFile("./dist/./") && !IsFile("a/b.") && !IsFile("a/b")
    ensures IsFile("a/b.ts") && IsFile("./dist/docs/")
  {
    IsFileDotSlash("./");
    IsFileDotSegment("./dist/./");
    IsFileTrailingDot("a/b.");
    IsFileNoDot("a/b");
    IsFileWithExtension("a/b.ts");
    IsFileDottedDirectory("./dist/docs/");
  }

  /**
   * standardizePath: undefined, "" and "." become "./"; any other path gets
   * a trailing "/" when it does not already end with one.
   */
  function StandardizePath(path: Option<string>): (r: string)
    ensures |r| > 0 && r[|r| - 1] == '/'
    ensures path.None? || path.value == "" || path.value == "." ==> r == "./"
    ensures path.Some? && path.value != "" && path.value != "." ==>
              StartsWith(r, path.value) && |r| <= |path.value| + 1
    ensures path.Some? && EndsWith(path.value, "/") ==> r == path.value
  {
    var p := path.GetOr("");
    var str := if p == "." || p == "" then "./" else p;
    if |str| == 0 || str[|str| - 1] != '/' then str + "/" else str
  }

  /** Standardising a standardised path changes nothing. */
  lemma StandardizePathIdempotent(path: Option<string>)
    ensures StandardizePath(Some(StandardizePath(path))) == StandardizePath(path)
  {
    var r := StandardizePath(path);
    assert EndsWith(r, "/");
  }

  /** initWithDotSlash: prefixes "./" unless the path already starts with it. */
  function InitWithDotSlash(path: string): (r: string)
    ensures StartsWith(r, "./")
    ensures StartsWith(path, "./") ==> r == path
    ensures !StartsWith(path, "./") ==> r == "./" + path
  {
    if StartsWith(path, "./") then path else "./" + path
  }

  /** Prefixing twice is prefixing once. */
  lemma InitWithDotSlashIdempotent(path: string)
    ensures InitWithDotSlash(InitWithDotSlash(path)) == InitWithDotSlash(path)
  {
  }

  /**
   * The distribution directory (build.ts line 123): the compiler options'
   * outDir with a "./" prefix. An absent outDir is interpolated by
   * JavaScript as the text "undefined".
   */
  function DistDir(outDir: Option<string>): (r: string)
    ensures StartsWith(r, "./")
    ensures outDir.None? ==> r == "./undefined"
  {
    assert !StartsWith("undefined", "./") by { assert "undefined"[0] == 'u'; }
    InitWithDotSlash(outDir.GetOr("undefined"))
  }

  /** The result of pathToWriteOptions; fileName is None for a directory. */
  datatype WriteOptions = WriteOptions(directory: string, fileName: Option<string>)

  /**
   * pathToWriteOptions: a file path is split at its last "/" into directory
   * and file name (the directory is "" when there is no "/"); a directory
   * path is its normalisation with no file name.
   */
  function PathToWriteOptions(path: string): (w: WriteOptions)
    ensures var n := NormalizedPath(path);
      if IsFile(path) then
        && w.fileName.Some?
        && '/' !in w.fileName.value
        && ('/' in n ==> w.directory + "/" + w.fileName.value == n)
        && ('/' !in n ==> w.directory == "" && w.fileName.value == n)
      else
        w == WriteOptions(n, None)
  {
    var n := NormalizedPath(path);
    if IsFile(path) then
      var segments := SplitSlash(n);
      var w := WriteOptions(JoinSlash(segments[..|segments| - 1]), Some(segments[|segments| - 1]));
      assert '/' in n ==> w.directory + "/" + w.fileName.value == n by {
        JoinSplitSlash(n);
        if '/' in n { JoinSlashLast(segments); }
      }
      assert '/' !in n ==> w.directory == "" && w.fileName.value == n by {
        JoinSplitSlash(n);
      }
      w
    else
      WriteOptions(n, None)
  }

  /**
   * For a file path, the descriptor is determined by the split of the
   * normalised path at its last slash.
   */
  lemma PathToWriteOptionsOfFile(path: string, dir: string, name: string)
    requires IsFile(path)
    requires NormalizedPath(path) == dir + "/" + name && '/' !in name
    ensures PathToWriteOptions(path) == WriteOptions(dir, Some(name))
  {
    var w := PathToWriteOptions(path);
    assert '/' in NormalizedPath(path) by { assert NormalizedPath(path)[|dir|] == '/'; }
    LastSlashSplit(w.directory, w.fileName.value, dir, name);
  }

  /** An example file descriptor. */
  lemma PathToWriteOptionsFileExample()
    ensures PathToWriteOptions("a/b/c.ts") == WriteOptions("a/b", Some("c.ts"))
  {
    var p := "a/b/c.ts";
    assert IsFile(p) && NormalizedPath(p) == "a/b" + "/" + "c.ts" by {
      assert !EndsWith(p, "/.") && !EndsWith(p, "/") by { assert p[7] == 's'; }
      assert p[5] == '.';
    }
    PathToWriteOptionsOfFile(p, "a/b", "c.ts");
  }

  /** An example directory descriptor. */
  lemma PathToWriteOptionsDirectoryExample()
    ensures PathToWriteOptions("a/b") == WriteOptions("a/b", None)
  {
    var p := "a/b";
    assert !EndsWith(p, "/.") && !EndsWith(p, "/") by { assert p[2] == 'b'; }
    assert NormalizedPath(p) == p;
    assert '.' !in p;
  }

  /** A string splits at its last slash in only one way. */
  lemma LastSlashSplit(d1: string, f1: string, d2: string, f2: string)
    requires d1 + "/" + f1 == d2 + "/" + f2
    requires '/' !in f1 && '/' !in f2
    ensures d1 == d2 && f1 == f2
  {
    var s := d1 + "/" + f1;
    TrailingSegmentAfterSlash(d1, f1);
    TrailingSegmentAfterSlash(d2, f2);
    assert d1 == s[..|s| - |f1| - 1];
    assert d2 == s[..|s| - |f2| - 1];
  }
}
