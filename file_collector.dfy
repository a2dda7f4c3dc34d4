/**
 * getFilesRecursive (src/commands/build.ts): a depth-first walk of a
 * directory that keeps the regular files whose base name ends with one of
 * the included suffixes and with none of the excluded ones. The directory
 * tree stands in for what fs.readdirSync and fs.statSync report.
 */
module FileCollector {
  import opened Wrappers
  import opened Strings

  /** What fs.statSync reports for a listed entry. */
  datatype Kind = RegularFile | Directory(children: seq<Node>) | OtherKind

  /** One entry of a directory listing, in listing order. */
  datatype Node = Node(name: string, kind: Kind)

  /** The error fs.readdirSync raises for a root that cannot be listed. */
  datatype FsError = NoSuchDirectory(path: string) | NotADirectory(path: string)

  /** path.join(where, name), taken without normalisation. */
  function JoinPath(where: string, name: string): (r: string)
    ensures StartsWith(r, where) && EndsWith(r, name)
  {
    where + "/" + name
  }

  /** The `reduce` over a suffix list: some suffix ends the name. */
  predicate EndsWithAny(name: string, suffixes: seq<string>) {
    exists i :: 0 <= i < |suffixes| && EndsWith(name, suffixes[i])
  }

  /** A regular file with this base name is kept. */
  predicate Selected(name: string, extensions: seq<string>, excluded: seq<string>) {
    EndsWithAny(name, extensions) && !EndsWithAny(name, excluded)
  }

  /** The paths the walk yields for a listing read in directory `where`. */
  function Collect(where: string, listing: seq<Node>, extensions: seq<string>, excluded: seq<string>): seq<string>
    decreases listing
  {
    if listing == [] then []
    else
      var n := listing[0];
      var here :=
        match n.kind
        case Directory(children) => Collect(JoinPath(where, n.name), children, extensions, excluded)
        case RegularFile => if Selected(n.name, extensions, excluded) then [JoinPath(where, n.name)] else []
        case OtherKind => [];
      here + Collect(where, listing[1..], extensions, excluded)
  }

  /** A regular file of the tree: its joined path and its base name. */
  datatype FileEntry = FileEntry(path: string, name: string)

  /** Every regular file of the tree, depth first, in listing order. */
  function AllFiles(where: string, listing: seq<Node>): seq<FileEntry>
    decreases listing
  {
    if listing == [] then []
    else
      var n := listing[0];
      var here :=
        match n.kind
        case Directory(children) => AllFiles(JoinPath(where, n.name), children)
        case RegularFile => [FileEntry(JoinPath(where, n.name), n.name)]
        case OtherKind => [];
      here + AllFiles(where, listing[1..])
  }

  /** The paths of the entries whose names pass the suffix filter, in order. */
  function FilterSelected(files: seq<FileEntry>, extensions: seq<string>, excluded: seq<string>): (r: seq<string>)
    ensures |r| <= |files|
  {
    if files == [] then []
    else
      (if Selected(files[0].name, extensions, excluded) then [files[0].path] else [])
      + FilterSelected(files[1..], extensions, excluded)
  }

  /** Filtering distributes over concatenation. */
  lemma {:induction false} FilterSelectedAppend(a: seq<FileEntry>, b: seq<FileEntry>, extensions: seq<string>, excluded: seq<string>)
    ensures FilterSelected(a + b, extensions, excluded)
         == FilterSelected(a, extensions, excluded) + FilterSelected(b, extensions, excluded)
  {
    if a != [] {
      assert (a + b)[1..] == a[1..] + b;
      FilterSelectedAppend(a[1..], b, extensions, excluded);
    } else {
      assert a + b == b;
    }
  }

  /**
   * The walk is "list every regular file depth first, then keep those whose
   * name passes the filter": it yields exactly the selected regular files,
   * in depth-first listing order, and nothing else. Directory names play no
   * part; every directory is entered.
   */
  lemma {:induction false} CollectIsFilteredWalk(where: string, listing: seq<Node>, extensions: seq<string>, excluded: seq<string>)
    ensures Collect(where, listing, extensions, excluded)
         == FilterSelected(AllFiles(where, listing), extensions, excluded)
    decreases listing
  {
    if listing != [] {
      var n := listing[0];
      var here := match n.kind
        case Directory(children) => AllFiles(JoinPath(where, n.name), children)
        case RegularFile => [FileEntry(JoinPath(where, n.name), n.name)]
        case OtherKind => [];
      FilterSelectedAppend(here, AllFiles(where, listing[1..]), extensions, excluded);
      CollectIsFilteredWalk(where, listing[1..], extensions, excluded);
      match n.kind
      case Directory(children) =>
        CollectIsFilteredWalk(JoinPath(where, n.name), children, extensions, excluded);
      case RegularFile =>
        assert [FileEntry(JoinPath(where, n.name), n.name)][1..] == [];
      case OtherKind =>
    }
  }

  /** Membership in the filtered list, in both directions. */
  lemma {:induction false} InFilterSelected(files: seq<FileEntry>, extensions: seq<string>, excluded: seq<string>, p: string)
    ensures p in FilterSelected(files, extensions, excluded)
        <==> exists i :: 0 <= i < |files| && files[i].path == p && Selected(files[i].name, extensions, excluded)
  {
    if files != [] {
      InFilterSelected(files[1..], extensions, excluded, p);
      if p in FilterSelected(files[1..], extensions, excluded) {
        var i :| 0 <= i < |files[1..]| && files[1..][i].path == p && Selected(files[1..][i].name, extensions, excluded);
        assert files[i + 1] == files[1..][i];
      }
      if exists i :: 0 <= i < |files| && files[i].path == p && Selected(files[i].name, extensions, excluded) {
        var i :| 0 <= i < |files| && files[i].path == p && Selected(files[i].name, extensions, excluded);
        if i > 0 { assert files[1..][i - 1] == files[i]; }
      }
    }
  }

  /**
   * A path is collected if and only if it is the path of a regular file of
   * the tree whose base name ends with an included suffix and with no
   * excluded suffix.
   */
  lemma CollectMembership(where: string, listing: seq<Node>, extensions: seq<string>, excluded: seq<string>, p: string)
    ensures var files := AllFiles(where, listing);
      p in Collect(where, listing, extensions, excluded)
      <==> exists i :: 0 <= i < |files| && files[i].path == p && Selected(files[i].name, extensions, excluded)
  {
    CollectIsFilteredWalk(where, listing, extensions, excluded);
    InFilterSelected(AllFiles(where, listing), extensions, excluded, p);
  }

  /** The walk over the listing from entry `i` on: that entry's part, then the rest. */
  lemma CollectStep(where: string, listing: seq<Node>, extensions: seq<string>, excluded: seq<string>, i: nat)
    requires i < |listing|
    ensures var n := listing[i];
      var rest := Collect(where, listing[i + 1..], extensions, excluded);
      && (n.kind.Directory? ==>
            Collect(where, listing[i..], extensions, excluded)
            == Collect(JoinPath(where, n.name), n.kind.children, extensions, excluded) + rest)
      && (n.kind.RegularFile? ==>
            Collect(where, listing[i..], extensions, excluded)
            == (if Selected(n.name, extensions, excluded) then [JoinPath(where, n.name)] else []) + rest)
      && (n.kind.OtherKind? ==> Collect(where, listing[i..], extensions, excluded) == rest)
  {
    assert listing[i..][0] == listing[i] && listing[i..][1..] == listing[i + 1..];
  }

  /**
   * The walk as the source writes it: one pass over the listing, a recursive
   * call for each directory, one push for each selected regular file.
   */
  method GetFilesRecursive(where: string, listing: seq<Node>, extensions: seq<string>, excluded: seq<string>)
    returns (files: seq<string>)
    ensures files == Collect(where, listing, extensions, excluded)
    decreases listing
  {
    files := [];
    var i := 0;
    assert listing[0..] == listing;
    while i < |listing|
      invariant 0 <= i <= |listing|
      invariant files + Collect(where, listing[i..], extensions, excluded)
             == Collect(where, listing, extensions, excluded)
    {
      var entry := listing[i];
      ghost var rest := Collect(where, listing[i + 1..], extensions, excluded);
      CollectStep(where, listing, extensions, excluded, i);
      var filePath := JoinPath(where, entry.name);
      var isExtensionMatched := EndsWithSome(entry.name, extensions);
      var isExtensionExcluded := EndsWithSome(entry.name, excluded);
      if entry.kind.Directory? {
        var nested := GetFilesRecursive(filePath, entry.kind.children, extensions, excluded);
        ConcatAssoc(files, nested, rest);
        files := files + nested;
      } else if entry.kind.RegularFile? && isExtensionMatched && !isExtensionExcluded {
        ConcatAssoc(files, [filePath], rest);
        files := files + [filePath];
      } else {
        assert [] + rest == rest;
      }
      i := i + 1;
    }
  }

  /** The `reduce((acc, ext) => acc || name.endsWith(ext), false)` over a suffix list. */
  method EndsWithSome(name: string, suffixes: seq<string>) returns (matched: bool)
    ensures matched <==> EndsWithAny(name, suffixes)
  {
    matched := false;
    for k := 0 to |suffixes|
      invariant matched <==> EndsWithAny(name, suffixes[..k])
    {
      assert suffixes[..k + 1] == suffixes[..k] + [suffixes[k]];
      matched := matched || EndsWith(name, suffixes[k]);
    }
    assert suffixes[..|suffixes|] == suffixes;
  }

  /**
   * The walk from a root path: readdirSync fails when the root is missing or
   * is not a directory, and no partial result is returned.
   */
  method CollectFrom(where: string, root: Option<Kind>, extensions: seq<string>, excluded: seq<string>)
    returns (r: Outcome<FsError>, files: seq<string>)
    ensures root.None? ==> r == Fail(NoSuchDirectory(where)) && files == []
    ensures root.Some? && !root.value.Directory? ==> r == Fail(NotADirectory(where)) && files == []
    ensures root.Some? && root.value.Directory? ==>
              r == Pass && files == Collect(where, root.value.children, extensions, excluded)
  {
    files := [];
    if root.None? {
      r := Fail(NoSuchDirectory(where));
    } else if !root.value.Directory? {
      r := Fail(NotADirectory(where));
    } else {
      r := Pass;
      files := GetFilesRecursive(where, root.value.children, extensions, excluded);
    }
  }

  /** The default suffixes keep a.ts and a.tsx and drop a.stories.tsx and a.css. */
  lemma DefaultSuffixesSelection()
    ensures Selected("a.ts", ["ts", "tsx"], [".stories.tsx"])
    ensures Selected("a.tsx", ["ts", "tsx"], [".stories.tsx"])
    ensures !Selected("a.stories.tsx", ["ts", "tsx"], [".stories.tsx"])
    ensures !Selected("a.css", ["ts", "tsx"], [".stories.tsx"])
  {
    var ext, exc := ["ts", "tsx"], [".stories.tsx"];
    assert EndsWith("a.ts", ext[0]) && !EndsWith("a.ts", exc[0]);
    assert EndsWith("a.tsx", ext[1]) && !EndsWith("a.tsx", exc[0]);
    assert EndsWith("a.stories.tsx", exc[0]);
    assert !EndsWith("a.css", ext[0]) by { assert "a.css"[3] == 's'; }
    assert !EndsWith("a.css", ext[1]) by { assert "a.css"[2] == 'c'; }
  }

  /**
   * An example tree: a.ts, a.tsx, a.stories.tsx and a.css,
   * collected with the default suffixes, yields a.ts and a.tsx.
   */
  lemma DefaultSuffixesExample(where: string)
    ensures Collect(where, [Node("a.ts", RegularFile), Node("a.tsx", RegularFile),
                            Node("a.stories.tsx", RegularFile), Node("a.css", RegularFile)],
                    ["ts", "tsx"], [".stories.tsx"])
         == [JoinPath(where, "a.ts"), JoinPath(where, "a.tsx")]
  {
    var ext, exc := ["ts", "tsx"], [".stories.tsx"];
    var l := [Node("a.ts", RegularFile), Node("a.tsx", RegularFile),
              Node("a.stories.tsx", RegularFile), Node("a.css", RegularFile)];
    DefaultSuffixesSelection();
    assert l[3..][1..] == [];
    assert Collect(where, l[3..], ext, exc) == [];
    assert l[2..][1..] == l[3..];
    assert Collect(where, l[2..], ext, exc) == [];
    assert l[1..][1..] == l[2..];
    assert Collect(where, l[1..], ext, exc) == [JoinPath(where, "a.tsx")];
  }
}
