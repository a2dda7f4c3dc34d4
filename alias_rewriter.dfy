/**
 * The rewrite of path aliases in the emitted JavaScript files: the `../`
 * depth prefix of each file, the replacement path of each alias, the
 * global regular-expression replace it performs, the fold of all aliases
 * over a file's text, and the loop that reads and overwrites every file.
 */
module AliasRewriter {
  import opened Wrappers
  import opened Strings
  import opened PathUtils
  import opened FileCollector

  // ---------------------------------------------------------------------
  // Depth prefix (lines 216-220)
  // ---------------------------------------------------------------------

  /**
   * The number of `/` left in the file path once the first occurrence of
   * the output directory is removed, less one (none when there is none).
   */
  function Depth(jsFile: string, distDir: string): nat {
    var n := CountChar(ReplaceFirst(jsFile, distDir, ""), '/');
    if n == 0 then 0 else n - 1
  }

  /** `"../"` once per level of `Depth`. */
  function DepthPrefix(jsFile: string, distDir: string): string {
    Repeat("../", Depth(jsFile, distDir))
  }

  /** Counting slashes distributes over concatenation. */
  lemma {:induction false} CountCharAppend(a: string, b: string, c: char)
    ensures CountChar(a + b, c) == CountChar(a, c) + CountChar(b, c)
    decreases |a|
  {
    if a != [] {
      assert (a + b)[0] == a[0] && (a + b)[1..] == a[1..] + b;
      CountCharAppend(a[1..], b, c);
    } else {
      assert a + b == b;
    }
  }

  /**
   * A file at `rel` below the output directory gets one `../` per directory
   * between it and the output directory.
   */
  lemma DepthOfNested(distDir: string, rel: string)
    ensures Depth(distDir + "/" + rel, distDir) == CountChar(rel, '/')
    ensures DepthPrefix(distDir + "/" + rel, distDir) == Repeat("../", CountChar(rel, '/'))
  {
    var s := distDir + "/" + rel;
    assert OccursAt(s, distDir, 0);
    assert s[..0] + "" + s[|distDir|..] == "/" + rel;
    CountCharAppend("/", rel, '/');
  }

  // ---------------------------------------------------------------------
  // Replacement path (lines 225-229, 237-239)
  // ---------------------------------------------------------------------

  /** The characters `.` does not match in a JavaScript regular expression. */
  predicate IsLineTerminator(c: char) {
    c == '\n' || c == '\r' || c == '\U{2028}' || c == '\U{2029}'
  }

  /** `s` is a single line. */
  predicate SingleLine(s: string) {
    forall i :: 0 <= i < |s| ==> !IsLineTerminator(s[i])
  }

  /** The end of the line that starts at `i`: the next line terminator, or the end of `s`. */
  function LineEnd(s: string, i: nat): (e: nat)
    requires i <= |s|
    ensures i <= e <= |s|
    ensures forall k :: i <= k < e ==> !IsLineTerminator(s[k])
    ensures e < |s| ==> IsLineTerminator(s[e])
    decreases |s| - i
  {
    if i == |s| || IsLineTerminator(s[i]) then i else LineEnd(s, i + 1)
  }

  /** The last index at or before `k` where `p` occurs in `s`, or -1. */
  function LastIndexUpTo(s: string, p: string, k: nat): (r: int)
    ensures -1 <= r <= k
    ensures r >= 0 ==> OccursAt(s, p, r)
    ensures forall j: nat :: r < j <= k ==> !OccursAt(s, p, j)
  {
    if OccursAt(s, p, k) then k
    else if k == 0 then -1
    else LastIndexUpTo(s, p, k - 1)
  }

  /** `s.lastIndexOf(p)` */
  function LastIndexOf(s: string, p: string): (r: int)
    ensures r == -1 <==> !Contains(s, p)
    ensures r >= 0 ==> OccursAt(s, p, r) && forall j: nat :: r < j ==> !OccursAt(s, p, j)
  {
    var r := LastIndexUpTo(s, p, |s|);
    assert r >= 0 ==> OccursAt(s, p, r);
    assert forall j: nat :: |s| < j ==> !OccursAt(s, p, j);
    r
  }

  /**
   * `s.replace(/(.*)src\/(.*)/, "$2")` searched from the line starting at
   * `i`: the first line holding `src/` loses everything up to and including
   * its last `src/`; the other lines are kept.
   */
  function StripSrcFrom(s: string, i: nat): (r: string)
    requires i <= |s|
    ensures forall c :: c in r ==> c in s
    decreases |s| - i
  {
    var e := LineEnd(s, i);
    var k := LastIndexOf(s[i..e], "src/");
    if k >= 0 then
      assert forall c :: c in s[..i] + s[i + k + 4..] ==> c in s by {
        assert forall c :: c in s[i + k + 4..] ==> c in s by {
          forall c | c in s[i + k + 4..] ensures c in s {
            var j :| 0 <= j < |s[i + k + 4..]| && s[i + k + 4..][j] == c;
            assert s[i + k + 4 + j] == c;
          }
        }
      }
      s[..i] + s[i + k + 4..]
    else if e == |s| then s
    else StripSrcFrom(s, e + 1)
  }

  /** `s.replace(/(.*)src\/(.*)/, "$2")` (line 228). */
  function StripSrc(s: string): string {
    StripSrcFrom(s, 0)
  }

  /**
   * On a single line, the strip keeps exactly what follows the last `src/`,
   * so no `src/` is left; a line without `src/` is kept whole.
   */
  lemma StripSrcSingleLine(s: string)
    requires SingleLine(s)
    ensures !Contains(s, "src/") ==> StripSrc(s) == s
    ensures Contains(s, "src/") ==>
      exists k: nat | k + 4 <= |s| :: OccursAt(s, "src/", k) && StripSrc(s) == s[k + 4..]
    ensures !Contains(StripSrc(s), "src/")
  {
    var e := LineEnd(s, 0);
    assert e == |s|;
    assert s[0..e] == s;
    var k := LastIndexOf(s, "src/");
    if k >= 0 {
      var r := s[k + 4..];
      assert StripSrc(s) == r;
      forall j: nat | j <= |r| ensures !OccursAt(r, "src/", j) {
        OccursInSuffix(s, "src/", k + 4, j);
      }
    }
  }

  /** An occurrence in a suffix of `s` is an occurrence in `s`. */
  lemma OccursInSuffix(s: string, p: string, m: nat, j: nat)
    requires m <= |s|
    ensures OccursAt(s[m..], p, j) <==> OccursAt(s, p, m + j)
  {
    if m + j + |p| <= |s| {
      assert s[m + j..m + j + |p|] == s[m..][j..j + |p|];
    }
  }

  /** `s.replace("*", "")`: the first `*` is dropped (line 229). */
  function DropFirstStar(s: string): string {
    ReplaceFirst(s, "*", "")
  }

  /** `values[0]`, which reads as `"undefined"` when the alias has no target. */
  function FirstTarget(targets: seq<string>): string {
    if |targets| == 0 then "undefined" else targets[0]
  }

  /**
   * Lines 225-229 then 237-239: the depth prefix followed by the first
   * target under the base URL, cut after its last `src/` and without its
   * first `*`, given a leading `./` unless it has one.
   */
  function ReplacementPath(depth: string, baseUrl: Option<string>, targets: seq<string>): (r: string)
    ensures StartsWith(r, "./")
  {
    InitWithDotSlash(depth + DropFirstStar(StripSrc(StandardizePath(baseUrl) + FirstTarget(targets))))
  }

  /** Every character of a repetition comes from the repeated string. */
  lemma {:induction false} RepeatChars(s: string, n: nat)
    ensures forall c :: c in Repeat(s, n) ==> c in s
  {
    if n > 0 {
      RepeatChars(s, n - 1);
      assert forall c :: c in s + Repeat(s, n - 1) ==> c in s || c in Repeat(s, n - 1);
    }
  }

  /** Dropping the first `*` adds no character. */
  lemma DropFirstStarChars(s: string)
    ensures forall c :: c in DropFirstStar(s) ==> c in s
  {
    var k := IndexOfFrom(s, "*", 0);
    if k >= 0 {
      assert DropFirstStar(s) == s[..k] + s[k + 1..];
      forall c | c in s[k + 1..] ensures c in s {
        var j :| 0 <= j < |s[k + 1..]| && s[k + 1..][j] == c;
        assert s[k + 1 + j] == c;
      }
    }
  }

  /**
   * The replacement text holds a `$` only if the base URL or the first
   * target does; so without one, the template's trailing `$1` is the only
   * substitution in it.
   */
  lemma ReplacementPathNoDollar(jsFile: string, distDir: string, baseUrl: Option<string>, targets: seq<string>)
    requires '$' !in StandardizePath(baseUrl) + FirstTarget(targets)
    ensures '$' !in ReplacementPath(DepthPrefix(jsFile, distDir), baseUrl, targets)
  {
    var depth := DepthPrefix(jsFile, distDir);
    RepeatChars("../", Depth(jsFile, distDir));
    var t := StripSrc(StandardizePath(baseUrl) + FirstTarget(targets));
    DropFirstStarChars(t);
    var u := depth + DropFirstStar(t);
    assert '$' !in u;
    assert '$' !in "./" + u;
  }

  // ---------------------------------------------------------------------
  // Alias patterns (lines 230-233)
  // ---------------------------------------------------------------------

  // What may follow the literal part of a pattern: an optional slash (`/?`),
  // or any number of slashes then an optional one (`/*/?`), which together
  // match the longest run of slashes.
  datatype Slashes = OptionalSlash | SlashRun

  /**
   * The regular expression built for one alias key: a literal, then its
   * slashes, then the lazy `(.*?)`, which always matches the empty string.
   */
  datatype AliasPattern = AliasPattern(literal: string, slashes: Slashes)

  /** Characters with a meaning in a JavaScript regular expression. */
  predicate IsMetachar(c: char) {
    c in "\\^$.|?*+()[]{}"
  }

  /** A key all of whose characters stand for themselves in a regular expression. */
  predicate PlainKey(key: string) {
    forall i :: 0 <= i < |key| ==> !IsMetachar(key[i])
  }

  // The keys whose pattern this model knows: `"@/*"`, a plain prefix
  // followed by `/*`, or a plain key.
  predicate SupportedKey(key: string) {
    key == "@/*" || (EndsWith(key, "/*") && PlainKey(key[..|key| - 2])) || PlainKey(key)
  }

  // Line 231. `"@/*"` becomes `@/` + `/?`; any other key is used as the
  // source of the expression after `key.replace("$/*", "")`, which changes
  // no supported key. A plain `P` followed by `/*` thus reads as `P` + `/*/?`,
  // and a plain key as itself + `/?`.
  function PatternOf(key: string): (p: AliasPattern)
    requires SupportedKey(key)
    ensures key == "@/*" ==> p == AliasPattern("@/", OptionalSlash)
    ensures key != "@/*" && EndsWith(key, "/*") ==> p == AliasPattern(key[..|key| - 2], SlashRun)
    ensures !EndsWith(key, "/*") ==> p == AliasPattern(key, OptionalSlash)
    ensures PlainKey(p.literal) || p.literal == "@/"
  {
    if key == "@/*" then AliasPattern("@/", OptionalSlash)
    else if EndsWith(key, "/*") then
      assert key[|key| - 1] == '*' && IsMetachar('*');
      AliasPattern(key[..|key| - 2], SlashRun)
    else AliasPattern(key, OptionalSlash)
  }

  /** The number of consecutive `/` in `s` from index `i` on. */
  function SlashRunLength(s: string, i: nat): (n: nat)
    requires i <= |s|
    ensures i + n <= |s|
    ensures forall k :: i <= k < i + n ==> s[k] == '/'
    ensures i + n < |s| ==> s[i + n] != '/'
    decreases |s| - i
  {
    if i < |s| && s[i] == '/' then 1 + SlashRunLength(s, i + 1) else 0
  }

  /**
   * The length of the match of `p` starting at index `i`, if it matches
   * there: the literal and then slashes only, one at most and taken when
   * present for an optional slash, the whole following run for a slash run.
   */
  function MatchAt(s: string, p: AliasPattern, i: nat): (m: Option<nat>)
    requires i <= |s|
    ensures m.Some? <==> OccursAt(s, p.literal, i)
    ensures m.Some? ==> |p.literal| <= m.value && i + m.value <= |s|
    ensures m.Some? ==> forall k :: i + |p.literal| <= k < i + m.value ==> s[k] == '/'
    ensures m.Some? && p.slashes == OptionalSlash ==>
      m.value <= |p.literal| + 1 &&
      (i + |p.literal| < |s| && s[i + |p.literal|] == '/' ==> m.value == |p.literal| + 1)
    ensures m.Some? && p.slashes == SlashRun && i + m.value < |s| ==> s[i + m.value] != '/'
  {
    if !OccursAt(s, p.literal, i) then None
    else
      var j := i + |p.literal|;
      match p.slashes
      case OptionalSlash => Some(|p.literal| + (if j < |s| && s[j] == '/' then 1 else 0))
      case SlashRun => Some(|p.literal| + SlashRunLength(s, j))
  }

  /**
   * `s.replace(p, replacement)` with the global flag, searching from index
   * `i`: each leftmost match is replaced, the search goes on after it, and
   * after an empty match one character is copied before searching again.
   */
  function ReplaceFrom(s: string, p: AliasPattern, replacement: string, i: nat): string
    requires i <= |s|
    decreases |s| - i
  {
    var m := MatchAt(s, p, i);
    if m.Some? && m.value > 0 then replacement + ReplaceFrom(s, p, replacement, i + m.value)
    else if m.Some? then replacement + (if i == |s| then "" else [s[i]] + ReplaceFrom(s, p, replacement, i + 1))
    else if i == |s| then ""
    else [s[i]] + ReplaceFrom(s, p, replacement, i + 1)
  }

  /** `content.replace(pattern, replacement)`, global, over the whole text. */
  function ReplaceAll(s: string, p: AliasPattern, replacement: string): string {
    ReplaceFrom(s, p, replacement, 0)
  }

  /** Text with no occurrence of the literal from `i` on is copied unchanged. */
  lemma {:induction false} ReplaceFromNoOccurrence(s: string, p: AliasPattern, replacement: string, i: nat)
    requires i <= |s|
    requires forall j: nat :: i <= j <= |s| ==> !OccursAt(s, p.literal, j)
    ensures ReplaceFrom(s, p, replacement, i) == s[i..]
    decreases |s| - i
  {
    assert MatchAt(s, p, i).None?;
    if i < |s| {
      ReplaceFromNoOccurrence(s, p, replacement, i + 1);
      assert s[i..] == [s[i]] + s[i + 1..];
    }
  }

  /** One position where nothing matches is copied. */
  lemma ReplaceFromCopies(s: string, p: AliasPattern, replacement: string, i: nat)
    requires i < |s| && !OccursAt(s, p.literal, i)
    ensures ReplaceFrom(s, p, replacement, i) == [s[i]] + ReplaceFrom(s, p, replacement, i + 1)
  {
  }

  /** A non-empty match is replaced and the search resumes after it. */
  lemma ReplaceFromReplaces(s: string, p: AliasPattern, replacement: string, i: nat)
    requires i <= |s| && MatchAt(s, p, i).Some? && MatchAt(s, p, i).value > 0
    ensures ReplaceFrom(s, p, replacement, i) == replacement + ReplaceFrom(s, p, replacement, i + MatchAt(s, p, i).value)
  {
  }

  /** Positions where nothing matches are copied as they are. */
  lemma {:induction false} ReplaceFromSkips(s: string, p: AliasPattern, replacement: string, i: nat, j: nat)
    requires i <= j <= |s|
    requires forall k: nat :: i <= k < j ==> !OccursAt(s, p.literal, k)
    ensures ReplaceFrom(s, p, replacement, i) == s[i..j] + ReplaceFrom(s, p, replacement, j)
    decreases j - i
  {
    if i < j {
      var head, next, tail := ReplaceFrom(s, p, replacement, i), ReplaceFrom(s, p, replacement, i + 1), ReplaceFrom(s, p, replacement, j);
      assert head == [s[i]] + next by {
        ReplaceFromCopies(s, p, replacement, i);
      }
      assert next == s[i + 1..j] + tail by {
        ReplaceFromSkips(s, p, replacement, i + 1, j);
      }
      SliceCons(s, i, j, tail);
    } else {
      assert s[i..j] == [];
    }
  }

  /** A slice is its first character followed by the rest of it. */
  lemma SliceCons(s: string, i: nat, j: nat, tail: string)
    requires i < j <= |s|
    ensures [s[i]] + (s[i + 1..j] + tail) == s[i..j] + tail
  {
    assert s[i..j] == [s[i]] + s[i + 1..j];
  }

  // ---------------------------------------------------------------------
  // The "@/*" alias
  // ---------------------------------------------------------------------

  // The pattern of the key `"@/*"`: `@/` and one optional further `/`.
  const AtPattern := AliasPattern("@/", OptionalSlash)

  /** No `@` in `t` is directly followed by `/`. */
  predicate NoAtSlash(t: string) {
    forall k :: 0 <= k < |t| - 1 ==> !(t[k] == '@' && t[k + 1] == '/')
  }

  /** `NoAtSlash` is `!t.includes("@/")`. */
  lemma NoAtSlashMeansNoOccurrence(t: string)
    ensures NoAtSlash(t) <==> !Contains(t, "@/")
  {
    if NoAtSlash(t) {
      forall k: nat | k <= |t| ensures !OccursAt(t, "@/", k) {
        if k + 2 <= |t| {
          assert t[k..k + 2][0] == t[k] && t[k..k + 2][1] == t[k + 1];
        }
      }
    } else {
      var k :| 0 <= k < |t| - 1 && t[k] == '@' && t[k + 1] == '/';
      assert t[k..k + 2] == "@/";
      assert OccursAt(t, "@/", k);
    }
  }

  /** Gluing two texts creates an `@/` only where the first ends in `@` and the second starts with `/`. */
  lemma NoAtSlashConcat(a: string, b: string)
    requires NoAtSlash(a) && NoAtSlash(b)
    requires |a| > 0 && |b| > 0 ==> !(a[|a| - 1] == '@' && b[0] == '/')
    ensures NoAtSlash(a + b)
  {
    var t := a + b;
    forall k | 0 <= k < |t| - 1 ensures !(t[k] == '@' && t[k + 1] == '/') {
      if k + 1 < |a| {
        assert t[k] == a[k] && t[k + 1] == a[k + 1];
      } else if k + 1 == |a| {
        assert t[k] == a[|a| - 1] && t[k + 1] == b[0];
      } else {
        assert t[k] == b[k - |a|] && t[k + 1] == b[k - |a| + 1];
      }
    }
  }

  /** `@/` occurs at `i` exactly when `s[i]` is `@` and `s[i + 1]` is `/`. */
  lemma OccursAtPair(s: string, i: nat)
    requires i + 1 < |s|
    ensures OccursAt(s, "@/", i) <==> s[i] == '@' && s[i + 1] == '/'
  {
    assert s[i..i + 2][0] == s[i] && s[i..i + 2][1] == s[i + 1];
    if s[i] == '@' && s[i + 1] == '/' {
      assert s[i..i + 2] == "@/";
    }
  }

  /** The rewrite from `i` starts with the replacement or with the unmatched `s[i]`. */
  lemma AtRewriteHead(s: string, replacement: string, i: nat)
    requires i <= |s| && replacement != []
    ensures var out := ReplaceFrom(s, AtPattern, replacement, i);
      out != [] ==> out[0] == replacement[0] || (i < |s| && out[0] == s[i] && !OccursAt(s, "@/", i))
  {
  }

  /**
   * When the replacement starts with `./` and holds no `@`, the rewritten
   * text from `i` on has no `@/` left.
   */
  lemma {:induction false} AtRewriteLeavesNoAtSlash(s: string, replacement: string, i: nat)
    requires i <= |s|
    requires StartsWith(replacement, "./") && '@' !in replacement
    ensures NoAtSlash(ReplaceFrom(s, AtPattern, replacement, i))
    decreases |s| - i
  {
    var m := MatchAt(s, AtPattern, i);
    assert NoAtSlash(replacement) by {
      forall k | 0 <= k < |replacement| - 1 ensures replacement[k] != '@' { }
    }
    if m.Some? {
      var rest := ReplaceFrom(s, AtPattern, replacement, i + m.value);
      AtRewriteLeavesNoAtSlash(s, replacement, i + m.value);
      ReplaceFromReplaces(s, AtPattern, replacement, i);
      assert replacement[|replacement| - 1] != '@';
      NoAtSlashConcat(replacement, rest);
    } else if i < |s| {
      var rest := ReplaceFrom(s, AtPattern, replacement, i + 1);
      AtRewriteLeavesNoAtSlash(s, replacement, i + 1);
      ReplaceFromCopies(s, AtPattern, replacement, i);
      AtRewriteHead(s, replacement, i + 1);
      if i + 1 < |s| {
        OccursAtPair(s, i);
      }
      NoAtSlashConcat([s[i]], rest);
    }
  }

  // The `"@/*"` rewrite is idempotent: with a replacement holding no `@`,
  // a second pass over its output changes nothing.
  lemma AtRewriteIdempotent(s: string, replacement: string)
    requires StartsWith(replacement, "./") && '@' !in replacement
    ensures ReplaceAll(ReplaceAll(s, AtPattern, replacement), AtPattern, replacement)
         == ReplaceAll(s, AtPattern, replacement)
  {
    var out := ReplaceAll(s, AtPattern, replacement);
    AtRewriteLeavesNoAtSlash(s, replacement, 0);
    NoAtSlashMeansNoOccurrence(out);
    ReplaceFromNoOccurrence(out, AtPattern, replacement, 0);
    assert out[0..] == out;
  }

  // ---------------------------------------------------------------------
  // The fold over the aliases (lines 222-244)
  // ---------------------------------------------------------------------

  /** One entry of `compilerOptions.paths`: a key and its targets. */
  datatype Alias = Alias(key: string, targets: seq<string>)

  /** `compilerOptions.paths ?? {}`, in enumeration order. */
  function Entries(paths: Option<seq<Alias>>): (r: seq<Alias>)
    ensures paths.None? ==> r == []
    ensures paths.Some? ==> r == paths.value
  {
    paths.GetOr([])
  }

  /** The alias has a key the model knows and no `$` in its replacement text. */
  predicate AliasRewritable(alias: Alias, depth: string, baseUrl: Option<string>) {
    SupportedKey(alias.key) && '$' !in ReplacementPath(depth, baseUrl, alias.targets)
  }

  /** Every alias is rewritable. */
  predicate Rewritable(aliases: seq<Alias>, depth: string, baseUrl: Option<string>) {
    forall i :: 0 <= i < |aliases| ==> AliasRewritable(aliases[i], depth, baseUrl)
  }

  /**
   * One step of the `reduce`: the global replace of the alias's pattern by
   * `${replacementPath}$1`, which is the replacement path itself since the
   * lazy group is always empty and the path holds no `$`.
   */
  function ApplyAlias(content: string, alias: Alias, depth: string, baseUrl: Option<string>): string
    requires AliasRewritable(alias, depth, baseUrl)
  {
    ReplaceAll(content, PatternOf(alias.key), ReplacementPath(depth, baseUrl, alias.targets))
  }

  /** The `reduce` over the aliases, each applied to the text the previous ones produced. */
  function RewriteContent(content: string, aliases: seq<Alias>, depth: string, baseUrl: Option<string>): string
    requires Rewritable(aliases, depth, baseUrl)
    decreases |aliases|
  {
    if aliases == [] then content
    else RewriteContent(ApplyAlias(content, aliases[0], depth, baseUrl), aliases[1..], depth, baseUrl)
  }

  /** Applying two lists of aliases in turn is applying their concatenation. */
  lemma {:induction false} RewriteContentAppend(content: string, a: seq<Alias>, b: seq<Alias>, depth: string, baseUrl: Option<string>)
    requires Rewritable(a + b, depth, baseUrl)
    ensures Rewritable(a, depth, baseUrl) && Rewritable(b, depth, baseUrl)
    ensures RewriteContent(content, a + b, depth, baseUrl)
         == RewriteContent(RewriteContent(content, a, depth, baseUrl), b, depth, baseUrl)
    decreases |a|
  {
    assert Rewritable(a, depth, baseUrl) by {
      forall i | 0 <= i < |a| ensures AliasRewritable(a[i], depth, baseUrl) {
        assert (a + b)[i] == a[i];
      }
    }
    assert Rewritable(b, depth, baseUrl) by {
      forall i | 0 <= i < |b| ensures AliasRewritable(b[i], depth, baseUrl) {
        assert (a + b)[|a| + i] == b[i];
      }
    }
    if a == [] {
      assert a + b == b;
    } else {
      var a' := a[1..];
      assert (a + b)[0] == a[0];
      assert (a + b)[1..] == a' + b;
      RewriteContentAppend(ApplyAlias(content, a[0], depth, baseUrl), a', b, depth, baseUrl);
    }
  }


  /** An absent or empty `paths` leaves the text as it is. */
  lemma RewriteWithoutPaths(content: string, paths: Option<seq<Alias>>, depth: string, baseUrl: Option<string>)
    requires paths.None? || paths == Some([])
    ensures Rewritable(Entries(paths), depth, baseUrl)
    ensures RewriteContent(content, Entries(paths), depth, baseUrl) == content
  {
  }

  // A file whose only alias is `"@/*"` comes out with no `@/` left when the
  // target holds no `@`, so rewriting it a second time changes nothing.
  lemma AtAliasRewriteIdempotent(content: string, targets: seq<string>, depth: string, baseUrl: Option<string>)
    requires '$' !in ReplacementPath(depth, baseUrl, targets) && '@' !in ReplacementPath(depth, baseUrl, targets)
    ensures Rewritable([Alias("@/*", targets)], depth, baseUrl)
    ensures var once := RewriteContent(content, [Alias("@/*", targets)], depth, baseUrl);
      !Contains(once, "@/") && RewriteContent(once, [Alias("@/*", targets)], depth, baseUrl) == once
  {
    var r := ReplacementPath(depth, baseUrl, targets);
    var once := ReplaceAll(content, AtPattern, r);
    assert RewriteContent(content, [Alias("@/*", targets)], depth, baseUrl) == once;
    AtRewriteLeavesNoAtSlash(content, r, 0);
    NoAtSlashMeansNoOccurrence(once);
    AtRewriteIdempotent(content, r);
  }

  /** An occurrence of `p` at `j` spells out `p` character by character. */
  lemma OccursAtChars(s: string, p: string, j: nat)
    ensures OccursAt(s, p, j) ==> forall d :: 0 <= d < |p| ==> s[j + d] == p[d]
  {
    if OccursAt(s, p, j) {
      forall d | 0 <= d < |p| ensures s[j + d] == p[d] {
        assert s[j..j + |p|][d] == s[j + d];
      }
    }
  }

  /** An occurrence of `p` at `j` starts with the first character of `p`. */
  lemma OccursAtHead(s: string, p: string, j: nat)
    requires |p| > 0
    ensures OccursAt(s, p, j) ==> s[j] == p[0]
  {
    if OccursAt(s, p, j) {
      assert s[j..j + |p|][0] == s[j];
    }
  }

  /** Each character of an occurring `p` is a character of `s`. */
  lemma OccursAtMember(s: string, p: string, j: nat, d: nat)
    requires d < |p|
    ensures OccursAt(s, p, j) ==> p[d] in s
  {
    if OccursAt(s, p, j) {
      assert s[j..j + |p|][d] == s[j + d];
    }
  }

  /** Text without an `r` holds no `src/`. */
  lemma NoSrcWithoutR(s: string)
    requires 'r' !in s
    ensures !Contains(s, "src/")
  {
    forall j: nat | j <= |s| ensures !OccursAt(s, "src/", j) {
      OccursAtMember(s, "src/", j, 1);
    }
  }

  /**
   * On a single line whose last `src/` is followed by `rest`, the strip
   * leaves exactly `rest`.
   */
  lemma StripSrcAfterLast(pre: string, rest: string)
    requires SingleLine(pre + "src/" + rest) && !Contains(rest, "src/")
    ensures StripSrc(pre + "src/" + rest) == rest
  {
    var s := pre + "src/" + rest;
    var q := |pre|;
    assert LineEnd(s, 0) == |s|;
    assert s[0..|s|] == s;
    assert s[q..q + 4] == "src/";
    assert OccursAt(s, "src/", q);
    assert s[q + 4..] == rest;
    forall j: nat | q < j ensures !OccursAt(s, "src/", j) {
      if j < q + 4 {
        assert s[j] == s[q..q + 4][j - q];
        OccursAtHead(s, "src/", j);
      } else if j <= |s| {
        OccursInSuffix(s, "src/", q + 4, j - (q + 4));
      }
    }
    assert LastIndexOf(s, "src/") == q;
    assert s[q + 4..] == rest;
  }

  /** Dropping the first `*` of `a + "*" + b`, where `a` has none, leaves `a + b`. */
  lemma DropFirstStarAt(a: string, b: string)
    requires '*' !in a
    ensures DropFirstStar(a + "*" + b) == a + b
  {
    var s := a + "*" + b;
    assert OccursAt(s, "*", |a|);
    forall j: nat | j < |a| ensures !OccursAt(s, "*", j) {
      OccursAtChars(s, "*", j);
      assert s[j] == a[j];
    }
    assert s[..|a|] + "" + s[|a| + 1..] == a + b;
  }

  /**
   * When the base URL and the first target read `pre`, `src/`, `a`, `*`,
   * `b` on one line, with no later `src/` and no earlier `*` after it, the
   * replacement path is the depth prefix followed by `a + b`, prefixed by
   * `./` unless it already starts with it.
   */
  lemma ReplacementPathUnderSrc(depth: string, baseUrl: Option<string>, targets: seq<string>,
                                pre: string, a: string, b: string)
    requires StandardizePath(baseUrl) + FirstTarget(targets) == pre + "src/" + (a + "*" + b)
    requires SingleLine(pre + "src/" + (a + "*" + b)) && !Contains(a + "*" + b, "src/") && '*' !in a
    ensures ReplacementPath(depth, baseUrl, targets) == InitWithDotSlash(depth + (a + b))
  {
    StripSrcAfterLast(pre, a + "*" + b);
    DropFirstStarAt(a, b);
  }

  /** `a/b/file.js` holds two slashes. */
  lemma SlashCountExample(rel: string)
    requires rel == "a/b/file.js"
    ensures CountChar(rel, '/') == 2
  {
    var x, y, z := "a/", "b/", "file.js";
    SplitExample(rel, x, y, z);
    CountCharAppend(x, y + z, '/');
    CountCharAppend(y, z, '/');
    OneSlashExample(x);
    OneSlashExample(y);
    NoSlashExample(z);
  }

  /** `a/b/file.js` is `a/`, `b/` and `file.js`. */
  lemma SplitExample(rel: string, x: string, y: string, z: string)
    requires rel == "a/b/file.js" && x == "a/" && y == "b/" && z == "file.js"
    ensures rel == x + (y + z)
  {
  }

  /** A letter and a slash hold one slash. */
  lemma OneSlashExample(x: string)
    requires |x| == 2 && x[0] != '/' && x[1] == '/'
    ensures CountChar(x, '/') == 1
  {
    assert x[1..][1..] == [];
  }

  /** `file.js` holds no slash. */
  lemma NoSlashExample(z: string)
    requires z == "file.js"
    ensures CountChar(z, '/') == 0
  {
    assert '/' !in z;
  }


  /** `s` repeated twice. */
  lemma RepeatTwice(s: string)
    ensures Repeat(s, 2) == s + s
  {
    assert Repeat(s, 1) == s + "";
    assert s + "" == s;
  }

  /** A file two directories below `./dist` climbs two levels. */
  lemma DepthExample(distDir: string, rel: string)
    requires distDir == "./dist" && rel == "a/b/file.js"
    ensures DepthPrefix(distDir + "/" + rel, distDir) == "../../"
  {
    SlashCountExample(rel);
    TwoLevelsUp(distDir, rel);
    DoubleDotDot("../");
  }

  /** A file under two more slashes than the output directory climbs `../` twice. */
  lemma TwoLevelsUp(distDir: string, rel: string)
    requires CountChar(rel, '/') == 2
    ensures DepthPrefix(distDir + "/" + rel, distDir) == "../" + "../"
  {
    DepthOfNested(distDir, rel);
    RepeatTwice("../");
  }

  /** `../` twice. */
  lemma DoubleDotDot(x: string)
    requires x == "../"
    ensures x + x == "../../"
  {
  }


  /** The base URL `.` and the target `src/utils/` followed by a star, split at `src/` and at the star. */
  lemma JoinedExample(baseUrl: Option<string>, targets: seq<string>, a: string)
    requires baseUrl == Some(".") && targets == ["src/utils/*"] && a == "utils/"
    ensures StandardizePath(baseUrl) + FirstTarget(targets) == "./" + "src/" + (a + "*" + "")
  {
    var x := StandardizePath(baseUrl);
    assert x == "./";
    var y := FirstTarget(targets);
    assert y == "src/utils/*";
    ConcatExample(x, y, a);
  }

  /** `./` and `src/utils/` with a star are `./`, `src/`, `utils/` and a star. */
  lemma ConcatExample(x: string, y: string, a: string)
    requires x == "./" && y == "src/utils/*" && a == "utils/"
    ensures x + y == "./" + "src/" + (a + "*" + "")
  {
  }

  /** `./src/utils/` with a star is one line; `utils/` and a star hold no `src/`; `utils/` no star. */
  lemma UtilsExampleFacts(a: string)
    requires a == "utils/"
    ensures SingleLine("./" + "src/" + (a + "*" + ""))
    ensures !Contains(a + "*" + "", "src/") && '*' !in a
  {
    var t := a + "*" + "";
    assert t == "utils/*";
    NoSrcWithoutR(t);
    var s := "./" + "src/" + t;
    assert forall i :: 0 <= i < |s| ==> s[i] in "./srcutil*";
  }

  // Base URL `.` and target `src/utils/*` at depth two give `./../../utils/`.
  lemma ReplacementPathExample(depth: string, baseUrl: Option<string>, targets: seq<string>)
    requires depth == "../../" && baseUrl == Some(".") && targets == ["src/utils/*"]
    ensures ReplacementPath(depth, baseUrl, targets) == "./../../utils/"
  {
    var a := "utils/";
    JoinedExample(baseUrl, targets, a);
    UtilsExampleFacts(a);
    ReplacementPathUnderSrc(depth, baseUrl, targets, "./", a, "");
    DotDotExample(depth, a);
  }

  /** A path that starts with `../` does not start with `./`, so it is always prefixed. */
  lemma ParentPathPrefixed(u: string)
    requires StartsWith(u, "../")
    ensures InitWithDotSlash(u) == "./" + u
  {
    assert u[1] == '.';
  }

  /** `../../utils/` does not start with `./`, so it is prefixed. */
  lemma DotDotExample(depth: string, a: string)
    requires depth == "../../" && a == "utils/"
    ensures InitWithDotSlash(depth + (a + "")) == "./../../utils/"
  {
    var u := depth + (a + "");
    assert u == "../../utils/";
    assert u[1] == '.';
  }

  /** The import `@/helpers` is rewritten to `./../../utils/helpers`. */
  lemma AtRewriteExample(s: string, replacement: string)
    requires s == "@/helpers" && replacement == "./../../utils/"
    ensures ReplaceAll(s, AtPattern, replacement) == "./../../utils/helpers"
  {
    var t := "helpers";
    AtHelpersExample(s, t);
    AtRewriteOfRest(s, t, replacement);
    AtRewriteResultExample(replacement, t);
  }

  /** `@/helpers` is `@/` followed by `helpers`. */
  lemma AtHelpersExample(s: string, t: string)
    requires s == "@/helpers" && t == "helpers"
    ensures s == "@/" + t && |t| > 0 && t[0] != '/' && '@' !in t
  {
  }

  /** `@/` followed by a rest with no `@` that starts with no slash becomes the replacement and the rest. */
  lemma AtRewriteOfRest(s: string, t: string, replacement: string)
    requires s == "@/" + t && |t| > 0 && t[0] != '/' && '@' !in t
    ensures ReplaceAll(s, AtPattern, replacement) == replacement + t
  {
    assert MatchAt(s, AtPattern, 0) == Some(2) by {
      assert OccursAt(s, "@/", 0);
      assert s[2] == t[0];
    }
    assert ReplaceFrom(s, AtPattern, replacement, 0) == replacement + ReplaceFrom(s, AtPattern, replacement, 2) by {
      ReplaceFromReplaces(s, AtPattern, replacement, 0);
    }
    assert ReplaceFrom(s, AtPattern, replacement, 2) == t by {
      forall j: nat | 2 <= j <= |s| ensures !OccursAt(s, "@/", j) {
        OccursAtHead(s, "@/", j);
        if j < |s| {
          assert s[j] == t[j - 2];
          assert t[j - 2] in t;
        }
      }
      ReplaceFromNoOccurrence(s, AtPattern, replacement, 2);
      assert s[2..] == t;
    }
  }

  /** `./../../utils/` followed by `helpers`. */
  lemma AtRewriteResultExample(replacement: string, t: string)
    requires replacement == "./../../utils/" && t == "helpers"
    ensures replacement + t == "./../../utils/helpers"
  {
  }


  /**
   * A file two directories below `./dist`, base URL `.` and an alias from
   * `@/` to `src/utils/`: the import `@/helpers` becomes
   * `./../../utils/helpers`.
   */
  lemma AtAliasExample(distDir: string, rel: string, alias: Alias)
    requires distDir == "./dist" && rel == "a/b/file.js"
    requires alias == Alias("@/*", ["src/utils/*"])
    ensures AliasRewritable(alias, DepthPrefix(distDir + "/" + rel, distDir), Some("."))
    ensures ApplyAlias("@/helpers", alias, DepthPrefix(distDir + "/" + rel, distDir), Some("."))
         == "./../../utils/helpers"
  {
    DepthExample(distDir, rel);
    AtAliasAtDepthExample(DepthPrefix(distDir + "/" + rel, distDir), alias);
  }

  /** The rewrite of `@/helpers` two levels down. */
  lemma AtAliasAtDepthExample(depth: string, alias: Alias)
    requires depth == "../../" && alias == Alias("@/*", ["src/utils/*"])
    ensures AliasRewritable(alias, depth, Some("."))
    ensures ApplyAlias("@/helpers", alias, depth, Some(".")) == "./../../utils/helpers"
  {
    ReplacementPathExample(depth, Some("."), alias.targets);
    var r := ReplacementPath(depth, Some("."), alias.targets);
    NoDollarExample(r);
    AtKeyPattern(alias.key);
    AtRewriteExample("@/helpers", r);
  }

  // The key `"@/*"` is known and gives the `@/` pattern.
  lemma AtKeyPattern(key: string)
    requires key == "@/*"
    ensures SupportedKey(key) && PatternOf(key) == AtPattern
  {
  }

  /** `./../../utils/` holds no `$`. */
  lemma NoDollarExample(r: string)
    requires r == "./../../utils/"
    ensures '$' !in r
  {
  }

  // ---------------------------------------------------------------------
  // The emitted files (lines 206-247)
  // ---------------------------------------------------------------------

  /** Line 210: the collected paths that end with `.js`, in order. */
  function JsFiles(collected: seq<string>): (r: seq<string>)
    ensures |r| <= |collected|
    ensures forall p :: p in r <==> p in collected && EndsWith(p, ".js")
  {
    if collected == [] then []
    else (if EndsWith(collected[0], ".js") then [collected[0]] else []) + JsFiles(collected[1..])
  }

  /**
   * The filter keeps order and multiplicity: filtering a concatenation
   * concatenates the filtered parts.
   */
  lemma {:induction false} JsFilesAppend(a: seq<string>, b: seq<string>)
    ensures JsFiles(a + b) == JsFiles(a) + JsFiles(b)
  {
    if a != [] {
      assert (a + b)[0] == a[0] && (a + b)[1..] == a[1..] + b;
      JsFilesAppend(a[1..], b);
      ConcatAssoc(if EndsWith(a[0], ".js") then [a[0]] else [], JsFiles(a[1..]), JsFiles(b));
    } else {
      assert a + b == b;
    }
  }

  /**
   * Lines 206-210: the files rewritten are the regular files below the
   * output directory whose base name ends with `js` but with no excluded
   * suffix, and whose path ends with `.js`.
   */
  lemma JsFilesOfTree(distDir: string, listing: seq<Node>, excluded: seq<string>, p: string)
    ensures var files := AllFiles(distDir, listing);
      p in JsFiles(Collect(distDir, listing, ["js"], excluded))
      <==> EndsWith(p, ".js") &&
           exists i :: 0 <= i < |files| && files[i].path == p && Selected(files[i].name, ["js"], excluded)
  {
    CollectMembership(distDir, listing, ["js"], excluded, p);
  }

  /** Every alias has a known key, and neither the base URL nor its first target holds a `$`. */
  predicate InputsRewritable(aliases: seq<Alias>, baseUrl: Option<string>) {
    forall i :: 0 <= i < |aliases| ==>
      SupportedKey(aliases[i].key) && '$' !in StandardizePath(baseUrl) + FirstTarget(aliases[i].targets)
  }

  /** Lines 215-244 for one file: its depth prefix, then the fold of all aliases over its text. */
  function RewriteFile(content: string, jsFile: string, distDir: string, baseUrl: Option<string>, aliases: seq<Alias>): string
    requires InputsRewritable(aliases, baseUrl)
  {
    var depth := DepthPrefix(jsFile, distDir);
    assert Rewritable(aliases, depth, baseUrl) by {
      forall i | 0 <= i < |aliases| ensures AliasRewritable(aliases[i], depth, baseUrl) {
        ReplacementPathNoDollar(jsFile, distDir, baseUrl, aliases[i].targets);
      }
    }
    RewriteContent(content, aliases, depth, baseUrl)
  }

  /** The files' contents after the loop and whether it ran to the end or threw. */
  datatype Rewritten = Rewritten(contents: map<string, string>, outcome: Outcome<string>)

  /**
   * Lines 212-247: each listed file in order is read (an unreadable one
   * throws, naming it), rewritten and written back.
   */
  function RewriteFiles(contents: map<string, string>, jsFiles: seq<string>, distDir: string,
                        baseUrl: Option<string>, aliases: seq<Alias>): Rewritten
    requires InputsRewritable(aliases, baseUrl)
    decreases |jsFiles|
  {
    if jsFiles == [] then Rewritten(contents, Pass)
    else
      var f := jsFiles[0];
      if f !in contents then Rewritten(contents, Fail(f))
      else RewriteFiles(contents[f := RewriteFile(contents[f], f, distDir, baseUrl, aliases)],
                        jsFiles[1..], distDir, baseUrl, aliases)
  }

  /** No file is created or deleted, and a file that is not listed keeps its text. */
  lemma {:induction false} RewriteFilesFrame(contents: map<string, string>, jsFiles: seq<string>, distDir: string,
                                             baseUrl: Option<string>, aliases: seq<Alias>)
    requires InputsRewritable(aliases, baseUrl)
    ensures var r := RewriteFiles(contents, jsFiles, distDir, baseUrl, aliases).contents;
      r.Keys == contents.Keys && forall p :: p in contents && p !in jsFiles ==> r[p] == contents[p]
    decreases |jsFiles|
  {
    if jsFiles != [] && jsFiles[0] in contents {
      var f := jsFiles[0];
      var next := contents[f := RewriteFile(contents[f], f, distDir, baseUrl, aliases)];
      RewriteFilesFrame(next, jsFiles[1..], distDir, baseUrl, aliases);
      assert forall p :: p !in jsFiles ==> p != f && p !in jsFiles[1..];
    }
  }

  /** The loop ends normally exactly when every listed file exists. */
  lemma {:induction false} RewriteFilesPass(contents: map<string, string>, jsFiles: seq<string>, distDir: string,
                                            baseUrl: Option<string>, aliases: seq<Alias>)
    requires InputsRewritable(aliases, baseUrl)
    ensures RewriteFiles(contents, jsFiles, distDir, baseUrl, aliases).outcome.Pass?
        <==> forall i :: 0 <= i < |jsFiles| ==> jsFiles[i] in contents
    decreases |jsFiles|
  {
    if jsFiles != [] {
      var f := jsFiles[0];
      if f in contents {
        var next := contents[f := RewriteFile(contents[f], f, distDir, baseUrl, aliases)];
        RewriteFilesPass(next, jsFiles[1..], distDir, baseUrl, aliases);
        assert next.Keys == contents.Keys;
        assert forall i :: 1 <= i < |jsFiles| ==> jsFiles[i] == jsFiles[1..][i - 1];
        assert forall i :: 0 <= i < |jsFiles[1..]| ==> jsFiles[1..][i] == jsFiles[i + 1];
      }
    }
  }

  /**
   * The first missing file throws, naming it, after exactly the files
   * before it have been rewritten; nothing after it is touched.
   */
  lemma {:induction false} RewriteFilesFirstMissing(contents: map<string, string>, jsFiles: seq<string>, distDir: string,
                                                    baseUrl: Option<string>, aliases: seq<Alias>, k: nat)
    requires InputsRewritable(aliases, baseUrl)
    requires k < |jsFiles| && jsFiles[k] !in contents
    requires forall j :: 0 <= j < k ==> jsFiles[j] in contents
    ensures RewriteFiles(contents, jsFiles, distDir, baseUrl, aliases)
         == Rewritten(RewriteFiles(contents, jsFiles[..k], distDir, baseUrl, aliases).contents, Fail(jsFiles[k]))
    decreases k
  {
    var f := jsFiles[0];
    if k > 0 {
      var next := contents[f := RewriteFile(contents[f], f, distDir, baseUrl, aliases)];
      assert jsFiles[1..][k - 1] == jsFiles[k];
      assert jsFiles[1..][k - 1] !in next;
      assert forall j :: 0 <= j < k - 1 ==> jsFiles[1..][j] in next by {
        forall j | 0 <= j < k - 1 ensures jsFiles[1..][j] in next {
          assert jsFiles[1..][j] == jsFiles[j + 1];
        }
      }
      RewriteFilesFirstMissing(next, jsFiles[1..], distDir, baseUrl, aliases, k - 1);
      assert jsFiles[..k][0] == f && jsFiles[..k][1..] == jsFiles[1..][..k - 1];
    }
  }

  /**
   * When every listed file exists and none is listed twice, each ends up
   * holding the rewrite of its own former text.
   */
  lemma {:induction false} RewriteFilesEach(contents: map<string, string>, jsFiles: seq<string>, distDir: string,
                                            baseUrl: Option<string>, aliases: seq<Alias>)
    requires InputsRewritable(aliases, baseUrl)
    requires forall i :: 0 <= i < |jsFiles| ==> jsFiles[i] in contents
    requires forall i, j :: 0 <= i < j < |jsFiles| ==> jsFiles[i] != jsFiles[j]
    ensures var r := RewriteFiles(contents, jsFiles, distDir, baseUrl, aliases).contents;
      forall i :: 0 <= i < |jsFiles| ==>
        jsFiles[i] in r && r[jsFiles[i]] == RewriteFile(contents[jsFiles[i]], jsFiles[i], distDir, baseUrl, aliases)
    decreases |jsFiles|
  {
    if jsFiles != [] {
      var f := jsFiles[0];
      var rest := jsFiles[1..];
      var next := contents[f := RewriteFile(contents[f], f, distDir, baseUrl, aliases)];
      assert forall i :: 0 <= i < |rest| ==> rest[i] == jsFiles[i + 1];
      RewriteFilesEach(next, rest, distDir, baseUrl, aliases);
      RewriteFilesFrame(next, rest, distDir, baseUrl, aliases);
      assert f !in rest by {
        forall i | 0 <= i < |rest| ensures rest[i] != f {
          assert rest[i] == jsFiles[i + 1];
        }
      }
      var r := RewriteFiles(contents, jsFiles, distDir, baseUrl, aliases).contents;
      forall i | 0 <= i < |jsFiles|
        ensures jsFiles[i] in r && r[jsFiles[i]] == RewriteFile(contents[jsFiles[i]], jsFiles[i], distDir, baseUrl, aliases)
      {
        if i > 0 {
          assert jsFiles[i] == rest[i - 1];
          assert jsFiles[i] != f;
        }
      }
    }
  }

  /** The loop from the i-th file on: done, a throw for a missing file, or one rewrite and the rest. */
  lemma RewriteFilesFrom(contents: map<string, string>, jsFiles: seq<string>, distDir: string,
                         baseUrl: Option<string>, aliases: seq<Alias>, i: nat)
    requires InputsRewritable(aliases, baseUrl) && i <= |jsFiles|
    ensures i == |jsFiles| ==> RewriteFiles(contents, jsFiles[i..], distDir, baseUrl, aliases) == Rewritten(contents, Pass)
    ensures i < |jsFiles| && jsFiles[i] !in contents ==>
      RewriteFiles(contents, jsFiles[i..], distDir, baseUrl, aliases) == Rewritten(contents, Fail(jsFiles[i]))
    ensures i < |jsFiles| && jsFiles[i] in contents ==>
      RewriteFiles(contents, jsFiles[i..], distDir, baseUrl, aliases)
      == RewriteFiles(contents[jsFiles[i] := RewriteFile(contents[jsFiles[i]], jsFiles[i], distDir, baseUrl, aliases)],
                      jsFiles[i + 1..], distDir, baseUrl, aliases)
  {
    if i < |jsFiles| {
      assert jsFiles[i..][0] == jsFiles[i] && jsFiles[i..][1..] == jsFiles[i + 1..];
    } else {
      assert jsFiles[i..] == [];
    }
  }

  /** The emitted files and their texts, which the rewrite loop reads and overwrites. */
  class OutputFiles {
    var contents: map<string, string>

    constructor (contents: map<string, string>)
      ensures this.contents == contents
    {
      this.contents := contents;
    }

    /**
     * Lines 212-247: for each listed file in order, read it (throw if it
     * cannot be read), fold the aliases over its text and write it back.
     */
    method RewriteAll(jsFiles: seq<string>, distDir: string, baseUrl: Option<string>, paths: Option<seq<Alias>>)
      returns (r: Outcome<string>)
      requires InputsRewritable(Entries(paths), baseUrl)
      modifies this
      ensures Rewritten(contents, r) == RewriteFiles(old(contents), jsFiles, distDir, baseUrl, Entries(paths))
    {
      var aliases := Entries(paths);
      ghost var goal := RewriteFiles(contents, jsFiles, distDir, baseUrl, aliases);
      assert jsFiles[0..] == jsFiles;
      var i := 0;
      r := Pass;
      while i < |jsFiles|
        invariant 0 <= i <= |jsFiles|
        invariant RewriteFiles(contents, jsFiles[i..], distDir, baseUrl, aliases) == goal
      {
        var jsFile := jsFiles[i];
        RewriteFilesFrom(contents, jsFiles, distDir, baseUrl, aliases, i);
        if jsFile !in contents {
          r := Fail(jsFile);
          return;
        }
        var fileContent := contents[jsFile];
        var updated := RewriteFile(fileContent, jsFile, distDir, baseUrl, aliases);
        contents := contents[jsFile := updated];
        i := i + 1;
      }
      RewriteFilesFrom(contents, jsFiles, distDir, baseUrl, aliases, i);
    }
  }
}
