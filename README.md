# cosmofactory build pipeline, modelled in Dafny

This project models the `build` command of cosmofactory (`src/commands/build.ts`). The command:

- compiles a component library's `./src` tree with the TypeScript compiler;
- prints the compiler's diagnostics and a one-line summary;
- merges the stylesheets it finds under `./src` into the configuration's `files` manifest;
- copies every manifest entry into the distribution directory;
- rewrites the module-path aliases of `compilerOptions.paths` in every emitted `.js` file into paths relative to that file;
- with `tailwind` enabled, runs tailwind twice, once plain and once minified.

The model is split into modules that follow the pieces of the command:

| module | file | what it holds |
|---|---|---|
| `Wrappers` | `wrappers.dfy` | `Option` and `Outcome` |
| `Strings` | `strings.dfy` | the JavaScript string methods the command uses: `startsWith`, `endsWith`, `includes`, `indexOf`, `replace` with a string pattern, `split("/")`, `join("/")`, `pop()` |
| `PathUtils` | `path_utils.dfy` | `getNormalizedPath`, `isFile`, `standardizePath`, `initWithDotSlash`, `pathToWriteOptions`, the distribution directory |
| `FileCollector` | `file_collector.dfy` | `getFilesRecursive` over a directory tree that stands for what `readdirSync`/`statSync` report |
| `Manifest` | `manifest.dfy` | the stylesheet merge into the manifest, which is a class updated in place, and the copy loop over a filesystem class |
| `AliasRewriter` | `alias_rewriter.dfy` | the depth prefix, the replacement path, the alias patterns, JavaScript's global regular-expression replace, the fold over all aliases, and the loop that rewrites the emitted files in place |
| `Reporting` | `reporting.dfy` | the diagnostic lines, the summary line and the tailwind commands |

The loops that change state step by step are methods proved against specification functions:

- `FileCollector.GetFilesRecursive`;
- `Manifest.ManifestFiles.MergeCss`;
- `Manifest.CopyFiles`;
- `AliasRewriter.OutputFiles.RewriteAll`.

The properties the command relies on are lemmas about those functions.

Where the code does something other than its names and comments suggest, the model follows the code:

- **Normalisation is not idempotent.** `getNormalizedPath` removes one trailing `/.` and then at most one trailing `/`, so `"a//"` becomes `"a/"` and then `"a"` (`PathUtils.NormalizedPathNotIdempotent`).
- **A manifest value `docs/` under `./dist` is a file.** `isFile` accepts it because of the `.` in the leading `./`. The source is therefore copied to `./dist/docs`, and its base name is not kept (`Manifest.CopyTargetTrailingSlashExample`).
- **The `./` prefix is always added.** The prefix test only checks for `./`, so a replacement path that starts with `../` still becomes `./../…` (`AliasRewriter.ReplacementPathExample`).
- **The `src/` strip and the `*` removal apply only to the base URL joined with the first target.** The `../` depth prefix is prepended after both (`AliasRewriter.ReplacementPath`).
- **The strip is not a prefix strip.** `/(.*)src\/(.*)/` acts on the first line holding `src/` and keeps what follows that line's last `src/`.
- **The lazy group never captures.** `(.*?)` in the alias pattern always matches the empty string, so `$1` adds nothing.

## Model

| member | source | states |
|---|---|---|
| Strings.IndexOfFrom | src/commands/build.ts:217 | the result is -1 exactly when no occurrence lies at or after `from`; otherwise it is the first such occurrence |
| Strings.ReplaceFirst | src/commands/build.ts:229 | with no occurrence the text is unchanged; otherwise only the first occurrence is replaced |
| Strings.Repeat | src/commands/build.ts:216-220 | definition of the `reduce` that appends "../" once per element: n copies of the text; AliasRewriter.RepeatChars and AliasRewriter.DepthOfNested state its properties |
| Strings.CountChar | src/commands/build.ts:217 | the count is at most the length, and zero exactly when the character is absent |
| Strings.SplitSlash | src/commands/build.ts:87 | one more segment than there are slashes, and no segment holds a slash |
| Strings.JoinSlash | src/commands/build.ts:89 | definition of `join("/")`: the parts with one "/" between neighbours; Strings.JoinSplitSlash and Strings.JoinSlashLast state its relation to the split |
| Strings.JoinSplitSlash | src/commands/build.ts:87-89 | joining the segments with "/" gives the original string back |
| Strings.JoinSlashLast | src/commands/build.ts:89-90 | joining all segments is joining all but the last, then "/", then the last |
| Strings.LastSegment | src/commands/build.ts:188 | `split("/").pop()` is the whole text after the last slash: it has no slash, ends the string, and is either the whole string or preceded by a slash |
| Strings.TrailingSegmentAfterSlash | src/commands/build.ts:87-90 | after a slash, a slash-free tail is exactly the trailing segment |
| PathUtils.NormalizedPath | src/commands/build.ts:13-14 | the result is a prefix of the input; it drops one "/." (and then, for "//.", one more "/") or one trailing "/"; any other input is returned as it is |
| PathUtils.NormalizedPathNotIdempotent | src/commands/build.ts:13-14 | any path ending in "//" loses only one slash, and normalising the result changes it again |
| PathUtils.NormalizedPathExamples | src/commands/build.ts:13-14 | "a/." and "a/" both normalise to "a" |
| PathUtils.NormalizedSlash | src/commands/build.ts:13-14 | one trailing "/" is removed from any path |
| PathUtils.NormalizedSlashDot | src/commands/build.ts:13-14 | a trailing "/." is removed from a path that does not end in "/" before it |
| PathUtils.IsFile | src/commands/build.ts:20-26 | definition: the normalised path holds a "." and does not end with one; PathUtils.IsFileUnderDotSlash and PathUtils.IsFileExamples state its consequences |
| PathUtils.IsFileUnderDotSlash | src/commands/build.ts:20-26 | for a path starting with "./", being a file is exactly that the normalisation does not end with "." |
| PathUtils.IsFileExamples | src/commands/build.ts:20-26 | "./", "./dist/./", "a/b." and "a/b" are directories; "a/b.ts" and "./dist/docs/" are files |
| PathUtils.StandardizePath | src/commands/build.ts:35-40 | the result always ends with "/"; undefined, "" and "." give "./"; any other path is kept, with at most one "/" added |
| PathUtils.StandardizePathIdempotent | src/commands/build.ts:35-40 | standardising a standardised path changes nothing |
| PathUtils.InitWithDotSlash | src/commands/build.ts:42-44 | the result starts with "./"; a path that already has it is kept, any other gets it prefixed |
| PathUtils.InitWithDotSlashIdempotent | src/commands/build.ts:42-44 | prefixing twice equals prefixing once |
| PathUtils.DistDir | src/commands/build.ts:123 | the distribution directory starts with "./"; an absent outDir gives "./undefined" |
| PathUtils.PathToWriteOptions | src/commands/build.ts:84-98 | a file is split into a slash-free file name and a directory that, joined with "/", give the normalised path, or an empty directory when there is no slash; a directory is its normalisation with no file name |
| PathUtils.PathToWriteOptionsOfFile | src/commands/build.ts:84-91 | a file's descriptor is determined by the split of its normalisation at the last slash |
| PathUtils.PathToWriteOptionsFileExample | src/commands/build.ts:84-91 | "a/b/c.ts" gives directory "a/b" and file name "c.ts" |
| PathUtils.PathToWriteOptionsDirectoryExample | src/commands/build.ts:92-97 | "a/b" gives directory "a/b" and no file name |
| PathUtils.LastSlashSplit | src/commands/build.ts:87-90 | a string splits at its last slash in only one way |
| FileCollector.JoinPath | src/commands/build.ts:61 | the joined path starts with the directory and ends with the entry's name |
| FileCollector.EndsWithAny | src/commands/build.ts:64-70 | definition: some suffix of the list ends the name; FileCollector.EndsWithSome proves the `reduce` computes it |
| FileCollector.Selected | src/commands/build.ts:76 | definition: the name ends with an included suffix and with no excluded one |
| FileCollector.Collect | src/commands/build.ts:52-82 | definition of the walk in listing order, descending into directories and keeping selected regular files; FileCollector.CollectIsFilteredWalk and FileCollector.CollectMembership state what it returns |
| FileCollector.AllFiles | src/commands/build.ts:60-79 | definition of the unfiltered walk over regular files, the independent reference that FileCollector.CollectIsFilteredWalk compares Collect with |
| FileCollector.FilterSelected | src/commands/build.ts:76 | filtering never lengthens the list |
| FileCollector.FilterSelectedAppend | src/commands/build.ts:60-79 | filtering distributes over concatenation |
| FileCollector.CollectIsFilteredWalk | src/commands/build.ts:52-82 | the walk lists every regular file depth first in listing order, then keeps those whose name passes the suffix filter; directories are always entered |
| FileCollector.InFilterSelected | src/commands/build.ts:76-78 | a path is in the filtered list exactly when some entry with that path has a selected name |
| FileCollector.CollectMembership | src/commands/build.ts:52-82 | a path is collected exactly when it belongs to a regular file of the tree whose name ends with an included suffix and with no excluded one |
| FileCollector.CollectStep | src/commands/build.ts:72-78 | the walk from an entry on is that entry's part (a directory's walk, the selected file, or nothing), then the walk of the rest |
| FileCollector.GetFilesRecursive | src/commands/build.ts:52-82 | the loop with its recursive calls returns exactly the depth-first filtered walk |
| FileCollector.EndsWithSome | src/commands/build.ts:64-70 | the `reduce` with a logical or is true exactly when some suffix ends the name |
| FileCollector.CollectFrom | src/commands/build.ts:60 | a missing root or a root that is not a directory fails with that error and yields nothing; a directory yields its walk |
| FileCollector.DefaultSuffixesSelection | src/commands/build.ts:54-55 | the default suffixes keep "a.ts" and "a.tsx" and drop "a.stories.tsx" and "a.css" |
| FileCollector.DefaultSuffixesExample | src/commands/build.ts:52-82 | a directory of a.ts, a.tsx, a.stories.tsx and a.css yields a.ts and a.tsx, in that order |
| Manifest.StripSrcRoot | src/commands/build.ts:179 | a leading "./src/" or else "src/" is removed, and any other path is unchanged |
| Manifest.Assign | src/commands/build.ts:180 | the key takes the value; an existing key keeps its place, and a new key is enumerated last |
| Manifest.AssignWellFormed | src/commands/build.ts:180 | assignment keeps the keys distinct and in step with the values |
| Manifest.WithCssFiles | src/commands/build.ts:178-181 | definition of the merge loop as a fold of Assign over the stylesheets in order; its properties are the WithCssFiles lemmas below |
| Manifest.WithCssFilesWellFormed | src/commands/build.ts:178-181 | the merge keeps the dictionary well formed |
| Manifest.WithCssFilesKeepsOthers | src/commands/build.ts:178-181 | after the merge a key is present exactly when it was before or is a stylesheet; other keys keep their values |
| Manifest.WithCssFilesMapsCss | src/commands/build.ts:178-181 | every stylesheet maps to its path with the source root removed |
| Manifest.WithCssFilesKeepsOrder | src/commands/build.ts:178-181 | the keys present before the merge keep their places at the front |
| Manifest.ManifestFiles.constructor | src/commands/build.ts:113-115 | the manifest starts as the parsed configuration's dictionary |
| Manifest.ManifestFiles.Set | src/commands/build.ts:180 | the dictionary becomes the assignment of the key, and stays well formed |
| Manifest.ManifestFiles.MergeCss | src/commands/build.ts:178-181 | after the loop the dictionary is the merge of all stylesheets, and it is still well formed |
| Manifest.FileDestinationHasSlash | src/commands/build.ts:187-191 | a file destination below "./" keeps a slash after normalisation |
| Manifest.ResolvedTarget | src/commands/build.ts:188-197 | definition: the destination's directory joined with its file name, or with the source's last segment when the file name is absent or empty; Manifest.ResolvedFileTarget and Manifest.CopyTargetResolves state its values |
| Manifest.CopyTarget | src/commands/build.ts:187-197 | definition: the destination is the output directory, "/", and the manifest value, resolved as above |
| Manifest.ResolvedFileTarget | src/commands/build.ts:190-197 | a file destination resolves to its normalisation; the source's last segment is added only when that normalisation ends with "/" |
| Manifest.CopyTargetResolves | src/commands/build.ts:187-197 | under a "./" distribution directory, a file destination is the target itself, and a directory destination gets "/" and the source's base name |
| Manifest.CopyTargetFileExample | src/commands/build.ts:187-197 | README.md with value "docs/README.md" is copied to "./dist/docs/README.md" |
| Manifest.CopyTargetTrailingSlashExample | src/commands/build.ts:187-197 | README.md with value "docs/" is copied to "./dist/docs" |
| Manifest.CopyTargetRootExample | src/commands/build.ts:187-197 | package.json with value "./" is copied to "./dist/./package.json" |
| Manifest.LastSegmentOfPlain | src/commands/build.ts:188 | a name without slashes is its own last segment |
| Manifest.MissingSourceMessage | src/commands/build.ts:184 | the error message ends with "<source> does not exist" |
| Manifest.AfterCopy | src/commands/build.ts:193-201 | a recursive copy removes nothing and creates the target |
| Manifest.CopiedPaths | src/commands/build.ts:193-201 | definition: every existing path below the source reappears below the target |
| Manifest.ParentDirectories | src/commands/build.ts:193-201 | definition: every proper prefix of the target that ends before a "/" |
| Manifest.Plan | src/commands/build.ts:182-202 | one planned copy per manifest key |
| Manifest.Copied | src/commands/build.ts:193-201 | a copy keeps every path and appends itself to the log |
| Manifest.RunCopies | src/commands/build.ts:182-202 | definition of the copy loop: copies in order, stopping with the missing-source message at the first absent source; the RunCopies lemmas below state its properties |
| Manifest.PlanAt | src/commands/build.ts:182-197 | the i-th planned copy takes the i-th key to its resolved target |
| Manifest.RunCopiesIssuesPrefix | src/commands/build.ts:182-202 | the copies issued are an in-order prefix of the plan; the loop ends normally exactly when that prefix is the whole plan; otherwise it throws the message naming the first source not copied, which does not exist |
| Manifest.RunCopiesStep | src/commands/build.ts:183-201 | a copy whose source exists is made, and the loop goes on from the new state |
| Manifest.RunCopiesGrows | src/commands/build.ts:182-202 | the copy loop never removes a path |
| Manifest.RunCopiesAllPresent | src/commands/build.ts:182-202 | when every source exists beforehand, every copy is made and nothing is thrown |
| Manifest.RunCopiesPassSourcesExist | src/commands/build.ts:182-202 | a loop that ends normally found every source, and each still exists afterwards |
| Manifest.FileSystem.constructor | src/commands/build.ts:183 | the filesystem starts with the given paths and no copies made |
| Manifest.FileSystem.Exists | src/commands/build.ts:183 | `existsSync` is path membership |
| Manifest.FileSystem.Copy | src/commands/build.ts:193-201 | the new state is the old one after the copy |
| Manifest.PlanFrom | src/commands/build.ts:182-197 | the plan from the i-th key on is that key's copy, then the plan of the rest |
| Manifest.CopyFiles | src/commands/build.ts:182-202 | the final filesystem and outcome are those of running the planned copies in order from the initial state |
| AliasRewriter.CountCharAppend | src/commands/build.ts:217 | counting slashes distributes over concatenation |
| AliasRewriter.Depth | src/commands/build.ts:216-220 | definition: the slashes left after removing the first occurrence of the output directory, less one, and 0 when there are none; AliasRewriter.DepthOfNested states its value |
| AliasRewriter.DepthPrefix | src/commands/build.ts:216-220 | definition: "../" once per level of depth |
| AliasRewriter.DepthOfNested | src/commands/build.ts:216-220 | a file at `rel` below the output directory gets one "../" per slash of `rel`, i.e. per directory between them |
| AliasRewriter.DepthExample | src/commands/build.ts:216-220 | a file at a/b/file.js below ./dist gets "../../" |
| AliasRewriter.LineEnd | src/commands/build.ts:228 | the end of a line is the first line terminator from its start, or the end of the text |
| AliasRewriter.LastIndexUpTo | src/commands/build.ts:228 | the last occurrence at or before a position, or -1 when there is none |
| AliasRewriter.LastIndexOf | src/commands/build.ts:228 | -1 exactly when there is no occurrence; otherwise the last occurrence |
| AliasRewriter.StripSrcFrom | src/commands/build.ts:228 | the strip adds no character |
| AliasRewriter.StripSrc | src/commands/build.ts:228 | definition: the strip applied from the start of the text; AliasRewriter.StripSrcSingleLine and AliasRewriter.StripSrcAfterLast state its result |
| AliasRewriter.StripSrcSingleLine | src/commands/build.ts:228 | on one line, a text without "src/" is kept, and otherwise only what follows the last "src/" is kept; no "src/" is left |
| AliasRewriter.OccursInSuffix | src/commands/build.ts:228 | an occurrence in a suffix is exactly an occurrence in the whole text, shifted |
| AliasRewriter.StripSrcAfterLast | src/commands/build.ts:228 | when a line's last "src/" is followed by `rest`, the strip leaves exactly `rest` |
| AliasRewriter.DropFirstStarAt | src/commands/build.ts:229 | removing the first "*" of a + "*" + b, where a has none, leaves a + b |
| AliasRewriter.DropFirstStarChars | src/commands/build.ts:229 | removing the first "*" adds no character |
| AliasRewriter.DropFirstStar | src/commands/build.ts:229 | definition: `replace("*", "")` removes the first star only |
| AliasRewriter.FirstTarget | src/commands/build.ts:227 | definition: the first target, or "undefined" when the list is empty, as the template interpolates it |
| AliasRewriter.ReplacementPath | src/commands/build.ts:225-229 | the replacement path always starts with "./" |
| AliasRewriter.ReplacementPathUnderSrc | src/commands/build.ts:225-239 | when the base URL and first target read `pre`, "src/", `a`, "*", `b` on one line, the replacement path is the depth prefix followed by a + b, with "./" prefixed when missing |
| AliasRewriter.ReplacementPathExample | src/commands/build.ts:225-239 | base URL "." and target "src/utils/*" at depth two give "./../../utils/" |
| AliasRewriter.ParentPathPrefixed | src/commands/build.ts:237-239 | any path starting with "../" still gets the "./" prefix |
| AliasRewriter.DotDotExample | src/commands/build.ts:237-239 | "../../utils/" becomes "./../../utils/" |
| AliasRewriter.RepeatChars | src/commands/build.ts:218-220 | the depth prefix holds only the characters of "../" |
| AliasRewriter.ReplacementPathNoDollar | src/commands/build.ts:225-240 | the replacement text holds a "$" only if the base URL or the first target does |
| AliasRewriter.PatternOf | src/commands/build.ts:230-233 | "@/*" gives "@/" plus an optional slash; P + "/*" gives P plus a run of slashes; any other key gives itself plus an optional slash |
| AliasRewriter.SlashRunLength | src/commands/build.ts:231 | the run is the longest stretch of "/" starting at the position |
| AliasRewriter.MatchAt | src/commands/build.ts:230-234 | the pattern matches exactly where its literal occurs; the match is the literal followed by slashes only: for "/?" one slash, taken whenever one follows, for a slash run every slash that follows |
| AliasRewriter.ReplaceFrom | src/commands/build.ts:234-241 | definition of the global replace scan from an index; the ReplaceFrom lemmas below state its behaviour |
| AliasRewriter.ReplaceAll | src/commands/build.ts:234-241 | definition: the scan from the start of the text |
| AliasRewriter.ReplaceFromNoOccurrence | src/commands/build.ts:234-241 | text with no occurrence of the literal is copied unchanged |
| AliasRewriter.ReplaceFromCopies | src/commands/build.ts:234-241 | a position where nothing matches is copied |
| AliasRewriter.ReplaceFromReplaces | src/commands/build.ts:234-241 | a non-empty match is replaced and the search resumes after it |
| AliasRewriter.ReplaceFromSkips | src/commands/build.ts:234-241 | a stretch with no match is copied as it is, so everything before the leftmost occurrence is kept |
| AliasRewriter.NoAtSlashMeansNoOccurrence | src/commands/build.ts:231-234 | having no "@" directly followed by "/" is exactly not containing "@/" |
| AliasRewriter.NoAtSlashConcat | src/commands/build.ts:234-241 | joining two texts without "@/" creates one only at the seam |
| AliasRewriter.OccursAtPair | src/commands/build.ts:231 | "@/" occurs at i exactly when the characters at i and i+1 are "@" and "/" |
| AliasRewriter.AtRewriteHead | src/commands/build.ts:234-241 | the rewritten text starts with the replacement or with the unmatched first character |
| AliasRewriter.AtRewriteLeavesNoAtSlash | src/commands/build.ts:231-241 | with a replacement that starts with "./" and holds no "@", no "@/" is left in the output |
| AliasRewriter.AtRewriteIdempotent | src/commands/build.ts:231-241 | a second "@/*" rewrite of the output changes nothing |
| AliasRewriter.AtRewriteOfRest | src/commands/build.ts:231-241 | "@/" followed by a rest with no "@" that does not start with "/" becomes the replacement followed by the rest |
| AliasRewriter.AtRewriteExample | src/commands/build.ts:231-241 | "@/helpers" with replacement "./../../utils/" becomes "./../../utils/helpers" |
| AliasRewriter.AtKeyPattern | src/commands/build.ts:231 | the key "@/*" is supported and gives the "@/" pattern |
| AliasRewriter.Entries | src/commands/build.ts:222 | absent `paths` give no aliases; present ones are taken as given, in order |
| AliasRewriter.ApplyAlias | src/commands/build.ts:223-241 | definition: one alias's pattern replaced everywhere by its replacement path |
| AliasRewriter.RewriteContent | src/commands/build.ts:222-244 | definition of the `reduce` over the aliases in order; AliasRewriter.RewriteContentAppend and AliasRewriter.RewriteWithoutPaths state its properties |
| AliasRewriter.RewriteContentAppend | src/commands/build.ts:222-244 | folding two lists of aliases in turn is folding their concatenation |
| AliasRewriter.RewriteWithoutPaths | src/commands/build.ts:222 | absent or empty `paths` leave the text unchanged |
| AliasRewriter.AtAliasRewriteIdempotent | src/commands/build.ts:222-244 | with "@/*" as the only alias, the output holds no "@/", and a second rewrite changes nothing |
| AliasRewriter.AtAliasExample | src/commands/build.ts:212-244 | in ./dist/a/b/file.js, with base URL "." and "@/*" aliased to "src/utils/*", "@/helpers" becomes "./../../utils/helpers" |
| AliasRewriter.AtAliasAtDepthExample | src/commands/build.ts:222-244 | the same rewrite at depth "../../" |
| AliasRewriter.JsFiles | src/commands/build.ts:210 | a path is kept exactly when it was collected and ends with ".js", and the result is no longer than the input |
| AliasRewriter.JsFilesAppend | src/commands/build.ts:210 | filtering a concatenation concatenates the filtered parts, so order and repetitions are kept |
| AliasRewriter.JsFilesOfTree | src/commands/build.ts:206-210 | a file is rewritten exactly when its path ends with ".js" and it is a regular file below the output directory whose name ends with "js" and with no excluded suffix |
| AliasRewriter.RewriteFile | src/commands/build.ts:214-244 | definition: the content with every alias applied at the file's own depth |
| AliasRewriter.RewriteFiles | src/commands/build.ts:212-247 | definition of the rewrite loop, stopping at the first unreadable file; the RewriteFiles lemmas below state its properties |
| AliasRewriter.RewriteFilesFrom | src/commands/build.ts:212-247 | one step of the loop: past the end it passes, a missing file fails naming that file, a present file is rewritten and the loop goes on with the next |
| AliasRewriter.RewriteFilesFrame | src/commands/build.ts:212-247 | no file is created or deleted, and an unlisted file keeps its text |
| AliasRewriter.RewriteFilesPass | src/commands/build.ts:212-247 | the loop ends normally exactly when every listed file can be read |
| AliasRewriter.RewriteFilesFirstMissing | src/commands/build.ts:212-247 | the first unreadable file throws, naming it, after exactly the files before it have been rewritten |
| AliasRewriter.RewriteFilesEach | src/commands/build.ts:212-247 | when every listed file exists and none is listed twice, each ends up holding the rewrite of its own former text |
| AliasRewriter.OutputFiles.constructor | src/commands/build.ts:206-214 | the emitted files start with the given texts |
| AliasRewriter.OutputFiles.RewriteAll | src/commands/build.ts:212-247 | the files' final texts and the outcome are those the specification of the loop gives from the initial texts |
| Reporting.DigitChar | src/commands/build.ts:162 | a digit is a character from "0" to "9" |
| Reporting.DigitValue | src/commands/build.ts:162 | the value of a digit is below ten |
| Reporting.NatToString | src/commands/build.ts:162 | a number prints as a non-empty string of digits |
| Reporting.DigitRoundTrip | src/commands/build.ts:162 | each digit reads back as itself |
| Reporting.NatToStringRoundTrip | src/commands/build.ts:162 | a printed number reads back as the number |
| Reporting.NatToStringInjective | src/commands/build.ts:162 | different numbers print differently |
| Reporting.DiagnosticLine | src/commands/build.ts:153-168 | the line always ends with the message; an unlocated diagnostic (no file, or a start of 0 or none) prints only the message; a located one starts with its file name and " (" |
| Reporting.Located | src/commands/build.ts:153 | definition: `diagnostic.file && diagnostic.start`, so a start offset of 0 counts as absent |
| Reporting.DiagnosticLineParts | src/commands/build.ts:161-163 | a located diagnostic prints "file (line,column): message", and the one-based line and column read back from it |
| Reporting.SummaryLine | src/commands/build.ts:171-175 | the summary says "unsuccessful" exactly when the emit was skipped, and "The compilation was successful." otherwise |
| Reporting.CompilationLog | src/commands/build.ts:149-175 | one line per diagnostic, in order, then the summary |
| Reporting.TailwindCommands | src/commands/build.ts:250-259 | with tailwind enabled there are exactly the two runs, writing styles.css and then the minified styles.min.css in the output directory; otherwise none |

## Left out

- Loading the configuration (lines 106-119) is left out: the file-existence test, `JSON.parse` and the schema validation. The manifest, the excluded suffixes, `tailwind`, `outDir`, `baseUrl` and `paths` are parameters of the model.
- The schema in `src/utils/validation/cosmofactory-config` is not part of this model. The excluded suffixes are taken as an explicit parameter.
- The TypeScript compiler calls are left out: `convertCompilerOptionsFromJson`, `createProgram`, `emit` and `getPreEmitDiagnostics`. The diagnostics, the position-to-line mapping and the flattened message texts are inputs of `Reporting`.
- The creation of the output directory (lines 131-133) is left out. It only makes the later listing possible.
- Every call to `fs`, `console` and `spawnSync` is left out:
  - the directory tree is an input of `FileCollector`;
  - the existing paths are a set in `Manifest.FileSystem`;
  - the emitted files' texts are a map in `AliasRewriter.OutputFiles`;
  - what would be printed or run is returned as strings.
- FileCollector.JoinPath is `where + "/" + name`, without Node's `path.join` normalisation. Node drops the leading `./`, which makes the collected paths differ from the distribution directory as written.
  - For a one-segment output directory such as `./dist`, the depth count comes out the same.
  - For `./build/out`, Node's paths never contain the distribution directory. The count then also includes the slashes of the output directory itself, and the model does not show this.
- Errors thrown by `statSync` and `cpSync` are left out. The text of a failed `readFileSync` is left out too: it is modelled as a failure naming the file.
- AliasRewriter.PatternOf covers only alias keys that are "@/*", a plain prefix followed by "/*", or a plain key, where "plain" means no regular-expression metacharacter. Other keys build regular expressions that are not modelled. This is why `InputsRewritable` is a precondition of the rewrite.
- AliasRewriter.RewriteFile requires that neither the base URL nor the first target holds a `$`. Replacement patterns such as `$&` or `$2` inside the replacement path are not modelled.
- Only the first alias target is used, as in the source; fallback targets are ignored there too.
- JavaScript's enumeration order for objects is not modelled. Integer-like keys come first in ascending order. Manifest keys and alias entries are taken in the order given.
- Strings are sequences of Unicode code points, not UTF-16 code units. Surrogate pairs inside paths and texts are not distinguished.
- Strings.Repeat has no contract of its own. The depth prefix's properties are stated by AliasRewriter.DepthOfNested and AliasRewriter.RepeatChars.
- `src/commands/init.ts`, the command-line entry point and the type declarations are not part of this model.
