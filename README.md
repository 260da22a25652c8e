# Asset copying and executor options — a Dafny model

This project models two pieces of an esbuild plugin collection that deal with asset paths:

- **The copy plugin's copy step** (`packages/esbuild-plugin-copy/src/lib/handler.ts`).
  - `resolvePaths` turns a list of "from" patterns, one glob-matched file and a `to` value into `[src, dest]` pairs.
  - The pattern's directory, with its first slash-star-star marker removed, is the *anchor*.
  - The piece of the match after the anchor, taken as `split(anchor)[1]`, is the *tail*.
  - A `to` value without an extension is a directory: the tail, minus its first character, is kept under it.
  - A `to` value with an extension is an exact file, and every match lands on it.
  - `copyOperationHandler` applies the pairs to a file system. A dry run does nothing. Otherwise it ensures the destination's parent directory, then writes the transformed bytes or copies the file.
- **The esbuild build executor's option normaliser** (`packages/nx-plugin-esbuild/src/executors/build/lib/normalize-option.ts`).
  - It resolves `main`, `outputPath` and `tsConfig` against the workspace root.
  - It layers the esbuild option bags.
  - It makes the file replacements absolute.
  - It expands the asset declarations into `{input, output}` pairs.

Both pieces rely on Node's `path` module (posix flavour) and on a few JavaScript string operations, so those are modelled too:

| file | module | contents |
|---|---|---|
| `wrappers.dfy` | `Wrappers` | `Option`, `Result`, `Outcome` |
| `js_string.dfy` | `JsString` | `indexOf`, `split` with a string separator, `split(sep)[1]`, `Array.prototype.join`, first-occurrence `replace`, `endsWith`, `slice` |
| `posix_path.dfy` | `PosixPath` | `resolve`, `normalize`, `join`, `basename`, `extname`, `parse().dir`, `dirname`, stated on the path's segments |
| `copy_handler.dfy` | `CopyHandler` | `resolvePaths`, the file system as a class, `copyOperationHandler` as a method with a loop over the pairs |
| `normalize_option.dfy` | `NormalizeOption` | `normalizeAssets` as a method with nested loops, `normalizeFileReplacements`, `normalizeBuildExecutorOptions` |

How the model is built:

- **Segments.** A path's segments are its pieces between slashes, with empty and `.` pieces dropped. Every property of `resolve` and `join` is stated on segments plus absoluteness (`ResolveShape`, `NormalizeShape` and `JoinShape` give the absoluteness).
- **Working directory.** `process.cwd()` is a parameter: `cwd`.
- **Glob engine.** It is a function parameter `Glob` from pattern, working directory and ignore list to the matches. Nothing is assumed about their order.
- **Transform.** The copy plugin's `transform` is an optional function parameter from the source path and bytes to the new bytes.
- **copyOperationHandler.** The method is proved equal to the function `CopyOperation` of the file system before the call. The lemmas about `CopyOperation` and `CopyAll` state what the handler promises.
- **normalizeAssets.** The method is proved equal to `ExpandAssets`, and the lemmas about `ExpandAll` state its layout.
- **Throws.** In directory mode `undefined.slice(1)` throws when `split(anchor)[1]` of the match is undefined. That is an error result, `UndefinedTail`, and then nothing is copied. The throw happens before the dry-run check, so a dry run can fail as well.
  - For a non-empty anchor, the call throws exactly when the match does not contain the anchor.
  - A pattern without a directory, such as `*.js`, has the empty anchor. `split("")[1]` is then the match's second character, so the call throws only for a match shorter than two characters. Every longer match keeps the empty tail and goes to the `to` directory itself, so all matches land on one path (`AnchorWithoutDirectory`).
- **Missing sources.** A missing source makes `readFile`/`copyFile` reject. The model records the first missing source in pair order and goes on with the other pairs, as the other callbacks of the `Promise.all` go on running.
- **Where the destination lands.** In directory mode the destination lies below the resolved `to` directory when the kept tail is relative and has no `..` segment (`DirectoryModeDestination`). The model follows the code for other tails too. An absolute tail, or one whose `..` segments climb past its own start, may escape, as `path.resolve` lets it. A `..` that cancels an earlier segment of the tail keeps the destination below the `to` directory.
- **Strings from segments.** A resolved path is the rendering of its own segments (`ResolveCanonical`), so equal segments and equal absoluteness give the same string. This is how the lemmas on segments fix the keys of the file system.

## Model

| member | source | states |
|---|---|---|
| JsString.IndexFromSpec | packages/esbuild-plugin-copy/src/lib/handler.ts:49 | the search used by `split` returns the first occurrence at or after the start, and returns none only when there is no occurrence there |
| JsString.IndexOfNoneIffAbsent | packages/esbuild-plugin-copy/src/lib/handler.ts:49 | `indexOf` is -1 exactly when the string does not contain the separator |
| JsString.Split | packages/esbuild-plugin-copy/src/lib/handler.ts:49 | `split` gives at least one piece for a non-empty separator, and one piece per character for the empty one |
| JsString.SplitEmptySeparator | packages/esbuild-plugin-copy/src/lib/handler.ts:49 | with the empty separator, piece `j` is the `j`-th character |
| JsString.SplitPiecesAvoidSep | packages/esbuild-plugin-copy/src/lib/handler.ts:49 | no piece of `split` contains the separator |
| JsString.JoinSplit | packages/esbuild-plugin-copy/src/lib/handler.ts:49 | joining the pieces of `split` with the separator gives back the string (its inverse) |
| JsString.SplitSecondSpec | packages/esbuild-plugin-copy/src/lib/handler.ts:49 | for a non-empty separator, `split(sep)[1]` is undefined exactly when `sep` does not occur, and when defined it has no `sep`; for the empty separator it is the second character, defined for strings of length at least 2 |
| JsString.SecondPieceIsFirstPieceOfRest | packages/esbuild-plugin-copy/src/lib/handler.ts:49 | the second piece is the first piece of what follows the first occurrence |
| JsString.SplitSecondBetweenOccurrences | packages/esbuild-plugin-copy/src/lib/handler.ts:47-49 | the second piece is exactly the text between the first occurrence and the next one, or the end of the string |
| JsString.ReplaceFirstSpec | packages/esbuild-plugin-copy/src/lib/handler.ts:45 | `replace` with a string pattern leaves a string without the pattern unchanged, and otherwise replaces only the leftmost occurrence, keeping the text on both sides |
| JsString.SliceFrom | packages/esbuild-plugin-copy/src/lib/handler.ts:65 | `slice(start)` is the suffix after the first `start` characters, and empty past the end |
| JsString.SplitSecond | packages/esbuild-plugin-copy/src/lib/handler.ts:49 | `split(sep)[1]`, or none where JavaScript gives `undefined`; characterised by `SplitSecondSpec`, `SecondPieceIsFirstPieceOfRest` and `SplitSecondBetweenOccurrences` |
| JsString.ReplaceFirst | packages/esbuild-plugin-copy/src/lib/handler.ts:45 | `replace` with a string pattern; characterised by `ReplaceFirstSpec` |
| JsString.EndsWith | packages/esbuild-plugin-copy/src/lib/handler.ts:32 | `endsWith`: the string finishes with the suffix; characterised by `EndsWithIffSuffix` |
| JsString.EndsWithIffSuffix | packages/esbuild-plugin-copy/src/lib/handler.ts:32 | `endsWith(suffix)` holds exactly when the string is some prefix followed by the suffix |
| PosixPath.Basename | packages/nx-plugin-esbuild/src/executors/build/lib/normalize-option.ts:68 | `basename` has no slash and is empty only for a path made of slashes; its value for a bare name, for `/name` and for `d/name` is fixed by `BareName`, `NameUnderRoot` and `BasenameOfChild` |
| PosixPath.BasenameOfChild | packages/nx-plugin-esbuild/src/executors/build/lib/normalize-option.ts:68 | the basename of `d/name` is `name` |
| PosixPath.Extname | packages/esbuild-plugin-copy/src/lib/handler.ts:55 | `extname` is non-empty exactly when the basename is not `..` and has a dot after its first character; then it starts with its only dot and ends the basename |
| PosixPath.ParseDir | packages/esbuild-plugin-copy/src/lib/handler.ts:26 | `parse().dir` is a prefix of the path, or `/` for an absolute path; its value for a bare name, for `/name` and for `d/name` is fixed by `BareName`, `NameUnderRoot` and `ParseDirOfChild` |
| PosixPath.ParseDirOfChild | packages/esbuild-plugin-copy/src/lib/handler.ts:26 | `parse("d/name").dir` is `d` |
| PosixPath.Dirname | packages/esbuild-plugin-copy/src/lib/handler.ts:118 | `dirname` is the path itself, something shorter, or `.` for a one-character path; its value for a bare name, for `/name` and for `d/name` is fixed by `BareName`, `NameUnderRoot` and `DirnameOfChild` |
| PosixPath.DirnameOfChild | packages/esbuild-plugin-copy/src/lib/handler.ts:118 | `dirname("d/name")` is `d` |
| PosixPath.BareName | packages/nx-plugin-esbuild/src/executors/build/lib/normalize-option.ts:68 | a bare name without a slash is its own basename, and has the empty `parse().dir` and the `dirname` `.` |
| PosixPath.NameUnderRoot | packages/esbuild-plugin-copy/src/lib/handler.ts:118 | for `/name`, the basename is `name` and both `parse().dir` and `dirname` are `/` |
| PosixPath.TrailingSlashIgnored | packages/esbuild-plugin-copy/src/lib/handler.ts:26 | a trailing slash on a non-empty path changes none of `basename`, `parse().dir` and `dirname` |
| PosixPath.Resolve | packages/esbuild-plugin-copy/src/lib/handler.ts:53 | `path.resolve` with the working directory as a parameter: gather from the right up to an absolute argument, normalise, render; characterised by `ResolveShape`, `ResolveCanonical` and the lemmas below it |
| PosixPath.NormalizeString | packages/nx-plugin-esbuild/src/executors/build/lib/normalize-option.ts:67 | Node's `normalizeString`: the collapsed segments joined with slashes, `..` kept above the root only for a relative path |
| PosixPath.Normalize | packages/nx-plugin-esbuild/src/executors/build/lib/normalize-option.ts:67 | `path.normalize`, keeping a trailing slash; characterised by `NormalizeShape` |
| PosixPath.Join | packages/nx-plugin-esbuild/src/executors/build/lib/normalize-option.ts:67-76 | `path.join`: the non-empty arguments joined with slashes and normalised, `.` when none is left; characterised by `JoinShape` (absoluteness) and `JoinAppendRelative` (segments) |
| PosixPath.ResolveShape | packages/esbuild-plugin-copy/src/lib/handler.ts:53 | `resolve` is absolute exactly when the working directory or an argument is; its segments are the collapsed gathered segments, all plain names |
| PosixPath.ResolvedAbsoluteHasNoParentSegment | packages/esbuild-plugin-copy/src/lib/handler.ts:53 | an absolute resolved path has no `..` segment |
| PosixPath.ResolveIdempotent | packages/esbuild-plugin-copy/src/lib/handler.ts:51-53 | resolving an absolute resolved path again gives it back, whatever the working directory |
| PosixPath.ResolveAppendRelative | packages/nx-plugin-esbuild/src/executors/build/lib/normalize-option.ts:30-32 | one more relative argument without `..` keeps absoluteness and appends its segments |
| PosixPath.ResolveUnderBase | packages/esbuild-plugin-copy/src/lib/handler.ts:59-66 | `resolve(out, to, rest)` is `resolve(out, to)` extended by the segments of a relative `rest` without `..` |
| PosixPath.ResolveFromAbsolute | packages/nx-plugin-esbuild/src/executors/build/lib/normalize-option.ts:30 | an absolute last argument makes `resolve` ignore the ones before it |
| PosixPath.ResolveCanonical | packages/esbuild-plugin-copy/src/lib/handler.ts:59-72 | a resolved path is the rendering of its own segments: `/` plus the segments joined with slashes when absolute |
| PosixPath.ResolvedEqual | packages/esbuild-plugin-copy/src/lib/handler.ts:59-72 | two resolved paths with the same absoluteness and the same segments are the same string |
| PosixPath.ResolveDropsEmpty | packages/esbuild-plugin-copy/src/lib/handler.ts:59-66 | an empty last argument to `resolve` is skipped |
| PosixPath.ResolveRootName | packages/esbuild-plugin-copy/src/lib/handler.ts:59-72 | `resolve("/n")` for a plain name `n` is absolute with the single segment `n` |
| PosixPath.NormalizeShape | packages/nx-plugin-esbuild/src/executors/build/lib/normalize-option.ts:67 | `normalize` keeps absoluteness and gives the collapsed segments |
| PosixPath.JoinAppendRelative | packages/nx-plugin-esbuild/src/executors/build/lib/normalize-option.ts:67-76 | `join` with one more relative argument without `..` appends that argument's segments |
| PosixPath.JoinUnderTwo | packages/nx-plugin-esbuild/src/executors/build/lib/normalize-option.ts:67-68 | `join(x, y, t)` has the segments of `join(x, y)` followed by those of `t` |
| PosixPath.JoinShape | packages/nx-plugin-esbuild/src/executors/build/lib/normalize-option.ts:67-76 | a joined path is absolute exactly when its first non-empty argument is |
| PosixPath.JoinFromAbsolute | packages/nx-plugin-esbuild/src/executors/build/lib/normalize-option.ts:67-76 | `join` with an absolute first argument, such as the workspace root, is absolute |
| PosixPath.JoinOne | packages/nx-plugin-esbuild/src/executors/build/lib/normalize-option.ts:67 | `join(p)` of a non-empty path without `..` keeps its absoluteness and segments |
| PosixPath.JoinUnderThree | packages/nx-plugin-esbuild/src/executors/build/lib/normalize-option.ts:75-76 | `join(x, y, z, t)` has the segments of `join(x, y, z)` followed by those of `t` |
| PosixPath.SegmentsOfName | packages/nx-plugin-esbuild/src/executors/build/lib/normalize-option.ts:68 | a basename other than `.`, `..` and the empty string is a single relative segment |
| CopyHandler.Anchor | packages/esbuild-plugin-copy/src/lib/handler.ts:26-45 | the pattern's `parse().dir` with its first slash-star-star marker removed; its value is fixed by `AnchorOfDocumentedShape` and `EmptyAnchor` |
| CopyHandler.HasSupportedShape | packages/esbuild-plugin-copy/src/lib/handler.ts:32 | the condition whose failure only logs a warning: the pattern's directory ends in the marker |
| CopyHandler.IsDirectoryTarget | packages/esbuild-plugin-copy/src/lib/handler.ts:55 | a `to` value whose `extname` is empty names a directory |
| CopyHandler.ResolvePair | packages/esbuild-plugin-copy/src/lib/handler.ts:26-74 | the source is the resolved match; an exact file goes to `resolve(outDir, to)`; the callback throws exactly in directory mode with an undefined tail |
| CopyHandler.Collect | packages/esbuild-plugin-copy/src/lib/handler.ts:24 | a map whose callback may throw gives all values in order, or the error of the first callback that throws |
| CopyHandler.ResolvePaths | packages/esbuild-plugin-copy/src/lib/handler.ts:24-75 | on success, exactly one pair per pattern, in order, each that pattern's pair; on failure, the error of the first pattern that throws |
| CopyHandler.ResolvePathsSameSource | packages/esbuild-plugin-copy/src/lib/handler.ts:53 | every pair of a call has the resolved match as its source |
| CopyHandler.ExactFileMode | packages/esbuild-plugin-copy/src/lib/handler.ts:55-72 | with an extension in `to` the call never throws, and every pair goes to `resolve(outDir, to)` |
| CopyHandler.DirectoryModeFailure | packages/esbuild-plugin-copy/src/lib/handler.ts:49-66 | in directory mode the call throws exactly when some pattern's anchor leaves the tail undefined |
| CopyHandler.ResolvePairDirectory | packages/esbuild-plugin-copy/src/lib/handler.ts:57-66 | in directory mode with a defined tail, the destination is `resolve(outDir, to, tail.slice(1))` |
| CopyHandler.DirectoryModeDestination | packages/esbuild-plugin-copy/src/lib/handler.ts:57-66 | in directory mode the destination has the segments of the resolved `to` directory followed by those of the kept tail |
| CopyHandler.MarkerOnlyAtEnd | packages/esbuild-plugin-copy/src/lib/handler.ts:45 | the first marker of a directory ending in its only marker is that final one |
| CopyHandler.AnchorOfDocumentedShape | packages/esbuild-plugin-copy/src/lib/handler.ts:25-45 | for a pattern `A`, marker, slash, file pattern: the directory ends in the marker (no warning) and the anchor is `A` |
| CopyHandler.TailOfAnchoredMatch | packages/esbuild-plugin-copy/src/lib/handler.ts:47-49 | a match that starts with the anchor, with no later anchor, keeps everything after the anchor |
| CopyHandler.DocumentedTail | packages/esbuild-plugin-copy/src/lib/handler.ts:43-49 | for the documented pattern shape, the match `A/sub` keeps `/sub` |
| CopyHandler.DocumentedLayout | packages/esbuild-plugin-copy/src/lib/handler.ts:24-75 | end to end: the documented pattern and the match `A/sub` in directory mode give a destination that is the resolved `to` directory extended by `sub` |
| CopyHandler.DocumentedDestination | packages/esbuild-plugin-copy/src/lib/handler.ts:57-66 | the same destination as a string: `/` plus the base segments and those of `sub`, joined with slashes |
| CopyHandler.NamedLayout | packages/esbuild-plugin-copy/src/lib/handler.ts:24-75 | with plain names throughout, the pattern `A` plus marker plus `/F`, the match `A/x/y`, the output directory `/n` and the `to` directory `t` give the destination `/n/t/x/y` |
| CopyHandler.LayoutExample | packages/esbuild-plugin-copy/src/lib/handler.ts:24-75 | a worked layout: `/a/b/**/*.js`, the match `/a/b/c/d.js`, `to` = `dist` and the output directory `/out` give `/out/dist/c/d.js` |
| CopyHandler.EmptyAnchor | packages/esbuild-plugin-copy/src/lib/handler.ts:26-45 | a pattern without a directory has the empty anchor |
| CopyHandler.AnchorWithoutDirectory | packages/esbuild-plugin-copy/src/lib/handler.ts:26-72 | for a pattern without a directory, every match of at least two characters goes to `resolve(outDir, to)` itself, and a shorter match throws exactly in directory mode |
| CopyHandler.AnchorExample | packages/esbuild-plugin-copy/src/lib/handler.ts:44-45 | the inline example: the `./assets` pattern directory gives the anchor `./assets` |
| CopyHandler.TailExamples | packages/esbuild-plugin-copy/src/lib/handler.ts:47-48 | the inline examples: `/foo.js` and `/nest/foo.js` are kept |
| CopyHandler.DirChain | packages/esbuild-plugin-copy/src/lib/handler.ts:118 | `ensureDir` creates at least the directory itself |
| CopyHandler.DirChainClosed | packages/esbuild-plugin-copy/src/lib/handler.ts:118 | the parent of every directory `ensureDir` creates is created as well, up to the root |
| CopyHandler.FileSystem.EnsureDir | packages/esbuild-plugin-copy/src/lib/handler.ts:118 | adds the directory and its ancestors; files unchanged |
| CopyHandler.FileSystem.ReadFile | packages/esbuild-plugin-copy/src/lib/handler.ts:121 | the contents of an existing file, or a rejection for a missing one |
| CopyHandler.FileSystem.WriteFile | packages/esbuild-plugin-copy/src/lib/handler.ts:123 | sets exactly that file's contents |
| CopyHandler.FileSystem.CopyFile | packages/esbuild-plugin-copy/src/lib/handler.ts:125 | succeeds exactly when the source exists, and then the destination holds the source's bytes; nothing else changes |
| CopyHandler.HandlePair | packages/esbuild-plugin-copy/src/lib/handler.ts:107-131 | the callback for one pair has the effect of `CopyStep`: nothing on a dry run, otherwise the parent chain and the transformed or copied bytes |
| CopyHandler.Content | packages/esbuild-plugin-copy/src/lib/handler.ts:120-126 | the bytes written: the transform of the source path and bytes, or the bytes themselves without a transform |
| CopyHandler.CopyStep | packages/esbuild-plugin-copy/src/lib/handler.ts:107-131 | the effect of one callback on the file system and the missing source it reports, if any; `HandlePair` is proved to have it |
| CopyHandler.CopyAll | packages/esbuild-plugin-copy/src/lib/handler.ts:107-134 | the callbacks in pair order, keeping the first missing source; characterised by `CopyAllDryRun`, `CopyAllFrame`, `CopyAllParents`, `CopyAllPresentSource`, `CopyAllMissingSource` and `CopyAllCopies` |
| CopyHandler.CopyOperation | packages/esbuild-plugin-copy/src/lib/handler.ts:89-135 | `copyOperationHandler` as a function of the file system: a resolve failure rejects before anything is copied, otherwise `CopyAll` of the pairs; characterised by `CopyOperationDryRun`, `CopyOperationCopies` and `CopyOperationMissingSource` |
| CopyHandler.CopyOperationHandler | packages/esbuild-plugin-copy/src/lib/handler.ts:89-135 | the new file system and the outcome are `CopyOperation` of the old state |
| CopyHandler.CopyAllDryRun | packages/esbuild-plugin-copy/src/lib/handler.ts:108-116 | a dry run over any pairs changes nothing and reports nothing |
| CopyHandler.CopyAllFrame | packages/esbuild-plugin-copy/src/lib/handler.ts:118-126 | only destinations are written, no file disappears and directories are only added |
| CopyHandler.CopyAllParents | packages/esbuild-plugin-copy/src/lib/handler.ts:118 | after a real run the parent chain of every destination exists |
| CopyHandler.CopyAllPresentSource | packages/esbuild-plugin-copy/src/lib/handler.ts:120-126 | with an existing source no pair overwrites, every destination holds the transformed or plain source bytes and nothing is reported |
| CopyHandler.CopyAllMissingSource | packages/esbuild-plugin-copy/src/lib/handler.ts:121-125 | with a missing source no file changes and the missing source is reported |
| CopyHandler.CopyAllCopies | packages/esbuild-plugin-copy/src/lib/handler.ts:118-126 | a real run: the contents of every destination, its parent directory, the exact new set of files, and every other file unchanged |
| CopyHandler.CopyOperationDryRun | packages/esbuild-plugin-copy/src/lib/handler.ts:99-116 | a dry run leaves the file system as it was, and succeeds exactly when the pairs resolve |
| CopyHandler.CopyOperationCopies | packages/esbuild-plugin-copy/src/lib/handler.ts:89-135 | resolvable pairs whose existing source is not itself one of the destinations: success, and every destination holds the source's (transformed) bytes |
| CopyHandler.CopyOperationMissingSource | packages/esbuild-plugin-copy/src/lib/handler.ts:107-134 | a real run whose source is missing changes no file and rejects with that source |
| NormalizeOption.GlobFile | packages/nx-plugin-esbuild/src/executors/build/lib/normalize-option.ts:44-50 | `globFile`: the glob engine applied to a pattern, a working directory and an ignore list |
| NormalizeOption.PatternEntry | packages/nx-plugin-esbuild/src/executors/build/lib/normalize-option.ts:64-69 | one match of a glob string: input `join(root, match)`, output `join(root, outDir, basename(match))`; both absolute under an absolute root; characterised further by `PatternEntryFlattens` |
| NormalizeOption.DescriptorEntry | packages/nx-plugin-esbuild/src/executors/build/lib/normalize-option.ts:71-78 | one match of a descriptor: input `join(root, input, match)`, output `join(root, outDir, output, match)`; both absolute under an absolute root; characterised further by `DescriptorEntryKeepsSubPath` |
| NormalizeOption.Matches | packages/nx-plugin-esbuild/src/executors/build/lib/normalize-option.ts:65-72 | the matches of one asset: a string is globbed in the root, a descriptor in `join(root, input)` with its ignore list |
| NormalizeOption.Entries | packages/nx-plugin-esbuild/src/executors/build/lib/normalize-option.ts:63-80 | one asset's pairs, one per match in match order; characterised by `EntriesOfAsset` |
| NormalizeOption.ExpandAll | packages/nx-plugin-esbuild/src/executors/build/lib/normalize-option.ts:63-81 | the pairs of the assets in order; characterised by `ExpandAllLength`, `ExpandAllAppend` and `ExpandAllPosition` |
| NormalizeOption.ExpandAssets | packages/nx-plugin-esbuild/src/executors/build/lib/normalize-option.ts:52-83 | `normalizeAssets` as a function: no pairs for a non-array value, otherwise `ExpandAll`; `NormalizeAssets` is proved to compute it |
| NormalizeOption.EntriesOfAsset | packages/nx-plugin-esbuild/src/executors/build/lib/normalize-option.ts:65-79 | one pair per glob match of an asset, in match order |
| NormalizeOption.NormalizeAssets | packages/nx-plugin-esbuild/src/executors/build/lib/normalize-option.ts:52-83 | the pushed pairs are `ExpandAssets` of the declarations |
| NormalizeOption.PushEntries | packages/nx-plugin-esbuild/src/executors/build/lib/normalize-option.ts:63-81 | the body of the outer loop appends exactly one asset's pairs |
| NormalizeOption.NotAnArray | packages/nx-plugin-esbuild/src/executors/build/lib/normalize-option.ts:59-61 | a non-array value gives no pairs |
| NormalizeOption.ExpandAllLength | packages/nx-plugin-esbuild/src/executors/build/lib/normalize-option.ts:57-83 | the number of pairs is the sum of the per-asset match counts |
| NormalizeOption.ExpandAllAppend | packages/nx-plugin-esbuild/src/executors/build/lib/normalize-option.ts:63 | expanding two lists of declarations in a row is expanding their concatenation |
| NormalizeOption.ExpandAllPosition | packages/nx-plugin-esbuild/src/executors/build/lib/normalize-option.ts:63-83 | the pair of match `j` of asset `i` comes after all pairs of earlier assets and earlier matches: asset order, then match order, nothing dropped |
| NormalizeOption.ExpandAllAbsolute | packages/nx-plugin-esbuild/src/executors/build/lib/normalize-option.ts:63-83 | under an absolute root every input/output pair has absolute paths on both sides |
| NormalizeOption.PatternEntryFlattens | packages/nx-plugin-esbuild/src/executors/build/lib/normalize-option.ts:64-70 | a string asset's output is directly in `join(root, outDir)`, under the match's basename, and its input has the root's segments followed by the match's for a relative match and root without `..` |
| NormalizeOption.DescriptorEntryKeepsSubPath | packages/nx-plugin-esbuild/src/executors/build/lib/normalize-option.ts:71-79 | a descriptor's input and output keep the match's sub-path under `join(root, input)` and `join(root, outDir, output)` |
| NormalizeOption.NormalizeFileReplacements | packages/nx-plugin-esbuild/src/executors/build/lib/normalize-option.ts:125-135 | no replacements give `[]`; otherwise the same number, each side `resolve(root, ·)` of the original |
| NormalizeOption.ResolvedAgainstRootIsStable | packages/nx-plugin-esbuild/src/executors/build/lib/normalize-option.ts:130-131 | a path resolved against the root is absolute and stays the same when resolved against the root again |
| NormalizeOption.FileReplacementsIdempotent | packages/nx-plugin-esbuild/src/executors/build/lib/normalize-option.ts:125-135 | normalising the replacements a second time changes nothing |
| NormalizeOption.MergeEsbuild | packages/nx-plugin-esbuild/src/executors/build/lib/normalize-option.ts:33-38 | the merged bag has `bundle`, `watch` and every key of both bags; each key takes the caller's value, else the executor's, else the default |
| NormalizeOption.NormalizeBuildExecutorOptions | packages/nx-plugin-esbuild/src/executors/build/lib/normalize-option.ts:25-41 | `root`, `sourceRoot` and `projectRoot` come from the arguments; `main`, `outputPath` and `tsConfig` are `resolve(root, ·)` of the given ones; the file replacements are `normalizeFileReplacements` of the given ones; every other property that is not set here passes through unchanged |
| NormalizeOption.PathResolvedAgainstRoot | packages/nx-plugin-esbuild/src/executors/build/lib/normalize-option.ts:30-32 | any path resolved against the root is absolute once the working directory is; a relative one without `..` has the root's segments followed by its own |
| NormalizeOption.NormalizedEntryPaths | packages/nx-plugin-esbuild/src/executors/build/lib/normalize-option.ts:30-32 | the normalised `main`, `outputPath` and `tsConfig` are absolute, unchanged by resolving them against the root again, and below the root when the given path is relative without `..` |
| NormalizeOption.NormalizedFileReplacementPaths | packages/nx-plugin-esbuild/src/executors/build/lib/normalize-option.ts:39 | both sides of every normalised file replacement are absolute, and normalising the result again changes nothing |
| NormalizeOption.NormalizedAssetPaths | packages/nx-plugin-esbuild/src/executors/build/lib/normalize-option.ts:40 | under an absolute workspace root every normalised asset pair has an absolute input and output |
| NormalizeOption.AssetsUseRawOutputPath | packages/nx-plugin-esbuild/src/executors/build/lib/normalize-option.ts:40 | the assets are laid out under the raw `outputPath`, so the working directory plays no part in them |
| NormalizeOption.EsbuildPrecedence | packages/nx-plugin-esbuild/src/executors/build/lib/normalize-option.ts:33-38 | precedence, highest first: the caller's esbuild options, then the executor's `esbuild` bag, then `bundle`/`watch` |

## Left out

- The glob engine (`glob.sync`) is a function parameter. Its matching rules and its order of matches are not modelled.
- File-system failures other than a missing source are not modelled. These include permissions, a destination that is a directory, and `ensureDir` over an existing file.
- `Promise.all` concurrency is modelled as sequential handling in pair order. When several sources are missing, the error kept is the first in pair order, not the first in time. Interleavings only matter when one pair's destination is another's source, and the lemmas about full copies exclude that.
- Logging and colouring (`verboseLog`, `chalk`) are left out, including the log-only warning for a pattern directory that does not end in the slash-star-star marker. `HasSupportedShape` names that condition; it changes no result.
- Windows path semantics and Unicode details of paths are left out. Strings are sequences of Unicode scalar values, not UTF-16 code units. Lengths, `slice` and the empty-separator `split` therefore differ from JavaScript for characters outside the Basic Multilingual Plane. For example, a one-character match outside that plane throws under a pattern without a directory in the model, but not in JavaScript.
- `process.cwd()` is not modelled; it is the parameter `cwd`.
- The body of the caller-supplied `transform` is an opaque function. Its asynchrony and failures are not modelled.
- The legacy implementation commented out in normalize-option.ts is not modelled, and neither are the unused `statSync`/`dirname`/`relative` imports.
- The special `$` patterns of a `replace` replacement string are not modelled. The only replacement used is the empty string.
- Option values the normaliser only copies are opaque (`JsValue.Opaque`). Non-integer numbers and nested objects among them are not modelled.
- The option schema's type checks are not modelled:
  - `main`, `outputPath` and `tsConfig` are assumed to be strings; an undefined one would make `resolve` throw;
  - `assets` being an array of strings and descriptors is typed as `Option<seq<Asset>>`.
- DirectoryModeDestination: states the layout only when the kept tail is relative and has no `..` segment. With any other tail, `path.resolve` may lead outside the `to` directory.
- CopyAllCopies: assumes that all pairs share one existing source which no pair overwrites. That is what `resolvePaths` produces when the match is not also a destination (`ResolvePathsSameSource`).
- PatternEntryFlattens: assumes the match's basename is a plain name other than `..`, since glob matches of files are.
- DescriptorEntryKeepsSubPath: assumes the match is relative and has no `..` segment, as glob matches below a working directory are.
