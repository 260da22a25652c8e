/** The option normaliser of the esbuild build executor: it resolves the
    entry, output and tsconfig paths against the workspace root, layers the
    esbuild option bags, makes the file replacements absolute and expands
    the asset declarations into input/output file pairs with a glob
    function supplied by the caller. */
module NormalizeOption {
  import opened Wrappers
  import opened JsString
  import opened PosixPath

  /** A property value of a plain option object. Values the normaliser
      only copies are `Opaque`. */
  datatype JsValue = Undefined | Bool(b: bool) | Num(n: int) | Str(s: string) | Opaque(id: nat)

  /** A plain object: its own properties. */
  type OptionBag = map<string, JsValue>

  /** The value of `bag.key`: `undefined` when it has no such property. */
  function Lookup(bag: OptionBag, key: string): JsValue {
    if key in bag then bag[key] else Undefined
  }

  /** An asset descriptor: a glob below an input directory, copied under an
      output directory. */
  datatype AssetsItem = AssetsItem(glob: string, input: string, output: string, ignore: Option<seq<string>>)

  /** An entry of `assets`: a glob string or a descriptor. */
  datatype Asset = Pattern(pattern: string) | Descriptor(item: AssetsItem)

  datatype FileInputOutput = FileInputOutput(input: string, output: string)

  datatype FileReplacement = FileReplacement(replace: string, with: string)

  /** The glob engine: pattern, working directory and ignore patterns to
      the matched paths, relative to that directory. */
  type Glob = (string, string, seq<string>) -> seq<string>

  /** The executor options that the normaliser reads; `rest` holds every
      other property. `assets` is `None` when it is not an array. */
  datatype ExecutorOptions = ExecutorOptions(
    main: string,
    outputPath: string,
    tsConfig: string,
    esbuild: Option<OptionBag>,
    fileReplacements: Option<seq<FileReplacement>>,
    assets: Option<seq<Asset>>,
    rest: OptionBag)

  datatype NormalizedOptions = NormalizedOptions(
    rest: OptionBag,
    root: string,
    sourceRoot: string,
    projectRoot: string,
    main: string,
    outputPath: string,
    tsConfig: string,
    esbuild: OptionBag,
    fileReplacements: seq<FileReplacement>,
    assets: seq<FileInputOutput>)

  // ---------------------------------------------------------------------
  // normalizeAssets

  /** `globFile(pattern, input, ignore)`. */
  function GlobFile(glob: Glob, pattern: string, input: string, ignore: seq<string>): seq<string> {
    glob(pattern, input, ignore)
  }

  /** The working directory a descriptor is globbed in. */
  function DescriptorRoot(root: string, item: AssetsItem): string {
    Join([root, item.input])
  }

  /** The pair for one match of a glob string: flattened to its basename.
      Both paths are absolute under an absolute root. */
  function PatternEntry(root: string, outDir: string, m: string): (e: FileInputOutput)
    ensures IsAbsolute(root) ==> IsAbsolute(e.input) && IsAbsolute(e.output)
  {
    if IsAbsolute(root) then
      JoinFromAbsolute([root, m]);
      JoinFromAbsolute([root, outDir, Basename(m)]);
      FileInputOutput(Join([root, m]), Join([root, outDir, Basename(m)]))
    else
      FileInputOutput(Join([root, m]), Join([root, outDir, Basename(m)]))
  }

  /** The pair for one match of a descriptor: its sub-path is kept. Both
      paths are absolute under an absolute root. */
  function DescriptorEntry(root: string, outDir: string, item: AssetsItem, m: string): (e: FileInputOutput)
    ensures IsAbsolute(root) ==> IsAbsolute(e.input) && IsAbsolute(e.output)
  {
    if IsAbsolute(root) then
      JoinFromAbsolute([root, item.input, m]);
      JoinFromAbsolute([root, outDir, item.output, m]);
      FileInputOutput(Join([root, item.input, m]), Join([root, outDir, item.output, m]))
    else
      FileInputOutput(Join([root, item.input, m]), Join([root, outDir, item.output, m]))
  }

  /** The matches of one asset. */
  function Matches(asset: Asset, root: string, glob: Glob): seq<string> {
    match asset
    case Pattern(p) => GlobFile(glob, p, root, [])
    case Descriptor(item) => GlobFile(glob, item.glob, DescriptorRoot(root, item), item.ignore.GetOr([]))
  }

  /** The pair an asset contributes for one of its matches. */
  function Entry(asset: Asset, root: string, outDir: string, m: string): FileInputOutput {
    match asset
    case Pattern(_) => PatternEntry(root, outDir, m)
    case Descriptor(item) => DescriptorEntry(root, outDir, item, m)
  }

  /** The pairs of one asset, one per match, in match order. */
  function Entries(asset: Asset, root: string, outDir: string, glob: Glob): seq<FileInputOutput> {
    var ms := Matches(asset, root, glob);
    seq(|ms|, j requires 0 <= j < |ms| => Entry(asset, root, outDir, ms[j]))
  }

  /** One pair per match of the asset, in match order. */
  lemma EntriesOfAsset(asset: Asset, root: string, outDir: string, glob: Glob)
    ensures |Entries(asset, root, outDir, glob)| == |Matches(asset, root, glob)|
    ensures forall j :: 0 <= j < |Matches(asset, root, glob)| ==>
              Entries(asset, root, outDir, glob)[j] == Entry(asset, root, outDir, Matches(asset, root, glob)[j])
  {
  }

  /** The pairs of several assets, asset after asset. */
  function ExpandAll(assets: seq<Asset>, root: string, outDir: string, glob: Glob): seq<FileInputOutput>
    decreases |assets|
  {
    if |assets| == 0 then []
    else ExpandAll(assets[..|assets| - 1], root, outDir, glob) + Entries(assets[|assets| - 1], root, outDir, glob)
  }

  /** What `normalizeAssets` returns: nothing for a value that is not an array. */
  function ExpandAssets(assets: Option<seq<Asset>>, root: string, outDir: string, glob: Glob): seq<FileInputOutput> {
    match assets
    case None => []
    case Some(xs) => ExpandAll(xs, root, outDir, glob)
  }

  /** `normalizeAssets`: every match of every asset pushed in turn. */
  method NormalizeAssets(assets: Option<seq<Asset>>, root: string, outDir: string, glob: Glob)
    returns (files: seq<FileInputOutput>)
    ensures files == ExpandAssets(assets, root, outDir, glob)
  {
    files := [];
    if assets.None? {
      return [];
    }
    var xs := assets.value;
    var i := 0;
    while i < |xs|
      invariant 0 <= i <= |xs|
      invariant files == ExpandAll(xs[..i], root, outDir, glob)
    {
      ExpandAllSnoc(xs[..i], xs[i], root, outDir, glob);
      assert xs[..i + 1] == xs[..i] + [xs[i]];
      files := PushEntries(files, xs[i], root, outDir, glob);
      i := i + 1;
    }
    assert xs[..i] == xs;
  }

  /** The body of the outer loop of `normalizeAssets`: the pair of every
      match of one asset pushed onto `files`. */
  method PushEntries(files: seq<FileInputOutput>, asset: Asset, root: string, outDir: string, glob: Glob)
    returns (files': seq<FileInputOutput>)
    ensures files' == files + Entries(asset, root, outDir, glob)
  {
    files' := files;
    match asset {
      case Pattern(p) =>
        var matched := GlobFile(glob, p, root, []);
        var j := 0;
        while j < |matched|
          invariant 0 <= j <= |matched|
          invariant files' == files + Entries(asset, root, outDir, glob)[..j]
        {
          EntriesSnoc(asset, root, outDir, glob, j);
          files' := files' + [PatternEntry(root, outDir, matched[j])];
          j := j + 1;
        }
      case Descriptor(item) =>
        var matched := GlobFile(glob, item.glob, DescriptorRoot(root, item), item.ignore.GetOr([]));
        var j := 0;
        while j < |matched|
          invariant 0 <= j <= |matched|
          invariant files' == files + Entries(asset, root, outDir, glob)[..j]
        {
          EntriesSnoc(asset, root, outDir, glob, j);
          files' := files' + [DescriptorEntry(root, outDir, item, matched[j])];
          j := j + 1;
        }
    }
    EntriesWhole(asset, root, outDir, glob);
  }

  lemma EntriesSnoc(asset: Asset, root: string, outDir: string, glob: Glob, j: nat)
    requires j < |Matches(asset, root, glob)|
    ensures j < |Entries(asset, root, outDir, glob)|
    ensures Entries(asset, root, outDir, glob)[..j + 1] ==
            Entries(asset, root, outDir, glob)[..j] + [Entry(asset, root, outDir, Matches(asset, root, glob)[j])]
  {
    EntriesOfAsset(asset, root, outDir, glob);
    PrefixSnoc(Entries(asset, root, outDir, glob), j);
  }

  lemma PrefixSnoc<T>(s: seq<T>, j: nat)
    requires j < |s|
    ensures s[..j + 1] == s[..j] + [s[j]]
  {
  }

  lemma EntriesWhole(asset: Asset, root: string, outDir: string, glob: Glob)
    ensures |Entries(asset, root, outDir, glob)| == |Matches(asset, root, glob)|
    ensures Entries(asset, root, outDir, glob)[..|Matches(asset, root, glob)|] == Entries(asset, root, outDir, glob)
  {
  }

  /** The total number of matches of some assets. */
  function MatchCount(assets: seq<Asset>, root: string, glob: Glob): nat
    decreases |assets|
  {
    if |assets| == 0 then 0
    else MatchCount(assets[..|assets| - 1], root, glob) + |Matches(assets[|assets| - 1], root, glob)|
  }

  /** Nothing is dropped or added: one pair per match. */
  lemma {:induction false} ExpandAllLength(assets: seq<Asset>, root: string, outDir: string, glob: Glob)
    ensures |ExpandAll(assets, root, outDir, glob)| == MatchCount(assets, root, glob)
    decreases |assets|
  {
    if |assets| > 0 {
      ExpandAllLength(assets[..|assets| - 1], root, outDir, glob);
    }
  }

  /** Under an absolute root every pair has an absolute input and output. */
  lemma {:induction false} ExpandAllAbsolute(assets: seq<Asset>, root: string, outDir: string, glob: Glob)
    requires IsAbsolute(root)
    ensures forall k :: 0 <= k < |ExpandAll(assets, root, outDir, glob)| ==>
              IsAbsolute(ExpandAll(assets, root, outDir, glob)[k].input) &&
              IsAbsolute(ExpandAll(assets, root, outDir, glob)[k].output)
    decreases |assets|
  {
    if |assets| > 0 {
      var init := assets[..|assets| - 1];
      ExpandAllAbsolute(init, root, outDir, glob);
      EntriesOfAsset(assets[|assets| - 1], root, outDir, glob);
    }
  }

  /** Expanding two lists of assets one after the other. */
  lemma {:induction false} ExpandAllAppend(xs: seq<Asset>, ys: seq<Asset>, root: string, outDir: string, glob: Glob)
    ensures ExpandAll(xs + ys, root, outDir, glob) == ExpandAll(xs, root, outDir, glob) + ExpandAll(ys, root, outDir, glob)
    decreases |ys|
  {
    if |ys| == 0 {
      assert xs + ys == xs;
    } else {
      var ys', y := ys[..|ys| - 1], ys[|ys| - 1];
      var zs := xs + ys;
      assert zs[..|zs| - 1] == xs + ys';
      assert zs[|zs| - 1] == y;
      var a, b, e := ExpandAll(xs, root, outDir, glob), ExpandAll(ys', root, outDir, glob), Entries(y, root, outDir, glob);
      calc {
        ExpandAll(zs, root, outDir, glob);
        ExpandAll(xs + ys', root, outDir, glob) + e;
        { ExpandAllAppend(xs, ys', root, outDir, glob); }
        (a + b) + e;
        a + (b + e);
      }
    }
  }

  /** Order: the pair of match `j` of asset `i` sits right after the pairs
      of the assets before `i` and of the matches before `j`. */
  lemma ExpandAllPosition(assets: seq<Asset>, i: nat, j: nat, root: string, outDir: string, glob: Glob)
    requires i < |assets| && j < |Matches(assets[i], root, glob)|
    ensures var at := MatchCount(assets[..i], root, glob) + j;
            var all := ExpandAll(assets, root, outDir, glob);
            at < |all| && all[at] == Entry(assets[i], root, outDir, Matches(assets[i], root, glob)[j])
  {
    var before, x, after := assets[..i], assets[i], assets[i + 1..];
    assert assets == (before + [x]) + after;
    ExpandAllAppend(before + [x], after, root, outDir, glob);
    ExpandAllSnoc(before, x, root, outDir, glob);
    ExpandAllLength(before, root, outDir, glob);
    EntriesOfAsset(x, root, outDir, glob);
    IndexInPrefix(ExpandAll(before, root, outDir, glob), Entries(x, root, outDir, glob),
                  ExpandAll(after, root, outDir, glob), j);
  }

  lemma ExpandAllSnoc(xs: seq<Asset>, x: Asset, root: string, outDir: string, glob: Glob)
    ensures ExpandAll(xs + [x], root, outDir, glob) == ExpandAll(xs, root, outDir, glob) + Entries(x, root, outDir, glob)
  {
    assert (xs + [x])[..|xs|] == xs;
  }

  lemma IndexInPrefix<T>(a: seq<T>, b: seq<T>, c: seq<T>, j: nat)
    requires j < |b|
    ensures |a| + j < |a + b + c| && (a + b + c)[|a| + j] == b[j]
  {
  }

  /** A match of a glob string lands directly in the output directory,
      under its basename, while its input keeps the match's path below the
      root. */
  lemma PatternEntryFlattens(root: string, outDir: string, m: string)
    requires IsName(Basename(m)) && Basename(m) != ".."
    ensures Segments(PatternEntry(root, outDir, m).output) ==
            Segments(Join([root, outDir])) + [Basename(m)]
    ensures root != "" && ".." !in Segments(root) && !IsAbsolute(m) && ".." !in Segments(m) ==>
              Segments(PatternEntry(root, outDir, m).input) == Segments(root) + Segments(m)
  {
    SegmentsOfName(Basename(m));
    JoinUnderTwo(root, outDir, Basename(m));
    if root != "" && ".." !in Segments(root) && !IsAbsolute(m) && ".." !in Segments(m) {
      PatternInput(root, m);
    }
  }

  lemma PatternInput(root: string, m: string)
    requires root != "" && ".." !in Segments(root) && !IsAbsolute(m) && ".." !in Segments(m)
    ensures Segments(Join([root, m])) == Segments(root) + Segments(m)
  {
    assert [root] + [m] == [root, m];
    JoinAppendRelative([root], m);
    JoinOne(root);
  }

  /** A match of a descriptor keeps its sub-path below both the input and
      the output directory. */
  lemma DescriptorEntryKeepsSubPath(root: string, outDir: string, item: AssetsItem, m: string)
    requires !IsAbsolute(m) && ".." !in Segments(m)
    ensures Segments(DescriptorEntry(root, outDir, item, m).input) ==
            Segments(DescriptorRoot(root, item)) + Segments(m)
    ensures Segments(DescriptorEntry(root, outDir, item, m).output) ==
            Segments(Join([root, outDir, item.output])) + Segments(m)
  {
    JoinUnderTwo(root, item.input, m);
    JoinUnderThree(root, outDir, item.output, m);
  }

  /** A value that is not an array gives no pairs. */
  lemma NotAnArray(root: string, outDir: string, glob: Glob)
    ensures ExpandAssets(None, root, outDir, glob) == []
  {
  }

  // ---------------------------------------------------------------------
  // normalizeFileReplacements

  /** `normalizeFileReplacements`: both paths of every pair resolved
      against the root; nothing when there are no replacements. */
  function NormalizeFileReplacements(root: string, fileReplacements: Option<seq<FileReplacement>>,
                                     cwd: string): (r: seq<FileReplacement>)
    ensures fileReplacements.None? ==> r == []
    ensures fileReplacements.Some? ==> |r| == |fileReplacements.value|
    ensures fileReplacements.Some? ==>
              forall i :: 0 <= i < |r| ==>
                r[i].replace == Resolve(cwd, [root, fileReplacements.value[i].replace]) &&
                r[i].with == Resolve(cwd, [root, fileReplacements.value[i].with])
  {
    match fileReplacements
    case None => []
    case Some(frs) =>
      seq(|frs|, i requires 0 <= i < |frs| =>
            FileReplacement(Resolve(cwd, [root, frs[i].replace]), Resolve(cwd, [root, frs[i].with])))
  }

  /** A path resolved against the root is absolute once the working
      directory is, and resolving it against the root again keeps it. */
  lemma ResolvedAgainstRootIsStable(cwd: string, root: string, p: string)
    requires IsAbsolute(cwd)
    ensures IsAbsolute(Resolve(cwd, [root, p]))
    ensures Resolve(cwd, [root, Resolve(cwd, [root, p])]) == Resolve(cwd, [root, p])
  {
    var r := Resolve(cwd, [root, p]);
    ResolveShape(cwd, [root, p]);
    assert [root] + [r] == [root, r];
    ResolveFromAbsolute(cwd, [root], r);
    ResolveIdempotent(cwd, cwd, [root, p]);
  }

  /** Normalising the replacements twice is normalising them once. */
  lemma FileReplacementsIdempotent(root: string, fileReplacements: Option<seq<FileReplacement>>, cwd: string)
    requires IsAbsolute(cwd)
    ensures var once := NormalizeFileReplacements(root, fileReplacements, cwd);
            NormalizeFileReplacements(root, Some(once), cwd) == once
  {
    var once := NormalizeFileReplacements(root, fileReplacements, cwd);
    var twice := NormalizeFileReplacements(root, Some(once), cwd);
    if fileReplacements.Some? {
      forall i | 0 <= i < |once|
        ensures twice[i] == once[i]
      {
        ResolvedAgainstRootIsStable(cwd, root, fileReplacements.value[i].replace);
        ResolvedAgainstRootIsStable(cwd, root, fileReplacements.value[i].with);
      }
    }
  }

  // ---------------------------------------------------------------------
  // normalizeBuildExecutorOptions

  /** The esbuild option bag: the `bundle`/`watch` values, overridden by
      the executor's `esbuild` options, overridden by the caller's. */
  function MergeEsbuild(bundle: JsValue, watch: JsValue, fromOptions: Option<OptionBag>,
                        esbuildOptions: OptionBag): (r: OptionBag)
    ensures r.Keys == {"bundle", "watch"} + fromOptions.GetOr(map[]).Keys + esbuildOptions.Keys
    ensures forall k :: k in r ==>
              r[k] == if k in esbuildOptions then esbuildOptions[k]
                      else if k in fromOptions.GetOr(map[]) then fromOptions.GetOr(map[])[k]
                      else if k == "bundle" then bundle
                      else watch
  {
    map["bundle" := bundle, "watch" := watch] + fromOptions.GetOr(map[]) + esbuildOptions
  }

  /** The properties the normaliser sets itself. */
  const SetKeys: set<string> :=
    {"root", "sourceRoot", "projectRoot", "main", "outputPath", "tsConfig", "esbuild",
     "fileReplacements", "assets"}

  /** `normalizeBuildExecutorOptions`, with `process.cwd()` given as `cwd`
      and `glob.sync` as `glob`. */
  function NormalizeBuildExecutorOptions(options: ExecutorOptions, esbuildOptions: OptionBag,
                                         root: string, sourceRoot: string, projectRoot: string,
                                         cwd: string, glob: Glob): (r: NormalizedOptions)
    ensures r.rest.Keys == options.rest.Keys - SetKeys
    ensures forall k :: k in r.rest ==> r.rest[k] == options.rest[k]
    ensures r.root == root && r.sourceRoot == sourceRoot && r.projectRoot == projectRoot
    ensures r.main == Resolve(cwd, [root, options.main])
    ensures r.outputPath == Resolve(cwd, [root, options.outputPath])
    ensures r.tsConfig == Resolve(cwd, [root, options.tsConfig])
    ensures r.fileReplacements == NormalizeFileReplacements(root, options.fileReplacements, cwd)
  {
    NormalizedOptions(
      options.rest - SetKeys,
      root,
      sourceRoot,
      projectRoot,
      Resolve(cwd, [root, options.main]),
      Resolve(cwd, [root, options.outputPath]),
      Resolve(cwd, [root, options.tsConfig]),
      MergeEsbuild(Lookup(options.rest, "bundle"), Lookup(options.rest, "watch"), options.esbuild, esbuildOptions),
      NormalizeFileReplacements(root, options.fileReplacements, cwd),
      ExpandAssets(options.assets, root, options.outputPath, glob))
  }

  /** The entry, output and tsconfig paths are taken relative to the root:
      absolute once the working directory is, and for a relative path
      without `..` the root's segments followed by the path's. */
  lemma PathResolvedAgainstRoot(cwd: string, root: string, p: string)
    requires IsAbsolute(cwd)
    ensures IsAbsolute(Resolve(cwd, [root, p]))
    ensures !IsAbsolute(p) && ".." !in Segments(p) ==>
              Segments(Resolve(cwd, [root, p])) == Segments(Resolve(cwd, [root])) + Segments(p)
  {
    ResolveShape(cwd, [root, p]);
    if !IsAbsolute(p) && ".." !in Segments(p) {
      assert [root] + [p] == [root, p];
      ResolveAppendRelative(cwd, [root], p);
    }
  }

  /** The normalised entry, output and tsconfig paths are absolute (once
      the working directory is), are left alone by resolving them against
      the root again, and for a relative path without `..` lie below the
      root. */
  lemma NormalizedEntryPaths(options: ExecutorOptions, esbuildOptions: OptionBag,
                             root: string, sourceRoot: string, projectRoot: string,
                             cwd: string, glob: Glob)
    requires IsAbsolute(cwd)
    ensures var r := NormalizeBuildExecutorOptions(options, esbuildOptions, root, sourceRoot, projectRoot, cwd, glob);
            UnderRoot(cwd, root, options.main, r.main) &&
            UnderRoot(cwd, root, options.outputPath, r.outputPath) &&
            UnderRoot(cwd, root, options.tsConfig, r.tsConfig)
  {
    PathUnderRoot(cwd, root, options.main);
    PathUnderRoot(cwd, root, options.outputPath);
    PathUnderRoot(cwd, root, options.tsConfig);
  }

  /** What a path `p` resolved against the root as `q` satisfies. */
  ghost predicate UnderRoot(cwd: string, root: string, p: string, q: string) {
    IsAbsolute(q) &&
    Resolve(cwd, [root, q]) == q &&
    (!IsAbsolute(p) && ".." !in Segments(p) ==>
       Segments(q) == Segments(Resolve(cwd, [root])) + Segments(p))
  }

  lemma PathUnderRoot(cwd: string, root: string, p: string)
    requires IsAbsolute(cwd)
    ensures UnderRoot(cwd, root, p, Resolve(cwd, [root, p]))
  {
    PathResolvedAgainstRoot(cwd, root, p);
    ResolvedAgainstRootIsStable(cwd, root, p);
  }

  /** Both paths of every normalised file replacement are absolute (once
      the working directory is) and stay put when normalised again. */
  lemma NormalizedFileReplacementPaths(options: ExecutorOptions, esbuildOptions: OptionBag,
                                       root: string, sourceRoot: string, projectRoot: string,
                                       cwd: string, glob: Glob)
    requires IsAbsolute(cwd)
    ensures var frs := NormalizeBuildExecutorOptions(options, esbuildOptions, root, sourceRoot, projectRoot, cwd, glob).fileReplacements;
            (forall i :: 0 <= i < |frs| ==> IsAbsolute(frs[i].replace) && IsAbsolute(frs[i].with)) &&
            NormalizeFileReplacements(root, Some(frs), cwd) == frs
  {
    var frs := NormalizeFileReplacements(root, options.fileReplacements, cwd);
    forall i | 0 <= i < |frs|
      ensures IsAbsolute(frs[i].replace) && IsAbsolute(frs[i].with)
    {
      ResolvedAgainstRootIsStable(cwd, root, options.fileReplacements.value[i].replace);
      ResolvedAgainstRootIsStable(cwd, root, options.fileReplacements.value[i].with);
    }
    FileReplacementsIdempotent(root, options.fileReplacements, cwd);
  }

  /** The assets are laid out under the raw `outputPath` joined to the
      root, not under the resolved one: the working directory plays no part. */
  lemma AssetsUseRawOutputPath(options: ExecutorOptions, esbuildOptions: OptionBag,
                               root: string, sourceRoot: string, projectRoot: string,
                               cwd: string, cwd': string, glob: Glob)
    ensures NormalizeBuildExecutorOptions(options, esbuildOptions, root, sourceRoot, projectRoot, cwd, glob).assets ==
            NormalizeBuildExecutorOptions(options, esbuildOptions, root, sourceRoot, projectRoot, cwd', glob).assets ==
            ExpandAssets(options.assets, root, options.outputPath, glob)
  {
  }

  /** Under an absolute workspace root every asset pair the normaliser
      returns has an absolute input and output. */
  lemma NormalizedAssetPaths(options: ExecutorOptions, esbuildOptions: OptionBag,
                             root: string, sourceRoot: string, projectRoot: string,
                             cwd: string, glob: Glob)
    requires IsAbsolute(root)
    ensures var a := NormalizeBuildExecutorOptions(options, esbuildOptions, root, sourceRoot, projectRoot, cwd, glob).assets;
            forall k :: 0 <= k < |a| ==> IsAbsolute(a[k].input) && IsAbsolute(a[k].output)
  {
    if options.assets.Some? {
      ExpandAllAbsolute(options.assets.value, root, options.outputPath, glob);
    }
  }

  /** The esbuild precedence, highest first: the caller's options, the
      executor's `esbuild` options, then the `bundle`/`watch` values. */
  lemma EsbuildPrecedence(options: ExecutorOptions, esbuildOptions: OptionBag,
                          root: string, sourceRoot: string, projectRoot: string,
                          cwd: string, glob: Glob, k: string)
    ensures var e := NormalizeBuildExecutorOptions(options, esbuildOptions, root, sourceRoot, projectRoot, cwd, glob).esbuild;
            (k in esbuildOptions ==> k in e && e[k] == esbuildOptions[k]) &&
            (k !in esbuildOptions && options.esbuild.Some? && k in options.esbuild.value ==>
               k in e && e[k] == options.esbuild.value[k]) &&
            (k !in esbuildOptions && (options.esbuild.None? || k !in options.esbuild.value) ==>
               (k in e <==> k == "bundle" || k == "watch") &&
               (k == "bundle" ==> e[k] == Lookup(options.rest, "bundle")) &&
               (k == "watch" ==> e[k] == Lookup(options.rest, "watch")))
  {
  }
}
