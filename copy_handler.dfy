/** The copy step of the esbuild copy plugin: `resolvePaths` turns one
    "from" rule and one glob-matched file into `[src, dest]` pairs, and
    `copyOperationHandler` applies those pairs to a file system. The file
    system is a map from paths to bytes plus a set of directories. */
module CopyHandler {
  import opened Wrappers
  import opened JsString
  import opened PosixPath

  type Bytes = seq<bv8>

  /** One `[src, dest]` pair. */
  datatype Pair = Pair(src: string, dest: string)

  /** `undefined.slice(1)` throws: `split(anchor)[1]` of the match is
      undefined, so there is no preserved sub-path. For a non-empty anchor
      that is a match without the anchor; for the empty anchor (a pattern
      without a directory) it is a match shorter than two characters. */
  datatype ResolveError = UndefinedTail(rawFrom: string)

  // ---------------------------------------------------------------------
  // resolvePaths

  /** `path.parse(rawFrom).dir` with its first slash-star-star marker
      removed. */
  function Anchor(rawFrom: string): string {
    ReplaceFirst(ParseDir(rawFrom), "/**", "")
  }

  /** The shape the plugin supports (a directory ending in a slash and
      `**`); any other shape only produces a log line. */
  predicate HasSupportedShape(rawFrom: string) {
    EndsWith(ParseDir(rawFrom), "/**")
  }

  /** A `to` value without an extension names a directory. */
  predicate IsDirectoryTarget(baseTo: string) {
    Extname(baseTo) == ""
  }

  /** Whether `split(anchor)[1]` of the match is defined. */
  ghost predicate TailDefined(globbed: string, anchor: string) {
    if anchor == "" then |globbed| >= 2 else Contains(globbed, anchor)
  }

  /** The pair for one "from" pattern. The source is always the resolved
      match; the destination is the `to` value itself for an exact file,
      or the `to` directory extended by what follows the anchor. */
  function ResolvePair(outDir: string, rawFrom: string, globbed: string, baseTo: string,
                       cwd: string): (r: Result<Pair, ResolveError>)
    ensures r.Success? ==> r.value.src == Resolve(cwd, [globbed])
    ensures !IsDirectoryTarget(baseTo) ==>
              r == Success(Pair(Resolve(cwd, [globbed]), Resolve(cwd, [outDir, baseTo])))
    ensures r.Failure? <==> IsDirectoryTarget(baseTo) && !TailDefined(globbed, Anchor(rawFrom))
    ensures r.Failure? ==> r.error == UndefinedTail(rawFrom)
  {
    SplitSecondSpec(globbed, Anchor(rawFrom));
    var tail := SplitSecond(globbed, Anchor(rawFrom));
    var src := Resolve(cwd, [globbed]);
    if Extname(baseTo) == "" then
      match tail
      case None => Failure(UndefinedTail(rawFrom))
      case Some(t) => Success(Pair(src, Resolve(cwd, [outDir, baseTo, SliceFrom(t, 1)])))
    else
      Success(Pair(src, Resolve(cwd, [outDir, baseTo])))
  }

  /** The outcome of an `Array.map` whose callback may throw: every value
      when none throws, otherwise the first error. */
  function Collect<T(==), E(==)>(rs: seq<Result<T, E>>): (r: Result<seq<T>, E>)
    decreases |rs|
    ensures r.Success? ==>
              |r.value| == |rs| && forall i :: 0 <= i < |rs| ==> rs[i] == Success(r.value[i])
    ensures r.Failure? ==>
              exists i :: 0 <= i < |rs| && rs[i] == Failure(r.error) &&
                          forall j :: 0 <= j < i ==> rs[j].Success?
  {
    if |rs| == 0 then Success([])
    else
      match rs[0]
      case Failure(e) => Failure(e)
      case Success(p) =>
        match Collect(rs[1..])
        case Failure(e) =>
          var i' :| 0 <= i' < |rs[1..]| && rs[1..][i'] == Failure(e) &&
                    forall j :: 0 <= j < i' ==> rs[1..][j].Success?;
          assert rs[i' + 1] == Failure(e);
          assert forall j :: 0 < j <= i' ==> rs[j] == rs[1..][j - 1];
          Failure(e)
        case Success(ps) => Success([p] + ps)
  }

  /** `resolvePaths`: one pair per "from" pattern, in order; the first
      pattern whose tail is undefined makes the whole call throw. */
  function ResolvePaths(outDir: string, rawFromPath: seq<string>, globbed: string, baseTo: string,
                        cwd: string): (r: Result<seq<Pair>, ResolveError>)
    ensures r.Success? ==>
              |r.value| == |rawFromPath| &&
              forall i :: 0 <= i < |rawFromPath| ==>
                ResolvePair(outDir, rawFromPath[i], globbed, baseTo, cwd) == Success(r.value[i])
    ensures r.Failure? ==>
              exists i :: 0 <= i < |rawFromPath| &&
                ResolvePair(outDir, rawFromPath[i], globbed, baseTo, cwd) == Failure(r.error) &&
                forall j :: 0 <= j < i ==> ResolvePair(outDir, rawFromPath[j], globbed, baseTo, cwd).Success?
  {
    Collect(PairResults(outDir, rawFromPath, globbed, baseTo, cwd))
  }

  /** The pattern-by-pattern results of `resolvePaths`, before any throw.
      A helper for the solver: its ensures only restate the comprehension,
      which is kept out of `ResolvePaths` so that the latter's
      well-formedness check stays small. */
  function PairResults(outDir: string, rawFromPath: seq<string>, globbed: string, baseTo: string,
                       cwd: string): (rs: seq<Result<Pair, ResolveError>>)
    ensures |rs| == |rawFromPath|
    ensures forall i :: 0 <= i < |rs| ==> rs[i] == ResolvePair(outDir, rawFromPath[i], globbed, baseTo, cwd)
  {
    seq(|rawFromPath|, i requires 0 <= i < |rawFromPath| =>
          ResolvePair(outDir, rawFromPath[i], globbed, baseTo, cwd))
  }

  /** All pairs of one call share their source: the resolved match. */
  lemma ResolvePathsSameSource(outDir: string, rawFromPath: seq<string>, globbed: string,
                               baseTo: string, cwd: string)
    requires ResolvePaths(outDir, rawFromPath, globbed, baseTo, cwd).Success?
    ensures var ps := ResolvePaths(outDir, rawFromPath, globbed, baseTo, cwd).value;
            forall i :: 0 <= i < |ps| ==> ps[i].src == Resolve(cwd, [globbed])
  {
  }

  /** In exact-file mode the call never throws and every pair goes to the
      resolved `to` path, whatever the match. */
  lemma ExactFileMode(outDir: string, rawFromPath: seq<string>, globbed: string,
                      baseTo: string, cwd: string)
    requires !IsDirectoryTarget(baseTo)
    ensures var r := ResolvePaths(outDir, rawFromPath, globbed, baseTo, cwd);
            r.Success? && forall i :: 0 <= i < |r.value| ==> r.value[i].dest == Resolve(cwd, [outDir, baseTo])
  {
  }

  /** In directory mode the call throws exactly when some pattern's anchor
      leaves the tail undefined. */
  lemma DirectoryModeFailure(outDir: string, rawFromPath: seq<string>, globbed: string,
                             baseTo: string, cwd: string)
    requires IsDirectoryTarget(baseTo)
    ensures ResolvePaths(outDir, rawFromPath, globbed, baseTo, cwd).Failure? <==>
            exists i :: 0 <= i < |rawFromPath| && !TailDefined(globbed, Anchor(rawFromPath[i]))
  {
    var r := ResolvePaths(outDir, rawFromPath, globbed, baseTo, cwd);
    if r.Success? {
      forall i | 0 <= i < |rawFromPath|
        ensures TailDefined(globbed, Anchor(rawFromPath[i]))
      {
        assert ResolvePair(outDir, rawFromPath[i], globbed, baseTo, cwd).Success?;
      }
    }
  }

  lemma ResolvePairDirectory(outDir: string, rawFrom: string, globbed: string, baseTo: string,
                             cwd: string, t: string)
    requires IsDirectoryTarget(baseTo) && SplitSecond(globbed, Anchor(rawFrom)) == Some(t)
    ensures ResolvePair(outDir, rawFrom, globbed, baseTo, cwd) ==
            Success(Pair(Resolve(cwd, [globbed]), Resolve(cwd, [outDir, baseTo, SliceFrom(t, 1)])))
  {
  }

  /** In directory mode the destination is the resolved `to` directory
      extended by the segments of the tail without its first character,
      when that rest is relative and has no `..`. */
  lemma DirectoryModeDestination(outDir: string, rawFrom: string, globbed: string, baseTo: string,
                                 cwd: string, t: string)
    requires IsDirectoryTarget(baseTo) && SplitSecond(globbed, Anchor(rawFrom)) == Some(t)
    requires !IsAbsolute(SliceFrom(t, 1)) && ".." !in Segments(SliceFrom(t, 1))
    ensures var r := ResolvePair(outDir, rawFrom, globbed, baseTo, cwd);
            var base := Resolve(cwd, [outDir, baseTo]);
            r.Success? &&
            IsAbsolute(r.value.dest) == IsAbsolute(base) &&
            Segments(r.value.dest) == Segments(base) + Segments(SliceFrom(t, 1))
  {
    ResolvePairDirectory(outDir, rawFrom, globbed, baseTo, cwd, t);
    ResolveUnderBase(cwd, outDir, baseTo, SliceFrom(t, 1));
  }

  /** A pattern without a directory, such as `*.js`, has the empty anchor,
      and `split("")[1]` is the match's second character: the tail left
      after `slice(1)` is empty. So in directory mode every match of at
      least two characters goes to the `to` directory itself, and only a
      shorter one throws. */
  lemma AnchorWithoutDirectory(outDir: string, rawFrom: string, globbed: string, baseTo: string,
                               cwd: string)
    requires rawFrom != "" && '/' !in rawFrom
    ensures Anchor(rawFrom) == ""
    ensures |globbed| >= 2 ==>
              ResolvePair(outDir, rawFrom, globbed, baseTo, cwd) ==
              Success(Pair(Resolve(cwd, [globbed]), Resolve(cwd, [outDir, baseTo])))
    ensures |globbed| < 2 ==>
              (ResolvePair(outDir, rawFrom, globbed, baseTo, cwd).Failure? <==> IsDirectoryTarget(baseTo))
  {
    EmptyAnchor(rawFrom);
    if |globbed| >= 2 && IsDirectoryTarget(baseTo) {
      var t := SecondCharacter(globbed, Anchor(rawFrom));
      EmptyTail(outDir, rawFrom, globbed, baseTo, cwd, t);
    } else if |globbed| < 2 {
      ShortMatchNoTail(globbed, Anchor(rawFrom));
    }
  }

  lemma EmptyTail(outDir: string, rawFrom: string, globbed: string, baseTo: string, cwd: string, t: string)
    requires IsDirectoryTarget(baseTo) && SplitSecond(globbed, Anchor(rawFrom)) == Some(t) && SliceFrom(t, 1) == ""
    ensures ResolvePair(outDir, rawFrom, globbed, baseTo, cwd) ==
            Success(Pair(Resolve(cwd, [globbed]), Resolve(cwd, [outDir, baseTo])))
  {
    ResolvePairDirectory(outDir, rawFrom, globbed, baseTo, cwd, t);
    ResolveDropsEmptyThird(cwd, outDir, baseTo, SliceFrom(t, 1));
  }

  lemma ShortMatchNoTail(globbed: string, anchor: string)
    requires anchor == "" && |globbed| < 2
    ensures !TailDefined(globbed, anchor)
  {
  }

  lemma EmptyAnchor(rawFrom: string)
    requires rawFrom != "" && '/' !in rawFrom
    ensures Anchor(rawFrom) == ""
  {
    BareName(rawFrom);
    ReplaceFirstSpec("", "/**", "");
  }

  lemma SecondCharacter(globbed: string, anchor: string) returns (t: string)
    requires anchor == "" && |globbed| >= 2
    ensures SplitSecond(globbed, anchor) == Some(t) && SliceFrom(t, 1) == ""
  {
    SplitSecondSpec(globbed, anchor);
    t := [globbed[1]];
  }

  /** `s[0..]` starting with `sub` at `i` and nowhere before is found at `i`. */
  lemma FirstOccurrence(s: string, sub: string, i: nat)
    requires OccursAt(s, sub, i)
    requires forall k: nat :: k < i ==> !OccursAt(s, sub, k)
    ensures IndexFrom(s, sub, 0) == Some(i)
  {
    IndexFromSpec(s, sub, 0);
  }

  /** No marker starts inside `a` in `a` followed by the marker, when `a`
      has none of its own. */
  lemma NoEarlyMarker(a: string, k: nat)
    requires !Contains(a, "/**") && k < |a|
    ensures !OccursAt(a + "/**", "/**", k)
  {
    var d := a + "/**";
    if k + 3 <= |a| {
      assert d[k..k + 3] == a[k..k + 3];
      assert !OccursAt(a, "/**", k);
    } else {
      assert d[k..k + 3][|a| - k] == d[|a|] == '/';
      assert "/**"[|a| - k] == '*';
    }
  }

  /** The marker occurs in `a` followed by the marker first at the end,
      when `a` has none of its own. */
  lemma MarkerOnlyAtEnd(a: string)
    requires !Contains(a, "/**")
    ensures IndexFrom(a + "/**", "/**", 0) == Some(|a|)
  {
    NoMarkerBefore(a);
    MarkerAtEnd(a);
    FirstOccurrence(a + "/**", "/**", |a|);
  }

  lemma NoMarkerBefore(a: string)
    requires !Contains(a, "/**")
    ensures forall k: nat :: k < |a| ==> !OccursAt(a + "/**", "/**", k)
  {
    forall k: nat | k < |a|
      ensures !OccursAt(a + "/**", "/**", k)
    {
      NoEarlyMarker(a, k);
    }
  }

  lemma MarkerAtEnd(a: string)
    ensures OccursAt(a + "/**", "/**", |a|)
  {
    var d := a + "/**";
    assert d[|a|..|a| + 3] == "/**";
  }

  /** For the documented pattern shape: a directory `A`, then a slash and
      `**`, then a slash and a file pattern `F`. Its directory is `A`
      followed by the marker, the shape is supported and the anchor is `A`. */
  lemma AnchorOfDocumentedShape(a: string, f: string)
    requires f != "" && '/' !in f && !Contains(a, "/**")
    ensures ParseDir(a + "/**/" + f) == a + "/**"
    ensures HasSupportedShape(a + "/**/" + f)
    ensures Anchor(a + "/**/" + f) == a
  {
    DirOfDocumentedShape(a, f);
    MarkerAtEnd(a);
    MarkerOnlyAtEnd(a);
    MarkerRemoved(a);
  }

  lemma DirOfDocumentedShape(a: string, f: string)
    requires f != "" && '/' !in f
    ensures ParseDir(a + "/**/" + f) == a + "/**"
  {
    var d := a + "/**";
    assert a + "/**/" + f == d + "/" + f;
    ParseDirOfChild(d, f);
  }

  lemma MarkerRemoved(a: string)
    requires IndexFrom(a + "/**", "/**", 0) == Some(|a|)
    ensures ReplaceFirst(a + "/**", "/**", "") == a
  {
    RemoveTrailingOccurrence(a, "/**");
  }

  lemma RemoveTrailingOccurrence(a: string, m: string)
    requires IndexFrom(a + m, m, 0) == Some(|a|)
    ensures ReplaceFirst(a + m, m, "") == a
  {
    var d := a + m;
    ReplaceAt(d, m, "", |a|);
    assert d[..|a|] == a;
    assert d[|a| + |m|..] == "";
  }

  /** Searching a match that starts with the anchor, from the end of the
      anchor, finds nothing when the rest has no anchor. */
  lemma NoAnchorAfter(a: string, rest: string)
    requires !Contains(rest, a)
    ensures IndexFrom(a + rest, a, |a|).None?
  {
    var s := a + rest;
    assert s[|a|..] == rest;
    IndexFromShift(s, a, |a|, 0);
    IndexOfNoneIffAbsent(rest, a);
  }

  /** A match that starts with the anchor keeps everything after it as its
      tail, provided the anchor does not occur again there. */
  lemma TailOfAnchoredMatch(a: string, rest: string)
    requires a != "" && !Contains(rest, a)
    ensures SplitSecond(a + rest, a) == Some(rest)
  {
    var s := a + rest;
    assert s[0..|a|] == a;
    assert IndexFrom(s, a, 0) == Some(0);
    NoAnchorAfter(a, rest);
    var p, t := SplitSecondBetweenOccurrences(s, a, 0);
    assert p + |t| == |s|;
    assert s[p..p + |t|] == s[|a|..] == rest;
  }

  /** The tail of a match `A/sub` of the documented pattern shape is `/sub`. */
  lemma DocumentedTail(rawFrom: string, globbed: string, a: string, f: string, sub: string)
    requires rawFrom == a + "/**/" + f && globbed == a + "/" + sub
    requires f != "" && '/' !in f && a != "" && !Contains(a, "/**") && !Contains("/" + sub, a)
    ensures SplitSecond(globbed, Anchor(rawFrom)) == Some("/" + sub)
  {
    AnchorIs(rawFrom, a, f);
    TailGivenAnchor(globbed, Anchor(rawFrom), a, "/" + sub);
  }

  // Helpers for the solver, not properties of the source: the next two
  // lemmas restate the shape lemmas for a pattern and a match given as
  // variables equal to the concatenations, so that callers never put the
  // concatenations themselves into the terms the solver unfolds.

  lemma AnchorIs(rawFrom: string, a: string, f: string)
    requires rawFrom == a + "/**/" + f && f != "" && '/' !in f && !Contains(a, "/**")
    ensures Anchor(rawFrom) == a
  {
    AnchorOfDocumentedShape(a, f);
  }

  lemma TailGivenAnchor(globbed: string, anchor: string, a: string, rest: string)
    requires anchor == a && globbed == a + rest && a != "" && !Contains(rest, a)
    ensures SplitSecond(globbed, anchor) == Some(rest)
  {
    TailOfAnchoredMatch(a, rest);
  }

  /** The documented layout end to end: the pattern of the lemma above
      and a match `A/sub`; in directory mode the destination is the `to` directory extended by
      the segments of `sub`. */
  lemma DocumentedLayout(outDir: string, rawFrom: string, globbed: string, baseTo: string, cwd: string,
                         a: string, f: string, sub: string)
    requires rawFrom == a + "/**/" + f && globbed == a + "/" + sub
    requires f != "" && '/' !in f && a != "" && !Contains(a, "/**")
    requires !Contains("/" + sub, a) && !IsAbsolute(sub) && ".." !in Segments(sub)
    requires IsDirectoryTarget(baseTo)
    ensures var r := ResolvePair(outDir, rawFrom, globbed, baseTo, cwd);
            var base := Resolve(cwd, [outDir, baseTo]);
            r.Success? &&
            IsAbsolute(r.value.dest) == IsAbsolute(base) &&
            Segments(r.value.dest) == Segments(base) + Segments(sub)
  {
    var tail := "/" + sub;
    DocumentedTail(rawFrom, globbed, a, f, sub);
    assert SliceFrom(tail, 1) == sub;
    DirectoryModeDestination(outDir, rawFrom, globbed, baseTo, cwd, tail);
  }

  /** The example written beside the anchor computation: the pattern
      directory `./assets` plus the slash-star-star marker gives the anchor
      `./assets`. The pattern comes in as a parameter equal to the literal,
      which keeps the solver from evaluating `Anchor` on the literal. */
  lemma AnchorExample(rawFrom: string)
    requires rawFrom == "./assets/**/*"
    ensures Anchor(rawFrom) == "./assets"
  {
    var a, f := "./assets", "*";
    MissingCharExample(a, "/**", 1);
    assert rawFrom == a + "/**/" + f;
    AnchorIs(rawFrom, a, f);
  }

  /** The examples written beside the tail computation: with the anchor
      `/PATH/TO/assets`, a match directly in the anchor keeps `/foo.js`
      and a nested one keeps `/nest/foo.js`. */
  lemma TailExamples()
    ensures SplitSecond("/PATH/TO/assets/foo.js", "/PATH/TO/assets") == Some("/foo.js")
    ensures SplitSecond("/PATH/TO/assets/nest/foo.js", "/PATH/TO/assets") == Some("/nest/foo.js")
  {
    AbsentExample("/foo.js", "/PATH/TO/assets");
    TailOfAnchoredMatch("/PATH/TO/assets", "/foo.js");
    AbsentExample("/nest/foo.js", "/PATH/TO/assets");
    TailOfAnchoredMatch("/PATH/TO/assets", "/nest/foo.js");
  }

  /** A worked layout: the pattern made of `/a/b`, the
      slash-star-star marker and a slash with `*.js`, the match
      `/a/b/c/d.js`, the `to` value `dist` and the output directory `/out`
      give the destination `/out/dist/c/d.js`, whatever the working
      directory. */
  lemma LayoutExample(outDir: string, rawFrom: string, globbed: string, baseTo: string, cwd: string)
    requires outDir == "/out" && baseTo == "dist"
    requires rawFrom == "/a/b/**/*.js" && globbed == "/a/b/c/d.js"
    ensures ResolvePair(outDir, rawFrom, globbed, baseTo, cwd).Success?
    ensures ResolvePair(outDir, rawFrom, globbed, baseTo, cwd).value.dest == "/out/dist/c/d.js"
  {
    var a, f, sub := "/a/b", "*.js", "c/d.js";
    assert rawFrom == a + "/**/" + f;
    assert globbed == a + "/" + sub;
    assert sub == "c" + "/" + "d.js";
    MissingCharExample(a, "/**", 1);
    MissingCharExample("/" + sub, a, 1);
    DistIsDirectory(baseTo);
    NamedLayout(outDir, rawFrom, globbed, baseTo, cwd, a, f, sub, "out", "c", "d.js");
    ExampleDestination(["out", baseTo, "c", "d.js"]);
  }

  lemma ExampleDestination(segs: seq<string>)
    requires segs == ["out", "dist", "c", "d.js"]
    ensures "/" + JoinWith(segs, "/") == "/out/dist/c/d.js"
  {
    JoinFour(segs[0], segs[1], segs[2], segs[3]);
  }

  /** The documented layout with every piece a plain name: the pattern
      `A` plus marker plus `/F`, the match `A/x/y`, the output directory
      `/n` and a `to` directory name give `/n/to/x/y`, written as the
      segments joined with slashes. */
  lemma NamedLayout(outDir: string, rawFrom: string, globbed: string, baseTo: string, cwd: string,
                    a: string, f: string, sub: string, n: string, x: string, y: string)
    requires rawFrom == a + "/**/" + f && globbed == a + "/" + sub && sub == x + "/" + y
    requires f != "" && '/' !in f && a != "" && !Contains(a, "/**") && !Contains("/" + sub, a)
    requires outDir == "/" + n && IsName(n) && n != ".."
    requires IsName(baseTo) && baseTo != ".." && IsDirectoryTarget(baseTo)
    requires IsName(x) && x != ".." && IsName(y) && y != ".."
    ensures ResolvePair(outDir, rawFrom, globbed, baseTo, cwd).Success?
    ensures ResolvePair(outDir, rawFrom, globbed, baseTo, cwd).value.dest ==
            "/" + JoinWith([n, baseTo, x, y], "/")
  {
    TwoNames(sub, x, y);
    NameUnderRootThenName(cwd, outDir, n, baseTo);
    FourSegments(n, baseTo, x, y);
    DocumentedDestination(outDir, rawFrom, globbed, baseTo, cwd, a, f, sub, [n, baseTo, x, y]);
  }

  /** A helper for the solver: the sequence identity `LayoutExample` needs,
      kept apart so that it is proved on its own. */
  lemma FourSegments(w: string, x: string, y: string, z: string)
    ensures [w, x] + [y, z] == [w, x, y, z]
  {
  }

  /** The destination of the documented layout as a string: the rendering
      of the base segments followed by the segments of `sub`. */
  lemma DocumentedDestination(outDir: string, rawFrom: string, globbed: string, baseTo: string, cwd: string,
                              a: string, f: string, sub: string, segs: seq<string>)
    requires rawFrom == a + "/**/" + f && globbed == a + "/" + sub
    requires f != "" && '/' !in f && a != "" && !Contains(a, "/**")
    requires !Contains("/" + sub, a) && !IsAbsolute(sub) && ".." !in Segments(sub)
    requires IsDirectoryTarget(baseTo) && IsAbsolute(Resolve(cwd, [outDir, baseTo]))
    requires segs == Segments(Resolve(cwd, [outDir, baseTo])) + Segments(sub)
    ensures ResolvePair(outDir, rawFrom, globbed, baseTo, cwd).Success?
    ensures ResolvePair(outDir, rawFrom, globbed, baseTo, cwd).value.dest == "/" + JoinWith(segs, "/")
  {
    DocumentedTail(rawFrom, globbed, a, f, sub);
    assert SliceFrom("/" + sub, 1) == sub;
    ResolvePairDirectory(outDir, rawFrom, globbed, baseTo, cwd, "/" + sub);
    ResolveUnderBase(cwd, outDir, baseTo, sub);
    ResolveCanonical(cwd, [outDir, baseTo, sub]);
  }

  lemma TwoNames(sub: string, x: string, y: string)
    requires sub == x + "/" + y && IsName(x) && x != ".." && IsName(y) && y != ".."
    ensures Segments(sub) == [x, y] && !IsAbsolute(sub) && ".." !in Segments(sub)
  {
    SegmentsConcat(x, y);
    SegmentsOfName(x);
    SegmentsOfName(y);
  }

  lemma DistIsDirectory(baseTo: string)
    requires baseTo == "dist"
    ensures IsDirectoryTarget(baseTo) && IsName(baseTo) && baseTo != ".."
  {
    BareName(baseTo);
    assert '.' !in baseTo;
  }

  /** `resolve("/n", m)` for two plain names is absolute with the segments
      `n`, `m`. */
  lemma NameUnderRootThenName(cwd: string, outDir: string, n: string, m: string)
    requires outDir == "/" + n && IsName(n) && n != ".." && IsName(m) && m != ".."
    ensures IsAbsolute(Resolve(cwd, [outDir, m]))
    ensures Segments(Resolve(cwd, [outDir, m])) == [n, m]
  {
    ResolveRootName(cwd, outDir, n);
    SegmentsOfName(m);
    assert [outDir] + [m] == [outDir, m];
    ResolveAppendRelative(cwd, [outDir], m);
  }

  /** Helpers for the solver, not properties of the source: two ways a
      string can lack a substring, used by the examples and layouts above. */
  lemma MissingCharExample(s: string, sub: string, j: nat)
    requires j < |sub| && sub[j] !in s
    ensures !Contains(s, sub)
  {
  }

  lemma AbsentExample(s: string, sub: string)
    requires |s| < |sub|
    ensures !Contains(s, sub)
  {
  }

  // ---------------------------------------------------------------------
  // File system

  /** A directory and the ancestors `ensureDir` creates with it, found by
      following `dirname` while it gets shorter. For a relative path the
      chain can end in `.`, the working directory: `ab` reaches `.`, while
      `a`, whose `dirname` `.` is no shorter, stops at itself. */
  function DirChain(d: string): (r: set<string>)
    decreases |d|
    ensures d in r
  {
    var parent := Dirname(d);
    if |parent| < |d| then {d} + DirChain(parent) else {d}
  }

  /** The chain is closed under taking parents. */
  lemma {:induction false} DirChainClosed(d: string, x: string)
    requires x in DirChain(d) && |Dirname(x)| < |x|
    ensures Dirname(x) in DirChain(d)
    decreases |d|
  {
    if x != d {
      DirChainClosed(Dirname(d), x);
    }
  }

  /** The files and directories of a file system. */
  datatype FsState = FsState(files: map<string, Bytes>, dirs: set<string>)

  class FileSystem {
    var files: map<string, Bytes>
    var dirs: set<string>

    constructor (files0: map<string, Bytes>, dirs0: set<string>)
      ensures files == files0 && dirs == dirs0
    {
      files := files0;
      dirs := dirs0;
    }

    function State(): FsState
      reads this
    {
      FsState(files, dirs)
    }

    /** `fs.ensureDir(d)`: `d` and its ancestors exist afterwards. */
    method EnsureDir(d: string)
      modifies this
      ensures files == old(files)
      ensures dirs == old(dirs) + DirChain(d)
    {
      dirs := dirs + DirChain(d);
    }

    /** `fs.readFile(p)`; `None` when there is no such file. */
    method ReadFile(p: string) returns (r: Option<Bytes>)
      ensures r.Some? <==> p in files
      ensures r.Some? ==> r.value == files[p]
    {
      if p in files {
        r := Some(files[p]);
      } else {
        r := None;
      }
    }

    /** `fs.writeFile(p, content)`. */
    method WriteFile(p: string, content: Bytes)
      modifies this
      ensures files == old(files)[p := content]
      ensures dirs == old(dirs)
    {
      files := files[p := content];
    }

    /** `fs.copyFile(src, dest)`; `false` when there is no source file. */
    method CopyFile(src: string, dest: string) returns (ok: bool)
      modifies this
      ensures ok <==> src in old(files)
      ensures files == if ok then old(files)[dest := old(files)[src]] else old(files)
      ensures dirs == old(dirs)
    {
      if src in files {
        files := files[dest := files[src]];
        ok := true;
      } else {
        ok := false;
      }
    }
  }

  // ---------------------------------------------------------------------
  // copyOperationHandler

  /** What ends up in `dest`: the transformed or the plain source bytes. */
  function Content(transform: Option<(string, Bytes) -> Bytes>, src: string, bytes: Bytes): Bytes {
    match transform
    case None => bytes
    case Some(f) => f(src, bytes)
  }

  /** The effect of one pair, and the missing source it reports, if any. */
  function CopyStep(s: FsState, p: Pair, dryRun: bool,
                    transform: Option<(string, Bytes) -> Bytes>): (FsState, Option<string>)
  {
    if dryRun then (s, None)
    else
      var dirs := s.dirs + DirChain(Dirname(p.dest));
      if p.src in s.files then
        (FsState(s.files[p.dest := Content(transform, p.src, s.files[p.src])], dirs), None)
      else
        (FsState(s.files, dirs), Some(p.src))
  }

  /** The pairs handled one after the other; the first error is kept. */
  function CopyAll(s: FsState, pairs: seq<Pair>, dryRun: bool,
                   transform: Option<(string, Bytes) -> Bytes>): (FsState, Option<string>)
    decreases |pairs|
  {
    if |pairs| == 0 then (s, None)
    else
      var (s', e) := CopyAll(s, pairs[..|pairs| - 1], dryRun, transform);
      var (s'', e') := CopyStep(s', pairs[|pairs| - 1], dryRun, transform);
      (s'', if e.Some? then e else e')
  }

  /** Handling one more pair is one more step. */
  lemma CopyAllSnoc(s: FsState, pairs: seq<Pair>, i: nat, dryRun: bool,
                    transform: Option<(string, Bytes) -> Bytes>)
    requires i < |pairs|
    ensures var (s', e) := CopyAll(s, pairs[..i], dryRun, transform);
            var (s'', e') := CopyStep(s', pairs[i], dryRun, transform);
            CopyAll(s, pairs[..i + 1], dryRun, transform) == (s'', if e.Some? then e else e')
  {
    assert pairs[..i + 1][..i] == pairs[..i];
  }

  /** The destinations of some pairs. */
  function Dests(pairs: seq<Pair>): set<string> {
    set i | 0 <= i < |pairs| :: pairs[i].dest
  }

  lemma DestsPrefix(pairs: seq<Pair>)
    requires |pairs| > 0
    ensures Dests(pairs) == Dests(pairs[..|pairs| - 1]) + {pairs[|pairs| - 1].dest}
  {
    var init := pairs[..|pairs| - 1];
    forall x | x in Dests(pairs)
      ensures x in Dests(init) + {pairs[|pairs| - 1].dest}
    {
      var i :| 0 <= i < |pairs| && pairs[i].dest == x;
      if i < |pairs| - 1 {
        assert init[i] == pairs[i];
      }
    }
    forall x | x in Dests(init)
      ensures x in Dests(pairs)
    {
      var i :| 0 <= i < |init| && init[i].dest == x;
      assert pairs[i] == init[i];
    }
  }

  /** A dry run changes nothing and reports nothing. */
  lemma {:induction false} CopyAllDryRun(s: FsState, pairs: seq<Pair>,
                                         transform: Option<(string, Bytes) -> Bytes>)
    ensures CopyAll(s, pairs, true, transform) == (s, None)
    decreases |pairs|
  {
    if |pairs| > 0 {
      CopyAllDryRun(s, pairs[..|pairs| - 1], transform);
    }
  }

  /** Only destinations are written, and directories are only added. */
  lemma {:induction false} CopyAllFrame(s: FsState, pairs: seq<Pair>, dryRun: bool,
                                        transform: Option<(string, Bytes) -> Bytes>)
    ensures var s' := CopyAll(s, pairs, dryRun, transform).0;
            s.dirs <= s'.dirs &&
            s.files.Keys <= s'.files.Keys &&
            s'.files.Keys <= s.files.Keys + Dests(pairs) &&
            forall k :: k in s.files && k !in Dests(pairs) ==> s'.files[k] == s.files[k]
    decreases |pairs|
  {
    if |pairs| > 0 {
      CopyAllFrame(s, pairs[..|pairs| - 1], dryRun, transform);
      DestsPrefix(pairs);
    }
  }

  /** After a real run the parent directory chain of every destination exists. */
  lemma {:induction false} CopyAllParents(s: FsState, pairs: seq<Pair>,
                                          transform: Option<(string, Bytes) -> Bytes>)
    ensures var s' := CopyAll(s, pairs, false, transform).0;
            forall i :: 0 <= i < |pairs| ==> DirChain(Dirname(pairs[i].dest)) <= s'.dirs
    decreases |pairs|
  {
    if |pairs| > 0 {
      var init := pairs[..|pairs| - 1];
      var mid := CopyAll(s, init, false, transform).0;
      var last := pairs[|pairs| - 1];
      CopyAllParents(s, init, transform);
      CopyAllLastDirs(s, pairs, transform);
      forall i | 0 <= i < |pairs|
        ensures DirChain(Dirname(pairs[i].dest)) <= CopyAll(s, pairs, false, transform).0.dirs
      {
        if i < |pairs| - 1 {
          assert pairs[i] == init[i];
        }
      }
    }
  }

  /** A real run adds the parent chain of the last destination to the
      directories of the run before it. */
  lemma CopyAllLastDirs(s: FsState, pairs: seq<Pair>, transform: Option<(string, Bytes) -> Bytes>)
    requires |pairs| > 0
    ensures CopyAll(s, pairs, false, transform).0.dirs ==
            CopyAll(s, pairs[..|pairs| - 1], false, transform).0.dirs + DirChain(Dirname(pairs[|pairs| - 1].dest))
  {
  }

  /** All pairs read the same source. */
  predicate SameSource(pairs: seq<Pair>, src: string) {
    forall i :: 0 <= i < |pairs| ==> pairs[i].src == src
  }

  lemma SameSourcePrefix(pairs: seq<Pair>, src: string)
    requires |pairs| > 0 && SameSource(pairs, src)
    ensures SameSource(pairs[..|pairs| - 1], src)
  {
    var init := pairs[..|pairs| - 1];
    forall i | 0 <= i < |init| ensures init[i].src == src {
      assert init[i] == pairs[i];
    }
  }

  /** With one existing source that no pair overwrites, every destination
      holds its (transformed) bytes and nothing is reported. */
  lemma {:induction false} CopyAllPresentSource(s: FsState, pairs: seq<Pair>, src: string,
                                                transform: Option<(string, Bytes) -> Bytes>)
    requires SameSource(pairs, src) && src in s.files && src !in Dests(pairs)
    ensures var (s', e) := CopyAll(s, pairs, false, transform);
            e.None? &&
            forall i :: 0 <= i < |pairs| ==>
              pairs[i].dest in s'.files &&
              s'.files[pairs[i].dest] == Content(transform, src, s.files[src])
    decreases |pairs|
  {
    if |pairs| > 0 {
      var init, last := pairs[..|pairs| - 1], pairs[|pairs| - 1];
      var c := Content(transform, src, s.files[src]);
      DestsPrefix(pairs);
      SameSourcePrefix(pairs, src);
      CopyAllPresentSource(s, init, src, transform);
      CopyAllFrame(s, init, false, transform);
      var mid := CopyAll(s, init, false, transform).0;
      assert src in mid.files && mid.files[src] == s.files[src];
      var files' := mid.files[last.dest := c];
      assert CopyAll(s, pairs, false, transform) == (FsState(files', mid.dirs + DirChain(Dirname(last.dest))), None);
      forall i | 0 <= i < |pairs|
        ensures pairs[i].dest in files' && files'[pairs[i].dest] == c
      {
        if i < |pairs| - 1 {
          assert pairs[i] == init[i];
        }
      }
    }
  }

  /** With one missing source that no pair creates, no file changes and the
      source is reported. */
  lemma {:induction false} CopyAllMissingSource(s: FsState, pairs: seq<Pair>, src: string,
                                                transform: Option<(string, Bytes) -> Bytes>)
    requires |pairs| > 0 && SameSource(pairs, src) && src !in s.files
    ensures var (s', e) := CopyAll(s, pairs, false, transform);
            e == Some(src) && s'.files == s.files
    decreases |pairs|
  {
    var init := pairs[..|pairs| - 1];
    SameSourcePrefix(pairs, src);
    if |init| == 0 {
      assert CopyAll(s, init, false, transform) == (s, None);
    } else {
      CopyAllMissingSource(s, init, src, transform);
    }
  }

  /** The error of the whole copy operation. */
  datatype CopyError = Unresolvable(cause: ResolveError) | MissingSource(path: string)

  /** `copyOperationHandler` as a function of the file system before it:
      resolve the pairs (a throw rejects before anything is touched), then
      handle each pair. */
  function CopyOperation(s: FsState, outDir: string, rawFromPath: seq<string>, globbed: string,
                         baseTo: string, dryRun: bool,
                         transform: Option<(string, Bytes) -> Bytes>, cwd: string): (FsState, Outcome<CopyError>)
  {
    match ResolvePaths(outDir, rawFromPath, globbed, baseTo, cwd)
    case Failure(e) => (s, Fail(Unresolvable(e)))
    case Success(pairs) =>
      var (s', e) := CopyAll(s, pairs, dryRun, transform);
      (s', if e.Some? then Fail(MissingSource(e.value)) else Pass)
  }

  /** A dry run leaves the file system as it was; it can still fail when
      the pairs cannot be resolved. */
  lemma CopyOperationDryRun(s: FsState, outDir: string, rawFromPath: seq<string>, globbed: string,
                            baseTo: string, transform: Option<(string, Bytes) -> Bytes>, cwd: string)
    ensures var (s', r) := CopyOperation(s, outDir, rawFromPath, globbed, baseTo, true, transform, cwd);
            s' == s &&
            (r.Pass? <==> ResolvePaths(outDir, rawFromPath, globbed, baseTo, cwd).Success?)
  {
    match ResolvePaths(outDir, rawFromPath, globbed, baseTo, cwd)
    case Failure(_) =>
    case Success(pairs) => CopyAllDryRun(s, pairs, transform);
  }

  /** A real run over pairs with one existing source that none of them
      overwrites: every destination holds the (transformed) source bytes,
      the parent chain of every destination exists, no other file changes
      and nothing is reported. */
  lemma CopyAllCopies(s: FsState, pairs: seq<Pair>, src: string,
                      transform: Option<(string, Bytes) -> Bytes>)
    requires SameSource(pairs, src) && src in s.files && src !in Dests(pairs)
    ensures var (s', e) := CopyAll(s, pairs, false, transform);
            e == None &&
            (forall i :: 0 <= i < |pairs| ==>
               pairs[i].dest in s'.files &&
               s'.files[pairs[i].dest] == Content(transform, src, s.files[src]) &&
               Dirname(pairs[i].dest) in s'.dirs) &&
            s'.files.Keys == s.files.Keys + Dests(pairs) &&
            (forall k :: k in s.files && k !in Dests(pairs) ==> s'.files[k] == s.files[k])
  {
    CopyAllPresentSource(s, pairs, src, transform);
    CopyAllFrame(s, pairs, false, transform);
    CopyAllParents(s, pairs, transform);
    var s' := CopyAll(s, pairs, false, transform).0;
    forall k | k in Dests(pairs) ensures k in s'.files {
      var i :| 0 <= i < |pairs| && pairs[i].dest == k;
    }
  }

  /** `copyOperationHandler` on resolvable pairs with an existing source
      none of them overwrites: the copy of every pair lands and it succeeds. */
  lemma CopyOperationCopies(s: FsState, outDir: string, rawFromPath: seq<string>, globbed: string,
                            baseTo: string, transform: Option<(string, Bytes) -> Bytes>, cwd: string,
                            pairs: seq<Pair>)
    requires ResolvePaths(outDir, rawFromPath, globbed, baseTo, cwd) == Success(pairs)
    requires Resolve(cwd, [globbed]) in s.files && Resolve(cwd, [globbed]) !in Dests(pairs)
    ensures var (s', r) := CopyOperation(s, outDir, rawFromPath, globbed, baseTo, false, transform, cwd);
            r == Pass &&
            s' == CopyAll(s, pairs, false, transform).0 &&
            forall i :: 0 <= i < |pairs| ==>
              pairs[i].dest in s'.files &&
              s'.files[pairs[i].dest] == Content(transform, Resolve(cwd, [globbed]), s.files[Resolve(cwd, [globbed])])
  {
    ResolvePathsSameSource(outDir, rawFromPath, globbed, baseTo, cwd);
    CopyAllCopies(s, pairs, Resolve(cwd, [globbed]), transform);
  }

  /** A real run whose source does not exist changes no file and reports
      the missing source. */
  lemma CopyOperationMissingSource(s: FsState, outDir: string, rawFromPath: seq<string>, globbed: string,
                                   baseTo: string, transform: Option<(string, Bytes) -> Bytes>, cwd: string,
                                   pairs: seq<Pair>)
    requires ResolvePaths(outDir, rawFromPath, globbed, baseTo, cwd) == Success(pairs)
    requires |rawFromPath| > 0
    requires Resolve(cwd, [globbed]) !in s.files
    ensures var (s', r) := CopyOperation(s, outDir, rawFromPath, globbed, baseTo, false, transform, cwd);
            r == Fail(MissingSource(Resolve(cwd, [globbed]))) && s'.files == s.files
  {
    ResolvePathsSameSource(outDir, rawFromPath, globbed, baseTo, cwd);
    CopyAllMissingSource(s, pairs, Resolve(cwd, [globbed]), transform);
  }

  /** The callback run for one pair. */
  method HandlePair(fs: FileSystem, p: Pair, dryRun: bool, transform: Option<(string, Bytes) -> Bytes>)
    returns (missing: Option<string>)
    modifies fs
    ensures (fs.State(), missing) == CopyStep(old(fs.State()), p, dryRun, transform)
  {
    missing := None;
    if dryRun {
      return;
    }
    fs.EnsureDir(Dirname(p.dest));
    match transform {
      case Some(f) =>
        var content := fs.ReadFile(p.src);
        if content.Some? {
          fs.WriteFile(p.dest, f(p.src, content.value));
        } else {
          missing := Some(p.src);
        }
      case None =>
        var ok := fs.CopyFile(p.src, p.dest);
        if !ok {
          missing := Some(p.src);
        }
    }
  }

  /** `copyOperationHandler`: the pairs are handled one at a time. */
  method CopyOperationHandler(fs: FileSystem, outDir: string, rawFromPath: seq<string>, globbed: string,
                              baseTo: string, dryRun: bool,
                              transform: Option<(string, Bytes) -> Bytes>, cwd: string)
    returns (r: Outcome<CopyError>)
    modifies fs
    ensures (fs.State(), r) ==
            CopyOperation(old(fs.State()), outDir, rawFromPath, globbed, baseTo, dryRun, transform, cwd)
  {
    var resolved := ResolvePaths(outDir, rawFromPath, globbed, baseTo, cwd);
    if resolved.Failure? {
      return Fail(Unresolvable(resolved.error));
    }
    var pairs := resolved.value;
    ghost var s0 := fs.State();
    var err: Option<string> := None;
    var i := 0;
    while i < |pairs|
      invariant 0 <= i <= |pairs|
      invariant (fs.State(), err) == CopyAll(s0, pairs[..i], dryRun, transform)
    {
      CopyAllSnoc(s0, pairs, i, dryRun, transform);
      var missing := HandlePair(fs, pairs[i], dryRun, transform);
      if err.None? {
        err := missing;
      }
      i := i + 1;
    }
    assert pairs[..i] == pairs;
    r := if err.Some? then Fail(MissingSource(err.value)) else Pass;
  }
}
