/** The POSIX flavour of Node.js's `path` module, as far as the asset code
    uses it: `resolve` (with the process's working directory passed in),
    `join`, `normalize`, `parse().dir`, `dirname`, `basename` and
    `extname`. A path is a string; normalisation works on the pieces
    between slashes, drops empty and `.` pieces and lets `..` cancel the
    piece before it. */
module PosixPath {
  import opened Wrappers
  import opened JsString

  predicate IsAbsolute(p: string) {
    |p| > 0 && p[0] == '/'
  }

  /** What a normalised path is made of: a non-empty piece without slashes
      that is not `.` (it may be `..`). */
  predicate IsName(x: string) {
    x != "" && x != "." && '/' !in x
  }

  predicate AllNames(segs: seq<string>) {
    forall j :: 0 <= j < |segs| ==> IsName(segs[j])
  }

  /** Drops the empty and `.` pieces. */
  function Clean(pieces: seq<string>): seq<string> {
    if |pieces| == 0 then []
    else (if pieces[0] == "" || pieces[0] == "." then [] else [pieces[0]]) + Clean(pieces[1..])
  }

  /** The segments of a path that normalisation works on. */
  function Segments(p: string): seq<string> {
    Clean(Split(p, "/"))
  }

  /** One step of Node's `normalizeString`: `..` pops the last kept segment
      unless that is `..` itself; with nothing to pop it is kept only when
      the path may go above its root (a relative path). */
  function Step(stack: seq<string>, seg: string, allowAboveRoot: bool): seq<string> {
    if seg == ".." then
      if |stack| > 0 && stack[|stack| - 1] != ".." then stack[..|stack| - 1]
      else if allowAboveRoot then stack + [".."]
      else stack
    else stack + [seg]
  }

  function Collapse(segs: seq<string>, allowAboveRoot: bool): seq<string>
    decreases |segs|
  {
    if |segs| == 0 then []
    else Step(Collapse(segs[..|segs| - 1], allowAboveRoot), segs[|segs| - 1], allowAboveRoot)
  }

  /** Node's `normalizeString(path, allowAboveRoot)`: the collapsed segments
      joined with slashes, without a leading or trailing slash. */
  function NormalizeString(p: string, allowAboveRoot: bool): string {
    JoinWith(Collapse(Segments(p), allowAboveRoot), "/")
  }

  /** The string `path.resolve` hands to the normaliser, and whether it is
      absolute: the arguments are taken from the right, skipping empty ones,
      each put in front of what was gathered so far, until one is absolute;
      if none is, the working directory goes in front. */
  function Gather(cwd: string, args: seq<string>, acc: string): (string, bool)
    decreases |args|
  {
    if |args| == 0 then
      if |cwd| == 0 then (acc, false) else (cwd + "/" + acc, IsAbsolute(cwd))
    else
      var p := args[|args| - 1];
      var init := args[..|args| - 1];
      if |p| == 0 then Gather(cwd, init, acc)
      else if IsAbsolute(p) then (p + "/" + acc, true)
      else Gather(cwd, init, p + "/" + acc)
  }

  /** How `resolve` writes the normalised string `n`. */
  function RenderResolved(absolute: bool, n: string): string {
    if absolute then "/" + n
    else if n == "" then "."
    else n
  }

  /** `path.resolve(...args)` with `process.cwd()` given as `cwd`. */
  function Resolve(cwd: string, args: seq<string>): string {
    var (raw, absolute) := Gather(cwd, args, "");
    RenderResolved(absolute, NormalizeString(raw, !absolute))
  }

  /** How `normalize` writes the normalised string `n`. */
  function RenderNormalized(absolute: bool, trailing: bool, n: string): string {
    if |n| == 0 then
      if absolute then "/" else if trailing then "./" else "."
    else
      var n' := if trailing then n + "/" else n;
      if absolute then "/" + n' else n'
  }

  /** `path.normalize(p)`: a trailing slash is kept. */
  function Normalize(p: string): string {
    if |p| == 0 then "."
    else RenderNormalized(IsAbsolute(p), p[|p| - 1] == '/', NormalizeString(p, !IsAbsolute(p)))
  }

  /** The arguments that are not empty strings, in order. */
  function NonEmpty(args: seq<string>): (r: seq<string>)
    ensures forall j :: 0 <= j < |r| ==> r[j] != ""
  {
    if |args| == 0 then []
    else (if args[0] == "" then [] else [args[0]]) + NonEmpty(args[1..])
  }

  /** `path.join(...args)`. */
  function Join(args: seq<string>): string {
    var parts := NonEmpty(args);
    if |parts| == 0 then "." else Normalize(JoinWith(parts, "/"))
  }

  /** `p` without its trailing slashes. */
  function TrimTrailingSlashes(p: string): (r: string)
    ensures |r| <= |p| && r == p[..|r|]
    ensures |r| == 0 || r[|r| - 1] != '/'
    ensures forall k :: |r| <= k < |p| ==> p[k] == '/'
  {
    if |p| > 0 && p[|p| - 1] == '/' then TrimTrailingSlashes(p[..|p| - 1]) else p
  }

  /** `s.lastIndexOf(c)`, with `None` for -1. */
  function LastIndexOfChar(s: string, c: char): (r: Option<nat>)
    ensures r.None? ==> c !in s
    ensures r.Some? ==> r.value < |s| && s[r.value] == c && c !in s[r.value + 1..]
  {
    if |s| == 0 then None
    else if s[|s| - 1] == c then Some(|s| - 1)
    else
      var r := LastIndexOfChar(s[..|s| - 1], c);
      assert s == s[..|s| - 1] + [s[|s| - 1]];
      r
  }

  /** `path.basename(p)`: the last segment, trailing slashes ignored. */
  function Basename(p: string): (r: string)
    ensures '/' !in r
    ensures r == "" <==> forall k :: 0 <= k < |p| ==> p[k] == '/'
  {
    var t := TrimTrailingSlashes(p);
    match LastIndexOfChar(t, '/')
    case None =>
      assert forall k :: 0 <= k < |t| ==> p[k] == t[k];
      t
    case Some(e) =>
      assert t[|t| - 1] in t[e + 1..];
      t[e + 1..]
  }

  /** `path.extname(p)`: from the last `.` of the base name on, except
      when that dot starts the base name or the base name is `..`. */
  function Extname(p: string): (r: string)
    ensures r != "" <==> Basename(p) != ".." &&
                         exists d :: 1 <= d < |Basename(p)| && Basename(p)[d] == '.'
    ensures r != "" ==> r[0] == '.' && '.' !in r[1..] && EndsWith(Basename(p), r) &&
                        |r| < |Basename(p)|
  {
    var b := Basename(p);
    match LastIndexOfChar(b, '.')
    case None => ""
    case Some(d) =>
      if b == ".." then ""
      else if d == 0 then
        forall d' | 1 <= d' < |b| ensures b[d'] != '.' {
          assert b[d'] == b[1..][d' - 1];
        }
        ""
      else
        assert b[d..][1..] == b[d + 1..];
        b[d..]
  }

  /** `path.parse(p).dir`: everything before the slash that precedes the
      last segment; `/` for a single segment under the root. */
  function ParseDir(p: string): (r: string)
    ensures |r| <= |p|
    ensures r == p[..|r|] || (r == "/" && IsAbsolute(p))
  {
    var t := TrimTrailingSlashes(p);
    match LastIndexOfChar(t, '/')
    case Some(e) =>
      if e >= 1 then p[..e]
      else if IsAbsolute(p) then "/" else ""
    case None => if IsAbsolute(p) then "/" else ""
  }

  /** `path.dirname(p)`. Unlike `parse().dir` it gives `.` for a bare name
      and `//` for a single segment under a doubled root. */
  function Dirname(p: string): (r: string)
    ensures |p| > 0 ==> r == p || |r| < |p| || (r == "." && |p| == 1)
  {
    if |p| == 0 then "."
    else
      var t := TrimTrailingSlashes(p);
      var last := LastIndexOfChar(t, '/');
      if last.Some? && last.value >= 1 then
        if p[0] == '/' && last.value == 1 then "//" else p[..last.value]
      else if p[0] == '/' then "/" else "."
  }

  // ---------------------------------------------------------------------
  // Segments and joins

  lemma {:induction false} CleanAppend(a: seq<string>, b: seq<string>)
    ensures Clean(a + b) == Clean(a) + Clean(b)
  {
    if |a| > 0 {
      CleanAppend(a[1..], b);
      assert (a + b)[0] == a[0];
      assert (a + b)[1..] == a[1..] + b;
    } else {
      assert a + b == b;
    }
  }

  lemma {:induction false} CleanOfNames(segs: seq<string>)
    requires AllNames(segs)
    ensures Clean(segs) == segs
  {
    if |segs| > 0 {
      CleanOfNames(segs[1..]);
    }
  }

  lemma {:induction false} CleanGivesNames(pieces: seq<string>)
    requires forall j :: 0 <= j < |pieces| ==> '/' !in pieces[j]
    ensures AllNames(Clean(pieces))
  {
    if |pieces| > 0 {
      CleanGivesNames(pieces[1..]);
    }
  }

  /** Every segment of a path is a name. */
  lemma SegmentsAreNames(p: string)
    ensures AllNames(Segments(p))
  {
    SplitCharPieces(p, '/');
    CleanGivesNames(Split(p, "/"));
  }

  lemma {:induction false} CollapseNames(segs: seq<string>, allowAboveRoot: bool)
    requires AllNames(segs)
    ensures AllNames(Collapse(segs, allowAboveRoot))
    ensures !allowAboveRoot ==> ".." !in Collapse(segs, allowAboveRoot)
    decreases |segs|
  {
    if |segs| > 0 {
      CollapseNames(segs[..|segs| - 1], allowAboveRoot);
    }
  }

  /** Segments without `..` pass through the collapse untouched. */
  lemma {:induction false} CollapseAppendPlain(a: seq<string>, b: seq<string>, allowAboveRoot: bool)
    requires ".." !in b
    ensures Collapse(a + b, allowAboveRoot) == Collapse(a, allowAboveRoot) + b
    decreases |b|
  {
    if |b| > 0 {
      var b' := b[..|b| - 1];
      assert (a + b)[..|a + b| - 1] == a + b';
      assert b[|b| - 1] in b;
      CollapseAppendPlain(a, b', allowAboveRoot);
      assert b' + [b[|b| - 1]] == b;
    } else {
      assert a + b == a;
    }
  }

  lemma CollapsePlain(segs: seq<string>, allowAboveRoot: bool)
    requires ".." !in segs
    ensures Collapse(segs, allowAboveRoot) == segs
  {
    CollapseAppendPlain([], segs, allowAboveRoot);
    assert [] + segs == segs;
  }

  lemma {:induction false} JoinWithEmptyIff(xs: seq<string>)
    requires AllNames(xs)
    ensures JoinWith(xs, "/") == "" <==> xs == []
    ensures xs != [] ==> JoinWith(xs, "/")[0] == xs[0][0]
  {
    if |xs| > 1 {
      JoinWithEmptyIff(xs[1..]);
    }
  }

  /** Splitting the string joined from names gives the names back. */
  lemma SegmentsOfJoined(xs: seq<string>)
    requires AllNames(xs)
    ensures Segments(JoinWith(xs, "/")) == xs
  {
    if |xs| == 0 {
      assert Split("", "/") == [""];
    } else {
      SplitJoinChar(xs, '/');
      CleanOfNames(xs);
    }
  }

  /** Segments ignore a slash between two strings, and slashes at both ends. */
  lemma SegmentsConcat(a: string, b: string)
    ensures Segments(a + "/" + b) == Segments(a) + Segments(b)
  {
    SplitCharConcat(a, '/', b);
    CleanAppend(Split(a, "/"), Split(b, "/"));
  }

  lemma SegmentsLeadingSlash(b: string)
    ensures Segments("/" + b) == Segments(b)
  {
    SegmentsConcat("", b);
    assert "" + "/" + b == "/" + b;
    assert Split("", "/") == [""];
  }

  lemma SegmentsTrailingSlash(a: string)
    ensures Segments(a + "/") == Segments(a)
  {
    SegmentsConcat(a, "");
    assert a + "/" + "" == a + "/";
    assert Split("", "/") == [""];
  }

  lemma SegmentsOfDots()
    ensures Segments(".") == [] && Segments("./") == [] && Segments("/") == []
  {
    SegmentsOfDot();
    SegmentsOfDotSlash();
    SegmentsOfSlash();
  }

  lemma SegmentsOfDot()
    ensures Segments(".") == []
  {
    SplitCharAbsent(".", '/');
  }

  lemma SegmentsOfDotSlash()
    ensures Segments("./") == []
  {
    SegmentsOfDot();
    SegmentsTrailingSlash(".");
  }

  lemma SegmentsOfEmpty()
    ensures Segments("") == []
  {
    assert Split("", "/") == [""];
  }

  lemma SegmentsOfSlash()
    ensures Segments("/") == []
  {
    SegmentsOfEmpty();
    SegmentsLeadingSlash("");
  }

  /** The strings that `resolve` and `normalize` build from collapsed
      segments have exactly those segments. */
  lemma SegmentsOfRendered(segs: seq<string>)
    requires AllNames(segs)
    ensures Segments(JoinWith(segs, "/")) == segs
    ensures Segments("/" + JoinWith(segs, "/")) == segs
    ensures Segments(JoinWith(segs, "/") + "/") == segs
    ensures Segments("/" + JoinWith(segs, "/") + "/") == segs
    ensures JoinWith(segs, "/") == "" <==> segs == []
    ensures segs != [] ==> !IsAbsolute(JoinWith(segs, "/"))
  {
    var n := JoinWith(segs, "/");
    SegmentsOfJoined(segs);
    SegmentsLeadingSlash(n);
    SegmentsTrailingSlash(n);
    SegmentsTrailingSlash("/" + n);
    JoinWithEmptyIff(segs);
  }

  // ---------------------------------------------------------------------
  // resolve

  /** What `resolve` gathers ends with what was gathered before. */
  lemma {:induction false} GatherAcc(cwd: string, args: seq<string>, acc: string)
    ensures Gather(cwd, args, acc).0 == Gather(cwd, args, "").0 + acc
    ensures Gather(cwd, args, acc).1 == Gather(cwd, args, "").1
    decreases |args|
  {
    if |args| > 0 {
      var p := args[|args| - 1];
      var init := args[..|args| - 1];
      if |p| > 0 && !IsAbsolute(p) {
        assert Gather(cwd, args, acc) == Gather(cwd, init, p + "/" + acc);
        assert p + "/" + "" == p + "/";
        assert Gather(cwd, args, "") == Gather(cwd, init, p + "/");
        GatherAcc(cwd, init, p + "/" + acc);
        GatherAcc(cwd, init, p + "/");
      } else if |p| == 0 {
        GatherAcc(cwd, init, acc);
      } else {
        assert p + "/" + acc == (p + "/" + "") + acc;
      }
    }
  }

  /** `resolve` gathers an absolute path exactly when the working
      directory or one of the arguments is absolute. */
  lemma {:induction false} GatherAbsolute(cwd: string, args: seq<string>, acc: string)
    ensures Gather(cwd, args, acc).1 <==>
            IsAbsolute(cwd) || exists j :: 0 <= j < |args| && IsAbsolute(args[j])
    decreases |args|
  {
    if |args| > 0 {
      var p := args[|args| - 1];
      var init := args[..|args| - 1];
      assert forall j :: 0 <= j < |init| ==> init[j] == args[j];
      if |p| == 0 {
        GatherAbsolute(cwd, init, acc);
      } else if !IsAbsolute(p) {
        GatherAbsolute(cwd, init, p + "/" + acc);
      }
    }
  }

  lemma GatherShape(cwd: string, args: seq<string>)
    ensures var g := Gather(cwd, args, "").0; g == "" || g[|g| - 1] == '/'
    decreases |args|
  {
    if |args| > 0 {
      var p := args[|args| - 1];
      var init := args[..|args| - 1];
      if |p| > 0 && !IsAbsolute(p) {
        assert p + "/" + "" == p + "/";
        assert Gather(cwd, args, "") == Gather(cwd, init, p + "/");
        GatherAcc(cwd, init, p + "/");
      } else if |p| == 0 {
        GatherShape(cwd, init);
      }
    }
  }

  /** Both renderings of collapsed names keep exactly those names as
      segments and are absolute exactly when asked to be. */
  lemma RenderedShape(absolute: bool, trailing: bool, segs: seq<string>)
    requires AllNames(segs)
    ensures Segments(RenderResolved(absolute, JoinWith(segs, "/"))) == segs
    ensures IsAbsolute(RenderResolved(absolute, JoinWith(segs, "/"))) == absolute
    ensures Segments(RenderNormalized(absolute, trailing, JoinWith(segs, "/"))) == segs
    ensures IsAbsolute(RenderNormalized(absolute, trailing, JoinWith(segs, "/"))) == absolute
  {
    SegmentsOfRendered(segs);
    SegmentsOfDots();
  }

  /** A resolved path is absolute exactly when the working directory or
      one of the arguments is, and its segments are the collapse of what
      was gathered. */
  lemma ResolveShape(cwd: string, args: seq<string>)
    ensures IsAbsolute(Resolve(cwd, args)) == Gather(cwd, args, "").1
    ensures IsAbsolute(Resolve(cwd, args)) <==>
            IsAbsolute(cwd) || exists j :: 0 <= j < |args| && IsAbsolute(args[j])
    ensures Segments(Resolve(cwd, args)) ==
            Collapse(Segments(Gather(cwd, args, "").0), !Gather(cwd, args, "").1)
    ensures AllNames(Segments(Resolve(cwd, args)))
  {
    var (raw, absolute) := Gather(cwd, args, "");
    var segs := Collapse(Segments(raw), !absolute);
    GatherAbsolute(cwd, args, "");
    SegmentsAreNames(raw);
    CollapseNames(Segments(raw), !absolute);
    assert Resolve(cwd, args) == RenderResolved(absolute, JoinWith(segs, "/"));
    RenderedShape(absolute, false, segs);
  }

  /** Normalising keeps a path absolute or relative, and its segments are
      the collapse of the path's segments. */
  lemma NormalizeShape(p: string)
    ensures IsAbsolute(Normalize(p)) <==> IsAbsolute(p)
    ensures Segments(Normalize(p)) == Collapse(Segments(p), !IsAbsolute(p))
  {
    if |p| > 0 {
      var segs := Collapse(Segments(p), !IsAbsolute(p));
      SegmentsAreNames(p);
      CollapseNames(Segments(p), !IsAbsolute(p));
      RenderedShape(IsAbsolute(p), p[|p| - 1] == '/', segs);
    } else {
      SegmentsOfDots();
      assert Split("", "/") == [""];
    }
  }

  /** An absolute resolved path has no `..` segment. */
  lemma ResolvedAbsoluteHasNoParentSegment(cwd: string, args: seq<string>)
    requires IsAbsolute(Resolve(cwd, args))
    ensures ".." !in Segments(Resolve(cwd, args))
  {
    var raw := Gather(cwd, args, "").0;
    ResolveShape(cwd, args);
    SegmentsAreNames(raw);
    CollapseNames(Segments(raw), false);
  }

  /** Resolving an absolute resolved path again changes nothing, whatever
      the working directory. */
  lemma ResolveIdempotent(cwd: string, cwd': string, args: seq<string>)
    requires IsAbsolute(Resolve(cwd, args))
    ensures Resolve(cwd', [Resolve(cwd, args)]) == Resolve(cwd, args)
  {
    var r := Resolve(cwd, args);
    var (raw, absolute) := Gather(cwd, args, "");
    ResolveShape(cwd, args);
    ResolvedAbsoluteHasNoParentSegment(cwd, args);
    var segs := Segments(r);
    assert r == "/" + JoinWith(segs, "/");
    assert r + "/" + "" == r + "/";
    assert Gather(cwd', [r], "") == (r + "/", true);
    SegmentsTrailingSlash(r);
    CollapsePlain(segs, false);
    assert NormalizeString(r + "/", false) == JoinWith(segs, "/");
  }

  /** Gathering one more non-empty relative argument puts it, with a
      slash, after what was gathered. */
  lemma GatherAppendRelative(cwd: string, args: seq<string>, t: string)
    requires t != "" && !IsAbsolute(t)
    ensures Gather(cwd, args + [t], "").0 == Gather(cwd, args, "").0 + (t + "/")
    ensures Gather(cwd, args + [t], "").1 == Gather(cwd, args, "").1
  {
    var args' := args + [t];
    assert args'[..|args'| - 1] == args;
    assert t + "/" + "" == t + "/";
    assert Gather(cwd, args', "") == Gather(cwd, args, t + "/");
    GatherAcc(cwd, args, t + "/");
  }

  /** The segments of a gathered string followed by `t/`. */
  lemma SegmentsOfGatheredAppend(cwd: string, args: seq<string>, t: string)
    ensures Segments(Gather(cwd, args, "").0 + (t + "/")) == Segments(Gather(cwd, args, "").0) + Segments(t)
  {
    GatherShape(cwd, args);
    SegmentsAfterSlash(Gather(cwd, args, "").0, t);
  }

  lemma SegmentsAfterSlash(raw: string, t: string)
    requires raw == "" || raw[|raw| - 1] == '/'
    ensures Segments(raw + (t + "/")) == Segments(raw) + Segments(t)
  {
    SegmentsTrailingSlash(t);
    if raw == "" {
      assert raw + (t + "/") == t + "/";
      SegmentsOfEmpty();
      assert Segments(raw) + Segments(t) == Segments(t);
    } else {
      var q := raw[..|raw| - 1];
      assert raw == q + "/";
      assert raw + (t + "/") == q + "/" + (t + "/");
      SegmentsConcat(q, t + "/");
      SegmentsTrailingSlash(q);
    }
  }

  /** Resolving one more relative argument without `..` appends its
      segments to the resolved path's segments. */
  lemma ResolveAppendRelative(cwd: string, args: seq<string>, t: string)
    requires !IsAbsolute(t) && ".." !in Segments(t)
    ensures IsAbsolute(Resolve(cwd, args + [t])) == IsAbsolute(Resolve(cwd, args))
    ensures Segments(Resolve(cwd, args + [t])) == Segments(Resolve(cwd, args)) + Segments(t)
  {
    var args' := args + [t];
    var g := Gather(cwd, args, "");
    ResolveShape(cwd, args);
    ResolveShape(cwd, args');
    if |t| == 0 {
      assert args'[..|args'| - 1] == args;
      assert Gather(cwd, args', "") == g;
      assert Segments(t) == [] by {
        assert Split("", "/") == [""];
      }
      assert Segments(Resolve(cwd, args)) + [] == Segments(Resolve(cwd, args));
    } else {
      GatherAppendRelative(cwd, args, t);
      SegmentsOfGatheredAppend(cwd, args, t);
      CollapseAppendPlain(Segments(g.0), Segments(t), !g.1);
    }
  }

  /** `resolve(out, to, rest)` for a relative `rest` without `..` is
      `resolve(out, to)` extended by the segments of `rest`. */
  lemma ResolveUnderBase(cwd: string, out: string, to: string, rest: string)
    requires !IsAbsolute(rest) && ".." !in Segments(rest)
    ensures IsAbsolute(Resolve(cwd, [out, to, rest])) == IsAbsolute(Resolve(cwd, [out, to]))
    ensures Segments(Resolve(cwd, [out, to, rest])) == Segments(Resolve(cwd, [out, to])) + Segments(rest)
  {
    assert [out, to] + [rest] == [out, to, rest];
    ResolveAppendRelative(cwd, [out, to], rest);
  }

  /** A resolved path is the rendering of its own segments: the string is
      fixed by whether it is absolute and what its segments are. */
  lemma ResolveCanonical(cwd: string, args: seq<string>)
    ensures var r := Resolve(cwd, args);
            r == RenderResolved(IsAbsolute(r), JoinWith(Segments(r), "/"))
  {
    var (raw, absolute) := Gather(cwd, args, "");
    ResolveShape(cwd, args);
  }

  /** Two resolved paths with the same absoluteness and the same segments
      are the same string. */
  lemma ResolvedEqual(cwd: string, args: seq<string>, cwd': string, args': seq<string>)
    requires IsAbsolute(Resolve(cwd, args)) == IsAbsolute(Resolve(cwd', args'))
    requires Segments(Resolve(cwd, args)) == Segments(Resolve(cwd', args'))
    ensures Resolve(cwd, args) == Resolve(cwd', args')
  {
    ResolveCanonical(cwd, args);
    ResolveCanonical(cwd', args');
  }

  /** An empty last argument is skipped. */
  lemma ResolveDropsEmpty(cwd: string, args: seq<string>)
    ensures Resolve(cwd, args + [""]) == Resolve(cwd, args)
  {
    var args' := args + [""];
    assert args'[..|args'| - 1] == args;
    assert Gather(cwd, args', "") == Gather(cwd, args, "");
  }

  lemma ResolveDropsEmptyThird(cwd: string, x: string, y: string, e: string)
    requires e == ""
    ensures Resolve(cwd, [x, y, e]) == Resolve(cwd, [x, y])
  {
    assert [x, y] + [e] == [x, y, e];
    ResolveDropsEmpty(cwd, [x, y]);
  }

  /** An absolute last argument makes `resolve` ignore everything before it. */
  lemma ResolveFromAbsolute(cwd: string, args: seq<string>, p: string)
    requires IsAbsolute(p)
    ensures Resolve(cwd, args + [p]) == Resolve(cwd, [p])
  {
    var args' := args + [p];
    assert args'[|args'| - 1] == p;
    assert Gather(cwd, args', "") == Gather(cwd, [p], "");
  }

  // ---------------------------------------------------------------------
  // join

  lemma {:induction false} NonEmptyAppend(args: seq<string>, t: string)
    ensures NonEmpty(args + [t]) == NonEmpty(args) + (if t == "" then [] else [t])
  {
    if |args| == 0 {
      assert args + [t] == [t];
    } else {
      assert (args + [t])[1..] == args[1..] + [t];
      NonEmptyAppend(args[1..], t);
    }
  }

  lemma {:induction false} JoinWithAppend(xs: seq<string>, t: string)
    requires |xs| >= 1
    ensures JoinWith(xs + [t], "/") == JoinWith(xs, "/") + "/" + t
  {
    if |xs| > 1 {
      assert (xs + [t])[1..] == xs[1..] + [t];
      JoinWithAppend(xs[1..], t);
    }
  }

  lemma {:induction false} JoinWithHead(xs: seq<string>)
    requires |xs| >= 1 && xs[0] != ""
    ensures |JoinWith(xs, "/")| > 0 && JoinWith(xs, "/")[0] == xs[0][0]
  {
  }

  /** `normalize` of `j/t` extends the segments of `normalize(j)` by
      those of a relative `t` without `..`, for a non-empty `j`. */
  lemma NormalizeAppendRelative(j: string, t: string)
    requires j != "" && ".." !in Segments(t)
    ensures Segments(Normalize(j + "/" + t)) == Segments(Normalize(j)) + Segments(t)
  {
    assert IsAbsolute(j + "/" + t) == IsAbsolute(j);
    NormalizeShape(j);
    NormalizeShape(j + "/" + t);
    SegmentsConcat(j, t);
    CollapseAppendPlain(Segments(j), Segments(t), !IsAbsolute(j));
  }

  /** Joining one more relative argument without `..` appends its segments
      to the joined path's segments. */
  lemma JoinAppendRelative(args: seq<string>, t: string)
    requires !IsAbsolute(t) && ".." !in Segments(t)
    ensures Segments(Join(args + [t])) == Segments(Join(args)) + Segments(t)
  {
    NonEmptyAppend(args, t);
    if t == "" {
      JoinAppendEmpty(args);
    } else if |NonEmpty(args)| == 0 {
      JoinAppendFirst(args, t);
    } else {
      var j := JoinWith(NonEmpty(args), "/");
      JoinWithAppend(NonEmpty(args), t);
      JoinWithHead(NonEmpty(args));
      NormalizeAppendRelative(j, t);
    }
  }

  lemma JoinAppendEmpty(args: seq<string>)
    ensures Segments(Join(args + [""])) == Segments(Join(args)) + Segments("")
  {
    NonEmptyAppend(args, "");
    assert Segments("") == [] by {
      assert Split("", "/") == [""];
    }
    assert NonEmpty(args) + [] == NonEmpty(args);
    assert Join(args + [""]) == Join(args);
    assert Segments(Join(args)) + [] == Segments(Join(args));
  }

  lemma JoinAppendFirst(args: seq<string>, t: string)
    requires NonEmpty(args) == [] && t != "" && !IsAbsolute(t) && ".." !in Segments(t)
    ensures Segments(Join(args + [t])) == Segments(Join(args)) + Segments(t)
  {
    NonEmptyAppend(args, t);
    assert NonEmpty(args + [t]) == [t];
    assert JoinWith([t], "/") == t;
    var n := Join(args + [t]);
    assert n == Normalize(t);
    assert Join(args) == ".";
    SegmentsOfDots();
    NormalizeShape(t);
    CollapsePlain(Segments(t), true);
    assert Segments(n) == Segments(t);
    assert [] + Segments(t) == Segments(t);
  }

  /** `join(x, y, t)` for a relative `t` without `..`. */
  lemma JoinUnderTwo(x: string, y: string, t: string)
    requires !IsAbsolute(t) && ".." !in Segments(t)
    ensures Segments(Join([x, y, t])) == Segments(Join([x, y])) + Segments(t)
  {
    assert [x, y] + [t] == [x, y, t];
    JoinAppendRelative([x, y], t);
  }

  /** `join(x, y, z, t)` for a relative `t` without `..`. */
  lemma JoinUnderThree(x: string, y: string, z: string, t: string)
    requires !IsAbsolute(t) && ".." !in Segments(t)
    ensures Segments(Join([x, y, z, t])) == Segments(Join([x, y, z])) + Segments(t)
  {
    assert [x, y, z] + [t] == [x, y, z, t];
    JoinAppendRelative([x, y, z], t);
  }

  /** A joined path is absolute exactly when its first non-empty argument
      is. */
  lemma JoinShape(args: seq<string>)
    ensures IsAbsolute(Join(args)) <==> (NonEmpty(args) != [] && IsAbsolute(NonEmpty(args)[0]))
  {
    var parts := NonEmpty(args);
    if parts != [] {
      JoinWithHead(parts);
      NormalizeShape(JoinWith(parts, "/"));
    }
  }

  /** `join` with an absolute first argument gives an absolute path. */
  lemma JoinFromAbsolute(args: seq<string>)
    requires |args| > 0 && IsAbsolute(args[0])
    ensures IsAbsolute(Join(args))
  {
    assert NonEmpty(args) == [args[0]] + NonEmpty(args[1..]);
    JoinShape(args);
  }

  /** `join(p)` of a path without `..` keeps its absoluteness and its
      segments. */
  lemma JoinOne(p: string)
    requires p != "" && ".." !in Segments(p)
    ensures IsAbsolute(Join([p])) <==> IsAbsolute(p)
    ensures Segments(Join([p])) == Segments(p)
  {
    assert NonEmpty([p]) == [p] + NonEmpty([]);
    assert JoinWith([p], "/") == p;
    NormalizeShape(p);
    CollapsePlain(Segments(p), !IsAbsolute(p));
  }

  /** A name that is not `..` is a path of one segment. */
  lemma SegmentsOfName(b: string)
    requires IsName(b) && b != ".."
    ensures Segments(b) == [b] && !IsAbsolute(b)
  {
    SplitCharAbsent(b, '/');
    assert Clean([b]) == [b] + Clean([]);
    assert b[0] in b;
  }

  // ---------------------------------------------------------------------
  // parse().dir, basename, dirname of a child path

  lemma {:induction false} LastIndexAfter(x: string, c: char, y: string)
    requires c !in y
    ensures LastIndexOfChar(x + [c] + y, c) == Some(|x|)
    decreases |y|
  {
    var s := x + [c] + y;
    if |y| > 0 {
      assert s[|s| - 1] == y[|y| - 1];
      assert y[|y| - 1] in y;
      assert s[..|s| - 1] == x + [c] + y[..|y| - 1];
      LastIndexAfter(x, c, y[..|y| - 1]);
    }
  }

  lemma ChildShape(d: string, name: string)
    requires name != "" && '/' !in name
    ensures TrimTrailingSlashes(d + "/" + name) == d + "/" + name
    ensures LastIndexOfChar(d + "/" + name, '/') == Some(|d|)
  {
    var p := d + "/" + name;
    assert p[|p| - 1] == name[|name| - 1];
    assert name[|name| - 1] in name;
    LastIndexAfter(d, '/', name);
  }

  /** `parse(d/name).dir` is `d`, for a non-empty `d`. */
  lemma ParseDirOfChild(d: string, name: string)
    requires d != "" && name != "" && '/' !in name
    ensures ParseDir(d + "/" + name) == d
  {
    ChildShape(d, name);
    assert (d + "/" + name)[..|d|] == d;
  }

  /** `basename(d/name)` is `name`. */
  lemma BasenameOfChild(d: string, name: string)
    requires name != "" && '/' !in name
    ensures Basename(d + "/" + name) == name
  {
    ChildShape(d, name);
    assert (d + "/" + name)[|d| + 1..] == name;
  }

  /** `dirname(d/name)` is `d`, for a non-empty `d` other than `/`. */
  lemma DirnameOfChild(d: string, name: string)
    requires d != "" && d != "/" && name != "" && '/' !in name
    ensures Dirname(d + "/" + name) == d
  {
    ChildShape(d, name);
    var p := d + "/" + name;
    assert p[..|d|] == d;
    if |d| == 1 {
      assert p[0] == d[0];
      assert d == [d[0]];
    }
  }

  /** A bare name (no slash at all) is its own base name, has the empty
      `parse().dir` and the `dirname` `.`. */
  lemma BareName(p: string)
    requires p != "" && '/' !in p
    ensures Basename(p) == p && ParseDir(p) == "" && Dirname(p) == "."
  {
    assert p[|p| - 1] in p;
    assert TrimTrailingSlashes(p) == p;
    assert LastIndexOfChar(p, '/') == None;
  }

  /** A single segment directly under the root: its base name is the
      segment, and both `parse().dir` and `dirname` are `/`. */
  lemma NameUnderRoot(n: string)
    requires n != "" && '/' !in n
    ensures Basename("/" + n) == n && ParseDir("/" + n) == "/" && Dirname("/" + n) == "/"
  {
    ChildShape("", n);
    assert "" + "/" + n == "/" + n;
    assert ("/" + n)[1..] == n;
  }

  /** A trailing slash changes none of `basename`, `parse().dir` and
      `dirname` of a non-empty path. */
  lemma TrailingSlashIgnored(p: string)
    requires p != ""
    ensures Basename(p + "/") == Basename(p)
    ensures ParseDir(p + "/") == ParseDir(p)
    ensures Dirname(p + "/") == Dirname(p)
  {
    var q := p + "/";
    TrimAfterSlash(p);
    var t := TrimTrailingSlashes(p);
    match LastIndexOfChar(t, '/')
    case None =>
    case Some(e) =>
      assert q[..e] == p[..e];
  }

  lemma TrimAfterSlash(p: string)
    ensures TrimTrailingSlashes(p + "/") == TrimTrailingSlashes(p)
  {
    var q := p + "/";
    assert q[..|q| - 1] == p;
  }

  /** `resolve("/n")` for a plain name `n` is absolute with the one
      segment `n`. */
  lemma ResolveRootName(cwd: string, p: string, n: string)
    requires p == "/" + n && IsName(n) && n != ".."
    ensures IsAbsolute(Resolve(cwd, [p]))
    ensures Segments(Resolve(cwd, [p])) == [n]
  {
    ResolveShape(cwd, [p]);
    GatherOneAbsolute(cwd, p);
    SegmentsOfRootName(p, n);
    CollapsePlain([n], false);
  }

  lemma GatherOneAbsolute(cwd: string, p: string)
    requires IsAbsolute(p)
    ensures Gather(cwd, [p], "") == (p + "/", true)
  {
    assert p + "/" + "" == p + "/";
  }

  lemma SegmentsOfRootName(p: string, n: string)
    requires p == "/" + n && IsName(n) && n != ".."
    ensures Segments(p + "/") == [n]
  {
    assert p + "/" == "/" + (n + "/");
    SegmentsLeadingSlash(n + "/");
    SegmentsTrailingSlash(n);
    SegmentsOfName(n);
  }
}
