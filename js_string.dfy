/** The few `String.prototype` operations the asset code relies on, with
    their ECMAScript meaning: `indexOf`, `split` with a string separator,
    `Array.prototype.join`, `replace` with a string pattern (first
    occurrence only), `endsWith` and `slice(start)`. Strings are `seq<char>`,
    sequences of Unicode scalar values, so lengths and the per-character
    split match JavaScript's UTF-16 code units only inside the Basic
    Multilingual Plane. */
module JsString {
  import opened Wrappers

  /** `sub` occurs in `s` at index `k`. */
  predicate OccursAt(s: string, sub: string, k: nat) {
    k + |sub| <= |s| && s[k..k + |sub|] == sub
  }

  ghost predicate Contains(s: string, sub: string) {
    exists k: nat :: OccursAt(s, sub, k)
  }

  /** `s.indexOf(sub, from)` for `from <= |s|`, with `None` for -1. */
  function IndexFrom(s: string, sub: string, from: nat): (r: Option<nat>)
    decreases |s| - from
    ensures r.Some? ==> from <= r.value && r.value + |sub| <= |s|
  {
    if from + |sub| > |s| then None
    else if s[from..from + |sub|] == sub then Some(from)
    else IndexFrom(s, sub, from + 1)
  }

  /** `indexOf` finds the first occurrence at or after `from`, and reports
      none only when there is none. */
  lemma {:induction false} IndexFromSpec(s: string, sub: string, from: nat)
    decreases |s| - from
    ensures IndexFrom(s, sub, from).Some? ==> OccursAt(s, sub, IndexFrom(s, sub, from).value)
    ensures forall k: nat :: from <= k && (IndexFrom(s, sub, from).None? || k < IndexFrom(s, sub, from).value)
              ==> !OccursAt(s, sub, k)
  {
    if from + |sub| <= |s| && s[from..from + |sub|] != sub {
      IndexFromSpec(s, sub, from + 1);
    }
  }

  lemma IndexOfNoneIffAbsent(s: string, sub: string)
    ensures IndexFrom(s, sub, 0).None? <==> !Contains(s, sub)
  {
    IndexFromSpec(s, sub, 0);
    if IndexFrom(s, sub, 0).Some? {
      assert OccursAt(s, sub, IndexFrom(s, sub, 0).value);
    }
  }

  /** `s.split(sep)`. With an empty separator the string falls apart into
      its characters (and `"".split("")` is `[]`); otherwise it is cut at
      successive non-overlapping occurrences of `sep`, searched from the
      left. */
  function Split(s: string, sep: string): (r: seq<string>)
    ensures sep != [] ==> |r| >= 1
    ensures sep == [] ==> |r| == |s|
  {
    if sep == [] then seq(|s|, j requires 0 <= j < |s| => [s[j]]) else SplitOn(s, sep)
  }

  function SplitOn(s: string, sep: string): (r: seq<string>)
    requires sep != []
    decreases |s|
    ensures |r| >= 1
  {
    match IndexFrom(s, sep, 0)
    case None => [s]
    case Some(i) => [s[..i]] + SplitOn(s[i + |sep|..], sep)
  }

  lemma SplitEmptySeparator(s: string, j: nat)
    requires j < |s|
    ensures Split(s, "")[j] == [s[j]]
  {
  }

  /** The text before the first occurrence contains no occurrence. */
  lemma PrefixBeforeFirstAvoids(s: string, sep: string, i: nat)
    requires sep != [] && IndexFrom(s, sep, 0) == Some(i)
    ensures !Contains(s[..i], sep)
  {
    IndexFromSpec(s, sep, 0);
    forall k: nat | OccursAt(s[..i], sep, k)
      ensures false
    {
      assert s[..i][k..k + |sep|] == s[k..k + |sep|];
      assert OccursAt(s, sep, k);
    }
  }

  /** No piece of a split contains the separator. */
  lemma {:induction false} SplitPiecesAvoidSep(s: string, sep: string)
    requires sep != []
    decreases |s|
    ensures forall j :: 0 <= j < |Split(s, sep)| ==> !Contains(Split(s, sep)[j], sep)
  {
    match IndexFrom(s, sep, 0)
    case None =>
      IndexOfNoneIffAbsent(s, sep);
    case Some(i) =>
      PrefixBeforeFirstAvoids(s, sep, i);
      SplitPiecesAvoidSep(s[i + |sep|..], sep);
      assert Split(s, sep) == [s[..i]] + Split(s[i + |sep|..], sep);
  }

  /** `xs.join(sep)`. */
  function JoinWith(xs: seq<string>, sep: string): string {
    if |xs| == 0 then ""
    else if |xs| == 1 then xs[0]
    else xs[0] + sep + JoinWith(xs[1..], sep)
  }

  /** Joining the pieces of a split with the same separator gives the
      string back. */
  lemma {:induction false} JoinSplit(s: string, sep: string)
    requires sep != []
    ensures JoinWith(Split(s, sep), sep) == s
    decreases |s|
  {
    match IndexFrom(s, sep, 0)
    case None =>
    case Some(i) =>
      var rest := s[i + |sep|..];
      JoinSplit(rest, sep);
      SplitAtFirst(s, sep, i);
      JoinWithCons(s[..i], Split(rest, sep), sep);
      FoundOccurs(s, sep, 0);
      AroundOccurrence(s, sep, i);
  }

  lemma SplitAtFirst(s: string, sep: string, i: nat)
    requires sep != [] && IndexFrom(s, sep, 0) == Some(i)
    ensures Split(s, sep) == [s[..i]] + Split(s[i + |sep|..], sep)
  {
  }

  /** What `indexOf` finds is an occurrence. */
  lemma {:induction false} FoundOccurs(s: string, sub: string, from: nat)
    requires IndexFrom(s, sub, from).Some?
    decreases |s| - from
    ensures OccursAt(s, sub, IndexFrom(s, sub, from).value)
  {
    if s[from..from + |sub|] != sub {
      FoundOccurs(s, sub, from + 1);
    }
  }

  lemma AroundOccurrence(s: string, sep: string, i: nat)
    requires OccursAt(s, sep, i)
    ensures s == s[..i] + sep + s[i + |sep|..]
  {
    assert s[i..i + |sep|] == sep;
  }

  lemma JoinWithCons(x: string, xs: seq<string>, sep: string)
    requires |xs| >= 1
    ensures JoinWith([x] + xs, sep) == x + sep + JoinWith(xs, sep)
  {
    assert ([x] + xs)[1..] == xs;
  }

  /** Four pieces joined. */
  lemma JoinFour(w: string, x: string, y: string, z: string)
    ensures JoinWith([w, x, y, z], "/") == w + "/" + x + "/" + y + "/" + z
  {
    assert [y, z][1..] == [z];
    assert JoinWith([y, z], "/") == y + "/" + z;
    assert [x, y, z][1..] == [y, z];
    assert JoinWith([x, y, z], "/") == x + "/" + (y + "/" + z);
    assert [w, x, y, z][1..] == [x, y, z];
    assert JoinWith([w, x, y, z], "/") == w + "/" + (x + "/" + (y + "/" + z));
  }

  /** `s.split(sep)[1]`: the second piece, `None` where JavaScript gives
      `undefined`. */
  function SplitSecond(s: string, sep: string): Option<string> {
    var parts := Split(s, sep);
    if |parts| >= 2 then Some(parts[1]) else None
  }

  /** For a non-empty separator, `split(sep)[1]` is undefined exactly when
      `sep` does not occur, and has no `sep` when defined; the empty
      separator gives the second character. */
  lemma SplitSecondSpec(s: string, sep: string)
    ensures var r := SplitSecond(s, sep);
            (sep != [] ==> (r.None? <==> !Contains(s, sep))) &&
            (sep != [] && r.Some? ==> !Contains(r.value, sep)) &&
            (sep == [] ==> (r.Some? <==> |s| >= 2)) &&
            (sep == [] && r.Some? ==> r.value == [s[1]])
  {
    if sep != [] {
      IndexOfNoneIffAbsent(s, sep);
      SplitPiecesAvoidSep(s, sep);
    }
  }

  /** Searching a suffix is searching the whole string from the suffix's start. */
  lemma {:induction false} IndexFromShift(s: string, sub: string, p: nat, from: nat)
    requires p <= |s|
    ensures IndexFrom(s[p..], sub, from).None? <==> IndexFrom(s, sub, p + from).None?
    ensures IndexFrom(s, sub, p + from).Some? ==>
              IndexFrom(s[p..], sub, from).value + p == IndexFrom(s, sub, p + from).value
    decreases |s| - p - from
  {
    if p + from + |sub| <= |s| {
      assert s[p..][from..from + |sub|] == s[p + from..p + from + |sub|];
      if s[p + from..p + from + |sub|] != sub {
        IndexFromShift(s, sub, p, from + 1);
      }
    }
  }

  /** The text before the first occurrence of `sep`, or all of `s`. */
  function FirstPiece(s: string, sep: string): string {
    match IndexFrom(s, sep, 0)
    case None => s
    case Some(j) => s[..j]
  }

  lemma SecondPieceIsFirstPieceOfRest(s: string, sep: string, i: nat)
    requires sep != [] && IndexFrom(s, sep, 0) == Some(i)
    ensures SplitSecond(s, sep) == Some(FirstPiece(s[i + |sep|..], sep))
  {
    var rest := s[i + |sep|..];
    SplitAtFirst(s, sep, i);
    FirstPieceOfSplit(rest, sep);
  }

  lemma FirstPieceOfSplit(s: string, sep: string)
    requires sep != []
    ensures Split(s, sep)[0] == FirstPiece(s, sep)
  {
  }

  /** Where the first piece of the text from `p` on ends: at the end, or
      at the next occurrence of `sep`. */
  lemma PieceFrom(s: string, sep: string, p: nat, t: string)
    requires p <= |s| && t == FirstPiece(s[p..], sep)
    ensures p + |t| <= |s| && s[p..p + |t|] == t
    ensures p + |t| == |s| || IndexFrom(s, sep, p) == Some(p + |t|)
  {
    FirstPieceShape(s[p..], sep);
    SliceOfSuffix(s, p, t);
    if |t| < |s| - p {
      ShiftedOccurrence(s, sep, p, |t|);
    }
  }

  lemma SliceOfSuffix(s: string, p: nat, t: string)
    requires p <= |s| && |t| <= |s| - p && s[p..][..|t|] == t
    ensures s[p..p + |t|] == t
  {
    assert s[p..p + |t|] == s[p..][..|t|];
  }

  lemma ShiftedOccurrence(s: string, sep: string, p: nat, n: nat)
    requires p <= |s| && IndexFrom(s[p..], sep, 0) == Some(n)
    ensures IndexFrom(s, sep, p) == Some(p + n)
  {
    IndexFromShift(s, sep, p, 0);
  }

  /** The first piece is a prefix that ends at the first occurrence or at
      the end. */
  lemma FirstPieceShape(s: string, sep: string)
    ensures var t := FirstPiece(s, sep);
            |t| <= |s| && s[..|t|] == t && (|t| == |s| || IndexFrom(s, sep, 0) == Some(|t|))
  {
  }

  /** The second piece of a split is exactly the text between the first
      occurrence of the separator and the next one (or the end). */
  lemma SplitSecondBetweenOccurrences(s: string, sep: string, i: nat) returns (p: nat, t: string)
    requires sep != [] && IndexFrom(s, sep, 0) == Some(i)
    ensures p == i + |sep| && SplitSecond(s, sep) == Some(t)
    ensures p + |t| <= |s| && s[p..p + |t|] == t
    ensures p + |t| == |s| || IndexFrom(s, sep, p) == Some(p + |t|)
  {
    p := i + |sep|;
    t := FirstPiece(s[p..], sep);
    PieceFrom(s, sep, p, t);
    SecondPieceIsFirstPieceOfRest(s, sep, i);
  }

  /** A one-character separator occurs exactly where that character does. */
  lemma ContainsChar(s: string, c: char)
    ensures Contains(s, [c]) <==> c in s
  {
    if c in s {
      var k :| 0 <= k < |s| && s[k] == c;
      assert s[k..k + 1] == [c];
      assert OccursAt(s, [c], k);
    }
    if Contains(s, [c]) {
      var k: nat :| OccursAt(s, [c], k);
      assert s[k] == s[k..k + 1][0];
    }
  }

  /** The first occurrence of a character, as `indexOf` finds it. */
  lemma IndexOfChar(s: string, c: char, i: nat)
    requires i < |s| && s[i] == c && c !in s[..i]
    ensures IndexFrom(s, [c], 0) == Some(i)
  {
    forall k | 0 <= k < i ensures s[k] != c {
      assert s[..i][k] == s[k];
    }
    IndexOfCharFrom(s, c, 0, i);
  }

  lemma {:induction false} IndexOfCharFrom(s: string, c: char, from: nat, i: nat)
    requires from <= i < |s| && s[i] == c && forall k :: from <= k < i ==> s[k] != c
    decreases i - from
    ensures IndexFrom(s, [c], from) == Some(i)
  {
    assert s[from..from + 1] == [s[from]];
    if from < i {
      IndexOfCharFrom(s, c, from + 1, i);
    }
  }

  lemma {:induction false} FirstIndexOfCharFrom(s: string, c: char, from: nat, i: nat)
    requires IndexFrom(s, [c], from) == Some(i)
    decreases |s| - from
    ensures i < |s| && s[i] == c && forall k :: from <= k < i ==> s[k] != c
  {
    assert s[from..from + 1] == [s[from]];
    if s[from] != c {
      FirstIndexOfCharFrom(s, c, from + 1, i);
    }
  }

  lemma FirstIndexOfChar(s: string, c: char, i: nat)
    requires IndexFrom(s, [c], 0) == Some(i)
    ensures i < |s| && s[i] == c && c !in s[..i]
  {
    FirstIndexOfCharFrom(s, c, 0, i);
    assert forall k :: 0 <= k < i ==> s[..i][k] == s[k];
  }

  /** Splitting on a single character distributes over an occurrence of it. */
  lemma {:induction false} SplitCharConcat(a: string, c: char, b: string)
    ensures Split(a + [c] + b, [c]) == Split(a, [c]) + Split(b, [c])
    decreases |a|
  {
    var s := a + [c] + b;
    ContainsChar(a, c);
    IndexOfNoneIffAbsent(a, [c]);
    if c !in a {
      assert s[..|a|] == a && s[|a| + 1..] == b;
      IndexOfChar(s, c, |a|);
    } else {
      var i := IndexFrom(a, [c], 0).value;
      FirstIndexOfChar(a, c, i);
      assert s[..i] == a[..i];
      IndexOfChar(s, c, i);
      assert s[i + 1..] == a[i + 1..] + [c] + b;
      SplitCharConcat(a[i + 1..], c, b);
    }
  }

  /** A string without the character splits into itself. */
  lemma SplitCharAbsent(s: string, c: char)
    requires c !in s
    ensures Split(s, [c]) == [s]
  {
    ContainsChar(s, c);
    IndexOfNoneIffAbsent(s, [c]);
  }

  /** Splitting a join on a single character gives the pieces back, when no
      piece contains that character. */
  lemma {:induction false} SplitJoinChar(xs: seq<string>, c: char)
    requires |xs| >= 1
    requires forall j :: 0 <= j < |xs| ==> c !in xs[j]
    ensures Split(JoinWith(xs, [c]), [c]) == xs
  {
    if |xs| == 1 {
      SplitCharAbsent(xs[0], c);
    } else {
      SplitJoinChar(xs[1..], c);
      SplitCharAbsent(xs[0], c);
      SplitCharConcat(xs[0], c, JoinWith(xs[1..], [c]));
    }
  }

  /** No piece of a split on a character holds that character. */
  lemma SplitCharPieces(s: string, c: char)
    ensures forall j :: 0 <= j < |Split(s, [c])| ==> c !in Split(s, [c])[j]
  {
    SplitPiecesAvoidSep(s, [c]);
    forall j | 0 <= j < |Split(s, [c])|
      ensures c !in Split(s, [c])[j]
    {
      ContainsChar(Split(s, [c])[j], c);
    }
  }

  /** `s.replace(pat, rep)` with a string pattern: only the first occurrence
      is replaced. `rep` is taken literally. */
  function ReplaceFirst(s: string, pat: string, rep: string): string {
    match IndexFrom(s, pat, 0)
    case None => s
    case Some(i) => s[..i] + rep + s[i + |pat|..]
  }

  /** `replace` with a string pattern leaves a string without the pattern
      alone, and otherwise swaps the leftmost occurrence only. */
  lemma ReplaceFirstSpec(s: string, pat: string, rep: string)
    ensures !Contains(s, pat) ==> ReplaceFirst(s, pat, rep) == s
    ensures Contains(s, pat) ==>
              exists i: nat :: OccursAt(s, pat, i) && (forall k: nat :: k < i ==> !OccursAt(s, pat, k)) &&
                               ReplaceFirst(s, pat, rep) == s[..i] + rep + s[i + |pat|..]
  {
    IndexOfNoneIffAbsent(s, pat);
    match IndexFrom(s, pat, 0)
    case None =>
    case Some(i) =>
      FirstFound(s, pat, i);
      ReplaceAt(s, pat, rep, i);
  }

  /** What `indexOf` finds is the leftmost occurrence. */
  lemma FirstFound(s: string, pat: string, i: nat)
    requires IndexFrom(s, pat, 0) == Some(i)
    ensures OccursAt(s, pat, i) && forall k: nat :: k < i ==> !OccursAt(s, pat, k)
  {
    IndexFromSpec(s, pat, 0);
  }

  lemma ReplaceAt(s: string, pat: string, rep: string, i: nat)
    requires IndexFrom(s, pat, 0) == Some(i)
    ensures ReplaceFirst(s, pat, rep) == s[..i] + rep + s[i + |pat|..]
  {
  }

  /** `s.endsWith(suffix)`. */
  predicate EndsWith(s: string, suffix: string) {
    |suffix| <= |s| && s[|s| - |suffix|..] == suffix
  }

  /** `endsWith` holds exactly when the string is something followed by the
      suffix. */
  lemma EndsWithIffSuffix(s: string, suffix: string)
    ensures EndsWith(s, suffix) <==> exists a :: s == a + suffix
  {
    if EndsWith(s, suffix) {
      assert s == s[..|s| - |suffix|] + suffix;
    }
    forall a | s == a + suffix
      ensures EndsWith(s, suffix)
    {
      assert s[|s| - |suffix|..] == suffix;
    }
  }

  /** `s.slice(start)` for a non-negative start. */
  function SliceFrom(s: string, start: nat): (r: string)
    ensures start <= |s| ==> s == s[..start] + r
    ensures start >= |s| ==> r == ""
  {
    if start >= |s| then "" else s[start..]
  }
}
