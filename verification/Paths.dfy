/**
 Path normalisation: `PATH.normalizeArray`, which edits a list from right to left with a counter of
 pending "..", and `PATH_FS.resolve` and `PATH_FS.relative` built on it.
 */
module Paths {

  const HERE := "."
  const UP := ".."

  // ---------------------------------------------------------------------------------------------
  // Left to right: a stack of parts
  // ---------------------------------------------------------------------------------------------

  function Pop(stack: seq<string>, allowAboveRoot: bool): seq<string> {
    if stack != [] && stack[|stack| - 1] != UP then stack[..|stack| - 1]
    else if allowAboveRoot then stack + [UP]
    else stack
  }

  function Visit(stack: seq<string>, part: string, allowAboveRoot: bool): seq<string> {
    if part == HERE then stack else if part == UP then Pop(stack, allowAboveRoot) else stack + [part]
  }

  /** Where one ends up by walking `parts` from `stack`. */
  function Walk(stack: seq<string>, parts: seq<string>, allowAboveRoot: bool): seq<string>
    decreases |parts|
  {
    if parts == [] then stack else Walk(Visit(stack, parts[0], allowAboveRoot), parts[1..], allowAboveRoot)
  }

  function Normalized(parts: seq<string>, allowAboveRoot: bool): seq<string> {
    Walk([], parts, allowAboveRoot)
  }

  lemma {:induction false} WalkConcat(stack: seq<string>, a: seq<string>, b: seq<string>, allowAboveRoot: bool)
    ensures Walk(stack, a + b, allowAboveRoot) == Walk(Walk(stack, a, allowAboveRoot), b, allowAboveRoot)
    decreases |a|
  {
    if a == [] {
      assert a + b == b;
    } else {
      assert (a + b)[1..] == a[1..] + b;
      WalkConcat(Visit(stack, a[0], allowAboveRoot), a[1..], b, allowAboveRoot);
    }
  }

  // ---------------------------------------------------------------------------------------------
  // Right to left: a counter of pending ".."
  // ---------------------------------------------------------------------------------------------

  datatype Scanned = Scanned(up: nat, kept: seq<string>)

  /** What the loop of `normalizeArray` has made of a suffix. */
  function Scan(parts: seq<string>): Scanned {
    if parts == [] then Scanned(0, [])
    else
      var rest := Scan(parts[1..]);
      if parts[0] == HERE then rest
      else if parts[0] == UP then Scanned(rest.up + 1, rest.kept)
      else if rest.up > 0 then Scanned(rest.up - 1, rest.kept)
      else Scanned(0, [parts[0]] + rest.kept)
  }

  function Ups(n: nat): (ups: seq<string>)
    ensures |ups| == n && forall k :: 0 <= k < n ==> ups[k] == UP
  {
    seq(n, _ => UP)
  }

  function PopMany(stack: seq<string>, n: nat, allowAboveRoot: bool): seq<string>
    decreases n
  {
    if n == 0 then stack else PopMany(Pop(stack, allowAboveRoot), n - 1, allowAboveRoot)
  }

  /** The effect of a suffix on any stack is to pop what the counter says and push what was kept. */
  lemma {:induction false} WalkIsScan(stack: seq<string>, parts: seq<string>, allowAboveRoot: bool)
    ensures Walk(stack, parts, allowAboveRoot) == PopMany(stack, Scan(parts).up, allowAboveRoot) + Scan(parts).kept
    decreases |parts|
  {
    if parts != [] {
      WalkIsScan(Visit(stack, parts[0], allowAboveRoot), parts[1..], allowAboveRoot);
      if parts[0] != HERE && parts[0] != UP {
        if Scan(parts[1..]).up > 0 {
          assert Pop(stack + [parts[0]], allowAboveRoot) == stack;
        } else {
          assert stack + [parts[0]] + Scan(parts[1..]).kept == stack + ([parts[0]] + Scan(parts[1..]).kept);
        }
      }
    }
  }

  lemma {:induction false} PopUps(m: nat, n: nat, allowAboveRoot: bool)
    requires m > 0 ==> allowAboveRoot
    ensures PopMany(Ups(m), n, allowAboveRoot) == if allowAboveRoot then Ups(m + n) else []
    decreases n
  {
    if n > 0 {
      if allowAboveRoot {
        assert Pop(Ups(m), allowAboveRoot) == Ups(m + 1);
        PopUps(m + 1, n - 1, allowAboveRoot);
      } else {
        assert Ups(m) == [];
        PopUps(m, n - 1, allowAboveRoot);
      }
    }
  }

  lemma NormalizedIsScan(parts: seq<string>, allowAboveRoot: bool)
    ensures Normalized(parts, allowAboveRoot) == (if allowAboveRoot then Ups(Scan(parts).up) else []) + Scan(parts).kept
  {
    WalkIsScan([], parts, allowAboveRoot);
    assert Ups(0) == [];
    PopUps(0, Scan(parts).up, allowAboveRoot);
  }

  /** `parts.splice(i, 1)` */
  function Without<T>(s: seq<T>, i: nat): seq<T>
    requires i < |s|
  {
    s[..i] + s[i + 1..]
  }

  /** One turn of the loop, on what it has made of the suffix behind position `i`. */
  lemma ScanOneMore(parts: seq<string>, i: nat)
    requires i < |parts|
    ensures var rest, last := Scan(parts[i + 1..]), parts[i];
      Scan(parts[i..]) ==
        if last == HERE then rest
        else if last == UP then Scanned(rest.up + 1, rest.kept)
        else if rest.up > 0 then Scanned(rest.up - 1, rest.kept)
        else Scanned(0, [last] + rest.kept)
  {
    assert parts[i..][1..] == parts[i + 1..];
  }

  /** The loop has dealt with everything behind position `i`. */
  ghost predicate Edited(input: seq<string>, i: int, parts: seq<string>, up: nat) {
    -1 <= i < |input| && parts == input[..i + 1] + Scan(input[i + 1..]).kept && up == Scan(input[i + 1..]).up
  }

  lemma EditStart(input: seq<string>)
    ensures Edited(input, |input| - 1, input, 0)
  {
    assert input[..|input|] == input && input[|input|..] == [];
  }

  lemma EditStep(input: seq<string>, i: nat, parts: seq<string>, up: nat)
    requires Edited(input, i, parts, up)
    ensures i < |parts|
    ensures parts[i] == HERE ==> Edited(input, i - 1, Without(parts, i), up)
    ensures parts[i] == UP ==> Edited(input, i - 1, Without(parts, i), up + 1)
    ensures parts[i] != HERE && parts[i] != UP && up > 0 ==> Edited(input, i - 1, Without(parts, i), up - 1)
    ensures parts[i] != HERE && parts[i] != UP && up == 0 ==> Edited(input, i - 1, parts, up)
  {
    hide Scan;
    ScanOneMore(input, i);
    var kept := Scan(input[i + 1..]).kept;
    assert input[..i + 1] == input[..i] + [input[i]];
    assert Without(parts, i) == input[..i] + kept;
    assert input[..i] + ([input[i]] + kept) == parts;
  }

  lemma EditEnd(input: seq<string>, parts: seq<string>, up: nat)
    requires Edited(input, -1, parts, up)
    ensures parts == Scan(input).kept && up == Scan(input).up
  {
    assert input[0..] == input && input[..0] == [];
  }

  /** `for (; up; up--) parts.unshift("..")` */
  method UnshiftUps(kept: seq<string>, n: nat) returns (parts: seq<string>)
    ensures parts == Ups(n) + kept
  {
    parts := kept;
    var up: nat := n;
    assert Ups(0) + kept == kept;
    while up > 0
      invariant up <= n && parts == Ups(n - up) + kept
      decreases up
    {
      parts := [UP] + parts;
      up := up - 1;
    }
  }

  /** The right-to-left edit computes what the left-to-right stack does. */
  method NormalizeArray(input: seq<string>, allowAboveRoot: bool) returns (parts: seq<string>)
    ensures parts == Normalized(input, allowAboveRoot)
  {
    hide Edited, Scan, Normalized, Without;
    parts := input;
    var up: nat := 0;
    var i := |parts| - 1;
    EditStart(input);
    while i >= 0
      invariant i >= -1 && Edited(input, i, parts, up)
    {
      EditStep(input, i, parts, up);
      var last := parts[i];
      if last == HERE {
        parts := Without(parts, i);
      } else if last == UP {
        parts := Without(parts, i);
        up := up + 1;
      } else if up > 0 {
        parts := Without(parts, i);
        up := up - 1;
      }
      i := i - 1;
    }
    EditEnd(input, parts, up);
    NormalizedIsScan(input, allowAboveRoot);
    if allowAboveRoot { parts := UnshiftUps(parts, up); } else { assert [] + parts == parts; }
  }

  // ---------------------------------------------------------------------------------------------
  // What normal lists look like
  // ---------------------------------------------------------------------------------------------

  ghost predicate Names(parts: seq<string>) {
    forall k :: 0 <= k < |parts| ==> parts[k] != HERE && parts[k] != UP
  }

  /** No ".", and ".." only as a leading run, which is empty below a root. */
  ghost predicate Normal(parts: seq<string>, allowAboveRoot: bool) {
    exists n: nat :: n <= |parts| && (!allowAboveRoot ==> n == 0) && parts[..n] == Ups(n) && Names(parts[n..])
  }

  lemma {:induction false} ScanKeepsNames(parts: seq<string>)
    ensures Names(Scan(parts).kept)
  {
    if parts != [] { ScanKeepsNames(parts[1..]); }
  }

  lemma NormalizedIsNormal(parts: seq<string>, allowAboveRoot: bool)
    ensures Normal(Normalized(parts, allowAboveRoot), allowAboveRoot)
  {
    NormalizedIsScan(parts, allowAboveRoot);
    ScanKeepsNames(parts);
    var n := if allowAboveRoot then Scan(parts).up else 0;
    var out := Normalized(parts, allowAboveRoot);
    assert out[..n] == Ups(n) && out[n..] == Scan(parts).kept;
  }

  lemma {:induction false} ScanOfNormal(n: nat, names: seq<string>)
    requires Names(names)
    ensures Scan(Ups(n) + names) == Scanned(n, names)
    decreases n + |names|
  {
    var all := Ups(n) + names;
    if n > 0 {
      assert all[1..] == Ups(n - 1) + names;
      ScanOfNormal(n - 1, names);
    } else if names != [] {
      assert all == names && names[1..] == Ups(0) + names[1..];
      ScanOfNormal(0, names[1..]);
      assert [names[0]] + names[1..] == names;
    }
  }

  /** Exactly the normal lists are left as they are, so normalising twice is normalising once. */
  lemma NormalIffFixed(parts: seq<string>, allowAboveRoot: bool)
    ensures Normal(parts, allowAboveRoot) <==> Normalized(parts, allowAboveRoot) == parts
  {
    NormalizedIsNormal(parts, allowAboveRoot);
    if Normal(parts, allowAboveRoot) {
      var n: nat :| n <= |parts| && (!allowAboveRoot ==> n == 0) && parts[..n] == Ups(n) && Names(parts[n..]);
      assert parts == Ups(n) + parts[n..];
      ScanOfNormal(n, parts[n..]);
      NormalizedIsScan(parts, allowAboveRoot);
    }
  }

  lemma NormalizeTwice(parts: seq<string>, allowAboveRoot: bool)
    ensures Normalized(Normalized(parts, allowAboveRoot), allowAboveRoot) == Normalized(parts, allowAboveRoot)
  {
    NormalizedIsNormal(parts, allowAboveRoot);
    NormalIffFixed(Normalized(parts, allowAboveRoot), allowAboveRoot);
  }

  // ---------------------------------------------------------------------------------------------
  // Strings and their parts
  // ---------------------------------------------------------------------------------------------

  /** `path.split("/")` */
  function Split(path: string): (parts: seq<string>)
    ensures parts != []
  {
    if path == "" then [""] else Prefixed(path[0], Split(path[1..]))
  }

  /** The parts of a path with one more character in front. */
  function Prefixed(c: char, parts: seq<string>): (longer: seq<string>)
    requires parts != []
    ensures longer != []
  {
    if c == '/' then [""] + parts else [[c] + parts[0]] + parts[1..]
  }

  /** `.filter(p => !!p)` */
  function NonEmpty(parts: seq<string>): seq<string> {
    if parts == [] then [] else (if parts[0] == "" then [] else [parts[0]]) + NonEmpty(parts[1..])
  }

  function Parts(path: string): seq<string> { NonEmpty(Split(path)) }

  /** `.join("/")` */
  function Join(parts: seq<string>): string {
    if parts == [] then "" else if |parts| == 1 then parts[0] else parts[0] + "/" + Join(parts[1..])
  }

  predicate IsAbs(path: string) { path != "" && path[0] == '/' }

  lemma {:induction false} NonEmptyConcat(a: seq<string>, b: seq<string>)
    ensures NonEmpty(a + b) == NonEmpty(a) + NonEmpty(b)
  {
    if a == [] {
      assert a + b == b;
    } else {
      assert (a + b)[1..] == a[1..] + b;
      NonEmptyConcat(a[1..], b);
    }
  }

  lemma {:induction false} SplitConcat(a: string, b: string)
    ensures Split(a + "/" + b) == Split(a) + Split(b)
  {
    if a == "" {
      assert (a + "/" + b)[1..] == b;
    } else {
      assert (a + "/" + b)[1..] == a[1..] + "/" + b;
      SplitConcat(a[1..], b);
      PrefixedConcat(a[0], Split(a[1..]), Split(b));
    }
  }

  lemma PrefixedConcat(c: char, first: seq<string>, second: seq<string>)
    requires first != []
    ensures Prefixed(c, first + second) == Prefixed(c, first) + second
  {
    assert (first + second)[1..] == first[1..] + second;
  }

  lemma PartsConcat(a: string, b: string)
    ensures Parts(a + "/" + b) == Parts(a) + Parts(b)
  {
    SplitConcat(a, b);
    NonEmptyConcat(Split(a), Split(b));
  }

  /** Non-empty and without a slash. */
  ghost predicate Segments(parts: seq<string>) {
    forall k :: 0 <= k < |parts| ==> parts[k] != "" && '/' !in parts[k]
  }

  lemma {:induction false} SplitHasNoSlash(path: string)
    ensures forall k :: 0 <= k < |Split(path)| ==> '/' !in Split(path)[k]
  {
    if path != "" { SplitHasNoSlash(path[1..]); }
  }

  lemma {:induction false} NonEmptyKeepsNoSlash(parts: seq<string>)
    requires forall k :: 0 <= k < |parts| ==> '/' !in parts[k]
    ensures Segments(NonEmpty(parts))
  {
    if parts != [] { NonEmptyKeepsNoSlash(parts[1..]); }
  }

  lemma PartsAreSegments(path: string)
    ensures Segments(Parts(path))
  {
    SplitHasNoSlash(path);
    NonEmptyKeepsNoSlash(Split(path));
  }

  lemma {:induction false} ScanKeepsSegments(parts: seq<string>)
    requires Segments(parts)
    ensures Segments(Scan(parts).kept)
  {
    if parts != [] { ScanKeepsSegments(parts[1..]); }
  }

  lemma {:induction false} SplitSegment(segment: string)
    requires '/' !in segment
    ensures Split(segment) == [segment]
  {
    if segment != "" {
      SplitSegment(segment[1..]);
      assert [segment[0]] + segment[1..] == segment;
    }
  }

  /** Splitting undoes joining. */
  lemma {:induction false} SplitJoin(parts: seq<string>)
    requires Segments(parts)
    ensures Split(Join(parts)) == if parts == [] then [""] else parts
    ensures Join(parts) == "" <==> parts == []
    ensures parts != [] ==> Join(parts)[0] == parts[0][0]
  {
    hide Split;
    if parts == [] {
      SplitSegment("");
    } else if |parts| == 1 {
      SplitSegment(parts[0]);
      assert parts == [parts[0]];
    } else {
      SplitJoin(parts[1..]);
      SplitConcat(parts[0], Join(parts[1..]));
      SplitSegment(parts[0]);
      assert parts == [parts[0]] + parts[1..];
    }
  }

  /** And joining undoes splitting, for any path. */
  lemma {:induction false} JoinSplit(path: string)
    ensures Join(Split(path)) == path
  {
    if path != "" {
      JoinSplit(path[1..]);
      JoinPrefixed(path[0], Split(path[1..]));
      assert [path[0]] + path[1..] == path;
    }
  }

  lemma JoinPrefixed(c: char, parts: seq<string>)
    requires parts != []
    ensures Join(Prefixed(c, parts)) == [c] + Join(parts)
  {
    var longer := Prefixed(c, parts);
    assert longer[1..] == if c == '/' then parts else parts[1..];
    if c == '/' {
      assert Join(longer) == "" + "/" + Join(parts);
    } else if |parts| > 1 {
      assert [c] + parts[0] + "/" + Join(parts[1..]) == [c] + (parts[0] + "/" + Join(parts[1..]));
    }
  }

  lemma {:induction false} NonEmptyOfSegments(parts: seq<string>)
    requires Segments(parts)
    ensures NonEmpty(parts) == parts
  {
    if parts != [] {
      NonEmptyOfSegments(parts[1..]);
      assert parts == [parts[0]] + parts[1..];
    }
  }

  lemma PartsJoin(parts: seq<string>)
    requires Segments(parts)
    ensures Parts(Join(parts)) == parts
  {
    SplitJoin(parts);
    NonEmptyOfSegments(parts);
    assert NonEmpty([""]) == [];
  }

  // ---------------------------------------------------------------------------------------------
  // PATH_FS.resolve
  // ---------------------------------------------------------------------------------------------

  /** The parts of a resolved path, with the rootedness that `resolve` found. */
  function Rendered(path: string, absolute: bool): string {
    var text := Join(Normalized(Parts(path), !absolute));
    var whole := (if absolute then "/" else "") + text;
    if whole == "" then "." else whole
  }

  /** The loop of `resolve`, about to look at argument `i`, or at the working directory when `i` is -1. */
  function ResolveFrom(args: seq<string>, cwd: string, i: int, resolvedPath: string, absolute: bool): string
    requires -2 <= i < |args|
    decreases i + 2
  {
    if i < -1 || absolute then Rendered(resolvedPath, absolute)
    else
      var path := if i >= 0 then args[i] else cwd;
      if path == "" then "" else ResolveFrom(args, cwd, i - 1, path + "/" + resolvedPath, IsAbs(path))
  }

  function Resolved(args: seq<string>, cwd: string): string { ResolveFrom(args, cwd, |args| - 1, "", false) }

  method Resolve(args: seq<string>, cwd: string) returns (r: string)
    ensures r == Resolved(args, cwd)
  {
    var resolvedPath, resolvedAbsolute := "", false;
    var i := |args| - 1;
    while i >= -1 && !resolvedAbsolute
      invariant -2 <= i < |args|
      invariant ResolveFrom(args, cwd, i, resolvedPath, resolvedAbsolute) == Resolved(args, cwd)
      decreases i + 2
    {
      var path := if i >= 0 then args[i] else cwd;
      if path == "" { return ""; }
      resolvedPath := path + "/" + resolvedPath;
      resolvedAbsolute := IsAbs(path);
      i := i - 1;
    }
    var parts := NormalizeArray(Parts(resolvedPath), !resolvedAbsolute);
    r := (if resolvedAbsolute then "/" else "") + Join(parts);
    if r == "" { r := "."; }
  }

  /** Changing directory: an absolute path starts over from the root. */
  function ChangeDir(at: seq<string>, path: string): seq<string> {
    Walk(if IsAbs(path) then [] else at, Parts(path), false)
  }

  function ChangeDirs(at: seq<string>, paths: seq<string>): seq<string> {
    if paths == [] then at else ChangeDir(ChangeDirs(at, paths[..|paths| - 1]), paths[|paths| - 1])
  }

  lemma {:induction false} ResolveFromIsChangeDirs(args: seq<string>, cwd: string, i: int, path: string)
    requires -1 <= i < |args| && IsAbs(cwd) && forall k :: 0 <= k <= i ==> args[k] != ""
    ensures ResolveFrom(args, cwd, i, path, false) == "/" + Join(Walk(ChangeDirs(Normalized(Parts(cwd), false), args[..i + 1]), Parts(path), false))
    decreases i + 1
  {
    hide Parts, Walk, Visit, Join;
    var next := if i >= 0 then args[i] else cwd;
    var start := Normalized(Parts(cwd), false);
    PartsConcat(next, path);
    if i >= 0 { assert args[..i + 1][..i] == args[..i] && args[..i + 1][i] == args[i]; }
    if IsAbs(next) {
      WalkConcat([], Parts(next), Parts(path), false);
    } else {
      ResolveFromIsChangeDirs(args, cwd, i - 1, next + "/" + path);
      WalkConcat(ChangeDirs(start, args[..i]), Parts(next), Parts(path), false);
    }
  }

  /** `resolve` reads its arguments from the right, yet ends where changing into each in turn would. */
  lemma ResolveIsChangingDirectories(args: seq<string>, cwd: string)
    requires IsAbs(cwd) && forall k :: 0 <= k < |args| ==> args[k] != ""
    ensures Resolved(args, cwd) == "/" + Join(ChangeDirs(Normalized(Parts(cwd), false), args))
  {
    ResolveFromIsChangeDirs(args, cwd, |args| - 1, "");
    assert args[..|args|] == args;
    assert Parts("") == [] by { assert NonEmpty([""]) == []; }
  }

  /** Nothing comes out exactly if an empty argument stands behind the last absolute one. */
  lemma ResolvesToNothingIff(args: seq<string>, cwd: string)
    requires IsAbs(cwd)
    ensures Resolved(args, cwd) == "" <==> exists k :: 0 <= k < |args| && args[k] == "" && forall i :: k < i < |args| ==> !IsAbs(args[i])
  {
    FromHereNothingIff(args, cwd, |args| - 1, "");
  }

  lemma {:induction false} FromHereNothingIff(args: seq<string>, cwd: string, i: int, path: string)
    requires -1 <= i < |args| && IsAbs(cwd)
    ensures ResolveFrom(args, cwd, i, path, false) == "" <==>
      exists k :: 0 <= k <= i && args[k] == "" && forall l :: k < l <= i ==> !IsAbs(args[l])
    decreases i
  {
    if i >= 0 && args[i] != "" && !IsAbs(args[i]) { FromHereNothingIff(args, cwd, i - 1, args[i] + "/" + path); }
  }

  /** A resolved path is rooted, and resolving it again, wherever one is, changes nothing. */
  lemma ResolvedTwice(args: seq<string>, cwd: string, elsewhere: string)
    requires IsAbs(cwd) && IsAbs(elsewhere) && forall k :: 0 <= k < |args| ==> args[k] != ""
    ensures IsAbs(Resolved(args, cwd)) && Resolved([Resolved(args, cwd)], elsewhere) == Resolved(args, cwd)
  {
    hide ChangeDirs, Parts, Names, Segments, Walk, Join;
    var place := ChangeDirs(Normalized(Parts(cwd), false), args);
    ResolveIsChangingDirectories(args, cwd);
    PlacesAreNames(args, cwd);
    var path := "/" + Join(place);
    RootedPlace(place);
    ResolveIsChangingDirectories([path], elsewhere);
    OneChange(Normalized(Parts(elsewhere), false), path);
  }

  lemma OneChange(at: seq<string>, path: string)
    ensures ChangeDirs(at, [path]) == ChangeDir(at, path)
  {
    assert [path][..0] == [];
  }

  lemma {:induction false} PlacesAreNames(args: seq<string>, cwd: string)
    ensures var place := ChangeDirs(Normalized(Parts(cwd), false), args); Names(place) && Segments(place)
  {
    hide Parts, Walk, Names, Segments;
    RootIsNames();
    if args == [] {
      PartsAreSegments(cwd);
      WalkKeepsNames([], Parts(cwd));
    } else {
      var last := args[|args| - 1];
      PlacesAreNames(args[..|args| - 1], cwd);
      PartsAreSegments(last);
      WalkKeepsNames(ChangeDirs(Normalized(Parts(cwd), false), args[..|args| - 1]), Parts(last));
      WalkKeepsNames([], Parts(last));
    }
  }

  /** The rendering of a place names that place. */
  lemma RootedPlace(place: seq<string>)
    requires Names(place) && Segments(place)
    ensures var path := "/" + Join(place); IsAbs(path) && forall at :: ChangeDir(at, path) == place
  {
    hide Join, Walk, Names, Segments;
    var path := "/" + Join(place);
    PartsConcat("", Join(place));
    assert "" + "/" + Join(place) == path && Parts("") == [] by { ClosingSlash(); }
    PartsJoin(place);
    assert Parts(path) == place;
    RootIsNames();
    WalkUpDown([], 0, place);
    assert Ups(0) + place == place && [][..0] + place == place;
  }

  lemma ClosingSlash()
    ensures Parts("") == []
  {
    assert NonEmpty([""]) == [];
  }

  // ---------------------------------------------------------------------------------------------
  // PATH_FS.relative
  // ---------------------------------------------------------------------------------------------

  /** `arr.slice(from, to)`, with an end before the start giving nothing. */
  function Slice<T>(s: seq<T>, from: nat, to: nat): seq<T>
    requires from <= |s|
  {
    var end := if to <= |s| then to else |s|;
    if from < end then s[from..end] else []
  }

  /** Drops empty strings at the front and, unless some were dropped there, exactly those at the back. */
  method Trim(arr: seq<string>) returns (r: seq<string>)
    ensures NonEmpty(arr) == arr ==> r == arr
    ensures arr == [""] ==> r == []
  {
    if NonEmpty(arr) == arr { AllNonEmpty(arr); }
    var start := 0;
    while start < |arr| && arr[start] == ""
      invariant 0 <= start <= |arr|
      invariant NonEmpty(arr) == arr ==> start == 0
    {
      start := start + 1;
    }
    var end := |arr| - 1;
    while end >= 0 && arr[end] == ""
      invariant -1 <= end < |arr|
      invariant NonEmpty(arr) == arr ==> end == |arr| - 1
      invariant arr == [""] ==> start == 1
    {
      end := end - 1;
    }
    if start > end { return []; }
    assert arr[0..|arr|] == arr;
    r := Slice(arr, start, end - start + 1);
  }

  lemma {:induction false} AllNonEmpty(parts: seq<string>)
    requires NonEmpty(parts) == parts
    ensures forall k :: 0 <= k < |parts| ==> parts[k] != ""
  {
    if parts != [] {
      NonEmptyShrinks(parts[1..]);
      assert NonEmpty(parts[1..]) == parts[1..] by {
        assert parts[0] != "" && NonEmpty(parts)[1..] == NonEmpty(parts[1..]);
      }
      AllNonEmpty(parts[1..]);
    }
  }

  lemma {:induction false} NonEmptyShrinks(parts: seq<string>)
    ensures |NonEmpty(parts)| <= |parts|
  {
    if parts != [] { NonEmptyShrinks(parts[1..]); }
  }

  function CommonLength(a: seq<string>, b: seq<string>): (n: nat)
    ensures n <= |a| && n <= |b|
  {
    if a == [] || b == [] || a[0] != b[0] then 0 else CommonLength(a[1..], b[1..]) + 1
  }

  /** It is the length at which the lists first part. */
  lemma {:induction false} CommonLengthIs(a: seq<string>, b: seq<string>, n: nat)
    requires n <= |a| && n <= |b| && a[..n] == b[..n]
    requires n < |a| && n < |b| ==> a[n] != b[n]
    ensures n == CommonLength(a, b)
  {
    if n > 0 {
      assert a[0] == a[..n][0] == b[..n][0] == b[0];
      assert a[1..][..n - 1] == a[..n][1..] && b[1..][..n - 1] == b[..n][1..];
      CommonLengthIs(a[1..], b[1..], n - 1);
    }
  }

  lemma {:induction false} CommonPrefix(a: seq<string>, b: seq<string>)
    ensures a[..CommonLength(a, b)] == b[..CommonLength(a, b)]
  {
    var n := CommonLength(a, b);
    if n > 0 {
      CommonPrefix(a[1..], b[1..]);
      assert a[..n] == [a[0]] + a[1..][..n - 1] && b[..n] == [b[0]] + b[1..][..n - 1];
    }
  }

  /** The way from one list of names to another. */
  function Steps(f: seq<string>, t: seq<string>): seq<string> {
    Ups(|f| - CommonLength(f, t)) + t[CommonLength(f, t)..]
  }

  /** The directory a path names; an empty one counts as the root. */
  function PlaceOf(path: string, cwd: string): seq<string> {
    if path == "" then [] else ChangeDir(Normalized(Parts(cwd), false), path)
  }

  lemma {:induction false} WalkKeepsNames(at: seq<string>, parts: seq<string>)
    requires Names(at) && Segments(at) && Segments(parts)
    ensures Names(Walk(at, parts, false)) && Segments(Walk(at, parts, false))
    decreases |parts|
  {
    if parts != [] { WalkKeepsNames(Visit(at, parts[0], false), parts[1..]); }
  }

  lemma PlaceIsNames(path: string, cwd: string)
    ensures Names(PlaceOf(path, cwd)) && Segments(PlaceOf(path, cwd))
  {
    hide Walk, Parts, Names, Segments;
    PartsAreSegments(cwd);
    PartsAreSegments(path);
    RootIsNames();
    WalkKeepsNames([], Parts(cwd));
    var start := Normalized(Parts(cwd), false);
    WalkKeepsNames(if IsAbs(path) then [] else start, Parts(path));
  }

  lemma RootIsNames()
    ensures Names([]) && Segments([])
  {}

  lemma ResolvedPlace(path: string, cwd: string)
    requires IsAbs(cwd)
    ensures Resolved([path], cwd) == if path == "" then "" else "/" + Join(PlaceOf(path, cwd))
  {
    if path != "" {
      ResolveIsChangingDirectories([path], cwd);
      assert [path][..0] == [];
    }
  }

  /** `path.substr(1)` */
  function Substr1(path: string): string { if path == "" then "" else path[1..] }

  /** Taking a resolved path apart again. */
  lemma ResolvedParts(path: string, cwd: string)
    requires IsAbs(cwd)
    ensures Split(Substr1(Resolved([path], cwd))) == if PlaceOf(path, cwd) == [] then [""] else PlaceOf(path, cwd)
    ensures NonEmpty(PlaceOf(path, cwd)) == PlaceOf(path, cwd)
  {
    hide PlaceOf, Resolved;
    var place := PlaceOf(path, cwd);
    ResolvedPlace(path, cwd);
    PlaceIsNames(path, cwd);
    SplitJoin(place);
    NonEmptyOfSegments(place);
    assert ("/" + Join(place))[1..] == Join(place);
    if path == "" { assert place == [] by { NoPlace(cwd); } }
  }

  lemma NoPlace(cwd: string)
    ensures PlaceOf("", cwd) == []
  {}

  /** The lists of `relative`, compared and combined. */
  method RelativeParts(fromParts: seq<string>, toParts: seq<string>) returns (outputParts: seq<string>)
    ensures outputParts == Steps(fromParts, toParts)
  {
    var length := if |fromParts| < |toParts| then |fromParts| else |toParts|;
    var samePartsLength := length;
    var i := 0;
    while i < length
      invariant 0 <= i <= length && samePartsLength == length && fromParts[..i] == toParts[..i]
    {
      if fromParts[i] != toParts[i] {
        samePartsLength := i;
        break;
      }
      i := i + 1;
    }
    CommonLengthIs(fromParts, toParts, samePartsLength);
    outputParts := [];
    for k := samePartsLength to |fromParts|
      invariant outputParts == Ups(k - samePartsLength)
    {
      outputParts := outputParts + [UP];
    }
    outputParts := outputParts + toParts[samePartsLength..];
  }

  method Relative(from: string, to: string, cwd: string) returns (r: string)
    requires IsAbs(cwd)
    ensures r == Join(Steps(PlaceOf(from, cwd), PlaceOf(to, cwd)))
  {
    var resolvedFrom := Resolve([from], cwd);
    var resolvedTo := Resolve([to], cwd);
    ResolvedParts(from, cwd);
    ResolvedParts(to, cwd);
    var fromParts := Trim(Split(Substr1(resolvedFrom)));
    var toParts := Trim(Split(Substr1(resolvedTo)));
    var outputParts := RelativeParts(fromParts, toParts);
    r := Join(outputParts);
  }

  lemma {:induction false} PopNames(names: seq<string>, n: nat)
    requires Names(names) && n <= |names|
    ensures PopMany(names, n, false) == names[..|names| - n]
    decreases n
  {
    if n > 0 {
      PopNames(names[..|names| - 1], n - 1);
      assert names[..|names| - 1][..|names| - n] == names[..|names| - n];
    }
  }

  /** Walking n times up and then down a list of names. */
  lemma WalkUpDown(f: seq<string>, n: nat, names: seq<string>)
    requires Names(f) && Names(names) && n <= |f|
    ensures Walk(f, Ups(n) + names, false) == f[..|f| - n] + names
  {
    hide Walk, Names, PopMany, Scan;
    ScanOfNormal(n, names);
    WalkIsScan(f, Ups(n) + names, false);
    PopNames(f, n);
  }

  lemma StepsLead(f: seq<string>, t: seq<string>)
    requires Names(f) && Names(t)
    ensures Walk(f, Steps(f, t), false) == t
  {
    hide Walk, CommonLength, Ups;
    var n := CommonLength(f, t);
    CommonPrefix(f, t);
    WalkUpDown(f, |f| - n, t[n..]);
    assert t == t[..n] + t[n..];
  }

  /** How far apart two places are: up to where they part, and down again. */
  function Distance(f: seq<string>, t: seq<string>): nat { |f| - CommonLength(f, t) + |t| - CommonLength(f, t) }

  /** One name more at the end: one further, or one nearer if it is the next on the way. */
  lemma {:induction false} DistanceOneMore(f: seq<string>, name: string, t: seq<string>)
    ensures Distance(f + [name], t) <= Distance(f, t) + 1 && Distance(f, t) <= Distance(f + [name], t) + 1
  {
    var longer := f + [name];
    if f == [] {
      assert longer[1..] == [];
    } else if t != [] && f[0] == t[0] {
      assert longer[1..] == f[1..] + [name];
      DistanceOneMore(f[1..], name, t[1..]);
    }
  }

  lemma {:induction false} DistanceToItself(t: seq<string>)
    ensures Distance(t, t) == 0
  {
    if t != [] { DistanceToItself(t[1..]); }
  }

  /** Each part of a path brings one a step nearer at best. */
  lemma {:induction false} WalkNeedsSteps(f: seq<string>, parts: seq<string>, t: seq<string>)
    requires Walk(f, parts, false) == t
    ensures |parts| >= Distance(f, t)
    decreases |parts|
  {
    if parts == [] {
      DistanceToItself(t);
    } else {
      var next := Visit(f, parts[0], false);
      WalkNeedsSteps(next, parts[1..], t);
      if |next| > |f| { DistanceOneMore(f, parts[0], t); }
      if |next| < |f| {
        assert f == next + [f[|f| - 1]];
        DistanceOneMore(next, f[|f| - 1], t);
      }
    }
  }

  /** There is no shorter way: whatever parts lead from one place to the other, they are as many at least. */
  lemma StepsAreShortest(f: seq<string>, t: seq<string>, parts: seq<string>)
    requires Names(f) && Names(t) && Walk(f, parts, false) == t
    ensures Walk(f, Steps(f, t), false) == t && |Steps(f, t)| <= |parts|
  {
    StepsLead(f, t);
    WalkNeedsSteps(f, parts, t);
  }

  lemma StepsAreSegments(f: seq<string>, t: seq<string>)
    requires Segments(t)
    ensures Segments(Steps(f, t))
  {
  }

  lemma StepsEmpty(f: seq<string>, t: seq<string>)
    ensures Steps(f, t) == [] <==> f == t
  {
    CommonPrefix(f, t);
    if f == t { CommonLengthIs(f, t, |f|); }
    if Steps(f, t) == [] {
      assert CommonLength(f, t) == |f| == |t|;
      assert f == f[..|f|] && t == t[..|t|];
    }
  }

  /** A relative path that is not empty leads from one place to the other. */
  lemma RelativeLeads(from: string, to: string, cwd: string)
    requires IsAbs(cwd) && from != "" && PlaceOf(from, cwd) != PlaceOf(to, cwd)
    ensures var rel := Join(Steps(PlaceOf(from, cwd), PlaceOf(to, cwd)));
      Resolved([from, rel], cwd) == "/" + Join(PlaceOf(to, cwd))
  {
    hide Resolved, Steps, Join;
    var f, t, start := PlaceOf(from, cwd), PlaceOf(to, cwd), Normalized(Parts(cwd), false);
    var rel := Join(Steps(f, t));
    RelativeIsRelative(from, to, cwd);
    ResolveIsChangingDirectories([from, rel], cwd);
    assert [from, rel][..1] == [from] && [from][..0] == [];
    assert ChangeDirs(start, [from, rel]) == ChangeDir(ChangeDirs(start, [from]), rel) == ChangeDir(f, rel);
    PlaceIsNames(from, cwd);
    PlaceIsNames(to, cwd);
    StepsLead(f, t);
    StepsAreSegments(f, t);
    PartsJoin(Steps(f, t));
  }

  lemma RelativeIsRelative(from: string, to: string, cwd: string)
    ensures var rel := Join(Steps(PlaceOf(from, cwd), PlaceOf(to, cwd)));
      !IsAbs(rel) && (rel == "" <==> PlaceOf(from, cwd) == PlaceOf(to, cwd))
  {
    hide PlaceOf;
    var f, t := PlaceOf(from, cwd), PlaceOf(to, cwd);
    PlaceIsNames(to, cwd);
    StepsAreSegments(f, t);
    StepsEmpty(f, t);
    SplitJoin(Steps(f, t));
  }

  /** An empty argument is met before the working directory, whatever relative path follows it. */
  lemma EmptyResolvesToNothing(rel: string, cwd: string)
    requires !IsAbs(rel)
    ensures Resolved(["", rel], cwd) == ""
  {
    assert Resolved(["", rel], cwd) == ResolveFrom(["", rel], cwd, 1, "", false);
    if rel != "" { assert ResolveFrom(["", rel], cwd, 0, rel + "/", false) == ""; }
  }

  /**
   Resolving the relative path against its origin leads to the target, except when both name the same place:
   the relative path is then empty, and an empty argument makes `resolve` return nothing. That nothing is what
   an empty target resolves to as well, which `relative` takes for the root.
   */
  lemma RelativeLeadsThereIff(from: string, to: string, cwd: string)
    requires IsAbs(cwd)
    ensures var rel := Join(Steps(PlaceOf(from, cwd), PlaceOf(to, cwd)));
      Resolved([from, rel], cwd) == Resolved([to], cwd) <==>
        if from == "" then to == ""
        else if to == "" then Resolved([from], cwd) == "/"
        else Resolved([from], cwd) != Resolved([to], cwd)
  {
    hide Resolved, PlaceOf, Steps, Join;
    var f, t := PlaceOf(from, cwd), PlaceOf(to, cwd);
    var rel := Join(Steps(f, t));
    RelativeIsRelative(from, to, cwd);
    ResolvedPlace(from, cwd);
    ResolvedPlace(to, cwd);
    PlaceIsNames(from, cwd);
    PlaceIsNames(to, cwd);
    JoinTellsApart(f, t);
    if from == "" {
      EmptyResolvesToNothing(rel, cwd);
    } else if f == t {
      assert Resolved([from, ""], cwd) == "" by { NothingResolves(from, cwd); }
    } else {
      RelativeLeads(from, to, cwd);
    }
    if to == "" {
      NoPlace(cwd);
      RootAlone(f);
    }
  }

  lemma NothingResolves(from: string, cwd: string)
    ensures Resolved([from, ""], cwd) == ""
  {}

  lemma RootAlone(place: seq<string>)
    requires Segments(place)
    ensures "/" + Join(place) == "/" <==> place == []
  {
    JoinTellsApart(place, []);
    assert "/" + Join([]) == "/";
  }

  /** The way from a directory to itself: empty, so that resolving it gives nothing instead of the directory. */
  lemma RelativeToItself(path: string, cwd: string)
    requires IsAbs(cwd) && path != ""
    ensures var rel := Join(Steps(PlaceOf(path, cwd), PlaceOf(path, cwd)));
      rel == "" && Resolved([path, rel], cwd) == "" && Resolved([path], cwd) != ""
  {
    hide PlaceOf, Steps;
    RelativeIsRelative(path, path, cwd);
    ResolvedPlace(path, cwd);
  }

  lemma JoinTellsApart(a: seq<string>, b: seq<string>)
    requires Segments(a) && Segments(b)
    ensures "/" + Join(a) == "/" + Join(b) <==> a == b
  {
    PartsJoin(a);
    PartsJoin(b);
    assert ("/" + Join(a))[1..] == Join(a) && ("/" + Join(b))[1..] == Join(b);
  }
}
