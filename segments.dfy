/** The three path helpers every revision of the multiplexer carries:
    `getPaths` (the segment prefixes of a request), `removePartsFromPath`
    (identifier segments replaced by a placeholder) and `getIdSpecifiers`
    (the positions of `{...}` segments), whose three revisions differ. */
module Segments {
  import opened Panics
  import opened Text

  /** `strings.Split(path, "/")[1:]`: the pieces after the first separator. */
  function Parts(path: string): seq<string>
  {
    Split(path)[1..]
  }

  lemma PartsNoSlash(path: string)
    ensures NoSlash(Parts(path))
  {
    SplitNoSlash(path);
  }

  /** A path has pieces after the first exactly when it contains a separator. */
  lemma PartsEmpty(path: string)
    ensures Parts(path) == [] <==> '/' !in path
  {
    SplitSingleton(path);
  }

  lemma PartsOfSlashed(parts: seq<string>)
    requires NoSlash(parts)
    ensures Parts(Slashed(parts)) == parts
  {
    SplitSlashed(parts);
  }

  // ---------------------------------------------------------------- getPaths

  /** The cumulative prefixes "/p0", "/p0/p1", ... of a list of segments. */
  function Prefixes(parts: seq<string>): (r: seq<string>)
    ensures |r| == |parts|
  {
    if |parts| == 0 then [] else Prefixes(parts[..|parts| - 1]) + [Slashed(parts)]
  }

  /** Entry k of the prefixes is the slashed form of the first k + 1 segments. */
  lemma {:induction false} PrefixesAt(parts: seq<string>)
    ensures forall k :: 0 <= k < |parts| ==> Prefixes(parts)[k] == Slashed(parts[..k + 1])
    decreases |parts|
  {
    if parts != [] {
      var n := |parts| - 1;
      var init := parts[..n];
      PrefixesAt(init);
      forall k | 0 <= k < |parts|
        ensures Prefixes(parts)[k] == Slashed(parts[..k + 1])
      {
        if k < n {
          assert init[..k + 1] == parts[..k + 1];
        } else {
          assert parts[..k + 1] == parts;
        }
      }
    }
  }

  /** What `getPaths(fullPath)` returns: "/" and then every cumulative prefix of the
      pieces after the first separator. */
  function PathsOf(fullPath: string): (paths: seq<string>)
  {
    ["/"] + Prefixes(Parts(fullPath))
  }

  /** `getPaths` in every revision. */
  method GetPaths(fullPath: string) returns (paths: seq<string>)
    ensures paths == PathsOf(fullPath)
  {
    paths := [];
    paths := paths + ["/"];
    var parts := Split(fullPath)[1..];
    var lastString := "";
    for i := 0 to |parts|
      invariant lastString == Slashed(parts[..i])
      invariant paths == ["/"] + Prefixes(parts[..i])
    {
      assert parts[..i + 1][..i] == parts[..i];
      lastString := lastString + "/" + parts[i];
      paths := paths + [lastString];
    }
    assert parts[..|parts|] == parts;
  }

  /** `getPaths` lists one path more than there are separators: "/" first, then the
      prefix ending before each later separator and, for a path that starts with '/',
      the whole path last. */
  lemma PathsOfShape(fullPath: string)
    ensures |PathsOf(fullPath)| == |Split(fullPath)|
    ensures PathsOf(fullPath)[0] == "/"
    ensures forall k :: 1 <= k < |PathsOf(fullPath)| ==>
      PathsOf(fullPath)[k] == Slashed(Parts(fullPath)[..k])
    ensures fullPath != [] && fullPath[0] == '/' ==>
      PathsOf(fullPath)[|PathsOf(fullPath)| - 1] == fullPath
  {
    var parts := Parts(fullPath);
    PrefixesAt(parts);
    if fullPath != [] && fullPath[0] == '/' {
      SlashedSplit(fullPath);
      assert parts != [] by { PartsEmpty(fullPath); }
      assert parts[..|parts|] == parts;
    }
  }

  /** `getPaths` lists one path more than there are slashes in its input. */
  lemma PathsCount(fullPath: string)
    ensures |PathsOf(fullPath)| == 1 + multiset(fullPath)['/']
  {
    PathsOfShape(fullPath);
    SplitLength(fullPath);
  }

  lemma SlashedStartsWithSlash(parts: seq<string>)
    requires parts != []
    ensures Slashed(parts) != [] && Slashed(parts)[0] == '/'
  {
    var init := parts[..|parts| - 1];
    if init != [] {
      SlashedStartsWithSlash(init);
    }
  }

  /** For a path that starts with '/', every entry of `getPaths` after "/" is a prefix of
      the path that ends where a segment ends: the path goes on with '/' or stops. */
  lemma PathsArePrefixes(fullPath: string, k: nat)
    requires fullPath != [] && fullPath[0] == '/'
    requires 1 <= k < |PathsOf(fullPath)|
    ensures var q := PathsOf(fullPath)[k];
      |q| <= |fullPath| && fullPath[..|q|] == q && (|q| == |fullPath| || fullPath[|q|] == '/')
  {
    PathsOfShape(fullPath);
    var parts := Parts(fullPath);
    SlashedSplit(fullPath);
    assert parts == parts[..k] + parts[k..];
    SlashedAppend(parts[..k], parts[k..]);
    var q := Slashed(parts[..k]);
    var rest := Slashed(parts[k..]);
    assert fullPath == q + rest;
    if parts[k..] != [] {
      SlashedStartsWithSlash(parts[k..]);
      assert fullPath[|q|] == rest[0];
    }
    assert fullPath[..|q|] == q;
  }

  /** The segment prefixes of a slashed path are those of its segments. */
  lemma PathsOfSlashed(parts: seq<string>)
    requires NoSlash(parts)
    ensures PathsOf(Slashed(parts)) == ["/"] + Prefixes(parts)
  {
    PartsOfSlashed(parts);
  }

  // ----------------------------------------------------- removePartsFromPath

  /** The segments with every listed position replaced by the placeholder. */
  function Replace(parts: seq<string>, positions: seq<nat>, placeholder: string): (r: seq<string>)
    ensures |r| == |parts|
  {
    if |parts| == 0 then []
    else
      var n := |parts| - 1;
      Replace(parts[..n], positions, placeholder)
        + [if n in positions then placeholder else parts[n]]
  }

  /** Segment i becomes the placeholder exactly when i is listed; every other segment
      is copied unchanged. */
  lemma {:induction false} ReplaceAt(parts: seq<string>, positions: seq<nat>, placeholder: string)
    ensures forall i :: 0 <= i < |parts| ==>
      Replace(parts, positions, placeholder)[i] == (if i in positions then placeholder else parts[i])
    decreases |parts|
  {
    if |parts| != 0 {
      var n := |parts| - 1;
      ReplaceAt(parts[..n], positions, placeholder);
      var init := Replace(parts[..n], positions, placeholder);
      assert Replace(parts, positions, placeholder) ==
        init + [if n in positions then placeholder else parts[n]];
    }
  }

  /** One more segment adds one "/" + segment, or "/" + placeholder at a listed position. */
  lemma ReplaceStep(parts: seq<string>, i: nat, positions: seq<nat>, placeholder: string)
    requires i < |parts|
    ensures Slashed(Replace(parts[..i + 1], positions, placeholder)) ==
      Slashed(Replace(parts[..i], positions, placeholder)) + "/"
        + (if i in positions then placeholder else parts[i])
  {
    assert parts[..i + 1][..i] == parts[..i];
    var r := Replace(parts[..i + 1], positions, placeholder);
    assert r[..i] == Replace(parts[..i], positions, placeholder);
  }

  /** What `removePartsFromPath(path, positions)` returns: it panics on a path without
      '/' (it reads the last of no pieces); otherwise one trailing empty piece is dropped
      and every piece becomes "/" + piece, or "/" + placeholder at a listed position. */
  function Rewrite(path: string, positions: seq<nat>, placeholder: string): (r: Result<string>)
    ensures r.Panicked? <==> '/' !in path
  {
    PartsEmpty(path);
    var parts := Parts(path);
    if |parts| == 0 then Panicked
    else Ok(Slashed(Replace(TrimLast(parts), positions, placeholder)))
  }

  /** `removePartsFromPath` in every revision; the revisions differ only in the
      placeholder constant, which is passed in. */
  method RemovePartsFromPath(path: string, positions: seq<nat>, placeholder: string)
    returns (result: Result<string>)
    ensures result == Rewrite(path, positions, placeholder)
  {
    var parts := Split(path)[1..];
    if |parts| == 0 {
      // parts[len(parts)-1] indexes an empty slice
      return Panicked;
    }
    if parts[|parts| - 1] == "" {
      parts := parts[..|parts| - 1];
    }
    var acc := JoinReplaced(parts, positions, placeholder);
    result := Ok(acc);
  }

  /** The loop of `removePartsFromPath`: "/" + part for every part, or "/" + placeholder
      at a listed position. */
  method JoinReplaced(parts: seq<string>, positions: seq<nat>, placeholder: string)
    returns (acc: string)
    ensures acc == Slashed(Replace(parts, positions, placeholder))
  {
    acc := "";
    for i := 0 to |parts|
      invariant acc == Slashed(Replace(parts[..i], positions, placeholder))
    {
      ReplaceStep(parts, i, positions, placeholder);
      var isRemoved := i in positions;
      if !isRemoved {
        acc := acc + "/" + parts[i];
      } else {
        acc := acc + "/" + placeholder;
      }
    }
    assert parts[..|parts|] == parts;
  }

  /** The rewritten path has one segment per segment of the input (after one trailing
      empty piece is dropped); segment i is the placeholder at a listed position and a
      verbatim copy elsewhere. */
  lemma RewriteSegments(path: string, positions: seq<nat>, placeholder: string)
    requires '/' in path && '/' !in placeholder
    ensures Rewrite(path, positions, placeholder).Ok?
    ensures var parts := TrimLast(Parts(path));
      var out := Parts(Rewrite(path, positions, placeholder).value);
      |out| == |parts| &&
      forall i :: 0 <= i < |parts| ==>
        out[i] == (if i in positions then placeholder else parts[i])
  {
    PartsEmpty(path);
    PartsNoSlash(path);
    var parts := TrimLast(Parts(path));
    var replaced := Replace(parts, positions, placeholder);
    ReplaceAt(parts, positions, placeholder);
    assert NoSlash(replaced);
    PartsOfSlashed(replaced);
  }

  // ---------------------------------------------------------- getIdSpecifiers

  /** A segment longer than one character that starts with '{' and ends with '}'. */
  predicate IsIdSegment(part: string) {
    |part| > 1 && part[0] == '{' && part[|part| - 1] == '}'
  }

  /** The test `part[0] == '{' && part[len(part)-1] == '}'` of the two earlier
      revisions, which have no length guard. */
  predicate BraceDelimited(part: string)
    requires part != []
  {
    part[0] == '{' && part[|part| - 1] == '}'
  }

  /** On a non-empty segment the unguarded test agrees with the guarded one: a
      one-character segment cannot both start with '{' and end with '}'. */
  lemma BraceDelimitedIsId(part: string)
    requires part != []
    ensures BraceDelimited(part) <==> IsIdSegment(part)
  {
  }

  predicate StrictlyIncreasing(xs: seq<nat>) {
    forall i, j :: 0 <= i < j < |xs| ==> xs[i] < xs[j]
  }

  /** The positions of the identifier segments, in increasing order. */
  function IdPositions(parts: seq<string>): seq<nat> {
    if |parts| == 0 then []
    else
      var n := |parts| - 1;
      var init := parts[..n];
      IdPositions(init) + (if IsIdSegment(parts[n]) then [n] else [])
  }

  /** The positions listed are increasing, and they are exactly the indices of the
      identifier segments. */
  lemma {:induction false} IdPositionsSpec(parts: seq<string>)
    ensures StrictlyIncreasing(IdPositions(parts))
    ensures forall i :: i in IdPositions(parts) <==> 0 <= i < |parts| && IsIdSegment(parts[i])
    decreases |parts|
  {
    if |parts| != 0 {
      var n := |parts| - 1;
      var init := parts[..n];
      IdPositionsSpec(init);
      var r := IdPositions(init);
      if IsIdSegment(parts[n]) {
        AppendIncreasing(r, n);
      } else {
        assert r + [] == r;
      }
      forall i ensures i in IdPositions(parts) <==> 0 <= i < |parts| && IsIdSegment(parts[i]) {
        if 0 <= i < n {
          assert parts[i] == init[i];
        }
      }
    }
  }

  /** Segments without identifier segments have no identifier positions. */
  lemma IdPositionsLiteral(ps: seq<string>)
    requires forall k :: 0 <= k < |ps| ==> !IsIdSegment(ps[k])
    ensures IdPositions(ps) == []
  {
    IdPositionsSpec(ps);
  }

  lemma AppendIncreasing(xs: seq<nat>, x: nat)
    requires StrictlyIncreasing(xs) && forall y :: y in xs ==> y < x
    ensures StrictlyIncreasing(xs + [x])
  {
    forall i, j | 0 <= i < j < |xs| + 1 ensures (xs + [x])[i] < (xs + [x])[j] {
      assert xs[i] in xs;
    }
  }

  /** The three revisions of the code, in the order they were written. */
  datatype Revision =
    | Prototype  // main.go
    | Earlier    // src/custom-mux.go
    | Current    // mwmux.go

  /** The placeholder that replaces an identifier segment. */
  function Placeholder(rev: Revision): (ph: string)
    ensures ph != [] && '/' !in ph
  {
    if rev == Current then "%" else "<ID_PLACEHOLDER>"
  }

  /** Some segment is empty. */
  predicate HasEmpty(parts: seq<string>) {
    |parts| != 0 && (HasEmpty(parts[..|parts| - 1]) || |parts[|parts| - 1]| == 0)
  }

  /** Some segment is empty: the index of one. */
  lemma {:induction false} HasEmptyIff(parts: seq<string>)
    ensures HasEmpty(parts) <==> exists i :: 0 <= i < |parts| && |parts[i]| == 0
    decreases |parts|
  {
    if |parts| != 0 {
      var n := |parts| - 1;
      HasEmptyIff(parts[..n]);
      if exists i :: 0 <= i < |parts| && |parts[i]| == 0 {
        var i :| 0 <= i < |parts| && |parts[i]| == 0;
        if i < n {
          assert parts[..n][i] == parts[i];
        }
      }
      if HasEmpty(parts[..n]) {
        var i :| 0 <= i < n && |parts[..n][i]| == 0;
        assert parts[i] == parts[..n][i];
      }
    }
  }

  /** What `getIdSpecifiers(path)` returns in each revision.
      Current: panics on a path without '/', drops one trailing empty piece, and keeps
      the positions of segments longer than one character delimited by braces.
      Earlier: the same, but without the length guard it panics on any empty segment.
      Prototype: does not drop the trailing empty piece, and panics on any empty segment. */
  function IdSpecifiers(rev: Revision, path: string): (r: Result<seq<nat>>)
    ensures rev == Current ==> (r.Panicked? <==> '/' !in path)
    ensures r.Ok? && rev != Prototype ==>
      Parts(path) != [] && r.value == IdPositions(TrimLast(Parts(path)))
    ensures r.Ok? && rev == Prototype ==> r.value == IdPositions(Parts(path))
  {
    PartsEmpty(path);
    var parts := Parts(path);
    match rev
    case Current =>
      if |parts| == 0 then Panicked else Ok(IdPositions(TrimLast(parts)))
    case Earlier =>
      if |parts| == 0 || HasEmpty(TrimLast(parts)) then Panicked
      else Ok(IdPositions(TrimLast(parts)))
    case Prototype =>
      if HasEmpty(parts) then Panicked else Ok(IdPositions(parts))
  }

  /** On a path that contains '/' and has no empty segment, the three revisions agree. */
  lemma RevisionsAgree(path: string)
    requires '/' in path && !HasEmpty(Parts(path))
    ensures IdSpecifiers(Prototype, path) == IdSpecifiers(Current, path)
    ensures IdSpecifiers(Earlier, path) == IdSpecifiers(Current, path)
    ensures IdSpecifiers(Current, path) == Ok(IdPositions(Parts(path)))
  {
    PartsEmpty(path);
    var parts := Parts(path);
    assert parts[|parts| - 1] != [];
    assert TrimLast(parts) == parts;
  }

  /** Whenever the earlier revision does not panic, it agrees with the current one. */
  lemma EarlierAgreesWhenDefined(path: string)
    requires IdSpecifiers(Earlier, path).Ok?
    ensures IdSpecifiers(Current, path) == IdSpecifiers(Earlier, path)
  {
  }
}
