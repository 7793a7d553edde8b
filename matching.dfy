/** Deciding which registered middleware paths apply to a request.

    Every revision runs the same loop over the registry, in the registry map's
    iteration order: find the identifier positions of the registered path; if there
    are any, rewrite BOTH the registered path and the request path (the variable the
    loop shares across iterations) with the placeholder at those positions; then match
    the anchored pattern `^path` followed by any number of slashes against every entry of `getPaths(requestPath)`,
    stopping at the first hit. */
module Matching {
  import opened Panics
  import opened Text
  import opened Segments

  /** The compiled pattern "^", pattern, then any number of slashes, "$" for a pattern
      without regular-expression metacharacters: `s` is the pattern followed by zero or
      more '/'. */
  predicate AnchoredMatch(pattern: string, s: string) {
    |pattern| <= |s| && s == pattern + Slashes(|s| - |pattern|)
  }

  /** Some entry of `paths` matches the anchored pattern. */
  predicate AnyMatch(pattern: string, paths: seq<string>)
    decreases |paths|
  {
    |paths| != 0 &&
    (AnyMatch(pattern, paths[..|paths| - 1]) || AnchoredMatch(pattern, paths[|paths| - 1]))
  }

  /** A matching entry anywhere makes the list match ... */
  lemma {:induction false} AnyMatchAt(pattern: string, paths: seq<string>, j: nat)
    requires j < |paths| && AnchoredMatch(pattern, paths[j])
    ensures AnyMatch(pattern, paths)
    decreases |paths|
  {
    if j < |paths| - 1 {
      var init := paths[..|paths| - 1];
      assert init[j] == paths[j];
      AnyMatchAt(pattern, init, j);
    }
  }

  /** ... and a matching list has a matching entry. */
  lemma {:induction false} AnyMatchWitness(pattern: string, paths: seq<string>) returns (j: nat)
    requires AnyMatch(pattern, paths)
    ensures j < |paths| && AnchoredMatch(pattern, paths[j])
    decreases |paths|
  {
    var init := paths[..|paths| - 1];
    if AnchoredMatch(pattern, paths[|paths| - 1]) {
      j := |paths| - 1;
    } else {
      j := AnyMatchWitness(pattern, init);
      assert init[j] == paths[j];
    }
  }

  /** The inner loop of every revision: try the paths in turn and stop at the first match. */
  method FirstMatch(pattern: string, paths: seq<string>) returns (isMatch: bool)
    ensures isMatch == AnyMatch(pattern, paths)
  {
    isMatch := false;
    var j := 0;
    while j < |paths|
      invariant 0 <= j <= |paths|
      invariant !isMatch && !AnyMatch(pattern, paths[..j])
    {
      assert paths[..j + 1][..j] == paths[..j];
      isMatch := AnchoredMatch(pattern, paths[j]);
      if isMatch {
        AnyMatchAt(pattern, paths, j);
        return;
      }
      j := j + 1;
    }
    assert paths[..j] == paths;
  }

  /** What one iteration leaves behind: the request path in force afterwards and
      whether the registered path matched. */
  datatype Probe = Probe(requestPath: string, isMatch: bool)

  /** One iteration of the loop once the identifier positions `ids` of the registered
      path are known. Without identifiers nothing is rewritten; with identifiers the
      request path is rewritten first, then the registered path, and either rewrite
      may panic. */
  function Test(placeholder: string, ids: seq<nat>, requestPath: string, middlewarePath: string)
    : Result<Probe>
  {
    if |ids| == 0 then Ok(Probe(requestPath, AnyMatch(middlewarePath, PathsOf(requestPath))))
    else
      match Rewrite(requestPath, ids, placeholder)
      case Panicked => Panicked
      case Ok(rp) =>
        match Rewrite(middlewarePath, ids, placeholder)
        case Panicked => Panicked
        case Ok(mp) => Ok(Probe(rp, AnyMatch(mp, PathsOf(rp))))
  }

  /** Without identifier positions nothing is rewritten: the registered path is matched
      as it stands against the request path as it stands. */
  lemma TestWithoutIdentifiers(placeholder: string, requestPath: string, middlewarePath: string)
    ensures Test(placeholder, [], requestPath, middlewarePath) ==
      Ok(Probe(requestPath, AnyMatch(middlewarePath, PathsOf(requestPath))))
  {
  }

  /** One iteration of the loop, identifier positions included: `getIdSpecifiers` of
      the registered path may panic before anything is tested. */
  function Step(rev: Revision, requestPath: string, middlewarePath: string): Result<Probe> {
    match IdSpecifiers(rev, middlewarePath)
    case Panicked => Panicked
    case Ok(ids) => Test(Placeholder(rev), ids, requestPath, middlewarePath)
  }

  /** Whether a registered path matches a request path when it is tested on its own,
      against the request path as received. */
  function MatchesPattern(rev: Revision, requestPath: string, middlewarePath: string): Result<bool> {
    match Step(rev, requestPath, middlewarePath)
    case Panicked => Panicked
    case Ok(p) => Ok(p.isMatch)
  }

  // ------------------------------------------------------ the loop as written

  /** The state of the loop: the shared request path, the registered paths matched so
      far (in iteration order), and whether the loop has panicked. */
  datatype Scan = Scan(requestPath: string, matched: seq<string>, panicked: bool)

  /** One iteration of the loop as written: the request path it leaves behind is the
      one the NEXT registered path is tested against. */
  function Visit(rev: Revision, s: Scan, middlewarePath: string): Scan {
    if s.panicked then s
    else
      match Step(rev, s.requestPath, middlewarePath)
      case Panicked => s.(panicked := true)
      case Ok(p) => Scan(p.requestPath, s.matched + (if p.isMatch then [middlewarePath] else []), false)
  }

  /** `order` lists every registered path exactly once: the order in which `range`
      happens to visit the keys of the registry map. */
  predicate IsIterationOrder<V>(order: seq<string>, registry: map<string, V>) {
    InRegistry(order, registry) &&
    (forall p :: p in registry ==> p in order) &&
    (forall i, j :: 0 <= i < j < |order| ==> order[i] != order[j])
  }

  /** Every entry of `order` is a registered path. The loops below need no more than
      this of their iteration order. */
  predicate InRegistry<V>(order: seq<string>, registry: map<string, V>) {
    forall i :: 0 <= i < |order| ==> order[i] in registry
  }

  /** The whole loop over the registered paths in iteration order `order`. */
  function ScanAll(rev: Revision, order: seq<string>, requestPath: string): Scan {
    if |order| == 0 then Scan(requestPath, [], false)
    else Visit(rev, ScanAll(rev, order[..|order| - 1], requestPath), order[|order| - 1])
  }

  /** One more iteration of the loop, as the methods that run it take it. */
  lemma ScanStep(rev: Revision, order: seq<string>, i: nat, requestPath: string, s: Scan, probe: Result<Probe>)
    requires i < |order| && ScanAll(rev, order[..i], requestPath) == s && !s.panicked
    requires probe == Step(rev, s.requestPath, order[i])
    ensures ScanAll(rev, order[..i + 1], requestPath) ==
      if probe.Panicked? then s.(panicked := true)
      else Scan(probe.value.requestPath, s.matched + (if probe.value.isMatch then [order[i]] else []), false)
  {
    assert order[..i + 1][..i] == order[..i];
  }

  /** A panic ends the loop: nothing matched afterwards, and the panic stays. */
  lemma {:induction false} PanicIsFinal(rev: Revision, order: seq<string>, requestPath: string, k: nat)
    requires k <= |order| && ScanAll(rev, order[..k], requestPath).panicked
    ensures ScanAll(rev, order, requestPath) == ScanAll(rev, order[..k], requestPath)
    decreases |order|
  {
    if k < |order| {
      var init := order[..|order| - 1];
      assert init[..k] == order[..k];
      PanicIsFinal(rev, init, requestPath, k);
    } else {
      assert order[..k] == order;
    }
  }

  /** The matched paths are registered paths the loop visited. */
  lemma {:induction false} MatchedAreVisited(rev: Revision, order: seq<string>, requestPath: string)
    ensures forall p :: p in ScanAll(rev, order, requestPath).matched ==> p in order
    ensures |ScanAll(rev, order, requestPath).matched| <= |order|
    decreases |order|
  {
    if |order| != 0 {
      var init := order[..|order| - 1];
      var last := order[|order| - 1];
      MatchedAreVisited(rev, init, requestPath);
      VisitGrowsMatched(rev, ScanAll(rev, init, requestPath), last);
      assert order == init + [last];
    }
  }

  /** The matched paths come in iteration order: they are the entries of `order` at
      increasing indices `idx`. */
  lemma {:induction false} MatchedInOrder(rev: Revision, order: seq<string>, requestPath: string)
    returns (idx: seq<nat>)
    ensures var matched := ScanAll(rev, order, requestPath).matched;
      |idx| == |matched| && StrictlyIncreasing(idx) &&
      forall k :: 0 <= k < |idx| ==> idx[k] < |order| && matched[k] == order[idx[k]]
    decreases |order|
  {
    if |order| == 0 {
      idx := [];
    } else {
      var n := |order| - 1;
      var init := order[..n];
      var s := ScanAll(rev, init, requestPath);
      idx := MatchedInOrder(rev, init, requestPath);
      VisitGrowsMatched(rev, s, order[n]);
      if Visit(rev, s, order[n]).matched != s.matched {
        assert forall y :: y in idx ==> y < n;
        AppendIncreasing(idx, n);
        idx := idx + [n];
      }
    }
  }

  /** Over an iteration order that visits every path once, as `range` over a map does,
      no path is matched twice: every matched path's handlers are taken once. */
  lemma {:induction false} MatchedDistinct(rev: Revision, order: seq<string>, requestPath: string)
    requires forall i, j :: 0 <= i < j < |order| ==> order[i] != order[j]
    ensures var matched := ScanAll(rev, order, requestPath).matched;
      forall i, j :: 0 <= i < j < |matched| ==> matched[i] != matched[j]
    decreases |order|
  {
    if |order| != 0 {
      var init := order[..|order| - 1];
      var last := order[|order| - 1];
      var s := ScanAll(rev, init, requestPath);
      MatchedDistinct(rev, init, requestPath);
      MatchedAreVisited(rev, init, requestPath);
      VisitGrowsMatched(rev, s, last);
      assert last !in init;
      assert last !in s.matched;
    }
  }

  /** One iteration keeps the paths matched so far and may add the one it visits. */
  lemma VisitGrowsMatched(rev: Revision, s: Scan, middlewarePath: string)
    ensures Visit(rev, s, middlewarePath).matched == s.matched ||
            Visit(rev, s, middlewarePath).matched == s.matched + [middlewarePath]
  {
  }

  // ----------------------------------------------------- each path on its own

  /** The paths whose test comes out true, in order; a test that panics makes the
      whole a panic. */
  function Keep(paths: seq<string>, test: string -> Result<bool>): Result<seq<string>> {
    if |paths| == 0 then Ok([])
    else
      var last := paths[|paths| - 1];
      match Keep(paths[..|paths| - 1], test)
      case Panicked => Panicked
      case Ok(kept) =>
        match test(last)
        case Panicked => Panicked
        case Ok(b) => Ok(kept + if b then [last] else [])
  }

  /** Keeping panics exactly when some test panics. */
  lemma {:induction false} KeepOk(paths: seq<string>, test: string -> Result<bool>)
    ensures Keep(paths, test).Ok? <==> forall i :: 0 <= i < |paths| ==> test(paths[i]).Ok?
    decreases |paths|
  {
    if paths != [] {
      var init := paths[..|paths| - 1];
      KeepOk(init, test);
      assert forall i :: 0 <= i < |init| ==> init[i] == paths[i];
    }
  }

  /** A path is kept exactly when it is one of the paths and its test comes out true. */
  lemma {:induction false} KeepMember(paths: seq<string>, test: string -> Result<bool>, p: string)
    requires Keep(paths, test).Ok?
    ensures p in Keep(paths, test).value <==> p in paths && test(p) == Ok(true)
    decreases |paths|
  {
    if paths != [] {
      var init := paths[..|paths| - 1];
      var last := paths[|paths| - 1];
      KeepMember(init, test, p);
      assert paths == init + [last];
      assert p in paths <==> p in init || p == last;
    }
  }

  /** Keeping from two paths. */
  lemma KeepPair(p: string, q: string, test: string -> Result<bool>)
    requires test(p).Ok? && test(q).Ok?
    ensures Keep([p, q], test) ==
      Ok((if test(p).value then [p] else []) + (if test(q).value then [q] else []))
  {
    var a := if test(p).value then [p] else [];
    var b := if test(q).value then [q] else [];
    assert [p, q][..1] == [p];
    assert [p][..0] == [];
    assert Keep([], test) == Ok([]);
    assert Keep([p], test) == Ok([] + a);
    assert [] + a == a;
  }

  /** The lookup with every registered path tested on its own against the request path
      as received: the registered paths that match, in iteration order. */
  function Isolated(rev: Revision, order: seq<string>, requestPath: string): Result<seq<string>> {
    Keep(order, p => MatchesPattern(rev, requestPath, p))
  }

  /** Tested on its own, a registered path is kept exactly when it matches: which paths
      are kept does not depend on the iteration order or on the other paths. */
  lemma IsolatedMember(rev: Revision, order: seq<string>, requestPath: string, p: string)
    requires Isolated(rev, order, requestPath).Ok?
    ensures p in Isolated(rev, order, requestPath).value <==>
      p in order && MatchesPattern(rev, requestPath, p) == Ok(true)
  {
    KeepMember(order, p => MatchesPattern(rev, requestPath, p), p);
  }

  /** Two iteration orders of the same registered paths keep the same paths. */
  lemma IsolatedOrderIndependent(rev: Revision, order1: seq<string>, order2: seq<string>, requestPath: string)
    requires forall p :: p in order1 <==> p in order2
    requires Isolated(rev, order1, requestPath).Ok? && Isolated(rev, order2, requestPath).Ok?
    ensures forall p :: p in Isolated(rev, order1, requestPath).value <==>
      p in Isolated(rev, order2, requestPath).value
  {
    forall p
      ensures p in Isolated(rev, order1, requestPath).value <==>
        p in Isolated(rev, order2, requestPath).value
    {
      IsolatedMember(rev, order1, requestPath, p);
      IsolatedMember(rev, order2, requestPath, p);
    }
  }

  /** In the current revision testing a path on its own panics only when the request
      path or the registered path has no '/'. */
  lemma MatchesPatternTotal(requestPath: string, middlewarePath: string)
    requires '/' in requestPath && '/' in middlewarePath
    ensures MatchesPattern(Current, requestPath, middlewarePath).Ok?
  {
  }

  /** In the current revision the isolated lookup never panics on a request path that
      contains '/', provided every registered path contains a '/'. */
  lemma IsolatedTotal(order: seq<string>, requestPath: string)
    requires '/' in requestPath
    requires forall i :: 0 <= i < |order| ==> '/' in order[i]
    ensures Isolated(Current, order, requestPath).Ok?
  {
    var test := p => MatchesPattern(Current, requestPath, p);
    forall i | 0 <= i < |order| ensures test(order[i]).Ok? {
      MatchesPatternTotal(requestPath, order[i]);
    }
    KeepOk(order, test);
  }

  /** A registered path without identifier segments leaves the request path alone. */
  lemma VisitWithoutIdentifiers(rev: Revision, s: Scan, middlewarePath: string)
    requires !s.panicked && IdSpecifiers(rev, middlewarePath) == Ok([])
    ensures MatchesPattern(rev, s.requestPath, middlewarePath).Ok?
    ensures Visit(rev, s, middlewarePath) == Scan(s.requestPath,
      s.matched + (if MatchesPattern(rev, s.requestPath, middlewarePath).value then [middlewarePath] else []),
      false)
  {
    TestWithoutIdentifiers(Placeholder(rev), s.requestPath, middlewarePath);
  }

  /** Without identifier segments nothing is ever rewritten, and the loop as written
      keeps exactly the registered paths that match on their own. */
  lemma {:induction false} NoIdentifiersNoRewrite(rev: Revision, order: seq<string>, requestPath: string)
    requires forall i :: 0 <= i < |order| ==> IdSpecifiers(rev, order[i]) == Ok([])
    ensures Isolated(rev, order, requestPath).Ok?
    ensures ScanAll(rev, order, requestPath) ==
      Scan(requestPath, Isolated(rev, order, requestPath).value, false)
    decreases |order|
  {
    if order != [] {
      var init := order[..|order| - 1];
      assert forall i :: 0 <= i < |init| ==> init[i] == order[i];
      NoIdentifiersNoRewrite(rev, init, requestPath);
      VisitWithoutIdentifiers(rev, ScanAll(rev, init, requestPath), order[|order| - 1]);
    }
  }

  // ------------------------------------------------------------ the matcher

  lemma AnchoredMatchSelf(pattern: string)
    ensures AnchoredMatch(pattern, pattern)
  {
    assert pattern + Slashes(0) == pattern;
  }

  /** A slashed pattern matches the entry of the segment prefixes that ends with
      the pattern's own segments. */
  lemma AnyMatchSlashedIf(xs: seq<string>, ys: seq<string>)
    requires ys != [] && |xs| >= |ys| && xs[..|ys|] == ys
    ensures AnyMatch(Slashed(ys), ["/"] + Prefixes(xs))
  {
    var paths := ["/"] + Prefixes(xs);
    PrefixesAt(xs);
    assert paths[|ys|] == Slashed(ys);
    AnchoredMatchSelf(Slashed(ys));
    AnyMatchAt(Slashed(ys), paths, |ys|);
  }

  /** A slashed pattern other than "/" matches only an entry whose segments are the
      pattern's followed by empty ones: the request's segments begin with the
      pattern's. */
  lemma AnyMatchSlashedOnlyIf(xs: seq<string>, ys: seq<string>, j: nat)
    requires NoSlash(xs) && NoSlash(ys)
    requires ys != [] && !IsRootSegments(ys)
    requires j < |xs| + 1 && AnchoredMatch(Slashed(ys), (["/"] + Prefixes(xs))[j])
    ensures |xs| >= |ys| && xs[..|ys|] == ys
  {
    if j == 0 {
      RootEntryIsRoot(ys);
      assert false;
    } else {
      EntryMatchSlashed(xs, ys, j);
    }
  }

  /** A segment prefix of the request that is the pattern followed by slashes begins
      with the pattern's segments. */
  lemma EntryMatchSlashed(xs: seq<string>, ys: seq<string>, j: nat)
    requires NoSlash(xs) && NoSlash(ys) && |ys| != 0
    requires 0 < j < |xs| + 1 && AnchoredMatch(Slashed(ys), (["/"] + Prefixes(xs))[j])
    ensures |xs| >= |ys| && xs[..|ys|] == ys
  {
    var pre := xs[..j];
    PrefixEntry(xs, j);
    var n := |Slashed(pre)| - |Slashed(ys)|;
    NoSlashPrefix(xs, j);
    SlashedPadded(pre, ys, n);
    assert xs[..|ys|] == ys by {
      assert xs[..|ys|] == pre[..|ys|];
    }
  }

  /** Entry j of `getPaths` on a slashed request, past "/", is its first j segments. */
  lemma PrefixEntry(xs: seq<string>, j: nat)
    requires 0 < j <= |xs|
    ensures (["/"] + Prefixes(xs))[j] == Slashed(xs[..j])
  {
    PrefixesAt(xs);
  }

  lemma NoSlashPrefix(xs: seq<string>, j: nat)
    requires NoSlash(xs) && j <= |xs|
    ensures NoSlash(xs[..j])
  {
    forall i | 0 <= i < j ensures '/' !in xs[..j][i] { assert xs[..j][i] == xs[i]; }
  }

  /** The segments of the path "/": a single empty one. */
  predicate IsRootSegments(ys: seq<string>) {
    |ys| == 1 && |ys[0]| == 0
  }

  /** Only the pattern "/" itself matches the entry "/". */
  lemma RootEntryIsRoot(ys: seq<string>)
    requires NoSlash(ys) && ys != []
    requires AnchoredMatch(Slashed(ys), "/")
    ensures IsRootSegments(ys)
  {
    SlashedOne([]);
    assert "/" + [] == "/";
    SlashedPadded([[]], ys, 1 - |Slashed(ys)|);
  }

  /** The core of the matcher on segments: a slashed pattern matches some segment
      prefix of a slashed request exactly when it is "/" or the request's segments
      begin with the pattern's (a trailing empty segment of the pattern included). */
  lemma AnyMatchSlashed(xs: seq<string>, ys: seq<string>)
    requires NoSlash(xs) && NoSlash(ys)
    requires ys != []
    ensures AnyMatch(Slashed(ys), ["/"] + Prefixes(xs)) <==>
      IsRootSegments(ys) || (|xs| >= |ys| && xs[..|ys|] == ys)
  {
    if IsRootSegments(ys) {
      assert ys == [[]];
      SlashedOne([]);
      assert "/" + [] == "/";
      AnchoredMatchSelf("/");
      AnyMatchAt("/", ["/"] + Prefixes(xs), 0);
    } else if |xs| >= |ys| && xs[..|ys|] == ys {
      AnyMatchSlashedIf(xs, ys);
    }
    if !IsRootSegments(ys) && AnyMatch(Slashed(ys), ["/"] + Prefixes(xs)) {
      var j := AnyMatchWitness(Slashed(ys), ["/"] + Prefixes(xs));
      AnyMatchSlashedOnlyIf(xs, ys, j);
    }
  }

  /** Segments that are matched against a pattern: after dropping one trailing empty
      piece the request has at least as many segments as the pattern, and it agrees
      with the pattern at every position that is not an identifier. */
  predicate SegmentsAgree(patternParts: seq<string>, requestParts: seq<string>)
    requires requestParts != []
  {
    |TrimLast(requestParts)| >= |patternParts| &&
    forall i :: 0 <= i < |patternParts| && !IsIdSegment(patternParts[i]) ==>
      requestParts[i] == patternParts[i]
  }

  lemma ReplaceNoSlash(parts: seq<string>, ids: seq<nat>, placeholder: string)
    requires NoSlash(parts) && '/' !in placeholder
    ensures NoSlash(Replace(parts, ids, placeholder))
  {
    ReplaceAt(parts, ids, placeholder);
  }

  lemma TrimLastNoSlash(parts: seq<string>)
    requires parts != [] && NoSlash(parts)
    ensures NoSlash(TrimLast(parts))
  {
  }

  /** Rewriting a slashed path rewrites its segments, one trailing empty one dropped. */
  lemma RewriteSlashed(parts: seq<string>, ids: seq<nat>, placeholder: string)
    requires NoSlash(parts) && parts != []
    ensures Rewrite(Slashed(parts), ids, placeholder) ==
      Ok(Slashed(Replace(TrimLast(parts), ids, placeholder)))
  {
    PartsOfSlashed(parts);
  }

  /** Without identifier positions, matching on segments is agreement on every segment. */
  lemma AgreeWithoutIdentifiers(ps: seq<string>, rs: seq<string>)
    requires NoSlash(ps) && NoSlash(rs)
    requires ps != [] && ps[|ps| - 1] != [] && rs != []
    requires forall i :: 0 <= i < |ps| ==> !IsIdSegment(ps[i])
    ensures AnyMatch(Slashed(ps), PathsOf(Slashed(rs))) == SegmentsAgree(ps, rs)
  {
    PathsOfSlashed(rs);
    AnyMatchSlashed(rs, ps);
    var trimmed := TrimLast(rs);
    if |rs| >= |ps| && rs[..|ps|] == ps {
      assert rs[|ps| - 1] == ps[|ps| - 1];
      assert |trimmed| >= |ps|;
    }
    if SegmentsAgree(ps, rs) {
      assert rs[..|ps|] == ps;
    }
  }

  /** Agreement may be read on the request's segments with the trailing empty one dropped. */
  lemma SegmentsAgreeTrimmed(ps: seq<string>, rs: seq<string>)
    requires rs != []
    ensures SegmentsAgree(ps, rs) <==>
              |TrimLast(rs)| >= |ps| &&
              forall i :: 0 <= i < |ps| && !IsIdSegment(ps[i]) ==> TrimLast(rs)[i] == ps[i]
  {
    var trimmed := TrimLast(rs);
    assert forall i :: 0 <= i < |trimmed| ==> trimmed[i] == rs[i];
  }

  /** Agreement of the rewritten segments, one position at a time. */
  lemma ReplacedAgreement(ps: seq<string>, trimmed: seq<string>, placeholder: string)
    requires |trimmed| >= |ps|
    ensures var ids := IdPositions(ps);
      var xs := Replace(trimmed, ids, placeholder);
      var ys := Replace(ps, ids, placeholder);
      (xs[..|ys|] == ys <==>
       forall i :: 0 <= i < |ps| && !IsIdSegment(ps[i]) ==> trimmed[i] == ps[i])
  {
    var ids := IdPositions(ps);
    var xs := Replace(trimmed, ids, placeholder);
    var ys := Replace(ps, ids, placeholder);
    IdPositionsSpec(ps);
    ReplaceAt(trimmed, ids, placeholder);
    ReplaceAt(ps, ids, placeholder);
    if xs[..|ys|] == ys {
      forall i | 0 <= i < |ps| && !IsIdSegment(ps[i])
        ensures trimmed[i] == ps[i]
      {
        assert i !in ids;
        assert xs[i] == ys[i];
      }
    }
    if forall i :: 0 <= i < |ps| && !IsIdSegment(ps[i]) ==> trimmed[i] == ps[i] {
      forall i | 0 <= i < |ys| ensures xs[i] == ys[i] {
        if i !in ids {
          assert !IsIdSegment(ps[i]);
        }
      }
      assert xs[..|ys|] == ys;
    }
  }

  /** With the identifier positions of the pattern replaced on both sides, matching on
      segments is agreement outside those positions. */
  lemma AgreeWithIdentifiers(ps: seq<string>, rs: seq<string>, placeholder: string)
    requires NoSlash(ps) && NoSlash(rs)
    requires ps != [] && ps[|ps| - 1] != [] && rs != []
    requires placeholder != [] && '/' !in placeholder
    ensures var ids := IdPositions(ps);
      var xs := Replace(TrimLast(rs), ids, placeholder);
      var ys := Replace(ps, ids, placeholder);
      AnyMatch(Slashed(ys), PathsOf(Slashed(xs))) == SegmentsAgree(ps, rs)
  {
    var ids := IdPositions(ps);
    var trimmed := TrimLast(rs);
    TrimLastNoSlash(rs);
    var xs := Replace(trimmed, ids, placeholder);
    var ys := Replace(ps, ids, placeholder);
    ReplaceNoSlash(trimmed, ids, placeholder);
    ReplaceNoSlash(ps, ids, placeholder);
    PathsOfSlashed(xs);
    AnyMatchSlashed(xs, ys);
    SegmentsAgreeTrimmed(ps, rs);
    if |trimmed| >= |ps| {
      ReplacedAgreement(ps, trimmed, placeholder);
    }
  }

  /** A registered path without identifier positions is matched as it stands. */
  lemma MatchesPatternWithoutIdentifiers(rev: Revision, requestPath: string, middlewarePath: string)
    requires IdSpecifiers(rev, middlewarePath) == Ok([])
    ensures MatchesPattern(rev, requestPath, middlewarePath) ==
      Ok(AnyMatch(middlewarePath, PathsOf(requestPath)))
  {
    TestWithoutIdentifiers(Placeholder(rev), requestPath, middlewarePath);
  }

  /** A registered path with identifier positions is matched after both paths are
      rewritten. */
  lemma MatchesPatternRewritten(rev: Revision, requestPath: string, middlewarePath: string,
                                ids: seq<nat>, request': string, pattern': string)
    requires IdSpecifiers(rev, middlewarePath) == Ok(ids) && ids != []
    requires Rewrite(requestPath, ids, Placeholder(rev)) == Ok(request')
    requires Rewrite(middlewarePath, ids, Placeholder(rev)) == Ok(pattern')
    ensures MatchesPattern(rev, requestPath, middlewarePath) == Ok(AnyMatch(pattern', PathsOf(request')))
  {
  }

  /** The identifier positions of a slashed pattern that does not end in '/'. */
  lemma IdSpecifiersSlashed(rev: Revision, ps: seq<string>)
    requires NoSlash(ps) && ps != [] && ps[|ps| - 1] != []
    requires IdSpecifiers(rev, Slashed(ps)).Ok?
    ensures IdSpecifiers(rev, Slashed(ps)).value == IdPositions(ps)
  {
    PartsOfSlashed(ps);
    assert TrimLast(ps) == ps;
  }

  /** Matching in isolation, for a pattern and a request made of slash-free segments,
      the pattern not ending in '/': the pattern matches exactly when the segments agree
      outside the identifier positions. This is the segment-boundary semantics: a literal
      pattern "/a" matches "/a" and "/a/b/c" but not "/ab". */
  lemma MatchesPatternIff(rev: Revision, ps: seq<string>, rs: seq<string>)
    requires NoSlash(ps) && NoSlash(rs)
    requires ps != [] && ps[|ps| - 1] != [] && rs != []
    requires IdSpecifiers(rev, Slashed(ps)).Ok?
    ensures MatchesPattern(rev, Slashed(rs), Slashed(ps)) == Ok(SegmentsAgree(ps, rs))
  {
    IdSpecifiersSlashed(rev, ps);
    var ids := IdPositions(ps);
    var ph := Placeholder(rev);
    if |ids| == 0 {
      IdPositionsSpec(ps);
      MatchesPatternWithoutIdentifiers(rev, Slashed(rs), Slashed(ps));
      AgreeWithoutIdentifiers(ps, rs);
    } else {
      RewriteSlashed(rs, ids, ph);
      RewriteSlashed(ps, ids, ph);
      MatchesPatternRewritten(rev, Slashed(rs), Slashed(ps), ids,
        Slashed(Replace(TrimLast(rs), ids, ph)), Slashed(Replace(TrimLast(ps), ids, ph)));
      assert TrimLast(ps) == ps;
      AgreeWithIdentifiers(ps, rs, ph);
    }
  }

  /** Matching in isolation for a registered path without identifier positions, whatever
      its last segment: it matches exactly when it is "/" or the request's segments begin
      with its own. A literal pattern "/a/" therefore matches "/a/" and "/a//b" but
      neither "/a" nor "/a/b". */
  lemma MatchesLiteralIff(rev: Revision, ps: seq<string>, rs: seq<string>)
    requires NoSlash(ps) && NoSlash(rs) && |ps| != 0
    requires IdSpecifiers(rev, Slashed(ps)) == Ok([])
    ensures MatchesPattern(rev, Slashed(rs), Slashed(ps)) ==
      Ok(IsRootSegments(ps) || (|rs| >= |ps| && rs[..|ps|] == ps))
  {
    MatchesPatternWithoutIdentifiers(rev, Slashed(rs), Slashed(ps));
    PathsOfSlashed(rs);
    AnyMatchSlashed(rs, ps);
  }

  /** A registered path with identifier segments and one trailing '/' is matched as the
      same path without it, in the revisions that drop one trailing empty segment: both
      `getIdSpecifiers` and `removePartsFromPath` drop it before anything else. */
  lemma TrailingSlashWithIdentifiers(rev: Revision, ps: seq<string>, requestPath: string)
    requires rev != Prototype
    requires NoSlash(ps) && |ps| != 0 && |ps[|ps| - 1]| != 0
    requires IdPositions(ps) != []
    ensures MatchesPattern(rev, requestPath, Slashed(ps + [[]])) ==
      MatchesPattern(rev, requestPath, Slashed(ps))
  {
    var qs := ps + [[]];
    assert NoSlash(qs) by {
      forall i | 0 <= i < |qs| ensures '/' !in qs[i] { if i < |ps| { assert qs[i] == ps[i]; } }
    }
    assert TrimLast(qs) == ps;
    assert TrimLast(ps) == ps;
    PartsOfSlashed(qs);
    PartsOfSlashed(ps);
    assert IdSpecifiers(rev, Slashed(qs)) == IdSpecifiers(rev, Slashed(ps));
    var ph := Placeholder(rev);
    RewriteSlashed(qs, IdPositions(ps), ph);
    RewriteSlashed(ps, IdPositions(ps), ph);
  }

  /** In the current revision a slashed registered path never makes `getIdSpecifiers` panic. */
  lemma IdSpecifiersCurrentSlashed(ps: seq<string>)
    requires ps != []
    ensures IdSpecifiers(Current, Slashed(ps)).Ok?
  {
    SlashedStartsWithSlash(ps);
    assert Slashed(ps)[0] == '/';
  }

  // ------------------------------------------------- the loop against the matcher

  /** The loop decides a registered path exactly as testing it on its own against the
      request path in force at that iteration does; what differs from the isolated
      lookup is only that request path. */
  lemma VisitMatches(rev: Revision, s: Scan, middlewarePath: string)
    requires !s.panicked
    ensures Visit(rev, s, middlewarePath).panicked <==>
      MatchesPattern(rev, s.requestPath, middlewarePath).Panicked?
    ensures !Visit(rev, s, middlewarePath).panicked ==>
      Visit(rev, s, middlewarePath).matched == s.matched +
        (if MatchesPattern(rev, s.requestPath, middlewarePath).value then [middlewarePath] else [])
  {
  }

  /** The request path an iteration leaves behind for the next one: unchanged after a
      registered path without identifier segments; otherwise the request's segments,
      one trailing empty segment dropped, with the registered path's identifier
      positions replaced by the placeholder. */
  lemma VisitRewritesRequest(rev: Revision, s: Scan, ps: seq<string>, rs: seq<string>)
    requires !s.panicked && s.requestPath == Slashed(rs)
    requires NoSlash(ps) && NoSlash(rs)
    requires ps != [] && ps[|ps| - 1] != [] && rs != []
    requires IdSpecifiers(rev, Slashed(ps)).Ok?
    ensures !Visit(rev, s, Slashed(ps)).panicked
    ensures Visit(rev, s, Slashed(ps)).requestPath ==
      if IdPositions(ps) == [] then Slashed(rs)
      else Slashed(Replace(TrimLast(rs), IdPositions(ps), Placeholder(rev)))
  {
    IdSpecifiersSlashed(rev, ps);
    var ids := IdPositions(ps);
    if ids != [] {
      RewriteSlashed(rs, ids, Placeholder(rev));
      RewriteSlashed(ps, ids, Placeholder(rev));
    }
  }

  /** One iteration of the loop on a slashed request path and a slashed registered path:
      the match decision and the request path left for the next iteration. */
  lemma VisitSlashed(s: Scan, ps: seq<string>, rs: seq<string>)
    requires !s.panicked && s.requestPath == Slashed(rs)
    requires NoSlash(ps) && NoSlash(rs)
    requires ps != [] && ps[|ps| - 1] != [] && rs != []
    ensures Visit(Current, s, Slashed(ps)) == Scan(
      if IdPositions(ps) == [] then Slashed(rs)
      else Slashed(Replace(TrimLast(rs), IdPositions(ps), Placeholder(Current))),
      s.matched + (if SegmentsAgree(ps, rs) then [Slashed(ps)] else []),
      false)
  {
    IdSpecifiersCurrentSlashed(ps);
    VisitRewritesRequest(Current, s, ps, rs);
    VisitMatches(Current, s, Slashed(ps));
    MatchesPatternIff(Current, ps, rs);
  }

  /** The pieces of "/" after the first separator: one empty piece. */
  lemma PartsOfRoot()
    ensures Parts("/") == [[]]
  {
    SplitStepSlash([]);
    assert [] + "/" == "/";
  }

  /** In the two later revisions the registered path "/" applies to every request. */
  lemma RootMatchesEverything(rev: Revision, requestPath: string)
    requires rev != Prototype
    ensures MatchesPattern(rev, requestPath, "/") == Ok(true)
  {
    PartsOfRoot();
    assert TrimLast(Parts("/")) == [];
    MatchesPatternWithoutIdentifiers(rev, requestPath, "/");
    AnchoredMatchSelf("/");
    assert PathsOf(requestPath)[0] == "/";
    AnyMatchAt("/", PathsOf(requestPath), 0);
  }

  /** In the prototype the registered path "/" makes every request panic: its one
      segment is empty and the brace test reads its first character. */
  lemma RootPanicsInPrototype(requestPath: string)
    ensures MatchesPattern(Prototype, requestPath, "/") == Panicked
  {
    PartsOfRoot();
    assert HasEmpty(Parts("/")) by { assert Parts("/")[0] == []; }
  }

  // ------------------------------------------------------------ small cases

  /** The loop over two registered paths. */
  lemma ScanPair(rev: Revision, p: string, q: string, requestPath: string)
    ensures ScanAll(rev, [p, q], requestPath) ==
      Visit(rev, Visit(rev, Scan(requestPath, [], false), p), q)
  {
    assert [p, q][..1] == [p];
    assert [p][..0] == [];
    assert ScanAll(rev, [p], requestPath) == Visit(rev, Scan(requestPath, [], false), p);
  }

  /** The isolated lookup over two registered paths. */
  lemma IsolatedPair(rev: Revision, p: string, q: string, requestPath: string)
    requires MatchesPattern(rev, requestPath, p).Ok? && MatchesPattern(rev, requestPath, q).Ok?
    ensures Isolated(rev, [p, q], requestPath) ==
      Ok((if MatchesPattern(rev, requestPath, p).value then [p] else []) +
         (if MatchesPattern(rev, requestPath, q).value then [q] else []))
  {
    KeepPair(p, q, x => MatchesPattern(rev, requestPath, x));
  }

  /** A registered path with no identifier segment and no empty segment has no
      identifier positions in any revision. */
  lemma IdSpecifiersLiteral(rev: Revision, ps: seq<string>)
    requires NoSlash(ps) && ps != [] && !HasEmpty(ps)
    requires forall k :: 0 <= k < |ps| ==> !IsIdSegment(ps[k])
    ensures IdSpecifiers(rev, Slashed(ps)) == Ok([])
  {
    PartsOfSlashed(ps);
    assert ps[|ps| - 1] != [];
    assert TrimLast(ps) == ps;
    IdPositionsLiteral(ps);
    assert IdSpecifiers(rev, Slashed(ps)) == Ok(IdPositions(ps));
  }

  /** The handler lists of the matched paths, concatenated in the order they were
      matched: what the two earlier revisions run. */
  function Gathered<T>(registry: map<string, seq<T>>, matched: seq<string>): seq<T> {
    if |matched| == 0 then []
    else
      Gathered(registry, matched[..|matched| - 1]) + ListOf(registry, matched[|matched| - 1])
  }

  /** The list registered under `p`, empty when `p` was never registered. */
  function ListOf<T>(registry: map<string, seq<T>>, p: string): seq<T> {
    if p in registry then registry[p] else []
  }

  /** Gathering one registered path gives its whole list. */
  lemma GatheredOne<T>(registry: map<string, seq<T>>, p: string)
    ensures Gathered(registry, [p]) == if p in registry then registry[p] else []
  {
    assert [p][..0] == [];
  }

  /** Gathering is concatenation: the lists of two runs of matched paths come one after
      the other, each whole and in its own order. */
  lemma {:induction false} GatheredAppend<T>(registry: map<string, seq<T>>, a: seq<string>, b: seq<string>)
    ensures Gathered(registry, a + b) == Gathered(registry, a) + Gathered(registry, b)
    decreases |b|
  {
    if |b| == 0 {
      assert a + b == a;
    } else {
      var b' := b[..|b| - 1];
      var p := b[|b| - 1];
      var list := ListOf(registry, p);
      GatheredAppend(registry, a, b');
      assert (a + b)[..|a + b| - 1] == a + b';
      assert Gathered(registry, a + b) == Gathered(registry, a + b') + list;
      assert Gathered(registry, b) == Gathered(registry, b') + list;
    }
  }

  /** The loop appends the list of one more matched path. */
  lemma GatheredStep<T>(registry: map<string, seq<T>>, matched: seq<string>, p: string)
    requires p in registry
    ensures Gathered(registry, matched + [p]) == Gathered(registry, matched) + registry[p]
  {
    GatheredAppend(registry, matched, [p]);
    GatheredOne(registry, p);
  }
}
