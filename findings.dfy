/** Two consequences of the loop sharing one request path across iterations: a
    registered path with identifier segments rewrites the request path that every later
    registered path is tested against. The corrected lookup tests every registered path
    against the request path as received (`Matching.Isolated`). */
module Findings {
  import opened Panics
  import opened Text
  import opened Segments
  import opened Matching

  lemma IdPositionsSecond(a: string, i: string)
    requires !IsIdSegment(a) && IsIdSegment(i)
    ensures IdPositions([a, i]) == [1]
  {
    assert [a][..0] == [];
    assert IdPositions([a]) == [];
    assert [a, i][..1] == [a];
  }

  // ------------------------------------------------- a literal path is missed

  /** Visiting the path with an identifier rewrites the request's second segment. */
  lemma VisitIdentifierPath(a: string, i: string, x: string, matched: seq<string>)
    requires a != [] && x != [] && '/' !in a && '/' !in i && '/' !in x
    requires !IsIdSegment(a) && IsIdSegment(i)
    ensures Visit(Current, Scan(Slashed([a, x]), matched, false), Slashed([a, i])) ==
      Scan(Slashed([a, "%"]), matched + [Slashed([a, i])], false)
  {
    IdPositionsSecond(a, i);
    assert TrimLast([a, x]) == [a, x];
    var r := Replace([a, x], [1], "%");
    ReplaceAt([a, x], [1], "%");
    assert r[0] == a && r[1] == "%";
    assert r == [a, "%"];
    assert SegmentsAgree([a, i], [a, x]) by {
      assert forall k :: 0 <= k < 2 && !IsIdSegment([a, i][k]) ==> k == 0;
    }
    VisitSlashed(Scan(Slashed([a, x]), matched, false), [a, i], [a, x]);
  }

  /** Visiting the literal path against the request path as received: it applies. */
  lemma VisitLiteralPath(a: string, x: string, matched: seq<string>)
    requires a != [] && x != [] && '/' !in a && '/' !in x
    requires !IsIdSegment(a) && !IsIdSegment(x)
    ensures Visit(Current, Scan(Slashed([a, x]), matched, false), Slashed([a, x])) ==
      Scan(Slashed([a, x]), matched + [Slashed([a, x])], false)
  {
    IdPositionsLiteral([a, x]);
    VisitSlashed(Scan(Slashed([a, x]), matched, false), [a, x], [a, x]);
    assert SegmentsAgree([a, x], [a, x]);
  }

  /** Visiting the literal path against the rewritten request path: it does not apply. */
  lemma VisitLiteralPathRewritten(a: string, x: string, matched: seq<string>)
    requires a != [] && x != [] && '/' !in a && '/' !in x
    requires !IsIdSegment(a) && !IsIdSegment(x) && x != Placeholder(Current)
    ensures Visit(Current, Scan(Slashed([a, "%"]), matched, false), Slashed([a, x])) ==
      Scan(Slashed([a, "%"]), matched, false)
  {
    IdPositionsLiteral([a, x]);
    VisitSlashed(Scan(Slashed([a, "%"]), matched, false), [a, x], [a, "%"]);
    assert !SegmentsAgree([a, x], [a, "%"]) by { assert [a, "%"][1] != [a, x][1]; }
    assert matched + [] == matched;
  }

  /** The literal path visited after the path with an identifier is missed ... */
  lemma LiteralAfterIdentifier(a: string, i: string, x: string)
    requires a != [] && x != [] && '/' !in a && '/' !in i && '/' !in x
    requires !IsIdSegment(a) && IsIdSegment(i) && !IsIdSegment(x) && x != Placeholder(Current)
    ensures ScanAll(Current, [Slashed([a, i]), Slashed([a, x])], Slashed([a, x])) ==
      Scan(Slashed([a, "%"]), [Slashed([a, i])], false)
  {
    ScanPair(Current, Slashed([a, i]), Slashed([a, x]), Slashed([a, x]));
    VisitIdentifierPath(a, i, x, []);
    assert [] + [Slashed([a, i])] == [Slashed([a, i])];
    VisitLiteralPathRewritten(a, x, [Slashed([a, i])]);
  }

  /** ... and kept when visited before it. */
  lemma LiteralBeforeIdentifier(a: string, i: string, x: string)
    requires a != [] && x != [] && '/' !in a && '/' !in i && '/' !in x
    requires !IsIdSegment(a) && IsIdSegment(i) && !IsIdSegment(x)
    ensures ScanAll(Current, [Slashed([a, x]), Slashed([a, i])], Slashed([a, x])) ==
      Scan(Slashed([a, "%"]), [Slashed([a, x]), Slashed([a, i])], false)
  {
    ScanPair(Current, Slashed([a, x]), Slashed([a, i]), Slashed([a, x]));
    VisitLiteralPath(a, x, []);
    assert [] + [Slashed([a, x])] == [Slashed([a, x])];
    VisitIdentifierPath(a, i, x, [Slashed([a, x])]);
  }

  /** AS WRITTEN: with a registered path "/a/{id}" and a literal registered path
      "/a/x", the request "/a/x" runs the literal path's middleware only when the map
      happens to yield the literal path first: after "/a/{id}" the request path has
      become "/a/%", which "/a/x" no longer matches. */
  lemma LiteralMissedAfterIdentifier(a: string, i: string, x: string)
    requires a != [] && x != [] && '/' !in a && '/' !in i && '/' !in x
    requires !IsIdSegment(a) && IsIdSegment(i) && !IsIdSegment(x) && x != Placeholder(Current)
    ensures var withId, literal := "/" + a + "/" + i, "/" + a + "/" + x;
      ScanAll(Current, [withId, literal], literal).matched == [withId] &&
      ScanAll(Current, [literal, withId], literal).matched == [literal, withId]
  {
    SlashedTwo(a, i);
    SlashedTwo(a, x);
    LiteralAfterIdentifier(a, i, x);
    LiteralBeforeIdentifier(a, i, x);
  }

  /** CORRECTED: tested against the request path as received, both registered paths
      apply, whatever the iteration order. */
  lemma LiteralKeptWhenIsolated(a: string, i: string, x: string)
    requires a != [] && x != [] && '/' !in a && '/' !in i && '/' !in x
    requires IsIdSegment(i)
    ensures var withId, literal := "/" + a + "/" + i, "/" + a + "/" + x;
      Isolated(Current, [withId, literal], literal) == Ok([withId, literal]) &&
      Isolated(Current, [literal, withId], literal) == Ok([literal, withId])
  {
    var withId, literal := "/" + a + "/" + i, "/" + a + "/" + x;
    SlashedTwo(a, i);
    SlashedTwo(a, x);
    IdSpecifiersCurrentSlashed([a, i]);
    IdSpecifiersCurrentSlashed([a, x]);
    MatchesPatternIff(Current, [a, i], [a, x]);
    MatchesPatternIff(Current, [a, x], [a, x]);
    IsolatedPair(Current, withId, literal, literal);
    assert Isolated(Current, [withId, literal], literal).value == [withId, literal];
    IsolatedPair(Current, literal, withId, literal);
    assert Isolated(Current, [literal, withId], literal).value == [literal, withId];
  }

  // ------------------------------------------------------ the request "/"

  /** The first path with an identifier rewrites the request "/" into "". */
  lemma VisitRootRequest(a: string, i: string)
    requires a != [] && '/' !in a && '/' !in i && !IsIdSegment(a) && IsIdSegment(i)
    ensures Visit(Current, Scan(Slashed([[]]), [], false), Slashed([a, i])) == Scan([], [], false)
  {
    IdPositionsSecond(a, i);
    assert TrimLast([[]]) == [];
    assert Replace([], [1], "%") == [];
    VisitSlashed(Scan(Slashed([[]]), [], false), [a, i], [[]]);
    assert !SegmentsAgree([a, i], [[]]);
  }

  /** The next path with an identifier then rewrites "", which panics. */
  lemma VisitEmptyRequest(b: string, j: string)
    requires b != [] && '/' !in b && '/' !in j && !IsIdSegment(b) && IsIdSegment(j)
    ensures Visit(Current, Scan([], [], false), Slashed([b, j])).panicked
  {
    var path := Slashed([b, j]);
    IdSpecifiersCurrentSlashed([b, j]);
    IdSpecifiersSlashed(Current, [b, j]);
    IdPositionsSecond(b, j);
    assert IdSpecifiers(Current, path) == Ok([1]);
    assert Rewrite([], [1], "%").Panicked?;
    assert Test(Placeholder(Current), [1], [], path) == Panicked;
  }

  /** AS WRITTEN: with two registered paths that carry identifier segments, the request
      "/" panics: the first rewrite turns "/" into "", and rewriting "" reads the last of
      no pieces. */
  lemma RootRequestPanics(a: string, i: string, b: string, j: string)
    requires a != [] && b != [] && '/' !in a && '/' !in i && '/' !in b && '/' !in j
    requires !IsIdSegment(a) && IsIdSegment(i) && !IsIdSegment(b) && IsIdSegment(j)
    ensures ScanAll(Current, ["/" + a + "/" + i, "/" + b + "/" + j], "/").panicked
  {
    SlashedTwo(a, i);
    SlashedTwo(b, j);
    SlashedOne([]);
    assert "/" + [] == "/";
    RootRequestPanicsSlashed(a, i, b, j);
  }

  lemma RootRequestPanicsSlashed(a: string, i: string, b: string, j: string)
    requires a != [] && b != [] && '/' !in a && '/' !in i && '/' !in b && '/' !in j
    requires !IsIdSegment(a) && IsIdSegment(i) && !IsIdSegment(b) && IsIdSegment(j)
    ensures ScanAll(Current, [Slashed([a, i]), Slashed([b, j])], Slashed([[]])).panicked
  {
    ScanPair(Current, Slashed([a, i]), Slashed([b, j]), Slashed([[]]));
    VisitRootRequest(a, i);
    VisitEmptyRequest(b, j);
  }

  /** The registered path "/a/{id}" does not apply to the request "/" on its own. */
  lemma RootRequestOnItsOwn(a: string, i: string)
    requires a != [] && '/' !in a && '/' !in i && IsIdSegment(i)
    ensures MatchesPattern(Current, "/", "/" + a + "/" + i) == Ok(false)
  {
    SlashedTwo(a, i);
    SlashedOne([]);
    IdSpecifiersCurrentSlashed([a, i]);
    MatchesPatternIff(Current, [a, i], [[]]);
    assert TrimLast([[]]) == [];
  }

  /** CORRECTED: tested against the request path as received, no registered path
      applies to "/" and nothing panics. */
  lemma RootRequestWhenIsolated(a: string, i: string, b: string, j: string)
    requires a != [] && b != [] && '/' !in a && '/' !in i && '/' !in b && '/' !in j
    requires IsIdSegment(i) && IsIdSegment(j)
    ensures Isolated(Current, ["/" + a + "/" + i, "/" + b + "/" + j], "/") == Ok([])
  {
    var first, second := "/" + a + "/" + i, "/" + b + "/" + j;
    RootRequestOnItsOwn(a, i);
    RootRequestOnItsOwn(b, j);
    IsolatedPair(Current, first, second, "/");
    assert Isolated(Current, [first, second], "/").value == [];
  }
}
