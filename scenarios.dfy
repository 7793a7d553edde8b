/** Concrete requests against concrete registrations. */
module Scenarios {
  import opened Panics
  import opened Text
  import opened Segments
  import opened Matching


  /** A literal registered path applies to the request path equal to it and to every
      request path below it. */
  lemma LiteralBelow(a: string, b: string)
    requires a != [] && '/' !in a && '/' !in b
    ensures MatchesPattern(Current, "/" + a, "/" + a) == Ok(true)
    ensures MatchesPattern(Current, "/" + a + "/" + b, "/" + a) == Ok(true)
  {
    SlashedOne(a);
    SlashedTwo(a, b);
    IdSpecifiersCurrentSlashed([a]);
    MatchesPatternIff(Current, [a], [a]);
    MatchesPatternIff(Current, [a], [a, b]);
  }

  /** A literal registered path does not apply to a sibling ... */
  lemma LiteralSibling(a: string, b: string)
    requires a != [] && b != [] && a != b && '/' !in a && '/' !in b && !IsIdSegment(b)
    ensures MatchesPattern(Current, "/" + a, "/" + b) == Ok(false)
  {
    SlashedOne(a);
    SlashedOne(b);
    IdSpecifiersCurrentSlashed([b]);
    MatchesPatternIff(Current, [b], [a]);
  }

  /** ... nor to a request path that merely starts with the same characters:
      matching stops at segment boundaries. */
  lemma LiteralSegmentBoundary(a: string, c: string)
    requires a != [] && c != [] && '/' !in a + c && !IsIdSegment(a)
    ensures MatchesPattern(Current, "/" + a + c, "/" + a) == Ok(false)
  {
    SlashedOne(a);
    SlashedOne(a + c);
    assert "/" + (a + c) == "/" + a + c;
    IdSpecifiersCurrentSlashed([a]);
    MatchesPatternIff(Current, [a], [a + c]);
    assert (a + c) != a by { assert |a + c| > |a|; }
  }

  lemma IdPositionsThree(a: string, i: string, b: string)
    requires !IsIdSegment(a) && IsIdSegment(i) && !IsIdSegment(b)
    ensures IdPositions([a, i, b]) == [1]
  {
    assert [a][..0] == [];
    assert IdPositions([a]) == [];
    assert [a, i][..1] == [a];
    assert IdPositions([a, i]) == [1];
    assert [a, i, b][..2] == [a, i];
  }

  /** An identifier segment in a registered path stands for any value in that position
      of the request path ... */
  lemma IdentifierMatchesAnyValue(a: string, i: string, b: string, v: string)
    requires a != [] && b != [] && '/' !in a && '/' !in i && '/' !in b && '/' !in v
    requires IsIdSegment(i)
    ensures MatchesPattern(Current, "/" + a + "/" + v + "/" + b, "/" + a + "/" + i + "/" + b) == Ok(true)
  {
    SlashedThree(a, i, b);
    SlashedThree(a, v, b);
    AnyValueSlashed(a, i, b, v);
  }

  lemma AnyValueSlashed(a: string, i: string, b: string, v: string)
    requires a != [] && b != [] && '/' !in a && '/' !in i && '/' !in b && '/' !in v
    requires IsIdSegment(i)
    ensures MatchesPattern(Current, Slashed([a, v, b]), Slashed([a, i, b])) == Ok(true)
  {
    IdSpecifiersCurrentSlashed([a, i, b]);
    MatchesPatternIff(Current, [a, i, b], [a, v, b]);
    assert TrimLast([a, v, b]) == [a, v, b];
    assert SegmentsAgree([a, i, b], [a, v, b]);
  }

  /** ... while the literal segments around it must still agree. */
  lemma IdentifierLiteralsMustAgree(a: string, i: string, b: string, v: string, c: string)
    requires a != [] && b != [] && '/' !in a && '/' !in i && '/' !in b && '/' !in v && '/' !in c
    requires !IsIdSegment(b) && c != b
    ensures MatchesPattern(Current, "/" + a + "/" + v + "/" + c, "/" + a + "/" + i + "/" + b) == Ok(false)
  {
    SlashedThree(a, i, b);
    SlashedThree(a, v, c);
    IdSpecifiersCurrentSlashed([a, i, b]);
    MatchesPatternIff(Current, [a, i, b], [a, v, c]);
    assert [a, i, b][2] == b;
  }

  /** ... and a request path may go on below the registered one. */
  lemma IdentifierMatchesBelow(a: string, i: string, b: string, v: string, rest: seq<string>)
    requires a != [] && b != [] && '/' !in a && '/' !in i && '/' !in b && '/' !in v
    requires IsIdSegment(i) && NoSlash(rest)
    ensures MatchesPattern(Current, Slashed([a, v, b] + rest), Slashed([a, i, b])) == Ok(true)
  {
    NoSlashBelow(a, v, b, rest);
    IdSpecifiersCurrentSlashed([a, i, b]);
    MatchesPatternIff(Current, [a, i, b], [a, v, b] + rest);
    AgreeBelow(a, i, b, v, rest);
  }

  lemma NoSlashBelow(a: string, v: string, b: string, rest: seq<string>)
    requires '/' !in a && '/' !in v && '/' !in b && NoSlash(rest)
    ensures NoSlash([a, v, b] + rest)
  {
    var rs := [a, v, b] + rest;
    forall k | 0 <= k < |rs| ensures '/' !in rs[k] {
      if k >= 3 {
        assert rs[k] == rest[k - 3];
      }
    }
  }

  lemma AgreeBelow(a: string, i: string, b: string, v: string, rest: seq<string>)
    requires b != [] && IsIdSegment(i)
    ensures SegmentsAgree([a, i, b], [a, v, b] + rest)
  {
    var rs := [a, v, b] + rest;
    assert rs[0] == a && rs[1] == v && rs[2] == b;
    assert |TrimLast(rs)| >= 3;
  }

  // ------------------------------------------- two identifier paths in one loop

  /** The identifier positions of the shorter and the longer registered path. */
  lemma IdPositionsNested(a: string, i: string, b: string, j: string)
    requires !IsIdSegment(a) && IsIdSegment(i) && !IsIdSegment(b) && IsIdSegment(j)
    ensures IdPositions([a, i, b]) == [1]
    ensures IdPositions([a, i, b, j]) == [1, 3]
  {
    IdPositionsThree(a, i, b);
    PositionsOneThree(a, i, b, j);
  }

  /** Rewriting the three request segments at either path's positions. */
  lemma ReplaceNested(a: string, v: string, b: string)
    ensures Replace([a, v, b], [1], "%") == [a, "%", b]
    ensures Replace([a, v, b], [1, 3], "%") == [a, "%", b]
  {
    var r1 := Replace([a, v, b], [1], "%");
    var r2 := Replace([a, v, b], [1, 3], "%");
    ReplaceAt([a, v, b], [1], "%");
    ReplaceAt([a, v, b], [1, 3], "%");
    assert r1 == [r1[0], r1[1], r1[2]];
    assert r2 == [r2[0], r2[1], r2[2]];
  }

  /** The shorter path "/a/{id}/b" applies to a request whose segments are "/a/v/b",
      once a trailing empty one is dropped, and leaves "/a/%/b" behind. */
  lemma VisitShorter(a: string, i: string, b: string, rs: seq<string>, matched: seq<string>)
    requires a != [] && b != [] && NoSlash([a, i, b]) && NoSlash(rs)
    requires !IsIdSegment(a) && IsIdSegment(i) && !IsIdSegment(b)
    requires rs != [] && |TrimLast(rs)| == 3 && TrimLast(rs)[0] == a && TrimLast(rs)[2] == b
    ensures Visit(Current, Scan(Slashed(rs), matched, false), Slashed([a, i, b])) ==
      Scan(Slashed([a, "%", b]), matched + [Slashed([a, i, b])], false)
  {
    var v := TrimLast(rs)[1];
    assert TrimLast(rs) == [a, v, b];
    IdPositionsThree(a, i, b);
    ReplaceNested(a, v, b);
    SegmentsAgreeTrimmed([a, i, b], rs);
    VisitSlashed(Scan(Slashed(rs), matched, false), [a, i, b], rs);
  }

  /** The longer path "/a/{id}/b/{id}" does not apply to a request whose segments are
      "/a/v/b", once a trailing empty one is dropped, and also leaves "/a/%/b" behind. */
  lemma VisitLonger(a: string, i: string, b: string, j: string, rs: seq<string>, matched: seq<string>)
    requires a != [] && b != [] && NoSlash([a, i, b, j]) && NoSlash(rs)
    requires !IsIdSegment(a) && IsIdSegment(i) && !IsIdSegment(b) && IsIdSegment(j)
    requires rs != [] && |TrimLast(rs)| == 3 && TrimLast(rs)[0] == a && TrimLast(rs)[2] == b
    ensures Visit(Current, Scan(Slashed(rs), matched, false), Slashed([a, i, b, j])) ==
      Scan(Slashed([a, "%", b]), matched, false)
  {
    var v := TrimLast(rs)[1];
    assert TrimLast(rs) == [a, v, b];
    PositionsOneThree(a, i, b, j);
    ReplaceNested(a, v, b);
    assert !SegmentsAgree([a, i, b, j], rs);
    VisitSlashed(Scan(Slashed(rs), matched, false), [a, i, b, j], rs);
    assert matched + [] == matched;
  }

  lemma NoSlashNested(a: string, i: string, b: string, j: string, v: string)
    requires '/' !in a && '/' !in i && '/' !in b && '/' !in j && '/' !in v
    ensures NoSlash([a, i, b]) && NoSlash([a, i, b, j])
    ensures NoSlash([a, v, b, ""]) && NoSlash([a, "%", b])
  {
    assert '/' !in "%" by { assert "%" == ['%']; }
  }

  /** "/a/{id}/b" and "/a/{id}/b/{id}" registered, request "/a/v/b/": in either iteration
      order the loop as written matches the shorter path only. The longer path needs a
      fourth segment, and the request's trailing empty segment is dropped before the
      comparison. */
  lemma NestedIdentifiersShorterOnly(a: string, i: string, b: string, j: string, v: string)
    requires a != [] && b != [] && '/' !in a && '/' !in i && '/' !in b && '/' !in j && '/' !in v
    requires !IsIdSegment(a) && IsIdSegment(i) && !IsIdSegment(b) && IsIdSegment(j)
    ensures var shorter, longer := Slashed([a, i, b]), Slashed([a, i, b, j]);
      var request := Slashed([a, v, b, ""]);
      ScanAll(Current, [shorter, longer], request) == Scan(Slashed([a, "%", b]), [shorter], false) &&
      ScanAll(Current, [longer, shorter], request) == Scan(Slashed([a, "%", b]), [shorter], false)
  {
    var shorter, longer := Slashed([a, i, b]), Slashed([a, i, b, j]);
    var rs := [a, v, b, ""];
    var rewritten := [a, "%", b];
    NoSlashNested(a, i, b, j, v);
    assert TrimLast(rs) == [a, v, b];
    assert TrimLast(rewritten) == rewritten;
    ScanPair(Current, shorter, longer, Slashed(rs));
    VisitShorter(a, i, b, rs, []);
    assert [] + [shorter] == [shorter];
    VisitLonger(a, i, b, j, rewritten, [shorter]);
    ScanPair(Current, longer, shorter, Slashed(rs));
    VisitLonger(a, i, b, j, rs, []);
    VisitShorter(a, i, b, rewritten, []);
  }

  // ------------------------------------------------------ identifier positions

  /** A registered path without empty segments: every revision lists the identifier
      positions of its segments. */
  lemma IdSpecifiersOfSegments(rev: Revision, ps: seq<string>)
    requires NoSlash(ps) && ps != [] && !HasEmpty(ps)
    ensures IdSpecifiers(rev, Slashed(ps)) == Ok(IdPositions(ps))
  {
    PartsOfSlashed(ps);
    assert ps[|ps| - 1] != [];
    assert TrimLast(ps) == ps;
  }

  /** The identifier positions of four segments, one segment at a time. */
  lemma IdPositionsFour(a: string, b: string, c: string, d: string)
    ensures IdPositions([a]) == (if IsIdSegment(a) then [0] else [])
    ensures IdPositions([a, b]) == IdPositions([a]) + (if IsIdSegment(b) then [1] else [])
    ensures IdPositions([a, b, c]) == IdPositions([a, b]) + (if IsIdSegment(c) then [2] else [])
    ensures IdPositions([a, b, c, d]) == IdPositions([a, b, c]) + (if IsIdSegment(d) then [3] else [])
  {
    assert [a][..0] == [];
    assert [a, b][..1] == [a];
    assert [a, b, c][..2] == [a, b];
    assert [a, b, c, d][..3] == [a, b, c];
  }

  /** "/a/{id}/b/{id}": identifiers at positions 1 and 3, in every revision. */
  lemma TwoIdentifiers(rev: Revision, a: string, i: string, b: string, j: string)
    requires NoSlash([a, i, b, j]) && a != [] && b != []
    requires !IsIdSegment(a) && IsIdSegment(i) && !IsIdSegment(b) && IsIdSegment(j)
    ensures IdSpecifiers(rev, Slashed([a, i, b, j])) == Ok([1, 3])
  {
    NoEmptyFour(a, i, b, j);
    IdSpecifiersOfSegments(rev, [a, i, b, j]);
    IdPositionsFour(a, i, b, j);
    PositionsOneThree(a, i, b, j);
  }

  lemma NoEmptyFour(a: string, b: string, c: string, d: string)
    requires a != [] && b != [] && c != [] && d != []
    ensures !HasEmpty([a, b, c, d])
  {
    HasEmptyIff([a, b, c, d]);
  }

  lemma PositionsOneThree(a: string, i: string, b: string, j: string)
    requires !IsIdSegment(a) && IsIdSegment(i) && !IsIdSegment(b) && IsIdSegment(j)
    ensures IdPositions([a, i, b, j]) == [1, 3]
  {
    IdPositionsFour(a, i, b, j);
  }

  /** "/a/b": no identifiers, in every revision. */
  lemma NoIdentifiers(rev: Revision, a: string, b: string)
    requires NoSlash([a, b]) && a != [] && b != [] && !IsIdSegment(a) && !IsIdSegment(b)
    ensures IdSpecifiers(rev, Slashed([a, b])) == Ok([])
  {
    HasEmptyIff([a, b]);
    IdSpecifiersLiteral(rev, [a, b]);
  }

  /** "/a/b/{id}/{{}}{": only "{id}" is an identifier, because a segment must end with
      '}' as well as start with '{'. */
  lemma BracesMustDelimit(rev: Revision, a: string, b: string, i: string, x: string)
    requires NoSlash([a, b, i, x]) && a != [] && b != [] && x != []
    requires !IsIdSegment(a) && !IsIdSegment(b) && IsIdSegment(i)
    requires x[0] == '{' && x[|x| - 1] != '}'
    ensures IdSpecifiers(rev, Slashed([a, b, i, x])) == Ok([2])
  {
    NoEmptyFour(a, b, i, x);
    IdSpecifiersOfSegments(rev, [a, b, i, x]);
    PositionTwo(a, b, i, x);
  }

  lemma PositionTwo(a: string, b: string, i: string, x: string)
    requires !IsIdSegment(a) && !IsIdSegment(b) && IsIdSegment(i) && !IsIdSegment(x)
    ensures IdPositions([a, b, i, x]) == [2]
  {
    IdPositionsFour(a, b, i, x);
  }

  /** "/a//b": the current revision skips the empty segment, the two earlier
      revisions read its first character and panic. */
  lemma EmptySegment(a: string, b: string)
    requires NoSlash([a, b]) && a != [] && b != [] && !IsIdSegment(a) && !IsIdSegment(b)
    ensures IdSpecifiers(Current, Slashed([a, "", b])) == Ok([])
    ensures IdSpecifiers(Earlier, Slashed([a, "", b])) == Panicked
    ensures IdSpecifiers(Prototype, Slashed([a, "", b])) == Panicked
  {
    var ps := [a, "", b];
    assert NoSlash(ps) by {
      assert '/' !in a && '/' !in b by {
        assert [a, b][0] == a && [a, b][1] == b;
      }
      forall k | 0 <= k < 3 ensures '/' !in ps[k] {
        if k == 1 {
          assert ps[k] == [];
        }
      }
    }
    PartsOfSlashed(ps);
    assert TrimLast(ps) == ps;
    assert HasEmpty(ps) by {
      assert ps[1] == [];
    }
    NoPositionsThree(a, b);
  }

  lemma NoPositionsThree(a: string, b: string)
    requires !IsIdSegment(a) && !IsIdSegment(b)
    ensures IdPositions([a, "", b]) == []
  {
    IdPositionsFour(a, "", b, b);
  }

  /** The prototype keeps the trailing empty segment of a registered path that ends in
      '/', so every such path panics, "/" included. */
  lemma TrailingSlashPanicsInPrototype(path: string)
    ensures IdSpecifiers(Prototype, path + "/") == Panicked
  {
    SplitStepSlash(path);
    var parts := Parts(path + "/");
    assert parts[|parts| - 1] == [];
  }

  // ------------------------------------------------------------- rewriting

  /** "/a/b/c/d/" with positions: the listed segments become the placeholder and the
      trailing '/' goes. */
  lemma RewriteFour(a: string, b: string, c: string, d: string, positions: seq<nat>, placeholder: string)
    requires NoSlash([a, b, c, d]) && d != []
    ensures Rewrite(Slashed([a, b, c, d, ""]), positions, placeholder) == Ok(Slashed([
      if 0 in positions then placeholder else a,
      if 1 in positions then placeholder else b,
      if 2 in positions then placeholder else c,
      if 3 in positions then placeholder else d]))
  {
    TrailingEmpty(a, b, c, d);
    RewriteSlashed([a, b, c, d, ""], positions, placeholder);
    ReplaceFour(a, b, c, d, positions, placeholder);
  }

  lemma TrailingEmpty(a: string, b: string, c: string, d: string)
    requires NoSlash([a, b, c, d]) && d != []
    ensures NoSlash([a, b, c, d, ""]) && TrimLast([a, b, c, d, ""]) == [a, b, c, d]
  {
    var ps := [a, b, c, d, ""];
    assert forall k :: 0 <= k < 4 ==> ps[k] == [a, b, c, d][k];
  }

  lemma ReplaceFour(a: string, b: string, c: string, d: string, positions: seq<nat>, placeholder: string)
    ensures Replace([a, b, c, d], positions, placeholder) == [
      if 0 in positions then placeholder else a,
      if 1 in positions then placeholder else b,
      if 2 in positions then placeholder else c,
      if 3 in positions then placeholder else d]
  {
    var r := Replace([a, b, c, d], positions, placeholder);
    ReplaceAt([a, b, c, d], positions, placeholder);
    assert r == [r[0], r[1], r[2], r[3]];
  }

  /** Positions 1 and 3 of "/a/b/c/d/": "/a/%/c/%". */
  lemma RewriteTwo(a: string, b: string, c: string, d: string)
    requires NoSlash([a, b, c, d]) && d != []
    ensures Rewrite(Slashed([a, b, c, d, ""]), [1, 3], "%") == Ok(Slashed([a, "%", c, "%"]))
  {
    RewriteFour(a, b, c, d, [1, 3], "%");
  }

  /** No positions: "/a/b/c/d/" comes back as "/a/b/c/d". */
  lemma RewriteNone(a: string, b: string, c: string, d: string)
    requires NoSlash([a, b, c, d]) && d != []
    ensures Rewrite(Slashed([a, b, c, d, ""]), [], "%") == Ok(Slashed([a, b, c, d]))
  {
    RewriteFour(a, b, c, d, [], "%");
  }

  /** The two earlier revisions write "<ID_PLACEHOLDER>": position 2 of "/a/b/c/d/"
      gives "/a/b/<ID_PLACEHOLDER>/d". */
  lemma RewriteOneEarlier(a: string, b: string, c: string, d: string)
    requires NoSlash([a, b, c, d]) && d != []
    ensures Rewrite(Slashed([a, b, c, d, ""]), [2], Placeholder(Prototype)) ==
      Ok(Slashed([a, b, "<ID_PLACEHOLDER>", d]))
  {
    RewriteFour(a, b, c, d, [2], Placeholder(Prototype));
  }
}
