/** Splitting a path on '/', as Go's `strings.Split(s, "/")` does, and the two ways
    of putting segments back together: `Join` (the inverse of `Split`) and
    `Slashed` (one "/" before every segment, as the path helpers accumulate it). */
module Text {

  /** No segment contains the separator. */
  predicate NoSlash(parts: seq<string>) {
    forall i :: 0 <= i < |parts| ==> '/' !in parts[i]
  }

  /** `strings.Split(s, "/")`: the maximal '/'-free pieces between separators;
      the empty string gives one empty piece. */
  function Split(s: string): (parts: seq<string>)
    ensures |parts| >= 1
    decreases |s|
  {
    if |s| == 0 then [[]]
    else
      var init := Split(s[..|s| - 1]);
      if s[|s| - 1] == '/' then init + [[]]
      else init[..|init| - 1] + [init[|init| - 1] + [s[|s| - 1]]]
  }

  /** `strings.Join(parts, "/")`. */
  function Join(parts: seq<string>): string
    requires |parts| >= 1
  {
    if |parts| == 1 then parts[0]
    else Join(parts[..|parts| - 1]) + "/" + parts[|parts| - 1]
  }

  /** "/" + parts[0] + "/" + parts[1] + ...: the string `getPaths` and
      `removePartsFromPath` build with `+= "/" + part`. */
  function Slashed(parts: seq<string>): string {
    if |parts| == 0 then ""
    else Slashed(parts[..|parts| - 1]) + "/" + parts[|parts| - 1]
  }

  /** The string of `n` slashes. */
  function Slashes(n: nat): (r: string)
    ensures |r| == n
  {
    if n == 0 then "" else Slashes(n - 1) + "/"
  }

  /** The sequence of `n` empty segments. */
  function Empties(n: nat): (r: seq<string>)
    ensures |r| == n
  {
    if n == 0 then [] else Empties(n - 1) + [[]]
  }

  /** Drops one trailing empty segment, as `parts = parts[:len(parts)-1]` does
      after the test `parts[len(parts)-1] == ""`. */
  function TrimLast(parts: seq<string>): (r: seq<string>)
    requires |parts| >= 1
  {
    if |parts[|parts| - 1]| == 0 then parts[..|parts| - 1] else parts
  }

  lemma {:induction false} SplitWithoutSlash(s: string)
    requires '/' !in s
    ensures Split(s) == [s]
    decreases |s|
  {
    if s != [] {
      SplitWithoutSlash(s[..|s| - 1]);
      assert s[..|s| - 1] + [s[|s| - 1]] == s;
    }
  }

  /** No piece of a split contains the separator. */
  lemma {:induction false} SplitNoSlash(s: string)
    ensures NoSlash(Split(s))
    decreases |s|
  {
    if s != [] {
      var s' := s[..|s| - 1];
      var c := s[|s| - 1];
      SplitNoSlash(s');
      assert s == s' + [c];
      if c == '/' {
        SplitStepSlash(s');
        assert s == s' + "/";
      } else {
        SplitStepOther(s', c);
        var p := Split(s');
        assert '/' !in p[|p| - 1] + [c];
      }
    }
  }

  /** A string without '/' splits into one piece, and only such a string does. */
  lemma {:induction false} SplitSingleton(s: string)
    ensures |Split(s)| == 1 <==> '/' !in s
    decreases |s|
  {
    if s != [] {
      SplitSingleton(s[..|s| - 1]);
      if '/' !in s {
        SplitWithoutSlash(s);
      } else if s[|s| - 1] != '/' {
        assert '/' in s[..|s| - 1] by {
          var i :| 0 <= i < |s| && s[i] == '/';
          assert s[..|s| - 1][i] == '/';
        }
      }
    }
  }

  /** Appending a separator to a string opens a new, empty piece. */
  lemma SplitStepSlash(s: string)
    ensures Split(s + "/") == Split(s) + [[]]
  {
    var t := s + "/";
    assert t[..|t| - 1] == s;
  }

  /** Appending any other character extends the last piece. */
  lemma SplitStepOther(s: string, c: char)
    requires c != '/'
    ensures Split(s + [c]) == Split(s)[..|Split(s)| - 1] + [Split(s)[|Split(s)| - 1] + [c]]
  {
    var t := s + [c];
    assert t[..|t| - 1] == s;
  }

  /** Splitting at one separator splits the two sides independently. */
  lemma SplitAppendSlash(a: string, t: string, b': string)
    requires t == a + "/" + b'
    requires Split(t) == Split(a) + Split(b')
    ensures Split(t + "/") == Split(a) + Split(b' + "/")
  {
    SplitStepSlash(t);
    SplitStepSlash(b');
  }

  lemma SplitAppendOther(a: string, t: string, b': string, c: char)
    requires c != '/'
    requires t == a + "/" + b'
    requires Split(t) == Split(a) + Split(b')
    ensures Split(t + [c]) == Split(a) + Split(b' + [c])
  {
    SplitStepOther(t, c);
    SplitStepOther(b', c);
    ExtendLast(Split(a), Split(b'), c);
  }

  /** Extending the last piece of a concatenation extends the last piece of its right part. */
  lemma ExtendLast(sa: seq<string>, sb: seq<string>, c: char)
    requires |sb| >= 1
    ensures var u := sa + sb;
      u[..|u| - 1] + [u[|u| - 1] + [c]] == sa + (sb[..|sb| - 1] + [sb[|sb| - 1] + [c]])
  {
    var u := sa + sb;
    assert u[..|u| - 1] == sa + sb[..|sb| - 1];
  }

  /** Splitting at one separator splits the two sides independently. */
  lemma {:induction false} SplitAppend(a: string, b: string)
    ensures Split(a + "/" + b) == Split(a) + Split(b)
    decreases |b|
  {
    if |b| == 0 {
      SplitStepSlash(a);
      assert a + "/" + b == a + "/";
    } else {
      var b' := b[..|b| - 1];
      SplitAppend(a, b');
      SplitAppendLast(a, b', b[|b| - 1]);
      assert b' + [b[|b| - 1]] == b;
    }
  }

  /** One more character after the separator. */
  lemma SplitAppendLast(a: string, b': string, c: char)
    requires Split(a + "/" + b') == Split(a) + Split(b')
    ensures Split(a + "/" + (b' + [c])) == Split(a) + Split(b' + [c])
  {
    var t := a + "/" + b';
    assert a + "/" + (b' + [c]) == t + [c];
    if c == '/' {
      SplitAppendSlash(a, t, b');
      assert [c] == "/";
    } else {
      SplitAppendOther(a, t, b', c);
    }
  }

  /** `Join` undoes `Split`. */
  lemma {:induction false} JoinSplit(s: string)
    ensures Join(Split(s)) == s
    decreases |s|
  {
    if |s| != 0 {
      var s' := s[..|s| - 1];
      assert s == s' + [s[|s| - 1]];
      JoinSplit(s');
      JoinSplitLast(s', s[|s| - 1]);
    }
  }

  /** One more character: a separator closes a piece, any other extends the last one. */
  lemma JoinSplitLast(s: string, c: char)
    requires Join(Split(s)) == s
    ensures Join(Split(s + [c])) == s + [c]
  {
    var init := Split(s);
    var r := Split(s + [c]);
    if c == '/' {
      SplitStepSlash(s);
      assert [c] == "/";
      assert r[..|r| - 1] == init;
    } else {
      SplitStepOther(s, c);
      assert r[..|r| - 1] == init[..|init| - 1];
      if |init| > 1 {
        assert Join(init) == Join(init[..|init| - 1]) + "/" + init[|init| - 1];
        assert Join(r) == Join(init[..|init| - 1]) + "/" + (init[|init| - 1] + [c]);
      }
    }
  }

  /** `Split` undoes `Join` when no piece contains the separator. */
  lemma {:induction false} SplitJoin(parts: seq<string>)
    requires |parts| >= 1 && NoSlash(parts)
    ensures Split(Join(parts)) == parts
    decreases |parts|
  {
    if |parts| == 1 {
      SplitWithoutSlash(parts[0]);
    } else {
      var init := parts[..|parts| - 1];
      SplitJoin(init);
      SplitWithoutSlash(parts[|parts| - 1]);
      SplitAppend(Join(init), parts[|parts| - 1]);
      assert init + [parts[|parts| - 1]] == parts;
    }
  }

  /** A slashed string is the join of its segments after one empty piece. */
  lemma {:induction false} SlashedIsJoin(parts: seq<string>)
    ensures Slashed(parts) == Join([[]] + parts)
    decreases |parts|
  {
    if parts != [] {
      var init := parts[..|parts| - 1];
      SlashedIsJoin(init);
      var q := [[]] + parts;
      assert q[..|q| - 1] == [[]] + init;
    }
  }

  /** Splitting a slashed string gives back an empty piece followed by its segments. */
  lemma SplitSlashed(parts: seq<string>)
    requires NoSlash(parts)
    ensures Split(Slashed(parts)) == [[]] + parts
  {
    SlashedIsJoin(parts);
    SplitJoin([[]] + parts);
  }

  /** A path that starts with '/' is the slashed form of its pieces after the first. */
  lemma SlashedSplit(s: string)
    requires s == [] || s[0] == '/'
    ensures Split(s)[0] == []
    ensures Slashed(Split(s)[1..]) == s
  {
    if s != [] {
      assert s == [] + "/" + s[1..];
      SplitAppend([], s[1..]);
    }
    var p := Split(s);
    assert p == [[]] + p[1..];
    SlashedIsJoin(p[1..]);
    JoinSplit(s);
  }

  lemma {:induction false} SlashedAppend(a: seq<string>, b: seq<string>)
    ensures Slashed(a + b) == Slashed(a) + Slashed(b)
    decreases |b|
  {
    if b != [] {
      var b' := b[..|b| - 1];
      var ab := a + b;
      assert ab[..|ab| - 1] == a + b';
      assert ab[|ab| - 1] == b[|b| - 1];
      SlashedAppend(a, b');
      assert Slashed(ab) == Slashed(a + b') + "/" + b[|b| - 1];
      assert Slashed(b) == Slashed(b') + "/" + b[|b| - 1];
    } else {
      assert a + b == a;
    }
  }

  lemma {:induction false} SlashedEmpties(n: nat)
    ensures Slashed(Empties(n)) == Slashes(n)
  {
    if n > 0 {
      SlashedEmpties(n - 1);
      assert Empties(n)[..n - 1] == Empties(n - 1);
    }
  }

  lemma {:induction false} SplitSlashes(s: string, n: nat)
    ensures Split(s + Slashes(n)) == Split(s) + Empties(n)
  {
    if n > 0 {
      SplitSlashes(s, n - 1);
      var t := s + Slashes(n);
      assert t == (s + Slashes(n - 1)) + "/";
      assert t[..|t| - 1] == s + Slashes(n - 1);
    } else {
      assert s + Slashes(0) == s;
    }
  }

  lemma {:induction false} SlashesAreSlashes(n: nat)
    ensures |Slashes(n)| == n
    ensures forall i :: 0 <= i < n ==> Slashes(n)[i] == '/'
  {
    if n > 0 {
      SlashesAreSlashes(n - 1);
    }
  }

  lemma EmptiesLength(n: nat)
    ensures |Empties(n)| == n
    ensures forall i :: 0 <= i < n ==> Empties(n)[i] == []
  {
  }

  /** Two slashed strings that differ only by trailing slashes have segments that
      differ only by trailing empty segments. */
  lemma SlashedPadded(xs: seq<string>, ys: seq<string>, n: nat)
    requires NoSlash(xs) && NoSlash(ys)
    requires Slashed(xs) == Slashed(ys) + Slashes(n)
    ensures xs == ys + Empties(n)
  {
    var padded := ys + Empties(n);
    SplitSlashed(xs);
    SplitSlashed(ys);
    SplitPadded(Slashed(ys), ys, n);
    assert xs == ([[]] + xs)[1..] && padded == ([[]] + padded)[1..];
  }

  /** Trailing slashes add as many empty pieces. */
  lemma SplitPadded(s: string, ys: seq<string>, n: nat)
    requires Split(s) == [[]] + ys
    ensures Split(s + Slashes(n)) == [[]] + (ys + Empties(n))
  {
    SplitSlashes(s, n);
    assert ([[]] + ys) + Empties(n) == [[]] + (ys + Empties(n));
  }

  lemma SlashedOne(a: string)
    ensures Slashed([a]) == "/" + a
  {
    assert [a][..0] == [];
  }

  lemma SlashedTwo(a: string, b: string)
    ensures Slashed([a, b]) == "/" + a + "/" + b
  {
    assert [a, b][..1] == [a];
    SlashedOne(a);
  }

  lemma SlashedThree(a: string, b: string, c: string)
    ensures Slashed([a, b, c]) == "/" + a + "/" + b + "/" + c
  {
    assert [a, b, c][..2] == [a, b];
    SlashedTwo(a, b);
  }

  lemma SlashedFour(a: string, b: string, c: string, d: string)
    ensures Slashed([a, b, c, d]) == "/" + a + "/" + b + "/" + c + "/" + d
  {
    assert [a, b, c, d][..3] == [a, b, c];
    SlashedThree(a, b, c);
  }

  /** `strings.Split` yields one piece more than there are separators. */
  lemma {:induction false} SplitLength(s: string)
    ensures |Split(s)| == 1 + multiset(s)['/']
    decreases |s|
  {
    if s != [] {
      var init := s[..|s| - 1];
      SplitLength(init);
      assert s == init + [s[|s| - 1]];
      assert multiset(s) == multiset(init) + multiset{s[|s| - 1]};
    }
  }
}
