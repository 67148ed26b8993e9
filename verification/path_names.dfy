/** Normal forms of component names (`normalizePath`). */
module PathNames {

  const NUL := '\0'

  /** The path without the NULs at its end. */
  function StripNul(s: string): (r: string)
    ensures |r| <= |s| && (r != [] ==> r[|r| - 1] != NUL)
  {
    if s != [] && s[|s| - 1] == NUL then StripNul(s[..|s| - 1]) else s
  }

  /** Position of the first slash, or the length. */
  function FirstSlash(s: string): (i: nat)
    ensures i <= |s| && (i < |s| ==> s[i] == '/') && '/' !in s[..i]
  {
    if s == [] || s[0] == '/' then 0
    else
      var i := FirstSlash(s[1..]);
      assert s[..i + 1] == [s[0]] + s[1..][..i];
      i + 1
  }

  /** The non-empty stretches between slashes. */
  function Segments(s: string): seq<string>
    decreases |s|
  {
    if s == [] then []
    else
      var i := FirstSlash(s);
      if i == 0 then Segments(s[1..]) else [s[..i]] + Segments(s[i..])
  }

  function Join(xs: seq<string>): string {
    if xs == [] then []
    else if |xs| == 1 then xs[0]
    else xs[0] + "/" + Join(xs[1..])
  }

  ghost predicate AreSegments(xs: seq<string>) {
    forall x | x in xs :: x != [] && '/' !in x
  }

  /** What normalising means. */
  function Normalized(path: string): string {
    Join(Segments(StripNul(path)))
  }

  // ---------------------------------------------------------------- segments

  lemma {:induction false} FirstSlashAt(s: string, i: nat)
    requires i <= |s| && '/' !in s[..i] && (i < |s| ==> s[i] == '/')
    ensures FirstSlash(s) == i
  {
    if i > 0 {
      assert s[..i][0] == s[0] && s[..i] == [s[0]] + s[1..][..i - 1];
      FirstSlashAt(s[1..], i - 1);
    }
  }

  lemma {:induction false} SegmentsAre(s: string)
    ensures AreSegments(Segments(s))
    decreases |s|
  {
    if s != [] {
      var i := FirstSlash(s);
      SegmentsAre(if i == 0 then s[1..] else s[i..]);
    }
  }

  /** A slash separates whatever is on its two sides. */
  lemma {:induction false} SegmentsSplit(a: string, b: string)
    ensures Segments(a + "/" + b) == Segments(a) + Segments(b)
    decreases |a|
  {
    var s := a + "/" + b;
    var i := FirstSlash(a);
    if a == [] {
      assert s == "/" + b && s[1..] == b;
      FirstSlashAt(s, 0);
    } else if i == 0 {
      FirstSlashAt(s, 0);
      assert s[1..] == a[1..] + "/" + b;
      SegmentsSplit(a[1..], b);
    } else {
      assert s[..i] == a[..i];
      FirstSlashAt(s, i);
      assert s[i..] == a[i..] + "/" + b;
      SegmentsSplit(a[i..], b);
      assert [a[..i]] + (Segments(a[i..]) + Segments(b)) == Segments(a) + Segments(b);
    }
  }

  lemma SegmentsOfOne(x: string)
    requires x != [] && '/' !in x
    ensures Segments(x) == [x]
  {
    assert x[..|x|] == x;
    FirstSlashAt(x, |x|);
    assert Segments(x[|x|..]) == [];
  }

  /** Joining segments and taking them apart again gives them back. */
  lemma {:induction false} SegmentsOfJoin(xs: seq<string>)
    requires AreSegments(xs)
    ensures Segments(Join(xs)) == xs
  {
    if |xs| == 1 {
      assert xs[0] in xs;
      SegmentsOfOne(xs[0]);
    } else if |xs| > 1 {
      assert xs[0] in xs && forall x | x in xs[1..] :: x in xs;
      SegmentsOfJoin(xs[1..]);
      SegmentsSplit(xs[0], Join(xs[1..]));
      SegmentsOfOne(xs[0]);
    }
  }

  // ---------------------------------------------------------------- the loops

  predicate DoubleAt(s: string, i: nat) {
    i + 1 < |s| && s[i] == '/' && s[i + 1] == '/'
  }

  ghost predicate NoDoubles(s: string) {
    forall i: nat :: !DoubleAt(s, i)
  }

  /** No slash at either end, and no two in a row. */
  ghost predicate Tidy(s: string) {
    && NoDoubles(s)
    && (s != [] ==> s[0] != '/' && s[|s| - 1] != '/')
  }

  /** A tidy path is the join of its segments. */
  lemma {:induction false} TidyIsJoin(s: string)
    requires Tidy(s)
    ensures Join(Segments(s)) == s
    decreases |s|
  {
    if s != [] {
      var i := FirstSlash(s);
      if i == |s| {
        SegmentsOfOne(s);
      } else {
        var b := s[i + 1..];
        assert !DoubleAt(s, i) && s == s[..i] + "/" + b;
        assert b != [] && b[|b| - 1] == s[|s| - 1];
        forall j: nat ensures !DoubleAt(b, j) {
          assert !DoubleAt(s, i + 1 + j);
        }
        TidyIsJoin(b);
        SegmentsSplit(s[..i], b);
        SegmentsOfOne(s[..i]);
        assert Segments(b) != [];
        assert ([s[..i]] + Segments(b))[1..] == Segments(b);
      }
    }
  }

  lemma NoSegments()
    ensures Segments("") == []
  {
  }

  lemma RemovingFirst(s: string)
    requires s != [] && s[0] == '/'
    ensures Segments(s[1..]) == Segments(s)
  {
    hide Segments;
    assert s == "" + "/" + s[1..];
    NoSegments();
    SegmentsSplit("", s[1..]);
  }

  lemma RemovingLast(s: string)
    requires s != [] && s[|s| - 1] == '/'
    ensures Segments(s[..|s| - 1]) == Segments(s)
  {
    hide Segments;
    assert s == s[..|s| - 1] + "/" + "";
    NoSegments();
    SegmentsSplit(s[..|s| - 1], "");
  }

  lemma RemovingDouble(s: string, i: nat)
    requires DoubleAt(s, i)
    ensures Segments(s[..i] + "/" + s[i + 2..]) == Segments(s)
  {
    hide Segments;
    var a, b := s[..i], s[i + 2..];
    assert s == a + "/" + ("/" + b) && ("/" + b)[1..] == b;
    SegmentsSplit(a, "/" + b);
    RemovingFirst("/" + b);
    SegmentsSplit(a, b);
  }

  lemma NoNewDouble(s: string)
    requires s != [] && NoDoubles(s)
    ensures NoDoubles(s[1..]) && NoDoubles(s[..|s| - 1])
  {
    forall j: nat ensures !DoubleAt(s[1..], j) {
      assert !DoubleAt(s, j + 1);
    }
    var t := s[..|s| - 1];
    forall j: nat ensures !DoubleAt(t, j) {
      assert !DoubleAt(s, j);
    }
  }

  method FindDouble(s: string) returns (found: bool, i: nat)
    ensures found ==> DoubleAt(s, i)
    ensures !found ==> NoDoubles(s)
  {
    i := 0;
    while i + 1 < |s|
      invariant forall j: nat | j < i :: !DoubleAt(s, j)
    {
      if s[i] == '/' && s[i + 1] == '/' {
        return true, i;
      }
      i := i + 1;
    }
    found := false;
  }

  method NormalizePath(path: string) returns (rv: string)
    ensures rv == Normalized(path)
  {
    rv := path;
    while |rv| > 0 && rv[|rv| - 1] == NUL
      invariant StripNul(rv) == StripNul(path)
      decreases |rv|
    {
      rv := rv[..|rv| - 1];
    }
    ghost var xs := Segments(rv);
    var found, i := FindDouble(rv);
    while found
      invariant Segments(rv) == xs
      invariant if found then DoubleAt(rv, i) else NoDoubles(rv)
      decreases |rv|, found
    {
      RemovingDouble(rv, i);
      rv := rv[..i] + "/" + rv[i + 2..];
      found, i := FindDouble(rv);
    }
    while |rv| > 0 && rv[0] == '/'
      invariant Segments(rv) == xs && NoDoubles(rv)
      decreases |rv|
    {
      RemovingFirst(rv);
      NoNewDouble(rv);
      rv := rv[1..];
    }
    while |rv| > 0 && rv[|rv| - 1] == '/'
      invariant Segments(rv) == xs && NoDoubles(rv) && (rv != [] ==> rv[0] != '/')
      decreases |rv|
    {
      RemovingLast(rv);
      NoNewDouble(rv);
      rv := rv[..|rv| - 1];
    }
    TidyIsJoin(rv);
  }

  // ---------------------------------------------------------------- what it is for

  /** Two paths normalise alike exactly when they have the same segments. */
  lemma NormalizedAlikeIff(p: string, q: string)
    ensures Normalized(p) == Normalized(q) <==> Segments(StripNul(p)) == Segments(StripNul(q))
  {
    SegmentsAre(StripNul(p));
    SegmentsAre(StripNul(q));
    SegmentsOfJoin(Segments(StripNul(p)));
    SegmentsOfJoin(Segments(StripNul(q)));
  }

  lemma {:induction false} JoinIsNoLonger(s: string)
    ensures |Join(Segments(s))| <= |s|
    decreases |s|
  {
    if s != [] {
      var i := FirstSlash(s);
      if i == 0 {
        JoinIsNoLonger(s[1..]);
      } else if i == |s| {
        assert Segments(s[i..]) == [];
      } else {
        JoinIsNoLonger(s[i + 1..]);
        assert s[i..] == [] + "/" + s[i + 1..];
        SegmentsSplit([], s[i + 1..]);
        var t := Segments(s[i + 1..]);
        assert ([s[..i]] + t)[1..] == t;
      }
    }
  }

  lemma IdempotentByResult(p: string)
    ensures Normalized(Normalized(p)) == Normalized(p)
       <==> var r := Normalized(p); r == [] || r[|r| - 1] != NUL
  {
    var r := Normalized(p);
    SegmentsAre(StripNul(p));
    SegmentsOfJoin(Segments(StripNul(p)));
    if r != [] && r[|r| - 1] == NUL {
      JoinIsNoLonger(StripNul(r));
    }
  }

  /** The path without the slashes at its end. */
  function StripSlash(s: string): (r: string)
    ensures |r| <= |s| && (r != [] ==> r[|r| - 1] != '/')
  {
    if s != [] && s[|s| - 1] == '/' then StripSlash(s[..|s| - 1]) else s
  }

  lemma {:induction false} StripSlashKeepsSegments(s: string)
    ensures Segments(StripSlash(s)) == Segments(s)
    decreases |s|
  {
    if s != [] && s[|s| - 1] == '/' {
      RemovingLast(s);
      StripSlashKeepsSegments(s[..|s| - 1]);
    }
  }

  /** A path that does not end in a slash keeps its last character. */
  lemma {:induction false} JoinKeepsLast(s: string)
    requires s != [] && s[|s| - 1] != '/'
    ensures var r := Join(Segments(s)); r != [] && r[|r| - 1] == s[|s| - 1]
    decreases |s|
  {
    var i := FirstSlash(s);
    if i == |s| {
      SegmentsOfOne(s);
    } else {
      var a, b := s[..i], s[i + 1..];
      assert s == a + "/" + b;
      assert b != [] && b[|b| - 1] == s[|s| - 1];
      JoinKeepsLast(b);
      SegmentsSplit(a, b);
      if i == 0 {
        assert Segments(s) == Segments(b);
      } else {
        SegmentsOfOne(a);
        assert ([a] + Segments(b))[1..] == Segments(b);
      }
    }
  }

  /** Normalising again changes nothing, unless the slashes at the end of the path, in front of
      its last NULs, have a NUL before them. */
  lemma IdempotentIff(p: string)
    ensures Normalized(Normalized(p)) == Normalized(p)
       <==> var t := StripSlash(StripNul(p)); t == [] || t[|t| - 1] != NUL
  {
    var t := StripSlash(StripNul(p));
    IdempotentByResult(p);
    StripSlashKeepsSegments(StripNul(p));
    if t != [] {
      JoinKeepsLast(t);
    } else {
      NoSegments();
    }
  }

  /** Such a path. */
  lemma NulBeforeTheLastSlash()
    ensures Normalized(Normalized("a\0/")) != Normalized("a\0/")
  {
    var p := "a\0/";
    assert StripNul(p) == p;
    assert p[..2] == "a\0" && StripSlash("a\0") == "a\0";
    IdempotentIff(p);
  }

  /** So it is idempotent on every path without NULs. */
  lemma IdempotentWithoutNul(p: string)
    requires NUL !in p
    ensures Normalized(Normalized(p)) == Normalized(p) == Join(Segments(p))
  {
    assert StripNul(p) == p by { assert p != [] ==> p[|p| - 1] in p; }
    StripSlashIsPrefix(p);
    IdempotentIff(p);
  }

  lemma {:induction false} StripSlashIsPrefix(s: string)
    ensures StripSlash(s) <= s
    decreases |s|
  {
    if s != [] && s[|s| - 1] == '/' {
      StripSlashIsPrefix(s[..|s| - 1]);
    }
  }

  // ---------------------------------------------------------------- the normal form, character by character

  lemma {:induction false} JoinIsTidy(xs: seq<string>)
    requires AreSegments(xs)
    ensures Tidy(Join(xs)) && (xs != [] ==> Join(xs) != [])
  {
    if |xs| == 1 {
      assert xs[0] in xs;
    } else if |xs| > 1 {
      var x, t := xs[0], Join(xs[1..]);
      assert x in xs && forall y | y in xs[1..] :: y in xs;
      JoinIsTidy(xs[1..]);
      var s := x + "/" + t;
      forall i: nat ensures !DoubleAt(s, i) {
        if i > |x| {
          assert !DoubleAt(t, i - |x| - 1);
        }
      }
    }
  }

  /** No slash is left at either end, and no two in a row; a path like that is left alone, but
      for NULs at its end. */
  lemma TidyIff(p: string)
    requires p == [] || p[|p| - 1] != NUL
    ensures Tidy(Normalized(p))
    ensures Normalized(p) == p <==> Tidy(p)
  {
    SegmentsAre(StripNul(p));
    JoinIsTidy(Segments(StripNul(p)));
    if Tidy(p) {
      TidyIsJoin(p);
    }
  }

  /** What is taken out does not matter: a NUL at the end, a slash at the beginning, and one at
      the end of a path that does not end in NULs. */
  lemma TakenOut(p: string)
    ensures Normalized(p + [NUL]) == Normalized(p)
    ensures Normalized("/" + p) == Normalized(p)
    ensures (p == [] || p[|p| - 1] != NUL) ==> Normalized(p + "/") == Normalized(p)
  {
    hide Segments, Join;
    assert (p + [NUL])[..|p|] == p;
    var c := StripNul(p);
    SlashBeforeNuls("", p);
    assert "" + "/" + p == "/" + p && "" + "/" + c == "/" + c;
    RemovingFirst("/" + c);
    assert ("/" + c)[1..] == c;
    assert (p + "/")[..|p|] == p;
    RemovingLast(p + "/");
  }

  /** Nor does one of two slashes in a row. */
  lemma OneOfTwoTakenOut(a: string, b: string)
    ensures Normalized(a + "//" + b) == Normalized(a + "/" + b)
  {
    hide Segments, Join, StripNul;
    var c := StripNul(b);
    assert a + "//" + b == (a + "/") + "/" + b && a + "//" + c == (a + "/") + "/" + c;
    SlashBeforeNuls(a, b);
    SlashBeforeNuls(a + "/", b);
    var s := a + "//" + c;
    assert s[|a|] == '/' && s[|a| + 1] == '/';
    assert s[..|a|] == a && s[|a| + 2..] == c;
    RemovingDouble(s, |a|);
  }

  lemma {:induction false} SlashBeforeNuls(a: string, b: string)
    ensures StripNul(a + "/" + b) == a + "/" + StripNul(b)
    decreases |b|
  {
    var s := a + "/" + b;
    if b != [] && b[|b| - 1] == NUL {
      assert s[..|s| - 1] == a + "/" + b[..|b| - 1];
      SlashBeforeNuls(a, b[..|b| - 1]);
    } else {
      assert s[|s| - 1] == (if b == [] then '/' else b[|b| - 1]);
    }
  }
}
