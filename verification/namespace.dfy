/** The component tree of a dataset, as the calls on `datasetDB` see it: slash-separated
    names mapped to directories or to files with a content path. */
module Namespace {

  datatype Entry = Dir | File(path: string, readOnly: bool)

  type Tree = map<string, Entry>

  /** `find_last_of('/')`, with -1 for "not found". */
  function LastSlash(c: string): (r: int)
    ensures -1 <= r < |c|
    ensures r >= 0 ==> c[r] == '/'
    ensures forall j | r < j < |c| :: c[j] != '/'
  {
    if c == "" then -1
    else if c[|c| - 1] == '/' then |c| - 1
    else LastSlash(c[..|c| - 1])
  }

  predicate IsDirectory(t: Tree, c: string) {
    c in t && t[c].Dir?
  }

  /** The check made before anything is created: a name with a slash needs its directory. */
  predicate ParentExists(t: Tree, c: string) {
    var i := LastSlash(c);
    i >= 0 ==> IsDirectory(t, c[..i])
  }

  predicate Under(k: string, c: string) {
    |c| < |k| && k[..|c|] == c && k[|c|] == '/'
  }

  predicate Within(k: string, c: string) {
    k == c || Under(k, c)
  }

  predicate Intersects(a: string, b: string) {
    Under(a, b) || Under(b, a)
  }

  /** Does the directory `c` list anything? The root lists every other name. */
  predicate HasChildren(t: Tree, c: string) {
    if c == "" then exists k | k in t :: k != "" else exists k | k in t :: Under(k, c)
  }

  ghost predicate Closed(t: Tree) {
    forall c | c in t :: ParentExists(t, c)
  }

  ghost predicate DistinctContents(t: Tree) {
    forall a, b | a in t && b in t && t[a].File? && t[b].File? && t[a].path == t[b].path :: a == b
  }

  /** In a closed tree, only directories have anything under them. */
  lemma {:induction false} OnlyDirectoriesHaveContents(t: Tree, c: string, k: string)
    requires Closed(t) && k in t && Under(k, c)
    ensures IsDirectory(t, c)
    decreases |k|
  {
    var i := LastSlash(k);
    if i > |c| {
      assert k[..i][..|c|] == k[..|c|];
      OnlyDirectoriesHaveContents(t, c, k[..i]);
    }
  }

  lemma AddedKeepsClosed(t: Tree, c: string, e: Entry)
    requires Closed(t) && c !in t && ParentExists(t, c)
    ensures Closed(t[c := e])
  {
    var t' := t[c := e];
    forall k | k in t' ensures ParentExists(t', k) {
      assert ParentExists(t, k);
    }
  }

  lemma RemovedKeepsClosed(t: Tree, c: string)
    requires Closed(t) && !(IsDirectory(t, c) && HasChildren(t, c))
    ensures Closed(t - {c})
  {
    var t' := t - {c};
    forall k | k in t' ensures ParentExists(t', k) {
      assert ParentExists(t, k);
      var i := LastSlash(k);
      if i >= 0 {
        NoChildAbove(t, c, k, i);
      }
    }
  }

  lemma NoChildAbove(t: Tree, c: string, k: string, i: nat)
    requires k in t && i < |k| && k[i] == '/' && IsDirectory(t, k[..i])
    requires !(IsDirectory(t, c) && HasChildren(t, c))
    ensures k[..i] != c
  {
    if k[..i] == c {
      assert Under(k, c);
      assert false;
    }
  }

  // ---------------------------------------------------------------- moving a subtree

  function Rebase(k: string, s: string, d: string): string {
    if Within(k, s) then d + k[|s|..] else k
  }

  /** `MoveComponent`: the component and everything under it get the new name. */
  function Moved(t: Tree, s: string, d: string): Tree {
    (map k | k in t && !Within(k, s) :: t[k]) + SubtreeAt(t, s, d)
  }

  function SubtreeNames(t: Tree, s: string, d: string): set<string> {
    set k | k in t && Within(k, s) :: d + k[|s|..]
  }

  function SubtreeAt(t: Tree, s: string, d: string): Tree {
    map m | m in SubtreeNames(t, s, d) && |d| <= |m| && s + m[|d|..] in t :: t[s + m[|d|..]]
  }

  /** What `rename_component` has made sure of when it calls `MoveComponent`. */
  ghost predicate MayMove(t: Tree, s: string, d: string) {
    && Closed(t) && s in t
    && (s == d || (d !in t && !Intersects(s, d) && ParentExists(t, d)))
  }

  lemma PrefixOfWithin(k: string, s: string, d: string)
    requires Within(k, s)
    ensures Within(d + k[|s|..], d) && k == s + k[|s|..]
  {
    if k != s {
      var m := d + k[|s|..];
      assert m[..|d|] == d && m[|d|] == k[|s|];
    }
  }

  /** Nothing that stays was already where the moved subtree goes. */
  lemma OutsideStaysOutside(t: Tree, s: string, d: string, k: string)
    requires MayMove(t, s, d) && k in t && !Within(k, s)
    ensures !Within(k, d)
    ensures k !in SubtreeAt(t, s, d)
  {
    if Within(k, d) {
      if k != d { OnlyDirectoriesHaveContents(t, d, k); }
      assert false;
    }
    forall x | x in t && Within(x, s) ensures k != d + x[|s|..] {
      PrefixOfWithin(x, s, d);
    }
  }

  lemma RebaseIsInjective(t: Tree, s: string, d: string, a: string, b: string)
    requires MayMove(t, s, d) && a in t && b in t && Rebase(a, s, d) == Rebase(b, s, d)
    ensures a == b
  {
    if Within(a, s) { PrefixOfWithin(a, s, d); } else { OutsideStaysOutside(t, s, d, a); }
    if Within(b, s) { PrefixOfWithin(b, s, d); } else { OutsideStaysOutside(t, s, d, b); }
    if Within(a, s) && Within(b, s) {
      assert (d + a[|s|..])[|d|..] == a[|s|..] && (d + b[|s|..])[|d|..] == b[|s|..];
    }
  }

  lemma MovedEntry(t: Tree, s: string, d: string, k: string)
    requires MayMove(t, s, d) && k in t
    ensures Rebase(k, s, d) in Moved(t, s, d) && Moved(t, s, d)[Rebase(k, s, d)] == t[k]
  {
    if Within(k, s) {
      var m := d + k[|s|..];
      PrefixOfWithin(k, s, d);
      assert m in SubtreeNames(t, s, d) && m[|d|..] == k[|s|..];
    } else {
      OutsideStaysOutside(t, s, d, k);
    }
  }

  lemma MovedOrigin(t: Tree, s: string, d: string, m: string) returns (k: string)
    requires MayMove(t, s, d) && m in Moved(t, s, d)
    ensures k in t && Rebase(k, s, d) == m
  {
    if m in SubtreeAt(t, s, d) {
      k :| k in t && Within(k, s) && m == d + k[|s|..];
    } else {
      k := m;
    }
  }

  /** The move renames every entry and changes none: no entry is lost, none is overwritten. */
  lemma MoveIsARenaming(t: Tree, s: string, d: string)
    requires MayMove(t, s, d)
    ensures forall k | k in t :: Rebase(k, s, d) in Moved(t, s, d) && Moved(t, s, d)[Rebase(k, s, d)] == t[k]
    ensures forall m | m in Moved(t, s, d) :: exists k | k in t :: Rebase(k, s, d) == m
    ensures forall a, b | a in t && b in t && Rebase(a, s, d) == Rebase(b, s, d) :: a == b
  {
    hide Moved, Rebase, MayMove;
    forall k | k in t ensures Rebase(k, s, d) in Moved(t, s, d) && Moved(t, s, d)[Rebase(k, s, d)] == t[k] {
      MovedEntry(t, s, d, k);
    }
    forall m | m in Moved(t, s, d) ensures exists k | k in t :: Rebase(k, s, d) == m {
      var k := MovedOrigin(t, s, d, m);
    }
    forall a, b | a in t && b in t && Rebase(a, s, d) == Rebase(b, s, d) ensures a == b {
      RebaseIsInjective(t, s, d, a, b);
    }
  }

  lemma MoveKeepsContentsDistinct(t: Tree, s: string, d: string)
    requires MayMove(t, s, d) && DistinctContents(t)
    ensures DistinctContents(Moved(t, s, d))
  {
    hide Moved, Rebase, MayMove;
    MoveIsARenaming(t, s, d);
    var u := Moved(t, s, d);
    forall a, b | a in u && b in u && u[a].File? && u[b].File? && u[a].path == u[b].path ensures a == b {
      var x :| x in t && Rebase(x, s, d) == a;
      var y :| y in t && Rebase(y, s, d) == b;
      assert t[x] == u[a] && t[y] == u[b];
    }
  }

  /** The parent of a name below `s` is `s` or below `s`, and moves along. */
  lemma ParentOfMoved(k: string, s: string, d: string)
    requires Under(k, s)
    ensures var i, m := LastSlash(k), Rebase(k, s, d);
            && i >= |s| && LastSlash(m) == i - |s| + |d|
            && Within(k[..i], s) && m[..LastSlash(m)] == Rebase(k[..i], s, d)
  {
    var i, m := LastSlash(k), Rebase(k, s, d);
    PrefixOfWithin(k, s, d);
    assert i >= |s|;
    var p := k[..i];
    assert p[..|s|] == s && Within(p, s);
    var j := i - |s| + |d|;
    assert m[j] == k[i] == '/' && forall x | j < x < |m| :: m[x] == k[x - |d| + |s|];
    assert LastSlash(m) == j;
    assert m[..j] == d + p[|s|..];
  }

  lemma MoveKeepsParent(t: Tree, s: string, d: string, k: string)
    requires MayMove(t, s, d) && k in t
    ensures ParentExists(Moved(t, s, d), Rebase(k, s, d))
  {
    hide Moved;
    var i := LastSlash(k);
    assert ParentExists(t, k);
    if k == s {
      assert d + k[|s|..] == d;
      ParentOutsideMove(t, s, d);
    } else if Under(k, s) {
      ParentOfMoved(k, s, d);
      MovedEntry(t, s, d, k[..i]);
    } else if i >= 0 {
      MovedEntry(t, s, d, k[..i]);
      if Within(k[..i], s) {
        WithinParent(k, i, s);
      }
    }
  }

  lemma WithinParent(k: string, i: nat, s: string)
    requires i < |k| && k[i] == '/' && Within(k[..i], s)
    ensures Under(k, s)
  {
    assert k[..|s|] == k[..i][..|s|];
  }

  lemma MoveKeepsClosed(t: Tree, s: string, d: string)
    requires MayMove(t, s, d)
    ensures Closed(Moved(t, s, d))
  {
    hide Moved, Rebase, MayMove, ParentExists;
    forall m | m in Moved(t, s, d) ensures ParentExists(Moved(t, s, d), m) {
      var k := MovedOrigin(t, s, d, m);
      MoveKeepsParent(t, s, d, k);
    }
  }

  lemma ParentOutsideMove(t: Tree, s: string, d: string)
    requires MayMove(t, s, d)
    ensures ParentExists(Moved(t, s, d), d)
  {
    hide Moved;
    var i := LastSlash(d);
    assert ParentExists(t, d);
    if i >= 0 {
      if Within(d[..i], s) {
        WithinParent(d, i, s);
      }
      MovedEntry(t, s, d, d[..i]);
    }
  }
}
