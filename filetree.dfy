/** An abstract filesystem: a finite map from paths (sequences of entry
    names, relative to a root) to the kind of entry found there. */
module FileTree {

  type Name = string
  type Path = seq<Name>
  type Bytes = seq<bv8>

  /** What os.path.isdir / os.path.isfile classify an entry as; anything
      that is neither (symlink, device, socket, FIFO) is Special. */
  datatype Entry = Dir | File(data: Bytes) | Special

  type Tree = map<Path, Entry>

  /** What the two passes report (the source logs one line per event). */
  datatype Event =
    | DirCreated(path: Path)
    | FileCopied(path: Path)
    | SpecialSkipped(path: Path)
    | DirRemoved(path: Path)
    | FileRemoved(path: Path)

  /** q lies strictly below p. */
  predicate Below(p: Path, q: Path) {
    |p| < |q| && q[..|p|] == p
  }

  /** q is p or lies below it. */
  predicate Within(p: Path, q: Path) {
    |p| <= |q| && q[..|p|] == p
  }

  /** q lies below p, inside the child of p named by one of `names`. */
  predicate Through(p: Path, names: set<Name>, q: Path) {
    Below(p, q) && q[|p|] in names
  }

  /** A tree is well formed when its root is a directory and every proper
      prefix of a path in it is a directory in it. */
  ghost predicate Wf(t: Tree) {
    && [] in t && t[[]].Dir?
    && forall q, k :: q in t && 0 <= k < |q| ==> q[..k] in t && t[q[..k]].Dir?
  }

  /** os.listdir: the names of the entries directly inside p. */
  function Children(t: Tree, p: Path): (names: set<Name>)
    ensures forall n :: n in names <==> p + [n] in t
  {
    var names := set q | q in t && |q| == |p| + 1 && q[..|p|] == p :: q[|p|];
    assert forall n :: p + [n] in t ==> n in names by {
      forall n | p + [n] in t
        ensures n in names
      {
        var q := p + [n];
        assert q[..|p|] == p && q[|p|] == n;
      }
    }
    assert forall q :: q in t && |q| == |p| + 1 && q[..|p|] == p ==> q == p + [q[|p|]];
    names
  }

  /** Nothing in t lies below p. */
  ghost predicate IsEmpty(t: Tree, p: Path) {
    forall q :: q in t ==> !Below(p, q)
  }

  /** The entries at or below p. */
  ghost function Subtree(t: Tree, p: Path): (s: set<Path>)
    ensures forall q :: q in s <==> q in t && Within(p, q)
  {
    set q | q in t && Within(p, q)
  }

  /** The subtree of a child is strictly smaller than its parent's. */
  lemma SubtreeShrinks(t: Tree, p: Path, n: Name)
    requires p in t
    ensures Subtree(t, p + [n]) < Subtree(t, p)
  {
    forall q | q in Subtree(t, p + [n])
      ensures q in Subtree(t, p)
    {
      BelowChild(p, n, q);
    }
    assert p !in Subtree(t, p + [n]);
  }

  lemma UpdateSame(t: Tree, q: Path)
    requires q in t
    ensures t[q := t[q]] == t
  {
    assert t[q := t[q]].Keys == t.Keys;
  }

  /** Two trees hold the same thing at q. */
  ghost predicate SameAt(t: Tree, u: Tree, q: Path) {
    (q in t <==> q in u) && (q in t ==> t[q] == u[q])
  }

  /** Two trees agree on everything at or below p. */
  ghost predicate AgreeWithin(t: Tree, u: Tree, p: Path) {
    forall q :: Within(p, q) ==> SameAt(t, u, q)
  }

  /** Two trees agree on everything strictly below p. */
  ghost predicate AgreeBelow(t: Tree, u: Tree, p: Path) {
    forall q :: Below(p, q) ==> SameAt(t, u, q)
  }

  /** Emptiness below q depends only on what lies within q. */
  lemma EmptyAgree(t: Tree, u: Tree, c: Path, q: Path)
    requires AgreeWithin(t, u, c) && Within(c, q)
    ensures IsEmpty(t, q) <==> IsEmpty(u, q)
  {
    forall x | Below(q, x)
      ensures Within(c, x)
    {
      WithinTrans(c, q, x);
    }
  }

  lemma SubtreeAgree(t: Tree, u: Tree, p: Path)
    requires AgreeWithin(t, u, p)
    ensures Subtree(t, p) == Subtree(u, p)
  {
  }

  lemma BelowChild(p: Path, n: Name, q: Path)
    requires Within(p + [n], q)
    ensures Below(p, q) && q[|p|] == n
  {
    assert q[..|p|] == q[..|p| + 1][..|p|];
    assert q[|p|] == q[..|p| + 1][|p|];
  }

  lemma ChildWithin(p: Path, n: Name, q: Path)
    requires Below(p, q) && q[|p|] == n
    ensures Within(p + [n], q)
  {
    assert q[..|p| + 1] == q[..|p|] + [q[|p|]];
  }

  /** Every entry below p in a well-formed tree lies inside one of the
      children os.listdir reports for p. */
  lemma ListedChild(t: Tree, p: Path, q: Path)
    requires Wf(t) && q in t && Below(p, q)
    ensures q[|p|] in Children(t, p)
  {
    var c := q[..|p| + 1];
    if |q| > |p| + 1 {
      assert c in t;
    } else {
      assert c == q;
    }
    assert c == p + [q[|p|]];
  }

  lemma WithinTrans(p: Path, q: Path, r: Path)
    requires Within(p, q) && Within(q, r)
    ensures Within(p, r)
  {
    assert r[..|p|] == r[..|q|][..|p|];
  }

  /** An entry of a well-formed tree has every ancestor as a directory. */
  lemma AncestorIsDir(t: Tree, p: Path, q: Path)
    requires Wf(t) && q in t && Below(p, q)
    ensures p in t && t[p].Dir?
  {
    assert q[..|p|] in t;
  }

  /** os.listdir reports an empty directory exactly when nothing lies below it. */
  lemma {:induction false} ChildrenEmpty(t: Tree, p: Path)
    requires Wf(t)
    ensures Children(t, p) == {} <==> IsEmpty(t, p)
  {
    if q :| q in t && Below(p, q) {
      ListedChild(t, p, q);
    }
    if n :| n in Children(t, p) {
      assert Below(p, p + [n]);
    }
  }

  /** A well-formed tree holds nothing below a path that is absent or is not
      a directory. */
  lemma LeafIsEmpty(t: Tree, p: Path)
    requires Wf(t)
    requires p !in t || !t[p].Dir?
    ensures IsEmpty(t, p)
  {
    forall q | q in t
      ensures !Below(p, q)
    {
      if Below(p, q) {
        AncestorIsDir(t, p, q);
      }
    }
  }

  /** Creating an entry (os.mkdir, shutil.copy2) inside an existing
      directory keeps the tree well formed, provided a directory with
      entries below it is not replaced by something else. */
  lemma WfInsert(t: Tree, c: Path, e: Entry)
    requires Wf(t) && c != []
    requires c[..|c| - 1] in t && t[c[..|c| - 1]].Dir?
    requires e.Dir? || IsEmpty(t, c)
    ensures Wf(t[c := e])
  {
    var u := t[c := e];
    forall q, k | q in u && 0 <= k < |q|
      ensures q[..k] in u && u[q[..k]].Dir?
    {
      if q == c {
        if k < |c| - 1 {
          assert q[..k] == c[..|c| - 1][..k];
        }
      } else {
        assert q in t;
        if q[..k] == c {
          assert Below(c, q);
        }
      }
    }
  }

  /** Removing an entry with nothing below it (os.rmdir of an empty
      directory, os.remove) keeps the tree well formed. */
  lemma WfRemove(t: Tree, c: Path)
    requires Wf(t) && c != [] && IsEmpty(t, c)
    ensures Wf(t - {c})
  {
    var u := t - {c};
    forall q, k | q in u && 0 <= k < |q|
      ensures q[..k] in u && u[q[..k]].Dir?
    {
      assert q in t && !Below(c, q);
    }
  }

  /** A deepest path of a non-empty set of paths. */
  ghost function Deepest(s: set<Path>): (m: Path)
    requires s != {}
    ensures m in s
    ensures forall x :: x in s ==> |x| <= |m|
    decreases s
  {
    var x :| x in s;
    if s == {x} then x
    else
      var m := Deepest(s - {x});
      if |x| <= |m| then m else x
  }
}
