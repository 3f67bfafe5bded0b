/** What repeated cycles of the main loop (forward_copy, then
    backward_remove, over the two roots) do to the replica: stale entries
    shrink pass by pass, entries kept alive by a special file stay, and a
    replica of plain files and directories converges to the source. */
module Convergence {
  import opened FileTree
  import opened Forward
  import opened Backward

  /** The replica entries the backward pass exists to delete. */
  ghost function Stale(src: Tree, rep: Tree): (s: set<Path>)
  {
    set q | q in rep && (StaleFile(src, rep, q) || StaleDir(src, rep, q))
  }

  /** One backward_remove over the two roots. */
  ghost function PrunePass(src: Tree, rep: Tree): (r: Tree) {
    Pruned(src, rep, [], Children(rep, []))
  }

  /** k backward passes in a row. */
  ghost function PrunePasses(src: Tree, rep: Tree, k: nat): (r: Tree)
    decreases k
  {
    if k == 0 then rep else PrunePasses(src, PrunePass(src, rep), k - 1)
  }

  /** One cycle of the main loop: forward_copy over the roots, then
      backward_remove over the roots. */
  ghost function AfterCycle(src: Tree, rep: Tree): (r: Tree) {
    PrunePass(src, Forwarded(src, rep, [], Children(src, [])))
  }

  /** k cycles in a row. */
  ghost function Cycles(src: Tree, rep: Tree, k: nat): (r: Tree)
    decreases k
  {
    if k == 0 then rep else Cycles(src, AfterCycle(src, rep), k - 1)
  }

  /** No special entry of the replica lies inside a stale directory. */
  ghost predicate NoSpecialUnderStale(src: Tree, rep: Tree) {
    forall q, x :: StaleDir(src, rep, q) && x in rep && Below(q, x) ==> !rep[x].Special?
  }

  ghost predicate SpecialFree(t: Tree) {
    forall q :: q in t ==> !t[q].Special?
  }

  /** Wherever both trees hold an entry, it is of the same kind. */
  ghost predicate KindsAgree(src: Tree, rep: Tree) {
    forall q :: q in src && q in rep ==>
      src[q].Dir? == rep[q].Dir? && src[q].File? == rep[q].File?
  }

  /** Trees of plain directories and files whose kinds agree: the setting
      in which a cycle never aborts and the replica converges. */
  ghost predicate Plain(src: Tree, rep: Tree) {
    Wf(src) && Wf(rep) && SpecialFree(src) && SpecialFree(rep) && KindsAgree(src, rep)
  }

  /** The pass over the roots handles every entry of the replica. */
  lemma RootPassRemoves(src: Tree, rep: Tree, q: Path)
    requires Wf(src) && Wf(rep) && q in rep
    ensures q !in PrunePass(src, rep) <==>
            StaleFile(src, rep, q) || (StaleDir(src, rep, q) && IsEmpty(rep, q))
  {
    if q != [] {
      ListedChild(rep, [], q);
    }
  }

  /** In a deepest stale entry nothing is left that could keep it. */
  lemma DeepestStaleIsEmpty(src: Tree, rep: Tree, m: Path)
    requires Wf(src) && Wf(rep)
    requires StaleDir(src, rep, m)
    requires forall x :: x in rep && Below(m, x) ==> !rep[x].Special?
    requires forall x :: x in Stale(src, rep) ==> |x| <= |m|
    ensures IsEmpty(rep, m)
  {
    LeafIsEmpty(src, m);
    forall x | x in rep && Below(m, x)
      ensures x in Stale(src, rep)
    {
      assert x !in src;
    }
  }

  /** One backward pass deletes only stale entries, and, when no special
      entry sits inside a stale directory, at least one of them when there
      is one (the deepest). */
  lemma {:induction false} PassShrinks(src: Tree, rep: Tree)
    requires Wf(src) && Wf(rep)
    ensures Stale(src, PrunePass(src, rep)) <= Stale(src, rep)
    ensures NoSpecialUnderStale(src, rep) && Stale(src, rep) != {} ==>
              Stale(src, PrunePass(src, rep)) < Stale(src, rep)
  {
    var r := PrunePass(src, rep);
    PrunedSpec(src, rep, [], Children(rep, []));
    assert Stale(src, r) <= Stale(src, rep);
    if NoSpecialUnderStale(src, rep) && Stale(src, rep) != {} {
      var m := Deepest(Stale(src, rep));
      if StaleDir(src, rep, m) {
        DeepestStaleIsEmpty(src, rep, m);
      }
      RootPassRemoves(src, rep, m);
      assert m !in Stale(src, r);
    }
  }

  /** A measure that shrinks whenever it can. */
  lemma Shrinking(a: set<Path>, b: set<Path>)
    requires a <= b && (b != {} ==> a < b)
    ensures |a| <= |b| && (b != {} ==> |a| < |b|) && (b == {} ==> a == {})
  {
    assert b == a + (b - a);
    assert a * (b - a) == {};
  }

  /** A backward pass keeps the replica well formed and keeps special
      entries out of stale directories. */
  lemma PassKeeps(src: Tree, rep: Tree)
    requires Wf(rep) && NoSpecialUnderStale(src, rep)
    ensures Wf(PrunePass(src, rep)) && NoSpecialUnderStale(src, PrunePass(src, rep))
  {
    PrunedWf(src, rep, [], Children(rep, []));
    PrunedSpec(src, rep, [], Children(rep, []));
  }

  /** Repeated backward passes delete a stale subtree of plain files and
      directories: after as many passes as there are stale entries, none is
      left. */
  lemma {:induction false} PassesClearStale(src: Tree, rep: Tree, k: nat)
    requires Wf(src) && Wf(rep) && NoSpecialUnderStale(src, rep)
    requires k >= |Stale(src, rep)|
    ensures Stale(src, PrunePasses(src, rep, k)) == {}
    decreases k
  {
    if k > 0 {
      var r := PrunePass(src, rep);
      PassShrinks(src, rep);
      PassKeeps(src, rep);
      Shrinking(Stale(src, r), Stale(src, rep));
      PassesClearStale(src, r, k - 1);
    }
  }

  /** A stale directory with a special entry inside it is never removed,
      however many backward passes run, and neither is the special entry. */
  lemma {:induction false} SpecialKeepsStaleDir(src: Tree, rep: Tree, q: Path, x: Path, k: nat)
    requires Wf(src) && Wf(rep)
    requires StaleDir(src, rep, q) && x in rep && Below(q, x) && rep[x].Special?
    ensures var r := PrunePasses(src, rep, k);
            q in r && r[q] == Dir && x in r && r[x] == Special
    decreases k
  {
    if k > 0 {
      var r := PrunePass(src, rep);
      RootPassRemoves(src, rep, q);
      RootPassRemoves(src, rep, x);
      PrunedWf(src, rep, [], Children(rep, []));
      SpecialKeepsStaleDir(src, r, q, x, k - 1);
    }
  }

  /** q is a stale entry with no special entry at or below it. */
  ghost predicate PlainStale(src: Tree, rep: Tree, q: Path) {
    && (StaleFile(src, rep, q) || StaleDir(src, rep, q))
    && forall x :: x in rep && Within(q, x) ==> !rep[x].Special?
  }

  /** k backward passes are one pass followed by k - 1 more. */
  lemma PassesUnfold(src: Tree, rep: Tree, k: nat)
    requires k > 0
    ensures PrunePasses(src, rep, k) == PrunePasses(src, PrunePass(src, rep), k - 1)
  {
  }

  /** Backward passes never add a path. */
  lemma {:induction false} PassesKeys(src: Tree, rep: Tree, k: nat)
    ensures PrunePasses(src, rep, k).Keys <= rep.Keys
    decreases k
  {
    if k > 0 {
      PassesKeys(src, PrunePass(src, rep), k - 1);
    }
  }

  /** An entry one pass removes stays removed, and one the later passes
      remove is removed by the whole run. */
  lemma PassesGone(src: Tree, rep: Tree, q: Path, k: nat)
    requires k > 0
    ensures q !in PrunePass(src, rep) ==> q !in PrunePasses(src, rep, k)
    ensures q !in PrunePasses(src, PrunePass(src, rep), k - 1) ==> q !in PrunePasses(src, rep, k)
  {
    PassesUnfold(src, rep, k);
    PassesKeys(src, PrunePass(src, rep), k - 1);
  }

  /** Backward passes keep the replica well formed. */
  lemma {:induction false} PassesKeepWf(src: Tree, rep: Tree, k: nat)
    requires Wf(rep)
    ensures Wf(PrunePasses(src, rep, k))
    decreases k
  {
    if k > 0 {
      var r := PrunePass(src, rep);
      PrunedWf(src, rep, [], Children(rep, []));
      PassesKeepWf(src, r, k - 1);
    }
  }

  /** Nothing at or below q is left in t. */
  ghost predicate Cleared(t: Tree, q: Path) {
    forall x :: Within(q, x) ==> x !in t
  }

  /** A well-formed tree holding a path holds each of its ancestors. */
  lemma AncestorsKept(t: Tree, q: Path)
    requires Wf(t)
    ensures forall x :: x in t && Within(q, x) ==> q in t
  {
    forall x | x in t && Within(q, x)
      ensures q in t
    {
      if x != q {
        assert x[..|q|] == q;
      }
    }
  }

  /** Everything at or below a plain stale entry is stale and plain. */
  lemma PlainStaleWithin(src: Tree, rep: Tree, q: Path, x: Path)
    requires Wf(src) && Wf(rep) && PlainStale(src, rep, q)
    requires x in rep && Within(q, x)
    ensures PlainStale(src, rep, x)
  {
    if StaleDir(src, rep, q) {
      LeafIsEmpty(src, q);
    } else {
      LeafIsEmpty(rep, q);
    }
    if x != q {
      assert Below(q, x) && x !in src;
    }
    forall y | y in rep && Within(x, y)
      ensures !rep[y].Special?
    {
      WithinTrans(q, x, y);
    }
  }

  /** One backward pass removes at least one entry of a plain stale
      subtree (its deepest), whatever lies elsewhere in the replica. */
  lemma StaleSubtreeShrinks(src: Tree, rep: Tree, q: Path)
    requires Wf(src) && Wf(rep) && PlainStale(src, rep, q)
    ensures Subtree(PrunePass(src, rep), q) < Subtree(rep, q)
  {
    var r := PrunePass(src, rep);
    PrunedSpec(src, rep, [], Children(rep, []));
    var m := Deepest(Subtree(rep, q));
    PlainStaleWithin(src, rep, q, m);
    forall y | y in rep && Below(m, y)
      ensures y in Subtree(rep, q)
    {
      WithinTrans(q, m, y);
    }
    assert IsEmpty(rep, m);
    RootPassRemoves(src, rep, m);
    assert m !in Subtree(r, q);
  }

  /** A plain stale entry that survives a pass is still plain and stale,
      in a smaller subtree. */
  lemma PlainStaleStep(src: Tree, rep: Tree, q: Path)
    requires Wf(src) && Wf(rep) && PlainStale(src, rep, q)
    requires q in PrunePass(src, rep)
    ensures Wf(PrunePass(src, rep)) && PlainStale(src, PrunePass(src, rep), q)
    ensures |Subtree(PrunePass(src, rep), q)| < |Subtree(rep, q)|
  {
    var r := PrunePass(src, rep);
    StaleSubtreeShrinks(src, rep, q);
    PrunedWf(src, rep, [], Children(rep, []));
    PrunedSpec(src, rep, [], Children(rep, []));
    Shrinking(Subtree(r, q), Subtree(rep, q));
  }

  /** The induction step of PlainStaleGone: after one pass q is either
      gone or still a plain stale entry whose subtree fits in the remaining
      passes. */
  lemma PlainStaleGoneStep(src: Tree, rep: Tree, q: Path, k: nat)
    requires Wf(src) && Wf(rep) && PlainStale(src, rep, q)
    requires k >= |Subtree(rep, q)|
    ensures k > 0 && Wf(PrunePass(src, rep))
    ensures q in PrunePass(src, rep) ==>
              PlainStale(src, PrunePass(src, rep), q) && k - 1 >= |Subtree(PrunePass(src, rep), q)|
  {
    assert q in Subtree(rep, q);
    PrunedWf(src, rep, [], Children(rep, []));
    if q in PrunePass(src, rep) {
      PlainStaleStep(src, rep, q);
    }
  }

  /** A stale entry with no special entry at or below it is gone after as
      many backward passes as its subtree has entries. */
  lemma {:induction false} PlainStaleGone(src: Tree, rep: Tree, q: Path, k: nat)
    requires Wf(src) && Wf(rep) && PlainStale(src, rep, q)
    requires k >= |Subtree(rep, q)|
    ensures q !in PrunePasses(src, rep, k)
    decreases k
  {
    PlainStaleGoneStep(src, rep, q, k);
    PassesGone(src, rep, q, k);
    if q in PrunePass(src, rep) {
      PlainStaleGone(src, PrunePass(src, rep), q, k - 1);
    }
  }

  /** Repeated backward passes delete a stale subtree of plain files and
      directories, even when a special entry elsewhere keeps another stale
      directory alive: after as many passes as the subtree has entries,
      nothing at or below q is left. */
  lemma PlainStaleCleared(src: Tree, rep: Tree, q: Path, k: nat)
    requires Wf(src) && Wf(rep) && PlainStale(src, rep, q)
    requires k >= |Subtree(rep, q)|
    ensures Cleared(PrunePasses(src, rep, k), q)
  {
    PlainStaleGone(src, rep, q, k);
    PassesKeepWf(src, rep, k);
    AncestorsKept(PrunePasses(src, rep, k), q);
  }

  /** Kinds that agree are what forward_copy needs: no os.mkdir fails and
      no file is copied onto a directory. */
  lemma KindsAgreeNoClash(src: Tree, rep: Tree, p: Path)
    requires SpecialFree(rep) && KindsAgree(src, rep)
    ensures ClashFree(src, rep, p, Children(src, p)) && CopyTargetsOk(src, rep, p)
  {
  }

  /** A cycle keeps the two trees plain, leaves a replica that mirrors the
      source, and leaves no stale entry it did not start with. */
  lemma {:induction false} CycleKeeps(src: Tree, rep: Tree)
    requires Plain(src, rep)
    ensures Plain(src, AfterCycle(src, rep))
    ensures Mirrors(src, AfterCycle(src, rep), [])
    ensures Stale(src, AfterCycle(src, rep)) <= Stale(src, rep)
    ensures Stale(src, rep) != {} ==> Stale(src, AfterCycle(src, rep)) < Stale(src, rep)
  {
    var f := Forwarded(src, rep, [], Children(src, []));
    var r := AfterCycle(src, rep);
    ForwardedSpec(src, rep, [], Children(src, []));
    ForwardedMirrors(src, rep, []);
    ForwardedWf(src, rep);
    assert Stale(src, f) == Stale(src, rep) by {
      ForwardedStale(src, rep);
    }
    PassShrinks(src, f);
    PassKeeps(src, f);
    PrunedSpec(src, f, [], Children(f, []));
    forall q | Below([], q) && q in src && !src[q].Special?
      ensures q in r && r[q] == src[q]
    {
      RootPassRemoves(src, f, q);
    }
  }

  /** On plain trees forward_copy adds source entries only where the
      replica has none or already holds the same kind, and so keeps the
      replica well formed. */
  lemma ForwardedWf(src: Tree, rep: Tree)
    requires Plain(src, rep)
    ensures Wf(Forwarded(src, rep, [], Children(src, [])))
  {
    var f := Forwarded(src, rep, [], Children(src, []));
    ForwardedSpec(src, rep, [], Children(src, []));
    forall q, k | q in f && 0 <= k < |q|
      ensures q[..k] in f && f[q[..k]].Dir?
    {
      var a := q[..k];
      if q in src && Mirrored(src, [], Children(src, []), q) {
        assert a in src && src[a].Dir?;
        if a != [] {
          assert Below([], a);
          ListedChild(src, [], a);
        }
      } else {
        assert q in rep;
        assert a in rep && rep[a].Dir?;
      }
    }
  }

  /** forward_copy on plain trees neither creates nor clears a stale entry. */
  lemma ForwardedStale(src: Tree, rep: Tree)
    requires Plain(src, rep)
    ensures Stale(src, Forwarded(src, rep, [], Children(src, []))) == Stale(src, rep)
  {
    ForwardedSpec(src, rep, [], Children(src, []));
  }

  /** A replica of plain entries that mirrors the source and has no stale
      entry left is the source. */
  lemma MirrorsNoStaleEqual(src: Tree, rep: Tree)
    requires Plain(src, rep) && Mirrors(src, rep, []) && Stale(src, rep) == {}
    ensures rep == src
  {
    forall q | q in src
      ensures q in rep && rep[q] == src[q]
    {
      if q != [] {
        assert Below([], q);
      }
    }
    forall q | q in rep
      ensures q in src
    {
      assert q !in Stale(src, rep);
    }
    assert rep.Keys == src.Keys;
  }

  /** One more cycle is one cycle followed by the rest. */
  lemma CyclesUnfold(src: Tree, rep: Tree, k: nat)
    requires k > 0
    ensures Cycles(src, rep, k) == Cycles(src, AfterCycle(src, rep), k - 1)
    ensures Cycles(src, rep, 1) == AfterCycle(src, rep)
  {
  }

  /** A cycle on plain trees keeps them plain and either makes the replica
      the source (when nothing was stale) or strictly reduces the number of
      stale entries. */
  lemma CycleProgress(src: Tree, rep: Tree)
    requires Plain(src, rep)
    ensures Plain(src, AfterCycle(src, rep))
    ensures |Stale(src, AfterCycle(src, rep))| <= |Stale(src, rep)|
    ensures Stale(src, rep) != {} ==> |Stale(src, AfterCycle(src, rep))| < |Stale(src, rep)|
    ensures Stale(src, rep) == {} ==> AfterCycle(src, rep) == src
  {
    var r := AfterCycle(src, rep);
    CycleKeeps(src, rep);
    Shrinking(Stale(src, r), Stale(src, rep));
    if Stale(src, rep) == {} {
      MirrorsNoStaleEqual(src, r);
    }
  }

  /** The induction step of CyclesConverge: after one cycle the trees are
      still plain and the remaining cycles still outnumber the stale
      entries. */
  lemma CyclesStep(src: Tree, rep: Tree, k: nat)
    requires Plain(src, rep) && k > |Stale(src, rep)|
    ensures k > 1 ==> Plain(src, AfterCycle(src, rep)) && k - 1 > |Stale(src, AfterCycle(src, rep))|
    ensures k == 1 ==> Cycles(src, rep, k) == src
    ensures k > 0 ==> Cycles(src, rep, k) == Cycles(src, AfterCycle(src, rep), k - 1)
  {
    CycleProgress(src, rep);
    if k > 0 {
      CyclesUnfold(src, rep, k);
    }
  }

  /** Repeated cycles converge: on plain trees, once there have been more
      cycles than stale entries at the start, the replica is the source. */
  lemma {:induction false} CyclesConverge(src: Tree, rep: Tree, k: nat)
    requires Plain(src, rep)
    requires k > |Stale(src, rep)|
    ensures Cycles(src, rep, k) == src
    decreases k
  {
    CyclesStep(src, rep, k);
    if k > 1 {
      CyclesConverge(src, AfterCycle(src, rep), k - 1);
    }
  }

  /** When no stale directory of the replica has anything inside it, one
      cycle is enough. */
  lemma OneCycleConverges(src: Tree, rep: Tree)
    requires Plain(src, rep)
    requires forall q :: StaleDir(src, rep, q) ==> IsEmpty(rep, q)
    ensures AfterCycle(src, rep) == src
  {
    var f := Forwarded(src, rep, [], Children(src, []));
    var r := AfterCycle(src, rep);
    CycleKeeps(src, rep);
    ForwardedSpec(src, rep, [], Children(src, []));
    ForwardedStale(src, rep);
    ForwardedWf(src, rep);
    forall q | q in Stale(src, f)
      ensures q !in r
    {
      RootPassRemoves(src, f, q);
      if StaleDir(src, f, q) {
        assert StaleDir(src, rep, q);
        LeafIsEmpty(src, q);
        assert IsEmpty(f, q);
      }
    }
    assert Stale(src, r) == {};
    MirrorsNoStaleEqual(src, r);
  }

  /** A source holding only its root, and a replica holding a stale
      directory a with a stale file a/b inside it. */
  const NestedSource: Tree := map[[] := Dir]
  const NestedReplica: Tree := map[[] := Dir, ["a"] := Dir, ["a", "b"] := File([])]
  const NestedAfterOne: Tree := map[[] := Dir, ["a"] := Dir]

  lemma NestedPlain()
    ensures Plain(NestedSource, NestedReplica) && Plain(NestedSource, NestedAfterOne)
  {
    NestedWf();
  }

  lemma NestedWf()
    ensures Wf(NestedSource) && Wf(NestedReplica) && Wf(NestedAfterOne)
  {
    var rep := NestedReplica;
    forall q, k | q in rep && 0 <= k < |q|
      ensures q[..k] in rep && rep[q[..k]].Dir?
    {
      if q == ["a", "b"] && k == 1 {
        assert q[..k] == ["a"];
      }
    }
    var mid := NestedAfterOne;
    forall q, k | q in mid && 0 <= k < |q|
      ensures q[..k] in mid && mid[q[..k]].Dir?
    {
    }
  }

  /** The first cycle removes a/b but keeps a, which was not empty when
      examined. */
  lemma NestedFirstCycle()
    ensures AfterCycle(NestedSource, NestedReplica) == NestedAfterOne
  {
    var src, rep, mid := NestedSource, NestedReplica, NestedAfterOne;
    NestedWf();
    MirrorsFixpoint(src, rep, [], Children(src, []));
    var r := PrunePass(src, rep);
    forall q | q in rep
      ensures q in r <==> q in mid
    {
      RootPassRemoves(src, rep, q);
      if q == ["a"] {
        assert Below(q, ["a", "b"]);
      }
    }
    assert r.Keys == mid.Keys;
  }

  /** One cycle is not always enough: a stale directory holding a stale
      file loses the file in the first cycle and goes only in the second. */
  lemma OneCycleNotEnough()
    ensures Plain(NestedSource, NestedReplica)
    ensures AfterCycle(NestedSource, NestedReplica) != NestedSource
    ensures Cycles(NestedSource, NestedReplica, 2) == NestedSource
  {
    NestedPlain();
    NestedFirstCycle();
    assert ["a"] in NestedAfterOne;
    OneCycleConverges(NestedSource, NestedAfterOne);
    assert Cycles(NestedSource, NestedReplica, 2) == Cycles(NestedSource, NestedAfterOne, 1);
  }

  /** A source with docs/readme.txt = "v1" and config.ini = "x", and a
      replica with an older docs/readme.txt = "v0" and a stray old.log. */
  const ScenarioSource: Tree :=
    map[[] := Dir, ["docs"] := Dir, ["docs", "readme.txt"] := File([0x76, 0x31]),
        ["config.ini"] := File([0x78])]
  const ScenarioReplica: Tree :=
    map[[] := Dir, ["docs"] := Dir, ["docs", "readme.txt"] := File([0x76, 0x30]),
        ["old.log"] := File([0x79])]

  lemma ScenarioWf()
    ensures Wf(ScenarioSource) && Wf(ScenarioReplica)
  {
    var src, rep := ScenarioSource, ScenarioReplica;
    forall q, k | q in src && 0 <= k < |q|
      ensures q[..k] in src && src[q[..k]].Dir?
    {
      if q == ["docs", "readme.txt"] && k == 1 {
        assert q[..k] == ["docs"];
      }
    }
    forall q, k | q in rep && 0 <= k < |q|
      ensures q[..k] in rep && rep[q[..k]].Dir?
    {
      if q == ["docs", "readme.txt"] && k == 1 {
        assert q[..k] == ["docs"];
      }
    }
  }

  /** One cycle updates docs/readme.txt, creates config.ini, removes
      old.log and keeps docs: the replica is then the source. */
  lemma ScenarioOneCycle()
    ensures AfterCycle(ScenarioSource, ScenarioReplica) == ScenarioSource
  {
    ScenarioWf();
    var src, rep := ScenarioSource, ScenarioReplica;
    assert Plain(src, rep);
    assert forall q :: q in rep && rep[q].Dir? ==> q in src && src[q].Dir?;
    OneCycleConverges(src, rep);
  }

  /** A source of only the root, and a replica with a stale directory a
      holding a file, beside a stale directory b holding a special entry. */
  const MixedSource: Tree := map[[] := Dir]
  const MixedReplica: Tree :=
    map[[] := Dir, ["a"] := Dir, ["a", "f"] := File([1]), ["b"] := Dir, ["b", "s"] := Special]

  lemma MixedWf()
    ensures Wf(MixedSource) && Wf(MixedReplica)
  {
    var t := MixedReplica;
    forall q, k | q in t && 0 <= k < |q|
      ensures q[..k] in t && t[q[..k]].Dir?
    {
      if |q| == 2 && k == 1 {
        assert q[..k] == [q[0]];
      }
    }
  }

  /** Two backward passes delete a and a/f, while b and b/s stay. */
  lemma MixedStale()
    ensures !NoSpecialUnderStale(MixedSource, MixedReplica)
    ensures Cleared(PrunePasses(MixedSource, MixedReplica, 2), ["a"])
    ensures var r := PrunePasses(MixedSource, MixedReplica, 2);
            ["b"] in r && ["b", "s"] in r
  {
    var src, rep := MixedSource, MixedReplica;
    MixedWf();
    assert Below(["b"], ["b", "s"]);
    assert Subtree(rep, ["a"]) == {["a"], ["a", "f"]} by {
      forall q | q in rep && Within(["a"], q)
        ensures q == ["a"] || q == ["a", "f"]
      {
      }
    }
    PlainStaleCleared(src, rep, ["a"], 2);
    SpecialKeepsStaleDir(src, rep, ["b"], ["b", "s"], 2);
  }
}
