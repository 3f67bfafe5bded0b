/** What Utils.backward_remove promises, stated over the abstract
    filesystem: the replica it leaves behind and the removals it may
    report. */
module Backward {
  import opened FileTree

  /** A replica regular file whose source counterpart is not a regular file. */
  ghost predicate StaleFile(src: Tree, rep: Tree, q: Path) {
    q in rep && rep[q].File? && !(q in src && src[q].File?)
  }

  /** A replica directory whose source counterpart is not a directory. */
  ghost predicate StaleDir(src: Tree, rep: Tree, q: Path) {
    q in rep && rep[q].Dir? && !(q in src && src[q].Dir?)
  }

  /** The pass over p, having handled the replica children `names`, has
      removed q: a stale regular file, or a stale directory that was empty
      when the pass started. */
  ghost predicate Removed(src: Tree, rep: Tree, p: Path, names: set<Name>, q: Path) {
    && Through(p, names, q)
    && (StaleFile(src, rep, q) || (StaleDir(src, rep, q) && IsEmpty(rep, q)))
  }

  /** The replica once the pass over p has handled the replica children
      `names`. */
  ghost function Pruned(src: Tree, rep: Tree, p: Path, names: set<Name>): (r: Tree)
  {
    map q | q in rep && !Removed(src, rep, p, names, q) :: rep[q]
  }

  /** The rules the pass follows, entry by entry. */
  lemma PrunedSpec(src: Tree, rep: Tree, p: Path, names: set<Name>)
    ensures var r := Pruned(src, rep, p, names);
      // it only deletes: nothing is created and no entry changes
      && (forall q :: q in r ==> q in rep && r[q] == rep[q])
      // outside the handled children nothing is touched
      && (forall q :: q in rep && !Through(p, names, q) ==> q in r)
      // a regular file goes exactly when the source has no regular file there
      && (forall q :: Through(p, names, q) && q in rep && rep[q].File? ==>
            (q !in r <==> !(q in src && src[q].File?)))
      // a directory the source also has as a directory stays
      && (forall q :: q in rep && rep[q].Dir? && q in src && src[q].Dir? ==> q in r)
      // a stale directory goes exactly when it was empty
      && (forall q :: Through(p, names, q) && StaleDir(src, rep, q) ==>
            (q !in r <==> IsEmpty(rep, q)))
      // special entries are never removed
      && (forall q :: q in rep && rep[q].Special? ==> q in r)
  {
  }

  /** Event e may be reported by the pass over p started on replica rep. */
  ghost predicate JustifiedRemoval(src: Tree, rep: Tree, p: Path, e: Event) {
    match e
    case DirRemoved(q) => Below(p, q) && StaleDir(src, rep, q) && IsEmpty(rep, q)
    case FileRemoved(q) => Below(p, q) && StaleFile(src, rep, q)
    case _ => false
  }

  /** Nothing within the unhandled child p + [n] has changed yet. */
  lemma {:induction false} PrunedUntouched(src: Tree, rep: Tree, p: Path, names: set<Name>, n: Name)
    requires n !in names
    ensures AgreeWithin(Pruned(src, rep, p, names), rep, p + [n])
  {
    var r := Pruned(src, rep, p, names);
    forall q | Within(p + [n], q)
      ensures SameAt(r, rep, q)
    {
      BelowChild(p, n, q);
      assert !Removed(src, rep, p, names, q);
    }
  }

  /** Handling a replica directory c = p + [n] that the pass recurses into
      (it is live, or stale but not empty): the recursion removes exactly
      what the pass over p removes inside c, and c itself stays. */
  lemma {:induction false} PruneRecurseStep(src: Tree, rep: Tree, p: Path, names: set<Name>, n: Name)
    requires Wf(rep) && n !in names
    requires p + [n] in rep && rep[p + [n]].Dir?
    requires !(StaleDir(src, rep, p + [n]) && IsEmpty(rep, p + [n]))
    ensures var r := Pruned(src, rep, p, names);
            Pruned(src, r, p + [n], Children(r, p + [n])) == Pruned(src, rep, p, names + {n})
  {
    var c := p + [n];
    var r := Pruned(src, rep, p, names);
    var g := Pruned(src, r, c, Children(r, c));
    var h := Pruned(src, rep, p, names + {n});
    PrunedUntouched(src, rep, p, names, n);
    forall q
      ensures (q in g <==> q in h) && (q in g ==> g[q] == h[q])
    {
      if Within(c, q) {
        BelowChild(p, n, q);
        assert SameAt(r, rep, q);
        if q != c {
          EmptyAgree(r, rep, c, q);
          if q in rep {
            ListedChild(rep, c, q);
          }
        }
      } else if Below(p, q) && q[|p|] == n {
        ChildWithin(p, n, q);
      }
    }
    assert g == h;
  }

  /** Handling a replica entry c = p + [n] that the pass does not recurse
      into: a stale file or an empty stale directory is removed, anything
      else stays. */
  lemma {:induction false} PruneLeafStep(src: Tree, rep: Tree, p: Path, names: set<Name>, n: Name)
    requires Wf(rep) && n !in names
    requires p + [n] in rep
    requires rep[p + [n]].Dir? ==> StaleDir(src, rep, p + [n]) && IsEmpty(rep, p + [n])
    ensures var r := Pruned(src, rep, p, names);
            Pruned(src, rep, p, names + {n})
            == if StaleFile(src, rep, p + [n]) || rep[p + [n]].Dir? then r - {p + [n]} else r
  {
    var c := p + [n];
    var r := Pruned(src, rep, p, names);
    var g := if StaleFile(src, rep, c) || rep[c].Dir? then r - {c} else r;
    var h := Pruned(src, rep, p, names + {n});
    if !rep[c].Dir? {
      LeafIsEmpty(rep, c);
    }
    forall q
      ensures (q in g <==> q in h) && (q in g ==> g[q] == h[q])
    {
      if Below(p, q) && q[|p|] == n {
        ChildWithin(p, n, q);
        if q != c {
          assert Below(c, q);
        }
      }
    }
    assert g == h;
  }

  /** A removal reported while recursing into c = p + [n] is one the pass
      over p may report. */
  lemma JustifiedRemovalLift(src: Tree, r0: Tree, r1: Tree, p: Path, n: Name, e: Event)
    requires AgreeWithin(r1, r0, p + [n])
    requires JustifiedRemoval(src, r1, p + [n], e)
    ensures JustifiedRemoval(src, r0, p, e)
  {
    var q := e.path;
    assert Within(p + [n], q);
    BelowChild(p, n, q);
    assert SameAt(r1, r0, q);
    EmptyAgree(r1, r0, p + [n], q);
  }

  /** Before any child is handled the replica is as it was. */
  lemma PrunedNone(src: Tree, rep: Tree, p: Path)
    ensures Pruned(src, rep, p, {}) == rep
  {
    assert Pruned(src, rep, p, {}).Keys == rep.Keys;
  }

  lemma LiftRemovals(src: Tree, r0: Tree, r1: Tree, p: Path, n: Name, events: seq<Event>)
    requires AgreeWithin(r1, r0, p + [n])
    requires forall e :: e in events ==> JustifiedRemoval(src, r1, p + [n], e)
    ensures forall e :: e in events ==> JustifiedRemoval(src, r0, p, e)
  {
    forall e | e in events
      ensures JustifiedRemoval(src, r0, p, e)
    {
      JustifiedRemovalLift(src, r0, r1, p, n, e);
    }
  }

  /** The pass keeps the replica well formed. */
  lemma {:induction false} PrunedWf(src: Tree, rep: Tree, p: Path, names: set<Name>)
    requires Wf(rep)
    ensures Wf(Pruned(src, rep, p, names))
  {
    var r := Pruned(src, rep, p, names);
    forall q, k | q in r && 0 <= k < |q|
      ensures q[..k] in r && r[q[..k]].Dir?
    {
      assert q in rep && Below(q[..k], q);
      assert !IsEmpty(rep, q[..k]);
    }
  }

  /** Every replica entry the pass removed was reported as removed. */
  ghost predicate RemovalsReported(r0: Tree, r: Tree, events: seq<Event>) {
    forall q :: q in r0 && q !in r ==> DirRemoved(q) in events || FileRemoved(q) in events
  }

  /** Removals made in two steps are reported by the two steps' events. */
  lemma RemovalsReportedTrans(r0: Tree, r1: Tree, r2: Tree, e1: seq<Event>, e2: seq<Event>)
    requires RemovalsReported(r0, r1, e1) && RemovalsReported(r1, r2, e2)
    ensures RemovalsReported(r0, r2, e1 + e2)
  {
    forall q | q in r0 && q !in r2
      ensures DirRemoved(q) in e1 + e2 || FileRemoved(q) in e1 + e2
    {
      if q in r1 {
        assert DirRemoved(q) in e2 || FileRemoved(q) in e2;
      } else {
        assert DirRemoved(q) in e1 || FileRemoved(q) in e1;
      }
    }
  }
}
