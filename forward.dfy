/** What Utils.forward_copy promises, stated over the abstract filesystem:
    the replica it leaves behind, the actions it may report, and when the
    pass aborts. */
module Forward {
  import opened FileTree

  /** The pass over p, having handled the source children `names`, has
      mirrored q: q is a source directory or regular file inside one of
      those children. */
  predicate Mirrored(src: Tree, p: Path, names: set<Name>, q: Path) {
    Through(p, names, q) && q in src && !src[q].Special?
  }

  /** R differs from R0 only by source entries below p written over it:
      nothing was removed, and every changed path holds what the source
      holds there. */
  ghost predicate OnlyMirrors(src: Tree, r0: Tree, r: Tree, p: Path) {
    && (forall q :: q in r0 ==> q in r)
    && forall q :: q in r ==>
         || (q in r0 && r[q] == r0[q])
         || (Below(p, q) && q in src && !src[q].Special? && r[q] == src[q])
  }

  /** The replica once the pass over p has handled the source children
      `names`: the directories and regular files below them are present
      with the source's entry, and nothing else has changed. */
  ghost function Forwarded(src: Tree, rep: Tree, p: Path, names: set<Name>): (r: Tree)
  {
    rep + map q | q in src && Mirrored(src, p, names, q) :: src[q]
  }

  lemma ForwardedSpec(src: Tree, rep: Tree, p: Path, names: set<Name>)
    ensures var r := Forwarded(src, rep, p, names);
    && OnlyMirrors(src, rep, r, p)
    && (forall q :: Mirrored(src, p, names, q) ==> q in r && r[q] == src[q])
    && (forall q :: q in r && !Mirrored(src, p, names, q) ==> q in rep && r[q] == rep[q])
  {
  }

  /** Every source directory and regular file below p has its counterpart
      in the replica, with equal content. */
  ghost predicate Mirrors(src: Tree, rep: Tree, p: Path) {
    forall q :: Below(p, q) && q in src && !src[q].Special? ==> q in rep && rep[q] == src[q]
  }

  /** os.mkdir fails at q: the source holds a directory there and the
      replica a non-directory. */
  ghost predicate Clash(src: Tree, rep: Tree, q: Path) {
    q in src && src[q].Dir? && q in rep && !rep[q].Dir?
  }

  ghost predicate ClashFree(src: Tree, rep: Tree, p: Path, names: set<Name>) {
    forall q :: Through(p, names, q) ==> !Clash(src, rep, q)
  }

  /** Wherever the source holds a regular file below p, the replica holds
      nothing or a regular file (shutil.copy2 onto a directory or a link is
      library behaviour outside this model). */
  ghost predicate CopyTargetsOk(src: Tree, rep: Tree, p: Path) {
    forall q :: Below(p, q) && q in src && src[q].File? && q in rep ==> rep[q].File?
  }

  /** Event e may be reported by the pass over p started on replica rep. */
  ghost predicate Justified(src: Tree, rep: Tree, p: Path, e: Event) {
    match e
    case DirCreated(q) => Below(p, q) && q in src && src[q].Dir? && q !in rep
    case FileCopied(q) => Below(p, q) && q in src && src[q].File? && (q !in rep || rep[q] != src[q])
    case SpecialSkipped(q) => Below(p, q) && q in src && src[q].Special?
    case _ => false
  }

  /** Nothing inside the unhandled child p + [n] has changed yet. */
  lemma {:induction false} ForwardedUntouched(src: Tree, rep: Tree, p: Path, names: set<Name>, n: Name)
    requires n !in names
    ensures AgreeWithin(Forwarded(src, rep, p, names), rep, p + [n])
    ensures AgreeBelow(Forwarded(src, rep, p, names)[p + [n] := Dir], rep, p + [n])
  {
    var r := Forwarded(src, rep, p, names);
    forall q | Within(p + [n], q)
      ensures SameAt(r, rep, q)
    {
      BelowChild(p, n, q);
      assert !Mirrored(src, p, names, q);
    }
  }

  /** The replica once the directory c = p + [n] exists, before recursing
      into it: a mirrored change, and nothing below c has changed yet. */
  lemma ForwardMkdir(src: Tree, rep: Tree, p: Path, names: set<Name>, n: Name)
    requires n !in names && p + [n] in src && src[p + [n]].Dir?
    ensures var r1 := Forwarded(src, rep, p, names)[p + [n] := Dir];
            OnlyMirrors(src, rep, r1, p) && AgreeBelow(r1, rep, p + [n])
  {
    ForwardedSpec(src, rep, p, names);
    ForwardedUntouched(src, rep, p, names, n);
  }

  /** Handling a source directory c = p + [n]: making sure it exists in the
      replica and recursing into it adds exactly that child to the handled
      names. */
  lemma {:induction false} ForwardDirStep(src: Tree, rep: Tree, p: Path, names: set<Name>, n: Name)
    requires Wf(src) && n !in names
    requires p + [n] in src && src[p + [n]].Dir?
    ensures Forwarded(src, Forwarded(src, rep, p, names)[p + [n] := Dir], p + [n], Children(src, p + [n]))
         == Forwarded(src, rep, p, names + {n})
  {
    var c := p + [n];
    var r1 := Forwarded(src, rep, p, names)[c := Dir];
    var g := Forwarded(src, r1, c, Children(src, c));
    var h := Forwarded(src, rep, p, names + {n});
    forall q
      ensures (q in g <==> q in h) && (q in g ==> g[q] == h[q])
    {
      MirroredDirStep(src, p, names, n, q);
    }
    assert g == h;
  }

  /** What the pass mirrors inside a source directory c = p + [n] is c
      itself and what the recursion into c mirrors. */
  lemma MirroredDirStep(src: Tree, p: Path, names: set<Name>, n: Name, q: Path)
    requires Wf(src) && n !in names
    requires p + [n] in src && src[p + [n]].Dir?
    ensures Mirrored(src, p, names + {n}, q) <==>
            Mirrored(src, p, names, q) || q == p + [n] || Mirrored(src, p + [n], Children(src, p + [n]), q)
    ensures Mirrored(src, p, names, q) ==> !Within(p + [n], q)
  {
    var c := p + [n];
    if Within(c, q) {
      BelowChild(p, n, q);
      if q in src && q != c {
        ListedChild(src, c, q);
      }
    } else if Below(p, q) && q[|p|] == n {
      ChildWithin(p, n, q);
    }
  }

  /** Handling a source entry c = p + [n] that is not a directory: a regular
      file is copied over, a special entry changes nothing. */
  lemma {:induction false} ForwardLeafStep(src: Tree, rep: Tree, p: Path, names: set<Name>, n: Name)
    requires Wf(src) && n !in names
    requires p + [n] in src && !src[p + [n]].Dir?
    ensures Forwarded(src, rep, p, names + {n})
         == if src[p + [n]].File? then Forwarded(src, rep, p, names)[p + [n] := src[p + [n]]]
            else Forwarded(src, rep, p, names)
  {
    var c := p + [n];
    var f := Forwarded(src, rep, p, names);
    var g := if src[c].File? then f[c := src[c]] else f;
    var h := Forwarded(src, rep, p, names + {n});
    forall q
      ensures (q in g <==> q in h) && (q in g ==> g[q] == h[q])
    {
      if Below(p, q) && q[|p|] == n {
        ChildWithin(p, n, q);
        if q != c && q in src {
          AncestorIsDir(src, c, q);
        }
      }
    }
    assert g == h;
  }

  /** An event reported while recursing into c = p + [n] is one the pass
      over p may report. */
  lemma JustifiedLift(src: Tree, r0: Tree, r1: Tree, p: Path, n: Name, e: Event)
    requires AgreeBelow(r1, r0, p + [n])
    requires Justified(src, r1, p + [n], e)
    ensures Justified(src, r0, p, e)
  {
    var q := e.path;
    assert Below(p + [n], q);
    BelowChild(p, n, q);
    assert SameAt(r1, r0, q);
  }

  /** The recursion into c = p + [n] found no clash, and c itself is no
      clash: the pass over p finds none inside c. */
  lemma ClashFreeLift(src: Tree, r0: Tree, r1: Tree, p: Path, n: Name)
    requires Wf(src)
    requires AgreeBelow(r1, r0, p + [n])
    requires !Clash(src, r0, p + [n])
    requires ClashFree(src, r1, p + [n], Children(src, p + [n]))
    ensures ClashFree(src, r0, p, {n})
  {
    var c := p + [n];
    forall q | Through(p, {n}, q) && q != c
      ensures !Clash(src, r0, q)
    {
      ChildWithin(p, n, q);
      assert SameAt(r1, r0, q);
      if q in src {
        ListedChild(src, c, q);
        assert !Clash(src, r1, q);
      }
    }
  }

  /** A clash found by the recursion into c = p + [n] is a clash of the pass
      over p. */
  lemma ClashLift(src: Tree, r0: Tree, r1: Tree, p: Path, n: Name)
    requires AgreeBelow(r1, r0, p + [n])
    requires !ClashFree(src, r1, p + [n], Children(src, p + [n]))
    ensures !ClashFree(src, r0, p, {n})
  {
    var q :| Through(p + [n], Children(src, p + [n]), q) && Clash(src, r1, q);
    BelowChild(p, n, q);
    assert SameAt(r1, r0, q);
    assert Through(p, {n}, q);
  }

  /** Below a source entry that is not a directory the pass creates no
      directory, so no os.mkdir can fail there. */
  lemma LeafClashFree(src: Tree, rep: Tree, p: Path, n: Name)
    requires Wf(src) && p + [n] in src && !src[p + [n]].Dir?
    ensures ClashFree(src, rep, p, {n})
  {
    forall q | Through(p, {n}, q) && q in src
      ensures src[q] != Dir
    {
      ChildWithin(p, n, q);
      if q != p + [n] {
        AncestorIsDir(src, p + [n], q);
      }
    }
  }

  /** A clash inside one handled child is a clash of the whole pass. */
  lemma ClashFreeSplit(src: Tree, rep: Tree, p: Path, names: set<Name>, n: Name)
    ensures ClashFree(src, rep, p, names + {n}) <==>
            ClashFree(src, rep, p, names) && ClashFree(src, rep, p, {n})
    ensures n in names && !ClashFree(src, rep, p, {n}) ==> !ClashFree(src, rep, p, names)
  {
  }

  lemma OnlyMirrorsTrans(src: Tree, r0: Tree, r1: Tree, r2: Tree, p: Path, c: Path)
    requires Within(p, c)
    requires OnlyMirrors(src, r0, r1, p) && OnlyMirrors(src, r1, r2, c)
    ensures OnlyMirrors(src, r0, r2, p)
  {
    forall q | q in r2 && Below(c, q)
      ensures Below(p, q)
    {
      WithinTrans(p, c, q);
    }
  }

  /** Once a pass over p has handled every source child of p, the replica
      mirrors the whole source subtree below p. */
  lemma {:induction false} ForwardedMirrors(src: Tree, rep: Tree, p: Path)
    requires Wf(src)
    ensures Mirrors(src, Forwarded(src, rep, p, Children(src, p)), p)
  {
    forall q | Below(p, q) && q in src && !src[q].Special?
      ensures Mirrored(src, p, Children(src, p), q)
    {
      ListedChild(src, p, q);
    }
  }

  /** A replica that already mirrors the source below p is left as it is. */
  lemma {:induction false} MirrorsFixpoint(src: Tree, rep: Tree, p: Path, names: set<Name>)
    requires Mirrors(src, rep, p)
    ensures Forwarded(src, rep, p, names) == rep
  {
    var r := Forwarded(src, rep, p, names);
    forall q | q in r
      ensures q in rep && r[q] == rep[q]
    {
      if Mirrored(src, p, names, q) {
        assert Below(p, q);
      }
    }
    assert r.Keys == rep.Keys;
  }

  /** On a replica that already mirrors the source below p, the pass may
      only report special entries: it creates no directory and copies no
      file. */
  lemma NoActionWhenMirrored(src: Tree, rep: Tree, p: Path, e: Event)
    requires Mirrors(src, rep, p) && Justified(src, rep, p, e)
    ensures e.SpecialSkipped?
  {
  }

  /** On a replica that already mirrors the source below p, every event
      the pass may report is a skipped special entry. */
  lemma QuietWhenMirrored(src: Tree, rep: Tree, p: Path, events: seq<Event>)
    requires Mirrors(src, rep, p)
    requires forall e :: e in events ==> Justified(src, rep, p, e)
    ensures forall e :: e in events ==> e.SpecialSkipped?
  {
    forall e | e in events
      ensures e.SpecialSkipped?
    {
      NoActionWhenMirrored(src, rep, p, e);
    }
  }

  /** A replica that mirrors the source below p holds a directory wherever
      the source does, so os.mkdir never fails on it. */
  lemma MirrorsClashFree(src: Tree, rep: Tree, p: Path, names: set<Name>)
    ensures Mirrors(src, rep, p) ==> ClashFree(src, rep, p, names)
  {
  }

  /** Before any child is handled the replica is as it was. */
  lemma ForwardedNone(src: Tree, rep: Tree, p: Path)
    ensures Forwarded(src, rep, p, {}) == rep
  {
    assert Forwarded(src, rep, p, {}).Keys == rep.Keys;
  }

  /** The events of the recursion into c = p + [n], appended to those
      already reported, are events the pass over p may report. */
  lemma LiftJustifiedEvents(src: Tree, r0: Tree, r1: Tree, p: Path, n: Name, pre: seq<Event>, sub: seq<Event>)
    requires AgreeBelow(r1, r0, p + [n])
    requires forall e :: e in pre ==> Justified(src, r0, p, e)
    requires forall e :: e in sub ==> Justified(src, r1, p + [n], e)
    ensures forall e :: e in pre + sub ==> Justified(src, r0, p, e)
  {
    forall e | e in pre + sub
      ensures Justified(src, r0, p, e)
    {
      if e !in pre {
        JustifiedLift(src, r0, r1, p, n, e);
      }
    }
  }

  /** Running the pass twice changes nothing the second time. */
  lemma ForwardIdempotent(src: Tree, rep: Tree, p: Path)
    requires Wf(src)
    ensures var once := Forwarded(src, rep, p, Children(src, p));
            Forwarded(src, once, p, Children(src, p)) == once
  {
    ForwardedMirrors(src, rep, p);
    MirrorsFixpoint(src, Forwarded(src, rep, p, Children(src, p)), p, Children(src, p));
  }

  /** Every replica entry the pass created or changed was reported, as a
      created directory or a copied file. */
  ghost predicate ChangesReported(r0: Tree, r: Tree, events: seq<Event>) {
    forall q :: q in r && (q !in r0 || r[q] != r0[q]) ==>
      DirCreated(q) in events || FileCopied(q) in events
  }

  /** Every special source entry inside the handled children `names` of p
      was reported as skipped. */
  ghost predicate SpecialsReported(src: Tree, p: Path, names: set<Name>, events: seq<Event>) {
    forall q :: Through(p, names, q) && q in src && src[q].Special? ==> SpecialSkipped(q) in events
  }

  /** Changes made in two steps are reported by the two steps' events. */
  lemma ChangesReportedTrans(r0: Tree, r1: Tree, r2: Tree, e1: seq<Event>, e2: seq<Event>)
    requires ChangesReported(r0, r1, e1) && ChangesReported(r1, r2, e2)
    ensures ChangesReported(r0, r2, e1 + e2)
  {
    forall q | q in r2 && (q !in r0 || r2[q] != r0[q])
      ensures DirCreated(q) in e1 + e2 || FileCopied(q) in e1 + e2
    {
      if q in r1 && r1[q] == r2[q] {
        assert DirCreated(q) in e1 || FileCopied(q) in e1;
      } else {
        assert DirCreated(q) in e2 || FileCopied(q) in e2;
      }
    }
  }

  /** The specials of the handled children and of one more child n are
      reported by the events of both. */
  lemma SpecialsReportedUnion(src: Tree, p: Path, names: set<Name>, n: Name, e1: seq<Event>, e2: seq<Event>, ok: bool)
    requires SpecialsReported(src, p, names, e1)
    requires ok ==> SpecialsReported(src, p, {n}, e2)
    ensures ok ==> SpecialsReported(src, p, names + {n}, e1 + e2)
  {
    forall q | ok && Through(p, names + {n}, q) && q in src && src[q].Special?
      ensures SpecialSkipped(q) in e1 + e2
    {
      if q[|p|] == n {
        assert Through(p, {n}, q);
      } else {
        assert Through(p, names, q);
      }
    }
  }

  /** The specials the recursion into the source directory c = p + [n]
      reports are all the specials inside c. */
  lemma SpecialsReportedLift(src: Tree, p: Path, n: Name, pre: seq<Event>, sub: seq<Event>, ok: bool)
    requires Wf(src) && p + [n] in src && src[p + [n]].Dir?
    requires ok ==> SpecialsReported(src, p + [n], Children(src, p + [n]), sub)
    ensures ok ==> SpecialsReported(src, p, {n}, pre + sub)
  {
    var c := p + [n];
    forall q | ok && Through(p, {n}, q) && q in src && src[q].Special?
      ensures SpecialSkipped(q) in pre + sub
    {
      ChildWithin(p, n, q);
      assert q != c;
      ListedChild(src, c, q);
      assert Through(c, Children(src, c), q);
    }
  }

  /** Inside a source entry c = p + [n] that is not a directory, the only
      possible special entry is c itself. */
  lemma LeafSpecialsReported(src: Tree, p: Path, n: Name, events: seq<Event>)
    requires Wf(src) && p + [n] in src && !src[p + [n]].Dir?
    requires src[p + [n]].Special? ==> SpecialSkipped(p + [n]) in events
    ensures SpecialsReported(src, p, {n}, events)
  {
    var c := p + [n];
    forall q | Through(p, {n}, q) && q in src && src[q].Special?
      ensures q == c
    {
      ChildWithin(p, n, q);
      if q != c {
        AncestorIsDir(src, c, q);
      }
    }
  }
}
