/** The two tree walkers of syncdirs.py, as methods of a class that holds
    the filesystem they act on. */
module SyncDirs {
  import opened FileTree
  import opened Forward
  import opened Backward
  import opened Convergence

  /** Utils, with the filesystem as its state: the source tree (neither pass
      writes to it) and the replica tree. Each pass returns the events it
      logs, in the order it logs them. A path p given to a method names both
      source/p and replica/p: the two roots are implicit. */
  class Utils {
    const source: Tree
    var replica: Tree

    ghost predicate Valid()
      reads this
    {
      Wf(source) && Wf(replica)
    }

    constructor (source: Tree, replica: Tree)
      requires Wf(source) && Wf(replica)
      ensures Valid()
      ensures this.source == source && this.replica == replica
    {
      this.source := source;
      this.replica := replica;
    }

    /** forward_copy(source/p, replica/p). ok == false is the pass aborting
        on an os.mkdir that fails because the replica path is taken by a
        non-directory. */
    method ForwardCopy(p: Path) returns (ok: bool, events: seq<Event>)
      requires Valid()
      requires p in source && source[p].Dir? && p in replica && replica[p].Dir?
      requires CopyTargetsOk(source, replica, p)
      modifies this
      decreases Subtree(source, p), 2
      ensures Valid()
      ensures ok <==> ClashFree(source, old(replica), p, Children(source, p))
      ensures ok ==> replica == Forwarded(source, old(replica), p, Children(source, p))
      ensures OnlyMirrors(source, old(replica), replica, p)
      ensures forall e :: e in events ==> Justified(source, old(replica), p, e)
      ensures ChangesReported(old(replica), replica, events)
      ensures ok ==> SpecialsReported(source, p, Children(source, p), events)
      // a second run with nothing changed in between creates and copies nothing
      ensures old(Mirrors(source, replica, p)) ==>
                ok && replica == old(replica) && forall e :: e in events ==> e.SpecialSkipped?
    {
      ghost var r0 := replica;
      var names := Children(source, p);
      var todo := names;
      ok, events := true, [];
      ForwardedNone(source, replica, p);
      MirrorsClashFree(source, replica, p, names);
      while todo != {}
        invariant todo <= names
        invariant Valid()
        invariant replica == Forwarded(source, r0, p, names - todo)
        invariant ClashFree(source, r0, p, names - todo)
        invariant forall e :: e in events ==> Justified(source, r0, p, e)
        invariant ChangesReported(r0, replica, events)
        invariant SpecialsReported(source, p, names - todo, events)
        decreases todo
      {
        var n :| n in todo;
        ghost var done := names - todo;
        ok, events := ForwardEntry(p, n, r0, done, events);
        ClashFreeSplit(source, r0, p, done, n);
        if !ok {
          ClashFreeSplit(source, r0, p, names, n);
          return;
        }
        assert names - (todo - {n}) == done + {n};
        todo := todo - {n};
      }
      assert names - todo == names;
      ForwardedSpec(source, r0, p, names);
      if Mirrors(source, r0, p) {
        MirrorsFixpoint(source, r0, p, names);
        QuietWhenMirrored(source, r0, p, events);
      }
    }

    /** One turn of forward_copy's loop: the entry n of source/p, its events
        appended to those of the earlier turns. */
    method ForwardEntry(p: Path, n: Name, ghost r0: Tree, ghost done: set<Name>, logged: seq<Event>)
      returns (ok: bool, events: seq<Event>)
      requires Valid()
      requires p in source && source[p].Dir? && p in r0 && r0[p].Dir?
      requires p + [n] in source && n !in done
      requires CopyTargetsOk(source, r0, p)
      requires replica == Forwarded(source, r0, p, done)
      requires forall e :: e in logged ==> Justified(source, r0, p, e)
      requires ChangesReported(r0, replica, logged)
      requires SpecialsReported(source, p, done, logged)
      modifies this
      decreases Subtree(source, p), 1
      ensures Valid()
      ensures ok <==> ClashFree(source, r0, p, {n})
      ensures ok ==> replica == Forwarded(source, r0, p, done + {n})
      ensures OnlyMirrors(source, r0, replica, p)
      ensures forall e :: e in events ==> Justified(source, r0, p, e)
      ensures ChangesReported(r0, replica, events)
      ensures ok ==> SpecialsReported(source, p, done + {n}, events)
    {
      var more;
      if source[p + [n]].Dir? {
        ok, more := ForwardDir(p, n, r0, done);
      } else {
        ok := true;
        more := ForwardLeaf(p, n, r0, done);
      }
      ChangesReportedTrans(r0, old(replica), replica, logged, more);
      SpecialsReportedUnion(source, p, done, n, logged, more, ok);
      events := logged + more;
    }

    /** The directory branch of forward_copy's loop: create replica/p/n if
        it is not a directory, then recurse into it. */
    method ForwardDir(p: Path, n: Name, ghost r0: Tree, ghost done: set<Name>)
      returns (ok: bool, events: seq<Event>)
      requires Valid()
      requires p in source && source[p].Dir? && p in r0 && r0[p].Dir?
      requires p + [n] in source && source[p + [n]].Dir? && n !in done
      requires CopyTargetsOk(source, r0, p)
      requires replica == Forwarded(source, r0, p, done)
      modifies this
      decreases Subtree(source, p), 0
      ensures Valid()
      ensures ok <==> ClashFree(source, r0, p, {n})
      ensures ok ==> replica == Forwarded(source, r0, p, done + {n})
      ensures OnlyMirrors(source, r0, replica, p)
      ensures forall e :: e in events ==> Justified(source, r0, p, e)
      ensures ChangesReported(old(replica), replica, events)
      ensures ok ==> SpecialsReported(source, p, {n}, events)
    {
      var c := p + [n];
      ForwardedUntouched(source, r0, p, done, n);
      assert SameAt(replica, r0, c) && Below(p, c);
      if !(c in replica && replica[c].Dir?) {
        if c in replica {
          // os.mkdir raises: the path is taken by a non-directory
          ForwardedSpec(source, r0, p, done);
          assert Clash(source, r0, c) && Through(p, {n}, c);
          return false, [];
        }
        WfInsert(replica, c, Dir);
        replica := replica[c := Dir];
        events := [DirCreated(c)];
      } else {
        UpdateSame(replica, c);
        events := [];
      }
      ghost var r1 := replica;
      ForwardMkdir(source, r0, p, done, n);
      SubtreeShrinks(source, p, n);
      var sub;
      ok, sub := ForwardCopy(c);
      LiftJustifiedEvents(source, r0, r1, p, n, events, sub);
      ChangesReportedTrans(old(replica), r1, replica, events, sub);
      SpecialsReportedLift(source, p, n, events, sub, ok);
      events := events + sub;
      OnlyMirrorsTrans(source, r0, r1, replica, p, c);
      if !ok {
        ClashLift(source, r0, r1, p, n);
        return;
      }
      ClashFreeLift(source, r0, r1, p, n);
      ForwardDirStep(source, r0, p, done, n);
    }

    /** The file and special branches of forward_copy's loop: copy a
        regular file that is missing or differs, warn about anything else. */
    method ForwardLeaf(p: Path, n: Name, ghost r0: Tree, ghost done: set<Name>)
      returns (events: seq<Event>)
      requires Valid()
      requires p in source && source[p].Dir? && p in r0 && r0[p].Dir?
      requires p + [n] in source && !source[p + [n]].Dir? && n !in done
      requires CopyTargetsOk(source, r0, p)
      requires replica == Forwarded(source, r0, p, done)
      modifies this
      ensures Valid()
      ensures replica == Forwarded(source, r0, p, done + {n})
      ensures ClashFree(source, r0, p, {n})
      ensures OnlyMirrors(source, r0, replica, p)
      ensures forall e :: e in events ==> Justified(source, r0, p, e)
      ensures ChangesReported(old(replica), replica, events)
      ensures SpecialsReported(source, p, {n}, events)
    {
      var c := p + [n];
      ForwardedUntouched(source, r0, p, done, n);
      assert SameAt(replica, r0, c) && Below(p, c);
      LeafClashFree(source, r0, p, n);
      ForwardLeafStep(source, r0, p, done, n);
      ForwardedSpec(source, r0, p, done + {n});
      if source[c].File? {
        if !(c in replica && replica[c].File?) || replica[c] != source[c] {
          LeafIsEmpty(replica, c);
          WfInsert(replica, c, source[c]);
          replica := replica[c := source[c]];
          events := [FileCopied(c)];
        } else {
          UpdateSame(replica, c);
          events := [];
        }
      } else {
        events := [SpecialSkipped(c)];
      }
      LeafSpecialsReported(source, p, n, events);
    }

    /** backward_remove(source/p, replica/p). */
    method BackwardRemove(p: Path) returns (events: seq<Event>)
      requires Valid()
      requires p in replica && replica[p].Dir?
      modifies this
      decreases Subtree(replica, p), 1
      ensures Valid()
      ensures replica == Pruned(source, old(replica), p, Children(old(replica), p))
      ensures forall e :: e in events ==> JustifiedRemoval(source, old(replica), p, e)
      ensures RemovalsReported(old(replica), replica, events)
    {
      var names := Children(replica, p);
      var todo := names;
      events := [];
      PrunedNone(source, replica, p);
      while todo != {}
        invariant todo <= names
        invariant Valid()
        invariant replica == Pruned(source, old(replica), p, names - todo)
        invariant forall e :: e in events ==> JustifiedRemoval(source, old(replica), p, e)
        invariant RemovalsReported(old(replica), replica, events)
        decreases todo
      {
        var n :| n in todo;
        ghost var before := replica;
        var more := BackwardEntry(p, n, old(replica), names - todo);
        RemovalsReportedTrans(old(replica), before, replica, events, more);
        events := events + more;
        assert names - (todo - {n}) == (names - todo) + {n};
        todo := todo - {n};
      }
    }

    /** One turn of backward_remove's loop: the entry n of replica/p. */
    method BackwardEntry(p: Path, n: Name, ghost r0: Tree, ghost done: set<Name>)
      returns (events: seq<Event>)
      requires Valid()
      requires Wf(r0) && p in r0 && r0[p].Dir? && p + [n] in r0 && n !in done
      requires replica == Pruned(source, r0, p, done)
      modifies this
      decreases Subtree(r0, p), 0
      ensures Valid()
      ensures replica == Pruned(source, r0, p, done + {n})
      ensures forall e :: e in events ==> JustifiedRemoval(source, r0, p, e)
      ensures RemovalsReported(old(replica), replica, events)
    {
      var c := p + [n];
      events := [];
      PrunedUntouched(source, r0, p, done, n);
      assert SameAt(replica, r0, c);
      ChildrenEmpty(replica, c);
      EmptyAgree(replica, r0, c, c);
      SubtreeAgree(replica, r0, c);
      SubtreeShrinks(r0, p, n);
      ghost var r1 := replica;
      if c in replica && replica[c].Dir? {
        if !(c in source && source[c].Dir?) {
          if Children(replica, c) != {} {
            events := BackwardRemove(c);
            LiftRemovals(source, r0, r1, p, n, events);
            PruneRecurseStep(source, r0, p, done, n);
          } else {
            PruneLeafStep(source, r0, p, done, n);
            WfRemove(replica, c);
            replica := replica - {c};
            events := [DirRemoved(c)];
          }
        } else {
          events := BackwardRemove(c);
          LiftRemovals(source, r0, r1, p, n, events);
          PruneRecurseStep(source, r0, p, done, n);
        }
      }
      if c in replica && replica[c].File? {
        PruneLeafStep(source, r0, p, done, n);
        if !(c in source && source[c].File?) {
          LeafIsEmpty(replica, c);
          WfRemove(replica, c);
          replica := replica - {c};
          events := events + [FileRemoved(c)];
        }
      } else if c in replica && replica[c].Special? {
        PruneLeafStep(source, r0, p, done, n);
      }
    }

    /** One turn of the main loop: forward_copy over the two roots, then
        backward_remove over them. An aborted forward_copy ends the loop
        (the exception leaves it), so no backward pass follows it. */
    method Cycle() returns (ok: bool, events: seq<Event>)
      requires Valid()
      requires CopyTargetsOk(source, replica, [])
      modifies this
      ensures Valid()
      ensures ok <==> ClashFree(source, old(replica), [], Children(source, []))
      ensures ok ==> replica == AfterCycle(source, old(replica))
      // an aborted cycle has only written source entries and removed nothing
      ensures !ok ==> OnlyMirrors(source, old(replica), replica, [])
      ensures forall e :: e in events ==>
                || Justified(source, old(replica), [], e)
                || (ok && JustifiedRemoval(source, Forwarded(source, old(replica), [], Children(source, [])), [], e))
      // on success every creation, copy, skipped special entry and removal is reported
      ensures ok ==> ChangesReported(old(replica), Forwarded(source, old(replica), [], Children(source, [])), events)
      ensures ok ==> SpecialsReported(source, [], Children(source, []), events)
      ensures ok ==> RemovalsReported(Forwarded(source, old(replica), [], Children(source, [])), replica, events)
    {
      ok, events := ForwardCopy([]);
      if ok {
        ghost var forward := events;
        var removed := BackwardRemove([]);
        events := events + removed;
        assert forall e :: e in forward ==> e in events;
        assert forall e :: e in removed ==> e in events;
      }
    }
  }
}
