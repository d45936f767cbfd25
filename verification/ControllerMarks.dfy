/**
 * Which mount points are filtered. In a run where no node is added twice without a remove in
 * between, mount points are distinct and every mark call succeeds, the two device tables never
 * share a key and the marked mount points are exactly those of the mounted devices whose
 * latest update by the user was not a block.
 */
module ControllerMarks {
  import opened Wrappers
  import opened Controller
  import opened ControllerRuns

  /** Device nodes that may exist: those restored at the start, then one for each add without a remove. */
  function Present(sentinels: seq<Sentinel>, es: seq<Event>): set<string>
    decreases |es|
  {
    if es == [] then set s <- sentinels | Restorable(s) :: s.id
    else
      var before := Present(sentinels, Front(es));
      match Last(es)
      case Add(d, _) => before + {d.id}
      case RemovePartition(id, _) => before - {id}
      case _ => before
  }

  /** The latest update the user asked for since the device was mounted is a block. */
  predicate Muted(es: seq<Event>, id: string)
    decreases |es|
  {
    && es != []
    && match Last(es)
       case UserUpdate(i, auth, _) => if i == id then auth == Block else Muted(Front(es), id)
       case Mounted(i, _, _) => i != id && Muted(Front(es), id)
       case RemovePartition(i, _) => i != id && Muted(Front(es), id)
       case _ => Muted(Front(es), id)
  }

  /** The directory of sentinels: one per node, each mounted elsewhere, mark calls succeeding. */
  predicate CleanSentinels(sentinels: seq<Sentinel>) {
    && (forall s <- sentinels :: s.callOk)
    && (forall i, j :: 0 <= i < j < |sentinels| && Restorable(sentinels[i]) && Restorable(sentinels[j]) ==>
          sentinels[i].id != sentinels[j].id && sentinels[i].mount != sentinels[j].mount)
  }

  predicate MountedAt(t: Table, id: string, mount: string) {
    id in t && t[id].device.mount == Some(mount)
  }

  /** What the run promises about one event after `s`. */
  ghost predicate CleanEvent(present: set<string>, s: System, e: Event) {
    match e
    case Add(d, _) => d.id !in present
    case Mounted(_, mount, callOk) => callOk && forall id :: !MountedAt(s.tables.mounted, id, mount)
    case RemovePartition(_, callOk) => callOk
    case UserUpdate(_, _, callOk) => callOk
    case _ => true
  }

  ghost predicate CleanRun(p: Policy, sentinels: seq<Sentinel>, es: seq<Event>)
    decreases |es|
  {
    if es == [] then CleanSentinels(sentinels)
    else
      && CleanRun(p, sentinels, Front(es))
      && CleanEvent(Present(sentinels, Front(es)), Run(p, sentinels, Front(es)), Last(es))
  }

  ghost predicate Distinct(t: Table) {
    forall id, id', m :: MountedAt(t, id, m) && MountedAt(t, id', m) ==> id == id'
  }

  /** A mount point is marked exactly when an unmuted device is mounted there. */
  ghost predicate MarksFollow(t: Table, marks: set<string>, es: seq<Event>) {
    forall m :: m in marks <==> exists id :: MountedAt(t, id, m) && !Muted(es, id)
  }

  ghost predicate Tidy(present: set<string>, es: seq<Event>, s: System) {
    var t := s.tables;
    && t.unmounted.Keys !! t.mounted.Keys
    && t.mounted.Keys <= present
    && (s.monitor.Mounting? ==> s.monitor.device.id in present)
    && Distinct(t.mounted)
    && MarksFollow(t.mounted, t.marks, es)
  }

  // ---------------------------------------------------------------- one table change at a time

  /** Events that leave the mounted table, the marks and every device's muting alone. */
  lemma MarksUntouched(t: Table, marks: set<string>, es: seq<Event>, e: Event)
    requires MarksFollow(t, marks, es)
    requires forall id <- t :: Muted(es + [e], id) <==> Muted(es, id)
    ensures MarksFollow(t, marks, es + [e])
  {
    hide Muted;
    forall m
      ensures m in marks <==> exists id :: MountedAt(t, id, m) && !Muted(es + [e], id)
    {
      assert m in marks <==> exists id :: MountedAt(t, id, m) && !Muted(es, id);
    }
  }

  lemma MarkAdded(t: Table, marks: set<string>, es: seq<Event>, es': seq<Event>, e: Entry, m: string)
    requires MarksFollow(t, marks, es) && Distinct(t) && e.device.id !in t && e.device.mount == Some(m)
    requires forall id :: !MountedAt(t, id, m)
    requires !Muted(es', e.device.id)
    requires forall id <- t :: Muted(es', id) <==> Muted(es, id)
    ensures MarksFollow(t[e.device.id := e], marks + {m}, es') && Distinct(t[e.device.id := e])
  {
    hide Muted;
    var t' := t[e.device.id := e];
    assert MountedAt(t', e.device.id, m);
    forall m'
      ensures m' in marks + {m} <==> exists id :: MountedAt(t', id, m') && !Muted(es', id)
    {
      assert m' in marks <==> exists id :: MountedAt(t, id, m') && !Muted(es, id);
      if id :| MountedAt(t, id, m') && !Muted(es, id) {
        assert MountedAt(t', id, m');
      }
      if id :| MountedAt(t', id, m') && !Muted(es', id) && id != e.device.id {
        assert MountedAt(t, id, m');
      }
    }
    forall id, id', m' | MountedAt(t', id, m') && MountedAt(t', id', m')
      ensures id == id'
    {
      if id in t {
        assert MountedAt(t, id, m');
      }
      if id' in t {
        assert MountedAt(t, id', m');
      }
    }
  }

  /** The mark of one mounted device is set or cleared: by the user, or because the node went away. */
  lemma MarkChanged(t: Table, marks: set<string>, es: seq<Event>, es': seq<Event>, id: string, m: string, t': Table, on: bool)
    requires MarksFollow(t, marks, es) && Distinct(t) && MountedAt(t, id, m)
    requires (t' == t && (Muted(es', id) <==> !on)) || (t' == t - {id} && !on)
    requires forall i <- t | i != id :: Muted(es', i) <==> Muted(es, i)
    ensures MarksFollow(t', if on then marks + {m} else marks - {m}, es') && Distinct(t')
  {
    hide Muted;
    var marks' := if on then marks + {m} else marks - {m};
    forall m'
      ensures m' in marks' <==> exists i :: MountedAt(t', i, m') && !Muted(es', i)
    {
      assert m' in marks <==> exists i :: MountedAt(t, i, m') && !Muted(es, i);
      if m' == m {
        if i :| MountedAt(t', i, m) && !Muted(es', i) {
          assert MountedAt(t, i, m);
          assert i == id;
        }
        if on {
          assert MountedAt(t', id, m);
        }
      } else {
        if i :| MountedAt(t, i, m') && !Muted(es, i) {
          assert MountedAt(t', i, m') && !Muted(es', i);
        }
        if i :| MountedAt(t', i, m') && !Muted(es', i) {
          assert MountedAt(t, i, m') && !Muted(es, i);
        }
      }
    }
    forall i, i', m' | MountedAt(t', i, m') && MountedAt(t', i', m')
      ensures i == i'
    {
      assert MountedAt(t, i, m') && MountedAt(t, i', m');
    }
  }

  // ---------------------------------------------------------------- runs

  lemma {:induction false} RestoredTidy(p: Policy, sentinels: seq<Sentinel>, k: nat, t: Tables)
    requires k <= |sentinels| && CleanSentinels(sentinels)
    requires t.unmounted == map[] && Distinct(t.mounted) && MarksFollow(t.mounted, t.marks, [])
    requires forall id <- t.mounted ::
               exists i :: 0 <= i < k && Restorable(sentinels[i]) && sentinels[i].id == id && t.mounted[id] == Restored(p, sentinels[i])
    ensures Tidy(Present(sentinels, []), [], System(Recover(p, t, sentinels[k..]), Idle))
    decreases |sentinels| - k
  {
    if k == |sentinels| {
    } else {
      var s := sentinels[k];
      assert sentinels[k..][0] == s && sentinels[k..][1..] == sentinels[k + 1..];
      if Restorable(s) {
        var m := s.mount.value;
        assert s.id !in t.mounted;
        assert s in sentinels && s.callOk;
        assert forall id :: !MountedAt(t.mounted, id, m);
        MarkAdded(t.mounted, t.marks, [], [], Restored(p, s), m);
        RestoredTidy(p, sentinels, k + 1, Tables(t.unmounted, t.mounted[s.id := Restored(p, s)], t.marks + {m}));
      } else {
        RestoredTidy(p, sentinels, k + 1, t);
      }
    }
  }

  lemma StepKeepsTidy(p: Policy, sentinels: seq<Sentinel>, es: seq<Event>, s: System, e: Event)
    requires Inv(p, s) && Enabled(s, e)
    requires Tidy(Present(sentinels, es), es, s) && CleanEvent(Present(sentinels, es), s, e)
    ensures Tidy(Present(sentinels, es + [e]), es + [e], Next(p, s, e))
  {
    hide MarksFollow, Distinct;
    var t, es' := s.tables, es + [e];
    assert Front(es') == es && Last(es') == e;
    match e {
      case Mounted(id, mount, callOk) =>
        var moved := Entry(t.unmounted[id].device.(mount := Some(mount)), t.unmounted[id].auth);
        MovedId(p, s);
        MarkAdded(t.mounted, t.marks, es, es', moved, mount);
        assert Next(p, s, e).tables == Tables(t.unmounted - {id}, t.mounted[id := moved], t.marks + {mount});
      case RemovePartition(id, callOk) =>
        if id in t.mounted {
          MarkChanged(t.mounted, t.marks, es, es', id, t.mounted[id].device.mount.value, t.mounted - {id}, false);
        } else {
          MarksUntouched(t.mounted, t.marks, es, e);
        }
      case UserUpdate(id, auth, callOk) =>
        if id in t.mounted {
          MarkChanged(t.mounted, t.marks, es, es', id, t.mounted[id].device.mount.value, t.mounted, auth != Block);
        } else {
          MarksUntouched(t.mounted, t.marks, es, e);
        }
      case _ =>
        MarksUntouched(t.mounted, t.marks, es, e);
    }
  }

  /** The device the monitor is mounting is waiting in the unmounted table under its own id, allowed. */
  lemma MovedId(p: Policy, s: System)
    requires Inv(p, s) && s.monitor.Mounting?
    ensures var id := s.monitor.device.id;
            id in s.tables.unmounted && s.tables.unmounted[id].device.id == id && Allows(s.tables.unmounted[id].auth)
  {
    assert Fits(p, s.monitor.device.id, s.tables.unmounted[s.monitor.device.id]);
  }

  lemma {:induction false} MarksFollowMountedDevices(p: Policy, sentinels: seq<Sentinel>, es: seq<Event>)
    requires ValidRun(p, sentinels, es) && CleanRun(p, sentinels, es)
    ensures Tidy(Present(sentinels, es), es, Run(p, sentinels, es))
    decreases |es|
  {
    if es == [] {
      assert sentinels[0..] == sentinels;
      RestoredTidy(p, sentinels, 0, EMPTY);
    } else {
      MarksFollowMountedDevices(p, sentinels, Front(es));
      AllowancesAreJustified(p, sentinels, Front(es));
      StepKeepsTidy(p, sentinels, Front(es), Run(p, sentinels, Front(es)), Last(es));
      assert Front(es) + [Last(es)] == es;
    }
  }

  predicate Disjoint(s: System) { s.tables.unmounted.Keys !! s.tables.mounted.Keys }

  /** The event authorizes a node that is still mounted. */
  predicate AddsMounted(s: System, e: Event) { e.Add? && e.device.id in s.tables.mounted }

  /** From disjoint tables a step makes them share a key exactly when it authorizes a mounted node. */
  lemma SharedKeyStep(p: Policy, s: System, e: Event)
    requires Inv(p, s) && Enabled(s, e) && Disjoint(s)
    ensures Disjoint(Next(p, s, e)) <==> !AddsMounted(s, e)
  {
    if AddsMounted(s, e) {
      assert e.device.id in Next(p, s, e).tables.unmounted.Keys * Next(p, s, e).tables.mounted.Keys;
    }
  }

  ghost predicate StaysDisjoint(p: Policy, sentinels: seq<Sentinel>, es: seq<Event>) {
    forall j :: 0 <= j <= |es| ==> Disjoint(At(p, sentinels, es, j))
  }

  ghost predicate AddsNoMounted(p: Policy, sentinels: seq<Sentinel>, es: seq<Event>) {
    forall j :: 0 <= j < |es| ==> !AddsMounted(At(p, sentinels, es, j), es[j])
  }

  /**
   * Without the discipline: the tables are disjoint throughout a run exactly when it never
   * authorizes a node that is still mounted, since authorization never looks at that table.
   */
  lemma {:induction false} SharedKeyExactly(p: Policy, sentinels: seq<Sentinel>, es: seq<Event>)
    requires ValidRun(p, sentinels, es)
    ensures StaysDisjoint(p, sentinels, es) <==> AddsNoMounted(p, sentinels, es)
    decreases |es|
  {
    hide Next, Enabled, AddsMounted, At;
    if es == [] {
      StartDisjoint(p, sentinels);
    } else {
      hide Disjoint;
      var n := |es| - 1;
      var front, s := es[..n], At(p, sentinels, es, n);
      PrefixIsValid(p, sentinels, es, n);
      SharedKeyExactly(p, sentinels, front);
      AllowancesAreJustified(p, sentinels, front);
      AtIsRun(p, sentinels, es, n);
      OneEventMore(p, sentinels, es);
      if Disjoint(s) {
        SharedKeyStep(p, s, es[n]);
      }
    }
  }

  /** What holds throughout a run holds throughout its front and at its last event. */
  lemma OneEventMore(p: Policy, sentinels: seq<Sentinel>, es: seq<Event>)
    requires es != []
    ensures var n := |es| - 1;
            && (StaysDisjoint(p, sentinels, es) <==> StaysDisjoint(p, sentinels, es[..n]) && Disjoint(At(p, sentinels, es, n + 1)))
            && (StaysDisjoint(p, sentinels, es[..n]) ==> Disjoint(At(p, sentinels, es, n)))
            && (AddsNoMounted(p, sentinels, es) <==>
                AddsNoMounted(p, sentinels, es[..n]) && !AddsMounted(At(p, sentinels, es, n), es[n]))
  {
    hide At, AddsMounted, Disjoint;
    var n := |es| - 1;
    var front := es[..n];
    forall j | 0 <= j <= n
      ensures At(p, sentinels, front, j) == At(p, sentinels, es, j)
    {
      AtFront(p, sentinels, es, j);
    }
    assert forall j :: 0 <= j < n ==> front[j] == es[j];
    if StaysDisjoint(p, sentinels, es) {
      forall j | 0 <= j <= n
        ensures Disjoint(At(p, sentinels, front, j))
      {
        assert Disjoint(At(p, sentinels, es, j));
      }
    }
    if AddsNoMounted(p, sentinels, es) {
      forall j | 0 <= j < n
        ensures !AddsMounted(At(p, sentinels, front, j), front[j])
      {
        assert !AddsMounted(At(p, sentinels, es, j), es[j]);
      }
    }
    assert StaysDisjoint(p, sentinels, front) ==> Disjoint(At(p, sentinels, front, n));
  }

  lemma AtFront(p: Policy, sentinels: seq<Sentinel>, es: seq<Event>, j: nat)
    requires es != [] && j < |es|
    ensures At(p, sentinels, es[..|es| - 1], j) == At(p, sentinels, es, j)
  {
    assert es[..|es| - 1][..j] == es[..j];
  }

  lemma AtIsRun(p: Policy, sentinels: seq<Sentinel>, es: seq<Event>, j: nat)
    requires j <= |es|
    ensures At(p, sentinels, es, j) == Run(p, sentinels, es[..j])
  {}

  lemma StartDisjoint(p: Policy, sentinels: seq<Sentinel>)
    ensures Disjoint(At(p, sentinels, [], 0))
  {
    assert sentinels[0..] == sentinels;
    RecoveredInv(p, sentinels, 0, EMPTY);
  }

  const STICK := Device("/dev/sdb1", None, "v", "m", "r", "s", None)
  const TWICE := [Add(STICK, Valid), Mounted("/dev/sdb1", "/media/stick", true), Add(STICK, Valid)]

  /** The kernel announces a mounted node again: after that run both tables hold its key. */
  lemma AddedTwiceSharesKey(p: Policy)
    ensures ValidRun(p, [], TWICE) && !Disjoint(Run(p, [], TWICE))
    ensures AddsMounted(Run(p, [], TWICE[..2]), TWICE[2])
  {
    var es, id := TWICE, "/dev/sdb1";
    var s0 := System(EMPTY, Idle);
    var e := Entry(STICK, Certified(p));
    var s1 := System(Tables(map[id := e], map[], {}), Mounting(STICK));
    var s2 := System(Tables(map[], map[id := Entry(STICK.(mount := Some("/media/stick")), e.auth)], {"/media/stick"}), Idle);
    OneMore(p, [], [], es[0]);
    OneMore(p, [], [es[0]], es[1]);
    OneMore(p, [], [es[0], es[1]], es[2]);
    assert [] + [es[0]] == [es[0]] && [es[0]] + [es[1]] == [es[0], es[1]] == es[..2] && [es[0], es[1]] + [es[2]] == es;
    assert Run(p, [], []) == s0 && ValidRun(p, [], []);
    hide Run, ValidRun;
    assert Next(p, s0, es[0]) == s1;
    assert Next(p, s1, es[1]) == s2;
    assert id in Next(p, s2, es[2]).tables.unmounted.Keys * Next(p, s2, es[2]).tables.mounted.Keys;
  }

  /** In a disciplined run the reason of an allowance is never older than the last removal of its node. */
  lemma NoRemovalSinceReason(p: Policy, sentinels: seq<Sentinel>, es: seq<Event>, from: nat, id: string, e: Entry, j: nat)
    requires ValidRun(p, sentinels, es) && CleanRun(p, sentinels, es)
    requires Waits(p, sentinels, es, from, |es|, id, e) && Allows(e.auth) && from <= j < |es|
    ensures !(es[j].RemovePartition? && es[j].id == id)
  {
    hide At, Run, Next, CleanEvent;
    if es[j].RemovePartition? && es[j].id == id {
      RemovalSurvivedMeansShared(p, sentinels, es, from, id, e, j);
      PrefixIsValid(p, sentinels, es, j);
      PrefixIsClean(p, sentinels, es, j);
      MarksFollowMountedDevices(p, sentinels, es[..j]);
      AtIsRun(p, sentinels, es, j);
      assert id in At(p, sentinels, es, j).tables.unmounted;
      SharedIsUntidy(Present(sentinels, es[..j]), es[..j], At(p, sentinels, es, j), id);
    }
  }

  lemma SharedIsUntidy(present: set<string>, es: seq<Event>, s: System, id: string)
    requires Tidy(present, es, s)
    ensures !(id in s.tables.unmounted && id in s.tables.mounted)
  {
    assert !(id in s.tables.unmounted.Keys * s.tables.mounted.Keys);
  }

  lemma {:induction false} PrefixIsClean(p: Policy, sentinels: seq<Sentinel>, es: seq<Event>, j: nat)
    requires CleanRun(p, sentinels, es) && j <= |es|
    ensures CleanRun(p, sentinels, es[..j])
    decreases |es|
  {
    hide CleanEvent, Run;
    if j == |es| {
      assert es[..j] == es;
    } else {
      PrefixIsClean(p, sentinels, Front(es), j);
      assert Front(es)[..j] == es[..j];
    }
  }

  /**
   * A device with a valid block that is not already tracked as allowed or pending is let in: after
   * its mount it is tracked as mounted there with the certified access, and the mount is marked.
   */
  lemma CertifiedDeviceIsMounted(p: Policy, s: System, d: Device, mount: string)
    requires s.monitor == Idle && d.mount.None?
    requires d.id in s.tables.unmounted ==> s.tables.unmounted[d.id].auth == Block
    ensures Enabled(s, Add(d, Valid)) && Enabled(Next(p, s, Add(d, Valid)), Mounted(d.id, mount, true))
    ensures var t := Next(p, Next(p, s, Add(d, Valid)), Mounted(d.id, mount, true)).tables;
            && d.id !in t.unmounted
            && t.mounted == s.tables.mounted[d.id := Entry(d.(mount := Some(mount)), Certified(p))]
            && t.marks == s.tables.marks + {mount}
  {}

  /**
   * A device blocked for want of a valid block and then overridden by the user is let in when it
   * comes back, whatever its block now holds, with the access the policy gives to certified ones
   * and under the description it was blocked with. A removal in between drops the override.
   */
  lemma OverriddenDeviceIsMounted(p: Policy, s: System, again: Device, sig: Signature, mount: string)
    requires s.monitor == Idle && again.mount.None? && p.allowUserUsbAuthorization
    requires again.id in s.tables.unmounted && s.tables.unmounted[again.id].auth == Block
    requires s.tables.unmounted[again.id].device.syspath.Some?
    ensures var s1 := Next(p, s, UserOverride(again.id, true));
            var s2 := Next(p, s1, RemovePartition(again.id, true));
            var s3 := Next(p, s1, Add(again, sig));
            && s3.monitor == Mounting(again)
            && Next(p, s3, Mounted(again.id, mount, true)).tables.mounted ==
               s.tables.mounted[again.id := Entry(s.tables.unmounted[again.id].device.(mount := Some(mount)), Certified(p))]
            && (again.id !in s.tables.mounted ==> again.id !in s2.tables.unmounted)
  {}
}
