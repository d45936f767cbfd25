/**
 * Runs of the controller: the monitor thread, which gives up the mutex between authorizing a
 * device and recording its mount, interleaved with requests from the user interface.
 */
module ControllerRuns {
  import opened Wrappers
  import opened Controller

  datatype Monitor = Idle | Mounting(device: Device)

  datatype System = System(tables: Tables, monitor: Monitor)

  /** One lock hold, or the failure of a mount outside the lock. */
  datatype Event =
    | Add(device: Device, sig: Signature)
    | MountFailed
    | Mounted(id: string, mount: string, callOk: bool)
    | RemovePartition(id: string, callOk: bool)
    | UnplugUsb(prefix: SysPath)
    | UserOverride(id: string, writeOk: bool)
    | UserUpdate(id: string, auth: UsbAuth, callOk: bool)

  /** Restart recovery runs under the lock hold that starts the threads, so it comes first. */
  function Start(p: Policy, sentinels: seq<Sentinel>): System {
    System(Recover(p, EMPTY, sentinels), Idle)
  }

  predicate Enabled(s: System, e: Event) {
    match e
    case Add(d, _) => s.monitor == Idle && d.mount.None?
    case MountFailed => s.monitor.Mounting?
    case Mounted(id, _, _) => s.monitor.Mounting? && s.monitor.device.id == id
    case RemovePartition(_, _) => s.monitor == Idle
    case UnplugUsb(_) => s.monitor == Idle
    case UserOverride(_, _) => true
    case UserUpdate(_, auth, _) => auth != Pending
  }

  /**
   * Requests of the user come at any moment, kernel events whenever the monitor is idle, and a
   * mount that was begun ends in one way or the other.
   */
  lemma EventsAreFree(s: System, d: Device, sig: Signature, id: string, auth: UsbAuth, mount: string, prefix: SysPath, ok: bool)
    ensures Enabled(s, UserOverride(id, ok)) && (auth != Pending ==> Enabled(s, UserUpdate(id, auth, ok)))
    ensures s.monitor == Idle ==>
              (d.mount.None? ==> Enabled(s, Add(d, sig))) && Enabled(s, RemovePartition(id, ok)) && Enabled(s, UnplugUsb(prefix))
    ensures s.monitor != Idle ==> Enabled(s, MountFailed) && Enabled(s, Mounted(s.monitor.device.id, mount, ok))
    ensures s.monitor == Idle ==> !Enabled(s, MountFailed) && !Enabled(s, Mounted(id, mount, ok))
  {}

  function Next(p: Policy, s: System, e: Event): System {
    match e
    case Add(d, sig) =>
      var (t, r) := Authorize(p, s.tables, d, sig);
      System(t, if r == Ok(true) then Mounting(d) else Idle)
    case MountFailed => s.(monitor := Idle)
    case Mounted(id, mount, callOk) => System(Update(s.tables, id, Some(mount), callOk).0, Idle)
    case RemovePartition(id, callOk) => s.(tables := Remove(s.tables, id, callOk))
    case UnplugUsb(prefix) => s.(tables := Unplug(s.tables, prefix))
    case UserOverride(id, writeOk) => s.(tables := Override(p, s.tables, id, writeOk).0)
    case UserUpdate(id, auth, callOk) => s.(tables := RequestUpdate(s.tables, id, auth, callOk))
  }

  function Front(es: seq<Event>): seq<Event>
    requires es != []
  {
    es[..|es| - 1]
  }

  function Last(es: seq<Event>): Event
    requires es != []
  {
    es[|es| - 1]
  }

  function Run(p: Policy, sentinels: seq<Sentinel>, es: seq<Event>): System
    decreases |es|
  {
    if es == [] then Start(p, sentinels) else Next(p, Run(p, sentinels, Front(es)), Last(es))
  }

  predicate ValidRun(p: Policy, sentinels: seq<Sentinel>, es: seq<Event>)
    decreases |es|
  {
    es == [] || (ValidRun(p, sentinels, Front(es)) && Enabled(Run(p, sentinels, Front(es)), Last(es)))
  }

  /** The state after the first `j` events. */
  function At(p: Policy, sentinels: seq<Sentinel>, es: seq<Event>, j: nat): System
    requires j <= |es|
  {
    Run(p, sentinels, es[..j])
  }

  lemma AtPrefix(p: Policy, sentinels: seq<Sentinel>, es: seq<Event>, ev: Event, j: nat)
    requires j <= |es|
    ensures At(p, sentinels, es + [ev], j) == At(p, sentinels, es, j)
    ensures At(p, sentinels, es, |es|) == Run(p, sentinels, es)
    ensures At(p, sentinels, es + [ev], |es| + 1) == Next(p, Run(p, sentinels, es), ev)
  {
    hide Next, Start;
    assert (es + [ev])[..j] == es[..j] && es[..|es|] == es && (es + [ev])[..|es| + 1] == es + [ev];
    assert Front(es + [ev]) == es && Last(es + [ev]) == ev;
  }

  lemma OneMore(p: Policy, sentinels: seq<Sentinel>, es: seq<Event>, ev: Event)
    ensures Run(p, sentinels, es + [ev]) == Next(p, Run(p, sentinels, es), ev)
    ensures ValidRun(p, sentinels, es + [ev]) <==> ValidRun(p, sentinels, es) && Enabled(Run(p, sentinels, es), ev)
  {
    hide Next, Start, Enabled;
    assert Front(es + [ev]) == es && Last(es + [ev]) == ev;
  }

  // ---------------------------------------------------------------- what every state keeps

  /** The entry is filed under its own device, decided, and within the policy. */
  predicate Fits(p: Policy, id: string, e: Entry) {
    && e.device.id == id
    && e.auth != Pending
    && (e.auth == AllowRW ==> p.allowUserFileWrite)
    && (e.auth == AllowAll ==> p.disableUnsignedUsb)
  }

  ghost predicate Inv(p: Policy, s: System) {
    var t := s.tables;
    && (forall id <- t.unmounted :: Fits(p, id, t.unmounted[id]) && t.unmounted[id].device.mount.None?)
    && (forall id <- t.mounted :: Fits(p, id, t.mounted[id]) && t.mounted[id].auth != Block && t.mounted[id].device.mount.Some?)
    && (s.monitor.Mounting? ==> s.monitor.device.id in t.unmounted && Allows(t.unmounted[s.monitor.device.id].auth))
  }

  lemma StepKeepsInv(p: Policy, s: System, ev: Event)
    requires Inv(p, s) && Enabled(s, ev)
    ensures Inv(p, Next(p, s, ev))
  {
    match ev
    case Add(d, sig) => assert Fits(p, d.id, Entry(d, Evaluate(p, sig)));
    case _ =>
  }

  lemma {:induction false} RecoveredInv(p: Policy, sentinels: seq<Sentinel>, k: nat, t: Tables)
    requires k <= |sentinels| && Inv(p, System(t, Idle)) && t.unmounted == map[]
    requires forall id <- t.mounted :: exists s :: s in sentinels && Restorable(s) && s.id == id && t.mounted[id] == Restored(p, s)
    ensures var t' := Recover(p, t, sentinels[k..]);
            && Inv(p, System(t', Idle)) && t'.unmounted == map[]
            && forall id <- t'.mounted :: exists s :: s in sentinels && Restorable(s) && s.id == id && t'.mounted[id] == Restored(p, s)
    decreases |sentinels| - k
  {
    if k < |sentinels| {
      var s := sentinels[k];
      assert sentinels[k..][0] == s && sentinels[k..][1..] == sentinels[k + 1..];
      assert s in sentinels;
      var t' := if !Restorable(s) then t
                else Tables(t.unmounted, t.mounted[s.id := Restored(p, s)], Marked(t.marks, s.mount, Certified(p), s.callOk));
      RecoveredInv(p, sentinels, k + 1, t');
    }
  }

  // ---------------------------------------------------------------- where allowances come from

  /** A block worth this much leads to this access. */
  predicate Admits(p: Policy, sig: Signature, auth: UsbAuth) {
    || (sig.Valid? && auth == Certified(p))
    || ((sig.Absent? || sig.Invalid?) && p.disableUnsignedUsb && auth == AllowAll)
  }

  /**
   * The event, coming upon these tables, makes this allowed entry: the device itself was added
   * with a block that admits it, not being let in already; or the user was permitted to override
   * the block of exactly this device, which was tracked as blocked with a known place.
   */
  predicate Creates(p: Policy, t: Tables, ev: Event, id: string, e: Entry) {
    match ev
    case Add(d, sig) =>
      && d.id == id && e.device == d && Admits(p, sig, e.auth)
      && (id in t.unmounted ==> t.unmounted[id].auth == Block)
    case UserOverride(i, _) =>
      && i == id && p.allowUserUsbAuthorization && e.auth == Certified(p)
      && id in t.unmounted && t.unmounted[id] == Entry(e.device, Block) && e.device.syspath.Some?
    case _ => false
  }

  /** The entry is in the unmounted table in all states from `from` to the end of the run. */
  ghost predicate Waits(p: Policy, sentinels: seq<Sentinel>, es: seq<Event>, from: nat, to: nat, id: string, e: Entry)
    requires to <= |es|
  {
    forall j :: from <= j <= to ==> id in At(p, sentinels, es, j).tables.unmounted && At(p, sentinels, es, j).tables.unmounted[id] == e
  }

  ghost predicate Rests(p: Policy, sentinels: seq<Sentinel>, es: seq<Event>, from: nat, id: string, e: Entry) {
    forall j :: from <= j <= |es| ==> id in At(p, sentinels, es, j).tables.mounted && At(p, sentinels, es, j).tables.mounted[id] == e
  }

  /** Event `k` made the entry, and nothing has dropped or replaced it since. */
  ghost predicate MadeWaiting(p: Policy, sentinels: seq<Sentinel>, es: seq<Event>, k: int, id: string, e: Entry) {
    && 0 <= k < |es| && Creates(p, At(p, sentinels, es, k).tables, es[k], id, e)
    && Waits(p, sentinels, es, k + 1, |es|, id, e)
  }

  /** Event `k` made the entry, event `m` recorded its mount, and nothing has dropped or replaced it since. */
  ghost predicate MadeMounted(p: Policy, sentinels: seq<Sentinel>, es: seq<Event>, k: int, m: int, id: string, e: Entry) {
    var waiting := Entry(e.device.(mount := None), e.auth);
    && 0 <= k < m < |es| && Creates(p, At(p, sentinels, es, k).tables, es[k], id, waiting)
    && Waits(p, sentinels, es, k + 1, m, id, waiting)
    && es[m].Mounted? && es[m].id == id && e.device.mount == Some(es[m].mount)
    && Rests(p, sentinels, es, m + 1, id, e)
  }

  /** The entry was restored at the start from a sentinel, and nothing has dropped or replaced it since. */
  ghost predicate Kept(p: Policy, sentinels: seq<Sentinel>, es: seq<Event>, s: Sentinel, id: string, e: Entry) {
    && s in sentinels && Restorable(s) && s.id == id && e == Restored(p, s)
    && Rests(p, sentinels, es, 0, id, e)
  }

  ghost predicate WaitingTraced(p: Policy, sentinels: seq<Sentinel>, es: seq<Event>, id: string, e: Entry) {
    exists k :: MadeWaiting(p, sentinels, es, k, id, e)
  }

  ghost predicate MountedTraced(p: Policy, sentinels: seq<Sentinel>, es: seq<Event>, id: string, e: Entry) {
    || (exists s :: Kept(p, sentinels, es, s, id, e))
    || (exists k, m :: MadeMounted(p, sentinels, es, k, m, id, e))
  }

  ghost predicate Traced(p: Policy, sentinels: seq<Sentinel>, es: seq<Event>) {
    var t := Run(p, sentinels, es).tables;
    && (forall id <- t.unmounted | Allows(t.unmounted[id].auth) :: WaitingTraced(p, sentinels, es, id, t.unmounted[id]))
    && (forall id <- t.mounted :: MountedTraced(p, sentinels, es, id, t.mounted[id]))
  }

  // ---------------------------------------------------------------- one more event

  lemma WaitsLonger(p: Policy, sentinels: seq<Sentinel>, es: seq<Event>, ev: Event, from: nat, to: nat, id: string, e: Entry)
    requires to <= |es| && Waits(p, sentinels, es, from, to, id, e)
    ensures Waits(p, sentinels, es + [ev], from, to, id, e)
    ensures var u := Next(p, Run(p, sentinels, es), ev).tables.unmounted;
            to == |es| && id in u && u[id] == e ==> Waits(p, sentinels, es + [ev], from, |es| + 1, id, e)
  {
    hide At, Next;
    var es' := es + [ev];
    AtPrefix(p, sentinels, es, ev, |es|);
    forall j | 0 <= j <= |es|
      ensures At(p, sentinels, es', j) == At(p, sentinels, es, j)
    {
      AtPrefix(p, sentinels, es, ev, j);
    }
    var u := Next(p, Run(p, sentinels, es), ev).tables.unmounted;
    if to == |es| && id in u && u[id] == e {
      forall j | from <= j <= |es| + 1
        ensures id in At(p, sentinels, es', j).tables.unmounted && At(p, sentinels, es', j).tables.unmounted[id] == e
      {
        if j <= |es| {
          assert At(p, sentinels, es', j) == At(p, sentinels, es, j);
        }
      }
    }
  }

  lemma RestsLonger(p: Policy, sentinels: seq<Sentinel>, es: seq<Event>, ev: Event, from: nat, id: string, e: Entry)
    requires Rests(p, sentinels, es, from, id, e)
    requires var m := Next(p, Run(p, sentinels, es), ev).tables.mounted; id in m && m[id] == e
    ensures Rests(p, sentinels, es + [ev], from, id, e)
  {
    hide At, Next;
    var es' := es + [ev];
    AtPrefix(p, sentinels, es, ev, |es|);
    forall j | from <= j <= |es'|
      ensures id in At(p, sentinels, es', j).tables.mounted && At(p, sentinels, es', j).tables.mounted[id] == e
    {
      if j <= |es| {
        AtPrefix(p, sentinels, es, ev, j);
      }
    }
  }

  lemma WaitingTracedLonger(p: Policy, sentinels: seq<Sentinel>, es: seq<Event>, ev: Event, id: string, e: Entry)
    requires WaitingTraced(p, sentinels, es, id, e)
    requires var u := Next(p, Run(p, sentinels, es), ev).tables.unmounted; id in u && u[id] == e
    ensures WaitingTraced(p, sentinels, es + [ev], id, e)
  {
    hide At, Next, Creates, Waits;
    var k :| MadeWaiting(p, sentinels, es, k, id, e);
    AtPrefix(p, sentinels, es, ev, k);
    WaitsLonger(p, sentinels, es, ev, k + 1, |es|, id, e);
    assert (es + [ev])[k] == es[k];
    assert MadeWaiting(p, sentinels, es + [ev], k, id, e);
  }

  lemma MountedTracedLonger(p: Policy, sentinels: seq<Sentinel>, es: seq<Event>, ev: Event, id: string, e: Entry)
    requires MountedTraced(p, sentinels, es, id, e)
    requires var m := Next(p, Run(p, sentinels, es), ev).tables.mounted; id in m && m[id] == e
    ensures MountedTraced(p, sentinels, es + [ev], id, e)
  {
    hide At, Next, Creates, Waits, Rests;
    if s :| Kept(p, sentinels, es, s, id, e) {
      RestsLonger(p, sentinels, es, ev, 0, id, e);
      assert Kept(p, sentinels, es + [ev], s, id, e);
    } else {
      var k, m :| MadeMounted(p, sentinels, es, k, m, id, e);
      AtPrefix(p, sentinels, es, ev, k);
      WaitsLonger(p, sentinels, es, ev, k + 1, m, id, Entry(e.device.(mount := None), e.auth));
      RestsLonger(p, sentinels, es, ev, m + 1, id, e);
      assert (es + [ev])[k] == es[k] && (es + [ev])[m] == es[m];
      assert MadeMounted(p, sentinels, es + [ev], k, m, id, e);
    }
  }

  /** An allowed entry of the unmounted table was there before, or this event made it. */
  lemma UnmountedStep(p: Policy, s: System, ev: Event, id: string)
    requires Inv(p, s) && Enabled(s, ev)
    requires var u := Next(p, s, ev).tables.unmounted; id in u && Allows(u[id].auth)
    ensures var e := Next(p, s, ev).tables.unmounted[id];
            (id in s.tables.unmounted && s.tables.unmounted[id] == e) || Creates(p, s.tables, ev, id, e)
  {}

  /** An entry of the mounted table was there before, or this event moved it there from the other table. */
  lemma MountedStep(p: Policy, s: System, ev: Event, id: string)
    requires Inv(p, s) && Enabled(s, ev) && id in Next(p, s, ev).tables.mounted
    ensures var e := Next(p, s, ev).tables.mounted[id];
            || (id in s.tables.mounted && s.tables.mounted[id] == e)
            || (ev.Mounted? && ev.id == id && e.device.mount == Some(ev.mount)
                && id in s.tables.unmounted && Allows(e.auth)
                && s.tables.unmounted[id] == Entry(e.device.(mount := None), e.auth))
  {}

  lemma NewWaitingTraced(p: Policy, sentinels: seq<Sentinel>, es: seq<Event>, ev: Event, id: string, e: Entry)
    requires Creates(p, Run(p, sentinels, es).tables, ev, id, e)
    requires var u := Next(p, Run(p, sentinels, es), ev).tables.unmounted; id in u && u[id] == e
    ensures WaitingTraced(p, sentinels, es + [ev], id, e)
  {
    hide At, Next, Creates;
    var n := |es|;
    AtPrefix(p, sentinels, es, ev, n);
    assert (es + [ev])[n] == ev;
    assert MadeWaiting(p, sentinels, es + [ev], n, id, e);
  }

  lemma NewMountedTraced(p: Policy, sentinels: seq<Sentinel>, es: seq<Event>, ev: Event, id: string, e: Entry)
    requires ev.Mounted? && ev.id == id && e.device.mount == Some(ev.mount)
    requires WaitingTraced(p, sentinels, es, id, Entry(e.device.(mount := None), e.auth))
    requires var m := Next(p, Run(p, sentinels, es), ev).tables.mounted; id in m && m[id] == e
    ensures MountedTraced(p, sentinels, es + [ev], id, e)
  {
    hide At, Next, Creates, Waits;
    var n, waiting := |es|, Entry(e.device.(mount := None), e.auth);
    var k :| MadeWaiting(p, sentinels, es, k, id, waiting);
    AtPrefix(p, sentinels, es, ev, k);
    AtPrefix(p, sentinels, es, ev, n);
    WaitsLonger(p, sentinels, es, ev, k + 1, n, id, waiting);
    assert (es + [ev])[k] == es[k] && (es + [ev])[n] == ev;
    assert MadeMounted(p, sentinels, es + [ev], k, n, id, e);
  }

  lemma StepKeepsTraced(p: Policy, sentinels: seq<Sentinel>, es: seq<Event>, ev: Event)
    requires Inv(p, Run(p, sentinels, es)) && Enabled(Run(p, sentinels, es), ev) && Traced(p, sentinels, es)
    ensures Traced(p, sentinels, es + [ev])
  {
    hide Next, Creates, WaitingTraced, MountedTraced, Inv, Enabled, Run;
    var s := Run(p, sentinels, es);
    OneMore(p, sentinels, es, ev);
    var t := Next(p, s, ev).tables;
    forall id <- t.unmounted | Allows(t.unmounted[id].auth)
      ensures WaitingTraced(p, sentinels, es + [ev], id, t.unmounted[id])
    {
      UnmountedStep(p, s, ev, id);
      if Creates(p, s.tables, ev, id, t.unmounted[id]) {
        NewWaitingTraced(p, sentinels, es, ev, id, t.unmounted[id]);
      } else {
        WaitingTracedLonger(p, sentinels, es, ev, id, t.unmounted[id]);
      }
    }
    forall id <- t.mounted
      ensures MountedTraced(p, sentinels, es + [ev], id, t.mounted[id])
    {
      MountedStep(p, s, ev, id);
      if id in s.tables.mounted && s.tables.mounted[id] == t.mounted[id] {
        MountedTracedLonger(p, sentinels, es, ev, id, t.mounted[id]);
      } else {
        NewMountedTraced(p, sentinels, es, ev, id, t.mounted[id]);
      }
    }
  }

  lemma StartTraced(p: Policy, sentinels: seq<Sentinel>)
    ensures Inv(p, Run(p, sentinels, [])) && Traced(p, sentinels, [])
  {
    assert sentinels[0..] == sentinels;
    RecoveredInv(p, sentinels, 0, EMPTY);
    var t := Run(p, sentinels, []).tables;
    forall id <- t.mounted
      ensures MountedTraced(p, sentinels, [], id, t.mounted[id])
    {
      var s :| s in sentinels && Restorable(s) && s.id == id && t.mounted[id] == Restored(p, s);
      assert At(p, sentinels, [], 0) == Run(p, sentinels, []);
      assert Kept(p, sentinels, [], s, id, t.mounted[id]);
    }
  }

  /**
   * After any run: no tracked device is pending, no mounted device is blocked, and write access
   * and full access occur only under the policy that gives them. Every allowance was made by one
   * event, at which this very device came with an admitting block or was blocked and overridden by
   * a permitted user, or by a sentinel of an earlier run; and its entry has been there ever since.
   */
  lemma {:induction false} AllowancesAreJustified(p: Policy, sentinels: seq<Sentinel>, es: seq<Event>)
    requires ValidRun(p, sentinels, es)
    ensures Inv(p, Run(p, sentinels, es)) && Traced(p, sentinels, es)
    decreases |es|
  {
    hide Inv, Traced, Next, Enabled;
    if es == [] {
      StartTraced(p, sentinels);
    } else {
      AllowancesAreJustified(p, sentinels, Front(es));
      StepKeepsInv(p, Run(p, sentinels, Front(es)), Last(es));
      StepKeepsTraced(p, sentinels, Front(es), Last(es));
      assert Front(es) + [Last(es)] == es;
    }
  }

  // ---------------------------------------------------------------- what a removal leaves

  /**
   * The removal of a node drops its mounted entry, and an allowed unmounted one exactly when the
   * node is not mounted as well: a key shared by both tables leaves a stale allowance behind.
   */
  lemma RemovalDropsExactly(p: Policy, s: System, id: string, callOk: bool)
    requires id in s.tables.unmounted && Allows(s.tables.unmounted[id].auth)
    ensures var t := Next(p, s, RemovePartition(id, callOk)).tables;
            && id !in t.mounted
            && (id in t.unmounted <==> id in s.tables.mounted)
            && (id in t.unmounted ==> t.unmounted[id] == s.tables.unmounted[id])
  {}

  lemma {:induction false} PrefixIsValid(p: Policy, sentinels: seq<Sentinel>, es: seq<Event>, j: nat)
    requires ValidRun(p, sentinels, es) && j <= |es|
    ensures ValidRun(p, sentinels, es[..j])
    ensures j < |es| ==> Enabled(At(p, sentinels, es, j), es[j]) && At(p, sentinels, es, j + 1) == Next(p, At(p, sentinels, es, j), es[j])
    decreases |es|
  {
    hide Next, Enabled, Start;
    if j == |es| {
      assert es[..j] == es;
    } else {
      PrefixIsValid(p, sentinels, Front(es), j);
      assert Front(es)[..j] == es[..j];
      if j < |es| - 1 {
        assert Front(es)[j] == es[j] && Front(es)[..j + 1] == es[..j + 1];
      } else {
        assert Front(es) == es[..j] && es[..j + 1] == es;
      }
    }
  }

  /** An allowed entry that has waited through the removal of its node shared its key with a mounted one then. */
  lemma RemovalSurvivedMeansShared(p: Policy, sentinels: seq<Sentinel>, es: seq<Event>, from: nat, id: string, e: Entry, j: nat)
    requires ValidRun(p, sentinels, es) && Waits(p, sentinels, es, from, |es|, id, e) && Allows(e.auth)
    requires from <= j < |es| && es[j].RemovePartition? && es[j].id == id
    ensures id in At(p, sentinels, es, j).tables.mounted
  {
    hide At, Run;
    PrefixIsValid(p, sentinels, es, j);
    RemovalDropsExactly(p, At(p, sentinels, es, j), id, es[j].callOk);
  }

  /** A mounted entry does not survive the removal of its node. */
  lemma MountedEndsWithRemoval(p: Policy, sentinels: seq<Sentinel>, es: seq<Event>, from: nat, id: string, e: Entry, j: nat)
    requires ValidRun(p, sentinels, es) && Rests(p, sentinels, es, from, id, e) && from <= j < |es|
    ensures !(es[j].RemovePartition? && es[j].id == id)
  {
    hide At, Run;
    PrefixIsValid(p, sentinels, es, j);
  }
}
