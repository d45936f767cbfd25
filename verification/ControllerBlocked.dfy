/**
 * What happens to a blocked device, and what access a device is given, told by the policy and the
 * events alone.
 */
module ControllerBlocked {
  import opened Wrappers
  import opened Controller
  import opened ControllerRuns

  /** The access of a device with a valid block, of one that was overridden, and of one restored. */
  predicate GivenTo(p: Policy, auth: UsbAuth) {
    auth == if p.allowUserFileWrite then AllowRW else AllowRead
  }

  /**
   * An added device that is already allowed or pending stays as it is. Any other is tracked under
   * its new description: allowed for a valid block, allowed everything for a missing or wrong one
   * where the policy lets unsigned devices in, and blocked otherwise, always for a malformed one.
   */
  lemma AddDecides(p: Policy, s: System, d: Device, sig: Signature)
    requires Enabled(s, Add(d, sig))
    ensures var s' := Next(p, s, Add(d, sig));
            && s'.tables.mounted == s.tables.mounted && s'.tables.marks == s.tables.marks
            && d.id in s'.tables.unmounted
            && (forall id | id != d.id :: id in s'.tables.unmounted <==> id in s.tables.unmounted)
            && (forall id <- s.tables.unmounted | id != d.id :: s'.tables.unmounted[id] == s.tables.unmounted[id])
            && var e := s'.tables.unmounted[d.id];
               && (s'.monitor == (if e.auth != Block && e.auth != Pending then Mounting(d) else Idle))
               && if d.id in s.tables.unmounted && s.tables.unmounted[d.id].auth != Block then e == s.tables.unmounted[d.id]
                  else
                    && e.device == d && e.auth != Pending
                    && (sig == Valid ==> GivenTo(p, e.auth))
                    && (e.auth == AllowAll <==> (sig == Absent || sig == Invalid) && p.disableUnsignedUsb)
                    && (e.auth == Block <==> sig == Malformed || ((sig == Absent || sig == Invalid) && !p.disableUnsignedUsb))
  {}

  /** The events that can end the tracking of a blocked device as it is. */
  predicate Concerns(p: Policy, ev: Event, d: Device) {
    match ev
    case Add(again, _) => again.id == d.id
    case UserOverride(id, _) => id == d.id && p.allowUserUsbAuthorization && d.syspath.Some?
    case UnplugUsb(prefix) => d.syspath.Some? && prefix <= d.syspath.value
    case _ => false
  }

  predicate IsBlocked(s: System, d: Device) {
    d.id in s.tables.unmounted && s.tables.unmounted[d.id] == Entry(d, Block)
  }

  /**
   * A blocked device stays as it is through every event that does not concern it, the removal of
   * its own node included. A permitted override gives it its access, an unplug drops it.
   */
  lemma BlockedStep(p: Policy, s: System, ev: Event, d: Device)
    requires Inv(p, s) && Enabled(s, ev) && IsBlocked(s, d)
    ensures !Concerns(p, ev, d) ==> IsBlocked(Next(p, s, ev), d)
    ensures ev.UnplugUsb? && Concerns(p, ev, d) ==> d.id !in Next(p, s, ev).tables.unmounted
    ensures ev.UserOverride? && Concerns(p, ev, d) ==>
              var t := Next(p, s, ev).tables;
              d.id in t.unmounted && t.unmounted[d.id].device == d && GivenTo(p, t.unmounted[d.id].auth)
  {}

  /** So in every run it is still there, unchanged, until the first event that concerns it. */
  lemma {:induction false} BlockedStays(p: Policy, sentinels: seq<Sentinel>, es: seq<Event>, d: Device, from: nat, until: nat)
    requires ValidRun(p, sentinels, es) && from <= until <= |es|
    requires IsBlocked(At(p, sentinels, es, from), d)
    requires forall j :: from <= j < until ==> !Concerns(p, es[j], d)
    ensures IsBlocked(At(p, sentinels, es, until), d)
    decreases until
  {
    hide At, Inv, Enabled, Next, Concerns, IsBlocked, Traced;
    if until > from {
      var j := until - 1;
      BlockedStays(p, sentinels, es, d, from, j);
      PrefixIsValid(p, sentinels, es, j);
      AllowancesAreJustified(p, sentinels, es[..j]);
      AtIs(p, sentinels, es, j);
      BlockedStep(p, At(p, sentinels, es, j), es[j], d);
    }
  }

  lemma AtIs(p: Policy, sentinels: seq<Sentinel>, es: seq<Event>, j: nat)
    requires j <= |es|
    ensures At(p, sentinels, es, j) == Run(p, sentinels, es[..j])
  {}

  /** The request to override succeeds exactly when it is permitted, comes upon a blocked device with a known place, and the write works. */
  lemma OverrideSucceedsExactly(p: Policy, t: Tables, id: string, writeOk: bool)
    ensures Override(p, t, id, writeOk).1.Ok? <==>
            p.allowUserUsbAuthorization && id in t.unmounted && t.unmounted[id].auth == Block
            && t.unmounted[id].device.syspath.Some? && writeOk
    ensures Override(p, t, id, true).0 == Override(p, t, id, false).0
  {}

  /** Blocked for want of a block, taken down by the kernel, overridden, announced again, mounted. */
  function Story(d: Device, again: Device, sig: Signature, mount: string): seq<Event> {
    [Add(d, Absent), RemovePartition(d.id, true), UserOverride(d.id, true), Add(again, sig), Mounted(d.id, mount, true)]
  }

  lemma StorySteps(p: Policy, s: System, d: Device, again: Device, sig: Signature, mount: string)
    requires s.monitor == Idle && d.mount.None? && again.mount.None? && again.id == d.id && d.syspath.Some?
    requires d.id !in s.tables.mounted && (d.id in s.tables.unmounted ==> s.tables.unmounted[d.id].auth == Block)
    requires !p.disableUnsignedUsb && p.allowUserUsbAuthorization
    ensures var es := Story(d, again, sig, mount);
            var s1 := Next(p, s, es[0]);
            var s2 := Next(p, s1, es[1]);
            var s3 := Next(p, s2, es[2]);
            var s4 := Next(p, s3, es[3]);
            && Enabled(s, es[0]) && Enabled(s1, es[1]) && Enabled(s2, es[2]) && Enabled(s3, es[3]) && Enabled(s4, es[4])
            && IsBlocked(s1, d) && s2 == s1
            && var t := Next(p, s4, es[4]).tables;
               && d.id !in t.unmounted && t.marks == s.tables.marks + {mount}
               && t.mounted.Keys == s.tables.mounted.Keys + {d.id}
               && (forall id <- s.tables.mounted :: t.mounted[id] == s.tables.mounted[id])
               && t.mounted[d.id].device == d.(mount := Some(mount)) && GivenTo(p, t.mounted[d.id].auth)
  {}

  /**
   * After any run, an unsigned device that is blocked and whose node the kernel then takes away
   * can still be overridden, and is mounted with its access when it is announced again, whatever
   * its block holds by then.
   */
  lemma BlockedDeviceCanBeOverridden(
    p: Policy, sentinels: seq<Sentinel>, es: seq<Event>, d: Device, again: Device, sig: Signature, mount: string)
    requires ValidRun(p, sentinels, es) && Run(p, sentinels, es).monitor == Idle
    requires d.mount.None? && again.mount.None? && again.id == d.id && d.syspath.Some?
    requires var t := Run(p, sentinels, es).tables;
             d.id !in t.mounted && (d.id in t.unmounted ==> t.unmounted[d.id].auth == Block)
    requires !p.disableUnsignedUsb && p.allowUserUsbAuthorization
    ensures var es' := es + Story(d, again, sig, mount);
            && ValidRun(p, sentinels, es')
            && var t := Run(p, sentinels, es').tables;
               && d.id !in t.unmounted && d.id in t.mounted && mount in t.marks
               && t.mounted[d.id].device == d.(mount := Some(mount)) && GivenTo(p, t.mounted[d.id].auth)
  {
    hide Run, ValidRun, Next, Enabled, IsBlocked, GivenTo;
    var story, s := Story(d, again, sig, mount), Run(p, sentinels, es);
    StorySteps(p, s, d, again, sig, mount);
    hide Story;
    var e1 := es + [story[0]];
    var e2 := e1 + [story[1]];
    var e3 := e2 + [story[2]];
    var e4 := e3 + [story[3]];
    OneMore(p, sentinels, es, story[0]);
    OneMore(p, sentinels, e1, story[1]);
    OneMore(p, sentinels, e2, story[2]);
    OneMore(p, sentinels, e3, story[3]);
    OneMore(p, sentinels, e4, story[4]);
    assert e4 + [story[4]] == es + story;
  }

  /** Such a device, and the policy: the first run of the daemon. */
  lemma StoryExists(mount: string)
    ensures var p := Policy(false, true, true, false);
            var d := Device("/dev/sdb1", None, "v", "m", "r", "s", Some(["sys", "usb1"]));
            ValidRun(p, [], Story(d, d, Absent, mount))
  {
    var p := Policy(false, true, true, false);
    var d := Device("/dev/sdb1", None, "v", "m", "r", "s", Some(["sys", "usb1"]));
    assert Run(p, [], []) == System(EMPTY, Idle) && ValidRun(p, [], []);
    hide Run, ValidRun;
    BlockedDeviceCanBeOverridden(p, [], [], d, d, Absent, mount);
    assert [] + Story(d, d, Absent, mount) == Story(d, d, Absent, mount);
  }

  /** After a restart exactly the nodes of restorable sentinels are mounted, each with the access the policy gives. */
  lemma RestartRestores(p: Policy, sentinels: seq<Sentinel>)
    ensures var t := Start(p, sentinels).tables;
            && t.unmounted == map[]
            && (forall id :: id in t.mounted <==> exists s :: s in sentinels && s.present && s.mount.Some? && s.id == id)
            && (forall id <- t.mounted :: t.mounted[id].device.id == id && GivenTo(p, t.mounted[id].auth)
                  && exists s :: s in sentinels && s.present && s.id == id && s.mount.Some? && t.mounted[id].device.mount == s.mount)
  {
    RecoveredExactly(p, EMPTY, sentinels);
  }

  lemma {:induction false} RecoveredExactly(p: Policy, t: Tables, sentinels: seq<Sentinel>)
    ensures var t' := Recover(p, t, sentinels);
            && t'.unmounted == t.unmounted
            && (forall id :: id in t'.mounted <==>
                  id in t.mounted || exists s :: s in sentinels && s.present && s.mount.Some? && s.id == id)
            && (forall id <- t'.mounted ::
                  || (id in t.mounted && t'.mounted[id] == t.mounted[id])
                  || (t'.mounted[id].device.id == id && GivenTo(p, t'.mounted[id].auth)
                      && exists s :: s in sentinels && s.present && s.id == id && s.mount.Some? && t'.mounted[id].device.mount == s.mount))
    decreases |sentinels|
  {
    if sentinels != [] {
      var s, rest := sentinels[0], sentinels[1..];
      var next := if !Restorable(s) then t
                  else Tables(t.unmounted, t.mounted[s.id := Restored(p, s)], Marked(t.marks, s.mount, Certified(p), s.callOk));
      RecoveredExactly(p, next, rest);
      assert s in sentinels && forall x <- rest :: x in sentinels;
      forall x <- sentinels
        ensures x == s || x in rest
      {
        assert sentinels == [s] + rest;
      }
    }
  }
}
