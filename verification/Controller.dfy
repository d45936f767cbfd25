/** The firewall's service controller: device tables, policy decisions and mount marks. */
module Controller {
  import opened Wrappers

  datatype UsbAuth = Pending | Block | AllowRead | AllowRW | AllowAll

  datatype Policy = Policy(
    disableUnsignedUsb: bool,
    allowUserUsbAuthorization: bool,
    allowUserFileRead: bool,
    allowUserFileWrite: bool)

  /** A sysfs path, by components. */
  type SysPath = seq<string>

  datatype Device = Device(
    id: string,
    mount: Option<string>,
    vendor: string, model: string, revision: string, serial: string,
    syspath: Option<SysPath>)

  datatype Entry = Entry(device: Device, auth: UsbAuth)

  /** What the signature block read from the device is worth. */
  datatype Signature = Absent | Valid | Invalid | Malformed

  /** A certification left by an earlier run of the daemon, with what is now on the system. */
  datatype Sentinel = Sentinel(id: string, present: bool, mount: Option<string>, callOk: bool)

  type Table = map<string, Entry>

  /** The controller's tables and the mount points that carry a mark. */
  datatype Tables = Tables(unmounted: Table, mounted: Table, marks: set<string>)

  const EMPTY := Tables(map[], map[], {})

  predicate Allows(a: UsbAuth) { a.AllowRead? || a.AllowRW? || a.AllowAll? }

  /** The access given to a device that passed certification or was overridden by the user. */
  function Certified(p: Policy): UsbAuth {
    if p.allowUserFileWrite then AllowRW else AllowRead
  }

  function Unsigned(p: Policy): UsbAuth {
    if p.disableUnsignedUsb then AllowAll else Block
  }

  function Evaluate(p: Policy, sig: Signature): UsbAuth {
    match sig
    case Valid => Certified(p)
    case Malformed => Block
    case _ => Unsigned(p)
  }

  /** The marks after the file filter has been told about one device. */
  function Marked(marks: set<string>, mount: Option<string>, auth: UsbAuth, callOk: bool): set<string> {
    if mount.None? || !callOk then marks
    else if Allows(auth) then marks + {mount.value}
    else marks - {mount.value}
  }

  function Authorize(p: Policy, t: Tables, d: Device, sig: Signature): (Tables, Result<bool>) {
    if d.id in t.unmounted && t.unmounted[d.id].auth == Pending then (t, Ok(false))
    else if d.id in t.unmounted && Allows(t.unmounted[d.id].auth) then (t, Ok(true))
    else
      var auth := Evaluate(p, sig);
      (t.(unmounted := t.unmounted[d.id := Entry(d, auth)]), if sig == Malformed then Err else Ok(Allows(auth)))
  }

  function Override(p: Policy, t: Tables, id: string, writeOk: bool): (Tables, Result<()>) {
    if !p.allowUserUsbAuthorization || id !in t.unmounted || t.unmounted[id].auth != Block
       || t.unmounted[id].device.syspath.None? then (t, Err)
    else
      (t.(unmounted := t.unmounted[id := t.unmounted[id].(auth := Certified(p))]), if writeOk then Ok(()) else Err)
  }

  function Update(t: Tables, id: string, mount: Option<string>, callOk: bool): (Tables, Result<()>) {
    if id !in t.unmounted then (t, Err)
    else
      var e := t.unmounted[id];
      var moved := Entry(e.device.(mount := mount), e.auth);
      (Tables(t.unmounted - {id}, t.mounted[id := moved], Marked(t.marks, mount, e.auth, callOk)), Ok(()))
  }

  function Remove(t: Tables, id: string, callOk: bool): Tables {
    if id in t.mounted then
      t.(mounted := t.mounted - {id}, marks := Marked(t.marks, t.mounted[id].device.mount, Block, callOk))
    else if id in t.unmounted && t.unmounted[id].auth != Block then t.(unmounted := t.unmounted - {id})
    else t
  }

  /** Devices of the unmounted table below a sysfs path that was unplugged. */
  function Below(t: Tables, prefix: SysPath): set<string> {
    set id <- t.unmounted | t.unmounted[id].device.syspath.Some? && prefix <= t.unmounted[id].device.syspath.value
  }

  function Unplug(t: Tables, prefix: SysPath): Tables {
    t.(unmounted := t.unmounted - Below(t, prefix))
  }

  function RequestUpdate(t: Tables, id: string, auth: UsbAuth, callOk: bool): Tables {
    if id in t.mounted then t.(marks := Marked(t.marks, t.mounted[id].device.mount, auth, callOk)) else t
  }

  function Restored(p: Policy, s: Sentinel): Entry {
    Entry(Device(s.id, s.mount, "", "", "", "", None), Certified(p))
  }

  predicate Restorable(s: Sentinel) { s.present && s.mount.Some? }

  function Recover(p: Policy, t: Tables, sentinels: seq<Sentinel>): Tables
    decreases |sentinels|
  {
    if sentinels == [] then t
    else
      var s := sentinels[0];
      var t' :=
        if !Restorable(s) then t
        else Tables(t.unmounted, t.mounted[s.id := Restored(p, s)], Marked(t.marks, s.mount, Certified(p), s.callOk));
      Recover(p, t', sentinels[1..])
  }

  /** The controller. Every method runs under its mutex, so callers see only whole calls. */
  class ServiceController {
    const policy: Policy
    var unmounted: Table
    var mounted: Table
    var marks: set<string>

    constructor (policy: Policy)
      ensures this.policy == policy && State() == EMPTY
    {
      this.policy := policy;
      unmounted, mounted, marks := map[], map[], {};
    }

    function State(): Tables
      reads this
    {
      Tables(unmounted, mounted, marks)
    }

    /** Adds a mark for an allowed device, removes it otherwise; reports a failed call. */
    method UpdateUsbAuth(mount: Option<string>, auth: UsbAuth, callOk: bool) returns (r: Result<()>)
      modifies this`marks
      ensures marks == Marked(old(marks), mount, auth, callOk)
      ensures r == if mount.Some? && callOk then Ok(()) else Err
    {
      if mount.None? {
        return Err;
      }
      if !callOk {
        return Err;
      }
      if auth.AllowRead? || auth.AllowRW? || auth.AllowAll? {
        marks := marks + {mount.value};
      } else {
        marks := marks - {mount.value};
      }
      return Ok(());
    }

    method AuthorizeUsb(device: Device, sig: Signature) returns (r: Result<bool>)
      modifies this
      ensures (State(), r) == Authorize(policy, old(State()), device, sig)
    {
      if device.id in unmounted {
        match unmounted[device.id].auth {
          case Pending => return Ok(false);
          case Block => unmounted := unmounted - {device.id};
          case _ => return Ok(true);
        }
      }
      unmounted := unmounted[device.id := Entry(device, Pending)];
      var auth;
      match sig {
        case Valid => auth := if policy.allowUserFileWrite then AllowRW else AllowRead;
        case Malformed =>
          unmounted := unmounted[device.id := unmounted[device.id].(auth := Block)];
          assert unmounted == old(unmounted)[device.id := Entry(device, Block)];
          return Err;
        case _ => auth := if policy.disableUnsignedUsb then AllowAll else Block;
      }
      unmounted := unmounted[device.id := unmounted[device.id].(auth := auth)];
      assert unmounted == old(unmounted)[device.id := Entry(device, auth)];
      return Ok(!auth.Block? && !auth.Pending?);
    }

    method OverrideBlockedUsb(id: string, writeOk: bool) returns (r: Result<()>)
      modifies this
      ensures (State(), r) == Override(policy, old(State()), id, writeOk)
    {
      if !policy.allowUserUsbAuthorization {
        return Err;
      }
      if id !in unmounted || unmounted[id].auth != Block || unmounted[id].device.syspath.None? {
        return Err;
      }
      var newAuth := if policy.allowUserFileWrite then AllowRW else AllowRead;
      unmounted := unmounted[id := unmounted[id].(auth := newAuth)];
      // the table is already updated when writing to sysfs fails
      return if writeOk then Ok(()) else Err;
    }

    method UpdateUsb(device: Device, callOk: bool) returns (r: Result<()>)
      modifies this
      ensures (State(), r) == Update(old(State()), device.id, device.mount, callOk)
    {
      if device.id !in unmounted {
        return Err;
      }
      var entry := unmounted[device.id];
      unmounted := unmounted - {device.id};
      entry := entry.(device := entry.device.(mount := device.mount));
      mounted := mounted[device.id := entry];
      var ignored := UpdateUsbAuth(entry.device.mount, entry.auth, callOk);
      return Ok(());
    }

    method RemoveUsb(id: string, callOk: bool)
      modifies this
      ensures State() == Remove(old(State()), id, callOk)
    {
      if id in mounted {
        var entry := mounted[id];
        mounted := mounted - {id};
        var ignored := UpdateUsbAuth(entry.device.mount, Block, callOk);
      } else if id in unmounted {
        if unmounted[id].auth != Block {
          unmounted := unmounted - {id};
        }
      }
    }

    method ForceRemoveUsb(id: string)
      modifies this
      ensures State() == old(State()).(unmounted := old(unmounted) - {id})
    {
      unmounted := unmounted - {id};
    }

    /** The monitor's reaction to a physical unplug, under one lock hold. */
    method UnplugUsbDevice(prefix: SysPath)
      modifies this
      ensures State() == Unplug(old(State()), prefix)
    {
      var toRemove := Below(State(), prefix);
      ghost var all := toRemove;
      while toRemove != {}
        invariant toRemove <= all
        invariant State() == old(State()).(unmounted := old(unmounted) - (all - toRemove))
        decreases |toRemove|
      {
        var id :| id in toRemove;
        ForceRemoveUsb(id);
        toRemove := toRemove - {id};
      }
    }

    method RequestUsbUpdate(id: string, auth: UsbAuth, callOk: bool) returns (r: Result<()>)
      modifies this
      ensures State() == RequestUpdate(old(State()), id, auth, callOk)
      ensures r.Err? <==> id in mounted && (mounted[id].device.mount.None? || !callOk)
    {
      if id in mounted {
        r := UpdateUsbAuth(mounted[id].device.mount, auth, callOk);
      } else {
        r := Ok(());
      }
    }

    method RecoverMountedDevices(sentinels: seq<Sentinel>)
      modifies this
      ensures State() == Recover(policy, old(State()), sentinels)
    {
      for i := 0 to |sentinels|
        invariant Recover(policy, State(), sentinels[i..]) == Recover(policy, old(State()), sentinels)
      {
        var s := sentinels[i];
        assert sentinels[i..][1..] == sentinels[i + 1..];
        if !s.present {
          continue;
        }
        if s.mount.None? {
          continue;
        }
        var auth := if policy.allowUserFileWrite then AllowRW else AllowRead;
        var device := Device(s.id, s.mount, "", "", "", "", None);
        var ignored := UpdateUsbAuth(s.mount, auth, s.callOk);
        mounted := mounted[s.id := Entry(device, auth)];
      }
    }
  }
}
