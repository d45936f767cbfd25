/**
 * The file-authorization protocol of the minifilter for one file: any number of create
 * callbacks race to attach a context, lock it, and have it scanned once, while the daemon
 * changes authorizations at any moment.
 */
module Minifilter {
  import opened Wrappers
  import opened Resource

  datatype Auth = Unknown | Pending | Block | AllowRead | AllowWarning | AllowAll

  /** A file context; `named` once its file identifier has been computed. */
  datatype Context = Context(auth: Auth, named: bool, lock: Lock)

  datatype Mode = Free | Read | Write

  /** What the state of the instance asks for. */
  datatype Plan = Set(auth: Auth) | Ask

  /** Where a thread is: a create callback, or the daemon's volume update. */
  datatype Pc =
    | Start
    | Allocate
    | Attach(mine: nat)
    | LockRead(c: nat)
    | CheckRead(c: nat)
    | Upgrade(c: nat)
    | CheckWrite(c: nat)
    | HashName(c: nat)
    | FindInstance(c: nat)
    | LockInstance(c: nat)
    | ReadInstance(c: nat)
    | LeaveInstance(c: nat, plan: Plan)
    | Apply(c: nat, plan: Plan)
    | Scan(c: nat)
    | Await(c: nat)
    | Decide(c: nat, mode: Mode)
    | Cleanup(c: nat, mode: Mode, denied: bool)
    | Done(result: Option<nat>, denied: bool)
    | UsbLock(auth: Auth)
    | UsbWrite(auth: Auth)
    | UsbUnlock
    | UsbDone

  datatype State = State(
    contexts: seq<Context>,
    list: seq<nat>,
    attached: Option<nat>,
    instanceAuth: Auth,
    instanceLock: Lock,
    threads: map<Tid, Pc>,
    scans: nat)

  /** `ok` is the outcome of the system call at this step, `reply` the answer to a scan. */
  datatype Event =
    | Create(t: Tid)
    | UpdateVolume(t: Tid, auth: Auth)
    | Notify(auth: Auth)
    | Run(t: Tid, ok: bool, reply: Auth)

  function Initial(instanceAuth: Auth): State {
    State([], [], None, instanceAuth, FREE, map[], 0)
  }

  function ContextOf(pc: Pc): Option<nat> {
    match pc
    case LockRead(c) => Some(c)
    case CheckRead(c) => Some(c)
    case Upgrade(c) => Some(c)
    case CheckWrite(c) => Some(c)
    case HashName(c) => Some(c)
    case FindInstance(c) => Some(c)
    case LockInstance(c) => Some(c)
    case ReadInstance(c) => Some(c)
    case LeaveInstance(c, _) => Some(c)
    case Apply(c, _) => Some(c)
    case Scan(c) => Some(c)
    case Await(c) => Some(c)
    case Decide(c, _) => Some(c)
    case Cleanup(c, _, _) => Some(c)
    case Done(r, _) => r
    case _ => None
  }

  predicate Finished(pc: Pc) { pc.Done? || pc.UsbDone? }

  predicate Enabled(s: State, e: Event) {
    match e
    case Create(t) => t !in s.threads
    case UpdateVolume(t, a) => t !in s.threads && a != Unknown
    case Notify(a) => a != Unknown
    case Run(t, ok, reply) =>
      t in s.threads && CanRun(s, t) && (s.threads[t].Await? && ok ==> reply != Unknown)
  }

  /** The thread is neither finished nor waiting for a lock. */
  predicate CanRun(s: State, t: Tid)
    requires t in s.threads
  {
    var pc := s.threads[t];
    && !Finished(pc)
    && (ContextOf(pc).Some? ==> ContextOf(pc).value < |s.contexts|)
    && (pc.LockRead? ==> CanShare(s.contexts[pc.c].lock, t))
    && (pc.Upgrade? && MayOwn(s.contexts[pc.c].lock, t) ==> CanOwn(s.contexts[pc.c].lock, t))
    && (pc.LockInstance? ==> CanShare(s.instanceLock, t))
    && (pc.UsbLock? && MayOwn(s.instanceLock, t) ==> CanOwn(s.instanceLock, t))
  }

  function Next(s: State, e: Event): State
    requires Enabled(s, e)
  {
    match e
    case Create(t) => s.(threads := s.threads[t := Start])
    case UpdateVolume(t, a) => s.(threads := s.threads[t := UsbLock(a)])
    case Notify(a) => s.(contexts := Notified(s.contexts, s.list, a))
    case Run(t, ok, reply) =>
      var pc := s.threads[t];
      if ContextOf(pc).Some? then StepLocked(s, t, ContextOf(pc).value, ok, reply)
      else StepOther(s, t, ok)
  }

  /** The first context of the list with a matching identifier takes the new authorization. */
  function Notified(contexts: seq<Context>, list: seq<nat>, a: Auth): (r: seq<Context>)
    ensures |r| == |contexts|
  {
    if list == [] then contexts
    else if list[0] < |contexts| && contexts[list[0]].named then contexts[list[0] := contexts[list[0]].(auth := a)]
    else Notified(contexts, list[1..], a)
  }

  function Goto(s: State, t: Tid, pc: Pc): State {
    s.(threads := s.threads[t := pc])
  }

  /** Steps of a callback before it has a context, and of the volume update. */
  function StepOther(s: State, t: Tid, ok: bool): State
    requires t in s.threads
  {
    match s.threads[t]
    case Start =>
      if !ok then Goto(s, t, Done(None, false))
      else if s.attached.Some? then Goto(s, t, LockRead(s.attached.value))
      else Goto(s, t, Allocate)
    case Allocate =>
      if !ok then Goto(s, t, Done(None, false))
      else
        var id := |s.contexts|;
        Goto(s.(contexts := s.contexts + [Context(Unknown, false, FREE)], list := [id] + s.list), t, Attach(id))
    case Attach(mine) =>
      if !ok then Goto(s, t, Done(None, false))
      else if s.attached.Some? then Goto(s, t, LockRead(s.attached.value))
      else Goto(s.(attached := Some(mine)), t, LockRead(mine))
    case UsbLock(a) =>
      if MayOwn(s.instanceLock, t) then Goto(s.(instanceLock := Own(s.instanceLock, t)), t, UsbWrite(a))
      else Goto(s, t, UsbWrite(a))
    case UsbWrite(a) => Goto(s.(instanceAuth := a), t, UsbUnlock)
    case UsbUnlock => Goto(s.(instanceLock := Release(s.instanceLock, t)), t, UsbDone)
    case _ => s
  }

  /** What a callback does to itself, to its context, to the instance lock and to the scan port. */
  datatype Effect = Effect(pc: Pc, ctx: Context, instanceLock: Lock, sent: bool)

  /** Steps of a callback that has obtained the context `c`, whose contents are `ctx`. */
  function EffectOf(pc: Pc, c: nat, ctx: Context, instanceAuth: Auth, il: Lock, t: Tid, ok: bool, reply: Auth): Effect {
    match pc
    case LockRead(_) => Effect(CheckRead(c), ctx.(lock := Share(ctx.lock, t)), il, false)
    case CheckRead(_) =>
      if ctx.auth == Unknown then Effect(Upgrade(c), ctx.(lock := Release(ctx.lock, t)), il, false)
      else Effect(Decide(c, Read), ctx, il, false)
    case Upgrade(_) =>
      if MayOwn(ctx.lock, t) then Effect(CheckWrite(c), ctx.(lock := Own(ctx.lock, t)), il, false)
      else Effect(Cleanup(c, Free, false), ctx, il, false)
    case CheckWrite(_) =>
      if ctx.auth == Unknown then Effect(HashName(c), ctx.(auth := Pending), il, false)
      else Effect(Decide(c, Write), ctx, il, false)
    case HashName(_) =>
      if ok then Effect(FindInstance(c), ctx.(named := true), il, false)
      else Effect(Cleanup(c, Write, false), ctx, il, false)
    case FindInstance(_) =>
      if ok then Effect(LockInstance(c), ctx, il, false)
      else Effect(Cleanup(c, Free, false), ctx.(lock := Release(ctx.lock, t)), il, false)
    case LockInstance(_) => Effect(ReadInstance(c), ctx, Share(il, t), false)
    case ReadInstance(_) =>
      var plan :=
        match instanceAuth
        case AllowWarning => Ask
        case AllowRead => Ask
        case AllowAll => Plan.Set(AllowRead)
        case _ => Plan.Set(Block);
      Effect(LeaveInstance(c, plan), ctx, il, false)
    case LeaveInstance(_, plan) => Effect(Apply(c, plan), ctx, Release(il, t), false)
    case Apply(_, plan) =>
      if plan.Set? then Effect(Decide(c, Write), ctx.(auth := plan.auth), il, false)
      else Effect(Scan(c), ctx, il, false)
    case Scan(_) => Effect(if ok then Await(c) else Decide(c, Write), ctx.(auth := Pending), il, ok)
    case Await(_) => Effect(Decide(c, Write), if ok then ctx.(auth := reply) else ctx, il, false)
    case Decide(_, mode) => Effect(Cleanup(c, mode, ctx.auth == Block), ctx, il, false)
    case Cleanup(_, _, denied) =>
      // both releases are guarded, so they are no-ops for a lock that is not held
      Effect(Done(Some(c), denied), ctx.(lock := Release(ctx.lock, t)), Release(il, t), false)
    case _ => Effect(pc, ctx, il, false)
  }

  function StepLocked(s: State, t: Tid, c: nat, ok: bool, reply: Auth): State
    requires t in s.threads && c < |s.contexts|
  {
    var e := EffectOf(s.threads[t], c, s.contexts[c], s.instanceAuth, s.instanceLock, t, ok, reply);
    s.(threads := s.threads[t := e.pc], contexts := s.contexts[c := e.ctx], instanceLock := e.instanceLock,
       scans := if e.sent then s.scans + 1 else s.scans)
  }

  // ---------------------------------------------------------------- invariant

  /** The access to the file's lock that a thread has at each point. */
  function FileMode(pc: Pc): Mode {
    match pc
    case CheckRead(_) => Read
    case CheckWrite(_) => Write
    case HashName(_) => Write
    case FindInstance(_) => Write
    case LockInstance(_) => Write
    case ReadInstance(_) => Write
    case LeaveInstance(_, _) => Write
    case Apply(_, _) => Write
    case Scan(_) => Write
    case Await(_) => Write
    case Decide(_, m) => m
    case Cleanup(_, m, _) => m
    case _ => Free
  }

  function InstanceMode(pc: Pc): Mode {
    match pc
    case ReadInstance(_) => Read
    case LeaveInstance(_, _) => Read
    case UsbWrite(_) => Write
    case UsbUnlock => Write
    case _ => Free
  }

  /** The callback has claimed the scan and not yet sent it. */
  predicate Claimed(pc: Pc) {
    pc.HashName? || pc.FindInstance? || pc.LockInstance? || pc.ReadInstance? || pc.LeaveInstance? || pc.Apply? || pc.Scan?
  }

  function FileModes(s: State): map<Tid, Mode> { map t <- s.threads :: FileMode(s.threads[t]) }

  function InstanceModes(s: State): map<Tid, Mode> { map t <- s.threads :: InstanceMode(s.threads[t]) }

  /** The lock records exactly the access that the threads believe they have. */
  ghost predicate Agrees(l: Lock, modes: map<Tid, Mode>) {
    && Valid(l)
    && l.depth <= 1
    && (forall t: Tid :: l.owner == Some(t) <==> t in modes && modes[t] == Write)
    && (forall t: Tid :: t in l.readers <==> t in modes && modes[t] == Read)
    && (forall t <- l.readers :: l.readers[t] == 1)
  }

  /** Threads only ever hold the attached context, and prepare contexts of their own. */
  ghost predicate ContextsInv(s: State) {
    && (s.attached.Some? ==> s.attached.value < |s.contexts|)
    && (forall t <- s.threads | ContextOf(s.threads[t]).Some? :: s.attached == ContextOf(s.threads[t]))
    && (forall t <- s.threads | s.threads[t].Attach? :: s.threads[t].mine < |s.contexts|)
    && (forall i | 0 <= i < |s.contexts| && s.attached != Some(i) :: s.contexts[i] == Context(Unknown, false, FREE))
  }

  ghost predicate LocksInv(s: State)
    requires ContextsInv(s)
  {
    && Agrees(s.instanceLock, InstanceModes(s))
    && (s.attached.Some? ==> Agrees(s.contexts[s.attached.value].lock, FileModes(s)))
  }

  ghost predicate ScanInv(s: State)
    requires ContextsInv(s)
  {
    && s.scans <= 1
    && (forall t <- s.threads | Claimed(s.threads[t]) :: s.scans == 0)
    && (s.attached.None? ==> s.scans == 0)
    && (s.attached.Some? && s.contexts[s.attached.value].auth == Unknown ==>
          s.scans == 0 && forall t <- s.threads :: !Claimed(s.threads[t]))
    && (forall t <- s.threads | s.threads[t].LeaveInstance? || s.threads[t].Apply? ::
          s.threads[t].plan.Set? ==> s.threads[t].plan.auth != Unknown)
  }

  ghost predicate Inv(s: State) {
    ContextsInv(s) && LocksInv(s) && ScanInv(s)
  }

  // ---------------------------------------------------------------- every step keeps it

  lemma InitialInv(instanceAuth: Auth)
    ensures Inv(Initial(instanceAuth))
  {
  }

  /** A lock and a thread's access to it change together. */
  predicate LockStep(l: Lock, l': Lock, m: Mode, m': Mode, t: Tid) {
    || (l' == l && m' == m)
    || (l' == Share(l, t) && CanShare(l, t) && m == Free && m' == Read)
    || (l' == Own(l, t) && CanOwn(l, t) && m == Free && m' == Write)
    || (l' == Release(l, t) && m' == Free)
  }

  lemma AgreesAfterStep(l: Lock, l': Lock, modes: map<Tid, Mode>, t: Tid, m': Mode)
    requires Agrees(l, modes) && t in modes && LockStep(l, l', modes[t], m', t)
    ensures Agrees(l', modes[t := m'])
  {
    if l' == l && m' == modes[t] {
      assert modes[t := m'] == modes;
    }
  }

  lemma AgreesAfterArrival(l: Lock, modes: map<Tid, Mode>, t: Tid)
    requires Agrees(l, modes) && t !in modes
    ensures Agrees(l, modes[t := Free])
  {
  }

  /** A thread without access never waits for itself. */
  lemma MayAlwaysOwn(l: Lock, modes: map<Tid, Mode>, t: Tid)
    requires Agrees(l, modes) && t in modes && modes[t] == Free
    ensures MayOwn(l, t)
  {
  }

  lemma ModesOf(s: State, t: Tid)
    requires t in s.threads
    ensures t in FileModes(s) && FileModes(s)[t] == FileMode(s.threads[t])
    ensures t in InstanceModes(s) && InstanceModes(s)[t] == InstanceMode(s.threads[t])
  {
  }

  lemma ModesAfterGoto(s: State, s': State, t: Tid, pc: Pc)
    requires s'.threads == s.threads[t := pc]
    ensures FileModes(s') == FileModes(s)[t := FileMode(pc)]
    ensures InstanceModes(s') == InstanceModes(s)[t := InstanceMode(pc)]
  {
  }

  /** One step of a callback, seen by the callback alone. */
  lemma EffectFacts(pc: Pc, c: nat, ctx: Context, instanceAuth: Auth, il: Lock, t: Tid, ok: bool, reply: Auth)
    requires ContextOf(pc) == Some(c) && !Finished(pc)
    requires pc.LockRead? ==> CanShare(ctx.lock, t)
    requires pc.Upgrade? ==> MayOwn(ctx.lock, t) && CanOwn(ctx.lock, t)
    requires pc.LockInstance? ==> CanShare(il, t)
    requires pc.Await? && ok ==> reply != Unknown
    requires (pc.LeaveInstance? || pc.Apply?) && pc.plan.Set? ==> pc.plan.auth != Unknown
    requires Claimed(pc) ==> ctx.auth != Unknown
    ensures var e := EffectOf(pc, c, ctx, instanceAuth, il, t, ok, reply);
            && ContextOf(e.pc) == Some(c) && !e.pc.Attach?
            && LockStep(ctx.lock, e.ctx.lock, FileMode(pc), FileMode(e.pc), t)
            && LockStep(il, e.instanceLock, InstanceMode(pc), InstanceMode(e.pc), t)
            && (e.ctx.auth == Unknown ==> ctx.auth == Unknown && !Claimed(e.pc))
            && (Claimed(e.pc) ==> Claimed(pc) || ctx.auth == Unknown)
            && (e.sent ==> Claimed(pc) && !Claimed(e.pc))
            && ((e.pc.LeaveInstance? || e.pc.Apply?) && e.pc.plan.Set? ==> e.pc.plan.auth != Unknown)
  {
    hide Share, Own, Release, CanShare, CanOwn, MayOwn;
  }

  /** The facts about one step of a callback with a context, in terms of the whole state. */
  lemma LockedFacts(s: State, t: Tid, ok: bool, reply: Auth)
    requires Inv(s) && Enabled(s, Run(t, ok, reply)) && ContextOf(s.threads[t]).Some?
    ensures var c := s.attached.value;
            var ctx := s.contexts[c];
            var pc := s.threads[t];
            var e := EffectOf(pc, c, ctx, s.instanceAuth, s.instanceLock, t, ok, reply);
            && ContextOf(pc) == Some(c)
            && ContextOf(e.pc) == Some(c) && !e.pc.Attach?
            && LockStep(ctx.lock, e.ctx.lock, FileMode(pc), FileMode(e.pc), t)
            && LockStep(s.instanceLock, e.instanceLock, InstanceMode(pc), InstanceMode(e.pc), t)
            && (e.ctx.auth == Unknown ==> ctx.auth == Unknown && !Claimed(e.pc))
            && (Claimed(e.pc) ==> Claimed(pc) || ctx.auth == Unknown)
            && (e.sent ==> Claimed(pc) && !Claimed(e.pc))
            && ((e.pc.LeaveInstance? || e.pc.Apply?) && e.pc.plan.Set? ==> e.pc.plan.auth != Unknown)
  {
    hide EffectOf, Share, Own, Release, CanShare, CanOwn, MayOwn, Agrees, InstanceMode, LockStep, Claimed;
    var pc, ctx := s.threads[t], s.contexts[s.attached.value];
    if pc.Upgrade? {
      ModesOf(s, t);
      MayAlwaysOwn(ctx.lock, FileModes(s), t);
    }
    EffectFacts(pc, s.attached.value, ctx, s.instanceAuth, s.instanceLock, t, ok, reply);
  }

  lemma LockedContexts(s: State, t: Tid, ok: bool, reply: Auth)
    requires Inv(s) && Enabled(s, Run(t, ok, reply)) && ContextOf(s.threads[t]).Some?
    ensures ContextsInv(Next(s, Run(t, ok, reply)))
  {
    hide EffectOf, CanRun, LocksInv, ScanInv, LockStep, Claimed, FileMode, InstanceMode;
    LockedFacts(s, t, ok, reply);
  }

  lemma LockedLocks(s: State, t: Tid, ok: bool, reply: Auth)
    requires Inv(s) && Enabled(s, Run(t, ok, reply)) && ContextOf(s.threads[t]).Some?
    requires ContextsInv(Next(s, Run(t, ok, reply)))
    ensures LocksInv(Next(s, Run(t, ok, reply)))
  {
    hide EffectOf, CanRun, ScanInv, LockStep, Claimed, FileMode, InstanceMode, FileModes, InstanceModes, Agrees;
    LockedFacts(s, t, ok, reply);
    var c, s' := s.attached.value, Next(s, Run(t, ok, reply));
    ModesOf(s, t);
    ModesAfterGoto(s, s', t, s'.threads[t]);
    AgreesAfterStep(s.contexts[c].lock, s'.contexts[c].lock, FileModes(s), t, FileMode(s'.threads[t]));
    AgreesAfterStep(s.instanceLock, s'.instanceLock, InstanceModes(s), t, InstanceMode(s'.threads[t]));
  }

  lemma LockedScan(s: State, t: Tid, ok: bool, reply: Auth)
    requires Inv(s) && Enabled(s, Run(t, ok, reply)) && ContextOf(s.threads[t]).Some?
    requires ContextsInv(Next(s, Run(t, ok, reply)))
    ensures ScanInv(Next(s, Run(t, ok, reply)))
  {
    hide EffectOf, CanRun, LocksInv, LockStep, Claimed, FileMode, InstanceMode;
    LockedFacts(s, t, ok, reply);
    if Claimed(s.threads[t]) {
      OnlyOneClaim(s, t);
    }
  }

  lemma StepLockedKeeps(s: State, t: Tid, ok: bool, reply: Auth)
    requires Inv(s) && Enabled(s, Run(t, ok, reply)) && ContextOf(s.threads[t]).Some?
    ensures Inv(Next(s, Run(t, ok, reply)))
    ensures Next(s, Run(t, ok, reply)).attached == s.attached
  {
    LockedContexts(s, t, ok, reply);
    LockedLocks(s, t, ok, reply);
    LockedScan(s, t, ok, reply);
    hide ContextsInv, LocksInv, ScanInv, EffectOf, CanRun;
  }

  /** The scan is claimed under the exclusive lock, so by one thread at a time. */
  lemma OnlyOneClaim(s: State, t: Tid)
    requires Inv(s) && t in s.threads && Claimed(s.threads[t])
    ensures forall u <- s.threads | Claimed(s.threads[u]) :: u == t
  {
    var l := s.contexts[s.attached.value].lock;
    forall u <- s.threads | Claimed(s.threads[u])
      ensures l.owner == Some(u)
    {
      assert FileModes(s)[u] == Write;
    }
    assert l.owner == Some(t);
  }

  lemma ClaimedHasContext(pc: Pc)
    ensures Claimed(pc) ==> ContextOf(pc).Some?
  {}

  /** A thread that moves on without claiming, sending or planning anything leaves the scan as it is. */
  lemma ScanUnaffected(s: State, s': State, t: Tid)
    requires ContextsInv(s) && ScanInv(s) && ContextsInv(s') && t in s'.threads
    requires s'.threads == s.threads[t := s'.threads[t]] && s'.scans == s.scans
    requires !Claimed(s'.threads[t]) && !s'.threads[t].LeaveInstance? && !s'.threads[t].Apply?
    requires s.attached.Some? ==>
               s'.attached == s.attached && s'.contexts[s.attached.value].auth == s.contexts[s.attached.value].auth
    ensures ScanInv(s')
  {
    hide Claimed;
    if s.attached.None? {
      forall u <- s.threads
        ensures !Claimed(s.threads[u])
      {
        ClaimedHasContext(s.threads[u]);
      }
    }
  }

  lemma VolumeStepKeeps(s: State, t: Tid, ok: bool, reply: Auth)
    requires Inv(s) && Enabled(s, Run(t, ok, reply)) && InVolumeUpdate(s.threads[t])
    ensures Inv(Next(s, Run(t, ok, reply)))
    ensures Next(s, Run(t, ok, reply)).attached == s.attached
  {
    hide Own, Release, CanRun, MayOwn, LocksInv, ContextsInv, ScanInv, StepLocked;
    VolumeLocks(s, t, ok, reply);
    AttachedInRange(s);
    ScanUnaffected(s, Next(s, Run(t, ok, reply)), t);
  }

  lemma AttachedInRange(s: State)
    requires ContextsInv(s)
    ensures s.attached.Some? ==> s.attached.value < |s.contexts|
  {}

  lemma VolumeLocks(s: State, t: Tid, ok: bool, reply: Auth)
    requires Inv(s) && Enabled(s, Run(t, ok, reply)) && InVolumeUpdate(s.threads[t])
    ensures var s' := Next(s, Run(t, ok, reply)); ContextsInv(s') && LocksInv(s')
  {
    hide Share, Own, Release, CanShare, CanOwn, MayOwn, Agrees, StepLocked, FileModes, InstanceModes, ScanInv;
    var pc, s' := s.threads[t], Next(s, Run(t, ok, reply));
    ModesOf(s, t);
    ModesAfterGoto(s, s', t, s'.threads[t]);
    if pc.UsbLock? {
      MayAlwaysOwn(s.instanceLock, InstanceModes(s), t);
    }
    AgreesAfterStep(s.instanceLock, s'.instanceLock, InstanceModes(s), t, InstanceMode(s'.threads[t]));
    assert FileModes(s)[t := Free] == FileModes(s);
  }

  predicate InVolumeUpdate(pc: Pc) { pc.UsbLock? || pc.UsbWrite? || pc.UsbUnlock? }

  predicate Searching(pc: Pc) { pc.Start? || pc.Allocate? || pc.Attach? }

  /** Looking up, allocating or attaching a context: the first to attach wins. */
  lemma SearchStepKeeps(s: State, t: Tid, ok: bool, reply: Auth)
    requires Inv(s) && Enabled(s, Run(t, ok, reply)) && Searching(s.threads[t])
    ensures Inv(Next(s, Run(t, ok, reply)))
    ensures s.attached.Some? ==> Next(s, Run(t, ok, reply)).attached == s.attached
  {
    hide CanRun, LocksInv, ContextsInv, ScanInv, StepLocked;
    SearchContexts(s, t, ok, reply);
    SearchLocks(s, t, ok, reply);
    AttachedInRange(s);
    ScanUnaffected(s, Next(s, Run(t, ok, reply)), t);
  }

  lemma SearchContexts(s: State, t: Tid, ok: bool, reply: Auth)
    requires Inv(s) && Enabled(s, Run(t, ok, reply)) && Searching(s.threads[t])
    ensures ContextsInv(Next(s, Run(t, ok, reply)))
  {
    hide LocksInv, ScanInv, StepLocked, CanRun;
  }

  lemma SearchLocks(s: State, t: Tid, ok: bool, reply: Auth)
    requires Inv(s) && Enabled(s, Run(t, ok, reply)) && Searching(s.threads[t])
    requires ContextsInv(Next(s, Run(t, ok, reply)))
    ensures LocksInv(Next(s, Run(t, ok, reply)))
  {
    hide Agrees, ScanInv, StepLocked, CanRun, FileModes, InstanceModes;
    var s' := Next(s, Run(t, ok, reply));
    ModesOf(s, t);
    ModesAfterGoto(s, s', t, s'.threads[t]);
    assert FileModes(s)[t := Free] == FileModes(s) && InstanceModes(s)[t := Free] == InstanceModes(s);
    if s.attached.None? && s'.attached.Some? {
      NobodyLocks(s');
      FreshLockAgrees(s');
    }
  }

  /** Nobody has access to a lock of a context that was attached just now. */
  lemma NobodyLocks(s: State)
    requires forall t <- s.threads | ContextOf(s.threads[t]).Some? :: s.threads[t].LockRead?
    ensures forall t <- s.threads :: FileMode(s.threads[t]) == Free
  {}

  /** Before a context is attached no thread has any access to it. */
  lemma FreshLockAgrees(s: State)
    requires forall t <- s.threads :: FileMode(s.threads[t]) == Free
    ensures Agrees(FREE, FileModes(s))
  {
  }

  lemma {:induction false} NotifiedKeeps(s: State, list: seq<nat>, a: Auth)
    requires ContextsInv(s) && a != Unknown
    ensures var r := Notified(s.contexts, list, a);
            forall i | 0 <= i < |r| :: r[i] == s.contexts[i] || (s.attached == Some(i) && r[i] == s.contexts[i].(auth := a))
  {
    if list != [] {
      NotifiedKeeps(s, list[1..], a);
    }
  }

  lemma OtherStepKeeps(s: State, t: Tid, ok: bool, reply: Auth)
    requires Inv(s) && Enabled(s, Run(t, ok, reply)) && ContextOf(s.threads[t]).None?
    ensures Inv(Next(s, Run(t, ok, reply)))
    ensures s.attached.Some? ==> Next(s, Run(t, ok, reply)).attached == s.attached
  {
    hide Inv, Next;
    if Searching(s.threads[t]) {
      SearchStepKeeps(s, t, ok, reply);
    } else {
      VolumeStepKeeps(s, t, ok, reply);
    }
  }

  /** Every step of every thread, and every notification, keeps the invariant. */
  lemma StepKeepsInv(s: State, e: Event)
    requires Inv(s) && Enabled(s, e)
    ensures Inv(Next(s, e))
    ensures s.attached.Some? ==> Next(s, e).attached == s.attached
  {
    match e {
      case Create(t) => ArrivalKeeps(s, t, Start);
      case UpdateVolume(t, a) => ArrivalKeeps(s, t, UsbLock(a));
      case Notify(a) =>
        NotifiedKeeps(s, s.list, a);
        var s' := Next(s, e);
        assert FileModes(s') == FileModes(s) && InstanceModes(s') == InstanceModes(s);
      case Run(t, ok, reply) =>
        if ContextOf(s.threads[t]).Some? {
          StepLockedKeeps(s, t, ok, reply);
        } else {
          OtherStepKeeps(s, t, ok, reply);
        }
    }
  }

  lemma ArrivalKeeps(s: State, t: Tid, pc: Pc)
    requires Inv(s) && t !in s.threads && (pc.Start? || pc.UsbLock?)
    ensures Inv(s.(threads := s.threads[t := pc]))
  {
    hide Agrees;
    var s' := s.(threads := s.threads[t := pc]);
    ModesAfterGoto(s, s', t, pc);
    AgreesAfterArrival(s.instanceLock, InstanceModes(s), t);
    if s.attached.Some? {
      AgreesAfterArrival(s.contexts[s.attached.value].lock, FileModes(s), t);
    }
  }

  // ---------------------------------------------------------------- whole runs

  ghost predicate ValidRun(s: State, es: seq<Event>)
    decreases |es|
  {
    es == [] || (Enabled(s, es[0]) && ValidRun(Next(s, es[0]), es[1..]))
  }

  ghost function After(s: State, es: seq<Event>): State
    requires ValidRun(s, es)
    decreases |es|
  {
    if es == [] then s else After(Next(s, es[0]), es[1..])
  }

  lemma {:induction false} RunKeepsInv(s: State, es: seq<Event>)
    requires Inv(s) && ValidRun(s, es)
    ensures Inv(After(s, es))
    ensures s.attached.Some? ==> After(s, es).attached == s.attached
    decreases |es|
  {
    if es != [] {
      StepKeepsInv(s, es[0]);
      RunKeepsInv(Next(s, es[0]), es[1..]);
    }
  }

  /**
   * After any run: all callbacks that obtained a context have the same, attached one; the
   * user-mode scan was sent at most once; a finished callback holds neither lock; and once
   * all threads have finished both locks are free.
   */
  lemma ProtocolIsSafe(instanceAuth: Auth, es: seq<Event>)
    requires ValidRun(Initial(instanceAuth), es)
    ensures var s := After(Initial(instanceAuth), es);
            && (forall t <- s.threads | ContextOf(s.threads[t]).Some? :: ContextOf(s.threads[t]) == s.attached)
            && s.scans <= 1
            && (s.attached.Some? ==> s.attached.value < |s.contexts|)
            && (forall t <- s.threads | Finished(s.threads[t]) && s.attached.Some? ::
                  !HeldAtAll(s.contexts[s.attached.value].lock, t))
            && (forall t <- s.threads | Finished(s.threads[t]) :: !HeldAtAll(s.instanceLock, t))
            && ((forall t <- s.threads :: Finished(s.threads[t])) ==>
                  s.instanceLock == FREE && (s.attached.Some? ==> s.contexts[s.attached.value].lock == FREE))
  {
    hide Agrees, ValidRun, After, Initial;
    InitialInv(instanceAuth);
    RunKeepsInv(Initial(instanceAuth), es);
    var s := After(Initial(instanceAuth), es);
    FinishedHoldsNothing(s.instanceLock, InstanceModes(s), s);
    if s.attached.Some? {
      FinishedHoldsNothing(s.contexts[s.attached.value].lock, FileModes(s), s);
    }
  }

  lemma FinishedHoldsNothing(l: Lock, modes: map<Tid, Mode>, s: State)
    requires Agrees(l, modes) && (modes == FileModes(s) || modes == InstanceModes(s))
    requires forall t <- s.threads | s.threads[t].Done? || s.threads[t].UsbDone? :: modes[t] == Free
    ensures forall t <- s.threads | Finished(s.threads[t]) :: !HeldAtAll(l, t)
    ensures (forall t <- s.threads :: Finished(s.threads[t])) ==> l == FREE
  {
    if forall t <- s.threads :: Finished(s.threads[t]) {
      AllFreeIsFree(l, modes);
    }
  }

  lemma AllFreeIsFree(l: Lock, modes: map<Tid, Mode>)
    requires Agrees(l, modes) && forall t <- modes :: modes[t] == Free
    ensures l == FREE
  {
    assert l.readers.Keys == {};
  }

  /** Once known, the authorization of the attached context never becomes unknown again. */
  lemma {:induction false} AuthorizationIsNeverForgotten(s: State, es: seq<Event>)
    requires Inv(s) && ValidRun(s, es)
    requires s.attached.Some? && s.contexts[s.attached.value].auth != Unknown
    ensures Inv(After(s, es)) && After(s, es).attached == s.attached
    ensures After(s, es).contexts[s.attached.value].auth != Unknown
    decreases |es|
  {
    hide Agrees, Claimed, LockStep;
    if es != [] {
      var c, e := s.attached.value, es[0];
      StepKeepsInv(s, e);
      match e {
        case Notify(a) => NotifiedKeeps(s, s.list, a);
        case Run(t, ok, reply) =>
          if ContextOf(s.threads[t]).Some? && s.threads[t].Upgrade? {
            assert FileModes(s)[t] == Free;
            MayAlwaysOwn(s.contexts[c].lock, FileModes(s), t);
          }
          if ContextOf(s.threads[t]).Some? {
            EffectFacts(s.threads[t], c, s.contexts[c], s.instanceAuth, s.instanceLock, t, ok, reply);
          }
        case _ =>
      }
      AuthorizationIsNeverForgotten(Next(s, e), es[1..]);
    }
  }

  /** The callback waits for the answer to a scan, or is about to decide. */
  predicate Deciding(pc: Pc) { pc.Await? || pc.Decide? }

  ghost predicate DecisionInv(s: State)
    requires ContextsInv(s)
  {
    forall t <- s.threads | Deciding(s.threads[t]) :: s.contexts[s.attached.value].auth != Unknown
  }

  lemma DecidingFacts(pc: Pc, c: nat, ctx: Context, instanceAuth: Auth, il: Lock, t: Tid, ok: bool, reply: Auth)
    requires ContextOf(pc) == Some(c) && (Deciding(pc) ==> ctx.auth != Unknown)
    requires pc.Await? && ok ==> reply != Unknown
    requires pc.Apply? && pc.plan.Set? ==> pc.plan.auth != Unknown
    ensures var e := EffectOf(pc, c, ctx, instanceAuth, il, t, ok, reply); Deciding(e.pc) ==> e.ctx.auth != Unknown
  {
    hide Share, Own, Release, MayOwn;
  }

  lemma StepKeepsDecision(s: State, e: Event)
    requires Inv(s) && DecisionInv(s) && Enabled(s, e) && ContextsInv(Next(s, e))
    ensures DecisionInv(Next(s, e))
  {
    hide LocksInv, EffectOf, CanRun, Notified, Deciding, Claimed, FileMode, InstanceMode, LockStep;
    forall t <- s.threads
      ensures Deciding(s.threads[t]) ==> s.attached.Some? && s.attached.value < |s.contexts|
    {
      DecidingHasContext(s.threads[t]);
    }
    match e {
      case Create(t) => assert !Deciding(Start) by { NotDeciding(); }
      case UpdateVolume(t, a) => assert !Deciding(UsbLock(a)) by { NotDeciding(); }
      case Notify(a) =>
        NotifiedKeeps(s, s.list, a);
      case Run(t, ok, reply) =>
        if ContextOf(s.threads[t]).Some? {
          LockedFacts(s, t, ok, reply);
          var c := s.attached.value;
          DecidingFacts(s.threads[t], c, s.contexts[c], s.instanceAuth, s.instanceLock, t, ok, reply);
        } else {
          OtherDecides(s, t, ok);
        }
    }
  }

  lemma DecidingHasContext(pc: Pc)
    ensures Deciding(pc) ==> ContextOf(pc).Some?
  {}

  lemma NotDeciding()
    ensures !Deciding(Start) && forall a :: !Deciding(UsbLock(a))
  {}

  lemma OtherDecides(s: State, t: Tid, ok: bool)
    requires t in s.threads && ContextOf(s.threads[t]).None?
    requires s.attached.Some? ==> s.attached.value < |s.contexts|
    ensures var s' := StepOther(s, t, ok);
            && t in s'.threads && s'.threads == s.threads[t := s'.threads[t]] && !Deciding(s'.threads[t])
            && (s.attached.Some? ==>
                  s'.attached == s.attached && |s'.contexts| >= |s.contexts|
                  && s'.contexts[s.attached.value] == s.contexts[s.attached.value])
  {
    hide Own, Release, MayOwn;
  }

  /**
   * In every reachable state a callback that decides does so on an authorization that is not
   * unknown any more. It may still be pending.
   */
  lemma {:induction false} DecisionIsNeverUnknown(s: State, es: seq<Event>)
    requires Inv(s) && DecisionInv(s) && ValidRun(s, es)
    ensures Inv(After(s, es)) && DecisionInv(After(s, es))
    decreases |es|
  {
    hide Inv, DecisionInv, Enabled, Next;
    if es != [] {
      StepKeepsInv(s, es[0]);
      InvHasContexts(Next(s, es[0]));
      StepKeepsDecision(s, es[0]);
      DecisionIsNeverUnknown(Next(s, es[0]), es[1..]);
    }
  }

  lemma InvHasContexts(s: State)
    requires Inv(s)
    ensures ContextsInv(s)
  {}

  // ---------------------------------------------------------------- progress

  /** In every reachable state with an unfinished thread some thread can take a step. */
  lemma NoDeadlock(s: State, t: Tid) returns (u: Tid)
    requires Inv(s) && t in s.threads && !Finished(s.threads[t])
    ensures u in s.threads && CanRun(s, u)
  {
    u := t;
    var pc := s.threads[t];
    if !CanRun(s, t) {
      if pc.LockRead? || pc.Upgrade? {
        u := FileLockHolder(s, t);
      }
      if s.threads[u].LockInstance? || s.threads[u].UsbLock? {
        u := InstanceLockHolder(s, u);
      }
    }
  }

  /** A thread waiting for the file's lock waits for one that does not. */
  lemma FileLockHolder(s: State, t: Tid) returns (u: Tid)
    requires Inv(s) && t in s.threads && (s.threads[t].LockRead? || s.threads[t].Upgrade?) && !CanRun(s, t)
    ensures u in s.threads && FileMode(s.threads[u]) != Free
    ensures CanRun(s, u) || s.threads[u].LockInstance?
  {
    u := SomeHolder(s, t);
    HolderRuns(s, u);
  }

  lemma SomeHolder(s: State, t: Tid) returns (u: Tid)
    requires Inv(s) && t in s.threads && (s.threads[t].LockRead? || s.threads[t].Upgrade?) && !CanRun(s, t)
    ensures u in s.threads && FileMode(s.threads[u]) != Free
  {
    hide ScanInv, Valid, FileMode, InstanceModes;
    var l := s.contexts[s.attached.value].lock;
    if l.owner.Some? {
      u := l.owner.value;
    } else {
      assert l.readers != map[];
      u :| u in l.readers;
    }
    assert u in FileModes(s) && FileModes(s)[u] != Free;
  }

  lemma HolderRuns(s: State, u: Tid)
    requires Inv(s) && u in s.threads && FileMode(s.threads[u]) != Free
    ensures CanRun(s, u) || s.threads[u].LockInstance?
  {
    hide LocksInv, ScanInv, CanShare, CanOwn, MayOwn;
  }

  /** The instance's lock is taken last, so its holders never wait. */
  lemma InstanceLockHolder(s: State, t: Tid) returns (u: Tid)
    requires Inv(s) && t in s.threads && (s.threads[t].LockInstance? || s.threads[t].UsbLock?)
    ensures u in s.threads && CanRun(s, u)
  {
    var l := s.instanceLock;
    if CanRun(s, t) {
      u := t;
    } else if l.owner.Some? {
      u := l.owner.value;
      assert InstanceModes(s)[u] == Write;
    } else {
      assert l.readers != map[];
      u :| u in l.readers;
      assert InstanceModes(s)[u] == Read;
    }
  }

  /** The number of steps a thread still has at most. */
  function StepsLeft(pc: Pc): nat {
    match pc
    case Start => 17
    case Allocate => 16
    case Attach(_) => 15
    case LockRead(_) => 14
    case CheckRead(_) => 13
    case Upgrade(_) => 12
    case CheckWrite(_) => 11
    case HashName(_) => 10
    case FindInstance(_) => 9
    case LockInstance(_) => 8
    case ReadInstance(_) => 7
    case LeaveInstance(_, _) => 6
    case Apply(_, _) => 5
    case Scan(_) => 4
    case Await(_) => 3
    case Decide(_, _) => 2
    case Cleanup(_, _, _) => 1
    case Done(_, _) => 0
    case UsbLock(_) => 3
    case UsbWrite(_) => 2
    case UsbUnlock => 1
    case UsbDone => 0
  }

  function StepsOf(es: seq<Event>, t: Tid): nat {
    if es == [] then 0
    else (if es[0].Run? && es[0].t == t then 1 else 0) + StepsOf(es[1..], t)
  }

  lemma StepTaken(s: State, e: Event, t: Tid)
    requires t in s.threads && Enabled(s, e)
    ensures t in Next(s, e).threads
    ensures StepsLeft(Next(s, e).threads[t]) + StepsOf([e], t) <= StepsLeft(s.threads[t])
  {
    hide StepsLeft, EffectOf, StepOther, Notified, CanShare, CanOwn, MayOwn;
    assert [e][1..] == [];
    if e.Run? && e.t == t {
      if ContextOf(s.threads[t]).Some? {
        EffectTakesStep(s.threads[t], s.contexts[ContextOf(s.threads[t]).value], s.instanceAuth, s.instanceLock, t, e.ok, e.reply);
      } else {
        OtherTakesStep(s, t, e.ok);
      }
    } else if e.Run? {
      OtherTakesStep(s, e.t, e.ok);
    }
  }

  lemma OtherTakesStep(s: State, t: Tid, ok: bool)
    requires t in s.threads && !Finished(s.threads[t])
    ensures var s' := StepOther(s, t, ok);
            && t in s'.threads
            && (ContextOf(s.threads[t]).None? ==> StepsLeft(s'.threads[t]) < StepsLeft(s.threads[t]))
            && forall u <- s.threads | u != t :: u in s'.threads && s'.threads[u] == s.threads[u]
  {
    hide Own, Release, MayOwn;
  }

  lemma EffectTakesStep(pc: Pc, ctx: Context, instanceAuth: Auth, il: Lock, t: Tid, ok: bool, reply: Auth)
    requires ContextOf(pc).Some? && !Finished(pc)
    ensures StepsLeft(EffectOf(pc, ContextOf(pc).value, ctx, instanceAuth, il, t, ok, reply).pc) < StepsLeft(pc)
  {
    hide Share, Own, Release, MayOwn;
  }

  /** In any run a create callback takes at most 17 steps, and a volume update at most 3. */
  lemma {:induction false} CallbacksAreBounded(s: State, es: seq<Event>, t: Tid)
    requires ValidRun(s, es) && t in s.threads
    ensures t in After(s, es).threads
    ensures StepsOf(es, t) + StepsLeft(After(s, es).threads[t]) <= StepsLeft(s.threads[t])
    decreases |es|
  {
    if es != [] {
      hide Enabled, Next, StepsLeft;
      StepTaken(s, es[0], t);
      assert [es[0]][1..] == [];
      CallbacksAreBounded(Next(s, es[0]), es[1..], t);
    }
  }
}
