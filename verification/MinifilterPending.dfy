/**
 * What a create callback of the minifilter decides on, told by the history of the run: what the
 * volume was worth when it was read, the answers of the daemon, its notifications, and failures.
 * The code marks unknown and pending together as states that should not happen at the decision:
 * unknown never does, pending does, and the file is then let through.
 */
module MinifilterPending {
  import opened Wrappers
  import opened Resource
  import opened Minifilter

  /** What last settled, or failed to settle, the authorization of the attached context. */
  datatype Cause =
    | Fresh
    | Claim
    | HashFailed
    | LookupFailed
    | Volume(auth: Auth)
    | Sent
    | SendFailed
    | ReplyFailed
    | Reply(auth: Auth)
    | Notice(auth: Auth)

  /** The cause, what the volume is worth now, and what it was worth when a callback last read it. */
  datatype History = History(cause: Cause, volume: Auth, read: Auth)

  /** A volume that lets everything pass lets the file be read, any other that decides by itself blocks it. */
  function AuthOf(cause: Cause): Auth {
    match cause
    case Fresh => Unknown
    case Volume(a) => if a == AllowAll then AllowRead else Block
    case Reply(a) => a
    case Notice(a) => a
    case _ => Pending
  }

  /** The volume leaves the decision on its files to the daemon. */
  predicate Asks(a: Auth) { a == AllowRead || a == AllowWarning }

  /** The work on the file ended without a value, or the value given is itself pending. */
  predicate Unsettled(cause: Cause) {
    || cause.HashFailed? || cause.LookupFailed? || cause.SendFailed? || cause.ReplyFailed?
    || cause == Reply(Pending) || cause == Notice(Pending)
  }

  /** The volume, the daemon's answer or its notification says no. */
  predicate Refuses(cause: Cause) {
    (cause.Volume? && cause.auth != AllowAll) || cause == Reply(Block) || cause == Notice(Block)
  }

  /** The context that a notification finds: the first of the list whose identifier is known. */
  function Target(contexts: seq<Context>, list: seq<nat>): Option<nat> {
    if list == [] then None
    else if list[0] < |contexts| && contexts[list[0]].named then Some(list[0])
    else Target(contexts, list[1..])
  }

  /** The step of a callback at `pc` that finds the authorization `known`. */
  function HistoryOfStep(h: History, pc: Pc, known: Auth, ok: bool, reply: Auth): History {
    match pc
    case CheckWrite(_) => if known == Unknown then h.(cause := Claim) else h
    case HashName(_) => if !ok && h.cause.Claim? then h.(cause := HashFailed) else h
    case FindInstance(_) => if !ok && h.cause.Claim? then h.(cause := LookupFailed) else h
    case ReadInstance(_) => h.(read := h.volume)
    case Apply(_, _) => if Asks(h.read) then h else h.(cause := Volume(h.read))
    case Scan(_) => h.(cause := if ok then Sent else SendFailed)
    case Await(_) => if ok then h.(cause := Reply(reply)) else if h.cause.Sent? then h.(cause := ReplyFailed) else h
    case _ => h
  }

  function HistoryAfter(s: State, e: Event, h: History): History
    requires Enabled(s, e)
  {
    match e
    case Notify(a) => if Target(s.contexts, s.list).Some? then h.(cause := Notice(a)) else h
    case Run(t, ok, reply) =>
      if ContextOf(s.threads[t]).Some?
      then HistoryOfStep(h, s.threads[t], s.contexts[ContextOf(s.threads[t]).value].auth, ok, reply)
      else if s.threads[t].UsbWrite? then h.(volume := s.threads[t].auth)
      else h
    case _ => h
  }

  ghost function HistoryOf(s: State, es: seq<Event>, h: History): History
    requires ValidRun(s, es)
    decreases |es|
  {
    if es == [] then h else HistoryOf(Next(s, es[0]), es[1..], HistoryAfter(s, es[0], h))
  }

  /** The history of a run from the start. */
  ghost function Told(instanceAuth: Auth, es: seq<Event>): History
    requires ValidRun(Initial(instanceAuth), es)
  {
    HistoryOf(Initial(instanceAuth), es, History(Fresh, instanceAuth, Unknown))
  }

  // ---------------------------------------------------------------- the history explains the state

  predicate SomeClaimed(s: State) { exists t <- s.threads :: Claimed(s.threads[t]) }

  predicate SomeAwaits(s: State) { exists t <- s.threads :: s.threads[t].Await? }

  /** What a thread remembers of the volume is what the history says was read. */
  predicate Remembers(pc: Pc, read: Auth) {
    match pc
    case LeaveInstance(_, plan) => Fitting(plan, read)
    case Apply(_, plan) => Fitting(plan, read)
    case Scan(_) => Asks(read)
    case Decide(_, mode) => mode != Free
    case _ => true
  }

  predicate Fitting(plan: Plan, read: Auth) {
    if Asks(read) then plan.Ask? else plan == Plan.Set(AuthOf(Volume(read)))
  }

  ghost predicate HistoryInv(s: State, h: History)
    requires ContextsInv(s)
  {
    && s.instanceAuth == h.volume
    && AuthOf(h.cause) == (if s.attached.Some? then s.contexts[s.attached.value].auth else Unknown)
    && (h.cause.Claim? ==> SomeClaimed(s))
    && (h.cause.Sent? ==> SomeAwaits(s))
    && (h.cause.Volume? ==> !Asks(h.cause.auth))
    && (forall t <- s.threads :: Remembers(s.threads[t], h.read))
  }

  /** One step of a callback, seen by the callback alone. */
  lemma HistoryEffect(h: History, pc: Pc, c: nat, ctx: Context, il: Lock, t: Tid, ok: bool, reply: Auth)
    requires ContextOf(pc) == Some(c) && !Finished(pc) && AuthOf(h.cause) == ctx.auth && Remembers(pc, h.read)
    requires h.cause.Volume? ==> !Asks(h.cause.auth)
    ensures var e := EffectOf(pc, c, ctx, h.volume, il, t, ok, reply);
            var h' := HistoryOfStep(h, pc, ctx.auth, ok, reply);
            && AuthOf(h'.cause) == e.ctx.auth && h'.volume == h.volume
            && (h'.cause.Volume? ==> !Asks(h'.cause.auth))
            && (h'.read != h.read ==> pc.ReadInstance?)
  {
    hide Share, Own, Release, MayOwn;
  }

  lemma MemoryEffect(h: History, pc: Pc, c: nat, ctx: Context, il: Lock, t: Tid, ok: bool, reply: Auth)
    requires ContextOf(pc) == Some(c) && !Finished(pc) && Remembers(pc, h.read)
    ensures Remembers(EffectOf(pc, c, ctx, h.volume, il, t, ok, reply).pc, HistoryOfStep(h, pc, ctx.auth, ok, reply).read)
  {
    hide Share, Own, Release, MayOwn;
  }

  lemma ClaimEffect(h: History, pc: Pc, c: nat, ctx: Context, il: Lock, t: Tid, ok: bool, reply: Auth)
    requires ContextOf(pc) == Some(c) && !Finished(pc) && Remembers(pc, h.read)
    ensures var e := EffectOf(pc, c, ctx, h.volume, il, t, ok, reply);
            var h' := HistoryOfStep(h, pc, ctx.auth, ok, reply);
            && (h'.cause.Claim? ==> Claimed(e.pc) || (h.cause.Claim? && !Claimed(pc)))
            && (h'.cause.Sent? ==> e.pc.Await? || (h.cause.Sent? && !pc.Await?))
  {
    hide Share, Own, Release, MayOwn, AuthOf;
  }

  lemma TargetIsNotified(s: State, list: seq<nat>, a: Auth)
    requires ContextsInv(s)
    ensures Target(s.contexts, list).Some? ==> Target(s.contexts, list) == s.attached
    ensures Notified(s.contexts, list, a) ==
            if Target(s.contexts, list).None? then s.contexts
            else s.contexts[s.attached.value := s.contexts[s.attached.value].(auth := a)]
  {}

  lemma ClaimPersists(s: State, s': State, t: Tid)
    requires t in s.threads && t in s'.threads && s'.threads == s.threads[t := s'.threads[t]]
    ensures SomeClaimed(s) && !Claimed(s.threads[t]) ==> SomeClaimed(s')
    ensures Claimed(s'.threads[t]) ==> SomeClaimed(s')
    ensures SomeAwaits(s) && !s.threads[t].Await? ==> SomeAwaits(s')
    ensures s'.threads[t].Await? ==> SomeAwaits(s')
  {
    hide Claimed;
    if SomeClaimed(s) && !Claimed(s.threads[t]) {
      var u :| u in s.threads && Claimed(s.threads[u]);
      assert u in s'.threads && s'.threads[u] == s.threads[u];
    }
    if SomeAwaits(s) && !s.threads[t].Await? {
      var u :| u in s.threads && s.threads[u].Await?;
      assert u in s'.threads && s'.threads[u] == s.threads[u];
    }
  }

  lemma RunningIsUnfinished(s: State, t: Tid)
    requires t in s.threads && CanRun(s, t)
    ensures !Finished(s.threads[t])
  {}

  /** Only the claimer reads the volume, so nobody else's memory is out of date. */
  lemma OthersRemember(s: State, t: Tid, read: Auth, read': Auth)
    requires Inv(s) && t in s.threads && (read' != read ==> s.threads[t].ReadInstance?)
    requires forall u <- s.threads :: Remembers(s.threads[u], read)
    ensures forall u <- s.threads | u != t :: Remembers(s.threads[u], read')
  {
    hide LocksInv, ScanInv, Fitting;
    if read' != read {
      OnlyOneClaim(s, t);
    }
  }

  lemma LockedStepKeepsHistory(s: State, t: Tid, ok: bool, reply: Auth, h: History)
    requires Inv(s) && HistoryInv(s, h) && Enabled(s, Run(t, ok, reply)) && ContextOf(s.threads[t]).Some?
    requires ContextsInv(Next(s, Run(t, ok, reply)))
    ensures HistoryInv(Next(s, Run(t, ok, reply)), HistoryAfter(s, Run(t, ok, reply), h))
  {
    hide EffectOf, CanRun, LocksInv, ScanInv, Claimed, HistoryOfStep, AuthOf, SomeClaimed, SomeAwaits, Remembers, Asks;
    var c, s' := s.attached.value, Next(s, Run(t, ok, reply));
    RunningIsUnfinished(s, t);
    HistoryEffect(h, s.threads[t], c, s.contexts[c], s.instanceLock, t, ok, reply);
    MemoryEffect(h, s.threads[t], c, s.contexts[c], s.instanceLock, t, ok, reply);
    ClaimEffect(h, s.threads[t], c, s.contexts[c], s.instanceLock, t, ok, reply);
    ClaimPersists(s, s', t);
    OthersRemember(s, t, h.read, HistoryAfter(s, Run(t, ok, reply), h).read);
  }

  /** Without a context a thread plans nothing and decides nothing; only the volume update changes the volume. */
  lemma OtherMoves(s: State, t: Tid, ok: bool, read: Auth)
    requires t in s.threads && ContextOf(s.threads[t]).None? && (s.attached.Some? ==> s.attached.value < |s.contexts|)
    ensures var s' := StepOther(s, t, ok);
            && t in s'.threads && s'.threads == s.threads[t := s'.threads[t]] && Remembers(s'.threads[t], read)
            && s'.instanceAuth == (if s.threads[t].UsbWrite? then s.threads[t].auth else s.instanceAuth)
            && (s.attached.Some? ==>
                  s'.attached == s.attached && |s'.contexts| >= |s.contexts|
                  && s'.contexts[s.attached.value] == s.contexts[s.attached.value])
            && (s.attached.None? && s'.attached.Some? ==>
                  s.threads[t].Attach? && s'.attached == Some(s.threads[t].mine) && s'.contexts == s.contexts)
  {
    hide Own, Release, MayOwn, Fitting, Asks;
  }

  lemma OtherStepKeepsHistory(s: State, t: Tid, ok: bool, reply: Auth, h: History)
    requires Inv(s) && HistoryInv(s, h) && Enabled(s, Run(t, ok, reply)) && ContextOf(s.threads[t]).None?
    requires ContextsInv(Next(s, Run(t, ok, reply)))
    ensures HistoryInv(Next(s, Run(t, ok, reply)), HistoryAfter(s, Run(t, ok, reply), h))
  {
    hide CanRun, LocksInv, ScanInv, Claimed, AuthOf, SomeClaimed, SomeAwaits, StepOther, StepLocked, Remembers, Asks;
    ClaimedHasContext(s.threads[t]);
    OtherMoves(s, t, ok, h.read);
    ClaimPersists(s, Next(s, Run(t, ok, reply)), t);
    if s.attached.None? {
      UnknownIsFresh();
    }
  }

  lemma UnknownIsFresh()
    ensures AuthOf(Fresh) == Unknown
  {}

  lemma ArrivalKeepsHistory(s: State, t: Tid, pc: Pc, h: History)
    requires Inv(s) && HistoryInv(s, h) && t !in s.threads && (pc.Start? || pc.UsbLock?)
    requires ContextsInv(s.(threads := s.threads[t := pc]))
    ensures HistoryInv(s.(threads := s.threads[t := pc]), h)
  {
    hide LocksInv, ScanInv, Claimed, AuthOf, Fitting, Asks;
    var s' := s.(threads := s.threads[t := pc]);
    if SomeClaimed(s) {
      var u :| u in s.threads && Claimed(s.threads[u]);
      assert s'.threads[u] == s.threads[u];
    }
    if SomeAwaits(s) {
      var u :| u in s.threads && s.threads[u].Await?;
      assert s'.threads[u] == s.threads[u];
    }
  }

  lemma StepKeepsHistory(s: State, e: Event, h: History)
    requires Inv(s) && HistoryInv(s, h) && Enabled(s, e) && ContextsInv(Next(s, e))
    ensures HistoryInv(Next(s, e), HistoryAfter(s, e, h))
  {
    match e {
      case Create(t) => ArrivalKeepsHistory(s, t, Start, h);
      case UpdateVolume(t, a) => ArrivalKeepsHistory(s, t, UsbLock(a), h);
      case Notify(a) =>
        hide LocksInv, ScanInv, Notified, SomeClaimed, SomeAwaits, Remembers;
        TargetIsNotified(s, s.list, a);
        assert SomeClaimed(Next(s, e)) == SomeClaimed(s) && SomeAwaits(Next(s, e)) == SomeAwaits(s) by {
          SameThreads(s, Next(s, e));
        }
      case Run(t, ok, reply) =>
        hide LocksInv, ScanInv, HistoryInv, Inv, CanRun, StepLocked, StepOther;
        if ContextOf(s.threads[t]).Some? {
          LockedStepKeepsHistory(s, t, ok, reply, h);
        } else {
          OtherStepKeepsHistory(s, t, ok, reply, h);
        }
    }
  }

  lemma SameThreads(s: State, s': State)
    requires s'.threads == s.threads
    ensures SomeClaimed(s') == SomeClaimed(s) && SomeAwaits(s') == SomeAwaits(s)
  {}

  lemma {:induction false} RunKeepsHistory(s: State, es: seq<Event>, h: History)
    requires Inv(s) && HistoryInv(s, h) && ValidRun(s, es)
    ensures Inv(After(s, es)) && HistoryInv(After(s, es), HistoryOf(s, es, h))
    decreases |es|
  {
    hide Inv, HistoryInv, Enabled, Next, HistoryAfter;
    if es != [] {
      StepKeepsInv(s, es[0]);
      InvHasContexts(Next(s, es[0]));
      StepKeepsHistory(s, es[0], h);
      RunKeepsHistory(Next(s, es[0]), es[1..], HistoryAfter(s, es[0], h));
    }
  }

  lemma InitialHistory(instanceAuth: Auth)
    ensures HistoryInv(Initial(instanceAuth), History(Fresh, instanceAuth, Unknown))
  {}

  lemma WriterOwns(s: State, u: Tid)
    requires Inv(s) && u in s.threads && s.attached.Some? && FileMode(s.threads[u]) == Write
    ensures s.contexts[s.attached.value].lock.owner == Some(u)
  {
    hide ScanInv, Valid, FileMode;
    assert FileModes(s)[u] == Write;
  }

  lemma HolderExcludesOwners(s: State, t: Tid)
    requires Inv(s) && t in s.threads && s.attached.Some? && FileMode(s.threads[t]) != Free
    ensures var l := s.contexts[s.attached.value].lock; l.owner.Some? ==> l.owner == Some(t)
  {
    hide ScanInv, FileMode;
    assert FileModes(s)[t] != Free;
  }

  lemma WorkersWrite(pc: Pc)
    ensures Claimed(pc) || pc.Await? ==> FileMode(pc) == Write
  {}

  /** While a callback that is not itself at work holds the lock, nobody is at work on the file. */
  lemma HolderIsAlone(s: State, t: Tid)
    requires Inv(s) && t in s.threads && ContextOf(s.threads[t]).Some? && FileMode(s.threads[t]) != Free
    ensures forall u <- s.threads | u != t :: !Claimed(s.threads[u]) && !s.threads[u].Await?
    ensures !Claimed(s.threads[t]) && !s.threads[t].Await? ==> !SomeClaimed(s) && !SomeAwaits(s)
  {
    hide LocksInv, ScanInv, Claimed, FileMode;
    HolderExcludesOwners(s, t);
    forall u <- s.threads | u != t
      ensures !Claimed(s.threads[u]) && !s.threads[u].Await?
    {
      WorkersWrite(s.threads[u]);
      if FileMode(s.threads[u]) == Write {
        WriterOwns(s, u);
      }
    }
  }

  // ---------------------------------------------------------------- decisions

  /**
   * In any run, whatever was interleaved, notified or failed: a callback denies the open exactly
   * when the volume that was read blocks its files, or the last word of the daemon, its answer
   * or a notification, was to block. It decides on a pending authorization exactly when the
   * name hash, the instance lookup, the request or its reply failed last, or the last word of
   * the daemon was pending; the file is then let through.
   */
  lemma DecisionExactly(instanceAuth: Auth, es: seq<Event>, t: Tid)
    requires ValidRun(Initial(instanceAuth), es)
    requires var s := After(Initial(instanceAuth), es); t in s.threads && s.threads[t].Decide?
    ensures var s, cause := After(Initial(instanceAuth), es), Told(instanceAuth, es).cause;
            && s.attached.Some? && s.attached.value < |s.contexts|
            && Enabled(s, Run(t, true, Unknown))
            && var pc := Next(s, Run(t, true, Unknown)).threads[t];
               && pc.Cleanup? && (pc.denied <==> Refuses(cause))
               && (s.contexts[s.attached.value].auth == Pending <==> Unsettled(cause))
  {
    hide ValidRun, After, HistoryOf, Inv, HistoryInv;
    InitialInv(instanceAuth);
    InitialHistory(instanceAuth);
    RunKeepsHistory(Initial(instanceAuth), es, History(Fresh, instanceAuth, Unknown));
    var s := After(Initial(instanceAuth), es);
    InvHasContexts(s);
    DecisionStep(s, Told(instanceAuth, es), t);
  }

  lemma DecisionStep(s: State, h: History, t: Tid)
    requires Inv(s) && HistoryInv(s, h) && t in s.threads && s.threads[t].Decide?
    ensures s.attached.Some? && s.attached.value < |s.contexts|
    ensures Enabled(s, Run(t, true, Unknown))
    ensures var pc := Next(s, Run(t, true, Unknown)).threads[t];
            && pc.Cleanup? && (pc.denied <==> Refuses(h.cause))
            && (s.contexts[s.attached.value].auth == Pending <==> Unsettled(h.cause))
  {
    hide LocksInv, ScanInv, SomeClaimed, SomeAwaits;
    assert Remembers(s.threads[t], h.read);
    HolderIsAlone(s, t);
  }

  // ---------------------------------------------------------------- such a run

  predicate Leads(s: State, e: Event, s': State) {
    Enabled(s, e) && Next(s, e) == s'
  }

  lemma RunMore(s: State, es: seq<Event>, e: Event, s': State)
    requires ValidRun(s, es) && Leads(After(s, es), e, s')
    ensures ValidRun(s, es + [e]) && After(s, es + [e]) == s'
    decreases |es|
  {
    hide Enabled, Next;
    if es == [] {
      assert [] + [e] == [e] && [e][1..] == [];
    } else {
      assert (es + [e])[1..] == es[1..] + [e] && (es + [e])[0] == es[0];
      RunMore(Next(s, es[0]), es[1..], e, s');
    }
  }

  function Step(t: Tid, ok: bool): Event { Run(t, ok, Unknown) }

  /** The first callback, whose name hash fails. */
  const FAILS: seq<Event> := [
    Create(0), Step(0, true), Step(0, true), Step(0, true), Step(0, true),
    Step(0, true), Step(0, true), Step(0, true), Step(0, false), Step(0, true)]

  /** The second one, which finds the file pending. */
  const FOLLOWS: seq<Event> := [Create(1), Step(1, true), Step(1, true), Step(1, true), Step(1, true), Step(1, true)]

  function With(ctx: Context, threads: map<Tid, Pc>): State {
    State([ctx], [0], Some(0), AllowRead, FREE, threads, 0)
  }

  /** The context with an authorization and a lock, and its identifier not known. */
  function Unnamed(auth: Auth, lock: Lock): Context { Context(auth, false, lock) }

  function ReadBy(t: Tid): Lock { Lock(None, 0, map[t := 1]) }

  const OWNED := Lock(Some(0), 1, map[])

  function Preparing(list: seq<nat>, contexts: seq<Context>, pc: Pc): State {
    State(contexts, list, None, AllowRead, FREE, map[0 := pc], 0)
  }

  lemma Attaching()
    ensures Leads(Initial(AllowRead), Create(0), Preparing([], [], Start))
    ensures Leads(Preparing([], [], Start), Step(0, true), Preparing([], [], Allocate))
    ensures Leads(Preparing([], [], Allocate), Step(0, true), Preparing([0], [Unnamed(Unknown, FREE)], Attach(0)))
    ensures Leads(Preparing([0], [Unnamed(Unknown, FREE)], Attach(0)), Step(0, true),
                  With(Unnamed(Unknown, FREE), map[0 := LockRead(0)]))
  {}

  lemma Reading(threads: map<Tid, Pc>, t: Tid, auth: Auth)
    requires t in threads
    ensures threads[t] == LockRead(0) ==>
              Leads(With(Unnamed(auth, FREE), threads), Step(t, true), With(Unnamed(auth, ReadBy(t)), threads[t := CheckRead(0)]))
    ensures threads[t] == CheckRead(0) && auth == Unknown ==>
              Leads(With(Unnamed(auth, ReadBy(t)), threads), Step(t, true), With(Unnamed(auth, FREE), threads[t := Upgrade(0)]))
    ensures threads[t] == CheckRead(0) && auth == Pending ==>
              Leads(With(Unnamed(auth, ReadBy(t)), threads), Step(t, true), With(Unnamed(auth, ReadBy(t)), threads[t := Decide(0, Read)]))
  {
    assert ReadBy(t).readers - {t} == map[];
    assert forall c: Context :: [c][0 := c] == [c];
  }

  lemma Writing()
    ensures Leads(With(Unnamed(Unknown, FREE), map[0 := Upgrade(0)]), Step(0, true), With(Unnamed(Unknown, OWNED), map[0 := CheckWrite(0)]))
    ensures Leads(With(Unnamed(Unknown, OWNED), map[0 := CheckWrite(0)]), Step(0, true), With(Unnamed(Pending, OWNED), map[0 := HashName(0)]))
  {}

  lemma GivingUp()
    ensures Leads(With(Unnamed(Pending, OWNED), map[0 := HashName(0)]), Step(0, false),
                  With(Unnamed(Pending, OWNED), map[0 := Cleanup(0, Write, false)]))
    ensures Leads(With(Unnamed(Pending, OWNED), map[0 := Cleanup(0, Write, false)]), Step(0, true),
                  With(Unnamed(Pending, FREE), map[0 := Done(Some(0), false)]))
  {}

  lemma FirstReads()
    ensures ValidRun(Initial(AllowRead), FAILS[..5])
    ensures After(Initial(AllowRead), FAILS[..5]) == With(Unnamed(Unknown, ReadBy(0)), map[0 := CheckRead(0)])
  {
    hide ValidRun, After, Leads, With, Unnamed, Preparing, Step, ReadBy;
    var s, f := Initial(AllowRead), FAILS;
    RunNothing(s);
    Attaching();
    RunMore(s, [], f[0], Preparing([], [], Start));
    RunMore(s, [] + [f[0]], f[1], Preparing([], [], Allocate));
    RunMore(s, [] + [f[0]] + [f[1]], f[2], Preparing([0], [Unnamed(Unknown, FREE)], Attach(0)));
    RunMore(s, [] + [f[0]] + [f[1]] + [f[2]], f[3], With(Unnamed(Unknown, FREE), map[0 := LockRead(0)]));
    Reading(map[0 := LockRead(0)], 0, Unknown);
    assert map[0 := LockRead(0)][0 := CheckRead(0)] == map[0 := CheckRead(0)];
    RunMore(s, [] + [f[0]] + [f[1]] + [f[2]] + [f[3]], f[4], With(Unnamed(Unknown, ReadBy(0)), map[0 := CheckRead(0)]));
    assert [] + [f[0]] + [f[1]] + [f[2]] + [f[3]] + [f[4]] == f[..5];
  }

  lemma FailingCallback()
    ensures ValidRun(Initial(AllowRead), FAILS)
    ensures After(Initial(AllowRead), FAILS) == With(Unnamed(Pending, FREE), map[0 := Done(Some(0), false)])
  {
    hide ValidRun, After, Leads, With, Unnamed, Preparing, Step, ReadBy;
    var s, f := Initial(AllowRead), FAILS;
    FirstReads();
    var es := f[..5];
    Reading(map[0 := CheckRead(0)], 0, Unknown);
    assert map[0 := CheckRead(0)][0 := Upgrade(0)] == map[0 := Upgrade(0)];
    RunMore(s, es, f[5], With(Unnamed(Unknown, FREE), map[0 := Upgrade(0)]));
    Writing();
    RunMore(s, es + [f[5]], f[6], With(Unnamed(Unknown, OWNED), map[0 := CheckWrite(0)]));
    RunMore(s, es + [f[5]] + [f[6]], f[7], With(Unnamed(Pending, OWNED), map[0 := HashName(0)]));
    GivingUp();
    var es' := es + [f[5]] + [f[6]] + [f[7]];
    RunMore(s, es', f[8], With(Unnamed(Pending, OWNED), map[0 := Cleanup(0, Write, false)]));
    RunMore(s, es' + [f[8]], f[9], With(Unnamed(Pending, FREE), map[0 := Done(Some(0), false)]));
    assert es' + [f[8]] + [f[9]] == f;
  }

  lemma RunNothing(s: State)
    ensures ValidRun(s, []) && After(s, []) == s
  {}

  const OVER := Done(Some(0), false)

  lemma Following()
    ensures Leads(With(Unnamed(Pending, FREE), map[0 := OVER]), Create(1), With(Unnamed(Pending, FREE), map[0 := OVER, 1 := Start]))
    ensures Leads(With(Unnamed(Pending, FREE), map[0 := OVER, 1 := Start]), Step(1, true),
                  With(Unnamed(Pending, FREE), map[0 := OVER, 1 := LockRead(0)]))
  {}

  lemma Finishing()
    ensures Leads(With(Unnamed(Pending, ReadBy(1)), map[0 := OVER, 1 := Decide(0, Read)]), Step(1, true),
                  With(Unnamed(Pending, ReadBy(1)), map[0 := OVER, 1 := Cleanup(0, Read, false)]))
    ensures Leads(With(Unnamed(Pending, ReadBy(1)), map[0 := OVER, 1 := Cleanup(0, Read, false)]), Step(1, true),
                  With(Unnamed(Pending, FREE), map[0 := OVER, 1 := OVER]))
  {
    assert ReadBy(1).readers - {1} == map[];
  }

  lemma SecondReads()
    ensures ValidRun(Initial(AllowRead), FAILS + FOLLOWS[..3])
    ensures After(Initial(AllowRead), FAILS + FOLLOWS[..3]) ==
            With(Unnamed(Pending, ReadBy(1)), map[0 := OVER, 1 := CheckRead(0)])
  {
    hide ValidRun, After, Leads, With, Unnamed, Step, ReadBy;
    FailingCallback();
    var s, f := Initial(AllowRead), FOLLOWS;
    Following();
    RunMore(s, FAILS, f[0], With(Unnamed(Pending, FREE), map[0 := OVER, 1 := Start]));
    RunMore(s, FAILS + [f[0]], f[1], With(Unnamed(Pending, FREE), map[0 := OVER, 1 := LockRead(0)]));
    Reading(map[0 := OVER, 1 := LockRead(0)], 1, Pending);
    assert map[0 := OVER, 1 := LockRead(0)][1 := CheckRead(0)] == map[0 := OVER, 1 := CheckRead(0)];
    RunMore(s, FAILS + [f[0]] + [f[1]], f[2], With(Unnamed(Pending, ReadBy(1)), map[0 := OVER, 1 := CheckRead(0)]));
    assert FAILS + [f[0]] + [f[1]] + [f[2]] == FAILS + f[..3];
  }

  /**
   * After a failed name hash the file stays pending: the next callback is let through although
   * nothing was ever sent to be scanned.
   */
  lemma PendingFileIsLetThrough()
    ensures ValidRun(Initial(AllowRead), FAILS + FOLLOWS)
    ensures After(Initial(AllowRead), FAILS + FOLLOWS) ==
            State([Context(Pending, false, FREE)], [0], Some(0), AllowRead, FREE, map[0 := OVER, 1 := Done(Some(0), false)], 0)
  {
    hide ValidRun, After, Leads, With, Unnamed, Step, ReadBy;
    SecondReads();
    var s, f, es := Initial(AllowRead), FOLLOWS, FAILS + FOLLOWS[..3];
    Reading(map[0 := OVER, 1 := CheckRead(0)], 1, Pending);
    assert map[0 := OVER, 1 := CheckRead(0)][1 := Decide(0, Read)] == map[0 := OVER, 1 := Decide(0, Read)];
    RunMore(s, es, f[3], With(Unnamed(Pending, ReadBy(1)), map[0 := OVER, 1 := Decide(0, Read)]));
    Finishing();
    RunMore(s, es + [f[3]], f[4], With(Unnamed(Pending, ReadBy(1)), map[0 := OVER, 1 := Cleanup(0, Read, false)]));
    RunMore(s, es + [f[3]] + [f[4]], f[5], With(Unnamed(Pending, FREE), map[0 := OVER, 1 := OVER]));
    assert es + [f[3]] + [f[4]] + [f[5]] == FAILS + FOLLOWS;
    FinalState();
  }

  lemma FinalState()
    ensures With(Unnamed(Pending, FREE), map[0 := OVER, 1 := OVER]) ==
            State([Context(Pending, false, FREE)], [0], Some(0), AllowRead, FREE, map[0 := OVER, 1 := OVER], 0)
  {}
}
