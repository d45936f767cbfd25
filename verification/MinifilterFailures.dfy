/**
 * What can happen to a create callback of the minifilter at all, and what a failed call, a sent
 * request and a notification come to in the end.
 */
module MinifilterFailures {
  import opened Wrappers
  import opened Resource
  import opened Minifilter
  import opened MinifilterPending

  /** Nothing about the environment is excluded: new callbacks, volume updates and notifications come at any moment. */
  lemma EnvironmentIsFree(s: State, t: Tid, a: Auth)
    requires t !in s.threads
    ensures Enabled(s, Create(t))
    ensures a != Unknown ==> Enabled(s, UpdateVolume(t, a)) && Enabled(s, Notify(a))
  {}

  // ---------------------------------------------------------------- who is denied

  /** The authorization on which the callback decided, if it has. */
  ghost function Saw(s: State, es: seq<Event>, t: Tid, before: Option<Auth>): Option<Auth>
    requires ValidRun(s, es)
    decreases |es|
  {
    if es == [] then before else Saw(Next(s, es[0]), es[1..], t, SawAfter(s, es[0], t, before))
  }

  function SawAfter(s: State, e: Event, t: Tid, before: Option<Auth>): Option<Auth>
    requires Enabled(s, e)
  {
    if e.Run? && e.t == t && s.threads[t].Decide? then Some(s.contexts[s.threads[t].c].auth) else before
  }

  /** The callback has decided exactly when it is past that point, and is denied exactly when it saw a block. */
  predicate Judged(pc: Pc, saw: Option<Auth>) {
    match pc
    case Cleanup(_, _, denied) => denied <==> saw == Some(Block)
    case Done(_, denied) => denied <==> saw == Some(Block)
    case _ => saw == None
  }

  lemma EffectJudges(pc: Pc, c: nat, ctx: Context, instanceAuth: Auth, il: Lock, t: Tid, ok: bool, reply: Auth, saw: Option<Auth>)
    requires ContextOf(pc) == Some(c) && !Finished(pc) && Judged(pc, saw)
    ensures Judged(EffectOf(pc, c, ctx, instanceAuth, il, t, ok, reply).pc, if pc.Decide? then Some(ctx.auth) else saw)
  {
    hide Share, Own, Release, MayOwn;
  }

  ghost predicate JudgedIn(s: State, t: Tid, saw: Option<Auth>) {
    if t in s.threads then Judged(s.threads[t], saw) else saw == None
  }

  lemma StepJudges(s: State, e: Event, t: Tid, saw: Option<Auth>)
    requires Enabled(s, e) && JudgedIn(s, t, saw)
    ensures JudgedIn(Next(s, e), t, SawAfter(s, e, t, saw))
  {
    hide Notified, EffectOf, CanRun, Judged, StepOther;
    match e {
      case Create(u) => Arrives(saw, Start);
      case UpdateVolume(u, a) => Arrives(saw, UsbLock(a));
      case Notify(a) =>
      case Run(u, ok, reply) =>
        var pc := s.threads[u];
        RunningIsUnfinished(s, u);
        InRange(s, u);
        if ContextOf(pc).Some? {
          var c := ContextOf(pc).value;
          if u == t {
            EffectJudges(pc, c, s.contexts[c], s.instanceAuth, s.instanceLock, u, ok, reply, saw);
          }
        } else {
          OtherJudges(s, u, ok, saw);
        }
    }
  }

  lemma InRange(s: State, t: Tid)
    requires t in s.threads && CanRun(s, t)
    ensures ContextOf(s.threads[t]).Some? ==> ContextOf(s.threads[t]).value < |s.contexts|
  {}

  lemma Arrives(saw: Option<Auth>, pc: Pc)
    requires pc.Start? || pc.UsbLock?
    ensures saw == None ==> Judged(pc, saw)
  {}

  lemma OtherJudges(s: State, t: Tid, ok: bool, saw: Option<Auth>)
    requires t in s.threads && ContextOf(s.threads[t]).None? && !Finished(s.threads[t])
    ensures var s' := StepOther(s, t, ok);
            && t in s'.threads && s'.threads == s.threads[t := s'.threads[t]]
            && (Judged(s.threads[t], saw) ==> Judged(s'.threads[t], saw))
  {
    hide Own, Release, MayOwn;
  }

  lemma {:induction false} RunJudges(s: State, es: seq<Event>, t: Tid, saw: Option<Auth>)
    requires ValidRun(s, es) && JudgedIn(s, t, saw)
    ensures JudgedIn(After(s, es), t, Saw(s, es, t, saw))
    decreases |es|
  {
    hide Enabled, Next, JudgedIn, SawAfter;
    if es != [] {
      StepJudges(s, es[0], t, saw);
      RunJudges(Next(s, es[0]), es[1..], t, SawAfter(s, es[0], t, saw));
    }
  }

  /** In every run a finished callback is denied exactly when it decided, and the authorization it saw was to block. */
  lemma DeniedExactly(instanceAuth: Auth, es: seq<Event>, t: Tid)
    requires ValidRun(Initial(instanceAuth), es)
    requires var s := After(Initial(instanceAuth), es); t in s.threads && s.threads[t].Done?
    ensures After(Initial(instanceAuth), es).threads[t].denied <==> Saw(Initial(instanceAuth), es, t, None) == Some(Block)
  {
    hide ValidRun, After, Saw;
    RunJudges(Initial(instanceAuth), es, t, None);
  }

  // ---------------------------------------------------------------- failed calls

  /** The callback is over, or only has its locks to give back, and lets the file through. */
  predicate LetsThrough(pc: Pc) { (pc.Cleanup? || pc.Done?) && !pc.denied }

  /** A failed call ends the callback there and then: no authorization changes and nothing is sent. */
  lemma FailureEnds(s: State, t: Tid, reply: Auth)
    requires Enabled(s, Run(t, false, reply))
    requires var pc := s.threads[t]; pc.Start? || pc.Allocate? || pc.Attach? || pc.HashName? || pc.FindInstance?
    ensures var s' := Next(s, Run(t, false, reply));
            && t in s'.threads && LetsThrough(s'.threads[t])
            && s'.scans == s.scans && s'.attached == s.attached && s'.list == s.list && |s'.contexts| == |s.contexts|
            && forall i :: 0 <= i < |s.contexts| ==>
                 s'.contexts[i].auth == s.contexts[i].auth && s'.contexts[i].named == s.contexts[i].named
  {
    hide Release;
  }

  /** A request that cannot be sent is not counted, and leaves the callback to decide on a pending file. */
  lemma FailedSendDecides(s: State, t: Tid, reply: Auth)
    requires Enabled(s, Run(t, false, reply)) && s.threads[t].Scan?
    ensures var s' := Next(s, Run(t, false, reply));
            && t in s'.threads && s'.threads[t].Decide? && s'.scans == s.scans
            && s'.contexts[s.threads[t].c].auth == Pending
  {}

  lemma {:induction false} EndedStays(s: State, es: seq<Event>, t: Tid)
    requires ValidRun(s, es) && t in s.threads && LetsThrough(s.threads[t])
    ensures t in After(s, es).threads && LetsThrough(After(s, es).threads[t])
    decreases |es|
  {
    hide Next, Enabled, LetsThrough;
    if es != [] {
      EndedStep(s, es[0], t);
      EndedStays(Next(s, es[0]), es[1..], t);
    }
  }

  lemma EndedStep(s: State, e: Event, t: Tid)
    requires Enabled(s, e) && t in s.threads && LetsThrough(s.threads[t])
    ensures t in Next(s, e).threads && LetsThrough(Next(s, e).threads[t])
  {
    hide Notified, Release, Own, MayOwn, CanRun;
    if e.Run? {
      InRange(s, e.t);
      RunningIsUnfinished(s, e.t);
      if ContextOf(s.threads[e.t]).None? {
        hide StepOther;
        OtherMovesOne(s, e.t, e.ok);
      } else if e.t != t {
        hide EffectOf;
      }
    }
  }

  lemma OtherMovesOne(s: State, t: Tid, ok: bool)
    requires t in s.threads
    ensures forall u <- s.threads | u != t :: u in StepOther(s, t, ok).threads && StepOther(s, t, ok).threads[u] == s.threads[u]
  {
    hide Own, Release, MayOwn;
  }

  /** From any state, a callback that meets a failed call is never denied, whatever happens afterwards. */
  lemma FailedCallbackIsLetThrough(s: State, t: Tid, reply: Auth, es: seq<Event>)
    requires Enabled(s, Run(t, false, reply)) && ValidRun(Next(s, Run(t, false, reply)), es)
    requires var pc := s.threads[t]; pc.Start? || pc.Allocate? || pc.Attach? || pc.HashName? || pc.FindInstance?
    ensures var s' := After(Next(s, Run(t, false, reply)), es);
            t in s'.threads && (s'.threads[t].Cleanup? || s'.threads[t].Done?) && !s'.threads[t].denied
  {
    hide Next, Enabled, ValidRun, After;
    FailureEnds(s, t, reply);
    EndedStays(Next(s, Run(t, false, reply)), es, t);
  }

  // ---------------------------------------------------------------- requests

  /** How many requests the run sends: callbacks at that point whose call succeeds. */
  ghost function Sends(s: State, es: seq<Event>): nat
    requires ValidRun(s, es)
    decreases |es|
  {
    if es == [] then 0
    else (if es[0].Run? && es[0].ok && s.threads[es[0].t].Scan? then 1 else 0) + Sends(Next(s, es[0]), es[1..])
  }

  lemma StepSends(s: State, e: Event)
    requires Enabled(s, e)
    ensures Next(s, e).scans == s.scans + if e.Run? && e.ok && s.threads[e.t].Scan? then 1 else 0
  {
    hide Notified, Share, Own, Release, CanRun;
    if e.Run? {
      InRange(s, e.t);
      RunningIsUnfinished(s, e.t);
      UpgradeSendsNothing(s, e.t, e.ok, e.reply);
    }
  }

  lemma UpgradeSendsNothing(s: State, t: Tid, ok: bool, reply: Auth)
    requires t in s.threads && ContextOf(s.threads[t]).Some? ==> ContextOf(s.threads[t]).value < |s.contexts|
    ensures t in s.threads && s.threads[t].Upgrade? ==>
              !EffectOf(s.threads[t], s.threads[t].c, s.contexts[s.threads[t].c], s.instanceAuth, s.instanceLock, t, ok, reply).sent
  {}

  lemma {:induction false} ScansAreCounted(s: State, es: seq<Event>)
    requires ValidRun(s, es)
    ensures After(s, es).scans == s.scans + Sends(s, es)
    decreases |es|
  {
    hide Next, Enabled;
    if es != [] {
      StepSends(s, es[0]);
      ScansAreCounted(Next(s, es[0]), es[1..]);
    }
  }

  // ---------------------------------------------------------------- notifications

  /** The hash of the file name has been computed in this run. */
  ghost predicate Hashed(s: State, es: seq<Event>, before: bool)
    requires ValidRun(s, es)
    decreases |es|
  {
    if es == [] then before
    else Hashed(Next(s, es[0]), es[1..], HashedAfter(s, es[0], before))
  }

  predicate HashedAfter(s: State, e: Event, before: bool)
    requires Enabled(s, e)
  {
    before || (e.Run? && e.ok && s.threads[e.t].HashName?)
  }

  ghost predicate Findable(s: State, hashed: bool) {
    && (forall i <- s.list :: i < |s.contexts|)
    && (s.attached.Some? ==> s.attached.value in s.list && s.attached.value < |s.contexts|)
    && (forall t <- s.threads | s.threads[t].Attach? :: s.threads[t].mine in s.list)
    && (hashed ==> s.attached.Some? && s.contexts[s.attached.value].named)
  }

  lemma NamedStays(pc: Pc, c: nat, ctx: Context, instanceAuth: Auth, il: Lock, t: Tid, ok: bool, reply: Auth)
    ensures var e := EffectOf(pc, c, ctx, instanceAuth, il, t, ok, reply);
            && (ctx.named || (pc.HashName? && ok) ==> e.ctx.named)
            && (ContextOf(pc).Some? ==> !e.pc.Attach?)
  {
    hide Share, Own, Release, MayOwn;
  }

  lemma StepFinds(s: State, e: Event, hashed: bool)
    requires Inv(s) && Findable(s, hashed) && Enabled(s, e)
    ensures Findable(Next(s, e), HashedAfter(s, e, hashed))
  {
    match e {
      case Create(t) =>
      case UpdateVolume(t, a) =>
      case Notify(a) =>
        hide LocksInv, ScanInv, Notified;
        NotifiedKeeps(s, s.list, a);
      case Run(t, ok, reply) =>
        hide LocksInv, ScanInv, EffectOf, CanRun;
        InRange(s, t);
        if ContextOf(s.threads[t]).Some? {
          var c := ContextOf(s.threads[t]).value;
          NamedStays(s.threads[t], c, s.contexts[c], s.instanceAuth, s.instanceLock, t, ok, reply);
        } else {
          SearchFinds(s, t, ok, hashed);
        }
    }
  }

  lemma SearchFinds(s: State, t: Tid, ok: bool, hashed: bool)
    requires Findable(s, hashed) && t in s.threads && ContextOf(s.threads[t]).None?
    ensures Findable(StepOther(s, t, ok), hashed)
  {
    hide Own, Release, MayOwn;
  }

  lemma {:induction false} RunFinds(s: State, es: seq<Event>, hashed: bool)
    requires Inv(s) && Findable(s, hashed) && ValidRun(s, es)
    ensures Inv(After(s, es)) && Findable(After(s, es), Hashed(s, es, hashed))
    decreases |es|
  {
    hide Inv, Findable, Enabled, Next, HashedAfter;
    if es != [] {
      StepKeepsInv(s, es[0]);
      StepFinds(s, es[0], hashed);
      RunFinds(Next(s, es[0]), es[1..], HashedAfter(s, es[0], hashed));
    }
  }

  lemma {:induction false} FoundIsNotified(s: State, list: seq<nat>, a: Auth)
    requires ContextsInv(s) && s.attached.Some? && s.attached.value in list && s.contexts[s.attached.value].named
    ensures Notified(s.contexts, list, a) == s.contexts[s.attached.value := s.contexts[s.attached.value].(auth := a)]
    decreases |list|
  {
    if list[0] != s.attached.value {
      assert s.attached.value in list[1..];
      FoundIsNotified(s, list[1..], a);
    }
  }

  /** In every run in which the file's name has been hashed, a notification sets its authorization and nothing else. */
  lemma NotificationArrives(instanceAuth: Auth, es: seq<Event>, a: Auth)
    requires ValidRun(Initial(instanceAuth), es) && Hashed(Initial(instanceAuth), es, false) && a != Unknown
    ensures var s := After(Initial(instanceAuth), es);
            && Enabled(s, Notify(a)) && s.attached.Some? && s.attached.value < |s.contexts|
            && Next(s, Notify(a)) == s.(contexts := s.contexts[s.attached.value := s.contexts[s.attached.value].(auth := a)])
  {
    hide ValidRun, After, Hashed, LocksInv, ScanInv, Notified;
    InitialInv(instanceAuth);
    RunFinds(Initial(instanceAuth), es, false);
    var s := After(Initial(instanceAuth), es);
    FoundIsNotified(s, s.list, a);
  }
}
