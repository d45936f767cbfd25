/**
 * Runs of the minifilter in which nothing fails and nothing interferes: only create callbacks,
 * any number of them interleaved, every call succeeding. There the volume alone, or the one
 * answer of the daemon, decides for all of them.
 */
module MinifilterQuiet {
  import opened Wrappers
  import opened Resource
  import opened Minifilter
  import opened MinifilterPending

  predicate Quiet(e: Event) { e.Create? || (e.Run? && e.ok) }

  ghost predicate QuietRun(es: seq<Event>) { forall e <- es :: Quiet(e) }

  /** The answer given to the latest scan request, starting from `before`. */
  ghost function AnswerIn(s: State, es: seq<Event>, before: Option<Auth>): Option<Auth>
    requires ValidRun(s, es)
    decreases |es|
  {
    if es == [] then before else AnswerIn(Next(s, es[0]), es[1..], AnswerAfter(s, es[0], before))
  }

  function AnswerAfter(s: State, e: Event, before: Option<Auth>): Option<Auth>
    requires Enabled(s, e)
  {
    if e.Run? && e.ok && s.threads[e.t].Await? then Some(e.reply) else before
  }

  /** The decision is taken: by the volume or by the daemon. */
  predicate Settled(cause: Cause) { cause.Volume? || cause.Reply? }

  /** Where a callback can be under a cause, and what it has decided by then. */
  predicate QuietPc(pc: Pc, h: History, a: Auth) {
    match pc
    case HashName(_) => h.cause.Claim?
    case FindInstance(_) => h.cause.Claim?
    case LockInstance(_) => h.cause.Claim?
    case ReadInstance(_) => h.cause.Claim?
    case LeaveInstance(_, _) => h.cause.Claim? && h.read == a
    case Apply(_, _) => h.cause.Claim? && h.read == a
    case Scan(_) => h.cause.Claim? && h.read == a
    case Await(_) => h.cause.Sent?
    case Decide(_, _) => Settled(h.cause)
    case Cleanup(_, _, denied) => Settled(h.cause) && (denied <==> AuthOf(h.cause) == Block)
    case Done(r, denied) => r.Some? && Settled(h.cause) && (denied <==> AuthOf(h.cause) == Block)
    case UsbLock(_) => false
    case UsbWrite(_) => false
    case UsbUnlock => false
    case UsbDone => false
    case _ => true
  }

  /** The causes of a quiet run. */
  predicate QuietCause(h: History, a: Auth, scans: nat, answer: Option<Auth>) {
    && h.volume == a
    && (|| h.cause.Fresh? || h.cause.Claim?
        || (h.cause.Volume? && h.cause.auth == a && !Asks(a))
        || (h.cause.Sent? && Asks(a))
        || (h.cause.Reply? && Asks(a) && h.cause.auth != Unknown && answer == Some(h.cause.auth)))
    && scans == if h.cause.Sent? || h.cause.Reply? then 1 else 0
  }

  ghost predicate QuietInv(s: State, h: History, a: Auth, answer: Option<Auth>) {
    QuietCause(h, a, s.scans, answer) && forall t <- s.threads :: QuietPc(s.threads[t], h, a)
  }

  /** One step of a callback; it holds the lock alone where it leaves the first check. */
  lemma QuietEffect(h: History, a: Auth, pc: Pc, c: nat, ctx: Context, il: Lock, t: Tid, reply: Auth, scans: nat, answer: Option<Auth>)
    requires ContextOf(pc) == Some(c) && !Finished(pc) && AuthOf(h.cause) == ctx.auth && Remembers(pc, h.read)
    requires QuietCause(h, a, scans, answer) && QuietPc(pc, h, a)
    requires pc.CheckRead? || pc.CheckWrite? ==> !h.cause.Claim? && !h.cause.Sent?
    requires pc.Upgrade? ==> MayOwn(ctx.lock, t)
    requires pc.Await? ==> reply != Unknown
    ensures var e := EffectOf(pc, c, ctx, h.volume, il, t, true, reply);
            var h' := HistoryOfStep(h, pc, ctx.auth, true, reply);
            && QuietCause(h', a, if e.sent then scans + 1 else scans, if pc.Await? then Some(reply) else answer)
            && QuietPc(e.pc, h', a)
  {
    hide Share, Own, Release, MayOwn;
  }

  /** What the step does to the places of the other callbacks. */
  lemma OthersStay(h: History, a: Auth, pc: Pc, known: Auth, reply: Auth, other: Pc, scans: nat, answer: Option<Auth>)
    requires QuietPc(other, h, a) && AuthOf(h.cause) == known && QuietCause(h, a, scans, answer)
    requires QuietPc(pc, h, a) && Remembers(pc, h.read)
    requires FileMode(pc) != Free ==> !Claimed(other) && !other.Await?
    ensures QuietPc(other, HistoryOfStep(h, pc, known, true, reply), a)
  {}

  lemma LockedStepStaysQuiet(s: State, t: Tid, reply: Auth, h: History, a: Auth, answer: Option<Auth>)
    requires Inv(s) && HistoryInv(s, h) && QuietInv(s, h, a, answer)
    requires Enabled(s, Run(t, true, reply)) && ContextOf(s.threads[t]).Some?
    ensures var e := Run(t, true, reply);
            QuietInv(Next(s, e), HistoryAfter(s, e, h), a, AnswerAfter(s, e, answer))
  {
    hide EffectOf, LocksInv, ScanInv, HistoryOfStep, AuthOf, QuietPc, QuietCause, Claimed, FileMode, Remembers, SomeClaimed, SomeAwaits;
    var c, e, pc := s.attached.value, Run(t, true, reply), s.threads[t];
    RunningIsUnfinished(s, t);
    ChecksAreNoWork(pc);
    if FileMode(pc) != Free {
      HolderIsAlone(s, t);
    }
    if pc.Upgrade? {
      UpgradeMayOwn(s, t);
    }
    QuietEffect(h, a, pc, c, s.contexts[c], s.instanceLock, t, reply, s.scans, answer);
    forall u <- s.threads | u != t
      ensures QuietPc(s.threads[u], HistoryAfter(s, e, h), a)
    {
      OthersStay(h, a, pc, s.contexts[c].auth, reply, s.threads[u], s.scans, answer);
    }
  }

  lemma ChecksAreNoWork(pc: Pc)
    ensures pc.CheckRead? || pc.CheckWrite? ==> FileMode(pc) != Free && !Claimed(pc) && !pc.Await?
  {}

  lemma UpgradeMayOwn(s: State, t: Tid)
    requires Inv(s) && t in s.threads && s.threads[t].Upgrade?
    ensures s.attached.Some? && MayOwn(s.contexts[s.attached.value].lock, t)
  {
    hide ScanInv, Agrees, MayOwn;
    assert FileModes(s)[t] == Free;
    MayAlwaysOwn(s.contexts[s.attached.value].lock, FileModes(s), t);
  }

  lemma SearchStaysQuiet(s: State, t: Tid, reply: Auth, h: History, a: Auth, answer: Option<Auth>)
    requires ContextsInv(s) && QuietInv(s, h, a, answer)
    requires Enabled(s, Run(t, true, reply)) && ContextOf(s.threads[t]).None?
    ensures var e := Run(t, true, reply);
            QuietInv(Next(s, e), HistoryAfter(s, e, h), a, AnswerAfter(s, e, answer))
  {
    hide CanRun, AuthOf, QuietCause, StepLocked, Own, Release, MayOwn;
  }

  lemma StepStaysQuiet(s: State, e: Event, h: History, a: Auth, answer: Option<Auth>)
    requires Inv(s) && HistoryInv(s, h) && QuietInv(s, h, a, answer) && Enabled(s, e) && Quiet(e)
    ensures QuietInv(Next(s, e), HistoryAfter(s, e, h), a, AnswerAfter(s, e, answer))
  {
    hide LocksInv, ScanInv, HistoryInv, CanRun, StepLocked, StepOther, QuietCause;
    match e {
      case Create(t) =>
      case Run(t, ok, reply) =>
        hide QuietInv, Inv, HistoryAfter, AnswerAfter, Next;
        if ContextOf(s.threads[t]).Some? {
          LockedStepStaysQuiet(s, t, reply, h, a, answer);
        } else {
          InvHasContexts(s);
          SearchStaysQuiet(s, t, reply, h, a, answer);
        }
    }
  }

  lemma {:induction false} RunStaysQuiet(s: State, es: seq<Event>, h: History, a: Auth, answer: Option<Auth>)
    requires Inv(s) && HistoryInv(s, h) && QuietInv(s, h, a, answer) && ValidRun(s, es) && QuietRun(es)
    ensures var s' := After(s, es);
            Inv(s') && HistoryInv(s', HistoryOf(s, es, h)) && QuietInv(s', HistoryOf(s, es, h), a, AnswerIn(s, es, answer))
    decreases |es|
  {
    hide Inv, HistoryInv, QuietInv, Enabled, Next, HistoryAfter, AnswerAfter, Quiet;
    if es != [] {
      assert es[0] in es && forall e <- es[1..] :: e in es;
      StepKeepsInv(s, es[0]);
      InvHasContexts(Next(s, es[0]));
      StepKeepsHistory(s, es[0], h);
      StepStaysQuiet(s, es[0], h, a, answer);
      RunStaysQuiet(Next(s, es[0]), es[1..], HistoryAfter(s, es[0], h), a, AnswerAfter(s, es[0], answer));
    }
  }

  lemma InitialIsQuiet(a: Auth)
    ensures QuietInv(Initial(a), History(Fresh, a, Unknown), a, None)
  {}

  /**
   * In every quiet run from a volume worth `a`, and for every callback that has finished in it:
   * a volume that is blocked, or in no proper state, denies all of them without a scan; one that
   * lets everything pass denies none, without a scan, and the file may be read; any other has
   * sent exactly one request, and its answer decides for all of them alike.
   */
  lemma QuietRunDecides(a: Auth, es: seq<Event>, t: Tid)
    requires ValidRun(Initial(a), es) && QuietRun(es)
    requires var s := After(Initial(a), es); t in s.threads && s.threads[t].Done?
    ensures var s := After(Initial(a), es);
            var denied := s.threads[t].denied;
            && s.attached.Some? && s.attached.value < |s.contexts|
            && var auth := s.contexts[s.attached.value].auth;
               && (a == Block || a == Unknown || a == Pending ==> denied && s.scans == 0 && auth == Block)
               && (a == AllowAll ==> !denied && s.scans == 0 && auth == AllowRead)
               && (a == AllowRead || a == AllowWarning ==>
                     s.scans == 1 && AnswerIn(Initial(a), es, None) == Some(auth) && (denied <==> auth == Block))
  {
    hide ValidRun, After, HistoryOf, AnswerIn, Inv, HistoryInv, QuietInv;
    QuietState(a, es);
    var s := After(Initial(a), es);
    InvHasContexts(s);
    DoneDecided(s, Told(a, es), a, AnswerIn(Initial(a), es, None), t);
  }

  lemma QuietState(a: Auth, es: seq<Event>)
    requires ValidRun(Initial(a), es) && QuietRun(es)
    ensures var s, h := After(Initial(a), es), Told(a, es);
            Inv(s) && HistoryInv(s, h) && QuietInv(s, h, a, AnswerIn(Initial(a), es, None))
  {
    hide ValidRun, After, HistoryOf, AnswerIn, Inv, HistoryInv, QuietInv;
    InitialInv(a);
    InitialHistory(a);
    InitialIsQuiet(a);
    RunStaysQuiet(Initial(a), es, History(Fresh, a, Unknown), a, None);
  }

  lemma DoneDecided(s: State, h: History, a: Auth, answer: Option<Auth>, t: Tid)
    requires ContextsInv(s) && HistoryInv(s, h) && QuietInv(s, h, a, answer) && t in s.threads && s.threads[t].Done?
    ensures var denied := s.threads[t].denied;
            && s.attached.Some? && s.attached.value < |s.contexts|
            && var auth := s.contexts[s.attached.value].auth;
               && (a == Block || a == Unknown || a == Pending ==> denied && s.scans == 0 && auth == Block)
               && (a == AllowAll ==> !denied && s.scans == 0 && auth == AllowRead)
               && (a == AllowRead || a == AllowWarning ==>
                     s.scans == 1 && answer == Some(auth) && (denied <==> auth == Block))
  {
    assert QuietPc(s.threads[t], h, a);
  }

  /** And without an asking volume nothing is ever sent, finished or not. */
  lemma QuietRunScans(a: Auth, es: seq<Event>)
    requires ValidRun(Initial(a), es) && QuietRun(es)
    ensures a != AllowRead && a != AllowWarning ==> After(Initial(a), es).scans == 0
  {
    hide ValidRun, After, HistoryOf, AnswerIn, Inv, HistoryInv;
    QuietState(a, es);
  }
}
