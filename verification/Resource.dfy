/** The reader/writer lock of the minifilter and its guarded acquire and release. */
module Resource {
  import opened Wrappers

  type Tid = nat

  const APC_LEVEL: nat := 1

  /** Either one owner that may have entered several times, or any number of readers. */
  datatype Lock = Lock(owner: Option<Tid>, depth: nat, readers: map<Tid, nat>)

  const FREE := Lock(None, 0, map[])

  ghost predicate Valid(l: Lock) {
    && (l.owner.Some? <==> l.depth > 0)
    && (l.owner.Some? ==> l.readers == map[])
    && forall t <- l.readers :: l.readers[t] > 0
  }

  predicate HeldExclusive(l: Lock, t: Tid) { l.owner == Some(t) }

  predicate HeldAtAll(l: Lock, t: Tid) { l.owner == Some(t) || t in l.readers }

  /** The wait for shared access is over. */
  predicate CanShare(l: Lock, t: Tid) { l.owner == None || l.owner == Some(t) }

  predicate CanOwn(l: Lock, t: Tid) { l.owner == Some(t) || (l.owner == None && l.readers == map[]) }

  function Share(l: Lock, t: Tid): Lock {
    if l.owner == Some(t) then l.(depth := l.depth + 1)
    else l.(readers := l.readers[t := 1 + if t in l.readers then l.readers[t] else 0])
  }

  function Own(l: Lock, t: Tid): Lock {
    l.(owner := Some(t), depth := l.depth + 1)
  }

  /** A thread that already reads must not wait for exclusive access: it would wait for itself. */
  predicate MayOwn(l: Lock, t: Tid) { HeldExclusive(l, t) || !HeldAtAll(l, t) }

  /** One level of access is given back; a thread without access changes nothing. */
  function Release(l: Lock, t: Tid): Lock {
    if l.owner == Some(t) then
      if l.depth <= 1 then l.(owner := None, depth := 0) else l.(depth := l.depth - 1)
    else if t in l.readers then
      if l.readers[t] <= 1 then l.(readers := l.readers - {t}) else l.(readers := l.readers[t := l.readers[t] - 1])
    else l
  }

  /** Acquire then release is the identity, for both kinds of access and for nested access. */
  lemma ReleaseUndoes(l: Lock, t: Tid)
    requires Valid(l)
    ensures CanShare(l, t) ==> Valid(Share(l, t)) && HeldAtAll(Share(l, t), t) && Release(Share(l, t), t) == l
    ensures CanOwn(l, t) ==> Valid(Own(l, t)) && HeldExclusive(Own(l, t), t) && Release(Own(l, t), t) == l
    ensures !HeldAtAll(l, t) ==> Release(l, t) == l
    ensures Valid(Release(l, t))
  {
    if CanShare(l, t) && l.owner == None && t !in l.readers {
      assert l.readers[t := 1] - {t} == l.readers;
    }
    if CanShare(l, t) && l.owner == None && t in l.readers {
      assert l.readers[t := l.readers[t] + 1][t := l.readers[t]] == l.readers;
    }
  }

  class Eresource {
    var state: Lock

    constructor ()
      ensures state == FREE
    {
      state := FREE;
    }

    /** Called when the wait for exclusive access, if there is one, is over. */
    method AcquireResourceWrite(t: Tid, irql: nat) returns (acquired: bool)
      requires Valid(state)
      requires irql <= 1 && MayOwn(state, t) ==> CanOwn(state, t)
      modifies this
      ensures Valid(state)
      ensures acquired <==> irql <= 1 && MayOwn(old(state), t)
      ensures state == if acquired then Own(old(state), t) else old(state)
      ensures acquired ==> HeldExclusive(state, t) && forall u | u != t :: !HeldAtAll(state, u)
    {
      if irql <= APC_LEVEL && (HeldExclusive(state, t) || !HeldAtAll(state, t)) {
        state := state.(owner := Some(t), depth := state.depth + 1);
        return true;
      }
      return false;
    }

    /** Called when the wait for shared access, if there is one, is over. */
    method AcquireResourceRead(t: Tid, irql: nat) returns (acquired: bool)
      requires Valid(state)
      requires irql <= 1 ==> CanShare(state, t)
      modifies this
      ensures Valid(state)
      ensures acquired <==> irql <= 1
      ensures state == if acquired then Share(old(state), t) else old(state)
      ensures acquired ==> HeldAtAll(state, t) && forall u | u != t :: !HeldExclusive(state, u)
    {
      if irql <= APC_LEVEL {
        state := Share(state, t);
        return true;
      }
      return false;
    }

    method ReleaseResource(t: Tid, irql: nat)
      requires Valid(state)
      modifies this
      ensures Valid(state)
      ensures state == if irql <= 1 then Release(old(state), t) else old(state)
    {
      if irql <= APC_LEVEL && (HeldExclusive(state, t) || HeldAtAll(state, t)) {
        state := Release(state, t);
      }
    }
  }
}
