/** The daemon's loop over the buffer of file-access events read from the kernel. */
module Fanotify {
  import opened Bytes

  const EVENT_SIZE := 24
  const FAN_OPEN_PERM := 0x1_0000

  /** The header fields the loop looks at. */
  datatype Event = Event(eventLen: nat, mask: nat, fd: int, pid: int)

  datatype Action = Reply(fd: int, allow: bool) | Close(fd: int)

  /** What the world answers while one event is handled: the controller's decision, and whether the fanotify descriptor is open. */
  datatype Answer = Answer(authorized: bool, fanOpen: bool)

  function Signed(v: int): int {
    if v < 0x8000_0000 then v else v - U32_LIMIT
  }

  function EventAt(b: seq<byte>, offset: nat): Event
    requires offset + EVENT_SIZE <= |b|
  {
    Event(
      LeValue(b[offset..offset + 4]),
      LeValue(b[offset + 8..offset + 12]) + U32_LIMIT * LeValue(b[offset + 12..offset + 16]),
      Signed(LeValue(b[offset + 16..offset + 20])),
      Signed(LeValue(b[offset + 20..offset + 24])))
  }

  /** The events of a buffer, up to one that claims to be shorter than its own header. */
  function Parse(b: seq<byte>): seq<Event>
    decreases |b|
  {
    if |b| < EVENT_SIZE then []
    else
      var e := EventAt(b, 0);
      if e.eventLen < EVENT_SIZE then []
      else [e] + if e.eventLen <= |b| then Parse(b[e.eventLen..]) else []
  }

  predicate AsksPermission(e: Event) {
    e.mask / FAN_OPEN_PERM % 2 == 1 && e.fd >= 0
  }

  function ActionsFor(e: Event, daemonPid: int, a: Answer): seq<Action> {
    if AsksPermission(e) then
      (if a.fanOpen then [Reply(e.fd, e.pid == daemonPid || a.authorized)] else []) + [Close(e.fd)]
    else if e.fd >= 0 then [Close(e.fd)]
    else []
  }

  /** `answers(i)` is what the world says for the i-th event. */
  function Actions(events: seq<Event>, daemonPid: int, answers: nat -> Answer): seq<Action>
    decreases |events|
  {
    if events == [] then []
    else
      var n := |events| - 1;
      Actions(events[..n], daemonPid, answers) + ActionsFor(events[n], daemonPid, answers(n))
  }

  lemma ParseStep(b: seq<byte>)
    requires |b| >= EVENT_SIZE && EventAt(b, 0).eventLen >= EVENT_SIZE
    ensures var e := EventAt(b, 0); Parse(b) == [e] + Parse(b[if e.eventLen <= |b| then e.eventLen else |b|..])
  {}

  lemma EventInSuffix(b: seq<byte>, offset: nat)
    requires offset + EVENT_SIZE <= |b|
    ensures EventAt(b[offset..], 0) == EventAt(b, offset)
  {
    hide LeValue;
    assert b[offset..][0..4] == b[offset..offset + 4];
    assert b[offset..][8..12] == b[offset + 8..offset + 12] && b[offset..][12..16] == b[offset + 12..offset + 16];
    assert b[offset..][16..20] == b[offset + 16..offset + 20] && b[offset..][20..24] == b[offset + 20..offset + 24];
  }

  lemma StopsAtShortEvent(b: seq<byte>)
    requires |b| >= EVENT_SIZE && EventAt(b, 0).eventLen < EVENT_SIZE
    ensures Parse(b) == []
  {}

  lemma EndsWhenTooShort(b: seq<byte>)
    requires |b| < EVENT_SIZE
    ensures Parse(b) == []
  {}

  lemma ActionsOfNone(daemonPid: int, answers: nat -> Answer)
    ensures Actions([], daemonPid, answers) == []
  {}

  lemma ActionsOfOneMore(events: seq<Event>, e: Event, daemonPid: int, answers: nat -> Answer)
    ensures Actions(events + [e], daemonPid, answers) ==
            Actions(events, daemonPid, answers) + ActionsFor(e, daemonPid, answers(|events|))
  {
    assert (events + [e])[..|events|] == events;
  }

  /** The loop: it stays inside what was read, and does what the parsed events call for. */
  method HandleEvents(buf: array<byte>, bytesRead: nat, daemonPid: int, answers: nat -> Answer) returns (done: seq<Action>)
    requires bytesRead <= buf.Length
    ensures done == Actions(Parse(buf[..bytesRead]), daemonPid, answers)
  {
    hide LeValue, Parse, EventAt, Actions;
    var offset, index := 0, 0;
    done := [];
    ghost var seen: seq<Event> := [];
    ghost var all := Parse(buf[..bytesRead]);
    ActionsOfNone(daemonPid, answers);
    assert buf[..bytesRead][0..] == buf[..bytesRead];
    while offset + EVENT_SIZE <= bytesRead
      invariant all == seen + Parse(buf[..bytesRead][if offset <= bytesRead then offset else bytesRead..])
      invariant done == Actions(seen, daemonPid, answers) && index == |seen|
      decreases bytesRead - offset
    {
      var event := EventAt(buf[..bytesRead], offset);
      ghost var rest := buf[..bytesRead][offset..];
      EventInSuffix(buf[..bytesRead], offset);
      if event.eventLen < EVENT_SIZE {
        StopsAtShortEvent(rest);
        assert all == seen;
        return;
      }
      ParseStep(rest);
      assert offset + event.eventLen <= bytesRead ==> rest[event.eventLen..] == buf[..bytesRead][offset + event.eventLen..];
      if event.mask / FAN_OPEN_PERM % 2 != 0 && event.fd >= 0 {
        var allow := event.pid == daemonPid || answers(index).authorized;
        if answers(index).fanOpen {
          done := done + [Reply(event.fd, allow)];
        }
        done := done + [Close(event.fd)];
      } else if event.fd >= 0 {
        done := done + [Close(event.fd)];
      }
      ActionsOfOneMore(seen, event, daemonPid, answers);
      seen := seen + [event];
      offset, index := offset + event.eventLen, index + 1;
    }
    EndsWhenTooShort(buf[..bytesRead][if offset <= bytesRead then offset else bytesRead..]);
    assert all == seen;
  }

  // ---------------------------------------------------------------- each event is answered and closed once

  function CountCloses(events: seq<Event>, fd: int): nat
    decreases |events|
  {
    if events == [] then 0
    else CountCloses(events[..|events| - 1], fd) + if events[|events| - 1].fd == fd then 1 else 0
  }

  function CountReplies(events: seq<Event>, fd: int, answers: nat -> Answer): nat
    decreases |events|
  {
    if events == [] then 0
    else
      var n := |events| - 1;
      CountReplies(events[..n], fd, answers) + if events[n].fd == fd && AsksPermission(events[n]) && answers(n).fanOpen then 1 else 0
  }

  function Replies(done: seq<Action>, fd: int): nat {
    multiset(done)[Reply(fd, true)] + multiset(done)[Reply(fd, false)]
  }

  /** Over a buffer, a descriptor is closed as often as events carry it, and answered as often as they ask. */
  lemma {:induction false} ActionsBalance(events: seq<Event>, daemonPid: int, answers: nat -> Answer, fd: nat)
    ensures multiset(Actions(events, daemonPid, answers))[Close(fd)] == CountCloses(events, fd)
    ensures Replies(Actions(events, daemonPid, answers), fd) == CountReplies(events, fd, answers)
    decreases |events|
  {
    if events != [] {
      var n := |events| - 1;
      var before, now := Actions(events[..n], daemonPid, answers), ActionsFor(events[n], daemonPid, answers(n));
      ActionsBalance(events[..n], daemonPid, answers, fd);
      assert multiset(before + now) == multiset(before) + multiset(now);
      OneEventBalances(events[n], daemonPid, answers(n), fd);
    }
  }

  lemma OneEventBalances(e: Event, daemonPid: int, a: Answer, fd: nat)
    ensures multiset(ActionsFor(e, daemonPid, a))[Close(fd)] == if e.fd == fd then 1 else 0
    ensures Replies(ActionsFor(e, daemonPid, a), fd) == if e.fd == fd && AsksPermission(e) && a.fanOpen then 1 else 0
  {
    hide AsksPermission;
    if AsksPermission(e) && a.fanOpen {
      var allow := e.pid == daemonPid || a.authorized;
      assert ActionsFor(e, daemonPid, a) == [Reply(e.fd, allow), Close(e.fd)];
    }
  }

  /** Whatever is answered or closed is the valid descriptor of some event. */
  lemma {:induction false} ActionsAreValid(events: seq<Event>, daemonPid: int, answers: nat -> Answer, a: Action)
    requires a in Actions(events, daemonPid, answers)
    ensures a.fd >= 0 && exists i :: 0 <= i < |events| && events[i].fd == a.fd
    decreases |events|
  {
    hide AsksPermission;
    var n := |events| - 1;
    if a in Actions(events[..n], daemonPid, answers) {
      ActionsAreValid(events[..n], daemonPid, answers, a);
      var i :| 0 <= i < n && events[..n][i].fd == a.fd;
      assert events[i].fd == a.fd;
    } else {
      OwnDescriptor(events[n], daemonPid, answers(n), a);
    }
  }

  lemma OwnDescriptor(e: Event, daemonPid: int, a: Answer, action: Action)
    requires action in ActionsFor(e, daemonPid, a)
    ensures action.fd == e.fd >= 0
  {}

  /** The kernel hands out a new descriptor with each event. */
  predicate DistinctDescriptors(events: seq<Event>) {
    forall i, j :: 0 <= i < j < |events| && events[i].fd >= 0 ==> events[i].fd != events[j].fd
  }

  lemma {:induction false} CountOnce(events: seq<Event>, answers: nat -> Answer, fd: nat, i: nat)
    requires DistinctDescriptors(events)
    requires i < |events| ==> events[i].fd == fd
    requires i >= |events| ==> forall k :: 0 <= k < |events| ==> events[k].fd != fd
    ensures CountCloses(events, fd) == if i < |events| then 1 else 0
    ensures CountReplies(events, fd, answers) == if i < |events| && AsksPermission(events[i]) && answers(i).fanOpen then 1 else 0
    decreases |events|
  {
    hide AsksPermission;
    if events != [] {
      CountOnce(events[..|events| - 1], answers, fd, i);
    }
  }

  /** The actions of an event come in one block, after those of earlier events; within it the answer precedes the close. */
  lemma {:induction false} ActionsInOrder(events: seq<Event>, daemonPid: int, answers: nat -> Answer, i: nat) returns (later: seq<Action>)
    requires i < |events|
    ensures Actions(events, daemonPid, answers) ==
            Actions(events[..i], daemonPid, answers) + ActionsFor(events[i], daemonPid, answers(i)) + later
    decreases |events|
  {
    hide ActionsFor;
    var n := |events| - 1;
    if i == n {
      later := [];
    } else {
      assert events[..n][..i] == events[..i];
      var mid := ActionsInOrder(events[..n], daemonPid, answers, i);
      later := mid + ActionsFor(events[n], daemonPid, answers(n));
    }
  }

  lemma AnsweredWith(events: seq<Event>, daemonPid: int, answers: nat -> Answer, i: nat)
    requires i < |events| && AsksPermission(events[i]) && answers(i).fanOpen
    ensures var e := events[i];
            multiset(Actions(events, daemonPid, answers))[Reply(e.fd, e.pid == daemonPid || answers(i).authorized)] >= 1
  {
    var e := events[i];
    var allow := e.pid == daemonPid || answers(i).authorized;
    var now := ActionsFor(e, daemonPid, answers(i));
    assert now == [Reply(e.fd, allow), Close(e.fd)];
    hide AsksPermission, ActionsFor, Actions;
    var later := ActionsInOrder(events, daemonPid, answers, i);
    var before := Actions(events[..i], daemonPid, answers);
    assert multiset(before + now + later) == multiset(before) + multiset(now) + multiset(later);
  }

  lemma AnsweredOnce(events: seq<Event>, daemonPid: int, answers: nat -> Answer, i: nat)
    requires DistinctDescriptors(events) && i < |events| && events[i].fd >= 0
    ensures var done := Actions(events, daemonPid, answers);
            var e := events[i];
            var allow := e.pid == daemonPid || answers(i).authorized;
            var answered := AsksPermission(e) && answers(i).fanOpen;
            && multiset(done)[Close(e.fd)] == 1
            && multiset(done)[Reply(e.fd, allow)] == (if answered then 1 else 0)
            && multiset(done)[Reply(e.fd, !allow)] == 0
  {
    hide AsksPermission, ActionsFor, Actions, CountCloses, CountReplies, DistinctDescriptors;
    ActionsBalance(events, daemonPid, answers, events[i].fd);
    CountOnce(events, answers, events[i].fd, i);
    if AsksPermission(events[i]) && answers(i).fanOpen {
      AnsweredWith(events, daemonPid, answers, i);
    }
  }

  lemma AsksExactly(e: Event)
    ensures AsksPermission(e) <==> e.mask / 0x1_0000 % 2 == 1 && e.fd >= 0
  {}

  /**
   * Each valid descriptor is closed exactly once; if its event asks while the queue is open it is
   * answered exactly once, with the controller's decision, or allowed when the daemon itself asks.
   */
  lemma EachEventOnce(events: seq<Event>, daemonPid: int, answers: nat -> Answer, i: nat)
    requires DistinctDescriptors(events) && i < |events| && events[i].fd >= 0
    ensures var done := Actions(events, daemonPid, answers);
            var e := events[i];
            var allow := e.pid == daemonPid || answers(i).authorized;
            var answered := e.mask / 0x1_0000 % 2 == 1 && answers(i).fanOpen;
            && multiset(done)[Close(e.fd)] == 1
            && multiset(done)[Reply(e.fd, allow)] == (if answered then 1 else 0)
            && multiset(done)[Reply(e.fd, !allow)] == 0
  {
    AnsweredOnce(events, daemonPid, answers, i);
    AsksExactly(events[i]);
    hide Actions, AsksPermission;
  }

  // ---------------------------------------------------------------- the parser inverts the layout

  /** An event as laid out by the kernel, with the fields the loop skips and any trailing records. */
  datatype Record = Record(event: Event, vers: byte, reserved: byte, metadataLen: seq<byte>, payload: seq<byte>)

  predicate WellFormed(r: Record) {
    && |r.metadataLen| == 2
    && r.event.eventLen == EVENT_SIZE + |r.payload| < U32_LIMIT
    && r.event.mask < U32_LIMIT * U32_LIMIT
    && -0x8000_0000 <= r.event.fd < 0x8000_0000
    && -0x8000_0000 <= r.event.pid < 0x8000_0000
  }

  function Unsigned(v: int): int {
    if v < 0 then v + U32_LIMIT else v
  }

  function Layout(r: Record): (b: seq<byte>)
    requires WellFormed(r)
    ensures |b| == r.event.eventLen
  {
    HalvesInRange(r.event.mask);
    LeBytes(r.event.eventLen) + [r.vers, r.reserved] + r.metadataLen
    + LeBytes(r.event.mask % U32_LIMIT) + LeBytes(r.event.mask / U32_LIMIT)
    + LeBytes(Unsigned(r.event.fd)) + LeBytes(Unsigned(r.event.pid)) + r.payload
  }

  lemma HalvesInRange(mask: nat)
    requires mask < U32_LIMIT * U32_LIMIT
    ensures 0 <= mask / U32_LIMIT < U32_LIMIT
  {}

  function LayoutAll(rs: seq<Record>): seq<byte>
    requires forall r <- rs :: WellFormed(r)
    decreases |rs|
  {
    if rs == [] then []
    else
      assert rs[0] in rs;
      Layout(rs[0]) + LayoutAll(rs[1..])
  }

  lemma LayoutReads(r: Record, rest: seq<byte>)
    requires WellFormed(r)
    ensures EventAt(Layout(r) + rest, 0) == r.event
  {
    hide LeBytes, LeValue;
    HalvesInRange(r.event.mask);
    var b := Layout(r) + rest;
    var low, high := r.event.mask % U32_LIMIT, r.event.mask / U32_LIMIT;
    assert b[0..4] == LeBytes(r.event.eventLen);
    assert b[8..12] == LeBytes(low) && b[12..16] == LeBytes(high);
    assert b[16..20] == LeBytes(Unsigned(r.event.fd)) && b[20..24] == LeBytes(Unsigned(r.event.pid));
    LeRoundTrip(r.event.eventLen);
    LeRoundTrip(low);
    LeRoundTrip(high);
    LeRoundTrip(Unsigned(r.event.fd));
    LeRoundTrip(Unsigned(r.event.pid));
  }

  /** Every laid-out event is handled, in order, whatever comes after the last one. */
  lemma {:induction false} ParseInvertsLayout(rs: seq<Record>, tail: seq<byte>)
    requires forall r <- rs :: WellFormed(r)
    ensures Parse(LayoutAll(rs) + tail) == seq(|rs|, i requires 0 <= i < |rs| => rs[i].event) + Parse(tail)
    ensures |tail| < EVENT_SIZE || EventAt(tail, 0).eventLen < EVENT_SIZE ==> Parse(tail) == []
    decreases |rs|
  {
    hide EventAt, Layout, WellFormed, Parse;
    if |tail| < EVENT_SIZE {
      EndsWhenTooShort(tail);
    } else if EventAt(tail, 0).eventLen < EVENT_SIZE {
      StopsAtShortEvent(tail);
    }
    if rs == [] {
      assert LayoutAll(rs) + tail == tail;
    } else {
      assert rs[0] in rs;
      var b, rest := LayoutAll(rs) + tail, LayoutAll(rs[1..]) + tail;
      LayoutLength(rs[0]);
      assert b == Layout(rs[0]) + rest;
      LayoutReads(rs[0], rest);
      ParseStep(b);
      assert b[rs[0].event.eventLen..] == rest;
      ParseInvertsLayout(rs[1..], tail);
    }
  }

  lemma LayoutLength(r: Record)
    requires WellFormed(r)
    ensures |Layout(r)| == r.event.eventLen >= EVENT_SIZE
  {}
}
