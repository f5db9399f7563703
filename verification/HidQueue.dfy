/** The pad's button queue: each state update enqueues the changed buttons, polls take them in order. */
module HidQueue {
  import opened HostTypes

  const BUTTONS := 11

  /** Header-defined identifiers, in table order; entry k is bit k of the pad state. */
  const UIDS: seq<int> := [
    0x0106C3FE, 0x0106C400, 0x0106C3FF, 0x0106C401, 0x0106C402, 0x0106C406, 0x0106C408,
    0x0106C40A, 0x0106C40B, 0x0106C40C, 0x0106C40D]

  type ButtonId = k: nat | k < 11

  datatype Event = Event(id: ButtonId, down: bool, uid: int)

  predicate Down(buttons: bv16, k: ButtonId) {
    buttons & (1 << k) != 0
  }

  datatype Hid = Hid(last: bv16, queue: seq<Event>)

  const IDLE := Hid(0, [])

  /** The events for buttons k and up whose state differs. */
  function ChangesFrom(was: bv16, now: bv16, k: nat): seq<Event>
    requires k <= BUTTONS
    decreases BUTTONS - k
  {
    if k == BUTTONS then []
    else Change(was, now, k) + ChangesFrom(was, now, k + 1)
  }

  function Change(was: bv16, now: bv16, k: ButtonId): seq<Event> {
    if Down(was, k) == Down(now, k) then [] else [Event(k, Down(now, k), UIDS[k])]
  }

  function Update(s: Hid, now: bv16): Hid {
    Hid(now, s.queue + ChangesFrom(s.last, now, 0))
  }

  function Poll(s: Hid): (Hid, Option<Event>) {
    if s.queue == [] then (s, None) else (s.(queue := s.queue[1..]), Some(s.queue[0]))
  }

  // ----- runs -------------------------------------------------------------

  datatype Call = UpdateCall(buttons: bv16) | PollCall

  /** Runs the calls and collects the delivered events in order. */
  function Run(s: Hid, calls: seq<Call>): (Hid, seq<Event>)
    decreases |calls|
  {
    if calls == [] then (s, [])
    else match calls[0]
      case UpdateCall(buttons) => Run(Update(s, buttons), calls[1..])
      case PollCall =>
        var (t, got) := Poll(s);
        var (u, later) := Run(t, calls[1..]);
        (u, (if got.Some? then [got.value] else []) + later)
  }

  /** The pad states passed in, in order. */
  function Updates(calls: seq<Call>): seq<bv16> {
    if calls == [] then []
    else (if calls[0].UpdateCall? then [calls[0].buttons] else []) + Updates(calls[1..])
  }

  function Last(was: bv16, states: seq<bv16>): bv16 {
    if states == [] then was else states[|states| - 1]
  }

  /** Whether button k is down after the events, given whether it was before. */
  function Replayed(was: bool, events: seq<Event>, k: ButtonId): bool
    decreases |events|
  {
    if events == [] then was else Replayed(if events[0].id == k then events[0].down else was, events[1..], k)
  }

  /** Button k's events alternate, the first one reversing `was`. */
  ghost predicate Alternates(was: bool, events: seq<Event>, k: ButtonId)
    decreases |events|
  {
    events == [] ||
    if events[0].id == k then events[0].down == !was && Alternates(!was, events[1..], k)
    else Alternates(was, events[1..], k)
  }

  lemma {:induction false} SplitEvents(was: bool, a: seq<Event>, b: seq<Event>, k: ButtonId)
    ensures Replayed(was, a + b, k) == Replayed(Replayed(was, a, k), b, k)
    ensures Alternates(was, a + b, k) <==> Alternates(was, a, k) && Alternates(Replayed(was, a, k), b, k)
    decreases |a|
  {
    if a == [] {
      assert a + b == b;
    } else {
      assert (a + b)[1..] == a[1..] + b;
      SplitEvents(if a[0].id == k then a[0].down else was, a[1..], b, k);
    }
  }

  lemma {:induction false} ChangesReplay(was: bv16, now: bv16, from: nat, k: ButtonId)
    requires from <= BUTTONS
    ensures var events := ChangesFrom(was, now, from);
      && Alternates(Down(was, k), events, k)
      && Replayed(Down(was, k), events, k) == (if k >= from then Down(now, k) else Down(was, k))
      && forall e :: e in events ==> e.id >= from
    decreases BUTTONS - from
  {
    hide Down, Change;
    if from < BUTTONS {
      var head, tail := Change(was, now, from), ChangesFrom(was, now, from + 1);
      ChangesReplay(was, now, from + 1, k);
      ChangeReplays(was, now, from, k);
      SplitEvents(Down(was, k), head, tail, k);
      if from == k {
        NoEventsFor(tail, Down(now, k), k);
      }
    }
  }

  lemma ChangeReplays(was: bv16, now: bv16, at: ButtonId, k: ButtonId)
    ensures var events := Change(was, now, at);
      && Alternates(Down(was, k), events, k)
      && Replayed(Down(was, k), events, k) == (if k == at then Down(now, k) else Down(was, k))
      && forall e :: e in events ==> e.id == at
  {
    hide Down;
    var events := Change(was, now, at);
    assert events != [] ==> events[1..] == [];
  }

  lemma {:induction false} NoEventsFor(events: seq<Event>, was: bool, k: ButtonId)
    requires forall e :: e in events ==> e.id != k
    ensures Alternates(was, events, k) && Replayed(was, events, k) == was
    decreases |events|
  {
    if events != [] {
      NoEventsFor(events[1..], was, k);
    }
  }

  /** From a state whose queue is faithful, any interleaving of updates and polls delivers and queues, per
      button, alternating events that lead from the pad state before to the last one passed in. */
  lemma {:induction false} RunIsFaithful(base: bool, s: Hid, calls: seq<Call>, k: ButtonId)
    requires Alternates(base, s.queue, k) && Replayed(base, s.queue, k) == Down(s.last, k)
    ensures var (t, got) := Run(s, calls);
      && Alternates(base, got + t.queue, k)
      && Replayed(base, got + t.queue, k) == Down(t.last, k)
      && t.last == Last(s.last, Updates(calls))
    decreases |calls|
  {
    hide Down, ChangesFrom, Poll, Alternates, Replayed;
    if calls == [] {
      assert [] + s.queue == s.queue;
    } else {
      match calls[0] {
        case UpdateCall(buttons) =>
          ChangesReplay(s.last, buttons, 0, k);
          SplitEvents(base, s.queue, ChangesFrom(s.last, buttons, 0), k);
          RunIsFaithful(base, Update(s, buttons), calls[1..], k);
        case PollCall =>
          PollSplits(s);
          var (rest, got) := Poll(s);
          var head := if got.Some? then [got.value] else [];
          SplitEvents(base, head, rest.queue, k);
          RunIsFaithful(Replayed(base, head, k), rest, calls[1..], k);
          var (t, later) := Run(rest, calls[1..]);
          SplitEvents(base, head, later + t.queue, k);
          assert (head + later) + t.queue == head + (later + t.queue);
      }
    }
  }

  lemma PollSplits(s: Hid)
    ensures var (rest, got) := Poll(s);
      s.queue == (if got.Some? then [got.value] else []) + rest.queue && rest.last == s.last
  {
  }

  /** Starting idle: each button's events start with a press and alternate, and replaying everything
      delivered and still queued gives the last pad state on every mapped button. */
  lemma EventsTellThePadState(calls: seq<Call>, k: ButtonId)
    ensures var (t, got) := Run(IDLE, calls);
      && Alternates(false, got + t.queue, k)
      && Replayed(false, got + t.queue, k) == Down(Last(0, Updates(calls)), k)
  {
    NothingDown(k);
    RunIsFaithful(false, IDLE, calls, k);
  }

  lemma NothingDown(k: ButtonId)
    ensures !Down(0, k)
  {
  }

  /** The events all the updates produce. */
  function Emitted(last: bv16, calls: seq<Call>): seq<Event>
    decreases |calls|
  {
    if calls == [] then []
    else match calls[0]
      case UpdateCall(buttons) => ChangesFrom(last, buttons, 0) + Emitted(buttons, calls[1..])
      case PollCall => Emitted(last, calls[1..])
  }

  /** Polling loses nothing and keeps order: what was emitted is what was delivered followed by the queue. */
  lemma {:induction false} NothingLostOrReordered(s: Hid, calls: seq<Call>)
    ensures var (t, got) := Run(s, calls); got + t.queue == s.queue + Emitted(s.last, calls)
    decreases |calls|
  {
    hide ChangesFrom, Poll;
    if calls != [] {
      match calls[0] {
        case UpdateCall(buttons) =>
          NothingLostOrReordered(Update(s, buttons), calls[1..]);
          var a, b := ChangesFrom(s.last, buttons, 0), Emitted(buttons, calls[1..]);
          assert s.queue + a + b == s.queue + (a + b);
        case PollCall =>
          PollSplits(s);
          var (rest, got) := Poll(s);
          NothingLostOrReordered(rest, calls[1..]);
          var head := if got.Some? then [got.value] else [];
          var (t, later) := Run(rest, calls[1..]);
          assert (head + later) + t.queue == head + (later + t.queue);
          assert head + (rest.queue + Emitted(s.last, calls[1..])) == s.queue + Emitted(s.last, calls[1..]);
      }
    }
  }

  lemma NextChange(queue: seq<Event>, was: bv16, now: bv16, k: ButtonId)
    ensures queue + ChangesFrom(was, now, k) == (queue + Change(was, now, k)) + ChangesFrom(was, now, k + 1)
  {
    hide Change;
  }

  lemma NoMoreChanges(was: bv16, now: bv16)
    ensures ChangesFrom(was, now, BUTTONS) == []
  {
  }

  // ----- which button is which ------------------------------------------------

  /** Buttons 0 to 10 are the low eleven bits of the pad state. */
  lemma ButtonsAreBits(buttons: bv16)
    ensures Down(buttons, 0) <==> buttons & 0x001 != 0
    ensures Down(buttons, 1) <==> buttons & 0x002 != 0
    ensures Down(buttons, 2) <==> buttons & 0x004 != 0
    ensures Down(buttons, 3) <==> buttons & 0x008 != 0
    ensures Down(buttons, 4) <==> buttons & 0x010 != 0
    ensures Down(buttons, 5) <==> buttons & 0x020 != 0
    ensures Down(buttons, 6) <==> buttons & 0x040 != 0
    ensures Down(buttons, 7) <==> buttons & 0x080 != 0
    ensures Down(buttons, 8) <==> buttons & 0x100 != 0
    ensures Down(buttons, 9) <==> buttons & 0x200 != 0
    ensures Down(buttons, 10) <==> buttons & 0x400 != 0
  {
  }

  /** Pressing everything at once from rest: one event for each button, in table order, with its identifier. */
  lemma EveryButtonPressed()
    ensures Update(IDLE, 0x7ff).queue
         == [Event(0, true, 0x0106C3FE), Event(1, true, 0x0106C400), Event(2, true, 0x0106C3FF),
             Event(3, true, 0x0106C401), Event(4, true, 0x0106C402), Event(5, true, 0x0106C406),
             Event(6, true, 0x0106C408), Event(7, true, 0x0106C40A), Event(8, true, 0x0106C40B),
             Event(9, true, 0x0106C40C), Event(10, true, 0x0106C40D)]
  {
    ButtonsAreBits(0);
    ButtonsAreBits(0x7ff);
    hide Down;
    assert ChangesFrom(0, 0x7ff, 11) == [];
  }

  // ----- the object ---------------------------------------------------------

  class Pad {
    var lastButtons: bv16
    var queue: seq<Event>

    ghost function View(): Hid
      reads this
    {
      Hid(lastButtons, queue)
    }

    constructor ()
      ensures View() == IDLE
    {
      lastButtons, queue := 0, [];
    }

    method UpdateState(buttons: bv16)
      modifies this
      ensures View() == Update(old(View()), buttons)
    {
      hide Down, ChangesFrom, Change;
      ghost var was, all := lastButtons, queue + ChangesFrom(lastButtons, buttons, 0);
      for k := 0 to BUTTONS
        invariant lastButtons == was
        invariant queue + ChangesFrom(was, buttons, k) == all
      {
        NextChange(queue, was, buttons, k);
        AppendChange(k, buttons);
      }
      NoMoreChanges(was, buttons);
      assert queue + [] == queue;
      lastButtons := buttons;
    }

    method AppendChange(k: ButtonId, buttons: bv16)
      modifies this`queue
      ensures queue == old(queue) + Change(lastButtons, buttons, k)
    {
      hide Down;
      var wasDown, isDown := Down(lastButtons, k), Down(buttons, k);
      if wasDown != isDown {
        queue := queue + [Event(k, isDown, UIDS[k])];
      }
    }

    method GetNextButtonEvent() returns (event: Option<Event>)
      modifies this`queue
      ensures (View(), event) == Poll(old(View()))
    {
      if queue == [] {
        return None;
      }
      event := Some(queue[0]);
      queue := queue[1..];
    }
  }
}
