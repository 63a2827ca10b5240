/** The key queue between the input thread and the menus that wait for keys (ui.c). */
module KeyQueue {

  /*
   The input thread appends keys, `ui_wait_key` takes the first one and
   `ui_clear_key_queue` drops them all.  The queue is bounded, and wheel events that would
   follow one another in it are merged.
   */

  const QUEUE_MAX: nat := 256
  const BTN_WHEEL: int := 0x150

  // ---------- the queue as a value

  predicate Accepts(q: seq<int>, code: int, value: int) {
    && value > 0 && |q| < QUEUE_MAX
    && (code != BTN_WHEEL || q == [] || q[|q| - 1] != BTN_WHEEL)
  }

  function Enqueued(q: seq<int>, code: int, value: int): seq<int> {
    if Accepts(q, code, value) then q + [code] else q
  }

  class Queue {
    const key_queue: array<int>
    var key_queue_len: nat

    ghost predicate Valid()
      reads this
    {
      key_queue.Length == QUEUE_MAX && key_queue_len <= QUEUE_MAX
    }

    ghost function Contents(): seq<int>
      requires Valid()
      reads this, key_queue
    {
      key_queue[..key_queue_len]
    }

    constructor ()
      ensures Valid() && fresh(key_queue) && Contents() == []
    {
      key_queue := new int[QUEUE_MAX];
      key_queue_len := 0;
    }

    /** The end of `input_thread`'s loop. */
    method Enqueue(code: int, value: int)
      requires Valid()
      modifies this`key_queue_len, key_queue
      ensures Valid() && Contents() == Enqueued(old(Contents()), code, value)
    {
      if value > 0 && key_queue_len < key_queue.Length {
        if code != BTN_WHEEL || key_queue_len == 0 || key_queue[key_queue_len - 1] != BTN_WHEEL {
          key_queue[key_queue_len] := code;
          key_queue_len := key_queue_len + 1;
        }
      }
    }

    /** `ui_wait_key`, once a key is there. */
    method WaitKey() returns (key: int)
      requires Valid() && Contents() != []
      modifies this`key_queue_len, key_queue
      ensures Valid() && [key] + Contents() == old(Contents())
    {
      key := key_queue[0];
      key_queue_len := key_queue_len - 1;
      for i := 0 to key_queue_len
        invariant key_queue_len == old(key_queue_len) - 1
        invariant forall k :: 0 <= k < i ==> key_queue[k] == old(key_queue[k + 1])
        invariant forall k :: i <= k < QUEUE_MAX ==> key_queue[k] == old(key_queue[k])
      {
        key_queue[i] := key_queue[i + 1];
      }
    }

    /** `ui_clear_key_queue`. */
    method Clear()
      requires Valid()
      modifies this`key_queue_len
      ensures Valid() && Contents() == []
    {
      key_queue_len := 0;
    }
  }

  // ---------- any interleaving of input, wait and clear

  /** A wait that finds the queue empty goes on waiting. */
  datatype Event = Input(code: int, value: int) | Take | Drop

  /** The queue and the keys delivered so far, each key as the index of its input event. */
  datatype State = State(queue: seq<nat>, delivered: seq<nat>)

  predicate Inputs(events: seq<Event>, keys: seq<nat>) {
    forall k :: 0 <= k < |keys| ==> keys[k] < |events| && events[keys[k]].Input?
  }

  function Codes(events: seq<Event>, keys: seq<nat>): (r: seq<int>)
    requires Inputs(events, keys)
    ensures |r| == |keys|
    ensures forall k :: 0 <= k < |r| ==> r[k] == events[keys[k]].code
  {
    seq(|keys|, k requires 0 <= k < |keys| => events[keys[k]].code)
  }

  /** One more event. */
  function Apply(past: seq<Event>, s: State, e: Event): State
    requires Inputs(past, s.queue)
  {
    match e
    case Input(code, value) =>
      if Accepts(Codes(past, s.queue), code, value) then s.(queue := s.queue + [|past|]) else s
    case Take => if s.queue == [] then s else State(s.queue[1..], s.delivered + [s.queue[0]])
    case Drop => s.(queue := [])
  }

  function After(events: seq<Event>): (s: State)
    ensures Inputs(events, s.queue) && Inputs(events, s.delivered)
  {
    if events == [] then State([], [])
    else
      var past, e := events[..|events| - 1], events[|events| - 1];
      Apply(past, After(past), e)
  }

  /** The run is what the queue does: each event changes it as the methods do. */
  lemma AfterRefines(events: seq<Event>, e: Event)
    ensures var q, q' := Codes(events, After(events).queue), Codes(events + [e], After(events + [e]).queue);
      match e
      case Input(code, value) => q' == Enqueued(q, code, value)
      case Take => if q == [] then q' == [] else [q[0]] + q' == q
      case Drop => q' == []
  {
    assert (events + [e])[..|events|] == events;
  }

  // ---------- what holds in every run

  predicate NoWheelPairs(q: seq<int>) {
    forall k :: 0 < k < |q| ==> !(q[k - 1] == BTN_WHEEL && q[k] == BTN_WHEEL)
  }

  predicate WellKept(q: seq<int>) {
    |q| <= QUEUE_MAX && NoWheelPairs(q)
  }

  lemma EnqueuedWellKept(q: seq<int>, code: int, value: int)
    requires WellKept(q)
    ensures WellKept(Enqueued(q, code, value))
  {
  }

  lemma TakenWellKept(q: seq<int>, q': seq<int>)
    requires WellKept(q) && q != [] && [q[0]] + q' == q
    ensures WellKept(q')
  {
    assert forall k :: 0 <= k < |q'| ==> q'[k] == q[k + 1];
  }

  /** The queue stays within its array, and no two wheel events are adjacent in it. */
  lemma {:induction false} QueueBounded(events: seq<Event>)
    ensures WellKept(Codes(events, After(events).queue))
  {
    if events != [] {
      var past, e := events[..|events| - 1], events[|events| - 1];
      QueueBounded(past);
      assert past + [e] == events;
      AfterRefines(past, e);
      var q, q' := Codes(past, After(past).queue), Codes(events, After(events).queue);
      if e.Input? {
        EnqueuedWellKept(q, e.code, e.value);
      } else if e.Take? && q != [] {
        TakenWellKept(q, q');
      }
    }
  }

  predicate Increasing(keys: seq<nat>) {
    forall i, j :: 0 <= i < j < |keys| ==> keys[i] < keys[j]
  }

  predicate Pressed(events: seq<Event>, keys: seq<nat>) {
    forall k :: 0 <= k < |keys| ==> keys[k] < |events| && events[keys[k]].Input? && events[keys[k]].value > 0
  }

  /** One more event delivers a queued key, appends a pressed one, or drops some. */
  lemma ApplyOrder(past: seq<Event>, s: State, e: Event)
    requires Inputs(past, s.queue)
    ensures var all, all' := s.delivered + s.queue, Apply(past, s, e).delivered + Apply(past, s, e).queue;
      all' <= all || (e.Input? && e.value > 0 && all' == all + [|past|])
  {
    if e.Take? && s.queue != [] {
      assert s.queue == [s.queue[0]] + s.queue[1..];
      assert Apply(past, s, e).delivered + Apply(past, s, e).queue == s.delivered + s.queue;
    }
  }

  lemma OrderLater(past: seq<Event>, e: Event, all: seq<nat>, all': seq<nat>)
    requires Increasing(all) && Pressed(past, all)
    requires all' <= all || (e.Input? && e.value > 0 && all' == all + [|past|])
    ensures Increasing(all') && Pressed(past + [e], all')
  {
  }

  /** Keys leave in the order in which they arrived, each at most once, and all were pressed. */
  lemma {:induction false} ArrivalOrder(events: seq<Event>)
    ensures Increasing(After(events).delivered + After(events).queue)
    ensures Pressed(events, After(events).delivered + After(events).queue)
  {
    if events != [] {
      var n := |events| - 1;
      var past, e := events[..n], events[n];
      var s := After(past);
      ArrivalOrder(past);
      ApplyOrder(past, s, e);
      assert past + [e] == events;
      OrderLater(past, e, s.delivered + s.queue, After(events).delivered + After(events).queue);
    }
  }

  /** Input i was turned away: the queue was full, or a wheel event stood last in it. */
  predicate Refused(events: seq<Event>, i: nat)
    requires i < |events| && events[i].Input?
  {
    !Accepts(Codes(events[..i], After(events[..i]).queue), events[i].code, events[i].value)
  }

  /** Input i was dropped from the queue by the clear at j. */
  predicate DroppedAt(events: seq<Event>, i: nat, j: nat) {
    i < j < |events| && events[j].Drop? && i in After(events[..j]).queue
  }

  ghost predicate Dropped(events: seq<Event>, i: nat) {
    exists j: nat :: DroppedAt(events, i, j)
  }

  /** What one more event does to an input that was delivered or is queued. */
  lemma ApplyKeeps(past: seq<Event>, s: State, e: Event, i: nat)
    requires Inputs(past, s.queue) && (i in s.delivered || i in s.queue)
    ensures var s' := Apply(past, s, e);
      i in s'.delivered || i in s'.queue || (e.Drop? && i in s.queue)
  {
    if i in s.queue && e.Take? {
      assert s.queue == [s.queue[0]] + s.queue[1..];
      assert Apply(past, s, e).delivered[|s.delivered|] == s.queue[0];
    }
  }

  lemma KeptOrDropped(events: seq<Event>, i: nat)
    requires events != [] && i < |events| - 1
    requires var s := After(events[..|events| - 1]); i in s.delivered || i in s.queue
    ensures i in After(events).delivered || i in After(events).queue || Dropped(events, i)
  {
    var n := |events| - 1;
    var past, e := events[..n], events[n];
    var s := After(past);
    assert After(events) == Apply(past, s, e);
    ApplyKeeps(past, s, e, i);
    if e.Drop? && i in s.queue {
      assert DroppedAt(events, i, n);
    }
  }

  lemma DroppedLater(events: seq<Event>, i: nat)
    requires events != [] && Dropped(events[..|events| - 1], i)
    ensures Dropped(events, i)
  {
    var n := |events| - 1;
    var j: nat :| DroppedAt(events[..n], i, j);
    assert events[..n][..j] == events[..j];
    assert DroppedAt(events, i, j);
  }

  /**
   The fate of every input: delivered, still queued, turned away on arrival, or dropped by
   a clear.
   */
  lemma {:induction false} NothingElseIsLost(events: seq<Event>, i: nat)
    requires i < |events| && events[i].Input?
    ensures || i in After(events).delivered
            || i in After(events).queue
            || Refused(events, i)
            || Dropped(events, i)
  {
    var n := |events| - 1;
    if i == n {
      assert !Refused(events, i) ==> After(events).queue[|After(events[..n]).queue|] == n;
    } else {
      NothingElseIsLost(events[..n], i);
      assert events[..n][..i] == events[..i];
      if Dropped(events[..n], i) {
        DroppedLater(events, i);
      } else if !Refused(events[..n], i) {
        KeptOrDropped(events, i);
      }
    }
  }

  /** In particular, any other key than the wheel that is pressed is lost only to a full queue or a clear. */
  lemma KeysAreNotLost(events: seq<Event>, i: nat)
    requires i < |events| && events[i].Input? && events[i].value > 0 && events[i].code != BTN_WHEEL
    requires |After(events[..i]).queue| < QUEUE_MAX && forall j :: i < j < |events| ==> !events[j].Drop?
    ensures i in After(events).delivered || i in After(events).queue
  {
    NothingElseIsLost(events, i);
  }

  /**
   Exactly which inputs are queued, each behind all others: a key going down, while fewer than
   256 are waiting, unless it is the wheel and the last one waiting is the wheel too.
   */
  lemma QueuedExactly(events: seq<Event>, i: nat)
    requires i < |events| && events[i].Input?
    ensures var q := After(events[..i]).queue;
      var wheelAgain := events[i].code == BTN_WHEEL && q != [] && events[q[|q| - 1]].code == BTN_WHEEL;
      After(events[..i + 1]) ==
        if events[i].value > 0 && |q| < 256 && !wheelAgain then After(events[..i]).(queue := q + [i])
        else After(events[..i])
  {
    assert events[..i + 1][..i] == events[..i] && events[..i + 1][i] == events[i];
  }
}
