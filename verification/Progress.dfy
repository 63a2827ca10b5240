/** The progress bar: scopes, fractions and the timer that moves it between them (ui.c). */
module Progress {

  /*
   Operations announce their share of the bar, and set or let a timer advance the progress
   within it.  Shares and fractions are real numbers here, times are whole seconds.
   */

  datatype BarType = Hidden | Indeterminate | Normal

  /** C's conversion of a float to int. */
  function Truncate(x: real): int {
    if x >= 0.0 then x.Floor else -((-x).Floor)
  }

  /** The pixels of a scope on a bar of `width` pixels. */
  function Scale(width: nat, size: real): real {
    width as real * size
  }

  /** The pixel column that a fraction reaches on a scope of `scale` pixels. */
  function Pixels(fraction: real, scale: real): int {
    Truncate(fraction * scale)
  }

  datatype Event =
    | Show(portion: real, seconds: int, now: int)
    | SetTo(fraction: real, width: nat)
    | Tick(now: int)
    | Barberpole

  class Bar {
    var kind: BarType
    var start: real
    var size: real
    var progress: real
    var time: int
    var duration: int

    ghost function Value(): State
      reads this
    {
      State(kind, start, size, progress, time, duration)
    }

    constructor ()
      ensures Value() == RESET
    {
      kind, start, size, progress, time, duration := Hidden, 0.0, 0.0, 0.0, 0, 0;
    }

    /** `ui_show_progress`. */
    method Show(portion: real, seconds: int, now: int)
      modifies this
      ensures Value() == Next(old(Value()), Event.Show(portion, seconds, now))
      ensures Filled(Value()) == old(start + size)
    {
      kind := Normal;
      start := start + size;
      size := portion;
      time := now;
      duration := seconds;
      progress := 0.0;
    }

    /** `ui_set_progress`, for a progress bar of `width` pixels. */
    method Set(fraction: real, width: nat)
      modifies this`progress
      ensures Value() == Next(old(Value()), SetTo(fraction, width))
      ensures progress == old(progress) || (old(progress) < progress == Clamp(fraction))
    {
      ghost var s := Value();
      var f := fraction;
      if f < 0.0 { f := 0.0; }
      if f > 1.0 { f := 1.0; }
      assert f == Clamp(fraction);
      if kind == Normal && f > progress {
        var scale := Scale(width, size);
        if Pixels(progress, scale) != Pixels(f, scale) {
          progress := f;
        }
      }
    }

    /** The timer step of `ui_thread`. */
    method Tick(now: int)
      modifies this`progress
      ensures Value() == Next(old(Value()), Event.Tick(now))
      ensures progress >= old(progress)
    {
      if kind == Normal && duration > 0 {
        var p := (now - time) as real / duration as real;
        if p > 1.0 { p := 1.0; }
        if p > progress {
          progress := p;
        }
      }
    }

    /** `ui_show_indeterminate_progress`. */
    method ShowIndeterminate()
      modifies this`kind
      ensures Value() == Next(old(Value()), Barberpole)
    {
      if kind != Indeterminate {
        kind := Indeterminate;
      }
    }

    /** `ui_reset_progress`. */
    method Reset()
      modifies this
      ensures Value() == RESET
    {
      kind := Hidden;
      start, size, time, duration, progress := 0.0, 0.0, 0, 0, 0.0;
    }
  }

  // ---------- between two resets

  datatype State = State(kind: BarType, start: real, size: real, progress: real, time: int, duration: int)

  const RESET := State(Hidden, 0.0, 0.0, 0.0, 0, 0)

  function Clamp(x: real): real {
    if x < 0.0 then 0.0 else if x > 1.0 then 1.0 else x
  }

  function Next(s: State, e: Event): State {
    match e
    case Show(portion, seconds, now) => State(Normal, s.start + s.size, portion, 0.0, now, seconds)
    case SetTo(fraction, width) =>
      var f, scale := Clamp(fraction), Scale(width, s.size);
      if s.kind == Normal && f > s.progress && Pixels(s.progress, scale) != Pixels(f, scale)
      then s.(progress := f) else s
    case Tick(now) =>
      if s.kind != Normal || s.duration <= 0 then s
      else
        var p := Due(s, now);
        var q := if p > 1.0 then 1.0 else p;
        if q > s.progress then s.(progress := q) else s
    case Barberpole => s.(kind := Indeterminate)
  }

  function After(events: seq<Event>): State {
    if events == [] then RESET else Next(After(events[..|events| - 1]), events[|events| - 1])
  }

  /** How much of the whole bar is filled. */
  function Filled(s: State): real {
    s.start + s.progress * s.size
  }

  /** The portions announced so far. */
  function Announced(events: seq<Event>): real {
    if events == [] then 0.0
    else
      var e := events[|events| - 1];
      Announced(events[..|events| - 1]) + if e.Show? then e.portion else 0.0
  }

  predicate NonNegative(events: seq<Event>) {
    forall i :: 0 <= i < |events| && events[i].Show? ==> events[i].portion >= 0.0
  }

  lemma {:induction false} WithinScope(events: seq<Event>)
    requires NonNegative(events)
    ensures var s := After(events);
      && 0.0 <= s.progress <= 1.0 && s.size >= 0.0
      && s.start + s.size == Announced(events)
  {
    if events != [] {
      var past := events[..|events| - 1];
      assert forall i :: 0 <= i < |past| ==> past[i] == events[i];
      WithinScope(past);
    }
  }

  lemma FilledBounds(s: State)
    requires 0.0 <= s.progress <= 1.0 && s.size >= 0.0
    ensures s.start <= Filled(s) <= s.start + s.size
  {
    var rest := 1.0 - s.progress;
    assert s.progress * s.size >= 0.0;
    assert rest * s.size >= 0.0;
    assert s.progress * s.size + rest * s.size == s.size;
  }

  /** The filled part never exceeds the portions announced. */
  lemma NeverOverfull(events: seq<Event>)
    requires NonNegative(events)
    ensures 0.0 <= Filled(After(events)) - After(events).start
    ensures Filled(After(events)) <= Announced(events)
  {
    WithinScope(events);
    var s := After(events);
    FilledBounds(s);
  }

  lemma FilledGrows(s: State, s': State)
    requires s.start == s'.start && s.size == s'.size >= 0.0 && s.progress <= s'.progress
    ensures Filled(s) <= Filled(s')
  {
    assert s.progress * s.size <= s'.progress * s.size;
  }

  /** Only announcing an operation changes the scope; nothing else lowers the progress in it. */
  lemma NextInScope(s: State, e: Event)
    requires !e.Show?
    ensures Next(s, e).start == s.start && Next(s, e).size == s.size && s.progress <= Next(s, e).progress
  {
  }

  lemma ShowFills(s: State, e: Event)
    requires e.Show?
    ensures Filled(Next(s, e)) == s.start + s.size
  {
  }

  /** Whatever happens next, the bar does not move back. */
  lemma NeverMovesBack(s: State, e: Event)
    requires 0.0 <= s.progress <= 1.0 && s.size >= 0.0
    ensures Filled(s) <= Filled(Next(s, e))
  {
    if e.Show? {
      ShowFills(s, e);
      FilledBounds(s);
    } else {
      NextInScope(s, e);
      FilledGrows(s, Next(s, e));
    }
  }

  /** Over any continuation between two resets. */
  lemma {:induction false} Monotone(events: seq<Event>, more: seq<Event>)
    requires NonNegative(events + more)
    ensures Filled(After(events)) <= Filled(After(events + more))
    decreases |more|
  {
    if more == [] {
      assert events + more == events;
    } else {
      var init, last := more[..|more| - 1], more[|more| - 1];
      assert events + more == (events + init) + [last];
      assert forall i :: 0 <= i < |events + init| ==> (events + init)[i] == (events + more)[i];
      Monotone(events, init);
      WithinScope(events + init);
      assert (events + more)[..|events + init|] == events + init;
      NeverMovesBack(After(events + init), last);
    }
  }

  /** The share of a timed scope that should have passed. */
  function Due(s: State, now: int): real
    requires s.duration > 0
  {
    (now - s.time) as real / s.duration as real
  }

  lemma TickReaches(s: State, now: int)
    requires s.kind == Normal && s.duration > 0
    ensures var q := Next(s, Event.Tick(now)).progress; q >= 1.0 || q >= Due(s, now)
  {
  }

  /** After a timer step a timed scope is full or at least as far as its duration says. */
  lemma MinimumRate(events: seq<Event>, now: int)
    requires After(events).kind == Normal && After(events).duration > 0
    ensures var q := After(events + [Event.Tick(now)]).progress;
      q >= 1.0 || q >= Due(After(events), now)
  {
    assert (events + [Event.Tick(now)])[..|events|] == events;
    TickReaches(After(events), now);
  }

  // ---------- what the operations mean for the whole bar

  /** A new scope begins where all the announced ones end, and the bar is filled up to there. */
  lemma ShowStartsAtEnd(events: seq<Event>, e: Event)
    requires NonNegative(events) && e.Show?
    ensures var s := After(events + [e]);
      s.start == Filled(s) == Announced(events) && s.start + s.size == Announced(events) + e.portion
  {
    assert (events + [e])[..|events|] == events;
    WithinScope(events);
  }

  lemma ColumnsMonotone(a: real, b: real, width: nat, size: real)
    requires a <= b && size >= 0.0
    ensures Column(a, width, size) <= Column(b, width, size)
  {
    var scale := width as real * size;
    assert scale >= 0.0;
    assert a * scale <= b * scale;
  }

  /** A bar that takes every larger fraction, visible or not. */
  function ExactNext(s: State, e: Event): State {
    match e
    case SetTo(fraction, _) =>
      if s.kind == Normal && Clamp(fraction) > s.progress then s.(progress := Clamp(fraction)) else s
    case _ => Next(s, e)
  }

  function ExactAfter(events: seq<Event>): State {
    if events == [] then RESET else ExactNext(ExactAfter(events[..|events| - 1]), events[|events| - 1])
  }

  /** The states look alike on a bar of this width: the filled part of the scope ends in the same column. */
  predicate LooksLike(s: State, x: State, width: nat) {
    && x == s.(progress := x.progress) && s.progress <= x.progress
    && Column(s.progress, width, s.size) == Column(x.progress, width, s.size)
  }

  function Column(progress: real, width: nat, size: real): int {
    (progress * (width as real * size)).Floor
  }

  /** The columns compared are those of the picture: the share of the scope, of the width, rounded down. */
  lemma PixelsAreColumns(progress: real, width: nat, size: real)
    requires progress >= 0.0 && size >= 0.0
    ensures Pixels(progress, Scale(width, size)) == Column(progress, width, size)
    ensures var x := progress * (width as real * size);
      Column(progress, width, size) as real <= x < (Column(progress, width, size) + 1) as real
  {
    assert width as real * size >= 0.0;
    assert progress * (width as real * size) >= 0.0;
  }

  predicate OneWidth(events: seq<Event>, width: nat) {
    forall i :: 0 <= i < |events| && events[i].SetTo? ==> events[i].width == width
  }

  lemma SetLooksLike(s: State, x: State, e: Event)
    requires e.SetTo? && LooksLike(s, x, e.width) && s.size >= 0.0 && s.progress >= 0.0
    ensures LooksLike(Next(s, e), ExactNext(x, e), e.width)
  {
    var f := Clamp(e.fraction);
    PixelsAreColumns(s.progress, e.width, s.size);
    PixelsAreColumns(x.progress, e.width, s.size);
    PixelsAreColumns(f, e.width, s.size);
    if f <= x.progress {
      if f > s.progress {
        ColumnsMonotone(s.progress, f, e.width, s.size);
        ColumnsMonotone(f, x.progress, e.width, s.size);
      }
    }
  }

  lemma TickLooksLike(s: State, x: State, e: Event, width: nat)
    requires e.Tick? && LooksLike(s, x, width) && s.size >= 0.0 && s.progress >= 0.0
    ensures LooksLike(Next(s, e), ExactNext(x, e), width)
  {
    if s.kind == Normal && s.duration > 0 {
      var p := Due(s, e.now);
      var q := if p > 1.0 then 1.0 else p;
      if s.progress < q <= x.progress {
        ColumnsMonotone(s.progress, q, width, s.size);
        ColumnsMonotone(q, x.progress, width, s.size);
      }
    }
  }

  /** Not taking fractions that move no pixel is invisible: the column drawn is that of the exact bar. */
  lemma {:induction false} SkippingIsInvisible(events: seq<Event>, width: nat)
    requires NonNegative(events) && OneWidth(events, width)
    ensures LooksLike(After(events), ExactAfter(events), width)
  {
    if events != [] {
      var past, e := events[..|events| - 1], events[|events| - 1];
      assert forall i :: 0 <= i < |past| ==> past[i] == events[i];
      SkippingIsInvisible(past, width);
      WithinScope(past);
      if e.SetTo? {
        SetLooksLike(After(past), ExactAfter(past), e);
      } else if e.Tick? {
        TickLooksLike(After(past), ExactAfter(past), e, width);
      }
    }
  }

  // ---------- a timed scope

  function Ticks(nows: seq<int>): (r: seq<Event>)
    ensures |r| == |nows|
  {
    seq(|nows|, i requires 0 <= i < |nows| => Event.Tick(nows[i]))
  }

  /** The latest of the times seen, the start included. */
  function Latest(t0: int, nows: seq<int>): int {
    if nows == [] then t0
    else
      var t := Latest(t0, nows[..|nows| - 1]);
      if nows[|nows| - 1] > t then nows[|nows| - 1] else t
  }

  /** The share of `seconds` that has elapsed, at most all of it. */
  function Share(elapsed: int, seconds: int): real
    requires seconds > 0
  {
    var p := elapsed as real / seconds as real;
    if p > 1.0 then 1.0 else p
  }

  lemma ShareMonotone(a: int, b: int, seconds: int)
    requires seconds > 0 && a <= b
    ensures Share(a, seconds) <= Share(b, seconds)
  {
    var p, q, n := a as real / seconds as real, b as real / seconds as real, seconds as real;
    assert p * n == a as real && q * n == b as real;
    assert (q - p) * n >= 0.0;
  }

  /** While only the timer moves it, the progress is the share of the duration elapsed at the latest time seen. */
  lemma {:induction false} TimedProgress(events: seq<Event>, e: Event, nows: seq<int>)
    requires e.Show? && e.seconds > 0
    ensures After(events + [e] + Ticks(nows)) ==
      After(events + [e]).(progress := Share(Latest(e.now, nows) - e.now, e.seconds))
  {
    var s := After(events + [e]);
    assert (events + [e])[..|events|] == events;
    if nows == [] {
      assert events + [e] + Ticks(nows) == events + [e];
    } else {
      var past, now := nows[..|nows| - 1], nows[|nows| - 1];
      var all := events + [e] + Ticks(nows);
      assert all[..|all| - 1] == events + [e] + Ticks(past);
      TimedProgress(events, e, past);
      TickAdvances(After(all[..|all| - 1]), now, Latest(e.now, past));
    }
  }

  lemma TickAdvances(s: State, now: int, latest: int)
    requires s.kind == Normal && s.duration > 0 && s.progress == Share(latest - s.time, s.duration)
    ensures Next(s, Event.Tick(now)) ==
      s.(progress := Share((if now > latest then now else latest) - s.time, s.duration))
  {
    if now > latest {
      ShareMonotone(latest - s.time, now - s.time, s.duration);
    } else {
      ShareMonotone(now - s.time, latest - s.time, s.duration);
    }
  }

  /** Fractions and the timer move only a bar that shows progress, and only forward within its scope. */
  lemma OnlyNormalMoves(s: State, e: Event)
    requires e.SetTo? || e.Tick?
    ensures Next(s, e) == s.(progress := Next(s, e).progress) && Next(s, e).progress >= s.progress
    ensures s.kind != Normal ==> Next(s, e) == s
    ensures Next(s, Barberpole) == s.(kind := Indeterminate)
  {
  }
}
