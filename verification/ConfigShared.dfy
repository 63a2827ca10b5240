/** Calls on the store, interleaved (config.c). */
module ConfigShared {
  import opened Wrappers
  import opened CString
  import opened ConfigText
  import Lock = ConfigLock

  /*
   Any number of threads call `read_conf` and `write_conf`, whose loops over the list advance
   one element at a time.  Because of the lock, every call behaves as if it happened at one
   instant between its call and its return.
   */

  datatype Op = Get(key: string) | Set(key: string, value: Option<string>)

  /** What a thread keeps during a call, with the history the theorem is stated on. */
  datatype Local = Local(
    op: Op,
    pos: nat,               // the element the loop visits next
    done: bool,             // the loop has ended
    found: Option<string>,  // read_conf: the value copied out
    stored: bool,           // write_conf: the result
    called: nat,            // writes completed when the call was made
    at: nat)                // writes completed when the loop ended, this one included

  /** `log` is the history of completed writes, in order. */
  datatype State = State(lock: Lock.State, locals: seq<Local>, store: seq<Entry>, log: seq<Op>)

  /** The store after performing the writes one at a time. */
  function Replay(base: seq<Entry>, log: seq<Op>): seq<Entry> {
    if log == [] then base
    else
      var last := log[|log| - 1];
      var s := Replay(base, log[..|log| - 1]);
      if last.Set? then Write(s, last.key, last.value) else s
  }

  predicate Init(base: seq<Entry>, s: State) {
    && Lock.Init(s.lock)
    && |s.locals| == |s.lock.pcs|
    && s.store == base && s.log == []
  }

  /** One iteration of the search loop. */
  function Search(l: Local, store: seq<Entry>, time: nat): Local {
    if l.pos < |store| && store[l.pos].key == l.op.key
    then l.(done := true, found := Some(store[l.pos].value), at := time)
    else if l.pos < |store| then l.(pos := l.pos + 1)
    else l.(done := true, found := None, at := time)
  }

  predicate SearchStep(s: State, s': State, t: nat)
    requires t < |s.locals|
  {
    && s'.lock == s.lock && s'.store == s.store && s'.log == s.log
    && s'.locals == s.locals[t := Search(s.locals[t], s.store, |s.log|)]
  }

  /** One iteration of the editing loop; it is the last one if the write is logged. */
  predicate Edit(l: Local, store: seq<Entry>, l': Local, store': seq<Entry>)
    requires l.op.Set?
  {
    if l.pos < |store| && store[l.pos].key == l.op.key then
      && l' == l.(done := true, stored := l.op.value.Some?, at := l'.at)
      && store' == if l.op.value.Some? then store[l.pos := Entry(l.op.key, l.op.value.value)]
                   else store[..l.pos] + store[l.pos + 1..]
    else if l.pos < |store| then
      && l' == l.(pos := l.pos + 1)
      && if l.pos + 1 == |store| && l.op.value.Some? then
           && |store'| == |store| + 1 && store'[..|store|] == store && store'[|store|].key == l.op.key
         else store' == store
    else
      l' == l.(done := true, stored := false, at := l'.at) && store' == store
  }

  predicate EditStep(s: State, s': State, t: nat)
    requires t < |s.locals| && s.locals[t].op.Set?
  {
    && |s'.locals| == |s.locals| && s'.lock == s.lock
    && s'.locals == s.locals[t := s'.locals[t]]
    && Edit(s.locals[t], s.store, s'.locals[t], s'.store)
    && (if s'.locals[t].done then s'.log == s.log + [s.locals[t].op] && s'.locals[t].at == |s'.log|
        else s'.log == s.log)
  }

  /** A fresh call. */
  predicate Called(l: Local, pc: nat, time: nat) {
    && l.pos == 0 && !l.done && l.called == time
    && (if pc == 22 then l.op.Get? else l.op.Set?)
  }

  predicate LockStep(s: State, s': State, t: nat)
    requires t < |s.locals| == |s.lock.pcs|
  {
    && |s'.locals| == |s.locals|
    && Lock.Step(s.lock, s'.lock, t)
    && s'.store == s.store && s'.log == s.log
    && s'.locals == s.locals[t := s'.locals[t]]
    && (if s.lock.pcs[t] == Lock.IDLE then Called(s'.locals[t], s'.lock.pcs[t], |s.log|)
        else s'.locals[t] == s.locals[t])
  }

  /** Thread `t` advances its loop, or moves on in the protocol once the loop has ended. */
  predicate Step(s: State, s': State, t: nat) {
    && t < |s.lock.pcs| == |s.locals|
    && var pc, l := s.lock.pcs[t], s.locals[t];
       if pc == Lock.READING && !l.done then SearchStep(s, s', t)
       else if pc == Lock.WRITING && !l.done then l.op.Set? && EditStep(s, s', t)
       else LockStep(s, s', t)
  }

  ghost predicate Next(s: State, s': State) {
    exists t: nat :: Step(s, s', t)
  }

  ghost predicate StepAt(run: seq<State>, i: nat)
    requires i + 1 < |run|
  {
    Next(run[i], run[i + 1])
  }

  ghost predicate Run(base: seq<Entry>, run: seq<State>) {
    && |run| > 0
    && Init(base, run[0])
    && forall i: nat :: i + 1 < |run| ==> StepAt(run, i)
  }

  // ---------- what each thread knows

  predicate Reader(pc: nat) { 22 <= pc <= 47 }
  predicate Writer(pc: nat) { 55 <= pc <= 106 }

  /** The result of a call is that of the sequential operation, at a time within the call. */
  ghost predicate Linearized(base: seq<Entry>, log: seq<Op>, l: Local) {
    && l.called <= l.at <= |log|
    && match l.op
       case Get(key) => l.found == Lookup(Replay(base, log[..l.at]), key)
       case Set(_, value) =>
         && l.called < l.at && log[l.at - 1] == l.op
         && l.stored == WriteFound(Replay(base, log[..l.at - 1]), value)
  }

  ghost predicate ThreadOk(base: seq<Entry>, s: State, t: nat)
    requires t < |s.lock.pcs| == |s.locals|
  {
    var pc, l := s.lock.pcs[t], s.locals[t];
    && (Reader(pc) ==> l.op.Get?)
    && (Writer(pc) ==> l.op.Set?)
    && (22 <= pc <= 29 || 55 <= pc <= 60 ==> l.pos == 0 && !l.done)
    && (45 <= pc <= 47 || 103 <= pc <= 106 ==> l.done)
    && (pc != Lock.IDLE ==> l.called <= |s.log|)
    && (pc != Lock.IDLE && l.done ==> Linearized(base, s.log, l))
    && (pc == Lock.READING && !l.done ==>
          l.pos <= |s.store| && forall k :: 0 <= k < l.pos ==> s.store[k].key != l.op.key)
    && (pc == Lock.WRITING && !l.done ==>
          Walking(Replay(base, s.log), s.store, l.op.key, l.op.value, l.pos))
  }

  predicate Editing(s: State, t: nat)
    requires t < |s.lock.pcs| == |s.locals|
  {
    s.lock.pcs[t] == Lock.WRITING && !s.locals[t].done
  }

  /** While no edit is under way, the store is the sequential outcome of the logged writes. */
  ghost predicate Settled(base: seq<Entry>, s: State)
    requires |s.lock.pcs| == |s.locals|
  {
    (forall t: nat :: t < |s.locals| ==> !Editing(s, t)) ==> s.store == Replay(base, s.log)
  }

  ghost predicate Inv(base: seq<Entry>, s: State) {
    && |s.locals| == |s.lock.pcs|
    && Lock.Inv(s.lock) && Lock.AtLines(s.lock)
    && (forall t: nat :: t < |s.locals| ==> ThreadOk(base, s, t))
    && Settled(base, s)
  }

  lemma {:induction false} LookupFrom(store: seq<Entry>, key: string, i: nat)
    requires i <= |store|
    requires forall k :: 0 <= k < i ==> store[k].key != key
    ensures Lookup(store, key) == Lookup(store[i..], key)
  {
    if i > 0 {
      LookupFrom(store[1..], key, i - 1);
      assert store[1..][i - 1..] == store[i..];
    } else {
      assert store[0..] == store;
    }
  }

  /** Later writes do not change an earlier result. */
  lemma LinearizedLater(base: seq<Entry>, log: seq<Op>, op: Op, l: Local)
    requires Linearized(base, log, l)
    ensures Linearized(base, log + [op], l)
  {
    assert (log + [op])[..l.at] == log[..l.at];
    if l.op.Set? {
      assert (log + [op])[..l.at - 1] == log[..l.at - 1];
    }
  }

  /** Nobody edits while `t` searches or edits, apart from `t`. */
  lemma NobodyElseEdits(s: State, t: nat, u: nat)
    requires |s.locals| == |s.lock.pcs| && Lock.Inv(s.lock)
    requires t < |s.locals| && u < |s.locals| && t != u
    requires s.lock.pcs[t] == Lock.READING || s.lock.pcs[t] == Lock.WRITING
    ensures s.lock.pcs[u] != Lock.WRITING
    ensures s.lock.pcs[t] == Lock.WRITING ==> s.lock.pcs[u] != Lock.READING
  {
    Lock.InvExclusive(s.lock, u);
    Lock.InvExclusive(s.lock, t);
  }

  lemma SearchThread(base: seq<Entry>, s: State, s': State, t: nat)
    requires Inv(base, s) && t < |s.locals|
    requires s.lock.pcs[t] == Lock.READING && !s.locals[t].done && SearchStep(s, s', t)
    requires forall u: nat :: u < |s.locals| ==> !Editing(s, u)
    ensures |s'.locals| == |s.locals| && ThreadOk(base, s', t)
  {
    var l := s.locals[t];
    assert ThreadOk(base, s, t);
    LookupFrom(s.store, l.op.key, l.pos);
    assert s.log[..|s.log|] == s.log;
  }

  lemma SearchInv(base: seq<Entry>, s: State, s': State, t: nat)
    requires Inv(base, s) && t < |s.locals|
    requires s.lock.pcs[t] == Lock.READING && !s.locals[t].done && SearchStep(s, s', t)
    ensures Inv(base, s')
  {
    forall u: nat | u < |s.locals| ensures !Editing(s, u) {
      if u != t { NobodyElseEdits(s, t, u); }
    }
    SearchThread(base, s, s', t);
    forall u: nat | u < |s'.locals| ensures ThreadOk(base, s', u) {
      if u != t { assert ThreadOk(base, s, u); }
    }
  }

  /** The edit that ends the loop completes the sequential write. */
  lemma EditEnds(base: seq<Entry>, s: State, s': State, t: nat)
    requires t < |s.locals| == |s.lock.pcs| && s.locals[t].op.Set? && EditStep(s, s', t)
    requires s.locals[t].called <= |s.log|
    requires var l := s.locals[t]; !l.done && Walking(Replay(base, s.log), s.store, l.op.key, l.op.value, l.pos)
    ensures var l := s'.locals[t];
      if l.done then s'.store == Replay(base, s'.log) && Linearized(base, s'.log, l)
      else Walking(Replay(base, s'.log), s'.store, l.op.key, l.op.value, l.pos)
  {
    var l, l', before := s.locals[t], s'.locals[t], Replay(base, s.log);
    if l'.done {
      assert s'.log[..|s'.log| - 1] == s.log;
      if l.pos < |s.store| {
        WalkHit(before, s.store, l.op.key, l.op.value, l.pos);
      } else {
        WalkMiss(before, s.store, l.op.key, l.op.value);
      }
    } else {
      assert s.store == before;
    }
  }

  lemma EditOthers(base: seq<Entry>, s: State, s': State, t: nat, u: nat)
    requires Inv(base, s) && t < |s.locals| && u < |s.locals| && u != t
    requires s.lock.pcs[t] == Lock.WRITING && s.locals[t].op.Set? && EditStep(s, s', t)
    ensures ThreadOk(base, s', u) && !Editing(s', u)
  {
    NobodyElseEdits(s, t, u);
    assert ThreadOk(base, s, u);
    if s.lock.pcs[u] != Lock.IDLE && s.locals[u].done {
      LinearizedLater(base, s.log, s.locals[t].op, s.locals[u]);
    }
  }

  lemma EditInv(base: seq<Entry>, s: State, s': State, t: nat)
    requires Inv(base, s) && t < |s.locals|
    requires Editing(s, t) && s.locals[t].op.Set? && EditStep(s, s', t)
    ensures Inv(base, s')
  {
    assert ThreadOk(base, s, t);
    EditEnds(base, s, s', t);
    forall u: nat | u < |s'.locals| ensures ThreadOk(base, s', u) {
      if u != t { EditOthers(base, s, s', t, u); }
    }
    assert Settled(base, s') by {
      assert !s'.locals[t].done ==> Editing(s', t);
    }
  }

  /** Where a thread's own knowledge goes when it moves in the protocol. */
  lemma LockThread(base: seq<Entry>, s: State, s': State, t: nat)
    requires Inv(base, s) && t < |s.locals| && LockStep(s, s', t)
    requires s.lock.pcs[t] == Lock.READING || s.lock.pcs[t] == Lock.WRITING ==> s.locals[t].done
    requires Lock.Inv(s'.lock)
    ensures ThreadOk(base, s', t)
  {
    assert ThreadOk(base, s, t);
    if s'.lock.pcs[t] == Lock.WRITING {
      LockMoves(s.lock.pcs[t], s.lock.locks, s'.lock.pcs[t], s'.lock.locks);
      forall u: nat | u < |s.locals| ensures !Editing(s, u) {
        if u != t {
          NobodyElseEdits(s', t, u);
        }
      }
    } else {
      LockMoves(s.lock.pcs[t], s.lock.locks, s'.lock.pcs[t], s'.lock.locks);
    }
  }

  /** The protocol moves, as far as the loops care. */
  lemma LockMoves(pc: nat, l: Lock.Locks, pc': nat, l': Lock.Locks)
    requires Lock.Move(pc, l, pc', l')
    ensures pc == Lock.IDLE ==> pc' == 22 || pc' == 55
    ensures 22 <= pc <= 29 ==> 23 <= pc' <= 29 || pc' == Lock.READING
    ensures 55 <= pc <= 60 ==> 56 <= pc' <= 60 || pc' == Lock.WRITING
    ensures 44 <= pc <= 47 ==> 45 <= pc' <= 47 || pc' == Lock.IDLE
    ensures 101 <= pc <= 106 ==> 103 <= pc' <= 106 || pc' == Lock.IDLE
  {
  }

  lemma LockInv(base: seq<Entry>, s: State, s': State, t: nat)
    requires Inv(base, s) && t < |s.locals| && LockStep(s, s', t)
    requires s.lock.pcs[t] == Lock.READING || s.lock.pcs[t] == Lock.WRITING ==> s.locals[t].done
    ensures Inv(base, s')
  {
    Lock.StepInv(s.lock, s'.lock, t);
    Lock.MoveLine(s.lock.pcs[t], s.lock.locks, s'.lock.pcs[t], s'.lock.locks);
    LockThread(base, s, s', t);
    forall u: nat | u < |s'.locals| ensures ThreadOk(base, s', u) {
      if u != t { assert ThreadOk(base, s, u); }
    }
    LockSettled(base, s, s', t);
  }

  lemma LockSettled(base: seq<Entry>, s: State, s': State, t: nat)
    requires Inv(base, s) && t < |s.locals| && LockStep(s, s', t)
    requires s.lock.pcs[t] == Lock.READING || s.lock.pcs[t] == Lock.WRITING ==> s.locals[t].done
    ensures Settled(base, s')
  {
    if forall u: nat :: u < |s'.locals| ==> !Editing(s', u) {
      forall u: nat | u < |s.locals| ensures !Editing(s, u) {
        if u != t { assert !Editing(s', u); }
      }
    }
  }

  lemma StepInv(base: seq<Entry>, s: State, s': State, t: nat)
    requires Inv(base, s) && Step(s, s', t)
    ensures Inv(base, s')
  {
    var pc, l := s.lock.pcs[t], s.locals[t];
    if pc == Lock.READING && !l.done {
      SearchInv(base, s, s', t);
    } else if pc == Lock.WRITING && !l.done {
      EditInv(base, s, s', t);
    } else {
      LockInv(base, s, s', t);
    }
  }

  lemma NextInv(base: seq<Entry>, s: State, s': State)
    requires Inv(base, s) && Next(s, s')
    ensures Inv(base, s')
  {
    var t: nat :| Step(s, s', t);
    StepInv(base, s, s', t);
  }

  lemma InitInv(base: seq<Entry>, s: State)
    requires Init(base, s)
    ensures Inv(base, s)
  {
    Lock.InitInv(s.lock);
  }

  lemma {:induction false} RunInv(base: seq<Entry>, run: seq<State>, i: nat)
    requires Run(base, run) && i < |run|
    ensures Inv(base, run[i])
  {
    if i == 0 {
      InitInv(base, run[0]);
    } else {
      RunInv(base, run, i - 1);
      assert StepAt(run, i - 1);
      NextInv(base, run[i - 1], run[i]);
    }
  }

  /**
   In every interleaving, a `read_conf` that has ended its search holds the value that the
   sequential store had after some number of writes between its call and now, and a
   `write_conf` that has ended its edit took effect, with its sequential result, at its own
   place in the order of writes.
   */
  lemma Linearizable(base: seq<Entry>, run: seq<State>, i: nat, t: nat)
    requires Run(base, run) && i < |run| && t < |run[i].locals| == |run[i].lock.pcs|
    requires run[i].lock.pcs[t] != Lock.IDLE && run[i].locals[t].done
    ensures Linearized(base, run[i].log, run[i].locals[t])
  {
    RunInv(base, run, i);
    assert ThreadOk(base, run[i], t);
  }

  /** Between edits the list is the sequential outcome of all completed writes. */
  lemma StoreIsSequential(base: seq<Entry>, run: seq<State>, i: nat)
    requires Run(base, run) && i < |run|
    requires forall t: nat :: t < |run[i].lock.pcs| ==> run[i].lock.pcs[t] != Lock.WRITING
    ensures run[i].store == Replay(base, run[i].log)
  {
    RunInv(base, run, i);
  }

  // ---------- progress of threads and loops together

  /** The next iteration of the search loop is always possible. */
  lemma SearchGoesOn(s: State, t: nat) returns (s': State)
    requires t < |s.lock.pcs| == |s.locals| && s.lock.pcs[t] == Lock.READING && !s.locals[t].done
    ensures Step(s, s', t)
  {
    s' := s.(locals := s.locals[t := Search(s.locals[t], s.store, |s.log|)]);
  }

  /** So is that of the editing loop, whether it changes, removes, appends or passes an element. */
  lemma EditGoesOn(s: State, t: nat) returns (s': State)
    requires t < |s.lock.pcs| == |s.locals| && s.lock.pcs[t] == Lock.WRITING && !s.locals[t].done
    requires s.locals[t].op.Set?
    ensures Step(s, s', t)
  {
    var l, time := s.locals[t], |s.log| + 1;
    if l.pos < |s.store| && s.store[l.pos].key == l.op.key {
      var store := if l.op.value.Some? then s.store[l.pos := Entry(l.op.key, l.op.value.value)]
                   else s.store[..l.pos] + s.store[l.pos + 1..];
      s' := s.(locals := s.locals[t := l.(done := true, stored := l.op.value.Some?, at := time)],
               store := store, log := s.log + [l.op]);
    } else if l.pos < |s.store| {
      var store := if l.pos + 1 == |s.store| && l.op.value.Some? then s.store + [Entry(l.op.key, "")] else s.store;
      s' := s.(locals := s.locals[t := l.(pos := l.pos + 1)], store := store);
    } else {
      s' := s.(locals := s.locals[t := l.(done := true, stored := false, at := time)], log := s.log + [l.op]);
    }
  }

  /** A move of the protocol, with the loops untouched. */
  lemma LockGoesOn(s: State, lock: Lock.State, t: nat) returns (s': State)
    requires t < |s.lock.pcs| == |s.locals| && s.lock.pcs[t] != Lock.IDLE && Lock.Step(s.lock, lock, t)
    requires s.lock.pcs[t] == Lock.READING || s.lock.pcs[t] == Lock.WRITING ==> s.locals[t].done
    ensures Step(s, s', t)
  {
    s' := s.(lock := lock);
    assert s.locals[t := s.locals[t]] == s.locals;
  }

  /** An idle thread can call either function, with any arguments. */
  lemma CallsAnything(s: State, t: nat, op: Op) returns (s': State)
    requires t < |s.lock.pcs| == |s.locals| && s.lock.pcs[t] == Lock.IDLE
    ensures Step(s, s', t) && s'.locals[t].op == op && !s'.locals[t].done
    ensures s'.lock.pcs[t] == if op.Get? then 22 else 55
  {
    var pc := if op.Get? then 22 else 55;
    var lock := s.lock.(pcs := s.lock.pcs[t := pc]);
    assert Lock.CallMove(Lock.IDLE, s.lock.locks, pc, s.lock.locks);
    s' := s.(lock := lock, locals := s.locals[t := Local(op, 0, false, None, false, |s.log|, 0)]);
  }

  ghost predicate CanStep(s: State, t: nat) {
    exists s': State :: Step(s, s', t)
  }

  lemma ReadyCanStep(base: seq<Entry>, s: State, t: nat)
    requires Inv(base, s) && t < |s.lock.pcs| && s.lock.pcs[t] != Lock.IDLE
    requires Lock.Ready(s.lock.pcs[t], s.lock.locks)
    ensures CanStep(s, t)
  {
    assert ThreadOk(base, s, t);
    if s.lock.pcs[t] == Lock.READING && !s.locals[t].done {
      var s' := SearchGoesOn(s, t);
    } else if s.lock.pcs[t] == Lock.WRITING && !s.locals[t].done {
      var s' := EditGoesOn(s, t);
    } else {
      Lock.ReadyIsEnabled(s.lock, t);
      var lock: Lock.State :| Lock.Step(s.lock, lock, t);
      var s' := LockGoesOn(s, lock, t);
    }
  }

  /** Whenever a thread is inside a call, some thread inside a call can step: no call hangs in its loop. */
  lemma SomeoneSteps(base: seq<Entry>, run: seq<State>, i: nat, u: nat)
    requires Run(base, run) && i < |run| && u < |run[i].lock.pcs| && run[i].lock.pcs[u] != Lock.IDLE
    ensures exists t: nat :: t < |run[i].lock.pcs| && run[i].lock.pcs[t] != Lock.IDLE && CanStep(run[i], t)
  {
    RunInv(base, run, i);
    var t := Lock.SomeoneReady(run[i].lock, u);
    ReadyCanStep(base, run[i], t);
  }

  predicate InLoop(s: State, t: nat)
    requires t < |s.lock.pcs| == |s.locals|
  {
    s.lock.pcs[t] in {Lock.READING, Lock.WRITING} && !s.locals[t].done
  }

  /** A thread in one of the loops can step whatever the others do. */
  lemma LoopCanStep(base: seq<Entry>, run: seq<State>, i: nat, t: nat)
    requires Run(base, run) && i < |run| && t < |run[i].lock.pcs| == |run[i].locals| && InLoop(run[i], t)
    ensures CanStep(run[i], t)
  {
    RunInv(base, run, i);
    var s := run[i];
    assert ThreadOk(base, s, t);
    if s.lock.pcs[t] == Lock.READING {
      var s' := SearchGoesOn(s, t);
    } else {
      var s' := EditGoesOn(s, t);
    }
  }

  /** A step of a thread in its loop ends the loop or goes to the next element. */
  lemma OwnStepAdvances(s: State, s': State, t: nat)
    requires Step(s, s', t) && InLoop(s, t)
    ensures t < |s'.locals| && s'.locals[t] != s.locals[t]
    ensures s'.locals[t].done || s'.locals[t].pos == s.locals[t].pos + 1
  {
  }

  /** Iterations that may be left to it: the elements not yet visited, one it appends, and the end. */
  ghost function Left(base: seq<Entry>, s: State, t: nat): int
    requires t < |s.locals|
  {
    |Replay(base, s.log)| + 2 - s.locals[t].pos
  }

  lemma LeftPositive(base: seq<Entry>, s: State, t: nat)
    requires Inv(base, s) && t < |s.locals| && InLoop(s, t)
    ensures Left(base, s, t) >= 1
  {
    assert ThreadOk(base, s, t);
    if s.lock.pcs[t] == Lock.READING {
      forall u: nat | u < |s.locals| ensures !Editing(s, u) {
        if u != t { NobodyElseEdits(s, t, u); }
      }
    }
  }

  /** Steps of other threads leave a thread in its loop where it is, and its own bring it nearer to the end. */
  lemma LoopStep(base: seq<Entry>, s: State, s': State, t: nat)
    requires Inv(base, s) && t < |s.locals| == |s'.locals| == |s'.lock.pcs|
    requires InLoop(s, t) && Next(s, s') && InLoop(s', t)
    ensures if s'.locals[t] == s.locals[t] then Left(base, s', t) == Left(base, s, t)
            else Left(base, s', t) == Left(base, s, t) - 1
  {
    var u: nat :| Step(s, s', u);
    assert ThreadOk(base, s, t);
    if u != t {
      NobodyElseEdits(s, t, u);
    }
  }

  /** How often the thread itself has stepped between i and j. */
  function OwnSteps(run: seq<State>, i: nat, j: nat, t: nat): nat
    requires i <= j < |run| && forall k :: i <= k <= j ==> t < |run[k].locals|
    decreases j
  {
    if i == j then 0
    else OwnSteps(run, i, j - 1, t) + if run[j].locals[t] == run[j - 1].locals[t] then 0 else 1
  }

  ghost predicate StaysInLoop(run: seq<State>, i: nat, j: nat, t: nat) {
    && i <= j < |run|
    && forall k :: i <= k <= j ==> t < |run[k].lock.pcs| == |run[k].locals| && InLoop(run[k], t)
  }

  lemma {:induction false} LoopSteps(base: seq<Entry>, run: seq<State>, i: nat, j: nat, t: nat)
    requires Run(base, run) && StaysInLoop(run, i, j, t)
    ensures OwnSteps(run, i, j, t) + Left(base, run[j], t) == Left(base, run[i], t)
    decreases j
  {
    if i < j {
      LoopSteps(base, run, i, j - 1, t);
      RunInv(base, run, j - 1);
      assert StepAt(run, j - 1);
      LoopStep(base, run[j - 1], run[j], t);
    }
  }

  /** A loop entered on a store ends within two more of the thread's own steps than it has elements. */
  lemma LoopEnds(base: seq<Entry>, run: seq<State>, i: nat, j: nat, t: nat)
    requires Run(base, run) && StaysInLoop(run, i, j, t) && run[i].locals[t].pos == 0
    ensures OwnSteps(run, i, j, t) < |Replay(base, run[i].log)| + 2
  {
    LoopSteps(base, run, i, j, t);
    RunInv(base, run, j);
    LeftPositive(base, run[j], t);
  }
}
