/** Readers and writers (config.c). */
module ConfigLock {

  /*
   The writer-preference lock of `read_conf` and `write_conf`, as a transition system over
   any number of threads.  Each mutex is a binary semaphore, because the thread that unlocks
   `gWrite` or `gRead` need not be the one that locked it.
   */

  /**
   A thread's position is the line of config.c it executes next; IDLE is outside both
   functions.  `read_conf` runs over lines 22 to 47 and `write_conf` over lines 55 to 106.
   A reader at line 44 is searching the list, a writer at line 101 is editing it.
   */
  type Pc = nat

  const IDLE: Pc := 0
  const READING: Pc := 44
  const WRITING: Pc := 101

  /** The five mutexes (true: locked) and the two counters. */
  datatype Locks = Locks(
    m1: bool, m2: bool, m3: bool, gWrite: bool, gRead: bool,
    numreaders: int, numwriters: int)

  datatype State = State(pcs: seq<Pc>, locks: Locks)

  const UNLOCKED := Locks(false, false, false, false, false, 0, 0)

  predicate Init(s: State) {
    && (forall t :: 0 <= t < |s.pcs| ==> s.pcs[t] == IDLE)
    && s.locks == UNLOCKED
  }

  /** A line of `read_conf`; a lock action is possible only on a free mutex. */
  predicate ReaderMove(pc: Pc, l: Locks, pc': Pc, l': Locks) {
    match pc
    case 22 => pc' == 23 && !l.m3 && l' == l.(m3 := true)
    case 23 => pc' == 24 && !l.gRead && l' == l.(gRead := true)
    case 24 => pc' == 25 && !l.m1 && l' == l.(m1 := true)
    case 25 => pc' == 26 && l' == l.(numreaders := l.numreaders + 1)
    case 26 => pc' == 27 && if l.numreaders == 1 then !l.gWrite && l' == l.(gWrite := true) else l' == l
    case 27 => pc' == 28 && l' == l.(m1 := false)
    case 28 => pc' == 29 && l' == l.(gRead := false)
    case 29 => pc' == READING && l' == l.(m3 := false)
    case 44 => pc' == 45 && !l.m1 && l' == l.(m1 := true)
    case 45 => pc' == 46 && l' == l.(numreaders := l.numreaders - 1)
    case 46 => pc' == 47 && l' == if l.numreaders == 0 then l.(gWrite := false) else l
    case 47 => pc' == IDLE && l' == l.(m1 := false)
    case _ => false
  }

  /** A line of `write_conf`. */
  predicate WriterMove(pc: Pc, l: Locks, pc': Pc, l': Locks) {
    match pc
    case 55 => pc' == 56 && !l.m2 && l' == l.(m2 := true)
    case 56 => pc' == 57 && l' == l.(numwriters := l.numwriters + 1)
    case 57 => pc' == 58 && if l.numwriters == 1 then !l.gRead && l' == l.(gRead := true) else l' == l
    case 58 => pc' == 60 && l' == l.(m2 := false)
    case 60 => pc' == WRITING && !l.gWrite && l' == l.(gWrite := true)
    case 101 => pc' == 103 && l' == l.(gWrite := false)
    case 103 => pc' == 104 && !l.m2 && l' == l.(m2 := true)
    case 104 => pc' == 105 && l' == l.(numwriters := l.numwriters - 1)
    case 105 => pc' == 106 && l' == if l.numwriters == 0 then l.(gRead := false) else l
    case 106 => pc' == IDLE && l' == l.(m2 := false)
    case _ => false
  }

  /** An idle thread calls one of the two functions. */
  predicate CallMove(pc: Pc, l: Locks, pc': Pc, l': Locks) {
    pc == IDLE && (pc' == 22 || pc' == 55) && l' == l
  }

  predicate Move(pc: Pc, l: Locks, pc': Pc, l': Locks) {
    CallMove(pc, l, pc', l') || ReaderMove(pc, l, pc', l') || WriterMove(pc, l, pc', l')
  }

  /** Thread `t` moves and the others stay where they are. */
  predicate Step(s: State, s': State, t: nat) {
    && t < |s.pcs| == |s'.pcs|
    && s'.pcs == s.pcs[t := s'.pcs[t]]
    && Move(s.pcs[t], s.locks, s'.pcs[t], s'.locks)
  }

  ghost predicate Next(s: State, s': State) {
    exists t: nat :: Step(s, s', t)
  }

  ghost predicate StepAt(run: seq<State>, i: nat)
    requires i + 1 < |run|
  {
    Next(run[i], run[i + 1])
  }

  /** A run: any interleaving of the threads' steps from the initial state. */
  ghost predicate Run(run: seq<State>) {
    && |run| > 0
    && Init(run[0])
    && forall i: nat :: i + 1 < |run| ==> StepAt(run, i)
  }

  // ---------- counting threads by position

  function One(b: bool): int { if b then 1 else 0 }

  /** Between `numreaders++` and `numreaders--`. */
  predicate CountedReader(pc: Pc) { 26 <= pc <= 45 }

  /** Between `numwriters++` and `numwriters--`. */
  predicate CountedWriter(pc: Pc) { 57 <= pc <= 104 }

  /** A reader on whose behalf `gWrite` is held. */
  predicate OwnsWrite(pc: Pc) { 27 <= pc <= 46 }

  /** A writer on whose behalf `gRead` is held. */
  predicate OwnsRead(pc: Pc) { 58 <= pc <= 105 }

  /** A reader that holds `gRead` itself. */
  predicate HoldsRead(pc: Pc) { 24 <= pc <= 28 }

  predicate Holds1(pc: Pc) { 25 <= pc <= 27 || 45 <= pc <= 47 }
  predicate Holds2(pc: Pc) { 56 <= pc <= 58 || 104 <= pc <= 106 }
  predicate Holds3(pc: Pc) { 23 <= pc <= 29 }

  predicate TakesWrite(pc: Pc) { pc == 26 }
  predicate DropsWrite(pc: Pc) { pc == 46 }
  predicate TakesRead(pc: Pc) { pc == 57 }
  predicate DropsRead(pc: Pc) { pc == 105 }
  predicate Writes(pc: Pc) { pc == WRITING }

  /** How many threads stand at a position in `P`. */
  function Count(pcs: seq<Pc>, P: Pc -> bool): nat {
    if pcs == [] then 0 else One(P(pcs[0])) + Count(pcs[1..], P)
  }

  /** When thread `t` moves, the count loses its old position and gains its new one. */
  lemma {:induction false} CountMoved(pcs: seq<Pc>, t: nat, to: Pc, P: Pc -> bool)
    requires t < |pcs|
    ensures Count(pcs[t := to], P) == Count(pcs, P) - One(P(pcs[t])) + One(P(to))
  {
    if t == 0 {
      assert pcs[0 := to][1..] == pcs[1..];
    } else {
      assert pcs[t := to][1..] == pcs[1..][t - 1 := to];
      CountMoved(pcs[1..], t - 1, to, P);
    }
  }

  lemma {:induction false} Counted(pcs: seq<Pc>, t: nat, P: Pc -> bool)
    requires t < |pcs|
    ensures P(pcs[t]) ==> Count(pcs, P) >= 1
  {
    if t > 0 {
      Counted(pcs[1..], t - 1, P);
    }
  }

  lemma {:induction false} CountedTwice(pcs: seq<Pc>, t: nat, u: nat, P: Pc -> bool)
    requires t < u < |pcs| && P(pcs[t]) && P(pcs[u])
    ensures Count(pcs, P) >= 2
  {
    if t == 0 {
      Counted(pcs[1..], u - 1, P);
    } else {
      CountedTwice(pcs[1..], t - 1, u - 1, P);
    }
  }

  lemma {:induction false} Witness(pcs: seq<Pc>, P: Pc -> bool) returns (t: nat)
    requires Count(pcs, P) >= 1
    ensures t < |pcs| && P(pcs[t])
  {
    if P(pcs[0]) {
      t := 0;
    } else {
      t := Witness(pcs[1..], P);
      t := t + 1;
    }
  }

  lemma {:induction false} CountNobody(pcs: seq<Pc>, P: Pc -> bool)
    requires forall t :: 0 <= t < |pcs| ==> !P(pcs[t])
    ensures Count(pcs, P) == 0
  {
    if pcs != [] {
      CountNobody(pcs[1..], P);
    }
  }

  /** `gWrite` is owned from line 26 to line 46, `numreaders` counts from line 25 to line 45. */
  lemma {:induction false} WriteOwners(pcs: seq<Pc>)
    ensures Count(pcs, OwnsWrite) + Count(pcs, TakesWrite) == Count(pcs, CountedReader) + Count(pcs, DropsWrite)
    ensures Count(pcs, TakesWrite) + Count(pcs, DropsWrite) <= Count(pcs, Holds1)
  {
    if pcs != [] {
      WriteOwners(pcs[1..]);
    }
  }

  /** `gRead` is owned from line 57 to line 105, `numwriters` counts from line 56 to line 104. */
  lemma {:induction false} ReadOwners(pcs: seq<Pc>)
    ensures Count(pcs, OwnsRead) + Count(pcs, TakesRead) == Count(pcs, CountedWriter) + Count(pcs, DropsRead)
    ensures Count(pcs, TakesRead) + Count(pcs, DropsRead) <= Count(pcs, Holds2)
  {
    if pcs != [] {
      ReadOwners(pcs[1..]);
    }
  }

  // ---------- the invariant

  ghost predicate CountersExact(s: State) {
    && s.locks.numreaders == Count(s.pcs, CountedReader)
    && s.locks.numwriters == Count(s.pcs, CountedWriter)
  }

  ghost predicate MutexesExact(s: State) {
    && Count(s.pcs, Holds1) == One(s.locks.m1)
    && Count(s.pcs, Holds2) == One(s.locks.m2)
    && Count(s.pcs, Holds3) == One(s.locks.m3)
  }

  ghost predicate WriteExact(s: State) {
    Count(s.pcs, Writes) + One(Count(s.pcs, OwnsWrite) > 0) == One(s.locks.gWrite)
  }

  ghost predicate ReadExact(s: State) {
    Count(s.pcs, HoldsRead) + One(Count(s.pcs, OwnsRead) > 0) == One(s.locks.gRead)
  }

  /** Every counter and every mutex equals an exact count of thread positions. */
  ghost predicate Inv(s: State) {
    CountersExact(s) && MutexesExact(s) && WriteExact(s) && ReadExact(s)
  }

  lemma InitInv(s: State)
    requires Init(s)
    ensures Inv(s)
  {
    CountNobody(s.pcs, CountedReader);
    CountNobody(s.pcs, CountedWriter);
    CountNobody(s.pcs, Holds1);
    CountNobody(s.pcs, Holds2);
    CountNobody(s.pcs, Holds3);
    CountNobody(s.pcs, Writes);
    CountNobody(s.pcs, OwnsWrite);
    CountNobody(s.pcs, HoldsRead);
    CountNobody(s.pcs, OwnsRead);
  }

  predicate CountersFollow(pc: Pc, l: Locks, pc': Pc, l': Locks) {
    && l'.numreaders - l.numreaders == One(CountedReader(pc')) - One(CountedReader(pc))
    && l'.numwriters - l.numwriters == One(CountedWriter(pc')) - One(CountedWriter(pc))
  }

  lemma ReaderCountersIn(pc: Pc, l: Locks, pc': Pc, l': Locks)
    requires pc <= 29 && ReaderMove(pc, l, pc', l')
    ensures CountersFollow(pc, l, pc', l')
  {
  }

  lemma ReaderCountersOut(pc: Pc, l: Locks, pc': Pc, l': Locks)
    requires pc > 29 && ReaderMove(pc, l, pc', l')
    ensures CountersFollow(pc, l, pc', l')
  {
  }

  lemma ReaderCounters(pc: Pc, l: Locks, pc': Pc, l': Locks)
    requires ReaderMove(pc, l, pc', l')
    ensures CountersFollow(pc, l, pc', l')
  {
    if pc <= 29 {
      ReaderCountersIn(pc, l, pc', l');
    } else {
      ReaderCountersOut(pc, l, pc', l');
    }
  }

  lemma WriterCountersIn(pc: Pc, l: Locks, pc': Pc, l': Locks)
    requires pc <= 60 && WriterMove(pc, l, pc', l')
    ensures CountersFollow(pc, l, pc', l')
  {
  }

  lemma WriterCountersOut(pc: Pc, l: Locks, pc': Pc, l': Locks)
    requires pc > 60 && WriterMove(pc, l, pc', l')
    ensures CountersFollow(pc, l, pc', l')
  {
  }

  lemma WriterCounters(pc: Pc, l: Locks, pc': Pc, l': Locks)
    requires WriterMove(pc, l, pc', l')
    ensures CountersFollow(pc, l, pc', l')
  {
    if pc <= 60 {
      WriterCountersIn(pc, l, pc', l');
    } else {
      WriterCountersOut(pc, l, pc', l');
    }
  }

  /** The counters change exactly with the positions they count. */
  lemma MoveCounters(pc: Pc, l: Locks, pc': Pc, l': Locks)
    requires Move(pc, l, pc', l')
    ensures CountersFollow(pc, l, pc', l')
  {
    if ReaderMove(pc, l, pc', l') {
      ReaderCounters(pc, l, pc', l');
    } else if WriterMove(pc, l, pc', l') {
      WriterCounters(pc, l, pc', l');
    }
  }

  predicate MutexesHeld(pc: Pc, l: Locks) {
    (Holds1(pc) ==> l.m1) && (Holds2(pc) ==> l.m2) && (Holds3(pc) ==> l.m3)
  }

  predicate MutexesFollow(pc: Pc, l: Locks, pc': Pc, l': Locks) {
    && One(l'.m1) - One(l.m1) == One(Holds1(pc')) - One(Holds1(pc))
    && One(l'.m2) - One(l.m2) == One(Holds2(pc')) - One(Holds2(pc))
    && One(l'.m3) - One(l.m3) == One(Holds3(pc')) - One(Holds3(pc))
  }

  lemma ReaderMutexesIn(pc: Pc, l: Locks, pc': Pc, l': Locks)
    requires pc <= 29 && ReaderMove(pc, l, pc', l') && MutexesHeld(pc, l)
    ensures MutexesFollow(pc, l, pc', l')
  {
  }

  lemma ReaderMutexesOut(pc: Pc, l: Locks, pc': Pc, l': Locks)
    requires pc > 29 && ReaderMove(pc, l, pc', l') && MutexesHeld(pc, l)
    ensures MutexesFollow(pc, l, pc', l')
  {
  }

  lemma ReaderMutexes(pc: Pc, l: Locks, pc': Pc, l': Locks)
    requires ReaderMove(pc, l, pc', l') && MutexesHeld(pc, l)
    ensures MutexesFollow(pc, l, pc', l')
  {
    if pc <= 29 {
      ReaderMutexesIn(pc, l, pc', l');
    } else {
      ReaderMutexesOut(pc, l, pc', l');
    }
  }

  lemma WriterMutexesIn(pc: Pc, l: Locks, pc': Pc, l': Locks)
    requires pc <= 60 && WriterMove(pc, l, pc', l') && MutexesHeld(pc, l)
    ensures MutexesFollow(pc, l, pc', l')
  {
  }

  lemma WriterMutexesOut(pc: Pc, l: Locks, pc': Pc, l': Locks)
    requires pc > 60 && WriterMove(pc, l, pc', l') && MutexesHeld(pc, l)
    ensures MutexesFollow(pc, l, pc', l')
  {
  }

  lemma WriterMutexes(pc: Pc, l: Locks, pc': Pc, l': Locks)
    requires WriterMove(pc, l, pc', l') && MutexesHeld(pc, l)
    ensures MutexesFollow(pc, l, pc', l')
  {
    if pc <= 60 {
      WriterMutexesIn(pc, l, pc', l');
    } else {
      WriterMutexesOut(pc, l, pc', l');
    }
  }

  /** A mutex changes exactly with the positions that hold it. */
  lemma MoveMutexes(pc: Pc, l: Locks, pc': Pc, l': Locks)
    requires Move(pc, l, pc', l') && MutexesHeld(pc, l)
    ensures MutexesFollow(pc, l, pc', l')
  {
    if ReaderMove(pc, l, pc', l') {
      ReaderMutexes(pc, l, pc', l');
    } else if WriterMove(pc, l, pc', l') {
      WriterMutexes(pc, l, pc', l');
    }
  }

  /** `gWrite`, with `inside` writers in their section and `owners` readers owning it. */
  predicate WriteKnown(pc: Pc, l: Locks, inside: nat, owners: nat) {
    && inside + One(owners > 0) == One(l.gWrite)
    && (TakesWrite(pc) ==> owners == l.numreaders - 1)
    && (DropsWrite(pc) ==> owners == l.numreaders + 1)
    && (Writes(pc) ==> inside > 0) && (OwnsWrite(pc) ==> owners > 0)
  }

  predicate WriteFollows(pc: Pc, pc': Pc, l': Locks, inside: nat, owners: nat) {
    inside - One(Writes(pc)) + One(Writes(pc'))
      + One(owners - One(OwnsWrite(pc)) + One(OwnsWrite(pc')) > 0) == One(l'.gWrite)
  }

  lemma ReaderWrite(pc: Pc, l: Locks, pc': Pc, l': Locks, inside: nat, owners: nat)
    requires ReaderMove(pc, l, pc', l') && WriteKnown(pc, l, inside, owners)
    ensures WriteFollows(pc, pc', l', inside, owners)
  {
  }

  lemma WriterWrite(pc: Pc, l: Locks, pc': Pc, l': Locks, inside: nat, owners: nat)
    requires WriterMove(pc, l, pc', l') && WriteKnown(pc, l, inside, owners)
    ensures WriteFollows(pc, pc', l', inside, owners)
  {
  }

  /** `gWrite` changes exactly with its owners. */
  lemma MoveWrite(pc: Pc, l: Locks, pc': Pc, l': Locks, inside: nat, owners: nat)
    requires Move(pc, l, pc', l') && WriteKnown(pc, l, inside, owners)
    ensures WriteFollows(pc, pc', l', inside, owners)
  {
    if ReaderMove(pc, l, pc', l') {
      ReaderWrite(pc, l, pc', l', inside, owners);
    } else if WriterMove(pc, l, pc', l') {
      WriterWrite(pc, l, pc', l', inside, owners);
    }
  }

  /** `gRead`, held by `holders` readers and owned by `owners` writers. */
  predicate ReadKnown(pc: Pc, l: Locks, holders: nat, owners: nat) {
    && holders + One(owners > 0) == One(l.gRead)
    && (TakesRead(pc) ==> owners == l.numwriters - 1)
    && (DropsRead(pc) ==> owners == l.numwriters + 1)
    && (HoldsRead(pc) ==> holders > 0) && (OwnsRead(pc) ==> owners > 0)
  }

  predicate ReadFollows(pc: Pc, pc': Pc, l': Locks, holders: nat, owners: nat) {
    holders - One(HoldsRead(pc)) + One(HoldsRead(pc'))
      + One(owners - One(OwnsRead(pc)) + One(OwnsRead(pc')) > 0) == One(l'.gRead)
  }

  lemma ReaderRead(pc: Pc, l: Locks, pc': Pc, l': Locks, holders: nat, owners: nat)
    requires ReaderMove(pc, l, pc', l') && ReadKnown(pc, l, holders, owners)
    ensures ReadFollows(pc, pc', l', holders, owners)
  {
  }

  lemma WriterRead(pc: Pc, l: Locks, pc': Pc, l': Locks, holders: nat, owners: nat)
    requires WriterMove(pc, l, pc', l') && ReadKnown(pc, l, holders, owners)
    ensures ReadFollows(pc, pc', l', holders, owners)
  {
  }

  /** `gRead` changes exactly with its holders and owners. */
  lemma MoveRead(pc: Pc, l: Locks, pc': Pc, l': Locks, holders: nat, owners: nat)
    requires Move(pc, l, pc', l') && ReadKnown(pc, l, holders, owners)
    ensures ReadFollows(pc, pc', l', holders, owners)
  {
    if ReaderMove(pc, l, pc', l') {
      ReaderRead(pc, l, pc', l', holders, owners);
    } else if WriterMove(pc, l, pc', l') {
      WriterRead(pc, l, pc', l', holders, owners);
    }
  }

  lemma StepCounters(s: State, s': State, t: nat)
    requires CountersExact(s) && Step(s, s', t)
    ensures CountersExact(s')
  {
    MoveCounters(s.pcs[t], s.locks, s'.pcs[t], s'.locks);
    CountMoved(s.pcs, t, s'.pcs[t], CountedReader);
    CountMoved(s.pcs, t, s'.pcs[t], CountedWriter);
  }

  lemma StepMutexes(s: State, s': State, t: nat)
    requires MutexesExact(s) && Step(s, s', t)
    ensures MutexesExact(s')
  {
    Counted(s.pcs, t, Holds1);
    Counted(s.pcs, t, Holds2);
    Counted(s.pcs, t, Holds3);
    MoveMutexes(s.pcs[t], s.locks, s'.pcs[t], s'.locks);
    CountMoved(s.pcs, t, s'.pcs[t], Holds1);
    CountMoved(s.pcs, t, s'.pcs[t], Holds2);
    CountMoved(s.pcs, t, s'.pcs[t], Holds3);
  }

  lemma StepWrite(s: State, s': State, t: nat)
    requires Inv(s) && Step(s, s', t)
    ensures WriteExact(s')
  {
    WriteOwners(s.pcs);
    Counted(s.pcs, t, TakesWrite);
    Counted(s.pcs, t, DropsWrite);
    Counted(s.pcs, t, Writes);
    Counted(s.pcs, t, OwnsWrite);
    MoveWrite(s.pcs[t], s.locks, s'.pcs[t], s'.locks, Count(s.pcs, Writes), Count(s.pcs, OwnsWrite));
    CountMoved(s.pcs, t, s'.pcs[t], Writes);
    CountMoved(s.pcs, t, s'.pcs[t], OwnsWrite);
  }

  lemma StepRead(s: State, s': State, t: nat)
    requires Inv(s) && Step(s, s', t)
    ensures ReadExact(s')
  {
    ReadOwners(s.pcs);
    Counted(s.pcs, t, TakesRead);
    Counted(s.pcs, t, DropsRead);
    Counted(s.pcs, t, HoldsRead);
    Counted(s.pcs, t, OwnsRead);
    MoveRead(s.pcs[t], s.locks, s'.pcs[t], s'.locks, Count(s.pcs, HoldsRead), Count(s.pcs, OwnsRead));
    CountMoved(s.pcs, t, s'.pcs[t], HoldsRead);
    CountMoved(s.pcs, t, s'.pcs[t], OwnsRead);
  }

  lemma StepInv(s: State, s': State, t: nat)
    requires Inv(s) && Step(s, s', t)
    ensures Inv(s')
  {
    StepCounters(s, s', t);
    StepMutexes(s, s', t);
    StepWrite(s, s', t);
    StepRead(s, s', t);
  }

  lemma {:induction false} RunInv(run: seq<State>, i: nat)
    requires Run(run) && i < |run|
    ensures Inv(run[i])
  {
    if i == 0 {
      InitInv(run[0]);
    } else {
      RunInv(run, i - 1);
      assert StepAt(run, i - 1);
      var t: nat :| Step(run[i - 1], run[i], t);
      StepInv(run[i - 1], run[i], t);
    }
  }

  // ---------- mutual exclusion

  /** If `t` is editing the list, no other thread is editing or searching it. */
  predicate Exclusive(s: State, t: nat)
    requires t < |s.pcs|
  {
    s.pcs[t] == WRITING ==>
      forall u :: 0 <= u < |s.pcs| && u != t ==> s.pcs[u] != WRITING && s.pcs[u] != READING
  }

  lemma InvExclusive(s: State, t: nat)
    requires Inv(s) && t < |s.pcs|
    ensures Exclusive(s, t)
  {
    if s.pcs[t] == WRITING {
      Counted(s.pcs, t, Writes);
      forall u: nat | u < |s.pcs| && u != t ensures s.pcs[u] != WRITING && s.pcs[u] != READING {
        Counted(s.pcs, u, OwnsWrite);
        if s.pcs[u] == WRITING {
          if t < u { CountedTwice(s.pcs, t, u, Writes); } else { CountedTwice(s.pcs, u, t, Writes); }
        }
      }
    }
  }

  /** In every state of every run, for any number of threads. */
  lemma MutualExclusion(run: seq<State>, i: nat, t: nat)
    requires Run(run) && i < |run| && t < |run[i].pcs|
    ensures Exclusive(run[i], t)
  {
    RunInv(run, i);
    InvExclusive(run[i], t);
  }

  /** No thread ever unlocks a mutex that is free. */
  lemma UnlocksAreOfHeldMutexes(run: seq<State>, i: nat, t: nat)
    requires Run(run) && i < |run| && t < |run[i].pcs|
    ensures var pc, l := run[i].pcs[t], run[i].locks;
      && (pc == 27 || pc == 47 ==> l.m1)
      && (pc == 58 || pc == 106 ==> l.m2)
      && (pc == 29 ==> l.m3)
      && (pc == 28 || pc == 105 ==> l.gRead)
      && (pc == 101 || pc == 46 ==> l.gWrite)
  {
    RunInv(run, i);
    Counted(run[i].pcs, t, Holds1);
    Counted(run[i].pcs, t, Holds2);
    Counted(run[i].pcs, t, Holds3);
    Counted(run[i].pcs, t, HoldsRead);
    Counted(run[i].pcs, t, OwnsRead);
    Counted(run[i].pcs, t, OwnsWrite);
    Counted(run[i].pcs, t, Writes);
  }

  // ---------- deadlock freedom

  /** Some step of thread `t` is possible. */
  ghost predicate Enabled(s: State, t: nat) {
    exists s': State :: Step(s, s', t)
  }

  /** Every thread stands at a line of one of the two functions or is idle. */
  predicate Line(pc: Pc) {
    pc == IDLE || 22 <= pc <= 29 || 44 <= pc <= 47 || 55 <= pc <= 58 || pc == 60 || pc == 101 || 103 <= pc <= 106
  }

  predicate AtLines(s: State) {
    forall t :: 0 <= t < |s.pcs| ==> Line(s.pcs[t])
  }

  lemma MoveLine(pc: Pc, l: Locks, pc': Pc, l': Locks)
    requires Move(pc, l, pc', l')
    ensures Line(pc')
  {
  }

  lemma {:induction false} RunLines(run: seq<State>, i: nat)
    requires Run(run) && i < |run|
    ensures AtLines(run[i])
  {
    if i > 0 {
      RunLines(run, i - 1);
      assert StepAt(run, i - 1);
      var t: nat :| Step(run[i - 1], run[i], t);
      MoveLine(run[i - 1].pcs[t], run[i - 1].locks, run[i].pcs[t], run[i].locks);
    }
  }

  /** The mutex the thread waits for, if any, is free. */
  predicate Ready(pc: Pc, l: Locks) {
    && (pc == 22 ==> !l.m3)
    && (pc == 23 || (pc == 57 && l.numwriters == 1) ==> !l.gRead)
    && (pc == 24 || pc == 44 ==> !l.m1)
    && (pc == 60 || (pc == 26 && l.numreaders == 1) ==> !l.gWrite)
    && (pc == 55 || pc == 103 ==> !l.m2)
  }

  lemma ReaderReady(pc: Pc, l: Locks) returns (pc': Pc, l': Locks)
    requires 22 <= pc <= 29 || 44 <= pc <= 47
    requires Ready(pc, l)
    ensures ReaderMove(pc, l, pc', l')
  {
    pc' := if pc == 29 then READING else if pc == 47 then IDLE else pc + 1;
    l' := match pc
      case 22 => l.(m3 := true)
      case 23 => l.(gRead := true)
      case 24 => l.(m1 := true)
      case 25 => l.(numreaders := l.numreaders + 1)
      case 26 => if l.numreaders == 1 then l.(gWrite := true) else l
      case 27 => l.(m1 := false)
      case 28 => l.(gRead := false)
      case 29 => l.(m3 := false)
      case 44 => l.(m1 := true)
      case 45 => l.(numreaders := l.numreaders - 1)
      case 46 => if l.numreaders == 0 then l.(gWrite := false) else l
      case _ => l.(m1 := false);
  }

  lemma WriterReady(pc: Pc, l: Locks) returns (pc': Pc, l': Locks)
    requires 55 <= pc <= 58 || pc == 60 || pc == 101 || 103 <= pc <= 106
    requires Ready(pc, l)
    ensures WriterMove(pc, l, pc', l')
  {
    pc' := if pc == 58 then 60 else if pc == 60 then WRITING else if pc == 101 then 103
           else if pc == 106 then IDLE else pc + 1;
    l' := match pc
      case 55 => l.(m2 := true)
      case 56 => l.(numwriters := l.numwriters + 1)
      case 57 => if l.numwriters == 1 then l.(gRead := true) else l
      case 58 => l.(m2 := false)
      case 60 => l.(gWrite := true)
      case 101 => l.(gWrite := false)
      case 103 => l.(m2 := true)
      case 104 => l.(numwriters := l.numwriters - 1)
      case 105 => if l.numwriters == 0 then l.(gRead := false) else l
      case _ => l.(m2 := false);
  }

  lemma ReadyIsEnabled(s: State, t: nat)
    requires t < |s.pcs| && Line(s.pcs[t]) && Ready(s.pcs[t], s.locks)
    ensures Enabled(s, t)
  {
    var pc', l' := 22, s.locks;
    if 22 <= s.pcs[t] <= 47 {
      pc', l' := ReaderReady(s.pcs[t], s.locks);
    } else if s.pcs[t] != IDLE {
      pc', l' := WriterReady(s.pcs[t], s.locks);
    } else {
      assert CallMove(s.pcs[t], s.locks, pc', l');
    }
    assert Step(s, State(s.pcs[t := pc'], l'), t);
  }

  /** Whoever keeps `gMutex1` locked can move, or the writer it waits for can. */
  lemma Mutex1Progress(s: State) returns (t: nat)
    requires Inv(s) && s.locks.m1
    ensures t < |s.pcs| && s.pcs[t] != IDLE && Ready(s.pcs[t], s.locks)
  {
    t := Witness(s.pcs, Holds1);
    if !Ready(s.pcs[t], s.locks) {
      Counted(s.pcs, t, TakesWrite);
      WriteOwners(s.pcs);
      t := Witness(s.pcs, Writes);
    }
  }

  /** Once `gMutex1` is free, whoever keeps `gWrite` locked can move. */
  lemma WriteProgress(s: State) returns (t: nat)
    requires Inv(s) && !s.locks.m1 && s.locks.gWrite
    ensures t < |s.pcs| && s.pcs[t] != IDLE && Ready(s.pcs[t], s.locks)
  {
    if Count(s.pcs, Writes) > 0 {
      t := Witness(s.pcs, Writes);
    } else {
      t := Witness(s.pcs, OwnsWrite);
    }
  }

  /** Once `gMutex1` and `gWrite` are free, a reader that holds `gRead` can move. */
  lemma ReaderProgress(s: State) returns (t: nat)
    requires Inv(s) && !s.locks.m1 && !s.locks.gWrite && Count(s.pcs, HoldsRead) > 0
    ensures t < |s.pcs| && s.pcs[t] != IDLE && Ready(s.pcs[t], s.locks)
  {
    t := Witness(s.pcs, HoldsRead);
  }

  /** Once no reader holds `gRead`, whoever keeps `gMutex2` locked can move. */
  lemma Mutex2Progress(s: State) returns (t: nat)
    requires Inv(s) && s.locks.m2 && Count(s.pcs, HoldsRead) == 0
    ensures t < |s.pcs| && s.pcs[t] != IDLE && Ready(s.pcs[t], s.locks)
  {
    t := Witness(s.pcs, Holds2);
    if !Ready(s.pcs[t], s.locks) {
      Counted(s.pcs, t, TakesRead);
      ReadOwners(s.pcs);
    }
  }

  /** If some thread is inside the protocol, some thread inside it is ready. */
  lemma SomeoneReady(s: State, u: nat) returns (t: nat)
    requires Inv(s) && u < |s.pcs| && s.pcs[u] != IDLE
    ensures t < |s.pcs| && s.pcs[t] != IDLE && Ready(s.pcs[t], s.locks)
  {
    if Ready(s.pcs[u], s.locks) {
      t := u;
    } else if s.locks.m1 {
      t := Mutex1Progress(s);
    } else if s.locks.gWrite {
      t := WriteProgress(s);
    } else if Count(s.pcs, HoldsRead) > 0 {
      t := ReaderProgress(s);
    } else if s.locks.m2 {
      t := Mutex2Progress(s);
    } else if s.locks.gRead {
      t := Witness(s.pcs, OwnsRead);
    } else {
      t := Witness(s.pcs, Holds3);
    }
  }

  lemma DeadlockFree(run: seq<State>, i: nat, u: nat)
    requires Run(run) && i < |run| && u < |run[i].pcs| && run[i].pcs[u] != IDLE
    ensures exists t: nat :: t < |run[i].pcs| && run[i].pcs[t] != IDLE && Enabled(run[i], t)
  {
    RunInv(run, i);
    RunLines(run, i);
    var t := SomeoneReady(run[i], u);
    ReadyIsEnabled(run[i], t);
  }

  // ---------- writer preference

  /** The reader got through `gRead` (line 23) and has not returned. */
  predicate PastRead(pc: Pc) { 24 <= pc <= 47 }

  ghost function Admitted(s: State): set<nat> {
    set t: nat | t < |s.pcs| && PastRead(s.pcs[t])
  }

  ghost predicate WritersOwnRead(s: State) {
    Count(s.pcs, OwnsRead) > 0
  }

  /** `gRead` stays with the writers until `numwriters` is back to 0. */
  lemma StepKeepsRead(s: State, s': State, t: nat)
    requires Inv(s) && Step(s, s', t) && WritersOwnRead(s)
    ensures s'.locks.numwriters > 0 ==> WritersOwnRead(s')
  {
    StepInv(s, s', t);
    ReadOwners(s'.pcs);
    CountMoved(s.pcs, t, s'.pcs[t], OwnsRead);
    CountMoved(s.pcs, t, s'.pcs[t], TakesRead);
    Counted(s.pcs, t, Holds2);
    MoveLeavesOwners(s.pcs[t], s.locks, s'.pcs[t], s'.locks);
    if s.pcs[t] == 105 {
      ReadOwners(s.pcs);
      Counted(s.pcs, t, DropsRead);
    }
  }

  /** Only line 105 leaves the writers that own `gRead`, and the counter is as it was. */
  lemma MoveLeavesOwners(pc: Pc, l: Locks, pc': Pc, l': Locks)
    requires Move(pc, l, pc', l')
    ensures OwnsRead(pc) && !OwnsRead(pc') ==> pc == 105 && pc' == 106 && l'.numwriters == l.numwriters
  {
  }

  /** While `gRead` is locked, no reader passes it. */
  lemma MoveAdmitsNobody(pc: Pc, l: Locks, pc': Pc, l': Locks)
    requires Move(pc, l, pc', l') && l.gRead
    ensures PastRead(pc') ==> PastRead(pc)
  {
  }

  lemma StepAdmitsNobody(s: State, s': State, t: nat)
    requires Inv(s) && Step(s, s', t) && WritersOwnRead(s)
    ensures Admitted(s') <= Admitted(s)
  {
    MoveAdmitsNobody(s.pcs[t], s.locks, s'.pcs[t], s'.locks);
  }

  /** The step in which a first writer gets through line 57. */
  predicate FirstWriterLocksRead(s: State, s': State, t: nat) {
    Step(s, s', t) && s.pcs[t] == 57 && s.locks.numwriters == 1
  }

  lemma FirstWriterOwnsRead(s: State, s': State, t: nat)
    requires FirstWriterLocksRead(s, s', t)
    ensures WritersOwnRead(s')
  {
    Counted(s'.pcs, t, OwnsRead);
  }

  lemma NextKeepsRead(s: State, s': State)
    requires Inv(s) && Next(s, s') && WritersOwnRead(s)
    ensures s'.locks.numwriters > 0 ==> WritersOwnRead(s')
    ensures Admitted(s') <= Admitted(s)
  {
    var t: nat :| Step(s, s', t);
    StepKeepsRead(s, s', t);
    StepAdmitsNobody(s, s', t);
  }

  lemma KeepsReadAt(run: seq<State>, i: nat)
    requires Run(run) && i + 1 < |run| && WritersOwnRead(run[i])
    ensures run[i + 1].locks.numwriters > 0 ==> WritersOwnRead(run[i + 1])
    ensures Admitted(run[i + 1]) <= Admitted(run[i])
  {
    RunInv(run, i);
    assert StepAt(run, i);
    NextKeepsRead(run[i], run[i + 1]);
  }

  lemma {:induction false} OwnedReadKeepsReadersOut(run: seq<State>, i: nat, j: nat)
    requires Run(run) && i <= j < |run|
    requires WritersOwnRead(run[i])
    requires forall k :: i <= k <= j ==> run[k].locks.numwriters > 0
    ensures WritersOwnRead(run[j])
    ensures Admitted(run[j]) <= Admitted(run[i])
    decreases j
  {
    if i < j {
      OwnedReadKeepsReadersOut(run, i, j - 1);
      KeepsReadAt(run, j - 1);
    }
  }

  /**
   From the moment a first writer locks `gRead` (step i) for as long as `numwriters`
   is positive, the set of readers inside can only shrink.
   */
  lemma WriterPreference(run: seq<State>, i: nat, t: nat, j: nat)
    requires Run(run) && i + 1 <= j < |run|
    requires FirstWriterLocksRead(run[i], run[i + 1], t)
    requires forall k :: i + 1 <= k <= j ==> run[k].locks.numwriters > 0
    ensures Admitted(run[j]) <= Admitted(run[i + 1])
  {
    FirstWriterOwnsRead(run[i], run[i + 1], t);
    OwnedReadKeepsReadersOut(run, i + 1, j);
  }

  /** Because of `gMutex3`, at most one reader waits for `gRead` at any time. */
  lemma OneReaderContends(run: seq<State>, i: nat, t: nat, u: nat)
    requires Run(run) && i < |run| && t < u < |run[i].pcs|
    ensures !(run[i].pcs[t] == 23 && run[i].pcs[u] == 23)
  {
    RunInv(run, i);
    if run[i].pcs[t] == 23 && run[i].pcs[u] == 23 {
      CountedTwice(run[i].pcs, t, u, Holds3);
    }
  }
}
