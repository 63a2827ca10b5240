/** Recovery comes to an end (recovery.c, firmware.c). */
module RecoveryEnds {
  import opened Wrappers
  import opened CString
  import opened BootMessage
  import opened RecoveryArgs
  import opened RecoveryProtocol
  import opened HandoffInvariant
  import opened RecoveryEntry
  import opened RecoveryTrack

  /*
   With successful erases, writes and installs and finitely many crashes, every run reaches a
   normal boot with a zeroed control block.
   */

  // ---------- adding up the ranks of a run

  function Count(marks: seq<bool>): nat {
    if marks == [] then 0
    else Count(marks[..|marks| - 1]) + if marks[|marks| - 1] then 1 else 0
  }

  /** Which steps of the run are crashes. */
  function CrashMarks(run: seq<State>): (m: seq<bool>)
    requires run != []
    ensures |m| == |run| - 1
  {
    seq(|run| - 1, i requires 0 <= i < |run| - 1 => !OkStep(run[i], run[i + 1]))
  }

  function Ranks(run: seq<State>): (r: seq<nat>)
    ensures |r| == |run|
  {
    seq(|run|, i requires 0 <= i < |run| => Rank(run[i]))
  }

  /** How many steps of the run are crashes. */
  function Crashes(run: seq<State>): nat
    requires run != []
  {
    Count(CrashMarks(run))
  }

  /** A step lowers the rank, or it is a crash, which raises it to at most MAX_RANK. */
  predicate RankFalls(ranks: seq<nat>, marks: seq<bool>, i: nat)
    requires i + 1 < |ranks| && i < |marks|
  {
    1 + ranks[i + 1] <= ranks[i] + if marks[i] then 25 else 0
  }

  lemma RankAt(run: seq<State>, i: nat)
    requires OkRun(run) && OnTrack(run[0]) && i + 1 < |run|
    ensures RankFalls(Ranks(run), CrashMarks(run), i)
  {
    RunOnTrack(run, i);
    RankBound(run[i + 1]);
    if OkStep(run[i], run[i + 1]) {
      StepRanks(run[i], run[i + 1]);
    }
  }

  /** Adding up the steps. */
  lemma {:induction false} RanksFall(ranks: seq<nat>, marks: seq<bool>, n: nat)
    requires |ranks| == |marks| + 1 && n <= |marks|
    requires forall i: nat :: i < |marks| ==> RankFalls(ranks, marks, i)
    ensures n + ranks[n] <= ranks[0] + 25 * Count(marks[..n])
  {
    if n > 0 {
      RanksFall(ranks, marks, n - 1);
      assert RankFalls(ranks, marks, n - 1);
      assert marks[..n][..n - 1] == marks[..n - 1];
    }
  }

  lemma RunRanks(run: seq<State>)
    requires OkRun(run) && OnTrack(run[0])
    ensures |run| - 1 <= Rank(run[0]) + 25 * Crashes(run)
  {
    var ranks, marks := Ranks(run), CrashMarks(run);
    forall i: nat | i < |marks| ensures RankFalls(ranks, marks, i) {
      RankAt(run, i);
    }
    RanksFall(ranks, marks, |marks|);
    assert marks[..|marks|] == marks;
  }

  // ---------- some step is always possible before the normal boot

  function Onward(s: State): State {
    match s.pc
    case 0 =>
      s.(pc := if s.bcb.command == BootRecovery then READ_ARGS else if s.bcb.command.Update? then FLASH else MAIN)
    case 2 => PowerOff(s).(bcb := s.bcb.(command := BootRecovery))
    case 185 => s.(pc := STORE_ARGS, args := Chosen(s))
    case 245 => s.(pc := Dispatch(s.args), bcb := Bcb(BootRecovery, Encode(s.args)))
    case 541 => s.(pc := INSTALL, dataErased := true, dataWiped := true)
    case 542 => s.(pc := CHECK)
    case 546 => s.(pc := ERASE_CACHE, dataErased := true, dataWiped := true)
    case 547 => s.(pc := CHECK, cacheErased := true, cacheWiped := true, cache := FORMATTED)
    case 578 => s.(pc := Leave(s))
    case _ => s
  }

  lemma EarlyProgress(s: State)
    requires OnTrack(s) && s.pc in {OFF, FLASH, READ_ARGS, STORE_ARGS}
    ensures OkStep(s, Onward(s))
  {
  }

  lemma WorkProgress(s: State)
    requires OnTrack(s) && s.pc in {PACKAGE_ERASE, INSTALL, ERASE_DATA, ERASE_CACHE, CHECK}
    ensures OkStep(s, Onward(s))
  {
    var s' := Onward(s);
    assert s.pc == INSTALL ==> Remembers(s, s');
    assert OkWork(s, s');
  }

  lemma FirmwareProgress(s: State) returns (s': State)
    requires OnTrack(s) && s.pc in {FW_MESSAGE, FW_BEGIN, FW_WRITE, FW_COMMAND, FW_REBOOT}
    ensures OkStep(s, s')
  {
    var message := Encode(FirmwareArgs(OptionsOf(s.args).sendIntent));
    s' := if s.pc == FW_MESSAGE then s.(pc := FW_BEGIN, bcb := Bcb(BootRecovery, message))
          else if s.pc == FW_BEGIN then s.(pc := FW_WRITE, cache := Partial)
          else if s.pc == FW_WRITE then s.(pc := FW_COMMAND, cache := Complete(s.pending.value))
          else if s.pc == FW_COMMAND then s.(pc := FW_REBOOT, bcb := s.bcb.(command := Update(s.pending.value.kind)))
          else PowerOff(s);
    assert OkFirmware(s, s');
  }

  lemma FinishProgress(s: State) returns (s': State)
    requires OnTrack(s) && s.pc in {FINISH_INTENT, FINISH_CLEAR, FINISH_UNLINK, REBOOT}
    ensures OkStep(s, s')
  {
    var intent := OptionsOf(s.args).sendIntent;
    s' := if s.pc == FINISH_INTENT then
            s.(pc := FINISH_CLEAR,
               cache := if intent.Some? && s.cache.Files? then s.cache.(intent := intent) else s.cache)
          else if s.pc == FINISH_CLEAR then s.(pc := FINISH_UNLINK, bcb := ZEROED)
          else if s.pc == FINISH_UNLINK then
            s.(pc := REBOOT, cache := if s.cache.Files? then s.cache.(command := None) else s.cache)
          else PowerOff(s);
    assert FinishStep(s, s');
  }

  ghost predicate CanGoOn(s: State) {
    exists s': State :: OkStep(s, s')
  }

  lemma Progress(s: State)
    requires OnTrack(s)
    ensures CanGoOn(s) || (s.pc == MAIN && s.bcb == ZEROED)
  {
    if s.pc in {OFF, FLASH, READ_ARGS, STORE_ARGS} {
      EarlyProgress(s);
    } else if s.pc in {PACKAGE_ERASE, INSTALL, ERASE_DATA, ERASE_CACHE, CHECK} {
      WorkProgress(s);
    } else if s.pc == MAIN {
    } else if s.pc in {FINISH_INTENT, FINISH_CLEAR, FINISH_UNLINK, REBOOT} {
      var s' := FinishProgress(s);
    } else {
      var s' := FirmwareProgress(s);
    }
  }

  /** Every run of successful steps and crashes is bounded by its crashes. */
  lemma BoundedByCrashes(run: seq<State>)
    requires OkRun(run) && OnTrack(run[0])
    ensures |run| - 1 <= MAX_RANK + 25 * Crashes(run)
  {
    RunRanks(run);
    RankBound(run[0]);
  }

  /** It can go on until the main system runs, and finds the control block zeroed there. */
  lemma EndsInNormalBoot(run: seq<State>)
    requires OkRun(run) && OnTrack(run[0])
    ensures var last := run[|run| - 1];
      CanGoOn(last) || (last.pc == MAIN && last.bcb == ZEROED)
  {
    RunOnTrack(run, |run| - 1);
    Progress(run[|run| - 1]);
  }

  lemma OkNext(s: State) returns (s': State)
    requires OnTrack(s) && s.pc != MAIN
    ensures OkStep(s, s') && OnTrack(s') && Rank(s') < Rank(s)
  {
    Progress(s);
    s' :| OkStep(s, s');
    StepOnTrack(s, s');
    StepRanks(s, s');
  }

  /** A normal boot can be reached from every state on track. */
  lemma {:induction false} ReachMain(s: State) returns (run: seq<State>)
    requires OnTrack(s)
    ensures OkRun(run) && run[0] == s && run[|run| - 1].pc == MAIN
    decreases Rank(s)
  {
    if s.pc == MAIN {
      return [s];
    }
    var s' := OkNext(s);
    var rest := ReachMain(s');
    OkRunJoin([s, s'], rest);
    run := [s, s'] + rest[1..];
  }

  lemma OkRunJoin(a: seq<State>, b: seq<State>)
    requires OkRun(a) && OkRun(b) && a[|a| - 1] == b[0]
    ensures OkRun(a + b[1..])
    ensures (a + b[1..])[|a| + |b| - 2] == b[|b| - 1]
  {
    var run := a + b[1..];
    forall i: nat | i + 1 < |run| ensures OkStepAt(run, i) {
      if i + 1 < |a| {
        assert OkStepAt(a, i);
      } else {
        assert OkStepAt(b, i + 1 - |a|);
      }
    }
  }

  // ---------- where recovery is entered

  lemma EntersGoingOn(s: State)
    requires Inv(s) && Entry(s, Encode([])) && s.pc == READ_ARGS && ActionKept(Chosen(s))
    ensures GoingOn(s.bcb)
  {
    if s.bcb.command == BootRecovery {
      var args := StoredArgs(s.bcb.recovery);
      if args == [] {
        assert s.bcb.recovery == Encode([]);
        assert Chosen(s) == [];
      } else {
        assert Chosen(s) == args;
      }
    }
  }

  /**
   Wherever a run reaches `get_args` with something to do, whatever has failed before: first
   entries, restarts after a crash or from the prompt, and the boot after a firmware update.
   */
  lemma StartsOnTrack(run: seq<State>, i: nat)
    requires Run(run) && i < |run|
    requires run[i].pc == READ_ARGS && ActionKept(Chosen(run[i]))
    ensures OnTrack(run[i])
  {
    RunInv(run, i);
    RunEarly(run, i);
    RunEntry(run, i);
    EntersGoingOn(run[i]);
  }

  lemma MainStops(s: State)
    requires s.pc == MAIN
    ensures !CanGoOn(s)
  {
    forall s': State ensures !OkStep(s, s') {
    }
  }

  lemma OkRunIsSteps(run: seq<State>, i: nat, more: seq<State>)
    requires Run(run) && i < |run| && OkRun(more) && more[0] == run[i]
    ensures Run(run[..i] + more)
  {
    var all := run[..i] + more;
    forall k: nat | k + 1 < |all| ensures StepAt(all, k) {
      if k < i {
        assert StepAt(run, k);
      } else {
        var j := k - i;
        assert OkStepAt(more, j);
        if OkStep(more[j], more[j + 1]) {
          OkStepIsNext(more[j], more[j + 1]);
        }
      }
    }
  }

  /**
   From there, successful steps and crashes are a run of the protocol, at most
   24 + 25 * crashes of them, and they can go on exactly until the main system runs; it finds
   the control block zeroed.
   */
  lemma RecoveryCompletes(run: seq<State>, i: nat, more: seq<State>)
    requires Run(run) && i < |run|
    requires run[i].pc == READ_ARGS && ActionKept(Chosen(run[i]))
    requires OkRun(more) && more[0] == run[i]
    ensures Run(run[..i] + more)
    ensures |more| - 1 <= MAX_RANK + 25 * Crashes(more)
    ensures var last := more[|more| - 1];
      && (CanGoOn(last) <==> last.pc != MAIN)
      && (last.pc == MAIN ==> last.bcb == ZEROED)
  {
    StartsOnTrack(run, i);
    OkRunIsSteps(run, i, more);
    BoundedByCrashes(more);
    EndsInNormalBoot(more);
    if more[|more| - 1].pc == MAIN {
      MainStops(more[|more| - 1]);
    }
  }

  // ---------- whether the main system finds the command file again

  predicate HasCommand(s: State) {
    s.cache.Files? && s.cache.command.Some?
  }

  /**
   Power fails with the control block zeroed and the command file there: before `get_args` has
   stored the arguments, or between the clearing of the control block and the unlink.
   */
  predicate LeavesCommand(s: State, s': State) {
    Crash(s, s') && s.bcb == ZEROED && HasCommand(s) && s.pc in {READ_ARGS, STORE_ARGS, FINISH_UNLINK}
  }

  predicate LeavesCommandAt(run: seq<State>, k: nat)
    requires k + 1 < |run|
  {
    LeavesCommand(run[k], run[k + 1])
  }

  /** Back to the main system, or there, without a command. */
  predicate Unasked(s: State) {
    s.pc in {MAIN, REBOOT} || (s.pc == OFF && s.bcb == ZEROED) ==> !HasCommand(s)
  }

  lemma CrashUnasked(s: State, s': State)
    requires OnTrack(s) && Unasked(s) && Crash(s, s') && !LeavesCommand(s, s')
    ensures Unasked(s')
  {
  }

  lemma BootUnasked(s: State, s': State)
    requires OnTrack(s) && Unasked(s) && (Boot(s, s') || Flash(s, s') || ReadArgs(s, s') || StoreArgs(s, s'))
    ensures Unasked(s')
  {
  }

  lemma FinishUnasked(s: State, s': State)
    requires OnTrack(s) && Unasked(s) && FinishStep(s, s')
    ensures Unasked(s')
  {
  }

  lemma InstallUnasked(s: State, s': State)
    requires Install(s, s') || Check(s, s')
    ensures Unasked(s')
  {
  }

  lemma EraseUnasked(s: State, s': State)
    requires PackageErase(s, s') || EraseData(s, s') || EraseCache(s, s')
    ensures Unasked(s')
  {
  }

  lemma FirmwareUnasked(s: State, s': State)
    requires OnTrack(s) && OkFirmware(s, s')
    ensures Unasked(s')
  {
  }

  predicate NeverLeaves(run: seq<State>) {
    forall m: nat :: m + 1 < |run| ==> !LeavesCommandAt(run, m)
  }

  lemma UnaskedAt(run: seq<State>, k: nat)
    requires OkRun(run) && OnTrack(run[0]) && k + 1 < |run| && Unasked(run[k]) && NeverLeaves(run)
    ensures Unasked(run[k + 1])
  {
    RunOnTrack(run, k);
    assert OkStepAt(run, k) && !LeavesCommandAt(run, k);
    var s, s' := run[k], run[k + 1];
    if Crash(s, s') {
      CrashUnasked(s, s');
    } else if Install(s, s') || Check(s, s') {
      InstallUnasked(s, s');
    } else if OkWork(s, s') {
      EraseUnasked(s, s');
    } else if FinishStep(s, s') {
      FinishUnasked(s, s');
    } else if OkFirmware(s, s') {
      FirmwareUnasked(s, s');
    } else {
      BootUnasked(s, s');
    }
  }

  lemma {:induction false} RunUnasked(run: seq<State>, k: nat)
    requires OkRun(run) && OnTrack(run[0]) && Unasked(run[0]) && k < |run| && NeverLeaves(run)
    ensures Unasked(run[k])
  {
    if k > 0 {
      RunUnasked(run, k - 1);
      UnaskedAt(run, k - 1);
    }
  }

  /** After such a failure the device goes to the main system, and the file stays. */
  predicate Abandoned(s: State) {
    s.pc in {OFF, MAIN} && s.bcb == ZEROED && HasCommand(s)
  }

  lemma AbandonedStep(s: State, s': State)
    requires Abandoned(s) && (OkStep(s, s') || Crash(s, s'))
    ensures Abandoned(s')
  {
  }

  lemma {:induction false} StaysAbandoned(run: seq<State>, i: nat, j: nat)
    requires OkRun(run) && i <= j < |run| && Abandoned(run[i])
    ensures Abandoned(run[j])
    decreases j
  {
    if i < j {
      StaysAbandoned(run, i, j - 1);
      assert OkStepAt(run, j - 1);
      AbandonedStep(run[j - 1], run[j]);
    }
  }

  /**
   When the main system runs again it finds a command file if and only if power failed on the
   way with the file there, before its arguments were stored or between lines 301 and 308.
   */
  lemma CommandFoundExactly(run: seq<State>, i: nat, more: seq<State>)
    requires Run(run) && i < |run| && run[i].pc == READ_ARGS && ActionKept(Chosen(run[i]))
    requires OkRun(more) && more[0] == run[i] && more[|more| - 1].pc == MAIN
    ensures HasCommand(more[|more| - 1]) <==> exists k: nat :: k + 1 < |more| && LeavesCommandAt(more, k)
  {
    StartsOnTrack(run, i);
    if k: nat :| k + 1 < |more| && LeavesCommandAt(more, k) {
      StaysAbandoned(more, k + 1, |more| - 1);
    } else {
      RunUnasked(more, |more| - 1);
    }
  }
}
