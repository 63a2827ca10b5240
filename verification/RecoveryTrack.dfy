/**
 The way of recovery to a normal boot when its work succeeds (recovery.c, firmware.c): every
 successful step and every crash keeps something that leads there, and every successful step
 comes nearer to it.  One lemma for each group of steps.
 */
module RecoveryTrack {
  import opened Wrappers
  import opened CString
  import opened BootMessage
  import opened RecoveryArgs
  import opened RecoveryProtocol
  import opened HandoffInvariant

  // ---------- successful steps

  /** Erases, writes and the install succeed, and no log is shown. */
  predicate OkStep(s: State, s': State) {
    || Boot(s, s') || Flash(s, s') || ReadArgs(s, s') || StoreArgs(s, s')
    || OkWork(s, s') || FinishStep(s, s') || OkFirmware(s, s')
  }

  predicate OkWork(s: State, s': State) {
    && s'.ok == s.ok && s'.prompting == s.prompting
    && (PackageErase(s, s') || Install(s, s') || EraseData(s, s') || EraseCache(s, s') || Check(s, s'))
  }

  predicate OkFirmware(s: State, s': State) {
    || FirmwareMessageStep(s, s') || FirmwareBegin(s, s') || FirmwareWrite(s, s')
    || FirmwareCommand(s, s') || FirmwareReboot(s, s')
  }

  lemma OkStepIsNext(s: State, s': State)
    requires OkStep(s, s')
    ensures Next(s, s')
  {
  }

  predicate OkStepAt(run: seq<State>, i: nat)
    requires i + 1 < |run|
  {
    OkStep(run[i], run[i + 1]) || Crash(run[i], run[i + 1])
  }

  predicate OkRun(run: seq<State>) {
    |run| > 0 && forall i: nat :: i + 1 < |run| ==> OkStepAt(run, i)
  }

  // ---------- what keeps recovery going

  /** The arguments name something to do. */
  predicate HasAction(args: seq<string>) {
    OptionsOf(args).updatePackage.Some? || OptionsOf(args).wipeCache
  }

  /** They still do after being stored and read back. */
  predicate ActionKept(args: seq<string>) {
    HasAction(args) && ParseMessage(Encode(args)).Some? && HasAction(ParseMessage(Encode(args)).value)
  }

  predicate GoingOn(b: Bcb) {
    || b == ZEROED
    || (b.command == BootRecovery && Stored(b.recovery) && HasAction(StoredArgs(b.recovery)))
    || (b.command.Update? && WipeMessage(b.recovery))
  }

  predicate BusyPhase(pc: nat) {
    pc in {PACKAGE_ERASE, INSTALL, ERASE_DATA, ERASE_CACHE, CHECK, FW_MESSAGE, FINISH_INTENT, FINISH_CLEAR}
  }

  predicate OnTrack(s: State) {
    && Inv(s) && s.ok && !s.prompting
    && GoingOn(s.bcb)
    && Placed(s)
    && (s.pending.Some? ==> FirmwarePhase(s.pc))
  }

  predicate FirmwarePhase(pc: nat) {
    pc in {CHECK, FW_MESSAGE, FW_BEGIN, FW_WRITE, FW_COMMAND, FW_REBOOT}
  }

  predicate Placed(s: State) {
    || s.pc == OFF
    || (s.pc == MAIN && s.bcb == ZEROED)
    || (s.pc == FLASH && s.bcb.command.Update?)
    || (s.pc == READ_ARGS && ActionKept(Chosen(s)))
    || (s.pc == STORE_ARGS && ActionKept(s.args))
    || (BusyPhase(s.pc) && s.bcb.command == BootRecovery)
    || (s.pc in {FW_BEGIN, FW_WRITE, FW_COMMAND} && s.bcb.command == BootRecovery && WipeMessage(s.bcb.recovery))
    || (s.pc == FW_REBOOT && s.bcb.command.Update?)
    || (s.pc in {FINISH_UNLINK, REBOOT} && s.bcb == ZEROED)
  }

  lemma StoredActionKept(s: State)
    requires Sane(s) && Stored(s.bcb.recovery) && HasAction(StoredArgs(s.bcb.recovery))
    ensures Chosen(s) == StoredArgs(s.bcb.recovery) && ActionKept(Chosen(s))
  {
    var args := StoredArgs(s.bcb.recovery);
    assert args != [];
  }

  lemma BootOnTrack(s: State, s': State)
    requires OnTrack(s) && (Crash(s, s') || Boot(s, s') || Flash(s, s'))
    ensures OnTrack(s')
  {
    if Crash(s, s') {
      CrashInv(s, s');
    } else {
      BootInv(s, s');
      if s.bcb.command == BootRecovery {
        StoredActionKept(s);
      }
    }
  }

  lemma ReadOnTrack(s: State, s': State)
    requires OnTrack(s) && ReadArgs(s, s')
    ensures OnTrack(s')
  {
    ReadInv(s, s');
  }

  lemma DispatchBusy(args: seq<string>)
    requires HasAction(args)
    ensures BusyPhase(Dispatch(args))
  {
  }

  lemma StoreOnTrack(s: State, s': State)
    requires OnTrack(s) && StoreArgs(s, s')
    ensures OnTrack(s')
  {
    StoreInv(s, s');
    EncodeStored(s.args);
    DispatchBusy(s.args);
  }

  lemma WorkOnTrack(s: State, s': State)
    requires OnTrack(s) && OkWork(s, s')
    ensures OnTrack(s')
  {
    WorkInv(s, s');
  }

  lemma FinishOnTrack(s: State, s': State)
    requires OnTrack(s) && FinishStep(s, s')
    ensures OnTrack(s')
  {
    NextInv(s, s');
  }

  lemma FirmwareOnTrack(s: State, s': State)
    requires OnTrack(s) && OkFirmware(s, s')
    ensures OnTrack(s')
  {
    NextInv(s, s');
    if FirmwareMessageStep(s, s') {
      LastValueGood(s.args, SEND_INTENT);
      FirmwareIsWipeMessage(OptionsOf(s.args).sendIntent);
    }
  }

  lemma StepOnTrack(s: State, s': State)
    requires OnTrack(s) && (OkStep(s, s') || Crash(s, s'))
    ensures OnTrack(s')
  {
    if ReadArgs(s, s') {
      ReadOnTrack(s, s');
    } else if StoreArgs(s, s') {
      StoreOnTrack(s, s');
    } else if OkWork(s, s') {
      WorkOnTrack(s, s');
    } else if FinishStep(s, s') {
      FinishOnTrack(s, s');
    } else if OkFirmware(s, s') {
      FirmwareOnTrack(s, s');
    } else {
      BootOnTrack(s, s');
    }
  }

  lemma OnTrackAt(run: seq<State>, i: nat)
    requires OkRun(run) && i + 1 < |run| && OnTrack(run[i])
    ensures OnTrack(run[i + 1])
  {
    assert OkStepAt(run, i);
    StepOnTrack(run[i], run[i + 1]);
  }

  lemma {:induction false} RunOnTrack(run: seq<State>, i: nat)
    requires OkRun(run) && OnTrack(run[0]) && i < |run|
    ensures OnTrack(run[i])
  {
    if i > 0 {
      RunOnTrack(run, i - 1);
      OnTrackAt(run, i - 1);
    }
  }

  // ---------- the rank: steps left to a normal boot, if nothing crashes

  predicate InstallsPackage(args: seq<string>) {
    OptionsOf(args).updatePackage.Some?
  }

  function BootRank(b: Bcb): nat {
    match b.command
    case NoCommand => 1
    case Update(_) => 13
    case BootRecovery =>
      if ParseMessage(b.recovery).Some? && InstallsPackage(ParseMessage(b.recovery).value) then 24 else 11
  }

  function Rank(s: State): nat {
    match s.pc
    case 0 => BootRank(s.bcb)                                 // OFF
    case 1 => 0                                               // MAIN
    case 2 => 12                                              // FLASH
    case 185 => if InstallsPackage(Chosen(s)) then 23 else 10 // READ_ARGS
    case 245 => if InstallsPackage(s.args) then 22 else 9     // STORE_ARGS
    case 541 => 21                                            // PACKAGE_ERASE
    case 542 => 20                                            // INSTALL
    case 578 => if s.pending.Some? then 19 else 6             // CHECK
    case 96 => 18                                             // FW_MESSAGE
    case 105 => 17                                            // FW_BEGIN
    case 106 => 16                                            // FW_WRITE
    case 121 => 15                                            // FW_COMMAND
    case 126 => 14                                            // FW_REBOOT
    case 546 => 8                                             // ERASE_DATA
    case 547 => 7                                             // ERASE_CACHE
    case 269 => 5                                             // FINISH_INTENT
    case 301 => 4                                             // FINISH_CLEAR
    case 308 => 3                                             // FINISH_UNLINK
    case _ => 2                                               // REBOOT
  }

  const MAX_RANK: nat := 24

  lemma RankBound(s: State)
    ensures Rank(s) <= MAX_RANK
  {
  }

  lemma BootRanks(s: State, s': State)
    requires OnTrack(s) && (Boot(s, s') || Flash(s, s'))
    ensures Rank(s') < Rank(s)
  {
    if s.bcb.command == BootRecovery {
      StoredActionKept(s);
    }
  }

  lemma ReadRanks(s: State, s': State)
    requires ReadArgs(s, s')
    ensures Rank(s') < Rank(s)
  {
  }

  lemma StoreRanks(s: State, s': State)
    requires HasAction(s.args) && StoreArgs(s, s')
    ensures Rank(s') < Rank(s)
  {
  }

  lemma EraseRanks(s: State, s': State)
    requires s.pending == None && (EraseData(s, s') || EraseCache(s, s'))
    ensures Rank(s') < Rank(s)
  {
  }

  lemma InstallRanks(s: State, s': State)
    requires PackageErase(s, s') || Install(s, s') || (Check(s, s') && s'.prompting == s.prompting == false)
    ensures Rank(s') < Rank(s)
  {
  }

  lemma FinishRanks(s: State, s': State)
    requires FinishIntent(s, s') || FinishClear(s, s') || (FinishUnlink(s, s') && !s.prompting)
    ensures Rank(s') < Rank(s)
  {
  }

  lemma FinalRebootRanks(s: State, s': State)
    requires FinalReboot(s, s') && s.bcb == ZEROED
    ensures Rank(s') < Rank(s)
  {
  }

  lemma FirmwareRanks(s: State, s': State)
    requires FirmwareMessageStep(s, s') || FirmwareBegin(s, s') || FirmwareWrite(s, s') || FirmwareCommand(s, s')
    ensures Rank(s') < Rank(s)
  {
  }

  lemma RebootRanks(s: State, s': State)
    requires FirmwareReboot(s, s') && s.bcb.command.Update?
    ensures Rank(s') < Rank(s)
  {
  }

  lemma StepRanks(s: State, s': State)
    requires OnTrack(s) && OkStep(s, s')
    ensures Rank(s') < Rank(s)
  {
    if ReadArgs(s, s') {
      ReadRanks(s, s');
    } else if StoreArgs(s, s') {
      StoreRanks(s, s');
    } else if EraseData(s, s') || EraseCache(s, s') {
      EraseRanks(s, s');
    } else if OkWork(s, s') {
      InstallRanks(s, s');
    } else if FinalReboot(s, s') {
      FinalRebootRanks(s, s');
    } else if FinishStep(s, s') {
      FinishRanks(s, s');
    } else if FirmwareReboot(s, s') {
      RebootRanks(s, s');
    } else if OkFirmware(s, s') {
      FirmwareRanks(s, s');
    } else {
      BootRanks(s, s');
    }
  }
}
