/** Handing firmware to the bootloader (firmware.c). */
module FirmwareHandoff {
  import opened Wrappers
  import opened CString
  import opened BootMessage
  import opened RecoveryArgs
  import opened RecoveryProtocol
  import opened HandoffInvariant

  /*
   The image goes through the raw cache partition.  Over every run, with crashes between any
   two steps, an update command never meets an incomplete image, and a raw cache meets a boot
   that would use it as a filesystem exactly after a failed wipe or clean-up.
   */

  // ---------- what a reader of the flash can rely on

  /** In every run, whatever fails: an update command means a complete delivered image of its kind. */
  lemma UpdateIsComplete(run: seq<State>, i: nat)
    requires Run(run) && i < |run| && run[i].bcb.command.Update?
    ensures var s := run[i];
      s.cache.Complete? && s.cache.firmware.kind == s.bcb.command.kind && s.cache.firmware in s.delivered
  {
    RunInv(run, i);
  }

  /** Does this `get_args` open the command file on the cache? */
  predicate OpensCommandFile(s: State) {
    s.pc == READ_ARGS && (ParseMessage(s.bcb.recovery).None? || ParseMessage(s.bcb.recovery).value == [])
  }

  /**
   A raw cache comes with a control block that orders recovery or an update and carries the
   cache wipe; the command file is not opened on it and the main system does not run on it.
   */
  predicate HandoffOk(s: State) {
    && (!s.cache.Files? ==> s.bcb.command != NoCommand && WipeMessage(s.bcb.recovery))
    && (OpensCommandFile(s) || s.pc == MAIN ==> s.cache.Files?)
  }

  // ---------- exactly when

  /** A failed wipe, or a failed clean-up after a failed firmware write, leaves the cache raw. */
  predicate Strands(s: State, s': State) {
    (EraseCache(s, s') || FirmwareFails(s, s')) && !s'.cache.Files?
  }

  predicate StrandsAt(run: seq<State>, i: nat)
    requires i + 1 < |run|
  {
    Strands(run[i], run[i + 1])
  }

  predicate StrandingFree(run: seq<State>) {
    forall i: nat :: i + 1 < |run| ==> !StrandsAt(run, i)
  }

  /** Lines from which recovery goes on without wiping a raw cache. */
  predicate PastWipe(pc: nat) {
    pc in {MAIN, PACKAGE_ERASE, INSTALL, USER, CHECK, SD_MESSAGE, SD_INSTALL, FINISH_INTENT, FINISH_CLEAR}
  }

  /** The cache is a filesystem, or the stored wipe will make it one before anything needs it. */
  predicate Recoverable(s: State) {
    s.cache.Files? || (s.bcb.command != NoCommand && WipeMessage(s.bcb.recovery) && !PastWipe(s.pc))
  }

  lemma RecoverableIsOk(s: State)
    requires Recoverable(s)
    ensures HandoffOk(s)
  {
  }

  /** A raw cache, and a stored order that comes before the lines that need a filesystem. */
  predicate RawBefore(s: State) {
    !s.cache.Files? && s.bcb.command != NoCommand && !PastWipe(s.pc)
  }

  /** A cache that is still raw is so with the same message. */
  predicate KeepsRaw(s: State, s': State) {
    s'.cache.Files? || (s'.bcb.recovery == s.bcb.recovery && RawBefore(s'))
  }

  lemma BootFiles(s: State, s': State)
    requires s.cache.Files? && (Crash(s, s') || BootStep(s, s') || ArgsStep(s, s'))
    ensures s'.cache.Files?
  {
  }

  lemma WorkFiles(s: State, s': State)
    requires s.cache.Files? && WorkStep(s, s')
    ensures s'.cache.Files?
  {
  }

  lemma FinishFiles(s: State, s': State)
    requires s.cache.Files? && FinishStep(s, s')
    ensures s'.cache.Files?
  {
  }

  lemma MenuFiles(s: State, s': State)
    requires s.cache.Files? && (Menu(s, s') || SdMessage(s, s'))
    ensures s'.cache.Files?
  {
  }

  lemma SdInstallFiles(s: State, s': State)
    requires s.cache.Files? && SdInstall(s, s')
    ensures s'.cache.Files?
  {
  }

  lemma MainRaw(s: State, s': State)
    requires RawBefore(s) && (Crash(s, s') || ReadArgs(s, s') || Flash(s, s'))
    ensures KeepsRaw(s, s')
  {
  }

  lemma BootRaw(s: State, s': State)
    requires RawBefore(s) && (Boot(s, s') || ForceRecovery(s, s'))
    ensures KeepsRaw(s, s')
  {
  }

  lemma EraseRaw(s: State, s': State)
    requires RawBefore(s) && WorkStep(s, s') && s.pc != ERASE_CACHE
    ensures EraseData(s, s')
  {
  }

  lemma EraseDataRaw(s: State, s': State)
    requires RawBefore(s) && EraseData(s, s')
    ensures KeepsRaw(s, s')
  {
  }

  /** The end of recovery and the prompt are never reached with such an order. */
  lemma NeverFinishesRaw(s: State, s': State)
    requires Commanded(s) && RawBefore(s)
    ensures !FinishStep(s, s')
  {
  }

  lemma NeverPromptsRaw(s: State, s': State)
    requires Commanded(s) && RawBefore(s)
    ensures !PromptStep(s, s')
  {
  }

  lemma CommandRaw(s: State, s': State)
    requires RawBefore(s) && (FirmwareCommand(s, s') || FirmwareReboot(s, s'))
    ensures KeepsRaw(s, s')
  {
  }

  lemma StoreRecovers(s: State, s': State)
    requires WipeStored(s) && Recoverable(s) && StoreArgs(s, s')
    ensures Recoverable(s')
  {
  }

  lemma FirmwareRecovers(s: State, s': State)
    requires Commanded(s') && WipeStored(s') && Recoverable(s)
    requires FirmwareMessageStep(s, s') || FirmwareBegin(s, s') || FirmwareWrite(s, s')
    ensures Recoverable(s')
  {
  }

  lemma FilesRecover(s: State, s': State)
    requires Inv(s) && s.cache.Files? && Next(s, s') && !EraseCache(s, s') && !FirmwareFails(s, s')
    ensures Recoverable(s')
  {
    if WorkStep(s, s') {
      WorkFiles(s, s');
    } else if FinishStep(s, s') {
      FinishFiles(s, s');
    } else if SdInstall(s, s') {
      SdInstallFiles(s, s');
    } else if PromptStep(s, s') {
      MenuFiles(s, s');
    } else if FirmwareMessageStep(s, s') || FirmwareBegin(s, s') || FirmwareWrite(s, s') {
      NextInv(s, s');
      FirmwareRecovers(s, s');
    } else if !FirmwareStep(s, s') {
      BootFiles(s, s');
    }
  }

  lemma RawRecovers(s: State, s': State)
    requires Inv(s) && Recoverable(s) && RawBefore(s) && Next(s, s') && !EraseCache(s, s') && !FirmwareFails(s, s')
    ensures Recoverable(s')
  {
    if StoreArgs(s, s') {
      StoreRecovers(s, s');
    } else if WorkStep(s, s') {
      EraseRaw(s, s');
      EraseDataRaw(s, s');
    } else if FirmwareCommand(s, s') || FirmwareReboot(s, s') {
      CommandRaw(s, s');
    } else if FirmwareStep(s, s') {
      NextInv(s, s');
      FirmwareRecovers(s, s');
    } else if Boot(s, s') || ForceRecovery(s, s') {
      BootRaw(s, s');
    } else {
      NeverFinishesRaw(s, s');
      NeverPromptsRaw(s, s');
      MainRaw(s, s');
    }
  }

  /** What a step does to a cache that is in use or about to be wiped. */
  lemma StepRecovers(s: State, s': State)
    requires Inv(s) && Recoverable(s) && Next(s, s')
    ensures Recoverable(s') <==> !Strands(s, s')
  {
    if EraseCache(s, s') || FirmwareFails(s, s') {
    } else if s.cache.Files? {
      FilesRecover(s, s');
    } else {
      RawRecovers(s, s');
    }
  }

  lemma RecoversAt(run: seq<State>, i: nat)
    requires Steps(run) && i + 1 < |run| && !StrandsAt(run, i) && Inv(run[i]) && Recoverable(run[i])
    ensures Inv(run[i + 1]) && Recoverable(run[i + 1])
  {
    assert StepAt(run, i);
    NextInv(run[i], run[i + 1]);
    StepRecovers(run[i], run[i + 1]);
  }

  lemma {:induction false} StaysRecoverable(run: seq<State>, i: nat, j: nat)
    requires Steps(run) && i <= j < |run| && Inv(run[i]) && Recoverable(run[i])
    requires forall k: nat :: i <= k < j ==> !StrandsAt(run, k)
    ensures Inv(run[j]) && Recoverable(run[j])
    decreases j
  {
    if i < j {
      StaysRecoverable(run, i, j - 1);
      RecoversAt(run, j - 1);
    }
  }

  /**
   In every run: wherever the cache was a filesystem at some point i, at the start or after
   any failure, and no step since then has stranded it, the handoff is safe.
   */
  lemma HandoffIsSafe(run: seq<State>, i: nat, j: nat)
    requires Run(run) && i <= j < |run| && run[i].cache.Files?
    requires forall k: nat :: i <= k < j ==> !StrandsAt(run, k)
    ensures HandoffOk(run[j])
  {
    RunInv(run, i);
    StaysRecoverable(run, i, j);
    RecoverableIsOk(run[j]);
  }

  /** Whatever follows, the handoff is safe, unless a further step strands the cache. */
  ghost predicate HandsOff(s: State) {
    forall run: seq<State>, i: nat ::
      Steps(run) && StrandingFree(run) && run[0] == s && i < |run| ==> HandoffOk(run[i])
  }

  lemma Prepend(s: State, run: seq<State>)
    requires Steps(run) && StrandingFree(run) && Next(s, run[0]) && !Strands(s, run[0])
    ensures Steps([s] + run) && StrandingFree([s] + run)
    ensures ([s] + run)[|run|] == run[|run| - 1]
  {
    var more := [s] + run;
    forall i: nat | i + 1 < |more| ensures StepAt(more, i) && !StrandsAt(more, i) {
      assert i > 0 ==> StepAt(run, i - 1) && !StrandsAt(run, i - 1);
    }
  }

  /** Past the wipe with a raw cache, recovery comes to clear the control block. */
  lemma ClearsRaw(s: State) returns (run: seq<State>)
    requires !s.cache.Files? && s.pc in {CHECK, FINISH_INTENT, FINISH_CLEAR}
    ensures Steps(run) && StrandingFree(run) && run[0] == s
    ensures var last := run[|run| - 1]; last.bcb == ZEROED && !last.cache.Files?
  {
    var s1 := if s.pc == CHECK then s.(pc := FINISH_CLEAR, prompting := true) else s.(pc := FINISH_CLEAR);
    var s2 := s1.(pc := FINISH_UNLINK, bcb := ZEROED);
    assert s.pc == CHECK ==> Check(s, s1);
    assert s.pc == FINISH_INTENT ==> FinishIntent(s, s1);
    assert FinishClear(s1, s2);
    run := if s.pc == FINISH_CLEAR then [s, s2] else [s, s1, s2];
  }

  lemma InstallLosesRaw(s: State) returns (run: seq<State>)
    requires !s.cache.Files? && s.pc == INSTALL
    ensures Steps(run) && StrandingFree(run) && run[0] == s
    ensures var last := run[|run| - 1]; last.bcb == ZEROED && !last.cache.Files?
  {
    var s1 := s.(pc := CHECK);
    assert Install(s, s1);
    run := ClearsRaw(s1);
    Prepend(s, run);
    run := [s] + run;
  }

  lemma AskingLosesRaw(s: State) returns (run: seq<State>)
    requires !s.cache.Files? && s.pc in {USER, SD_INSTALL}
    ensures Steps(run) && StrandingFree(run) && run[0] == s
    ensures var last := run[|run| - 1]; last.bcb == ZEROED && !last.cache.Files?
  {
    var s1 := if s.pc == SD_INSTALL then s.(pc := FINISH_CLEAR, prompting := true) else s.(pc := CHECK);
    assert UserInitiated(s, s1) || SdInstall(s, s1);
    run := ClearsRaw(s1);
    Prepend(s, run);
    run := [s] + run;
  }

  /** So does it when it installs something or asks the user first. */
  lemma LosesRaw(s: State) returns (run: seq<State>)
    requires !s.cache.Files? && PastWipe(s.pc) && s.pc != MAIN && s.pc != SD_MESSAGE
    ensures Steps(run) && StrandingFree(run) && run[0] == s
    ensures var last := run[|run| - 1]; last.bcb == ZEROED && !last.cache.Files?
  {
    if s.pc in {CHECK, FINISH_INTENT, FINISH_CLEAR} {
      run := ClearsRaw(s);
    } else if s.pc == PACKAGE_ERASE {
      var s1 := s.(pc := INSTALL, dataErased := true);
      assert PackageErase(s, s1);
      run := InstallLosesRaw(s1);
      Prepend(s, run);
      run := [s] + run;
    } else if s.pc == INSTALL {
      run := InstallLosesRaw(s);
    } else {
      run := AskingLosesRaw(s);
    }
  }

  lemma LostIsUnsafe(s: State, run: seq<State>)
    requires Steps(run) && StrandingFree(run) && run[0] == s
    requires !HandoffOk(run[|run| - 1])
    ensures !HandsOff(s)
  {
  }

  /** Exactly then every continuation is safe. */
  lemma RecoverableExactly(s: State)
    requires Inv(s)
    ensures HandsOff(s) <==> Recoverable(s)
  {
    if Recoverable(s) {
      forall run: seq<State>, i: nat | Steps(run) && StrandingFree(run) && run[0] == s && i < |run|
        ensures HandoffOk(run[i])
      {
        StaysRecoverable(run, 0, i);
        RecoverableIsOk(run[i]);
      }
    } else if s.bcb.command == NoCommand || !WipeMessage(s.bcb.recovery) || s.pc == MAIN {
      LostIsUnsafe(s, [s]);
    } else if s.pc == SD_MESSAGE {
      var s1 := s.(pc := SD_INSTALL, bcb := Bcb(BootRecovery, Encode([])));
      assert SdMessage(s, s1);
      NoWipe();
      LostIsUnsafe(s, [s, s1]);
    } else {
      var run := LosesRaw(s);
      LostIsUnsafe(s, run);
    }
  }

  lemma NoWipe()
    ensures !WipeMessage(Encode([]))
  {
    MessageTokens([]);
  }

  /**
   In every state of every run: each continuation is safe, unless a further failure strands
   the cache, if and only if the cache is a filesystem or its wipe is stored and still to come.
   */
  lemma HandoffExactly(run: seq<State>, i: nat)
    requires Run(run) && i < |run|
    ensures HandsOff(run[i]) <==> Recoverable(run[i])
  {
    RunInv(run, i);
    RecoverableExactly(run[i]);
  }

  /** And a step from such a state loses it if and only if it strands the cache. */
  lemma LostExactly(run: seq<State>, i: nat)
    requires Run(run) && i + 1 < |run| && Recoverable(run[i])
    ensures HandsOff(run[i + 1]) <==> !StrandsAt(run, i)
  {
    RunInv(run, i);
    RunInv(run, i + 1);
    assert StepAt(run, i);
    StepRecovers(run[i], run[i + 1]);
    RecoverableExactly(run[i + 1]);
  }

  // ---------- the failures do happen

  lemma Extend(run: seq<State>, s: State)
    requires Run(run) && Next(run[|run| - 1], s)
    ensures Run(run + [s])
  {
    var more := run + [s];
    forall i: nat | i + 1 < |more| ensures StepAt(more, i) {
      assert i + 1 < |run| ==> StepAt(run, i);
    }
  }

  lemma Grow(run: seq<State>, s: State) returns (more: seq<State>)
    requires Run(run) && Next(run[|run| - 1], s)
    ensures Run(more) && more[|more| - 1] == s
  {
    Extend(run, s);
    more := run + [s];
  }

  const PACKAGE: seq<string> := [UPDATE_PACKAGE + "p"]

  lemma PackageOptions()
    ensures GoodArgs(PACKAGE) && Dispatch(PACKAGE) == INSTALL && OptionsOf(PACKAGE).sendIntent == None
  {
    var a := UPDATE_PACKAGE + "p";
    Distinct(a);
    assert UPDATE_PACKAGE <= a && a in PACKAGE;
    assert PACKAGE[..0] == [] && PACKAGE[0] == a;
    assert LastValue(PACKAGE, SEND_INTENT) == LastValue([], SEND_INTENT);
    assert forall b :: b in PACKAGE ==> b == a;
  }

  /** The main system asks for a package that brings firmware ... */
  lemma PackageRun() returns (run: seq<State>)
    ensures Run(run)
    ensures var s := run[|run| - 1];
      && s.pc == INSTALL && s.ok && !s.prompting && s.pending == None && s.args == PACKAGE
      && s.cache == Files(Some(PACKAGE), None) && s.delivered == [] && s.flashed == []
  {
    PackageOptions();
    var s0 := State(MAIN, ZEROED, FORMATTED, [], true, None, false, false, false, false, false, [], []);
    var s1 := s0.(cache := Files(Some(PACKAGE), None));
    var s2 := s1.(pc := READ_ARGS);
    var s3 := s2.(pc := STORE_ARGS, args := PACKAGE);
    var s4 := s3.(pc := INSTALL, bcb := Bcb(BootRecovery, Encode(PACKAGE)));
    assert MainSystem(s0, s1) && RebootIntoRecovery(s1, s2) && StoreArgs(s3, s4);
    assert ReadArgs(s2, s3) by {
      assert ParseMessage("") == None;
      assert PACKAGE[..1] == PACKAGE;
    }
    run := [s0, s1, s2, s3, s4];
  }

  /** ... and recovery begins to write it over the cache. */
  lemma RawRun(f: Firmware) returns (run: seq<State>)
    requires f.image != []
    ensures Run(run)
    ensures var s := run[|run| - 1];
      && s.pc == FW_WRITE && s.cache == Partial && s.ok && !s.prompting
      && s.bcb == Bcb(BootRecovery, Encode(FirmwareArgs(None)))
      && s.pending == Some(f) && s.delivered == [f] && s.flashed == [] && s.args == PACKAGE
  {
    PackageOptions();
    run := PackageRun();
    var s4 := run[|run| - 1];
    var s5 := s4.(pc := CHECK, pending := Some(f), delivered := s4.delivered + [f]);
    var s6 := s5.(pc := FW_MESSAGE);
    var s7 := s6.(pc := FW_BEGIN, bcb := Bcb(BootRecovery, Encode(FirmwareArgs(None))));
    var s8 := s7.(pc := FW_WRITE, cache := Partial);
    assert Install(s4, s5) && Check(s5, s6) && FirmwareMessageStep(s6, s7) && FirmwareBegin(s7, s8);
    run := Grow(run, s5);
    run := Grow(run, s6);
    run := Grow(run, s7);
    run := Grow(run, s8);
  }

  /** A crash now, and the next boot comes to wipe the cache. */
  lemma WipingRun(f: Firmware) returns (run: seq<State>)
    requires f.image != []
    ensures Run(run)
    ensures var s := run[|run| - 1]; s.pc == ERASE_CACHE && s.cache == Partial
  {
    run := RawRun(f);
    FirmwareMessageArgs(None);
    FirmwareOptions(None);
    var args := FirmwareArgs(None);
    var s1 := PowerOff(run[|run| - 1]);
    var s2 := s1.(pc := READ_ARGS);
    var s3 := s2.(pc := STORE_ARGS, args := args);
    var s4 := s3.(pc := ERASE_CACHE, bcb := Bcb(BootRecovery, Encode(args)));
    assert Crash(run[|run| - 1], s1) && Boot(s1, s2) && ReadArgs(s2, s3) && StoreArgs(s3, s4);
    run := Grow(run, s1);
    run := Grow(run, s2);
    run := Grow(run, s3);
    run := Grow(run, s4);
  }

  /** A failed wipe: a run ends in the prompt, the cache raw and the order to wipe it gone. */
  lemma FailedEraseStrandsCache(f: Firmware) returns (run: seq<State>)
    requires f.image != []
    ensures Run(run)
    ensures var s := run[|run| - 1]; s.pc == MENU && s.bcb == ZEROED && s.cache == Partial
  {
    run := WipingRun(f);
    var s0 := run[|run| - 1];
    var s1 := s0.(pc := CHECK, cacheErased := true, cacheWiped := false, ok := false);
    var s2 := s1.(pc := FINISH_CLEAR, prompting := true);
    var s3 := s2.(pc := FINISH_UNLINK, bcb := ZEROED);
    var s4 := s3.(pc := MENU);
    assert EraseCache(s0, s1) && Check(s1, s2) && FinishClear(s2, s3) && FinishUnlink(s3, s4);
    run := Grow(run, s1);
    run := Grow(run, s2);
    run := Grow(run, s3);
    run := Grow(run, s4);
  }

  /** A failed write and clean-up: a run ends in the main system on a raw cache. */
  lemma FailedCleanUpStrandsCache(f: Firmware) returns (run: seq<State>)
    requires f.image != []
    ensures Run(run)
    ensures var s := run[|run| - 1]; s.pc == MAIN && s.bcb == ZEROED && s.cache == Partial
  {
    run := RawRun(f);
    var s0 := run[|run| - 1];
    var s1 := s0.(pc := FINISH_INTENT);
    var s2 := s1.(pc := FINISH_CLEAR);
    var s3 := s2.(pc := FINISH_UNLINK, bcb := ZEROED);
    var s4 := s3.(pc := REBOOT);
    var s5 := PowerOff(s4);
    var s6 := s5.(pc := MAIN);
    assert FirmwareFails(s0, s1) && FinishIntent(s1, s2) && FinishClear(s2, s3);
    assert FinishUnlink(s3, s4) && FinalReboot(s4, s5) && Boot(s5, s6);
    run := Grow(run, s1);
    run := Grow(run, s2);
    run := Grow(run, s3);
    run := Grow(run, s4);
    run := Grow(run, s5);
    run := Grow(run, s6);
  }

  /** Even with failures, the bootloader installs only images that an install handed over. */
  lemma OnlyDeliveredImagesAreFlashed(run: seq<State>, i: nat, f: Firmware)
    requires Run(run) && i < |run| && f in run[i].flashed
    ensures f in run[i].delivered
  {
    RunInv(run, i);
  }
}
