/** What can happen (recovery.c, firmware.c). */
module RecoveryOutcomes {
  import opened Wrappers
  import opened CString
  import opened BootMessage
  import opened RecoveryArgs
  import opened RecoveryProtocol
  import opened HandoffInvariant
  import opened FirmwareHandoff

  /*
   The documented scenarios are runs from a device in the main system to its next normal boot,
   and every outcome of a line of `main` and of the prompt is a step.  So the results on all
   runs are about these, and none of them holds because something cannot happen.
   */

  // ---------- the scenarios at the head of recovery.c

  /** An update without firmware. */
  lemma UpdateScenario() returns (run: seq<State>)
    ensures Run(run)
    ensures var s := run[|run| - 1]; s.pc == MAIN && s.bcb == ZEROED && s.cache == FORMATTED
  {
    PackageOptions();
    run := PackageRun();
    var s0 := run[|run| - 1];
    var s1 := s0.(pc := CHECK);
    var s2 := s1.(pc := FINISH_INTENT);
    assert Install(s0, s1) && Check(s1, s2);
    run := Grow(run, s1);
    run := Grow(run, s2);
    run := EndOfRecovery(run);
  }

  /** From the recording of the intent, when there is none, to the main system. */
  lemma EndOfRecovery(run: seq<State>) returns (more: seq<State>)
    requires Run(run)
    requires var s := run[|run| - 1];
      s.pc == FINISH_INTENT && !s.prompting && OptionsOf(s.args).sendIntent == None && s.cache.Files?
    ensures Run(more)
    ensures var s, last := run[|run| - 1], more[|more| - 1];
      && last.pc == MAIN && last.bcb == ZEROED && last.cache == Files(None, s.cache.intent)
      && last.flashed == s.flashed
  {
    var s0 := run[|run| - 1];
    var s1 := s0.(pc := FINISH_CLEAR);
    var s2 := s1.(pc := FINISH_UNLINK, bcb := ZEROED);
    var s3 := s2.(pc := REBOOT, cache := s2.cache.(command := None));
    var s4 := PowerOff(s3);
    var s5 := s4.(pc := MAIN);
    assert FinishIntent(s0, s1) && FinishClear(s1, s2) && FinishUnlink(s2, s3) && FinalReboot(s3, s4) && Boot(s4, s5);
    more := Grow(run, s1);
    more := Grow(more, s2);
    more := Grow(more, s3);
    more := Grow(more, s4);
    more := Grow(more, s5);
  }

  /** An update with firmware, up to its installation by the bootloader ... */
  lemma FlashedRun(f: Firmware) returns (run: seq<State>)
    requires f.image != []
    ensures Run(run)
    ensures var s := run[|run| - 1];
      && s.pc == OFF && s.flashed == [f] && s.bcb == Bcb(BootRecovery, Encode(FirmwareArgs(None)))
      && s.cache == Complete(f) && s.ok && !s.prompting && s.pending == None
  {
    run := RawRun(f);
    var s0 := run[|run| - 1];
    var s1 := s0.(pc := FW_COMMAND, cache := Complete(f));
    var s2 := s1.(pc := FW_REBOOT, bcb := s1.bcb.(command := Update(f.kind)));
    var s3 := PowerOff(s2);
    var s4 := s3.(pc := FLASH);
    var s5 := PowerOff(s4).(bcb := s4.bcb.(command := BootRecovery), flashed := [f]);
    assert FirmwareWrite(s0, s1) && FirmwareCommand(s1, s2) && FirmwareReboot(s2, s3);
    assert Boot(s3, s4) && Flash(s4, s5);
    run := Grow(run, s1);
    run := Grow(run, s2);
    run := Grow(run, s3);
    run := Grow(run, s4);
    run := Grow(run, s5);
  }

  /** ... and on through the wipe of the cache to the main system. */
  lemma FirmwareScenario(f: Firmware) returns (run: seq<State>)
    requires f.image != []
    ensures Run(run)
    ensures var s := run[|run| - 1];
      s.pc == MAIN && s.bcb == ZEROED && s.cache == FORMATTED && s.flashed == [f]
  {
    run := FlashedRun(f);
    FirmwareMessageArgs(None);
    FirmwareOptions(None);
    var s0, args := run[|run| - 1], FirmwareArgs(None);
    var s1 := s0.(pc := READ_ARGS);
    var s2 := s1.(pc := STORE_ARGS, args := args);
    var s3 := s2.(pc := ERASE_CACHE, bcb := Bcb(BootRecovery, Encode(args)));
    var s4 := s3.(pc := CHECK, cacheErased := true, cacheWiped := true, cache := FORMATTED);
    var s5 := s4.(pc := FINISH_INTENT);
    assert Boot(s0, s1) && ReadArgs(s1, s2) && StoreArgs(s2, s3) && EraseCache(s3, s4) && Check(s4, s5);
    run := Grow(run, s1);
    run := Grow(run, s2);
    run := Grow(run, s3);
    run := Grow(run, s4);
    run := Grow(run, s5);
    run := EndOfRecovery(run);
  }

  /** A failed firmware write that is cleaned up: the device still comes to the main system. */
  lemma CleanedUpScenario(f: Firmware) returns (run: seq<State>)
    requires f.image != []
    ensures Run(run)
    ensures var s := run[|run| - 1];
      s.pc == MAIN && s.bcb == ZEROED && s.cache == FORMATTED && s.flashed == []
  {
    PackageOptions();
    run := RawRun(f);
    var s0 := run[|run| - 1];
    var s1 := s0.(pc := FINISH_INTENT, cache := FORMATTED);
    assert FirmwareFails(s0, s1);
    run := Grow(run, s1);
    run := EndOfRecovery(run);
  }

  /** A failed install: the prompt, with nothing stored any more. */
  lemma FailedInstallScenario() returns (run: seq<State>)
    ensures Run(run)
    ensures var s := run[|run| - 1]; s.pc == MENU && !s.ok && s.bcb == ZEROED && s.cache == FORMATTED
  {
    run := PackageRun();
    var s0 := run[|run| - 1];
    var s1 := s0.(pc := CHECK, ok := false);
    var s2 := s1.(pc := FINISH_CLEAR, prompting := true);
    var s3 := s2.(pc := FINISH_UNLINK, bcb := ZEROED);
    var s4 := s3.(pc := MENU, cache := FORMATTED);
    assert Install(s0, s1) && Check(s1, s2) && FinishClear(s2, s3) && FinishUnlink(s3, s4);
    run := Grow(run, s1);
    run := Grow(run, s2);
    run := Grow(run, s3);
    run := Grow(run, s4);
  }

  // ---------- outcomes, line by line

  /** The bootloader follows its command, and the keys override it. */
  lemma BootOutcomes(s: State)
    requires s.pc == OFF
    ensures Next(s, s.(pc := READ_ARGS))
    ensures s.bcb.command == NoCommand ==> Next(s, s.(pc := MAIN))
    ensures s.bcb.command.Update? ==> Next(s, s.(pc := FLASH))
  {
    assert ForceRecovery(s, s.(pc := READ_ARGS));
    assert s.bcb.command == NoCommand ==> Boot(s, s.(pc := MAIN));
    assert s.bcb.command.Update? ==> Boot(s, s.(pc := FLASH));
  }

  /** It installs a complete image, or fails to; either way it boots recovery next. */
  lemma FlashOutcomes(s: State)
    requires s.pc == FLASH
    ensures var after := PowerOff(s).(bcb := s.bcb.(command := BootRecovery));
      Next(s, after) && (s.cache.Complete? ==> Next(s, after.(flashed := s.flashed + [s.cache.firmware])))
  {
    var after := PowerOff(s).(bcb := s.bcb.(command := BootRecovery));
    assert Flash(s, after);
    assert s.cache.Complete? ==> Flash(s, after.(flashed := s.flashed + [s.cache.firmware]));
  }

  /** The main system writes any command and takes the intent, or goes to recovery. */
  lemma MainOutcomes(s: State, command: Option<seq<string>>, intent: Option<string>)
    requires s.pc == MAIN && s.cache.Files? && (command.Some? ==> GoodArgs(command.value))
    ensures Next(s, s.(cache := Files(command, intent))) && Next(s, s.(pc := READ_ARGS))
  {
    assert MainSystem(s, s.(cache := Files(command, intent)));
    assert RebootIntoRecovery(s, s.(pc := READ_ARGS));
  }

  /** An erase succeeds or fails. */
  lemma EraseOutcomes(s: State, ok: bool)
    ensures s.pc == ERASE_DATA ==>
      Next(s, s.(pc := ERASE_CACHE, dataErased := true, dataWiped := ok, ok := s.ok && ok))
    ensures s.pc == PACKAGE_ERASE ==> Next(s, s.(pc := INSTALL, dataErased := true, dataWiped := ok))
    ensures s.pc == ERASE_CACHE ==>
      Next(s, s.(pc := CHECK, cacheErased := true, cacheWiped := ok, ok := s.ok && ok,
                 cache := if ok then FORMATTED else s.cache))
  {
    assert s.pc == ERASE_DATA ==>
      EraseData(s, s.(pc := ERASE_CACHE, dataErased := true, dataWiped := ok, ok := s.ok && ok));
    assert s.pc == PACKAGE_ERASE ==> PackageErase(s, s.(pc := INSTALL, dataErased := true, dataWiped := ok));
    assert s.pc == ERASE_CACHE ==>
      EraseCache(s, s.(pc := CHECK, cacheErased := true, cacheWiped := ok, ok := s.ok && ok,
                       cache := if ok then FORMATTED else s.cache));
  }

  /** An install succeeds or fails, brings firmware or not, and may format the cache. */
  lemma InstallOutcomes(s: State, ok: bool, firmware: Option<Firmware>, format: bool)
    requires s.pc == INSTALL && (firmware.Some? ==> firmware.value.image != [] && s.pending == None)
    requires format ==> s.cache.Files?
    ensures var s' := s.(pc := CHECK, ok := ok, cache := if format then FORMATTED else s.cache);
      Next(s, if firmware.Some? then s'.(pending := firmware, delivered := s.delivered + [firmware.value]) else s')
  {
    var s' := s.(pc := CHECK, ok := ok, cache := if format then FORMATTED else s.cache);
    var s'' := if firmware.Some? then s'.(pending := firmware, delivered := s.delivered + [firmware.value]) else s';
    assert Install(s, s'');
  }

  /** After the work: the prompt in any case, and the way on after a success. */
  lemma CheckOutcomes(s: State)
    requires s.pc == CHECK
    ensures Next(s, s.(pc := FINISH_CLEAR, prompting := true))
    ensures s.ok && s.pending.Some? ==> Next(s, s.(pc := FW_MESSAGE))
    ensures s.ok && s.pending.None? ==> Next(s, s.(pc := FINISH_INTENT))
  {
    assert Check(s, s.(pc := FINISH_CLEAR, prompting := true));
    assert s.ok ==> Check(s, s.(pc := Leave(s)));
  }

  /** The entries of the prompt: reboot, which first writes firmware that is waiting, wipe, go on, install. */
  lemma MenuOutcomes(s: State)
    requires s.pc == MENU
    ensures Next(s, s.(pc := if s.pending.Some? then FW_MESSAGE else FINISH_INTENT, prompting := false))
    ensures Next(s, s.(pc := FINISH_CLEAR, cache := FORMATTED)) && Next(s, s.(pc := FINISH_CLEAR))
    ensures Next(s, s.(pc := SD_MESSAGE))
  {
    assert Menu(s, s.(pc := Leave(s), prompting := false));
    assert Menu(s, s.(pc := FINISH_CLEAR, cache := FORMATTED)) && Menu(s, s.(pc := FINISH_CLEAR));
    assert Menu(s, s.(pc := SD_MESSAGE));
  }

  /** An install from the prompt: back to it, another one, or on to the reboot; with firmware or not. */
  lemma SdOutcomes(s: State, firmware: Option<Firmware>)
    requires s.pc == SD_INSTALL && (firmware.Some? ==> firmware.value.image != [] && s.pending == None)
    ensures var s' := if firmware.None? then s
                      else s.(pending := firmware, delivered := s.delivered + [firmware.value]);
      && Next(s, s'.(pc := FINISH_CLEAR, prompting := true)) && Next(s, s'.(pc := SD_MESSAGE, prompting := true))
      && Next(s, s'.(pc := if s'.pending.Some? then FW_MESSAGE else FINISH_INTENT, prompting := false))
  {
    var s' := if firmware.None? then s else s.(pending := firmware, delivered := s.delivered + [firmware.value]);
    assert SdInstall(s, s'.(pc := FINISH_CLEAR, prompting := true));
    assert SdInstall(s, s'.(pc := SD_MESSAGE, prompting := true));
    assert SdInstall(s, s'.(pc := Leave(s'), prompting := false));
  }

  /** Power can fail anywhere; an extended command succeeds or fails. */
  lemma OtherOutcomes(s: State, ok: bool)
    ensures Next(s, PowerOff(s))
    ensures s.pc == USER ==> Next(s, s.(pc := CHECK, ok := ok))
  {
    assert Crash(s, PowerOff(s));
    assert s.pc == USER ==> UserInitiated(s, s.(pc := CHECK, ok := ok));
  }

  /** Writing firmware fails, with the cache as it is or formatted, or goes on to its end. */
  lemma FirmwareOutcomes(s: State)
    requires s.pc in {FW_BEGIN, FW_WRITE}
    ensures Next(s, s.(pc := FINISH_INTENT)) && Next(s, s.(pc := FINISH_INTENT, cache := FORMATTED))
    ensures s.pc == FW_BEGIN ==> Next(s, s.(pc := FW_WRITE, cache := Partial))
    ensures s.pc == FW_WRITE && s.pending.Some? ==> Next(s, s.(pc := FW_COMMAND, cache := Complete(s.pending.value)))
  {
    assert FirmwareFails(s, s.(pc := FINISH_INTENT)) && FirmwareFails(s, s.(pc := FINISH_INTENT, cache := FORMATTED));
    assert s.pc == FW_BEGIN ==> FirmwareBegin(s, s.(pc := FW_WRITE, cache := Partial));
    assert s.pc == FW_WRITE && s.pending.Some? ==>
      FirmwareWrite(s, s.(pc := FW_COMMAND, cache := Complete(s.pending.value)));
  }
}
