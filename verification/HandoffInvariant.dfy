/**
 What every step of the restart protocol keeps while firmware is handed to the bootloader
 (recovery.c, firmware.c), whatever fails: messages are well formed and read back unchanged,
 images come from installs, an update is ordered only over a complete image, and the cache wipe
 is stored before firmware is written over the cache.  One lemma for each group of steps.
 */
module HandoffInvariant {
  import opened Wrappers
  import opened CString
  import opened BootMessage
  import opened RecoveryArgs
  import opened RecoveryProtocol

  // ---------- messages

  /** A recovery field that `get_args` reads and writes back unchanged. */
  predicate Stored(text: string) {
    && NUL !in text
    && ParseMessage(text).Some?
    && Encode(ParseMessage(text).value) == text
  }

  function StoredArgs(text: string): seq<string>
    requires Stored(text)
  {
    ParseMessage(text).value
  }

  lemma EncodeStored(args: seq<string>)
    requires GoodArgs(args) && |args| < MAX_ARGS
    ensures Stored(Encode(args))
  {
    EncodeNulFree(args);
    StableUnderRestart(args);
  }

  lemma StoredGood(text: string)
    requires Stored(text)
    ensures GoodArgs(StoredArgs(text)) && |StoredArgs(text)| < MAX_ARGS
  {
    ParsedGood(text);
  }

  /** The longest intent that fits the message of `maybe_install_firmware_update`. */
  const INTENT_ROOM: nat := 987

  function CutIntent(intent: Option<string>): Option<string> {
    if intent.Some? then Some(intent.value[..Min(|intent.value|, INTENT_ROOM)]) else None
  }

  predicate GoodIntent(intent: Option<string>) {
    intent.Some? ==> '\n' !in intent.value && NUL !in intent.value
  }

  lemma GoodFirmwareArgs(intent: Option<string>)
    requires GoodIntent(intent)
    ensures GoodArgs(FirmwareArgs(intent)) && |FirmwareArgs(intent)| < MAX_ARGS
  {
    assert GoodArg(WIPE_CACHE);
    assert '\n' !in SEND_INTENT && NUL !in SEND_INTENT;
  }

  lemma CutFirmwareMessage(intent: Option<string>)
    ensures Encode(FirmwareArgs(intent)) == Encode(FirmwareArgs(CutIntent(intent)))
    ensures |Full(FirmwareArgs(CutIntent(intent)))| <= RECOVERY_SIZE
  {
    EncodeFirmware(intent);
    EncodeFirmware(CutIntent(intent));
    if intent.Some? && |intent.value| > INTENT_ROOM {
      var kept := intent.value[..INTENT_ROOM];
      var p := WIPE_MESSAGE + SEND_INTENT;
      assert Full(FirmwareArgs(intent)) == p + intent.value + "\n";
      assert Full(FirmwareArgs(Some(kept))) == p + kept + "\n";
      assert Fit(p + intent.value + "\n", RECOVERY_SIZE) == p + kept;
      assert Fit(p + kept + "\n", RECOVERY_SIZE) == p + kept;
    }
  }

  /** The next boot reads back the wipe and the intent, the latter cut to fit. */
  lemma FirmwareMessageArgs(intent: Option<string>)
    requires GoodIntent(intent)
    ensures Stored(Encode(FirmwareArgs(intent)))
    ensures StoredArgs(Encode(FirmwareArgs(intent))) == FirmwareArgs(CutIntent(intent))
  {
    GoodFirmwareArgs(intent);
    EncodeStored(FirmwareArgs(intent));
    GoodFirmwareArgs(CutIntent(intent));
    CutFirmwareMessage(intent);
    ArgumentsSurvive(FirmwareArgs(CutIntent(intent)));
  }

  /** A message that makes the next boot wipe the cache, and nothing else before that. */
  predicate WipeMessage(text: string) {
    && Stored(text)
    && var o := OptionsOf(StoredArgs(text));
       StoredArgs(text) != [] && o.updatePackage.None? && !o.wipeData && o.wipeCache
  }

  lemma FirmwareIsWipeMessage(intent: Option<string>)
    requires GoodIntent(intent)
    ensures WipeMessage(Encode(FirmwareArgs(intent)))
  {
    FirmwareMessageArgs(intent);
    FirmwareOptions(CutIntent(intent));
  }

  lemma {:induction false} LastValueGood(args: seq<string>, prefix: string)
    requires GoodArgs(args)
    ensures GoodIntent(LastValue(args, prefix))
  {
    if args != [] && !(prefix <= args[|args| - 1]) {
      LastValueGood(args[..|args| - 1], prefix);
    }
  }

  // ---------- the invariant

  predicate GoodCommandFile(c: Cache) {
    c.Files? && c.command.Some? ==> GoodArgs(c.command.value)
  }

  /** Whatever fails: messages and arguments are well formed, images come from installs ... */
  predicate Sane(s: State) {
    && (s.bcb.recovery == "" || Stored(s.bcb.recovery))
    && GoodArgs(s.args) && |s.args| < MAX_ARGS
    && GoodCommandFile(s.cache)
    && (s.pending.Some? ==> s.pending.value in s.delivered)
    && (s.cache.Complete? ==> s.cache.firmware in s.delivered)
    && (forall f :: f in s.flashed ==> f in s.delivered)
    && (s.pc in {FW_MESSAGE, FW_BEGIN, FW_WRITE, FW_COMMAND} ==> s.pending.Some?)
  }

  /** ... an update is ordered only over a complete image, which nothing touches then ... */
  predicate Commanded(s: State) {
    && (s.bcb.command.Update? ==>
          && s.pc in {OFF, FLASH, READ_ARGS, STORE_ARGS, FW_REBOOT}
          && s.cache.Complete? && s.cache.firmware.kind == s.bcb.command.kind)
    && (s.pc in {ERASE_DATA, ERASE_CACHE, FW_BEGIN, FW_WRITE, FW_COMMAND} ==> s.bcb.command == BootRecovery)
    && (s.pc in {MENU, FINISH_UNLINK, REBOOT} ==> s.bcb == ZEROED)
    && (s.pc == FW_WRITE ==> s.cache == Partial)
    && (s.pc == FW_COMMAND ==> s.pending.Some? && s.cache == Complete(s.pending.value))
  }

  /** ... and the cache wipe is stored before firmware is written, and read back before it is stored again. */
  predicate WipeStored(s: State) {
    && (s.bcb.command.Update? || s.pc in {FW_BEGIN, FW_WRITE, FW_COMMAND} ==> WipeMessage(s.bcb.recovery))
    && (s.pc == STORE_ARGS && WipeMessage(s.bcb.recovery) ==> s.args == StoredArgs(s.bcb.recovery))
  }

  predicate Inv(s: State) {
    Sane(s) && Commanded(s) && WipeStored(s)
  }

  lemma CrashInv(s: State, s': State)
    requires Inv(s) && Crash(s, s')
    ensures Inv(s')
  {
  }

  lemma MainInv(s: State, s': State)
    requires Inv(s) && (MainSystem(s, s') || RebootIntoRecovery(s, s'))
    ensures Inv(s')
  {
  }

  lemma FlashInv(s: State, s': State)
    requires Inv(s) && Flash(s, s')
    ensures Inv(s')
  {
  }

  lemma OffInv(s: State, s': State)
    requires Inv(s) && (Boot(s, s') || ForceRecovery(s, s'))
    ensures Inv(s')
  {
  }

  lemma BootInv(s: State, s': State)
    requires Inv(s) && BootStep(s, s')
    ensures Inv(s')
  {
    if Flash(s, s') {
      FlashInv(s, s');
    } else if MainSystem(s, s') || RebootIntoRecovery(s, s') {
      MainInv(s, s');
    } else {
      OffInv(s, s');
    }
  }

  lemma ChosenGood(s: State)
    requires Sane(s)
    ensures GoodArgs(Chosen(s)) && |Chosen(s)| < MAX_ARGS
    ensures WipeMessage(s.bcb.recovery) ==> Chosen(s) == StoredArgs(s.bcb.recovery)
  {
    if s.bcb.recovery == "" {
      assert ParseMessage("") == None;
    } else {
      StoredGood(s.bcb.recovery);
    }
  }

  lemma ReadInv(s: State, s': State)
    requires Inv(s) && ReadArgs(s, s')
    ensures Inv(s')
  {
    ChosenGood(s);
  }

  lemma StoreInv(s: State, s': State)
    requires Inv(s) && StoreArgs(s, s')
    ensures Inv(s')
  {
    EncodeStored(s.args);
  }

  lemma InstallInv(s: State, s': State)
    requires Inv(s) && Install(s, s')
    ensures Inv(s')
  {
  }

  lemma EraseDataInv(s: State, s': State)
    requires Inv(s) && (PackageErase(s, s') || EraseData(s, s'))
    ensures Inv(s')
  {
  }

  lemma EraseCacheInv(s: State, s': State)
    requires Inv(s) && EraseCache(s, s')
    ensures Inv(s')
  {
  }

  lemma CheckInv(s: State, s': State)
    requires Inv(s) && (UserInitiated(s, s') || Check(s, s'))
    ensures Inv(s')
  {
  }

  lemma WorkInv(s: State, s': State)
    requires Inv(s) && WorkStep(s, s')
    ensures Inv(s')
  {
    if Install(s, s') {
      InstallInv(s, s');
    } else if EraseCache(s, s') {
      EraseCacheInv(s, s');
    } else if UserInitiated(s, s') || Check(s, s') {
      CheckInv(s, s');
    } else {
      EraseDataInv(s, s');
    }
  }

  lemma FinishIntentInv(s: State, s': State)
    requires Inv(s) && (FinishIntent(s, s') || FinishClear(s, s'))
    ensures Inv(s')
  {
  }

  lemma FinishUnlinkInv(s: State, s': State)
    requires Inv(s) && (FinishUnlink(s, s') || FinalReboot(s, s'))
    ensures Inv(s')
  {
  }

  lemma MenuStays(s: State, s': State)
    requires Inv(s) && Menu(s, s') && s'.pc in {FINISH_CLEAR, SD_MESSAGE}
    ensures Inv(s')
  {
  }

  lemma MenuInv(s: State, s': State)
    requires Inv(s) && Menu(s, s')
    ensures Inv(s')
  {
    if s'.pc in {FINISH_CLEAR, SD_MESSAGE} {
      MenuStays(s, s');
    }
  }

  lemma SdMessageInv(s: State, s': State)
    requires Inv(s) && SdMessage(s, s')
    ensures Inv(s')
  {
    EncodeStored([]);
  }

  lemma SdInstallInv(s: State, s': State)
    requires Inv(s) && SdInstall(s, s')
    ensures Inv(s')
  {
  }

  lemma FirmwareMessageInv(s: State, s': State)
    requires Inv(s) && FirmwareMessageStep(s, s')
    ensures Inv(s')
  {
    LastValueGood(s.args, SEND_INTENT);
    FirmwareIsWipeMessage(OptionsOf(s.args).sendIntent);
  }

  lemma FirmwareWriteInv(s: State, s': State)
    requires Inv(s) && (FirmwareFails(s, s') || FirmwareBegin(s, s') || FirmwareWrite(s, s'))
    ensures Inv(s')
  {
  }

  lemma FirmwareCommandInv(s: State, s': State)
    requires Inv(s) && (FirmwareCommand(s, s') || FirmwareReboot(s, s'))
    ensures Inv(s')
  {
  }

  lemma NextInv(s: State, s': State)
    requires Inv(s) && Next(s, s')
    ensures Inv(s')
  {
    if Crash(s, s') {
      CrashInv(s, s');
    } else if BootStep(s, s') {
      BootInv(s, s');
    } else if ReadArgs(s, s') {
      ReadInv(s, s');
    } else if StoreArgs(s, s') {
      StoreInv(s, s');
    } else if WorkStep(s, s') {
      WorkInv(s, s');
    } else if FinishIntent(s, s') || FinishClear(s, s') {
      FinishIntentInv(s, s');
    } else if FinishUnlink(s, s') || FinalReboot(s, s') {
      FinishUnlinkInv(s, s');
    } else if Menu(s, s') {
      MenuInv(s, s');
    } else if SdMessage(s, s') {
      SdMessageInv(s, s');
    } else if SdInstall(s, s') {
      SdInstallInv(s, s');
    } else if FirmwareMessageStep(s, s') {
      FirmwareMessageInv(s, s');
    } else if FirmwareCommand(s, s') || FirmwareReboot(s, s') {
      FirmwareCommandInv(s, s');
    } else {
      FirmwareWriteInv(s, s');
    }
  }

  lemma {:induction false} RunInv(run: seq<State>, i: nat)
    requires Run(run) && i < |run|
    ensures Inv(run[i])
  {
    if i > 0 {
      RunInv(run, i - 1);
      assert StepAt(run, i - 1);
      NextInv(run[i - 1], run[i]);
    }
  }
}
