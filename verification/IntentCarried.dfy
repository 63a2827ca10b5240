/**
 Where the `--send_intent` value is while recovery runs (recovery.c, firmware.c): what each
 successful step and each crash keeps of it, in the control block, among the arguments, in the
 firmware message or in the intent file.  Again one lemma for each group of steps.
 */
module IntentCarried {
  import opened Wrappers
  import opened CString
  import opened BootMessage
  import opened RecoveryArgs
  import opened RecoveryProtocol
  import opened HandoffInvariant
  import opened FactoryReset
  import opened RecoveryTrack

  // ---------- room in the messages

  lemma {:induction false} ValueFound(args: seq<string>, prefix: string) returns (i: nat)
    requires LastValue(args, prefix).Some?
    ensures i < |args| && args[i] == prefix + LastValue(args, prefix).value
  {
    i := |args| - 1;
    if prefix <= args[i] {
      assert args[i] == prefix + args[i][|prefix|..];
    } else {
      i := ValueFound(args[..i], prefix);
    }
  }

  lemma {:induction false} LinesLength(ts: seq<string>, i: nat)
    requires i < |ts|
    ensures |Lines(ts)| >= |ts[i]| + 1
  {
    if i > 0 {
      LinesLength(ts[1..], i - 1);
    }
  }

  lemma {:induction false} LinesLengthTwo(ts: seq<string>, i: nat, j: nat)
    requires i < j < |ts|
    ensures |Lines(ts)| >= |ts[i]| + |ts[j]| + 2
  {
    if i == 0 {
      LinesLength(ts[1..], j - 1);
    } else {
      LinesLengthTwo(ts[1..], i - 1, j - 1);
    }
  }

  /** An intent that fits the control block beside a package also fits the firmware message. */
  lemma PackageLeavesRoom(args: seq<string>)
    requires |Full(args)| <= RECOVERY_SIZE
    requires LastValue(args, UPDATE_PACKAGE).Some? && LastValue(args, SEND_INTENT).Some?
    ensures |LastValue(args, SEND_INTENT).value| <= INTENT_ROOM
  {
    var i := ValueFound(args, UPDATE_PACKAGE);
    var j := ValueFound(args, SEND_INTENT);
    Distinct(args[j]);
    assert SEND_INTENT <= args[j] && UPDATE_PACKAGE <= args[i];
    assert i != j;
    assert (["recovery"] + args)[1..] == args;
    assert Full(args) == "recovery" + "\n" + Lines(args);
    if i < j { LinesLengthTwo(args, i, j); } else { LinesLengthTwo(args, j, i); }
  }

  lemma StoredFits(text: string)
    requires Stored(text)
    ensures |Full(StoredArgs(text))| <= RECOVERY_SIZE
  {
    StoredGood(text);
    ArgumentsSurvive(StoredArgs(text));
  }

  /** The intent survives the firmware message unchanged exactly when it is short enough. */
  lemma IntentSurvivesFirmware(intent: string)
    requires GoodIntent(Some(intent))
    ensures var text := Encode(FirmwareArgs(Some(intent)));
      && Stored(text)
      && (OptionsOf(StoredArgs(text)).sendIntent == Some(intent) <==> |intent| <= INTENT_ROOM)
  {
    FirmwareMessageArgs(Some(intent));
    FirmwareOptions(CutIntent(Some(intent)));
    assert |intent| <= INTENT_ROOM ==> intent[..|intent|] == intent;
    assert |CutIntent(Some(intent)).value| == Min(|intent|, INTENT_ROOM);
  }

  // ---------- carrying the intent

  /** The arguments ask for the intent, and firmware from a package would not cut it. */
  predicate Asks(args: seq<string>, intent: string) {
    && LastValue(args, SEND_INTENT) == Some(intent)
    && (InstallsPackage(args) ==> |intent| <= INTENT_ROOM)
  }

  /** So do the arguments that a restart finds. */
  predicate AsksStored(args: seq<string>, intent: string) {
    && Asks(args, intent)
    && var m := ParseMessage(Encode(args)); m.Some? && LastValue(m.value, SEND_INTENT) == Some(intent)
  }

  predicate ArgsPhase(pc: nat) {
    pc in {STORE_ARGS, PACKAGE_ERASE, INSTALL, ERASE_DATA, ERASE_CACHE, CHECK, FW_MESSAGE, FINISH_INTENT}
  }

  predicate PackagePhase(s: State) {
    s.pc in {PACKAGE_ERASE, INSTALL} || (s.pc in {CHECK, FW_MESSAGE} && s.pending.Some?)
  }

  /** In flash: the intent is still in the control block, or already in its file. */
  predicate InFlash(s: State, intent: string) {
    if s.bcb == ZEROED then s.cache.Files? && s.cache.intent == Some(intent)
    else Stored(s.bcb.recovery) && LastValue(StoredArgs(s.bcb.recovery), SEND_INTENT) == Some(intent)
  }

  /** A raw cache is formatted before an intent is written: no package is given or stored. */
  predicate WipesBefore(s: State) {
    s.cache.Files? ||
    (&& s.pc in {OFF, FLASH, READ_ARGS, STORE_ARGS, ERASE_DATA, ERASE_CACHE, FW_WRITE, FW_COMMAND, FW_REBOOT}
     && Stored(s.bcb.recovery) && !InstallsPackage(StoredArgs(s.bcb.recovery))
     && (s.pc == STORE_ARGS ==> !InstallsPackage(s.args)))
  }

  lemma BootWipes(s: State, s': State)
    requires OnTrack(s) && WipesBefore(s) && (Crash(s, s') || Boot(s, s') || Flash(s, s'))
    ensures WipesBefore(s')
  {
  }

  lemma ReadWipes(s: State, s': State)
    requires OnTrack(s) && WipesBefore(s) && ReadArgs(s, s')
    ensures WipesBefore(s')
  {
  }

  /** Cutting a message does not add a package. */
  lemma CutKeepsPackage(args: seq<string>)
    requires GoodArgs(args) && |args| < MAX_ARGS
    ensures Stored(Encode(args))
    ensures InstallsPackage(StoredArgs(Encode(args))) ==> InstallsPackage(args)
  {
    EncodeStored(args);
    MessageTokens(args);
    var kept := StoredArgs(Encode(args));
    PackageFound(args);
    PackageFound(kept);
    if InstallsPackage(kept) {
      var i :| 0 <= i < |kept| && UPDATE_PACKAGE <= kept[i];
      assert kept[i] <= args[i];
    }
  }

  lemma StoreWipes(s: State, s': State)
    requires OnTrack(s) && (s.cache.Files? || !InstallsPackage(s.args)) && StoreArgs(s, s')
    ensures WipesBefore(s')
  {
    if !s.cache.Files? {
      CutKeepsPackage(s.args);
    }
  }

  lemma WorkWipes(s: State, s': State)
    requires OnTrack(s) && WipesBefore(s) && OkWork(s, s')
    ensures WipesBefore(s')
  {
  }

  lemma FinishWipes(s: State, s': State)
    requires OnTrack(s) && WipesBefore(s) && FinishStep(s, s')
    ensures WipesBefore(s')
  {
  }

  lemma FirmwareWipes(s: State, s': State)
    requires OnTrack(s) && WipesBefore(s) && OkFirmware(s, s')
    ensures WipesBefore(s')
  {
  }

  lemma StepWipes(s: State, s': State)
    requires OnTrack(s) && WipesBefore(s) && (OkStep(s, s') || Crash(s, s'))
    ensures WipesBefore(s')
  {
    if ReadArgs(s, s') {
      ReadWipes(s, s');
    } else if StoreArgs(s, s') {
      StoreWipes(s, s');
    } else if OkWork(s, s') {
      WorkWipes(s, s');
    } else if FinishStep(s, s') {
      FinishWipes(s, s');
    } else if OkFirmware(s, s') {
      FirmwareWipes(s, s');
    } else {
      BootWipes(s, s');
    }
  }

  lemma WipesAt(run: seq<State>, i: nat)
    requires OkRun(run) && i + 1 < |run| && OnTrack(run[i]) && WipesBefore(run[i])
    ensures WipesBefore(run[i + 1])
  {
    assert OkStepAt(run, i);
    StepWipes(run[i], run[i + 1]);
  }

  lemma {:induction false} RunWipes(run: seq<State>, i: nat)
    requires OkRun(run) && OnTrack(run[0]) && WipesBefore(run[0]) && i < |run|
    ensures WipesBefore(run[i])
  {
    if i > 0 {
      RunWipes(run, i - 1);
      RunOnTrack(run, i - 1);
      WipesAt(run, i - 1);
    }
  }

  predicate Carries(s: State, intent: string) {
    && InFlash(s, intent)
    && (s.pc == READ_ARGS ==> s.bcb != ZEROED && StoredArgs(s.bcb.recovery) != [])
    && (ArgsPhase(s.pc) ==> Asks(s.args, intent))
    && (s.pc == STORE_ARGS ==> AsksStored(s.args, intent))
    && (PackagePhase(s) ==> LastValue(s.args, UPDATE_PACKAGE).Some?)
    && (s.pc == FINISH_CLEAR ==> s.cache.Files? && s.cache.intent == Some(intent))
  }

  lemma BootCarries(s: State, s': State, intent: string)
    requires OnTrack(s) && Carries(s, intent) && (Crash(s, s') || Boot(s, s') || Flash(s, s'))
    ensures Carries(s', intent)
  {
    if s.pc == OFF && s.bcb.command == BootRecovery {
      StoredActionKept(s);
    }
  }

  /** A stored message that asks for the intent. */
  lemma StoredAsks(text: string, intent: string)
    requires Stored(text) && LastValue(StoredArgs(text), SEND_INTENT) == Some(intent)
    ensures AsksStored(StoredArgs(text), intent)
  {
    StoredFits(text);
    if InstallsPackage(StoredArgs(text)) {
      PackageLeavesRoom(StoredArgs(text));
    }
  }

  lemma ReadCarries(s: State, s': State, intent: string)
    requires OnTrack(s) && Carries(s, intent) && ReadArgs(s, s')
    ensures Carries(s', intent)
  {
    StoredAsks(s.bcb.recovery, intent);
  }

  lemma StoreCarries(s: State, s': State, intent: string)
    requires OnTrack(s) && AsksStored(s.args, intent) && StoreArgs(s, s')
    ensures Carries(s', intent)
  {
    EncodeStored(s.args);
    DispatchBusy(s.args);
  }

  lemma InstallCarries(s: State, s': State, intent: string)
    requires OnTrack(s) && Carries(s, intent) && OkWork(s, s') && Install(s, s')
    ensures Carries(s', intent)
  {
  }

  lemma WorkCarries(s: State, s': State, intent: string)
    requires OnTrack(s) && Carries(s, intent) && OkWork(s, s') && s.pc != INSTALL
    ensures Carries(s', intent)
  {
  }

  lemma FinishIntentCarries(s: State, s': State, intent: string)
    requires OnTrack(s) && WipesBefore(s) && Carries(s, intent) && FinishIntent(s, s')
    ensures Carries(s', intent)
  {
  }

  lemma FinishCarries(s: State, s': State, intent: string)
    requires OnTrack(s) && Carries(s, intent)
    requires FinishClear(s, s') || FinishUnlink(s, s') || FinalReboot(s, s')
    ensures Carries(s', intent)
  {
  }

  lemma FirmwareCarries(s: State, s': State, intent: string)
    requires OnTrack(s) && Carries(s, intent) && OkFirmware(s, s')
    ensures Carries(s', intent)
  {
    if FirmwareMessageStep(s, s') {
      LastValueGood(s.args, SEND_INTENT);
      IntentSurvivesFirmware(intent);
    }
  }

  lemma StepCarries(s: State, s': State, intent: string)
    requires OnTrack(s) && WipesBefore(s) && Carries(s, intent) && (OkStep(s, s') || Crash(s, s'))
    ensures Carries(s', intent)
  {
    if ReadArgs(s, s') {
      ReadCarries(s, s', intent);
    } else if StoreArgs(s, s') {
      StoreCarries(s, s', intent);
    } else if OkWork(s, s') && Install(s, s') {
      InstallCarries(s, s', intent);
    } else if OkWork(s, s') {
      WorkCarries(s, s', intent);
    } else if FinishIntent(s, s') {
      FinishIntentCarries(s, s', intent);
    } else if FinishStep(s, s') {
      FinishCarries(s, s', intent);
    } else if OkFirmware(s, s') {
      FirmwareCarries(s, s', intent);
    } else {
      BootCarries(s, s', intent);
    }
  }

  lemma CarriesAt(run: seq<State>, i: nat, intent: string)
    requires OkRun(run) && OnTrack(run[0]) && WipesBefore(run[0]) && i + 1 < |run| && Carries(run[i], intent)
    ensures Carries(run[i + 1], intent)
  {
    RunOnTrack(run, i);
    RunWipes(run, i);
    assert OkStepAt(run, i);
    StepCarries(run[i], run[i + 1], intent);
  }

  lemma {:induction false} RunCarries(run: seq<State>, i: nat, intent: string)
    requires OkRun(run) && OnTrack(run[0]) && WipesBefore(run[0]) && Carries(run[0], intent) && i < |run|
    ensures Carries(run[i], intent)
  {
    if i > 0 {
      RunCarries(run, i - 1, intent);
      CarriesAt(run, i - 1, intent);
    }
  }
}
