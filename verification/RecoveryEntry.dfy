/**
 What holds in every run when recovery is entered (recovery.c): nothing has happened yet in that
 boot, and a control block that orders recovery without arguments is found only when no command
 file waits for it, so that a restart does not take up arguments that the boot before had not
 used.  Again one lemma for each group of steps.
 */
module RecoveryEntry {
  import opened Wrappers
  import opened CString
  import opened BootMessage
  import opened RecoveryArgs
  import opened RecoveryProtocol
  import opened HandoffInvariant

  // ---------- nothing has happened yet

  predicate EarlyPhase(pc: nat) {
    pc in {OFF, MAIN, FLASH, READ_ARGS, STORE_ARGS}
  }

  predicate Early(s: State) {
    EarlyPhase(s.pc) ==> s.pending == None && s.ok && !s.prompting && !s.dataErased && !s.cacheErased
  }

  lemma BootEarly(s: State, s': State)
    requires Early(s) && (Crash(s, s') || BootStep(s, s') || ArgsStep(s, s'))
    ensures Early(s')
  {
  }

  lemma RebootEarly(s: State, s': State)
    requires FinalReboot(s, s') || FirmwareReboot(s, s')
    ensures Early(s')
  {
  }

  /** All other steps go on in the same boot. */
  lemma EraseStays(s: State, s': State)
    requires PackageErase(s, s') || EraseData(s, s') || EraseCache(s, s')
    ensures !EarlyPhase(s'.pc)
  {
  }

  lemma InstallStays(s: State, s': State)
    requires Install(s, s')
    ensures !EarlyPhase(s'.pc)
  {
  }

  lemma CheckStays(s: State, s': State)
    requires UserInitiated(s, s') || Check(s, s')
    ensures !EarlyPhase(s'.pc)
  {
  }

  lemma FinishStays(s: State, s': State)
    requires FinishStep(s, s') && s.pc != REBOOT
    ensures !EarlyPhase(s'.pc)
  {
  }

  lemma MenuStays(s: State, s': State)
    requires Menu(s, s') || SdMessage(s, s')
    ensures !EarlyPhase(s'.pc)
  {
  }

  lemma SdInstallStays(s: State, s': State)
    requires SdInstall(s, s')
    ensures !EarlyPhase(s'.pc)
  {
  }

  lemma WriteStays(s: State, s': State)
    requires FirmwareFails(s, s') || FirmwareBegin(s, s') || FirmwareWrite(s, s')
    ensures !EarlyPhase(s'.pc)
  {
  }

  lemma CommandStays(s: State, s': State)
    requires FirmwareMessageStep(s, s') || FirmwareCommand(s, s')
    ensures !EarlyPhase(s'.pc)
  {
  }

  lemma NextEarly(s: State, s': State)
    requires Early(s) && Next(s, s')
    ensures Early(s')
  {
    if FinalReboot(s, s') || FirmwareReboot(s, s') {
      RebootEarly(s, s');
    } else if Install(s, s') {
      InstallStays(s, s');
    } else if UserInitiated(s, s') || Check(s, s') {
      CheckStays(s, s');
    } else if WorkStep(s, s') {
      EraseStays(s, s');
    } else if FinishStep(s, s') {
      FinishStays(s, s');
    } else if SdInstall(s, s') {
      SdInstallStays(s, s');
    } else if PromptStep(s, s') {
      MenuStays(s, s');
    } else if FirmwareMessageStep(s, s') || FirmwareCommand(s, s') {
      CommandStays(s, s');
    } else if FirmwareStep(s, s') {
      WriteStays(s, s');
    } else {
      BootEarly(s, s');
    }
  }

  lemma {:induction false} RunEarly(run: seq<State>, i: nat)
    requires Run(run) && i < |run|
    ensures Early(run[i])
  {
    if i > 0 {
      RunEarly(run, i - 1);
      assert StepAt(run, i - 1);
      NextEarly(run[i - 1], run[i]);
    }
  }

  // ---------- commands and messages

  /** The prompt has been reached, or no argument was found: the message may then be `none`. */
  predicate Argumentless(s: State, none: string) {
    || s.bcb.recovery == none
    || s.pc in {MENU, SD_MESSAGE, SD_INSTALL}
    || (s.pc == STORE_ARGS && s.args == [])
  }

  /** Commands come with messages, and an argumentless message only when no command file waits. */
  predicate Entry(s: State, none: string) {
    && (s.bcb.command == NoCommand <==> s.bcb.recovery == "")
    && (s.pc == MAIN ==> s.bcb.command == NoCommand)
    && (s.pc == FLASH ==> s.bcb.command != NoCommand)
    && (Argumentless(s, none) ==> NoCommandWaits(s.cache))
  }

  predicate NoCommandWaits(c: Cache) {
    c.Files? && c.command.Some? ==> c.command.value == []
  }

  lemma MainEntry(s: State, s': State, none: string)
    requires Entry(s, none) && none != "" && (MainSystem(s, s') || RebootIntoRecovery(s, s'))
    ensures Entry(s', none)
  {
  }

  lemma OffEntry(s: State, s': State, none: string)
    requires Entry(s, none) && (Boot(s, s') || ForceRecovery(s, s'))
    ensures Entry(s', none)
  {
  }

  lemma CrashEntry(s: State, s': State, none: string)
    requires Entry(s, none) && (Crash(s, s') || Flash(s, s'))
    ensures Entry(s', none)
  {
  }

  lemma ReadEntry(s: State, s': State, none: string)
    requires Entry(s, none) && ReadArgs(s, s')
    ensures Entry(s', none)
  {
  }

  lemma StoreEntry(s: State, s': State)
    requires Entry(s, Encode([])) && StoreArgs(s, s')
    ensures Entry(s', Encode([]))
  {
    FirstLine(s.args);
    EncodeEmpty(s.args);
  }

  lemma EraseEntry(s: State, s': State, none: string)
    requires Entry(s, none) && (Install(s, s') || EraseCache(s, s'))
    ensures Entry(s', none)
  {
  }

  lemma WorkEntry(s: State, s': State, none: string)
    requires Entry(s, none)
    requires PackageErase(s, s') || EraseData(s, s') || UserInitiated(s, s') || Check(s, s')
    ensures Entry(s', none)
  {
  }

  lemma FinishIntentEntry(s: State, s': State, none: string)
    requires Entry(s, none) && FinishIntent(s, s')
    ensures Entry(s', none)
  {
  }

  lemma FinishEntry(s: State, s': State, none: string)
    requires Entry(s, none) && none != "" && (FinishClear(s, s') || FinishUnlink(s, s') || FinalReboot(s, s'))
    ensures Entry(s', none)
  {
  }

  lemma MenuEntry(s: State, s': State, none: string)
    requires Entry(s, none) && (Menu(s, s') || SdInstall(s, s'))
    ensures Entry(s', none)
  {
  }

  lemma SdMessageEntry(s: State, s': State, none: string)
    requires Entry(s, none) && none == Encode([]) != "" && SdMessage(s, s')
    ensures Entry(s', none)
  {
  }

  lemma FirmwareMessageEntry(s: State, s': State)
    requires Entry(s, Encode([])) && FirmwareMessageStep(s, s')
    ensures Entry(s', Encode([]))
  {
    var args := FirmwareArgs(OptionsOf(s.args).sendIntent);
    FirstLine(args);
    EncodeEmpty(args);
  }

  lemma FirmwareEntry(s: State, s': State, none: string)
    requires Entry(s, none) && (FirmwareFails(s, s') || FirmwareBegin(s, s') || FirmwareWrite(s, s'))
    ensures Entry(s', none)
  {
  }

  lemma CommandEntry(s: State, s': State, none: string)
    requires Entry(s, none) && Commanded(s) && (FirmwareCommand(s, s') || FirmwareReboot(s, s'))
    ensures Entry(s', none)
  {
  }

  lemma BootStepEntry(s: State, s': State, none: string)
    requires Entry(s, none) && none != "" && (Crash(s, s') || BootStep(s, s'))
    ensures Entry(s', none)
  {
    if MainSystem(s, s') || RebootIntoRecovery(s, s') {
      MainEntry(s, s', none);
    } else if Boot(s, s') || ForceRecovery(s, s') {
      OffEntry(s, s', none);
    } else {
      CrashEntry(s, s', none);
    }
  }

  lemma WorkStepEntry(s: State, s': State, none: string)
    requires Entry(s, none) && WorkStep(s, s')
    ensures Entry(s', none)
  {
    if Install(s, s') || EraseCache(s, s') {
      EraseEntry(s, s', none);
    } else {
      WorkEntry(s, s', none);
    }
  }

  lemma FinishStepEntry(s: State, s': State, none: string)
    requires Entry(s, none) && none != "" && FinishStep(s, s')
    ensures Entry(s', none)
  {
    if FinishIntent(s, s') {
      FinishIntentEntry(s, s', none);
    } else {
      FinishEntry(s, s', none);
    }
  }

  lemma PromptStepEntry(s: State, s': State, none: string)
    requires Entry(s, none) && none == Encode([]) != "" && PromptStep(s, s')
    ensures Entry(s', none)
  {
    if SdMessage(s, s') {
      SdMessageEntry(s, s', none);
    } else {
      MenuEntry(s, s', none);
    }
  }

  lemma NextEntry(s: State, s': State)
    requires Entry(s, Encode([])) && Inv(s) && Next(s, s')
    ensures Entry(s', Encode([]))
  {
    var none := Encode([]);
    FirstLine([]);
    if ReadArgs(s, s') {
      ReadEntry(s, s', none);
    } else if StoreArgs(s, s') {
      StoreEntry(s, s');
    } else if WorkStep(s, s') {
      WorkStepEntry(s, s', none);
    } else if FinishStep(s, s') {
      FinishStepEntry(s, s', none);
    } else if PromptStep(s, s') {
      PromptStepEntry(s, s', none);
    } else if FirmwareMessageStep(s, s') {
      FirmwareMessageEntry(s, s');
    } else if FirmwareCommand(s, s') || FirmwareReboot(s, s') {
      CommandEntry(s, s', none);
    } else if FirmwareStep(s, s') {
      FirmwareEntry(s, s', none);
    } else {
      BootStepEntry(s, s', none);
    }
  }

  lemma InitEntry(s: State)
    requires Init(s)
    ensures Entry(s, Encode([]))
  {
    FirstLine([]);
  }

  lemma EntryAt(run: seq<State>, i: nat)
    requires Steps(run) && i + 1 < |run| && Entry(run[i], Encode([])) && Inv(run[i])
    ensures Entry(run[i + 1], Encode([]))
  {
    assert StepAt(run, i);
    NextEntry(run[i], run[i + 1]);
  }

  lemma {:induction false} RunEntry(run: seq<State>, i: nat)
    requires Run(run) && i < |run|
    ensures Entry(run[i], Encode([]))
  {
    if i > 0 {
      RunEntry(run, i - 1);
      RunInv(run, i - 1);
      EntryAt(run, i - 1);
    } else {
      InitEntry(run[0]);
    }
  }
}
