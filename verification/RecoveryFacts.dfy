/** What each line of `main` can rely on (recovery.c). */
module RecoveryFacts {
  import opened Wrappers
  import opened CString
  import opened BootMessage
  import opened RecoveryArgs
  import opened RecoveryProtocol
  import opened HandoffInvariant
  import opened RecoveryEntry

  /*
   In every run, whatever fails: nothing is erased that the arguments do not name, an erase
   beside a package comes before the install, the arguments stay stored until the work is
   done, an install from the prompt is restarted as recovery, firmware and the intent follow
   success or the prompt, and a reboot leaves no command behind.
   */

  // ---------- the lines that can follow one another

  predicate Follows(pc: nat, pc': nat) {
    || pc' == OFF
    || (pc == OFF && pc' in {MAIN, FLASH, READ_ARGS})
    || (pc == MAIN && pc' in {MAIN, READ_ARGS})
    || (pc == READ_ARGS && pc' == STORE_ARGS)
    || (pc == STORE_ARGS && pc' in {PACKAGE_ERASE, INSTALL, ERASE_DATA, ERASE_CACHE, USER})
    || (pc == PACKAGE_ERASE && pc' == INSTALL)
    || (pc == ERASE_DATA && pc' == ERASE_CACHE)
    || (pc in {INSTALL, ERASE_CACHE, USER} && pc' == CHECK)
    || (pc == CHECK && pc' in {FINISH_CLEAR, FINISH_INTENT, FW_MESSAGE})
    || (pc == FINISH_INTENT && pc' == FINISH_CLEAR)
    || (pc == FINISH_CLEAR && pc' == FINISH_UNLINK)
    || (pc == FINISH_UNLINK && pc' in {MENU, REBOOT})
    || (pc == MENU && pc' in {FINISH_CLEAR, FINISH_INTENT, FW_MESSAGE, SD_MESSAGE})
    || (pc == SD_MESSAGE && pc' == SD_INSTALL)
    || (pc == SD_INSTALL && pc' in {FINISH_CLEAR, FINISH_INTENT, FW_MESSAGE, SD_MESSAGE})
    || (pc == FW_MESSAGE && pc' == FW_BEGIN)
    || (pc == FW_BEGIN && pc' in {FW_WRITE, FINISH_INTENT})
    || (pc == FW_WRITE && pc' in {FW_COMMAND, FINISH_INTENT})
    || (pc == FW_COMMAND && pc' == FW_REBOOT)
  }

  lemma BootFollows(s: State, s': State)
    requires Crash(s, s') || BootStep(s, s')
    ensures Follows(s.pc, s'.pc)
  {
  }

  lemma ArgsFollow(s: State, s': State)
    requires ArgsStep(s, s')
    ensures Follows(s.pc, s'.pc)
  {
  }

  lemma EraseFollows(s: State, s': State)
    requires PackageErase(s, s') || EraseData(s, s') || EraseCache(s, s')
    ensures Follows(s.pc, s'.pc)
  {
  }

  lemma InstallFollows(s: State, s': State)
    requires Install(s, s') || UserInitiated(s, s') || Check(s, s')
    ensures Follows(s.pc, s'.pc)
  {
  }

  lemma FinishFollows(s: State, s': State)
    requires FinishStep(s, s')
    ensures Follows(s.pc, s'.pc)
  {
  }

  lemma MenuFollows(s: State, s': State)
    requires Menu(s, s') || SdMessage(s, s')
    ensures Follows(s.pc, s'.pc)
  {
  }

  lemma SdInstallFollows(s: State, s': State)
    requires SdInstall(s, s')
    ensures Follows(s.pc, s'.pc)
  {
  }

  lemma WriteFollows(s: State, s': State)
    requires FirmwareFails(s, s') || FirmwareBegin(s, s') || FirmwareWrite(s, s')
    ensures Follows(s.pc, s'.pc)
  {
  }

  lemma CommandFollows(s: State, s': State)
    requires FirmwareMessageStep(s, s') || FirmwareCommand(s, s') || FirmwareReboot(s, s')
    ensures Follows(s.pc, s'.pc)
  {
  }

  lemma NextFollows(s: State, s': State)
    requires Next(s, s')
    ensures Follows(s.pc, s'.pc)
  {
    if Install(s, s') || UserInitiated(s, s') || Check(s, s') {
      InstallFollows(s, s');
    } else if WorkStep(s, s') {
      EraseFollows(s, s');
    } else if FinishStep(s, s') {
      FinishFollows(s, s');
    } else if SdInstall(s, s') {
      SdInstallFollows(s, s');
    } else if PromptStep(s, s') {
      MenuFollows(s, s');
    } else if FirmwareFails(s, s') || FirmwareBegin(s, s') || FirmwareWrite(s, s') {
      WriteFollows(s, s');
    } else if FirmwareStep(s, s') {
      CommandFollows(s, s');
    } else if ArgsStep(s, s') {
      ArgsFollow(s, s');
    } else {
      BootFollows(s, s');
    }
  }

  // ---------- which step it is

  lemma FromUnlink(s: State, s': State)
    requires Next(s, s') && s.pc == FINISH_UNLINK && s'.pc != OFF
    ensures FinishUnlink(s, s')
  {
  }

  lemma FromSdMessage(s: State, s': State)
    requires Next(s, s') && s.pc == SD_MESSAGE && s'.pc != OFF
    ensures SdMessage(s, s')
  {
  }

  lemma FromCheck(s: State, s': State)
    requires Next(s, s') && s.pc == CHECK && s'.pc != OFF
    ensures Check(s, s')
  {
  }

  lemma FromStore(s: State, s': State)
    requires Next(s, s') && s.pc == STORE_ARGS && s'.pc != OFF
    ensures StoreArgs(s, s')
  {
  }

  lemma FromWork(s: State, s': State)
    requires Next(s, s') && s.pc in {PACKAGE_ERASE, INSTALL, ERASE_DATA, ERASE_CACHE, USER} && s'.pc != OFF
    ensures WorkStep(s, s')
  {
  }

  // ---------- what holds at these lines

  predicate NoCommandFile(c: Cache) {
    c.Files? ==> c.command == None
  }

  /** The command file is removed before recovery reboots or asks the user. */
  predicate Unlinked(s: State) {
    s.pc in {MENU, REBOOT} ==> NoCommandFile(s.cache)
  }

  /** An install from the prompt is covered by a message that starts recovery again. */
  predicate SdStored(s: State) {
    s.pc == SD_INSTALL ==> s.bcb == Bcb(BootRecovery, "recovery\n")
  }

  /** While the work goes on, its arguments stay stored. */
  predicate StillStored(s: State) {
    s.pc in {PACKAGE_ERASE, INSTALL, ERASE_DATA, ERASE_CACHE, USER, CHECK} ==>
      s.bcb == Bcb(BootRecovery, Encode(s.args))
  }

  /** The erases that have returned are those asked for, at the lines that do them or come after them. */
  predicate ErasesFor(o: Options, pc: nat, dataErased: bool, cacheErased: bool) {
    && (dataErased ==> o.wipeData) && (cacheErased ==> o.wipeCache && o.updatePackage.None?)
    && (pc in {PACKAGE_ERASE, ERASE_DATA} ==> o.wipeData)
    && (pc in {PACKAGE_ERASE, INSTALL} ==> o.updatePackage.Some?)
    && (pc in {ERASE_DATA, ERASE_CACHE, USER} ==> o.updatePackage.None?)
    && (pc == ERASE_CACHE ==> o.wipeCache)
    && (pc == USER ==> !o.wipeData && !o.wipeCache)
    && (pc in {INSTALL, ERASE_CACHE, CHECK} && o.wipeData ==> dataErased)
    && (pc == CHECK && o.wipeCache && o.updatePackage.None? ==> cacheErased)
  }

  predicate ErasesAsked(s: State) {
    ErasesFor(OptionsOf(s.args), s.pc, s.dataErased, s.cacheErased)
  }

  lemma UnlinkedStep(s: State, s': State)
    requires Next(s, s')
    ensures Unlinked(s')
  {
    NextFollows(s, s');
    if s'.pc in {MENU, REBOOT} {
      FromUnlink(s, s');
    }
  }

  lemma SdStoredStep(s: State, s': State)
    requires Next(s, s')
    ensures SdStored(s')
  {
    NextFollows(s, s');
    if s'.pc == SD_INSTALL {
      FromSdMessage(s, s');
      EncodeNone();
    }
  }

  /** The work leaves the control block and the arguments alone. */
  lemma WorkKeeps(s: State, s': State)
    requires WorkStep(s, s')
    ensures s'.bcb == s.bcb && s'.args == s.args
  {
    if Install(s, s') {
      InstallKeeps(s, s');
    } else if PackageErase(s, s') || EraseData(s, s') || EraseCache(s, s') {
      EraseKeeps(s, s');
    }
  }

  lemma InstallKeeps(s: State, s': State)
    requires Install(s, s')
    ensures s'.bcb == s.bcb && s'.args == s.args
  {
  }

  lemma EraseKeeps(s: State, s': State)
    requires PackageErase(s, s') || EraseData(s, s') || EraseCache(s, s')
    ensures s'.bcb == s.bcb && s'.args == s.args
  {
  }

  lemma StillStoredStep(s: State, s': State)
    requires StillStored(s) && Next(s, s')
    ensures StillStored(s')
  {
    NextFollows(s, s');
    if s'.pc in {PACKAGE_ERASE, INSTALL, ERASE_DATA, ERASE_CACHE, USER, CHECK} {
      if s.pc == STORE_ARGS {
        FromStore(s, s');
      } else {
        FromWork(s, s');
        WorkKeeps(s, s');
      }
    }
  }

  predicate KeepsErases(s: State, s': State) {
    s'.args == s.args && s'.dataErased == s.dataErased && s'.cacheErased == s.cacheErased
  }

  lemma BootKeepsErases(s: State, s': State)
    requires Boot(s, s') || ForceRecovery(s, s') || MainSystem(s, s') || RebootIntoRecovery(s, s') || StoreArgs(s, s')
    ensures KeepsErases(s, s')
  {
  }

  lemma InstallKeepsErases(s: State, s': State)
    requires Install(s, s') || UserInitiated(s, s') || Check(s, s')
    ensures KeepsErases(s, s')
  {
  }

  lemma FinishKeepsErases(s: State, s': State)
    requires FinishStep(s, s') && s'.pc != OFF
    ensures KeepsErases(s, s')
  {
  }

  lemma MenuKeepsErases(s: State, s': State)
    requires Menu(s, s') || SdMessage(s, s')
    ensures KeepsErases(s, s')
  {
  }

  lemma SdInstallKeepsErases(s: State, s': State)
    requires SdInstall(s, s')
    ensures KeepsErases(s, s')
  {
  }

  lemma WriteKeepsErases(s: State, s': State)
    requires FirmwareFails(s, s') || FirmwareBegin(s, s') || FirmwareWrite(s, s')
    ensures KeepsErases(s, s')
  {
  }

  lemma CommandKeepsErases(s: State, s': State)
    requires FirmwareMessageStep(s, s') || FirmwareCommand(s, s')
    ensures KeepsErases(s, s')
  {
  }

  lemma RebootEnds(s: State, s': State)
    requires s'.pc != OFF
    ensures !FirmwareReboot(s, s')
  {
  }

  /** Outside the erases themselves, and within one boot. */
  lemma OthersKeepErases(s: State, s': State)
    requires Next(s, s') && s'.pc != OFF && s.pc !in {READ_ARGS, PACKAGE_ERASE, ERASE_DATA, ERASE_CACHE}
    ensures KeepsErases(s, s')
  {
    if FinishStep(s, s') {
      FinishKeepsErases(s, s');
    } else if SdInstall(s, s') {
      SdInstallKeepsErases(s, s');
    } else if PromptStep(s, s') {
      MenuKeepsErases(s, s');
    } else if FirmwareMessageStep(s, s') || FirmwareCommand(s, s') {
      CommandKeepsErases(s, s');
    } else if FirmwareStep(s, s') {
      RebootEnds(s, s');
      WriteKeepsErases(s, s');
    } else if WorkStep(s, s') {
      InstallKeepsErases(s, s');
    } else {
      BootKeepsErases(s, s');
    }
  }

  lemma EraseStep(s: State, s': State)
    requires ErasesAsked(s) && WorkStep(s, s') && s.pc in {PACKAGE_ERASE, ERASE_DATA, ERASE_CACHE}
    ensures ErasesAsked(s')
  {
    WorkKeeps(s, s');
  }

  lemma FromRead(s: State, s': State)
    requires Next(s, s') && s.pc == READ_ARGS && s'.pc != OFF
    ensures ReadArgs(s, s')
  {
  }

  lemma StoreAsked(s: State, s': State)
    requires StoreArgs(s, s') && !s.dataErased && !s.cacheErased
    ensures ErasesAsked(s')
  {
  }

  lemma ErasesAskedStep(s: State, s': State)
    requires ErasesAsked(s) && Early(s) && Next(s, s')
    ensures ErasesAsked(s')
  {
    NextFollows(s, s');
    NextEarly(s, s');
    if s'.pc == OFF {
    } else if s.pc == READ_ARGS {
      FromRead(s, s');
    } else if s.pc == STORE_ARGS {
      FromStore(s, s');
      StoreAsked(s, s');
    } else if s.pc in {PACKAGE_ERASE, ERASE_DATA, ERASE_CACHE} {
      FromWork(s, s');
      EraseStep(s, s');
    } else {
      OthersKeepErases(s, s');
    }
  }

  predicate Facts(s: State) {
    Unlinked(s) && SdStored(s) && StillStored(s) && ErasesAsked(s)
  }

  lemma FactsAt(run: seq<State>, i: nat)
    requires Run(run) && i + 1 < |run| && Facts(run[i])
    ensures Facts(run[i + 1])
  {
    assert StepAt(run, i);
    RunEarly(run, i);
    UnlinkedStep(run[i], run[i + 1]);
    SdStoredStep(run[i], run[i + 1]);
    StillStoredStep(run[i], run[i + 1]);
    ErasesAskedStep(run[i], run[i + 1]);
  }

  lemma {:induction false} RunFacts(run: seq<State>, i: nat)
    requires Run(run) && i < |run|
    ensures Facts(run[i])
  {
    if i > 0 {
      RunFacts(run, i - 1);
      FactsAt(run, i - 1);
    }
  }

  // ---------- for every run

  /** Wherever recovery is about to reboot, or asks the user, a mounted cache has no command file. */
  lemma CommandIsRemoved(run: seq<State>, i: nat)
    requires Run(run) && i < |run| && run[i].pc in {MENU, REBOOT}
    ensures run[i].cache.Files? ==> run[i].cache.command == None
  {
    RunFacts(run, i);
  }

  /** Until the work is done, a reboot starts recovery with the same message. */
  lemma WorkIsRestarted(run: seq<State>, i: nat)
    requires Run(run) && i < |run|
    ensures run[i].pc in {PACKAGE_ERASE, INSTALL, ERASE_DATA, ERASE_CACHE, USER, CHECK} ==>
      run[i].bcb == Bcb(BootRecovery, Encode(run[i].args))
    ensures run[i].pc == SD_INSTALL ==> run[i].bcb == Bcb(BootRecovery, "recovery\n")
  {
    RunFacts(run, i);
  }

  /**
   In the words of the command line: only what is named is erased, data before a package is
   installed, and everything named has been erased, as far as it can be, when the work is done.
   */
  lemma ErasedAsAsked(run: seq<State>, i: nat)
    requires Run(run) && i < |run|
    ensures var s := run[i];
      var data, cache := "--wipe_data" in s.args, "--wipe_data" in s.args || "--wipe_cache" in s.args;
      var package := exists k :: 0 <= k < |s.args| && UPDATE_PACKAGE <= s.args[k];
      && (s.dataErased ==> data) && (s.cacheErased ==> cache && !package)
      && (s.pc == INSTALL && data ==> s.dataErased)
      && (s.pc == CHECK ==> (data ==> s.dataErased) && (cache && !package ==> s.cacheErased))
  {
    RunFacts(run, i);
    OptionsExactly(run[i].args);
    PackageAmong(run[i].args);
  }

  lemma PackageAmong(args: seq<string>)
    ensures OptionsOf(args).updatePackage.Some? <==> exists k :: 0 <= k < |args| && UPDATE_PACKAGE <= args[k]
  {
    LastValueExactly(args, UPDATE_PACKAGE);
    if OptionsOf(args).updatePackage.Some? {
      var v := OptionsOf(args).updatePackage.value;
      var k: nat :| LastAt(args, UPDATE_PACKAGE, v, k);
      assert UPDATE_PACKAGE <= args[k];
    }
  }

  /** After the work, firmware is written and the intent recorded at once only if all of it succeeded. */
  lemma FailureAsks(run: seq<State>, i: nat)
    requires Run(run) && i + 1 < |run| && run[i].pc == CHECK && !run[i].ok && run[i + 1].pc != OFF
    ensures run[i + 1].pc == FINISH_CLEAR && run[i + 1].prompting
  {
    assert StepAt(run, i);
    FromCheck(run[i], run[i + 1]);
  }
}
