/**
 What each step of recovery and each crash keeps while a factory reset is stored in the control
 block (recovery.c): the message itself, which erases have returned in this boot, and whether
 they have succeeded.  Again one lemma for each group of steps.
 */
module ResetSteps {
  import opened Wrappers
  import opened CString
  import opened BootMessage
  import opened RecoveryArgs
  import opened RecoveryProtocol
  import opened HandoffInvariant

  /** `--wipe_data` is given and no package is to be installed. */
  predicate IsReset(args: seq<string>) {
    WIPE_DATA in args && LastValue(args, UPDATE_PACKAGE).None?
  }

  // ---------- while the message is stored

  predicate ResetPhase(pc: nat) {
    pc in {OFF, READ_ARGS, STORE_ARGS, ERASE_DATA, ERASE_CACHE, CHECK, FINISH_INTENT, FINISH_CLEAR}
  }

  /** The reset message `text` is stored, and this boot has not cleared it yet. */
  predicate Resetting(s: State, text: string) {
    && Stored(text) && IsReset(StoredArgs(text))
    && s.bcb == Bcb(BootRecovery, text)
    && ResetPhase(s.pc)
    && s.pending == None
    && (s.pc == STORE_ARGS ==> s.args == StoredArgs(text))
    && (s.pc in {ERASE_CACHE, CHECK, FINISH_INTENT, FINISH_CLEAR} ==> s.dataErased)
    && (s.pc in {CHECK, FINISH_INTENT, FINISH_CLEAR} ==> s.cacheErased)
  }

  /** finish_recovery clears the control block, both erases having returned in this boot. */
  predicate ClearsErased(s: State, s': State) {
    FinishClear(s, s') && s.dataErased && s.cacheErased
  }

  lemma ResettingArgs(s: State, s': State, text: string)
    requires Resetting(s, text) && ArgsStep(s, s')
    ensures Resetting(s', text)
  {
    var args := StoredArgs(text);
    assert args != [];
    if ReadArgs(s, s') {
      assert Chosen(s) == args;
    } else {
      assert OptionsOf(args).wipeData && OptionsOf(args).updatePackage.None?;
    }
  }

  lemma ResettingOthers(s: State, s': State, text: string)
    requires Resetting(s, text) && (Crash(s, s') || BootStep(s, s') || PromptStep(s, s') || FirmwareStep(s, s'))
    ensures Resetting(s', text)
  {
  }

  lemma ResettingWork(s: State, s': State, text: string)
    requires Resetting(s, text) && WorkStep(s, s')
    ensures Resetting(s', text)
  {
  }

  lemma ResettingFinish(s: State, s': State, text: string)
    requires Resetting(s, text) && FinishStep(s, s')
    ensures Resetting(s', text) || ClearsErased(s, s')
  {
  }

  /** Every step keeps the message, except the clearing after both erases. */
  lemma ResettingStep(s: State, s': State, text: string)
    requires Resetting(s, text) && Next(s, s')
    ensures Resetting(s', text) || ClearsErased(s, s')
  {
    if ArgsStep(s, s') {
      ResettingArgs(s, s', text);
    } else if WorkStep(s, s') {
      ResettingWork(s, s', text);
    } else if FinishStep(s, s') {
      ResettingFinish(s, s', text);
    } else {
      ResettingOthers(s, s', text);
    }
  }

  // ---------- whether the erases succeeded

  predicate EraseFails(s: State, s': State) {
    (EraseData(s, s') && !s'.dataWiped) || (EraseCache(s, s') && !s'.cacheWiped)
  }

  /** An erase has returned without success. */
  predicate Unwiped(s: State) {
    (s.dataErased && !s.dataWiped) || (s.cacheErased && !s.cacheWiped)
  }

  /** Each erase is done once in a boot. */
  predicate ErasesOnce(s: State) {
    && (s.pc in {OFF, READ_ARGS, STORE_ARGS, ERASE_DATA} ==> !s.dataErased && !s.cacheErased)
    && (s.pc == ERASE_CACHE ==> !s.cacheErased)
  }

  /** One step of a reset. */
  predicate FollowsErases(s: State, s': State) {
    && ErasesOnce(s')
    && (Unwiped(s') <==> s'.pc != OFF && (Unwiped(s) || EraseFails(s, s')))
  }

  lemma WorkFollows(s: State, s': State)
    requires ErasesOnce(s) && ResetPhase(s.pc) && WorkStep(s, s') && ResetPhase(s'.pc)
    ensures FollowsErases(s, s')
  {
  }

  lemma FinishFollows(s: State, s': State)
    requires ErasesOnce(s) && ResetPhase(s.pc) && FinishStep(s, s') && ResetPhase(s'.pc)
    ensures FollowsErases(s, s')
  {
  }

  lemma BootFollows(s: State, s': State)
    requires ErasesOnce(s) && ResetPhase(s.pc) && ResetPhase(s'.pc)
    requires Crash(s, s') || BootStep(s, s')
    ensures FollowsErases(s, s')
  {
  }

  lemma ArgsFollow(s: State, s': State)
    requires ErasesOnce(s) && ArgsStep(s, s') && s'.pc in {STORE_ARGS, ERASE_DATA}
    ensures FollowsErases(s, s')
  {
  }

  lemma StoresErase(s: State, s': State, text: string)
    requires Resetting(s, text) && ArgsStep(s, s')
    ensures s'.pc in {STORE_ARGS, ERASE_DATA}
  {
    if StoreArgs(s, s') {
      assert OptionsOf(s.args).wipeData && OptionsOf(s.args).updatePackage.None?;
    }
  }

  lemma NoOtherSteps(s: State, s': State)
    requires ResetPhase(s.pc)
    ensures !PromptStep(s, s') && !FirmwareStep(s, s')
  {
  }

  lemma StepFollows(s: State, s': State, text: string)
    requires Resetting(s, text) && Resetting(s', text) && ErasesOnce(s) && Next(s, s')
    ensures FollowsErases(s, s')
  {
    if ArgsStep(s, s') {
      StoresErase(s, s', text);
      ArgsFollow(s, s');
    } else if WorkStep(s, s') {
      WorkFollows(s, s');
    } else if FinishStep(s, s') {
      FinishFollows(s, s');
    } else {
      NoOtherSteps(s, s');
      BootFollows(s, s');
    }
  }
}
