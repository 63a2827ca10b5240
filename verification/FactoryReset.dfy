/** Factory reset (recovery.c). */
module FactoryReset {
  import opened Wrappers
  import opened CString
  import opened BootMessage
  import opened RecoveryArgs
  import opened RecoveryProtocol
  import opened HandoffInvariant
  import opened RecoveryEntry
  import opened ResetSteps

  /*
   Once `get_args` has stored the wipe, rebooting restarts it, and the control block is cleared
   only after the erases of DATA: and CACHE: have returned in the same boot.
   */

  lemma {:induction false} PackageFound(args: seq<string>)
    ensures LastValue(args, UPDATE_PACKAGE).Some? <==> exists i :: 0 <= i < |args| && UPDATE_PACKAGE <= args[i]
  {
    if args != [] {
      var init := args[..|args| - 1];
      PackageFound(init);
      if i :| 0 <= i < |args| && UPDATE_PACKAGE <= args[i] {
        assert i < |init| ==> UPDATE_PACKAGE <= init[i];
      }
      if i :| 0 <= i < |init| && UPDATE_PACKAGE <= init[i] {
        assert UPDATE_PACKAGE <= args[i];
      }
    }
  }

  /** Cutting a message does not add a package. */
  lemma StoredReset(args: seq<string>)
    requires GoodArgs(args) && |args| < MAX_ARGS && IsReset(args)
    ensures Stored(Encode(args))
    ensures WIPE_DATA in StoredArgs(Encode(args)) ==> IsReset(StoredArgs(Encode(args)))
  {
    EncodeStored(args);
    MessageTokens(args);
    var kept := StoredArgs(Encode(args));
    PackageFound(args);
    PackageFound(kept);
    forall i | 0 <= i < |kept| ensures !(UPDATE_PACKAGE <= kept[i]) {
      assert kept[i] <= args[i];
    }
  }

  // ---------- runs

  /** Nothing has happened yet in this boot. */
  predicate AtStoreArgs(s: State) {
    && s.pc == STORE_ARGS
    && s.pending == None && s.ok && !s.prompting && !s.dataErased && !s.cacheErased
    && GoodArgs(s.args) && |s.args| < MAX_ARGS
  }

  /** Every `get_args` of every run starts from such a state. */
  lemma RunAtStoreArgs(run: seq<State>, i: nat)
    requires Run(run) && i < |run| && run[i].pc == STORE_ARGS
    ensures AtStoreArgs(run[i])
  {
    RunEarly(run, i);
    HandoffInvariant.RunInv(run, i);
  }

  /** The message was kept up to step k, which cleared it after both erases. */
  predicate ClearedAfterErases(run: seq<State>, k: nat, text: string) {
    && k + 1 < |run|
    && (forall m :: 1 <= m <= k ==> run[m].bcb == Bcb(BootRecovery, text))
    && ClearsErased(run[k], run[k + 1])
  }

  lemma ResettingAt(run: seq<State>, i: nat, text: string)
    requires Steps(run) && i + 1 < |run| && Resetting(run[i], text)
    ensures Resetting(run[i + 1], text) || ClearsErased(run[i], run[i + 1])
  {
    assert StepAt(run, i);
    ResettingStep(run[i], run[i + 1], text);
  }

  /**
   Any steps, crashes included, after `get_args` stored a reset: up to any later point the
   control block still orders recovery to perform it, or it was kept until finish_recovery
   cleared it after both erases had returned.
   */
  lemma {:induction false} ResetIsRestartable(run: seq<State>, j: nat)
    requires Steps(run) && AtStoreArgs(run[0]) && 1 <= j < |run| && StoreArgs(run[0], run[1])
    requires IsReset(run[0].args) && Stored(Encode(run[0].args)) && WIPE_DATA in StoredArgs(Encode(run[0].args))
    ensures var text := Encode(run[0].args);
      || (Resetting(run[j], text) && forall m :: 1 <= m <= j ==> run[m].bcb == Bcb(BootRecovery, text))
      || exists k: nat :: k < j && ClearedAfterErases(run, k, text)
    decreases j
  {
    var text := Encode(run[0].args);
    StoredReset(run[0].args);
    if j > 1 {
      ResetIsRestartable(run, j - 1);
      if k: nat :| k < j - 1 && ClearedAfterErases(run, k, text) {
        assert k < j && ClearedAfterErases(run, k, text);
      } else {
        ResettingAt(run, j - 1, text);
        if ClearsErased(run[j - 1], run[j]) {
          assert ClearedAfterErases(run, j - 1, text);
        }
      }
    }
  }

  // ---------- exactly when

  /** In this run the stored message is cleared although an erase is missing. */
  predicate ClearsUnerased(run: seq<State>, k: nat) {
    && 1 <= k && k + 1 < |run|
    && (forall m :: 1 <= m <= k ==> run[m].bcb == run[1].bcb)
    && FinishClear(run[k], run[k + 1]) && !(run[k].dataErased && run[k].cacheErased)
  }

  ghost predicate AlwaysErasesFirst(s: State) {
    forall run: seq<State>, k: nat ::
      Steps(run) && run[0] == s && |run| > 1 && StoreArgs(s, run[1]) ==> !ClearsUnerased(run, k)
  }

  /** With a package, or without the wipe, some run clears the message with an erase missing. */
  lemma UnerasedRun(s: State) returns (run: seq<State>, k: nat)
    requires AtStoreArgs(s) && !IsReset(s.args)
    ensures Steps(run) && run[0] == s && |run| > 1 && StoreArgs(s, run[1]) && ClearsUnerased(run, k)
  {
    var s1 := s.(pc := Dispatch(s.args), bcb := Bcb(BootRecovery, Encode(s.args)));
    assert StoreArgs(s, s1);
    if s1.pc == PACKAGE_ERASE {
      var s2 := s1.(pc := INSTALL, dataErased := true);
      var s3 := s2.(pc := CHECK);
      var s4 := s3.(pc := FINISH_CLEAR, prompting := true);
      var s5 := s4.(pc := FINISH_UNLINK, bcb := ZEROED);
      assert PackageErase(s1, s2) && Install(s2, s3) && Check(s3, s4) && FinishClear(s4, s5);
      run, k := [s, s1, s2, s3, s4, s5], 4;
    } else {
      var s2 := if s1.pc == ERASE_CACHE
                then s1.(pc := CHECK, cacheErased := true, cacheWiped := true, cache := FORMATTED)
                else s1.(pc := CHECK);
      var s3 := s2.(pc := FINISH_CLEAR, prompting := true);
      var s4 := s3.(pc := FINISH_UNLINK, bcb := ZEROED);
      assert WorkStep(s1, s2) by {
        assert s1.pc == INSTALL || s1.pc == ERASE_CACHE || s1.pc == USER;
        assert s1.pc == INSTALL ==> Install(s1, s2);
        assert s1.pc == ERASE_CACHE ==> EraseCache(s1, s2);
        assert s1.pc == USER ==> UserInitiated(s1, s2);
      }
      assert Check(s2, s3) && FinishClear(s3, s4);
      run, k := [s, s1, s2, s3, s4], 3;
    }
  }

  /** The boot after a crash finds what was stored. */
  lemma RestartsWith(s: State) returns (s': State, run: seq<State>)
    requires AtStoreArgs(s) && Stored(Encode(s.args)) && StoredArgs(Encode(s.args)) != []
    ensures Steps(run) && |run| == 5 && run[0] == s && StoreArgs(s, run[1]) && run[4] == s'
    ensures AtStoreArgs(s') && s'.args == StoredArgs(Encode(s.args))
    ensures forall m :: 1 <= m <= 4 ==> run[m].bcb == Bcb(BootRecovery, Encode(s.args))
  {
    var stored := StoredArgs(Encode(s.args));
    StoredGood(Encode(s.args));
    var s1 := s.(pc := Dispatch(s.args), bcb := Bcb(BootRecovery, Encode(s.args)));
    var s2 := PowerOff(s1);
    var s3 := s2.(pc := READ_ARGS);
    s' := s3.(pc := STORE_ARGS, args := stored);
    assert StoreArgs(s, s1) && Crash(s1, s2) && Boot(s2, s3) && ReadArgs(s3, s');
    run := [s, s1, s2, s3, s'];
  }

  lemma StepsJoin(a: seq<State>, b: seq<State>)
    requires Steps(a) && Steps(b) && a[|a| - 1] == b[0]
    ensures Steps(a + b[1..])
  {
    var run := a + b[1..];
    forall i: nat | i + 1 < |run| ensures StepAt(run, i) {
      if i + 1 < |a| {
        assert StepAt(a, i);
      } else {
        assert StepAt(b, i + 1 - |a|);
      }
    }
  }

  /** If the wipe itself was cut off, a crash makes the next boot forget it. */
  lemma CutResetRun(s: State) returns (run: seq<State>, k: nat)
    requires AtStoreArgs(s) && Stored(Encode(s.args)) && StoredArgs(Encode(s.args)) != []
    requires WIPE_DATA !in StoredArgs(Encode(s.args))
    ensures Steps(run) && run[0] == s && |run| > 1 && StoreArgs(s, run[1]) && ClearsUnerased(run, k)
  {
    var s', a := RestartsWith(s);
    var b, j := UnerasedRun(s');
    StepsJoin(a, b);
    run, k := a + b[1..], j + 4;
    KeptAcross(a, b, j);
  }

  /** The message is kept over the restart and up to its clearing. */
  lemma KeptAcross(a: seq<State>, b: seq<State>, j: nat)
    requires |a| == 5 && |b| > 1 && a[4] == b[0] && ClearsUnerased(b, j)
    requires forall m :: 1 <= m <= 4 ==> a[m].bcb == b[1].bcb
    ensures ClearsUnerased(a + b[1..], j + 4)
  {
    var run := a + b[1..];
    assert run[j + 4] == b[j] && run[j + 5] == b[j + 1];
    forall m | 1 <= m <= j + 4 ensures run[m].bcb == run[1].bcb {
      if m > 4 {
        assert run[m] == b[m - 4];
      }
    }
  }

  lemma ResetNeverUnerased(s: State, run: seq<State>, k: nat)
    requires AtStoreArgs(s) && IsReset(s.args) && Stored(Encode(s.args)) && WIPE_DATA in StoredArgs(Encode(s.args))
    requires Steps(run) && run[0] == s && |run| > 1 && StoreArgs(s, run[1])
    ensures !ClearsUnerased(run, k)
  {
    if ClearsUnerased(run, k) {
      ResetIsRestartable(run, k);
      var text := Encode(s.args);
      if j: nat :| j < k && ClearedAfterErases(run, j, text) {
        assert false;
      }
    }
  }

  /** Arguments do not vanish altogether when they are cut. */
  lemma SomethingStored(args: seq<string>)
    requires GoodArgs(args) && |args| < MAX_ARGS && args != []
    ensures Stored(Encode(args)) && StoredArgs(Encode(args)) != []
  {
    EncodeStored(args);
    EncodeEmpty(args);
  }

  /**
   The control block is cleared only after both erases in every run if and only if the
   arguments ask for the wipe and for no package, and the wipe is not cut off when they are
   stored: with `--update_package` the cache is not erased.
   */
  lemma ErasesFirstExactly(s: State)
    requires AtStoreArgs(s)
    ensures Stored(Encode(s.args))
    ensures AlwaysErasesFirst(s) <==> IsReset(s.args) && WIPE_DATA in StoredArgs(Encode(s.args))
  {
    EncodeStored(s.args);
    if !IsReset(s.args) {
      var run, k := UnerasedRun(s);
    } else if WIPE_DATA !in StoredArgs(Encode(s.args)) {
      SomethingStored(s.args);
      var run, k := CutResetRun(s);
    } else {
      forall run: seq<State>, k: nat | Steps(run) && run[0] == s && |run| > 1 && StoreArgs(s, run[1])
        ensures !ClearsUnerased(run, k)
      {
        ResetNeverUnerased(s, run, k);
      }
    }
  }

  // ---------- whether the erases succeeded

  /** The erase at step j failed, and that boot still goes on at k. */
  predicate FailedAt(run: seq<State>, j: nat, k: nat) {
    j < k < |run| && EraseFails(run[j], run[j + 1]) && forall m: nat :: j < m <= k ==> run[m].pc != OFF
  }

  ghost predicate FailedInBoot(run: seq<State>, k: nat) {
    exists j: nat :: FailedAt(run, j, k)
  }

  /** One step further, a failure in this boot is an earlier one, or the last step. */
  lemma FailedNext(run: seq<State>, i: nat)
    requires i + 1 < |run|
    ensures FailedInBoot(run, i + 1) <==>
      run[i + 1].pc != OFF && (FailedInBoot(run, i) || EraseFails(run[i], run[i + 1]))
  {
    var n := i + 1;
    if FailedInBoot(run, n) {
      var j: nat :| FailedAt(run, j, n);
      assert j < i ==> FailedAt(run, j, i);
    }
    if run[n].pc != OFF {
      if EraseFails(run[i], run[i + 1]) {
        assert FailedAt(run, i, n);
      }
      if j: nat :| FailedAt(run, j, i) {
        assert FailedAt(run, j, n);
      }
    }
  }

  lemma FollowsAt(run: seq<State>, i: nat, text: string)
    requires Steps(run) && i + 1 < |run| && ErasesOnce(run[i])
    requires Resetting(run[i], text) && Resetting(run[i + 1], text)
    ensures FollowsErases(run[i], run[i + 1])
  {
    assert StepAt(run, i);
    StepFollows(run[i], run[i + 1], text);
  }

  /** While the reset is stored, the flags tell whether an erase has failed in this boot. */
  lemma {:induction false} FlagsTell(run: seq<State>, i: nat, text: string)
    requires Steps(run) && 1 <= i < |run| && AtStoreArgs(run[0]) && StoreArgs(run[0], run[1])
    requires forall m :: 1 <= m <= i ==> Resetting(run[m], text)
    ensures ErasesOnce(run[i])
    ensures Unwiped(run[i]) <==> FailedInBoot(run, i)
    decreases i
  {
    FailedNext(run, i - 1);
    if i == 1 {
      assert !FailedInBoot(run, 0);
      assert Resetting(run[1], text);
    } else {
      FlagsTell(run, i - 1, text);
      FollowsAt(run, i - 1, text);
    }
  }

  /** Step k clears a message that has been kept since `get_args` stored it. */
  predicate FirstClears(run: seq<State>, k: nat) {
    && 1 <= k && k + 1 < |run|
    && (forall m :: 1 <= m <= k ==> run[m].bcb == run[1].bcb)
    && FinishClear(run[k], run[k + 1])
  }

  lemma StillResetting(run: seq<State>, k: nat, m: nat)
    requires Steps(run) && AtStoreArgs(run[0]) && FirstClears(run, k) && 1 <= m <= k && StoreArgs(run[0], run[1])
    requires IsReset(run[0].args) && Stored(Encode(run[0].args)) && WIPE_DATA in StoredArgs(Encode(run[0].args))
    ensures Resetting(run[m], Encode(run[0].args))
  {
    var text := Encode(run[0].args);
    ResetIsRestartable(run, m);
    if j: nat :| j < m && ClearedAfterErases(run, j, text) {
      assert run[j + 1].bcb == ZEROED;
    }
  }

  /**
   A stored reset is cleared with both erases having succeeded exactly if no erase has failed
   in the boot that clears it; otherwise it is forgotten although something was not erased.
   */
  lemma ForgottenExactly(run: seq<State>, k: nat)
    requires Steps(run) && AtStoreArgs(run[0]) && FirstClears(run, k) && StoreArgs(run[0], run[1])
    requires IsReset(run[0].args) && Stored(Encode(run[0].args)) && WIPE_DATA in StoredArgs(Encode(run[0].args))
    ensures run[k].dataWiped && run[k].cacheWiped <==> !FailedInBoot(run, k)
  {
    var text := Encode(run[0].args);
    forall m | 1 <= m <= k ensures Resetting(run[m], text) {
      StillResetting(run, k, m);
    }
    FlagsTell(run, k, text);
    assert Resetting(run[k], text);
  }

  /** Whatever reset is stored, a failing erase can make recovery forget it. */
  lemma ForgottenRun(s: State) returns (run: seq<State>, k: nat)
    requires AtStoreArgs(s) && IsReset(s.args)
    ensures Steps(run) && run[0] == s && FirstClears(run, k) && StoreArgs(s, run[1])
    ensures !run[k].dataWiped
  {
    var s1 := s.(pc := ERASE_DATA, bcb := Bcb(BootRecovery, Encode(s.args)));
    var s2 := s1.(pc := ERASE_CACHE, dataErased := true, dataWiped := false, ok := false);
    var s3 := s2.(pc := CHECK, cacheErased := true, cacheWiped := true, cache := FORMATTED);
    var s4 := s3.(pc := FINISH_CLEAR, prompting := true);
    var s5 := s4.(pc := FINISH_UNLINK, bcb := ZEROED);
    assert StoreArgs(s, s1) by {
      assert OptionsOf(s.args).wipeData && OptionsOf(s.args).updatePackage.None?;
    }
    assert EraseData(s1, s2) && EraseCache(s2, s3) && Check(s3, s4) && FinishClear(s4, s5);
    run, k := [s, s1, s2, s3, s4, s5], 4;
  }
}
