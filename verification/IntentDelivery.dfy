/** The `--send_intent` value and its file (recovery.c). */
module IntentDelivery {
  import opened Wrappers
  import opened CString
  import opened BootMessage
  import opened RecoveryArgs
  import opened RecoveryProtocol
  import opened HandoffInvariant
  import opened FactoryReset
  import opened RecoveryTrack
  import opened RecoveryEnds
  import opened IntentCarried

  /*
   Exactly when the value is in the intent file whenever the main system next runs, whatever
   crashes happen and whether or not the install led through a firmware update (firmware.c),
   which wipes the cache.
   */

  // ---------- whenever it is asked for

  /** Asked for and kept, and no install is to work beside a raw cache, which it need not format. */
  predicate Deliverable(s: State, intent: string) {
    AsksStored(s.args, intent) && (s.cache.Files? || !InstallsPackage(s.args))
  }

  /**
   From a `get_args` whose arguments ask for `intent` before and after being stored: whenever
   a run of successful steps and crashes reaches the main system, the intent file holds it.
   */
  lemma IntentIsDelivered(run: seq<State>, i: nat, intent: string)
    requires OkRun(run) && OnTrack(run[0]) && 1 <= i < |run|
    requires StoreArgs(run[0], run[1]) && Deliverable(run[0], intent)
    requires run[i].pc == MAIN
    ensures run[i].cache.Files? && run[i].cache.intent == Some(intent)
  {
    StoreCarries(run[0], run[1], intent);
    StoreWipes(run[0], run[1]);
    RunOnTrack(run, 1);
    TailIsRun(run);
    RunCarries(run[1..], i - 1, intent);
    RunOnTrack(run, i);
    Arrives(run[i], intent);
  }

  lemma Arrives(s: State, intent: string)
    requires OnTrack(s) && Carries(s, intent) && s.pc == MAIN
    ensures s.cache.Files? && s.cache.intent == Some(intent)
  {
  }

  lemma TailIsRun(run: seq<State>)
    requires OkRun(run) && |run| > 1
    ensures OkRun(run[1..])
  {
    forall i: nat | i + 1 < |run[1..]| ensures OkStepAt(run[1..], i) {
      assert OkStepAt(run, i + 1);
    }
  }

  // ---------- exactly when

  /** Every run that goes on from this `get_args` to the main system delivers the intent. */
  ghost predicate AlwaysDelivers(s: State, intent: string) {
    forall run: seq<State>, i: nat ::
      OkRun(run) && run[0] == s && 1 <= i < |run| && StoreArgs(s, run[1]) && run[i].pc == MAIN ==>
        run[i].cache.Files? && run[i].cache.intent == Some(intent)
  }

  function AfterStore(s: State): State {
    s.(pc := Dispatch(s.args), bcb := Bcb(BootRecovery, Encode(s.args)))
  }

  lemma AfterStoreOnTrack(s: State)
    requires OnTrack(s) && s.pc == STORE_ARGS
    ensures StoreArgs(s, AfterStore(s)) && OnTrack(AfterStore(s))
  {
    StoreOnTrack(s, AfterStore(s));
  }

  /** Going on from `mid`, which carries another intent, delivers that one. */
  lemma OtherIntent(s: State, prefix: seq<State>, intent: string, other: string)
    requires OkRun(prefix) && |prefix| > 1 && prefix[0] == s && StoreArgs(s, prefix[1])
    requires var mid := prefix[|prefix| - 1]; OnTrack(mid) && WipesBefore(mid) && Carries(mid, other)
    requires other != intent
    ensures !AlwaysDelivers(s, intent)
  {
    var rest := ReachMain(prefix[|prefix| - 1]);
    var n := |rest| - 1;
    RunOnTrack(rest, n);
    RunWipes(rest, n);
    RunCarries(rest, n, other);
    Arrives(rest[n], other);
    OkRunJoin(prefix, rest);
    Undelivered(s, prefix + rest[1..], intent);
  }

  lemma Undelivered(s: State, run: seq<State>, intent: string)
    requires OkRun(run) && run[0] == s && |run| > 1 && StoreArgs(s, run[1])
    requires var last := run[|run| - 1];
      last.pc == MAIN && (last.cache.Files? ==> last.cache.intent != Some(intent))
    ensures !AlwaysDelivers(s, intent)
  {
    assert run[|run| - 1].pc == MAIN;
  }

  /** A crash right after storing, and the next boot knows only what was stored. */
  lemma RestartRun(s: State) returns (run: seq<State>)
    requires OnTrack(s) && s.pc == STORE_ARGS && (s.cache.Files? || !InstallsPackage(s.args))
    ensures OkRun(run) && |run| > 1 && run[0] == s && StoreArgs(s, run[1])
    ensures var last := run[|run| - 1]; last == PowerOff(AfterStore(s)) && OnTrack(last) && WipesBefore(last)
  {
    var s1 := AfterStore(s);
    var s2 := PowerOff(s1);
    AfterStoreOnTrack(s);
    BootOnTrack(s1, s2);
    StoreWipes(s, s1);
    BootWipes(s1, s2);
    run := [s, s1, s2];
  }

  /** If another intent is stored, that one arrives. */
  lemma OtherStored(s: State, intent: string, other: string)
    requires OnTrack(s) && s.pc == STORE_ARGS && other != intent && (s.cache.Files? || !InstallsPackage(s.args))
    requires var m := ParseMessage(Encode(s.args)); m.Some? && LastValue(m.value, SEND_INTENT) == Some(other)
    ensures !AlwaysDelivers(s, intent)
  {
    var run := RestartRun(s);
    EncodeStored(s.args);
    assert Carries(run[|run| - 1], other);
    OtherIntent(s, run, intent, other);
  }

  /** The way to the install ... */
  lemma InstallRun(s: State) returns (run: seq<State>)
    requires OnTrack(s) && s.pc == STORE_ARGS && InstallsPackage(s.args)
    ensures OkRun(run) && |run| > 1 && run[0] == s && StoreArgs(s, run[1])
    ensures var last := run[|run| - 1];
      && last.pc == INSTALL && last.args == s.args && last.cache == s.cache
      && last.ok && !last.prompting && last.pending == None
  {
    var s1 := AfterStore(s);
    AfterStoreOnTrack(s);
    if s1.pc == INSTALL {
      run := [s, s1];
    } else {
      var s2 := s1.(pc := INSTALL, dataErased := true);
      assert OkWork(s1, s2) by { assert PackageErase(s1, s2); }
      run := [s, s1, s2];
    }
  }

  /** ... and on to the firmware message. */
  lemma MessageRun(s: State, f: Firmware) returns (run: seq<State>)
    requires s.pc == INSTALL && s.ok && !s.prompting && s.pending == None && f.image != []
    ensures OkRun(run) && run[0] == s
    ensures var last := run[|run| - 1];
      && last.pc == FW_BEGIN && last.cache == s.cache
      && last.bcb == Bcb(BootRecovery, Encode(FirmwareArgs(OptionsOf(s.args).sendIntent)))
  {
    var s1 := s.(pc := CHECK, pending := Some(f), delivered := s.delivered + [f]);
    var s2 := s1.(pc := FW_MESSAGE);
    var s3 := s2.(pc := FW_BEGIN, bcb := Bcb(BootRecovery, Encode(FirmwareArgs(OptionsOf(s2.args).sendIntent))));
    assert OkWork(s, s1) by { assert Install(s, s1); }
    assert OkWork(s1, s2) by { assert Check(s1, s2); }
    assert OkFirmware(s2, s3) by { assert FirmwareMessageStep(s2, s3); }
    run := [s, s1, s2, s3];
  }

  /** The firmware message keeps only part of a long intent. */
  lemma LongIntent(s: State, intent: string)
    requires OnTrack(s) && s.pc == STORE_ARGS && InstallsPackage(s.args) && s.cache.Files?
    requires LastValue(s.args, SEND_INTENT) == Some(intent) && |intent| > INTENT_ROOM
    ensures !AlwaysDelivers(s, intent)
  {
    var r0 := InstallRun(s);
    var r1 := MessageRun(r0[|r0| - 1], Firmware(Radio, [0]));
    OkRunJoin(r0, r1);
    var run := r0 + r1[1..];
    var kept := intent[..INTENT_ROOM];
    RunOnTrack(run, |run| - 1);
    LastValueGood(s.args, SEND_INTENT);
    FirmwareMessageArgs(Some(intent));
    FirmwareOptions(Some(kept));
    assert Carries(run[|run| - 1], kept);
    OtherIntent(s, run, intent, kept);
  }

  /** The work after `get_args`, formatting the cache and handing over nothing. */
  lemma FormatsCache(s: State) returns (run: seq<State>)
    requires OnTrack(s) && WipesBefore(s) && s.pc in {PACKAGE_ERASE, INSTALL, ERASE_DATA, ERASE_CACHE}
    ensures OkRun(run) && run[0] == s
    ensures var last := run[|run| - 1];
      && last.pc == CHECK && last.args == s.args && last.cache == FORMATTED
      && last.ok && !last.prompting && last.pending == None
  {
    var s1 := if s.pc in {PACKAGE_ERASE, INSTALL}
              then s.(pc := INSTALL, dataErased := s.dataErased || s.pc == PACKAGE_ERASE)
              else s.(pc := ERASE_CACHE, dataErased := s.dataErased || s.pc == ERASE_DATA,
                      dataWiped := s.dataWiped || s.pc == ERASE_DATA);
    assert s.pc == PACKAGE_ERASE ==> PackageErase(s, s1);
    assert s.pc == ERASE_DATA ==> EraseData(s, s1);
    var s2 := s1.(pc := CHECK, cacheErased := s1.cacheErased || s1.pc == ERASE_CACHE,
                  cacheWiped := s1.cacheWiped || s1.pc == ERASE_CACHE, cache := FORMATTED);
    assert s1.pc == INSTALL ==> Install(s1, s2);
    assert s1.pc == ERASE_CACHE ==> EraseCache(s1, s2);
    assert OkWork(s1, s2);
    if s == s1 {
      run := [s1, s2];
    } else {
      assert OkWork(s, s1);
      run := [s, s1, s2];
    }
  }

  /** The end of recovery without an intent, or on a raw cache, where none can be written. */
  lemma FinishesWithout(s: State) returns (run: seq<State>)
    requires s.pc == CHECK && s.ok && !s.prompting && s.pending == None
    requires if s.cache.Files? then s.cache == FORMATTED && LastValue(s.args, SEND_INTENT) == None else true
    ensures OkRun(run) && run[0] == s
    ensures var last := run[|run| - 1]; last.pc == MAIN && last.cache == s.cache
  {
    var s1 := s.(pc := FINISH_INTENT);
    var s2 := s1.(pc := FINISH_CLEAR);
    var s3 := s2.(pc := FINISH_UNLINK, bcb := ZEROED);
    var s4 := s3.(pc := REBOOT);
    var s5 := PowerOff(s4);
    var s6 := s5.(pc := MAIN);
    assert OkWork(s, s1) by { assert Check(s, s1); }
    assert FinishIntent(s1, s2) && FinishClear(s2, s3) && FinishUnlink(s3, s4) && FinalReboot(s4, s5) && Boot(s5, s6);
    run := [s, s1, s2, s3, s4, s5, s6];
  }

  /** The boot after the crash, up to its work. */
  lemma RestartedRun(s: State) returns (run: seq<State>)
    requires OnTrack(s) && WipesBefore(s) && s.pc == OFF && s.bcb.command == BootRecovery
    ensures Stored(s.bcb.recovery)
    ensures OkRun(run) && run[0] == s
    ensures var last := run[|run| - 1];
      && last.pc in {PACKAGE_ERASE, INSTALL, ERASE_DATA, ERASE_CACHE}
      && last.args == StoredArgs(s.bcb.recovery) && OnTrack(last) && WipesBefore(last)
  {
    StoredActionKept(s);
    var args := StoredArgs(s.bcb.recovery);
    var s1 := s.(pc := READ_ARGS);
    var s2 := s1.(pc := STORE_ARGS, args := args);
    BootOnTrack(s, s1);
    ReadOnTrack(s1, s2);
    AfterStoreOnTrack(s2);
    BootWipes(s, s1);
    ReadWipes(s1, s2);
    StoreWipes(s2, AfterStore(s2));
    run := [s, s1, s2, AfterStore(s2)];
  }

  /** If no intent is stored, some run leaves no intent file. */
  lemma NoneStored(s: State, intent: string)
    requires OnTrack(s) && s.pc == STORE_ARGS && (s.cache.Files? || !InstallsPackage(s.args))
    requires var m := ParseMessage(Encode(s.args)); m.Some? && LastValue(m.value, SEND_INTENT) == None
    ensures !AlwaysDelivers(s, intent)
  {
    var r0 := RestartRun(s);
    var r1 := RestartedRun(r0[|r0| - 1]);
    var r2 := FormatsCache(r1[|r1| - 1]);
    var r3 := FinishesWithout(r2[|r2| - 1]);
    OkRunJoin(r2, r3);
    OkRunJoin(r1, r2 + r3[1..]);
    var rest := r1 + (r2 + r3[1..])[1..];
    OkRunJoin(r0, rest);
    Undelivered(s, r0 + rest[1..], intent);
  }

  /** An install beside a raw cache that neither formats it nor brings firmware. */
  lemma RawInstall(s: State, intent: string)
    requires OnTrack(s) && s.pc == STORE_ARGS && !s.cache.Files? && InstallsPackage(s.args)
    ensures !AlwaysDelivers(s, intent)
  {
    var r0 := InstallRun(s);
    var s1 := r0[|r0| - 1];
    var s2 := s1.(pc := CHECK);
    assert OkWork(s1, s2) by { assert Install(s1, s2); }
    OkRunJoin(r0, [s1, s2]);
    var r1 := FinishesWithout(s2);
    var r2 := r0 + [s1, s2][1..];
    OkRunJoin(r2, r1);
    Undelivered(s, r2 + r1[1..], intent);
  }

  /**
   An intent among the arguments is delivered in every run of successful steps and crashes if
   and only if it is still the intent after being stored and, when a package is given, has at
   most 987 characters, which a firmware message can keep, and the cache is not raw.
   */
  lemma IntentExactly(s: State, intent: string)
    requires OnTrack(s) && s.pc == STORE_ARGS && LastValue(s.args, SEND_INTENT) == Some(intent)
    ensures AlwaysDelivers(s, intent) <==> Deliverable(s, intent)
  {
    EncodeStored(s.args);
    var stored := LastValue(ParseMessage(Encode(s.args)).value, SEND_INTENT);
    if !s.cache.Files? && InstallsPackage(s.args) {
      RawInstall(s, intent);
    } else if AsksStored(s.args, intent) {
      forall run: seq<State>, i: nat
        | OkRun(run) && run[0] == s && 1 <= i < |run| && StoreArgs(s, run[1]) && run[i].pc == MAIN
        ensures run[i].cache.Files? && run[i].cache.intent == Some(intent)
      {
        IntentIsDelivered(run, i, intent);
      }
    } else if stored == None {
      NoneStored(s, intent);
    } else if stored != Some(intent) {
      OtherStored(s, intent, stored.value);
    } else {
      LongIntent(s, intent);
    }
  }

  /** So it is for every intent that `get_args` finds in any run, whatever has failed before. */
  lemma IntentInRuns(run: seq<State>, i: nat, intent: string)
    requires Run(run) && i < |run| && run[i].pc == READ_ARGS
    requires ActionKept(Chosen(run[i])) && LastValue(Chosen(run[i]), SEND_INTENT) == Some(intent)
    ensures var s := run[i].(pc := STORE_ARGS, args := Chosen(run[i]));
      ReadArgs(run[i], s) && (AlwaysDelivers(s, intent) <==> Deliverable(s, intent))
  {
    var s := run[i].(pc := STORE_ARGS, args := Chosen(run[i]));
    StartsOnTrack(run, i);
    ReadOnTrack(run[i], s);
    IntentExactly(s, intent);
  }

  /** Arguments that fit the control block are kept. */
  lemma FittingIntent(args: seq<string>, intent: string)
    requires GoodArgs(args) && |args| < MAX_ARGS && |Full(args)| <= RECOVERY_SIZE
    requires LastValue(args, SEND_INTENT) == Some(intent)
    ensures AsksStored(args, intent)
  {
    ArgumentsSurvive(args);
    if InstallsPackage(args) {
      PackageLeavesRoom(args);
    }
  }
}
