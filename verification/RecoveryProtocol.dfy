/**
 The protocol between the main system, the bootloader and recovery (recovery.c,
 firmware.c): what each step of `main` does to the flash, with a crash possible between
 any two steps.  A write of the bootloader control block is one step.
 */
module RecoveryProtocol {
  import opened Wrappers
  import opened Bytes
  import opened CString
  import opened BootMessage
  import opened RecoveryArgs

  // ---------- state

  datatype FirmwareKind = Radio | Hboot

  datatype Command = NoCommand | BootRecovery | Update(kind: FirmwareKind)

  /** The bootloader control block: its command and the text in its recovery field. */
  datatype Bcb = Bcb(command: Command, recovery: string)

  const ZEROED := Bcb(NoCommand, "")

  datatype Firmware = Firmware(kind: FirmwareKind, image: seq<byte>)

  /**
   The cache partition: a filesystem with the command and intent files, or raw, with a
   firmware image being written or completely written under a valid header.
   */
  datatype Cache =
    | Files(command: Option<seq<string>>, intent: Option<string>)
    | Partial
    | Complete(firmware: Firmware)

  const FORMATTED := Files(None, None)

  /**
   `pc` is the line executed next, in recovery.c or (96 to 126) in firmware.c; OFF, MAIN and
   FLASH are a powered-off device, the main system, and the bootloader installing firmware.
   `bcb` and `cache` survive a crash; `delivered` and `flashed` are history; the rest is lost.
   */
  datatype State = State(
    pc: nat,
    bcb: Bcb,
    cache: Cache,
    args: seq<string>,          // argv, without the program name
    ok: bool,                   // status == INSTALL_SUCCESS
    pending: Option<Firmware>,  // what remember_firmware_update saved
    prompting: bool,            // inside prompt_and_wait
    dataErased: bool,           // the erase of DATA: has returned in this boot
    cacheErased: bool,          // the erase of CACHE: has returned in this boot
    dataWiped: bool,            // ... and it has succeeded
    cacheWiped: bool,
    delivered: seq<Firmware>,   // images that installs have handed over
    flashed: seq<Firmware>)     // images the bootloader has installed

  const OFF := 0
  const MAIN := 1
  const FLASH := 2
  const READ_ARGS := 185
  const STORE_ARGS := 245
  const PACKAGE_ERASE := 541
  const INSTALL := 542
  const ERASE_DATA := 546
  const ERASE_CACHE := 547
  const USER := 562
  const CHECK := 578
  const MENU := 371
  const SD_MESSAGE := 415
  const SD_INSTALL := 417
  const FW_MESSAGE := 96
  const FW_BEGIN := 105
  const FW_WRITE := 106
  const FW_COMMAND := 121
  const FW_REBOOT := 126
  const FINISH_INTENT := 269
  const FINISH_CLEAR := 301
  const FINISH_UNLINK := 308
  const REBOOT := 589

  // ---------- boot, main system, bootloader

  /** Everything volatile is gone. */
  function PowerOff(s: State): State {
    s.(pc := OFF, args := [], ok := true, pending := None, prompting := false,
       dataErased := false, cacheErased := false, dataWiped := false, cacheWiped := false)
  }

  predicate Crash(s: State, s': State) {
    s' == PowerOff(s)
  }

  /** The bootloader follows the command field. */
  predicate Boot(s: State, s': State) {
    && s.pc == OFF
    && s' == s.(pc := match s.bcb.command
                      case BootRecovery => READ_ARGS
                      case Update(_) => FLASH
                      case NoCommand => MAIN)
  }

  /** The user starts recovery with the keys, whatever the command field says. */
  predicate ForceRecovery(s: State, s': State) {
    s.pc == OFF && s' == s.(pc := READ_ARGS)
  }

  /** The main system reads the intent and may leave a command. */
  predicate MainSystem(s: State, s': State) {
    && s.pc == MAIN && s.cache.Files? && s'.cache.Files?
    && (s'.cache.command.Some? ==> GoodArgs(s'.cache.command.value))
    && s' == s.(cache := s'.cache)
  }

  predicate RebootIntoRecovery(s: State, s': State) {
    s.pc == MAIN && s' == s.(pc := READ_ARGS)
  }

  /** The bootloader installs a complete image, or fails to, and boots recovery next. */
  predicate Flash(s: State, s': State) {
    && s.pc == FLASH
    && (s'.flashed == s.flashed || (s.cache.Complete? && s'.flashed == s.flashed + [s.cache.firmware]))
    && s' == PowerOff(s).(bcb := s.bcb.(command := BootRecovery), flashed := s'.flashed)
  }

  predicate BootStep(s: State, s': State) {
    || Boot(s, s') || ForceRecovery(s, s') || MainSystem(s, s') || RebootIntoRecovery(s, s') || Flash(s, s')
  }

  // ---------- arguments

  /** The command file, if the cache can be mounted. */
  function CommandFile(s: State): Option<seq<string>> {
    if s.cache.Files? then s.cache.command else None
  }

  function Chosen(s: State): seq<string> {
    ChooseArgs([], s.bcb.recovery, CommandFile(s)).0
  }

  predicate ReadArgs(s: State, s': State) {
    s.pc == READ_ARGS && s' == s.(pc := STORE_ARGS, args := Chosen(s))
  }

  /** Where the arguments lead. */
  function Dispatch(args: seq<string>): nat {
    var o := OptionsOf(args);
    if o.updatePackage.Some? then (if o.wipeData then PACKAGE_ERASE else INSTALL)
    else if o.wipeData then ERASE_DATA
    else if o.wipeCache then ERASE_CACHE
    else USER
  }

  predicate StoreArgs(s: State, s': State) {
    && s.pc == STORE_ARGS
    && s' == s.(pc := Dispatch(s.args), bcb := Bcb(BootRecovery, Encode(s.args)))
  }

  predicate ArgsStep(s: State, s': State) {
    ReadArgs(s, s') || StoreArgs(s, s')
  }

  // ---------- work

  predicate PackageErase(s: State, s': State) {
    && s.pc == PACKAGE_ERASE
    && s' == s.(pc := INSTALL, dataErased := true, dataWiped := s'.dataWiped)
  }

  /** An install may hand over at most one firmware image; an empty one would be ignored. */
  predicate Remembers(s: State, s': State) {
    || (s'.pending == s.pending && s'.delivered == s.delivered)
    || (s.pending.None? && s'.pending.Some? && s'.pending.value.image != []
        && s'.delivered == s.delivered + [s'.pending.value])
  }

  predicate Install(s: State, s': State) {
    && s.pc == INSTALL
    && Remembers(s, s')
    && (s'.cache == s.cache || (s.cache.Files? && s'.cache == FORMATTED))
    && s' == s.(pc := CHECK, ok := s'.ok, pending := s'.pending, delivered := s'.delivered, cache := s'.cache)
  }

  predicate EraseData(s: State, s': State) {
    && s.pc == ERASE_DATA
    && s' == s.(pc := ERASE_CACHE, dataErased := true, dataWiped := s'.dataWiped, ok := s'.ok)
    && (s'.ok ==> s.ok && s'.dataWiped)
  }

  predicate EraseCache(s: State, s': State) {
    && s.pc == ERASE_CACHE
    && s' == s.(pc := CHECK, cacheErased := true, cacheWiped := s'.cacheWiped, ok := s'.ok, cache := s'.cache)
    && (if s'.cacheWiped then s'.cache == FORMATTED && s'.ok == s.ok else s'.cache == s.cache && !s'.ok)
  }

  /** No argument asked for anything: an extended command runs, or the user is asked. */
  predicate UserInitiated(s: State, s': State) {
    s.pc == USER && s' == s.(pc := CHECK, ok := s'.ok)
  }

  /** After the work: finish, or first install firmware. */
  function Leave(s: State): nat {
    if s.pending.Some? then FW_MESSAGE else FINISH_INTENT
  }

  /** A failure, or a visible log, leads to the prompt, which first calls finish_recovery(NULL). */
  predicate Check(s: State, s': State) {
    && s.pc == CHECK
    && (|| s' == s.(pc := FINISH_CLEAR, prompting := true)
        || (s.ok && s' == s.(pc := Leave(s))))
  }

  predicate WorkStep(s: State, s': State) {
    || PackageErase(s, s') || Install(s, s') || EraseData(s, s') || EraseCache(s, s')
    || UserInitiated(s, s') || Check(s, s')
  }

  // ---------- finish_recovery

  predicate FinishIntent(s: State, s': State) {
    && s.pc == FINISH_INTENT
    && var intent := OptionsOf(s.args).sendIntent;
       s' == s.(pc := FINISH_CLEAR,
                cache := if intent.Some? && s.cache.Files? then s.cache.(intent := intent) else s.cache)
  }

  predicate FinishClear(s: State, s': State) {
    s.pc == FINISH_CLEAR && s' == s.(pc := FINISH_UNLINK, bcb := ZEROED)
  }

  predicate FinishUnlink(s: State, s': State) {
    && s.pc == FINISH_UNLINK
    && s' == s.(pc := if s.prompting then MENU else REBOOT,
                cache := if s.cache.Files? then s.cache.(command := None) else s.cache)
  }

  predicate FinalReboot(s: State, s': State) {
    s.pc == REBOOT && s' == PowerOff(s)
  }

  predicate FinishStep(s: State, s': State) {
    FinishIntent(s, s') || FinishClear(s, s') || FinishUnlink(s, s') || FinalReboot(s, s')
  }

  // ---------- prompt_and_wait

  /** Reboot, wipe the cache, or install from the SD card, which the menu of ZIP files can repeat. */
  predicate Menu(s: State, s': State) {
    && s.pc == MENU
    && (|| s' == s.(pc := Leave(s), prompting := false)
        || (s' == s.(pc := FINISH_CLEAR, cache := FORMATTED))
        || s' == s.(pc := FINISH_CLEAR)
        || s' == s.(pc := SD_MESSAGE))
  }

  predicate SdMessage(s: State, s': State) {
    && s.pc == SD_MESSAGE
    && s' == s.(pc := SD_INSTALL, bcb := Bcb(BootRecovery, Encode([])))
  }

  predicate SdInstall(s: State, s': State) {
    && s.pc == SD_INSTALL
    && Remembers(s, s')
    && (s'.cache == s.cache || (s.cache.Files? && s'.cache == FORMATTED))
    && s' == s.(pc := s'.pc, prompting := s'.prompting, pending := s'.pending, delivered := s'.delivered,
                cache := s'.cache)
    && (|| (s'.pc in {FINISH_CLEAR, SD_MESSAGE} && s'.prompting)
        || (s'.pc == Leave(s') && !s'.prompting))
  }

  predicate PromptStep(s: State, s': State) {
    Menu(s, s') || SdMessage(s, s') || SdInstall(s, s')
  }

  // ---------- maybe_install_firmware_update

  predicate FirmwareMessageStep(s: State, s': State) {
    && s.pc == FW_MESSAGE
    && s' == s.(pc := FW_BEGIN, bcb := Bcb(BootRecovery, Encode(FirmwareArgs(OptionsOf(s.args).sendIntent))))
  }

  /** A failed write: the cache is formatted, if that works, and main goes on to finish. */
  predicate FirmwareFails(s: State, s': State) {
    && s.pc in {FW_BEGIN, FW_WRITE}
    && (s'.cache == FORMATTED || s'.cache == s.cache)
    && s' == s.(pc := FINISH_INTENT, cache := s'.cache)
  }

  /** The zero header is written first ... */
  predicate FirmwareBegin(s: State, s': State) {
    s.pc == FW_BEGIN && s' == s.(pc := FW_WRITE, cache := Partial)
  }

  /** ... and the valid header last. */
  predicate FirmwareWrite(s: State, s': State) {
    s.pc == FW_WRITE && s.pending.Some? && s' == s.(pc := FW_COMMAND, cache := Complete(s.pending.value))
  }

  predicate FirmwareCommand(s: State, s': State) {
    && s.pc == FW_COMMAND && s.pending.Some?
    && s' == s.(pc := FW_REBOOT, bcb := s.bcb.(command := Update(s.pending.value.kind)))
  }

  predicate FirmwareReboot(s: State, s': State) {
    s.pc == FW_REBOOT && s' == PowerOff(s)
  }

  predicate FirmwareStep(s: State, s': State) {
    || FirmwareMessageStep(s, s') || FirmwareFails(s, s') || FirmwareBegin(s, s')
    || FirmwareWrite(s, s') || FirmwareCommand(s, s') || FirmwareReboot(s, s')
  }

  // ---------- runs

  predicate Next(s: State, s': State) {
    || Crash(s, s') || BootStep(s, s') || ArgsStep(s, s') || WorkStep(s, s')
    || FinishStep(s, s') || PromptStep(s, s') || FirmwareStep(s, s')
  }

  /** A device in the main system, with a zeroed control block and a mounted cache. */
  predicate Init(s: State) {
    && s.pc == MAIN && s.bcb == ZEROED && s.cache == FORMATTED
    && s.pending == None && s.ok && !s.prompting
    && !s.dataErased && !s.cacheErased && !s.dataWiped && !s.cacheWiped
    && s.args == [] && s.delivered == [] && s.flashed == []
  }

  predicate StepAt(run: seq<State>, i: nat)
    requires i + 1 < |run|
  {
    Next(run[i], run[i + 1])
  }

  predicate Steps(run: seq<State>) {
    |run| > 0 && forall i: nat :: i + 1 < |run| ==> StepAt(run, i)
  }

  predicate Run(run: seq<State>) {
    Steps(run) && Init(run[0])
  }
}
