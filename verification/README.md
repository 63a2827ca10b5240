# Steam recovery, modelled and proved in Dafny

This project models the parts of the Steam recovery image whose correctness is not visible
from any single function: the configuration store and its lock, the crash-restart protocol
between recovery, bootloader and main system, the firmware image on raw flash, the data
structures of the user interface, and the package verifier.

`dafny verify dfyconfig.toml` checks all of it with Dafny 4.11.

| file | what it models |
|---|---|
| CString | C strings in buffers, `strchr`, `fgets` |
| ConfigLock | the readers-writers lock of config.c, for any number of threads |
| ConfigText | the configuration file as text: printing, loading, looking up; `set_conf` as a function |
| ConfigStore | the linked list in memory, edited while it is walked |
| ConfigShared | calls interleaved element by element under the lock: linearizability |
| BootMessage, CommandFile, RecoveryArgs | the recovery field of the control block, the command file, `get_args`, options, the firmware message |
| MiscPartition | the read-modify-write of the misc pages |
| RecoveryProtocol | every step of recovery, bootloader and main system, and a crash between any two |
| HandoffInvariant, RecoveryEntry, ResetSteps, RecoveryTrack, IntentCarried | what every step of that protocol keeps |
| RecoveryFacts, FirmwareHandoff, FactoryReset, RecoveryEnds, IntentDelivery | what holds over all its runs |
| RecoveryOutcomes | the documented scenarios as runs, and every outcome of a line as a step |
| UpdateImage | `write_update_for_bootloader` on flash with bad blocks |
| FlashHandoff | the flash of UpdateImage as the cache of RecoveryProtocol |
| Bytes, Wrappers | the byte type, the optional value |
| TextLog, Menu, KeyQueue, Progress | the on-screen log, menus, key queue and progress bar |
| PackageVerifier | `verify_file` |

## Results in short

- **Lock.** For any number of threads and every interleaving: a writer in its section
  excludes everyone, neither the lock nor the loops inside it can hang, no unlock hits a free
  mutex, and from the
  moment a first writer locks `gRead` the readers inside can only become fewer. Built on an
  invariant that equates each counter and mutex with a count of thread positions.
- **Store.** The list methods compute the functions of ConfigText; every concurrent call is
  linearizable. `init_conf` rebuilds a printed store if and only if its entries fit a line,
  saving and reloading any file changes nothing, and the two readers agree on every file,
  including files with NUL bytes.
- **Restart.** A restart rewrites the same message, even a truncated one, exactly if it has no
  blank line and at most 100 lines. All 1024 bytes of the field are the same if and only if,
  besides, the first boot took no command line, or byte 1023 was NUL, or the message fills the
  field: recovery.c:200 forces a NUL there only when the message is parsed. A factory reset is
  kept until both erases have returned in the same boot if and only if no package is given and
  the wipe is not cut off; it is forgotten exactly if one of them fails. Firmware is never
  announced without a complete image, whatever fails; the order to wipe a raw cache is lost
  exactly through a failing erase or clean-up. From wherever recovery is entered with something
  to do, whatever has failed before, successful work ends in a normal boot within
  24 + 25 × crashes steps. An intent arrives in every such run if and only if it is stored whole
  and, with a package, has at most 987 characters and a mounted cache.
- **Flash.** In every state a crash can find, the first good block is not a header or
  describes sections that are completely there; success is exactly a matter of enough good
  blocks. Each of these states is a state of the restart protocol.
- **UI.** The ring shows the last rows of the wrapped text; the menu is a circle; every key is
  accounted for; the bar never moves back and looks like one that takes every update.

Where the code and its documentation differ, the code is modelled:

- `write_conf` on an empty list adds nothing (config.c:65), so `set_conf` then `get_conf`
  works exactly on non-empty stores (`SetThenGet`).
- recovery.c:72 says that `--wipe_data` also erases the cache; with `--update_package` it does
  not (recovery.c:540-543, `ErasesFirstExactly`).
- ui.h:63-64 says that the selection is capped to the list; it wraps around (ui.c:1276-1277).
- A comment of 194 characters or more fills the buffer of one `fgets`, and the rest of its line
  is read as a line (config.c:116, `LongCommentLoads`).
- A removal makes `write_conf` return 0, like a failure (config.c:70-73).
- recovery.c:80-86 promises that a reboot restarts the erase once the message is stored; if
  the erase itself fails, the prompt clears the message (`ForgottenExactly`, `ForgottenRun`).
- recovery.c:549-578 and firmware.c:79-82 promise that the cache is wiped after a firmware
  update; if the wipe itself fails, the order for it is cleared all the same
  (`HandoffExactly`).
- `maybe_install_firmware_update` bounds its first copy by the size of another field
  (firmware.c:90); the text fits (`FirmwareMessage`).

Parameters stand for what lies outside: whether files and partitions can be opened or read,
clocks, the size of the screen, the result of an install, SHA-1 and RSA_verify. `BTN_WHEEL`
is the code of `linux/input.h`, RSANUMBYTES is taken as 256.

## Model

| member | source | states |
|---|---|---|
| ConfigLock.StepInv | config.c:20-106 | every step of any thread keeps the invariant: both counters and all five mutexes equal exact counts of thread positions |
| ConfigLock.RunInv | config.c:20-106 | that invariant holds in every state of every interleaving of any number of threads |
| ConfigLock.MutualExclusion | config.c:20-106 | in every state of every run, a thread editing the list excludes every other reader and writer |
| ConfigLock.UnlocksAreOfHeldMutexes | config.c:27-29 | no unlock ever hits a free mutex, also where the unlocking thread is not the one that locked |
| ConfigLock.DeadlockFree | config.c:22-60 | whenever a thread is inside the protocol, some thread inside it can take a step |
| ConfigLock.WriterPreference | config.c:55-60 | from the step in which a first writer locks gRead, while numwriters stays positive, the set of readers past line 23 only shrinks |
| ConfigLock.OneReaderContends | config.c:22-23 | because of gMutex3 at most one reader waits for gRead |
| ConfigText.LoadPrintable | config.c:142-172 | whatever the file holds, loading yields unique keys and entries that fit a line |
| ConfigText.PrintedLine | config.c:93 | the printed line of a good entry is taken by one fgets, not split, and parses to that entry |
| ConfigText.ParsePrint | config.c:87-99 | loading a printed store gives the store back if and only if keys are unique and entries are within bounds and free of separators |
| ConfigText.ParsePrintParse | config.c:142-172 | for every file, saving what was loaded and loading it again changes nothing |
| ConfigText.ScanIsParse | config.c:111-135 | for every file and key the streaming lookup finds what loading and searching would find |
| ConfigText.ParseConcat | init.c:712 | loading a file that ends in a newline followed by another gives the first store plus exactly the second file's entries with new keys |
| ConfigText.ParseLineExactly | config.c:117-123 | for every buffer and entry: both readers take the buffer for that entry if and only if it is key, =, value, the first = and a last newline apart, no comment, and both parts shorter than 96 |
| ConfigText.IdleLineChangesNothing | config.c:118 | a comment, or a line without =, that fits the buffer changes nothing in either reader wherever it stands between lines |
| ConfigText.IdleFile | config.c:118 | a file of such lines loads as the empty store and knows no key |
| ConfigText.LongCommentLoads | config.c:116-118 | a comment that fills the buffer ends there: what follows on the same line is read as a line of its own |
| ConfigText.PrintConcat | config.c:91-95 | entries are printed independently of one another |
| ConfigText.SetThenGet | config.c:62-85 | setting a key makes it readable with that value if and only if the store was not empty |
| ConfigText.RemoveThenGet | config.c:70-73 | removing a key from a store without duplicates makes it unreadable |
| ConfigText.WriteFrame | config.c:62-85 | setting or removing a key leaves every other key's value alone |
| ConfigText.WritePrintable | config.c:62-85 | uniqueness of keys is kept, and printability too for entries that fit |
| ConfigText.WriteKeys | config.c:62-85 | setting keeps the keys in order, a new one at the end; removing takes out just the one |
| ConfigText.FoundExactly | config.c:62-85 | the result is 1 if and only if a value was given and can be read now |
| ConfigText.SetSurvivesReload | config.c:87-99 | a set value is found again in the rewritten file, by both readers |
| ConfigText.WalkHit | config.c:65-75 | where the editing loop finds the key, also on an element it has just appended, its edit gives the store that set_conf specifies |
| ConfigStore.Store.Read | config.c:31-42 | the search loop returns the value of the first entry with the key |
| ConfigStore.Store.Edit | config.c:62-85 | the loop terminates although it may extend the list, and updates, appends or unlinks as specified, keeping the list well formed |
| ConfigStore.Store.Write | config.c:53-109 | the same for the whole call, with its result and the rewritten file |
| ConfigStore.Store.PrintAll | config.c:91-95 | the printing loop emits the text of the store |
| ConfigStore.Store.Init | config.c:142-172 | the list becomes what the file text specifies; the result counts the entries |
| ConfigStore.GetConfRoFrom | config.c:111-135 | the streaming loop returns what the loaded file would give |
| ConfigStore.GetConf | config.c:181-188 | the store has priority, the read-only file stands behind it |
| ConfigShared.StepInv | config.c:31-85 | every interleaved step of searching, editing and locking keeps each thread's partial result correct |
| ConfigShared.Linearizable | config.c:20-109 | in every interleaving, a finished read or write has the result of the sequential operation at one instant between its call and now |
| ConfigShared.StoreIsSequential | config.c:62-85 | whenever no writer is in its section the list is the outcome of the completed writes in order |
| ConfigShared.SomeoneSteps | config.c:20-109 | in every state of every run, whenever a thread is inside a call, some thread inside a call can step, in its loop or in the lock |
| ConfigShared.LoopCanStep | config.c:31-85 | a thread in its loop can step whatever the others do, also where it removes an element |
| ConfigShared.OwnStepAdvances | config.c:31-85 | every step of a thread in its loop ends the loop or goes on to the next element |
| ConfigShared.LoopEnds | config.c:31-85 | a loop ends within two more of the thread's own steps than the store has elements |
| ConfigShared.CallsAnything | config.c:20-56 | an idle thread can call either function with any arguments |
| BootMessage.LinesOfTokens | recovery.c:201-208 | writing out the tokens of a text without blank lines restores it, with its last newline |
| BootMessage.TokensJoin | recovery.c:201-208 | tokens never reach over a newline, and empty lines give none |
| BootMessage.FewerTokens | recovery.c:198-213 | cutting a message drops tokens, keeps the others whole, and at most shortens the last one kept |
| BootMessage.StableUnderRestart | recovery.c:198-243 | parsing what get_args wrote and writing it again gives the same message, also when it was truncated |
| BootMessage.ArgumentsSurvive | recovery.c:235-243 | the arguments come back exactly when all but the last newline fits in 1023 bytes |
| BootMessage.RewriteHolds | recovery.c:237-243 | the strlcpy and strlcat loop leaves the truncated encoding in the buffer and the bytes behind it untouched |
| BootMessage.StableExactly | recovery.c:198-243 | for arguments of any kind and number, empty or with newlines: what is parsed encodes to the same message if and only if it has no blank line and at most 100 lines |
| RecoveryArgs.ReadMessage | recovery.c:200-208 | strtok in place returns the arguments and changes no byte from the terminator on |
| RecoveryArgs.WriteMessage | recovery.c:237-243 | the writing loop computes the buffer specified |
| CommandFile.ReadCommand | recovery.c:222-228 | the reading loop yields the argument of each fgets, at most 99, with overlong lines cut in pieces and None where a blank line kills the process |
| CommandFile.CommandReadsBack | recovery.c:222-228 | a file with one argument in each line is read back if and only if no argument has a carriage return and each fits its line; the last one that is read may fill the buffer |
| CommandFile.LineTokenExactly | recovery.c:227 | the argument of a line is what lies between its leading and the next carriage return or newline; None exactly if there is nothing else |
| CommandFile.FirstLines | recovery.c:225-228 | of a longer file the first arguments are taken, as many as there is room for |
| RecoveryArgs.GetArgs | recovery.c:180-248 | with a command line the result is that; else all arguments of the message, if it has any; else all of the command file, which is then reported as used; the field holds their encoding and, behind the old and the new string, its old bytes, with the last one NUL unless the command line was used; exactly a blank line in a file that is needed kills the process before anything is written |
| RecoveryArgs.CommandArrives | recovery.c:215-233 | what the main system writes, an argument in each line, is what get_args starts with |
| RecoveryArgs.OptionsExactly | recovery.c:506-517 | each option in the words of the command line: the last value given, and the wipes, data including the cache |
| RecoveryArgs.BytesStableExactly | recovery.c:198-245 | after any first get_args, one without command line leaves the same 1024 bytes if and only if the message is stable as a string, and the first ran without command line too, or byte 1023 was NUL, or the message fills the field |
| RecoveryArgs.ErasedFieldChanges | recovery.c:200 | an input on which they differ: a field of erased bytes and the command line --wipe_data; the restart changes byte 1023 from 255 to NUL |
| RecoveryArgs.ParseOptions | recovery.c:506-517 | the option loop yields the last value of each valued option and the wipe flags, data including cache |
| RecoveryArgs.FirmwareMessage | firmware.c:87-95 | the message built for the next boot encodes the cache wipe and the intent |
| MiscPartition.Misc.Get | bootloader.c:44-73 | the message is the command page and what follows it, through the end of the page buffer on pages below 544 bytes, if three pages can be read |
| MiscPartition.Misc.Set | bootloader.c:75-121 | the part of the message that fits the buffer goes from the command page on, the rest of the three pages is kept, the rest of the erase block is zero; nothing changes on failure |
| MiscPartition.ReadsBackExactly | bootloader.c:71 | a message that was set reads back exactly when two pages have room for it, or the memory behind the buffer happens to agree |
| MiscPartition.NeighbourKept | bootloader.c:96 | the page behind the command page is kept exactly when the message fits its page or agrees with it |
| MiscPartition.PutExactly | bootloader.c:96 | byte by byte: the message from the command page on, all else as before |
| HandoffInvariant.FirmwareMessageArgs | firmware.c:87-95 | the next boot reads back the wipe and the intent cut to 987 characters |
| HandoffInvariant.NextInv | firmware.c:47-131 | every step of recovery, bootloader and main system, and every crash, keeps the handoff invariant |
| RecoveryFacts.CommandIsRemoved | recovery.c:304-309 | in every run, whenever recovery is about to reboot or asks the user, a mounted cache has no command file |
| RecoveryFacts.WorkIsRestarted | recovery.c:80-103 | in every run, until the work is done its arguments are stored, and during an install from the prompt a message that starts recovery |
| RecoveryFacts.ErasedAsAsked | recovery.c:540-551 | in every run: only what the command line names is erased, data before a package is installed, and all of it when the work is done, the cache only without a package |
| RecoveryFacts.FailureAsks | recovery.c:575-578 | after a failure the prompt comes before firmware and intent |
| RecoveryOutcomes.FirmwareScenario | recovery.c:92-118 | the documented update with radio firmware is a run: it ends in the main system, the image installed, cache and control block clean |
| RecoveryOutcomes.FailedInstallScenario | recovery.c:100-103 | a failed install ends at the prompt with nothing stored |
| RecoveryOutcomes.CleanedUpScenario | firmware.c:103-111 | a failed firmware write that is cleaned up ends in the main system with a clean cache |
| RecoveryOutcomes.FlashOutcomes | firmware.c:62-77 | the bootloader installs a complete image or fails to, and boots recovery next in either case |
| RecoveryOutcomes.InstallOutcomes | recovery.c:542-543 | an install can succeed or fail, bring firmware or not, and format the cache or not |
| RecoveryOutcomes.MenuOutcomes | recovery.c:369-455 | the prompt can reboot, first writing firmware that waits, wipe the cache, go on, or install |
| RecoveryOutcomes.SdOutcomes | extendedcommands.c:68-89 | an install from the prompt can lead back to it, to another install, or on to the reboot, with firmware or not |
| FirmwareHandoff.UpdateIsComplete | firmware.c:113-126 | in every run, whatever fails: an update command in the control block means a complete image of that kind from some install |
| FirmwareHandoff.HandoffIsSafe | firmware.c:79-126 | in every run, from any point where the cache is a filesystem until a failed erase or clean-up leaves it raw: a raw cache implies an order to run recovery or an update and a stored cache wipe; the command file is not opened on a raw cache and the main system does not run on it |
| FirmwareHandoff.HandoffExactly | firmware.c:79-126 | in every state of every run: that holds in all continuations without a further such failure if and only if the cache is a filesystem, or its wipe is stored and the line executed next comes before the wipe |
| FirmwareHandoff.LostExactly | firmware.c:103-111 | a step from such a state loses it if and only if it is a failed cache erase or failed clean-up that leaves the cache raw |
| FirmwareHandoff.FailedEraseStrandsCache | recovery.c:549-578 | a whole run that breaks it: firmware is being written, power fails, the wipe of the next boot fails, and the prompt is reached with a raw cache and a cleared control block |
| FirmwareHandoff.FailedCleanUpStrandsCache | firmware.c:103-111 | another one: the firmware write and the formatting after it fail, and the main system runs on a raw cache |
| FirmwareHandoff.OnlyDeliveredImagesAreFlashed | firmware.c:30-40 | even with failures the bootloader installs only images that an install handed over |
| IntentCarried.IntentSurvivesFirmware | firmware.c:91-95 | the intent passes the firmware message unchanged exactly up to 987 characters |
| FactoryReset.RunAtStoreArgs | recovery.c:180-248 | every run reaches the storing of arguments with well formed arguments and nothing erased or pending in this boot |
| ResetSteps.ResettingStep | recovery.c:80-90 | while a reset is stored, every step and crash keeps it, except the clearing after both erases returned in this boot |
| FactoryReset.ResetIsRestartable | recovery.c:80-90 | over any continuation the reset is still stored, or was kept until it was cleared after both erases |
| FactoryReset.UnerasedRun | recovery.c:540-551 | for all other arguments there is a run that clears the stored message with an erase missing |
| FactoryReset.ErasesFirstExactly | recovery.c:540-551 | from every storing of arguments: cleared only after both erases have returned in all runs if and only if the arguments ask for the wipe and no package, and the wipe is not cut off when they are stored |
| FactoryReset.ForgottenExactly | recovery.c:545-551 | a stored reset is cleared with both erases having succeeded if and only if none has failed in the boot that clears it |
| FactoryReset.ForgottenRun | recovery.c:545-551 | for every stored reset there is a run in which the erase of DATA: fails and the prompt clears the message |
| RecoveryEnds.StartsOnTrack | recovery.c:180-248 | wherever a run reaches get_args with something to do, whatever has failed before, also after a crash, from the prompt or after a firmware update, the results on ending apply |
| RecoveryTrack.StepOnTrack | recovery.c:500-591 | successful steps and crashes keep recovery on a path with something left to do |
| RecoveryTrack.StepRanks | recovery.c:500-591 | every successful step brings the normal boot nearer |
| RecoveryEnds.BoundedByCrashes | recovery.c:78-118 | a run of successful steps has at most 24 + 25 × crashes steps |
| RecoveryEnds.EndsInNormalBoot | recovery.c:78-118 | it can always go on until the main system runs, where the control block is zeroed |
| RecoveryEnds.ReachMain | recovery.c:500-591 | from every state on the way a normal boot is reached by successful steps |
| RecoveryEnds.RecoveryCompletes | recovery.c:78-118 | from such an entry of any run, successful steps and crashes are a run of the protocol with at most 24 + 25 × crashes steps, and can go on exactly until the main system runs, which finds the control block zeroed |
| RecoveryEnds.CommandFoundExactly | recovery.c:300-309 | on such a run the main system finds a command file again if and only if power failed with it there before get_args stored the arguments, or between lines 301 and 308 |
| IntentCarried.PackageLeavesRoom | firmware.c:91-95 | an intent stored beside a package always fits the firmware message |
| IntentDelivery.IntentIsDelivered | recovery.c:265-302 | an intent that is asked for before and after being stored and, if a package is given, has at most 987 characters and a cache that is not raw, is in the intent file whenever the main system next runs, through crashes and the firmware detour |
| IntentDelivery.IntentExactly | recovery.c:265-302 | and only then: otherwise some run of successful steps and crashes ends with another intent, a cut one or none |
| IntentDelivery.IntentInRuns | recovery.c:180-302 | the same equivalence at every get_args of every run, whatever has failed before |
| IntentDelivery.FittingIntent | recovery.c:235-243 | arguments that fit the control block keep the intent whole |
| UpdateImage.HeaderRoundTrip | bootloader.c:138-156 | the header bytes decode to the header |
| UpdateImage.Mtd.Section | bootloader.c:201-236 | a section starts on its own block, reads back with bad blocks skipped, and shows no header on the way |
| UpdateImage.Mtd.Sections | bootloader.c:201-245 | the three sections lie in separate block ranges that read back, exactly if there are enough good blocks |
| UpdateImage.Mtd.Commit | bootloader.c:247-268 | the header goes over the zeros only, in one erase and one write |
| UpdateImage.LittleEndian | bootloader.c:138-156 | words are stored least significant byte first |
| UpdateImage.BlocksForExactly | bootloader.c:201-236 | a section occupies just enough blocks for its bytes |
| UpdateImage.Mtd.WriteUpdate | bootloader.c:158-271 | every state on the way has no header, except the last one of a success, whose sections are complete; success exactly with enough good blocks, and then the words of the header are the version, its size, the lengths, and width, height and depth of the bitmaps, each at its offset |
| FlashHandoff.CommittedReads | bootloader.c:138-245 | behind a committed header, reading at the offsets and lengths in its bytes gives the image and both bitmaps that were passed in |
| FlashHandoff.WriteFirmware | firmware.c:103-111 | every state of the flash while firmware is written is a state of the protocol, reached by its steps; success ends with the complete image, failure never shows a header |
| FlashHandoff.CrashWhileWriting | firmware.c:79-95 | if power fails in any of these states, the next boot is recovery with a stored cache wipe |
| TextLog.PiecesJoin | ui.c:1127 | cutting a line at the screen width loses nothing and fills every piece but the last |
| TextLog.SplitExactly | ui.c:1127 | the lines of a text are what lies between its newlines |
| TextLog.WrappedType | ui.c:1126-1134 | wrapping the whole text equals wrapping it one character at a time |
| TextLog.ScreenType | ui.c:1126-1134 | the last rows of the wrapped text scroll as one more character is printed |
| TextLog.TextContainer.constructor | ui.c:1160-1170 | a cleared container shows blank rows |
| TextLog.TextContainer.NewLine | ui.c:1128-1131 | advancing row and top keeps the ring in step with the screen, also with a single row |
| TextLog.TextContainer.Print | ui.c:1115-1139 | the container holds the last rows of everything printed, all indices in bounds |
| TextLog.TextContainer.Drawn | ui.c:419-427 | the row drawn at k is row k of the last rows of the wrapped text |
| TextLog.SplitMessage | ui.c:1117-1118 | printing in two parts is the same unless the 512 character buffer cuts them differently |
| TextLog.KeptExactly | ui.c:1117-1118 | of a message the first 512 characters are printed |
| Menu.Selection.Select | ui.c:1260-1308 | walking the list anew in each round, the loop terminates on the nearest selectable element in the direction of travel |
| Menu.Selection.Press | ui.c:1483-1490 | a key press moves one choice along the circle and scrolls to it |
| Menu.Selection.Start | ui.c:1186-1258 | the list holds one header from all header lines, then the items in order, and the count covers it; without both it holds a blank element that the count does not cover |
| Menu.Selection.Add | ui.c:1353-1374 | the walk ends at the last element of the linked list, the new one is linked behind it, all others stay, and the count covers one more |
| Menu.EntryDivides | ui.c:1223-1236 | an item is divided into text and help without loss, at the last character 1 |
| Menu.StartSelectable | ui.c:1217-1250 | exactly the items are selectable, they are numbered from 0, and the menu starts on the first |
| Menu.HeaderLines | ui.c:1199-1214 | the lines of the header are the first header line and the other ones that are not empty |
| Menu.SelectionVisible | ui.c:1297-1304 | the selected row is wholly inside the window and the menu fills the window |
| Menu.SelectionCentred | ui.c:1302-1304 | among the positions at which the menu fills the window it is the one with the selected row nearest to the middle |
| Menu.PressUndone | ui.c:1483-1490 | HIGHLIGHT_UP undoes HIGHLIGHT_DOWN and the other way round |
| Menu.DownIsNext | ui.c:1274-1292 | DOWN leads to the next selectable element and from the last to the first |
| Menu.FullCircle | ui.c:1487-1490 | as many presses as there are selectable elements visit them all and return |
| KeyQueue.Queue.Enqueue | ui.c:941-948 | a pressed key is appended unless the queue is full or it repeats a wheel event |
| KeyQueue.Queue.WaitKey | ui.c:1523-1533 | the first key is delivered and the others move up |
| KeyQueue.Queue.Clear | ui.c:1541-1545 | the queue becomes empty |
| KeyQueue.QueueBounded | ui.c:941-946 | over all interleavings the queue stays within 256 keys and never holds two adjacent wheel events |
| KeyQueue.QueuedExactly | ui.c:941-946 | an input is queued, behind all others, if and only if it is a key going down, fewer than 256 wait, and it is not the wheel behind the wheel |
| KeyQueue.ArrivalOrder | ui.c:1523-1533 | keys are delivered in arrival order, each once, and only pressed ones |
| KeyQueue.NothingElseIsLost | ui.c:941-948 | every input is delivered, queued, refused on arrival or dropped by a clear |
| KeyQueue.KeysAreNotLost | ui.c:941-948 | a pressed key other than the wheel is lost only to a full queue or a clear |
| Progress.ShowStartsAtEnd | ui.c:1074-1085 | over every history: a new scope begins where all announced ones end, and the bar is filled exactly up to there |
| Progress.SkippingIsInvisible | ui.c:1087-1102 | over every history on a bar of fixed width: the pixel column drawn is that of a bar which takes every larger clamped fraction, so the updates skipped are invisible |
| Progress.PixelsAreColumns | ui.c:1097-1100 | the columns compared are the share of the scope, of the width of the bar, rounded down |
| Progress.OnlyNormalMoves | ui.c:1091-1099 | fractions and the timer move only a bar that shows progress, forward and within its scope |
| Progress.TimedProgress | ui.c:682-690 | while only the timer moves it, the progress is the share of the duration that had elapsed at the latest time seen, at most all |
| Progress.NeverOverfull | ui.c:1074-1113 | the filled part never exceeds the portions announced |
| Progress.Monotone | ui.c:682-690 | between resets the filled part never decreases, over any sequence of events |
| Progress.MinimumRate | ui.c:682-690 | after a timer step a timed scope is full or at least as far as its duration says |
| PackageVerifier.VerifyFile | verifier.c:34-184 | success exactly for a well formed footer, a last marker and a key that accepts the block for the hash of the signed bytes |
| PackageVerifier.OnlyMarkerFirst | verifier.c:114-135 | the scan from 4 finds any second marker, also at 1 to 3 |
| PackageVerifier.Absorb | verifier.c:148-166 | the chunk loop hashes exactly the bytes before the comment length field |
| PackageVerifier.SignedBytesDisjoint | verifier.c:96-100 | signed bytes and signature block are disjoint exactly for comments of at least 260 bytes |
| PackageVerifier.AcceptedPackage | verifier.c:27-32 | with a long enough comment: last marker in the file, block inside the comment and outside the signed bytes, accepted by some key |
| PackageVerifier.AssembledAccepted | verifier.c:41-179 | a package built from content, record, comment text, block and footer is accepted if and only if the start field leaves room for the block, the record begins with the marker and no other follows, and a key accepts the block for the hash of content and record |

## Left out

- RecoveryArgs.GetArgs: a blank line in the command file makes strtok return NULL; that strdup then kills the process is an assumption about the library.
- RecoveryArgs.ParseOptions: models the documented forms `--name` and `--name=value`; abbreviations, separate values and `--` of getopt_long are not modelled.
- FirmwareHandoff.HandoffIsSafe: a write of the control block is one step that succeeds, as in the whole run model; erases, formatting and firmware writes may fail.
- Formatting is one step of the run model: a crash inside it, which would leave neither the old nor a new filesystem, is not modelled.
- Extended commands (recovery.c:562-569) only succeed or fail in the run model; the installs and firmware images they can bring are not modelled.
- The unlink of the command file (recovery.c:308) succeeds in the run model whenever the cache is mounted.
- IntentDelivery.IntentExactly: the intent file counts as durable once it is written, although `sync` comes only after the control block is cleared (recovery.c:312); the log copy in finish_recovery and a failing write of the intent file are not modelled.
- UpdateImage.Mtd.WriteUpdate: rests on the stated contract of the flash driver (mtdutils is not part of this repository): blocks are written whole after an erase, the set of bad blocks does not change, positions are counted in blocks; a write torn inside a block is not modelled, nor are NULL bitmaps.
- MiscPartition.Misc.Set: that writing fills the rest of the erase block with zeros is part of the assumed driver contract; on pages below 544 bytes the copy overruns the page buffer, and its effect on other variables is not modelled.
- Menu.Selection.Select: indices more than one list length outside, on which the code walks off the list, are excluded, and so are menus with nothing to select, on which it does not return.
- Menu.Selection.Add: freeing the old list is left to garbage collection; `ui_end_menu`, which drops the list but keeps the count, is not modelled.
- ConfigStore.Store.Append: allocation succeeds, here and everywhere else.
- TextLog.TextContainer.Print: takes the formatted message; `ui_reset_text_col` and the skipped lock for inactive logs are not modelled.
- KeyQueue.Queue.WaitKey: the condition variable is the precondition that a key is there; in runs a wait on an empty queue has no effect.
- Progress.SkippingIsInvisible: fractions and portions are real numbers, float rounding is not modelled.
- PackageVerifier.VerifyFile: SHA-1 and RSA are parameters, reads succeed, and bytes in front of a buffer that is too short are a parameter; progress reports are not modelled.
- Boards that define BOARD_HAS_NO_MISC_PARTITION compile the control block out; the model is of the other configuration, with a misc partition and an MTD cache.
- The Steam install, upgrade and uninstall branches of main, /tmp/.ignorebootmessage and the encrypted filesystem scenario: further reboots without new protocol content.
- `init_conf` while other threads run: it is called at start-up and takes no write lock.
- roots.c, init.c, nandroid.c, commands.c, install.c, legacy.c, system.c and the device tables: calls into programs and libraries outside the repository.
- Drawing, touch input, console and secret screens, steamext.c menus, `get_capability`: they compute pixels and menu texts from the state modelled here and keep no state that another function relies on.
