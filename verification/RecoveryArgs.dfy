/** `get_args` and the options of `main` (recovery.c). */
module RecoveryArgs {
  import opened Wrappers
  import opened CString
  import opened BootMessage
  import opened CommandFile

  /*
   And the message that `maybe_install_firmware_update` leaves for the next boot (firmware.c).
   */

  // ---------- where the arguments come from

  /**
   The command line, else the boot message, else the command file (its lines); and whether
   the command file was used.
   */
  function ChooseArgs(argv: seq<string>, text: string, command: Option<seq<string>>): (seq<string>, bool) {
    var m := ParseMessage(text);
    if argv != [] then (argv, false)
    else if m.Some? && m.value != [] then (m.value, false)
    else if command.Some? then (command.value[..Min(|command.value|, MAX_ARGS - 1)], true)
    else ([], false)
  }

  /** `strtok` skips delimiters ... */
  method SkipNewlines(buf: array<char>, pos: nat, end: nat) returns (i: nat)
    requires pos <= end < buf.Length && buf[end] == NUL
    ensures pos <= i <= end && buf[i] != '\n'
    ensures Tokens(buf[i..end]) == Tokens(buf[pos..end])
  {
    i := pos;
    while buf[i] == '\n'
      invariant pos <= i <= end
      invariant Tokens(buf[i..end]) == Tokens(buf[pos..end])
      decreases end - i
    {
      assert buf[i..end][1..] == buf[i + 1..end];
      i := i + 1;
    }
  }

  /** ... and finds the end of the token. */
  method TokenEnd(buf: array<char>, i: nat, end: nat) returns (j: nat)
    requires i < end < buf.Length && buf[i] != '\n' && buf[end] == NUL && NUL !in buf[i..end]
    ensures i < j <= end && j - i == IndexOf(buf[i..end], '\n')
    ensures Tokens(buf[i..end]) == [buf[i..j]] + Tokens(buf[j..end])
  {
    j := i;
    while buf[j] != '\n' && buf[j] != NUL
      invariant i <= j <= end
      invariant forall k :: i <= k < j ==> buf[k] != '\n'
      decreases end - j
    {
      j := j + 1;
    }
    ghost var s := buf[i..end];
    assert j < end ==> s[j - i] == buf[j];
    IndexOfUnique(s, '\n', j - i);
    assert s[..j - i] == buf[i..j] && s[j - i..] == buf[j..end];
  }

  /** Part of a string holds no NUL either. */
  lemma NoNul(s: seq<char>, pos: nat, i: nat, end: nat)
    requires pos <= i <= end < |s| && NUL !in s[pos..end]
    ensures NUL !in s[i..end] && (i < end ==> s[i] != NUL)
  {
    assert forall k :: i <= k < end ==> s[k] == s[pos..end][k - pos];
  }

  /** The newline behind a token is skipped. */
  lemma SkipOne(s: seq<char>, j: nat, end: nat)
    requires j < end <= |s| && s[j] == '\n'
    ensures Tokens(s[j..end]) == Tokens(s[j + 1..end])
  {
    assert s[j..end][1..] == s[j + 1..end];
  }

  /** The token that starts at `i` is ended with a NUL. */
  method CutToken(buf: array<char>, i: nat, end: nat) returns (token: string, next: nat)
    requires i < end < buf.Length && buf[i] != '\n' && buf[end] == NUL && NUL !in buf[i..end]
    modifies buf
    ensures i < next <= end && buf[next..] == old(buf[next..])
    ensures Tokens(old(buf[i..end])) == [token] + Tokens(old(buf[next..end]))
  {
    ghost var was := buf[..];
    var j := TokenEnd(buf, i, end);
    token, next := buf[i..j], j;
    if buf[j] == '\n' {
      SkipOne(was, j, end);
      assert was[j..end] == buf[j..end] && was[j + 1..end] == buf[j + 1..end];
      next := j + 1;
      buf[j] := NUL;
    }
  }

  /** `strtok` from `pos` of a string that ends at `end`: the token, and where to go on. */
  method Strtok(buf: array<char>, pos: nat, end: nat) returns (token: Option<string>, next: nat)
    requires pos <= end < buf.Length && buf[end] == NUL && NUL !in buf[pos..end]
    modifies buf
    ensures pos <= next <= end && buf[next..] == old(buf[next..])
    ensures token.None? ==> Tokens(old(buf[pos..end])) == []
    ensures token.Some? ==> Tokens(old(buf[pos..end])) == [token.value] + Tokens(old(buf[next..end]))
  {
    ghost var was := buf[..];
    var i := SkipNewlines(buf, pos, end);
    assert was[pos..end] == buf[pos..end];
    NoNul(was, pos, i, end);
    if buf[i] == NUL {
      assert i == end;
      return None, end;
    }
    assert was[i..end] == buf[i..end];
    var t;
    t, next := CutToken(buf, i, end);
    token := Some(t);
  }

  /** The same, with what the next call needs. */
  method NextToken(buf: array<char>, pos: nat, end: nat) returns (token: Option<string>, next: nat)
    requires pos <= end < buf.Length && buf[end] == NUL && NUL !in buf[pos..end]
    modifies buf
    ensures pos <= next <= end && buf[end] == NUL && NUL !in buf[next..end] && buf[end..] == old(buf[end..])
    ensures token.None? ==> Tokens(old(buf[pos..end])) == []
    ensures token.Some? ==> Tokens(old(buf[pos..end])) == [token.value] + Tokens(buf[next..end])
  {
    ghost var was := buf[..];
    assert was[pos..end] == buf[pos..end];
    token, next := Strtok(buf, pos, end);
    NoNul(was, pos, next, end);
    Keeps(was, buf[..], next, end);
  }

  /** The boot message is cut up in place. */
  method ReadMessage(buf: array<char>) returns (m: Option<seq<string>>)
    requires buf.Length == RECOVERY_SIZE
    modifies buf
    ensures var text := CStr(old(buf[..RECOVERY_SIZE - 1]));
      && m == ParseMessage(text)
      && buf[|text|..] == old(buf[..])[RECOVERY_SIZE - 1 := NUL][|text|..]
  {
    ghost var was := buf[..];
    buf[RECOVERY_SIZE - 1] := NUL;
    var end := Terminator(buf);
    assert buf[..] == was[RECOVERY_SIZE - 1 := NUL];
    MessageText(was, end);
    m := CutMessage(buf, end);
  }

  /** The string in the terminated buffer is the string in all but its last byte. */
  lemma MessageText(was: seq<char>, end: nat)
    requires |was| == RECOVERY_SIZE && end < RECOVERY_SIZE
    requires var buf := was[RECOVERY_SIZE - 1 := NUL]; buf[end] == NUL && NUL !in buf[..end]
    ensures CStr(was[..RECOVERY_SIZE - 1]) == was[RECOVERY_SIZE - 1 := NUL][..end]
  {
    var buf := was[RECOVERY_SIZE - 1 := NUL];
    assert forall k :: 0 <= k < end ==> buf[..end][k] == was[k];
    IndexOfUnique(was[..RECOVERY_SIZE - 1], NUL, end);
  }

  method CutMessage(buf: array<char>, end: nat) returns (m: Option<seq<string>>)
    requires buf.Length == RECOVERY_SIZE && end < buf.Length && buf[end] == NUL && NUL !in buf[..end]
    modifies buf
    ensures m == ParseMessage(old(buf[..end]))
    ensures buf[end..] == old(buf[end..])
  {
    assert buf[0..end] == buf[..end];
    var token, pos := NextToken(buf, 0, end);
    if token.None? || token.value != "recovery" {
      return None;
    }
    ghost var rest := Tokens(buf[pos..end]);
    ghost var all := ["recovery"] + rest;
    assert all[1..Min(|all|, MAX_ARGS)] == rest[..Min(|rest|, MAX_ARGS - 1)];
    var args := CutArgs(buf, pos, end);
    m := Some(args);
  }

  /** What agrees from `next` on agrees from `end` on. */
  lemma Keeps(a: seq<char>, b: seq<char>, next: nat, end: nat)
    requires |a| == |b| && next <= end < |a| && a[next..] == b[next..]
    requires a[end] == NUL && NUL !in a[next..end]
    ensures a[end..] == b[end..] && b[end] == NUL && NUL !in b[next..end] && a[next..end] == b[next..end]
  {
    assert a[next..][end - next..] == a[end..] && b[next..][end - next..] == b[end..];
    assert a[next..][..end - next] == a[next..end] && b[next..][..end - next] == b[next..end];
    assert a[end..][0] == b[end..][0];
  }

  /** At most MAX_ARGS - 1 further tokens. */
  method CutArgs(buf: array<char>, start: nat, end: nat) returns (args: seq<string>)
    requires start <= end < buf.Length && buf[end] == NUL && NUL !in buf[start..end]
    modifies buf
    ensures var all := Tokens(old(buf[start..end])); args == all[..Min(|all|, MAX_ARGS - 1)]
    ensures buf[end..] == old(buf[end..])
  {
    args := [];
    var pos := start;
    ghost var all := Tokens(buf[start..end]);
    while |args| + 1 < MAX_ARGS
      invariant |args| + 1 <= MAX_ARGS && start <= pos <= end
      invariant buf[end] == NUL && NUL !in buf[pos..end] && buf[end..] == old(buf[end..])
      invariant all == args + Tokens(buf[pos..end])
      decreases MAX_ARGS - |args|
    {
      var t, next := NextToken(buf, pos, end);
      if t.None? {
        break;
      }
      args := args + [t.value];
      pos := next;
    }
  }

  /** strlen of the message. */
  method Terminator(buf: array<char>) returns (end: nat)
    requires buf.Length > 0 && buf[buf.Length - 1] == NUL
    ensures end < buf.Length && buf[end] == NUL && NUL !in buf[..end]
  {
    end := 0;
    while buf[end] != NUL
      invariant end < buf.Length && NUL !in buf[..end]
      decreases buf.Length - end
    {
      end := end + 1;
    }
  }

  /** strlcpy, in place. */
  method StrlcpyInto(buf: array<char>, s: string)
    requires buf.Length >= 1
    modifies buf
    ensures buf[..] == Strlcpy(old(buf[..]), s)
  {
    var n := Min(|s|, buf.Length - 1);
    CopyString(buf, 0, s[..n]);
  }

  /** The terminator, or the end of a buffer without one. */
  method Strnlen(buf: array<char>) returns (d: nat)
    ensures d == IndexOf(buf[..], NUL)
  {
    d := 0;
    while d < buf.Length && buf[d] != NUL
      invariant d <= buf.Length
      invariant forall k :: 0 <= k < d ==> buf[k] != NUL
    {
      d := d + 1;
    }
    IndexOfUnique(buf[..], NUL, d);
  }

  /** strlcat, in place. */
  method StrlcatInto(buf: array<char>, s: string)
    requires buf.Length >= 1
    modifies buf
    ensures buf[..] == Strlcat(old(buf[..]), s)
  {
    var d := Strnlen(buf);
    if d < buf.Length {
      var n := Min(|s|, buf.Length - 1 - d);
      CopyString(buf, d, s[..n]);
    }
  }

  /** The string `s` with its terminator to position `at`. */
  method CopyString(buf: array<char>, at: nat, s: string)
    requires at + |s| < buf.Length
    modifies buf
    ensures buf[..] == old(buf[..])[..at] + s + [NUL] + old(buf[..])[at + |s| + 1..]
  {
    ghost var was := buf[..];
    Copy(buf, at, s);
    ghost var copied := buf[..];
    buf[at + |s|] := NUL;
    assert buf[..] == copied[at + |s| := NUL];
    CopiedAt(was, at, s);
  }

  lemma CopiedAt(was: seq<char>, d: nat, t: string)
    requires d + |t| < |was|
    ensures (was[..d] + t + was[d + |t|..])[d + |t| := NUL] == was[..d] + t + [NUL] + was[d + |t| + 1..]
  {
  }

  /** Bytes of `s` to position `at`. */
  method Copy(buf: array<char>, at: nat, s: string)
    requires at + |s| <= buf.Length
    modifies buf
    ensures buf[..] == old(buf[..])[..at] + s + old(buf[..])[at + |s|..]
  {
    ghost var was := buf[..];
    for k := 0 to |s|
      invariant buf[..] == was[..at] + s[..k] + was[at + k..]
    {
      buf[at + k] := s[k];
    }
  }

  /** The arguments go back into the message. */
  method WriteMessage(buf: array<char>, args: seq<string>)
    requires buf.Length == RECOVERY_SIZE
    modifies buf
    ensures buf[..] == Rewrite(old(buf[..]), args)
  {
    StrlcpyInto(buf, "recovery\n");
    for i := 0 to |args|
      invariant buf[..] == Rewrite(old(buf[..]), args[..i])
    {
      StrlcatInto(buf, args[i]);
      StrlcatInto(buf, "\n");
      assert args[..i + 1][..i] == args[..i];
    }
    assert args[..|args|] == args;
  }

  /** What `get_args` makes of the whole field `was` when it ends up with `args`. */
  predicate Rewritten(was: seq<char>, now: seq<char>, argv: seq<string>, args: seq<string>) {
    && |was| == |now| == RECOVERY_SIZE
    && var e := Encode(args);
       && e + [NUL] <= now
       && if argv != [] then now == Hold(was, e)
          else
            var n := Behind(was, e);
            now[n..] == was[RECOVERY_SIZE - 1 := NUL][n..]
  }

  /** The first byte behind both the old string, which is cut up in place, and the new one. */
  function Behind(was: seq<char>, e: string): (n: nat)
    requires |was| == RECOVERY_SIZE && |e| < RECOVERY_SIZE
    ensures n <= RECOVERY_SIZE
  {
    var before := |CStr(was[..RECOVERY_SIZE - 1])|;
    if before <= |e| then |e| + 1 else before
  }

  /** The arguments in the command file, None without a file or if reading it kills the process. */
  function FileArgs(command: Option<string>): Option<seq<string>> {
    if command.Some? then CommandArgs(command.value, MAX_ARGS - 1) else None
  }

  /** Neither the command line nor the message holds arguments. */
  predicate NeedsFile(argv: seq<string>, text: string) {
    argv == [] && (ParseMessage(text).None? || ParseMessage(text).value == [])
  }

  /**
   `get_args`, on the recovery field of the message it read and will write, and on the text
   of the command file.  None: the process dies on a blank line, with nothing written.
   */
  method GetArgs(argv: seq<string>, recovery: array<char>, command: Option<string>)
    returns (args: Option<seq<string>>, useCommand: bool)
    requires recovery.Length == RECOVERY_SIZE && CArgs(argv)
    modifies recovery
    ensures argv != [] ==> args == Some(argv) && !useCommand
    ensures var m := ParseMessage(CStr(old(recovery[..RECOVERY_SIZE - 1])));
      argv == [] && m.Some? && m.value != [] ==> args == m && !useCommand
    ensures NeedsFile(argv, CStr(old(recovery[..RECOVERY_SIZE - 1]))) ==>
      if command.Some? then args == CommandArgs(command.value, 99) && (args.Some? ==> useCommand)
      else args == Some([]) && !useCommand
    ensures args.Some? ==>
      (args.value, useCommand) == ChooseArgs(argv, CStr(old(recovery[..RECOVERY_SIZE - 1])), FileArgs(command))
    ensures args.Some? ==>
      && CArgs(args.value) && CStr(recovery[..]) == Encode(args.value)
      && Rewritten(old(recovery[..]), recovery[..], argv, args.value)
  {
    ghost var was := recovery[..];
    var chosen := argv;
    useCommand := false;
    if chosen == [] {
      var m := ReadMessage(recovery);
      if m.Some? {
        ParsedGood(CStr(was[..RECOVERY_SIZE - 1]));
        chosen := m.value;
      }
    }
    if chosen == [] && command.Some? {
      var read := ReadCommand(command.value);
      if read.None? {
        return None, false;
      }
      CommandGood(command.value, MAX_ARGS - 1);
      assert read.value[..|read.value|] == read.value;
      chosen, useCommand := read.value, true;
    }
    ghost var cut := recovery[..];
    WriteMessage(recovery, chosen);
    StoredMessage(was, cut, argv, chosen);
    args := Some(chosen);
  }

  /** The choice, source by source: all arguments of the first one that has any. */
  lemma ChoosesBySource(argv: seq<string>, text: string, lines: Option<seq<string>>)
    requires lines.Some? ==> |lines.value| <= 99
    ensures argv != [] ==> ChooseArgs(argv, text, lines) == (argv, false)
    ensures !NeedsFile(argv, text) && argv == [] ==> ChooseArgs(argv, text, lines) == (ParseMessage(text).value, false)
    ensures NeedsFile(argv, text) ==>
      ChooseArgs(argv, text, lines) == if lines.Some? then (lines.value, true) else ([], false)
  {
    if lines.Some? {
      assert lines.value[..|lines.value|] == lines.value;
    }
  }

  /** What the main system writes, an argument in each line, is what `get_args` starts with. */
  lemma CommandArrives(args: seq<string>, text: string)
    requires GoodArgs(args) && FitLines(args, 99) && NeedsFile([], text)
    ensures ChooseArgs([], text, FileArgs(Some(Lines(args)))) == (args, true)
  {
    CommandReadsBack(args, 99);
    ChoosesBySource([], text, Some(args));
  }

  /** The field after reading, `cut`: untouched, or cut up before the terminator. */
  predicate CutUp(was: seq<char>, cut: seq<char>, argv: seq<string>) {
    && |was| == |cut| == RECOVERY_SIZE
    && if argv != [] then cut == was
       else
         var n := |CStr(was[..RECOVERY_SIZE - 1])|;
         cut[n..] == was[RECOVERY_SIZE - 1 := NUL][n..]
  }

  lemma StoredMessage(was: seq<char>, cut: seq<char>, argv: seq<string>, args: seq<string>)
    requires CutUp(was, cut, argv) && CArgs(args)
    ensures CStr(Rewrite(cut, args)) == Encode(args)
    ensures Rewritten(was, Rewrite(cut, args), argv, args)
  {
    RewriteHolds(cut, args);
    EncodeNulFree(args);
    HoldReads(cut, Encode(args));
    BytesBehind(was, cut, argv, args);
  }

  lemma BytesBehind(was: seq<char>, cut: seq<char>, argv: seq<string>, args: seq<string>)
    requires CutUp(was, cut, argv)
    ensures Rewritten(was, Hold(cut, Encode(args)), argv, args)
  {
    if argv == [] {
      var e := Encode(args);
      var m, n := |CStr(was[..RECOVERY_SIZE - 1])|, Behind(was, e);
      var z := was[RECOVERY_SIZE - 1 := NUL];
      assert cut[n..] == cut[m..][n - m..] && z[n..] == z[m..][n - m..];
      HoldTail(cut, e, n);
    }
  }

  // ---------- two boots in a row

  /** The message of a first boot, as the second reads it. */
  lemma ReadsBack(now: seq<char>, args: seq<string>)
    requires |now| == RECOVERY_SIZE && CArgs(args) && Encode(args) + [NUL] <= now
    ensures CStr(now[..RECOVERY_SIZE - 1]) == Encode(args)
  {
    var e := Encode(args);
    EncodeNulFree(args);
    assert forall k :: 0 <= k < |e| ==> now[k] == (e + [NUL])[k] == e[k];
    assert now[|e|] == (e + [NUL])[|e|];
    IndexOfUnique(now[..RECOVERY_SIZE - 1], NUL, |e|);
  }

  /** The message survives a restart as a string. */
  predicate TextStable(args: seq<string>) {
    NoBlank(Encode(args)) && |Tokens(Encode(args))| <= MAX_ARGS
  }

  /** The arguments that a restart works with, and whether they encode to the same message. */
  lemma RestartArgs(args: seq<string>, command: Option<seq<string>>)
    requires CArgs(args) && (command.Some? ==> GoodArgs(command.value))
    requires args == [] ==> command == None || command == Some([])
    ensures var again := ChooseArgs([], Encode(args), command).0;
      CArgs(again) && (Encode(again) == Encode(args) <==> TextStable(args))
  {
    var e := Encode(args);
    StableExactly(args);
    EncodeNulFree(args);
    ParsedGood(e);
    var kept := ParseMessage(e).value;
    var again := ChooseArgs([], e, command).0;
    if kept == [] {
      EncodeNone();
      if TextStable(args) {
        EncodeEmpty(args);
      } else {
        MessageTokens(again);
      }
    }
  }

  /**
   Byte for byte: after any first `get_args`, one without command line leaves the same 1024
   bytes if and only if the message is stable as a string, and the first one ran without
   command line too, or the last byte of the field was NUL, or the message fills the field.
   Only then does the forced terminator of the restart change nothing.
   */
  lemma BytesStableExactly(argv: seq<string>, b0: seq<char>, b1: seq<char>, b2: seq<char>,
                           command: Option<seq<string>>, command': Option<seq<string>>)
    requires |b0| == RECOVERY_SIZE && CArgs(argv) && (command.Some? ==> GoodArgs(command.value))
    requires command' == command || command' == None
    requires Rewritten(b0, b1, argv, ChooseArgs(argv, CStr(b0[..RECOVERY_SIZE - 1]), command).0)
    requires Rewritten(b1, b2, [], ChooseArgs([], CStr(b1[..RECOVERY_SIZE - 1]), command').0)
    ensures var args := ChooseArgs(argv, CStr(b0[..RECOVERY_SIZE - 1]), command).0;
      b2 == b1 <==>
        && TextStable(args)
        && (argv == [] || b0[RECOVERY_SIZE - 1] == NUL || |Encode(args)| == RECOVERY_SIZE - 1)
  {
    var text := CStr(b0[..RECOVERY_SIZE - 1]);
    var args := ChooseArgs(argv, text, command).0;
    if ParseMessage(text).Some? {
      ParsedGood(text);
    }
    ReadsBack(b1, args);
    RestartArgs(args, command');
    var again := ChooseArgs([], Encode(args), command').0;
    if TextStable(args) {
      SameBytes(b1, b2, again);
      LastByte(b0, b1, argv, args);
    } else {
      ReadsBack(b2, again);
    }
  }

  /** With the same string again, only the last byte can differ. */
  lemma SameBytes(b1: seq<char>, b2: seq<char>, args: seq<string>)
    requires CArgs(args) && Rewritten(b1, b2, [], args) && Encode(args) + [NUL] <= b1
    ensures b2 == b1 <==> |Encode(args)| == RECOVERY_SIZE - 1 || b1[RECOVERY_SIZE - 1] == NUL
  {
    var e := Encode(args);
    ReadsBack(b1, args);
    var n := |e| + 1;
    assert Behind(b1, e) == n;
    assert b2[..n] == e + [NUL] == b1[..n];
    assert b2 == b2[..n] + b2[n..] && b1 == b1[..n] + b1[n..];
    var z := b1[RECOVERY_SIZE - 1 := NUL];
    if n < RECOVERY_SIZE {
      assert z[n..][RECOVERY_SIZE - 1 - n] == NUL;
      assert b2[n..][RECOVERY_SIZE - 1 - n] == b2[RECOVERY_SIZE - 1];
      assert b1[RECOVERY_SIZE - 1] == NUL ==> z == b1;
    }
  }

  /** What the first boot leaves in the last byte, unless its message fills the field. */
  lemma LastByte(b0: seq<char>, b1: seq<char>, argv: seq<string>, args: seq<string>)
    requires CArgs(args) && Rewritten(b0, b1, argv, args)
    ensures |Encode(args)| == RECOVERY_SIZE - 1 || b1[RECOVERY_SIZE - 1] == NUL <==>
      argv == [] || b0[RECOVERY_SIZE - 1] == NUL || |Encode(args)| == RECOVERY_SIZE - 1
  {
    var e, last := Encode(args), RECOVERY_SIZE - 1;
    EncodeNulFree(args);
    if |e| < last {
      if argv == [] {
        var n := Behind(b0, e);
        assert n <= last;
        assert b1[n..][last - n] == b0[last := NUL][n..][last - n] == NUL;
      } else {
        assert b1[last] == b0[last];
      }
    }
  }

  /** A field of erased bytes and a command line: the restart changes the last byte. */
  lemma ErasedFieldChanges(b1: seq<char>, b2: seq<char>)
    requires Rewritten(Erased(), b1, [WIPE_DATA], [WIPE_DATA])
    requires Rewritten(b1, b2, [], ChooseArgs([], CStr(b1[..RECOVERY_SIZE - 1]), None).0)
    ensures b1[RECOVERY_SIZE - 1] == ERASED && b2[RECOVERY_SIZE - 1] == NUL
  {
    var args := [WIPE_DATA];
    assert GoodArgs(args);
    assert |Encode(args)| < RECOVERY_SIZE - 1 by {
      FullLines(args);
      assert Lines(args) == WIPE_DATA + "\n" + Lines([]) by { assert args[1..] == []; }
    }
    ReadsBack(b1, args);
    StableUnderRestart(args);
    RestartArgs(args, None);
    MessageTokens(args);
    var again := ChooseArgs([], Encode(args), None).0;
    LastByte(b1, b2, [], again);
  }

  const ERASED: char := 255 as char

  function Erased(): (b: seq<char>)
    ensures |b| == RECOVERY_SIZE && forall i :: 0 <= i < |b| ==> b[i] == ERASED
  {
    seq(RECOVERY_SIZE, i => ERASED)
  }

  // ---------- options

  const SEND_INTENT := "--send_intent="
  const UPDATE_PACKAGE := "--update_package="
  const WIPE_DATA := "--wipe_data"
  const WIPE_CACHE := "--wipe_cache"

  datatype Options = Options(
    sendIntent: Option<string>, updatePackage: Option<string>, wipeData: bool, wipeCache: bool)

  /** The value of the last argument with the prefix. */
  function LastValue(args: seq<string>, prefix: string): Option<string> {
    if args == [] then None
    else
      var last := args[|args| - 1];
      if prefix <= last then Some(last[|prefix|..]) else LastValue(args[..|args| - 1], prefix)
  }

  /** What the arguments ask for; wiping data includes wiping the cache. */
  function OptionsOf(args: seq<string>): Options {
    Options(LastValue(args, SEND_INTENT), LastValue(args, UPDATE_PACKAGE),
            WIPE_DATA in args, WIPE_DATA in args || WIPE_CACHE in args)
  }

  /** The `getopt_long` loop of `main`. */
  method ParseOptions(args: seq<string>) returns (o: Options)
    ensures o == OptionsOf(args)
  {
    var sendIntent: Option<string>, updatePackage: Option<string> := None, None;
    var wipeData, wipeCache := false, false;
    for i := 0 to |args|
      invariant Options(sendIntent, updatePackage, wipeData, wipeCache) == OptionsOf(args[..i])
    {
      assert args[..i + 1][..i] == args[..i] && args[..i + 1] == args[..i] + [args[i]];
      var a := args[i];
      Distinct(a);
      if SEND_INTENT <= a {
        sendIntent := Some(a[|SEND_INTENT|..]);
      } else if UPDATE_PACKAGE <= a {
        updatePackage := Some(a[|UPDATE_PACKAGE|..]);
      } else if a == WIPE_DATA {
        wipeData, wipeCache := true, true;
      } else if a == WIPE_CACHE {
        wipeCache := true;
      }
    }
    assert args[..|args|] == args;
    o := Options(sendIntent, updatePackage, wipeData, wipeCache);
  }

  /** Each option in the words of the command line; wiping data wipes the cache too. */
  lemma {:induction false} OptionsExactly(args: seq<string>)
    ensures var o := OptionsOf(args);
      && (o.wipeData <==> "--wipe_data" in args)
      && (o.wipeCache <==> "--wipe_data" in args || "--wipe_cache" in args)
    ensures LastGiven(args, "--send_intent=", OptionsOf(args).sendIntent)
    ensures LastGiven(args, "--update_package=", OptionsOf(args).updatePackage)
  {
    LastValueExactly(args, SEND_INTENT);
    LastValueExactly(args, UPDATE_PACKAGE);
  }

  /** The value behind the last argument with the prefix, if there is one. */
  ghost predicate LastGiven(args: seq<string>, prefix: string, value: Option<string>) {
    match value
    case None => forall i :: 0 <= i < |args| ==> !(prefix <= args[i])
    case Some(v) => exists i: nat :: LastAt(args, prefix, v, i)
  }

  predicate LastAt(args: seq<string>, prefix: string, v: string, i: nat) {
    i < |args| && args[i] == prefix + v && forall j :: i < j < |args| ==> !(prefix <= args[j])
  }

  lemma {:induction false} LastValueExactly(args: seq<string>, prefix: string)
    ensures LastGiven(args, prefix, LastValue(args, prefix))
  {
    if args != [] {
      var k := |args| - 1;
      var init, last := args[..k], args[k];
      if prefix <= last {
        assert last == prefix + last[|prefix|..];
        assert LastAt(args, prefix, last[|prefix|..], k);
      } else {
        LastValueExactly(init, prefix);
        assert forall j :: 0 <= j < k ==> args[j] == init[j];
        if LastValue(args, prefix).Some? {
          var v := LastValue(init, prefix).value;
          var i: nat :| LastAt(init, prefix, v, i);
          assert LastAt(args, prefix, v, i);
        }
      }
    }
  }

  /** No argument sets two options. */
  lemma Distinct(a: string)
    ensures SEND_INTENT <= a ==> !(UPDATE_PACKAGE <= a) && a != WIPE_DATA && a != WIPE_CACHE
    ensures UPDATE_PACKAGE <= a ==> a != WIPE_DATA && a != WIPE_CACHE
    ensures WIPE_DATA != WIPE_CACHE
  {
    assert SEND_INTENT <= a ==> a[2] == 's';
    assert UPDATE_PACKAGE <= a ==> a[2] == 'u';
    assert WIPE_DATA[2] == 'w' && WIPE_CACHE[2] == 'w';
    assert WIPE_DATA[7] == 'd' && WIPE_CACHE[7] == 'c';
  }

  // ---------- the message left for the boot after a firmware update

  function FirmwareArgs(sendIntent: Option<string>): seq<string> {
    [WIPE_CACHE] + if sendIntent.Some? then [SEND_INTENT + sendIntent.value] else []
  }

  lemma FirmwareOptions(sendIntent: Option<string>)
    ensures OptionsOf(FirmwareArgs(sendIntent)) == Options(sendIntent, None, false, true)
  {
    var args := FirmwareArgs(sendIntent);
    Distinct(WIPE_CACHE);
    assert args[0] == WIPE_CACHE;
    assert LastValue([WIPE_CACHE], SEND_INTENT) == None && LastValue([WIPE_CACHE], UPDATE_PACKAGE) == None by {
      assert [WIPE_CACHE][..0] == [];
    }
    if sendIntent.Some? {
      var a := SEND_INTENT + sendIntent.value;
      Distinct(a);
      assert a[|SEND_INTENT|..] == sendIntent.value;
      assert args[..1] == [WIPE_CACHE] && args[1] == a;
    } else {
      assert args == [WIPE_CACHE];
    }
  }

  const WIPE_MESSAGE := "recovery\n--wipe_cache\n"

  /** Appending the intent to the wipe message. */
  lemma AppendIntent(buf: seq<char>, intent: string)
    requires |buf| == RECOVERY_SIZE && NUL !in intent
    ensures Strlcat(Strlcat(Strlcat(Hold(buf, WIPE_MESSAGE), SEND_INTENT), intent), "\n")
         == Hold(buf, Encode(FirmwareArgs(Some(intent))))
    ensures NUL !in Encode(FirmwareArgs(Some(intent)))
  {
    var s1 := WIPE_MESSAGE + SEND_INTENT;
    assert Fit(s1, RECOVERY_SIZE) == s1;
    StrlcatHolds(buf, WIPE_MESSAGE, SEND_INTENT);
    StrlcatHolds(buf, s1, intent);
    StrlcatHolds(buf, Fit(s1 + intent, RECOVERY_SIZE), "\n");
    FitTwice(s1 + intent, "\n", RECOVERY_SIZE);
    EncodeFirmware(Some(intent));
    assert s1 + intent + "\n" == Full(FirmwareArgs(Some(intent)));
  }

  /**
   The message built in `maybe_install_firmware_update`.  The first copy is bounded by the
   size of the command field, 32, which the constant text fits.
   */
  method FirmwareMessage(recovery: array<char>, sendIntent: Option<string>)
    requires recovery.Length == RECOVERY_SIZE
    requires sendIntent.Some? ==> NUL !in sendIntent.value
    modifies recovery
    ensures CStr(recovery[..]) == Encode(FirmwareArgs(sendIntent))
  {
    ghost var was := recovery[..];
    StrlcpyInto(recovery, Fit(WIPE_MESSAGE, 32));
    assert recovery[..] == Hold(was, WIPE_MESSAGE);
    if sendIntent.Some? {
      StrlcatInto(recovery, SEND_INTENT);
      StrlcatInto(recovery, sendIntent.value);
      StrlcatInto(recovery, "\n");
      AppendIntent(was, sendIntent.value);
    } else {
      EncodeFirmware(None);
    }
    HoldReads(was, Encode(FirmwareArgs(sendIntent)));
  }

  lemma EncodeFirmware(sendIntent: Option<string>)
    ensures Full(FirmwareArgs(sendIntent)) == WIPE_MESSAGE
      + if sendIntent.Some? then SEND_INTENT + sendIntent.value + "\n" else ""
  {
    var ts := ["recovery"] + FirmwareArgs(sendIntent);
    assert Lines([WIPE_CACHE]) == WIPE_CACHE + "\n" by { assert [WIPE_CACHE][1..] == []; }
    if sendIntent.Some? {
      var a := SEND_INTENT + sendIntent.value;
      assert Lines([a]) == a + "\n" by { assert [a][1..] == []; }
      LinesConcat(["recovery", WIPE_CACHE], [a]);
      assert ts == ["recovery", WIPE_CACHE] + [a];
    } else {
      assert ts == ["recovery", WIPE_CACHE];
    }
    assert ["recovery", WIPE_CACHE][1..] == [WIPE_CACHE];
    assert Lines(["recovery", WIPE_CACHE]) == "recovery" + "\n" + (WIPE_CACHE + "\n");
    assert "recovery" + "\n" + (WIPE_CACHE + "\n") == "recovery\n--wipe_cache\n";
  }
}
