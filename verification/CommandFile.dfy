/** The command file, as `get_args` reads it argument by argument (recovery.c). */
module CommandFile {
  import opened Wrappers
  import opened CString
  import opened BootMessage

  /*
   Each `fgets` yields one argument, which `strtok` cuts out.
   */

  const MAX_ARG_LENGTH: nat := 4096

  predicate IsEol(c: char) { c == '\r' || c == '\n' }

  /** Without the delimiters that `strtok` skips. */
  function SkipEols(s: string): (r: string)
    ensures r != "" ==> !IsEol(r[0])
  {
    if s != "" && IsEol(s[0]) then SkipEols(s[1..]) else s
  }

  function UpToEol(s: string): (r: string)
    ensures r <= s && '\r' !in r && '\n' !in r
    ensures |r| < |s| ==> IsEol(s[|r|])
  {
    if s == "" || IsEol(s[0]) then "" else [s[0]] + UpToEol(s[1..])
  }

  /** `strtok(buf, "\r\n")`; None is NULL, which `strdup` does not survive. */
  function LineToken(buf: string): Option<string> {
    var s := SkipEols(CStr(buf));
    if s == "" then None else Some(UpToEol(s))
  }

  /** The arguments from the rest of the file, at most `room`; None: the process dies on a blank line. */
  function CommandArgs(text: string, room: nat): Option<seq<string>>
    decreases room
  {
    if room == 0 || text == "" then Some([])
    else
      var n := FgetsLength(text, MAX_ARG_LENGTH);
      Combined(LineToken(text[..n]), CommandArgs(text[n..], room - 1))
  }

  function Combined(token: Option<string>, rest: Option<seq<string>>): Option<seq<string>> {
    if token.None? || rest.None? then None else Some([token.value] + rest.value)
  }

  lemma {:induction false} SkipEolsIn(s: string)
    ensures forall c :: c in SkipEols(s) ==> c in s
  {
    if s != "" && IsEol(s[0]) {
      SkipEolsIn(s[1..]);
    }
  }

  lemma TokenGood(buf: string)
    requires LineToken(buf).Some?
    ensures GoodArg(LineToken(buf).value) && '\r' !in LineToken(buf).value
  {
    SkipEolsIn(CStr(buf));
  }

  /** Whatever the file holds, its arguments are good ones. */
  lemma {:induction false} CommandGood(text: string, room: nat)
    requires CommandArgs(text, room).Some?
    ensures GoodArgs(CommandArgs(text, room).value) && |CommandArgs(text, room).value| <= room
    decreases room
  {
    if room > 0 && text != "" {
      var n := FgetsLength(text, MAX_ARG_LENGTH);
      TokenGood(text[..n]);
      CommandGood(text[n..], room - 1);
    }
  }

  /** The reading loop. */
  method ReadCommand(text: string) returns (args: Option<seq<string>>)
    ensures args == CommandArgs(text, MAX_ARGS - 1)
  {
    var read: seq<string>, rest := [], text;
    PrependedNone(CommandArgs(text, MAX_ARGS - 1));
    while |read| + 1 < MAX_ARGS && rest != ""
      invariant |read| + 1 <= MAX_ARGS
      invariant CommandArgs(text, MAX_ARGS - 1) == Prepended(read, CommandArgs(rest, MAX_ARGS - 1 - |read|))
      decreases MAX_ARGS - |read|
    {
      var n := FgetsLength(rest, MAX_ARG_LENGTH);
      var token := LineToken(rest[..n]);
      if token.None? {
        return None;
      }
      PrependedMore(read, token, CommandArgs(rest[n..], MAX_ARGS - 2 - |read|));
      read := read + [token.value];
      rest := rest[n..];
    }
    assert CommandArgs(rest, MAX_ARGS - 1 - |read|) == Some([]) && read + [] == read;
    args := Some(read);
  }

  function Prepended(a: seq<string>, b: Option<seq<string>>): Option<seq<string>> {
    if b.None? then None else Some(a + b.value)
  }

  lemma PrependedNone(b: Option<seq<string>>)
    ensures Prepended([], b) == b
  {
    assert b.Some? ==> [] + b.value == b.value;
  }

  lemma PrependedMore(a: seq<string>, token: Option<string>, b: Option<seq<string>>)
    requires token.Some?
    ensures Prepended(a, Combined(token, b)) == Prepended(a + [token.value], b)
  {
    if b.Some? {
      assert a + ([token.value] + b.value) == a + [token.value] + b.value;
    }
  }

  // ---------- what comes back of a file with one argument in each line

  lemma {:induction false} UpToEolWhole(a: string, rest: string)
    requires '\r' !in a && '\n' !in a && (rest == "" || IsEol(rest[0]))
    ensures UpToEol(a + rest) == a
  {
    if a != "" {
      UpToEolWhole(a[1..], rest);
      assert (a + rest)[1..] == a[1..] + rest;
    } else {
      assert a + rest == rest;
    }
  }

  /** A line gives its argument back exactly if there is no carriage return in it. */
  lemma LineBack(a: string, eol: string)
    requires GoodArg(a) && eol in {"", "\n"}
    ensures LineToken(a + eol) == Some(a) <==> '\r' !in a
  {
    CStrWhole(a + eol);
    if '\r' !in a {
      assert (a + eol)[0] == a[0];
      UpToEolWhole(a, eol);
    } else if LineToken(a + eol) == Some(a) {
      TokenGood(a + eol);
    }
  }

  /** An argument fits its line, or is the last one read. */
  predicate FitsLine(a: string, last: bool) {
    '\r' !in a && (|a| < MAX_ARG_LENGTH - 1 || (last && |a| == MAX_ARG_LENGTH - 1))
  }

  predicate FitLines(args: seq<string>, room: nat) {
    |args| <= room && forall i :: 0 <= i < |args| ==> FitsLine(args[i], i == room - 1)
  }

  lemma FitLinesCons(args: seq<string>, room: nat)
    requires args != [] && room > 0
    ensures FitLines(args, room) <==> FitsLine(args[0], room == 1) && FitLines(args[1..], room - 1)
  {
    if FitsLine(args[0], room == 1) && FitLines(args[1..], room - 1) {
      forall i | 0 <= i < |args| ensures FitsLine(args[i], i == room - 1) {
        assert i > 0 ==> args[i] == args[1..][i - 1];
      }
    }
  }

  /** A line that fgets takes whole. */
  lemma ShortLine(a: string, rest: string)
    requires GoodArg(a) && |a| < MAX_ARG_LENGTH - 1
    ensures var text := a + "\n" + rest; var n := FgetsLength(text, MAX_ARG_LENGTH);
      text[..n] == a + "\n" && text[n..] == rest
  {
    var text := a + "\n" + rest;
    assert text[..|a|] == a && text[|a|] == '\n';
    FgetsLengthUnique(text, MAX_ARG_LENGTH, |a| + 1);
  }

  /** A line that it does not: the newline, at least, is left for the next one. */
  lemma LongLine(a: string, rest: string)
    requires GoodArg(a) && |a| >= MAX_ARG_LENGTH - 1
    ensures var text := a + "\n" + rest; var n := FgetsLength(text, MAX_ARG_LENGTH);
      && n == MAX_ARG_LENGTH - 1 && text[..n] == a[..n]
      && text[n..] == a[n..] + "\n" + rest
  {
    var text := a + "\n" + rest;
    var n := MAX_ARG_LENGTH - 1;
    assert text[..n] == a[..n];
    assert '\n' !in text[..n - 1] by {
      assert forall k :: 0 <= k < n - 1 ==> text[..n - 1][k] == a[k];
    }
    FgetsLengthUnique(text, MAX_ARG_LENGTH, n);
  }

  /** A newline alone kills the process. */
  lemma BlankLine(rest: string, room: nat)
    requires room > 0
    ensures CommandArgs("\n" + rest, room) == None
  {
    var text := "\n" + rest;
    FgetsLengthUnique(text, MAX_ARG_LENGTH, 1);
    assert text[..1] == "\n";
    CStrWhole("\n");
    assert SkipEols("\n") == SkipEols("");
  }

  lemma ShortStep(a: string, rest: string, room: nat)
    requires GoodArg(a) && |a| < MAX_ARG_LENGTH - 1 && room > 0
    ensures CommandArgs(a + "\n" + rest, room) == Combined(LineToken(a + "\n"), CommandArgs(rest, room - 1))
  {
    ShortLine(a, rest);
  }

  lemma LongStep(a: string, rest: string, room: nat)
    requires GoodArg(a) && |a| >= MAX_ARG_LENGTH - 1 && room > 0
    ensures var n := MAX_ARG_LENGTH - 1;
      && CommandArgs(a + "\n" + rest, room) == Combined(LineToken(a[..n]), CommandArgs(a[n..] + "\n" + rest, room - 1))
      && (|a| == n && room > 1 ==> CommandArgs(a[n..] + "\n" + rest, room - 1) == None)
      && (room == 1 ==> CommandArgs(a[n..] + "\n" + rest, room - 1) == Some([]))
  {
    LongLine(a, rest);
    var n := MAX_ARG_LENGTH - 1;
    if |a| == n && room > 1 {
      assert a[n..] + "\n" + rest == "\n" + rest;
      BlankLine(rest, room - 1);
    }
  }

  lemma ShortBack(args: seq<string>, rest: Option<seq<string>>, room: nat)
    requires GoodArgs(args) && args != [] && room > 0 && |args[0]| < MAX_ARG_LENGTH - 1
    requires rest == Some(args[1..]) <==> FitLines(args[1..], room - 1)
    ensures Combined(LineToken(args[0] + "\n"), rest) == Some(args) <==> FitLines(args, room)
  {
    FitLinesCons(args, room);
    LineBack(args[0], "\n");
    HeadsEqual(args, LineToken(args[0] + "\n"), rest);
  }

  predicate FileReadsBack(args: seq<string>, room: nat) {
    CommandArgs(Lines(args), room) == Some(args)
  }

  lemma ShortCase(args: seq<string>, room: nat)
    requires GoodArgs(args) && args != [] && room > 0 && |args[0]| < MAX_ARG_LENGTH - 1
    requires FileReadsBack(args[1..], room - 1) <==> FitLines(args[1..], room - 1)
    ensures FileReadsBack(args, room) <==> FitLines(args, room)
  {
    var rest := Lines(args[1..]);
    var after := CommandArgs(rest, room - 1);
    assert Lines(args) == args[0] + "\n" + rest;
    ShortStep(args[0], rest, room);
    ShortBack(args, after, room);
  }

  lemma LongCase(args: seq<string>, room: nat)
    requires GoodArgs(args) && args != [] && room > 0 && |args[0]| >= MAX_ARG_LENGTH - 1
    ensures FileReadsBack(args, room) <==> FitLines(args, room)
  {
    var a, rest := args[0], Lines(args[1..]);
    assert Lines(args) == a + "\n" + rest;
    LongStep(a, rest, room);
    LongBack(args, CommandArgs(a[MAX_ARG_LENGTH - 1..] + "\n" + rest, room - 1), room);
  }

  /** A file with an argument in each line is read back exactly if every argument fits its line. */
  lemma {:induction false} CommandReadsBack(args: seq<string>, room: nat)
    requires GoodArgs(args)
    ensures FileReadsBack(args, room) <==> FitLines(args, room)
    decreases room
  {
    if args != [] && room > 0 {
      if |args[0]| < MAX_ARG_LENGTH - 1 {
        CommandReadsBack(args[1..], room - 1);
        ShortCase(args, room);
      } else {
        LongCase(args, room);
      }
    }
  }

  lemma HeadsEqual(args: seq<string>, token: Option<string>, rest: Option<seq<string>>)
    requires args != []
    ensures Combined(token, rest) == Some(args) <==> token == Some(args[0]) && rest == Some(args[1..])
  {
    if token.Some? && rest.Some? {
      assert args == [args[0]] + args[1..];
      assert ([token.value] + rest.value)[1..] == rest.value;
    }
  }

  /** An argument that fills the buffer. */
  lemma LongBack(args: seq<string>, after: Option<seq<string>>, room: nat)
    requires GoodArgs(args) && args != [] && room > 0 && |args[0]| >= MAX_ARG_LENGTH - 1
    requires |args[0]| == MAX_ARG_LENGTH - 1 && room > 1 ==> after == None
    requires room == 1 ==> after == Some([])
    ensures Combined(LineToken(args[0][..MAX_ARG_LENGTH - 1]), after) == Some(args) <==> FitLines(args, room)
  {
    var a, n := args[0], MAX_ARG_LENGTH - 1;
    FitLinesCons(args, room);
    var token := LineToken(a[..n]);
    HeadsEqual(args, token, after);
    if token.Some? {
      TokenShort(a[..n]);
    }
    if |a| == n {
      assert a[..n] == a + "";
      LineBack(a, "");
    }
  }

  lemma {:induction false} SkipEolsShort(s: string)
    ensures |SkipEols(s)| <= |s|
  {
    if s != "" && IsEol(s[0]) {
      SkipEolsShort(s[1..]);
    }
  }

  lemma TokenShort(buf: string)
    requires LineToken(buf).Some?
    ensures |LineToken(buf).value| <= |buf|
  {
    SkipEolsShort(CStr(buf));
  }

  // ---------- exactly what is taken from a line

  predicate AllEols(s: string) {
    forall k :: 0 <= k < |s| ==> IsEol(s[k])
  }

  lemma {:induction false} SkipEolsExactly(s: string)
    ensures exists k :: 0 <= k <= |s| && AllEols(s[..k]) && SkipEols(s) == s[k..]
  {
    if s != "" && IsEol(s[0]) {
      SkipEolsExactly(s[1..]);
      var k :| 0 <= k <= |s[1..]| && AllEols(s[1..][..k]) && SkipEols(s[1..]) == s[1..][k..];
      assert s[..k + 1] == [s[0]] + s[1..][..k] && s[k + 1..] == s[1..][k..];
    } else {
      assert AllEols(s[..0]) && s[0..] == s;
    }
  }

  /** The characters up to the first `\r` or `\n` behind the leading ones, and NULL without any. */
  lemma LineTokenExactly(buf: string) returns (k: nat)
    ensures var s := CStr(buf); k <= |s| && AllEols(s[..k]) && TokenOf(s[k..], LineToken(buf))
  {
    var s := CStr(buf);
    SkipEolsExactly(s);
    k :| 0 <= k <= |s| && AllEols(s[..k]) && SkipEols(s) == s[k..];
    TokenFirst(s[k..]);
  }

  /** What `strtok` makes of the rest behind the delimiters. */
  predicate TokenOf(s: string, token: Option<string>) {
    match token
    case None => s == ""
    case Some(a) =>
      && a != "" && a <= s && (forall j :: 0 <= j < |a| ==> a[j] != '\r' && a[j] != '\n')
      && (|a| == |s| || s[|a|] in {'\r', '\n'})
  }

  lemma TokenFirst(s: string)
    requires s != "" ==> !IsEol(s[0])
    ensures TokenOf(s, if s == "" then None else Some(UpToEol(s)))
  {
  }

  predicate FileGives(args: seq<string>, room: nat, kept: seq<string>) {
    CommandArgs(Lines(args), room) == Some(kept)
  }

  predicate PlainLine(a: string) {
    GoodArg(a) && '\r' !in a && |a| < MAX_ARG_LENGTH - 1
  }

  lemma TakesLine(args: seq<string>, room: nat, kept: seq<string>)
    requires args != [] && room > 0 && PlainLine(args[0]) && FileGives(args[1..], room - 1, kept)
    ensures FileGives(args, room, [args[0]] + kept)
  {
    var a, rest := args[0], Lines(args[1..]);
    assert Lines(args) == a + "\n" + rest;
    ShortStep(a, rest, room);
    LineBack(a, "\n");
  }

  lemma TakesNothing(args: seq<string>, room: nat)
    requires args == [] || room == 0
    ensures FileGives(args, room, [])
  {
  }

  function Upto(args: seq<string>, n: nat): seq<string> { args[..Min(|args|, n)] }

  lemma UptoCons(args: seq<string>, n: nat)
    requires args != [] && n > 0
    ensures Upto(args, n) == [args[0]] + Upto(args[1..], n - 1)
  {
  }

  /** Of a longer file, the first `room` arguments. */
  lemma {:induction false} FirstLines(args: seq<string>, room: nat)
    requires forall i :: 0 <= i < |args| ==> PlainLine(args[i])
    ensures FileGives(args, room, Upto(args, room))
    decreases room
  {
    if args == [] || room == 0 {
      TakesNothing(args, room);
    } else {
      FirstLines(args[1..], room - 1);
      TakesLine(args, room, Upto(args[1..], room - 1));
      UptoCons(args, room);
    }
  }
}
