/** The recovery field (recovery.c). */
module BootMessage {
  import opened Wrappers
  import opened CString

  /*
   It is part of the bootloader control block (bootloader.h).  `get_args` reads arguments out of
   it, one in a line, and writes them back.
   */

  const RECOVERY_SIZE: nat := 1024
  const MAX_ARGS: nat := 100

  // ---------- strlcpy and strlcat on a fixed-size buffer

  /** The longest prefix that fits a buffer of `size` with its terminator. */
  function Fit(s: string, size: nat): string
    requires size >= 1
  {
    s[..Min(|s|, size - 1)]
  }

  /** The buffer holding `s` and its terminator, the bytes behind them as before. */
  function Hold(buf: seq<char>, s: string): (r: seq<char>)
    requires |s| < |buf|
    ensures |r| == |buf|
  {
    s + [NUL] + buf[|s| + 1..]
  }

  function Strlcpy(buf: seq<char>, s: string): (r: seq<char>)
    requires |buf| >= 1
    ensures |r| == |buf|
  {
    Hold(buf, Fit(s, |buf|))
  }

  /** Appends behind the terminator; a buffer without one is left alone. */
  function Strlcat(buf: seq<char>, s: string): (r: seq<char>)
    requires |buf| >= 1
    ensures |r| == |buf|
  {
    var d := IndexOf(buf, NUL);
    if d == |buf| then buf
    else
      var n := Min(|s|, |buf| - 1 - d);
      buf[..d] + s[..n] + [NUL] + buf[d + n + 1..]
  }

  lemma HoldReads(buf: seq<char>, s: string)
    requires |s| < |buf| && NUL !in s
    ensures IndexOf(Hold(buf, s), NUL) == |s|
    ensures CStr(Hold(buf, s)) == s
  {
    var h := Hold(buf, s);
    assert h[|s|] == NUL;
    assert forall k :: 0 <= k < |s| ==> h[k] == s[k];
    IndexOfUnique(h, NUL, |s|);
  }

  lemma FitConcat(s: string, t: string, size: nat)
    requires |s| < size
    ensures Fit(s + t, size) == s + t[..Min(|t|, size - 1 - |s|)]
  {
  }

  lemma HoldTail(buf: seq<char>, s: string, n: nat)
    requires |s| < n <= |buf|
    ensures Hold(buf, s)[n..] == buf[n..]
  {
  }

  /** Appending to a held string holds the concatenation, cut to fit. */
  lemma StrlcatHolds(buf: seq<char>, s: string, t: string)
    requires |s| < |buf| && NUL !in s
    ensures Strlcat(Hold(buf, s), t) == Hold(buf, Fit(s + t, |buf|))
  {
    var n := Min(|t|, |buf| - 1 - |s|);
    HoldReads(buf, s);
    FitConcat(s, t, |buf|);
    HoldTail(buf, s, |s| + n + 1);
  }

  lemma FitTwice(s: string, t: string, size: nat)
    requires size >= 1
    ensures Fit(Fit(s, size) + t, size) == Fit(s + t, size)
  {
  }

  // ---------- arguments, one per line

  /** Non-empty, without newline or NUL: what `strtok` can return. */
  predicate GoodArg(a: string) {
    a != "" && '\n' !in a && NUL !in a
  }

  predicate GoodArgs(args: seq<string>) {
    forall i :: 0 <= i < |args| ==> GoodArg(args[i])
  }

  /** C strings of any kind, as a command line may hold. */
  predicate CArgs(args: seq<string>) {
    forall i :: 0 <= i < |args| ==> NUL !in args[i]
  }

  function Lines(args: seq<string>): string {
    if args == [] then "" else args[0] + "\n" + Lines(args[1..])
  }

  /** The field `get_args` would write if it were long enough. */
  function Full(args: seq<string>): string {
    Lines(["recovery"] + args)
  }

  /** The string it does write. */
  function Encode(args: seq<string>): string {
    Fit(Full(args), RECOVERY_SIZE)
  }

  /** Successive `strtok(_, "\n")` results. */
  function Tokens(s: string): seq<string>
    decreases |s|
  {
    if s == "" then []
    else if s[0] == '\n' then Tokens(s[1..])
    else
      var n := IndexOf(s, '\n');
      [s[..n]] + Tokens(s[n..])
  }

  /** The arguments in a boot message, at most MAX_ARGS - 1 of them; None: not a boot message. */
  function ParseMessage(text: string): Option<seq<string>> {
    var t := Tokens(text);
    if t == [] || t[0] != "recovery" then None
    else Some(t[1..Min(|t|, MAX_ARGS)])
  }

  // ---------- parsing what was written

  /** No empty line: no newline at the start or after another one. */
  predicate NoBlank(s: string) {
    && (s != "" ==> s[0] != '\n')
    && forall k :: 0 < k < |s| && s[k] == '\n' ==> s[k - 1] != '\n'
  }

  function Ended(s: string): string {
    if s == "" || s[|s| - 1] == '\n' then s else s + "\n"
  }

  lemma {:induction false} LinesConcat(a: seq<string>, b: seq<string>)
    ensures Lines(a + b) == Lines(a) + Lines(b)
  {
    if a == [] {
      assert a + b == b;
    } else {
      assert (a + b)[1..] == a[1..] + b;
      LinesConcat(a[1..], b);
      assert Lines(a + b) == a[0] + "\n" + (Lines(a[1..]) + Lines(b));
    }
  }

  lemma {:induction false} LinesNoBlank(args: seq<string>)
    requires GoodArgs(args)
    ensures NoBlank(Lines(args)) && NUL !in Lines(args)
    ensures Ended(Lines(args)) == Lines(args)
    ensures args != [] ==> Lines(args) != ""
  {
    if args != [] {
      LinesNoBlank(args[1..]);
      NoBlankLine(args[0], Lines(args[1..]));
    }
  }

  lemma NoBlankLine(a: string, rest: string)
    requires GoodArg(a) && NoBlank(rest)
    ensures NoBlank(a + "\n" + rest)
  {
    var s := a + "\n" + rest;
    assert forall k :: 0 <= k < |a| ==> s[k] == a[k] != '\n';
    assert forall k :: 0 <= k < |rest| ==> s[|a| + 1 + k] == rest[k];
    forall k | 0 < k < |s| && s[k] == '\n' ensures s[k - 1] != '\n' {
      if k > |a| + 1 {
        assert s[k] == rest[k - |a| - 1] && s[k - 1] == rest[k - |a| - 2];
      }
    }
  }

  lemma {:induction false} LinesNulFree(args: seq<string>)
    requires CArgs(args)
    ensures NUL !in Lines(args)
    ensures args != [] ==> Lines(args) != "" && Ended(Lines(args)) == Lines(args)
  {
    if args != [] {
      LinesNulFree(args[1..]);
    }
  }

  /** Splitting off the first token of a text without blank lines. */
  lemma FirstToken(s: string) returns (n: nat)
    requires NoBlank(s) && s != ""
    ensures 0 < n <= |s| && n == IndexOf(s, '\n')
    ensures n == |s| ==> Tokens(s) == [s]
    ensures n < |s| ==> Tokens(s) == [s[..n]] + Tokens(s[n + 1..]) && NoBlank(s[n + 1..])
  {
    n := IndexOf(s, '\n');
    if n == |s| {
      assert s[n..] == "" && s[..n] == s;
    } else {
      assert s[n..] != "" && s[n..][0] == '\n' && s[n..][1..] == s[n + 1..];
      var r := s[n + 1..];
      assert r != "" ==> r[0] == s[n + 1];
      assert forall k :: 0 <= k < |r| ==> r[k] == s[n + 1 + k];
    }
  }

  lemma EndedSplit(s: string, n: nat)
    requires n < |s| && s[n] == '\n'
    ensures Ended(s) == s[..n] + "\n" + Ended(s[n + 1..])
  {
    var rest := s[n + 1..];
    assert s == s[..n] + "\n" + rest;
    assert rest != "" ==> rest[|rest| - 1] == s[|s| - 1];
  }

  /** Writing out the tokens of such a text restores it, with its last newline. */
  lemma {:induction false} LinesOfTokens(s: string)
    requires NoBlank(s)
    ensures Lines(Tokens(s)) == Ended(s)
    decreases |s|
  {
    if s != "" {
      var n := FirstToken(s);
      if n == |s| {
        assert Tokens(s)[1..] == [];
      } else {
        LinesOfTokens(s[n + 1..]);
        assert Tokens(s)[1..] == Tokens(s[n + 1..]);
        EndedSplit(s, n);
      }
    }
  }

  lemma {:induction false} TokensOfLines(args: seq<string>)
    requires GoodArgs(args)
    ensures Tokens(Lines(args)) == args
  {
    if args != [] {
      var a, rest := args[0], Lines(args[1..]);
      var s := Lines(args);
      assert s == a + ("\n" + rest);
      LinesNoBlank(args);
      TokensOfLines(args[1..]);
      assert forall k :: 0 <= k < |a| ==> s[k] == a[k];
      IndexOfUnique(s, '\n', |a|);
      var n := FirstToken(s);
      assert s[..n] == a && s[n + 1..] == rest;
    }
  }

  lemma NoBlankPrefix(s: string, n: nat)
    requires NoBlank(s) && n <= |s|
    ensures NoBlank(s[..n])
  {
  }

  /** What is left of the tokens when a text is cut: fewer, and the last one perhaps shorter. */
  predicate CutOf(a: seq<string>, b: seq<string>) {
    && |a| <= |b|
    && (forall i :: 0 <= i < |a| - 1 ==> a[i] == b[i])
    && (a != [] ==> a[|a| - 1] <= b[|a| - 1])
  }

  lemma CutCons(x: string, a: seq<string>, b: seq<string>)
    requires CutOf(a, b)
    ensures CutOf([x] + a, [x] + b)
  {
    assert a != [] ==> ([x] + a)[|a|] == a[|a| - 1] && ([x] + b)[|a|] == b[|a| - 1];
  }

  lemma CutOne(x: string, y: string, b: seq<string>)
    requires x <= y
    ensures CutOf([x], [y] + b)
  {
  }

  function Head(s: string): string { s[..IndexOf(s, '\n')] }

  function Tail(s: string): string {
    var n := IndexOf(s, '\n');
    if n < |s| then s[n + 1..] else ""
  }

  lemma HeadTail(s: string)
    requires NoBlank(s) && s != ""
    ensures NoBlank(Tail(s)) && |Tail(s)| < |s|
    ensures Tokens(s) == [Head(s)] + Tokens(Tail(s))
  {
    var n := FirstToken(s);
  }

  /** A cut keeps the first token and cuts the rest, or cuts the first token. */
  lemma CutHeadTail(s: string, n: nat)
    requires 0 < n <= |s|
    ensures var p, rest := s[..n], Tail(s);
      && Head(p) <= Head(s)
      && (Tail(p) == "" || (Head(p) == Head(s) && |Tail(p)| <= |rest| && Tail(p) == rest[..|Tail(p)|]))
  {
    var p := s[..n];
    var j := IndexOf(p, '\n');
    assert forall k :: 0 <= k < n ==> p[k] == s[k];
    if j < n {
      IndexOfUnique(s, '\n', j);
      assert Head(p) == s[..j] == Head(s);
      assert Tail(p) == s[j + 1..][..n - j - 1];
    } else {
      var i := IndexOf(s, '\n');
      assert i >= n;
      assert Head(s)[..n] == p;
    }
  }

  /** Cutting a text cuts its tokens. */
  lemma {:induction false} FewerTokens(s: string, n: nat)
    requires NoBlank(s) && n <= |s|
    ensures CutOf(Tokens(s[..n]), Tokens(s))
    decreases |s|
  {
    if n > 0 {
      var p := s[..n];
      NoBlankPrefix(s, n);
      HeadTail(s);
      HeadTail(p);
      CutHeadTail(s, n);
      if Tail(p) == "" {
        CutOne(Head(p), Head(s), Tokens(Tail(s)));
      } else {
        FewerTokens(Tail(s), |Tail(p)|);
        CutCons(Head(s), Tokens(Tail(p)), Tokens(Tail(s)));
      }
    }
  }

  lemma CutTail(a: seq<string>, b: seq<string>)
    requires CutOf(a, b) && a != []
    ensures CutOf(a[1..], b[1..])
  {
    assert forall i :: 0 <= i < |a| - 1 ==> a[1..][i] == a[i + 1] && b[1..][i] == b[i + 1];
  }

  /** A cut text starts with the same first line. */
  lemma MessageTokens(args: seq<string>)
    requires GoodArgs(args) && |args| < MAX_ARGS
    ensures NoBlank(Encode(args))
    ensures ParseMessage(Encode(args)).Some?
    ensures CutOf(ParseMessage(Encode(args)).value, args)
    ensures ["recovery"] + ParseMessage(Encode(args)).value == Tokens(Encode(args))
  {
    var ts := ["recovery"] + args;
    var full, text := Full(args), Encode(args);
    FirstLine(args);
    LinesNoBlank(ts);
    TokensOfLines(ts);
    FewerTokens(full, |text|);
    NoBlankPrefix(full, |text|);
    assert text == full[..|text|];
    var t := Tokens(text);
    assert t[0] == "recovery" && |t| <= MAX_ARGS;
    assert t[1..|t|] == t[1..];
    assert ["recovery"] + t[1..] == t;
    CutTail(t, ts);
  }

  /**
   Restarting recovery any number of times rewrites the same message, even when the
   arguments did not fit and the last one was cut.
   */
  lemma StableUnderRestart(args: seq<string>)
    requires GoodArgs(args) && |args| < MAX_ARGS
    ensures ParseMessage(Encode(args)).Some?
    ensures Encode(ParseMessage(Encode(args)).value) == Encode(args)
  {
    MessageTokens(args);
    var text := Encode(args);
    LinesOfTokens(text);
    LinesNoBlank(["recovery"] + args);
  }

  lemma FullLines(args: seq<string>)
    ensures Full(args) == "recovery\n" + Lines(args)
  {
    var ts := ["recovery"] + args;
    assert ts[1..] == args;
    assert Lines(ts) == "recovery" + "\n" + Lines(args);
  }

  /** Every message starts with its first line, whatever the arguments. */
  lemma FirstLine(args: seq<string>)
    ensures |Encode(args)| >= 9 && Encode(args)[..9] == "recovery\n"
    ensures Tokens(Encode(args)) == ["recovery"] + Tokens(Encode(args)[9..])
    ensures ParseMessage(Encode(args)).Some?
  {
    var full, text := Full(args), Encode(args);
    FullLines(args);
    assert text[..9] == full[..9] == "recovery\n";
    assert forall k :: 0 <= k < 8 ==> text[k] == text[..9][k];
    assert text[8] == text[..9][8] == '\n';
    IndexOfUnique(text, '\n', 8);
    assert text[..8] == "recovery" && text[8..][0] == '\n' && text[8..][1..] == text[9..];
  }

  /**
   For arguments of any kind, in any number: rewriting what was parsed gives the same message
   exactly when it has no blank line and at most MAX_ARGS lines.
   */
  lemma StableExactly(args: seq<string>)
    requires CArgs(args)
    ensures var text := Encode(args);
      && ParseMessage(text).Some?
      && (Encode(ParseMessage(text).value) == text <==> NoBlank(text) && |Tokens(text)| <= MAX_ARGS)
  {
    var text := Encode(args);
    FirstLine(args);
    EncodeNulFree(args);
    var t, kept := Tokens(text), ParseMessage(text).value;
    if NoBlank(text) && |t| <= MAX_ARGS {
      assert t[1..|t|] == kept && ["recovery"] + kept == t;
      LinesOfTokens(text);
      LinesNulFree(["recovery"] + args);
    }
    if Encode(kept) == text {
      ParsedGood(text);
      MessageTokens(kept);
    }
  }

  /** Only no arguments are stored as no arguments. */
  lemma EncodeEmpty(args: seq<string>)
    ensures Encode(args) == Encode([]) <==> args == []
  {
    EncodeNone();
    if args != [] {
      FullLines(args);
      assert Lines(args) == args[0] + "\n" + Lines(args[1..]);
      assert |Encode(args)| > 9;
    }
  }

  /** The arguments come back exactly when all but the last newline fits. */
  lemma ArgumentsSurvive(args: seq<string>)
    requires GoodArgs(args) && |args| < MAX_ARGS
    ensures ParseMessage(Encode(args)) == Some(args) <==> |Full(args)| <= RECOVERY_SIZE
  {
    MessageTokens(args);
    var ts := ["recovery"] + args;
    var full, text := Full(args), Encode(args);
    LinesNoBlank(ts);
    LinesOfTokens(text);
    if |full| <= RECOVERY_SIZE {
      TokensOfLines(ts);
      if |full| == RECOVERY_SIZE {
        CutLastNewline(ts);
        assert text == full[..|full| - 1];
      } else {
        assert text == full;
      }
      assert ts[1..] == args;
      assert Tokens(text)[1..] == ParseMessage(text).value;
    } else {
      assert |Ended(text)| <= RECOVERY_SIZE;
    }
  }

  lemma {:induction false} CutLastNewline(ts: seq<string>)
    requires GoodArgs(ts) && ts != []
    ensures Tokens(Lines(ts)[..|Lines(ts)| - 1]) == ts
  {
    var full := Lines(ts);
    LinesNoBlank(ts);
    var p := full[..|full| - 1];
    NoBlankPrefix(full, |p|);
    LinesOfTokens(p);
    assert p == "" || p[|p| - 1] != '\n' by {
      if p != "" {
        assert full[|full| - 1] == '\n' && full[|full| - 2] == p[|p| - 1];
      }
    }
    assert p != "" by {
      assert |full| >= |ts[0]| + 1;
    }
    assert Ended(p) == full;
    TokensGood(p);
    LinesInjective(Tokens(p), ts);
  }

  /** Tokens are good arguments. */
  lemma {:induction false} TokensGood(s: string)
    requires NUL !in s
    ensures GoodArgs(Tokens(s))
    decreases |s|
  {
    if s != "" {
      if s[0] == '\n' {
        TokensGood(s[1..]);
      } else {
        var n := IndexOf(s, '\n');
        TokensGood(s[n..]);
      }
    }
  }

  lemma LinesInjective(a: seq<string>, b: seq<string>)
    requires GoodArgs(a) && GoodArgs(b) && Lines(a) == Lines(b)
    ensures a == b
  {
    TokensOfLines(a);
    TokensOfLines(b);
  }

  // ---------- the buffer, byte by byte

  /** The loop of `get_args` that writes the arguments back. */
  function Rewrite(buf: seq<char>, args: seq<string>): (r: seq<char>)
    requires |buf| == RECOVERY_SIZE
    ensures |r| == RECOVERY_SIZE
  {
    if args == [] then Strlcpy(buf, "recovery\n")
    else Strlcat(Strlcat(Rewrite(buf, args[..|args| - 1]), args[|args| - 1]), "\n")
  }

  /** One more argument, appended to the encoding of the others. */
  lemma EncodeSnoc(init: seq<string>, last: string)
    ensures Encode(init + [last]) == Fit(Fit(Encode(init) + last, RECOVERY_SIZE) + "\n", RECOVERY_SIZE)
  {
    var ts := ["recovery"] + init;
    assert ["recovery"] + (init + [last]) == ts + [last];
    LinesConcat(ts, [last]);
    assert Lines([last]) == last + "\n" by { assert [last][1..] == []; }
    assert Full(init + [last]) == Full(init) + last + "\n";
    FitTwice(Full(init), last, RECOVERY_SIZE);
    FitTwice(Full(init) + last, "\n", RECOVERY_SIZE);
  }

  lemma EncodeNulFree(args: seq<string>)
    requires CArgs(args)
    ensures NUL !in Encode(args) && |Encode(args)| < RECOVERY_SIZE
  {
    LinesNulFree(["recovery"] + args);
  }

  lemma EncodeNone()
    ensures Encode([]) == "recovery\n"
  {
    assert (["recovery"] + [])[1..] == [];
    assert Lines(["recovery"] + []) == "recovery" + "\n" + "";
  }

  /** One round of that loop. */
  lemma HoldSnoc(buf: seq<char>, init: seq<string>, last: string)
    requires |buf| == RECOVERY_SIZE && CArgs(init) && NUL !in last
    ensures |Encode(init)| < RECOVERY_SIZE
    ensures Strlcat(Strlcat(Hold(buf, Encode(init)), last), "\n") == Hold(buf, Encode(init + [last]))
  {
    var e := Encode(init);
    EncodeNulFree(init);
    StrlcatHolds(buf, e, last);
    StrlcatHolds(buf, Fit(e + last, RECOVERY_SIZE), "\n");
    EncodeSnoc(init, last);
  }

  /** The buffer then holds the encoding, and nothing behind its terminator has changed. */
  lemma {:induction false} RewriteHolds(buf: seq<char>, args: seq<string>)
    requires |buf| == RECOVERY_SIZE && CArgs(args)
    ensures Rewrite(buf, args) == Hold(buf, Encode(args))
  {
    if args == [] {
      EncodeNone();
    } else {
      var init, last := args[..|args| - 1], args[|args| - 1];
      assert args == init + [last];
      RewriteHolds(buf, init);
      HoldSnoc(buf, init, last);
    }
  }

  lemma ParsedGood(text: string)
    requires NUL !in text && ParseMessage(text).Some?
    ensures GoodArgs(ParseMessage(text).value) && |ParseMessage(text).value| < MAX_ARGS
  {
    TokensGood(text);
  }

  // ---------- exactly what strtok returns

  /** A text without newline is one token, or none if it is empty. */
  lemma TokensOfOne(s: string)
    requires '\n' !in s
    ensures Tokens(s) == if s == "" then [] else [s]
  {
    if s != "" {
      assert s[|s|..] == "" && s[..|s|] == s;
    }
  }

  lemma TokensSkip(a: string, rest: string)
    requires a != "" && a[0] == '\n'
    ensures Tokens(a + rest) == Tokens(a[1..] + rest)
  {
    assert (a + rest)[1..] == a[1..] + rest;
  }

  /** The first line of `a` and what follows it, with anything behind that starts on a new line. */
  lemma TokensHead(a: string, rest: string)
    requires a != "" && a[0] != '\n' && (rest == "" || rest[0] == '\n')
    ensures var n := IndexOf(a, '\n'); Tokens(a + rest) == [a[..n]] + Tokens(a[n..] + rest)
  {
    var s, n := a + rest, IndexOf(a, '\n');
    assert forall k :: 0 <= k < |a| ==> s[k] == a[k];
    assert rest != "" ==> s[|a|] == '\n';
    IndexOfUnique(s, '\n', n);
    assert s[..n] == a[..n] && s[n..] == a[n..] + rest;
  }

  /** Tokens never reach over a newline, and empty lines give none. */
  lemma {:induction false} TokensJoin(a: string, b: string)
    ensures Tokens(a + ("\n" + b)) == Tokens(a) + Tokens(b)
    decreases |a|
  {
    var rest := "\n" + b;
    assert a + "" == a;
    if a == "" {
      assert a + rest == rest && rest[1..] == b;
    } else if a[0] == '\n' {
      TokensSkip(a, rest);
      TokensJoin(a[1..], b);
    } else {
      var n := IndexOf(a, '\n');
      TokensHead(a, rest);
      TokensHead(a, "");
      assert a[n..] + "" == a[n..];
      TokensJoin(a[n..], b);
    }
  }
}
