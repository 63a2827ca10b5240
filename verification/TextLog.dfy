/** The on-screen log: a ring of rows that shows the end of everything printed so far (ui.c). */
module TextLog {
  import opened CString

  /*
   It is a ring of text rows that wraps long lines.  The rows drawn are
   always the last rows of the whole text printed so far, wrapped at the screen width.
   */

  const MAX_ROWS: nat := 45
  const MAX_COLS: nat := 64
  const CHAR_WIDTH: nat := 10
  const CHAR_HEIGHT: nat := 18
  const BUFFER: nat := 512  // characters of one message that vsnprintf keeps

  // ---------- wrapping, as a function of the whole text

  /** The lines of a text, at least one. */
  function Split(s: string): (r: seq<string>)
    ensures |r| >= 1
  {
    if s == "" then [""]
    else
      var p, c := Split(s[..|s| - 1]), s[|s| - 1];
      if c == '\n' then p + [""] else p[..|p| - 1] + [p[|p| - 1] + [c]]
  }

  /** A line cut into pieces of at most `cols` characters, at least one piece. */
  function Pieces(line: string, cols: nat): (r: seq<string>)
    requires cols > 0
    ensures |r| >= 1
  {
    if |line| <= cols then [line] else [line[..cols]] + Pieces(line[cols..], cols)
  }

  function AllPieces(lines: seq<string>, cols: nat): (r: seq<string>)
    requires cols > 0
    ensures |r| >= |lines|
  {
    if lines == [] then [] else AllPieces(lines[..|lines| - 1], cols) + Pieces(lines[|lines| - 1], cols)
  }

  /** The text as it appears on paper of width `cols`. */
  function Wrapped(s: string, cols: nat): (r: seq<string>)
    requires cols > 0
    ensures |r| >= 1
  {
    AllPieces(Split(s), cols)
  }

  /** One more character on that paper. */
  function Type(page: seq<string>, c: char, cols: nat): seq<string>
    requires |page| >= 1
  {
    var last := page[|page| - 1];
    if c == '\n' then page + [""]
    else if |last| >= cols then page + [[c]]
    else page[..|page| - 1] + [last + [c]]
  }

  lemma TypeBehind(a: seq<string>, b: seq<string>, c: char, cols: nat)
    requires |b| >= 1
    ensures Type(a + b, c, cols) == a + Type(b, c, cols)
  {
  }

  lemma {:induction false} PiecesType(line: string, c: char, cols: nat)
    requires cols > 0 && c != '\n'
    ensures Pieces(line + [c], cols) == Type(Pieces(line, cols), c, cols)
    decreases |line|
  {
    if |line| > cols {
      PiecesType(line[cols..], c, cols);
      assert (line + [c])[cols..] == line[cols..] + [c];
      assert (line + [c])[..cols] == line[..cols];
      TypeBehind([line[..cols]], Pieces(line[cols..], cols), c, cols);
    } else if |line| == cols {
      assert (line + [c])[..cols] == line && (line + [c])[cols..] == [c];
      assert Pieces([c], cols) == [[c]];
    }
  }

  /** Wrapping can be done one character at a time. */
  lemma WrappedType(s: string, c: char, cols: nat)
    requires cols > 0
    ensures Wrapped(s + [c], cols) == Type(Wrapped(s, cols), c, cols)
  {
    var lines := Split(s);
    var init, last := lines[..|lines| - 1], lines[|lines| - 1];
    assert (s + [c])[..|s|] == s;
    if c == '\n' {
      var more := lines + [""];
      assert more[..|lines|] == lines;
      assert Pieces("", cols) == [""];
    } else {
      var more := init + [last + [c]];
      assert more[..|init|] == init;
      PiecesType(last, c, cols);
      TypeBehind(AllPieces(init, cols), Pieces(last, cols), c, cols);
    }
  }

  function Join(pieces: seq<string>): string {
    if pieces == [] then "" else pieces[0] + Join(pieces[1..])
  }

  /** Cutting a line loses nothing, and every piece but the last is full. */
  lemma {:induction false} PiecesJoin(line: string, cols: nat)
    requires cols > 0
    ensures Join(Pieces(line, cols)) == line
    ensures forall i :: 0 <= i < |Pieces(line, cols)| - 1 ==> |Pieces(line, cols)[i]| == cols
    decreases |line|
  {
    if |line| <= cols {
      assert Pieces(line, cols)[1..] == [];
      assert line + "" == line;
    } else {
      PiecesJoin(line[cols..], cols);
      assert Pieces(line, cols)[1..] == Pieces(line[cols..], cols);
    }
  }

  lemma {:induction false} WrappedWidth(s: string, cols: nat)
    requires cols > 0
    ensures forall i :: 0 <= i < |Wrapped(s, cols)| ==> |Wrapped(s, cols)[i]| <= cols
  {
    if s == "" {
      assert Split(s) == [""];
      assert AllPieces([""], cols) == AllPieces([], cols) + Pieces("", cols) by { assert [""][..0] == []; }
    } else {
      var p, c := s[..|s| - 1], s[|s| - 1];
      assert s == p + [c];
      WrappedWidth(p, cols);
      WrappedType(p, c, cols);
    }
  }

  // ---------- the last rows

  function Blank(n: nat): (r: seq<string>)
    ensures |r| == n && forall i :: 0 <= i < n ==> r[i] == ""
  {
    seq(n, i => "")
  }

  /** The last rows of a page, as many as `blank` has and one more, with `blank` in front of it. */
  function Bottom(blank: seq<string>, page: seq<string>): (r: seq<string>)
    requires |page| >= 1
    ensures |r| == |blank| + 1
  {
    (blank + page)[|page| - 1..]
  }

  /** What a screen of `rows` rows shows of the text. */
  function Screen(s: string, cols: nat, rows: nat): (r: seq<string>)
    requires cols > 0 && rows > 0
    ensures |r| == rows
  {
    Bottom(Blank(rows - 1), Wrapped(s, cols))
  }

  /** A character goes to the last row, or to a new row that scrolls the others up. */
  function Scroll(screen: seq<string>, c: char, cols: nat): (r: seq<string>)
    requires |screen| >= 1
    ensures |r| == |screen|
  {
    Type(screen, c, cols)[|Type(screen, c, cols)| - |screen|..]
  }

  lemma BottomNewRow(blank: seq<string>, page: seq<string>, row: string)
    requires |page| >= 1
    ensures Bottom(blank, page + [row]) == Bottom(blank, page)[1..] + [row]
  {
  }

  lemma BottomLastRow(blank: seq<string>, page: seq<string>, row: string)
    requires |page| >= 1
    ensures Bottom(blank, page)[|blank|] == page[|page| - 1]
    ensures Bottom(blank, page[..|page| - 1] + [row]) == Bottom(blank, page)[..|blank|] + [row]
  {
  }

  /** Typing on a page and looking at its last rows. */
  lemma BottomScrolls(blank: seq<string>, page: seq<string>, c: char, cols: nat)
    requires |page| >= 1
    ensures |Type(page, c, cols)| >= 1
    ensures Bottom(blank, Type(page, c, cols)) == Scroll(Bottom(blank, page), c, cols)
  {
    var last := page[|page| - 1];
    ScrollCases(Bottom(blank, page), c, cols);
    BottomLastRow(blank, page, last + [c]);
    if c == '\n' {
      BottomNewRow(blank, page, "");
    } else if |last| >= cols {
      BottomNewRow(blank, page, [c]);
    }
  }

  lemma ScreenType(s: string, c: char, cols: nat, rows: nat)
    requires cols > 0 && rows > 0
    ensures Screen(s + [c], cols, rows) == Scroll(Screen(s, cols, rows), c, cols)
  {
    var page, after := Wrapped(s, cols), Wrapped(s + [c], cols);
    assert after == Type(page, c, cols) by { WrappedType(s, c, cols); }
    BottomScrolls(Blank(rows - 1), page, c, cols);
  }

  lemma ScrollCases(screen: seq<string>, c: char, cols: nat)
    requires |screen| >= 1
    ensures var last := screen[|screen| - 1];
      Scroll(screen, c, cols) ==
        if c == '\n' then screen[1..] + [""]
        else if |last| >= cols then screen[1..] + [[c]]
        else screen[..|screen| - 1] + [last + [c]]
  {
  }

  // ---------- the ring

  /** The ring position of screen row k while `row` is the last one. */
  function Slot(row: nat, k: nat, rows: nat): nat {
    if row + 1 + k < rows then row + 1 + k else row + 1 + k - rows
  }

  /** When the ring advances, screen row k is where row k + 1 was, and the last one was at `row`. */
  lemma SlotNext(row: nat, k: nat, rows: nat)
    requires row < rows && k < rows
    ensures var next := Slot(row, 0, rows);
      && next < rows
      && (k + 1 < rows ==> Slot(next, k, rows) == Slot(row, k + 1, rows))
    ensures Slot(row, rows - 1, rows) == row
    ensures k < rows - 1 ==> Slot(row, k, rows) != row
  {
  }

  lemma ModSmall(i: nat, n: nat)
    requires 0 < n && i < 2 * n
    ensures i % n == if i < n then i else i - n
  {
    if i >= n {
      assert i == n + (i - n);
    }
  }

  class TextContainer {
    const text: array2<char>
    var text_cols: nat
    var text_rows: nat
    var text_col: nat
    var text_row: nat
    var text_top: nat
    ghost var printed: string  // everything printed since the screen was cleared

    ghost predicate Shape()
      reads `text_rows, `text_cols
    {
      && text.Length0 == MAX_ROWS && text.Length1 == MAX_COLS
      && text_rows <= MAX_ROWS && text_cols < MAX_COLS
    }

    predicate Active()
      reads `text_rows, `text_cols
    {
      text_rows > 0 && text_cols > 0
    }

    /** Row r of the ring starts with `s`. */
    ghost predicate Starts(r: nat, s: string)
      requires Shape()
      reads `text_rows, `text_cols, text
    {
      r < text_rows && |s| <= text_cols && forall j :: 0 <= j < |s| ==> text[r, j] == s[j]
    }

    /** Row r of the ring is the C string `s`. */
    ghost predicate Row(r: nat, s: string)
      requires Shape()
      reads `text_rows, `text_cols, text
    {
      Starts(r, s) && text[r, |s|] == NUL && NUL !in s
    }

    /** The ring holds `screen`, whose last row is being written and not yet terminated. */
    ghost predicate Typing(screen: seq<string>)
      reads `text_rows, `text_cols, `text_col, `text_row, `text_top, text
    {
      && Shape() && Active() && |screen| == text_rows
      && text_row < text_rows && text_col == |screen[text_rows - 1]|
      && text_top == (if text_rows == 1 then 1 else Slot(text_row, 0, text_rows))
      && Starts(text_row, screen[text_rows - 1]) && NUL !in screen[text_rows - 1]
      && forall k {:trigger Slot(text_row, k, text_rows)} :: 0 <= k < text_rows - 1 ==>
           Row(Slot(text_row, k, text_rows), screen[k])
    }

    ghost predicate Valid()
      reads this, text
    {
      && Shape() && NUL !in printed
      && (Active() ==>
            && Typing(Screen(printed, text_cols, text_rows))
            && text[text_row, text_col] == NUL)
    }

    /** `ui_clear_screen`, for a frame buffer of the given size. */
    constructor (width: nat, height: nat)
      ensures Valid() && fresh(text) && printed == ""
      ensures text_rows == (if height / CHAR_HEIGHT > MAX_ROWS then MAX_ROWS else height / CHAR_HEIGHT)
      ensures text_cols == (if width / CHAR_WIDTH > MAX_COLS - 1 then MAX_COLS - 1 else width / CHAR_WIDTH)
    {
      text := new char[MAX_ROWS, MAX_COLS]((i, j) => NUL);
      text_col, text_row, text_top := 0, 0, 1;
      text_rows := if height / CHAR_HEIGHT > MAX_ROWS then MAX_ROWS else height / CHAR_HEIGHT;
      text_cols := if width / CHAR_WIDTH > MAX_COLS - 1 then MAX_COLS - 1 else width / CHAR_WIDTH;
      printed := "";
      new;
      if Active() {
        ghost var screen := Blank(text_rows);
        forall k | 0 <= k < text_rows ensures Row(Slot(text_row, k, text_rows), screen[k]) {
          SlotNext(text_row, k, text_rows);
        }
        assert Typing(screen);
        EmptyScreen(text_cols, text_rows);
      }
    }

    /** Lines 1128 to 1131. */
    method NewLine(ghost screen: seq<string>)
      requires Typing(screen)
      modifies this`text_col, this`text_row, this`text_top, text
      ensures Typing(screen[1..] + [""])
    {
      ghost var row, rows := text_row, text_rows;
      Terminate(screen);
      text_col := 0;
      ModSmall(text_row + 1, text_rows);
      if text_rows > 1 {
        ModSmall(text_top + 1, text_rows);
      }
      text_row := (text_row + 1) % text_rows;
      if text_row == text_top {
        text_top := (text_top + 1) % text_rows;
      }
      ghost var screen' := screen[1..] + [""];
      assert text_row == Slot(row, 0, rows);
      forall k | 0 <= k < rows - 1 ensures Row(Slot(text_row, k, rows), screen'[k]) {
        SlotNext(row, k, rows);
        assert screen'[k] == screen[k + 1];
      }
    }

    /** Ends the last row; then all rows are complete. */
    method Terminate(ghost screen: seq<string>)
      requires Typing(screen)
      modifies text
      ensures Typing(screen) && text[text_row, text_col] == NUL
      ensures forall k {:trigger Slot(text_row, k, text_rows)} :: 0 <= k < text_rows ==>
        Row(Slot(text_row, k, text_rows), screen[k])
    {
      text[text_row, text_col] := NUL;
      forall k | 0 <= k < text_rows ensures Row(Slot(text_row, k, text_rows), screen[k]) {
        SlotNext(text_row, k, text_rows);
      }
    }

    /** Line 1133. */
    method Put(c: char, ghost screen: seq<string>)
      requires Typing(screen) && text_col < text_cols && c != NUL
      modifies this`text_col, text
      ensures Typing(screen[..text_rows - 1] + [screen[text_rows - 1] + [c]])
    {
      ghost var row, rows := text_row, text_rows;
      text[text_row, text_col] := c;
      text_col := text_col + 1;
      ghost var screen' := screen[..rows - 1] + [screen[rows - 1] + [c]];
      forall k | 0 <= k < rows - 1 ensures Row(Slot(row, k, rows), screen'[k]) {
        SlotNext(row, k, rows);
        assert screen'[k] == screen[k];
      }
    }

    /** A character that does not fit starts a new row. */
    method PutWrapped(c: char, ghost screen: seq<string>)
      requires Typing(screen) && c != NUL
      modifies this`text_col, this`text_row, this`text_top, text
      ensures Typing(screen[1..] + [[c]])
    {
      NewLine(screen);
      ghost var next := screen[1..] + [""];
      Put(c, next);
      assert next[text_rows - 1] == "" && "" + [c] == [c] && next[..text_rows - 1] == screen[1..];
      assert next[..text_rows - 1] + [next[text_rows - 1] + [c]] == screen[1..] + [[c]];
    }

    /** The loop body of `vui_print_to`. */
    method PutChar(c: char, ghost screen: seq<string>, ghost next: seq<string>)
      requires Typing(screen) && c != NUL && next == Scroll(screen, c, text_cols)
      modifies this`text_col, this`text_row, this`text_top, text
      ensures Typing(next)
    {
      assert text_col == |screen[text_rows - 1]| && |screen| == text_rows;
      if c == '\n' {
        assert next == screen[1..] + [""] by { ScrollCases(screen, c, text_cols); }
        NewLine(screen);
      } else if text_col >= text_cols {
        assert next == screen[1..] + [[c]] by { ScrollCases(screen, c, text_cols); }
        PutWrapped(c, screen);
      } else {
        assert next == screen[..text_rows - 1] + [screen[text_rows - 1] + [c]] by { ScrollCases(screen, c, text_cols); }
        Put(c, screen);
      }
    }

    /** The ring holds the screen for everything printed so far, up to its last NUL. */
    ghost predicate Current()
      reads this, text
    {
      Shape() && Active() && NUL !in printed && Typing(Screen(printed, text_cols, text_rows))
    }

    method PrintChar(c: char)
      requires Current() && c != NUL
      modifies this`text_col, this`text_row, this`text_top, this`printed, text
      ensures Current() && printed == old(printed) + [c]
    {
      ghost var screen := Screen(printed, text_cols, text_rows);
      ghost var next := Screen(printed + [c], text_cols, text_rows);
      assert next == Scroll(screen, c, text_cols) by {
        ScreenType(printed, c, text_cols, text_rows);
      }
      PutChar(c, screen, next);
      printed := printed + [c];
    }

    method PrintAll(buf: string)
      requires Current() && NUL !in buf
      modifies this`text_col, this`text_row, this`text_top, this`printed, text
      ensures Current() && printed == old(printed) + buf && text[text_row, text_col] == NUL
    {
      for i := 0 to |buf|
        invariant Current() && printed == old(printed) + buf[..i]
      {
        PrintChar(buf[i]);
      }
      Terminate(Screen(printed, text_cols, text_rows));
    }

    /** `vui_print_to`, for an already formatted message. */
    method Print(message: string)
      requires Valid() && NUL !in message
      modifies this`text_col, this`text_row, this`text_top, this`printed, text
      ensures Valid()
      ensures printed == old(printed) + Kept(message)
    {
      var buf := Kept(message);
      if text_rows > 0 && text_cols > 0 {
        PrintAll(buf);
      } else {
        printed := printed + buf;
      }
    }

    /** The row that `draw_logs` draws at position k. */
    method Drawn(k: nat) returns (s: string)
      requires Valid() && Active() && k < text_rows
      ensures s == Screen(printed, text_cols, text_rows)[k]
    {
      ghost var screen := Screen(printed, text_cols, text_rows);
      ModSmall(k + text_top, text_rows);
      var r := (k + text_top) % text_rows;
      s := "";
      var j := 0;
      assert r == Slot(text_row, k, text_rows);
      SlotNext(text_row, k, text_rows);
      assert Row(r, screen[k]);
      while text[r, j] != NUL
        invariant j <= |screen[k]| && s == screen[k][..j]
        decreases |screen[k]| - j
      {
        s := s + [text[r, j]];
        j := j + 1;
      }
    }
  }

  /** What a message of any length leaves in the buffer. */
  function Kept(message: string): string {
    if |message| <= BUFFER then message else message[..BUFFER]
  }

  lemma EmptyScreen(cols: nat, rows: nat)
    requires cols > 0 && rows > 0
    ensures Screen("", cols, rows) == Blank(rows)
  {
    assert AllPieces([""], cols) == AllPieces([], cols) + Pieces("", cols) by { assert [""][..0] == []; }
  }

  /** Printing a message in two parts is printing it at once, unless a part is cut differently. */
  lemma SplitMessage(a: string, b: string)
    ensures Kept(a) + Kept(b) == Kept(a + b) <==> a == "" || b == "" || |a| + |b| <= BUFFER
  {
    if a == "" {
      assert a + b == b && Kept(a) + Kept(b) == Kept(b);
    } else if b == "" {
      assert a + b == a && Kept(a) + Kept(b) == Kept(a);
    } else if |a| + |b| > BUFFER {
      assert |Kept(a + b)| == BUFFER && |Kept(a) + Kept(b)| > BUFFER;
    }
  }

  // ---------- lines and messages

  function Unsplit(lines: seq<string>): string
    requires lines != []
  {
    if |lines| == 1 then lines[0] else Unsplit(lines[..|lines| - 1]) + "\n" + lines[|lines| - 1]
  }

  /** The lines of a text are what lies between its newlines. */
  lemma {:induction false} SplitExactly(s: string)
    ensures Unsplit(Split(s)) == s && forall k :: 0 <= k < |Split(s)| ==> '\n' !in Split(s)[k]
  {
    if s != "" {
      var n := |s| - 1;
      var p, c := Split(s[..n]), s[n];
      SplitExactly(s[..n]);
      assert s == s[..n] + [c];
      if c == '\n' {
        NewLineStarts(p);
      } else {
        LastLineGrows(p, c);
      }
    }
  }

  lemma NewLineStarts(p: seq<string>)
    requires p != []
    ensures Unsplit(p + [""]) == Unsplit(p) + "\n"
  {
    assert (p + [""])[..|p|] == p;
    assert Unsplit(p) + "\n" + "" == Unsplit(p) + "\n";
  }

  lemma LastLineGrows(p: seq<string>, c: char)
    requires p != []
    ensures Unsplit(p[..|p| - 1] + [p[|p| - 1] + [c]]) == Unsplit(p) + [c]
  {
    var m := |p| - 1;
    var q := p[..m] + [p[m] + [c]];
    assert q[..m] == p[..m];
  }

  /** A line behind a text. */
  lemma {:induction false} SplitAppend(s: string, t: string)
    requires '\n' !in t
    ensures Split(s + "\n" + t) == Split(s) + [t]
    decreases |t|
  {
    if t == "" {
      assert (s + "\n" + t)[..|s|] == s;
    } else {
      var n := |t| - 1;
      SplitAppend(s, t[..n]);
      assert (s + "\n" + t)[..|s| + 1 + n] == s + "\n" + t[..n];
      var p := Split(s) + [t[..n]];
      assert p[..|p| - 1] == Split(s) && p[|p| - 1] + [t[n]] == t;
    }
  }

  /** A message loses nothing but what is behind its first 512 characters. */
  lemma KeptExactly(message: string)
    ensures Kept(message) <= message && |Kept(message)| == Min(|message|, 512)
  {
  }
}
