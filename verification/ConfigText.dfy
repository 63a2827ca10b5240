/** The text of a configuration file (config.c). */
module ConfigText {
  import opened Wrappers
  import opened CString

  /*
   `write_conf` prints one `key=value` line per entry, `init_conf` loads the lines into the store
   and `get_conf_ro_from` looks a key up while reading.
   */

  const KEY_MAX_LENGTH: nat := 96
  const VALUE_MAX_LENGTH: nat := 96
  const LINE_BUFFER: nat := KEY_MAX_LENGTH + VALUE_MAX_LENGTH + 3

  datatype Entry = Entry(key: string, value: string)

  // ---------- the store as a value: entries in list order

  predicate HasKey(store: seq<Entry>, key: string) {
    exists i :: 0 <= i < |store| && store[i].key == key
  }

  /** What `read_conf` finds: the first entry with the key. */
  function Lookup(store: seq<Entry>, key: string): (r: Option<string>)
    ensures r.Some? <==> HasKey(store, key)
  {
    if store == [] then None
    else if store[0].key == key then Some(store[0].value)
    else
      assert HasKey(store[1..], key) ==> HasKey(store, key) by {
        if HasKey(store[1..], key) {
          var i :| 0 <= i < |store[1..]| && store[1..][i].key == key;
          assert store[i + 1].key == key;
        }
      }
      assert HasKey(store, key) ==> HasKey(store[1..], key) by {
        if HasKey(store, key) {
          var i :| 0 <= i < |store| && store[i].key == key;
          assert store[1..][i - 1].key == key;
        }
      }
      Lookup(store[1..], key)
  }

  predicate UniqueKeys(store: seq<Entry>) {
    forall i, j :: 0 <= i < j < |store| ==> store[i].key != store[j].key
  }

  // ---------- printing

  function PrintEntry(e: Entry): string {
    e.key + "=" + e.value + "\n"
  }

  function Print(store: seq<Entry>): string {
    if store == [] then "" else PrintEntry(store[0]) + Print(store[1..])
  }

  // ---------- loading

  /** One `fgets` buffer: the entry it sets, if it is one. */
  function ParseLine(r: string): Option<Entry> {
    if r == "" || r[0] == '#' then None
    else
      var eq := IndexOf(r, '=');
      if eq == |r| then None
      else
        var end := if r[|r| - 1] == '\n' then |r| - 1 else |r|;
        var e := Entry(r[..eq], r[eq + 1..end]);
        if |e.key| < KEY_MAX_LENGTH && |e.value| < VALUE_MAX_LENGTH then Some(e) else None
  }

  /** A loaded line changes the store only if its key is new. */
  function Add(store: seq<Entry>, line: Option<Entry>): seq<Entry> {
    if line.Some? && !HasKey(store, line.value.key) then store + [line.value] else store
  }

  /** The `fgets` loop of `init_conf`, continuing from `store`. */
  function Load(text: string, store: seq<Entry>): seq<Entry>
    decreases |text|
  {
    if text == "" then store
    else
      var n := FgetsLength(text, LINE_BUFFER);
      Load(text[n..], Add(store, ParseLine(CStr(text[..n]))))
  }

  function Parse(text: string): seq<Entry> {
    Load(text, [])
  }

  /** The `fgets` loop of `get_conf_ro_from`. */
  function Scan(text: string, key: string): Option<string>
    decreases |text|
  {
    if text == "" then None
    else
      var n := FgetsLength(text, LINE_BUFFER);
      var line := ParseLine(CStr(text[..n]));
      if line.Some? && line.value.key == key then Some(line.value.value) else Scan(text[n..], key)
  }

  // ---------- what the parser can produce

  /** An entry that survives a round trip through the file. */
  predicate GoodEntry(e: Entry) {
    && |e.key| < KEY_MAX_LENGTH && |e.value| < VALUE_MAX_LENGTH
    && '=' !in e.key && '\n' !in e.key && NUL !in e.key
    && (e.key != "" ==> e.key[0] != '#')
    && '\n' !in e.value && NUL !in e.value
  }

  predicate Printable(store: seq<Entry>) {
    && UniqueKeys(store)
    && forall i :: 0 <= i < |store| ==> GoodEntry(store[i])
  }

  lemma ParseLineGood(r: string)
    requires NUL !in r
    requires r != "" ==> '\n' !in r[..|r| - 1]
    ensures ParseLine(r).Some? ==> GoodEntry(ParseLine(r).value)
  {
    if ParseLine(r).Some? {
      var eq := IndexOf(r, '=');
      var end := if r[|r| - 1] == '\n' then |r| - 1 else |r|;
      assert forall k :: 0 <= k < |r| - 1 ==> r[..|r| - 1][k] == r[k] != '\n';
      assert eq < |r|;
    }
  }

  lemma AddPrintable(store: seq<Entry>, line: Option<Entry>)
    requires Printable(store) && (line.Some? ==> GoodEntry(line.value))
    ensures Printable(Add(store, line))
  {
  }

  lemma ChunkGood(text: string)
    requires text != ""
    ensures var line := ParseLine(CStr(text[..FgetsLength(text, LINE_BUFFER)]));
            line.Some? ==> GoodEntry(line.value)
  {
    var n := FgetsLength(text, LINE_BUFFER);
    var r := CStr(text[..n]);
    if r != "" {
      assert forall k :: 0 <= k < |r| - 1 ==> r[k] == text[..n - 1][k];
    }
    ParseLineGood(r);
  }

  /** Loading keeps a printable store printable. */
  lemma {:induction false} LoadPrintable(text: string, store: seq<Entry>)
    requires Printable(store)
    ensures Printable(Load(text, store))
    decreases |text|
  {
    if text != "" {
      var n := FgetsLength(text, LINE_BUFFER);
      ChunkGood(text);
      AddPrintable(store, ParseLine(CStr(text[..n])));
      LoadPrintable(text[n..], Add(store, ParseLine(CStr(text[..n]))));
    }
  }

  // ---------- printing, then loading

  /** The printed line of a good entry is read back whole, by one `fgets`, as that entry. */
  lemma PrintedLine(e: Entry, rest: string)
    requires GoodEntry(e)
    ensures FgetsLength(PrintEntry(e) + rest, LINE_BUFFER) == |PrintEntry(e)|
    ensures ParseLine(CStr(PrintEntry(e))) == Some(e)
  {
    var r := PrintEntry(e);
    var text := r + rest;
    assert text[..|r| - 1] == e.key + "=" + e.value;
    FgetsLengthUnique(text, LINE_BUFFER, |r|);
    CStrWhole(r);
    assert r[|e.key|] == '=';
    assert forall k :: 0 <= k < |e.key| ==> r[k] == e.key[k];
    IndexOfUnique(r, '=', |e.key|);
    assert r[..|e.key|] == e.key;
    assert r[|e.key| + 1..|r| - 1] == e.value;
  }

  lemma {:induction false} LoadPrint(done: seq<Entry>, todo: seq<Entry>)
    requires Printable(done + todo)
    ensures Load(Print(todo), done) == done + todo
    decreases |todo|
  {
    if todo == [] {
      assert done + todo == done;
    } else {
      var e, rest := todo[0], todo[1..];
      assert (done + todo)[|done|] == e;
      var text := Print(todo);
      var n := |PrintEntry(e)|;
      PrintedLine(e, Print(rest));
      assert text[..n] == PrintEntry(e) && text[n..] == Print(rest);
      assert !HasKey(done, e.key) by {
        forall i | 0 <= i < |done| ensures done[i].key != e.key {
          assert (done + todo)[i].key != (done + todo)[|done|].key;
        }
      }
      assert done + [e] + rest == done + todo;
      LoadPrint(done + [e], rest);
    }
  }

  /** `init_conf` rebuilds exactly the stores that are printable, and no others. */
  lemma ParsePrint(store: seq<Entry>)
    ensures Parse(Print(store)) == store <==> Printable(store)
  {
    if Printable(store) {
      assert [] + store == store;
      LoadPrint([], store);
    }
    if Parse(Print(store)) == store {
      LoadPrintable(Print(store), []);
    }
  }

  /** Saving what was loaded from any file, and loading that, changes nothing. */
  lemma ParsePrintParse(text: string)
    ensures Parse(Print(Parse(text))) == Parse(text)
  {
    LoadPrintable(text, []);
    ParsePrint(Parse(text));
  }

  // ---------- the two readers agree

  lemma LookupAppend(store: seq<Entry>, e: Entry, key: string)
    ensures Lookup(store + [e], key)
         == if HasKey(store, key) then Lookup(store, key) else if e.key == key then Some(e.value) else None
  {
    if store == [] {
      assert store + [e] == [e];
      assert [e][0].key == e.key;
    } else {
      assert (store + [e])[1..] == store[1..] + [e];
      LookupAppend(store[1..], e, key);
    }
  }

  lemma {:induction false} ScanIsLoad(text: string, store: seq<Entry>, key: string)
    ensures Lookup(Load(text, store), key)
         == if HasKey(store, key) then Lookup(store, key) else Scan(text, key)
    decreases |text|
  {
    if text != "" {
      var n := FgetsLength(text, LINE_BUFFER);
      var line := ParseLine(CStr(text[..n]));
      ScanIsLoad(text[n..], Add(store, line), key);
      if line.Some? {
        LookupAppend(store, line.value, key);
      }
    }
  }

  /** For every file and key, streaming lookup is loading and then searching. */
  lemma ScanIsParse(text: string, key: string)
    ensures Scan(text, key) == Lookup(Parse(text), key)
  {
    ScanIsLoad(text, [], key);
  }

  // ---------- concatenated files

  /** Entries of `store` whose key is not in `base`. */
  function Missing(base: seq<Entry>, store: seq<Entry>): seq<Entry> {
    if store == [] then []
    else (if HasKey(base, store[0].key) then [] else [store[0]]) + Missing(base, store[1..])
  }

  lemma {:induction false} MissingAppend(base: seq<Entry>, store: seq<Entry>, e: Entry)
    ensures Missing(base, store + [e])
         == Missing(base, store) + if HasKey(base, e.key) then [] else [e]
  {
    if store == [] {
      assert store + [e] == [e];
    } else {
      var first := if HasKey(base, store[0].key) then [] else [store[0]];
      var rest, last := Missing(base, store[1..]), if HasKey(base, e.key) then [] else [e];
      assert (store + [e])[1..] == store[1..] + [e] && (store + [e])[0] == store[0];
      MissingAppend(base, store[1..], e);
      assert Missing(base, store + [e]) == first + (rest + last);
      assert first + (rest + last) == first + rest + last;
    }
  }

  lemma {:induction false} MissingKeys(base: seq<Entry>, store: seq<Entry>, key: string)
    ensures HasKey(base + Missing(base, store), key) <==> HasKey(base, key) || HasKey(store, key)
    decreases |store|
  {
    var m := base + Missing(base, store);
    assert HasKey(base, key) ==> HasKey(m, key) by {
      if HasKey(base, key) {
        var i :| 0 <= i < |base| && base[i].key == key;
        assert m[i].key == key;
      }
    }
    if store == [] {
      assert m == base;
    } else {
      MissingKeys(base, store[1..], key);
      HasKeySplit(base, Missing(base, store), key);
      HasKeySplit(base, Missing(base, store[1..]), key);
      HasKeySplit([store[0]], store[1..], key);
      assert store == [store[0]] + store[1..];
      HasKeySplit([store[0]], Missing(base, store[1..]), key);
      assert HasKey([store[0]], key) <==> store[0].key == key by { assert [store[0]][0] == store[0]; }
      assert [] + Missing(base, store[1..]) == Missing(base, store[1..]);
    }
  }

  lemma HasKeySplit(a: seq<Entry>, b: seq<Entry>, key: string)
    ensures HasKey(a + b, key) <==> HasKey(a, key) || HasKey(b, key)
  {
    if HasKey(a, key) {
      var i :| 0 <= i < |a| && a[i].key == key;
      assert (a + b)[i].key == key;
    }
    if HasKey(b, key) {
      var i :| 0 <= i < |b| && b[i].key == key;
      assert (a + b)[|a| + i].key == key;
    }
    if HasKey(a + b, key) {
      var i :| 0 <= i < |a + b| && (a + b)[i].key == key;
      assert if i < |a| then a[i].key == key else b[i - |a|].key == key;
    }
  }

  lemma AddOnto(base: seq<Entry>, store: seq<Entry>, line: Option<Entry>)
    ensures Add(base + Missing(base, store), line) == base + Missing(base, Add(store, line))
  {
    if line.Some? {
      MissingKeys(base, store, line.value.key);
      MissingAppend(base, store, line.value);
    }
  }

  /** Loading on top of a store adds exactly the entries the file has and the store lacks. */
  lemma {:induction false} LoadOnto(base: seq<Entry>, text: string, store: seq<Entry>)
    ensures Load(text, base + Missing(base, store)) == base + Missing(base, Load(text, store))
    decreases |text|
  {
    if text != "" {
      var n := FgetsLength(text, LINE_BUFFER);
      var line := ParseLine(CStr(text[..n]));
      AddOnto(base, store, line);
      LoadOnto(base, text[n..], Add(store, line));
    }
  }

  /** A newline ends both the last line of `a` and the last chunk, so `b` starts afresh. */
  lemma {:induction false} LoadConcat(a: string, b: string, store: seq<Entry>)
    requires a == "" || a[|a| - 1] == '\n'
    ensures Load(a + b, store) == Load(b, Load(a, store))
    decreases |a|
  {
    if a == "" {
      assert a + b == b;
    } else {
      var n := FgetsLength(a, LINE_BUFFER);
      assert (a + b)[..n - 1] == a[..n - 1] && (a + b)[n - 1] == a[n - 1];
      FgetsLengthUnique(a + b, LINE_BUFFER, n);
      assert (a + b)[..n] == a[..n];
      assert (a + b)[n..] == a[n..] + b;
      LoadConcat(a[n..], b, Add(store, ParseLine(CStr(a[..n]))));
    }
  }

  /**
   The upgrade concatenates the shipped file `a` and the user's file `b`: the result is
   `a`'s store followed by those entries of `b` whose keys `a` does not set.
   */
  lemma ParseConcat(a: string, b: string)
    requires a == "" || a[|a| - 1] == '\n'
    ensures Parse(a + b) == Parse(a) + Missing(Parse(a), Parse(b))
  {
    LoadConcat(a, b, []);
    LoadOnto(Parse(a), b, []);
    assert Parse(a) + Missing(Parse(a), []) == Parse(a);
  }

  // ---------- set_conf, as a function of the store

  function IndexOfKey(store: seq<Entry>, key: string): (i: nat)
    ensures i <= |store|
    ensures i < |store| ==> store[i].key == key
    ensures forall k :: 0 <= k < i ==> store[k].key != key
    ensures i < |store| <==> HasKey(store, key)
  {
    if store == [] then 0
    else if store[0].key == key then 0
    else
      var i := IndexOfKey(store[1..], key);
      assert forall k :: 1 <= k < |store| ==> store[k] == store[1..][k - 1];
      1 + i
  }

  /**
   `write_conf`: replace the first entry with the key, append a new entry, or remove
   (value None).  On an empty list the loop never runs, so nothing is added.
   */
  function Write(store: seq<Entry>, key: string, value: Option<string>): seq<Entry> {
    var i := IndexOfKey(store, key);
    match value
    case Some(v) =>
      if i < |store| then store[i := Entry(key, v)]
      else if store == [] then []
      else store + [Entry(key, v)]
    case None => if i < |store| then store[..i] + store[i + 1..] else store
  }

  /** `write_conf` returns 1 exactly when a value was stored, so 0 also for a removal. */
  predicate WriteFound(store: seq<Entry>, value: Option<string>) {
    value.Some? && store != []
  }

  lemma LookupAt(store: seq<Entry>, i: nat)
    requires i < |store|
    requires forall k :: 0 <= k < i ==> store[k].key != store[i].key
    ensures Lookup(store, store[i].key) == Some(store[i].value)
  {
    if i > 0 {
      LookupAt(store[1..], i - 1);
    }
  }

  /** Setting a key makes it readable with that value if and only if the store was not empty. */
  lemma SetThenGet(store: seq<Entry>, key: string, v: string)
    ensures Lookup(Write(store, key, Some(v)), key) == Some(v) <==> store != []
  {
    var i := IndexOfKey(store, key);
    if store != [] {
      LookupAt(Write(store, key, Some(v)), i);
    }
  }

  /** Removing a key from a store without duplicates removes it. */
  lemma RemoveThenGet(store: seq<Entry>, key: string)
    requires UniqueKeys(store)
    ensures Lookup(Write(store, key, None), key) == None
  {
    var w := Write(store, key, None);
    var i := IndexOfKey(store, key);
    forall j | 0 <= j < |w| ensures w[j].key != key {
      assert w[j] == if j < i then store[j] else store[j + 1];
    }
  }

  /** Unless the first entry is the one, the edit happens behind it. */
  lemma WriteBehind(store: seq<Entry>, key: string, value: Option<string>)
    requires |store| > 1 && store[0].key != key
    ensures Write(store, key, value) == [store[0]] + Write(store[1..], key, value)
  {
    var first, rest := store[0], store[1..];
    var i := IndexOfKey(rest, key);
    assert store == [first] + rest && IndexOfKey(store, key) == i + 1;
    if i < |rest| {
      match value
      case Some(v) => assert store[i + 1 := Entry(key, v)] == [first] + rest[i := Entry(key, v)];
      case None => assert store[..i + 1] + store[i + 2..] == [first] + (rest[..i] + rest[i + 1..]);
    }
  }

  lemma LookupBehind(e: Entry, rest: seq<Entry>, key: string)
    ensures Lookup([e] + rest, key) == if e.key == key then Some(e.value) else Lookup(rest, key)
  {
    assert ([e] + rest)[1..] == rest;
  }

  /** All other keys read as before. */
  lemma {:induction false} WriteFrame(store: seq<Entry>, key: string, value: Option<string>, other: string)
    requires other != key
    ensures Lookup(Write(store, key, value), other) == Lookup(store, other)
  {
    if store != [] {
      var first, rest := store[0], store[1..];
      assert store == [first] + rest;
      LookupBehind(first, rest, other);
      if first.key != key && rest != [] {
        WriteBehind(store, key, value);
        WriteFrame(rest, key, value, other);
        LookupBehind(first, Write(rest, key, value), other);
      } else {
        WriteFrameFirst(store, key, value, other);
      }
    }
  }

  /** The edit concerns the first entry, or appends behind the only one. */
  lemma WriteFrameFirst(store: seq<Entry>, key: string, value: Option<string>, other: string)
    requires other != key && store != [] && (store[0].key == key || |store| == 1)
    ensures Lookup(Write(store, key, value), other) == Lookup(store, other)
  {
    var first, rest := store[0], store[1..];
    assert store == [first] + rest;
    LookupBehind(first, rest, other);
    if first.key == key {
      assert IndexOfKey(store, key) == 0;
      if value.Some? {
        assert Write(store, key, value) == [Entry(key, value.value)] + rest;
        LookupBehind(Entry(key, value.value), rest, other);
      } else {
        assert Write(store, key, value) == rest;
      }
    } else if value.Some? {
      assert Write(store, key, value) == store + [Entry(key, value.value)];
      LookupAppend(store, Entry(key, value.value), other);
    }
  }

  /** Uniqueness of keys is kept; so is printability, for a key and value that fit a line. */
  lemma WritePrintable(store: seq<Entry>, key: string, value: Option<string>)
    ensures UniqueKeys(store) ==> UniqueKeys(Write(store, key, value))
    ensures Printable(store) && (value.Some? ==> GoodEntry(Entry(key, value.value)))
        ==> Printable(Write(store, key, value))
  {
    var i := IndexOfKey(store, key);
    var w := Write(store, key, value);
    if value.None? && i < |store| {
      assert forall j :: 0 <= j < |w| ==> w[j] == store[if j < i then j else j + 1];
    }
  }

  /** A set value survives a restart: what is printed after it is loaded back with it. */
  lemma SetSurvivesReload(store: seq<Entry>, key: string, v: string)
    requires Printable(store) && store != [] && GoodEntry(Entry(key, v))
    ensures Scan(Print(Write(store, key, Some(v))), key) == Some(v)
    ensures Parse(Print(Write(store, key, Some(v)))) == Write(store, key, Some(v))
  {
    var w := Write(store, key, Some(v));
    WritePrintable(store, key, Some(v));
    ParsePrint(w);
    ScanIsParse(Print(w), key);
    SetThenGet(store, key, v);
  }

  // ---------- the editing loop of write_conf, between two iterations

  /**
   The loop before position i: the keys passed differ from `key`, and the list is as it
   was, or has just been extended by the element about to be visited, whose value is not
   yet set.
   */
  predicate Walking(before: seq<Entry>, now: seq<Entry>, key: string, value: Option<string>, i: nat) {
    && i <= |now|
    && (forall k :: 0 <= k < i && k < |before| ==> before[k].key != key)
    && (|| (now == before && (value.Some? && before != [] ==> i < |before|))
        || (&& value.Some? && i == |before| > 0 && |now| == |before| + 1
            && now[..i] == before && now[i].key == key))
  }

  /** Where the loop finds the key is where `Write` edits. */
  lemma WalkHit(before: seq<Entry>, now: seq<Entry>, key: string, value: Option<string>, i: nat)
    requires Walking(before, now, key, value, i) && i < |now| && now[i].key == key
    ensures match value
      case Some(v) => now[i := Entry(key, v)] == Write(before, key, value) && before != []
      case None => now[..i] + now[i + 1..] == Write(before, key, value)
  {
    var j := IndexOfKey(before, key);
    if now == before {
      assert j == i;
    } else {
      assert j == |before|;
      assert now[i := Entry(key, value.value)] == before + [Entry(key, value.value)];
    }
  }

  /** A miss: the loop goes on, on a list that may have got an element for the key. */
  lemma WalkOn(before: seq<Entry>, was: seq<Entry>, now: seq<Entry>, key: string, value: Option<string>,
               i: nat, e: Entry)
    requires Walking(before, was, key, value, i) && i < |was| && was[i].key != key && e.key == key
    requires now == if i + 1 == |was| && value.Some? then was + [e] else was
    ensures Walking(before, now, key, value, i + 1)
  {
  }

  /** When the loop runs off the end, there was nothing to edit. */
  lemma WalkMiss(before: seq<Entry>, now: seq<Entry>, key: string, value: Option<string>)
    requires Walking(before, now, key, value, |now|)
    ensures now == Write(before, key, value) && !WriteFound(before, value)
  {
  }

  // ---------- exactly which lines are entries

  /** Key and value around the first `=`, the last newline apart, neither too long, and no comment. */
  predicate IsLineOf(r: string, e: Entry) {
    && '=' !in e.key && (e.key != "" ==> e.key[0] != '#')
    && |e.key| < 96 && |e.value| < 96
    && (|| r == e.key + "=" + e.value + "\n"
        || (r == e.key + "=" + e.value && (e.value != "" ==> e.value[|e.value| - 1] != '\n')))
  }

  /** The first `=` ends the key, whatever the line goes on with. */
  lemma KeyFound(r: string, e: Entry, rest: string)
    requires '=' !in e.key && r == e.key + "=" + rest
    ensures IndexOf(r, '=') == |e.key| < |r| && r[..|e.key|] == e.key && r[|e.key| + 1..|r|] == rest
    ensures r[0] == if e.key == "" then '=' else e.key[0]
  {
    var k := |e.key|;
    assert r[k] == '=';
    assert forall j :: 0 <= j < k ==> r[j] == e.key[j];
    IndexOfUnique(r, '=', k);
    assert |r| == k + 1 + |rest|;
    assert forall j :: 0 <= j < |rest| ==> r[k + 1..|r|][j] == r[k + 1 + j] == rest[j];
  }

  lemma Parsed(r: string, e: Entry, end: nat)
    requires r != "" && r[0] != '#' && IndexOf(r, '=') == |e.key| < |r| && r[..|e.key|] == e.key
    requires end == (if r[|r| - 1] == '\n' then |r| - 1 else |r|) && |e.key| < end && r[|e.key| + 1..end] == e.value
    requires |e.key| < 96 && |e.value| < 96
    ensures ParseLine(r) == Some(e)
  {
  }

  lemma LineWithNewline(r: string, e: Entry)
    requires IsLineOf(r, e) && r == e.key + "=" + e.value + "\n"
    ensures ParseLine(r) == Some(e)
  {
    var rest := e.value + "\n";
    assert r == e.key + "=" + rest;
    KeyFound(r, e, rest);
    assert r[|e.key| + 1..|r| - 1] == r[|e.key| + 1..|r|][..|e.value|] == e.value;
    Parsed(r, e, |r| - 1);
  }

  lemma LineWithout(r: string, e: Entry)
    requires IsLineOf(r, e) && r == e.key + "=" + e.value && (e.value != "" ==> e.value[|e.value| - 1] != '\n')
    ensures ParseLine(r) == Some(e)
  {
    KeyFound(r, e, e.value);
    assert r[|r| - 1] == if e.value == "" then '=' else e.value[|e.value| - 1];
    Parsed(r, e, |r|);
  }

  lemma LineParts(r: string, e: Entry)
    requires IsLineOf(r, e)
    ensures ParseLine(r) == Some(e)
  {
    if r == e.key + "=" + e.value + "\n" {
      LineWithNewline(r, e);
    } else {
      LineWithout(r, e);
    }
  }

  lemma PartsOfLine(r: string, e: Entry)
    requires ParseLine(r) == Some(e)
    ensures IsLineOf(r, e)
  {
    var eq := IndexOf(r, '=');
    var end := if r[|r| - 1] == '\n' then |r| - 1 else |r|;
    assert r[..eq] == e.key && r[eq] == '=' && r[eq + 1..end] == e.value;
    assert r[..end] == r[..eq] + [r[eq]] + r[eq + 1..end];
    assert forall j :: 0 <= j < eq ==> e.key[j] == r[j] != '=';
    if end < |r| {
      assert r == r[..end] + "\n";
    } else {
      assert r[..end] == r;
      assert e.value != "" ==> e.value[|e.value| - 1] == r[|r| - 1];
    }
  }

  /** The lines that both readers take for the entry, and no others. */
  lemma ParseLineExactly(r: string, e: Entry)
    ensures ParseLine(r) == Some(e) <==> IsLineOf(r, e)
  {
    if IsLineOf(r, e) {
      LineParts(r, e);
    }
    if ParseLine(r) == Some(e) {
      PartsOfLine(r, e);
    }
  }

  /** A comment, or a line without `=`; it fits the buffer of one `fgets`. */
  predicate IdleLine(line: string) {
    && line != "" && line[|line| - 1] == '\n' && '\n' !in line[..|line| - 1]
    && |line| < LINE_BUFFER
    && (line[0] == '#' || '=' !in line)
  }

  /** Such a line is nobody's, wherever it stands between lines. */
  lemma IdleLineSkipped(a: string, line: string, b: string, store: seq<Entry>)
    requires IdleLine(line) && (a == "" || a[|a| - 1] == '\n')
    ensures Load(a + line + b, store) == Load(a + b, store)
  {
    assert a + line + b == a + (line + b);
    LoadConcat(a, line + b, store);
    LoadConcat(a, b, store);
    IdleLineFirst(line, b, Load(a, store));
  }

  lemma IdleLineFirst(line: string, b: string, store: seq<Entry>)
    requires IdleLine(line)
    ensures Load(line + b, store) == Load(b, store)
  {
    var rest := line + b;
    assert rest[..|line| - 1] == line[..|line| - 1] && rest[|line| - 1] == '\n';
    FgetsLengthUnique(rest, LINE_BUFFER, |line|);
    LoadChunk(line, b, store);
    IdleParses(line);
  }

  /** A chunk that one `fgets` takes. */
  lemma LoadChunk(chunk: string, b: string, store: seq<Entry>)
    requires chunk != "" && FgetsLength(chunk + b, LINE_BUFFER) == |chunk|
    ensures Load(chunk + b, store) == Load(b, Add(store, ParseLine(CStr(chunk))))
  {
    var text := chunk + b;
    assert text[..|chunk|] == chunk && text[|chunk|..] == b;
  }

  lemma IdleParses(line: string)
    requires line != "" && (line[0] == '#' || '=' !in line)
    ensures ParseLine(CStr(line)) == None
  {
    var r := CStr(line);
    if '=' !in line {
      assert '=' !in r;
    } else if r != "" {
      assert r[0] == line[0];
    }
  }

  function Concat(lines: seq<string>): string {
    if lines == [] then "" else lines[0] + Concat(lines[1..])
  }

  /** A file of such lines loads as nothing, and every key is unknown in it. */
  lemma {:induction false} IdleFile(lines: seq<string>, key: string)
    requires forall i :: 0 <= i < |lines| ==> IdleLine(lines[i])
    ensures Parse(Concat(lines)) == [] && Scan(Concat(lines), key) == None
  {
    if lines != [] {
      IdleFile(lines[1..], key);
      IdleLineFirst(lines[0], Concat(lines[1..]), []);
    }
    ScanIsParse(Concat(lines), key);
  }

  /** Commenting a line in or out, or adding such a line, changes nothing else in either reader. */
  lemma IdleLineChangesNothing(a: string, line: string, b: string, key: string)
    requires IdleLine(line) && (a == "" || a[|a| - 1] == '\n')
    ensures Parse(a + line + b) == Parse(a + b) && Scan(a + line + b, key) == Scan(a + b, key)
  {
    IdleLineSkipped(a, line, b, []);
    ScanIsParse(a + line + b, key);
    ScanIsParse(a + b, key);
  }

  /** A comment that fills the buffer ends there: what follows on the same line is read as a line. */
  lemma LongCommentLoads(c: string, rest: string, store: seq<Entry>)
    requires |c| == LINE_BUFFER - 1 && c[0] == '#' && '\n' !in c
    ensures Load(c + rest, store) == Load(rest, store)
  {
    var text := c + rest;
    assert text[..|c| - 1] == c[..|c| - 1];
    FgetsLengthUnique(text, LINE_BUFFER, |c|);
    LoadChunk(c, rest, store);
    IdleParses(c);
  }

  // ---------- what printing and writing do to the file

  /** Entries are printed independently, each as one line. */
  lemma {:induction false} PrintConcat(a: seq<Entry>, b: seq<Entry>)
    ensures Print(a + b) == Print(a) + Print(b)
  {
    if a == [] {
      assert a + b == b;
    } else {
      assert (a + b)[1..] == a[1..] + b;
      PrintConcat(a[1..], b);
      var first, rest := PrintEntry(a[0]), Print(a[1..]);
      assert Print(a + b) == first + (rest + Print(b));
      assert first + (rest + Print(b)) == first + rest + Print(b);
    }
  }

  lemma PrintOne(e: Entry)
    ensures Print([e]) == e.key + "=" + e.value + "\n"
  {
    assert [e][1..] == [];
  }

  function Keys(store: seq<Entry>): (k: seq<string>)
    ensures |k| == |store| && forall i :: 0 <= i < |store| ==> k[i] == store[i].key
  {
    seq(|store|, i requires 0 <= i < |store| => store[i].key)
  }

  /** Setting keeps the keys in their order, a new one at the end; removing takes out the one. */
  lemma WriteKeys(store: seq<Entry>, key: string, value: Option<string>)
    requires UniqueKeys(store)
    ensures var keys, after := Keys(store), Keys(Write(store, key, value));
      if value.Some? then after == keys || (key !in keys && store != [] && after == keys + [key])
      else if key in keys then exists i :: 0 <= i < |keys| && keys[i] == key && after == keys[..i] + keys[i + 1..]
      else after == keys
  {
    var i := IndexOfKey(store, key);
    var keys, after := Keys(store), Keys(Write(store, key, value));
    if i < |store| {
      assert keys[i] == key;
      if value.None? {
        assert after == keys[..i] + keys[i + 1..];
      }
    } else {
      assert key !in keys by {
        assert forall j :: 0 <= j < |keys| ==> keys[j] == store[j].key;
      }
    }
  }

  /** The result of `write_conf`: 1 exactly if a value was given and can be read now, never for a removal. */
  lemma FoundExactly(store: seq<Entry>, key: string, value: Option<string>)
    ensures WriteFound(store, value) <==> value.Some? && Lookup(Write(store, key, value), key) == value
  {
    if value.Some? {
      SetThenGet(store, key, value.value);
    }
  }
}
