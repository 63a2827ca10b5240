/** The configuration store in memory (config.c). */
module ConfigStore {
  import opened Wrappers
  import opened CString
  import opened ConfigText

  /*
   The store is a singly linked list behind a sentinel,
   edited while it is walked.  Each method is specified by the functions of ConfigText on
   the entries in list order.  The methods are what a thread does while it holds the lock.
   */

  class Confel {
    var key: string
    var value: string
    var next: Confel?

    constructor (key: string, value: string)
      ensures this.key == key && this.value == value && next == null
    {
      this.key := key;
      this.value := value;
      next := null;
    }
  }

  class Store {
    const first: Confel            // the sentinel
    ghost var spine: seq<Confel>   // the sentinel and the elements behind it, in order
    ghost var Contents: seq<Entry> // their entries

    ghost predicate Valid()
      reads this, spine
    {
      && |spine| == |Contents| + 1 && spine[0] == first
      && (forall i, j :: 0 <= i < j < |spine| ==> spine[i] != spine[j])
      && (forall i :: 0 <= i < |Contents| ==> spine[i].next == spine[i + 1])
      && spine[|Contents|].next == null
      && (forall i :: 0 < i < |spine| ==>
            spine[i].key == Contents[i - 1].key && spine[i].value == Contents[i - 1].value)
    }

    constructor ()
      ensures Valid() && fresh(spine) && Contents == []
    {
      first := new Confel("", "");
      new;
      spine := [first];
      Contents := [];
    }

    /** The search loop of `read_conf`. */
    method Read(key: string) returns (r: Option<string>)
      requires Valid()
      ensures r == Lookup(Contents, key)
    {
      var n := first.next;
      ghost var i := 1;
      while n != null
        invariant 1 <= i <= |spine|
        invariant n == if i < |spine| then spine[i] else null
        invariant Lookup(Contents, key) == Lookup(Contents[i - 1..], key)
        decreases |spine| - i
      {
        assert Contents[i - 1..][1..] == Contents[i..];
        if n.key == key {
          return Some(n.value);
        }
        n := n.next;
        i := i + 1;
      }
      return None;
    }

    /** strcpy into the value of the i-th element. */
    method SetValue(n: Confel, ghost i: nat, value: string)
      requires Valid() && i < |Contents| && n == spine[i + 1]
      modifies this`Contents, n`value
      ensures Valid()
      ensures Contents == old(Contents)[i := Entry(n.key, value)]
    {
      n.value := value;
      Contents := Contents[i := Entry(n.key, value)];
    }

    /** Takes the i-th element out of the list; `p` is the one before it. */
    method Unlink(p: Confel, n: Confel, ghost i: nat)
      requires Valid() && i < |Contents| && n == spine[i + 1] && p == spine[i]
      modifies this`spine, this`Contents, p`next
      ensures Valid() && spine == old(spine)[..i + 1] + old(spine)[i + 2..]
      ensures Contents == old(Contents)[..i] + old(Contents)[i + 1..]
    {
      p.next := n.next;
      spine := spine[..i + 1] + spine[i + 2..];
      Contents := Contents[..i] + Contents[i + 1..];
    }

    /** Adds an element behind the last one, which may be the sentinel. */
    method Append(last: Confel, key: string, value: string) returns (e: Confel)
      requires Valid() && last == spine[|Contents|]
      modifies this`spine, this`Contents, last`next
      ensures Valid() && fresh(e) && spine == old(spine) + [e]
      ensures Contents == old(Contents) + [Entry(key, value)]
    {
      e := new Confel(key, value);
      last.next := e;
      spine := spine + [e];
      Contents := Contents + [Entry(key, value)];
    }

    /** The key is found: its element is changed, or taken out. */
    method EditHit(p: Confel, n: Confel, ghost i: nat, key: string, value: Option<string>, ghost before: seq<Entry>)
      returns (found: bool)
      requires Valid() && i < |Contents| && n == spine[i + 1] && p == spine[i] && n.key == key
      requires Walking(before, Contents, key, value, i)
      modifies this`spine, this`Contents, p`next, n`value
      ensures Valid() && forall k :: 0 <= k < |spine| ==> spine[k] in old(spine)
      ensures Contents == ConfigText.Write(before, key, value) && found == WriteFound(before, value)
    {
      WalkHit(before, Contents, key, value, i);
      if value.Some? {
        SetValue(n, i, value.value);
        found := true;
      } else {
        Unlink(p, n, i);
        found := false;
      }
    }

    /** The key is not here: behind the last element one is added, whose value is not yet set. */
    method EditMiss(n: Confel, ghost i: nat, key: string, value: Option<string>, ghost before: seq<Entry>)
      requires Valid() && i < |Contents| && n == spine[i + 1] && n.key != key
      requires Walking(before, Contents, key, value, i)
      modifies this`spine, this`Contents, n`next
      ensures Valid() && Walking(before, Contents, key, value, i + 1)
      ensures old(spine) <= spine && forall k :: |old(spine)| <= k < |spine| ==> fresh(spine[k])
    {
      ghost var was := Contents;
      var uninitialised: string := *;
      assert i + 2 < |spine| ==> n.next == spine[i + 2];
      if n.next == null {
        if value.Some? {
          var e := Append(n, key, uninitialised);
        }
      }
      WalkOn(before, was, Contents, key, value, i, Entry(key, uninitialised));
    }

    /** The editing loop: it may extend the list it is walking, or unlink an element. */
    method Edit(key: string, value: Option<string>) returns (found: bool)
      requires Valid()
      modifies this, spine
      ensures Valid() && forall k :: 0 <= k < |spine| ==> spine[k] in old(spine) || fresh(spine[k])
      ensures Contents == ConfigText.Write(old(Contents), key, value)
      ensures found == WriteFound(old(Contents), value)
    {
      ghost var before := Contents;
      var n := first.next;
      var p := first;
      ghost var i := 0;
      while n != null
        invariant 0 <= i <= |Contents| && Valid()
        invariant n == if i < |Contents| then spine[i + 1] else null
        invariant p == spine[i]
        invariant forall k :: 0 <= k < |spine| ==> spine[k] in old(spine) || fresh(spine[k])
        invariant Walking(before, Contents, key, value, i)
        decreases |before| + 1 - i
      {
        if n.key == key {
          found := EditHit(p, n, i, key, value, before);
          return;
        }
        EditMiss(n, i, key, value, before);
        assert spine[i].next == spine[i + 1];
        assert i + 2 < |spine| ==> spine[i + 1].next == spine[i + 2];
        n := n.next;
        p := p.next;
        i := i + 1;
      }
      WalkMiss(before, Contents, key, value);
      found := false;
    }

    /**
     `write_conf`: the list edit, then the rewrite of CONFIG_SYSTEM when that file exists
     and can be opened.
     */
    method Write(key: string, value: Option<string>, file: Option<string>, canOpen: bool)
      returns (found: bool, file': Option<string>)
      requires Valid()
      requires |key| < KEY_MAX_LENGTH && (value.Some? ==> |value.value| < VALUE_MAX_LENGTH)
      modifies this, spine
      ensures Valid() && forall k :: 0 <= k < |spine| ==> spine[k] in old(spine) || fresh(spine[k])
      ensures Contents == ConfigText.Write(old(Contents), key, value)
      ensures found == WriteFound(old(Contents), value)
      ensures file' == if file.Some? && canOpen then Some(Print(Contents)) else file
    {
      found := Edit(key, value);
      file' := file;
      if file.Some? && canOpen {
        var text := PrintAll();
        file' := Some(text);
      }
    }

    /** The printing loop of `write_conf`. */
    method PrintAll() returns (text: string)
      requires Valid()
      ensures text == Print(Contents)
    {
      text := "";
      var n := first.next;
      ghost var i := 1;
      while n != null
        invariant 1 <= i <= |spine|
        invariant n == if i < |spine| then spine[i] else null
        invariant text + Print(Contents[i - 1..]) == Print(Contents)
        decreases |spine| - i
      {
        assert Contents[i - 1..][1..] == Contents[i..];
        text := text + (n.key + "=" + n.value + "\n");
        n := n.next;
        i := i + 1;
      }
    }

    /** `init_conf` on the text of CONFIG_SYSTEM (None: the file cannot be opened). */
    method Init(file: Option<string>) returns (found: nat)
      requires Valid()
      modifies this, first
      ensures Valid() && forall e :: e in spine ==> e == first || fresh(e)
      ensures Contents == if file.Some? then Parse(file.value) else []
      ensures found == |Contents|
    {
      first.next := null;
      spine := [first];
      Contents := [];
      found := 0;
      if file.Some? {
        found := LoadAll(file.value);
      }
    }

    /** The loading loop of `init_conf`, on an empty list. */
    method LoadAll(text: string) returns (found: nat)
      requires Valid() && Contents == []
      modifies this`spine, this`Contents, first
      ensures Valid() && forall e :: e in spine ==> e == first || fresh(e)
      ensures Contents == Parse(text)
      ensures found == |Contents|
    {
      found := 0;
      var n := first;
      var rest := text;
      while rest != ""
        invariant Valid() && n == spine[|Contents|] && found == |Contents|
        invariant forall e :: e in spine ==> e == first || fresh(e)
        invariant Load(rest, Contents) == Parse(text)
        decreases |rest|
      {
        assert n in spine;
        var length := FgetsLength(rest, LINE_BUFFER);
        var line := ParseLine(CStr(rest[..length]));
        n, found := AddLine(n, found, line);
        rest := rest[length..];
      }
    }

    /** The body of the loading loop: `n` is the last element. */
    method AddLine(n: Confel, found: nat, line: Option<Entry>) returns (n': Confel, found': nat)
      requires Valid() && n == spine[|Contents|] && found == |Contents|
      modifies this`spine, this`Contents, n`next
      ensures Valid() && n' == spine[|Contents|] && found' == |Contents|
      ensures forall e :: e in spine ==> e in old(spine) || fresh(e)
      ensures Contents == Add(old(Contents), line)
    {
      n', found' := n, found;
      if line.Some? {
        var known := Read(line.value.key);
        if known.None? {
          n' := Append(n, line.value.key, line.value.value);
          found' := found + 1;
        }
      }
    }
  }

  /** `get_conf_ro_from` on the text of a file (None: it cannot be opened). */
  method GetConfRoFrom(file: Option<string>, key: string) returns (r: Option<string>)
    ensures r == if file.Some? then Lookup(Parse(file.value), key) else None
  {
    r := None;
    if file.Some? {
      ScanIsParse(file.value, key);
      var rest := file.value;
      while rest != ""
        invariant Scan(rest, key) == Scan(file.value, key)
        decreases |rest|
      {
        var n := FgetsLength(rest, LINE_BUFFER);
        var line := ParseLine(CStr(rest[..n]));
        if line.Some? && line.value.key == key {
          return Some(line.value.value);
        }
        rest := rest[n..];
      }
    }
  }

  /** `get_conf`: the store, and behind it the read-only file. */
  method GetConf(store: Store, sbin: Option<string>, key: string) returns (r: Option<string>)
    requires store.Valid()
    ensures HasKey(store.Contents, key) ==> r == Lookup(store.Contents, key)
    ensures !HasKey(store.Contents, key) ==>
              r == if sbin.Some? then Lookup(Parse(sbin.value), key) else None
  {
    r := store.Read(key);
    if r.None? {
      r := GetConfRoFrom(sbin, key);
    }
  }
}
