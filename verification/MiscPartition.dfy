/** The misc partition (bootloader.c). */
module MiscPartition {
  import opened Wrappers
  import opened CString

  /*
   The control block occupies the second of three pages
   that are read, changed and written back together.  The copies to and from the page buffer
   are of the size of the message, whatever the size of a page; for small pages they reach into
   the memory behind the buffer, which is a parameter here.
   */

  const PAGES: nat := 3
  const COMMAND_PAGE: nat := 1
  const MESSAGE_SIZE: nat := 1088  // command[32], status[32], recovery[1024]

  /** The command page of the first three pages and what lies behind them, if they can be read. */
  function Message(bytes: seq<char>, page: nat, behind: seq<char>): Option<seq<char>>
    requires |behind| >= MESSAGE_SIZE
  {
    if |bytes| < PAGES * page then None
    else Some((bytes[..PAGES * page] + behind)[page..page + MESSAGE_SIZE])
  }

  /** Three pages with the part of the message that fits them. */
  function Put(pages: seq<char>, page: nat, message: seq<char>): (r: seq<char>)
    requires |pages| == PAGES * page
    ensures |r| == |pages|
  {
    var n := if |message| <= 2 * page then |message| else 2 * page;
    pages[..page] + message[..n] + pages[page + n..]
  }

  /**
   The partition after `data` is written from its start: whole erase blocks are replaced,
   and what `data` does not fill is zero.
   */
  function Written(bytes: seq<char>, data: seq<char>, padding: nat): seq<char>
    requires |data| + padding <= |bytes|
  {
    data + seq(padding, i => NUL) + bytes[|data| + padding..]
  }

  /** The page buffer and the memory behind it. */
  method ReadPages(bytes: seq<char>, size: nat, behind: seq<char>) returns (data: array<char>)
    requires size <= |bytes|
    ensures fresh(data) && data[..] == bytes[..size] + behind
  {
    var memory := bytes[..size] + behind;
    data := new char[|memory|](i requires 0 <= i < |memory| => memory[i]);
  }

  class Misc {
    const page: nat       // write_size
    const padding: nat    // from the end of the third page to the end of its erase block
    var bytes: seq<char>

    constructor (page: nat, padding: nat, bytes: seq<char>)
      ensures this.page == page && this.padding == padding && this.bytes == bytes
    {
      this.page, this.padding, this.bytes := page, padding, bytes;
    }

    /** `get_bootloader_message`; the partition may be missing or unreadable. */
    method Get(readable: bool, behind: seq<char>) returns (m: Option<seq<char>>)
      requires |behind| >= MESSAGE_SIZE
      ensures m == if readable then Message(bytes, page, behind) else None
    {
      if !readable || |bytes| < PAGES * page {
        return None;
      }
      var data := ReadPages(bytes, PAGES * page, behind);
      var at := page * COMMAND_PAGE;
      assert data[at..at + MESSAGE_SIZE] == data[..][at..at + MESSAGE_SIZE];
      m := Some(data[at..at + MESSAGE_SIZE]);
    }

    /** `set_bootloader_message`: read the pages, put the message in, write the pages. */
    method Set(message: seq<char>, readable: bool, writable: bool, behind: seq<char>) returns (ok: bool)
      requires |message| == MESSAGE_SIZE <= |behind|
      requires PAGES * page <= |bytes| ==> PAGES * page + padding <= |bytes|
      modifies this`bytes
      ensures ok <==> readable && writable && PAGES * page <= |bytes|
      ensures !ok ==> bytes == old(bytes)
      ensures ok ==>
        && |bytes| == |old(bytes)|
        && bytes[..PAGES * page] == Put(old(bytes)[..PAGES * page], page, message)
        && (forall i :: PAGES * page <= i < PAGES * page + padding ==> bytes[i] == NUL)
        && bytes[PAGES * page + padding..] == old(bytes)[PAGES * page + padding..]
    {
      if !readable || |bytes| < PAGES * page {
        return false;
      }
      var size, flash := PAGES * page, bytes;
      var data := ReadPages(flash, size, behind);
      CopyMessage(data, page * COMMAND_PAGE, message);
      if !writable {
        return false;
      }
      PutInPages(flash[..size], page, message, behind);
      bytes := Written(flash, data[..size], padding);
      assert bytes[..size] == data[..][..size];
      ok := true;
    }

    /** memcpy into the page buffer. */
    static method CopyMessage(data: array<char>, at: nat, message: seq<char>)
      requires at + |message| <= data.Length
      modifies data
      ensures data[..] == old(data[..])[..at] + message + old(data[..])[at + |message|..]
    {
      ghost var was := data[..];
      for i := 0 to |message|
        invariant data[..] == was[..at] + message[..i] + was[at + i..]
      {
        data[at + i] := message[i];
      }
    }
  }

  /** What a copy into the buffer and the memory behind it leaves in the buffer. */
  lemma PutInPages(pages: seq<char>, page: nat, message: seq<char>, behind: seq<char>)
    requires |pages| == PAGES * page && |message| <= |behind|
    ensures var memory := pages + behind;
      (memory[..page] + message + memory[page + |message|..])[..PAGES * page] == Put(pages, page, message)
  {
  }

  /**
   A message reads back after being set, whatever lies behind the buffer then, exactly when
   the two pages from the command page on have room for it or that memory happens to agree.
   */
  lemma ReadsBackExactly(pages: seq<char>, page: nat, message: seq<char>, behind: seq<char>)
    requires |pages| == PAGES * page && |message| == MESSAGE_SIZE <= |behind|
    ensures Message(Put(pages, page, message), page, behind) == Some(message) <==>
      MESSAGE_SIZE <= 2 * page || message[2 * page..] == behind[..MESSAGE_SIZE - 2 * page]
  {
    var memory := Put(pages, page, message) + behind;
    var read := memory[page..page + MESSAGE_SIZE];
    assert Put(pages, page, message)[..PAGES * page] + behind == memory;
    if MESSAGE_SIZE <= 2 * page {
      assert read == message;
    } else {
      assert read == message[..2 * page] + behind[..MESSAGE_SIZE - 2 * page];
      assert message == message[..2 * page] + message[2 * page..];
      assert read[2 * page..] == behind[..MESSAGE_SIZE - 2 * page];
    }
  }

  /** The page behind the command page is kept exactly when the message fits its page or agrees with it. */
  lemma NeighbourKept(pages: seq<char>, page: nat, message: seq<char>)
    requires |pages| == PAGES * page && |message| == MESSAGE_SIZE
    ensures var n := if MESSAGE_SIZE <= 2 * page then MESSAGE_SIZE else 2 * page;
      Put(pages, page, message)[2 * page..] == pages[2 * page..] <==>
        (MESSAGE_SIZE <= page || message[page..n] == pages[2 * page..page + n])
  {
    var n := if MESSAGE_SIZE <= 2 * page then MESSAGE_SIZE else 2 * page;
    var after := Put(pages, page, message);
    if MESSAGE_SIZE > page {
      var k := n - page;
      assert after[2 * page..] == message[page..n] + pages[2 * page..][k..];
      assert pages[2 * page..page + n] == pages[2 * page..][..k];
      assert after[2 * page..][..k] == message[page..n];
    } else {
      assert after[2 * page..] == pages[2 * page..];
    }
  }

  /** What the message does not cover of the pages is kept, and the message is in its place. */
  lemma PutExactly(pages: seq<char>, page: nat, message: seq<char>, i: nat)
    requires |pages| == PAGES * page && i < |pages|
    ensures Put(pages, page, message)[i] == if page <= i < page + |message| then message[i - page] else pages[i]
  {
  }
}
