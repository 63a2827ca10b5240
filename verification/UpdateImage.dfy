/** A firmware update on raw flash (bootloader.c). */
module UpdateImage {
  import opened Bytes

  /*
   `write_update_for_bootloader` writes a firmware image and two bitmaps to the raw cache
   partition, each on its own blocks, and the header that points at them last.  The flash driver
   is not part of this repository; class Mtd states its contract.
   */

  type Block = seq<byte>

  const HEADER_SIZE: nat := 60
  const MAGIC: seq<byte> := [77, 83, 77, 45, 82, 65, 68, 73, 79, 45, 85, 80, 68, 65, 84, 69]  // MSM-RADIO-UPDATE
  const VERSION: int := 0x0001_0000
  const LIMIT: int := 0x1_0000_0000

  // ---------- the header

  datatype Header = Header(
    size: int, imageOffset: int, imageLength: int,
    width: int, height: int, bpp: int,
    busyOffset: int, busyLength: int, failOffset: int, failLength: int)

  predicate U32(x: int) { 0 <= x < LIMIT }

  predicate GoodHeader(h: Header) {
    && U32(h.size) && U32(h.imageOffset) && U32(h.imageLength)
    && U32(h.width) && U32(h.height) && U32(h.bpp)
    && U32(h.busyOffset) && U32(h.busyLength) && U32(h.failOffset) && U32(h.failLength)
  }

  /** Little-endian, four bytes. */
  function PutWord(x: int): (b: seq<byte>)
    requires U32(x)
    ensures |b| == 4
  {
    [x % 256, x / 256 % 256, x / 256 / 256 % 256, x / 256 / 256 / 256]
  }

  function GetWord(b: seq<byte>, i: nat): (x: int)
    requires i + 4 <= |b|
    ensures U32(x)
  {
    (b[i] as int) + 256 * (b[i + 1] as int) + 65536 * (b[i + 2] as int) + 16777216 * (b[i + 3] as int)
  }

  /** The least significant byte comes first, as on the processors of these devices. */
  lemma LittleEndian(b0: byte, b1: byte, b2: byte, b3: byte)
    ensures var x := (b0 as int) + 256 * (b1 as int) + 65536 * (b2 as int) + 16777216 * (b3 as int);
      U32(x) && PutWord(x) == [b0, b1, b2, b3] && GetWord([b0, b1, b2, b3], 0) == x
  {
    var x := (b0 as int) + 256 * (b1 as int) + 65536 * (b2 as int) + 16777216 * (b3 as int);
    assert x / 256 == b1 as int + 256 * (b2 as int) + 65536 * (b3 as int);
    assert x / 256 / 256 == b2 as int + 256 * (b3 as int);
  }

  lemma WordRoundTrip(x: int, b: seq<byte>, i: nat)
    requires U32(x) && i + 4 <= |b| && b[i..i + 4] == PutWord(x)
    ensures GetWord(b, i) == x
  {
    var q1 := x / 256;
    var q2 := q1 / 256;
    assert x == x % 256 + 256 * q1 && q1 == q1 % 256 + 256 * q2 && q2 == q2 % 256 + 256 * (q2 / 256);
    var w := b[i..i + 4];
    assert b[i] == w[0] && b[i + 1] == w[1] && b[i + 2] == w[2] && b[i + 3] == w[3];
  }

  /** The eleven words behind the magic. */
  function Words(h: Header): seq<int> {
    [VERSION, h.size, h.imageOffset, h.imageLength, h.width, h.height, h.bpp,
     h.busyOffset, h.busyLength, h.failOffset, h.failLength]
  }

  function PutWords(ws: seq<int>): (b: seq<byte>)
    requires forall i :: 0 <= i < |ws| ==> U32(ws[i])
    ensures |b| == 4 * |ws|
  {
    if ws == [] then [] else PutWord(ws[0]) + PutWords(ws[1..])
  }

  lemma {:induction false} WordAt(ws: seq<int>, k: nat)
    requires (forall i :: 0 <= i < |ws| ==> U32(ws[i])) && k < |ws|
    ensures PutWords(ws)[4 * k..4 * k + 4] == PutWord(ws[k])
  {
    if k > 0 {
      WordAt(ws[1..], k - 1);
      var first, rest := PutWord(ws[0]), PutWords(ws[1..]);
      assert PutWords(ws) == first + rest;
      assert (first + rest)[4 * k..4 * k + 4] == rest[4 * (k - 1)..4 * (k - 1) + 4];
    }
  }

  function Encode(h: Header): (b: seq<byte>)
    requires GoodHeader(h)
    ensures |b| == HEADER_SIZE
  {
    MAGIC + PutWords(Words(h))
  }

  /** What the bootloader makes of the first block: no header without the magic. */
  predicate ValidHeader(b: seq<byte>) {
    |b| >= HEADER_SIZE && b[..16] == MAGIC
  }

  function Decode(b: seq<byte>): Header
    requires |b| >= HEADER_SIZE
  {
    Header(GetWord(b, 20), GetWord(b, 24), GetWord(b, 28), GetWord(b, 32), GetWord(b, 36),
           GetWord(b, 40), GetWord(b, 44), GetWord(b, 48), GetWord(b, 52), GetWord(b, 56))
  }

  lemma FieldAt(h: Header, b: seq<byte>, k: nat)
    requires GoodHeader(h) && Encode(h) <= b && k < 11
    ensures GetWord(b, 16 + 4 * k) == Words(h)[k]
  {
    WordAt(Words(h), k);
    var i := 16 + 4 * k;
    assert b[i..i + 4] == PutWords(Words(h))[4 * k..4 * k + 4];
    WordRoundTrip(Words(h)[k], b, i);
  }

  lemma HeaderRoundTrip(h: Header, b: seq<byte>)
    requires GoodHeader(h) && Encode(h) <= b
    ensures ValidHeader(b) && Decode(b) == h
  {
    assert b[..16] == Encode(h)[..16] == MAGIC;
    FieldAt(h, b, 1);
    FieldAt(h, b, 2);
    FieldAt(h, b, 3);
    FieldAt(h, b, 4);
    FieldAt(h, b, 5);
    FieldAt(h, b, 6);
    FieldAt(h, b, 7);
    FieldAt(h, b, 8);
    FieldAt(h, b, 9);
    FieldAt(h, b, 10);
  }

  lemma MagicText()
    ensures |MAGIC| == 16 && forall i :: 0 <= i < 16 ==> MAGIC[i] == "MSM-RADIO-UPDATE"[i] as int
  {
  }

  // ---------- reading flash, bad blocks skipped

  /** The bytes of the good blocks from `i` up to, not including, `j`. */
  function Between(blocks: seq<Block>, bad: set<nat>, i: nat, j: nat): seq<byte>
    requires i <= j <= |blocks|
    decreases j
  {
    if i == j then []
    else Between(blocks, bad, i, j - 1) + if j - 1 in bad then [] else blocks[j - 1]
  }

  lemma {:induction false} BetweenSame(a: seq<Block>, b: seq<Block>, bad: set<nat>, i: nat, j: nat)
    requires i <= j <= |a| && j <= |b|
    requires a[..j] == b[..j] || forall k :: i <= k < j ==> a[k] == b[k]
    ensures Between(a, bad, i, j) == Between(b, bad, i, j)
    decreases j
  {
    if i < j {
      if a[..j] == b[..j] {
        assert a[..j][..j - 1] == a[..j - 1] && b[..j][..j - 1] == b[..j - 1];
        assert a[j - 1] == a[..j][j - 1] && b[j - 1] == b[..j][j - 1];
      }
      BetweenSame(a, b, bad, i, j - 1);
    }
  }

  lemma {:induction false} BetweenSkips(blocks: seq<Block>, bad: set<nat>, i: nat, j: nat, k: nat)
    requires i <= j <= k <= |blocks| && forall n :: j <= n < k ==> n in bad
    ensures Between(blocks, bad, i, k) == Between(blocks, bad, i, j)
    decreases k
  {
    if j < k {
      BetweenSkips(blocks, bad, i, j, k - 1);
    }
  }

  lemma {:induction false} BetweenStartSkips(blocks: seq<Block>, bad: set<nat>, i: nat, j: nat, k: nat)
    requires i <= j <= k <= |blocks| && forall n :: i <= n < j ==> n in bad
    ensures Between(blocks, bad, j, k) == Between(blocks, bad, i, k)
    decreases k
  {
    if j == k {
      BetweenSkips(blocks, bad, i, i, k);
    } else {
      BetweenStartSkips(blocks, bad, i, j, k - 1);
    }
  }

  // ---------- what the bootloader may find

  function FirstGood(bad: set<nat>, i: nat, n: nat): (h: nat)
    requires i <= n
    ensures i <= h <= n && (forall k :: i <= k < h ==> k in bad) && (h < n ==> h !in bad)
    decreases n - i
  {
    if i < n && i in bad then FirstGood(bad, i + 1, n) else i
  }

  /** How many good blocks there are from `i` up to `n`. */
  function GoodCount(bad: set<nat>, i: nat, n: nat): nat
    requires i <= n
    decreases n - i
  {
    if i == n then 0 else (if i in bad then 0 else 1) + GoodCount(bad, i + 1, n)
  }

  lemma {:induction false} GoodCountSkips(bad: set<nat>, i: nat, j: nat, n: nat)
    requires i <= j <= n && forall k :: i <= k < j ==> k in bad
    ensures GoodCount(bad, i, n) == GoodCount(bad, j, n)
    decreases j - i
  {
    if i < j {
      GoodCountSkips(bad, i + 1, j, n);
    }
  }

  /** Blocks that `length` bytes fill, and what is left over. */
  function FullBlocks(length: nat, size: nat): nat
    requires size > 0
  {
    if length < size then 0 else 1 + FullBlocks(length - size, size)
  }

  function Remainder(length: nat, size: nat): nat
    requires size > 0
  {
    if length < size then length else Remainder(length - size, size)
  }

  /** Just enough blocks for the bytes. */
  lemma {:induction false} BlocksForExactly(length: nat, size: nat, n: nat)
    requires size > 0
    ensures BlocksFor(length, size) <= n <==> length <= Offset(n, size)
    decreases length
  {
    if n == 0 {
      assert length > 0 ==> BlocksFor(length, size) > 0;
    } else if length >= size {
      BlocksForExactly(length - size, size, n - 1);
    }
  }

  /** Blocks that a section of `length` bytes occupies. */
  function BlocksFor(length: nat, size: nat): nat
    requires size > 0
  {
    FullBlocks(length, size) + if Remainder(length, size) > 0 then 1 else 0
  }

  /** The block the bootloader takes for the header: the first good one. */
  function HeaderBlock(blocks: seq<Block>, bad: set<nat>): Block {
    var h := FirstGood(bad, 0, |blocks|);
    if h < |blocks| then blocks[h] else []
  }

  predicate NoHeader(blocks: seq<Block>, bad: set<nat>) {
    !ValidHeader(HeaderBlock(blocks, bad))
  }

  /** The sections that are to be handed over, with the layout of the bitmaps. */
  datatype Update = Update(image: seq<byte>, busy: seq<byte>, fail: seq<byte>, width: int, height: int, bpp: int)

  /** Reading from block i up to block j, bad blocks skipped, begins with `data`. */
  predicate Holds(blocks: seq<Block>, bad: set<nat>, i: nat, j: nat, data: seq<byte>) {
    i <= j <= |blocks| && data <= Between(blocks, bad, i, j)
  }

  predicate HoldsAll(blocks: seq<Block>, bad: set<nat>, i: nat, b: nat, f: nat, u: Update) {
    && Holds(blocks, bad, i, b, u.image)
    && Holds(blocks, bad, b, f, u.busy)
    && Holds(blocks, bad, f, |blocks|, u.fail)
  }

  /** The first byte of a block. */
  function Offset(block: nat, size: nat): nat {
    if block == 0 then 0 else Offset(block - 1, size) + size
  }

  lemma {:induction false} OffsetProduct(block: nat, size: nat)
    ensures Offset(block, size) == block * size
  {
    if block > 0 {
      OffsetProduct(block - 1, size);
      assert block * size == (block - 1) * size + size;
    }
  }

  function HeaderFor(u: Update, i: nat, b: nat, f: nat, size: nat): Header {
    Header(HEADER_SIZE, Offset(i, size), |u.image|, u.width, u.height, u.bpp,
           Offset(b, size), |u.busy|, Offset(f, size), |u.fail|)
  }

  /**
   The header describes the update: the sections start on blocks behind the header, in
   separate ranges, and reading from each offset gives the bytes passed in.
   */
  predicate Describes(h: Header, u: Update, blocks: seq<Block>, bad: set<nat>, size: nat, i: nat, b: nat, f: nat) {
    && h == HeaderFor(u, i, b, f, size)
    && FirstGood(bad, 0, |blocks|) < i
    && HoldsAll(blocks, bad, i, b, f, u)
  }

  /**
   Word by word at the offsets of `struct update_header`, the three section offsets (24, 44
   and 52) apart: version, header size, lengths and the layout of the bitmaps.
   */
  predicate HeaderSays(b: seq<byte>, u: Update) {
    && ValidHeader(b)
    && GetWord(b, 16) == 0x0001_0000 && GetWord(b, 20) == 60
    && GetWord(b, 28) == |u.image| && GetWord(b, 48) == |u.busy| && GetWord(b, 56) == |u.fail|
    && GetWord(b, 32) == u.width && GetWord(b, 36) == u.height && GetWord(b, 40) == u.bpp
  }

  /** No valid header, or one whose sections are completely written. */
  ghost predicate Committed(blocks: seq<Block>, bad: set<nat>, size: nat, u: Update) {
    || NoHeader(blocks, bad)
    || (&& HeaderSays(HeaderBlock(blocks, bad), u)
        && exists i: nat, b: nat, f: nat ::
             Describes(Decode(HeaderBlock(blocks, bad)), u, blocks, bad, size, i, b, f))
  }

  /** Good blocks that the three sections need. */
  function SectionBlocks(u: Update, size: nat): nat
    requires size > 0
  {
    BlocksFor(|u.image|, size) + BlocksFor(|u.busy|, size) + BlocksFor(|u.fail|, size)
  }

  /** Two images of the partition that agree below block n. */
  predicate Agree(a: seq<Block>, b: seq<Block>, n: nat) {
    |a| == |b| && n <= |a| && a[..n] == b[..n]
  }

  lemma AgreeTrans(a: seq<Block>, b: seq<Block>, c: seq<Block>, n: nat)
    requires Agree(b, c, n) && |a| == |b| && exists m :: n <= m && Agree(a, b, m)
    ensures Agree(a, c, n)
  {
    var m :| n <= m && Agree(a, b, m);
    assert a[..n] == a[..m][..n] && b[..n] == b[..m][..n];
  }

  lemma AgreeNoHeader(a: seq<Block>, b: seq<Block>, bad: set<nat>, n: nat)
    requires Agree(a, b, n) && NoHeader(b, bad) && FirstGood(bad, 0, |b|) < n
    ensures NoHeader(a, bad)
  {
    var h := FirstGood(bad, 0, |b|);
    assert a[..n][h] == b[..n][h];
  }

  /** Since image b0 with history h0, no state differed below block n. */
  predicate KeptSince(b0: seq<Block>, h0: seq<seq<Block>>, b: seq<Block>, h: seq<seq<Block>>, n: nat) {
    && Agree(b, b0, n)
    && |h| >= |h0| && h[..|h0|] == h0
    && forall k :: |h0| <= k < |h| ==> Agree(h[k], b0, n)
  }

  lemma KeptTrans(b0: seq<Block>, h0: seq<seq<Block>>, b1: seq<Block>, h1: seq<seq<Block>>,
                  b2: seq<Block>, h2: seq<seq<Block>>, n: nat, m: nat)
    requires KeptSince(b0, h0, b1, h1, n) && KeptSince(b1, h1, b2, h2, m) && n <= m
    ensures KeptSince(b0, h0, b2, h2, n)
  {
    AgreeTrans(b2, b1, b0, n);
    assert h2[..|h0|] == h2[..|h1|][..|h0|];
    forall k | |h0| <= k < |h2| ensures Agree(h2[k], b0, n) {
      if k < |h1| {
        assert h2[k] == h2[..|h1|][k];
      } else {
        AgreeTrans(h2[k], b1, b0, n);
      }
    }
  }

  // ---------- the flash driver

  function Fill(n: nat, x: byte): (b: Block)
    ensures |b| == n && forall i :: 0 <= i < n ==> b[i] == x
  {
    seq(n, i => x)
  }

  /**
   A partition opened for writing.  Data is collected until it fills a block; a full block
   is erased and written at the first good block from the write position on.  `bad` never
   changes, so a second writer skips the same blocks.  Positions are counted in blocks.
   */
  class Mtd {
    const blockSize: nat
    const bad: set<nat>
    var blocks: seq<Block>
    var pos: nat             // the block to be written next, if it is good
    var stored: seq<byte>    // data not yet written
    ghost var history: seq<seq<Block>>  // every state the partition has been in

    ghost predicate Valid()
      reads this
    {
      && blockSize > HEADER_SIZE
      && (forall i :: 0 <= i < |blocks| ==> |blocks[i]| == blockSize)
      && Offset(|blocks|, blockSize) < LIMIT
      && pos <= |blocks| && |stored| <= blockSize
    }

    /** Data is waiting for a block, and no good block is left. */
    ghost predicate Stuck()
      reads this
    {
      stored != [] && forall i :: pos <= i < |blocks| ==> i in bad
    }

    /** The blocks below n are as they were, in every state since. */
    twostate predicate Keeps(n: nat)
      reads this
    {
      KeptSince(old(blocks), old(history), blocks, history, n)
    }

    /** Good blocks that can still be written. */
    ghost function Left(): nat
      requires pos <= |blocks|
      reads this
    {
      GoodCount(bad, pos, |blocks|)
    }

    /** What has been written from block `start` on, and what waits to be written. */
    ghost function Output(start: nat): seq<byte>
      requires start <= pos <= |blocks|
      reads this
    {
      Between(blocks, bad, start, pos) + stored
    }

    /** mtd_write_partition. */
    method Open()
      requires Valid()
      modifies this`pos, this`stored
      ensures Valid() && pos == 0 && stored == []
    {
      pos, stored := 0, [];
    }

    /** Erases and writes the next good block. */
    method WriteBlock(data: Block) returns (ok: bool)
      requires Valid() && |data| == blockSize
      modifies this`blocks, this`pos, this`history
      ensures Valid() && Keeps(old(pos)) && old(pos) <= pos
      ensures !ok ==>
        && blocks == old(blocks) && pos == old(pos) && history == old(history)
        && forall i :: pos <= i < |blocks| ==> i in bad
      ensures ok ==>
        && old(pos) < pos == FirstGood(bad, old(pos), |blocks|) + 1
        && blocks == old(blocks)[pos - 1 := data]
        && history == old(history) + [old(blocks)[pos - 1 := Fill(blockSize, 255)], blocks]
      ensures if ok then Left() + 1 == old(Left()) else old(Left()) == 0
    {
      var p := pos;
      while p < |blocks| && p in bad
        invariant pos <= p <= |blocks|
        invariant forall i :: pos <= i < p ==> i in bad
      {
        p := p + 1;
      }
      GoodCountSkips(bad, pos, p, |blocks|);
      if p == |blocks| {
        return false;
      }
      blocks := blocks[p := Fill(blockSize, 255)];
      history := history + [blocks];
      blocks := blocks[p := data];
      history := history + [blocks];
      pos := p + 1;
      ok := true;
    }

    /** WriteBlock, as it extends the output. */
    method Put(data: Block, ghost start: nat) returns (ok: bool)
      requires Valid() && |data| == blockSize && start <= pos
      modifies this`blocks, this`pos, this`history
      ensures Valid() && Keeps(old(pos)) && old(pos) <= pos
      ensures !ok ==>
        && blocks == old(blocks) && pos == old(pos) && history == old(history)
        && forall i :: pos <= i < |blocks| ==> i in bad
      ensures ok ==> Between(blocks, bad, start, pos) == old(Between(blocks, bad, start, pos)) + data
      ensures ok ==> exists i :: old(pos) <= i < |blocks| && i !in bad
      ensures ok ==>
        && old(pos) < pos == FirstGood(bad, old(pos), |blocks|) + 1
        && blocks == old(blocks)[pos - 1 := data]
        && history == old(history) + [old(blocks)[pos - 1 := Fill(blockSize, 255)], blocks]
      ensures if ok then Left() + 1 == old(Left()) else old(Left()) == 0
    {
      ok := WriteBlock(data);
      if ok {
        ghost var was := old(blocks);
        BetweenSkips(blocks, bad, start, old(pos), pos - 1);
        BetweenSame(was, blocks, bad, start, old(pos));
      }
    }

    /** One round of the following loop. */
    method PutNext(data: seq<byte>, ghost start: nat) returns (ok: bool, rest: seq<byte>)
      requires Valid() && start <= pos && |data| >= blockSize
      modifies this`blocks, this`pos, this`history
      ensures Valid() && Keeps(old(pos)) && old(pos) <= pos
      ensures Between(blocks, bad, start, pos) + rest == old(Between(blocks, bad, start, pos)) + data
      ensures ok ==> rest == data[blockSize..] && Left() + 1 == old(Left())
      ensures ok ==> exists i :: old(pos) <= i < |blocks| && i !in bad
      ensures !ok ==> rest == data && blocks == old(blocks) && pos == old(pos) && history == old(history)
      ensures !ok ==> Left() == 0 && forall i :: pos <= i < |blocks| ==> i in bad
    {
      ok := Put(data[..blockSize], start);
      rest := if ok then data[blockSize..] else data;
      assert data == data[..blockSize] + data[blockSize..];
    }

    /** Writes as many full blocks as `data` has; what remains. */
    method WriteFull(data: seq<byte>, ghost start: nat) returns (ok: bool, rest: seq<byte>)
      requires Valid() && start <= pos
      modifies this`blocks, this`pos, this`history
      ensures Valid() && Keeps(old(pos)) && old(pos) <= pos
      ensures Between(blocks, bad, start, pos) + rest == old(Between(blocks, bad, start, pos)) + data
      ensures if ok
        then |rest| == Remainder(|data|, blockSize) < blockSize && Left() == old(Left()) - FullBlocks(|data|, blockSize)
        else
          && |rest| >= blockSize && old(Left()) < FullBlocks(|data|, blockSize)
          && forall i :: pos <= i < |blocks| ==> i in bad
      ensures |data| < blockSize || (forall i :: old(pos) <= i < |blocks| ==> i in bad) ==>
        blocks == old(blocks) && pos == old(pos) && history == old(history)
    {
      rest := data;
      while |rest| >= blockSize
        invariant Valid() && Keeps(old(pos)) && old(pos) <= pos
        invariant Between(blocks, bad, start, pos) + rest == old(Between(blocks, bad, start, pos)) + data
        invariant old(Left()) - Left() == FullBlocks(|data|, blockSize) - FullBlocks(|rest|, blockSize)
        invariant Remainder(|rest|, blockSize) == Remainder(|data|, blockSize)
        invariant |data| < blockSize || (forall i :: old(pos) <= i < |blocks| ==> i in bad) ==>
          blocks == old(blocks) && pos == old(pos) && history == old(history)
        decreases |rest|
      {
        ghost var b1, h1, p1 := blocks, history, pos;
        ok, rest := PutNext(rest, start);
        KeptTrans(old(blocks), old(history), b1, h1, blocks, history, old(pos), p1);
        if !ok {
          return;
        }
      }
      ok := true;
    }

    /** mtd_write_data: collects, and writes what fills blocks. */
    method WriteData(data: seq<byte>, ghost start: nat) returns (ok: bool)
      requires Valid() && start <= pos
      modifies this`blocks, this`pos, this`history, this`stored
      ensures Valid() && Keeps(old(pos)) && old(pos) <= pos
      ensures ok ==> Output(start) == old(Output(start)) + data
      ensures old(Stuck()) ==> Stuck() && blocks == old(blocks) && history == old(history)
      ensures |old(stored)| + |data| < blockSize ==>
        ok && pos == old(pos) && blocks == old(blocks) && history == old(history)
      ensures |old(stored)| < blockSize ==> var total := |old(stored)| + |data|;
        if old(Left()) >= FullBlocks(total, blockSize)
        then ok && Left() == old(Left()) - FullBlocks(total, blockSize) && |stored| == Remainder(total, blockSize)
        else !ok
    {
      if data == [] {
        return true;
      }
      ghost var written, all := Between(blocks, bad, start, pos), stored + data;
      assert written + all == (written + stored) + data;
      var rest;
      ok, rest := WriteFull(stored + data, start);
      assert Between(blocks, bad, start, pos) + rest == written + all;
      stored := if ok then rest else rest[..blockSize];
    }

    /** mtd_erase_blocks(_, 0): pads and writes what waits; the position, or -1. */
    method Flush(ghost start: nat) returns (next: int)
      requires Valid() && start <= pos
      modifies this`blocks, this`pos, this`history, this`stored
      ensures Valid() && Keeps(old(pos)) && old(pos) <= pos
      ensures if next >= 0 then next == pos && stored == [] else next == -1 && Stuck()
      ensures old(Stuck()) ==> next == -1
      ensures next >= 0 <==> old(stored) == [] || old(Left()) > 0
      ensures next >= 0 ==> Left() == old(Left()) - (if old(stored) == [] then 0 else 1)
      ensures next >= 0 ==> old(Output(start)) <= Between(blocks, bad, start, pos)
      ensures old(stored) == [] || next == -1 ==> blocks == old(blocks) && pos == old(pos) && history == old(history)
      ensures old(stored) != [] && next >= 0 ==>
        var p := FirstGood(bad, old(pos), |blocks|);
        && next == p + 1 && p < |blocks|
        && blocks == old(blocks)[p := old(stored) + Fill(blockSize - |old(stored)|, 0)]
        && history == old(history) + [old(blocks)[p := Fill(blockSize, 255)], blocks]
    {
      if stored != [] {
        ghost var written, sent := Between(blocks, bad, start, pos), stored;
        var data := stored + Fill(blockSize - |stored|, 0);
        var ok := Put(data, start);
        if !ok {
          return -1;
        }
        stored := [];
        assert written + sent <= written + data;
      } else {
        assert Output(start) == Between(blocks, bad, start, pos);
      }
      next := pos;
    }

    /** mtd_write_close. */
    method Close() returns (ok: bool)
      requires Valid()
      modifies this`blocks, this`pos, this`history, this`stored
      ensures Valid() && Keeps(old(pos)) && old(pos) <= pos
      ensures old(Stuck()) ==> !ok && blocks == old(blocks) && history == old(history)
      ensures old(stored) == [] ==> ok && blocks == old(blocks) && history == old(history) && pos == old(pos)
    {
      var next := Flush(0);
      ok := next >= 0;
    }

    /** mtd_find_write_start: past the bad blocks that were skipped at `at`. */
    method FindWriteStart(at: int) returns (b: int)
      requires Valid() && -1 <= at <= pos
      ensures at == -1 ==> b == -1
      ensures at >= 0 ==> at <= b <= pos && (forall n :: at <= n < b ==> n in bad)
    {
      b := at;
      while 0 <= b < pos && b in bad
        invariant at == -1 ==> b == -1
        invariant at >= 0 ==> at <= b <= pos && (forall n :: at <= n < b ==> n in bad)
        decreases pos - b
      {
        b := b + 1;
      }
    }

    /** Nothing behind the header position is taken for a header, in any state since. */
    twostate predicate Unheaded()
      reads this
    {
      && NoHeader(blocks, bad)
      && |history| >= |old(history)| && history[..|old(history)|] == old(history)
      && forall k :: |old(history)| <= k < |history| ==> NoHeader(history[k], bad)
    }

    twostate lemma KeepsUnheaded(n: nat)
      requires Keeps(n) && old(NoHeader(blocks, bad)) && FirstGood(bad, 0, |blocks|) < n
      ensures Unheaded()
    {
      AgreeNoHeader(blocks, old(blocks), bad, n);
      forall k | |old(history)| <= k < |history| ensures NoHeader(history[k], bad) {
        AgreeNoHeader(history[k], old(blocks), bad, n);
      }
    }

    /** One section: the data, then up to the next block boundary. */
    method Section(data: seq<byte>) returns (wrote: bool, next: int)
      requires Valid() && (stored == [] || Stuck())
      requires stored == [] ==> NoHeader(blocks, bad) && FirstGood(bad, 0, |blocks|) < pos
      modifies this`blocks, this`pos, this`history, this`stored
      ensures Valid() && Keeps(old(pos)) && old(pos) <= pos
      ensures old(Stuck()) ==> Stuck() && (wrote ==> next == -1)
      ensures old(stored) == [] ==> Unheaded()
      ensures old(Stuck()) ==> blocks == old(blocks) && history == old(history)
      ensures wrote ==> if next >= 0 then next == pos && stored == [] else next == -1 && Stuck()
      ensures wrote && next >= 0 ==> old(stored) == [] && Holds(blocks, bad, old(pos), next, data)
      ensures old(stored) == [] ==>
        if old(Left()) >= BlocksFor(|data|, blockSize)
        then wrote && next >= 0 && Left() == old(Left()) - BlocksFor(|data|, blockSize)
        else !wrote || next == -1
    {
      ghost var p0, b0, h0 := pos, blocks, history;
      wrote := WriteData(data, pos);
      next := -1;
      if wrote {
        ghost var b1, h1 := blocks, history;
        label Mid:
        next := Flush(p0);
        KeptTrans(b0, h0, b1, h1, blocks, history, p0, old@Mid(pos));
      }
      if old(stored) == [] {
        KeepsUnheaded(p0);
        assert Between(b0, bad, p0, p0) + old(stored) + data == data;
      }
    }

    /** Lines 179 to 201: a header of zeros takes the place of whatever was there. */
    method ZeroHeader() returns (start: int)
      requires Valid()
      modifies this`blocks, this`pos, this`history, this`stored
      ensures Valid()
      ensures |history| >= |old(history)| && history[..|old(history)|] == old(history)
      ensures forall k :: |old(history)| <= k < |history| ==> NoHeader(history[k], bad)
      ensures start >= 0 ==> start == pos == FirstGood(bad, 0, |blocks|) + 1 && stored == [] && NoHeader(blocks, bad)
      ensures start < 0 ==> start == -1 && Stuck()
      ensures start >= 0 <==> GoodCount(bad, 0, |blocks|) > 0
      ensures start >= 0 ==> Left() + 1 == GoodCount(bad, 0, |blocks|)
      ensures |blocks| == |old(blocks)|
    {
      Open();
      var ok := WriteData(Fill(HEADER_SIZE, 0), 0);
      assert stored == Fill(HEADER_SIZE, 0) by {
        assert Between(blocks, bad, 0, 0) + [] + Fill(HEADER_SIZE, 0) == Fill(HEADER_SIZE, 0);
      }
      start := Flush(0);
      if start >= 0 {
        NoMagic(blocks, bad, 0);
        NoMagic(history[|history| - 2], bad, 255);
      }
    }

    /**
     A section at the write position, or a writer that is stuck: then it stays stuck.  With
     the image of the partition and its history when the sections began.
     */
    method NextSection(data: seq<byte>, ghost b0: seq<Block>, ghost h0: seq<seq<Block>>, ghost p0: nat, at: int)
      returns (wrote: bool, next: int)
      requires Valid() && KeptSince(b0, h0, blocks, history, p0) && p0 <= pos
      requires if at == -1 then Stuck() else at == pos && stored == []
      requires at != -1 ==> NoHeader(b0, bad) && FirstGood(bad, 0, |b0|) < p0
      modifies this`blocks, this`pos, this`history, this`stored
      ensures Valid() && KeptSince(b0, h0, blocks, history, p0) && Keeps(old(pos)) && old(pos) <= pos
      ensures at == -1 ==> blocks == old(blocks) && history == old(history) && (wrote ==> next == -1)
      ensures wrote ==> if next == -1 then Stuck() else next == pos && stored == []
      ensures wrote && next != -1 ==> at >= 0 && Holds(blocks, bad, at, next, data)
      ensures at != -1 ==>
        if old(Left()) >= BlocksFor(|data|, blockSize)
        then wrote && next != -1 && Left() == old(Left()) - BlocksFor(|data|, blockSize)
        else !wrote || next == -1
    {
      ghost var b1, h1, p1 := blocks, history, pos;
      if at != -1 {
        AgreeNoHeader(b1, b0, bad, p0);
      }
      wrote, next := Section(data);
      KeptTrans(b0, h0, b1, h1, blocks, history, p0, p1);
      if !wrote {
        ghost var b2, h2, p2 := blocks, history, pos;
        var closed := Close();
        KeptTrans(b1, h1, b2, h2, blocks, history, p1, p2);
        KeptTrans(b0, h0, b1, h1, blocks, history, p0, p1);
      }
    }

    /** Lines 201 to 245: the three sections, and closing the writer. */
    method Sections(u: Update, start: int) returns (ok: bool, i: int, b: int, f: int)
      requires Valid()
      requires if start == -1 then Stuck()
               else stored == [] && start == pos && NoHeader(blocks, bad) && FirstGood(bad, 0, |blocks|) < pos
      modifies this`blocks, this`pos, this`history, this`stored
      ensures Valid() && KeptSince(old(blocks), old(history), blocks, history, old(pos))
      ensures start == -1 ==> !ok && blocks == old(blocks) && history == old(history)
      ensures ok ==> start <= i <= b <= f <= |blocks|
      ensures ok ==> HoldsAll(blocks, bad, i, b, f, u)
      ensures ok <==> start != -1 && old(Left()) >= SectionBlocks(u, blockSize)
    {
      ghost var b0, h0, p0 := blocks, history, pos;
      ok, i, b, f := false, -1, -1, -1;
      var wrote, busyStart := NextSection(u.image, b0, h0, p0, start);
      if !wrote { return; }
      ghost var b1 := blocks;
      i := FindWriteStart(start);
      var failStart;
      wrote, failStart := NextSection(u.busy, b0, h0, p0, busyStart);
      if !wrote { return; }
      ghost var b2 := blocks;
      b := FindWriteStart(busyStart);
      var end;
      wrote, end := NextSection(u.fail, b0, h0, p0, failStart);
      if !wrote { return; }
      ghost var b3, h3, p3 := blocks, history, pos;
      f := FindWriteStart(failStart);
      ok := Close();
      KeptTrans(b0, h0, b3, h3, blocks, history, p0, p3);
      if ok {
        assert end >= 0 && failStart >= 0 && busyStart >= 0;
        assert blocks == b3;
        AllPlaced(u, b1, b2, b3, start, i, busyStart, b, failStart, f, end);
      }
    }

    /** Lines 247 to 268: the header goes over the zeros, as the last block written. */
    method Commit(h: Header, start: int) returns (ok: bool)
      requires Valid() && GoodHeader(h) && FirstGood(bad, 0, |blocks|) < |blocks|
      modifies this`blocks, this`pos, this`history, this`stored
      ensures Valid()
      ensures var p := FirstGood(bad, 0, |blocks|);
        && (ok <==> start == p + 1)
        && blocks == old(blocks)[p := Encode(h) + Fill(blockSize - HEADER_SIZE, 0)]
        && history == old(history) + [old(blocks)[p := Fill(blockSize, 255)], blocks]
    {
      Open();
      var wrote := WriteData(Encode(h), 0);
      assert stored == Encode(h) by {
        assert Between(blocks, bad, 0, 0) + [] + Encode(h) == Encode(h);
      }
      var next := Flush(0);
      if next != start {
        var closed := Close();
        return false;
      }
      ok := Close();
    }

    /**
     `write_update_for_bootloader`.  Whatever state a crash finds, the first good block is
     not a header or describes sections that are completely written; and success leaves a
     valid header.
     */
    method WriteUpdate(u: Update) returns (ok: bool)
      requires Valid()
      requires U32(|u.image|) && U32(|u.busy|) && U32(|u.fail|) && U32(u.width) && U32(u.height) && U32(u.bpp)
      modifies this`blocks, this`pos, this`history, this`stored
      ensures Valid()
      ensures |history| >= |old(history)| && history[..|old(history)|] == old(history)
      ensures forall k :: |old(history)| <= k < |history| ==> Committed(history[k], bad, blockSize, u)
      ensures ok ==> HeaderSays(HeaderBlock(blocks, bad), u) && Committed(blocks, bad, blockSize, u)
      ensures ok ==> |history| >= |old(history)| + 2 && history[|history| - 1] == blocks
      ensures forall k :: |old(history)| <= k < |history| - (if ok then 1 else 0) ==> NoHeader(history[k], bad)
      ensures ok <==> GoodCount(bad, 0, |old(blocks)|) >= 1 + SectionBlocks(u, blockSize)
    {
      ghost var h0 := history;
      var start, i, b, f;
      ok, start, i, b, f := Prepare(u);
      if !ok {
        return;
      }
      ghost var h2 := history;
      ok := Publish(u, start, i, b, f);
      AllCommitted(u, |h0|, h2, history);
    }

    /** No header before the last two states, none in the first of them, a good one in the second. */
    lemma AllCommitted(u: Update, from: nat, h2: seq<seq<Block>>, h3: seq<seq<Block>>)
      requires from <= |h2| && |h3| == |h2| + 2 && h3[..|h2|] == h2
      requires forall k :: from <= k < |h2| ==> NoHeader(h2[k], bad)
      requires NoHeader(h3[|h2|], bad) && Committed(h3[|h2| + 1], bad, blockSize, u)
      ensures forall k :: from <= k < |h3| ==> Committed(h3[k], bad, blockSize, u)
      ensures forall k :: from <= k < |h3| - 1 ==> NoHeader(h3[k], bad)
      ensures h3[..from] == h2[..from]
    {
      forall k | from <= k < |h3| - 1 ensures NoHeader(h3[k], bad) {
        if k < |h2| {
          assert h3[k] == h3[..|h2|][k];
        }
      }
    }

    /** Everything up to the header: no state on the way shows one. */
    method Prepare(u: Update) returns (ok: bool, start: int, i: int, b: int, f: int)
      requires Valid()
      modifies this`blocks, this`pos, this`history, this`stored
      ensures Valid() && |blocks| == |old(blocks)|
      ensures |history| >= |old(history)| && history[..|old(history)|] == old(history)
      ensures forall k :: |old(history)| <= k < |history| ==> NoHeader(history[k], bad)
      ensures ok <==> GoodCount(bad, 0, |old(blocks)|) >= 1 + SectionBlocks(u, blockSize)
      ensures ok ==> start == FirstGood(bad, 0, |blocks|) + 1 <= i <= b <= f <= |blocks|
      ensures ok ==> HoldsAll(blocks, bad, i, b, f, u)
    {
      ghost var h0 := history;
      start := ZeroHeader();
      ghost var b1, h1, p1 := blocks, history, pos;
      ok, i, b, f := Sections(u, start);
      UnheadedSince(h0, b1, h1, blocks, history, p1, start);
    }

    /** The header for sections at blocks i, b and f, written over the zeros. */
    method Publish(u: Update, start: int, i: nat, b: nat, f: nat) returns (ok: bool)
      requires Valid()
      requires U32(|u.image|) && U32(|u.busy|) && U32(|u.fail|) && U32(u.width) && U32(u.height) && U32(u.bpp)
      requires start == FirstGood(bad, 0, |blocks|) + 1 <= i <= b <= f <= |blocks|
      requires HoldsAll(blocks, bad, i, b, f, u)
      modifies this`blocks, this`pos, this`history, this`stored
      ensures Valid() && ok && |blocks| == |old(blocks)|
      ensures ValidHeader(HeaderBlock(blocks, bad)) && Committed(blocks, bad, blockSize, u)
      ensures |history| == |old(history)| + 2 && history[..|old(history)|] == old(history)
      ensures NoHeader(history[|history| - 2], bad) && history[|history| - 1] == blocks
    {
      Offsets(i, b, f);
      var h := HeaderFor(u, i, b, f, blockSize);
      ok := Commit(h, start);
      CommitDescribes(u, h, old(blocks), blocks, start - 1, i, b, f);
      NoMagic(history[|history| - 2], bad, 255);
    }

    lemma Offsets(i: nat, b: nat, f: nat)
      requires Valid() && i <= b <= f <= |blocks|
      ensures U32(Offset(i, blockSize)) && U32(Offset(b, blockSize)) && U32(Offset(f, blockSize))
    {
      OffsetBound(i, |blocks|, blockSize);
      OffsetBound(b, |blocks|, blockSize);
      OffsetBound(f, |blocks|, blockSize);
    }

    /** Before the commit no state shows a header. */
    lemma UnheadedSince(h0: seq<seq<Block>>, b1: seq<Block>, h1: seq<seq<Block>>,
                        b2: seq<Block>, h2: seq<seq<Block>>, n: nat, start: int)
      requires |h0| <= |h1| && forall k :: |h0| <= k < |h1| ==> NoHeader(h1[k], bad)
      requires KeptSince(b1, h1, b2, h2, n)
      requires if start == -1 then h2 == h1 else NoHeader(b1, bad) && FirstGood(bad, 0, |b1|) < n
      ensures forall k :: |h0| <= k < |h2| ==> NoHeader(h2[k], bad)
    {
      forall k | |h0| <= k < |h2| ensures NoHeader(h2[k], bad) {
        if k < |h1| {
          assert h2[k] == h2[..|h1|][k];
        } else {
          AgreeNoHeader(h2[k], b1, bad, n);
        }
      }
    }

    /** Rewriting the header block leaves the sections behind it alone. */
    lemma HoldsBehind(was: seq<Block>, now: seq<Block>, at: nat, x: Block, i: nat, j: nat, data: seq<byte>)
      requires at < |was| && now == was[at := x] && at < i && Holds(was, bad, i, j, data)
      ensures Holds(now, bad, i, j, data)
    {
      BetweenSame(was, now, bad, i, j);
    }

    lemma CommitDescribes(u: Update, h: Header, was: seq<Block>, now: seq<Block>, at: nat, i: nat, b: nat, f: nat)
      requires blockSize > HEADER_SIZE && GoodHeader(h)
      requires at == FirstGood(bad, 0, |was|) < |was| && at < i <= b <= f <= |was|
      requires now == was[at := Encode(h) + Fill(blockSize - HEADER_SIZE, 0)]
      requires h == HeaderFor(u, i, b, f, blockSize)
      requires HoldsAll(was, bad, i, b, f, u)
      ensures ValidHeader(HeaderBlock(now, bad)) && Committed(now, bad, blockSize, u)
    {
      var x := Encode(h) + Fill(blockSize - HEADER_SIZE, 0);
      assert HeaderBlock(now, bad) == x;
      HeaderRoundTrip(h, x);
      HeaderWords(u, h, x, i, b, f);
      HoldsBehind(was, now, at, x, i, b, u.image);
      HoldsBehind(was, now, at, x, b, f, u.busy);
      HoldsBehind(was, now, at, x, f, |was|, u.fail);
      assert Describes(h, u, now, bad, blockSize, i, b, f);
    }

    lemma HeaderWords(u: Update, h: Header, x: seq<byte>, i: nat, b: nat, f: nat)
      requires GoodHeader(h) && Encode(h) <= x && h == HeaderFor(u, i, b, f, blockSize) && ValidHeader(x)
      ensures HeaderSays(x, u)
    {
      FieldAt(h, x, 0);
      FieldAt(h, x, 1);
      FieldAt(h, x, 3);
      FieldAt(h, x, 4);
      FieldAt(h, x, 5);
      FieldAt(h, x, 6);
      FieldAt(h, x, 8);
      FieldAt(h, x, 10);
    }

    lemma AllPlaced(u: Update, b1: seq<Block>, b2: seq<Block>, b3: seq<Block>, start: nat, i: nat,
                    busyStart: nat, b: nat, failStart: nat, f: nat, end: nat)
      requires Holds(b1, bad, start, busyStart, u.image) && Agree(b2, b1, busyStart)
      requires Holds(b2, bad, busyStart, failStart, u.busy) && Agree(b3, b2, failStart)
      requires Holds(b3, bad, failStart, end, u.fail)
      requires start <= i <= busyStart <= b <= failStart <= f <= end
      requires forall n :: start <= n < i || busyStart <= n < b || failStart <= n < f ==> n in bad
      ensures HoldsAll(b3, bad, i, b, f, u)
    {
      AgreeTrans(b3, b2, b1, busyStart);
      Placed(b1, b3, start, i, busyStart, b, u.image);
      Placed(b2, b3, busyStart, b, failStart, f, u.busy);
      Placed(b3, b3, failStart, f, end, |b3|, u.fail);
    }

    /** A section is read from the first good block at its start, and up to the next section. */
    lemma Placed(was: seq<Block>, now: seq<Block>, i: nat, i': nat, j: nat, j': nat, data: seq<byte>)
      requires Holds(was, bad, i, j, data) && Agree(now, was, j)
      requires i <= i' && j <= j' <= |now| && i' <= j'
      requires forall n :: i <= n < i' ==> n in bad
      ensures Holds(now, bad, i', j', data)
    {
      BetweenSame(was, now, bad, i, j);
      BetweenGrows(now, bad, i, j, j');
      BetweenStartSkips(now, bad, i, i', j');
    }
  }

  lemma {:induction false} OffsetBound(i: nat, n: nat, size: nat)
    requires i <= n
    ensures Offset(i, size) <= Offset(n, size)
  {
    if i < n {
      OffsetBound(i, n - 1, size);
    }
  }

  lemma {:induction false} BetweenGrows(blocks: seq<Block>, bad: set<nat>, i: nat, j: nat, k: nat)
    requires i <= j <= k <= |blocks|
    ensures Between(blocks, bad, i, j) <= Between(blocks, bad, i, k)
    decreases k
  {
    if j < k {
      BetweenGrows(blocks, bad, i, j, k - 1);
    }
  }

  /** A block of one repeated byte is not a header. */
  lemma NoMagic(blocks: seq<Block>, bad: set<nat>, x: byte)
    requires x != 77
    requires var h := FirstGood(bad, 0, |blocks|); h < |blocks| && |blocks[h]| > 0 && blocks[h][0] == x
    ensures NoHeader(blocks, bad)
  {
    var b := HeaderBlock(blocks, bad);
    if |b| >= HEADER_SIZE {
      assert b[..16][0] == x && MAGIC[0] == 77;
    }
  }
}
