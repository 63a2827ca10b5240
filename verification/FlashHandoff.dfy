/** The flash image as the protocol sees it. */
module FlashHandoff {
  import opened Wrappers
  import opened Bytes
  import opened CString
  import opened UpdateImage
  import P = RecoveryProtocol
  import I = HandoffInvariant
  import H = FirmwareHandoff

  /*
   There are two views of a firmware update: the blocks that `write_update_for_bootloader` writes
   (bootloader.c) and the cache of the recovery protocol (firmware.c).  What the bootloader
   reads out of the blocks makes every intermediate state of the flash a state of the protocol.
   */

  // ---------- what the bootloader reads

  /** `length` bytes from a block boundary on, bad blocks skipped, or as many as there are. */
  function ReadSection(blocks: seq<Block>, bad: set<nat>, size: nat, offset: nat, length: nat): seq<byte>
    requires size > 0
  {
    var i := FullBlocks(offset, size);
    var data := if i <= |blocks| then Between(blocks, bad, i, |blocks|) else [];
    if length <= |data| then data[..length] else data
  }

  /** A section that lies in a range of blocks is read back, whatever follows it. */
  lemma SectionReads(blocks: seq<Block>, bad: set<nat>, size: nat, i: nat, j: nat, data: seq<byte>)
    requires size > 0 && Holds(blocks, bad, i, j, data)
    ensures ReadSection(blocks, bad, size, Offset(i, size), |data|) == data
  {
    BlockOf(i, size);
    BetweenGrows(blocks, bad, i, j, |blocks|);
  }

  lemma {:induction false} BlockOf(i: nat, size: nat)
    requires size > 0
    ensures FullBlocks(Offset(i, size), size) == i
  {
    if i > 0 {
      BlockOf(i - 1, size);
    }
  }

  /** The cache as the bootloader finds it, for an update of this kind. */
  function AsCache(blocks: seq<Block>, bad: set<nat>, size: nat, kind: P.FirmwareKind): P.Cache
    requires size > 0
  {
    if NoHeader(blocks, bad) then P.Partial
    else
      var h := Decode(HeaderBlock(blocks, bad));
      P.Complete(P.Firmware(kind, ReadSection(blocks, bad, size, h.imageOffset, h.imageLength)))
  }

  /**
   Behind a committed header the bootloader reads the image and the bitmaps that were passed in,
   at the offsets and lengths that the header holds in bytes 24 to 31 and 44 to 59.
   */
  lemma CommittedReads(blocks: seq<Block>, bad: set<nat>, size: nat, u: Update)
    requires size > 0 && Committed(blocks, bad, size, u) && !NoHeader(blocks, bad)
    ensures var b := HeaderBlock(blocks, bad);
      && HeaderSays(b, u)
      && ReadSection(blocks, bad, size, GetWord(b, 24), GetWord(b, 28)) == u.image
      && ReadSection(blocks, bad, size, GetWord(b, 44), GetWord(b, 48)) == u.busy
      && ReadSection(blocks, bad, size, GetWord(b, 52), GetWord(b, 56)) == u.fail
  {
    var h := Decode(HeaderBlock(blocks, bad));
    var i: nat, b: nat, f: nat :| Describes(h, u, blocks, bad, size, i, b, f);
    SectionReads(blocks, bad, size, i, b, u.image);
    SectionReads(blocks, bad, size, b, f, u.busy);
    SectionReads(blocks, bad, size, f, |blocks|, u.fail);
  }

  // ---------- writing, as steps of the protocol

  /** The protocol state, entered as s, in which the flash looks like this. */
  function Shown(s: P.State, blocks: seq<Block>, bad: set<nat>, size: nat, kind: P.FirmwareKind): P.State
    requires size > 0
  {
    s.(pc := if NoHeader(blocks, bad) then P.FW_WRITE else P.FW_COMMAND,
       cache := AsCache(blocks, bad, size, kind))
  }

  /** Nothing the protocol sees, or the step that completes the image. */
  predicate WriteOrStutter(s: P.State, s': P.State) {
    s == s' || P.FirmwareWrite(s, s')
  }

  /** States of the flash: the first destroys the filesystem, and each follows the one before. */
  predicate Refines(s: P.State, states: seq<seq<Block>>, bad: set<nat>, size: nat, kind: P.FirmwareKind)
    requires size > 0
  {
    && (states != [] ==> P.FirmwareBegin(s, Shown(s, states[0], bad, size, kind)))
    && forall k :: 0 <= k < |states| - 1 ==>
         WriteOrStutter(Shown(s, states[k], bad, size, kind), Shown(s, states[k + 1], bad, size, kind))
  }

  lemma StatesRefine(s: P.State, states: seq<seq<Block>>, bad: set<nat>, size: nat,
                     kind: P.FirmwareKind, u: Update, ok: bool)
    requires size > 0 && s.pc == P.FW_BEGIN && s.pending == Some(P.Firmware(kind, u.image))
    requires forall k :: 0 <= k < |states| ==> Committed(states[k], bad, size, u)
    requires forall k :: 0 <= k < |states| - (if ok then 1 else 0) ==> NoHeader(states[k], bad)
    requires ok ==> |states| >= 2
    ensures Refines(s, states, bad, size, kind)
  {
    forall k | 0 <= k < |states| - 1
      ensures WriteOrStutter(Shown(s, states[k], bad, size, kind), Shown(s, states[k + 1], bad, size, kind))
    {
      assert NoHeader(states[k], bad) && Committed(states[k + 1], bad, size, u);
      if !NoHeader(states[k + 1], bad) {
        CommittedReads(states[k + 1], bad, size, u);
      }
    }
  }

  /**
   `write_update_for_bootloader` for the remembered firmware: every state of the flash on the
   way is one the protocol passes through.  Success ends where the update command is stored,
   with the complete image; failure leaves the filesystem or an incomplete image, never a
   header.
   */
  method WriteFirmware(m: Mtd, u: Update, kind: P.FirmwareKind, ghost s: P.State) returns (ok: bool)
    requires m.Valid() && s.pc == P.FW_BEGIN && s.pending == Some(P.Firmware(kind, u.image))
    requires U32(|u.image|) && U32(|u.busy|) && U32(|u.fail|) && U32(u.width) && U32(u.height) && U32(u.bpp)
    modifies m
    ensures m.Valid() && |m.history| >= |old(m.history)|
    ensures Refines(s, m.history[|old(m.history)|..], m.bad, m.blockSize, kind)
    ensures ok ==> Shown(s, m.blocks, m.bad, m.blockSize, kind) ==
                   s.(pc := P.FW_COMMAND, cache := P.Complete(P.Firmware(kind, u.image)))
    ensures !ok ==> forall k :: |old(m.history)| <= k < |m.history| ==>
                   AsCache(m.history[k], m.bad, m.blockSize, kind) == P.Partial
  {
    ghost var n := |m.history|;
    ok := m.WriteUpdate(u);
    ghost var states := m.history[n..];
    assert forall k :: 0 <= k < |states| ==> states[k] == m.history[n + k];
    StatesRefine(s, states, m.bad, m.blockSize, kind, u, ok);
    if ok {
      CommittedReads(m.blocks, m.bad, m.blockSize, u);
    }
  }

  // ---------- a crash while writing

  /** Every state of the flash on the way is reached by a run. */
  lemma {:induction false} ShownInRun(run: seq<P.State>, states: seq<seq<Block>>, bad: set<nat>, size: nat,
                                      kind: P.FirmwareKind, k: nat) returns (more: seq<P.State>)
    requires size > 0 && P.Run(run) && k < |states|
    requires Refines(run[|run| - 1], states, bad, size, kind)
    ensures P.Run(more) && more[|more| - 1] == Shown(run[|run| - 1], states[k], bad, size, kind)
  {
    var s := run[|run| - 1];
    if k == 0 {
      H.Extend(run, Shown(s, states[0], bad, size, kind));
      more := run + [Shown(s, states[0], bad, size, kind)];
    } else {
      more := ShownInRun(run, states, bad, size, kind, k - 1);
      var before, now := Shown(s, states[k - 1], bad, size, kind), Shown(s, states[k - 1 + 1], bad, size, kind);
      assert WriteOrStutter(before, now);
      if before != now {
        H.Extend(more, now);
        more := more + [now];
      }
    }
  }

  /**
   Power fails in any state of the flash while firmware is written: the next boot is recovery,
   which reads a message that wipes the cache, and the bootloader has no update to install.
   */
  lemma CrashWhileWriting(run: seq<P.State>, states: seq<seq<Block>>, bad: set<nat>, size: nat,
                          kind: P.FirmwareKind, k: nat)
    requires size > 0 && P.Run(run) && k < |states|
    requires Refines(run[|run| - 1], states, bad, size, kind)
    ensures var s := Shown(run[|run| - 1], states[k], bad, size, kind);
      && H.HandoffOk(P.PowerOff(s))
      && s.bcb.command == P.BootRecovery && I.WipeMessage(s.bcb.recovery)
  {
    var s := Shown(run[|run| - 1], states[k], bad, size, kind);
    var more := ShownInRun(run, states, bad, size, kind, k);
    I.RunInv(more, |more| - 1);
    I.CrashInv(s, P.PowerOff(s));
  }
}
