/**
 The preemption generator's layout: which half of which memory tile goes to which stretch of the
 scratch buffer, and back.  Saving and then restoring returns every tile byte.
 */
module Preemption {
  import opened Bytes
  import opened Symbols

  const MEMTILE_SIZE: nat := 0x8_0000 // 512 * 1024
  const START_OF_MEM: nat := 0x8_0000
  const NUM_CHANNELS: nat := 2
  const NUM_COLS_PHX: nat := 5
  const NUM_COLS_STX: nat := 8
  const COL_SHIFT: nat := 0x200_0000
  const IN_BUFFER_KERNARG_IDX: nat := 1

  /** Register of word 1 of shim BD 0 inside its tile, and the distance between BDs. */
  const SHIM_BD0_ADDRESS: nat := 0x1_D004
  const BD_STRIDE: nat := 0x20

  datatype PreemptOp = Save | Restore

  datatype Device = Phx | Stx

  /** One DMA: `size` bytes between a memory tile and the scratch buffer, and its address patch. */
  datatype Transfer = Transfer(col: nat, tileAddr: nat, ddrAddr: nat, size: nat, regaddr: nat, argidx: nat)

  // ----- the layout -----

  /** Half of a memory tile: what one channel moves. */
  const HALF: nat := 0x4_0000

  /** Where the scratch bytes of a column, and of half tile n, start. */
  function ColStart(c: nat): nat { 0x8_0000 * c }
  function HalfStart(n: nat): nat { 0x4_0000 * n }

  /** Transfer n of a stream moves half n % 2 of column n / 2 to or from bytes [HalfStart(n), HalfStart(n + 1)). */
  function TransferNo(kind: PreemptOp, n: nat): (t: Transfer)
    ensures t.regaddr >= 4
  {
    Transfer(n / 2, START_OF_MEM + HalfStart(n % 2), HalfStart(n), HALF,
             SHIM_BD0_ADDRESS + n / 2 * COL_SHIFT + n % 2 * BD_STRIDE,
             if kind == Save then 0 else IN_BUFFER_KERNARG_IDX)
  }

  function Transfers(kind: PreemptOp, count: nat): (ts: seq<Transfer>)
    ensures |ts| == count
    ensures forall n :: 0 <= n < count ==> ts[n] == TransferNo(kind, n)
  {
    seq(count, n requires 0 <= n => TransferNo(kind, n))
  }

  predicate ValidColumns(device: Device, startCol: nat, ncol: nat) {
    && !(device == Phx && ncol == 1 && startCol == 0)
    && ncol + startCol <= if device == Stx then NUM_COLS_STX else NUM_COLS_PHX
  }

  // ----- the generator -----

  /** Address arithmetic of saving one channel: out of the tile, into the scratch buffer. */
  method MemTileSaveContext(numElems: nat, col: nat, chan: nat) returns (t: Transfer)
    requires NUM_CHANNELS * numElems * 4 == MEMTILE_SIZE && chan < NUM_CHANNELS
    ensures t == TransferNo(Save, 2 * col + chan)
  {
    var size := numElems * 4;
    var chanAddrOffset := chan * size;
    var colAddrOffset := col * MEMTILE_SIZE;
    var dstAddrOffset := colAddrOffset + chanAddrOffset;
    var srcAddrOffset := START_OF_MEM + chanAddrOffset;
    var tileOffset := col * COL_SHIFT;
    t := Transfer(col, srcAddrOffset, dstAddrOffset, size, SHIM_BD0_ADDRESS + tileOffset + chan * 0x20, 0);
  }

  /** Address arithmetic of restoring one channel: out of the scratch buffer, into the tile. */
  method MemTileRestoreContext(numElems: nat, col: nat, chan: nat) returns (t: Transfer)
    requires NUM_CHANNELS * numElems * 4 == MEMTILE_SIZE && chan < NUM_CHANNELS
    ensures t == TransferNo(Restore, 2 * col + chan)
  {
    var size := numElems * 4;
    var chanAddrOffset := chan * size;
    var colAddrOffset := col * MEMTILE_SIZE;
    var srcAddrOffset := colAddrOffset + chanAddrOffset;
    var dstAddrOffset := START_OF_MEM + chanAddrOffset;
    var tileOffset := col * COL_SHIFT;
    t := Transfer(col, dstAddrOffset, srcAddrOffset, size, SHIM_BD0_ADDRESS + tileOffset + chan * 0x20,
                  IN_BUFFER_KERNARG_IDX);
  }

  /** The column-by-channel loops; None is the error return for a bad column range. */
  method GenerateTran(device: Device, kind: PreemptOp, startCol: nat, ncol: nat) returns (r: Option<seq<Transfer>>)
    ensures r == if ValidColumns(device, startCol, ncol) then Some(Transfers(kind, 2 * ncol)) else None
    ensures r.Some? <==> match device
                         case Stx => startCol + ncol <= 8
                         case Phx => startCol + ncol <= 5 && (startCol > 0 || ncol != 1)
  {
    if device == Phx && ncol == 1 && startCol == 0 {
      return None;
    }
    if device == Stx {
      if ncol + startCol > NUM_COLS_STX { return None; }
    } else {
      if ncol + startCol > NUM_COLS_PHX { return None; }
    }
    var dataSize := MEMTILE_SIZE / 4;
    var size := dataSize / NUM_CHANNELS;
    var ts: seq<Transfer> := [];
    for col := 0 to ncol
      invariant ts == Transfers(kind, 2 * col)
    {
      for chan := 0 to NUM_CHANNELS
        invariant ts == Transfers(kind, 2 * col + chan)
      {
        var t;
        if kind == Save {
          t := MemTileSaveContext(size, col, chan);
        } else {
          t := MemTileRestoreContext(size, col, chan);
        }
        ts := ts + [t];
      }
    }
    return Some(ts);
  }

  // ----- what the transfers do to memory -----

  /** One memory tile a column, and the scratch buffer. */
  datatype Memory = Memory(tiles: seq<seq<byte>>, ddr: seq<byte>)

  predicate Sized(m: Memory, ncol: nat) {
    && |m.tiles| == ncol && |m.ddr| >= ColStart(ncol)
    && forall c :: 0 <= c < ncol ==> |m.tiles[c]| == MEMTILE_SIZE
  }

  /** s with the bytes from `at` on replaced by `bytes`. */
  function Overwrite(s: seq<byte>, at: nat, bytes: seq<byte>): (r: seq<byte>)
    requires at + |bytes| <= |s|
    ensures |r| == |s|
    ensures forall i :: 0 <= i < |s| ==> r[i] == if at <= i < at + |bytes| then bytes[i - at] else s[i]
  {
    s[..at] + bytes + s[at + |bytes|..]
  }

  predicate InRange(m: Memory, t: Transfer) {
    && t.col < |m.tiles| && t.tileAddr >= START_OF_MEM
    && t.tileAddr - START_OF_MEM + t.size <= |m.tiles[t.col]| && t.ddrAddr + t.size <= |m.ddr|
  }

  function SaveOne(m: Memory, t: Transfer): Memory
    requires InRange(m, t)
  {
    var at := t.tileAddr - START_OF_MEM;
    m.(ddr := Overwrite(m.ddr, t.ddrAddr, m.tiles[t.col][at..at + t.size]))
  }

  function RestoreOne(m: Memory, t: Transfer): Memory
    requires InRange(m, t)
  {
    var at := t.tileAddr - START_OF_MEM;
    m.(tiles := m.tiles[t.col := Overwrite(m.tiles[t.col], at, m.ddr[t.ddrAddr..t.ddrAddr + t.size])])
  }

  lemma TransferInRange(m: Memory, ncol: nat, kind: PreemptOp, n: nat)
    requires Sized(m, ncol) && n < 2 * ncol
    ensures InRange(m, TransferNo(kind, n))
  {
  }

  /** Memory after the first n transfers of a stream. */
  function SaveTo(m: Memory, ncol: nat, n: nat): (r: Memory)
    requires Sized(m, ncol) && n <= 2 * ncol
    ensures Sized(r, ncol) && |r.ddr| == |m.ddr|
  {
    if n == 0 then m
    else
      var before := SaveTo(m, ncol, n - 1);
      TransferInRange(before, ncol, Save, n - 1);
      SaveOne(before, TransferNo(Save, n - 1))
  }

  function RestoreTo(m: Memory, ncol: nat, n: nat): (r: Memory)
    requires Sized(m, ncol) && n <= 2 * ncol
    ensures Sized(r, ncol)
  {
    if n == 0 then m
    else
      var before := RestoreTo(m, ncol, n - 1);
      TransferInRange(before, ncol, Restore, n - 1);
      RestoreOne(before, TransferNo(Restore, n - 1))
  }

  /** The scratch bytes of the transfers are disjoint and tile [0, ncol * 512K) exactly. */
  lemma TransfersTile(kind: PreemptOp, ncol: nat, i: nat)
    ensures i < 0x8_0000 * ncol <==> exists n :: 0 <= n < 2 * ncol && InScratch(TransferNo(kind, n), i)
    ensures forall m, n :: 0 <= m < n < 2 * ncol ==>
              TransferNo(kind, m).ddrAddr + TransferNo(kind, m).size <= TransferNo(kind, n).ddrAddr
  {
    if i < ColStart(ncol) {
      var n := i / HALF;
      assert InScratch(TransferNo(kind, n), i);
    }
  }

  predicate InScratch(t: Transfer, i: nat) { t.ddrAddr <= i < t.ddrAddr + t.size }

  /** A transfer moves address a of its column's tile, to or from byte i of the scratch buffer. */
  predicate Moves(t: Transfer, a: nat, i: nat) {
    t.tileAddr <= a < t.tileAddr + t.size && i - t.ddrAddr == a - t.tileAddr
  }

  /** The whole data memory of every tile is moved: address a of column c, from 512K up, belongs to byte
      a - 512K of the column's own 512K of the scratch buffer, and to no other. */
  lemma TilesMoved(kind: PreemptOp, ncol: nat, c: nat, a: nat, i: nat)
    requires c < ncol
    ensures (exists n :: 0 <= n < 2 * ncol && TransferNo(kind, n).col == c && Moves(TransferNo(kind, n), a, i)) <==>
            0x8_0000 <= a < 0x10_0000 && i == 0x8_0000 * c + a - 0x8_0000
  {
    if 0x8_0000 <= a < 0x10_0000 && i == 0x8_0000 * c + a - 0x8_0000 {
      var n := if a < 0xC_0000 then 2 * c else 2 * c + 1;
      assert n / 2 == c;
      assert TransferNo(kind, n).col == c && Moves(TransferNo(kind, n), a, i);
    }
  }

  /** A transfer's patch names the address word of shim BD 0 or 1 of the transfer's own column, and the
      kernel argument of its direction; different transfers of a stream have different registers. */
  lemma PatchInOwnColumn(kind: PreemptOp, m: nat, n: nat)
    ensures var t := TransferNo(kind, n);
            && t.regaddr / 0x200_0000 == t.col == n / 2
            && t.regaddr % 0x200_0000 == (if n % 2 == 0 then 0x1_D004 else 0x1_D024)
            && t.argidx == (match kind case Save => 0 case Restore => 1)
    ensures TransferNo(kind, m).regaddr == TransferNo(kind, n).regaddr <==> m == n
  {
    RegisterParts(n / 2, n % 2);
    RegisterParts(m / 2, m % 2);
  }

  lemma RegisterParts(c: nat, h: nat)
    requires h < 2
    ensures var r := SHIM_BD0_ADDRESS + c * COL_SHIFT + h * BD_STRIDE;
            r / 0x200_0000 == c && r % 0x200_0000 == 0x1_D004 + 0x20 * h
  {
  }

  /** Half n of the scratch buffer belongs to column n / 2, at its place in that column's tile. */
  lemma HalfPlace(n: nat, c: nat, j: nat)
    requires j < MEMTILE_SIZE
    ensures HalfStart(n) <= ColStart(c) + j < HalfStart(n + 1) <==>
            c == n / 2 && HalfStart(n % 2) <= j < HalfStart(n % 2 + 1)
    ensures c == n / 2 ==> HalfStart(n) == ColStart(c) + HalfStart(n % 2)
    ensures HalfStart(0) == 0
  {
    var k, h := n / 2, n % 2;
    assert n == 2 * k + h;
    assert HalfStart(n) == ColStart(k) + HalfStart(h);
  }

  /** After n saves the scratch buffer holds the first n half tiles and is otherwise as before. */
  lemma {:induction false} SavedByte(m: Memory, ncol: nat, n: nat, c: nat, j: nat)
    requires Sized(m, ncol) && n <= 2 * ncol && c < ncol && j < MEMTILE_SIZE
    ensures var i := ColStart(c) + j;
            SaveTo(m, ncol, n).ddr[i] == if i < HalfStart(n) then m.tiles[c][j] else m.ddr[i]
  {
    hide SaveOne, Overwrite, InRange, HalfStart, TransferNo;
    if n > 0 {
      SavedByte(m, ncol, n - 1, c, j);
      SaveKeepsTiles(m, ncol, n - 1);
      SaveStep(m, ncol, n - 1);
      SavedByteStep(m, SaveTo(m, ncol, n - 1), n - 1, c, j);
    } else {
      assert HalfStart(0) == 0 by { HalfPlace(0, 0, 0); }
    }
  }

  lemma SavedByteStep(m: Memory, before: Memory, n: nat, c: nat, j: nat)
    requires c < |m.tiles| && j < MEMTILE_SIZE == |m.tiles[c]|
    requires before.tiles == m.tiles && |before.ddr| == |m.ddr| && ColStart(c) + j < |m.ddr|
    requires InRange(before, TransferNo(Save, n))
    requires var i := ColStart(c) + j; before.ddr[i] == if i < HalfStart(n) then m.tiles[c][j] else m.ddr[i]
    ensures var i := ColStart(c) + j;
            SaveOne(before, TransferNo(Save, n)).ddr[i] == if i < HalfStart(n + 1) then m.tiles[c][j] else m.ddr[i]
  {
    hide SaveOne, Overwrite;
    SaveOneByte(before, TransferNo(Save, n), ColStart(c) + j);
    HalfPlace(n, c, j);
  }

  lemma SaveOneByte(m: Memory, t: Transfer, i: nat)
    requires InRange(m, t) && i < |m.ddr|
    ensures SaveOne(m, t).ddr[i] ==
            if t.ddrAddr <= i < t.ddrAddr + t.size then m.tiles[t.col][t.tileAddr - START_OF_MEM + (i - t.ddrAddr)]
            else m.ddr[i]
  {
  }

  lemma SaveStep(m: Memory, ncol: nat, n: nat)
    requires Sized(m, ncol) && n < 2 * ncol
    ensures InRange(SaveTo(m, ncol, n), TransferNo(Save, n))
    ensures SaveTo(m, ncol, n + 1) == SaveOne(SaveTo(m, ncol, n), TransferNo(Save, n))
  {
    hide Sized, SaveOne;
    TransferInRange(SaveTo(m, ncol, n), ncol, Save, n);
  }

  lemma RestoreStep(m: Memory, ncol: nat, n: nat)
    requires Sized(m, ncol) && n < 2 * ncol
    ensures InRange(RestoreTo(m, ncol, n), TransferNo(Restore, n))
    ensures RestoreTo(m, ncol, n + 1) == RestoreOne(RestoreTo(m, ncol, n), TransferNo(Restore, n))
  {
    hide Sized, RestoreOne;
    TransferInRange(RestoreTo(m, ncol, n), ncol, Restore, n);
  }

  /** Saving touches no tile and nothing of the scratch buffer past the columns. */
  lemma {:induction false} SaveKeepsTiles(m: Memory, ncol: nat, n: nat)
    requires Sized(m, ncol) && n <= 2 * ncol
    ensures SaveTo(m, ncol, n).tiles == m.tiles
    ensures forall i :: ColStart(ncol) <= i < |m.ddr| ==> SaveTo(m, ncol, n).ddr[i] == m.ddr[i]
  {
    hide Sized, TransferNo, SaveOne, InRange;
    if n > 0 {
      SaveKeepsTiles(m, ncol, n - 1);
      SaveStep(m, ncol, n - 1);
      SaveStaysInColumns(SaveTo(m, ncol, n - 1), ncol, n - 1);
    }
  }

  lemma SaveStaysInColumns(m: Memory, ncol: nat, n: nat)
    requires n < 2 * ncol && InRange(m, TransferNo(Save, n))
    ensures SaveOne(m, TransferNo(Save, n)).tiles == m.tiles && |SaveOne(m, TransferNo(Save, n)).ddr| == |m.ddr|
    ensures forall i :: ColStart(ncol) <= i < |m.ddr| ==> SaveOne(m, TransferNo(Save, n)).ddr[i] == m.ddr[i]
  {
  }

  lemma RestoreOneByte(m: Memory, t: Transfer, c: nat, j: nat)
    requires InRange(m, t) && c < |m.tiles| && j < |m.tiles[c]|
    ensures var r, at := RestoreOne(m, t), t.tileAddr - START_OF_MEM;
            && r.ddr == m.ddr && |r.tiles| == |m.tiles| && |r.tiles[c]| == |m.tiles[c]|
            && r.tiles[c][j] == if c == t.col && at <= j < at + t.size then m.ddr[t.ddrAddr + j - at] else m.tiles[c][j]
  {
  }

  /** After n restores the first n half tiles hold the scratch bytes. */
  lemma {:induction false} RestoredByte(m: Memory, ncol: nat, n: nat, c: nat, j: nat)
    requires Sized(m, ncol) && n <= 2 * ncol && c < ncol && j < MEMTILE_SIZE
    ensures var i := ColStart(c) + j;
            RestoreTo(m, ncol, n).tiles[c][j] == if i < HalfStart(n) then m.ddr[i] else m.tiles[c][j]
    ensures RestoreTo(m, ncol, n).ddr == m.ddr
  {
    hide RestoreOne, Overwrite, InRange;
    if n > 0 {
      RestoredByte(m, ncol, n - 1, c, j);
      RestoreStep(m, ncol, n - 1);
      RestoreOneByte(RestoreTo(m, ncol, n - 1), TransferNo(Restore, n - 1), c, j);
      HalfPlace(n - 1, c, j);
    }
  }

  /** Save, anything that leaves the scratch buffer's saved bytes alone, restore: every tile is back. */
  lemma SaveThenRestore(m: Memory, ncol: nat, scrambled: Memory)
    requires Sized(m, ncol) && Sized(scrambled, ncol)
    requires forall i :: 0 <= i < ColStart(ncol) ==> scrambled.ddr[i] == SaveTo(m, ncol, 2 * ncol).ddr[i]
    ensures RestoreTo(scrambled, ncol, 2 * ncol).tiles == m.tiles
  {
    hide SaveTo, RestoreTo, InRange;
    var r := RestoreTo(scrambled, ncol, 2 * ncol);
    forall c | 0 <= c < ncol ensures r.tiles[c] == m.tiles[c] {
      forall j | 0 <= j < MEMTILE_SIZE ensures r.tiles[c][j] == m.tiles[c][j] {
        ByteBack(m, ncol, scrambled, c, j);
      }
    }
  }

  lemma ByteBack(m: Memory, ncol: nat, scrambled: Memory, c: nat, j: nat)
    requires Sized(m, ncol) && Sized(scrambled, ncol) && c < ncol && j < MEMTILE_SIZE
    requires var i := ColStart(c) + j; scrambled.ddr[i] == SaveTo(m, ncol, 2 * ncol).ddr[i]
    ensures RestoreTo(scrambled, ncol, 2 * ncol).tiles[c][j] == m.tiles[c][j]
  {
    hide SaveTo, RestoreTo, InRange;
    SavedByte(m, ncol, 2 * ncol, c, j);
    RestoredByte(scrambled, ncol, 2 * ncol, c, j);
  }
}
