/**
 What a stream does to the device, and what patching leaves of it.

 WRITE, BLOCKWRITE and MASKWRITE are interpreted on a file of 32-bit registers, bit by bit.  The
 patched stream drives the device to the same state as the original except in address bits of the
 BDs the patches name.
 */
module Device {
  import opened Bytes
  import opened Symbols
  import opened TxnLayout
  import opened TxnMachine
  import opened TxnRuns
  import opened ShimBits
  import opened PatchSafety

  // ----- bits -----

  function ByteBit(v: byte, j: nat): bool
    requires j < 8
  {
    if j == 0 then v % 2 == 1 else ByteBit(v / 2, j - 1)
  }

  /** Bit `bit` of the little-endian word at byte d of a stretch. */
  function WordBit(s: seq<byte>, d: nat, bit: nat): bool
    requires bit < 32
  {
    ByteBit(ByteAt(s, d + bit / 8), bit % 8)
  }

  lemma ZeroHasNoBits(j: nat)
    requires j < 8
    ensures !ByteBit(0, j)
  {
    if j > 0 {
      ZeroHasNoBits(j - 1);
    }
  }

  lemma LowBitsOfMod4(v: byte, j: nat)
    requires j < 8
    ensures j < 2 ==> ByteBit(v % 4, j) == ByteBit(v, j)
    ensures ByteBit(v % 4, j) ==> ByteBit(v, j)
  {
    if j >= 2 {
      assert v % 4 / 2 / 2 == 0;
      assert ByteBit(v % 4, j) == ByteBit(v % 4 / 2, j - 1) == ByteBit(0, j - 2);
      ZeroHasNoBits(j - 2);
    } else if j == 1 {
      assert v % 4 / 2 == v / 2 % 2;
    }
  }

  // ----- the register file -----

  /** Byte of the payload whose word a block-write sends to register r. */
  function WordFor(enc: Encoding, op: Op, r: nat): Option<nat> {
    if op.BlockWrite? && r < KeySpace(enc) then
      var d := (r - op.reg) % KeySpace(enc);
      if d % 4 == 0 && d + 4 <= |op.payload| then Some(d) else None
    else None
  }

  /** Bit `bit` of register r after the first k ops, starting from `init`. */
  ghost function BitAfter(enc: Encoding, ops: seq<Op>, init: (nat, nat) -> bool, k: nat, r: nat, bit: nat): bool
    requires k <= |ops| && bit < 32
  {
    if k == 0 then init(r, bit)
    else
      var before := BitAfter(enc, ops, init, k - 1, r, bit);
      match ops[k - 1]
      case Write(reg, value) => if reg == r then WordBit(value, 0, bit) else before
      case MaskWrite(reg, mask, value) => if reg == r && WordBit(mask, 0, bit) then WordBit(value, 0, bit) else before
      case BlockWrite(_, payload) =>
        (match WordFor(enc, ops[k - 1], r)
         case Some(d) => WordBit(payload, d, bit)
         case None => before)
      case _ => before
  }

  // ----- one cleared payload -----

  /** Bit `bit` of the word at payload byte d belongs to the address in the BD that starts at bd. */
  predicate InAddress(bd: nat, d: nat, bit: nat) {
    (d == bd + 4 && bit >= 2) || (d == bd + 8 && bit < 16)
  }

  ghost predicate AddressWord(bytes: seq<nat>, d: nat, bit: nat) {
    exists n :: 0 <= n < |bytes| && InAddress(bytes[n], d, bit)
  }

  /** Clearing BDs in a payload changes only address bits, and only from 1 to 0. */
  lemma {:induction false} PayloadBits(payload: seq<byte>, bytes: seq<nat>, d: nat, bit: nat)
    requires bit < 32 && d % 4 == 0 && d + 4 <= |payload| && Aligned(bytes)
    ensures WordBit(ClearAll(payload, bytes), d, bit) ==> WordBit(payload, d, bit)
    ensures !AddressWord(bytes, d, bit) ==> WordBit(ClearAll(payload, bytes), d, bit) == WordBit(payload, d, bit)
    decreases |bytes|
  {
    if bytes != [] {
      var before, bd := bytes[..|bytes| - 1], bytes[|bytes| - 1];
      assert forall n :: 0 <= n < |before| ==> before[n] == bytes[n];
      PayloadBits(payload, before, d, bit);
      OneClear(ClearAll(payload, before), bd, d, bit);
      if !AddressWord(bytes, d, bit) {
        assert !InAddress(bd, d, bit);
        assert !AddressWord(before, d, bit);
      }
    }
  }

  lemma OneClear(payload: seq<byte>, bd: nat, d: nat, bit: nat)
    requires bit < 32 && d % 4 == 0 && d + 4 <= |payload| && bd % SHIM_DMA_BD_SIZE == 0
    ensures WordBit(Clear(payload, bd), d, bit) ==> WordBit(payload, d, bit)
    ensures !InAddress(bd, d, bit) ==> WordBit(Clear(payload, bd), d, bit) == WordBit(payload, d, bit)
  {
    hide ByteBit;
    var q, j := d + bit / 8, bit % 8;
    WordReach(bd, d, bit);
    if q == bd + 4 {
      LowBitsOfMod4(payload[q], j);
    } else if bd + 5 <= q < bd + BD_TOUCHED {
      ZeroHasNoBits(j);
    }
  }

  /** Which words, and which of their bits, the touched bytes of a BD hold. */
  lemma WordReach(bd: nat, d: nat, bit: nat)
    requires bit < 32 && d % 4 == 0 && bd % SHIM_DMA_BD_SIZE == 0
    ensures var q := d + bit / 8;
            && (q == bd + 4 ==> d == bd + 4 && bit == bit % 8)
            && (bd + 5 <= q < bd + BD_TOUCHED ==> InAddress(bd, d, bit))
  {
    var x, y := d / 4, bd / 32;
    assert d == 4 * x && bd == 4 * (8 * y);
    if x <= 8 * y {
    } else if x == 8 * y + 1 {
    } else if x == 8 * y + 2 {
    } else {
    }
  }

  // ----- the simulation -----

  /** Register bit (r, bit) is an address bit of one of the cleared BDs. */
  ghost predicate ClearedBit(enc: Encoding, ops: seq<Op>, places: seq<Loc>, r: nat, bit: nat) {
    exists n :: 0 <= n < |places| && PlaceBit(enc, ops, places[n], r, bit)
  }

  predicate PlaceBit(enc: Encoding, ops: seq<Op>, bd: Loc, r: nat, bit: nat) {
    && bd.op < |ops| && ops[bd.op].BlockWrite?
    && ((r == (ops[bd.op].reg + bd.byte + 4) % KeySpace(enc) && bit >= 2)
        || (r == (ops[bd.op].reg + bd.byte + 8) % KeySpace(enc) && bit < 16))
  }

  lemma {:induction false} BytesInSource(places: seq<Loc>, k: nat, n: nat) returns (m: nat)
    requires n < |BytesIn(places, k)|
    ensures m < |places| && places[m] == Loc(k, BytesIn(places, k)[n])
    decreases |places|
  {
    var before, last := places[..|places| - 1], places[|places| - 1];
    if last.op == k && n == |BytesIn(before, k)| {
      m := |places| - 1;
    } else {
      m := BytesInSource(before, k, n);
    }
  }

  /** A payload word with an address bit goes to a register with that address bit. */
  lemma AddressWordIsClearedBit(enc: Encoding, ops: seq<Op>, places: seq<Loc>, k: nat, r: nat, bit: nat)
    requires k < |ops| && ops[k].BlockWrite? && |ops[k].payload| < TWO_32 && WordFor(enc, ops[k], r).Some?
    requires AddressWord(BytesIn(places, k), WordFor(enc, ops[k], r).value, bit)
    ensures ClearedBit(enc, ops, places, r, bit)
  {
    var d, bytes := WordFor(enc, ops[k], r).value, BytesIn(places, k);
    var n :| 0 <= n < |bytes| && InAddress(bytes[n], d, bit);
    var m := BytesInSource(places, k, n);
    ModularDistance(KeySpace(enc), ops[k].reg, r, d);
    assert PlaceBit(enc, ops, places[m], r, bit);
  }

  /** Simulation over any op sequence: clearing BDs changes only their address bits, from 1 to 0. */
  lemma {:induction false} Simulation(enc: Encoding, ops: seq<Op>, places: seq<Loc>, init: (nat, nat) -> bool,
                                      k: nat, r: nat, bit: nat)
    requires k <= |ops| && bit < 32 && SizesFit(ops) && ChunkList(ops, |ops|, places)
    ensures var patched := BitAfter(enc, ClearedOps(ops, places), init, k, r, bit);
            var original := BitAfter(enc, ops, init, k, r, bit);
            && (patched ==> original)
            && (!ClearedBit(enc, ops, places, r, bit) ==> patched == original)
  {
    hide BytesIn, ClearAll, WordBit, ClearedBit, AddressWord, SizesFit;
    if k > 0 {
      Simulation(enc, ops, places, init, k - 1, r, bit);
      if ops[k - 1].BlockWrite? && WordFor(enc, ops[k - 1], r).Some? {
        var d := WordFor(enc, ops[k - 1], r).value;
        BytesInAligned(ops, places, k - 1);
        PayloadBits(ops[k - 1].payload, BytesIn(places, k - 1), d, bit);
        if AddressWord(BytesIn(places, k - 1), d, bit) {
          PayloadFits(ops, k - 1);
          AddressWordIsClearedBit(enc, ops, places, k - 1, r, bit);
        }
      }
    }
  }

  lemma PayloadFits(ops: seq<Op>, k: nat)
    requires SizesFit(ops) && k < |ops| && ops[k].BlockWrite?
    ensures |ops[k].payload| < TWO_32
  {
  }
}
