/**
 Patches land in the right BD: the bytes cleared for a patch are those the block-write sends to the
 registers the patch names, and no others; from this, meaning preservation in terms of the stream.
 */
module PatchTargets {
  import opened Bytes
  import opened Symbols
  import opened TxnLayout
  import opened TxnMachine
  import opened TxnRuns
  import opened ShimBits
  import opened TransactionInput
  import opened PatchSafety
  import opened Device

  /** The register of word 1 of the shim BD that op k patches, if it patches one. */
  function PatchedRegister(enc: Encoding, ops: seq<Op>, k: nat): Option<nat>
    requires k < |ops|
  {
    match ops[k]
    case DdrPatch(regaddr, _, _) =>
      if ClassOf(TileReg(regaddr)) == ShimBase then Some(regaddr % TWO_32) else None
    case BlockWrite(reg, _) =>
      if InPm(enc, ops, k) && ClassOf(TileReg(reg) + 4) == ShimBase then Some((reg + 4) % KeySpace(enc)) else None
    case _ => None
  }

  /** Masking off the low four bits of an address classified as shim BD word 1 gives the BD. */
  lemma BaseOfWordOne(regaddr: nat)
    requires ClassOf(TileReg(regaddr)) == ShimBase
    ensures BdBase(regaddr) + 4 == regaddr % TWO_32
    ensures BdBase(regaddr) + BD_TOUCHED < TWO_32
  {
    hide TileReg;
    var low, t := regaddr % TWO_32, TileReg(regaddr);
    TileRegOfLow(regaddr);
    LowBitsPastTable(low / 0x10_0000, t, SHIM_DMA_BD0_0, SHIM_DMA_BD_NUM);
  }

  lemma TileRegOfLow(regaddr: nat)
    ensures regaddr % TWO_32 == 0x10_0000 * (regaddr % TWO_32 / 0x10_0000) + TileReg(regaddr)
  {
    var p, low := regaddr / TWO_32, regaddr % TWO_32;
    assert regaddr == 0x10_0000 * (0x1000 * p) + low;
  }

  /** A shim BD is cleared for op k exactly when op k patches one, and it is the BD whose word 1 the
      block-write sends to the patched register. */
  lemma ClearedForPatch(enc: Encoding, env: Env, ops: seq<Op>, k: nat)
    requires k < |ops| && SizesFit(ops) && VerdictAt(enc, env, ops, k).Accept?
    ensures var cleared := VerdictAt(enc, env, ops, k).effect.cleared;
            match PatchedRegister(enc, ops, k)
            case None => cleared == []
            case Some(r) =>
              && |cleared| == 1
              && var bd := cleared[0];
              && bd.op <= k && ops[bd.op].BlockWrite? && bd.byte < |ops[bd.op].payload|
              && (ops[bd.op].reg + bd.byte + 4) % KeySpace(enc) == r
              && (ops[bd.op].reg + bd.byte + 8) % KeySpace(enc) == (r + 4) % KeySpace(enc)
  {
    hide LengthInBytes, ShimName, PmName, WindowAt, BackScan, BdBase, KeySpace, ClassOf;
    if ops[k].DdrPatch? && PatchedRegister(enc, ops, k).Some? {
      IndexedBd(enc, ops, k);
    } else if ops[k].BlockWrite? && PatchedRegister(enc, ops, k).Some? {
      ShiftMod(KeySpace(enc), ops[k].reg + 4, (ops[k].reg + 4) % KeySpace(enc), 4);
    }
  }

  /** A chunk found under a register key is the one whose first word goes there. */
  lemma ChunkMeaning(enc: Encoding, op: Op, r: nat)
    requires ChunkAt(enc, op, r).Some?
    ensures var d := ChunkAt(enc, op, r).value;
            && op.BlockWrite? && d < |op.payload| && d % SHIM_DMA_BD_SIZE == 0
            && (op.reg + d) % KeySpace(enc) == r && r < KeySpace(enc)
  {
    hide KeySpace;
    ModularDistance(KeySpace(enc), op.reg, r, ChunkAt(enc, op, r).value);
  }

  /** The BD indexed for a patch of word 1 is the one whose words 1 and 2 go to the patched register
      and the next. */
  lemma IndexedBd(enc: Encoding, ops: seq<Op>, k: nat)
    requires k < |ops| && ops[k].DdrPatch? && PatchedRegister(enc, ops, k).Some? && BdFor(enc, ops, k).Some?
    ensures var bd, r := BdFor(enc, ops, k).value, PatchedRegister(enc, ops, k).value;
            && bd.op < k && ops[bd.op].BlockWrite? && bd.byte < |ops[bd.op].payload|
            && (ops[bd.op].reg + bd.byte + 4) % KeySpace(enc) == r
            && (ops[bd.op].reg + bd.byte + 8) % KeySpace(enc) == (r + 4) % KeySpace(enc)
  {
    hide WindowAt, BackScan, KeySpace, ChunkAt, BdBase, ClassOf, TileReg;
    var base, bd := BdBase(ops[k].regaddr), BdFor(enc, ops, k).value;
    BackScanMeaning(enc, ops, k, base);
    ChunkMeaning(enc, ops[bd.op], base);
    BaseOfWordOne(ops[k].regaddr);
    NextWords(enc, ops[bd.op].reg + bd.byte, base);
  }

  /** The words after the one at a 16-aligned 32-bit register. */
  lemma NextWords(enc: Encoding, at: nat, base: nat)
    requires at % KeySpace(enc) == base && base + BD_TOUCHED < TWO_32
    ensures (at + 4) % KeySpace(enc) == base + 4 && (at + 8) % KeySpace(enc) == base + 8
    ensures (base + 8) % KeySpace(enc) == base + 8
  {
    ShiftMod(KeySpace(enc), at, base, 4);
    ShiftMod(KeySpace(enc), at, base, 8);
  }

  lemma ShiftMod(w: nat, a: nat, r: nat, d: nat)
    requires w == TWO_32 || w == TWO_64
    requires a % w == r
    ensures (a + d) % w == (r + d) % w
  {
    if w == TWO_32 {
    } else {
    }
  }

  /** The payload bytes cleared for a DDR patch are exactly the ones that reach the register it names
      and the low half of the next one. */
  lemma RightBytes(enc: Encoding, env: Env, ops: seq<Op>, k: nat, q: nat)
    requires k < |ops| && SizesFit(ops) && ops[k].DdrPatch? && PatchedRegister(enc, ops, k).Some?
    requires VerdictAt(enc, env, ops, k).Accept?
    ensures |VerdictAt(enc, env, ops, k).effect.cleared| == 1
    ensures var bd, r := VerdictAt(enc, env, ops, k).effect.cleared[0], ops[k].regaddr % TWO_32;
            bd.op < k && ops[bd.op].BlockWrite? &&
            (q < |ops[bd.op].payload| ==>
               (bd.byte + 4 <= q < bd.byte + BD_TOUCHED <==> r <= (ops[bd.op].reg + q) % KeySpace(enc) < r + 6))
  {
    hide LengthInBytes, ShimName, PmName, WindowAt, ClassOf, KeySpace, BackScan, TileReg, BdBase, Decimal, InPm;
    ClearedForPatch(enc, env, ops, k);
    BaseOfWordOne(ops[k].regaddr);
    var bd := VerdictAt(enc, env, ops, k).effect.cleared[0];
    ScanIsEarlier(enc, ops, k);
    if q < |ops[bd.op].payload| {
      assert bd.byte <= TWO_32 - SHIM_DMA_BD_SIZE;
      WindowMod(KeySpace(enc), ops[bd.op].reg + bd.byte + 4, ops[k].regaddr % TWO_32, ops[bd.op].reg + q);
    }
  }

  lemma ScanIsEarlier(enc: Encoding, ops: seq<Op>, k: nat)
    requires k < |ops|
    ensures BdFor(enc, ops, k).Some? ==>
              BdFor(enc, ops, k).value.op < k && BdFor(enc, ops, k).value.byte % SHIM_DMA_BD_SIZE == 0
  {
    hide InPm, ChunkAt, BackScan, BdBase;
    if BdFor(enc, ops, k).Some? {
      BackScanMeaning(enc, ops, k, BdBase(ops[k].regaddr));
      ChunkMeaning(enc, ops[BdFor(enc, ops, k).value.op], BdBase(ops[k].regaddr));
    }
  }

  /** Six consecutive addresses, seen modulo the register space. */
  lemma WindowMod(w: nat, a: nat, r: nat, x: nat)
    requires w == TWO_32 || w == TWO_64
    requires a % w == r && r + 6 <= w && 6 - w as int <= x - a < w
    ensures a <= x < a + 6 <==> r <= x % w < r + 6
  {
    var t := x - a;
    if r + t < 0 {
      assert x % w == r + t + w by { FoldMod(w, a, r, t, 1); }
    } else if r + t < w {
      assert x % w == r + t by { FoldMod(w, a, r, t, 0); }
    } else {
      assert x % w == r + t - w by { FoldMod(w, a, r, t, -1); }
    }
  }

  lemma FoldMod(w: nat, a: nat, r: nat, t: int, n: int)
    requires w == TWO_32 || w == TWO_64
    requires a % w == r && 0 <= r + t + n * w < w
    ensures (a + t) % w == r + t + n * w
  {
    if w == TWO_32 {
    } else {
    }
  }

  // ----- every symbol points at the register its patch names -----

  /** At most one of the four BD words is at a register. */
  lemma ClassesDisjoint(reg: nat)
    ensures var memLength := InTable(reg, MEM_DMA_BD0_0, MEM_DMA_BD_NUM);
            var memBase := InTable(reg - 4, MEM_DMA_BD0_0, MEM_DMA_BD_NUM);
            var shimLength := InTable(reg, SHIM_DMA_BD0_0, SHIM_DMA_BD_NUM);
            var shimBase := InTable(reg - 4, SHIM_DMA_BD0_0, SHIM_DMA_BD_NUM);
            && !(memLength && (memBase || shimLength || shimBase))
            && !(memBase && (shimLength || shimBase)) && !(shimLength && shimBase)
  {
  }

  /** The four kinds of BD word a register, seen inside its tile, can be: words 0 and 1 of the 48 BDs of a
      memory tile and of the 16 BDs of a shim tile. */
  lemma BdRegisters(reg: nat)
    ensures ClassOf(reg) == MemLength <==> exists n :: 0 <= n < 48 && reg == NthBd(0xA_0000, n)
    ensures ClassOf(reg) == MemBase <==> exists n :: 0 <= n < 48 && reg == NthBd(0xA_0004, n)
    ensures ClassOf(reg) == ShimLength <==> exists n :: 0 <= n < 16 && reg == NthBd(0x1_D000, n)
    ensures ClassOf(reg) == ShimBase <==> exists n :: 0 <= n < 16 && reg == NthBd(0x1_D004, n)
  {
    TableIsBds(reg, 0xA_0000, 48);
    TableIsBds(reg - 4, 0xA_0000, 48);
    TableIsBds(reg, 0x1_D000, 16);
    TableIsBds(reg - 4, 0x1_D000, 16);
    assert forall n :: NthBd(0xA_0004, n) == NthBd(0xA_0000, n) + 4;
    assert forall n :: NthBd(0x1_D004, n) == NthBd(0x1_D000, n) + 4;
    ClassesDisjoint(reg);
  }

  function NthBd(first: nat, n: int): int { first + 32 * n }

  lemma TableIsBds(reg: int, first: nat, count: nat)
    ensures InTable(reg, first, count) <==> exists n :: 0 <= n < count && reg == NthBd(first, n)
  {
    if InTable(reg, first, count) {
      assert reg == NthBd(first, (reg - first) / 32);
    }
  }

  /** Word 0 registers are BD addresses; word 1 registers are four bytes further. */
  lemma BaseOfClass(regaddr: nat)
    ensures match ClassOf(TileReg(regaddr))
            case MemLength => BdBase(regaddr) == regaddr % TWO_32
            case ShimLength => BdBase(regaddr) == regaddr % TWO_32
            case MemBase => BdBase(regaddr) + 4 == regaddr % TWO_32
            case ShimBase => BdBase(regaddr) + 4 == regaddr % TWO_32
            case NoBd => true
  {
    hide TileReg;
    TileRegOfLow(regaddr);
    LowBitsOfClass(regaddr % TWO_32 / 0x10_0000, TileReg(regaddr));
  }

  lemma LowBitsOfClass(q: nat, t: nat)
    ensures match ClassOf(t)
            case MemLength => (0x10_0000 * q + t) % 16 == 0
            case ShimLength => (0x10_0000 * q + t) % 16 == 0
            case MemBase => (0x10_0000 * q + t) % 16 == 4
            case ShimBase => (0x10_0000 * q + t) % 16 == 4
            case NoBd => true
  {
    hide InTable;
    match ClassOf(t)
    case MemLength => LowBitsInTable(q, t, MEM_DMA_BD0_0, MEM_DMA_BD_NUM);
    case ShimLength => LowBitsInTable(q, t, SHIM_DMA_BD0_0, SHIM_DMA_BD_NUM);
    case MemBase => LowBitsPastTable(q, t, MEM_DMA_BD0_0, MEM_DMA_BD_NUM);
    case ShimBase => LowBitsPastTable(q, t, SHIM_DMA_BD0_0, SHIM_DMA_BD_NUM);
    case NoBd =>
  }

  lemma LowBitsInTable(q: nat, t: nat, bd0: nat, num: nat)
    requires bd0 % 16 == 0 && InTable(t, bd0, num)
    ensures (0x10_0000 * q + t) % 16 == 0
  {
    var m, c := (t - bd0) / 32, bd0 / 16;
    assert bd0 == 16 * c && t == 16 * c + 32 * m;
    LowBitsOfSum(q, c, m, 0);
  }

  lemma LowBitsPastTable(q: nat, t: nat, bd0: nat, num: nat)
    requires bd0 % 16 == 0 && InTable(t - 4, bd0, num)
    ensures (0x10_0000 * q + t) % 16 == 4
  {
    var m, c := (t - 4 - bd0) / 32, bd0 / 16;
    assert bd0 == 16 * c && t == 16 * c + 32 * m + 4;
    LowBitsOfSum(q, c, m, 4);
  }

  lemma LowBitsOfSum(q: nat, c: nat, m: nat, low: nat)
    requires low < 16
    ensures (0x10_0000 * q + (16 * c + 32 * m + low)) % 16 == low
  {
    LowBitsOfMultiple(0x1_0000 * q + c + 2 * m, low);
  }

  lemma LowBitsOfMultiple(n: nat, low: nat)
    requires low < 16
    ensures (16 * n + low) % 16 == low
  {
  }

  /** An accepted DDR patch emits one symbol when it names a BD word and none otherwise.  A masked
      32-bit patch stands on the very word the block-write sends to the named register; a shim address
      patch stands on the start of that register's BD and carries the BD's length. */
  lemma SymbolAtRegister(enc: Encoding, env: Env, ops: seq<Op>, k: nat)
    requires k < |ops| && SizesFit(ops) && ops[k].DdrPatch? && VerdictAt(enc, env, ops, k).Accept?
    ensures var relocs, regaddr := VerdictAt(enc, env, ops, k).effect.relocs, ops[k].regaddr;
            var c := ClassOf(TileReg(regaddr));
            if c == NoBd then relocs == []
            else
              && |relocs| == 1 && relocs[0].addend == ops[k].argplus <= 0xFFFF_FFFF
              && var place := relocs[0].place;
              && place.op < k && ops[place.op].BlockWrite? && place.byte % 4 == 0
              && place.byte < |ops[place.op].payload| + 4
              && if c == ShimBase then
                   && relocs[0].schema == ShimDma48 && place.byte < |ops[place.op].payload|
                   && (ops[place.op].reg + place.byte + 4) % KeySpace(enc) == regaddr % TWO_32
                   && relocs[0].size == 4 * U32At(ops[place.op].payload, place.byte) % 0x1_0000_0000
                   && relocs[0].name == NameOfArgument(env, ops[k].argidx)
                 else
                   && relocs[0].schema == Scaler32
                   && (ops[place.op].reg + place.byte) % KeySpace(enc) == regaddr % TWO_32
                   && relocs[0].size ==
                      (if c == MemBase then 0x7_FFFF else if c == MemLength then 0x1_FFFF else 0xFFFF_FFFF)
                   && relocs[0].name == Decimal((ops[k].argidx + 3) % TWO_32)
  {
    hide U32At, ShimName, PmName, WindowAt, BackScan, BdBase, ClassOf, InPm, KeySpace, BdFor, Decimal;
    FoundBd(enc, ops, k);
    BaseOfClass(ops[k].regaddr);
    ShimNameOfPatch(env, ops[k].argidx);
  }

  /** A block-write in PM mode stands under the latest LOAD_PM_START, within its count for the legacy walker.
      It is always accepted: the word behind the one it begins with decides what it emits, a shim BD being
      cleared and named after that load's PM id. */
  lemma SymbolInPmMode(enc: Encoding, env: Env, ops: seq<Op>, k: nat)
    requires k < |ops| && ops[k].BlockWrite? && InPm(enc, ops, k)
    ensures var last := LastLoad(ops, k);
            && 0 <= last < k && ops[last].LoadPm? && (enc == Legacy ==> k - last <= ops[last].count)
            && VerdictAt(enc, env, ops, k).Accept?
            && var effect := VerdictAt(enc, env, ops, k).effect;
            match ClassOf(TileReg(ops[k].reg) + 4)
            case NoBd => effect == NOTHING
            case ShimBase =>
              effect == Effect([Reloc("ctrlpkt-pm-" + Decimal(ops[last].id), Loc(k, 0), 0,
                                      4 * U32At(ops[k].payload, 0) % 0x1_0000_0000, ShimDma48)], [Loc(k, 0)])
            case ShimLength => effect == Effect([Reloc("0", Loc(k, 0), 0, 0xFFFF_FFFF, Scaler32)], [])
            case MemLength => effect == Effect([Reloc("0", Loc(k, 0), 0, 0x1_FFFF, Scaler32)], [])
            case MemBase => effect == Effect([Reloc("0", Loc(k, 4), 0, 0x7_FFFF, Scaler32)], [])
  {
    hide U32At, ClassOf, TileReg;
    assert |PmName(PmAt(ops, k))| > 0;
    assert Decimal(0) == "0";
  }

  /** The name of a shim patch: the run's own, else the external buffer's with that 32-bit index, else the
      number of the kernel argument, three above the index. */
  function NameOfArgument(env: Env, argidx: nat): string {
    if env.argname != [] then env.argname
    else if argidx % TWO_32 in env.xrt then env.xrt[argidx % TWO_32]
    else Decimal((argidx + 3) % TWO_32)
  }

  /** Adding the argument offset and taking it off again, both in 32 bits, finds the buffer's own index. */
  lemma ShimNameOfPatch(env: Env, argidx: nat)
    ensures ShimName(env.xrt, env.argname, (argidx + ARG_OFFSET) % TWO_32) == NameOfArgument(env, argidx)
  {
    var low := argidx % TWO_32;
    assert ((argidx + ARG_OFFSET) % TWO_32 - ARG_OFFSET) % TWO_32 == low;
  }

  lemma FoundBd(enc: Encoding, ops: seq<Op>, k: nat)
    requires k < |ops| && ops[k].DdrPatch? && BdFor(enc, ops, k).Some?
    ensures var bd, base := BdFor(enc, ops, k).value, BdBase(ops[k].regaddr);
            && bd.op < k && ops[bd.op].BlockWrite? && bd.byte % 4 == 0 && bd.byte < |ops[bd.op].payload|
            && (ops[bd.op].reg + bd.byte) % KeySpace(enc) == base
            && (ops[bd.op].reg + bd.byte + 4) % KeySpace(enc) == base + 4
  {
    hide WindowAt, BackScan, InPm, ChunkAt, KeySpace, BdBase;
    var base, bd := BdBase(ops[k].regaddr), BdFor(enc, ops, k).value;
    BackScanMeaning(enc, ops, k, base);
    ChunkMeaning(enc, ops[bd.op], base);
    ChunkIsWordAligned(bd.byte);
    NextWord(enc, ops[bd.op].reg + bd.byte, base);
  }

  lemma NextWord(enc: Encoding, at: nat, base: nat)
    requires at % KeySpace(enc) == base && base % 16 == 0 && base < TWO_32
    ensures (at + 4) % KeySpace(enc) == base + 4
  {
    ShiftMod(KeySpace(enc), at, base, 4);
    assert base + 4 < TWO_32;
  }

  lemma ChunkIsWordAligned(d: nat)
    requires d % SHIM_DMA_BD_SIZE == 0
    ensures d % 4 == 0
  {
    var n := d / SHIM_DMA_BD_SIZE;
    assert d == 4 * (8 * n);
  }

  // ----- which register bits a whole run clears -----

  /** Register bit (r, bit) is in the address of the BD whose word 1 is register `base`. */
  predicate AddressBit(enc: Encoding, base: nat, r: nat, bit: nat) {
    (r == base && bit >= 2) || (r == (base + 4) % KeySpace(enc) && bit < 16)
  }

  ghost predicate PatchedBit(enc: Encoding, ops: seq<Op>, k: nat, r: nat, bit: nat)
    requires k <= |ops|
  {
    exists j :: 0 <= j < k && PatchedRegister(enc, ops, j).Some?
                && AddressBit(enc, PatchedRegister(enc, ops, j).value, r, bit)
  }

  /** The bits cleared by the first k ops are exactly the address bits of the BDs they patch. */
  lemma {:induction false} ClearedBitsArePatchedBits(enc: Encoding, env: Env, ops: seq<Op>, k: nat, r: nat, bit: nat)
    requires k <= |ops| && SizesFit(ops) && Accepted(enc, env, ops, k)
    ensures ClearedBit(enc, ops, ClearedBy(enc, env, ops, k), r, bit) <==> PatchedBit(enc, ops, k, r, bit)
  {
    hide VerdictAt, PatchedRegister, PlaceBit;
    if k > 0 {
      ClearedBitsArePatchedBits(enc, env, ops, k - 1, r, bit);
      var before, cleared := ClearedBy(enc, env, ops, k - 1), VerdictAt(enc, env, ops, k - 1).effect.cleared;
      ClearedForPatch(enc, env, ops, k - 1);
      ClearedBitSplit(enc, ops, before, cleared, r, bit);
      match PatchedRegister(enc, ops, k - 1) {
        case None =>
        case Some(base) =>
          PlaceBitIsAddressBit(enc, ops, cleared[0], base, r, bit);
          assert PatchedBit(enc, ops, k, r, bit) <==>
                 PatchedBit(enc, ops, k - 1, r, bit) || AddressBit(enc, base, r, bit);
      }
    }
  }

  lemma PlaceBitIsAddressBit(enc: Encoding, ops: seq<Op>, bd: Loc, base: nat, r: nat, bit: nat)
    requires bd.op < |ops| && ops[bd.op].BlockWrite?
    requires (ops[bd.op].reg + bd.byte + 4) % KeySpace(enc) == base
    requires (ops[bd.op].reg + bd.byte + 8) % KeySpace(enc) == (base + 4) % KeySpace(enc)
    ensures PlaceBit(enc, ops, bd, r, bit) == AddressBit(enc, base, r, bit)
  {
  }

  lemma ClearedBitSplit(enc: Encoding, ops: seq<Op>, before: seq<Loc>, more: seq<Loc>, r: nat, bit: nat)
    requires |more| <= 1
    ensures ClearedBit(enc, ops, before + more, r, bit) <==>
            ClearedBit(enc, ops, before, r, bit) || (|more| == 1 && PlaceBit(enc, ops, more[0], r, bit))
  {
    hide PlaceBit;
    var all := before + more;
    if ClearedBit(enc, ops, before, r, bit) {
      var n :| 0 <= n < |before| && PlaceBit(enc, ops, before[n], r, bit);
      assert all[n] == before[n];
    }
    if |more| == 1 {
      assert all[|before|] == more[0];
    }
  }

  lemma {:induction false} PatchedBitGrows(enc: Encoding, ops: seq<Op>, j: nat, k: nat, r: nat, bit: nat)
    requires j <= k <= |ops| && PatchedBit(enc, ops, j, r, bit)
    ensures PatchedBit(enc, ops, k, r, bit)
  {
    hide PatchedRegister;
  }

  /** The patched buffer drives the device to the same state as the original one, but for address
      bits of the shim BDs its own patches name; those it can only turn off. */
  lemma MeaningPreserved(enc: Encoding, env: Env, b: seq<byte>, init: (nat, nat) -> bool, r: nat, bit: nat)
    requires WellFormed(enc, b) && Patchable(enc, env, b) && bit < 32
    ensures NumOps(PatchedBuffer(enc, env, b)) == NumOps(b)
    ensures var patched := BitAfter(enc, Ops(enc, PatchedBuffer(enc, env, b)), init, NumOps(b), r, bit);
            var original := BitAfter(enc, Ops(enc, b), init, NumOps(b), r, bit);
            && (patched ==> original)
            && (!PatchedBit(enc, Ops(enc, b), NumOps(b), r, bit) ==> patched == original)
  {
    hide After, OpsTo, FitsAt, BitAfter, ClearedBit, PatchedBit, ClearedBy, ClearAll, Off, OutsideKept, ChunkList;
    var ops := Ops(enc, b);
    var out := Run(enc, env, ops);
    PayloadsAreWords(enc, b);
    RunKeepsOutside(enc, env, b);
    StructureKept(enc, b, out.st.cleared);
    Simulation(enc, ops, out.st.cleared, init, NumOps(b), r, bit);
    if out.Running? {
      RunFollowsVerdicts(enc, env, ops, |ops|);
      ClearedBitsArePatchedBits(enc, env, ops, |ops|, r, bit);
    } else {
      var j := FailureIsFirstReject(enc, env, ops, |ops|);
      ClearedBitsArePatchedBits(enc, env, ops, j, r, bit);
      if PatchedBit(enc, ops, j, r, bit) {
        PatchedBitGrows(enc, ops, j, |ops|, r, bit);
      }
    }
  }

  // ----- which streams can be patched in place -----

  /** The BD that op k clears, if it patches one. */
  function PatchedBd(enc: Encoding, ops: seq<Op>, k: nat): Loc
    requires k < |ops|
  {
    match BdFor(enc, ops, k)
    case Some(bd) => bd
    case None => Loc(k, 0)
  }

  /** What the clears of the first k ops need, op by op. */
  ghost predicate PatchesContained(enc: Encoding, b: seq<byte>, ops: seq<Op>, k: nat)
    requires k <= |ops|
  {
    forall j :: 0 <= j < k && PatchedRegister(enc, ops, j).Some? ==> Contained(enc, b, PatchedBd(enc, ops, j))
  }

  lemma ClearsPatchedBd(enc: Encoding, env: Env, ops: seq<Op>, k: nat)
    requires k < |ops| && VerdictAt(enc, env, ops, k).Accept?
    ensures VerdictAt(enc, env, ops, k).effect.cleared ==
            if PatchedRegister(enc, ops, k).Some? then [PatchedBd(enc, ops, k)] else []
  {
    hide LengthInBytes, ShimName, PmName, WindowAt, BackScan, BdBase, KeySpace, ClassOf, TileReg, Decimal;
  }

  lemma {:induction false} ClearedByContained(enc: Encoding, env: Env, b: seq<byte>, ops: seq<Op>, k: nat)
    requires k <= |ops| && Accepted(enc, env, ops, k)
    ensures AllContained(enc, b, ClearedBy(enc, env, ops, k)) <==> PatchesContained(enc, b, ops, k)
  {
    hide VerdictAt, PatchedRegister, PatchedBd, Contained;
    if k > 0 {
      ClearedByContained(enc, env, b, ops, k - 1);
      ClearsPatchedBd(enc, env, ops, k - 1);
      var before, all := ClearedBy(enc, env, ops, k - 1), ClearedBy(enc, env, ops, k);
      assert forall i :: 0 <= i < |before| ==> all[i] == before[i];
      if PatchedRegister(enc, ops, k - 1).Some? {
        assert all[|before|] == PatchedBd(enc, ops, k - 1);
      }
    }
  }

  /** The run gets past op k, and op k patches a shim BD. */
  ghost predicate Patches(enc: Encoding, env: Env, ops: seq<Op>, k: nat)
    requires k < |ops|
  {
    Accepted(enc, env, ops, k + 1) && PatchedRegister(enc, ops, k).Some?
  }

  /** A stream can be patched in place exactly when, of the ops before the first rejected one, each that
      patches a shim BD has that BD contained. */
  lemma PatchableFromOps(enc: Encoding, env: Env, b: seq<byte>)
    requires WellFormed(enc, b)
    ensures Patchable(enc, env, b) <==>
            forall k :: 0 <= k < NumOps(b) && Patches(enc, env, Ops(enc, b), k) ==>
              Contained(enc, b, PatchedBd(enc, Ops(enc, b), k))
  {
    hide VerdictAt, PatchedRegister, PatchedBd, Contained, After, OpsTo, WellFormed, AllContained, ClearedBy;
    var ops := Ops(enc, b);
    PayloadsAreWords(enc, b);
    RunFollowsVerdicts(enc, env, ops, |ops|);
    if Run(enc, env, ops).Running? {
      ClearedByContained(enc, env, b, ops, |ops|);
    } else {
      var j := FailureIsFirstReject(enc, env, ops, |ops|);
      ClearedByContained(enc, env, b, ops, j);
      assert forall k :: 0 <= k < |ops| && Patches(enc, env, ops, k) ==> k < j;
    }
    assert forall k :: 0 <= k < |ops| && PatchedRegister(enc, ops, k).Some? && Accepted(enc, env, ops, k + 1) ==>
             Patches(enc, env, ops, k);
  }

  /** Block-writes of whole BDs, or with at least twelve bytes of their last, are room enough for any run. */
  lemma RoomyStreams(enc: Encoding, env: Env, b: seq<byte>)
    requires WellFormed(enc, b)
    requires forall k :: 0 <= k < NumOps(b) && Ops(enc, b)[k].BlockWrite? ==>
               var last := |Ops(enc, b)[k].payload| % SHIM_DMA_BD_SIZE; last == 0 || last >= 12
    ensures Patchable(enc, env, b)
  {
    hide After, OpsTo, WellFormed, Contained;
    var ops := Ops(enc, b);
    PayloadsAreWords(enc, b);
    PlacesAreChunks(enc, env, ops, |ops|);
    var cleared := Run(enc, env, ops).st.cleared;
    forall i | 0 <= i < |cleared| ensures Contained(enc, b, cleared[i]) {
      assert IsChunk(ops, |ops|, cleared[i]);
      RoomInChunk(cleared[i].byte, |ops[cleared[i].op].payload|);
      RoomyIsContained(enc, b, cleared[i]);
    }
  }

  lemma RoomInChunk(bd: nat, size: nat)
    requires bd < size && bd % SHIM_DMA_BD_SIZE == 0
    requires size % SHIM_DMA_BD_SIZE == 0 || size % SHIM_DMA_BD_SIZE >= 12
    ensures bd + BD_TOUCHED <= size
  {
    var m, n := bd / SHIM_DMA_BD_SIZE, size / SHIM_DMA_BD_SIZE;
    assert bd == 32 * m && size == 32 * n + size % 32;
    assert m <= n;
  }
}
