/**
 aie2_blob_transaction_preprocessor_input: the two walkers over a buffer that they also patch, the
 metadata parsers, and the argument setup that runs them.
 */
module TransactionPreprocessor {
  import opened Bytes
  import opened Symbols
  import opened TxnLayout
  import opened TxnMachine
  import opened ShimBits
  import opened ByteWalk
  import opened TransactionInput
  import opened WalkRefinement
  import opened Scratchpad
  import opened Metadata
  import opened Setup

  /** A register is in a table of BD addresses exactly when the range and alignment test says so. */
  lemma TableIsArithmetic(table: seq<nat>, base: nat, reg: nat)
    requires forall i :: 0 <= i < |table| ==> table[i] == base + 32 * i
    ensures reg in table <==> InTable(reg, base, |table|)
  {
    if InTable(reg, base, |table|) {
      assert table[(reg - base) / 32] == reg;
    }
  }

  // ----- what a walk leaves behind -----

  /** The buffer, the symbols and the result after the walk of ByteWalk.dfy over b0. */
  ghost predicate Walked(enc: Encoding, env: Env, section: string, b0: seq<byte>, syms0: seq<Symbol>,
                         b: seq<byte>, syms: seq<Symbol>, r: Result)
  {
    var walk := WalkAll(enc, env, section, b0);
    && b == walk.w.b
    && syms == syms0 + walk.w.syms
    && r == match walk case Walking(_) => Ok(ByteAt(b0, TXN_NUM_COLS)) case Halted(error, _) => Err(error)
  }

  /** Where the clears stay in their payloads it is what the machine computes on the ops of b0. */
  lemma WalkedIsProcessed(enc: Encoding, env: Env, section: string, b0: seq<byte>, syms0: seq<Symbol>,
                          b: seq<byte>, syms: seq<Symbol>, r: Result)
    requires WellFormed(enc, b0) && Patchable(enc, env, b0) && Walked(enc, env, section, b0, syms0, b, syms, r)
    ensures Processed(enc, env, section, b0, syms0, b, syms, r)
  {
    hide WellFormed, Patchable, After, OpsTo, WalkTo, Rendered, Cleared;
    WalkIsMachine(enc, env, section, b0);
  }

  /** What a loop needs of the step before it: it stays inside and the header is the original's. */
  lemma StepFacts(enc: Encoding, env: Env, section: string, b0: seq<byte>, num: nat)
    requires MemorySafe(enc, env, section, b0) && WalkTo(enc, env, section, b0, num).Walking?
    ensures var w := WalkTo(enc, env, section, b0, num).w;
            && (num < NumOps(b0) ==> StepInside(enc, env, w))
            && TXN_HEADER <= |w.b| == |b0| < TWO_32 && TXN_HEADER <= w.ptr && NumOps(w.b) == NumOps(b0)
            && ByteAt(w.b, TXN_NUM_COLS) == ByteAt(b0, TXN_NUM_COLS)
  {
    hide StepInside, WalkTo, BdsBehindHeader;
    WalkKeeps(enc, env, section, b0, num);
    assert num < NumOps(b0) ==> StepSafe(enc, env, section, b0, num);
  }

  /** What the walkers promise of the state they leave. */
  ghost predicate Finished(enc: Encoding, env: Env, section: string, b0: seq<byte>, syms0: seq<Symbol>,
                       b: seq<byte>, syms: seq<Symbol>, r: Result)
  {
    && Walked(enc, env, section, b0, syms0, b, syms, r)
    && (WellFormed(enc, b0) && Patchable(enc, env, b0) ==> Processed(enc, env, section, b0, syms0, b, syms, r))
  }

  /** A halt ends the walk. */
  lemma HaltEnds(enc: Encoding, env: Env, section: string, b0: seq<byte>, syms0: seq<Symbol>, num: nat, w: Walker,
                 error: Error)
    requires num < NumOps(b0) && WalkTo(enc, env, section, b0, num) == Walking(w)
    requires Act(enc, env, section, w) == Halted(error, w)
    ensures Finished(enc, env, section, b0, syms0, w.b, syms0 + w.syms, Err(error))
  {
    hide Act, WellFormed, Patchable, Processed, WalkTo;
    HaltStep(enc, env, section, b0, num, w, error);
    HaltStays(enc, env, section, b0, num + 1, NumOps(b0));
    if WellFormed(enc, b0) && Patchable(enc, env, b0) {
      WalkedIsProcessed(enc, env, section, b0, syms0, w.b, syms0 + w.syms, Err(error));
    }
  }

  lemma HaltStep(enc: Encoding, env: Env, section: string, b0: seq<byte>, num: nat, w: Walker, error: Error)
    requires WalkTo(enc, env, section, b0, num) == Walking(w) && Act(enc, env, section, w) == Halted(error, w)
    ensures WalkTo(enc, env, section, b0, num + 1) == Halted(error, w)
  {
    hide Act;
  }

  lemma WalkEnds(enc: Encoding, env: Env, section: string, b0: seq<byte>, syms0: seq<Symbol>, w: Walker)
    requires WalkTo(enc, env, section, b0, NumOps(b0)) == Walking(w)
    ensures Finished(enc, env, section, b0, syms0, w.b, syms0 + w.syms, Ok(ByteAt(b0, TXN_NUM_COLS)))
  {
    hide WalkTo, WellFormed, Patchable, Processed;
    if WellFormed(enc, b0) && Patchable(enc, env, b0) {
      WalkedIsProcessed(enc, env, section, b0, syms0, w.b, syms0 + w.syms, Ok(ByteAt(b0, TXN_NUM_COLS)));
    }
  }

  /** An op that neither patches nor indexes leaves the walker as it was. */
  lemma PlainOp(enc: Encoding, env: Env, section: string, w: Walker)
    ensures var op := OpAt(enc, w.b, w.ptr);
            !op.BlockWrite? && !op.DdrPatch? && !op.Unknown? && (op.LoadPm? ==> op.id in env.pmIds) ==>
              Act(enc, env, section, w) == Walking(w)
    ensures var op := OpAt(enc, w.b, w.ptr);
            && (op.LoadPm? && op.id !in env.pmIds ==> Act(enc, env, section, w) == Halted(UnlistedPm(op.id), w))
            && (op.Unknown? ==> Act(enc, env, section, w) == Halted(UnknownOpcode(op.code), w))
  {
    hide OpAt, PatchBytes, EnterChunks;
  }

  class AieBlobTransactionInput {
    var data: map<string, seq<byte>>
    var syms: seq<Symbol>
    var xrtIdMap: map<nat, string>
    var pmIdList: seq<nat>

    constructor ()
      ensures State() == EMPTY
    {
      data, syms, xrtIdMap, pmIdList := map[], [], map[], [];
    }

    function State(): Store
      reads this
    {
      Store(data, syms, xrtIdMap, pmIdList)
    }

    function EnvFor(argname: string): Env
      reads this
    {
      Env(argname, xrtIdMap, pmIdList)
    }

    /** The buffer and the symbols are those of the walker. */
    ghost predicate Shows(w: Walker, mcCode: array<byte>, syms0: seq<Symbol>)
      reads this, mcCode
    {
      mcCode[..] == w.b && syms == syms0 + w.syms
    }

    method ClearShimBdAddressBits(mcCode: array<byte>, offset: nat)
      requires offset + BD_TOUCHED <= mcCode.Length
      modifies mcCode
      ensures mcCode[..] == Clear(old(mcCode[..]), offset)
    {
      var bd1, bd2 := offset + 4, offset + 8;
      mcCode[bd1] := mcCode[bd1] % 4;
      mcCode[bd1 + 1] := 0;
      mcCode[bd1 + 2] := 0;
      mcCode[bd1 + 3] := 0;
      mcCode[bd2] := 0;
      mcCode[bd2 + 1] := 0;
    }

    method BdAddresses(base: nat, count: nat, size: nat) returns (table: seq<nat>)
      ensures |table| == count && forall i :: 0 <= i < count ==> table[i] == base + size * i
    {
      table := [];
      for i := 0 to count
        invariant |table| == i && forall j :: 0 <= j < i ==> table[j] == base + size * j
      {
        table := table + [base + size * i];
      }
    }

    method Find(table: seq<nat>, reg: nat) returns (found: bool)
      ensures found <==> reg in table
    {
      for i := 0 to |table|
        invariant reg !in table[..i]
      {
        if table[i] == reg {
          return true;
        }
      }
      return false;
    }

    /** Classifies a register by searching the BD tables, in the order the patcher tries them. */
    method FindClass(reg: nat) returns (c: BdClass)
      requires reg < TWO_32
      ensures c == ClassOf(reg)
    {
      var mem := BdAddresses(MEM_DMA_BD0_0, MEM_DMA_BD_NUM, MEM_DMA_BD_SIZE);
      var shim := BdAddresses(SHIM_DMA_BD0_0, SHIM_DMA_BD_NUM, SHIM_DMA_BD_SIZE);
      var previous := (reg - 4) % TWO_32;
      TableIsArithmetic(mem, MEM_DMA_BD0_0, reg);
      TableIsArithmetic(mem, MEM_DMA_BD0_0, previous);
      TableIsArithmetic(shim, SHIM_DMA_BD0_0, reg);
      TableIsArithmetic(shim, SHIM_DMA_BD0_0, previous);
      var found := Find(mem, reg);
      if found { return MemLength; }
      found := Find(mem, previous);
      if found { return MemBase; }
      found := Find(shim, reg);
      if found { return ShimLength; }
      found := Find(shim, previous);
      if found { return ShimBase; }
      return NoBd;
    }

    method PatchHelper(mcCode: array<byte>, section: string, argname: string, reg: nat, argidx: nat,
                       offset: nat, length: nat, addend64: nat) returns (ok: bool)
      requires reg < TWO_32 && PatchInside(mcCode[..], reg, offset, addend64)
      modifies this`syms, mcCode
      ensures match old(PatchEffect(xrtIdMap, argname, reg, argidx, Loc(0, offset), length, addend64))
              case Reject(_) => !ok && syms == old(syms) && mcCode[..] == old(mcCode[..])
              case Accept(effect) =>
                && ok
                && syms == old(syms) + RenderedHere(section, effect.relocs)
                && mcCode[..] == if effect.cleared == [] then old(mcCode[..]) else Clear(old(mcCode[..]), offset)
    {
      if addend64 > MAX_ARGPLUS {
        return false;
      }
      var addend := addend64;
      var c := FindClass(reg);
      if c == MemLength {
        syms := syms + [Symbol(Decimal(argidx), offset, addend, MEM_BUFFER_LENGTH_MASK, section, Scaler32, 0)];
      } else if c == MemBase {
        syms := syms + [Symbol(Decimal(argidx), offset + 4, addend, MEM_BASE_ADDRESS_MASK, section, Scaler32, 0)];
      } else if c == ShimLength {
        syms := syms + [Symbol(Decimal(argidx), offset, addend, SHIM_BUFFER_LENGTH_MASK, section, Scaler32, 0)];
      } else if c == ShimBase {
        ClearShimBdAddressBits(mcCode, offset);
        var xrtId := (argidx - ARG_OFFSET) % TWO_32;
        if argname != [] {
          syms := syms + [Symbol(argname, offset, addend, length, section, ShimDma48, 0)];
        } else if xrtId in xrtIdMap {
          syms := syms + [Symbol(xrtIdMap[xrtId], offset, addend, length, section, ShimDma48, 0)];
        } else {
          syms := syms + [Symbol(Decimal(argidx), offset, addend, length, section, ShimDma48, 0)];
        }
      }
      return true;
    }

    /** Enters every BD-sized chunk of a block-write into the map; 32-bit sizes, offsets and lengths. */
    method IndexChunks(enc: Encoding, mcCode: array<byte>, offset: nat, size: nat, reg: nat,
                       bds: map<nat, (nat, nat)>) returns (bds': map<nat, (nat, nat)>)
      requires ChunksInside(mcCode[..], offset, size)
      ensures bds' == EnterChunks(enc, mcCode[..], bds, reg, offset, NumChunks(size))
    {
      hide U32At, NumChunks;
      bds' := bds;
      ghost var n := 0;
      var bd := 0;
      while bd < size
        invariant bd == SHIM_DMA_BD_SIZE * n && n <= NumChunks(size)
        invariant bds' == EnterChunks(enc, mcCode[..], bds, reg, offset, n)
        decreases size - bd
      {
        assert offset + bd + 4 <= mcCode.Length;
        var length := (U32At(mcCode[..], offset + bd) * BYTE_IN_WORD) % TWO_32;
        bds' := bds'[(reg + bd) % KeySpace(enc) := (offset + bd, length)];
        bd := bd + SHIM_DMA_BD_SIZE;
        n := n + 1;
      }
      assert n == NumChunks(size);
    }

    /** A block-write: in PM mode its own BD is patched, otherwise its BDs are indexed. */
    method BlockWriteOp(enc: Encoding, mcCode: array<byte>, section: string, argname: string, ptr: nat, size: nat,
                        reg: nat, loadsequence: nat, pmId: nat, bds: map<nat, (nat, nat)>,
                        ghost w: Walker, ghost syms0: seq<Symbol>)
      returns (bds': map<nat, (nat, nat)>)
      requires w.ptr == ptr && w.window == loadsequence && w.pm == pmId && w.bds == bds && Shows(w, mcCode, syms0)
      requires OpAt(enc, w.b, ptr).BlockWrite? && OpAt(enc, w.b, ptr).reg == reg && SizeAt(enc, w.b, ptr) == size
      requires StepInside(enc, EnvFor(argname), w)
      modifies this`syms, mcCode
      ensures var act := Act(enc, EnvFor(argname), section, w);
              act.Walking? && act.w.bds == bds' && Shows(act.w, mcCode, syms0)
    {
      hide OpAt, U32At, Decimal, ShimName, ClassOf, NumChunks, SizeAt, HeaderLen;
      var offset := ptr + BwHeader(enc);
      if loadsequence > 0 {
        var length := (U32At(mcCode[..], offset) * BYTE_IN_WORD) % TWO_32;
        var ok := PatchHelper(mcCode, section, CTRLPKT_PM + Decimal(pmId), reg % 0x10_0000 + 4, 0, offset, length, 0);
        bds' := bds;
      } else {
        bds' := IndexChunks(enc, mcCode, offset, size, reg, bds);
      }
    }

    /** A DDR patch: rejected in PM mode or without an indexed BD, else the BD is patched. */
    method DdrPatchOp(enc: Encoding, mcCode: array<byte>, section: string, argname: string, ptr: nat,
                      regaddr: nat, argidx: nat, argplus: nat, loadsequence: nat, bds: map<nat, (nat, nat)>,
                      ghost w: Walker, ghost syms0: seq<Symbol>)
      returns (failure: Option<Error>)
      requires w.ptr == ptr && w.window == loadsequence && w.bds == bds && Shows(w, mcCode, syms0)
      requires OpAt(enc, w.b, ptr) == DdrPatch(regaddr, argidx, argplus) && StepInside(enc, EnvFor(argname), w)
      modifies this`syms, mcCode
      ensures var act := Act(enc, EnvFor(argname), section, w);
              match failure
              case None => act.Walking? && act.w.bds == bds && Shows(act.w, mcCode, syms0)
              case Some(error) => act == Halted(error, w) && Shows(w, mcCode, syms0)
    {
      hide OpAt, U32At, Decimal, ShimName, ClassOf, HeaderLen;
      if loadsequence > 0 {
        return Some(PatchInPmWindow);
      }
      var reg := regaddr % TWO_32 - regaddr % TWO_32 % 16;
      if reg !in bds {
        return Some(NoBlockWrite(reg));
      }
      var (offset, length) := bds[reg];
      var ok := PatchHelper(mcCode, section, argname, regaddr % 0x10_0000, (argidx + ARG_OFFSET) % TWO_32,
                            offset, length, argplus);
      if !ok {
        return Some(AddendTooBig(argplus));
      }
      return None;
    }

    /** The legacy walker: explicit sizes everywhere, and a PM window that closes. */
    method ProcessTxn(mcCode: array<byte>, section: string, argname: string) returns (r: Result)
      requires MemorySafe(Legacy, EnvFor(argname), section, mcCode[..])
      modifies this`syms, mcCode
      ensures Finished(Legacy, EnvFor(argname), section, old(mcCode[..]), old(syms), mcCode[..], syms, r)
    {
      hide WalkTo, Finished, OpAt, U32At, U64At, U24At, MemorySafe, StepInside, Act,
           BlockWriteRegAt;
      ghost var env, b0, syms0 := EnvFor(argname), mcCode[..], syms;
      ghost var w := StartOf(b0);
      var bds: map<nat, (nat, nat)> := map[];
      var loadsequence: nat, pmId: nat, ptr: nat, num: nat := 0, 0, TXN_HEADER, 0;
      WalkStart(Legacy, env, section, b0);
      StepFacts(Legacy, env, section, b0, 0);
      while num < U32At(mcCode[..], TXN_NUM_OPS)
        invariant num <= NumOps(b0) == NumOps(mcCode[..]) && TXN_HEADER <= mcCode.Length
        invariant WalkTo(Legacy, env, section, b0, num) == Walking(w) && Shows(w, mcCode, syms0)
        invariant w.ptr == ptr && w.window == loadsequence && w.pm == pmId && w.bds == bds
        decreases NumOps(b0) - num
      {
        StepFacts(Legacy, env, section, b0, num);
        InsideHeader(Legacy, env, w);
        LegacyShape(w.b, ptr);
        PlainOp(Legacy, env, section, w);
        var code: nat := mcCode[ptr];
        if code == IO_WRITE {
          ptr := ptr + U32At(mcCode[..], ptr + W32_SIZE);
        } else if code == IO_BLOCKWRITE {
          var size := (U32At(mcCode[..], ptr + BW_SIZE) - BW) % TWO_32;
          var reg := U64At(mcCode[..], ptr + BW_REG);
          bds := BlockWriteOp(Legacy, mcCode, section, argname, ptr, size, reg, loadsequence, pmId, bds, w, syms0);
          ptr := ptr + U32At(mcCode[..], ptr + BW_SIZE);
        } else if code == IO_MASKWRITE {
          ptr := ptr + U32At(mcCode[..], ptr + MW_SIZE);
        } else if code == IO_MASKPOLL || code == IO_MASKPOLL_BUSY {
          ptr := ptr + U32At(mcCode[..], ptr + MP_SIZE);
        } else if code == IO_NOOP {
          ptr := ptr + NOOP;
        } else if code == IO_PREEMPT {
          ptr := ptr + PREEMPT;
        } else if code == IO_LOAD_PM_START {
          loadsequence := U24At(mcCode[..], ptr + PMLOAD_COUNT);
          loadsequence := loadsequence + 1;
          pmId := mcCode[ptr + PMLOAD_ID];
          if pmId !in pmIdList {
            HaltEnds(Legacy, env, section, b0, syms0, num, w, UnlistedPm(pmId));
            return Err(UnlistedPm(pmId));
          }
          ptr := ptr + PMLOAD;
        } else if code == IO_CUSTOM_OP_BEGIN {
          ptr := ptr + U32At(mcCode[..], ptr + CUSTOM_SIZE);
        } else if code == IO_CUSTOM_OP_BEGIN + 1 {
          var op := ptr + CUSTOM;
          var failure := DdrPatchOp(Legacy, mcCode, section, argname, ptr, U64At(mcCode[..], op + PATCH_REGADDR),
                                    U64At(mcCode[..], op + PATCH_ARGIDX), U64At(mcCode[..], op + PATCH_ARGPLUS),
                                    loadsequence, bds, w, syms0);
          if failure.Some? {
            HaltEnds(Legacy, env, section, b0, syms0, num, w, failure.value);
            return Err(failure.value);
          }
          ptr := ptr + U32At(mcCode[..], ptr + CUSTOM_SIZE);
        } else if code == IO_CUSTOM_OP_BEGIN + 2 {
          ptr := ptr + U32At(mcCode[..], ptr + CUSTOM_SIZE);
        } else if code == IO_CUSTOM_OP_BEGIN + 3 {
          ptr := ptr + U32At(mcCode[..], ptr + CUSTOM_SIZE);
        } else if code == IO_CUSTOM_OP_MERGE_SYNC {
          ptr := ptr + U32At(mcCode[..], ptr + CUSTOM_SIZE);
        } else {
          HaltEnds(Legacy, env, section, b0, syms0, num, w, UnknownOpcode(code));
          return Err(UnknownOpcode(code));
        }
        loadsequence := if loadsequence > 0 then loadsequence - 1 else 0;
        num := num + 1;
        NextWalker(Legacy, env, section, b0, num);
        w := WalkTo(Legacy, env, section, b0, num).w;
        StepFacts(Legacy, env, section, b0, num);
      }
      StepFacts(Legacy, env, section, b0, num);
      WalkEnds(Legacy, env, section, b0, syms0, w);
      return Ok(mcCode[TXN_NUM_COLS]);
    }

    /** The optimized walker: fixed sizes where the opcode decides them, and a PM window that stays open. */
    method ProcessTxnOpt(mcCode: array<byte>, section: string, argname: string) returns (r: Result)
      requires MemorySafe(Opt, EnvFor(argname), section, mcCode[..])
      modifies this`syms, mcCode
      ensures Finished(Opt, EnvFor(argname), section, old(mcCode[..]), old(syms), mcCode[..], syms, r)
    {
      hide WalkTo, Finished, OpAt, U32At, U64At, U24At, MemorySafe, StepInside, Act,
           BlockWriteRegAt;
      ghost var env, b0, syms0 := EnvFor(argname), mcCode[..], syms;
      ghost var w := StartOf(b0);
      var bds: map<nat, (nat, nat)> := map[];
      var loadsequence: nat, pmId: nat, ptr: nat, num: nat := 0, 0, TXN_HEADER, 0;
      WalkStart(Opt, env, section, b0);
      StepFacts(Opt, env, section, b0, 0);
      while num < U32At(mcCode[..], TXN_NUM_OPS)
        invariant num <= NumOps(b0) == NumOps(mcCode[..]) && TXN_HEADER <= mcCode.Length
        invariant WalkTo(Opt, env, section, b0, num) == Walking(w) && Shows(w, mcCode, syms0)
        invariant w.ptr == ptr && w.window == loadsequence && w.pm == pmId && w.bds == bds
        decreases NumOps(b0) - num
      {
        StepFacts(Opt, env, section, b0, num);
        InsideHeader(Opt, env, w);
        OptShape(w.b, ptr);
        PlainOp(Opt, env, section, w);
        var code: nat := mcCode[ptr];
        if code == IO_WRITE {
          ptr := ptr + W32_OPT;
        } else if code == IO_BLOCKWRITE {
          var size := (U32At(mcCode[..], ptr + BW_OPT_SIZE) - BW_OPT) % TWO_32;
          var reg := U32At(mcCode[..], ptr + BW_OPT_REG);
          bds := BlockWriteOp(Opt, mcCode, section, argname, ptr, size, reg, loadsequence, pmId, bds, w, syms0);
          ptr := ptr + U32At(mcCode[..], ptr + BW_OPT_SIZE);
        } else if code == IO_MASKWRITE {
          ptr := ptr + MW_OPT;
        } else if code == IO_MASKPOLL || code == IO_MASKPOLL_BUSY {
          ptr := ptr + MP_OPT;
        } else if code == IO_NOOP {
          ptr := ptr + NOOP;
        } else if code == IO_PREEMPT {
          ptr := ptr + PREEMPT;
        } else if code == IO_LOAD_PM_START {
          loadsequence := U24At(mcCode[..], ptr + PMLOAD_COUNT);
          loadsequence := loadsequence + 1;
          pmId := mcCode[ptr + PMLOAD_ID];
          if pmId !in pmIdList {
            HaltEnds(Opt, env, section, b0, syms0, num, w, UnlistedPm(pmId));
            return Err(UnlistedPm(pmId));
          }
          ptr := ptr + PMLOAD;
        } else if code == IO_CUSTOM_OP_TCT {
          ptr := ptr + U32At(mcCode[..], ptr + CUSTOM_OPT_SIZE);
        } else if code == IO_CUSTOM_OP_DDR_PATCH {
          var op := ptr + CUSTOM_OPT;
          var failure := DdrPatchOp(Opt, mcCode, section, argname, ptr, U64At(mcCode[..], op + PATCH_REGADDR),
                                    U64At(mcCode[..], op + PATCH_ARGIDX), U64At(mcCode[..], op + PATCH_ARGPLUS),
                                    loadsequence, bds, w, syms0);
          if failure.Some? {
            HaltEnds(Opt, env, section, b0, syms0, num, w, failure.value);
            return Err(failure.value);
          }
          ptr := ptr + U32At(mcCode[..], ptr + CUSTOM_OPT_SIZE);
        } else if code == IO_CUSTOM_OP_READ_REGS {
          ptr := ptr + U32At(mcCode[..], ptr + CUSTOM_OPT_SIZE);
        } else if code == IO_CUSTOM_OP_RECORD_TIMER {
          ptr := ptr + U32At(mcCode[..], ptr + CUSTOM_OPT_SIZE);
        } else if code == IO_CUSTOM_OP_MERGE_SYNC {
          ptr := ptr + U32At(mcCode[..], ptr + CUSTOM_OPT_SIZE);
        } else {
          HaltEnds(Opt, env, section, b0, syms0, num, w, UnknownOpcode(code));
          return Err(UnknownOpcode(code));
        }
        num := num + 1;
        NextWalker(Opt, env, section, b0, num);
        w := WalkTo(Opt, env, section, b0, num).w;
        StepFacts(Opt, env, section, b0, num);
      }
      StepFacts(Opt, env, section, b0, num);
      WalkEnds(Opt, env, section, b0, syms0, w);
      return Ok(mcCode[TXN_NUM_COLS]);
    }

    /** Version 1.0 headers select the optimized walker. */
    method ExtractSymbolFromBuffer(mcCode: array<byte>, section: string, argname: string) returns (r: Result)
      requires MemorySafe(EncodingOf(mcCode[..]), EnvFor(argname), section, mcCode[..])
      modifies this`syms, mcCode
      ensures var b0 := old(mcCode[..]);
              Finished(EncodingOf(b0), EnvFor(argname), section, b0, old(syms), mcCode[..], syms, r)
    {
      hide Finished;
      if mcCode[TXN_MAJOR] == 1 && mcCode[TXN_MINOR] == 0 {
        r := ProcessTxnOpt(mcCode, section, argname);
      } else {
        r := ProcessTxn(mcCode, section, argname);
      }
    }

    /** Every symbol of the section gets the largest size + addend among them, in 64-bit arithmetic. */
    method ResizeScratchpad(section: string)
      modifies this`syms
      ensures syms == Resized(old(syms), section)
    {
      var size := 0;
      for i := 0 to |syms|
        invariant syms == old(syms) && size == MaxExtent(syms[..i], section)
      {
        assert syms[..i + 1][..i] == syms[..i];
        if syms[i].section == section {
          var extent := (syms[i].size + syms[i].addend) % TWO_64;
          size := if extent > size then extent else size;
        }
      }
      assert syms[..|syms|] == syms;
      for i := 0 to |syms|
        invariant |syms| == |old(syms)|
        invariant forall j :: 0 <= j < i ==> syms[j] == Resize(old(syms)[j], section, size)
        invariant forall j :: i <= j < |syms| ==> syms[j] == old(syms)[j]
      {
        if syms[i].section == section {
          syms := syms[i := syms[i].(size := size)];
        }
      }
    }

    // ----- the metadata -----

    /** m_data[".ctrldata"].size(): the lookup enters an empty section when there is none. */
    method ControlPacketSize() returns (size: nat)
      modifies this`data
      ensures size == PacketSize(old(data)) && data == WithPacket(old(data), true)
    {
      if CTRL_DATA !in data {
        data := data[CTRL_DATA := []];
      }
      return |data[CTRL_DATA]| % TWO_32;
    }

    method ExtractControlPacketPatch(name: string, argIndex: nat, offsetInBytes: nat, patches: Option<seq<nat>>)
      returns (failure: Option<JsonError>)
      modifies this`syms, this`data
      ensures failure == PatchesError(PacketSize(old(data)), argIndex, offsetInBytes, OffsetsOf(patches))
      ensures failure.None? ==>
                && syms == old(syms) + SymbolsAt(Locations(name, argIndex, offsetInBytes, OffsetsOf(patches)))
                && data == WithPacket(old(data), OffsetsOf(patches) != [])
    {
      hide OffsetsError, SymbolsAt, Locations;
      ghost var size0, offsets := PacketSize(data), OffsetsOf(patches);
      NoOffsets(size0, name, argIndex, offsetInBytes);
      if offsetInBytes > MAX_ARGPLUS {
        return Some(BadAddend(offsetInBytes));
      }
      if patches.None? {
        return None;
      }
      for i := 0 to |patches.value|
        invariant data == WithPacket(old(data), i > 0) && PacketSize(data) == size0
        invariant OffsetsError(size0, argIndex, offsets[..i]).None?
        invariant syms == old(syms) + SymbolsAt(Locations(name, argIndex, offsetInBytes, offsets[..i]))
      {
        var size := ControlPacketSize();
        var offset := patches.value[i];
        OneMoreOffset(size0, name, argIndex, offsetInBytes, offsets, i);
        if !(offset <= size && argIndex <= MAX_ARG_INDEX) {
          OffsetsErrorStays(size0, argIndex, offsets, i + 1);
          return Some(BadLocation(offset, argIndex));
        }
        var pos := (offset - PACKET_HEADER) % TWO_32;
        syms := syms + [Symbol(name, pos, offsetInBytes, 0, CTRL_DATA, ControlPacket48, 0)];
      }
      assert offsets[..|offsets|] == offsets;
      return None;
    }

    method ExtractCoalescedBuffers(name: string, e: External) returns (failure: Option<JsonError>)
      requires e.coalesced.Some?
      modifies this`syms, this`data
      ensures failure == CoalescedsError(PacketSize(old(data)), e.size, e.xrtId, e.coalesced.value)
      ensures failure.None? ==>
                && syms == old(syms) + SymbolsAt(CoalescedLocations(name, e.xrtId, e.coalesced.value))
                && data == WithPacket(old(data), CoalescedLocations(name, e.xrtId, e.coalesced.value) != [])
    {
      hide CoalescedsError, PatchesError, SymbolsAt, Locations, CoalescedLocations;
      var cs := e.coalesced.value;
      ghost var size0 := PacketSize(data);
      NoCoalesced(size0, name, e);
      for i := 0 to |cs|
        invariant CoalescedsError(size0, e.size, e.xrtId, cs[..i]).None? && PacketSize(data) == size0
        invariant syms == old(syms) + SymbolsAt(CoalescedLocations(name, e.xrtId, cs[..i]))
        invariant data == WithPacket(old(data), CoalescedLocations(name, e.xrtId, cs[..i]) != [])
      {
        var c := cs[i];
        OneMoreCoalesced(size0, name, e, cs, i);
        if !(c.offset <= e.size && e.xrtId <= MAX_ARG_INDEX) {
          CoalescedsErrorStays(size0, e.size, e.xrtId, cs, i + 1);
          return Some(BadLocation(c.offset, e.xrtId));
        }
        failure := ExtractControlPacketPatch(name, e.xrtId, c.offset, c.patches);
        if failure.Some? {
          CoalescedsErrorStays(size0, e.size, e.xrtId, cs, i + 1);
          return;
        }
        SymbolsAtConcat(CoalescedLocations(name, e.xrtId, cs[..i]),
                        Locations(name, e.xrtId, c.offset, OffsetsOf(c.patches)));
      }
      assert cs[..|cs|] == cs;
      return None;
    }

    /** One external buffer: its name, unless its id has one, then its patch locations. */
    method ExternalBuffer(e: External) returns (failure: Option<JsonError>)
      modifies this`syms, this`data, this`xrtIdMap
      ensures failure == BufferError(PacketSize(old(data)), e)
      ensures xrtIdMap == NamedOnce(old(xrtIdMap), e)
      ensures failure.None? ==>
                && syms == old(syms) + SymbolsAt(BufferLocations(e))
                && data == WithPacket(old(data), BufferLocations(e) != [])
    {
      hide SymbolsAt, CoalescedsError, CoalescedLocations, PatchesError, Locations, BufferError, BufferLocations,
           Decimal, PacketSize;
      BufferCases(PacketSize(data), e);
      var name := Decimal((e.xrtId + ARG_OFFSET) % TWO_32);
      if e.xrtId !in xrtIdMap {
        xrtIdMap := xrtIdMap[e.xrtId := if e.isControlPacket then "control-packet" else name];
      }
      if e.coalesced.Some? {
        failure := ExtractCoalescedBuffers(name, e);
      } else {
        failure := ExtractControlPacketPatch(name, e.xrtId, e.offset, e.patches);
        LocationsEmpty(name, e.xrtId, e.offset, OffsetsOf(e.patches));
      }
    }

    /** The AIE compiler's tree: names first, then the patch locations of each buffer in turn. */
    method AieCompilerParser(es: seq<External>) returns (failure: Option<JsonError>)
      modifies this`syms, this`data, this`xrtIdMap
      ensures failure == BuffersError(PacketSize(old(data)), es)
      ensures failure.None? ==>
                && syms == old(syms) + SymbolsAt(AllLocations(es)) && xrtIdMap == Named(old(xrtIdMap), es)
                && data == WithPacket(old(data), AllLocations(es) != [])
    {
      hide BufferError, BuffersError, BufferLocations, SymbolsAt, AllLocations, Named, NamedOnce, PacketSize;
      ghost var size0 := PacketSize(data);
      NoBuffers(size0, xrtIdMap);
      for i := 0 to |es|
        invariant BuffersError(size0, es[..i]).None? && PacketSize(data) == size0
        invariant syms == old(syms) + SymbolsAt(AllLocations(es[..i]))
        invariant xrtIdMap == Named(old(xrtIdMap), es[..i])
        invariant data == WithPacket(old(data), AllLocations(es[..i]) != [])
      {
        OneMoreBuffer(size0, old(xrtIdMap), es, i);
        failure := ExternalBuffer(es[i]);
        if failure.Some? {
          BuffersErrorStays(size0, es, i + 1);
          return;
        }
        SymbolsAtConcat(AllLocations(es[..i]), BufferLocations(es[i]));
        PacketAskedTwice(old(data), AllLocations(es[..i]) != [], BufferLocations(es[i]) != []);
        PacketAskedTwice(old(data), AllLocations(es[..i + 1]) != [], false);
      }
      assert es[..|es|] == es;
      return None;
    }

    method Insert(key: nat, name: string)
      modifies this`xrtIdMap
      ensures xrtIdMap == Inserted(old(xrtIdMap), key, name)
    {
      if key !in xrtIdMap {
        xrtIdMap := xrtIdMap[key := name];
      }
    }

    /** The fixed argument names, and the control packet's. */
    method NameDmaArguments(controlIndex: Option<nat>)
      modifies this`xrtIdMap
      ensures xrtIdMap == DmaNames(old(xrtIdMap), controlIndex)
    {
      hide Inserted;
      ghost var map0 := xrtIdMap;
      Insert(0, "3");
      assert xrtIdMap == FixedNames(map0, 1);
      Insert(1, "4");
      assert xrtIdMap == FixedNames(map0, 2);
      Insert(2, "5");
      assert xrtIdMap == FixedNames(map0, 3);
      Insert(3, "6");
      assert xrtIdMap == FixedNames(map0, 4);
      Insert(4, "7");
      assert xrtIdMap == FixedNames(map0, 5);
      if controlIndex.Some? {
        xrtIdMap := xrtIdMap[controlIndex.value := "control-packet"];
      } else {
        xrtIdMap := xrtIdMap[4 := "control-packet"];
      }
    }

    /** The DMA compiler's flat list. */
    method DmaCompilerParser(controlIndex: Option<nat>, ps: seq<DmaPatch>) returns (failure: Option<JsonError>)
      modifies this`syms, this`data, this`xrtIdMap
      ensures failure == DmasError(PacketSize(old(data)), ps)
      ensures failure.None? ==>
                && syms == old(syms) + SymbolsAt(DmaLocations(ps)) && xrtIdMap == DmaNames(old(xrtIdMap), controlIndex)
                && data == WithPacket(old(data), DmaLocations(ps) != [])
    {
      hide DmasError, SymbolsAt, DmaLocations, DmaNames, Decimal;
      NameDmaArguments(controlIndex);
      ghost var size0, names := PacketSize(data), xrtIdMap;
      NoDmaPatches(size0);
      for i := 0 to |ps|
        invariant DmasError(size0, ps[..i]).None? && PacketSize(data) == size0 && xrtIdMap == names
        invariant syms == old(syms) + SymbolsAt(DmaLocations(ps[..i]))
        invariant data == WithPacket(old(data), i > 0)
      {
        var p := ps[i];
        var size := ControlPacketSize();
        OneMoreDmaPatch(size0, ps, i);
        if !(p.offset <= size && p.argIndex <= MAX_ARG_INDEX) {
          DmasErrorStays(size0, ps, i + 1);
          return Some(BadLocation(p.offset, p.argIndex));
        }
        var pos := (p.offset - PACKET_HEADER) % TWO_32;
        if p.boOffset > MAX_ARGPLUS {
          DmasErrorStays(size0, ps, i + 1);
          return Some(BadAddend(p.boOffset));
        }
        syms := syms + [Symbol(Decimal(p.argIndex + ARG_OFFSET), pos, p.boOffset, 0, CTRL_DATA, ControlPacket48, 0)];
      }
      assert ps[..|ps|] == ps;
      return None;
    }

    /** The buffers when the tree has them, else the patch list, else nothing. */
    method ReadMetaJson(tree: Tree) returns (failure: Option<JsonError>)
      modifies this`syms, this`data, this`xrtIdMap
      ensures failure == TreeError(PacketSize(old(data)), tree)
      ensures failure.None? ==>
                && syms == old(syms) + SymbolsAt(TreeLocations(tree)) && xrtIdMap == TreeNames(old(xrtIdMap), tree)
                && data == WithPacket(old(data), TreeLocations(tree) != [])
    {
      hide BuffersError, DmasError, AllLocations, DmaLocations, Named, DmaNames;
      if tree.buffers.Some? {
        failure := AieCompilerParser(tree.buffers.value);
      } else if tree.dmaPatches.Some? {
        failure := DmaCompilerParser(tree.controlIndex, tree.dmaPatches.value);
      } else {
        assert SymbolsAt([]) == [];
        failure := None;
      }
    }

    // ----- the argument setup -----

    /** Walks one section of the table, in place of its bytes there. */
    method ExtractSection(section: string, argname: string) returns (r: Result)
      requires section in data && SectionSafe(State(), section, argname)
      modifies this`data, this`syms
      ensures match WithStream(old(State()), section, argname)
              case Ready(s) => r == Ok(ByteAt(old(data[section]), TXN_NUM_COLS)) && State() == s
              case Refused(why) => r.Err? && why == BadStream(section, r.error)
      ensures section in data && data.Keys == old(data.Keys)
    {
      hide WalkAll, MemorySafe, WellFormed, Patchable, Processed;
      var b := data[section];
      var mcCode := new byte[|b|](i requires 0 <= i < |b| => b[i]);
      assert mcCode[..] == b;
      r := ExtractSymbolFromBuffer(mcCode, section, argname);
      data := data[section := mcCode[..]];
    }

    /** One more "preempt": both files read, then both streams walked. */
    method AddPreemption(files: map<string, seq<byte>>, col: nat) returns (failure: Option<Refusal>)
      requires PreemptSafe(State(), files, col)
      modifies this`data, this`syms
      ensures match WithPreempt(old(State()), files, col)
              case Ready(s) => failure == None && State() == s
              case Refused(why) => failure == Some(why)
    {
      hide WithStream, SectionSafe, SaveFile, RestoreFile;
      var saveFile, restoreFile := SaveFile(col), RestoreFile(col);
      if saveFile !in files {
        return Some(NoFile(saveFile));
      }
      data := data[PREEMPT_SAVE := files[saveFile]];
      if restoreFile !in files {
        return Some(NoFile(restoreFile));
      }
      data := data[PREEMPT_RESTORE := files[restoreFile]];
      var r := ExtractSection(PREEMPT_SAVE, SCRATCH_PAD);
      if r.Err? {
        return Some(BadStream(PREEMPT_SAVE, r.error));
      }
      r := ExtractSection(PREEMPT_RESTORE, SCRATCH_PAD);
      if r.Err? {
        return Some(BadStream(PREEMPT_RESTORE, r.error));
      }
      return None;
    }

    /** The control code, the control packet if there is one, and the PM packets with their ids. */
    method AddBuffers(inputs: Inputs)
      modifies this`data, this`pmIdList
      ensures State() == WithBuffers(old(State()), inputs)
    {
      hide PmSection;
      data := data[CTRL_TEXT := inputs.mcCode];
      if inputs.controlPacket != [] {
        data := data[CTRL_DATA := inputs.controlPacket];
      }
      ghost var filled := State();
      for i := 0 to |inputs.pmPackets|
        invariant State() == WithPmPackets(filled, inputs.pmPackets, i)
      {
        var p := inputs.pmPackets[i];
        data := data[PmSection(p.id) := p.data];
        pmIdList := pmIdList + [p.id];
      }
    }

    method AddMetadata(meta: Option<Tree>) returns (failure: Option<Refusal>)
      modifies this`syms, this`data, this`xrtIdMap
      ensures match WithMetadata(old(State()), meta)
              case Ready(s) => failure == None && State() == s
              case Refused(why) => failure == Some(why)
    {
      hide TreeError, TreeLocations, TreeNames;
      if meta.Some? {
        var problem := ReadMetaJson(meta.value);
        if problem.Some? {
          return Some(BadMetadata(problem.value));
        }
      }
      return None;
    }

    method AddLibs(inputs: Inputs, col: nat) returns (failure: Option<Refusal>)
      requires forall n :: 0 <= n < |inputs.libs| ==> LibSafe(State(), inputs, col, n)
      modifies this`data, this`syms
      ensures match WithLibs(old(State()), inputs, col, |inputs.libs|)
              case Ready(s) => failure == None && State() == s
              case Refused(why) => failure == Some(why)
    {
      hide WithPreempt, PreemptSafe;
      ghost var coded := State();
      for i := 0 to |inputs.libs|
        invariant WithLibs(coded, inputs, col, i) == Ready(State())
      {
        if inputs.libs[i] == "preempt" {
          assert LibSafe(coded, inputs, col, i);
          failure := AddPreemption(inputs.files, col);
          if failure.Some? {
            LibsRefusedStay(coded, inputs, col, i + 1, |inputs.libs|);
            return;
          }
        }
      }
      return None;
    }

    /** The transaction flow: buffers and metadata, the control code, the libraries, then the resizes. */
    method SetArgs(inputs: Inputs) returns (failure: Option<Refusal>)
      requires InputsSafe(State(), inputs)
      modifies this
      ensures match Arranged(old(State()), inputs)
              case Ready(s) => failure == None && State() == s
              case Refused(why) => failure == Some(why)
    {
      hide WithStream, WithLibs, WithMetadata, WithBuffers, Resized, SectionSafe, LibSafe, NumColsOf;
      ghost var s0 := State();
      AddBuffers(inputs);
      failure := AddMetadata(inputs.meta);
      if failure.Some? {
        return;
      }
      ghost var described := State();
      var r := ExtractSection(CTRL_TEXT, "");
      if r.Err? {
        return Some(BadStream(CTRL_TEXT, r.error));
      }
      TextKeepsCols(described);
      assert Coded(s0, inputs) == Ready(State()) && NumColsOf(State()) == r.cols;
      failure := AddLibs(inputs, r.cols);
      if failure.Some? {
        return;
      }
      ResizeScratchpad(PREEMPT_SAVE);
      ResizeScratchpad(PREEMPT_RESTORE);
    }
  }

  lemma WalkStart(enc: Encoding, env: Env, section: string, b0: seq<byte>)
    ensures WalkTo(enc, env, section, b0, 0) == Walking(StartOf(b0))
  {
  }

  lemma InsideHeader(enc: Encoding, env: Env, w: Walker)
    requires StepInside(enc, env, w)
    ensures HeaderInside(enc, w.b, w.ptr)
  {
  }

  /** The walker after an op it has acted on. */
  lemma NextWalker(enc: Encoding, env: Env, section: string, b0: seq<byte>, num: nat)
    requires num > 0 && WalkTo(enc, env, section, b0, num - 1).Walking?
    ensures var w := WalkTo(enc, env, section, b0, num - 1).w;
            Act(enc, env, section, w).Walking? ==>
              WalkTo(enc, env, section, b0, num) == Walking(Move(enc, w, Act(enc, env, section, w).w))
  {
    hide Act, Move;
  }
}
