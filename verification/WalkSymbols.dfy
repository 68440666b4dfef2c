/**
 Every symbol a walk emits, read off the untouched buffer: which op it comes from, on which byte it stands,
 and what it says.
 */
module WalkSymbols {
  import opened Bytes
  import opened Symbols
  import opened TxnLayout
  import opened TxnMachine
  import opened TxnRuns
  import opened ByteWalk
  import opened TransactionInput
  import opened WalkRefinement
  import opened PatchTargets

  /** Word 0 or word 1 of one of the 48 memory-tile BDs or the 16 shim BDs. */
  ghost predicate BdWord(r: nat) {
    || (exists n :: 0 <= n < 48 && (r == NthBd(0xA_0000, n) || r == NthBd(0xA_0004, n)))
    || exists n :: 0 <= n < 16 && (r == NthBd(0x1_D000, n) || r == NthBd(0x1_D004, n))
  }

  /** Op k patches a BD word: a DDR patch that names one, or a block-write in PM mode whose second word goes
      to one. */
  ghost predicate PatchesWord(enc: Encoding, ops: seq<Op>, k: nat)
    requires k < |ops|
  {
    match ops[k]
    case DdrPatch(regaddr, _, _) => BdWord(regaddr % 0x10_0000)
    case BlockWrite(reg, _) => InPm(enc, ops, k) && BdWord(reg % 0x10_0000 + 4)
    case _ => false
  }

  lemma BdWordClass(r: nat)
    ensures BdWord(r) <==> ClassOf(r) != NoBd
  {
    hide ClassOf, NthBd;
    BdRegisters(r);
  }

  // ----- what one op emits -----

  /** The symbol of a DDR patch: the word that the named register gets, or the whole BD for a shim address. */
  ghost predicate DdrReloc(enc: Encoding, env: Env, ops: seq<Op>, k: nat, r: Reloc)
    requires k < |ops| && ops[k].DdrPatch?
  {
    var regaddr, bd := ops[k].regaddr, r.place;
    && r.addend == ops[k].argplus <= 0xFFFF_FFFF && bd.op < k && ops[bd.op].BlockWrite?
    && match ClassOf(regaddr % 0x10_0000)
       case ShimBase =>
         && bd.byte % 4 == 0 && bd.byte < |ops[bd.op].payload|
         && (ops[bd.op].reg + bd.byte + 4) % KeySpace(enc) == regaddr % TWO_32
         && r.schema == ShimDma48 && r.size == 4 * U32At(ops[bd.op].payload, bd.byte) % TWO_32
         && r.name == NameOfArgument(env, ops[k].argidx)
       case c =>
         && bd.byte % 4 == 0 && bd.byte < |ops[bd.op].payload| + 4
         && (ops[bd.op].reg + bd.byte) % KeySpace(enc) == regaddr % TWO_32
         && r.schema == Scaler32 && r.size == WordMask(c) && r.name == Decimal((ops[k].argidx + 3) % TWO_32)
  }

  /** The bits of a BD word that hold its length or address. */
  function WordMask(c: BdClass): nat {
    match c
    case MemLength => 0x1_FFFF
    case MemBase => 0x7_FFFF
    case _ => 0xFFFF_FFFF
  }

  /** The symbol of a block-write in PM mode: a shim BD goes by the id of the latest LOAD_PM_START. */
  ghost predicate PmReloc(ops: seq<Op>, k: nat, r: Reloc)
    requires k < |ops| && ops[k].BlockWrite?
  {
    var last := LastLoad(ops, k);
    && r.addend == 0 && last >= 0 && r.place.op == k
    && match ClassOf(ops[k].reg % 0x10_0000 + 4)
       case ShimBase =>
         && r.place.byte == 0 && r.schema == ShimDma48 && r.size == 4 * U32At(ops[k].payload, 0) % TWO_32
         && r.name == "ctrlpkt-pm-" + Decimal(ops[last].id)
       case c =>
         && r.place.byte == (if c == MemBase then 4 else 0) && r.schema == Scaler32 && r.size == WordMask(c)
         && r.name == "0"
  }

  /** The symbol of an op, before its place is counted in bytes of the buffer. */
  ghost predicate RelocOf(enc: Encoding, env: Env, ops: seq<Op>, k: nat, r: Reloc)
    requires k < |ops|
  {
    (ops[k].DdrPatch? && DdrReloc(enc, env, ops, k, r)) || (ops[k].BlockWrite? && PmReloc(ops, k, r))
  }

  /** An accepted op emits its one symbol exactly when it patches a BD word. */
  lemma OpEmits(enc: Encoding, env: Env, ops: seq<Op>, k: nat)
    requires k < |ops| && SizesFit(ops) && VerdictAt(enc, env, ops, k).Accept?
    ensures var relocs := VerdictAt(enc, env, ops, k).effect.relocs;
            if PatchesWord(enc, ops, k) then |relocs| == 1 && RelocOf(enc, env, ops, k, relocs[0]) else relocs == []
  {
    hide U32At, ClassOf, InPm, BackScan, BdFor, BdBase, KeySpace, Decimal, BdWord;
    match ops[k]
    case DdrPatch(regaddr, _, _) =>
      BdWordClass(regaddr % 0x10_0000);
      SymbolAtRegister(enc, env, ops, k);
    case BlockWrite(reg, _) =>
      BdWordClass(reg % 0x10_0000 + 4);
      if InPm(enc, ops, k) {
        SymbolInPmMode(enc, env, ops, k);
      }
    case _ =>
  }

  /** The ops, in order, that the symbols of the first k ops come from. */
  lemma {:induction false} Emitters(enc: Encoding, env: Env, ops: seq<Op>, k: nat) returns (from: seq<nat>)
    requires k <= |ops| && SizesFit(ops) && Accepted(enc, env, ops, k)
    ensures forall m, n :: 0 <= m < n < |from| ==> from[m] < from[n]
    ensures forall j: nat :: j in from <==> j < k && PatchesWord(enc, ops, j)
    ensures |from| == |RelocsOf(enc, env, ops, k)|
    ensures forall n :: 0 <= n < |from| ==>
              from[n] < k && RelocOf(enc, env, ops, from[n], RelocsOf(enc, env, ops, k)[n])
  {
    hide VerdictAt, PatchesWord, RelocOf;
    from := [];
    if k > 0 {
      from := Emitters(enc, env, ops, k - 1);
      OpEmits(enc, env, ops, k - 1);
      if PatchesWord(enc, ops, k - 1) {
        from := from + [k - 1];
      }
    }
  }

  /** Why an op is rejected. */
  ghost predicate Blamed(enc: Encoding, env: Env, ops: seq<Op>, k: nat, error: Error)
    requires k < |ops|
  {
    match ops[k]
    case Unknown(code) => error == UnknownOpcode(code)
    case LoadPm(_, id) => id !in env.pmIds && error == UnlistedPm(id)
    case DdrPatch(regaddr, _, argplus) =>
      var base := regaddr % TWO_32 - regaddr % 16;
      if InPm(enc, ops, k) then error == PatchInPmWindow
      else if forall j :: 0 <= j < k ==> !Indexes(enc, ops, j, base) then error == NoBlockWrite(base)
      else argplus > 0xFFFF_FFFF && error == AddendTooBig(argplus)
    case _ => false
  }

  lemma RejectReason(enc: Encoding, env: Env, ops: seq<Op>, k: nat)
    requires k < |ops| && VerdictAt(enc, env, ops, k).Reject?
    ensures Blamed(enc, env, ops, k, VerdictAt(enc, env, ops, k).error)
  {
    hide InPm, Indexes, BackScan, BdBase, ClassOf, LengthInBytes;
    if ops[k].DdrPatch? {
      BaseIsMasked(ops[k].regaddr);
      BackScanMeaning(enc, ops, k, BdBase(ops[k].regaddr));
    }
  }

  lemma BaseIsMasked(regaddr: nat)
    ensures BdBase(regaddr) == regaddr % TWO_32 - regaddr % 16
  {
    var q, low := regaddr / TWO_32, regaddr % TWO_32;
    assert regaddr == 16 * (0x1000_0000 * q) + low;
  }

  // ----- the symbols of a walk -----

  /** Byte `pos` of the buffer is byte `bd.byte` of a payload, which ends where the next op begins. */
  ghost predicate StandsAt(enc: Encoding, b: seq<byte>, bd: Loc, pos: nat) {
    && bd.op < NumOps(b) && Ops(enc, b)[bd.op].BlockWrite?
    && pos + |Ops(enc, b)[bd.op].payload| == Off(enc, b, bd.op + 1) + bd.byte
  }

  ghost predicate SymbolOf(enc: Encoding, env: Env, section: string, b: seq<byte>, k: nat, sym: Symbol) {
    && k < NumOps(b)
    && exists r :: RelocOf(enc, env, Ops(enc, b), k, r) && StandsAt(enc, b, r.place, sym.pos)
                   && sym == Symbol(r.name, sym.pos, r.addend, r.size, section, r.schema, 0)
                   && (r.schema == ShimDma48 ==> sym.size == 4 * U32At(b, sym.pos) % TWO_32)
  }

  lemma RenderedSymbol(enc: Encoding, env: Env, section: string, b: seq<byte>, k: nat, r: Reloc)
    requires WellFormed(enc, b) && k < NumOps(b) && RelocOf(enc, env, Ops(enc, b), k, r)
    ensures SymbolOf(enc, env, section, b, k, Render(section, PayloadAt(enc, b, r.place.op), r))
  {
    hide U32At, ClassOf, OpsTo, Off, WellFormed, NameOfArgument, Decimal, LastLoad;
    var sym := Render(section, PayloadAt(enc, b, r.place.op), r);
    PayloadPlace(enc, b, r.place.op);
    var start, end := PayloadAt(enc, b, r.place.op), Off(enc, b, r.place.op + 1);
    if r.schema == ShimDma48 {
      PayloadsAreWords(enc, b);
      assert Ops(enc, b)[r.place.op].payload == Slice(b, start, end);
      WordOfSlice(b, start, end, r.place.byte);
    }
    assert StandsAt(enc, b, r.place, sym.pos);
  }

  /** The symbols of a walk are those of the ops that patch a BD word, one each and in order: of all such
      ops when the walk reaches the end, else of those before the first op that is not acceptable. */
  lemma EverySymbol(enc: Encoding, env: Env, section: string, b: seq<byte>) returns (from: seq<nat>, done: nat)
    requires WellFormed(enc, b) && Patchable(enc, env, b)
    ensures var walk, ops := WalkAll(enc, env, section, b), Ops(enc, b);
            && done <= NumOps(b) && (forall k :: 0 <= k < done ==> Acceptable(enc, env, ops, k))
            && (walk.Walking? <==> done == NumOps(b))
            && (walk.Halted? ==> !Acceptable(enc, env, ops, done) && Blamed(enc, env, ops, done, walk.error))
            && (forall m, n :: 0 <= m < n < |from| ==> from[m] < from[n])
            && (forall k: nat :: k in from <==> k < done && PatchesWord(enc, ops, k))
            && |walk.w.syms| == |from|
            && forall n :: 0 <= n < |from| ==> SymbolOf(enc, env, section, b, from[n], walk.w.syms[n])
  {
    hide After, OpsTo, WellFormed, Patchable, WalkTo, Cleared, VerdictAt, RelocsOf, ClearedBy, Acceptable, PatchesWord,
         RelocOf, SymbolOf, Blamed;
    var ops := Ops(enc, b);
    WalkIsMachine(enc, env, section, b);
    PayloadsAreWords(enc, b);
    RunFollowsVerdicts(enc, env, ops, |ops|);
    if Run(enc, env, ops).Running? {
      done := |ops|;
    } else {
      done := FailureIsFirstReject(enc, env, ops, |ops|);
      AcceptableExact(enc, env, ops, done);
      RejectReason(enc, env, ops, done);
    }
    from := Emitters(enc, env, ops, done);
    forall k | 0 <= k < done ensures Acceptable(enc, env, ops, k) {
      AcceptableExact(enc, env, ops, k);
    }
    var syms := WalkAll(enc, env, section, b).w.syms;
    forall n | 0 <= n < |from| ensures SymbolOf(enc, env, section, b, from[n], syms[n]) {
      RenderedSymbol(enc, env, section, b, from[n], RelocsOf(enc, env, ops, done)[n]);
    }
  }
}
