/**
 The two walkers on two buffers that carry one program, one in each encoding.

 The walkers are the byte-level walks, so the results ask that both buffers can be patched in place;
 SpillDivides is a program where they cannot, and the walkers part although the runs agree.
 */
module WalkAgreement {
  import opened Bytes
  import opened Symbols
  import opened TxnLayout
  import opened TxnMachine
  import opened TxnRuns
  import opened TxnEncode
  import opened ByteWalk
  import opened TransactionInput
  import opened WalkRefinement
  import opened PatchSafety
  import opened PatchTargets
  import opened Agreement
  import opened ShortChunks

  /** Two well-formed buffers, one in each encoding, with the same ops. */
  ghost predicate OneProgram(legacy: seq<byte>, opt: seq<byte>) {
    WellFormed(Legacy, legacy) && WellFormed(Opt, opt) && Ops(Legacy, legacy) == Ops(Opt, opt)
  }

  ghost predicate BothPatchable(env: Env, legacy: seq<byte>, opt: seq<byte>) {
    Patchable(Legacy, env, legacy) && Patchable(Opt, env, opt)
  }

  /** Block-writes of whole BDs, or with at least twelve bytes of their last. */
  ghost predicate RoomyOps(ops: seq<Op>) {
    forall k :: 0 <= k < |ops| && ops[k].BlockWrite? ==>
      var last := |ops[k].payload| % SHIM_DMA_BD_SIZE; last == 0 || last >= 12
  }

  /** That is enough for both buffers, whatever the run. */
  lemma RoomyProgram(env: Env, legacy: seq<byte>, opt: seq<byte>)
    requires OneProgram(legacy, opt) && RoomyOps(Ops(Legacy, legacy))
    ensures BothPatchable(env, legacy, opt)
  {
    hide WellFormed, OpsTo, Patchable;
    RoomyStreams(Legacy, env, legacy);
    RoomyStreams(Opt, env, opt);
  }

  /** What an optimized header carries fits 32 bits. */
  lemma ProgramFits(legacy: seq<byte>, opt: seq<byte>)
    requires OneProgram(legacy, opt)
    ensures RegsFit(Ops(Opt, opt)) && SizesFit(Ops(Opt, opt))
  {
    hide WellFormed, OpsTo, OpAt, Off;
    PayloadsAreWords(Opt, opt);
    forall k | 0 <= k < NumOps(opt) && Ops(Opt, opt)[k].BlockWrite? ensures Ops(Opt, opt)[k].reg < TWO_32 {
      OpsToAt(Opt, opt, NumOps(opt), k);
      OnlyBlockWrites(Opt, opt, Off(Opt, opt, k));
    }
  }

  // ----- corresponding symbols -----

  /** Both symbols stand at byte d of the payload of block-write k, each in its own buffer. */
  ghost predicate AtPlace(legacy: seq<byte>, opt: seq<byte>, k: nat, d: nat, l: Symbol, o: Symbol) {
    && InBlockWrite(Ops(Legacy, legacy), Loc(k, d))
    && l.pos == PayloadAt(Legacy, legacy, k) + d && o.pos == PayloadAt(Opt, opt, k) + d
  }

  ghost predicate SamePlace(legacy: seq<byte>, opt: seq<byte>, l: Symbol, o: Symbol) {
    exists k: nat, d: nat :: AtPlace(legacy, opt, k, d, l, o)
  }

  /** The same symbols, but for positions that are the same byte of the same block-write. */
  ghost predicate Correspond(legacy: seq<byte>, opt: seq<byte>, ls: seq<Symbol>, os: seq<Symbol>) {
    && |ls| == |os|
    && forall i :: 0 <= i < |ls| ==> ls[i] == os[i].(pos := ls[i].pos) && SamePlace(legacy, opt, ls[i], os[i])
  }

  /** A position in a buffer is a place of at most one block-write. */
  lemma OnePlace(enc: Encoding, b: seq<byte>, p: Loc, q: Loc)
    requires WellFormed(enc, b) && InBlockWrite(Ops(enc, b), p) && InBlockWrite(Ops(enc, b), q)
    ensures PlaceAt(enc, b, p) == PlaceAt(enc, b, q) <==> p == q
  {
    hide LenAt, OpsTo, OpAt, Off, WellFormed;
    PayloadPlace(enc, b, p.op);
    PayloadPlace(enc, b, q.op);
    if p.op < q.op {
      OffMonotone(enc, b, p.op + 1, q.op);
    } else if q.op < p.op {
      OffMonotone(enc, b, q.op + 1, p.op);
    }
  }

  ghost predicate AllInBlockWrites(ops: seq<Op>, relocs: seq<Reloc>) {
    forall i :: 0 <= i < |relocs| ==> InBlockWrite(ops, relocs[i].place)
  }

  /** Real symbols correspond exactly when they are the same symbols of the machine. */
  lemma CorrespondExact(legacy: seq<byte>, opt: seq<byte>, section: string, ls: seq<Reloc>, os: seq<Reloc>)
    requires OneProgram(legacy, opt)
    requires AllInBlockWrites(Ops(Legacy, legacy), ls) && AllInBlockWrites(Ops(Legacy, legacy), os)
    ensures Correspond(legacy, opt, Rendered(Legacy, legacy, section, ls), Rendered(Opt, opt, section, os)) <==>
            ls == os
  {
    hide WellFormed, OpsTo, Off, InBlockWrite, AtPlace, SamePlace;
    var l, o := Rendered(Legacy, legacy, section, ls), Rendered(Opt, opt, section, os);
    if |ls| == |os| {
      forall i | 0 <= i < |ls|
        ensures l[i] == o[i].(pos := l[i].pos) && SamePlace(legacy, opt, l[i], o[i]) <==> ls[i] == os[i]
      {
        SymbolExact(legacy, opt, section, ls[i], os[i]);
      }
    }
  }

  lemma SymbolExact(legacy: seq<byte>, opt: seq<byte>, section: string, l: Reloc, o: Reloc)
    requires OneProgram(legacy, opt)
    requires InBlockWrite(Ops(Legacy, legacy), l.place) && InBlockWrite(Ops(Legacy, legacy), o.place)
    ensures var ls := Render(section, PayloadAt(Legacy, legacy, l.place.op), l);
            var os := Render(section, PayloadAt(Opt, opt, o.place.op), o);
            ls == os.(pos := ls.pos) && SamePlace(legacy, opt, ls, os) <==> l == o
  {
    hide WellFormed, OpsTo, Off;
    var ls := Render(section, PayloadAt(Legacy, legacy, l.place.op), l);
    var os := Render(section, PayloadAt(Opt, opt, o.place.op), o);
    if l == o {
      assert AtPlace(legacy, opt, l.place.op, l.place.byte, ls, os);
    }
    if SamePlace(legacy, opt, ls, os) {
      var k: nat, d: nat :| AtPlace(legacy, opt, k, d, ls, os);
      OnePlace(Legacy, legacy, l.place, Loc(k, d));
      OnePlace(Opt, opt, o.place, Loc(k, d));
    }
  }

  /** A run's symbols stand in block-writes. */
  lemma RunInBlockWrites(enc: Encoding, env: Env, b: seq<byte>)
    requires WellFormed(enc, b)
    ensures AllInBlockWrites(Ops(enc, b), Run(enc, env, Ops(enc, b)).st.relocs)
  {
    hide WellFormed, OpsTo, After;
    PayloadsAreWords(enc, b);
    RelocPlaces(enc, env, Ops(enc, b), NumOps(b));
  }

  // ----- the walks -----

  function LegacyWalk(env: Env, section: string, b: seq<byte>): Walk { WalkAll(Legacy, env, section, b) }

  function OptWalk(env: Env, section: string, b: seq<byte>): Walk { WalkAll(Opt, env, section, b) }

  /** Both walks, each as the machine's run on the common ops. */
  lemma BothWalks(env: Env, section: string, legacy: seq<byte>, opt: seq<byte>)
    requires OneProgram(legacy, opt) && BothPatchable(env, legacy, opt)
    ensures MemorySafe(Legacy, env, section, legacy) && MemorySafe(Opt, env, section, opt)
    ensures var ops, l, o := Ops(Opt, opt), LegacyWalk(env, section, legacy), OptWalk(env, section, opt);
            var lr, or := Run(Legacy, env, ops), Run(Opt, env, ops);
            && l.Walking? == lr.Running? && (l.Halted? ==> l.error == lr.error)
            && o.Walking? == or.Running? && (o.Halted? ==> o.error == or.error)
            && l.w.b == Cleared(Legacy, legacy, lr.st.cleared) && o.w.b == Cleared(Opt, opt, or.st.cleared)
            && |l.w.syms| == |lr.st.relocs| && |o.w.syms| == |or.st.relocs|
            && (Correspond(legacy, opt, l.w.syms, o.w.syms) <==> lr.st.relocs == or.st.relocs)
  {
    hide WellFormed, OpsTo, After, Patchable, MemorySafe, WalkTo, Correspond, AllInBlockWrites, Cleared;
    PatchableIsSafe(Legacy, env, section, legacy);
    PatchableIsSafe(Opt, env, section, opt);
    WalkIsMachine(Legacy, env, section, legacy);
    WalkIsMachine(Opt, env, section, opt);
    RunInBlockWrites(Legacy, env, legacy);
    RunInBlockWrites(Opt, env, opt);
    var ops := Ops(Opt, opt);
    CorrespondExact(legacy, opt, section, Run(Legacy, env, ops).st.relocs, Run(Opt, env, ops).st.relocs);
  }

  /** The optimized walker accepts, with no patch whose BD only its wrapping keys find, exactly what the
      legacy walker accepts with no DDR patch after a LOAD_PM_START. */
  lemma WalksAccept(env: Env, section: string, legacy: seq<byte>, opt: seq<byte>)
    requires OneProgram(legacy, opt) && BothPatchable(env, legacy, opt)
    ensures var ops := Ops(Legacy, legacy);
            OptWalk(env, section, opt).Walking? && (forall k :: 0 <= k < |ops| ==> LegacyIndexed(ops, k)) <==>
            LegacyWalk(env, section, legacy).Walking? && !PatchAfterLoad(ops)
  {
    hide WellFormed, OpsTo, After, Patchable, WalkAll, RegsFit, SizesFit, LegacyIndexed, PatchAfterLoad, Correspond;
    BothWalks(env, section, legacy, opt);
    ProgramFits(legacy, opt);
    OptAcceptance(env, Ops(Legacy, legacy));
  }

  /** Exact agreement of the walkers: what the legacy walker accepts the optimized one accepts with
      corresponding symbols exactly when no DDR patch follows a LOAD_PM_START, no BD block-write follows
      the end of a window, and no patch of a BD word finds a chunk past 2^32. */
  lemma WalksAgree(env: Env, section: string, legacy: seq<byte>, opt: seq<byte>)
    requires OneProgram(legacy, opt) && BothPatchable(env, legacy, opt)
    requires LegacyWalk(env, section, legacy).Walking?
    ensures var ops, l, o := Ops(Legacy, legacy), LegacyWalk(env, section, legacy), OptWalk(env, section, opt);
            o.Walking? && Correspond(legacy, opt, l.w.syms, o.w.syms) <==>
            !PatchAfterLoad(ops) && NoneDiffers(ops, |ops|)
  {
    hide WellFormed, OpsTo, After, Patchable, WalkAll, RegsFit, SizesFit, NoneDiffers, PatchAfterLoad, Correspond;
    var ops := Ops(Legacy, legacy);
    BothWalks(env, section, legacy, opt);
    ProgramFits(legacy, opt);
    ExactAgreement(env, ops);
    if Run(Opt, env, ops).Running? && Run(Legacy, env, ops).st.relocs == Run(Opt, env, ops).st.relocs {
      SameSymbolsSameClears(env, ops);
    }
  }

  /** Accepted runs with the same symbols clear the same BDs. */
  lemma SameSymbolsSameClears(env: Env, ops: seq<Op>)
    requires RegsFit(ops) && SizesFit(ops) && Run(Legacy, env, ops).Running? && Run(Opt, env, ops).Running?
    requires Run(Legacy, env, ops).st.relocs == Run(Opt, env, ops).st.relocs
    ensures Run(Legacy, env, ops).st.cleared == Run(Opt, env, ops).st.cleared
  {
    hide VerdictAt, After, RegsFit, SizesFit, NoneDiffers;
    RunFollowsVerdicts(Opt, env, ops, |ops|);
    RunFollowsVerdicts(Legacy, env, ops, |ops|);
    SymbolCounts(env, ops, |ops|);
    SameEmission(env, ops, |ops|);
  }

  /** Then the two buffers still carry one program after both walkers have patched them. */
  lemma PatchedStillAgree(env: Env, section: string, legacy: seq<byte>, opt: seq<byte>)
    requires OneProgram(legacy, opt) && BothPatchable(env, legacy, opt)
    requires LegacyWalk(env, section, legacy).Walking? && OptWalk(env, section, opt).Walking?
    requires Correspond(legacy, opt, LegacyWalk(env, section, legacy).w.syms, OptWalk(env, section, opt).w.syms)
    ensures OneProgram(LegacyWalk(env, section, legacy).w.b, OptWalk(env, section, opt).w.b)
  {
    hide WellFormed, OpsTo, After, WalkAll, RegsFit, SizesFit, Correspond, Cleared, ClearedOp, OutsideKept, ChunkList,
         Off, AllContained;
    var ops := Ops(Legacy, legacy);
    BothWalks(env, section, legacy, opt);
    ProgramFits(legacy, opt);
    SameSymbolsSameClears(env, ops);
    RunKeepsOutside(Legacy, env, legacy);
    RunKeepsOutside(Opt, env, opt);
    StructureKept(Legacy, legacy, Run(Legacy, env, ops).st.cleared);
    StructureKept(Opt, opt, Run(Opt, env, ops).st.cleared);
  }

  /** Where neither windows nor register keys make a difference, both walkers accept or both reject with
      the same error, with corresponding symbols either way. */
  lemma WalksFailAlike(env: Env, section: string, legacy: seq<byte>, opt: seq<byte>)
    requires OneProgram(legacy, opt) && BothPatchable(env, legacy, opt)
    requires SameModes(Ops(Legacy, legacy), |Ops(Legacy, legacy)|)
    ensures var l, o := LegacyWalk(env, section, legacy), OptWalk(env, section, opt);
            && l.Walking? == o.Walking? && (l.Halted? ==> l.error == o.error)
            && Correspond(legacy, opt, l.w.syms, o.w.syms)
  {
    hide WellFormed, OpsTo, After, Patchable, WalkAll, RegsFit, SizesFit, SameModes, Correspond;
    BothWalks(env, section, legacy, opt);
    ProgramFits(legacy, opt);
    SameOutcome(env, Ops(Legacy, legacy), |Ops(Legacy, legacy)|);
  }

  /** When both accept, the optimized walker has one symbol more for each BD block-write after a closed
      window. */
  lemma WalkSymbolCounts(env: Env, section: string, legacy: seq<byte>, opt: seq<byte>)
    requires OneProgram(legacy, opt) && BothPatchable(env, legacy, opt)
    requires LegacyWalk(env, section, legacy).Walking? && OptWalk(env, section, opt).Walking?
    ensures |OptWalk(env, section, opt).w.syms| ==
            |LegacyWalk(env, section, legacy).w.syms| + Strays(Ops(Legacy, legacy), |Ops(Legacy, legacy)|)
  {
    hide WellFormed, OpsTo, After, Patchable, WalkAll, RegsFit, SizesFit, Strays, Correspond, VerdictAt;
    var ops := Ops(Legacy, legacy);
    BothWalks(env, section, legacy, opt);
    ProgramFits(legacy, opt);
    RunFollowsVerdicts(Opt, env, ops, |ops|);
    RunFollowsVerdicts(Legacy, env, ops, |ops|);
    SymbolCounts(env, ops, |ops|);
  }

  // ----- encoded programs -----

  /** One program encoded both ways gives such a pair of buffers, each selecting its walker; and when its
      block-writes are roomy, for any run both can be patched in place. */
  lemma EncodedBothWays(env: Env, numCols: byte, ops: seq<Op>)
    requires AllEncodable(Legacy, ops) && AllEncodable(Opt, ops) && |ops| < TWO_32
    requires |EncodeStream(Legacy, numCols, ops)| < TWO_32 && |EncodeStream(Opt, numCols, ops)| < TWO_32
    ensures var legacy, opt := EncodeStream(Legacy, numCols, ops), EncodeStream(Opt, numCols, ops);
            && OneProgram(legacy, opt) && Ops(Legacy, legacy) == ops
            && EncodingOf(legacy) == Legacy && EncodingOf(opt) == Opt
            && (RoomyOps(ops) ==> BothPatchable(env, legacy, opt))
  {
    hide EncodeStream, WellFormed, OpsTo, RoomyOps, AllEncodable;
    StreamRoundTrip(Legacy, numCols, ops);
    StreamRoundTrip(Opt, numCols, ops);
    if RoomyOps(ops) {
      RoomyProgram(env, EncodeStream(Legacy, numCols, ops), EncodeStream(Opt, numCols, ops));
    }
  }

  /** A short program encoded both ways. */
  lemma SmallProgram(env: Env, numCols: byte, ops: seq<Op>)
    requires AllEncodable(Legacy, ops) && AllEncodable(Opt, ops) && |ops| <= 8
    requires forall k :: 0 <= k < |ops| && ops[k].BlockWrite? ==> |ops[k].payload| <= 64
    ensures var legacy, opt := EncodeStream(Legacy, numCols, ops), EncodeStream(Opt, numCols, ops);
            && OneProgram(legacy, opt) && Ops(Legacy, legacy) == ops
            && (RoomyOps(ops) ==> BothPatchable(env, legacy, opt))
  {
    hide EncodeStream, WellFormed, OpsTo, RoomyOps, AllEncodable;
    SmallStream(Legacy, numCols, ops);
    SmallStream(Opt, numCols, ops);
    EncodedBothWays(env, numCols, ops);
  }

  /** A program that only the legacy walker accepts: an empty PM load, then an ordinary BD block-write and
      its patch. */
  lemma EmptyPmLoadDivides(env: Env, section: string, numCols: byte, payload: seq<byte>)
    requires 0 in env.pmIds && 12 <= |payload| <= 32 && |payload| % 4 == 0
    ensures var ops := [LoadPm(0, 0), BlockWrite(SHIM_DMA_BD0_0, payload), DdrPatch(SHIM_DMA_BD0_0 + 4, 0, 0)];
            && AllEncodable(Legacy, ops) && AllEncodable(Opt, ops)
            && var legacy, opt := EncodeStream(Legacy, numCols, ops), EncodeStream(Opt, numCols, ops);
            && OneProgram(legacy, opt) && BothPatchable(env, legacy, opt)
            && LegacyWalk(env, section, legacy).Walking?
            && OptWalk(env, section, opt).Halted? && OptWalk(env, section, opt).error == PatchInPmWindow
  {
    hide EncodeStream, WellFormed, OpsTo, After, Patchable, WalkAll, Correspond;
    var ops := [LoadPm(0, 0), BlockWrite(SHIM_DMA_BD0_0, payload), DdrPatch(SHIM_DMA_BD0_0 + 4, 0, 0)];
    SmallProgram(env, numCols, ops);
    BothWalks(env, section, EncodeStream(Legacy, numCols, ops), EncodeStream(Opt, numCols, ops));
    EmptyPmLoadRuns(env, payload);
  }

  /** A program that only the optimized walker accepts. */
  lemma WrappingKeyDivides(env: Env, section: string, numCols: byte, payload: seq<byte>)
    requires |payload| == 64
    ensures var ops := WrappingKey(payload);
            && AllEncodable(Legacy, ops) && AllEncodable(Opt, ops)
            && var legacy, opt := EncodeStream(Legacy, numCols, ops), EncodeStream(Opt, numCols, ops);
            && OneProgram(legacy, opt) && BothPatchable(env, legacy, opt)
            && OptWalk(env, section, opt).Walking?
            && LegacyWalk(env, section, legacy).Halted?
            && LegacyWalk(env, section, legacy).error == NoBlockWrite(0)
  {
    hide EncodeStream, WellFormed, OpsTo, After, Patchable, WalkAll, Correspond;
    var ops := WrappingKey(payload);
    SmallProgram(env, numCols, ops);
    BothWalks(env, section, EncodeStream(Legacy, numCols, ops), EncodeStream(Opt, numCols, ops));
    WrappingKeyRuns(env, payload);
  }

  // ----- where a clear spills the walkers part -----

  /** Two words of a shim BD loaded as PM code, then a MASKWRITE and a NOOP. */
  function SpillProgram(payload: seq<byte>): seq<Op> {
    [LoadPm(1, 0), BlockWrite(SHIM_DMA_BD0_0, payload), MaskWrite(0, [0, 0, 0, 0], [2, 0, 0, 0]), NoOp]
  }

  /** None of the differences between the runs concerns it. */
  lemma SpillProgramAgrees(payload: seq<byte>)
    ensures var ops := SpillProgram(payload); !PatchAfterLoad(ops) && NoneDiffers(ops, 4) && SameModes(ops, 4)
  {
    hide ClassOf;
    var ops := SpillProgram(payload);
    assert LastLoad(ops, 1) == 0;
  }

  /** Where its ops are, and what the MASKWRITE holds there. */
  lemma SpillPlaces(enc: Encoding, b: seq<byte>, payload: seq<byte>)
    requires WellFormed(enc, b) && Ops(enc, b) == SpillProgram(payload) && |payload| == 8
    ensures NumOps(b) == 4
    ensures var p := Off(enc, b, 2);
            && PayloadAt(enc, b, 1) + 8 == p && CodeAt(b, p) == IO_MASKWRITE
            && p + HeaderLen(enc, IO_MASKWRITE) + 4 <= |b|
            && U32At(b, p + if enc == Legacy then MW_VALUE else MW_OPT_VALUE) == 2
  {
    hide WellFormed, OpsTo, Off, LenAt, U32At, Slice;
    assert NumOps(b) == |Ops(enc, b)|;
    PayloadPlace(enc, b, 1);
    OpsToAt(enc, b, 4, 2);
    OpsToAt(enc, b, 4, 3);
    WellFormedFits(enc, b, 2);
    OffNext(enc, b, 2);
    ShortOpLength(enc, b, 3);
    OffInside(enc, b, 4);
    MaskWriteFields(enc, b, Off(enc, b, 2));
    assert U32At([2, 0, 0, 0], 0) == 2 by { WordOfTwo(); }
  }

  lemma WordOfTwo()
    ensures U32At([2, 0, 0, 0], 0) == 2
  {
  }

  lemma MaskWriteFields(enc: Encoding, b: seq<byte>, p: nat)
    requires FitsAt(enc, b, p) && OpAt(enc, b, p).MaskWrite?
    ensures CodeAt(b, p) == IO_MASKWRITE && LenAt(enc, b, p) >= HeaderLen(enc, IO_MASKWRITE)
    ensures U32At(OpAt(enc, b, p).value, 0) == U32At(b, p + if enc == Legacy then MW_VALUE else MW_OPT_VALUE)
  {
    hide U32At, U64At, WriteAt, PatchAt;
    var v := p + if enc == Legacy then MW_VALUE else MW_OPT_VALUE;
    WordOfSlice(b, v, v + 4, 0);
  }

  /** A WRITE moves the walker by its size and changes nothing else it will need. */
  lemma WriteStep(enc: Encoding, env: Env, section: string, w: Walker)
    requires CodeAt(w.b, w.ptr) == IO_WRITE
    ensures var next := StepBytes(enc, env, section, w);
            && next.Walking? && next.w.b == w.b
            && next.w.ptr == w.ptr + if enc == Legacy then U32At(w.b, w.ptr + W32_SIZE) else W32_OPT
    ensures w.ptr + HeaderLen(enc, IO_WRITE) <= |w.b| ==> StepInside(enc, env, w)
  {
    hide U32At, U64At, Slice;
  }

  /** What the clear has made of the MASKWRITE: a WRITE, all but its first two bytes as they were. */
  lemma SpilledMaskWrite(enc: Encoding, env: Env, section: string, b: seq<byte>, payload: seq<byte>)
    requires WellFormed(enc, b) && Ops(enc, b) == SpillProgram(payload) && |payload| == 8 && 0 in env.pmIds
    ensures TXN_HEADER <= |b| < TWO_32 && NumOps(b) == 4
    ensures StepSafe(enc, env, section, b, 0) && StepSafe(enc, env, section, b, 1)
    ensures WalkTo(enc, env, section, b, 2).Walking?
    ensures var w, p := WalkTo(enc, env, section, b, 2).w, Off(enc, b, 2);
            && w.ptr == p && |w.b| == |b| && CodeAt(w.b, p) == IO_WRITE
            && p + HeaderLen(enc, IO_MASKWRITE) + 4 <= |b| && SameOn(b, w.b, p + 2, |b|)
            && U32At(w.b, p + if enc == Legacy then MW_VALUE else MW_OPT_VALUE) == 2
  {
    hide WellFormed, OpsTo, Off, OpAt, LenAt, U32At, StepInside, WalkTo;
    SpillPlaces(enc, b, payload);
    WellFormedShort(enc, b);
    LoadsBdWalk(enc, env, section, b);
    var w, p := WalkTo(enc, env, section, b, 2).w, Off(enc, b, 2);
    SameWord(b, w.b, p + 2, |b|, p + if enc == Legacy then MW_VALUE else MW_OPT_VALUE);
  }

  /** The legacy walker takes the MASKWRITE's value for a size, then its padding for another WRITE. */
  lemma SpilledLegacy(env: Env, section: string, numCols: byte, payload: seq<byte>)
    requires |payload| == 8 && 0 in env.pmIds && AllEncodable(Legacy, SpillProgram(payload))
    requires var b := EncodeStream(Legacy, numCols, SpillProgram(payload));
             WellFormed(Legacy, b) && Ops(Legacy, b) == SpillProgram(payload)
    ensures var b := EncodeStream(Legacy, numCols, SpillProgram(payload));
            MemorySafe(Legacy, env, section, b) && WalkAll(Legacy, env, section, b).Walking?
  {
    hide EncodeStream, EncodeOps, WellFormed, OpsTo, Off, OpAt, LenAt, U32At, StepInside, WalkTo, StepBytes,
         AllEncodable;
    var b := EncodeStream(Legacy, numCols, SpillProgram(payload));
    var p := Off(Legacy, b, 2);
    SpilledMaskWrite(Legacy, env, section, b, payload);
    var w := WalkTo(Legacy, env, section, b, 2).w;
    WriteStep(Legacy, env, section, w);
    NextStep(Legacy, env, section, b, 2);
    PaddingIsZero(numCols, payload);
    var v := WalkTo(Legacy, env, section, b, 3).w;
    assert CodeAt(v.b, v.ptr) == ByteAt(b, p + 2) == IO_WRITE;
    WriteStep(Legacy, env, section, v);
    NextStep(Legacy, env, section, b, 3);
    SafeSoFar(Legacy, env, section, b, 4);
  }

  lemma NextStep(enc: Encoding, env: Env, section: string, b: seq<byte>, k: nat)
    requires WalkTo(enc, env, section, b, k).Walking?
    ensures WalkTo(enc, env, section, b, k + 1) == StepBytes(enc, env, section, WalkTo(enc, env, section, b, k).w)
  {
    hide StepBytes;
  }

  lemma PaddingIsZero(numCols: byte, payload: seq<byte>)
    requires AllEncodable(Legacy, SpillProgram(payload))
    ensures var b := EncodeStream(Legacy, numCols, SpillProgram(payload)); ByteAt(b, Off(Legacy, b, 2) + 2) == 0
  {
    hide EncodeStream, EncodeOps, Off, AllEncodable;
    var ops := SpillProgram(payload);
    var b := EncodeStream(Legacy, numCols, ops);
    assert Encodable(Legacy, ops[2]);
    StreamOffsets(Legacy, numCols, ops, 2);
    OpInStream(Legacy, numCols, ops, 2);
    SecondByte(b, Off(Legacy, b, 2), ops[2]);
  }

  lemma SecondByte(b: seq<byte>, p: nat, op: Op)
    requires op.MaskWrite? && Encodable(Legacy, op) && Holds(b, p, EncodeOp(Legacy, op))
    ensures ByteAt(b, p + 2) == 0
  {
    hide Le64, Le32;
    assert b[p + 2] == EncodeOp(Legacy, op)[2];
  }

  /** The optimized walker lands on the MASKWRITE's value and takes it for an opcode. */
  lemma SpilledOpt(env: Env, section: string, b: seq<byte>, payload: seq<byte>)
    requires |payload| == 8 && 0 in env.pmIds && WellFormed(Opt, b) && Ops(Opt, b) == SpillProgram(payload)
    ensures MemorySafe(Opt, env, section, b)
    ensures WalkAll(Opt, env, section, b).Halted? && WalkAll(Opt, env, section, b).error == UnknownOpcode(2)
  {
    hide WellFormed, OpsTo, Off, OpAt, LenAt, StepInside, WalkTo, StepBytes;
    SpilledMaskWrite(Opt, env, section, b, payload);
    var w := WalkTo(Opt, env, section, b, 2).w;
    WriteStep(Opt, env, section, w);
    NextStep(Opt, env, section, b, 2);
    var v := WalkTo(Opt, env, section, b, 3).w;
    assert CodeAt(v.b, v.ptr) == 2 by { LowByte(v.b, v.ptr); }
    UnknownHalts(Opt, env, section, v);
    NextStep(Opt, env, section, b, 3);
    SafeSoFar(Opt, env, section, b, 4);
  }

  lemma LowByte(b: seq<byte>, p: nat)
    requires U32At(b, p) == 2
    ensures CodeAt(b, p) == 2
  {
  }

  /** A program that no difference between the runs concerns, encodable both ways and walked inside its
      buffer in both: the legacy walker accepts it and the optimized one rejects it, because its clear
      spills into the MASKWRITE and each walker then reads other bytes as sizes and opcodes. */
  lemma SpillDivides(env: Env, section: string, numCols: byte, payload: seq<byte>)
    requires |payload| == 8 && 0 in env.pmIds
    ensures var ops := SpillProgram(payload);
            && AllEncodable(Legacy, ops) && AllEncodable(Opt, ops)
            && !PatchAfterLoad(ops) && NoneDiffers(ops, |ops|) && SameModes(ops, |ops|)
            && var legacy, opt := EncodeStream(Legacy, numCols, ops), EncodeStream(Opt, numCols, ops);
            && OneProgram(legacy, opt) && Ops(Legacy, legacy) == ops
            && MemorySafe(Legacy, env, section, legacy) && MemorySafe(Opt, env, section, opt)
            && LegacyWalk(env, section, legacy).Walking?
            && OptWalk(env, section, opt).Halted? && OptWalk(env, section, opt).error == UnknownOpcode(2)
  {
    hide EncodeStream, WellFormed, OpsTo, WalkTo, MemorySafe, NoneDiffers, SameModes, PatchAfterLoad;
    var ops := SpillProgram(payload);
    SpillProgramAgrees(payload);
    SmallProgram(env, numCols, ops);
    SpilledLegacy(env, section, numCols, payload);
    SpilledOpt(env, section, EncodeStream(Opt, numCols, ops), payload);
  }
}
