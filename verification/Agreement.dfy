/**
 The machine's legacy and optimized runs on one program.

 The optimized one never closes a PM window, and its register keys are 32 bits wide.  These lemmas say
 exactly which programs the two differences matter for; WalkAgreement.dfy says it of the walks over two
 buffers that carry one program.
 */
module Agreement {
  import opened Bytes
  import opened Symbols
  import opened TxnLayout
  import opened TxnMachine
  import opened TxnRuns

  /** Registers an optimized header can carry. */
  ghost predicate RegsFit(ops: seq<Op>) {
    forall k :: 0 <= k < |ops| && ops[k].BlockWrite? ==> ops[k].reg < TWO_32
  }

  predicate AfterLoad(ops: seq<Op>, k: nat)
    requires k <= |ops|
  {
    LastLoad(ops, k) >= 0
  }

  /** Optimized PM mode contains legacy PM mode, and is everything after a LOAD_PM_START. */
  lemma WindowsNest(ops: seq<Op>, k: nat)
    requires k <= |ops|
    ensures InPm(Legacy, ops, k) ==> InPm(Opt, ops, k)
    ensures InPm(Opt, ops, k) <==> AfterLoad(ops, k)
  {
  }

  lemma {:induction false} NoLoadBefore(ops: seq<Op>, j: nat, k: nat)
    requires j <= k <= |ops| && !AfterLoad(ops, k)
    ensures !AfterLoad(ops, j)
  {
    if j < k {
      NoLoadBefore(ops, j, k - 1);
    }
  }

  // ----- register keys -----

  /** A chunk past 2^32, which only 32-bit keys wrap around to a small register. */
  predicate Wraps(ops: seq<Op>, bd: Loc) {
    bd.op < |ops| && ops[bd.op].BlockWrite? && ops[bd.op].reg + bd.byte >= TWO_32
  }

  /** The legacy map has a chunk under a 32-bit register exactly when the other has one that does not wrap. */
  lemma ChunkUnlessWrapped(op: Op, r: nat)
    requires op.BlockWrite? ==> op.reg < TWO_32 && |op.payload| < TWO_32
    requires r < TWO_32
    ensures var opt := ChunkAt(Opt, op, r);
            ChunkAt(Legacy, op, r) == if opt.Some? && op.reg + opt.value < TWO_32 then opt else None
  {
    if op.BlockWrite? {
      if r >= op.reg {
        assert (r - op.reg) % TWO_32 == r - op.reg == (r - op.reg) % TWO_64;
      } else {
        assert (r - op.reg) % TWO_32 == TWO_32 + r - op.reg;
        assert (r - op.reg) % TWO_64 == TWO_64 + r - op.reg;
      }
    }
  }

  /** Where the windows agree, the two backward scans agree unless the optimized one finds a wrapped chunk;
      then the legacy one goes on behind it. */
  lemma {:induction false} ScanUnlessWrapped(ops: seq<Op>, k: nat, r: nat)
    requires k <= |ops| && RegsFit(ops) && SizesFit(ops) && r < TWO_32
    requires forall j :: 0 <= j < k && ops[j].BlockWrite? ==> InPm(Legacy, ops, j) == InPm(Opt, ops, j)
    ensures var legacy, opt := BackScan(Legacy, ops, k, r), BackScan(Opt, ops, k, r);
            match opt
            case None => legacy == None
            case Some(bd) =>
              if Wraps(ops, bd) then legacy.Some? ==> legacy.value.op < bd.op else legacy == opt
  {
    hide InPm, ChunkAt;
    if k > 0 {
      ScanUnlessWrapped(ops, k - 1, r);
      ChunkUnlessWrapped(ops[k - 1], r);
      ScanIsBefore(Legacy, ops, k - 1, r);
      NoChunk(Legacy, ops[k - 1], r);
      NoChunk(Opt, ops[k - 1], r);
    }
  }

  lemma {:induction false} ScanIsBefore(enc: Encoding, ops: seq<Op>, k: nat, r: nat)
    requires k <= |ops|
    ensures BackScan(enc, ops, k, r).Some? ==> BackScan(enc, ops, k, r).value.op < k
  {
    hide InPm, ChunkAt;
    if k > 0 {
      ScanIsBefore(enc, ops, k - 1, r);
    }
  }

  lemma NoChunk(enc: Encoding, op: Op, r: nat)
    ensures ChunkAt(enc, op, r).Some? ==> op.BlockWrite?
  {
  }

  /** The latest chunk the optimized walker has indexed for patch k wraps. */
  predicate WrappedPatch(ops: seq<Op>, k: nat)
    requires k < |ops|
  {
    && ops[k].DdrPatch?
    && BackScan(Opt, ops, k, BdBase(ops[k].regaddr)).Some?
    && Wraps(ops, BackScan(Opt, ops, k, BdBase(ops[k].regaddr)).value)
  }

  /** Before any LOAD_PM_START neither walker is in PM mode. */
  lemma ScanBeforeLoad(ops: seq<Op>, k: nat, r: nat)
    requires k <= |ops| && RegsFit(ops) && SizesFit(ops) && r < TWO_32 && !AfterLoad(ops, k)
    ensures var legacy, opt := BackScan(Legacy, ops, k, r), BackScan(Opt, ops, k, r);
            match opt
            case None => legacy == None
            case Some(bd) =>
              if Wraps(ops, bd) then legacy.Some? ==> legacy.value.op < bd.op else legacy == opt
  {
    hide WindowAt, SizesFit, RegsFit;
    forall j | 0 <= j < k ensures InPm(Legacy, ops, j) == InPm(Opt, ops, j) {
      NoLoadBefore(ops, j, k);
      WindowsNest(ops, j);
    }
    ScanUnlessWrapped(ops, k, r);
  }

  // ----- verdicts -----

  /** An op after the first LOAD_PM_START, other than a patch, is judged alike; only block-writes in a
      closed legacy window can emit something in one walker and not in the other. */
  lemma VerdictsAfterLoad(env: Env, ops: seq<Op>, k: nat)
    requires k < |ops| && AfterLoad(ops, k) && !ops[k].DdrPatch?
    ensures VerdictAt(Legacy, env, ops, k).Accept? == VerdictAt(Opt, env, ops, k).Accept?
    ensures !(ops[k].BlockWrite? && !InPm(Legacy, ops, k)) ==>
              VerdictAt(Legacy, env, ops, k) == VerdictAt(Opt, env, ops, k)
  {
    hide WindowAt;
    WindowsNest(ops, k);
  }

  lemma PatchInOpenWindow(env: Env, ops: seq<Op>, k: nat)
    requires k < |ops| && ops[k].DdrPatch? && AfterLoad(ops, k)
    ensures VerdictAt(Opt, env, ops, k) == Reject(PatchInPmWindow)
  {
    WindowsNest(ops, k);
  }

  /** An op before any LOAD_PM_START, other than a patch, is judged alike. */
  lemma OtherBeforeLoad(env: Env, ops: seq<Op>, k: nat)
    requires k < |ops| && !AfterLoad(ops, k) && !ops[k].DdrPatch?
    ensures VerdictAt(Legacy, env, ops, k) == VerdictAt(Opt, env, ops, k)
  {
    hide WindowAt, PatchEffect;
    WindowsNest(ops, k);
  }

  /** A patch before any LOAD_PM_START: accepted by the optimized walker whenever by the legacy one, and
      the other way round when the legacy walker has a BD for it; with the same effect unless it wraps. */
  lemma PatchBeforeLoad(env: Env, ops: seq<Op>, k: nat)
    requires k < |ops| && RegsFit(ops) && SizesFit(ops) && !AfterLoad(ops, k) && ops[k].DdrPatch?
    ensures VerdictAt(Legacy, env, ops, k).Accept? <==> VerdictAt(Opt, env, ops, k).Accept? && LegacyIndexed(ops, k)
    ensures !WrappedPatch(ops, k) ==> VerdictAt(Legacy, env, ops, k) == VerdictAt(Opt, env, ops, k)
    ensures VerdictAt(Legacy, env, ops, k).Accept? && ClassOf(TileReg(ops[k].regaddr)) == NoBd ==>
              VerdictAt(Legacy, env, ops, k) == VerdictAt(Opt, env, ops, k)
    ensures VerdictAt(Legacy, env, ops, k).Accept? && ClassOf(TileReg(ops[k].regaddr)) != NoBd ==>
              && |VerdictAt(Legacy, env, ops, k).effect.relocs| == |VerdictAt(Opt, env, ops, k).effect.relocs| == 1
              && (WrappedPatch(ops, k) ==>
                    VerdictAt(Legacy, env, ops, k).effect.relocs != VerdictAt(Opt, env, ops, k).effect.relocs)
  {
    hide WindowAt, BackScan, LengthInBytes, ShimName, Decimal, ClassOf, TileReg, BdBase, RegsFit, SizesFit, Wraps;
    var base := BdBase(ops[k].regaddr);
    WindowsNest(ops, k);
    ScanBeforeLoad(ops, k, base);
    BackScanMeaning(Legacy, ops, k, base);
  }

  /** The legacy walker has indexed a BD for patch k. */
  ghost predicate LegacyIndexed(ops: seq<Op>, k: nat)
    requires k < |ops|
  {
    ops[k].DdrPatch? ==> exists j :: 0 <= j < k && Indexes(Legacy, ops, j, BdBase(ops[k].regaddr))
  }

  ghost predicate PatchAfterLoad(ops: seq<Op>) {
    exists k :: 0 <= k < |ops| && ops[k].DdrPatch? && AfterLoad(ops, k)
  }

  lemma AcceptedAlike(env: Env, ops: seq<Op>, k: nat)
    requires k < |ops| && RegsFit(ops) && SizesFit(ops)
    ensures !(ops[k].DdrPatch? && AfterLoad(ops, k)) ==>
              (VerdictAt(Legacy, env, ops, k).Accept? <==> VerdictAt(Opt, env, ops, k).Accept? && LegacyIndexed(ops, k))
    ensures ops[k].DdrPatch? && AfterLoad(ops, k) ==> VerdictAt(Opt, env, ops, k).Reject?
  {
    hide VerdictAt, RegsFit, SizesFit;
    if AfterLoad(ops, k) {
      if ops[k].DdrPatch? {
        PatchInOpenWindow(env, ops, k);
      } else {
        VerdictsAfterLoad(env, ops, k);
      }
    } else if ops[k].DdrPatch? {
      PatchBeforeLoad(env, ops, k);
    } else {
      OtherBeforeLoad(env, ops, k);
    }
  }

  /** The optimized walker accepts, with no patch it found only by wrapping, exactly what the legacy walker
      accepts with no DDR patch after a LOAD_PM_START. */
  lemma OptAcceptance(env: Env, ops: seq<Op>)
    requires RegsFit(ops) && SizesFit(ops)
    ensures Run(Opt, env, ops).Running? && (forall k :: 0 <= k < |ops| ==> LegacyIndexed(ops, k)) <==>
            Run(Legacy, env, ops).Running? && !PatchAfterLoad(ops)
  {
    hide VerdictAt, After, RegsFit, SizesFit, LegacyIndexed;
    RunFollowsVerdicts(Opt, env, ops, |ops|);
    RunFollowsVerdicts(Legacy, env, ops, |ops|);
    forall k | 0 <= k < |ops|
      ensures !(ops[k].DdrPatch? && AfterLoad(ops, k)) ==>
                (VerdictAt(Legacy, env, ops, k).Accept? <==>
                 VerdictAt(Opt, env, ops, k).Accept? && LegacyIndexed(ops, k))
      ensures ops[k].DdrPatch? && AfterLoad(ops, k) ==> VerdictAt(Opt, env, ops, k).Reject?
    {
      AcceptedAlike(env, ops, k);
    }
  }

  // ----- the symbols -----

  /** A block-write that the optimized walker patches although its legacy window has closed. */
  predicate StrayPatch(ops: seq<Op>, k: nat)
    requires k < |ops|
  {
    && ops[k].BlockWrite? && AfterLoad(ops, k) && !InPm(Legacy, ops, k)
    && ClassOf(TileReg(ops[k].reg) + 4) != NoBd
  }

  /** A patch of a BD word whose optimized BD wraps. */
  predicate WrongBd(ops: seq<Op>, k: nat)
    requires k < |ops|
  {
    WrappedPatch(ops, k) && ClassOf(TileReg(ops[k].regaddr)) != NoBd
  }

  function Strays(ops: seq<Op>, k: nat): nat
    requires k <= |ops|
  {
    if k == 0 then 0 else Strays(ops, k - 1) + if StrayPatch(ops, k - 1) then 1 else 0
  }

  lemma {:induction false} NoStrays(ops: seq<Op>, k: nat)
    requires k <= |ops|
    ensures Strays(ops, k) == 0 <==> forall j :: 0 <= j < k ==> !StrayPatch(ops, j)
  {
    hide StrayPatch;
    if k > 0 {
      NoStrays(ops, k - 1);
    }
  }

  /** A stray patch emits exactly one symbol in the optimized walker and none in the legacy one, a patch
      of a wrong BD one symbol in each at different places; any other op emits the same in both. */
  lemma EmissionDiffers(env: Env, ops: seq<Op>, k: nat)
    requires k < |ops| && RegsFit(ops) && SizesFit(ops)
    requires VerdictAt(Opt, env, ops, k).Accept? && VerdictAt(Legacy, env, ops, k).Accept?
    ensures var opt, legacy := VerdictAt(Opt, env, ops, k).effect, VerdictAt(Legacy, env, ops, k).effect;
            if StrayPatch(ops, k) then |opt.relocs| == 1 && legacy == NOTHING
            else if WrongBd(ops, k) then |opt.relocs| == |legacy.relocs| == 1 && opt.relocs != legacy.relocs
            else opt == legacy
  {
    hide VerdictAt, BackScan, RegsFit, SizesFit, LegacyIndexed;
    if ops[k].BlockWrite? {
      BlockWriteEmission(env, ops, k);
    } else if AfterLoad(ops, k) {
      if ops[k].DdrPatch? {
        PatchInOpenWindow(env, ops, k);
      } else {
        VerdictsAfterLoad(env, ops, k);
      }
    } else if ops[k].DdrPatch? {
      PatchBeforeLoad(env, ops, k);
    } else {
      OtherBeforeLoad(env, ops, k);
    }
  }

  lemma BlockWriteEmission(env: Env, ops: seq<Op>, k: nat)
    requires k < |ops| && ops[k].BlockWrite?
    requires VerdictAt(Opt, env, ops, k).Accept? && VerdictAt(Legacy, env, ops, k).Accept?
    ensures var opt, legacy := VerdictAt(Opt, env, ops, k).effect, VerdictAt(Legacy, env, ops, k).effect;
            if StrayPatch(ops, k) then |opt.relocs| == 1 && legacy == NOTHING else opt == legacy
  {
    hide WindowAt, LengthInBytes, ShimName, PmName, BackScan;
    WindowsNest(ops, k);
  }

  lemma {:induction false} SymbolCounts(env: Env, ops: seq<Op>, k: nat)
    requires k <= |ops| && RegsFit(ops) && SizesFit(ops) && Accepted(Opt, env, ops, k) && Accepted(Legacy, env, ops, k)
    ensures |RelocsOf(Opt, env, ops, k)| == |RelocsOf(Legacy, env, ops, k)| + Strays(ops, k)
  {
    hide VerdictAt, StrayPatch, WrongBd, RegsFit, SizesFit;
    if k > 0 {
      SymbolCounts(env, ops, k - 1);
      EmissionDiffers(env, ops, k - 1);
    }
  }

  ghost predicate NoneDiffers(ops: seq<Op>, k: nat)
    requires k <= |ops|
  {
    forall j :: 0 <= j < k ==> !StrayPatch(ops, j) && !WrongBd(ops, j)
  }

  /** Two accepted runs emit the same exactly when no op emits differently. */
  lemma {:induction false} SameEmission(env: Env, ops: seq<Op>, k: nat)
    requires k <= |ops| && RegsFit(ops) && SizesFit(ops) && Accepted(Opt, env, ops, k) && Accepted(Legacy, env, ops, k)
    requires Strays(ops, k) == 0
    ensures RelocsOf(Opt, env, ops, k) == RelocsOf(Legacy, env, ops, k) <==> NoneDiffers(ops, k)
    ensures NoneDiffers(ops, k) ==> ClearedBy(Opt, env, ops, k) == ClearedBy(Legacy, env, ops, k)
  {
    hide VerdictAt, StrayPatch, WrongBd, RegsFit, SizesFit;
    if k > 0 {
      SameEmission(env, ops, k - 1);
      EmissionDiffers(env, ops, k - 1);
      SymbolCounts(env, ops, k - 1);
      var opt := VerdictAt(Opt, env, ops, k - 1).effect.relocs;
      var legacy := VerdictAt(Legacy, env, ops, k - 1).effect.relocs;
      SameParts(RelocsOf(Opt, env, ops, k - 1), opt, RelocsOf(Legacy, env, ops, k - 1), legacy);
      assert NoneDiffers(ops, k) <==>
             NoneDiffers(ops, k - 1) && !StrayPatch(ops, k - 1) && !WrongBd(ops, k - 1);
    }
  }

  lemma SameParts<T>(a: seq<T>, b: seq<T>, c: seq<T>, d: seq<T>)
    requires |a| == |c|
    ensures a + b == c + d <==> a == c && b == d
  {
    if a + b == c + d {
      assert (a + b)[..|a|] == a && (c + d)[..|a|] == c;
      assert (a + b)[|a|..] == b && (c + d)[|a|..] == d;
    }
  }

  /** Exact agreement: a program that the legacy walker accepts is accepted by the optimized walker with
      the same symbols at the same places exactly when no DDR patch follows a LOAD_PM_START, no BD
      block-write follows the end of a window, and no patch of a BD word finds a chunk past 2^32. */
  lemma ExactAgreement(env: Env, ops: seq<Op>)
    requires RegsFit(ops) && SizesFit(ops) && Run(Legacy, env, ops).Running?
    ensures (&& Run(Opt, env, ops).Running?
             && Run(Opt, env, ops).st.relocs == Run(Legacy, env, ops).st.relocs
             && Run(Opt, env, ops).st.cleared == Run(Legacy, env, ops).st.cleared)
            <==> !PatchAfterLoad(ops) && NoneDiffers(ops, |ops|)
  {
    hide VerdictAt, After, RegsFit, SizesFit, StrayPatch, PatchAfterLoad, WrongBd, LegacyIndexed;
    OptAcceptance(env, ops);
    RunFollowsVerdicts(Opt, env, ops, |ops|);
    RunFollowsVerdicts(Legacy, env, ops, |ops|);
    NoStrays(ops, |ops|);
    LegacyPatchesIndexed(env, ops);
    if Run(Opt, env, ops).Running? {
      SymbolCounts(env, ops, |ops|);
      if Strays(ops, |ops|) == 0 {
        SameEmission(env, ops, |ops|);
      }
    }
  }

  lemma LegacyPatchesIndexed(env: Env, ops: seq<Op>)
    requires SizesFit(ops) && Run(Legacy, env, ops).Running?
    ensures forall k :: 0 <= k < |ops| ==> LegacyIndexed(ops, k)
  {
    hide After, SizesFit, Indexes, InPm;
    ExactAcceptance(Legacy, env, ops);
    forall k | 0 <= k < |ops| ensures LegacyIndexed(ops, k) {
      assert Acceptable(Legacy, env, ops, k);
    }
  }

  // ----- outcomes, errors included -----

  /** Nothing before op k that the windows or the register keys make a difference to. */
  ghost predicate SameModes(ops: seq<Op>, k: nat)
    requires k <= |ops|
  {
    forall j :: 0 <= j < k && (ops[j].BlockWrite? || ops[j].DdrPatch?) ==>
      InPm(Legacy, ops, j) == InPm(Opt, ops, j) && !WrappedPatch(ops, j)
  }

  /** Then the outcomes are the same, errors and partial output included. */
  lemma {:induction false} SameOutcome(env: Env, ops: seq<Op>, k: nat)
    requires k <= |ops| && RegsFit(ops) && SizesFit(ops) && SameModes(ops, k)
    ensures var legacy, opt := After(Legacy, env, ops, k), After(Opt, env, ops, k);
            && legacy.Running? == opt.Running?
            && legacy.st.relocs == opt.st.relocs && legacy.st.cleared == opt.st.cleared
            && (legacy.Failed? ==> opt.error == legacy.error)
  {
    hide VerdictAt, Step, InPm, RegsFit, WrappedPatch;
    if k > 0 {
      SameOutcome(env, ops, k - 1);
      if After(Legacy, env, ops, k - 1).Running? {
        SameVerdictInStep(env, ops, k - 1);
        NextFollowsVerdict(Legacy, env, ops, k - 1);
        NextFollowsVerdict(Opt, env, ops, k - 1);
      } else {
        FailureStays(Legacy, env, ops, k - 1, k);
        FailureStays(Opt, env, ops, k - 1, k);
      }
    }
  }

  lemma SameVerdictInStep(env: Env, ops: seq<Op>, k: nat)
    requires k < |ops| && RegsFit(ops) && SizesFit(ops) && SameModes(ops, k + 1)
    ensures VerdictAt(Legacy, env, ops, k) == VerdictAt(Opt, env, ops, k)
  {
    hide InPm, PatchEffect, BackScan, SizesFit, RegsFit, Wraps, BdBase, BdLength;
    if ops[k].DdrPatch? {
      ScanUnlessWrapped(ops, k, BdBase(ops[k].regaddr));
    }
  }

  // ----- two programs that divide the runs -----

  /** An empty PM load, then an ordinary BD block-write and its patch. */
  lemma EmptyPmLoadRuns(env: Env, payload: seq<byte>)
    requires 0 in env.pmIds && 4 <= |payload| <= 32
    ensures var ops := [LoadPm(0, 0), BlockWrite(SHIM_DMA_BD0_0, payload), DdrPatch(SHIM_DMA_BD0_0 + 4, 0, 0)];
            && Run(Legacy, env, ops).Running?
            && Run(Opt, env, ops).Failed? && Run(Opt, env, ops).error == PatchInPmWindow
  {
    var ops := [LoadPm(0, 0), BlockWrite(SHIM_DMA_BD0_0, payload), DdrPatch(SHIM_DMA_BD0_0 + 4, 0, 0)];
    assert LastLoad(ops, 1) == 0 && LastLoad(ops, 2) == 0;
    assert Indexes(Legacy, ops, 1, BdBase(ops[2].regaddr));
    ExactAcceptance(Legacy, env, ops);
    PatchInOpenWindow(env, ops, 2);
    RunFollowsVerdicts(Opt, env, ops, 3);
    var j := FailureIsFirstReject(Opt, env, ops, 3);
    assert VerdictAt(Opt, env, ops, 0).Accept? && VerdictAt(Opt, env, ops, 1).Accept?;
  }

  /** A block-write that runs over 2^32, and a patch of register 0. */
  function WrappingKey(payload: seq<byte>): seq<Op> {
    [BlockWrite(TWO_32 - 32, payload), DdrPatch(0, 0, 0)]
  }

  /** It indexes register 0 in the 32-bit map only. */
  lemma WrappingKeyChunks(payload: seq<byte>)
    requires |payload| == 64
    ensures var ops := WrappingKey(payload);
            && !InPm(Legacy, ops, 0) && !InPm(Opt, ops, 0) && !InPm(Legacy, ops, 1) && !InPm(Opt, ops, 1)
            && Indexes(Opt, ops, 0, 0) && !Indexes(Legacy, ops, 0, 0)
  {
    var ops := WrappingKey(payload);
    assert LastLoad(ops, 0) == -1 && LastLoad(ops, 1) == -1;
    assert ChunkAt(Opt, ops[0], 0) == Some(32) && ChunkAt(Legacy, ops[0], 0) == None;
  }

  lemma WrappingKeyRuns(env: Env, payload: seq<byte>)
    requires |payload| == 64
    ensures var ops := WrappingKey(payload);
            && Run(Opt, env, ops).Running?
            && Run(Legacy, env, ops).Failed? && Run(Legacy, env, ops).error == NoBlockWrite(0)
  {
    hide After, ChunkAt, InPm, ClassOf;
    var ops := WrappingKey(payload);
    WrappingKeyChunks(payload);
    ExactAcceptance(Opt, env, ops);
    RunFollowsVerdicts(Legacy, env, ops, 2);
    assert VerdictAt(Legacy, env, ops, 0).Accept?;
    assert BackScan(Legacy, ops, 1, 0) == BackScan(Legacy, ops, 0, 0) == None;
    assert VerdictAt(Legacy, env, ops, 1) == Reject(NoBlockWrite(0));
    var j := FailureIsFirstReject(Legacy, env, ops, 2);
  }
}
