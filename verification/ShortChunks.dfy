/**
 Streams on which clearing spills: a patched BD with fewer than ten bytes of payload.

 The program does not check for them.  Each lemma is about a well-formed stream that an encoder can
 produce, so it says what the walkers do with a buffer they are given.
 */
module ShortChunks {
  import opened Bytes
  import opened Symbols
  import opened TxnLayout
  import opened TxnMachine
  import opened TxnRuns
  import opened TxnEncode
  import opened ShimBits
  import opened ByteWalk
  import opened TransactionInput
  import opened WalkRefinement

  // ----- a patch that eats its own header -----

  /** One word of a shim BD, then its patch. */
  function ShortPatch(payload: seq<byte>): seq<Op> {
    [BlockWrite(SHIM_DMA_BD0_0, payload), DdrPatch(SHIM_DMA_BD0_0 + 4, 0, 0)]
  }

  lemma ShortPatchRun(enc: Encoding, env: Env, payload: seq<byte>)
    requires |payload| == 4
    ensures Run(enc, env, ShortPatch(payload)).Running?
    ensures After(enc, env, ShortPatch(payload), 1).st.cleared == []
    ensures Run(enc, env, ShortPatch(payload)).st.cleared == [Loc(0, 0)]
  {
    hide After, LengthInBytes, ShimName, Decimal;
    var ops := ShortPatch(payload);
    assert LastLoad(ops, 0) == -1 && LastLoad(ops, 1) == -1;
    assert ChunkAt(enc, ops[0], SHIM_DMA_BD0_0) == Some(0);
    assert BdBase(SHIM_DMA_BD0_0 + 4) == SHIM_DMA_BD0_0 && ClassOf(TileReg(SHIM_DMA_BD0_0 + 4)) == ShimBase;
    assert BackScan(enc, ops, 1, SHIM_DMA_BD0_0) == Some(Loc(0, 0));
    assert VerdictAt(enc, env, ops, 0) == Accept(NOTHING);
    assert VerdictAt(enc, env, ops, 1).Accept? && VerdictAt(enc, env, ops, 1).effect.cleared == [Loc(0, 0)];
    RunFollowsVerdicts(enc, env, ops, 1);
    RunFollowsVerdicts(enc, env, ops, 2);
    assert ClearedBy(enc, env, ops, 1) == [];
  }

  lemma ClearedOne(enc: Encoding, b: seq<byte>, bd: Loc)
    ensures Cleared(enc, b, [bd]) == Clear(b, PlaceAt(enc, b, bd))
  {
    hide Off;
    assert Offsets(enc, b, [bd]) == [] + [PlaceAt(enc, b, bd)];
    ClearAllSnoc(b, [], PlaceAt(enc, b, bd));
  }

  /** The opcode of the op behind a four-byte payload is masked when the BD is cleared. */
  lemma NextOpcodeMasked(enc: Encoding, b: seq<byte>, k: nat)
    requires WellFormed(enc, b) && k + 1 < NumOps(b)
    requires Ops(enc, b)[k].BlockWrite? && |Ops(enc, b)[k].payload| == 4
    ensures var c, p := Cleared(enc, b, [Loc(k, 0)]), Off(enc, b, k + 1);
            && PlaceAt(enc, b, Loc(k, 0)) + 4 == p < |b| && c[p] == b[p] % 4
            && forall i :: 0 <= i < |b| && (i < p || p + 6 <= i) ==> c[i] == b[i]
  {
    hide OpsTo, OpAt, LenAt, Off, WellFormed, Cleared;
    PayloadPlace(enc, b, k);
    WellFormedFits(enc, b, k + 1);
    ClearedOne(enc, b, Loc(k, 0));
  }

  /** Ops before a changed byte stay where they are. */
  lemma {:induction false} OffsetsBefore(enc: Encoding, b: seq<byte>, c: seq<byte>, k: nat)
    requires WellFormed(enc, b) && k <= NumOps(b) && |c| == |b|
    requires forall i :: 0 <= i < |b| && i < Off(enc, b, k) ==> c[i] == b[i]
    requires forall j :: 0 <= j < k ==> Known(CodeAt(b, Off(enc, b, j)))
    ensures Off(enc, c, k) == Off(enc, b, k)
  {
    hide LenAt, WellFormed, HeaderLen, Known;
    if k > 0 {
      OffNext(enc, b, k - 1);
      var p := Off(enc, b, k - 1);
      assert Known(CodeAt(b, p));
      OffsetsBefore(enc, b, c, k - 1);
      WellFormedFits(enc, b, k - 1);
      HeaderDecidesLength(enc, b, c, p);
    }
  }

  /** The walker accepts the stream, but the patch op behind the BD is left as a block-write: what was
      written is not the program that was read, and not a stream the walker could process again. */
  lemma ShortPatchDestroysItself(env: Env, section: string, numCols: byte, payload: seq<byte>)
    requires |payload| == 4
    ensures AllEncodable(Legacy, ShortPatch(payload))
    ensures var b := EncodeStream(Legacy, numCols, ShortPatch(payload));
            var walk := WalkAll(Legacy, env, section, b);
            && WellFormed(Legacy, b) && Ops(Legacy, b) == ShortPatch(payload)
            && MemorySafe(Legacy, env, section, b) && Run(Legacy, env, Ops(Legacy, b)).Running? && walk.Walking?
            && walk.w.b == PatchedBuffer(Legacy, env, b)
            && !Patchable(Legacy, env, b)
            && NumOps(walk.w.b) == 2 && Ops(Legacy, walk.w.b)[1].BlockWrite?
            && Ops(Legacy, walk.w.b) != Ops(Legacy, b) && !WellFormed(Legacy, walk.w.b)
  {
    hide EncodeStream, EncodeOp, WellFormed, OpsTo, Off, After, LenAt, OpAt, StepBytes, StartOf, Cleared, MapMatches,
         Rendered, FitsAt, InPayload;
    var ops, b := ShortPatch(payload), EncodeStream(Legacy, numCols, ShortPatch(payload));
    var job := Job(Legacy, env, section, b);
    SmallStream(Legacy, numCols, ops);
    ShortPatchRun(Legacy, env, payload);
    WalkFollows(job, 1);
    StillAtStart(job);
    StepStands(job, 1, WalkerAt(job, 1).w);
    assert WalkerAt(job, 2) == StepBytes(Legacy, env, section, WalkerAt(job, 1).w);
    var c := PatchedBuffer(Legacy, env, b);
    assert WalkAll(Legacy, env, section, b).w.b == c;
    MaskedPatch(numCols, payload, env);
    AtStart(job);
    StepStaysInside(job, 0, WalkerAt(job, 0).w);
    ShortPatchInside(job, payload, WalkerAt(job, 1).w);
    SafeSoFar(Legacy, env, section, b, 2);
  }

  lemma ShortPatchInside(job: Job, payload: seq<byte>, w: Walker)
    requires WellFormed(Legacy, job.b0) && Ops(Legacy, job.b0) == ShortPatch(payload) && job.enc == Legacy
    requires |payload| == 4 && ContainedTo(job, 1) && AtOp(job, 1, w) && NumOps(job.b0) == 2
    ensures StepInside(Legacy, job.env, w)
  {
    hide WellFormed, OpsTo, Off, After, LenAt, OpAt, Rendered, Cleared, ContainedTo, BdLength;
    var b := job.b0;
    SeesOriginal(job, 1, w);
    PayloadPlace(Legacy, b, 0);
    OpsToAt(Legacy, b, 2, 1);
    assert HeaderInside(Legacy, w.b, w.ptr);
    PatchHeader(w.b, w.ptr);
    assert AllChunks(OpsOf(job), 1, MachineAt(job, 1).st.index) by {
      PlacesAreChunks(Legacy, job.env, OpsOf(job), 1);
    }
    forall r | r in w.bds ensures w.bds[r].0 + BD_TOUCHED <= |b| {
      assert IsChunk(OpsOf(job), 1, MachineAt(job, 1).st.index[r]);
    }
  }

  lemma PatchHeader(b: seq<byte>, p: nat)
    requires HeaderInside(Legacy, b, p) && OpAt(Legacy, b, p).DdrPatch?
    ensures p + CUSTOM + PATCH_OP <= |b|
  {
    LegacyShape(b, p);
  }

  lemma StillAtStart(job: Job)
    requires NumOps(job.b0) == 2 && MachineAt(job, 2).Running?
    ensures MachineAt(job, 1).Running? && VerdictHere(job.env, OpsOf(job), 1, MachineAt(job, 1).st).Accept?
  {
    hide VerdictHere, OpsTo;
  }

  /** The patch op, read as a block-write: its size is zero. */
  lemma PatchAsBlockWrite(b: seq<byte>, p: nat, op: Op)
    requires op.DdrPatch? && Encodable(Legacy, op) && Holds(b, p, EncodeOp(Legacy, op))
    ensures p + 24 <= |b| && CodeAt(b, p) == IO_CUSTOM_OP_DDR_PATCH && U32At(b, p + BW_SIZE) == 0
  {
    hide Le64, Le32, EncodeOp;
    var body := Zeros(16) + (Le64(op.regaddr) + (Le64(op.argidx) + Le64(op.argplus)));
    assert EncodeOp(Legacy, op) == Custom(IO_CUSTOM_OP_DDR_PATCH, body) by { PatchEncoding(op); }
    DecodeCustom(Legacy, b, p, IO_CUSTOM_OP_DDR_PATCH, body);
    HoldsParts(b, p + CUSTOM, Zeros(16), Le64(op.regaddr) + (Le64(op.argidx) + Le64(op.argplus)));
    ZeroWord(b, p + CUSTOM, 8);
  }

  lemma PatchEncoding(op: Op)
    requires op.DdrPatch? && Encodable(Legacy, op)
    ensures EncodeOp(Legacy, op) ==
            Custom(IO_CUSTOM_OP_DDR_PATCH, Zeros(16) + (Le64(op.regaddr) + (Le64(op.argidx) + Le64(op.argplus))))
  {
    hide Le64, Custom;
  }

  lemma ZeroWord(b: seq<byte>, p: nat, d: nat)
    requires d + 4 <= 16 && Holds(b, p, Zeros(16))
    ensures U32At(b, p + d) == 0
  {
    var z := Zeros(16);
    assert b[p + d] == z[d] && b[p + (d + 1)] == z[d + 1] && b[p + (d + 2)] == z[d + 2] && b[p + (d + 3)] == z[d + 3];
  }

  /** A block-write whose size is zero does not fit. */
  lemma EmptyBlockWrite(c: seq<byte>, p: nat)
    requires CodeAt(c, p) == IO_BLOCKWRITE && U32At(c, p + BW_SIZE) == 0
    ensures !FitsAt(Legacy, c, p) && OpAt(Legacy, c, p).BlockWrite?
  {
    hide U32At;
  }

  lemma NotWellFormed(enc: Encoding, c: seq<byte>, k: nat)
    requires k < NumOps(c) && !FitsAt(enc, c, Off(enc, c, k))
    ensures !WellFormed(enc, c)
  {
    hide FitsAt, Off;
  }

  lemma SpillFound(enc: Encoding, b: seq<byte>, bd: Loc, p: nat)
    requires p < |b| && p == Off(enc, b, bd.op + 1) == PlaceAt(enc, b, bd) + 4 && b[p] >= 4
    ensures !AllContained(enc, b, [bd])
  {
    hide Off;
    assert !Spares(b, PlaceAt(enc, b, bd), p);
    assert !Contained(enc, b, [bd][0]);
  }

  lemma MaskedPatch(numCols: byte, payload: seq<byte>, env: Env)
    requires |payload| == 4 && AllEncodable(Legacy, ShortPatch(payload))
    requires var b := EncodeStream(Legacy, numCols, ShortPatch(payload));
             WellFormed(Legacy, b) && Ops(Legacy, b) == ShortPatch(payload)
    requires Run(Legacy, env, ShortPatch(payload)).st.cleared == [Loc(0, 0)]
    ensures var b := EncodeStream(Legacy, numCols, ShortPatch(payload));
            var c := PatchedBuffer(Legacy, env, b);
            && !Patchable(Legacy, env, b) && NumOps(c) == 2 && Ops(Legacy, c)[1].BlockWrite?
            && !WellFormed(Legacy, c)
  {
    hide EncodeStream, EncodeOps, EncodeOp, WellFormed, OpsTo, Off, After, Cleared, FitsAt, U32At, OpAt, LenAt, Holds,
         AllContained, AllEncodable, PlaceAt;
    var ops, b := ShortPatch(payload), EncodeStream(Legacy, numCols, ShortPatch(payload));
    var c, p := PatchedBuffer(Legacy, env, b), Off(Legacy, b, 1);
    assert NumOps(b) == |Ops(Legacy, b)| == 2;
    NextOpcodeMasked(Legacy, b, 0);
    assert Encodable(Legacy, ops[1]);
    StreamOffsets(Legacy, numCols, ops, 1);
    OpInStream(Legacy, numCols, ops, 1);
    PatchAsBlockWrite(b, p, ops[1]);
    PayloadPlace(Legacy, b, 0);
    OffsetsBefore(Legacy, b, c, 1);
    assert SameOn(b, c, 0, TXN_HEADER) && SameOn(b, c, p + 6, |b|);
    SameWord(b, c, 0, TXN_HEADER, TXN_NUM_OPS);
    SameWord(b, c, p + 6, |b|, p + BW_SIZE);
    EmptyBlockWrite(c, p);
    OpsToAt(Legacy, c, 2, 1);
    NotWellFormed(Legacy, c, 1);
    SpillFound(Legacy, b, Loc(0, 0), p);
  }

  // ----- a clear that misleads the walker that made it -----

  /** A program that begins by loading a shim BD as PM code. */
  ghost predicate LoadsBd(enc: Encoding, env: Env, b: seq<byte>) {
    && WellFormed(enc, b) && NumOps(b) > 2 && 0 in env.pmIds
    && Ops(enc, b)[0] == LoadPm(1, 0) && Ops(enc, b)[1].BlockWrite? && Ops(enc, b)[1].reg == SHIM_DMA_BD0_0
    && PayloadAt(enc, b, 1) + BD_TOUCHED <= |b|
  }

  lemma LoadsBdRun(enc: Encoding, env: Env, b: seq<byte>)
    requires LoadsBd(enc, env, b)
    ensures var ops := Ops(enc, b);
            && After(enc, env, ops, 1).Running? && After(enc, env, ops, 1).st.cleared == []
            && After(enc, env, ops, 1).st.window > 0
            && After(enc, env, ops, 2).Running? && After(enc, env, ops, 2).st.cleared == [Loc(1, 0)]
  {
    hide After, LengthInBytes, ShimName, Decimal, WellFormed, OpsTo;
    var ops := Ops(enc, b);
    PayloadsAreWords(enc, b);
    assert LastLoad(ops, 0) == -1 && LastLoad(ops, 1) == 0;
    assert ClassOf(TileReg(SHIM_DMA_BD0_0) + 4) == ShimBase;
    assert VerdictAt(enc, env, ops, 0) == Accept(NOTHING);
    assert VerdictAt(enc, env, ops, 1).Accept? && VerdictAt(enc, env, ops, 1).effect.cleared == [Loc(1, 0)];
    RunFollowsVerdicts(enc, env, ops, 1);
    RunFollowsVerdicts(enc, env, ops, 2);
    WindowInvariant(enc, env, ops, 1);
    assert ClearedBy(enc, env, ops, 1) == [];
  }

  /** After those two ops the walker has cleared the BD and stands at the third, inside the buffer so far. */
  lemma LoadsBdWalk(enc: Encoding, env: Env, section: string, b: seq<byte>)
    requires LoadsBd(enc, env, b)
    ensures StepSafe(enc, env, section, b, 0) && StepSafe(enc, env, section, b, 1)
    ensures var walk := WalkTo(enc, env, section, b, 2);
            walk.Walking? && walk.w.b == Clear(b, PayloadAt(enc, b, 1)) && walk.w.ptr == Off(enc, b, 2)
  {
    hide WellFormed, OpsTo, Off, After, LenAt, OpAt, StepBytes, StartOf, Cleared, MapMatches, Rendered, FitsAt;
    var job := Job(enc, env, section, b);
    LoadsBdRun(enc, env, b);
    WalkFollows(job, 1);
    AtStart(job);
    StepStaysInside(job, 0, WalkerAt(job, 0).w);
    var w := WalkerAt(job, 1).w;
    StillLoading(job);
    StepStands(job, 1, w);
    PmStepInside(job, w);
    assert WalkerAt(job, 2) == StepBytes(enc, env, section, w);
    ClearedOne(enc, b, Loc(1, 0));
    PayloadPlace(enc, b, 1);
    OffNext(enc, b, 1);
    WellFormedFits(enc, b, 1);
    OwnLength(enc, b, WalkerAt(job, 2).w.b, Off(enc, b, 1));
  }

  lemma StillLoading(job: Job)
    requires NumOps(job.b0) > 2 && MachineAt(job, 2).Running?
    ensures MachineAt(job, 1).Running? && VerdictHere(job.env, OpsOf(job), 1, MachineAt(job, 1).st).Accept?
  {
    hide VerdictHere, OpsTo;
  }

  lemma PmStepInside(job: Job, w: Walker)
    requires LoadsBd(job.enc, job.env, job.b0) && ContainedTo(job, 1) && AtOp(job, 1, w) && w.window > 0
    ensures StepInside(job.enc, job.env, w)
  {
    hide WellFormed, OpsTo, Off, After, LenAt, OpAt, MapMatches, Rendered, Cleared, HeaderLen, ContainedTo;
    SeesOriginal(job, 1, w);
    PayloadPlace(job.enc, job.b0, 1);
  }

  /** One word of a shim BD loaded as PM code, then a PREEMPT and a NOOP. */
  function ShortLoad(payload: seq<byte>): seq<Op> {
    [LoadPm(1, 0), BlockWrite(SHIM_DMA_BD0_0, payload), Preempt, NoOp]
  }

  /** A run without patches whose PM ids are listed and opcodes known is accepted. */
  lemma NoPatchRun(enc: Encoding, env: Env, ops: seq<Op>)
    requires SizesFit(ops)
    requires forall k :: 0 <= k < |ops| ==>
               !ops[k].DdrPatch? && !ops[k].Unknown? && (ops[k].LoadPm? ==> ops[k].id in env.pmIds)
    ensures Run(enc, env, ops).Running?
  {
    hide After;
    ExactAcceptance(enc, env, ops);
  }

  /** Every op of this program is one the machine accepts, but the walker's own clear, which stays inside
      the buffer, turns the PREEMPT into an opcode nobody knows before the walker gets there. */
  lemma ShortLoadMisleads(enc: Encoding, env: Env, section: string, numCols: byte, payload: seq<byte>)
    requires |payload| == 4 && 0 in env.pmIds
    ensures AllEncodable(enc, ShortLoad(payload))
    ensures var b := EncodeStream(enc, numCols, ShortLoad(payload));
            var walk := WalkAll(enc, env, section, b);
            && WellFormed(enc, b) && Ops(enc, b) == ShortLoad(payload) && Run(enc, env, Ops(enc, b)).Running?
            && MemorySafe(enc, env, section, b)
            && walk.Halted? && walk.error == UnknownOpcode(IO_PREEMPT % 4)
  {
    hide EncodeStream, EncodeOp, WellFormed, OpsTo, Off, After, LenAt, OpAt, StepBytes, FitsAt, StepInside;
    var ops, b := ShortLoad(payload), EncodeStream(enc, numCols, ShortLoad(payload));
    SmallStream(enc, numCols, ops);
    NoPatchRun(enc, env, ops);
    ShortLoadPlaces(enc, b, payload);
    LoadsBdWalk(enc, env, section, b);
    var w := WalkTo(enc, env, section, b, 2).w;
    assert CodeAt(w.b, w.ptr) == IO_PREEMPT % 4;
    UnknownHalts(enc, env, section, w);
    HaltStays(enc, env, section, b, 3, 4);
    SafeSoFar(enc, env, section, b, 3);
  }

  lemma ShortLoadPlaces(enc: Encoding, b: seq<byte>, payload: seq<byte>)
    requires WellFormed(enc, b) && Ops(enc, b) == ShortLoad(payload) && |payload| == 4
    ensures NumOps(b) == 4 && PayloadAt(enc, b, 1) + 4 == Off(enc, b, 2) && Off(enc, b, 2) + 8 <= |b|
    ensures CodeAt(b, Off(enc, b, 2)) == IO_PREEMPT
  {
    hide WellFormed, OpsTo, Off, LenAt, OpAt;
    assert NumOps(b) == |Ops(enc, b)|;
    PayloadPlace(enc, b, 1);
    OpsToAt(enc, b, 4, 2);
    OpsToAt(enc, b, 4, 3);
    ShortOpLength(enc, b, 2);
    ShortOpLength(enc, b, 3);
    OffInside(enc, b, 4);
  }

  lemma ShortOpLength(enc: Encoding, b: seq<byte>, k: nat)
    requires OpAt(enc, b, Off(enc, b, k)).Preempt? || OpAt(enc, b, Off(enc, b, k)).NoOp?
    ensures Off(enc, b, k + 1) == Off(enc, b, k) + 4
    ensures OpAt(enc, b, Off(enc, b, k)).Preempt? ==> CodeAt(b, Off(enc, b, k)) == IO_PREEMPT
  {
    hide WriteAt, MaskWriteAt, PatchAt, Off;
    OffNext(enc, b, k);
  }

  /** Steps that stay inside up to the one that halts are all there are. */
  lemma SafeSoFar(enc: Encoding, env: Env, section: string, b: seq<byte>, n: nat)
    requires TXN_HEADER <= |b| < TWO_32 && forall k :: 0 <= k < n ==> StepSafe(enc, env, section, b, k)
    requires n >= NumOps(b) || WalkTo(enc, env, section, b, n).Halted?
    ensures MemorySafe(enc, env, section, b)
  {
    hide StepInside, WalkTo;
    forall k | 0 <= k < NumOps(b) ensures StepSafe(enc, env, section, b, k) {
      if k >= n {
        HaltStays(enc, env, section, b, n, k);
      }
    }
  }

  /** A block-write's header comes before anything its own clear reaches. */
  lemma OwnLength(enc: Encoding, b: seq<byte>, c: seq<byte>, p: nat)
    requires |c| == |b| && FitsAt(enc, b, p) && CodeAt(b, p) == IO_BLOCKWRITE
    requires forall i :: 0 <= i < |b| && i < p + BwHeader(enc) ==> c[i] == b[i]
    ensures LenFor(enc, CodeAt(b, p), c, p) == LenAt(enc, b, p)
  {
    hide LenFor;
    assert SameOn(b, c, p, p + HeaderLen(enc, CodeAt(b, p)));
    HeaderDecidesLength(enc, b, c, p);
  }

  lemma UnknownHalts(enc: Encoding, env: Env, section: string, w: Walker)
    requires !Known(CodeAt(w.b, w.ptr))
    ensures StepBytes(enc, env, section, w) == Halted(UnknownOpcode(CodeAt(w.b, w.ptr)), w)
    ensures w.ptr < |w.b| ==> StepInside(enc, env, w)
  {
    hide LenAt, WriteAt, MaskWriteAt, PatchAt;
  }
}
