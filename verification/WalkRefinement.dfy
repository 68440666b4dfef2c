/**
 The walk over bytes against the machine on ops.

 The walk of ByteWalk.dfy reads a buffer it is also clearing bits of.  As long as every clear stays in
 its block-write's payload, or reaches only bytes that are clear already, it computes the patching
 machine of TxnMachine.dfy on the ops of the buffer as it was at the start; and that is exactly when
 it changes no byte outside the payloads.
 */
module WalkRefinement {
  import opened Bytes
  import opened Symbols
  import opened TxnLayout
  import opened TxnMachine
  import opened ShimBits
  import opened ByteWalk
  import opened TransactionInput

  // ----- the walk against the machine -----

  ghost predicate MapMatches(enc: Encoding, b: seq<byte>, index: map<nat, Loc>, bds: map<nat, (nat, nat)>) {
    && bds.Keys == index.Keys
    && forall r :: r in index ==> bds[r] == (PlaceAt(enc, b, index[r]), BdLength(Ops(enc, b), index[r]))
  }

  /** What a walk starts from. */
  datatype Job = Job(enc: Encoding, env: Env, section: string, b0: seq<byte>)

  function OpsOf(job: Job): (ops: seq<Op>)
    ensures |ops| == NumOps(job.b0)
  {
    Ops(job.enc, job.b0)
  }

  /** The machine before op num of a job. */
  function MachineAt(job: Job, num: nat): Outcome
    requires num <= NumOps(job.b0)
  {
    After(job.enc, job.env, OpsOf(job), num)
  }

  function WalkerAt(job: Job, num: nat): Walk { WalkTo(job.enc, job.env, job.section, job.b0, num) }

  /** What the first num ops clear is contained. */
  ghost predicate ContainedTo(job: Job, num: nat)
    requires num <= NumOps(job.b0)
  {
    AllContained(job.enc, job.b0, MachineAt(job, num).st.cleared)
  }

  /** The walker has done what the machine has, wherever its pointer is. */
  ghost predicate Standing(job: Job, num: nat, w: Walker)
    requires num <= NumOps(job.b0)
  {
    var out := MachineAt(job, num);
    && out.Running?
    && w.window == out.st.window
    && w.pm == out.st.pm
    && MapMatches(job.enc, job.b0, out.st.index, w.bds)
    && w.syms == Rendered(job.enc, job.b0, job.section, out.st.relocs)
    && w.b == Cleared(job.enc, job.b0, out.st.cleared)
  }

  /** The walker before op num stands for the machine. */
  ghost predicate AtOp(job: Job, num: nat, w: Walker)
    requires num <= NumOps(job.b0)
  {
    Standing(job, num, w) && w.ptr == Off(job.enc, job.b0, num)
  }

  lemma AtStart(job: Job)
    ensures AtOp(job, 0, StartOf(job.b0))
  {
    assert Rendered(job.enc, job.b0, job.section, []) == [];
  }

  /** What the walker sees at op num is what the original buffer holds there. */
  lemma SeesOriginal(job: Job, num: nat, w: Walker)
    requires WellFormed(job.enc, job.b0) && num < NumOps(job.b0) && ContainedTo(job, num) && AtOp(job, num, w)
    ensures SameOn(job.b0, w.b, w.ptr, |job.b0|)
    ensures CodeAt(w.b, w.ptr) == CodeAt(job.b0, w.ptr) && LenAt(job.enc, w.b, w.ptr) == LenAt(job.enc, job.b0, w.ptr)
    ensures OpAt(job.enc, w.b, w.ptr) == OpsOf(job)[num] && FitsAt(job.enc, w.b, w.ptr)
  {
    hide After, OpAt, FitsAt, LenAt, MapMatches, Rendered, OpsTo, Cleared, AllContained, Off, WellFormed;
    Untouched(job.enc, job.env, job.b0, num);
    WellFormedFits(job.enc, job.b0, num);
    SuffixDecidesOp(job.enc, job.b0, w.b, w.ptr);
    OpsToAt(job.enc, job.b0, NumOps(job.b0), num);
  }

  /** The length word of a chunk at or after op num is read from bytes no clear has changed. */
  lemma ChunkLength(enc: Encoding, b0: seq<byte>, b: seq<byte>, num: nat, bd: nat)
    requires WellFormed(enc, b0) && num < NumOps(b0) && Ops(enc, b0)[num].BlockWrite?
    requires SameOn(b0, b, PayloadAt(enc, b0, num), |b0|)
    requires bd < |Ops(enc, b0)[num].payload| && bd % SHIM_DMA_BD_SIZE == 0
    ensures LengthInBytes(b, PayloadAt(enc, b0, num) + bd) == LengthInBytes(Ops(enc, b0)[num].payload, bd)
    ensures LengthInBytes(Ops(enc, b0)[num].payload, bd) == BdLength(Ops(enc, b0), Loc(num, bd))
  {
    hide LenAt, OpsTo, OpAt, Off, U32At;
    PayloadPlace(enc, b0, num);
    var p := PayloadAt(enc, b0, num);
    WordInside(bd, |Ops(enc, b0)[num].payload|);
    WordOfSlice(b0, p, Off(enc, b0, num + 1), bd);
    assert Slice(b0, p, Off(enc, b0, num + 1)) == Ops(enc, b0)[num].payload;
    SameWord(b0, b, p, |b0|, p + bd);
  }

  lemma MapMatchesAdd(enc: Encoding, b: seq<byte>, index: map<nat, Loc>, bds: map<nat, (nat, nat)>, key: nat, bd: Loc)
    requires MapMatches(enc, b, index, bds)
    ensures MapMatches(enc, b, index[key := bd], bds[key := (PlaceAt(enc, b, bd), BdLength(Ops(enc, b), bd))])
  {
    hide OpsTo, LenAt, BdLength;
  }

  /** Entering the chunks of a block-write in the walker's map is entering them in the machine's. */
  lemma {:induction false} ChunksMatch(enc: Encoding, b0: seq<byte>, b: seq<byte>, num: nat, index: map<nat, Loc>,
                                       bds: map<nat, (nat, nat)>, n: nat)
    requires WellFormed(enc, b0) && num < NumOps(b0) && Ops(enc, b0)[num].BlockWrite?
    requires SameOn(b0, b, PayloadAt(enc, b0, num), |b0|) && MapMatches(enc, b0, index, bds)
    requires n <= NumChunks(|Ops(enc, b0)[num].payload|)
    ensures var reg, at := Ops(enc, b0)[num].reg, PayloadAt(enc, b0, num);
            MapMatches(enc, b0, AddChunks(enc, index, reg, num, n), EnterChunks(enc, b, bds, reg, at, n))
  {
    hide OpsTo, WellFormed, Off, MapMatches, LengthInBytes, BdLength, ChunkKey, NumChunks, SameOn;
    if n > 0 {
      ChunksMatch(enc, b0, b, num, index, bds, n - 1);
      var reg, at, bd := Ops(enc, b0)[num].reg, PayloadAt(enc, b0, num), SHIM_DMA_BD_SIZE * (n - 1);
      ChunkNumber(|Ops(enc, b0)[num].payload|, n);
      ChunkLength(enc, b0, b, num, bd);
      MapMatchesAdd(enc, b0, AddChunks(enc, index, reg, num, n - 1), EnterChunks(enc, b, bds, reg, at, n - 1),
                    ChunkKey(enc, reg, n - 1), Loc(num, bd));
    }
  }

  lemma ChunkNumber(size: nat, n: nat)
    requires 0 < n <= NumChunks(size)
    ensures SHIM_DMA_BD_SIZE * (n - 1) < size && SHIM_DMA_BD_SIZE * (n - 1) % SHIM_DMA_BD_SIZE == 0
  {
  }

  /** A patch given a byte offset instead of a place emits the same symbol and clears the same BD. */
  lemma PatchAtOffset(job: Job, xrt: map<nat, string>, argname: string, reg: nat, argidx: nat,
                      bd: Loc, length: nat, addend: nat, w: Walker)
    ensures var there := PatchEffect(xrt, argname, reg, argidx, bd, length, addend);
            var at := PlaceAt(job.enc, job.b0, bd);
            var here := PatchBytes(job.section, xrt, argname, reg, argidx, at, length, addend, w);
            match there
            case Reject(error) => here == Halted(error, w)
            case Accept(effect) =>
              && (effect.cleared == if ClassOf(reg) == ShimBase && addend <= MAX_ARGPLUS then [bd] else [])
              && here == Walking(w.(b := if effect.cleared == [] then w.b else Clear(w.b, PlaceAt(job.enc, job.b0, bd)),
                                    syms := w.syms + Rendered(job.enc, job.b0, job.section, effect.relocs)))
  {
    hide ShimName, Decimal, Off;
    var there := PatchEffect(xrt, argname, reg, argidx, bd, length, addend);
    var at := PlaceAt(job.enc, job.b0, bd);
    var moved := PatchEffect(xrt, argname, reg, argidx, Loc(0, at), length, addend);
    if there.Accept? {
      assert Rendered(job.enc, job.b0, job.section, there.effect.relocs) ==
             RenderedHere(job.section, moved.effect.relocs);
    }
  }

  /** Acting on the bytes of an op does what the machine's verdict on the op says. */
  ghost predicate ActMatches(job: Job, num: nat, w: Walker, verdict: Verdict)
    requires num < NumOps(job.b0) && MachineAt(job, num).Running?
  {
    var st, act := MachineAt(job, num).st, Act(job.enc, job.env, job.section, w);
    match verdict
    case Reject(error) => act == Halted(error, w)
    case Accept(effect) =>
      && act.Walking? && |effect.cleared| <= 1
      && MapMatches(job.enc, job.b0, NextIndex(job.enc, OpsOf(job), num, st.window > 0, st.index), act.w.bds)
      && act.w.b == (if effect.cleared == [] then w.b else Clear(w.b, PlaceAt(job.enc, job.b0, effect.cleared[0])))
      && act.w.syms == w.syms + Rendered(job.enc, job.b0, job.section, effect.relocs)
  }

  lemma BlockWriteMatches(job: Job, num: nat, w: Walker)
    requires WellFormed(job.enc, job.b0) && num < NumOps(job.b0) && ContainedTo(job, num) && AtOp(job, num, w)
    requires OpsOf(job)[num].BlockWrite?
    ensures ActMatches(job, num, w, VerdictHere(job.env, OpsOf(job), num, MachineAt(job, num).st))
  {
    hide OpsTo, WellFormed, Off, MapMatches, LengthInBytes, BdLength, NumChunks, After, FitsAt, LenAt, PatchEffect,
         OpAt, Rendered, Cleared, ContainedTo, AddChunks, EnterChunks, PmName, PatchBytes, TileReg;
    var st, op, at := MachineAt(job, num).st, OpsOf(job)[num], PayloadAt(job.enc, job.b0, num);
    SeesOriginal(job, num, w);
    PayloadPlace(job.enc, job.b0, num);
    if w.window > 0 {
      ChunkLength(job.enc, job.b0, w.b, num, 0);
      PatchAtOffset(job, job.env.xrt, PmName(w.pm), TileReg(op.reg) + 4, 0, Loc(num, 0),
                    LengthInBytes(op.payload, 0), 0, w);
      ZeroAddend(job.env.xrt, PmName(w.pm), TileReg(op.reg) + 4, Loc(num, 0), LengthInBytes(op.payload, 0));
    } else {
      SizeIsPayload(job, num, w);
      ChunksMatch(job.enc, job.b0, w.b, num, st.index, w.bds, NumChunks(|op.payload|));
      RenderedNothing(job.enc, job.b0, job.section);
    }
  }

  lemma ZeroAddend(xrt: map<nat, string>, argname: string, reg: nat, place: Loc, length: nat)
    ensures PatchEffect(xrt, argname, reg, 0, place, length, 0).Accept?
  {
  }

  lemma SizeIsPayload(job: Job, num: nat, w: Walker)
    requires WellFormed(job.enc, job.b0) && num < NumOps(job.b0) && OpsOf(job)[num].BlockWrite?
    requires w.ptr == Off(job.enc, job.b0, num) && CodeAt(w.b, w.ptr) == CodeAt(job.b0, w.ptr)
    requires LenAt(job.enc, w.b, w.ptr) == LenAt(job.enc, job.b0, w.ptr)
    ensures SizeAt(job.enc, w.b, w.ptr) == |OpsOf(job)[num].payload|
  {
    hide OpsTo, OpAt, U32At, Off, WellFormed;
    PayloadPlace(job.enc, job.b0, num);
    OffNext(job.enc, job.b0, num);
    assert |job.b0| < TWO_32 by { WellFormedShort(job.enc, job.b0); }
  }

  lemma WellFormedShort(enc: Encoding, b: seq<byte>)
    requires WellFormed(enc, b)
    ensures TXN_HEADER <= |b| < TWO_32
  {
  }

  lemma RenderedNothing(enc: Encoding, b: seq<byte>, section: string)
    ensures Rendered(enc, b, section, []) == []
  {
  }

  lemma DdrPatchMatches(job: Job, num: nat, w: Walker)
    requires WellFormed(job.enc, job.b0) && num < NumOps(job.b0) && ContainedTo(job, num) && AtOp(job, num, w)
    requires OpsOf(job)[num].DdrPatch?
    ensures ActMatches(job, num, w, VerdictHere(job.env, OpsOf(job), num, MachineAt(job, num).st))
  {
    hide OpsTo, WellFormed, Off, LengthInBytes, BdLength, NumChunks, After, FitsAt, LenAt, PatchEffect,
         OpAt, Rendered, Cleared, ContainedTo, PatchBytes, TileReg, BdBase;
    var st, op := MachineAt(job, num).st, OpsOf(job)[num];
    var base := BdBase(op.regaddr);
    SeesOriginal(job, num, w);
    if base in st.index {
      PatchAtOffset(job, job.env.xrt, job.env.argname, TileReg(op.regaddr), (op.argidx + ARG_OFFSET) % TWO_32,
                    st.index[base], BdLength(OpsOf(job), st.index[base]), op.argplus, w);
    }
  }

  lemma ActIsVerdict(job: Job, num: nat, w: Walker)
    requires WellFormed(job.enc, job.b0) && num < NumOps(job.b0) && ContainedTo(job, num) && AtOp(job, num, w)
    ensures ActMatches(job, num, w, VerdictHere(job.env, OpsOf(job), num, MachineAt(job, num).st))
  {
    if OpsOf(job)[num].BlockWrite? {
      BlockWriteMatches(job, num, w);
    } else if OpsOf(job)[num].DdrPatch? {
      DdrPatchMatches(job, num, w);
    } else {
      OtherOpMatches(job, num, w);
    }
  }

  lemma OtherOpMatches(job: Job, num: nat, w: Walker)
    requires WellFormed(job.enc, job.b0) && num < NumOps(job.b0) && ContainedTo(job, num) && AtOp(job, num, w)
    requires !OpsOf(job)[num].BlockWrite? && !OpsOf(job)[num].DdrPatch?
    ensures ActMatches(job, num, w, VerdictHere(job.env, OpsOf(job), num, MachineAt(job, num).st))
  {
    hide OpsTo, WellFormed, Off, MapMatches, After, FitsAt, LenAt, OpAt, Rendered, Cleared, ContainedTo;
    SeesOriginal(job, num, w);
    RenderedNothing(job.enc, job.b0, job.section);
  }

  /** Adding what an op emits to the rendered state gives the rendered next state. */
  lemma RenderedAppend(enc: Encoding, b: seq<byte>, section: string, st: State, effect: Effect)
    requires |effect.cleared| <= 1
    ensures Rendered(enc, b, section, st.relocs + effect.relocs) ==
            Rendered(enc, b, section, st.relocs) + Rendered(enc, b, section, effect.relocs)
    ensures var before := Cleared(enc, b, st.cleared);
            Cleared(enc, b, st.cleared + effect.cleared) ==
            if effect.cleared == [] then before else Clear(before, PlaceAt(enc, b, effect.cleared[0]))
  {
    var offs := Offsets(enc, b, st.cleared);
    if effect.cleared == [] {
      assert st.cleared + effect.cleared == st.cleared;
    } else {
      assert Offsets(enc, b, st.cleared + effect.cleared) == offs + [PlaceAt(enc, b, effect.cleared[0])];
      ClearAllSnoc(b, offs, PlaceAt(enc, b, effect.cleared[0]));
    }
  }

  /** One step: the walk halts when the machine does, and otherwise stands where the machine does. */
  lemma StepStands(job: Job, num: nat, w: Walker)
    requires WellFormed(job.enc, job.b0) && num < NumOps(job.b0) && ContainedTo(job, num) && AtOp(job, num, w)
    ensures var verdict := VerdictHere(job.env, OpsOf(job), num, MachineAt(job, num).st);
            var next := StepBytes(job.enc, job.env, job.section, w);
            match verdict
            case Reject(error) =>
              next == Halted(error, w) && MachineAt(job, num + 1) == Failed(error, MachineAt(job, num).st)
            case Accept(effect) =>
              && next.Walking? && Standing(job, num + 1, next.w)
              && next.w.ptr == w.ptr + LenFor(job.enc, CodeAt(job.b0, w.ptr), next.w.b, w.ptr)
  {
    hide After, VerdictHere, MapMatches, Cleared, Rendered, NextIndex, OpsTo, OpAt, LenAt, Act, Off, ContainedTo,
         FitsAt, WellFormed;
    SeesOriginal(job, num, w);
    ActIsVerdict(job, num, w);
    var st, verdict := MachineAt(job, num).st, VerdictHere(job.env, OpsOf(job), num, MachineAt(job, num).st);
    if verdict.Accept? {
      NextState(job.enc, job.env, OpsOf(job), num, verdict.effect);
      RenderedAppend(job.enc, job.b0, job.section, st, verdict.effect);
    } else {
      Rejected(job, num, verdict.error);
    }
  }

  lemma Rejected(job: Job, num: nat, error: Error)
    requires num < NumOps(job.b0) && MachineAt(job, num).Running?
    requires VerdictHere(job.env, OpsOf(job), num, MachineAt(job, num).st) == Reject(error)
    ensures MachineAt(job, num + 1) == Failed(error, MachineAt(job, num).st)
  {
    hide VerdictHere, OpsTo;
  }

  /** Where the op's own clear is contained too, its length is still its own. */
  lemma LengthKept(job: Job, num: nat)
    requires WellFormed(job.enc, job.b0) && num < NumOps(job.b0) && ContainedTo(job, num + 1)
    ensures var p, c := Off(job.enc, job.b0, num), Cleared(job.enc, job.b0, MachineAt(job, num + 1).st.cleared);
            && CodeAt(c, p) == CodeAt(job.b0, p) && LenAt(job.enc, c, p) == LenAt(job.enc, job.b0, p)
  {
    hide After, OpsTo, LenAt, Off, Cleared, WellFormed, AllContained, HeaderLen;
    var places := MachineAt(job, num + 1).st.cleared;
    Untouched(job.enc, job.env, job.b0, num + 1);
    ChunksWiden(OpsOf(job), num + 1, NumOps(job.b0), places);
    ContainedKeepsOutside(job.enc, job.b0, places);
    HeadersKept(job.enc, job.b0, Cleared(job.enc, job.b0, places), num);
    HeaderDecidesLength(job.enc, job.b0, Cleared(job.enc, job.b0, places), Off(job.enc, job.b0, num));
  }

  lemma ChunksWiden(ops: seq<Op>, j: nat, k: nat, places: seq<Loc>)
    requires j <= k <= |ops| && ChunkList(ops, j, places)
    ensures ChunkList(ops, k, places)
  {
    forall i | 0 <= i < |places| ensures IsChunk(ops, k, places[i]) {
      assert IsChunk(ops, j, places[i]);
    }
  }

  lemma ContainedBefore(job: Job, j: nat, k: nat)
    requires j <= k <= NumOps(job.b0) && ContainedTo(job, k)
    ensures ContainedTo(job, j)
  {
    hide After, AllContained, OpsTo;
    OutputGrows(job.enc, job.env, OpsOf(job), j, k);
    PrefixContained(job.enc, job.b0, MachineAt(job, j).st.cleared, MachineAt(job, k).st.cleared);
  }

  /** While the clears are contained, the walk over the buffer it is patching is the machine's run. */
  ghost predicate Follows(job: Job, k: nat)
    requires k <= NumOps(job.b0)
  {
    match MachineAt(job, k)
    case Running(_) => WalkerAt(job, k).Walking? && AtOp(job, k, WalkerAt(job, k).w)
    case Failed(error, st) =>
      && WalkerAt(job, k).Halted? && WalkerAt(job, k).error == error
      && WalkerAt(job, k).w.syms == Rendered(job.enc, job.b0, job.section, st.relocs)
      && WalkerAt(job, k).w.b == Cleared(job.enc, job.b0, st.cleared)
  }

  lemma {:induction false} WalkFollows(job: Job, k: nat)
    requires WellFormed(job.enc, job.b0) && k <= NumOps(job.b0) && ContainedTo(job, k)
    ensures Follows(job, k)
  {
    hide ContainedTo, WellFormed, MapMatches, Cleared, Rendered, OpsTo, StepBytes, Step, LenFor, Off, StartOf;
    if k == 0 {
      AtStart(job);
    } else {
      ContainedBefore(job, k - 1, k);
      WalkFollows(job, k - 1);
      if MachineAt(job, k - 1).Running? {
        StepFollows(job, k);
      }
    }
  }

  lemma StepFollows(job: Job, k: nat)
    requires WellFormed(job.enc, job.b0) && 0 < k <= NumOps(job.b0) && ContainedTo(job, k) && ContainedTo(job, k - 1)
    requires MachineAt(job, k - 1).Running? && Follows(job, k - 1)
    ensures Follows(job, k)
  {
    hide ContainedTo, WellFormed, MapMatches, Cleared, Rendered, OpsTo, StepBytes, After, Off, VerdictHere, U32At;
    StepStands(job, k - 1, WalkerAt(job, k - 1).w);
    LengthKept(job, k - 1);
    OffNext(job.enc, job.b0, k - 1);
  }

  // ----- what that says of a whole buffer -----

  /** Where the walk follows the machine and the op's own clear is contained, the step stays inside. */
  lemma StepStaysInside(job: Job, num: nat, w: Walker)
    requires WellFormed(job.enc, job.b0) && num < NumOps(job.b0) && ContainedTo(job, num + 1) && AtOp(job, num, w)
    ensures StepInside(job.enc, job.env, w)
  {
    hide ContainedTo, WellFormed, MapMatches, Cleared, Rendered, OpsTo, After, Off, VerdictHere, U32At, OpAt, LenAt,
         HeaderLen, SizeAt, NumChunks, TileReg, BdBase;
    ContainedBefore(job, num, num + 1);
    SeesOriginal(job, num, w);
    var op := OpsOf(job)[num];
    if op.BlockWrite? {
      PayloadPlace(job.enc, job.b0, num);
      if w.window > 0 {
        if ClassOf(TileReg(op.reg) + 4) == ShimBase {
          OwnClear(job, num, w);
        }
      } else {
        SizeIsPayload(job, num, w);
        LastChunkInside(|op.payload|);
      }
    } else if op.DdrPatch? && w.window == 0 && BdBase(op.regaddr) in w.bds
              && ClassOf(TileReg(op.regaddr)) == ShimBase && op.argplus <= MAX_ARGPLUS {
      IndexedPlace(job, num, w, BdBase(op.regaddr));
      OwnClear(job, num, w);
    }
  }

  lemma LastChunkInside(size: nat)
    requires size % 4 == 0 && size > 0
    ensures SHIM_DMA_BD_SIZE * (NumChunks(size) - 1) + 4 <= size
  {
    ChunkNumber(size, NumChunks(size));
    WordInside(SHIM_DMA_BD_SIZE * (NumChunks(size) - 1), size);
  }

  lemma IndexedPlace(job: Job, num: nat, w: Walker, r: nat)
    requires num <= NumOps(job.b0) && Standing(job, num, w) && r in w.bds
    ensures r in MachineAt(job, num).st.index
    ensures w.bds[r].0 == PlaceAt(job.enc, job.b0, MachineAt(job, num).st.index[r])
  {
    hide After, OpsTo, Cleared, Rendered, Off, BdLength;
  }

  /** The BD an op is about to clear is among those cleared after it. */
  lemma OwnClear(job: Job, num: nat, w: Walker)
    requires num < NumOps(job.b0) && Standing(job, num, w) && ContainedTo(job, num + 1)
    requires var op := OpsOf(job)[num];
             || (op.BlockWrite? && w.window > 0 && ClassOf(TileReg(op.reg) + 4) == ShimBase)
             || (op.DdrPatch? && w.window == 0 && BdBase(op.regaddr) in MachineAt(job, num).st.index
                 && ClassOf(TileReg(op.regaddr)) == ShimBase && op.argplus <= MAX_ARGPLUS)
    ensures var op, index := OpsOf(job)[num], MachineAt(job, num).st.index;
            Contained(job.enc, job.b0, if op.BlockWrite? then Loc(num, 0) else index[BdBase(op.regaddr)])
  {
    hide After, OpsTo, Cleared, Rendered, Off, MapMatches, Contained, NextIndex, LengthInBytes, BdLength, ShimName,
         TileReg, BdBase, Decimal, ClassOf;
    var st, op := MachineAt(job, num).st, OpsOf(job)[num];
    var verdict := VerdictHere(job.env, OpsOf(job), num, st);
    var bd := if op.BlockWrite? then Loc(num, 0) else st.index[BdBase(op.regaddr)];
    assert verdict.Accept? && verdict.effect.cleared == [bd];
    NextState(job.enc, job.env, OpsOf(job), num, verdict.effect);
    var cleared := MachineAt(job, num + 1).st.cleared;
    assert cleared[|cleared| - 1] == bd;
  }

  /** A well-formed buffer whose cleared BDs are contained is walked without leaving it. */
  lemma PatchableIsSafe(enc: Encoding, env: Env, section: string, b: seq<byte>)
    requires WellFormed(enc, b) && Patchable(enc, env, b)
    ensures MemorySafe(enc, env, section, b)
  {
    hide After, OpsTo, StepInside, AllContained, WalkTo, FitsAt, AtOp;
    var job := Job(enc, env, section, b);
    forall k | 0 <= k < NumOps(b) ensures StepSafe(enc, env, section, b, k) {
      ContainedBefore(job, k, NumOps(b));
      ContainedBefore(job, k + 1, NumOps(b));
      WalkFollows(job, k);
      if WalkerAt(job, k).Walking? {
        StepStaysInside(job, k, WalkerAt(job, k).w);
      }
    }
  }

  /** And then the walk leaves exactly what the machine computes on the buffer as it was. */
  lemma WalkIsMachine(enc: Encoding, env: Env, section: string, b: seq<byte>)
    requires WellFormed(enc, b) && Patchable(enc, env, b)
    ensures var walk, out := WalkAll(enc, env, section, b), Run(enc, env, Ops(enc, b));
            && walk.Walking? == out.Running? && (walk.Halted? ==> walk.error == out.error)
            && walk.w.syms == Rendered(enc, b, section, out.st.relocs) && walk.w.b == PatchedBuffer(enc, env, b)
  {
    hide After, OpsTo, AllContained, WalkTo, MapMatches, Rendered, Cleared;
    WalkFollows(Job(enc, env, section, b), NumOps(b));
  }

  /** The first op whose clear is not contained. */
  lemma {:induction false} FirstSpill(job: Job, k: nat) returns (num: nat)
    requires k <= NumOps(job.b0) && !ContainedTo(job, k)
    ensures num < k && ContainedTo(job, num) && !ContainedTo(job, num + 1)
  {
    hide AllContained, OpsTo, Step;
    NothingContained(job.enc, job.b0);
    assert k > 0;
    if ContainedTo(job, k - 1) {
      num := k - 1;
    } else {
      num := FirstSpill(job, k - 1);
    }
  }

  lemma NothingContained(enc: Encoding, b: seq<byte>)
    ensures AllContained(enc, b, [])
  {
  }

  /** A clear that is not contained changes a byte outside the payloads, in a walk that stays inside. */
  lemma SpillChanges(job: Job, num: nat) returns (i: nat)
    requires WellFormed(job.enc, job.b0) && MemorySafe(job.enc, job.env, job.section, job.b0) && num < NumOps(job.b0)
    requires ContainedTo(job, num) && !ContainedTo(job, num + 1)
    ensures i < |job.b0| == |WalkerAt(job, num + 1).w.b| && !InPayload(job.enc, job.b0, i)
    ensures WalkerAt(job, num + 1).w.b[i] < job.b0[i]
  {
    hide After, OpsTo, StepInside, WellFormed, MapMatches, Rendered, Off, VerdictHere, LenFor, StepBytes, InPayload,
         ClearAll, SpillClear, PatchEffect;
    WalkFollows(job, num);
    StillRunning(job, num);
    var w := WalkerAt(job, num).w;
    var bd := SpillingBd(job, num, w);
    assert StepSafe(job.enc, job.env, job.section, job.b0, num);
    StepStands(job, num, w);
    SpillInside(job, num, w, bd);
    var offs := Offsets(job.enc, job.b0, MachineAt(job, num + 1).st.cleared);
    i := SpilledByte(job.enc, job.b0, num + 1, bd);
    ClearAllExact(job.b0, offs, i);
    ClearAllShrinks(job.b0, offs, i);
    assert offs[|offs| - 1] == PlaceAt(job.enc, job.b0, bd);
  }

  lemma StillRunning(job: Job, num: nat)
    requires num < NumOps(job.b0) && ContainedTo(job, num) && !ContainedTo(job, num + 1)
    ensures MachineAt(job, num).Running?
  {
    hide Step, OpsTo, AllContained;
  }

  /** The op clears one BD more, and that one is not contained. */
  lemma SpillingBd(job: Job, num: nat, w: Walker) returns (bd: Loc)
    requires WellFormed(job.enc, job.b0) && num < NumOps(job.b0) && AtOp(job, num, w)
    requires ContainedTo(job, num) && !ContainedTo(job, num + 1)
    ensures VerdictHere(job.env, OpsOf(job), num, MachineAt(job, num).st).Accept?
    ensures VerdictHere(job.env, OpsOf(job), num, MachineAt(job, num).st).effect.cleared == [bd]
    ensures MachineAt(job, num + 1).st.cleared == MachineAt(job, num).st.cleared + [bd]
    ensures !Contained(job.enc, job.b0, bd) && IsChunk(OpsOf(job), num + 1, bd)
  {
    hide After, OpsTo, MapMatches, Rendered, Cleared, Off, VerdictHere, WellFormed, Contained, ActMatches, Act;
    var st, verdict := MachineAt(job, num).st, VerdictHere(job.env, OpsOf(job), num, MachineAt(job, num).st);
    ClearsAtMostOne(job, num);
    if verdict.Reject? {
      Rejected(job, num, verdict.error);
    } else {
      NextState(job.enc, job.env, OpsOf(job), num, verdict.effect);
      var cleared := MachineAt(job, num + 1).st.cleared;
      assert cleared == st.cleared + verdict.effect.cleared && st.cleared + [] == st.cleared;
      bd := verdict.effect.cleared[0];
      PayloadsAreWords(job.enc, job.b0);
      PlacesAreChunks(job.enc, job.env, OpsOf(job), num + 1);
      assert cleared == st.cleared + [bd] && cleared[|cleared| - 1] == bd;
    }
  }

  lemma ClearsAtMostOne(job: Job, num: nat)
    requires num < NumOps(job.b0)
    ensures var verdict := VerdictHere(job.env, OpsOf(job), num, MachineAt(job, num).st);
            verdict.Accept? ==> |verdict.effect.cleared| <= 1
  {
    hide After, OpsTo, BdLength, LengthInBytes, ClassOf, ShimName, Decimal, PmName;
  }

  /** The step that clears it stays inside, so only its spill can be at fault. */
  lemma SpillInside(job: Job, num: nat, w: Walker, bd: Loc)
    requires WellFormed(job.enc, job.b0) && num < NumOps(job.b0) && AtOp(job, num, w) && ContainedTo(job, num)
    requires StepInside(job.enc, job.env, w)
    requires VerdictHere(job.env, OpsOf(job), num, MachineAt(job, num).st).Accept?
    requires VerdictHere(job.env, OpsOf(job), num, MachineAt(job, num).st).effect.cleared == [bd]
    ensures PlaceAt(job.enc, job.b0, bd) + BD_TOUCHED <= |job.b0|
  {
    hide After, OpsTo, Rendered, Cleared, Off, WellFormed, ContainedTo, OpAt, LenAt, HeaderLen, LengthInBytes,
         BdLength, ShimName, Decimal, PmName, TileReg, BdBase, ClassOf, ChunksInside, SizeAt, FitsAt;
    SeesOriginal(job, num, w);
  }

  lemma SpilledByte(enc: Encoding, b: seq<byte>, n: nat, bd: Loc) returns (i: nat)
    requires WellFormed(enc, b) && n <= NumOps(b) && IsChunk(Ops(enc, b), n, bd)
    requires !Contained(enc, b, bd) && PlaceAt(enc, b, bd) + BD_TOUCHED <= |b|
    ensures i < |b| && !InPayload(enc, b, i) && !Spares(b, PlaceAt(enc, b, bd), i)
  {
    hide OpsTo, WellFormed, Off, InPayload;
    i :| Off(enc, b, bd.op + 1) <= i < |b| && !Spares(b, PlaceAt(enc, b, bd), i);
    ChunkPlace(enc, b, n, bd);
    BehindIsOutside(enc, b, bd.op, i);
  }

  /** Exactly when every BD it clears is contained does a walk that stays inside its buffer keep every
      byte outside the payloads: op headers, other ops, and whatever follows the ops. */
  lemma WalkKeepsOutside(enc: Encoding, env: Env, section: string, b: seq<byte>)
    requires WellFormed(enc, b) && MemorySafe(enc, env, section, b)
    ensures OutsideKept(enc, b, WalkAll(enc, env, section, b).w.b) <==> Patchable(enc, env, b)
  {
    hide WellFormed, MemorySafe, InPayload, OpsTo, WalkTo, AllContained, Cleared, After;
    var job := Job(enc, env, section, b);
    if Patchable(enc, env, b) {
      WalkIsMachine(enc, env, section, b);
      Untouched(enc, env, b, NumOps(b));
      ContainedKeepsOutside(enc, b, Run(enc, env, Ops(enc, b)).st.cleared);
    } else {
      var num := FirstSpill(job, NumOps(b));
      var i := SpillChanges(job, num);
      WalkShrinks(enc, env, section, b, num + 1, NumOps(b));
      assert WalkAll(enc, env, section, b).w.b[i] < b[i];
    }
  }
}
