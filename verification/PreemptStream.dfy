/**
 Generated preemption streams end to end: from the generator's transfers, through the patching machine
 and the scratchpad resize, to the dynamic symbol table.

 The driver calls between the transfers are not part of this model; a stream is any op sequence in
 which each transfer's shim BD is block-written before its patch op and nothing in between hits it.
 */
module PreemptStream {
  import opened Bytes
  import opened Symbols
  import opened TxnLayout
  import opened TxnMachine
  import opened TxnRuns
  import opened TxnEncode
  import opened ByteWalk
  import opened TransactionInput
  import opened WalkRefinement
  import opened Scratchpad
  import opened Preemption
  import opened Setup
  import opened Elf

  /** What the driver emits around one transfer's BD and patch. */
  datatype Segment = Segment(before: seq<Op>, payload: seq<byte>, between: seq<Op>, after: seq<Op>)

  predicate QuietOp(op: Op) {
    !op.LoadPm? && !op.DdrPatch? && !op.Unknown? && (op.BlockWrite? ==> 0 < |op.payload| < TWO_32)
  }

  ghost predicate Quiet(ops: seq<Op>) {
    forall i :: 0 <= i < |ops| ==> QuietOp(ops[i])
  }

  ghost predicate Misses(enc: Encoding, ops: seq<Op>, r: nat) {
    forall i :: 0 <= i < |ops| ==> ChunkAt(enc, ops[i], r).None?
  }

  /** The BD goes to the register below the patched one, and its length word counts HALF / 4 words. */
  ghost predicate ValidSegment(enc: Encoding, t: Transfer, s: Segment) {
    && t.regaddr >= 4 && Quiet(s.before) && Quiet(s.between) && Quiet(s.after)
    && Misses(enc, s.between, t.regaddr - 4)
    && |s.payload| == 32 && U32At(s.payload, 0) == t.size / 4
  }

  function SegmentOps(t: Transfer, s: Segment): seq<Op>
    requires t.regaddr >= 4
  {
    s.before + [BlockWrite(t.regaddr - 4, s.payload)] + s.between + [DdrPatch(t.regaddr, t.argidx, t.ddrAddr)] + s.after
  }

  function StreamTo(kind: PreemptOp, segments: seq<Segment>, n: nat): seq<Op>
    requires n <= |segments|
  {
    if n == 0 then [] else StreamTo(kind, segments, n - 1) + SegmentOps(TransferNo(kind, n - 1), segments[n - 1])
  }

  function Stream(kind: PreemptOp, segments: seq<Segment>): seq<Op> {
    StreamTo(kind, segments, |segments|) + [MergeSync]
  }

  ghost predicate ValidStream(enc: Encoding, kind: PreemptOp, segments: seq<Segment>) {
    forall n :: 0 <= n < |segments| ==> ValidSegment(enc, TransferNo(kind, n), segments[n])
  }

  function BdPlace(kind: PreemptOp, segments: seq<Segment>, n: nat): Loc
    requires n < |segments|
  {
    Loc(|StreamTo(kind, segments, n)| + |segments[n].before|, 0)
  }

  /** One shim symbol a transfer, at its BD, with its place in the scratch buffer as addend. */
  function ExpectedReloc(kind: PreemptOp, segments: seq<Segment>, n: nat): Reloc
    requires n < |segments|
  {
    Reloc(SCRATCH_PAD, BdPlace(kind, segments, n), HalfStart(n), HALF, ShimDma48)
  }

  function Expected(kind: PreemptOp, segments: seq<Segment>, n: nat): (relocs: seq<Reloc>)
    requires n <= |segments|
    ensures |relocs| == n
  {
    if n == 0 then [] else Expected(kind, segments, n - 1) + [ExpectedReloc(kind, segments, n - 1)]
  }

  /** The BDs of the first n transfers, which the run clears. */
  function BdPlaces(kind: PreemptOp, segments: seq<Segment>, n: nat): (places: seq<Loc>)
    requires n <= |segments|
    ensures |places| == n
    ensures forall i :: 0 <= i < n ==> places[i] == BdPlace(kind, segments, i)
  {
    if n == 0 then [] else BdPlaces(kind, segments, n - 1) + [BdPlace(kind, segments, n - 1)]
  }

  // ----- runs without PM loads -----

  ghost predicate NoLoads(ops: seq<Op>) {
    forall i :: 0 <= i < |ops| ==> !ops[i].LoadPm?
  }

  lemma NeverInPm(enc: Encoding, ops: seq<Op>, k: nat)
    requires NoLoads(ops) && k <= |ops|
    ensures !InPm(enc, ops, k)
  {
    assert LastLoad(ops, k) == -1;
  }

  /** What the first k ops of an accepted stretch have emitted and cleared. */
  ghost predicate Reached(enc: Encoding, env: Env, ops: seq<Op>, k: nat, relocs: seq<Reloc>, cleared: seq<Loc>)
    requires k <= |ops|
  {
    Accepted(enc, env, ops, k) && RelocsOf(enc, env, ops, k) == relocs && ClearedBy(enc, env, ops, k) == cleared
  }

  /** A quiet stretch is accepted, emits nothing and clears nothing. */
  lemma {:induction false} QuietStretch(enc: Encoding, env: Env, ops: seq<Op>, j: nat, k: nat,
                                        relocs: seq<Reloc>, cleared: seq<Loc>)
    requires NoLoads(ops) && j <= k <= |ops| && Reached(enc, env, ops, j, relocs, cleared)
    requires forall i :: j <= i < k ==> QuietOp(ops[i])
    ensures Reached(enc, env, ops, k, relocs, cleared)
  {
    hide VerdictAt, Reached;
    if j < k {
      QuietStretch(enc, env, ops, j, k - 1, relocs, cleared);
      assert QuietOp(ops[k - 1]);
      QuietVerdict(enc, env, ops, k - 1);
      VerdictsConcat(enc, env, ops, k - 1, NOTHING, relocs, cleared);
      assert relocs + [] == relocs && cleared + [] == cleared;
    }
  }

  lemma QuietVerdict(enc: Encoding, env: Env, ops: seq<Op>, k: nat)
    requires NoLoads(ops) && k < |ops| && QuietOp(ops[k])
    ensures VerdictAt(enc, env, ops, k) == Accept(NOTHING)
  {
    hide InPm, PatchEffect;
    NeverInPm(enc, ops, k);
  }

  lemma {:induction false} ScanStays(enc: Encoding, ops: seq<Op>, j: nat, k: nat, r: nat)
    requires j <= k <= |ops| && forall i :: j <= i < k ==> ChunkAt(enc, ops[i], r).None?
    ensures BackScan(enc, ops, k, r) == BackScan(enc, ops, j, r)
  {
    hide ChunkAt, InPm;
    if j < k {
      ScanStays(enc, ops, j, k - 1, r);
    }
  }

  lemma VerdictsConcat(enc: Encoding, env: Env, ops: seq<Op>, k: nat, effect: Effect,
                       relocs: seq<Reloc>, cleared: seq<Loc>)
    requires k < |ops| && Reached(enc, env, ops, k, relocs, cleared) && VerdictAt(enc, env, ops, k) == Accept(effect)
    ensures Reached(enc, env, ops, k + 1, relocs + effect.relocs, cleared + effect.cleared)
  {
    hide VerdictAt;
  }

  // ----- one transfer -----

  lemma TransferRegister(kind: PreemptOp, n: nat)
    requires n < 2 * NUM_COLS_STX
    ensures var r := TransferNo(kind, n).regaddr;
            4 <= r < TWO_32 && ClassOf(TileReg(r)) == ShimBase && BdBase(r) == r - 4
  {
    var c, h := n / 2, n % 2;
    assert c < 8 && h < 2;
    var low := SHIM_BD0_ADDRESS + h * BD_STRIDE;
    assert low == 0x1_D004 || low == 0x1_D024;
    assert TransferNo(kind, n).regaddr == 0x200_0000 * c + low;
    assert TileReg(0x200_0000 * c + low) == low;
  }

  /** The chunk of a whole BD block-write is found under its own register. */
  lemma OwnChunk(enc: Encoding, reg: nat, payload: seq<byte>)
    requires reg < TWO_32 && |payload| > 0
    ensures ChunkAt(enc, BlockWrite(reg, payload), reg) == Some(0)
  {
  }

  ghost predicate SegmentAt(ops: seq<Op>, at: nat, t: Transfer, s: Segment)
    requires t.regaddr >= 4
  {
    var seg := SegmentOps(t, s);
    at + |seg| <= |ops| && forall i :: 0 <= i < |seg| ==> ops[at + i] == seg[i]
  }

  /** The patch of a segment finds that segment's BD and emits the scratch symbol. */
  lemma PatchVerdict(enc: Encoding, env: Env, ops: seq<Op>, at: nat, kind: PreemptOp, n: nat, s: Segment)
    requires NoLoads(ops) && env.argname == SCRATCH_PAD && n < 2 * NUM_COLS_STX
    requires 4 <= TransferNo(kind, n).regaddr && SegmentAt(ops, at, TransferNo(kind, n), s)
    requires ValidSegment(enc, TransferNo(kind, n), s)
    ensures var bd, k := at + |s.before|, at + |s.before| + 1 + |s.between|;
            k < |ops| && VerdictAt(enc, env, ops, k) ==
            Accept(Effect([Reloc(SCRATCH_PAD, Loc(bd, 0), HalfStart(n), HALF, ShimDma48)], [Loc(bd, 0)]))
  {
    hide WindowAt, LengthInBytes, InPm, ClassOf, BdBase, TileReg;
    var t := TransferNo(kind, n);
    var seg, bd, k := SegmentOps(t, s), at + |s.before|, at + |s.before| + 1 + |s.between|;
    assert ops[bd] == seg[|s.before|] == BlockWrite(t.regaddr - 4, s.payload);
    assert ops[k] == seg[|s.before| + 1 + |s.between|] == DdrPatch(t.regaddr, t.argidx, t.ddrAddr);
    TransferRegister(kind, n);
    NeverInPm(enc, ops, bd);
    NeverInPm(enc, ops, k);
    OwnChunk(enc, t.regaddr - 4, s.payload);
    forall i | bd + 1 <= i < k ensures ChunkAt(enc, ops[i], t.regaddr - 4).None? {
      assert ops[i] == seg[i - at] == s.between[i - bd - 1];
    }
    ScanStays(enc, ops, bd + 1, k, t.regaddr - 4);
    assert BackScan(enc, ops, bd + 1, t.regaddr - 4) == Some(Loc(bd, 0));
    HalfLength(s.payload);
  }

  lemma HalfLength(payload: seq<byte>)
    requires U32At(payload, 0) == HALF / 4
    ensures LengthInBytes(payload, 0) == HALF
  {
  }

  /** A whole segment is accepted, emits exactly its one symbol and clears exactly its BD. */
  lemma SegmentRun(enc: Encoding, env: Env, ops: seq<Op>, at: nat, kind: PreemptOp, n: nat, s: Segment,
                   relocs: seq<Reloc>, cleared: seq<Loc>)
    requires NoLoads(ops) && env.argname == SCRATCH_PAD && n < 2 * NUM_COLS_STX
    requires 4 <= TransferNo(kind, n).regaddr && SegmentAt(ops, at, TransferNo(kind, n), s)
    requires ValidSegment(enc, TransferNo(kind, n), s) && Reached(enc, env, ops, at, relocs, cleared)
    ensures var next, bd := at + |SegmentOps(TransferNo(kind, n), s)|, Loc(at + |s.before|, 0);
            Reached(enc, env, ops, next, relocs + [Reloc(SCRATCH_PAD, bd, HalfStart(n), HALF, ShimDma48)],
                    cleared + [bd])
  {
    hide VerdictAt, InPm, Reached;
    var t := TransferNo(kind, n);
    var seg, bd, k := SegmentOps(t, s), at + |s.before|, at + |s.before| + 1 + |s.between|;
    forall i | at <= i < k ensures QuietOp(ops[i]) {
      assert ops[i] == seg[i - at];
      if i < bd {
        assert seg[i - at] == s.before[i - at];
      } else if i > bd {
        assert seg[i - at] == s.between[i - bd - 1];
      }
    }
    QuietStretch(enc, env, ops, at, k, relocs, cleared);
    PatchVerdict(enc, env, ops, at, kind, n, s);
    var effect := VerdictAt(enc, env, ops, k).effect;
    VerdictsConcat(enc, env, ops, k, effect, relocs, cleared);
    forall i | k + 1 <= i < at + |seg| ensures QuietOp(ops[i]) {
      assert ops[i] == seg[i - at] == s.after[i - k - 1];
    }
    QuietStretch(enc, env, ops, k + 1, at + |seg|, relocs + effect.relocs, cleared + effect.cleared);
  }

  // ----- the whole stream -----

  lemma {:induction false} StreamPrefix(kind: PreemptOp, segments: seq<Segment>, n: nat, m: nat)
    requires n <= m <= |segments|
    ensures StreamTo(kind, segments, n) <= StreamTo(kind, segments, m)
  {
    hide SegmentOps;
    if n < m {
      StreamPrefix(kind, segments, n, m - 1);
    }
  }

  lemma SegmentPlace(kind: PreemptOp, segments: seq<Segment>, n: nat)
    requires n < |segments|
    ensures SegmentAt(Stream(kind, segments), |StreamTo(kind, segments, n)|, TransferNo(kind, n), segments[n])
    ensures |StreamTo(kind, segments, n + 1)| ==
            |StreamTo(kind, segments, n)| + |SegmentOps(TransferNo(kind, n), segments[n])|
  {
    StreamPrefix(kind, segments, n + 1, |segments|);
    var whole, upTo := Stream(kind, segments), StreamTo(kind, segments, n + 1);
    var at, seg := |StreamTo(kind, segments, n)|, SegmentOps(TransferNo(kind, n), segments[n]);
    forall i | 0 <= i < |seg| ensures whole[at + i] == seg[i] {
      assert whole[at + i] == upTo[at + i] == seg[i];
    }
  }

  ghost predicate Harmless(ops: seq<Op>) {
    forall i :: 0 <= i < |ops| ==> !ops[i].LoadPm? && (ops[i].BlockWrite? ==> 0 < |ops[i].payload| < TWO_32)
  }

  lemma {:induction false} StreamHarmless(enc: Encoding, kind: PreemptOp, segments: seq<Segment>, n: nat)
    requires ValidStream(enc, kind, segments) && n <= |segments|
    ensures Harmless(StreamTo(kind, segments, n))
  {
    hide Misses, TransferNo;
    if n > 0 {
      StreamHarmless(enc, kind, segments, n - 1);
      SegmentHarmless(enc, TransferNo(kind, n - 1), segments[n - 1]);
    }
  }

  lemma SegmentHarmless(enc: Encoding, t: Transfer, s: Segment)
    requires t.regaddr >= 4 && ValidSegment(enc, t, s)
    ensures Harmless(SegmentOps(t, s))
  {
    var seg := SegmentOps(t, s);
    var b, c := |s.before|, |s.before| + 1 + |s.between|;
    forall i | 0 <= i < |seg|
      ensures !seg[i].LoadPm? && (seg[i].BlockWrite? ==> 0 < |seg[i].payload| < TWO_32)
    {
      if i < b {
        assert seg[i] == s.before[i] && QuietOp(s.before[i]);
      } else if b < i < c {
        assert seg[i] == s.between[i - b - 1] && QuietOp(s.between[i - b - 1]);
      } else if c < i {
        assert seg[i] == s.after[i - c - 1] && QuietOp(s.after[i - c - 1]);
      }
    }
  }

  /** The machine stands before segment n with the first n symbols emitted and BDs cleared. */
  ghost predicate BeforeSegment(enc: Encoding, env: Env, kind: PreemptOp, segments: seq<Segment>, n: nat)
    requires n <= |segments|
  {
    var ops, k := Stream(kind, segments), |StreamTo(kind, segments, n)|;
    k <= |ops| && Reached(enc, env, ops, k, Expected(kind, segments, n), BdPlaces(kind, segments, n))
  }

  lemma PassSegment(enc: Encoding, env: Env, kind: PreemptOp, segments: seq<Segment>, n: nat)
    requires ValidStream(enc, kind, segments) && n < |segments| <= 2 * NUM_COLS_STX && env.argname == SCRATCH_PAD
    requires BeforeSegment(enc, env, kind, segments, n)
    ensures BeforeSegment(enc, env, kind, segments, n + 1)
  {
    hide Reached, SegmentOps, SegmentAt, TransferNo, StreamTo, Stream, ValidSegment;
    StreamNoLoads(enc, kind, segments);
    SegmentPlace(kind, segments, n);
    SegmentRun(enc, env, Stream(kind, segments), |StreamTo(kind, segments, n)|, kind, n, segments[n],
               Expected(kind, segments, n), BdPlaces(kind, segments, n));
    PrefixFits(kind, segments, n + 1);
  }

  lemma PrefixFits(kind: PreemptOp, segments: seq<Segment>, n: nat)
    requires n <= |segments|
    ensures |StreamTo(kind, segments, n)| <= |Stream(kind, segments)|
  {
    StreamPrefix(kind, segments, n, |segments|);
  }

  lemma {:induction false} StreamRun(enc: Encoding, env: Env, kind: PreemptOp, segments: seq<Segment>, n: nat)
    requires ValidStream(enc, kind, segments) && n <= |segments| <= 2 * NUM_COLS_STX && env.argname == SCRATCH_PAD
    ensures BeforeSegment(enc, env, kind, segments, n)
  {
    hide ValidStream, BeforeSegment;
    if n == 0 {
      BeforeFirstSegment(enc, env, kind, segments);
    } else {
      StreamRun(enc, env, kind, segments, n - 1);
      PassSegment(enc, env, kind, segments, n - 1);
    }
  }

  lemma StreamNoLoads(enc: Encoding, kind: PreemptOp, segments: seq<Segment>)
    requires ValidStream(enc, kind, segments)
    ensures NoLoads(Stream(kind, segments)) && SizesFit(Stream(kind, segments))
  {
    StreamHarmless(enc, kind, segments, |segments|);
  }

  lemma BeforeFirstSegment(enc: Encoding, env: Env, kind: PreemptOp, segments: seq<Segment>)
    ensures BeforeSegment(enc, env, kind, segments, 0)
  {
    hide Stream, VerdictAt;
  }

  /** Every save or restore stream is accepted in either encoding, with one shim symbol a transfer, and
      clears exactly the transfers' BDs. */
  lemma StreamAccepted(enc: Encoding, env: Env, kind: PreemptOp, segments: seq<Segment>)
    requires ValidStream(enc, kind, segments) && |segments| <= 2 * NUM_COLS_STX && env.argname == SCRATCH_PAD
    ensures Run(enc, env, Stream(kind, segments)).Running?
    ensures Run(enc, env, Stream(kind, segments)).st.relocs == Expected(kind, segments, |segments|)
    ensures Run(enc, env, Stream(kind, segments)).st.cleared == BdPlaces(kind, segments, |segments|)
  {
    hide After;
    var ops, k := Stream(kind, segments), |segments|;
    StreamRun(enc, env, kind, segments, k);
    StreamNoLoads(enc, kind, segments);
    QuietStretch(enc, env, ops, |StreamTo(kind, segments, k)|, |ops|, Expected(kind, segments, k),
                 BdPlaces(kind, segments, k));
    RunFollowsVerdicts(enc, env, ops, |ops|);
  }

  lemma BdIsRoomy(enc: Encoding, kind: PreemptOp, segments: seq<Segment>, n: nat)
    requires ValidStream(enc, kind, segments) && n < |segments|
    ensures Roomy(Stream(kind, segments), BdPlace(kind, segments, n))
  {
    hide Stream, StreamTo, Misses, Quiet;
    SegmentPlace(kind, segments, n);
    var seg := SegmentOps(TransferNo(kind, n), segments[n]);
    assert ValidSegment(enc, TransferNo(kind, n), segments[n]);
    assert seg[|segments[n].before|] == BlockWrite(TransferNo(kind, n).regaddr - 4, segments[n].payload);
  }

  /** A well-formed buffer that carries a generated stream can be patched in place. */
  lemma StreamPatchable(enc: Encoding, env: Env, kind: PreemptOp, segments: seq<Segment>, b: seq<byte>)
    requires WellFormed(enc, b) && Ops(enc, b) == Stream(kind, segments)
    requires ValidStream(enc, kind, segments) && |segments| <= 2 * NUM_COLS_STX && env.argname == SCRATCH_PAD
    ensures Patchable(enc, env, b)
  {
    hide After, OpsTo, WellFormed, Stream, ValidStream, BdPlace, Contained, Roomy;
    StreamAccepted(enc, env, kind, segments);
    forall i | 0 <= i < |segments| ensures Contained(enc, b, BdPlaces(kind, segments, |segments|)[i]) {
      BdIsRoomy(enc, kind, segments, i);
      RoomyIsContained(enc, b, BdPlace(kind, segments, i));
    }
  }

  // ----- after the resize -----

  lemma {:induction false} ExpectedAt(kind: PreemptOp, segments: seq<Segment>, n: nat, i: nat)
    requires i < n <= |segments|
    ensures Expected(kind, segments, n)[i] == ExpectedReloc(kind, segments, i)
  {
    if i < n - 1 {
      ExpectedAt(kind, segments, n - 1, i);
    }
  }

  /** The scratch symbols of a stream, before resizing. */
  ghost predicate ScratchSymbols(syms: seq<Symbol>, section: string) {
    forall i :: 0 <= i < |syms| ==>
      syms[i] == Symbol(SCRATCH_PAD, syms[i].pos, HalfStart(i), HALF, section, ShimDma48, 0)
  }

  lemma {:induction false} ScratchExtent(others: seq<Symbol>, syms: seq<Symbol>, section: string)
    requires ScratchSymbols(syms, section) && |syms| <= 2 * NUM_COLS_STX
    requires forall i :: 0 <= i < |others| ==> others[i].section != section
    ensures MaxExtent(others + syms, section) == HalfStart(|syms|)
    decreases |others| + |syms|
  {
    if syms != [] {
      var last := |syms| - 1;
      ScratchExtent(others, syms[..last], section);
      assert (others + syms)[..|others + syms| - 1] == others + syms[..last];
      assert Extent(syms[last]) == HalfStart(last) + HALF;
    } else if others != [] {
      ScratchExtent(others[..|others| - 1], [], section);
      assert (others + syms)[..|others + syms| - 1] == others[..|others| - 1] + [];
    }
  }

  // ----- end to end -----

  /** The symbol of transfer n, at byte pos of its section. */
  function ShimSymbolOf(section: string, pos: nat, n: nat, size: nat): Symbol {
    Symbol(SCRATCH_PAD, pos, HalfStart(n), size, section, ShimDma48, 0)
  }

  /** The symbols of a generated stream: one a transfer, with the given size. */
  ghost predicate StreamSymbols(enc: Encoding, kind: PreemptOp, segments: seq<Segment>, b: seq<byte>, section: string,
                                syms: seq<Symbol>, size: nat)
  {
    && |syms| == |segments|
    && forall i :: 0 <= i < |syms| ==>
         syms[i] == ShimSymbolOf(section, PlaceAt(enc, b, BdPlace(kind, segments, i)), i, size)
  }

  /** A buffer that carries a generated stream of ncol columns. */
  ghost predicate Carries(enc: Encoding, kind: PreemptOp, segments: seq<Segment>, b: seq<byte>, ncol: nat) {
    && WellFormed(enc, b) && Ops(enc, b) == Stream(kind, segments)
    && |segments| == 2 * ncol && ncol <= NUM_COLS_STX && ValidStream(enc, kind, segments)
  }

  /** Any walk over such a buffer stays inside it, is accepted, patches it in place and emits 2 * ncol shim
      symbols, each with its transfer's place in the scratch buffer. */
  lemma GeneratedStreamProcessed(enc: Encoding, env: Env, kind: PreemptOp, segments: seq<Segment>, b: seq<byte>,
                                 section: string, ncol: nat)
    requires Carries(enc, kind, segments, b, ncol) && env.argname == SCRATCH_PAD
    ensures Patchable(enc, env, b) && MemorySafe(enc, env, section, b)
    ensures var walk := WalkAll(enc, env, section, b);
            walk.Walking? && walk.w.b == Cleared(enc, b, BdPlaces(kind, segments, 2 * ncol))
            && StreamSymbols(enc, kind, segments, b, section, walk.w.syms, HALF)
  {
    hide After, WellFormed, ValidStream, Stream, OpsTo, Patchable, MemorySafe, WalkTo, Cleared, Off, BdPlace;
    StreamAccepted(enc, env, kind, segments);
    StreamPatchable(enc, env, kind, segments, b);
    PatchableIsSafe(enc, env, section, b);
    WalkIsMachine(enc, env, section, b);
    var mine := WalkAll(enc, env, section, b).w.syms;
    forall i | 0 <= i < 2 * ncol
      ensures mine[i] == ShimSymbolOf(section, PlaceAt(enc, b, BdPlace(kind, segments, i)), i, HALF)
    {
      ExpectedAt(kind, segments, 2 * ncol, i);
    }
  }

  /** After the resize all have the size of ncol memory tiles, and each transfer's bytes lie inside it. */
  lemma GeneratedStreamResized(enc: Encoding, kind: PreemptOp, segments: seq<Segment>, b: seq<byte>, section: string,
                               others: seq<Symbol>, mine: seq<Symbol>, ncol: nat)
    requires StreamSymbols(enc, kind, segments, b, section, mine, HALF)
    requires |segments| == 2 * ncol && ncol <= NUM_COLS_STX
    requires forall i :: 0 <= i < |others| ==> others[i].section != section
    ensures var resized := Resized(others + mine, section);
            && resized[..|others|] == others
            && StreamSymbols(enc, kind, segments, b, section, resized[|others|..], ColStart(ncol))
            && forall i :: 0 <= i < 2 * ncol ==> HalfStart(i) + HALF <= ColStart(ncol)
  {
    hide MaxExtent, Off, BdPlace;
    ScratchExtent(others, mine, section);
    var resized := Resized(others + mine, section);
    assert resized[..|others|] == others;
    forall i | 0 <= i < 2 * ncol ensures resized[|others|..][i] == mine[i].(size := ColStart(ncol)) {
      assert (others + mine)[|others| + i] == mine[i];
    }
  }

  /** And all relocations of the stream lead to one entry of the symbol table. */
  lemma GeneratedStreamShares(enc: Encoding, kind: PreemptOp, segments: seq<Segment>, b: seq<byte>, section: string,
                              size: nat, syms: seq<Symbol>, from: nat, mine: seq<Symbol>, indexed: seq<Symbol>)
    requires StreamSymbols(enc, kind, segments, b, section, mine, size)
    requires from + |mine| <= |syms| && syms[from..from + |mine|] == mine
    requires |indexed| == |syms| && Shared(syms, indexed)
    ensures forall i, j :: from <= i < j < from + |mine| ==> indexed[i].index == indexed[j].index
  {
    hide Key, Off, BdPlace;
    forall i, j | from <= i < j < from + |mine| ensures indexed[i].index == indexed[j].index {
      assert syms[i] == mine[i - from] && syms[j] == mine[j - from];
      assert TripleOf(syms[i]) == TripleOf(syms[j]);
    }
  }

  // ----- both streams, through the argument setup -----

  /** Save and restore files for ncol columns, whichever their encodings. */
  ghost predicate GeneratedFiles(files: map<string, seq<byte>>, ncol: nat, save: seq<Segment>, restore: seq<Segment>) {
    && SaveFile(ncol) in files && RestoreFile(ncol) in files
    && Carries(EncodingOf(files[SaveFile(ncol)]), Save, save, files[SaveFile(ncol)], ncol)
    && Carries(EncodingOf(files[RestoreFile(ncol)]), Restore, restore, files[RestoreFile(ncol)], ncol)
  }

  ghost predicate OutsidePreempt(syms: seq<Symbol>) {
    forall i :: 0 <= i < |syms| ==> syms[i].section != PREEMPT_SAVE && syms[i].section != PREEMPT_RESTORE
  }

  /** Adding the library: both streams stay inside their buffers and are accepted, and the store gains their
      symbols behind those it had. */
  lemma PreemptAccepted(s: Store, files: map<string, seq<byte>>, ncol: nat, save: seq<Segment>, restore: seq<Segment>)
    returns (saved: seq<Symbol>, restored: seq<Symbol>)
    requires GeneratedFiles(files, ncol, save, restore)
    ensures PreemptSafe(s, files, ncol) && WithPreempt(s, files, ncol).Ready?
    ensures WithPreempt(s, files, ncol).s.syms == s.syms + saved + restored
    ensures var b := files[SaveFile(ncol)]; StreamSymbols(EncodingOf(b), Save, save, b, PREEMPT_SAVE, saved, HALF)
    ensures var b := files[RestoreFile(ncol)];
            StreamSymbols(EncodingOf(b), Restore, restore, b, PREEMPT_RESTORE, restored, HALF)
  {
    hide Carries, MemorySafe, WalkAll, StreamSymbols, Patchable, Cleared, SaveFile, RestoreFile;
    var read := WithFiles(s, files, ncol);
    var b, c := files[SaveFile(ncol)], files[RestoreFile(ncol)];
    GeneratedStreamProcessed(EncodingOf(b), EnvOf(s, SCRATCH_PAD), Save, save, b, PREEMPT_SAVE, ncol);
    GeneratedStreamProcessed(EncodingOf(c), EnvOf(s, SCRATCH_PAD), Restore, restore, c, PREEMPT_RESTORE, ncol);
    saved := SectionWalk(read, PREEMPT_SAVE, SCRATCH_PAD).w.syms;
    var between := WithStream(read, PREEMPT_SAVE, SCRATCH_PAD).s;
    restored := SectionWalk(between, PREEMPT_RESTORE, SCRATCH_PAD).w.syms;
  }

  /** End to end: from the two generated files to the final symbols.  Everything gathered before is kept,
      each of the 4 * ncol symbols has the size of ncol memory tiles with its transfer inside, and however
      the table is interned, the symbols of a stream share one index. */
  lemma GeneratedStreamEndToEnd(s: Store, files: map<string, seq<byte>>, ncol: nat,
                                save: seq<Segment>, restore: seq<Segment>)
    returns (saved: seq<Symbol>, restored: seq<Symbol>)
    requires GeneratedFiles(files, ncol, save, restore) && OutsidePreempt(s.syms)
    ensures PreemptSafe(s, files, ncol) && WithPreempt(s, files, ncol).Ready?
    ensures Resizes(WithPreempt(s, files, ncol).s.syms) == s.syms + saved + restored
    ensures var b := files[SaveFile(ncol)];
            StreamSymbols(EncodingOf(b), Save, save, b, PREEMPT_SAVE, saved, ColStart(ncol))
    ensures var b := files[RestoreFile(ncol)];
            StreamSymbols(EncodingOf(b), Restore, restore, b, PREEMPT_RESTORE, restored, ColStart(ncol))
    ensures forall n :: 0 <= n < 2 * ncol ==> HalfStart(n) + HALF <= ColStart(ncol)
    ensures forall indexed :: |indexed| == |s.syms + saved + restored| && Shared(s.syms + saved + restored, indexed) ==>
              && OneIndex(indexed, |s.syms|, |s.syms| + |saved|)
              && OneIndex(indexed, |s.syms| + |saved|, |s.syms| + |saved| + |restored|)
  {
    hide WellFormed, ValidStream, OpsTo, Stream, StreamSymbols, Resized, SaveFile, RestoreFile, WithPreempt,
         PreemptSafe, Shared;
    var b, c := files[SaveFile(ncol)], files[RestoreFile(ncol)];
    var rawSave, rawRestore := PreemptAccepted(s, files, ncol, save, restore);
    saved, restored := BothResized(s.syms, b, c, save, restore, rawSave, rawRestore, ncol);
    var syms := s.syms + saved + restored;
    forall indexed | |indexed| == |syms| && Shared(syms, indexed)
      ensures OneIndex(indexed, |s.syms|, |s.syms| + |saved|)
      ensures OneIndex(indexed, |s.syms| + |saved|, |s.syms| + |saved| + |restored|)
    {
      assert syms[|s.syms|..|s.syms| + |saved|] == saved;
      assert syms[|s.syms| + |saved|..|s.syms| + |saved| + |restored|] == restored;
      GeneratedStreamShares(EncodingOf(b), Save, save, b, PREEMPT_SAVE, ColStart(ncol), syms, |s.syms|, saved, indexed);
      GeneratedStreamShares(EncodingOf(c), Restore, restore, c, PREEMPT_RESTORE, ColStart(ncol), syms,
                            |s.syms| + |saved|, restored, indexed);
    }
  }

  ghost predicate OneIndex(indexed: seq<Symbol>, from: nat, to: nat) {
    forall i, j :: from <= i < j < to && j < |indexed| ==> indexed[i].index == indexed[j].index
  }

  /** The two resizes, each of its own section. */
  lemma BothResized(before: seq<Symbol>, b: seq<byte>, c: seq<byte>, save: seq<Segment>, restore: seq<Segment>,
                    rawSave: seq<Symbol>, rawRestore: seq<Symbol>, ncol: nat)
    returns (saved: seq<Symbol>, restored: seq<Symbol>)
    requires OutsidePreempt(before) && ncol <= NUM_COLS_STX && |save| == |restore| == 2 * ncol
    requires StreamSymbols(EncodingOf(b), Save, save, b, PREEMPT_SAVE, rawSave, HALF)
    requires StreamSymbols(EncodingOf(c), Restore, restore, c, PREEMPT_RESTORE, rawRestore, HALF)
    ensures Resizes(before + rawSave + rawRestore) == before + saved + restored
    ensures StreamSymbols(EncodingOf(b), Save, save, b, PREEMPT_SAVE, saved, ColStart(ncol))
    ensures StreamSymbols(EncodingOf(c), Restore, restore, c, PREEMPT_RESTORE, restored, ColStart(ncol))
    ensures forall n :: 0 <= n < 2 * ncol ==> HalfStart(n) + HALF <= ColStart(ncol)
  {
    hide MaxExtent, Off, BdPlace, Resized;
    GeneratedStreamResized(EncodingOf(b), Save, save, b, PREEMPT_SAVE, before, rawSave, ncol);
    var once := Resized(before + rawSave, PREEMPT_SAVE);
    saved := once[|before|..];
    ResizedTail(before + rawSave, rawRestore, PREEMPT_SAVE);
    assert Resized(before + rawSave + rawRestore, PREEMPT_SAVE) == (before + saved) + rawRestore;
    GeneratedStreamResized(EncodingOf(c), Restore, restore, c, PREEMPT_RESTORE, before + saved, rawRestore, ncol);
    restored := Resized((before + saved) + rawRestore, PREEMPT_RESTORE)[|before + saved|..];
  }

  /** Symbols of other sections behind the list change nothing. */
  lemma {:induction false} ExtentOfFront(syms: seq<Symbol>, others: seq<Symbol>, section: string)
    requires forall i :: 0 <= i < |others| ==> others[i].section != section
    ensures MaxExtent(syms + others, section) == MaxExtent(syms, section)
    decreases |others|
  {
    hide Extent;
    if others != [] {
      var rest := others[..|others| - 1];
      ExtentOfFront(syms, rest, section);
      assert (syms + others)[..|syms + others| - 1] == syms + rest;
    } else {
      assert syms + others == syms;
    }
  }

  lemma ResizedTail(syms: seq<Symbol>, others: seq<Symbol>, section: string)
    requires forall i :: 0 <= i < |others| ==> others[i].section != section
    ensures Resized(syms + others, section) == Resized(syms, section) + others
  {
    hide MaxExtent;
    ExtentOfFront(syms, others, section);
  }

  // ----- a masked patch in a preemption stream -----

  /** A memory-tile BD and a shim BD, then a patch of the address word of each. */
  function MaskedStream(mem: seq<byte>, shim: seq<byte>): seq<Op> {
    [BlockWrite(MEM_DMA_BD0_0, mem), BlockWrite(SHIM_DMA_BD0_0, shim),
     DdrPatch(MEM_DMA_BD0_0 + 4, 0, 0), DdrPatch(SHIM_DMA_BD0_0 + 4, 0, 0)]
  }

  lemma MaskedRun(enc: Encoding, env: Env, mem: seq<byte>, shim: seq<byte>)
    requires |mem| == |shim| == 32 && U32At(shim, 0) == 0x2_0000 && env.argname == SCRATCH_PAD
    ensures var out := Run(enc, env, MaskedStream(mem, shim));
            && out.Running? && out.st.cleared == [Loc(1, 0)]
            && out.st.relocs == [Reloc("3", Loc(0, 4), 0, MEM_BASE_ADDRESS_MASK, Scaler32),
                                 Reloc(SCRATCH_PAD, Loc(1, 0), 0, 0x8_0000, ShimDma48)]
  {
    hide After, U32At, VerdictAt, RelocsOf, ClearedBy, Accepted;
    var ops := MaskedStream(mem, shim);
    assert NoLoads(ops);
    QuietVerdict(enc, env, ops, 0);
    QuietVerdict(enc, env, ops, 1);
    MaskedVerdicts(enc, env, mem, shim);
    Unrolled(enc, env, ops);
    RunFollowsVerdicts(enc, env, ops, 4);
  }

  lemma MaskedVerdicts(enc: Encoding, env: Env, mem: seq<byte>, shim: seq<byte>)
    requires |mem| == |shim| == 32 && U32At(shim, 0) == 0x2_0000 && env.argname == SCRATCH_PAD
    ensures var ops := MaskedStream(mem, shim);
            && VerdictAt(enc, env, ops, 2) ==
               Accept(Effect([Reloc("3", Loc(0, 4), 0, MEM_BASE_ADDRESS_MASK, Scaler32)], []))
            && VerdictAt(enc, env, ops, 3) ==
               Accept(Effect([Reloc(SCRATCH_PAD, Loc(1, 0), 0, 0x8_0000, ShimDma48)], [Loc(1, 0)]))
  {
    hide U32At, BackScan, BdBase, InPm;
    var ops := MaskedStream(mem, shim);
    assert NoLoads(ops);
    NeverInPm(enc, ops, 2);
    NeverInPm(enc, ops, 3);
    MaskedScans(enc, mem, shim);
  }

  lemma Unrolled(enc: Encoding, env: Env, ops: seq<Op>)
    requires |ops| == 4 && forall k :: 0 <= k < 4 ==> VerdictAt(enc, env, ops, k).Accept?
    ensures Accepted(enc, env, ops, 4)
    ensures RelocsOf(enc, env, ops, 4) ==
            VerdictAt(enc, env, ops, 0).effect.relocs + VerdictAt(enc, env, ops, 1).effect.relocs +
            VerdictAt(enc, env, ops, 2).effect.relocs + VerdictAt(enc, env, ops, 3).effect.relocs
    ensures ClearedBy(enc, env, ops, 4) ==
            VerdictAt(enc, env, ops, 0).effect.cleared + VerdictAt(enc, env, ops, 1).effect.cleared +
            VerdictAt(enc, env, ops, 2).effect.cleared + VerdictAt(enc, env, ops, 3).effect.cleared
  {
    hide VerdictAt;
    assert RelocsOf(enc, env, ops, 1) == VerdictAt(enc, env, ops, 0).effect.relocs;
    assert ClearedBy(enc, env, ops, 1) == VerdictAt(enc, env, ops, 0).effect.cleared;
    assert RelocsOf(enc, env, ops, 2) == RelocsOf(enc, env, ops, 1) + VerdictAt(enc, env, ops, 1).effect.relocs;
    assert ClearedBy(enc, env, ops, 2) == ClearedBy(enc, env, ops, 1) + VerdictAt(enc, env, ops, 1).effect.cleared;
    assert RelocsOf(enc, env, ops, 3) == RelocsOf(enc, env, ops, 2) + VerdictAt(enc, env, ops, 2).effect.relocs;
    assert ClearedBy(enc, env, ops, 3) == ClearedBy(enc, env, ops, 2) + VerdictAt(enc, env, ops, 2).effect.cleared;
  }

  lemma MaskedScans(enc: Encoding, mem: seq<byte>, shim: seq<byte>)
    requires |mem| == |shim| == 32
    ensures var ops := MaskedStream(mem, shim);
            && BackScan(enc, ops, 2, BdBase(MEM_DMA_BD0_0 + 4)) == Some(Loc(0, 0))
            && BackScan(enc, ops, 3, BdBase(SHIM_DMA_BD0_0 + 4)) == Some(Loc(1, 0))
  {
    hide InPm, ChunkAt, BdBase;
    var ops := MaskedStream(mem, shim);
    assert NoLoads(ops);
    NeverInPm(enc, ops, 0);
    NeverInPm(enc, ops, 1);
    MaskedBases();
    OwnChunk(enc, MEM_DMA_BD0_0, mem);
    OwnChunk(enc, SHIM_DMA_BD0_0, shim);
    FarChunk(enc, SHIM_DMA_BD0_0, shim, MEM_DMA_BD0_0);
    assert BackScan(enc, ops, 1, MEM_DMA_BD0_0) == Some(Loc(0, 0));
    assert BackScan(enc, ops, 2, SHIM_DMA_BD0_0) == Some(Loc(1, 0));
    NoChunk(enc, ops[2], SHIM_DMA_BD0_0);
  }

  lemma MaskedBases()
    ensures BdBase(MEM_DMA_BD0_0 + 4) == MEM_DMA_BD0_0 && BdBase(SHIM_DMA_BD0_0 + 4) == SHIM_DMA_BD0_0
  {
  }

  /** A block-write of one BD has no chunk at a register further on. */
  lemma FarChunk(enc: Encoding, reg: nat, payload: seq<byte>, r: nat)
    requires |payload| == 32 && reg + 32 <= r < TWO_32
    ensures ChunkAt(enc, BlockWrite(reg, payload), r) == None
  {
    assert (r - reg) % KeySpace(enc) == r - reg;
  }

  lemma NoChunk(enc: Encoding, op: Op, r: nat)
    requires !op.BlockWrite?
    ensures ChunkAt(enc, op, r) == None
  {
  }

  /** A save stream that a walker accepts and patches in place, whose masked patch loses its mask to the
      resize: the mask field becomes the length of the shim transfer. */
  lemma MaskLost(enc: Encoding, env: Env, numCols: byte, mem: seq<byte>, shim: seq<byte>)
    requires |mem| == |shim| == 32 && U32At(shim, 0) == 0x2_0000 && env.argname == SCRATCH_PAD
    ensures AllEncodable(enc, MaskedStream(mem, shim))
    ensures var b := EncodeStream(enc, numCols, MaskedStream(mem, shim));
            var walk := WalkAll(enc, env, PREEMPT_SAVE, b);
            && WellFormed(enc, b) && Patchable(enc, env, b) && walk.Walking? && |walk.w.syms| == 2
            && walk.w.syms[0].schema == Scaler32 && walk.w.syms[0].size == MEM_BASE_ADDRESS_MASK
            && Resized(walk.w.syms, PREEMPT_SAVE)[0].size == 0x8_0000 != MEM_BASE_ADDRESS_MASK
  {
    hide EncodeStream, WellFormed, OpsTo, After, Off, WalkTo, Cleared, U32At;
    var ops, b := MaskedStream(mem, shim), EncodeStream(enc, numCols, MaskedStream(mem, shim));
    SmallStream(enc, numCols, ops);
    MaskedRun(enc, env, mem, shim);
    RoomyIsContained(enc, b, Loc(1, 0));
    WalkIsMachine(enc, env, PREEMPT_SAVE, b);
    var syms := WalkAll(enc, env, PREEMPT_SAVE, b).w.syms;
    assert syms == Rendered(enc, b, PREEMPT_SAVE, Run(enc, env, ops).st.relocs);
    MaskSurvivesResize(syms, PREEMPT_SAVE, 0);
    assert syms[1].size + syms[1].addend > syms[0].size;
    MaxExtentIsMaximum(syms, PREEMPT_SAVE);
    assert Extent(syms[0]) == MEM_BASE_ADDRESS_MASK && Extent(syms[1]) == 0x8_0000;
  }
}
