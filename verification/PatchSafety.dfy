/**
 Patching while parsing is safe: the patched buffer holds the same ops at the same places, with only
 BD address bytes of block-write payloads changed, and patching it again changes nothing.
 */
module PatchSafety {
  import opened Bytes
  import opened TxnLayout
  import opened TxnMachine
  import opened ShimBits
  import opened TransactionInput

  /** Bytes of op k's payload at which a BD among `places` starts. */
  function BytesIn(places: seq<Loc>, k: nat): seq<nat>
    decreases |places|
  {
    if places == [] then []
    else
      var last, before := places[|places| - 1], BytesIn(places[..|places| - 1], k);
      if last.op == k then before + [last.byte] else before
  }

  function ClearedOp(op: Op, places: seq<Loc>, k: nat): Op {
    if op.BlockWrite? then BlockWrite(op.reg, ClearAll(op.payload, BytesIn(places, k))) else op
  }

  /** The ops with the given BDs cleared in their payloads. */
  function ClearedOps(ops: seq<Op>, places: seq<Loc>): (cleared: seq<Op>)
    ensures |cleared| == |ops|
    ensures forall k :: 0 <= k < |ops| ==> cleared[k] == ClearedOp(ops[k], places, k)
  {
    seq(|ops|, k requires 0 <= k < |ops| => ClearedOp(ops[k], places, k))
  }

  // ----- payloads change exactly where a BD is cleared -----

  /** Inside op k's payload, clearing the buffer is clearing the payload. */
  lemma {:induction false} PayloadLevel(enc: Encoding, b: seq<byte>, places: seq<Loc>, k: nat, i: nat)
    requires WellFormed(enc, b) && ChunkList(Ops(enc, b), NumOps(b), places)
    requires k < NumOps(b) && Ops(enc, b)[k].BlockWrite? && i < |Ops(enc, b)[k].payload|
    ensures Level(Offsets(enc, b, places), PayloadAt(enc, b, k) + i) == Level(BytesIn(places, k), i)
    decreases |places|
  {
    hide Ops, PayloadAt, WellFormed, IsChunk, PlaceAt, Level, LevelNext, Offsets, BytesIn;
    if places == [] {
      NoPlaces(enc, b, k, PayloadAt(enc, b, k) + i, i);
    } else {
      var before, last := places[..|places| - 1], places[|places| - 1];
      assert forall n :: 0 <= n < |before| ==> before[n] == places[n];
      PayloadLevel(enc, b, before, k, i);
      assert IsChunk(Ops(enc, b), NumOps(b), last);
      LastPlaceReach(enc, b, last, k, i);
      PlacesSnoc(enc, b, before, last, k);
      assert places == before + [last];
      LevelSnoc(Offsets(enc, b, before), PlaceAt(enc, b, last), PayloadAt(enc, b, k) + i);
      LevelSnoc(BytesIn(before, k), last.byte, i);
      SameLevel(Level(BytesIn(before, k), i), PlaceAt(enc, b, last), PayloadAt(enc, b, k) + i, last.byte, i);
    }
  }

  lemma NoPlaces(enc: Encoding, b: seq<byte>, k: nat, at: nat, i: nat)
    ensures Offsets(enc, b, []) == [] && BytesIn([], k) == [] && Level([], at) == Level([], i)
  {
  }

  lemma PlacesSnoc(enc: Encoding, b: seq<byte>, before: seq<Loc>, last: Loc, k: nat)
    ensures Offsets(enc, b, before + [last]) == Offsets(enc, b, before) + [PlaceAt(enc, b, last)]
    ensures BytesIn(before + [last], k) == if last.op == k then BytesIn(before, k) + [last.byte] else BytesIn(before, k)
  {
    hide PlaceAt;
    assert (before + [last])[..|before|] == before;
  }

  /** Only the distance from the BD's start counts, and out of its reach nothing changes. */
  lemma SameLevel(before: nat, off: nat, at: nat, byte: nat, i: nat)
    ensures at - off == i - byte ==> LevelNext(before, off, at) == LevelNext(before, byte, i)
    ensures at < off + 4 || off + BD_TOUCHED <= at ==> LevelNext(before, off, at) == before
  {
  }

  /** Whether one cleared BD reaches byte i of op k's payload: never across the header before it. */
  lemma LastPlaceReach(enc: Encoding, b: seq<byte>, bd: Loc, k: nat, i: nat)
    requires WellFormed(enc, b) && IsChunk(Ops(enc, b), NumOps(b), bd)
    requires k < NumOps(b) && Ops(enc, b)[k].BlockWrite? && i < |Ops(enc, b)[k].payload|
    ensures var at, off := PayloadAt(enc, b, k) + i, PlaceAt(enc, b, bd);
            if bd.op == k then at == off - bd.byte + i else at < off + 4 || off + BD_TOUCHED <= at
  {
    hide OpsTo, OpAt, LenAt, Off, WellFormed;
    PayloadPlace(enc, b, k);
    ChunkPlace(enc, b, NumOps(b), bd);
    if bd.op < k {
      OffMonotone(enc, b, bd.op + 1, k);
    } else if k < bd.op {
      OffMonotone(enc, b, k + 1, bd.op);
    }
  }

  lemma PayloadCleared(enc: Encoding, b: seq<byte>, places: seq<Loc>, k: nat)
    requires WellFormed(enc, b) && ChunkList(Ops(enc, b), NumOps(b), places)
    requires k < NumOps(b) && Ops(enc, b)[k].BlockWrite?
    ensures Slice(Cleared(enc, b, places), PayloadAt(enc, b, k), Off(enc, b, k + 1)) ==
            ClearAll(Ops(enc, b)[k].payload, BytesIn(places, k))
  {
    hide OpsTo, OpAt, LenAt, Off, WellFormed, ChunkList, Level, Masked, ClearAll, BytesIn, Offsets;
    PayloadPlace(enc, b, k);
    var lo, hi := PayloadAt(enc, b, k), Off(enc, b, k + 1);
    var payload := Ops(enc, b)[k].payload;
    forall i | 0 <= i < |payload|
      ensures Cleared(enc, b, places)[lo + i] == ClearAll(payload, BytesIn(places, k))[i]
    {
      PayloadLevel(enc, b, places, k, i);
      ClearAllByte(b, Offsets(enc, b, places), lo + i);
      ClearAllByte(payload, BytesIn(places, k), i);
    }
  }

  // ----- the walk is unchanged -----

  /** Clears that keep every byte outside the payloads keep every op where it is. */
  lemma {:induction false} OffsetsKept(enc: Encoding, b: seq<byte>, c: seq<byte>, k: nat)
    requires WellFormed(enc, b) && OutsideKept(enc, b, c) && k <= NumOps(b)
    ensures Off(enc, c, k) == Off(enc, b, k)
  {
    hide LenAt, WellFormed, OutsideKept;
    if k > 0 {
      OffsetsKept(enc, b, c, k - 1);
      HeadersKept(enc, b, c, k - 1);
      HeaderDecidesLength(enc, b, c, Off(enc, b, k - 1));
    }
  }

  lemma TxnHeaderKept(enc: Encoding, b: seq<byte>, c: seq<byte>)
    requires WellFormed(enc, b) && OutsideKept(enc, b, c)
    ensures c[..TXN_HEADER] == b[..TXN_HEADER] && NumOps(c) == NumOps(b)
    ensures U32At(c, TXN_SIZE) == U32At(b, TXN_SIZE) && EncodingOf(c) == EncodingOf(b)
  {
    hide FitsAt, Off, InPayload;
    forall i | 0 <= i < TXN_HEADER ensures c[i] == b[i] {
      HeaderBeforePayloads(enc, b, i);
    }
    assert SameOn(b, c, 0, TXN_HEADER);
    SameWord(b, c, 0, TXN_HEADER, TXN_NUM_OPS);
    SameWord(b, c, 0, TXN_HEADER, TXN_SIZE);
  }

  lemma HeaderBeforePayloads(enc: Encoding, b: seq<byte>, i: nat)
    requires i < TXN_HEADER
    ensures !InPayload(enc, b, i)
  {
    hide Off;
  }

  lemma OpKept(enc: Encoding, b: seq<byte>, places: seq<Loc>, k: nat)
    requires WellFormed(enc, b) && ChunkList(Ops(enc, b), NumOps(b), places) && k < NumOps(b)
    requires OutsideKept(enc, b, Cleared(enc, b, places))
    ensures var c := Cleared(enc, b, places);
            && OpAt(enc, c, Off(enc, b, k)) == ClearedOp(Ops(enc, b)[k], places, k)
            && FitsAt(enc, c, Off(enc, b, k))
  {
    hide LenAt, FitsAt, ChunkList, OpAt, WellFormed, OpsTo, Cleared, ClearAll, BytesIn, Off, ClearedOp, HeaderLen,
         OutsideKept;
    var c, p := Cleared(enc, b, places), Off(enc, b, k);
    WellFormedFits(enc, b, k);
    HeadersKept(enc, b, c, k);
    HeaderDecidesLength(enc, b, c, p);
    HeaderDecidesOp(enc, b, c, p);
    OpsToAt(enc, b, NumOps(b), k);
    OnlyBlockWrites(enc, b, p);
    OnlyBlockWrites(enc, c, p);
    if CodeAt(b, p) == IO_BLOCKWRITE {
      PayloadCleared(enc, b, places, k);
      OffNext(enc, b, k);
    }
    ClearedOpIs(Ops(enc, b)[k], places, k);
  }

  lemma ClearedOpIs(op: Op, places: seq<Loc>, k: nat)
    ensures op.BlockWrite? ==> ClearedOp(op, places, k) == BlockWrite(op.reg, ClearAll(op.payload, BytesIn(places, k)))
    ensures !op.BlockWrite? ==> ClearedOp(op, places, k) == op
  {
  }

  lemma OnlyBlockWrites(enc: Encoding, b: seq<byte>, p: nat)
    ensures OpAt(enc, b, p).BlockWrite? <==> CodeAt(b, p) == IO_BLOCKWRITE
    ensures CodeAt(b, p) == IO_BLOCKWRITE ==>
              OpAt(enc, b, p) ==
              BlockWrite(BlockWriteRegAt(enc, b, p), Slice(b, p + BwHeader(enc), p + LenAt(enc, b, p)))
  {
    hide WriteAt, MaskWriteAt, PatchAt, LenAt;
  }

  /** Where clearing BDs of a well-formed stream keeps every byte outside the payloads, it keeps the
      header, the op offsets and every op but the cleared address bytes. */
  lemma StructureKept(enc: Encoding, b: seq<byte>, places: seq<Loc>)
    requires WellFormed(enc, b) && ChunkList(Ops(enc, b), NumOps(b), places)
    requires OutsideKept(enc, b, Cleared(enc, b, places))
    ensures var c := Cleared(enc, b, places);
            && WellFormed(enc, c) && EncodingOf(c) == EncodingOf(b)
            && c[..TXN_HEADER] == b[..TXN_HEADER]
            && (forall k :: 0 <= k <= NumOps(b) ==> Off(enc, c, k) == Off(enc, b, k))
            && Ops(enc, c) == ClearedOps(Ops(enc, b), places)
  {
    hide LenAt, FitsAt, OutsideKept, OpAt, ClearedOp, Cleared, ChunkList;
    var c := Cleared(enc, b, places);
    TxnHeaderKept(enc, b, c);
    forall k | 0 <= k <= NumOps(b) ensures Off(enc, c, k) == Off(enc, b, k) {
      OffsetsKept(enc, b, c, k);
    }
    forall k | 0 <= k < NumOps(b)
      ensures FitsAt(enc, c, Off(enc, c, k)) && Ops(enc, c)[k] == ClearedOp(Ops(enc, b)[k], places, k)
    {
      OpKept(enc, b, places, k);
      OpsToAt(enc, c, NumOps(c), k);
    }
  }

  /** The clears of a patchable run. */
  lemma RunKeepsOutside(enc: Encoding, env: Env, b: seq<byte>)
    requires WellFormed(enc, b) && Patchable(enc, env, b)
    ensures ChunkList(Ops(enc, b), NumOps(b), Run(enc, env, Ops(enc, b)).st.cleared)
    ensures OutsideKept(enc, b, PatchedBuffer(enc, env, b))
  {
    hide After, OpsTo, Cleared, WellFormed, OutsideKept, ChunkList, AllContained;
    Untouched(enc, env, b, NumOps(b));
    ContainedKeepsOutside(enc, b, Run(enc, env, Ops(enc, b)).st.cleared);
  }

  // ----- patching again changes nothing -----

  ghost predicate Aligned(bytes: seq<nat>) {
    forall i :: 0 <= i < |bytes| ==> bytes[i] % SHIM_DMA_BD_SIZE == 0
  }

  lemma {:induction false} BytesInAligned(ops: seq<Op>, places: seq<Loc>, k: nat)
    requires ChunkList(ops, |ops|, places)
    ensures Aligned(BytesIn(places, k))
    decreases |places|
  {
    if places != [] {
      var before := places[..|places| - 1];
      assert forall i :: 0 <= i < |before| ==> before[i] == places[i];
      BytesInAligned(ops, before, k);
      assert IsChunk(ops, |ops|, places[|places| - 1]);
    }
  }

  lemma ChunksApart(x: nat, bd: nat, i: nat)
    requires x % SHIM_DMA_BD_SIZE == 0 && bd % SHIM_DMA_BD_SIZE == 0 && bd <= i < bd + 4
    ensures i < x + 4 || x + BD_TOUCHED <= i
  {
    var m, n := x / SHIM_DMA_BD_SIZE, bd / SHIM_DMA_BD_SIZE;
    assert x == 32 * m && bd == 32 * n;
  }

  /** The length word of a BD is never among the bytes that clearing touches. */
  lemma LengthSurvives(payload: seq<byte>, bytes: seq<nat>, bd: nat)
    requires Aligned(bytes) && bd % SHIM_DMA_BD_SIZE == 0
    ensures LengthInBytes(ClearAll(payload, bytes), bd) == LengthInBytes(payload, bd)
  {
    forall i: nat | bd <= i < bd + 4 ensures ByteAt(ClearAll(payload, bytes), i) == ByteAt(payload, i) {
      if i < |payload| {
        forall n | 0 <= n < |bytes| ensures Spares(payload, bytes[n], i) {
          ChunksApart(bytes[n], bd, i);
        }
        ClearAllExact(payload, bytes, i);
      }
    }
  }

  lemma SameVerdict(env: Env, ops: seq<Op>, places: seq<Loc>, k: nat, st: State)
    requires k < |ops| && ChunkList(ops, |ops|, places) && AllChunks(ops, k, st.index)
    ensures VerdictHere(env, ClearedOps(ops, places), k, st) == VerdictHere(env, ops, k, st)
  {
    hide PatchEffect, LengthInBytes, BytesIn, ClearAll;
    var cleared := ClearedOps(ops, places);
    var bd := Lookup(st.index, ops[k]);
    if bd.Some? {
      assert IsChunk(ops, k, bd.value);
      BytesInAligned(ops, places, bd.value.op);
      LengthSurvives(ops[bd.value.op].payload, BytesIn(places, bd.value.op), bd.value.byte);
    } else if ops[k].BlockWrite? {
      BytesInAligned(ops, places, k);
      LengthSurvives(ops[k].payload, BytesIn(places, k), 0);
    }
  }

  /** The machine takes the same steps on the cleared ops. */
  lemma {:induction false} SameRun(enc: Encoding, env: Env, ops: seq<Op>, places: seq<Loc>, k: nat)
    requires k <= |ops| && ChunkList(ops, |ops|, places)
    requires forall j :: 0 <= j < |ops| && ops[j].BlockWrite? ==> |ops[j].payload| > 0
    ensures After(enc, env, ClearedOps(ops, places), k) == After(enc, env, ops, k)
  {
    hide VerdictHere, BytesIn, ClearAll, AddChunks;
    if k > 0 {
      SameRun(enc, env, ops, places, k - 1);
      PlacesAreChunks(enc, env, ops, k - 1);
      SameVerdict(env, ops, places, k - 1, After(enc, env, ops, k - 1).st);
    }
  }

  /** Cleared again, the same places of the cleared buffer are still contained, at the same offsets. */
  lemma ContainedAgain(enc: Encoding, b: seq<byte>, c: seq<byte>, places: seq<Loc>)
    requires |c| == |b| && AllContained(enc, b, places)
    requires forall k :: 0 <= k <= NumOps(b) ==> Off(enc, c, k) == Off(enc, b, k)
    requires ChunkList(Ops(enc, b), NumOps(b), places)
    requires forall i :: 0 <= i < |b| ==> c[i] <= b[i]
    ensures AllContained(enc, c, places) && Offsets(enc, c, places) == Offsets(enc, b, places)
  {
    hide Off, OpsTo;
    forall n | 0 <= n < |places|
      ensures Contained(enc, c, places[n]) && PlaceAt(enc, c, places[n]) == PlaceAt(enc, b, places[n])
    {
      assert Contained(enc, b, places[n]) && IsChunk(Ops(enc, b), NumOps(b), places[n]);
      assert Off(enc, c, places[n].op) == Off(enc, b, places[n].op);
      assert Off(enc, c, places[n].op + 1) == Off(enc, b, places[n].op + 1);
      forall i | Off(enc, c, places[n].op + 1) <= i < |c| ensures Spares(c, PlaceAt(enc, c, places[n]), i) {
        assert Spares(b, PlaceAt(enc, b, places[n]), i);
      }
    }
  }

  /** What a run leaves behind is a fixed point: the patched buffer is well formed and patchable,
      running on it again gives the same outcome, the same symbols and the same bytes. */
  lemma PatchingIsIdempotent(enc: Encoding, env: Env, section: string, b: seq<byte>)
    requires WellFormed(enc, b) && Patchable(enc, env, b)
    ensures var c := PatchedBuffer(enc, env, b);
            && WellFormed(enc, c) && EncodingOf(c) == EncodingOf(b) && Patchable(enc, env, c)
            && Run(enc, env, Ops(enc, c)) == Run(enc, env, Ops(enc, b))
            && Rendered(enc, c, section, Run(enc, env, Ops(enc, c)).st.relocs) ==
               Rendered(enc, b, section, Run(enc, env, Ops(enc, b)).st.relocs)
            && PatchedBuffer(enc, env, c) == c
  {
    hide After, Off, OpsTo, ClearAll, FitsAt, LenAt, ChunkList, OutsideKept, AllContained, ClearedOp;
    var ops, c := Ops(enc, b), PatchedBuffer(enc, env, b);
    var out := Run(enc, env, ops);
    RunKeepsOutside(enc, env, b);
    StructureKept(enc, b, out.st.cleared);
    ProgramKept(enc, env, section, b);
    forall i | 0 <= i < |b| ensures c[i] <= b[i] {
      ClearAllShrinks(b, Offsets(enc, b, out.st.cleared), i);
    }
    ContainedAgain(enc, b, c, out.st.cleared);
  }

  /** Wider: it is enough that the clears have left every op where it was, with only payload bytes cleared,
      whatever became of the padding around them. */
  lemma ProgramKept(enc: Encoding, env: Env, section: string, b: seq<byte>)
    requires WellFormed(enc, b)
    requires var c := PatchedBuffer(enc, env, b);
             && (forall k :: 0 <= k <= NumOps(b) ==> Off(enc, c, k) == Off(enc, b, k))
             && Ops(enc, c) == ClearedOps(Ops(enc, b), Run(enc, env, Ops(enc, b)).st.cleared)
    ensures var c := PatchedBuffer(enc, env, b);
            && Run(enc, env, Ops(enc, c)) == Run(enc, env, Ops(enc, b))
            && Rendered(enc, c, section, Run(enc, env, Ops(enc, c)).st.relocs) ==
               Rendered(enc, b, section, Run(enc, env, Ops(enc, b)).st.relocs)
            && PatchedBuffer(enc, env, c) == c
  {
    hide After, Off, OpsTo, ClearAll, BytesIn, FitsAt, LenAt, InBlockWrite, ClearedOp, WellFormed;
    var ops, c := Ops(enc, b), PatchedBuffer(enc, env, b);
    var out := Run(enc, env, ops);
    PayloadsAreWords(enc, b);
    PlacesAreChunks(enc, env, ops, |ops|);
    SameRun(enc, env, ops, out.st.cleared, |ops|);
    RelocPlaces(enc, env, ops, |ops|);
    forall k | 0 <= k < NumOps(b) ensures PayloadAt(enc, c, k) == PayloadAt(enc, b, k) {
      assert Off(enc, c, k) == Off(enc, b, k);
    }
    forall i | 0 <= i < |out.st.cleared|
      ensures PlaceAt(enc, c, out.st.cleared[i]) == PlaceAt(enc, b, out.st.cleared[i])
    {
      assert IsChunk(ops, |ops|, out.st.cleared[i]);
    }
    assert Offsets(enc, c, out.st.cleared) == Offsets(enc, b, out.st.cleared);
    ClearAllIdempotent(b, Offsets(enc, b, out.st.cleared));
  }

  /** A symbol stands in the payload of a block-write, or at its end. */
  predicate InBlockWrite(ops: seq<Op>, place: Loc) {
    place.op < |ops| && ops[place.op].BlockWrite? && place.byte <= |ops[place.op].payload|
  }

  ghost predicate PlacedBefore(ops: seq<Op>, relocs: seq<Reloc>, k: nat) {
    forall i :: 0 <= i < |relocs| ==> relocs[i].place.op < k && InBlockWrite(ops, relocs[i].place)
  }

  /** Every symbol sits in the payload of an op already passed. */
  lemma {:induction false} RelocPlaces(enc: Encoding, env: Env, ops: seq<Op>, k: nat)
    requires k <= |ops|
    requires forall j :: 0 <= j < |ops| && ops[j].BlockWrite? ==> |ops[j].payload| > 0 && |ops[j].payload| % 4 == 0
    ensures PlacedBefore(ops, After(enc, env, ops, k).st.relocs, k)
  {
    hide Step, InBlockWrite;
    if k > 0 {
      RelocPlaces(enc, env, ops, k - 1);
      PlacesAreChunks(enc, env, ops, k - 1);
      StepRelocPlaces(enc, env, ops, k - 1, After(enc, env, ops, k - 1).st);
    }
  }

  lemma StepRelocPlaces(enc: Encoding, env: Env, ops: seq<Op>, k: nat, st: State)
    requires k < |ops| && AllChunks(ops, k, st.index) && PlacedBefore(ops, st.relocs, k)
    requires forall j :: 0 <= j < |ops| && ops[j].BlockWrite? ==> |ops[j].payload| > 0 && |ops[j].payload| % 4 == 0
    ensures PlacedBefore(ops, Step(enc, env, ops, k, st).st.relocs, k + 1)
  {
    hide NextIndex, LengthInBytes, BdLength, ShimName, PmName, Decimal, TileReg, ClassOf, BdBase;
    var bd := Lookup(st.index, ops[k]);
    if bd.Some? {
      assert IsChunk(ops, k, bd.value);
      WordInside(bd.value.byte, |ops[bd.value.op].payload|);
    } else if ops[k].BlockWrite? {
      WordInside(0, |ops[k].payload|);
    }
  }
}
