/**
 From op places to byte offsets: which bytes of a buffer clearing a BD reaches, and when it changes none
 outside the payload of the BD's own block-write.
 */
module TransactionInput {
  import opened Bytes
  import opened Symbols
  import opened TxnLayout
  import opened TxnMachine
  import opened ShimBits
  import opened ByteWalk

  datatype Result = Ok(cols: nat) | Err(error: Error)

  // ----- from op places to byte offsets -----

  function PlaceAt(enc: Encoding, b: seq<byte>, bd: Loc): nat { PayloadAt(enc, b, bd.op) + bd.byte }

  function Offsets(enc: Encoding, b: seq<byte>, places: seq<Loc>): (offs: seq<nat>)
    ensures |offs| == |places|
  {
    seq(|places|, i requires 0 <= i < |places| => PlaceAt(enc, b, places[i]))
  }

  function Rendered(enc: Encoding, b: seq<byte>, section: string, relocs: seq<Reloc>): (syms: seq<Symbol>)
    ensures |syms| == |relocs|
  {
    seq(|relocs|, i requires 0 <= i < |relocs| =>
      Render(section, PayloadAt(enc, b, relocs[i].place.op), relocs[i]))
  }

  /** A buffer with the BDs at the given places cleared. */
  function Cleared(enc: Encoding, b: seq<byte>, places: seq<Loc>): (c: seq<byte>)
    ensures |c| == |b|
  {
    ClearAll(b, Offsets(enc, b, places))
  }

  /** The buffer after a run: the original with the run's BDs cleared. */
  function PatchedBuffer(enc: Encoding, env: Env, b: seq<byte>): (c: seq<byte>)
    ensures |c| == |b|
  {
    Cleared(enc, b, Run(enc, env, Ops(enc, b)).st.cleared)
  }

  /** What a whole run leaves behind, in terms of the machine on the original buffer. */
  ghost predicate Processed(enc: Encoding, env: Env, section: string, b0: seq<byte>, syms0: seq<Symbol>,
                            b: seq<byte>, syms: seq<Symbol>, r: Result)
  {
    var out := Run(enc, env, Ops(enc, b0));
    && syms == syms0 + Rendered(enc, b0, section, out.st.relocs)
    && b == PatchedBuffer(enc, env, b0)
    && r == match out case Running(_) => Ok(ByteAt(b0, TXN_NUM_COLS)) case Failed(error, _) => Err(error)
  }

  // ----- clears that stay where they belong -----

  /** Of the bytes behind its block-write, clearing the BD changes none. */
  ghost predicate SpillClear(enc: Encoding, b: seq<byte>, bd: Loc) {
    forall i :: Off(enc, b, bd.op + 1) <= i < |b| ==> Spares(b, PlaceAt(enc, b, bd), i)
  }

  ghost predicate Contained(enc: Encoding, b: seq<byte>, bd: Loc) {
    PlaceAt(enc, b, bd) + BD_TOUCHED <= |b| && SpillClear(enc, b, bd)
  }

  ghost predicate AllContained(enc: Encoding, b: seq<byte>, places: seq<Loc>) {
    forall i :: 0 <= i < |places| ==> Contained(enc, b, places[i])
  }

  /** Every BD the run clears is contained. */
  ghost predicate Patchable(enc: Encoding, env: Env, b: seq<byte>) {
    AllContained(enc, b, Run(enc, env, Ops(enc, b)).st.cleared)
  }

  /** Byte i belongs to the payload of some block-write. */
  ghost predicate InPayload(enc: Encoding, b: seq<byte>, i: nat) {
    exists k :: 0 <= k < NumOps(b) && PayloadHas(enc, b, k, i)
  }

  predicate PayloadHas(enc: Encoding, b: seq<byte>, k: nat, i: nat) {
    CodeAt(b, Off(enc, b, k)) == IO_BLOCKWRITE && PayloadAt(enc, b, k) <= i < Off(enc, b, k + 1)
  }

  /** All bytes outside block-write payloads are as they were. */
  ghost predicate OutsideKept(enc: Encoding, b: seq<byte>, c: seq<byte>) {
    |c| == |b| && forall i :: 0 <= i < |b| && !InPayload(enc, b, i) ==> c[i] == b[i]
  }

  lemma PayloadsAreWords(enc: Encoding, b: seq<byte>)
    requires WellFormed(enc, b)
    ensures forall j :: 0 <= j < NumOps(b) && Ops(enc, b)[j].BlockWrite? ==>
              4 <= |Ops(enc, b)[j].payload| < TWO_32 && |Ops(enc, b)[j].payload| % 4 == 0
  {
    forall j | 0 <= j < NumOps(b) && Ops(enc, b)[j].BlockWrite?
      ensures 4 <= |Ops(enc, b)[j].payload| < TWO_32 && |Ops(enc, b)[j].payload| % 4 == 0
    {
      PayloadPlace(enc, b, j);
    }
  }

  /** A chunk has at least its length word inside its block-write. */
  lemma ChunkPlace(enc: Encoding, b: seq<byte>, n: nat, bd: Loc)
    requires WellFormed(enc, b) && n <= NumOps(b) && IsChunk(Ops(enc, b), n, bd)
    ensures TXN_HEADER <= PayloadAt(enc, b, bd.op) <= PlaceAt(enc, b, bd)
    ensures PlaceAt(enc, b, bd) + 4 <= Off(enc, b, bd.op + 1) <= Off(enc, b, n) <= |b|
    ensures CodeAt(b, Off(enc, b, bd.op)) == IO_BLOCKWRITE
  {
    hide LenAt, OpAt, OpsTo, Off;
    PayloadPlace(enc, b, bd.op);
    WordInside(bd.byte, |Ops(enc, b)[bd.op].payload|);
    OffMonotone(enc, b, bd.op + 1, n);
    OffInside(enc, b, n);
  }

  lemma WordInside(bd: nat, size: nat)
    requires bd < size && bd % SHIM_DMA_BD_SIZE == 0 && size % 4 == 0
    ensures bd + 4 <= size
  {
    var m, n := bd / SHIM_DMA_BD_SIZE, size / 4;
    assert bd == 4 * (8 * m) && size == 4 * n;
  }

  /** The first bytes behind an op are in no payload: a block-write's header comes before its payload. */
  lemma BehindIsOutside(enc: Encoding, b: seq<byte>, k: nat, i: nat)
    requires k < NumOps(b) && Off(enc, b, k + 1) <= i < Off(enc, b, k + 1) + BW_OPT
    ensures !InPayload(enc, b, i)
  {
    hide LenAt, Off;
    forall j | 0 <= j < NumOps(b) ensures !PayloadHas(enc, b, j, i) {
      if j <= k {
        OffMonotone(enc, b, j + 1, k + 1);
      } else {
        OffMonotone(enc, b, k + 1, j);
      }
    }
  }

  lemma OffNext(enc: Encoding, b: seq<byte>, k: nat)
    ensures Off(enc, b, k + 1) == Off(enc, b, k) + LenAt(enc, b, Off(enc, b, k))
  {
  }

  lemma WellFormedFits(enc: Encoding, b: seq<byte>, k: nat)
    requires WellFormed(enc, b) && k < NumOps(b)
    ensures FitsAt(enc, b, Off(enc, b, k))
  {
    hide FitsAt, Off;
  }

  /** No header byte is in a payload. */
  lemma HeaderIsOutside(enc: Encoding, b: seq<byte>, k: nat, i: nat)
    requires WellFormed(enc, b) && k < NumOps(b)
    requires var p := Off(enc, b, k); p <= i < p + HeaderLen(enc, CodeAt(b, p))
    ensures !InPayload(enc, b, i)
  {
    hide LenAt, Off, WellFormed;
    WellFormedFits(enc, b, k);
    OffNext(enc, b, k);
    forall j | 0 <= j < NumOps(b) ensures !PayloadHas(enc, b, j, i) {
      if j < k {
        OffMonotone(enc, b, j + 1, k);
      } else if j > k {
        OffMonotone(enc, b, k + 1, j);
        OffMonotone(enc, b, k, j);
      }
    }
  }

  /** What clearing the BD at a chunk does to a byte outside the payloads. */
  lemma ChunkSpares(enc: Encoding, b: seq<byte>, bd: Loc, i: nat)
    requires WellFormed(enc, b) && IsChunk(Ops(enc, b), NumOps(b), bd) && i < |b| && !InPayload(enc, b, i)
    ensures i < Off(enc, b, bd.op + 1) ==> Spares(b, PlaceAt(enc, b, bd), i)
  {
    hide LenAt, OpAt, OpsTo, Off, WellFormed;
    ChunkPlace(enc, b, NumOps(b), bd);
    assert !PayloadHas(enc, b, bd.op, i);
  }

  /** Clearing chunks keeps every byte outside the payloads exactly when each spill is clear already. */
  lemma SpillExact(enc: Encoding, b: seq<byte>, places: seq<Loc>)
    requires WellFormed(enc, b) && ChunkList(Ops(enc, b), NumOps(b), places)
    ensures OutsideKept(enc, b, Cleared(enc, b, places)) <==>
            forall n :: 0 <= n < |places| ==> SpillClear(enc, b, places[n])
  {
    hide InPayload, Off, Ops, WellFormed, ClearAll, Spares, IsChunk;
    var offs, c := Offsets(enc, b, places), Cleared(enc, b, places);
    if OutsideKept(enc, b, c) {
      forall n, i | 0 <= n < |places| && Off(enc, b, places[n].op + 1) <= i < |b|
        ensures Spares(b, PlaceAt(enc, b, places[n]), i)
      {
        SpillSpared(enc, b, places, n, i);
      }
    } else {
      var i :| 0 <= i < |b| && !InPayload(enc, b, i) && c[i] != b[i];
      ClearAllExact(b, offs, i);
      var n :| 0 <= n < |offs| && !Spares(b, offs[n], i);
      ChunkSpares(enc, b, places[n], i);
      assert !SpillClear(enc, b, places[n]);
    }
  }

  lemma SpillSpared(enc: Encoding, b: seq<byte>, places: seq<Loc>, n: nat, i: nat)
    requires WellFormed(enc, b) && ChunkList(Ops(enc, b), NumOps(b), places) && n < |places|
    requires OutsideKept(enc, b, Cleared(enc, b, places)) && Off(enc, b, places[n].op + 1) <= i < |b|
    ensures Spares(b, PlaceAt(enc, b, places[n]), i)
  {
    hide InPayload, Off, Ops, WellFormed, ClearAll;
    ChunkPlace(enc, b, NumOps(b), places[n]);
    if i < PlaceAt(enc, b, places[n]) + BD_TOUCHED {
      BehindIsOutside(enc, b, places[n].op, i);
      ClearAllExact(b, Offsets(enc, b, places), i);
      assert Spares(b, Offsets(enc, b, places)[n], i);
    }
  }

  lemma ContainedKeepsOutside(enc: Encoding, b: seq<byte>, places: seq<Loc>)
    requires WellFormed(enc, b) && ChunkList(Ops(enc, b), NumOps(b), places) && AllContained(enc, b, places)
    ensures OutsideKept(enc, b, Cleared(enc, b, places))
  {
    hide SpillClear, OutsideKept, ChunkList, WellFormed, Ops;
    forall n | 0 <= n < |places| ensures SpillClear(enc, b, places[n]) {
      assert Contained(enc, b, places[n]);
    }
    SpillExact(enc, b, places);
  }

  lemma HeadersKept(enc: Encoding, b: seq<byte>, c: seq<byte>, k: nat)
    requires WellFormed(enc, b) && OutsideKept(enc, b, c) && k < NumOps(b)
    ensures var p := Off(enc, b, k); SameOn(b, c, p, p + HeaderLen(enc, CodeAt(b, p)))
  {
    hide HeaderLen, WellFormed, Off, LenAt, InPayload;
    var p := Off(enc, b, k);
    forall i | p <= i < p + HeaderLen(enc, CodeAt(b, p)) ensures ByteAt(b, i) == ByteAt(c, i) {
      HeaderIsOutside(enc, b, k, i);
    }
  }

  /** Ten bytes of payload are always room enough. */
  predicate Roomy(ops: seq<Op>, bd: Loc) {
    bd.op < |ops| && ops[bd.op].BlockWrite? && bd.byte + BD_TOUCHED <= |ops[bd.op].payload|
  }

  lemma RoomyIsContained(enc: Encoding, b: seq<byte>, bd: Loc)
    requires WellFormed(enc, b) && Roomy(Ops(enc, b), bd)
    ensures Contained(enc, b, bd)
  {
    hide LenAt, OpAt, OpsTo, Off;
    PayloadPlace(enc, b, bd.op);
  }

  // ----- the untouched part of the buffer -----

  /** Clearing contained chunks of the first k ops changes neither the header nor op k or what follows. */
  lemma PrefixUntouched(enc: Encoding, b: seq<byte>, k: nat, places: seq<Loc>)
    requires WellFormed(enc, b) && k <= NumOps(b)
    requires ChunkList(Ops(enc, b), k, places) && AllContained(enc, b, places)
    ensures var c := Cleared(enc, b, places);
            SameOn(b, c, 0, TXN_HEADER) && SameOn(b, c, Off(enc, b, k), |b|)
  {
    hide Off, Ops, WellFormed, ClearAll, IsChunk;
    var offs, p := Offsets(enc, b, places), Off(enc, b, k);
    forall i | 0 <= i < |b| && (i < TXN_HEADER || p <= i) ensures ClearAll(b, offs)[i] == b[i] {
      forall n | 0 <= n < |offs| ensures Spares(b, offs[n], i) {
        ChunkPlace(enc, b, k, places[n]);
        assert Contained(enc, b, places[n]);
      }
      ClearAllExact(b, offs, i);
    }
  }

  lemma PrefixContained(enc: Encoding, b: seq<byte>, some: seq<Loc>, all: seq<Loc>)
    requires some <= all && AllContained(enc, b, all)
    ensures AllContained(enc, b, some)
  {
    forall i | 0 <= i < |some| ensures Contained(enc, b, some[i]) {
      assert some[i] == all[i];
    }
  }

  /** After k ops the header and everything from op k on is as it was. */
  lemma Untouched(enc: Encoding, env: Env, b: seq<byte>, k: nat)
    requires WellFormed(enc, b) && k <= NumOps(b) && AllContained(enc, b, After(enc, env, Ops(enc, b), k).st.cleared)
    ensures ChunkList(Ops(enc, b), k, After(enc, env, Ops(enc, b), k).st.cleared)
    ensures var c := Cleared(enc, b, After(enc, env, Ops(enc, b), k).st.cleared);
            SameOn(b, c, 0, TXN_HEADER) && SameOn(b, c, Off(enc, b, k), |b|)
  {
    hide WellFormed, OpsTo, Cleared, After, Off;
    PayloadsAreWords(enc, b);
    PlacesAreChunks(enc, env, Ops(enc, b), k);
    PrefixUntouched(enc, b, k, After(enc, env, Ops(enc, b), k).st.cleared);
  }
}
