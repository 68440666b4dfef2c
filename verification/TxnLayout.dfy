/**
 The packed transaction stream: opcodes, header layouts and the walk over the ops.

 The structures belong to the AIE driver, whose headers are not part of this model.  The opcode
 numbers, structure sizes and field offsets below are named constants; what the proofs need of
 them is that the opcodes differ, that every field lies inside its header, and that the four
 custom opcodes TCT, DDR_PATCH, READ_REGS and RECORD_TIMER are CUSTOM_OP_BEGIN + 0..3.
 */
module TxnLayout {
  import opened Bytes

  /** The legacy stream and the "optimized" one (header version 1.0). */
  datatype Encoding = Legacy | Opt

  // ----- opcodes -----
  const IO_WRITE: nat := 0
  const IO_BLOCKWRITE: nat := 1
  const IO_MASKWRITE: nat := 3
  const IO_MASKPOLL: nat := 4
  const IO_NOOP: nat := 5
  const IO_PREEMPT: nat := 6
  const IO_MASKPOLL_BUSY: nat := 7
  const IO_LOAD_PM_START: nat := 9
  const IO_CUSTOM_OP_BEGIN: nat := 128
  const IO_CUSTOM_OP_TCT: nat := IO_CUSTOM_OP_BEGIN
  const IO_CUSTOM_OP_DDR_PATCH: nat := IO_CUSTOM_OP_BEGIN + 1
  const IO_CUSTOM_OP_READ_REGS: nat := IO_CUSTOM_OP_BEGIN + 2
  const IO_CUSTOM_OP_RECORD_TIMER: nat := IO_CUSTOM_OP_BEGIN + 3
  const IO_CUSTOM_OP_MERGE_SYNC: nat := IO_CUSTOM_OP_BEGIN + 4
  const IO_CUSTOM_OP_NEXT: nat := IO_CUSTOM_OP_BEGIN + 5

  // ----- transaction header -----
  const TXN_HEADER: nat := 16
  const TXN_MAJOR: nat := 0
  const TXN_MINOR: nat := 1
  const TXN_NUM_COLS: nat := 4
  const TXN_NUM_OPS: nat := 8
  const TXN_SIZE: nat := 12

  // ----- legacy headers: 64-bit register offsets and an explicit Size in every header -----
  const W32: nat := 24
  const W32_REG: nat := 8
  const W32_VALUE: nat := 16
  const W32_SIZE: nat := 20
  const BW: nat := 24
  const BW_REG: nat := 8
  const BW_SIZE: nat := 16
  const MW: nat := 32
  const MW_REG: nat := 8
  const MW_MASK: nat := 16
  const MW_VALUE: nat := 20
  const MW_SIZE: nat := 24
  const MP: nat := 32
  const MP_SIZE: nat := 24
  const CUSTOM: nat := 8
  const CUSTOM_SIZE: nat := 4

  // ----- optimized headers: 32-bit register offsets, Size only where the length varies -----
  const W32_OPT: nat := 12
  const W32_OPT_REG: nat := 4
  const W32_OPT_VALUE: nat := 8
  const BW_OPT: nat := 12
  const BW_OPT_REG: nat := 4
  const BW_OPT_SIZE: nat := 8
  const MW_OPT: nat := 16
  const MW_OPT_REG: nat := 4
  const MW_OPT_MASK: nat := 8
  const MW_OPT_VALUE: nat := 12
  const MP_OPT: nat := 16
  const CUSTOM_OPT: nat := 8
  const CUSTOM_OPT_SIZE: nat := 4

  // ----- headers the two encodings share -----
  const NOOP: nat := 4
  const PREEMPT: nat := 4
  const PMLOAD: nat := 8
  const PMLOAD_COUNT: nat := 1
  const PMLOAD_ID: nat := 4

  // ----- patch_op_t, which follows the custom-op header -----
  const PATCH_OP: nat := 40
  const PATCH_REGADDR: nat := 16
  const PATCH_ARGIDX: nat := 24
  const PATCH_ARGPLUS: nat := 32

  /** One decoded op.  Register values and payloads are kept as their little-endian bytes. */
  datatype Op =
    | Write(reg: nat, value: seq<byte>)
    | BlockWrite(reg: nat, payload: seq<byte>)
    | MaskWrite(reg: nat, mask: seq<byte>, value: seq<byte>)
    | MaskPoll
    | MaskPollBusy
    | NoOp
    | Preempt
    | LoadPm(count: nat, id: nat)
    | Tct
    | DdrPatch(regaddr: nat, argidx: nat, argplus: nat)
    | ReadRegs
    | RecordTimer
    | MergeSync
    | Unknown(code: nat)

  /** Registers are 64-bit keys in the legacy walker's map and 32-bit keys in the other's. */
  function KeySpace(enc: Encoding): (w: nat)
    ensures w == TWO_32 || w == TWO_64
  {
    match enc
    case Legacy => TWO_64
    case Opt => TWO_32
  }

  function BwHeader(enc: Encoding): nat {
    match enc
    case Legacy => BW
    case Opt => BW_OPT
  }

  function CustomHeader(enc: Encoding): nat {
    match enc
    case Legacy => CUSTOM
    case Opt => CUSTOM_OPT
  }

  /** Opcode of the op that starts at p. */
  function CodeAt(b: seq<byte>, p: nat): nat { ByteAt(b, p) }

  predicate IsCustom(code: nat) {
    IO_CUSTOM_OP_BEGIN <= code < IO_CUSTOM_OP_NEXT
  }

  predicate Known(code: nat) {
    || code == IO_WRITE || code == IO_BLOCKWRITE || code == IO_MASKWRITE
    || code == IO_MASKPOLL || code == IO_MASKPOLL_BUSY
    || code == IO_NOOP || code == IO_PREEMPT || code == IO_LOAD_PM_START
    || IsCustom(code)
  }

  /** Fixed part of an op: the bytes its header fields are read from. */
  function HeaderLen(enc: Encoding, code: nat): nat {
    if code == IO_WRITE then (if enc == Legacy then W32 else W32_OPT)
    else if code == IO_BLOCKWRITE then BwHeader(enc)
    else if code == IO_MASKWRITE then (if enc == Legacy then MW else MW_OPT)
    else if code == IO_MASKPOLL || code == IO_MASKPOLL_BUSY then (if enc == Legacy then MP else MP_OPT)
    else if code == IO_NOOP then NOOP
    else if code == IO_PREEMPT then PREEMPT
    else if code == IO_LOAD_PM_START then PMLOAD
    else if code == IO_CUSTOM_OP_DDR_PATCH then CustomHeader(enc) + PATCH_OP
    else if IsCustom(code) then CustomHeader(enc)
    else 1
  }

  /** How far a walker that has read opcode `code` at p moves: its Size field is read when it moves. */
  function LenFor(enc: Encoding, code: nat, b: seq<byte>, p: nat): nat {
    if code == IO_WRITE then (if enc == Legacy then U32At(b, p + W32_SIZE) else W32_OPT)
    else if code == IO_BLOCKWRITE then U32At(b, p + (if enc == Legacy then BW_SIZE else BW_OPT_SIZE))
    else if code == IO_MASKWRITE then (if enc == Legacy then U32At(b, p + MW_SIZE) else MW_OPT)
    else if code == IO_MASKPOLL || code == IO_MASKPOLL_BUSY then
      (if enc == Legacy then U32At(b, p + MP_SIZE) else MP_OPT)
    else if code == IO_NOOP then NOOP
    else if code == IO_PREEMPT then PREEMPT
    else if code == IO_LOAD_PM_START then PMLOAD
    else if IsCustom(code) then U32At(b, p + (if enc == Legacy then CUSTOM_SIZE else CUSTOM_OPT_SIZE))
    else 0
  }

  /** Length of the op at p; an unknown opcode stops every walker. */
  function LenAt(enc: Encoding, b: seq<byte>, p: nat): nat { LenFor(enc, CodeAt(b, p), b, p) }

  function WriteAt(enc: Encoding, b: seq<byte>, p: nat): (op: Op)
    ensures op.Write?
  {
    match enc
    case Legacy => Write(U64At(b, p + W32_REG), Slice(b, p + W32_VALUE, p + W32_VALUE + 4))
    case Opt => Write(U32At(b, p + W32_OPT_REG), Slice(b, p + W32_OPT_VALUE, p + W32_OPT_VALUE + 4))
  }

  function BlockWriteRegAt(enc: Encoding, b: seq<byte>, p: nat): (reg: nat)
    ensures reg < KeySpace(enc)
  {
    match enc
    case Legacy => U64At(b, p + BW_REG)
    case Opt => U32At(b, p + BW_OPT_REG)
  }

  function MaskWriteAt(enc: Encoding, b: seq<byte>, p: nat): (op: Op)
    ensures op.MaskWrite?
  {
    match enc
    case Legacy =>
      MaskWrite(U64At(b, p + MW_REG), Slice(b, p + MW_MASK, p + MW_MASK + 4),
                Slice(b, p + MW_VALUE, p + MW_VALUE + 4))
    case Opt =>
      MaskWrite(U32At(b, p + MW_OPT_REG), Slice(b, p + MW_OPT_MASK, p + MW_OPT_MASK + 4),
                Slice(b, p + MW_OPT_VALUE, p + MW_OPT_VALUE + 4))
  }

  function PatchAt(b: seq<byte>, q: nat): (op: Op)
    ensures op.DdrPatch?
  {
    DdrPatch(U64At(b, q + PATCH_REGADDR), U64At(b, q + PATCH_ARGIDX), U64At(b, q + PATCH_ARGPLUS))
  }

  /** The op that starts at p. */
  function OpAt(enc: Encoding, b: seq<byte>, p: nat): Op {
    var code := CodeAt(b, p);
    if code == IO_WRITE then WriteAt(enc, b, p)
    else if code == IO_BLOCKWRITE then
      BlockWrite(BlockWriteRegAt(enc, b, p), Slice(b, p + BwHeader(enc), p + LenAt(enc, b, p)))
    else if code == IO_MASKWRITE then MaskWriteAt(enc, b, p)
    else if code == IO_MASKPOLL then MaskPoll
    else if code == IO_MASKPOLL_BUSY then MaskPollBusy
    else if code == IO_NOOP then NoOp
    else if code == IO_PREEMPT then Preempt
    else if code == IO_LOAD_PM_START then LoadPm(U24At(b, p + PMLOAD_COUNT), ByteAt(b, p + PMLOAD_ID))
    else if code == IO_CUSTOM_OP_TCT then Tct
    else if code == IO_CUSTOM_OP_DDR_PATCH then PatchAt(b, p + CustomHeader(enc))
    else if code == IO_CUSTOM_OP_READ_REGS then ReadRegs
    else if code == IO_CUSTOM_OP_RECORD_TIMER then RecordTimer
    else if code == IO_CUSTOM_OP_MERGE_SYNC then MergeSync
    else Unknown(code)
  }

  /**
   An op is well formed at p when its header is inside the buffer, its Size covers the header and
   stays inside, and a block-write carries at least one whole word and nothing but whole words.
   */
  predicate FitsAt(enc: Encoding, b: seq<byte>, p: nat) {
    && p + HeaderLen(enc, CodeAt(b, p)) <= |b|
    && (Known(CodeAt(b, p)) ==>
          HeaderLen(enc, CodeAt(b, p)) <= LenAt(enc, b, p) && p + LenAt(enc, b, p) <= |b|)
    && (CodeAt(b, p) == IO_BLOCKWRITE ==>
          LenAt(enc, b, p) > BwHeader(enc) && (LenAt(enc, b, p) - BwHeader(enc)) % 4 == 0)
  }

  /** Offset of op k: the ops follow the header and one another. */
  function Off(enc: Encoding, b: seq<byte>, k: nat): (p: nat)
    ensures TXN_HEADER <= p
  {
    if k == 0 then TXN_HEADER
    else var p := Off(enc, b, k - 1); p + LenAt(enc, b, p)
  }

  function NumOps(b: seq<byte>): nat { U32At(b, TXN_NUM_OPS) }

  function OpsTo(enc: Encoding, b: seq<byte>, n: nat): (ops: seq<Op>)
    ensures |ops| == n
  {
    if n == 0 then [] else OpsTo(enc, b, n - 1) + [OpAt(enc, b, Off(enc, b, n - 1))]
  }

  /** The ops of a stream, in order. */
  function Ops(enc: Encoding, b: seq<byte>): (ops: seq<Op>)
    ensures |ops| == NumOps(b)
  {
    OpsTo(enc, b, NumOps(b))
  }

  /** A well-formed stream: the header is there and the ops tile what follows it. */
  predicate WellFormed(enc: Encoding, b: seq<byte>) {
    && TXN_HEADER <= |b| < TWO_32
    && forall k :: 0 <= k < NumOps(b) ==> FitsAt(enc, b, Off(enc, b, k))
  }

  /** Where op k's block-write payload starts. */
  function PayloadAt(enc: Encoding, b: seq<byte>, k: nat): nat {
    Off(enc, b, k) + BwHeader(enc)
  }

  /** Which of the two walkers a buffer selects: version 1.0 is the optimized encoding. */
  function EncodingOf(b: seq<byte>): Encoding {
    if ByteAt(b, TXN_MAJOR) == 1 && ByteAt(b, TXN_MINOR) == 0 then Opt else Legacy
  }

  // ----- facts about the walk -----

  lemma {:induction false} OpsToAt(enc: Encoding, b: seq<byte>, n: nat, k: nat)
    requires k < n
    ensures OpsTo(enc, b, n)[k] == OpAt(enc, b, Off(enc, b, k))
  {
    hide OpAt, Off;
    if k < n - 1 {
      OpsToAt(enc, b, n - 1, k);
    }
  }

  lemma {:induction false} OffMonotone(enc: Encoding, b: seq<byte>, j: nat, k: nat)
    requires j <= k
    ensures Off(enc, b, j) <= Off(enc, b, k)
  {
    hide LenAt;
    if j < k {
      OffMonotone(enc, b, j, k - 1);
    }
  }

  lemma BlockWriteFits(enc: Encoding, b: seq<byte>, p: nat)
    requires FitsAt(enc, b, p) && OpAt(enc, b, p).BlockWrite?
    ensures CodeAt(b, p) == IO_BLOCKWRITE
    ensures p + BwHeader(enc) + 4 <= p + LenAt(enc, b, p) <= |b|
    ensures (LenAt(enc, b, p) - BwHeader(enc)) % 4 == 0
    ensures OpAt(enc, b, p).payload == b[p + BwHeader(enc)..p + LenAt(enc, b, p)]
  {
  }

  /** A well-formed block-write's payload is the bytes between its header and the next op. */
  lemma PayloadPlace(enc: Encoding, b: seq<byte>, k: nat)
    requires WellFormed(enc, b) && k < NumOps(b) && Ops(enc, b)[k].BlockWrite?
    ensures PayloadAt(enc, b, k) + |Ops(enc, b)[k].payload| == Off(enc, b, k + 1) <= |b|
    ensures Ops(enc, b)[k].payload == b[PayloadAt(enc, b, k)..Off(enc, b, k + 1)]
    ensures |Ops(enc, b)[k].payload| >= 4 && |Ops(enc, b)[k].payload| % 4 == 0
    ensures CodeAt(b, Off(enc, b, k)) == IO_BLOCKWRITE
  {
    hide OpAt, LenAt, FitsAt, OpsTo, U32At;
    var p := Off(enc, b, k);
    assert FitsAt(enc, b, Off(enc, b, k));
    OpsToAt(enc, b, NumOps(b), k);
    BlockWriteFits(enc, b, p);
    assert Off(enc, b, k + 1) == p + LenAt(enc, b, p);
  }

  /** Every op, and every prefix of the walk, ends inside a well-formed buffer. */
  lemma {:induction false} OffInside(enc: Encoding, b: seq<byte>, k: nat)
    requires WellFormed(enc, b) && k <= NumOps(b)
    ensures Off(enc, b, k) <= |b|
  {
    if k > 0 {
      OffInside(enc, b, k - 1);
      assert FitsAt(enc, b, Off(enc, b, k - 1));
    }
  }

  // ----- what a decoded op depends on -----

  ghost predicate SameOn(b: seq<byte>, c: seq<byte>, lo: nat, hi: nat) {
    |b| == |c| && forall i: nat :: lo <= i < hi ==> ByteAt(b, i) == ByteAt(c, i)
  }

  lemma SameWord(b: seq<byte>, c: seq<byte>, lo: nat, hi: nat, i: nat)
    requires SameOn(b, c, lo, hi) && lo <= i && i + 4 <= hi
    ensures U32At(b, i) == U32At(c, i)
  {
  }

  lemma SameSlice(b: seq<byte>, c: seq<byte>, lo: nat, hi: nat)
    requires SameOn(b, c, lo, hi)
    ensures Slice(b, lo, hi) == Slice(c, lo, hi)
  {
    if lo <= hi <= |b| {
      forall i | lo <= i < hi ensures b[i] == c[i] {
        assert ByteAt(b, i) == ByteAt(c, i);
      }
      assert b[lo..hi] == c[lo..hi];
    }
  }

  /** The opcode and the length of an op depend only on its header bytes. */
  lemma HeaderDecidesLength(enc: Encoding, b: seq<byte>, c: seq<byte>, p: nat)
    requires SameOn(b, c, p, p + HeaderLen(enc, CodeAt(b, p)))
    ensures CodeAt(b, p) == CodeAt(c, p) && LenAt(enc, b, p) == LenAt(enc, c, p)
    ensures FitsAt(enc, b, p) == FitsAt(enc, c, p)
  {
    assert ByteAt(b, p) == ByteAt(c, p);
  }

  lemma MaskWriteDecided(enc: Encoding, b: seq<byte>, c: seq<byte>, p: nat)
    requires SameOn(b, c, p, p + HeaderLen(enc, IO_MASKWRITE))
    ensures MaskWriteAt(enc, b, p) == MaskWriteAt(enc, c, p)
  {
    var m := p + if enc == Legacy then MW_MASK else MW_OPT_MASK;
    SameSlice(b, c, m, m + 4);
    SameSlice(b, c, m + 4, m + 8);
  }

  lemma WriteDecided(enc: Encoding, b: seq<byte>, c: seq<byte>, p: nat)
    requires SameOn(b, c, p, p + HeaderLen(enc, IO_WRITE))
    ensures WriteAt(enc, b, p) == WriteAt(enc, c, p)
  {
    var v := p + if enc == Legacy then W32_VALUE else W32_OPT_VALUE;
    SameSlice(b, c, v, v + 4);
  }

  lemma PatchDecided(b: seq<byte>, c: seq<byte>, q: nat)
    requires SameOn(b, c, q, q + PATCH_OP)
    ensures PatchAt(b, q) == PatchAt(c, q)
  {
  }

  /** All of an op but a block-write's payload depends only on its header bytes. */
  lemma HeaderDecidesOp(enc: Encoding, b: seq<byte>, c: seq<byte>, p: nat)
    requires SameOn(b, c, p, p + HeaderLen(enc, CodeAt(b, p)))
    ensures CodeAt(b, p) == IO_BLOCKWRITE ==> BlockWriteRegAt(enc, b, p) == BlockWriteRegAt(enc, c, p)
    ensures CodeAt(b, p) != IO_BLOCKWRITE ==> OpAt(enc, b, p) == OpAt(enc, c, p)
  {
    hide WriteAt, MaskWriteAt, PatchAt, LenAt;
    HeaderDecidesLength(enc, b, c, p);
    var code := CodeAt(b, p);
    if code == IO_WRITE {
      WriteDecided(enc, b, c, p);
    } else if code == IO_MASKWRITE {
      MaskWriteDecided(enc, b, c, p);
    } else if code == IO_CUSTOM_OP_DDR_PATCH {
      PatchDecided(b, c, p + CustomHeader(enc));
    }
  }

  /** Buffers that agree from p on decode to the same op there. */
  lemma SuffixDecidesOp(enc: Encoding, b: seq<byte>, c: seq<byte>, p: nat)
    requires FitsAt(enc, b, p) && SameOn(b, c, p, |b|)
    ensures OpAt(enc, b, p) == OpAt(enc, c, p)
    ensures CodeAt(b, p) == CodeAt(c, p) && LenAt(enc, b, p) == LenAt(enc, c, p)
    ensures FitsAt(enc, c, p)
  {
    hide LenAt, WriteAt, MaskWriteAt, PatchAt, BlockWriteRegAt, HeaderLen;
    HeaderDecidesLength(enc, b, c, p);
    HeaderDecidesOp(enc, b, c, p);
    if CodeAt(b, p) == IO_BLOCKWRITE {
      SameSlice(b, c, p + BwHeader(enc), p + LenAt(enc, b, p));
    }
  }

  // ----- reading an op by its opcode -----

  /** Op at p begins inside the buffer, header and all. */
  predicate HeaderInside(enc: Encoding, b: seq<byte>, p: nat) { p + HeaderLen(enc, CodeAt(b, p)) <= |b| }

  /** What each legacy opcode's header says: the op, its length and the fields the walkers read. */
  lemma LegacyShape(b: seq<byte>, p: nat)
    requires HeaderInside(Legacy, b, p)
    ensures p < |b| && CodeAt(b, p) == b[p]
    ensures var op, code := OpAt(Legacy, b, p), CodeAt(b, p);
            && (op.BlockWrite? <==> code == IO_BLOCKWRITE) && (op.BlockWrite? ==> op.reg == U64At(b, p + BW_REG))
            && (op.DdrPatch? <==> code == IO_CUSTOM_OP_DDR_PATCH) && (op.DdrPatch? ==> op == PatchAt(b, p + CUSTOM))
            && (op.LoadPm? <==> code == IO_LOAD_PM_START)
            && (op.LoadPm? ==> p + PMLOAD <= |b| && op == LoadPm(U24At(b, p + PMLOAD_COUNT), b[p + PMLOAD_ID]))
            && (op.Unknown? <==> !Known(code)) && (op.Unknown? ==> op.code == code)
  {
    hide U32At, U64At, U24At, LenAt;
  }

  /** The same for the optimized headers. */
  lemma OptShape(b: seq<byte>, p: nat)
    requires HeaderInside(Opt, b, p)
    ensures p < |b| && CodeAt(b, p) == b[p]
    ensures var op, code := OpAt(Opt, b, p), CodeAt(b, p);
            && (op.BlockWrite? <==> code == IO_BLOCKWRITE) && (op.BlockWrite? ==> op.reg == U32At(b, p + BW_OPT_REG))
            && (op.DdrPatch? <==> code == IO_CUSTOM_OP_DDR_PATCH) && (op.DdrPatch? ==> op == PatchAt(b, p + CUSTOM_OPT))
            && (op.LoadPm? <==> code == IO_LOAD_PM_START)
            && (op.LoadPm? ==> p + PMLOAD <= |b| && op == LoadPm(U24At(b, p + PMLOAD_COUNT), b[p + PMLOAD_ID]))
            && (op.Unknown? <==> !Known(code)) && (op.Unknown? ==> op.code == code)
  {
    hide U32At, U64At, U24At, LenAt;
  }
}
