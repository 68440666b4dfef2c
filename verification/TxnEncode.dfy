/**
 Encoding an abstract program in either format, and the round trip through the walk.  It shows that
 one program can be carried both ways, so the agreement results speak about real buffer pairs.
 */
module TxnEncode {
  import opened Bytes
  import opened TxnLayout

  function Le16(n: nat): (s: seq<byte>) ensures |s| == 2 { [n % 0x100, n / 0x100 % 0x100] }

  function Le24(n: nat): (s: seq<byte>) ensures |s| == 3 { Le16(n % 0x1_0000) + [n / 0x1_0000 % 0x100] }

  function Le32(n: nat): (s: seq<byte>) ensures |s| == 4 { Le24(n % 0x100_0000) + [n / 0x100_0000 % 0x100] }

  function Le64(n: nat): (s: seq<byte>) ensures |s| == 8 { Le32(n % TWO_32) + Le32(n / TWO_32 % TWO_32) }

  function Zeros(n: nat): (s: seq<byte>) ensures |s| == n { seq(n, _ => 0) }

  /** b holds the bytes f at p. */
  ghost predicate Holds(b: seq<byte>, p: nat, f: seq<byte>) {
    p + |f| <= |b| && forall i :: 0 <= i < |f| ==> b[p + i] == f[i]
  }

  lemma HoldsParts(b: seq<byte>, p: nat, f: seq<byte>, g: seq<byte>)
    requires Holds(b, p, f + g)
    ensures Holds(b, p, f) && Holds(b, p + |f|, g)
  {
    forall i | 0 <= i < |f| ensures b[p + i] == f[i] {
      assert (f + g)[i] == f[i];
    }
    forall i | 0 <= i < |g| ensures b[p + |f| + i] == g[i] {
      assert (f + g)[|f| + i] == g[i];
    }
  }

  lemma HoldsSlice(b: seq<byte>, p: nat, f: seq<byte>)
    requires Holds(b, p, f)
    ensures Slice(b, p, p + |f|) == f
  {
  }

  lemma Holds24(b: seq<byte>, p: nat, n: nat)
    requires Holds(b, p, Le24(n)) && n < 0x100_0000
    ensures U24At(b, p) == n
  {
    var f := Le24(n);
    assert f[0] == n % 0x100 && f[1] == n % 0x1_0000 / 0x100 && f[2] == n / 0x1_0000;
  }

  lemma Holds32(b: seq<byte>, p: nat, n: nat)
    requires Holds(b, p, Le32(n)) && n < TWO_32
    ensures U32At(b, p) == n
  {
    hide Le24, U24At;
    var top: seq<byte> := [n / 0x100_0000];
    HoldsParts(b, p, Le24(n % 0x100_0000), top);
    Holds24(b, p, n % 0x100_0000);
    assert top[0] == n / 0x100_0000;
  }

  lemma Holds64(b: seq<byte>, p: nat, n: nat)
    requires Holds(b, p, Le64(n)) && n < TWO_64
    ensures U64At(b, p) == n
  {
    hide Le32, U32At;
    HoldsParts(b, p, Le32(n % TWO_32), Le32(n / TWO_32));
    Holds32(b, p, n % TWO_32);
    Holds32(b, p + 4, n / TWO_32);
  }

  // ----- ops -----

  predicate Encodable(enc: Encoding, op: Op) {
    match op
    case Write(reg, value) => reg < KeySpace(enc) && |value| == 4
    case MaskWrite(reg, mask, value) => reg < KeySpace(enc) && |mask| == 4 && |value| == 4
    case BlockWrite(reg, payload) =>
      reg < KeySpace(enc) && 0 < |payload| && |payload| % 4 == 0 && BwHeader(enc) + |payload| < TWO_32
    case LoadPm(count, id) => count < 0x100_0000 && id < 0x100
    case DdrPatch(regaddr, argidx, argplus) => regaddr < TWO_64 && argidx < TWO_64 && argplus < TWO_64
    case Unknown(_) => false
    case _ => true
  }

  function Pad(enc: Encoding): nat { if enc == Legacy then 7 else 3 }

  function RegBytes(enc: Encoding, reg: nat): seq<byte> { if enc == Legacy then Le64(reg) else Le32(reg) }

  function Custom(code: byte, body: seq<byte>): seq<byte> {
    [code] + Zeros(3) + (Le32(CUSTOM + |body|) + body)
  }

  function EncodeOp(enc: Encoding, op: Op): seq<byte>
    requires Encodable(enc, op)
  {
    match op
    case Write(reg, value) =>
      [IO_WRITE] + Zeros(Pad(enc)) + (RegBytes(enc, reg) + (value + if enc == Legacy then Le32(W32) else []))
    case BlockWrite(reg, payload) =>
      [IO_BLOCKWRITE] + Zeros(Pad(enc)) +
      (RegBytes(enc, reg) + (Le32(BwHeader(enc) + |payload|) + (Zeros(if enc == Legacy then 4 else 0) + payload)))
    case MaskWrite(reg, mask, value) =>
      [IO_MASKWRITE] + Zeros(Pad(enc)) +
      (RegBytes(enc, reg) + (mask + (value + if enc == Legacy then Le32(MW) + Zeros(4) else [])))
    case MaskPoll => [IO_MASKPOLL] + if enc == Legacy then Zeros(23) + (Le32(MP) + Zeros(4)) else Zeros(15)
    case MaskPollBusy => [IO_MASKPOLL_BUSY] + if enc == Legacy then Zeros(23) + (Le32(MP) + Zeros(4)) else Zeros(15)
    case NoOp => [IO_NOOP] + Zeros(3)
    case Preempt => [IO_PREEMPT] + Zeros(3)
    case LoadPm(count, id) => [IO_LOAD_PM_START] + (Le24(count) + ([id] + Zeros(3)))
    case Tct => Custom(IO_CUSTOM_OP_TCT, [])
    case DdrPatch(regaddr, argidx, argplus) =>
      Custom(IO_CUSTOM_OP_DDR_PATCH, Zeros(16) + (Le64(regaddr) + (Le64(argidx) + Le64(argplus))))
    case ReadRegs => Custom(IO_CUSTOM_OP_READ_REGS, [])
    case RecordTimer => Custom(IO_CUSTOM_OP_RECORD_TIMER, [])
    case MergeSync => Custom(IO_CUSTOM_OP_MERGE_SYNC, [])
  }

  /** The known opcodes are those an op can be encoded with. */
  lemma KnownIsEncoded(enc: Encoding, code: byte)
    ensures Known(code) <==> exists op :: EncodedWith(enc, op, code)
  {
    if Known(code) {
      var op := OpWith(enc, code);
    }
    if op :| EncodedWith(enc, op, code) {
      OpcodeKnown(enc, op);
    }
  }

  predicate EncodedWith(enc: Encoding, op: Op, code: byte) {
    Encodable(enc, op) && EncodeOp(enc, op)[0] == code
  }

  lemma OpcodeKnown(enc: Encoding, op: Op)
    requires Encodable(enc, op)
    ensures Known(EncodeOp(enc, op)[0])
  {
    hide Zeros, RegBytes, Le32, Le24, Le64;
  }

  lemma OpWith(enc: Encoding, code: byte) returns (op: Op)
    requires Known(code)
    ensures EncodedWith(enc, op, code)
  {
    hide Zeros, RegBytes, Le32, Le24, Le64;
    var word: seq<byte> := [0, 0, 0, 0];
    op := if code == IO_WRITE then Write(0, word)
          else if code == IO_BLOCKWRITE then BlockWrite(0, word)
          else if code == IO_MASKWRITE then MaskWrite(0, word, word)
          else if code == IO_MASKPOLL then MaskPoll
          else if code == IO_MASKPOLL_BUSY then MaskPollBusy
          else if code == IO_NOOP then NoOp
          else if code == IO_PREEMPT then Preempt
          else if code == IO_LOAD_PM_START then LoadPm(0, 0)
          else if code == IO_CUSTOM_OP_TCT then Tct
          else if code == IO_CUSTOM_OP_DDR_PATCH then DdrPatch(0, 0, 0)
          else if code == IO_CUSTOM_OP_READ_REGS then ReadRegs
          else if code == IO_CUSTOM_OP_RECORD_TIMER then RecordTimer
          else MergeSync;
  }

  /** Where op's encoding stands, the walk finds op and its length. */
  ghost predicate Decodes(enc: Encoding, b: seq<byte>, p: nat, op: Op, n: nat) {
    OpAt(enc, b, p) == op && LenAt(enc, b, p) == n && FitsAt(enc, b, p)
  }

  lemma DecodeCustom(enc: Encoding, b: seq<byte>, p: nat, code: byte, body: seq<byte>)
    requires Holds(b, p, Custom(code, body)) && CUSTOM + |body| < TWO_32 && IsCustom(code)
    ensures CodeAt(b, p) == code && LenAt(enc, b, p) == CUSTOM + |body| && Holds(b, p + CUSTOM, body)
    ensures p + CUSTOM + |body| <= |b|
  {
    hide Le32, U32At;
    HoldsParts(b, p, [code] + Zeros(3), Le32(CUSTOM + |body|) + body);
    HoldsParts(b, p, [code], Zeros(3));
    HoldsParts(b, p + 4, Le32(CUSTOM + |body|), body);
    Holds32(b, p + 4, CUSTOM + |body|);
    assert b[p + 0] == [code][0];
  }

  lemma DecodePatch(enc: Encoding, b: seq<byte>, p: nat, op: Op)
    requires op.DdrPatch? && Encodable(enc, op) && Holds(b, p, EncodeOp(enc, op))
    ensures Decodes(enc, b, p, op, |EncodeOp(enc, op)|)
  {
    hide Le64, U64At, Holds, LenAt;
    var body := Zeros(16) + (Le64(op.regaddr) + (Le64(op.argidx) + Le64(op.argplus)));
    DecodeCustom(enc, b, p, IO_CUSTOM_OP_DDR_PATCH, body);
    HoldsParts(b, p + 8, Zeros(16), Le64(op.regaddr) + (Le64(op.argidx) + Le64(op.argplus)));
    HoldsParts(b, p + 24, Le64(op.regaddr), Le64(op.argidx) + Le64(op.argplus));
    HoldsParts(b, p + 32, Le64(op.argidx), Le64(op.argplus));
    Holds64(b, p + 24, op.regaddr);
    Holds64(b, p + 32, op.argidx);
    Holds64(b, p + 40, op.argplus);
  }

  /** Opcode, padding, register and what follows, in either format. */
  lemma RegisterHeader(enc: Encoding, b: seq<byte>, p: nat, code: byte, reg: nat, rest: seq<byte>)
    requires reg < KeySpace(enc) && Holds(b, p, [code] + Zeros(Pad(enc)) + (RegBytes(enc, reg) + rest))
    ensures CodeAt(b, p) == code
    ensures enc == Legacy ==> U64At(b, p + 8) == reg && Holds(b, p + 16, rest)
    ensures enc == Opt ==> U32At(b, p + 4) == reg && Holds(b, p + 8, rest)
  {
    hide Le64, Le32, U64At, U32At;
    HoldsParts(b, p, [code] + Zeros(Pad(enc)), RegBytes(enc, reg) + rest);
    HoldsParts(b, p, [code], Zeros(Pad(enc)));
    HoldsParts(b, p + 1 + Pad(enc), RegBytes(enc, reg), rest);
    assert b[p + 0] == [code][0];
    if enc == Legacy {
      Holds64(b, p + 8, reg);
    } else {
      Holds32(b, p + 4, reg);
    }
  }

  lemma DecodeWrite(enc: Encoding, b: seq<byte>, p: nat, op: Op)
    requires op.Write? && Encodable(enc, op) && Holds(b, p, EncodeOp(enc, op))
    ensures Decodes(enc, b, p, op, |EncodeOp(enc, op)|)
  {
    hide Le64, Le32, U64At, U32At;
    var tail := if enc == Legacy then Le32(W32) else [];
    RegisterHeader(enc, b, p, IO_WRITE, op.reg, op.value + tail);
    var q := p + if enc == Legacy then 16 else 8;
    HoldsParts(b, q, op.value, tail);
    HoldsSlice(b, q, op.value);
    if enc == Legacy {
      Holds32(b, q + 4, W32);
    }
  }

  lemma DecodeBlockWrite(enc: Encoding, b: seq<byte>, p: nat, op: Op)
    requires op.BlockWrite? && Encodable(enc, op) && Holds(b, p, EncodeOp(enc, op))
    ensures Decodes(enc, b, p, op, |EncodeOp(enc, op)|)
  {
    hide Le64, Le32, U64At, U32At, Holds;
    var size, pad := BwHeader(enc) + |op.payload|, Zeros(if enc == Legacy then 4 else 0);
    RegisterHeader(enc, b, p, IO_BLOCKWRITE, op.reg, Le32(size) + (pad + op.payload));
    var q := p + if enc == Legacy then 16 else 8;
    HoldsParts(b, q, Le32(size), pad + op.payload);
    HoldsParts(b, q + 4, pad, op.payload);
    Holds32(b, q, size);
    HoldsSlice(b, p + BwHeader(enc), op.payload);
  }

  lemma DecodeMaskWrite(enc: Encoding, b: seq<byte>, p: nat, op: Op)
    requires op.MaskWrite? && Encodable(enc, op) && Holds(b, p, EncodeOp(enc, op))
    ensures Decodes(enc, b, p, op, |EncodeOp(enc, op)|)
  {
    hide Le64, Le32, U64At, U32At, Holds;
    var tail := if enc == Legacy then Le32(MW) + Zeros(4) else [];
    RegisterHeader(enc, b, p, IO_MASKWRITE, op.reg, op.mask + (op.value + tail));
    var q := p + if enc == Legacy then 16 else 8;
    HoldsParts(b, q, op.mask, op.value + tail);
    HoldsParts(b, q + 4, op.value, tail);
    HoldsSlice(b, q, op.mask);
    HoldsSlice(b, q + 4, op.value);
    if enc == Legacy {
      HoldsParts(b, q + 8, Le32(MW), Zeros(4));
      Holds32(b, q + 8, MW);
    }
  }

  lemma DecodePoll(enc: Encoding, b: seq<byte>, p: nat, op: Op)
    requires (op.MaskPoll? || op.MaskPollBusy?) && Holds(b, p, EncodeOp(enc, op))
    ensures Decodes(enc, b, p, op, |EncodeOp(enc, op)|)
  {
    hide Le32, U32At;
    var code: byte := if op.MaskPoll? then IO_MASKPOLL else IO_MASKPOLL_BUSY;
    var tail := if enc == Legacy then Zeros(23) + (Le32(MP) + Zeros(4)) else Zeros(15);
    HoldsParts(b, p, [code], tail);
    assert b[p + 0] == [code][0];
    if enc == Legacy {
      HoldsParts(b, p + 1, Zeros(23), Le32(MP) + Zeros(4));
      HoldsParts(b, p + 24, Le32(MP), Zeros(4));
      Holds32(b, p + 24, MP);
    }
  }

  lemma DecodeShort(enc: Encoding, b: seq<byte>, p: nat, op: Op)
    requires (op.NoOp? || op.Preempt? || op.LoadPm?) && Encodable(enc, op) && Holds(b, p, EncodeOp(enc, op))
    ensures Decodes(enc, b, p, op, |EncodeOp(enc, op)|)
  {
    hide Le24, U24At;
    assert b[p + 0] == EncodeOp(enc, op)[0];
    if op.LoadPm? {
      HoldsParts(b, p, [IO_LOAD_PM_START], Le24(op.count) + ([op.id] + Zeros(3)));
      HoldsParts(b, p + 1, Le24(op.count), [op.id] + Zeros(3));
      HoldsParts(b, p + 4, [op.id], Zeros(3));
      Holds24(b, p + 1, op.count);
      assert b[p + 4 + 0] == [op.id][0];
    }
  }

  lemma DecodeOp(enc: Encoding, b: seq<byte>, p: nat, op: Op)
    requires Encodable(enc, op) && Holds(b, p, EncodeOp(enc, op))
    ensures Decodes(enc, b, p, op, |EncodeOp(enc, op)|)
  {
    match op
    case Write(_, _) => DecodeWrite(enc, b, p, op);
    case BlockWrite(_, _) => DecodeBlockWrite(enc, b, p, op);
    case MaskWrite(_, _, _) => DecodeMaskWrite(enc, b, p, op);
    case MaskPoll => DecodePoll(enc, b, p, op);
    case MaskPollBusy => DecodePoll(enc, b, p, op);
    case NoOp => DecodeShort(enc, b, p, op);
    case Preempt => DecodeShort(enc, b, p, op);
    case LoadPm(_, _) => DecodeShort(enc, b, p, op);
    case DdrPatch(_, _, _) => DecodePatch(enc, b, p, op);
    case Tct => DecodeCustom(enc, b, p, IO_CUSTOM_OP_TCT, []);
    case ReadRegs => DecodeCustom(enc, b, p, IO_CUSTOM_OP_READ_REGS, []);
    case RecordTimer => DecodeCustom(enc, b, p, IO_CUSTOM_OP_RECORD_TIMER, []);
    case MergeSync => DecodeCustom(enc, b, p, IO_CUSTOM_OP_MERGE_SYNC, []);
  }

  // ----- streams -----

  ghost predicate AllEncodable(enc: Encoding, ops: seq<Op>) {
    forall k :: 0 <= k < |ops| ==> Encodable(enc, ops[k])
  }

  function EncodeOps(enc: Encoding, ops: seq<Op>, n: nat): seq<byte>
    requires n <= |ops| && forall k :: 0 <= k < n ==> Encodable(enc, ops[k])
  {
    if n == 0 then [] else EncodeOps(enc, ops, n - 1) + EncodeOp(enc, ops[n - 1])
  }

  /** The header; version 1.0 is what selects the optimized walker. */
  function EncodeHeader(enc: Encoding, numCols: byte, numOps: nat, size: nat): (h: seq<byte>)
    ensures |h| == TXN_HEADER
  {
    [if enc == Opt then 1 else 0, if enc == Opt then 0 else 1, 0, 0, numCols, 0, 0, 0] + (Le32(numOps) + Le32(size))
  }

  /** Of all versions a header can begin with, 1.0 alone selects the optimized walker. */
  lemma VersionSelects(b: seq<byte>, major: byte, minor: byte)
    requires Holds(b, 0, [major, minor])
    ensures EncodingOf(b) == Opt <==> major == 1 && minor == 0
  {
    var version: seq<byte> := [major, minor];
    assert b[0] == version[0] && b[1] == version[1];
  }

  ghost function EncodeStream(enc: Encoding, numCols: byte, ops: seq<Op>): seq<byte>
    requires AllEncodable(enc, ops)
  {
    var body := EncodeOps(enc, ops, |ops|);
    EncodeHeader(enc, numCols, |ops|, TXN_HEADER + |body|) + body
  }

  lemma HeaderFields(enc: Encoding, numCols: byte, ops: seq<Op>)
    requires AllEncodable(enc, ops) && |EncodeStream(enc, numCols, ops)| < TWO_32 && |ops| < TWO_32
    ensures var b := EncodeStream(enc, numCols, ops);
            && NumOps(b) == |ops| && U32At(b, TXN_SIZE) == |b|
            && ByteAt(b, TXN_NUM_COLS) == numCols && EncodingOf(b) == enc
  {
    var b, body := EncodeStream(enc, numCols, ops), EncodeOps(enc, ops, |ops|);
    HeaderHolds(enc, numCols, |ops|, TXN_HEADER + |body|, body);
  }

  lemma HeaderHolds(enc: Encoding, numCols: byte, numOps: nat, size: nat, body: seq<byte>)
    requires numOps < TWO_32 && size < TWO_32
    ensures var b := EncodeHeader(enc, numCols, numOps, size) + body;
            && NumOps(b) == numOps && U32At(b, TXN_SIZE) == size
            && ByteAt(b, TXN_NUM_COLS) == numCols && EncodingOf(b) == enc
  {
    hide Le32, U32At;
    var front: seq<byte> := [if enc == Opt then 1 else 0, if enc == Opt then 0 else 1, 0, 0, numCols, 0, 0, 0];
    var b := EncodeHeader(enc, numCols, numOps, size) + body;
    assert b == front + ((Le32(numOps) + Le32(size)) + body);
    HoldsWhole(b);
    HoldsParts(b, 0, front, (Le32(numOps) + Le32(size)) + body);
    HoldsParts(b, 8, Le32(numOps) + Le32(size), body);
    HoldsParts(b, 8, Le32(numOps), Le32(size));
    Holds32(b, 8, numOps);
    Holds32(b, 12, size);
    assert b[0] == front[0] && b[1] == front[1] && b[4] == front[4];
  }

  lemma HoldsWhole(b: seq<byte>)
    ensures Holds(b, 0, b)
  {
  }

  lemma {:induction false} EncodeOpsPrefix(enc: Encoding, ops: seq<Op>, n: nat, m: nat)
    requires AllEncodable(enc, ops) && n <= m <= |ops|
    ensures EncodeOps(enc, ops, n) <= EncodeOps(enc, ops, m)
  {
    hide EncodeOp;
    if n < m {
      EncodeOpsPrefix(enc, ops, n, m - 1);
    }
  }

  lemma OpInStream(enc: Encoding, numCols: byte, ops: seq<Op>, k: nat)
    requires AllEncodable(enc, ops) && k < |ops|
    ensures Holds(EncodeStream(enc, numCols, ops), TXN_HEADER + |EncodeOps(enc, ops, k)|, EncodeOp(enc, ops[k]))
  {
    hide EncodeOp, EncodeHeader, Holds, Encodable;
    EncodeOpsPrefix(enc, ops, k + 1, |ops|);
    var body := EncodeOps(enc, ops, |ops|);
    var header := EncodeHeader(enc, numCols, |ops|, TXN_HEADER + |body|);
    PrefixHolds(header, EncodeOps(enc, ops, k), EncodeOp(enc, ops[k]), body);
  }

  lemma PrefixHolds(header: seq<byte>, before: seq<byte>, op: seq<byte>, body: seq<byte>)
    requires before + op <= body
    ensures Holds(header + body, |header| + |before|, op)
  {
    forall i | 0 <= i < |op| ensures (header + body)[|header| + |before| + i] == op[i] {
      assert body[|before| + i] == (before + op)[|before| + i];
    }
  }

  lemma {:induction false} StreamOffsets(enc: Encoding, numCols: byte, ops: seq<Op>, k: nat)
    requires AllEncodable(enc, ops) && k <= |ops|
    ensures Off(enc, EncodeStream(enc, numCols, ops), k) == TXN_HEADER + |EncodeOps(enc, ops, k)|
  {
    hide EncodeOp, LenAt, OpAt, FitsAt, EncodeStream;
    if k > 0 {
      StreamOffsets(enc, numCols, ops, k - 1);
      OpInStream(enc, numCols, ops, k - 1);
      DecodeOp(enc, EncodeStream(enc, numCols, ops), Off(enc, EncodeStream(enc, numCols, ops), k - 1), ops[k - 1]);
    }
  }

  /** Round trip: an encoded program is a well-formed stream of its encoding with exactly its ops. */
  lemma StreamRoundTrip(enc: Encoding, numCols: byte, ops: seq<Op>)
    requires AllEncodable(enc, ops) && |EncodeStream(enc, numCols, ops)| < TWO_32 && |ops| < TWO_32
    ensures var b := EncodeStream(enc, numCols, ops);
            && WellFormed(enc, b) && EncodingOf(b) == enc && U32At(b, TXN_SIZE) == |b|
            && Ops(enc, b) == ops
  {
    hide EncodeOp, OpAt, LenAt, FitsAt, EncodeStream, Off, EncodeOps;
    var b := EncodeStream(enc, numCols, ops);
    HeaderFields(enc, numCols, ops);
    StreamLongEnough(enc, numCols, ops);
    forall k | 0 <= k < |ops| ensures FitsAt(enc, b, Off(enc, b, k)) && Ops(enc, b)[k] == ops[k] {
      StreamOffsets(enc, numCols, ops, k);
      OpInStream(enc, numCols, ops, k);
      DecodeOp(enc, b, Off(enc, b, k), ops[k]);
      OpsToAt(enc, b, |ops|, k);
    }
  }

  lemma StreamLongEnough(enc: Encoding, numCols: byte, ops: seq<Op>)
    requires AllEncodable(enc, ops)
    ensures |EncodeStream(enc, numCols, ops)| >= TXN_HEADER
  {
  }

  lemma OpLength(enc: Encoding, op: Op)
    requires Encodable(enc, op)
    ensures |EncodeOp(enc, op)| <= 48 + if op.BlockWrite? then |op.payload| else 0
  {
  }

  lemma {:induction false} SmallOps(enc: Encoding, ops: seq<Op>, n: nat)
    requires AllEncodable(enc, ops) && n <= |ops|
    requires forall k :: 0 <= k < |ops| && ops[k].BlockWrite? ==> |ops[k].payload| <= 64
    ensures |EncodeOps(enc, ops, n)| <= 112 * n
  {
    hide EncodeOp;
    if n > 0 {
      SmallOps(enc, ops, n - 1);
      OpLength(enc, ops[n - 1]);
    }
  }

  /** A short program with at most two BDs a block-write is always short enough to encode. */
  lemma SmallStream(enc: Encoding, numCols: byte, ops: seq<Op>)
    requires AllEncodable(enc, ops) && |ops| <= 8
    requires forall k :: 0 <= k < |ops| && ops[k].BlockWrite? ==> |ops[k].payload| <= 64
    ensures |EncodeStream(enc, numCols, ops)| < TWO_32
    ensures WellFormed(enc, EncodeStream(enc, numCols, ops)) && Ops(enc, EncodeStream(enc, numCols, ops)) == ops
    ensures EncodingOf(EncodeStream(enc, numCols, ops)) == enc
  {
    hide EncodeOps, EncodeOp, WellFormed, OpsTo, EncodeHeader;
    SmallOps(enc, ops, |ops|);
    StreamRoundTrip(enc, numCols, ops);
  }
}
