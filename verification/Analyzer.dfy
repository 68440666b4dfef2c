/**
 The analyzer's walkers: they count and list the ops of a stream with decoders of their own, usually
 on the patched section, and see exactly the ops the preprocessor saw.
 */
module Analyzer {
  import opened Bytes
  import opened TxnLayout
  import opened TxnMachine
  import opened TxnRuns
  import opened ByteWalk
  import opened TransactionInput
  import opened WalkRefinement
  import opened PatchSafety

  function CodeOf(enc: Encoding, b: seq<byte>, k: nat): nat { CodeAt(b, Off(enc, b, k)) }

  /** How many of the first n ops have opcode c. */
  function CountOf(enc: Encoding, b: seq<byte>, n: nat, c: nat): nat {
    if n == 0 then 0 else CountOf(enc, b, n - 1, c) + if CodeOf(enc, b, n - 1) == c then 1 else 0
  }

  ghost predicate AllKnown(enc: Encoding, b: seq<byte>, n: nat) {
    forall k :: 0 <= k < n ==> Known(CodeOf(enc, b, k))
  }

  /** The counters after the first n ops, started from `before`. */
  ghost predicate Counted(enc: Encoding, b: seq<byte>, n: nat, before: seq<nat>, after: seq<nat>) {
    |after| == |before| && forall c :: 0 <= c < |before| ==> after[c] == before[c] + CountOf(enc, b, n, c)
  }

  // ----- the listing -----

  /** The numbers a line of the listing shows. */
  datatype Text =
    | WriteText(reg: nat, value: nat)
    | BlockWriteText(reg: nat, words: seq<nat>)
    | MaskWriteText(reg: nat, mask: nat, value: nat)
    | PollText(busy: bool)
    | NoOpText
    | PreemptText
    | LoadPmText(count: nat, id: nat)
    | TctText
    | PatchText(regaddr: nat, argidx: nat, argplus: nat)
    | ReadText
    | TimerText
    | MergeSyncText
    | NoText

  /** One line of the listing: where the op is and what it shows. */
  datatype Line = Line(at: nat, text: Text)

  function WordsOf(payload: seq<byte>): (words: seq<nat>)
    ensures |words| == |payload| / 4
  {
    seq(|payload| / 4, i requires 0 <= i => U32At(payload, 4 * i))
  }

  /** What the listing must show of an op the preprocessor has decoded. */
  function OpText(op: Op): Text {
    match op
    case Write(reg, value) => WriteText(reg, U32At(value, 0))
    case BlockWrite(reg, payload) => BlockWriteText(reg, WordsOf(payload))
    case MaskWrite(reg, mask, value) => MaskWriteText(reg, U32At(mask, 0), U32At(value, 0))
    case MaskPoll => PollText(false)
    case MaskPollBusy => PollText(true)
    case NoOp => NoOpText
    case Preempt => PreemptText
    case LoadPm(count, id) => LoadPmText(count, id)
    case Tct => TctText
    case DdrPatch(regaddr, argidx, argplus) => PatchText(regaddr, argidx, argplus)
    case ReadRegs => ReadText
    case RecordTimer => TimerText
    case MergeSync => MergeSyncText
    case Unknown(_) => NoText
  }

  function LinesTo(enc: Encoding, b: seq<byte>, n: nat): (lines: seq<Line>)
    ensures |lines| == n
  {
    if n == 0 then []
    else var p := Off(enc, b, n - 1); LinesTo(enc, b, n - 1) + [Line(p, OpText(OpAt(enc, b, p)))]
  }

  /** Payload words, read from the buffer instead of the payload. */
  function WordsAt(b: seq<byte>, p: nat, n: nat): (words: seq<nat>)
    ensures |words| == n
  {
    if n == 0 then [] else WordsAt(b, p, n - 1) + [U32At(b, p + 4 * (n - 1))]
  }

  lemma {:induction false} WordsAtIs(b: seq<byte>, p: nat, n: nat, i: nat)
    requires i < n
    ensures WordsAt(b, p, n)[i] == U32At(b, p + 4 * i)
  {
    hide U32At;
    if i < n - 1 {
      WordsAtIs(b, p, n - 1, i);
    }
  }

  lemma PayloadText(b: seq<byte>, lo: nat, hi: nat)
    requires lo <= hi <= |b|
    ensures WordsOf(Slice(b, lo, hi)) == WordsAt(b, lo, (hi - lo) / 4)
  {
    hide U32At;
    var words := WordsOf(Slice(b, lo, hi));
    forall i | 0 <= i < |words| ensures words[i] == WordsAt(b, lo, (hi - lo) / 4)[i] {
      WordOfSlice(b, lo, hi, 4 * i);
      WordsAtIs(b, lo, (hi - lo) / 4, i);
    }
  }

  /** The texts of the legacy headers, field by field. */
  lemma LegacyText(b: seq<byte>, p: nat)
    requires FitsAt(Legacy, b, p)
    ensures var text, code := OpText(OpAt(Legacy, b, p)), CodeAt(b, p);
            && (code == IO_WRITE ==> text == WriteText(U64At(b, p + W32_REG), U32At(b, p + W32_VALUE)))
            && (code == IO_BLOCKWRITE ==>
                  && LenAt(Legacy, b, p) >= BW
                  && text == BlockWriteText(U64At(b, p + BW_REG), WordsAt(b, p + BW, (LenAt(Legacy, b, p) - BW) / 4)))
            && (code == IO_MASKWRITE ==>
                  text == MaskWriteText(U64At(b, p + MW_REG), U32At(b, p + MW_MASK), U32At(b, p + MW_VALUE)))
    ensures FieldlessText(b, p, OpText(OpAt(Legacy, b, p)), p + CUSTOM)
  {
    hide U32At, U64At, U24At, WordsOf, WordsAt;
    var code := CodeAt(b, p);
    if code == IO_WRITE {
      WordOfSlice(b, p + W32_VALUE, p + W32_VALUE + 4, 0);
    } else if code == IO_BLOCKWRITE {
      PayloadText(b, p + BW, p + LenAt(Legacy, b, p));
    } else if code == IO_MASKWRITE {
      WordOfSlice(b, p + MW_MASK, p + MW_MASK + 4, 0);
      WordOfSlice(b, p + MW_VALUE, p + MW_VALUE + 4, 0);
    }
  }

  /** The same for the optimized headers. */
  lemma OptText(b: seq<byte>, p: nat)
    requires FitsAt(Opt, b, p)
    ensures var text, code := OpText(OpAt(Opt, b, p)), CodeAt(b, p);
            && (code == IO_WRITE ==> text == WriteText(U32At(b, p + W32_OPT_REG), U32At(b, p + W32_OPT_VALUE)))
            && (code == IO_BLOCKWRITE ==>
                  && LenAt(Opt, b, p) >= BW_OPT
                  && text == BlockWriteText(U32At(b, p + BW_OPT_REG),
                                            WordsAt(b, p + BW_OPT, (LenAt(Opt, b, p) - BW_OPT) / 4)))
            && (code == IO_MASKWRITE ==>
                  text == MaskWriteText(U32At(b, p + MW_OPT_REG), U32At(b, p + MW_OPT_MASK),
                                        U32At(b, p + MW_OPT_VALUE)))
    ensures FieldlessText(b, p, OpText(OpAt(Opt, b, p)), p + CUSTOM_OPT)
  {
    hide U32At, U64At, U24At, WordsOf, WordsAt;
    var code := CodeAt(b, p);
    if code == IO_WRITE {
      WordOfSlice(b, p + W32_OPT_VALUE, p + W32_OPT_VALUE + 4, 0);
    } else if code == IO_BLOCKWRITE {
      PayloadText(b, p + BW_OPT, p + LenAt(Opt, b, p));
    } else if code == IO_MASKWRITE {
      WordOfSlice(b, p + MW_OPT_MASK, p + MW_OPT_MASK + 4, 0);
      WordOfSlice(b, p + MW_OPT_VALUE, p + MW_OPT_VALUE + 4, 0);
    }
  }

  /** The texts of the ops whose headers the two encodings share; a patch stands at q. */
  predicate FieldlessText(b: seq<byte>, p: nat, text: Text, q: nat) {
    var code := CodeAt(b, p);
    && (code == IO_MASKPOLL ==> text == PollText(false))
    && (code == IO_MASKPOLL_BUSY ==> text == PollText(true))
    && (code == IO_NOOP ==> text == NoOpText)
    && (code == IO_PREEMPT ==> text == PreemptText)
    && (code == IO_LOAD_PM_START ==> text == LoadPmText(U24At(b, p + PMLOAD_COUNT), ByteAt(b, p + PMLOAD_ID)))
    && (code == IO_CUSTOM_OP_TCT ==> text == TctText)
    && (code == IO_CUSTOM_OP_DDR_PATCH ==>
          text == PatchText(U64At(b, q + PATCH_REGADDR), U64At(b, q + PATCH_ARGIDX), U64At(b, q + PATCH_ARGPLUS)))
    && (code == IO_CUSTOM_OP_READ_REGS ==> text == ReadText)
    && (code == IO_CUSTOM_OP_RECORD_TIMER ==> text == TimerText)
    && (code == IO_CUSTOM_OP_MERGE_SYNC ==> text == MergeSyncText)
  }

  lemma OpInside(enc: Encoding, b: seq<byte>, k: nat)
    requires WellFormed(enc, b) && k < NumOps(b)
    ensures var p := Off(enc, b, k);
            && FitsAt(enc, b, p) && p < |b| && CodeAt(b, p) == b[p] == CodeOf(enc, b, k)
            && (CodeAt(b, p) == IO_LOAD_PM_START ==> p + PMLOAD <= |b|)
  {
    hide Off, LenAt, WellFormed;
    WellFormedFits(enc, b, k);
  }

  class Transaction {
    var txn: seq<byte>

    constructor ()
      ensures txn == []
    {
      txn := [];
    }

    /** Copies a section, header first, unless its header's TxnSize is not the section's size. */
    method Load(data: seq<byte>) returns (ok: bool)
      requires |data| >= TXN_HEADER
      modifies this
      ensures ok <==> U32At(data, TXN_SIZE) == |data|
      ensures txn == if ok then data else old(txn)
    {
      if U32At(data, TXN_SIZE) != |data| {
        return false;
      }
      txn := data[..TXN_HEADER] + data[TXN_HEADER..];
      return true;
    }

    method CountTxn(opCount: array<nat>) returns (ok: bool)
      requires WellFormed(Legacy, txn) && opCount.Length == IO_CUSTOM_OP_NEXT
      requires forall k :: 0 <= k < NumOps(txn) ==> CodeOf(Legacy, txn, k) < IO_CUSTOM_OP_NEXT
      modifies opCount
      ensures ok <==> AllKnown(Legacy, txn, NumOps(txn))
      ensures ok ==> Counted(Legacy, txn, NumOps(txn), old(opCount[..]), opCount[..])
    {
      hide OpAt, U32At, Off, HeaderLen, WellFormed;
      var numOps := U32At(txn, TXN_NUM_OPS);
      var ptr: nat := TXN_HEADER;
      StartOff(Legacy, txn);
      for i := 0 to numOps
        invariant ptr == Off(Legacy, txn, i) && AllKnown(Legacy, txn, i)
        invariant Counted(Legacy, txn, i, old(opCount[..]), opCount[..])
      {
        OpInside(Legacy, txn, i);
        OffNext(Legacy, txn, i);
        var code: nat := txn[ptr];
        opCount[code] := opCount[code] + 1;
        if code == IO_WRITE {
          ptr := ptr + U32At(txn, ptr + W32_SIZE);
        } else if code == IO_BLOCKWRITE {
          ptr := ptr + U32At(txn, ptr + BW_SIZE);
        } else if code == IO_MASKWRITE {
          ptr := ptr + U32At(txn, ptr + MW_SIZE);
        } else if code == IO_MASKPOLL || code == IO_MASKPOLL_BUSY {
          ptr := ptr + U32At(txn, ptr + MP_SIZE);
        } else if code == IO_NOOP {
          ptr := ptr + NOOP;
        } else if code == IO_PREEMPT {
          ptr := ptr + PREEMPT;
        } else if code == IO_LOAD_PM_START {
          ptr := ptr + PMLOAD;
        } else if || code == IO_CUSTOM_OP_TCT || code == IO_CUSTOM_OP_DDR_PATCH || code == IO_CUSTOM_OP_READ_REGS
                  || code == IO_CUSTOM_OP_RECORD_TIMER || code == IO_CUSTOM_OP_MERGE_SYNC {
          ptr := ptr + U32At(txn, ptr + CUSTOM_SIZE);
        } else {
          return false;
        }
      }
      return true;
    }

    method CountTxnOpt(opCount: array<nat>) returns (ok: bool)
      requires WellFormed(Opt, txn) && opCount.Length == IO_CUSTOM_OP_NEXT
      requires forall k :: 0 <= k < NumOps(txn) ==> CodeOf(Opt, txn, k) < IO_CUSTOM_OP_NEXT
      modifies opCount
      ensures ok <==> AllKnown(Opt, txn, NumOps(txn))
      ensures ok ==> Counted(Opt, txn, NumOps(txn), old(opCount[..]), opCount[..])
    {
      hide OpAt, U32At, Off, HeaderLen, WellFormed;
      var numOps := U32At(txn, TXN_NUM_OPS);
      var ptr: nat := TXN_HEADER;
      StartOff(Opt, txn);
      for i := 0 to numOps
        invariant ptr == Off(Opt, txn, i) && AllKnown(Opt, txn, i)
        invariant Counted(Opt, txn, i, old(opCount[..]), opCount[..])
      {
        OpInside(Opt, txn, i);
        OffNext(Opt, txn, i);
        var code: nat := txn[ptr];
        opCount[code] := opCount[code] + 1;
        if code == IO_WRITE {
          ptr := ptr + W32_OPT;
        } else if code == IO_BLOCKWRITE {
          ptr := ptr + U32At(txn, ptr + BW_OPT_SIZE);
        } else if code == IO_MASKWRITE {
          ptr := ptr + MW_OPT;
        } else if code == IO_MASKPOLL || code == IO_MASKPOLL_BUSY {
          ptr := ptr + MP_OPT;
        } else if code == IO_NOOP {
          ptr := ptr + NOOP;
        } else if code == IO_PREEMPT {
          ptr := ptr + PREEMPT;
        } else if code == IO_LOAD_PM_START {
          ptr := ptr + PMLOAD;
        } else if || code == IO_CUSTOM_OP_TCT || code == IO_CUSTOM_OP_DDR_PATCH || code == IO_CUSTOM_OP_READ_REGS
                  || code == IO_CUSTOM_OP_RECORD_TIMER || code == IO_CUSTOM_OP_MERGE_SYNC {
          ptr := ptr + U32At(txn, ptr + CUSTOM_OPT_SIZE);
        } else {
          return false;
        }
      }
      return true;
    }

    /** The words of a block-write, one by one. */
    method PayloadWords(curr: nat, count: nat) returns (words: seq<nat>)
      ensures words == WordsAt(txn, curr, count)
    {
      words := [];
      for i := 0 to count
        invariant words == WordsAt(txn, curr, i)
      {
        words := words + [U32At(txn, curr + 4 * i)];
      }
    }

    method StringifyTxn() returns (ok: bool, lines: seq<Line>)
      requires WellFormed(Legacy, txn)
      ensures ok <==> AllKnown(Legacy, txn, NumOps(txn))
      ensures ok ==> lines == LinesTo(Legacy, txn, NumOps(txn))
    {
      hide OpAt, U32At, U64At, U24At, Off, HeaderLen, WellFormed, OpText;
      var numOps := U32At(txn, TXN_NUM_OPS);
      var ptr: nat := TXN_HEADER;
      StartOff(Legacy, txn);
      lines := [];
      for i := 0 to numOps
        invariant ptr == Off(Legacy, txn, i) && AllKnown(Legacy, txn, i)
        invariant lines == LinesTo(Legacy, txn, i)
      {
        OpInside(Legacy, txn, i);
        OffNext(Legacy, txn, i);
        LegacyText(txn, ptr);
        var code: nat := txn[ptr];
        var size: nat, text: Text;
        if code == IO_WRITE {
          text := WriteText(U64At(txn, ptr + W32_REG), U32At(txn, ptr + W32_VALUE));
          size := U32At(txn, ptr + W32_SIZE);
        } else if code == IO_BLOCKWRITE {
          size := U32At(txn, ptr + BW_SIZE);
          var words := PayloadWords(ptr + BW, (size - BW) / 4);
          text := BlockWriteText(U64At(txn, ptr + BW_REG), words);
        } else if code == IO_MASKWRITE {
          text := MaskWriteText(U64At(txn, ptr + MW_REG), U32At(txn, ptr + MW_MASK), U32At(txn, ptr + MW_VALUE));
          size := U32At(txn, ptr + MW_SIZE);
        } else if code == IO_MASKPOLL {
          text := PollText(false);
          size := U32At(txn, ptr + MP_SIZE);
        } else if code == IO_MASKPOLL_BUSY {
          text := PollText(true);
          size := U32At(txn, ptr + MP_SIZE);
        } else if code == IO_NOOP {
          text := NoOpText;
          size := NOOP;
        } else if code == IO_PREEMPT {
          text := PreemptText;
          size := PREEMPT;
        } else if code == IO_LOAD_PM_START {
          text := LoadPmText(U24At(txn, ptr + PMLOAD_COUNT), txn[ptr + PMLOAD_ID]);
          size := PMLOAD;
        } else if code == IO_CUSTOM_OP_TCT {
          text := TctText;
          size := U32At(txn, ptr + CUSTOM_SIZE);
        } else if code == IO_CUSTOM_OP_DDR_PATCH {
          var curr := ptr + CUSTOM;
          text := PatchText(U64At(txn, curr + PATCH_REGADDR), U64At(txn, curr + PATCH_ARGIDX),
                            U64At(txn, curr + PATCH_ARGPLUS));
          size := U32At(txn, ptr + CUSTOM_SIZE);
        } else if code == IO_CUSTOM_OP_READ_REGS {
          text := ReadText;
          size := U32At(txn, ptr + CUSTOM_SIZE);
        } else if code == IO_CUSTOM_OP_RECORD_TIMER {
          text := TimerText;
          size := U32At(txn, ptr + CUSTOM_SIZE);
        } else if code == IO_CUSTOM_OP_MERGE_SYNC {
          text := MergeSyncText;
          size := U32At(txn, ptr + CUSTOM_SIZE);
        } else {
          return false, lines;
        }
        lines := lines + [Line(ptr, text)];
        ptr := ptr + size;
      }
      return true, lines;
    }

    method StringifyTxnOpt() returns (ok: bool, lines: seq<Line>)
      requires WellFormed(Opt, txn)
      ensures ok <==> AllKnown(Opt, txn, NumOps(txn))
      ensures ok ==> lines == LinesTo(Opt, txn, NumOps(txn))
    {
      hide OpAt, U32At, U64At, U24At, Off, HeaderLen, WellFormed, OpText;
      var numOps := U32At(txn, TXN_NUM_OPS);
      var ptr: nat := TXN_HEADER;
      StartOff(Opt, txn);
      lines := [];
      for i := 0 to numOps
        invariant ptr == Off(Opt, txn, i) && AllKnown(Opt, txn, i)
        invariant lines == LinesTo(Opt, txn, i)
      {
        OpInside(Opt, txn, i);
        OffNext(Opt, txn, i);
        OptText(txn, ptr);
        var code: nat := txn[ptr];
        var size: nat, text: Text;
        if code == IO_WRITE {
          text := WriteText(U32At(txn, ptr + W32_OPT_REG), U32At(txn, ptr + W32_OPT_VALUE));
          size := W32_OPT;
        } else if code == IO_BLOCKWRITE {
          size := U32At(txn, ptr + BW_OPT_SIZE);
          var words := PayloadWords(ptr + BW_OPT, (size - BW_OPT) / 4);
          text := BlockWriteText(U32At(txn, ptr + BW_OPT_REG), words);
        } else if code == IO_MASKWRITE {
          text := MaskWriteText(U32At(txn, ptr + MW_OPT_REG), U32At(txn, ptr + MW_OPT_MASK),
                                U32At(txn, ptr + MW_OPT_VALUE));
          size := MW_OPT;
        } else if code == IO_MASKPOLL {
          text := PollText(false);
          size := MP_OPT;
        } else if code == IO_MASKPOLL_BUSY {
          text := PollText(true);
          size := MP_OPT;
        } else if code == IO_NOOP {
          text := NoOpText;
          size := NOOP;
        } else if code == IO_PREEMPT {
          text := PreemptText;
          size := PREEMPT;
        } else if code == IO_LOAD_PM_START {
          text := LoadPmText(U24At(txn, ptr + PMLOAD_COUNT), txn[ptr + PMLOAD_ID]);
          size := PMLOAD;
        } else if code == IO_CUSTOM_OP_TCT {
          text := TctText;
          size := U32At(txn, ptr + CUSTOM_OPT_SIZE);
        } else if code == IO_CUSTOM_OP_DDR_PATCH {
          var curr := ptr + CUSTOM_OPT;
          text := PatchText(U64At(txn, curr + PATCH_REGADDR), U64At(txn, curr + PATCH_ARGIDX),
                            U64At(txn, curr + PATCH_ARGPLUS));
          size := U32At(txn, ptr + CUSTOM_OPT_SIZE);
        } else if code == IO_CUSTOM_OP_READ_REGS {
          text := ReadText;
          size := U32At(txn, ptr + CUSTOM_OPT_SIZE);
        } else if code == IO_CUSTOM_OP_RECORD_TIMER {
          text := TimerText;
          size := U32At(txn, ptr + CUSTOM_OPT_SIZE);
        } else if code == IO_CUSTOM_OP_MERGE_SYNC {
          text := MergeSyncText;
          size := U32At(txn, ptr + CUSTOM_OPT_SIZE);
        } else {
          return false, lines;
        }
        lines := lines + [Line(ptr, text)];
        ptr := ptr + size;
      }
      return true, lines;
    }

    method CountTxnOps(opCount: array<nat>) returns (ok: bool)
      requires WellFormed(EncodingOf(txn), txn) && opCount.Length == IO_CUSTOM_OP_NEXT
      requires forall k :: 0 <= k < NumOps(txn) ==> CodeOf(EncodingOf(txn), txn, k) < IO_CUSTOM_OP_NEXT
      modifies opCount
      ensures ok <==> AllKnown(EncodingOf(txn), txn, NumOps(txn))
      ensures ok ==> Counted(EncodingOf(txn), txn, NumOps(txn), old(opCount[..]), opCount[..])
    {
      if txn[TXN_MAJOR] == 1 && txn[TXN_MINOR] == 0 {
        ok := CountTxnOpt(opCount);
      } else {
        ok := CountTxn(opCount);
      }
    }

    method GetAllOps() returns (ok: bool, lines: seq<Line>)
      requires WellFormed(EncodingOf(txn), txn)
      ensures ok <==> AllKnown(EncodingOf(txn), txn, NumOps(txn))
      ensures ok ==> lines == LinesTo(EncodingOf(txn), txn, NumOps(txn))
    {
      if txn[TXN_MAJOR] == 1 && txn[TXN_MINOR] == 0 {
        ok, lines := StringifyTxnOpt();
      } else {
        ok, lines := StringifyTxn();
      }
    }
  }

  lemma StartOff(enc: Encoding, b: seq<byte>)
    ensures Off(enc, b, 0) == TXN_HEADER
  {
  }

  // ----- the counts -----

  function SumTo(enc: Encoding, b: seq<byte>, n: nat, c: nat): nat {
    if c == 0 then 0 else SumTo(enc, b, n, c - 1) + CountOf(enc, b, n, c - 1)
  }

  lemma {:induction false} SumStep(enc: Encoding, b: seq<byte>, n: nat, c: nat)
    requires n > 0
    ensures SumTo(enc, b, n, c) == SumTo(enc, b, n - 1, c) + if CodeOf(enc, b, n - 1) < c then 1 else 0
  {
    hide CodeOf;
    if c > 0 {
      SumStep(enc, b, n, c - 1);
    }
  }

  ghost function OpsWith(enc: Encoding, b: seq<byte>, n: nat, c: nat): set<nat> {
    set k: nat | k < n && CodeOf(enc, b, k) == c
  }

  /** A count is the number of ops with that opcode. */
  lemma {:induction false} CountIsNumber(enc: Encoding, b: seq<byte>, n: nat, c: nat)
    ensures CountOf(enc, b, n, c) == |OpsWith(enc, b, n, c)|
  {
    hide CodeOf;
    if n > 0 {
      CountIsNumber(enc, b, n - 1, c);
      if CodeOf(enc, b, n - 1) == c {
        assert OpsWith(enc, b, n, c) == OpsWith(enc, b, n - 1, c) + {n - 1};
      } else {
        assert OpsWith(enc, b, n, c) == OpsWith(enc, b, n - 1, c);
      }
    }
  }

  /** The counts of a stream of known opcodes add up to its number of ops. */
  lemma {:induction false} CountsAddUp(enc: Encoding, b: seq<byte>, n: nat)
    requires AllKnown(enc, b, n)
    ensures SumTo(enc, b, n, IO_CUSTOM_OP_NEXT) == n
  {
    hide CodeOf;
    if n > 0 {
      CountsAddUp(enc, b, n - 1);
      SumStep(enc, b, n, IO_CUSTOM_OP_NEXT);
      assert Known(CodeOf(enc, b, n - 1));
    } else {
      SumOfNothing(enc, b, IO_CUSTOM_OP_NEXT);
    }
  }

  lemma {:induction false} SumOfNothing(enc: Encoding, b: seq<byte>, c: nat)
    ensures SumTo(enc, b, 0, c) == 0
  {
    if c > 0 {
      SumOfNothing(enc, b, c - 1);
    }
  }

  // ----- the walkers agree, before and after patching -----

  lemma {:induction false} CountKept(enc: Encoding, b: seq<byte>, c: seq<byte>, n: nat, code: nat)
    requires forall k :: 0 <= k < n ==> CodeOf(enc, b, k) == CodeOf(enc, c, k)
    ensures CountOf(enc, b, n, code) == CountOf(enc, c, n, code)
  {
    hide CodeOf;
    if n > 0 {
      CountKept(enc, b, c, n - 1, code);
    }
  }

  lemma {:induction false} LineAt(enc: Encoding, b: seq<byte>, n: nat, k: nat)
    requires k < n
    ensures LinesTo(enc, b, n)[k] == Line(Off(enc, b, k), OpText(OpAt(enc, b, Off(enc, b, k))))
  {
    hide OpAt, Off, OpText;
    if k < n - 1 {
      LineAt(enc, b, n - 1, k);
    }
  }

  /** A stream that the preprocessor has patched in place and accepted both analyzer walkers can walk, as it
      was and as it is written. */
  lemma AcceptedStreamsAreKnown(enc: Encoding, env: Env, section: string, b: seq<byte>)
    requires WellFormed(enc, b) && Patchable(enc, env, b) && WalkAll(enc, env, section, b).Walking?
    ensures AllKnown(enc, b, NumOps(b))
    ensures var c := WalkAll(enc, env, section, b).w.b; WellFormed(enc, c) && AllKnown(enc, c, NumOps(c))
  {
    hide After, OpAt, FitsAt, VerdictAt, Known, Off, OpsTo, WalkTo, WellFormed, Patchable, Cleared, CountOf, LinesTo,
         OutsideKept, ChunkList, ClearedOp;
    var ops := Ops(enc, b);
    WalkIsMachine(enc, env, section, b);
    PayloadsAreWords(enc, b);
    RunFollowsVerdicts(enc, env, ops, |ops|);
    forall k | 0 <= k < NumOps(b) ensures Known(CodeOf(enc, b, k)) {
      assert VerdictAt(enc, env, ops, k).Accept?;
      KnownVerdict(enc, env, ops, k);
      OpsToAt(enc, b, NumOps(b), k);
      UnknownOps(enc, b, Off(enc, b, k));
    }
    AnalyzerSeesPatchedStream(enc, env, b);
    RunKeepsOutside(enc, env, b);
    StructureKept(enc, b, Run(enc, env, ops).st.cleared);
  }

  lemma KnownVerdict(enc: Encoding, env: Env, ops: seq<Op>, k: nat)
    requires k < |ops| && VerdictAt(enc, env, ops, k).Accept?
    ensures !ops[k].Unknown?
  {
  }

  lemma UnknownOps(enc: Encoding, b: seq<byte>, p: nat)
    ensures OpAt(enc, b, p).Unknown? <==> !Known(CodeAt(b, p))
  {
    hide LenAt, WriteAt, MaskWriteAt, PatchAt;
  }

  /** On the patched section the analyzer finds the same size, the same counts and the same ops at the
      same offsets, but for the cleared address bytes. */
  lemma AnalyzerSeesPatchedStream(enc: Encoding, env: Env, b: seq<byte>)
    requires WellFormed(enc, b) && Patchable(enc, env, b)
    ensures var c := PatchedBuffer(enc, env, b);
            && NumOps(c) == NumOps(b)
            && (U32At(c, TXN_SIZE) == |c| <==> U32At(b, TXN_SIZE) == |b|)
            && (AllKnown(enc, c, NumOps(c)) <==> AllKnown(enc, b, NumOps(b)))
            && (forall code :: CountOf(enc, c, NumOps(c), code) == CountOf(enc, b, NumOps(b), code))
            && forall k :: 0 <= k < NumOps(b) ==>
                 LinesTo(enc, c, NumOps(b))[k] ==
                 Line(Off(enc, b, k), OpText(ClearedOp(Ops(enc, b)[k], Run(enc, env, Ops(enc, b)).st.cleared, k)))
  {
    hide After, OpAt, FitsAt, Known, Off, Cleared, OpsTo, LenAt, Patchable, ClearedOp, HeaderLen, OpText, OutsideKept,
         ChunkList;
    var places, c := Run(enc, env, Ops(enc, b)).st.cleared, PatchedBuffer(enc, env, b);
    RunKeepsOutside(enc, env, b);
    StructureKept(enc, b, places);
    TxnHeaderKept(enc, b, c);
    forall k | 0 <= k < NumOps(b)
      ensures CodeOf(enc, b, k) == CodeOf(enc, c, k)
      ensures LinesTo(enc, c, NumOps(b))[k] == Line(Off(enc, b, k), OpText(ClearedOp(Ops(enc, b)[k], places, k)))
    {
      WellFormedFits(enc, b, k);
      HeadersKept(enc, b, c, k);
      HeaderDecidesLength(enc, b, c, Off(enc, b, k));
      LineAt(enc, c, NumOps(b), k);
      OpsToAt(enc, c, NumOps(c), k);
      assert Ops(enc, c)[k] == ClearedOps(Ops(enc, b), places)[k];
    }
    forall code ensures CountOf(enc, c, NumOps(c), code) == CountOf(enc, b, NumOps(b), code) {
      CountKept(enc, b, c, NumOps(b), code);
    }
  }
}
