/**
 The DPU instruction decoder: a variable-length word code whose lengths depend on the opcode, on a
 row field, or on a counter in the word after the opcode.
 */
module Dpu {
  import opened Bytes
  import opened Symbols
  import opened TxnEncode

  const OP_NOOP: nat := 0
  const OP_WRITEBD: nat := 1
  const OP_WRITE32: nat := 2
  const OP_SYNC: nat := 3
  const OP_WRITEBD_EXTEND_AIETILE: nat := 4
  const OP_WRITE32_EXTEND_GENERAL: nat := 5
  const OP_WRITEBD_EXTEND_SHIMTILE: nat := 6
  const OP_WRITEBD_EXTEND_MEMTILE: nat := 7
  const OP_WRITE32_EXTEND_DIFFBD: nat := 8
  const OP_WRITEBD_EXTEND_SAMEBD_MEMTILE: nat := 9
  const OP_DUMPDDR: nat := 10
  const OP_WRITESHIMBD: nat := 11
  const OP_WRITEMEMBD: nat := 12
  const OP_WRITE32_RTP: nat := 13
  const OP_READ32: nat := 14
  const OP_READ32_POLL: nat := 15
  const OP_RECORD_TIMESTAMP: nat := 16
  const OP_MERGESYNC: nat := 17
  const OP_DUMP_REGISTER: nat := 18

  const OP_WRITEBD_SIZE_9: nat := 9
  const OP_WRITEBD_SIZE_7: nat := 7
  const OP_WRITESHIMBD_SIZE: nat := 9

  const ARG_NAMES: seq<string> := ["ifm", "param", "ofm", "inter", "out2", "control-packet"]

  datatype DpuError = BadArgument(arg: nat) | BadOpcode(code: nat)

  // ----- fields of an instruction word -----

  function Code(w: nat): nat { w / 0x100_0000 % 0x100 }
  function Row(w: nat): nat { w / 0x100 % 0x100 }
  function Arg(w: nat): nat { w / 0x10 % 0x10 }
  function Counter(w: nat): nat { w % 0x100_0000 }

  /** Length in words of the opcodes whose length is fixed. */
  function FixedLen(code: nat): (n: Option<nat>)
    ensures n.Some? ==> n.value > 0
  {
    if code == OP_NOOP || code == OP_RECORD_TIMESTAMP || code == OP_MERGESYNC then Some(1)
    else if code == OP_SYNC || code == OP_READ32 then Some(2)
    else if code == OP_WRITE32 || code == OP_WRITE32_EXTEND_GENERAL || code == OP_WRITE32_RTP then Some(3)
    else if code == OP_WRITE32_EXTEND_DIFFBD || code == OP_READ32_POLL then Some(4)
    else if code == OP_WRITEBD_EXTEND_AIETILE then Some(8)
    else if code == OP_WRITEBD_EXTEND_SAMEBD_MEMTILE || code == OP_WRITEMEMBD then Some(9)
    else if code == OP_WRITEBD_EXTEND_SHIMTILE then Some(10)
    else if code == OP_WRITEBD_EXTEND_MEMTILE then Some(11)
    else if code == OP_DUMPDDR then Some(44)
    else None
  }

  function WordAt(words: seq<nat>, i: nat): nat { if i < |words| then words[i] else 0 }

  /** Length of the instruction at pc; DUMP_REGISTER takes its count from the word after its opcode. */
  function InstrLen(words: seq<nat>, pc: nat): (n: Option<nat>)
    ensures n.Some? ==> n.value > 0
  {
    var w := WordAt(words, pc);
    if Code(w) == OP_WRITESHIMBD then Some(OP_WRITESHIMBD_SIZE)
    else if Code(w) == OP_WRITEBD then Some(if Row(w) <= 1 then OP_WRITEBD_SIZE_9 else OP_WRITEBD_SIZE_7)
    else if Code(w) == OP_DUMP_REGISTER then Some(1 + 2 * Counter(WordAt(words, pc + 1)))
    else FixedLen(Code(w))
  }

  /** Instructions that write a shim BD, whose address a symbol must patch. */
  predicate WritesShimBd(w: nat) {
    Code(w) == OP_WRITESHIMBD || (Code(w) == OP_WRITEBD && Row(w) == 0)
  }

  function ShimSymbol(section: string, pc: nat, arg: nat): Symbol
    requires arg < |ARG_NAMES|
  {
    Symbol(ARG_NAMES[arg], 4 * (pc + 1), 0, 0, section, ShimDma48, 0)
  }

  /** A decoding run: the instruction starts visited, the symbols, and the error that ended it, if any. */
  datatype Trace = Trace(pcs: seq<nat>, syms: seq<Symbol>, error: Option<DpuError>)

  function Then(pc: nat, syms: seq<Symbol>, rest: Trace): Trace {
    Trace([pc] + rest.pcs, syms + rest.syms, rest.error)
  }

  function Walk(words: seq<nat>, section: string, pc: nat): Trace
    decreases |words| - pc
  {
    if pc >= |words| then Trace([], [], None)
    else
      var w := words[pc];
      if WritesShimBd(w) && Arg(w) >= |ARG_NAMES| then Trace([pc], [], Some(BadArgument(Arg(w))))
      else match InstrLen(words, pc)
        case None => Trace([pc], [], Some(BadOpcode(Code(w))))
        case Some(n) =>
          Then(pc, if WritesShimBd(w) then [ShimSymbol(section, pc, Arg(w))] else [], Walk(words, section, pc + n))
  }

  /** Decoding from pc, as far as it goes, reads no word past the buffer: no DUMP_REGISTER is the last. */
  predicate ReadsInside(words: seq<nat>, pc: nat)
    decreases |words| - pc
  {
    if pc >= |words| || (WritesShimBd(words[pc]) && Arg(words[pc]) >= |ARG_NAMES|) then true
    else
      var n := InstrLen(words, pc);
      (Code(words[pc]) == OP_DUMP_REGISTER ==> pc + 1 < |words|) &&
      (n.Some? ==> ReadsInside(words, pc + n.value))
  }

  function WordsOf(b: seq<byte>): (words: seq<nat>)
    ensures |words| == |b| / 4
    ensures forall i :: 0 <= i < |words| ==> words[i] == U32At(b, 4 * i)
  {
    seq(|b| / 4, i requires 0 <= i => U32At(b, 4 * i))
  }

  // ----- the decoder -----

  class AieBlobDpuInput {
    var syms: seq<Symbol>

    constructor ()
      ensures syms == []
    {
      syms := [];
    }

    method PatchShimBd(w: nat, pc: nat, section: string) returns (failure: Option<DpuError>)
      modifies this
      ensures failure == if Arg(w) < |ARG_NAMES| then None else Some(BadArgument(Arg(w)))
      ensures syms == if Arg(w) < |ARG_NAMES| then old(syms) + [ShimSymbol(section, pc, Arg(w))] else old(syms)
    {
      var regId := w / 0x10 % 0x10;
      if regId >= |ARG_NAMES| {
        return Some(BadArgument(regId));
      }
      syms := syms + [Symbol(ARG_NAMES[regId], (pc + 1) * 4, 0, 0, section, ShimDma48, 0)];
      return None;
    }

    method ExtractSymbolFromBuffer(mcCode: seq<byte>, section: string) returns (failure: Option<DpuError>)
      requires |mcCode| < TWO_32 && ReadsInside(WordsOf(mcCode), 0)
      modifies this
      ensures syms == old(syms) + Walk(WordsOf(mcCode), section, 0).syms
      ensures failure == Walk(WordsOf(mcCode), section, 0).error
    {
      hide Arg, WordsOf, FixedLen, U32At, Walk, ReadsInside, InstrLen, WritesShimBd;
      ghost var words := WordsOf(mcCode);
      var size, pc := |mcCode| / 4, 0;
      while pc < size
        invariant ReadsInside(words, pc)
        invariant syms + Walk(words, section, pc).syms == old(syms) + Walk(words, section, 0).syms
        invariant Walk(words, section, pc).error == Walk(words, section, 0).error
        decreases size - pc
      {
        var w := U32At(mcCode, 4 * pc);
        assert w == words[pc];
        WalkStep(words, section, pc);
        InstrShape(words, pc);
        var opcode := w / 0x100_0000 % 0x100;
        if opcode == OP_WRITESHIMBD {
          failure := PatchShimBd(w, pc, section);
          if failure.Some? { return; }
          pc := pc + OP_WRITESHIMBD_SIZE;
        } else if opcode == OP_WRITEBD {
          var row := w / 0x100 % 0x100;
          if row == 0 {
            failure := PatchShimBd(w, pc, section);
            if failure.Some? { return; }
            pc := pc + OP_WRITEBD_SIZE_9;
          } else if row == 1 {
            pc := pc + OP_WRITEBD_SIZE_9;
          } else {
            pc := pc + OP_WRITEBD_SIZE_7;
          }
        } else if opcode == OP_DUMP_REGISTER {
          pc := pc + 1;
          var count := U32At(mcCode, 4 * pc) % 0x100_0000;
          pc := pc + 2 * count;
        } else {
          var n := FixedLen(opcode);
          if n.None? {
            return Some(BadOpcode(opcode));
          }
          pc := pc + n.value;
        }
      }
      WalkEnd(words, section, pc);
      return None;
    }
  }

  lemma InstrShape(words: seq<nat>, pc: nat)
    requires pc < |words|
    ensures var w, n := words[pc], InstrLen(words, pc);
            && (Code(w) == OP_WRITESHIMBD ==> n == Some(OP_WRITESHIMBD_SIZE) && WritesShimBd(w))
            && (Code(w) == OP_WRITEBD && Row(w) <= 1 ==> n == Some(OP_WRITEBD_SIZE_9))
            && (Code(w) == OP_WRITEBD && Row(w) > 1 ==> n == Some(OP_WRITEBD_SIZE_7))
            && (Code(w) == OP_WRITEBD ==> (WritesShimBd(w) <==> Row(w) == 0))
            && (Code(w) == OP_DUMP_REGISTER && pc + 1 < |words| ==> n == Some(1 + 2 * Counter(words[pc + 1])))
            && (Code(w) != OP_WRITESHIMBD && Code(w) != OP_WRITEBD ==> !WritesShimBd(w))
            && (Code(w) != OP_WRITESHIMBD && Code(w) != OP_WRITEBD && Code(w) != OP_DUMP_REGISTER ==>
                  n == FixedLen(Code(w)))
  {
  }

  /** One instruction of the walk, as the decoder's loop takes it. */
  lemma WalkStep(words: seq<nat>, section: string, pc: nat)
    requires pc < |words| && ReadsInside(words, pc)
    ensures var w, t := words[pc], Walk(words, section, pc);
            && (Code(w) == OP_DUMP_REGISTER && !WritesShimBd(w) ==> pc + 1 < |words|)
            && if WritesShimBd(w) && Arg(w) >= |ARG_NAMES| then t.syms == [] && t.error == Some(BadArgument(Arg(w)))
               else match InstrLen(words, pc)
                 case None => t.syms == [] && t.error == Some(BadOpcode(Code(w)))
                 case Some(n) =>
                   && ReadsInside(words, pc + n)
                   && t.error == Walk(words, section, pc + n).error
                   && t.syms == (if WritesShimBd(w) then [ShimSymbol(section, pc, Arg(w))] else []) +
                                Walk(words, section, pc + n).syms
  {
    hide InstrLen, Code, WritesShimBd, Arg;
  }

  lemma WalkEnd(words: seq<nat>, section: string, pc: nat)
    requires pc >= |words|
    ensures Walk(words, section, pc).syms == [] && Walk(words, section, pc).error == None
  {
  }

  // ----- encoding -----

  /** An instruction, field by field; `high` and `low` are the bits no decoder branch looks at. */
  datatype Instr =
    | WriteShimBd(high: nat, arg: nat, low: nat, body: seq<nat>)
    | WriteBd(high: nat, row: nat, arg: nat, low: nat, body: seq<nat>)
    | Fixed(code: nat, low: nat, body: seq<nat>)
    | DumpRegister(low: nat, body: seq<nat>)
    | Unknown(code: nat, low: nat, body: seq<nat>)

  function Head(i: Instr): nat {
    match i
    case WriteShimBd(high, arg, low, _) => 0xB00_0000 + 0x100 * high + 0x10 * arg + low
    case WriteBd(high, row, arg, low, _) => 0x100_0000 + 0x1_0000 * high + 0x100 * row + 0x10 * arg + low
    case Fixed(code, low, _) => 0x100_0000 * code + low
    case DumpRegister(low, _) => 0x1200_0000 + low
    case Unknown(code, low, _) => 0x100_0000 * code + low
  }

  /** How many words follow the opcode word of each instruction of fixed length. */
  predicate FixedBody(code: nat, words: nat) {
    match words
    case 0 => code in {0, 16, 17}
    case 1 => code in {3, 14}
    case 2 => code in {2, 5, 13}
    case 3 => code in {8, 15}
    case 7 => code == 4
    case 8 => code in {9, 12}
    case 9 => code == 6
    case 10 => code == 7
    case 43 => code == 10
    case _ => false
  }

  predicate Valid(i: Instr) {
    match i
    case WriteShimBd(high, arg, low, body) => high < 0x1_0000 && arg < 0x10 && low < 0x10 && |body| == 8
    case WriteBd(high, row, arg, low, body) =>
      high < 0x100 && row < 0x100 && arg < 0x10 && low < 0x10 && |body| == if row <= 1 then 8 else 6
    case Fixed(code, low, body) =>
      low < 0x100_0000 && FixedBody(code, |body|)
    case DumpRegister(low, body) =>
      low < 0x100_0000 && |body| % 2 == 0 && (body != [] ==> body[0] % 0x100_0000 == |body| / 2)
    case Unknown(code, low, body) => 18 < code < 0x100 && low < 0x100_0000
  }

  predicate IsShim(i: Instr) { i.WriteShimBd? || (i.WriteBd? && i.row == 0) }

  ghost predicate AllValid(program: seq<Instr>) {
    forall k :: 0 <= k < |program| ==> Valid(program[k])
  }

  /** Decoding stops here: an opcode, or a shim BD write with an argument, that nobody knows. */
  predicate Stops(i: Instr) { i.Unknown? || (IsShim(i) && i.arg >= 6) }

  /** Where decoding stops: the first of these, or the end. */
  function Cut(program: seq<Instr>): (n: nat)
    ensures n <= |program|
  {
    if program == [] || Stops(program[0]) then 0 else 1 + Cut(program[1..])
  }

  /** An empty DUMP_REGISTER is followed by a word whose low 24 bits, which it reads as its count, are 0. */
  predicate CountKept(program: seq<Instr>, k: nat)
    requires k < |program|
  {
    program[k].DumpRegister? && program[k].body == [] ==>
      k + 1 < |program| && Head(program[k + 1]) % 0x100_0000 == 0
  }

  ghost predicate CountsKept(program: seq<Instr>) {
    forall k :: 0 <= k < Cut(program) ==> CountKept(program, k)
  }

  function Encode(program: seq<Instr>): seq<nat> {
    if program == [] then [] else [Head(program[0])] + program[0].body + Encode(program[1..])
  }

  /** What a shim BD write asks for: the address of its argument, in the BD behind its opcode word. */
  function ArgumentSymbol(section: string, pc: nat, arg: nat): Symbol {
    var name := match arg
                case 0 => "ifm"
                case 1 => "param"
                case 2 => "ofm"
                case 3 => "inter"
                case 4 => "out2"
                case _ => "control-packet";
    Symbol(name, 4 * pc + 4, 0, 0, section, ShimDma48, 0)
  }

  /** What a program means: one visit an instruction, one symbol a shim BD write. */
  function Meaning(program: seq<Instr>, section: string, pc: nat): Trace {
    if program == [] then Trace([], [], None)
    else
      var i := program[0];
      if i.Unknown? then Trace([pc], [], Some(BadOpcode(i.code)))
      else if Stops(i) then Trace([pc], [], Some(BadArgument(i.arg)))
      else Then(pc, if IsShim(i) then [ArgumentSymbol(section, pc, i.arg)] else [],
                Meaning(program[1..], section, pc + 1 + |i.body|))
  }

  lemma HeadFields(i: Instr)
    requires Valid(i)
    ensures Code(Head(i)) == match i
                             case WriteShimBd(_, _, _, _) => OP_WRITESHIMBD
                             case WriteBd(_, _, _, _, _) => OP_WRITEBD
                             case Fixed(code, _, _) => code
                             case DumpRegister(_, _) => OP_DUMP_REGISTER
                             case Unknown(code, _, _) => code
    ensures i.WriteShimBd? ==> Arg(Head(i)) == i.arg
    ensures i.WriteBd? ==> Arg(Head(i)) == i.arg && Row(Head(i)) == i.row
    ensures WritesShimBd(Head(i)) <==> IsShim(i)
  {
    hide Code, Row, Arg;
    match i
    case WriteShimBd(high, arg, low, _) =>
      TopByte(OP_WRITESHIMBD, 0x100 * high + 0x10 * arg + low);
      LowFields(0x1_0000 * OP_WRITESHIMBD + high, arg, low);
    case WriteBd(high, row, arg, low, _) =>
      TopByte(OP_WRITEBD, 0x1_0000 * high + 0x100 * row + 0x10 * arg + low);
      LowFields(0x1_0000 * OP_WRITEBD + 0x100 * high + row, arg, low);
    case Fixed(code, low, _) => TopByte(code, low);
    case DumpRegister(low, _) => TopByte(OP_DUMP_REGISTER, low);
    case Unknown(code, low, _) => TopByte(code, low);
  }

  lemma TopByte(code: nat, rest: nat)
    requires code < 0x100 && rest < 0x100_0000
    ensures Code(0x100_0000 * code + rest) == code
  {
  }

  lemma LowFields(upper: nat, arg: nat, low: nat)
    requires arg < 0x10 && low < 0x10
    ensures Arg(0x100 * upper + 0x10 * arg + low) == arg
    ensures Row(0x100 * upper + 0x10 * arg + low) == upper % 0x100
  {
    var w := 0x100 * upper + 0x10 * arg + low;
    assert w / 0x10 == 0x10 * upper + arg;
    assert w / 0x100 == upper;
  }

  /** Where an instruction's encoding stands in a buffer, the decoder finds its words. */
  lemma EncodedWords(words: seq<nat>, pc: nat, i: Instr, rest: seq<nat>)
    requires pc <= |words| && words[pc..] == [Head(i)] + i.body + rest
    ensures pc + 1 + |i.body| <= |words| && words[pc] == Head(i)
    ensures i.body != [] ==> words[pc + 1] == i.body[0]
    ensures i.body == [] && rest != [] ==> pc + 1 < |words| && words[pc + 1] == rest[0]
    ensures words[pc + 1 + |i.body|..] == rest
  {
    hide Head;
    var tail := words[pc..];
    assert words[pc] == tail[0];
    assert i.body != [] ==> words[pc + 1] == tail[1];
    assert i.body == [] && rest != [] ==> words[pc + 1] == tail[1];
    assert words[pc + 1 + |i.body|..] == tail[1 + |i.body|..];
  }

  lemma LenFromHead(words: seq<nat>, pc: nat, i: Instr)
    requires pc < |words| && words[pc] == Head(i) && Valid(i)
    requires i.DumpRegister? ==> WordAt(words, pc + 1) % 0x100_0000 == |i.body| / 2
    ensures InstrLen(words, pc) == if i.Unknown? then None else Some(1 + |i.body|)
    ensures Code(words[pc]) == OP_DUMP_REGISTER ==> i.DumpRegister?
  {
    hide Code, Row, Arg, Head;
    HeadFields(i);
  }

  /** ... and reads the instruction's length, unless it takes its count from the instruction behind. */
  lemma EncodedLen(words: seq<nat>, pc: nat, program: seq<Instr>)
    requires program != [] && AllValid(program) && pc <= |words| && words[pc..] == Encode(program)
    ensures pc + 1 + |program[0].body| <= |words| && words[pc] == Head(program[0])
    ensures words[pc + 1 + |program[0].body|..] == Encode(program[1..])
    ensures CountKept(program, 0) ==>
              InstrLen(words, pc) == if program[0].Unknown? then None else Some(1 + |program[0].body|)
    ensures CountKept(program, 0) && Code(words[pc]) == OP_DUMP_REGISTER ==> pc + 1 < |words|
    ensures !CountKept(program, 0) ==>
              Miscounted(words, pc, program) && program[0].DumpRegister? && program[0].body == []
  {
    hide Code, Row, Arg, Head, Counter, InstrLen, FixedLen;
    var i, rest := program[0], Encode(program[1..]);
    assert Valid(program[0]);
    EncodedWords(words, pc, i, rest);
    if i.DumpRegister? && i.body == [] {
      EmptyDump(words, pc, program);
    } else {
      LenFromHead(words, pc, i);
    }
  }

  /** The decoder skips the instruction behind an empty DUMP_REGISTER, or there is none. */
  predicate Miscounted(words: seq<nat>, pc: nat, program: seq<Instr>)
    requires pc < |words| && program != []
  {
    && Code(words[pc]) == OP_DUMP_REGISTER && !WritesShimBd(words[pc])
    && (|program| == 1 ==> pc + 1 == |words|)
    && (|program| > 1 ==> InstrLen(words, pc).Some? && InstrLen(words, pc).value > 1)
  }

  lemma EmptyDump(words: seq<nat>, pc: nat, program: seq<Instr>)
    requires program != [] && Valid(program[0]) && program[0].DumpRegister? && program[0].body == []
    requires pc < |words| && words[pc] == Head(program[0]) && words[pc + 1..] == Encode(program[1..])
    ensures CountKept(program, 0) ==> InstrLen(words, pc) == Some(1) && pc + 1 < |words|
    ensures !CountKept(program, 0) ==> Miscounted(words, pc, program)
  {
    hide Code, Row, Arg, Head, FixedLen;
    HeadFields(program[0]);
    if |program| > 1 {
      assert program[1..][0] == program[1];
      assert Encode(program[1..])[0] == Head(program[1]) && words[pc + 1..][0] == words[pc + 1];
    } else {
      assert Encode(program[1..]) == [];
    }
  }

  lemma ValidTail(program: seq<Instr>)
    requires program != [] && AllValid(program)
    ensures Valid(program[0]) && AllValid(program[1..])
  {
    hide Valid;
  }

  /** What counts being kept means of a program and its tail. */
  lemma CountsTail(program: seq<Instr>)
    requires program != []
    ensures CountsKept(program) <==> Stops(program[0]) || (CountKept(program, 0) && CountsKept(program[1..]))
  {
    hide Stops, Counter, Head;
    var tail := program[1..];
    if !Stops(program[0]) {
      assert Cut(program) == 1 + Cut(tail);
      forall k | 0 <= k < |tail| ensures CountKept(tail, k) == CountKept(program, k + 1) {
        assert tail[k] == program[k + 1];
        assert k + 1 < |tail| ==> tail[k + 1] == program[k + 2];
      }
      if CountKept(program, 0) && CountsKept(tail) {
        forall k | 0 <= k < Cut(program) ensures CountKept(program, k) {
          assert k > 0 ==> CountKept(tail, k - 1);
        }
      } else if CountsKept(program) {
        forall k | 0 <= k < Cut(tail) ensures CountKept(tail, k) {
          assert CountKept(program, k + 1);
        }
      }
    }
  }

  /** Round trip: decoding an encoded program visits exactly its instruction starts, emits exactly the
      symbols of its shim BD writes in order and stops at its first unknown opcode or argument, all inside
      the buffer, exactly when every empty DUMP_REGISTER before that point is followed by a count of 0. */
  lemma {:induction false} RoundTrip(words: seq<nat>, section: string, pc: nat, program: seq<Instr>)
    requires AllValid(program) && pc <= |words| && words[pc..] == Encode(program)
    ensures Walk(words, section, pc) == Meaning(program, section, pc) && ReadsInside(words, pc) <==>
            CountsKept(program)
    decreases |program|
  {
    hide InstrLen, Code, Row, Arg, Head, AllValid, Valid, WritesShimBd, CountsKept, CountKept, Miscounted, Walk,
         Meaning, ReadsInside, Encode;
    if program == [] {
      NothingToCount(words, section, pc);
    } else {
      EncodedLen(words, pc, program);
      ValidTail(program);
      CountsTail(program);
      HeadFields(program[0]);
      if Stops(program[0]) {
        StopsHere(words, section, pc, program);
      } else {
        if CountKept(program, 0) {
          RoundTrip(words, section, pc + 1 + |program[0].body|, program[1..]);
          ThenInjective(words, section, pc, program);
        } else {
          MiscountedDiffers(words, section, pc, program);
        }
      }
    }
  }

  lemma NothingToCount(words: seq<nat>, section: string, pc: nat)
    requires pc <= |words| && words[pc..] == Encode([])
    ensures CountsKept([]) && ReadsInside(words, pc) && Walk(words, section, pc) == Meaning([], section, pc)
  {
    assert |words[pc..]| == 0;
  }

  /** At an unknown opcode or argument decoding ends with the error it means. */
  lemma StopsHere(words: seq<nat>, section: string, pc: nat, program: seq<Instr>)
    requires program != [] && Valid(program[0]) && Stops(program[0])
    requires pc < |words| && words[pc] == Head(program[0])
    requires program[0].Unknown? ==> InstrLen(words, pc).None?
    ensures Walk(words, section, pc) == Meaning(program, section, pc) && ReadsInside(words, pc)
  {
    hide InstrLen, Code, Row, Arg, Head, WritesShimBd;
    HeadFields(program[0]);
  }

  /** Traces that begin alike are equal exactly when they go on alike. */
  lemma ThenInjective(words: seq<nat>, section: string, pc: nat, program: seq<Instr>)
    requires program != [] && pc < |words| && words[pc] == Head(program[0]) && !Stops(program[0])
    requires InstrLen(words, pc) == Some(1 + |program[0].body|)
    requires WritesShimBd(words[pc]) <==> IsShim(program[0])
    requires IsShim(program[0]) ==> Arg(words[pc]) == program[0].arg
    ensures var next := pc + 1 + |program[0].body|;
            && (Walk(words, section, pc) == Meaning(program, section, pc) <==>
                Walk(words, section, next) == Meaning(program[1..], section, next))
            && (ReadsInside(words, pc) <==>
                (Code(words[pc]) == OP_DUMP_REGISTER ==> pc + 1 < |words|) && ReadsInside(words, next))
  {
    hide InstrLen, Code, Head, WritesShimBd, Arg;
    var next := pc + 1 + |program[0].body|;
    var shim := if IsShim(program[0]) then [ArgumentSymbol(section, pc, program[0].arg)] else [];
    var a, b := Walk(words, section, next), Meaning(program[1..], section, next);
    assert Walk(words, section, pc) == Then(pc, shim, a) && Meaning(program, section, pc) == Then(pc, shim, b);
    if Then(pc, shim, a) == Then(pc, shim, b) {
      assert ([pc] + a.pcs)[1..] == a.pcs && ([pc] + b.pcs)[1..] == b.pcs;
      assert (shim + a.syms)[|shim|..] == a.syms && (shim + b.syms)[|shim|..] == b.syms;
    }
  }

  lemma FirstVisit(words: seq<nat>, section: string, pc: nat)
    ensures Walk(words, section, pc).pcs != [] ==> Walk(words, section, pc).pcs[0] == pc
  {
  }

  lemma MiscountedDiffers(words: seq<nat>, section: string, pc: nat, program: seq<Instr>)
    requires program != [] && pc < |words| && Miscounted(words, pc, program) && program[0].body == []
    requires !Stops(program[0]) && !IsShim(program[0])
    ensures !(Walk(words, section, pc) == Meaning(program, section, pc) && ReadsInside(words, pc))
  {
    hide InstrLen, Code, WritesShimBd, ShimSymbol, ArgumentSymbol;
    if |program| > 1 {
      var n := InstrLen(words, pc).value;
      var t, meant := Walk(words, section, pc), Meaning(program, section, pc);
      assert t.pcs == [pc] + Walk(words, section, pc + n).pcs;
      FirstVisit(words, section, pc + n);
      var rest := Meaning(program[1..], section, pc + 1);
      assert meant.pcs == [pc] + rest.pcs && rest.pcs != [] && rest.pcs[0] == pc + 1;
      assert meant.pcs[1] == pc + 1;
      if |t.pcs| > 1 {
        assert t.pcs[1] == Walk(words, section, pc + n).pcs[0];
      }
    }
  }

  /** Words in a buffer, each as four bytes, the lowest first. */
  function WordBytes(words: seq<nat>): seq<byte> {
    if words == [] then [] else WordBytes(words[..|words| - 1]) + Le32(words[|words| - 1])
  }

  ghost predicate AllWords(words: seq<nat>) {
    forall i :: 0 <= i < |words| ==> words[i] < TWO_32
  }

  lemma {:induction false} WordInBytes(words: seq<nat>, i: nat, more: seq<byte>)
    requires i < |words| && AllWords(words)
    ensures |WordBytes(words)| == 4 * |words| && U32At(WordBytes(words) + more, 4 * i) == words[i]
    decreases |words|
  {
    hide Le32, U32At;
    var last := |words| - 1;
    var front := WordBytes(words[..last]);
    assert WordBytes(words) + more == front + (Le32(words[last]) + more);
    if i < last {
      WordInBytes(words[..last], i, Le32(words[last]) + more);
    } else {
      if last > 0 {
        WordInBytes(words[..last], 0, []);
      }
      HoldsWhole(front + (Le32(words[last]) + more));
      HoldsParts(front + (Le32(words[last]) + more), 0, front, Le32(words[last]) + more);
      HoldsParts(front + (Le32(words[last]) + more), |front|, Le32(words[last]), more);
      Holds32(front + (Le32(words[last]) + more), |front|, words[last]);
    }
  }

  /** The decoder's words of a buffer: up to three bytes at its end are ignored. */
  lemma WordsOfBytes(words: seq<nat>, tail: seq<byte>)
    requires AllWords(words) && |tail| < 4
    ensures WordsOf(WordBytes(words) + tail) == words
  {
    hide U32At;
    if words != [] {
      WordInBytes(words, 0, tail);
    }
    forall i | 0 <= i < |words| ensures U32At(WordBytes(words) + tail, 4 * i) == words[i] {
      WordInBytes(words, i, tail);
    }
  }

  /** The same for a whole buffer of bytes, as the decoder is given it. */
  lemma DecodeEncoded(section: string, program: seq<Instr>, tail: seq<byte>)
    requires AllValid(program) && AllWords(Encode(program)) && |tail| < 4
    ensures var words := WordsOf(WordBytes(Encode(program)) + tail);
            Walk(words, section, 0) == Meaning(program, section, 0) && ReadsInside(words, 0) <==> CountsKept(program)
  {
    WordsOfBytes(Encode(program), tail);
    assert Encode(program)[0..] == Encode(program);
    RoundTrip(Encode(program), section, 0, program);
  }

  /** A program that is decoded wrongly: an empty DUMP_REGISTER takes the shim BD write behind it for its
      count, skips past the buffer, and the write's symbol is lost without an error. */
  lemma EmptyDumpLosesSymbol(section: string, body: seq<nat>)
    requires |body| == 8
    ensures var program := [DumpRegister(0, []), WriteShimBd(0, 1, 0, body)];
            && AllValid(program) && ReadsInside(Encode(program), 0)
            && Meaning(program, section, 0).syms == [Symbol("param", 8, 0, 0, section, ShimDma48, 0)]
            && Walk(Encode(program), section, 0) == Trace([0], [], None)
  {
    var program := [DumpRegister(0, []), WriteShimBd(0, 1, 0, body)];
    var words := Encode(program);
    var shim := program[1];
    assert program[1..] == [shim] && [shim][1..] == [];
    assert Encode([shim]) == [Head(shim)] + body;
    assert words == [Head(program[0])] + Encode([shim]);
    assert words[0] == Head(program[0]) && words[1] == Head(shim);
    HeadFields(program[0]);
    assert Counter(Head(shim)) == 0x10;
    assert InstrLen(words, 0) == Some(33);
    assert Meaning([shim], section, 1) == Then(1, [ArgumentSymbol(section, 1, 1)], Trace([], [], None));
  }

  /** Where decoding stops first, what follows does not matter. */
  lemma UnknownArgumentFirst(section: string, body: seq<nat>)
    requires |body| == 8
    ensures var program := [WriteShimBd(0, 15, 0, body), DumpRegister(0, []), Fixed(0, 5, [])];
            && CountsKept(program) && !CountKept(program, 1)
            && Walk(Encode(program), section, 0) == Trace([0], [], Some(BadArgument(15)))
  {
    var program := [WriteShimBd(0, 15, 0, body), DumpRegister(0, []), Fixed(0, 5, [])];
    assert Counter(Head(program[2])) == 5;
    assert Encode(program)[0..] == Encode(program);
    RoundTrip(Encode(program), section, 0, program);
  }

  /** A symbol that stands one word past a visited shim write and is named by that word's field. */
  ghost predicate FromShimWrite(words: seq<nat>, section: string, pcs: seq<nat>, sym: Symbol) {
    exists at :: at in pcs && at < |words| && WritesShimBd(words[at]) && Arg(words[at]) < |ARG_NAMES|
                 && sym == ShimSymbol(section, at, Arg(words[at]))
  }

  ghost predicate Increasing(syms: seq<Symbol>, from: nat) {
    && (forall i :: 0 <= i < |syms| ==> syms[i].pos > 4 * from)
    && forall i, j :: 0 <= i < j < |syms| ==> syms[i].pos < syms[j].pos
  }

  /** On any buffer symbol positions strictly increase, and every symbol comes from a shim write. */
  lemma {:induction false} PositionsIncrease(words: seq<nat>, section: string, pc: nat)
    ensures Increasing(Walk(words, section, pc).syms, pc)
    ensures forall sym :: sym in Walk(words, section, pc).syms ==>
              FromShimWrite(words, section, Walk(words, section, pc).pcs, sym)
    decreases |words| - pc
  {
    hide InstrLen, WritesShimBd, Arg, FromShimWrite;
    if pc < |words| && InstrLen(words, pc).Some? && !(WritesShimBd(words[pc]) && Arg(words[pc]) >= |ARG_NAMES|) {
      var w, n := words[pc], InstrLen(words, pc).value;
      PositionsIncrease(words, section, pc + n);
      var t, rest := Walk(words, section, pc), Walk(words, section, pc + n);
      var own := if WritesShimBd(w) then [ShimSymbol(section, pc, Arg(w))] else [];
      assert t == Then(pc, own, rest);
      forall sym | sym in t.syms ensures FromShimWrite(words, section, t.pcs, sym) {
        if sym in rest.syms {
          LaterShimWrite(words, section, pc, rest.pcs, sym);
        } else {
          OwnShimWrite(words, section, pc, rest.pcs);
        }
      }
    }
  }

  lemma LaterShimWrite(words: seq<nat>, section: string, pc: nat, pcs: seq<nat>, sym: Symbol)
    requires FromShimWrite(words, section, pcs, sym)
    ensures FromShimWrite(words, section, [pc] + pcs, sym)
  {
    var at :| at in pcs && at < |words| && WritesShimBd(words[at]) && Arg(words[at]) < |ARG_NAMES|
              && sym == ShimSymbol(section, at, Arg(words[at]));
    assert at in [pc] + pcs;
  }

  lemma OwnShimWrite(words: seq<nat>, section: string, pc: nat, pcs: seq<nat>)
    requires pc < |words| && WritesShimBd(words[pc]) && Arg(words[pc]) < |ARG_NAMES|
    ensures FromShimWrite(words, section, [pc] + pcs, ShimSymbol(section, pc, Arg(words[pc])))
  {
    assert pc in [pc] + pcs;
  }
}
