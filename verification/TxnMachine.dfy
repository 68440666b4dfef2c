/**
 The patching machine on decoded ops.

 One state machine describes both walkers: what it does with an op differs between the encodings
 only in the register key space and in whether the PM-load window shrinks.  Places are pairs of an
 op number and a byte of its payload, so that the machine says nothing about byte offsets; the
 walk of ByteWalk.dfy is proved to compute this machine on real buffers in WalkRefinement.dfy.
 */
module TxnMachine {
  import opened Bytes
  import opened Symbols
  import opened TxnLayout

  const SHIM_DMA_BD0_0: nat := 0x1_D000
  const SHIM_DMA_BD_NUM: nat := 16
  const SHIM_DMA_BD_SIZE: nat := 0x20
  const MEM_DMA_BD0_0: nat := 0xA_0000
  const MEM_DMA_BD_NUM: nat := 48
  const MEM_DMA_BD_SIZE: nat := 0x20
  const BYTE_IN_WORD: nat := 4

  const MEM_BUFFER_LENGTH_MASK: nat := 0x1_FFFF
  const MEM_BASE_ADDRESS_MASK: nat := 0x7_FFFF
  const SHIM_BUFFER_LENGTH_MASK: nat := 0xFFFF_FFFF

  /** Byte `byte` of the payload of block-write number `op`. */
  datatype Loc = Loc(op: nat, byte: nat)

  /** A symbol before its place is turned into a byte offset. */
  datatype Reloc = Reloc(name: string, place: Loc, addend: nat, size: nat, schema: Schema)

  datatype Error =
    | UnknownOpcode(code: nat)
    | UnlistedPm(id: nat)
    | PatchInPmWindow
    | NoBlockWrite(reg: nat)
    | AddendTooBig(addend: nat)

  /** What a run is given: the argument name, the external-buffer names and the listed PM ids. */
  datatype Env = Env(argname: string, xrt: map<nat, string>, pmIds: seq<nat>)

  /** What one op adds: symbols, and BDs whose address bits are cleared. */
  datatype Effect = Effect(relocs: seq<Reloc>, cleared: seq<Loc>)

  datatype Verdict = Accept(effect: Effect) | Reject(error: Error)

  datatype State = State(index: map<nat, Loc>, window: nat, pm: nat, relocs: seq<Reloc>, cleared: seq<Loc>)

  datatype Outcome = Running(st: State) | Failed(error: Error, st: State)

  const NOTHING := Effect([], [])
  const START := State(map[], 0, 0, [], [])

  // ----- registers -----

  /** GET_REG: the 20 low bits select the register inside its tile. */
  function TileReg(reg: nat): (r: nat)
    ensures r < 0x10_0000
  {
    reg % 0x10_0000
  }

  /** regaddr & 0xFFFFFFF0: a 32-bit mask, so the high half of a 64-bit address goes too. */
  function BdBase(regaddr: nat): (r: nat)
    ensures r < TWO_32 && r % 16 == 0
  {
    var low := regaddr % TWO_32;
    low - low % 16
  }

  datatype BdClass = MemLength | MemBase | ShimLength | ShimBase | NoBd

  predicate InTable(reg: int, base: nat, count: nat) {
    base <= reg < base + 32 * count && (reg - base) % 32 == 0
  }

  /** Which BD word a register is, by range and alignment. */
  function ClassOf(reg: nat): BdClass {
    if InTable(reg, MEM_DMA_BD0_0, MEM_DMA_BD_NUM) then MemLength
    else if InTable(reg - 4, MEM_DMA_BD0_0, MEM_DMA_BD_NUM) then MemBase
    else if InTable(reg, SHIM_DMA_BD0_0, SHIM_DMA_BD_NUM) then ShimLength
    else if InTable(reg - 4, SHIM_DMA_BD0_0, SHIM_DMA_BD_NUM) then ShimBase
    else NoBd
  }

  // ----- one patch -----

  /** Word 0 of the BD at byte bd of a payload counts words; 32-bit arithmetic makes it bytes. */
  function LengthInBytes(payload: seq<byte>, bd: nat): (r: nat)
    ensures r < TWO_32
  {
    (U32At(payload, bd) * BYTE_IN_WORD) % TWO_32
  }

  function PmName(pm: nat): string { CTRLPKT_PM + Decimal(pm) }

  /** The name of a shim BD's symbol: the caller's, else the external buffer's, else the argument number. */
  function ShimName(xrt: map<nat, string>, argname: string, argidx: nat): string {
    if argname != [] then argname
    else var xrtId := (argidx - ARG_OFFSET) % TWO_32;
         if xrtId in xrt then xrt[xrtId] else Decimal(argidx)
  }

  function PatchEffect(xrt: map<nat, string>, argname: string, reg: nat, argidx: nat,
                       place: Loc, length: nat, addend: nat): Verdict
  {
    if addend > MAX_ARGPLUS then Reject(AddendTooBig(addend))
    else match ClassOf(reg)
      case MemLength =>
        Accept(Effect([Reloc(Decimal(argidx), place, addend, MEM_BUFFER_LENGTH_MASK, Scaler32)], []))
      case MemBase =>
        Accept(Effect([Reloc(Decimal(argidx), place.(byte := place.byte + 4), addend, MEM_BASE_ADDRESS_MASK, Scaler32)],
                      []))
      case ShimLength =>
        Accept(Effect([Reloc(Decimal(argidx), place, addend, SHIM_BUFFER_LENGTH_MASK, Scaler32)], []))
      case ShimBase =>
        Accept(Effect([Reloc(ShimName(xrt, argname, argidx), place, addend, length, ShimDma48)], [place]))
      case NoBd => Accept(NOTHING)
  }

  // ----- one op -----

  /** Register key under which chunk i of a block-write is indexed. */
  function ChunkKey(enc: Encoding, reg: nat, i: nat): nat { (reg + SHIM_DMA_BD_SIZE * i) % KeySpace(enc) }

  function NumChunks(size: nat): (n: nat)
    ensures 32 * n < size + 32 && size <= 32 * n
  {
    (size + SHIM_DMA_BD_SIZE - 1) / SHIM_DMA_BD_SIZE
  }

  /** The index after the first n chunks of block-write k have been entered. */
  function AddChunks(enc: Encoding, index: map<nat, Loc>, reg: nat, k: nat, n: nat): map<nat, Loc> {
    if n == 0 then index
    else AddChunks(enc, index, reg, k, n - 1)[ChunkKey(enc, reg, n - 1) := Loc(k, SHIM_DMA_BD_SIZE * (n - 1))]
  }

  /** Whether op k is in PM mode is `inPm`; `bd` is the BD indexed under its masked address, if any. */
  function OpVerdict(env: Env, ops: seq<Op>, k: nat, inPm: bool, pm: nat, bd: Option<Loc>): Verdict
    requires k < |ops|
  {
    match ops[k]
    case BlockWrite(reg, payload) =>
      if inPm then PatchEffect(env.xrt, PmName(pm), TileReg(reg) + 4, 0, Loc(k, 0), LengthInBytes(payload, 0), 0)
      else Accept(NOTHING)
    case LoadPm(_, id) => if id in env.pmIds then Accept(NOTHING) else Reject(UnlistedPm(id))
    case DdrPatch(regaddr, argidx, argplus) =>
      if inPm then Reject(PatchInPmWindow)
      else if bd.None? then Reject(NoBlockWrite(BdBase(regaddr)))
      else PatchEffect(env.xrt, env.argname, TileReg(regaddr), (argidx + ARG_OFFSET) % TWO_32,
                       bd.value, BdLength(ops, bd.value), argplus)
    case Unknown(code) => Reject(UnknownOpcode(code))
    case _ => Accept(NOTHING)
  }

  function BdLength(ops: seq<Op>, bd: Loc): nat {
    if bd.op < |ops| && ops[bd.op].BlockWrite? then LengthInBytes(ops[bd.op].payload, bd.byte) else 0
  }

  function Lookup(index: map<nat, Loc>, op: Op): Option<Loc> {
    if op.DdrPatch? && BdBase(op.regaddr) in index then Some(index[BdBase(op.regaddr)]) else None
  }

  /** The index after op k, which changes only at a block-write outside PM mode. */
  function NextIndex(enc: Encoding, ops: seq<Op>, k: nat, inPm: bool, index: map<nat, Loc>): map<nat, Loc>
    requires k < |ops|
  {
    if ops[k].BlockWrite? && !inPm then
      AddChunks(enc, index, ops[k].reg, k, NumChunks(|ops[k].payload|))
    else index
  }

  /** The window after an op: LOAD_PM_START opens it, and only the legacy walker counts it down. */
  function NextWindow(enc: Encoding, op: Op, window: nat): nat {
    var open := if op.LoadPm? then op.count + 1 else window;
    if enc == Legacy && open > 0 then open - 1 else open
  }

  function VerdictHere(env: Env, ops: seq<Op>, k: nat, st: State): Verdict
    requires k < |ops|
  {
    OpVerdict(env, ops, k, st.window > 0, st.pm, Lookup(st.index, ops[k]))
  }

  function Step(enc: Encoding, env: Env, ops: seq<Op>, k: nat, st: State): Outcome
    requires k < |ops|
  {
    match VerdictHere(env, ops, k, st)
    case Reject(error) => Failed(error, st)
    case Accept(effect) =>
      Running(State(NextIndex(enc, ops, k, st.window > 0, st.index),
                    NextWindow(enc, ops[k], st.window),
                    if ops[k].LoadPm? then ops[k].id else st.pm,
                    st.relocs + effect.relocs,
                    st.cleared + effect.cleared))
  }

  /** The machine after the first k ops; a failure stays. */
  function After(enc: Encoding, env: Env, ops: seq<Op>, k: nat): Outcome
    requires k <= |ops|
  {
    if k == 0 then Running(START)
    else match After(enc, env, ops, k - 1)
      case Failed(error, st) => Failed(error, st)
      case Running(st) => Step(enc, env, ops, k - 1, st)
  }

  function Run(enc: Encoding, env: Env, ops: seq<Op>): Outcome { After(enc, env, ops, |ops|) }

  // ----- runs -----

  lemma NextState(enc: Encoding, env: Env, ops: seq<Op>, k: nat, effect: Effect)
    requires k < |ops| && After(enc, env, ops, k).Running?
    requires VerdictHere(env, ops, k, After(enc, env, ops, k).st) == Accept(effect)
    ensures var st := After(enc, env, ops, k).st;
            After(enc, env, ops, k + 1) ==
            Running(State(NextIndex(enc, ops, k, st.window > 0, st.index), NextWindow(enc, ops[k], st.window),
                          if ops[k].LoadPm? then ops[k].id else st.pm,
                          st.relocs + effect.relocs, st.cleared + effect.cleared))
  {
    hide VerdictHere, NextIndex;
  }

  lemma {:induction false} FailureStays(enc: Encoding, env: Env, ops: seq<Op>, j: nat, k: nat)
    requires j <= k <= |ops| && After(enc, env, ops, j).Failed?
    ensures After(enc, env, ops, k) == After(enc, env, ops, j)
  {
    if j < k {
      FailureStays(enc, env, ops, j, k - 1);
    }
  }

  lemma StepGrows(enc: Encoding, env: Env, ops: seq<Op>, k: nat, st: State)
    requires k < |ops|
    ensures st.relocs <= Step(enc, env, ops, k, st).st.relocs
    ensures st.cleared <= Step(enc, env, ops, k, st).st.cleared
  {
  }

  /** Symbols and cleared BDs are only ever appended. */
  lemma {:induction false} OutputGrows(enc: Encoding, env: Env, ops: seq<Op>, j: nat, k: nat)
    requires j <= k <= |ops|
    ensures After(enc, env, ops, j).st.relocs <= After(enc, env, ops, k).st.relocs
    ensures After(enc, env, ops, j).st.cleared <= After(enc, env, ops, k).st.cleared
  {
    hide Step;
    if j < k {
      OutputGrows(enc, env, ops, j, k - 1);
      StepGrows(enc, env, ops, k - 1, After(enc, env, ops, k - 1).st);
    }
  }

  /** A place that denotes the start of a BD chunk in an earlier block-write. */
  predicate IsChunk(ops: seq<Op>, k: nat, bd: Loc) {
    && bd.op < k <= |ops| && ops[bd.op].BlockWrite?
    && bd.byte < |ops[bd.op].payload| && bd.byte % SHIM_DMA_BD_SIZE == 0
  }

  ghost predicate AllChunks(ops: seq<Op>, k: nat, index: map<nat, Loc>) {
    forall r :: r in index ==> IsChunk(ops, k, index[r])
  }

  ghost predicate ChunkList(ops: seq<Op>, k: nat, places: seq<Loc>) {
    forall i :: 0 <= i < |places| ==> IsChunk(ops, k, places[i])
  }

  lemma {:induction false} AddChunksSound(enc: Encoding, ops: seq<Op>, index: map<nat, Loc>, k: nat, n: nat)
    requires k < |ops| && ops[k].BlockWrite? && n <= NumChunks(|ops[k].payload|)
    requires AllChunks(ops, k, index)
    ensures AllChunks(ops, k + 1, AddChunks(enc, index, ops[k].reg, k, n))
  {
    hide ChunkKey, NumChunks;
    if n == 0 {
      forall r | r in index ensures IsChunk(ops, k + 1, index[r]) {
        assert IsChunk(ops, k, index[r]);
      }
    } else {
      AddChunksSound(enc, ops, index, k, n - 1);
      var before := AddChunks(enc, index, ops[k].reg, k, n - 1);
      var next := AddChunks(enc, index, ops[k].reg, k, n);
      forall r | r in next ensures IsChunk(ops, k + 1, next[r]) {
        if r == ChunkKey(enc, ops[k].reg, n - 1) {
          assert next[r] == Loc(k, SHIM_DMA_BD_SIZE * (n - 1));
        } else {
          assert IsChunk(ops, k + 1, before[r]);
        }
      }
    }
  }

  /** Every indexed BD, and every cleared one, is a chunk of a block-write already passed. */
  lemma {:induction false} PlacesAreChunks(enc: Encoding, env: Env, ops: seq<Op>, k: nat)
    requires k <= |ops|
    requires forall j :: 0 <= j < |ops| && ops[j].BlockWrite? ==> |ops[j].payload| > 0
    ensures AllChunks(ops, k, After(enc, env, ops, k).st.index)
    ensures ChunkList(ops, k, After(enc, env, ops, k).st.cleared)
  {
    if k > 0 {
      PlacesAreChunks(enc, env, ops, k - 1);
      var before := After(enc, env, ops, k - 1);
      forall bd | IsChunk(ops, k - 1, bd) ensures IsChunk(ops, k, bd) {
      }
      if before.Running? {
        StepKeepsChunks(enc, env, ops, k - 1, before.st);
      }
    }
  }

  lemma StepKeepsChunks(enc: Encoding, env: Env, ops: seq<Op>, k: nat, st: State)
    requires k < |ops| && (ops[k].BlockWrite? ==> |ops[k].payload| > 0)
    requires AllChunks(ops, k, st.index) && ChunkList(ops, k, st.cleared)
    ensures AllChunks(ops, k + 1, Step(enc, env, ops, k, st).st.index)
    ensures ChunkList(ops, k + 1, Step(enc, env, ops, k, st).st.cleared)
  {
    forall bd | IsChunk(ops, k, bd) ensures IsChunk(ops, k + 1, bd) {
    }
    forall r | r in st.index ensures IsChunk(ops, k + 1, st.index[r]) {
      assert IsChunk(ops, k, st.index[r]);
    }
    if ops[k].BlockWrite? {
      AddChunksSound(enc, ops, st.index, k, NumChunks(|ops[k].payload|));
      assert IsChunk(ops, k + 1, Loc(k, 0));
    }
  }
}
