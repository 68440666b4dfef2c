/**
 The walk over a buffer that is patched while it is walked, byte by byte.

 Every step reads the buffer as the steps before it left it: an op that a clear has run into is read
 as it now is.  The walkers of TransactionPreprocessor.dfy compute this on any buffer on which their
 reads and writes stay inside; TransactionInput.dfy says when it is the machine on the original ops.
 */
module ByteWalk {
  import opened Bytes
  import opened Symbols
  import opened TxnLayout
  import opened TxnMachine
  import opened ShimBits

  /** A walker before an op: pointer, PM window and id, BD map, and the buffer and symbols so far. */
  datatype Walker = Walker(ptr: nat, window: nat, pm: nat, bds: map<nat, (nat, nat)>, b: seq<byte>, syms: seq<Symbol>)

  datatype Walk = Walking(w: Walker) | Halted(error: Error, w: Walker)

  /** A symbol whose place is counted from byte `start` of the section. */
  function Render(section: string, start: nat, r: Reloc): Symbol {
    Symbol(r.name, start + r.place.byte, r.addend, r.size, section, r.schema, 0)
  }

  function RenderedHere(section: string, relocs: seq<Reloc>): (syms: seq<Symbol>)
    ensures |syms| == |relocs|
  {
    seq(|relocs|, i requires 0 <= i < |relocs| => Render(section, 0, relocs[i]))
  }

  // ----- one op -----

  /** The BD at byte `offset` of the buffer, patched. */
  function PatchBytes(section: string, xrt: map<nat, string>, argname: string, reg: nat, argidx: nat,
                      offset: nat, length: nat, addend: nat, w: Walker): Walk
  {
    match PatchEffect(xrt, argname, reg, argidx, Loc(0, offset), length, addend)
    case Reject(error) => Halted(error, w)
    case Accept(effect) =>
      Walking(w.(b := if effect.cleared == [] then w.b else Clear(w.b, offset),
                 syms := w.syms + RenderedHere(section, effect.relocs)))
  }

  /** The BD map after the first n chunks of a payload at `offset` have been entered. */
  function EnterChunks(enc: Encoding, b: seq<byte>, bds: map<nat, (nat, nat)>, reg: nat, offset: nat, n: nat)
    : map<nat, (nat, nat)>
  {
    if n == 0 then bds
    else
      var at := offset + SHIM_DMA_BD_SIZE * (n - 1);
      EnterChunks(enc, b, bds, reg, offset, n - 1)[ChunkKey(enc, reg, n - 1) := (at, LengthInBytes(b, at))]
  }

  /** Payload size of the block-write at p, in 32-bit arithmetic. */
  function SizeAt(enc: Encoding, b: seq<byte>, p: nat): (size: nat)
    ensures size < TWO_32
  {
    (LenFor(enc, IO_BLOCKWRITE, b, p) - BwHeader(enc)) % TWO_32
  }

  /** What the op at the pointer does to the map, the buffer and the symbols. */
  function Act(enc: Encoding, env: Env, section: string, w: Walker): Walk {
    match OpAt(enc, w.b, w.ptr)
    case BlockWrite(reg, _) =>
      var offset := w.ptr + BwHeader(enc);
      if w.window > 0 then
        PatchBytes(section, env.xrt, PmName(w.pm), TileReg(reg) + 4, 0, offset, LengthInBytes(w.b, offset), 0, w)
      else
        Walking(w.(bds := EnterChunks(enc, w.b, w.bds, reg, offset, NumChunks(SizeAt(enc, w.b, w.ptr)))))
    case LoadPm(_, id) => if id in env.pmIds then Walking(w) else Halted(UnlistedPm(id), w)
    case DdrPatch(regaddr, argidx, argplus) =>
      var base := BdBase(regaddr);
      if w.window > 0 then Halted(PatchInPmWindow, w)
      else if base !in w.bds then Halted(NoBlockWrite(base), w)
      else
        PatchBytes(section, env.xrt, env.argname, TileReg(regaddr), (argidx + ARG_OFFSET) % TWO_32,
                   w.bds[base].0, w.bds[base].1, argplus, w)
    case Unknown(code) => Halted(UnknownOpcode(code), w)
    case _ => Walking(w)
  }

  /** The walker moved past the op it stood at, by the length the buffer now gives. */
  function Move(enc: Encoding, before: Walker, acted: Walker): Walker {
    var op := OpAt(enc, before.b, before.ptr);
    acted.(ptr := before.ptr + LenFor(enc, CodeAt(before.b, before.ptr), acted.b, before.ptr),
           window := NextWindow(enc, op, before.window), pm := if op.LoadPm? then op.id else before.pm)
  }

  function StepBytes(enc: Encoding, env: Env, section: string, w: Walker): Walk {
    match Act(enc, env, section, w)
    case Halted(error, stopped) => Halted(error, stopped)
    case Walking(acted) => Walking(Move(enc, w, acted))
  }

  // ----- a walk -----

  function StartOf(b: seq<byte>): Walker { Walker(TXN_HEADER, 0, 0, map[], b, []) }

  /** The walk after k ops; a halt stays. */
  function WalkTo(enc: Encoding, env: Env, section: string, b: seq<byte>, k: nat): Walk {
    if k == 0 then Walking(StartOf(b))
    else match WalkTo(enc, env, section, b, k - 1)
      case Halted(error, w) => Halted(error, w)
      case Walking(w) => StepBytes(enc, env, section, w)
  }

  function WalkAll(enc: Encoding, env: Env, section: string, b: seq<byte>): Walk {
    WalkTo(enc, env, section, b, NumOps(b))
  }

  lemma {:induction false} HaltStays(enc: Encoding, env: Env, section: string, b: seq<byte>, j: nat, k: nat)
    requires j <= k && WalkTo(enc, env, section, b, j).Halted?
    ensures WalkTo(enc, env, section, b, k) == WalkTo(enc, env, section, b, j)
  {
    hide StepBytes;
    if j < k {
      HaltStays(enc, env, section, b, j, k - 1);
    }
  }

  // ----- staying inside the buffer -----

  predicate PatchInside(b: seq<byte>, reg: nat, offset: nat, addend: nat) {
    ClassOf(reg) == ShimBase && addend <= MAX_ARGPLUS ==> offset + BD_TOUCHED <= |b|
  }

  /** The length word of every chunk is inside the buffer. */
  predicate ChunksInside(b: seq<byte>, offset: nat, size: nat) {
    size > 0 ==> offset + SHIM_DMA_BD_SIZE * (NumChunks(size) - 1) + 4 <= |b|
  }

  /** One step reads and writes only bytes of the buffer. */
  predicate StepInside(enc: Encoding, env: Env, w: Walker) {
    && HeaderInside(enc, w.b, w.ptr)
    && match OpAt(enc, w.b, w.ptr)
       case BlockWrite(reg, _) =>
         var offset := w.ptr + BwHeader(enc);
         if w.window > 0 then offset + 4 <= |w.b| && PatchInside(w.b, TileReg(reg) + 4, offset, 0)
         else ChunksInside(w.b, offset, SizeAt(enc, w.b, w.ptr))
       case DdrPatch(regaddr, _, argplus) =>
         w.window == 0 && BdBase(regaddr) in w.bds ==>
           PatchInside(w.b, TileReg(regaddr), w.bds[BdBase(regaddr)].0, argplus)
       case _ => true
  }

  /** A whole walk does: this is all the program needs of a buffer. */
  ghost predicate MemorySafe(enc: Encoding, env: Env, section: string, b: seq<byte>) {
    && TXN_HEADER <= |b| < TWO_32
    && forall k :: 0 <= k < NumOps(b) ==> StepSafe(enc, env, section, b, k)
  }

  ghost predicate StepSafe(enc: Encoding, env: Env, section: string, b: seq<byte>, k: nat) {
    var walk := WalkTo(enc, env, section, b, k);
    walk.Walking? ==> StepInside(enc, env, walk.w)
  }

  // ----- what every walk keeps -----

  /** No clear so far, and none to come, reaches the header. */
  ghost predicate BehindHeader(w: Walker) {
    TXN_HEADER <= w.ptr && BdsBehindHeader(w.bds)
  }

  ghost predicate BdsBehindHeader(bds: map<nat, (nat, nat)>) {
    forall r :: r in bds ==> TXN_HEADER <= bds[r].0
  }

  /** Bytes are only ever cleared: none grows, and those of the header stay. */
  ghost predicate Shrunk(b: seq<byte>, c: seq<byte>) {
    |b| == |c| && (forall i :: 0 <= i < |b| ==> c[i] <= b[i]) && SameOn(b, c, 0, TXN_HEADER)
  }

  lemma {:induction false} ChunksBehindHeader(enc: Encoding, b: seq<byte>, bds: map<nat, (nat, nat)>, reg: nat,
                                              offset: nat, n: nat)
    requires TXN_HEADER <= offset && BdsBehindHeader(bds)
    ensures BdsBehindHeader(EnterChunks(enc, b, bds, reg, offset, n))
  {
    hide ChunkKey, LengthInBytes;
    if n > 0 {
      ChunksBehindHeader(enc, b, bds, reg, offset, n - 1);
    }
  }

  lemma PatchBytesKeeps(section: string, xrt: map<nat, string>, argname: string, reg: nat, argidx: nat,
                        offset: nat, length: nat, addend: nat, w: Walker)
    requires TXN_HEADER <= offset
    ensures var next := PatchBytes(section, xrt, argname, reg, argidx, offset, length, addend, w).w;
            next.ptr == w.ptr && next.bds == w.bds && Shrunk(w.b, next.b)
  {
    hide PatchEffect;
  }

  lemma ActKeeps(enc: Encoding, env: Env, section: string, w: Walker)
    requires BehindHeader(w)
    ensures var next := Act(enc, env, section, w).w;
            BehindHeader(next) && next.ptr == w.ptr && Shrunk(w.b, next.b)
  {
    hide PatchBytes, OpAt, ChunkKey, LengthInBytes, EnterChunks, NumChunks, SizeAt, TileReg, BdBase, PmName;
    match OpAt(enc, w.b, w.ptr)
    case BlockWrite(reg, _) =>
      var offset := w.ptr + BwHeader(enc);
      if w.window == 0 {
        ChunksBehindHeader(enc, w.b, w.bds, reg, offset, NumChunks(SizeAt(enc, w.b, w.ptr)));
        assert Act(enc, env, section, w).w ==
               w.(bds := EnterChunks(enc, w.b, w.bds, reg, offset, NumChunks(SizeAt(enc, w.b, w.ptr))));
      }
      PatchBytesKeeps(section, env.xrt, PmName(w.pm), TileReg(reg) + 4, 0, offset, LengthInBytes(w.b, offset), 0, w);
    case DdrPatch(regaddr, argidx, argplus) =>
      if BdBase(regaddr) in w.bds {
        var (offset, length) := w.bds[BdBase(regaddr)];
        PatchBytesKeeps(section, env.xrt, env.argname, TileReg(regaddr), (argidx + ARG_OFFSET) % TWO_32,
                        offset, length, argplus, w);
      }
    case _ =>
  }

  lemma {:induction false} WalkKeeps(enc: Encoding, env: Env, section: string, b: seq<byte>, k: nat)
    ensures var w := WalkTo(enc, env, section, b, k).w;
            BehindHeader(w) && Shrunk(b, w.b) && NumOps(w.b) == NumOps(b)
  {
    hide Act, OpAt, LenFor, CodeAt;
    if k > 0 {
      WalkKeeps(enc, env, section, b, k - 1);
      ActKeeps(enc, env, section, WalkTo(enc, env, section, b, k - 1).w);
    }
    SameWord(b, WalkTo(enc, env, section, b, k).w.b, 0, TXN_HEADER, TXN_NUM_OPS);
  }

  lemma {:induction false} WalkShrinks(enc: Encoding, env: Env, section: string, b: seq<byte>, j: nat, k: nat)
    requires j <= k
    ensures Shrunk(WalkTo(enc, env, section, b, j).w.b, WalkTo(enc, env, section, b, k).w.b)
  {
    hide Act, OpAt, LenFor, CodeAt;
    if j < k {
      WalkShrinks(enc, env, section, b, j, k - 1);
      WalkKeeps(enc, env, section, b, k - 1);
      ActKeeps(enc, env, section, WalkTo(enc, env, section, b, k - 1).w);
    }
  }
}
