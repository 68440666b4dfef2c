/**
 Setting the preprocessor up: the section table and the symbol list as the metadata, the control code
 and the preemption streams fill them, and the two resizes at the end.
 */
module Setup {
  import opened Bytes
  import opened Symbols
  import opened TxnLayout
  import opened TxnMachine
  import opened ByteWalk
  import opened Scratchpad
  import opened Metadata

  /** The preprocessor's fields: section table, symbols, names of external buffers, listed PM ids. */
  datatype Store = Store(data: map<string, seq<byte>>, syms: seq<Symbol>, xrt: map<nat, string>, pmIds: seq<nat>)

  /** One PM control packet. */
  datatype PmPacket = PmPacket(id: nat, data: seq<byte>)

  /** Everything the caller passes; `files` are the library files that can be found. */
  datatype Inputs = Inputs(mcCode: seq<byte>, meta: Option<Tree>, controlPacket: seq<byte>, libs: seq<string>,
                           files: map<string, seq<byte>>, pmPackets: seq<PmPacket>)

  datatype Refusal = BadMetadata(problem: JsonError) | BadStream(section: string, error: Error) | NoFile(name: string)

  datatype Progress = Ready(s: Store) | Refused(why: Refusal)

  const EMPTY := Store(map[], [], map[], [])
  const PREEMPT_LIB := "preempt"

  function PmSection(id: nat): string { ".ctrlpkt.pm." + Decimal(id) }

  function SaveFile(col: nat): string { "preempt_save_stx_4x" + Decimal(col) + ".bin" }

  function RestoreFile(col: nat): string { "preempt_restore_stx_4x" + Decimal(col) + ".bin" }

  // ----- the steps -----

  function WithPmPackets(s: Store, packets: seq<PmPacket>, n: nat): (r: Store)
    requires n <= |packets|
    ensures s.data.Keys <= r.data.Keys
  {
    if n == 0 then s
    else
      var before, p := WithPmPackets(s, packets, n - 1), packets[n - 1];
      before.(data := before.data[PmSection(p.id) := p.data], pmIds := before.pmIds + [p.id])
  }

  function WithBuffers(s: Store, inputs: Inputs): (r: Store)
    ensures CTRL_TEXT in r.data
  {
    var text := s.data[CTRL_TEXT := inputs.mcCode];
    var data := if inputs.controlPacket == [] then text else text[CTRL_DATA := inputs.controlPacket];
    WithPmPackets(s.(data := data), inputs.pmPackets, |inputs.pmPackets|)
  }

  function WithMetadata(s: Store, meta: Option<Tree>): Progress {
    match meta
    case None => Ready(s)
    case Some(tree) =>
      match TreeError(PacketSize(s.data), tree)
      case Some(error) => Refused(BadMetadata(error))
      case None =>
        Ready(s.(data := WithPacket(s.data, TreeLocations(tree) != []), xrt := TreeNames(s.xrt, tree),
                 syms := s.syms + SymbolsAt(TreeLocations(tree))))
  }

  function EnvOf(s: Store, argname: string): Env { Env(argname, s.xrt, s.pmIds) }

  /** The walk over one section of the table. */
  function SectionWalk(s: Store, section: string, argname: string): Walk
    requires section in s.data
  {
    WalkAll(EncodingOf(s.data[section]), EnvOf(s, argname), section, s.data[section])
  }

  /** One section walked: its bytes patched, its symbols appended. */
  function WithStream(s: Store, section: string, argname: string): Progress
    requires section in s.data
  {
    match SectionWalk(s, section, argname)
    case Halted(error, _) => Refused(BadStream(section, error))
    case Walking(w) => Ready(s.(data := s.data[section := w.b], syms := s.syms + w.syms))
  }

  /** The two preemption sections, freshly read. */
  function WithFiles(s: Store, files: map<string, seq<byte>>, col: nat): Store
    requires SaveFile(col) in files && RestoreFile(col) in files
  {
    s.(data := s.data[PREEMPT_SAVE := files[SaveFile(col)]][PREEMPT_RESTORE := files[RestoreFile(col)]])
  }

  function WithPreempt(s: Store, files: map<string, seq<byte>>, col: nat): Progress {
    if SaveFile(col) !in files then Refused(NoFile(SaveFile(col)))
    else if RestoreFile(col) !in files then Refused(NoFile(RestoreFile(col)))
    else match WithStream(WithFiles(s, files, col), PREEMPT_SAVE, SCRATCH_PAD)
      case Refused(why) => Refused(why)
      case Ready(saved) => WithStream(saved, PREEMPT_RESTORE, SCRATCH_PAD)
  }

  /** The first n libraries: each "preempt" adds both streams, anything else is ignored. */
  function WithLibs(s: Store, inputs: Inputs, col: nat, n: nat): Progress
    requires n <= |inputs.libs|
  {
    if n == 0 then Ready(s)
    else match WithLibs(s, inputs, col, n - 1)
      case Refused(why) => Refused(why)
      case Ready(before) =>
        if inputs.libs[n - 1] == PREEMPT_LIB then WithPreempt(before, inputs.files, col) else Ready(before)
  }

  /** Before the control code is walked. */
  function Described(s: Store, inputs: Inputs): (p: Progress)
    ensures p.Ready? ==> CTRL_TEXT in p.s.data
  {
    WithMetadata(WithBuffers(s, inputs), inputs.meta)
  }

  function NumColsOf(s: Store): nat
    requires CTRL_TEXT in s.data
  {
    ByteAt(s.data[CTRL_TEXT], TXN_NUM_COLS)
  }

  /** After the control code has been walked. */
  function Coded(s: Store, inputs: Inputs): (p: Progress)
    ensures p.Ready? ==> CTRL_TEXT in p.s.data
  {
    match Described(s, inputs)
    case Refused(why) => Refused(why)
    case Ready(described) => WithStream(described, CTRL_TEXT, "")
  }

  /** After every library. */
  function Gathered(s: Store, inputs: Inputs): Progress {
    match Coded(s, inputs)
    case Refused(why) => Refused(why)
    case Ready(coded) => WithLibs(coded, inputs, NumColsOf(coded), |inputs.libs|)
  }

  function Resizes(syms: seq<Symbol>): (r: seq<Symbol>)
    ensures |r| == |syms|
  {
    Resized(Resized(syms, PREEMPT_SAVE), PREEMPT_RESTORE)
  }

  /** The whole of it. */
  function Arranged(s: Store, inputs: Inputs): Progress {
    match Gathered(s, inputs)
    case Refused(why) => Refused(why)
    case Ready(gathered) => Ready(gathered.(syms := Resizes(gathered.syms)))
  }

  // ----- what the program needs of its inputs -----

  ghost predicate SectionSafe(s: Store, section: string, argname: string)
    requires section in s.data
  {
    MemorySafe(EncodingOf(s.data[section]), EnvOf(s, argname), section, s.data[section])
  }

  ghost predicate PreemptSafe(s: Store, files: map<string, seq<byte>>, col: nat) {
    SaveFile(col) in files && RestoreFile(col) in files ==>
      var read := WithFiles(s, files, col);
      && SectionSafe(read, PREEMPT_SAVE, SCRATCH_PAD)
      && (WithStream(read, PREEMPT_SAVE, SCRATCH_PAD).Ready? ==>
            SectionSafe(WithStream(read, PREEMPT_SAVE, SCRATCH_PAD).s, PREEMPT_RESTORE, SCRATCH_PAD))
  }

  ghost predicate LibSafe(s: Store, inputs: Inputs, col: nat, n: nat)
    requires n < |inputs.libs|
  {
    inputs.libs[n] == PREEMPT_LIB && WithLibs(s, inputs, col, n).Ready? ==>
      PreemptSafe(WithLibs(s, inputs, col, n).s, inputs.files, col)
  }

  /** Every stream that is walked is walked inside its buffer. */
  ghost predicate InputsSafe(s: Store, inputs: Inputs) {
    && (Described(s, inputs).Ready? ==> SectionSafe(Described(s, inputs).s, CTRL_TEXT, ""))
    && (Coded(s, inputs).Ready? ==>
          forall n :: 0 <= n < |inputs.libs| ==>
            LibSafe(Coded(s, inputs).s, inputs, NumColsOf(Coded(s, inputs).s), n))
  }

  lemma {:induction false} LibsRefusedStay(s: Store, inputs: Inputs, col: nat, j: nat, k: nat)
    requires j <= k <= |inputs.libs| && WithLibs(s, inputs, col, j).Refused?
    ensures WithLibs(s, inputs, col, k) == WithLibs(s, inputs, col, j)
  {
    hide WithPreempt;
    if j < k {
      LibsRefusedStay(s, inputs, col, j, k - 1);
    }
  }

  /** The byte that holds the column count is never cleared. */
  lemma TextKeepsCols(s: Store)
    requires CTRL_TEXT in s.data && SectionSafe(s, CTRL_TEXT, "")
    ensures var p := WithStream(s, CTRL_TEXT, "");
            p.Ready? ==> NumColsOf(p.s) == NumColsOf(s) == ByteAt(s.data[CTRL_TEXT], TXN_NUM_COLS)
  {
    hide WalkTo;
    var b := s.data[CTRL_TEXT];
    WalkKeeps(EncodingOf(b), EnvOf(s, ""), CTRL_TEXT, b, NumOps(b));
  }
}
