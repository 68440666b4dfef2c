/**
 The stages fit together: what the argument setup gathers is what the encoder and the ELF writer need.
 */
module Pipeline {
  import opened Bytes
  import opened Symbols
  import opened TxnLayout
  import opened TxnMachine
  import opened TxnRuns
  import opened ByteWalk
  import opened TransactionInput
  import opened WalkRefinement
  import opened Scratchpad
  import opened Metadata
  import opened Setup
  import opened Elf
  import opened TransactionPreprocessor

  /** Acceptance of a whole buffer that can be patched in place, as the walkers report it. */
  lemma AcceptanceOfBuffers(enc: Encoding, env: Env, section: string, b0: seq<byte>, syms0: seq<Symbol>,
                            b: seq<byte>, syms: seq<Symbol>, r: Result)
    requires WellFormed(enc, b0) && Patchable(enc, env, b0) && Walked(enc, env, section, b0, syms0, b, syms, r)
    ensures r.Ok? <==> forall k :: 0 <= k < NumOps(b0) ==> Acceptable(enc, env, Ops(enc, b0), k)
  {
    hide After, Acceptable, WellFormed, OpsTo, Cleared, Rendered, WalkTo, Patchable;
    WalkedIsProcessed(enc, env, section, b0, syms0, b, syms, r);
    PayloadsAreWords(enc, b0);
    ExactAcceptance(enc, env, Ops(enc, b0));
  }

  /** A section that can be patched in place adds to the store what the machine computes on its ops. */
  lemma StreamIsMachine(s: Store, section: string, argname: string)
    requires section in s.data
    requires var b := s.data[section]; WellFormed(EncodingOf(b), b) && Patchable(EncodingOf(b), EnvOf(s, argname), b)
    ensures var b := s.data[section];
            var enc, env := EncodingOf(b), EnvOf(s, argname);
            && SectionSafe(s, section, argname)
            && WithStream(s, section, argname) ==
               match Run(enc, env, Ops(enc, b))
               case Failed(error, _) => Refused(BadStream(section, error))
               case Running(st) =>
                 Ready(s.(data := s.data[section := PatchedBuffer(enc, env, b)],
                          syms := s.syms + Rendered(enc, b, section, st.relocs)))
  {
    hide After, OpsTo, WellFormed, Patchable, Cleared, Rendered, WalkTo, MemorySafe;
    var b := s.data[section];
    WalkIsMachine(EncodingOf(b), EnvOf(s, argname), section, b);
    PatchableIsSafe(EncodingOf(b), EnvOf(s, argname), section, b);
  }

  // ----- names, sections and widths of what a walk emits -----

  ghost predicate CleanMap(xrt: map<nat, string>) {
    forall id :: id in xrt ==> '_' !in xrt[id]
  }

  /** 32-bit fields, a name without underscores, and the given section. */
  predicate SoundSymbol(sym: Symbol, section: string) {
    '_' !in sym.name && sym.section == section && sym.size < TWO_32 && sym.addend < TWO_32
  }

  ghost predicate SoundSymbols(syms: seq<Symbol>, section: string) {
    forall i :: 0 <= i < |syms| ==> SoundSymbol(syms[i], section)
  }

  ghost predicate SoundWalker(w: Walker, section: string) {
    SoundSymbols(w.syms, section) && NarrowBds(w.bds)
  }

  ghost predicate NarrowBds(bds: map<nat, (nat, nat)>) {
    forall r :: r in bds ==> bds[r].1 < TWO_32
  }

  lemma DecimalClean(n: nat)
    ensures '_' !in Decimal(n)
  {
  }

  lemma PatchBytesSound(section: string, xrt: map<nat, string>, argname: string, reg: nat, argidx: nat,
                        offset: nat, length: nat, addend: nat, w: Walker)
    requires '_' !in argname && CleanMap(xrt) && length < TWO_32 && SoundWalker(w, section)
    ensures SoundWalker(PatchBytes(section, xrt, argname, reg, argidx, offset, length, addend, w).w, section)
  {
    DecimalClean(argidx);
  }

  lemma {:induction false} ChunksSound(enc: Encoding, b: seq<byte>, bds: map<nat, (nat, nat)>, reg: nat, offset: nat,
                                       n: nat)
    requires NarrowBds(bds)
    ensures NarrowBds(EnterChunks(enc, b, bds, reg, offset, n))
  {
    hide ChunkKey, LengthInBytes;
    if n > 0 {
      ChunksSound(enc, b, bds, reg, offset, n - 1);
      LengthIsNarrow(b, offset + SHIM_DMA_BD_SIZE * (n - 1));
    }
  }

  lemma LengthIsNarrow(b: seq<byte>, at: nat)
    ensures LengthInBytes(b, at) < TWO_32
  {
  }

  lemma ActSound(enc: Encoding, env: Env, section: string, w: Walker)
    requires '_' !in env.argname && CleanMap(env.xrt) && SoundWalker(w, section)
    ensures SoundWalker(Act(enc, env, section, w).w, section)
  {
    hide PatchBytes, OpAt, ChunkKey, LengthInBytes, EnterChunks, NumChunks, SizeAt, TileReg, BdBase, PmName,
         SoundSymbols, CleanMap;
    match OpAt(enc, w.b, w.ptr)
    case BlockWrite(reg, _) =>
      var offset := w.ptr + BwHeader(enc);
      PmNameClean(w.pm);
      ChunksSound(enc, w.b, w.bds, reg, offset, NumChunks(SizeAt(enc, w.b, w.ptr)));
      LengthIsNarrow(w.b, offset);
      PatchBytesSound(section, env.xrt, PmName(w.pm), TileReg(reg) + 4, 0, offset, LengthInBytes(w.b, offset), 0, w);
    case DdrPatch(regaddr, argidx, argplus) =>
      if BdBase(regaddr) in w.bds {
        var (offset, length) := w.bds[BdBase(regaddr)];
        PatchBytesSound(section, env.xrt, env.argname, TileReg(regaddr), (argidx + ARG_OFFSET) % TWO_32,
                        offset, length, argplus, w);
      }
    case _ =>
  }

  lemma PmNameClean(pm: nat)
    ensures '_' !in PmName(pm)
  {
    DecimalClean(pm);
  }

  /** On any buffer at all: a walk's symbols are in its section, with 32-bit fields and names without
      underscores, as the interning key needs. */
  lemma {:induction false} EmittedSound(enc: Encoding, env: Env, section: string, b: seq<byte>, k: nat)
    requires '_' !in env.argname && CleanMap(env.xrt)
    ensures SoundWalker(WalkTo(enc, env, section, b, k).w, section)
  {
    hide Act, SoundSymbols, CleanMap;
    if k > 0 {
      EmittedSound(enc, env, section, b, k - 1);
      ActSound(enc, env, section, WalkTo(enc, env, section, b, k - 1).w);
    } else {
      NothingSound(section);
    }
  }

  lemma NothingSound(section: string)
    ensures SoundSymbols([], section)
  {
  }

  // ----- the store, step by step -----

  /** Every symbol is in a section of the table, with a clean name and 32-bit fields. */
  ghost predicate SoundStore(s: Store) {
    && CleanMap(s.xrt)
    && forall i :: 0 <= i < |s.syms| ==> s.syms[i].section in s.data && SoundSymbol(s.syms[i], s.syms[i].section)
  }

  lemma {:induction false} PmPacketsSound(s: Store, packets: seq<PmPacket>, n: nat)
    requires SoundStore(s) && n <= |packets|
    ensures SoundStore(WithPmPackets(s, packets, n))
  {
    if n > 0 {
      PmPacketsSound(s, packets, n - 1);
    }
  }

  lemma BuffersSound(s: Store, inputs: Inputs)
    requires SoundStore(s)
    ensures SoundStore(WithBuffers(s, inputs))
  {
    var text := s.data[CTRL_TEXT := inputs.mcCode];
    var data := if inputs.controlPacket == [] then text else text[CTRL_DATA := inputs.controlPacket];
    assert SoundStore(s.(data := data));
    PmPacketsSound(s.(data := data), inputs.pmPackets, |inputs.pmPackets|);
  }

  /** The names the metadata gives to external buffers carry no underscore. */
  lemma {:induction false} NamedClean(map0: map<nat, string>, es: seq<External>)
    requires CleanMap(map0)
    ensures CleanMap(Named(map0, es))
  {
    if es != [] {
      NamedClean(map0, es[..|es| - 1]);
      DecimalClean((es[|es| - 1].xrtId + ARG_OFFSET) % TWO_32);
    }
  }

  lemma MetadataNamesClean(map0: map<nat, string>, tree: Tree)
    requires CleanMap(map0)
    ensures CleanMap(TreeNames(map0, tree))
  {
    if tree.buffers.Some? {
      NamedClean(map0, tree.buffers.value);
    } else if tree.dmaPatches.Some? {
      var names := DmaNames(map0, tree.controlIndex);
      forall id | id in names ensures '_' !in names[id] {
        DmaNamesMeaning(map0, tree.controlIndex, id);
        DecimalClean((id + ARG_OFFSET) % TWO_32);
      }
    }
  }

  ghost predicate CleanLocations(ls: seq<Location>) {
    forall l :: l in ls ==> '_' !in l.name && l.addend < TWO_32
  }

  lemma {:induction false} CoalescedClean(packetSize: nat, bufferSize: nat, name: string, argIndex: nat,
                                          cs: seq<Coalesced>)
    requires '_' !in name && forall i :: 0 <= i < |cs| ==> CoalescedValid(packetSize, bufferSize, argIndex, cs[i])
    ensures CleanLocations(CoalescedLocations(name, argIndex, cs))
  {
    if cs != [] {
      CoalescedClean(packetSize, bufferSize, name, argIndex, cs[..|cs| - 1]);
      assert CoalescedValid(packetSize, bufferSize, argIndex, cs[|cs| - 1]);
    }
  }

  lemma {:induction false} BuffersClean(packetSize: nat, es: seq<External>)
    requires forall i :: 0 <= i < |es| ==> BufferValid(packetSize, es[i])
    ensures CleanLocations(AllLocations(es))
  {
    if es != [] {
      BuffersClean(packetSize, es[..|es| - 1]);
      var e := es[|es| - 1];
      assert BufferValid(packetSize, e);
      DecimalClean((e.xrtId + ARG_OFFSET) % TWO_32);
      if e.coalesced.Some? {
        CoalescedClean(packetSize, e.size, ArgName(e.xrtId), e.xrtId, e.coalesced.value);
      }
    }
  }

  lemma AcceptedLocationsClean(packetSize: nat, tree: Tree)
    requires TreeError(packetSize, tree).None?
    ensures CleanLocations(TreeLocations(tree))
  {
    if tree.buffers.Some? {
      AcceptedBuffers(packetSize, tree.buffers.value);
      BuffersClean(packetSize, tree.buffers.value);
    } else if tree.dmaPatches.Some? {
      var ps := tree.dmaPatches.value;
      AcceptedDmaPatches(packetSize, ps);
      forall l | l in DmaLocations(ps) ensures '_' !in l.name && l.addend < TWO_32 {
        DecimalClean((l.argIndex + ARG_OFFSET) % TWO_32);
      }
    }
  }

  lemma MetadataSound(s: Store, meta: Option<Tree>)
    requires SoundStore(s)
    ensures WithMetadata(s, meta).Ready? ==> SoundStore(WithMetadata(s, meta).s)
  {
    hide TreeError, TreeLocations, TreeNames, CleanMap;
    if WithMetadata(s, meta).Ready? && meta.Some? {
      var ls := TreeLocations(meta.value);
      var next := WithMetadata(s, meta).s;
      MetadataNamesClean(s.xrt, meta.value);
      AcceptedLocationsClean(PacketSize(s.data), meta.value);
      forall i | 0 <= i < |next.syms|
        ensures next.syms[i].section in next.data && SoundSymbol(next.syms[i], next.syms[i].section)
      {
        if i < |s.syms| {
          assert next.syms[i] == s.syms[i];
        } else {
          assert next.syms[i] == SymbolAt(ls[i - |s.syms|]) && ls[i - |s.syms|] in ls;
        }
      }
    }
  }

  lemma StreamSound(s: Store, section: string, argname: string)
    requires section in s.data && SoundStore(s) && '_' !in argname
    ensures var p := WithStream(s, section, argname);
            p.Ready? ==> SoundStore(p.s) && s.data.Keys == p.s.data.Keys
  {
    hide WalkTo, CleanMap;
    var b := s.data[section];
    EmittedSound(EncodingOf(b), EnvOf(s, argname), section, b, NumOps(b));
    var p := WithStream(s, section, argname);
    if p.Ready? {
      var w := SectionWalk(s, section, argname).w;
      forall i | 0 <= i < |p.s.syms|
        ensures p.s.syms[i].section in p.s.data && SoundSymbol(p.s.syms[i], p.s.syms[i].section)
      {
        if i < |s.syms| {
          assert p.s.syms[i] == s.syms[i];
        } else {
          assert p.s.syms[i] == w.syms[i - |s.syms|];
        }
      }
    }
  }

  lemma PreemptSound(s: Store, files: map<string, seq<byte>>, col: nat)
    requires SoundStore(s)
    ensures WithPreempt(s, files, col).Ready? ==> SoundStore(WithPreempt(s, files, col).s)
  {
    hide WithStream, SaveFile, RestoreFile;
    if SaveFile(col) in files && RestoreFile(col) in files {
      var read := WithFiles(s, files, col);
      assert SoundStore(read);
      StreamSound(read, PREEMPT_SAVE, SCRATCH_PAD);
      var p := WithStream(read, PREEMPT_SAVE, SCRATCH_PAD);
      if p.Ready? {
        StreamSound(p.s, PREEMPT_RESTORE, SCRATCH_PAD);
      }
    }
  }

  lemma {:induction false} LibsSound(s: Store, inputs: Inputs, col: nat, n: nat)
    requires SoundStore(s) && n <= |inputs.libs|
    ensures WithLibs(s, inputs, col, n).Ready? ==> SoundStore(WithLibs(s, inputs, col, n).s)
  {
    hide WithPreempt, SoundStore;
    if n > 0 {
      LibsSound(s, inputs, col, n - 1);
      if WithLibs(s, inputs, col, n - 1).Ready? {
        PreemptSound(WithLibs(s, inputs, col, n - 1).s, inputs.files, col);
      }
    }
  }

  /** Whatever is gathered from an empty store is sound. */
  lemma GatheredSound(inputs: Inputs)
    ensures Gathered(EMPTY, inputs).Ready? ==> SoundStore(Gathered(EMPTY, inputs).s)
  {
    hide WithBuffers, WithMetadata, WithStream, WithLibs, SoundStore, NumColsOf;
    EmptySound();
    BuffersSound(EMPTY, inputs);
    MetadataSound(WithBuffers(EMPTY, inputs), inputs.meta);
    if Described(EMPTY, inputs).Ready? {
      StreamSound(Described(EMPTY, inputs).s, CTRL_TEXT, "");
      if Coded(EMPTY, inputs).Ready? {
        var coded := Coded(EMPTY, inputs).s;
        LibsSound(coded, inputs, NumColsOf(coded), |inputs.libs|);
      }
    }
  }

  lemma EmptySound()
    ensures SoundStore(EMPTY)
  {
  }

  /** Symbol i of the final list: the one gathered, but for the size a resize gave it. */
  lemma ResizesKeep(syms: seq<Symbol>, i: nat)
    requires i < |syms|
    ensures Resizes(syms)[i] == syms[i].(size := Resizes(syms)[i].size)
    ensures syms[i].section != PREEMPT_SAVE && syms[i].section != PREEMPT_RESTORE ==> Resizes(syms)[i] == syms[i]
  {
    hide MaxExtent;
  }

  /** Every symbol of the final list has a clean name and a section in the table. */
  lemma ArrangedSound(inputs: Inputs)
    ensures var p := Arranged(EMPTY, inputs);
            p.Ready? ==> CleanNames(p.s.syms) && forall i :: 0 <= i < |p.s.syms| ==> p.s.syms[i].section in p.s.data
  {
    hide Gathered, Resizes;
    GatheredSound(inputs);
    if Gathered(EMPTY, inputs).Ready? {
      var s, p := Gathered(EMPTY, inputs).s, Arranged(EMPTY, inputs);
      forall i | 0 <= i < |s.syms| ensures '_' !in p.s.syms[i].name && p.s.syms[i].section in p.s.data {
        ResizesKeep(s.syms, i);
      }
    }
  }

  /** What the resize gives a symbol of a preemption section covers its transfer. */
  lemma ResizeCovers(inputs: Inputs, i: nat)
    requires Arranged(EMPTY, inputs).Ready? && i < |Gathered(EMPTY, inputs).s.syms|
    requires Gathered(EMPTY, inputs).s.syms[i].section in {PREEMPT_SAVE, PREEMPT_RESTORE}
    ensures var gathered, final := Gathered(EMPTY, inputs).s.syms[i], Arranged(EMPTY, inputs).s.syms[i];
            gathered.addend + gathered.size <= final.size && final == gathered.(size := final.size)
  {
    hide Gathered, MaxExtent;
    GatheredSound(inputs);
    var syms := Gathered(EMPTY, inputs).s.syms;
    assert Narrow(syms);
    ResizesKeep(syms, i);
    if syms[i].section == PREEMPT_SAVE {
      ResizedCovers(syms, PREEMPT_SAVE, i);
    } else {
      OtherSectionsExtent(syms, Resized(syms, PREEMPT_SAVE), PREEMPT_RESTORE);
      ResizedCovers(syms, PREEMPT_RESTORE, i);
    }
  }

  // ----- from the store to the tables -----

  /** The sections that symbols are in have bytes. */
  ghost predicate Placed(s: Store) {
    forall i :: 0 <= i < |s.syms| ==> s.syms[i].section in s.data && s.data[s.syms[i].section] != []
  }

  lemma {:induction false} SectionOfWriter(writers: seq<Writer>, i: nat)
    requires i < |writers| && writers[i].data != []
    ensures SectionExists(SectionsOf(writers), writers[i].name)
    decreases |writers|
  {
    var last := |writers| - 1;
    var before := SectionsOf(writers[..last]);
    var all := SectionsOf(writers);
    if i < last {
      SectionOfWriter(writers[..last], i);
      var k :| 0 <= k < |before| && before[k].name == writers[i].name;
      assert all[k] == before[k];
    } else {
      assert all[|before|].name == writers[i].name;
    }
  }

  lemma SectionOfKey(s: Store, keys: seq<string>, writers: seq<Writer>, key: string)
    requires Order(keys, s.data) && EncodedAs(keys, s.data, s.syms, writers) && key in s.data && s.data[key] != []
    ensures SectionExists(SectionsOf(writers), key)
  {
    hide SectionsOf, SectionExists;
    var i :| 0 <= i < |keys| && keys[i] == key;
    SectionOfWriter(writers, i);
  }

  /** For any iteration order of the table: where the symbols' sections have bytes, all symbols survive to
      the writer or all are lost, as the first section has bytes or not, and the writer finds the section of
      each that it enters. */
  lemma StoreReachesTables(s: Store, keys: seq<string>, writers: seq<Writer>)
    requires Placed(s) && s.data != map[] && Order(keys, s.data) && EncodedAs(keys, s.data, s.syms, writers)
    ensures keys != [] && keys[0] in s.data
    ensures Collected(writers) == if s.data[keys[0]] != [] then s.syms else []
    ensures (forall key :: key in s.data ==> s.data[key] != []) ==> Collected(writers) == s.syms
    ensures OwnersPlaced(SectionsOf(writers), Collected(writers))
    ensures CarriesTable(SectionsOf(writers), keys, s.data)
  {
    hide Collected, SectionsOf, Owner, SectionExists, CarriesTable;
    NonEmptyOrder(keys, s.data);
    SectionsCarryTable(keys, s.data, s.syms, writers);
    FirstSectionDecides(keys, s.data, s.syms, writers);
    forall i | 0 <= i < |s.syms| ensures SectionExists(SectionsOf(writers), s.syms[i].section) {
      SectionOfKey(s, keys, writers, s.syms[i].section);
    }
  }

  /** The relocation of a symbol with a clean name leads to an entry with its own name, size and section. */
  ghost predicate RelocatesItself(sections: seq<Section>, dynsym: seq<Entry>, sym: Symbol, r: Rela) {
    && r == Rela(sym.pos, r.symbol, sym.schema, sym.addend)
    && SectionExists(sections, sym.section) && 1 <= r.symbol < |dynsym|
    && dynsym[r.symbol] == Entry(sym.name, sym.size, SectionIndex(sections, sym.section))
  }

  lemma CleanRelocates(sections: seq<Section>, dynsym: seq<Entry>, syms: seq<Symbol>, r: Rela, i: nat)
    requires i < |syms| && CleanNames(syms) && Relocates(sections, dynsym, syms, r, i)
    ensures RelocatesItself(sections, dynsym, syms[i], r)
  {
    hide Owner, SectionIndex, SectionExists;
    CleanNamesCannotCollide(syms);
    OwnEntryExact(syms);
    assert TripleOf(syms[Owner(syms, i)]) == TripleOf(syms[i]);
  }

  /** The keys of the table, in whatever order the hash map yields them. */
  method KeysOf(data: map<string, seq<byte>>) returns (keys: seq<string>)
    ensures Order(keys, data)
  {
    keys := [];
    var rest := data.Keys;
    while rest != {}
      invariant rest <= data.Keys
      invariant forall key :: key in data ==> (key in keys <==> key !in rest)
      invariant forall i :: 0 <= i < |keys| ==> keys[i] in data
      invariant forall i, j :: 0 <= i < j < |keys| ==> keys[i] != keys[j]
      decreases |rest|
    {
      var key :| key in rest;
      assert key !in keys;
      keys := keys + [key];
      rest := rest - {key};
    }
  }

  /** What the assembler returns: the writer with its tables, the symbols that reached them, and the order
      in which the hash map yielded the sections.  The file's sections carry the bytes of the final table.
      The section yielded first decides: with bytes all final symbols are in the tables, and without none
      is. */
  method Assemble(inputs: Inputs)
    returns (failure: Option<Refusal>, writer: ElfWriter, kept: seq<Symbol>, keys: seq<string>)
    requires InputsSafe(EMPTY, inputs)
    requires Arranged(EMPTY, inputs).Ready? ==> Placed(Arranged(EMPTY, inputs).s)
    ensures fresh(writer)
    ensures match Arranged(EMPTY, inputs)
            case Refused(why) => failure == Some(why)
            case Ready(s) =>
              && failure == None && Order(keys, s.data) && keys != []
              && CarriesTable(writer.sections, keys, s.data)
              && kept == (if s.data[keys[0]] != [] then s.syms else [])
              && |writer.rela| == |kept|
              && forall i :: 0 <= i < |kept| ==>
                   RelocatesItself(writer.sections, writer.dynsym, kept[i], writer.rela[i])
  {
    hide InputsSafe, Arranged, Placed, CleanNames, Relocates, RelocatesItself, EncodedAs, Order, OwnersPlaced, TableFor,
         Interned, Collected, SectionsOf, Elf.KeyOf, CarriesTable;
    writer := new ElfWriter();
    kept, keys := [], [];
    var input := new AieBlobTransactionInput();
    failure := input.SetArgs(inputs);
    if failure.Some? {
      return;
    }
    ghost var s := Arranged(EMPTY, inputs).s;
    keys := KeysOf(input.data);
    TextIsThere(inputs);
    OrderCovers(keys, s.data);
    var writers := Encode(keys, input.data, input.syms);
    StoreReachesTables(s, keys, writers);
    kept := writer.Process(writers);
    ArrangedSound(inputs);
    NothingClean();
    forall i | 0 <= i < |kept| ensures RelocatesItself(writer.sections, writer.dynsym, kept[i], writer.rela[i]) {
      CleanRelocates(writer.sections, writer.dynsym, kept, writer.rela[i], i);
    }
  }

  lemma NothingClean()
    ensures CleanNames([])
  {
  }

  lemma OrderCovers(keys: seq<string>, data: map<string, seq<byte>>)
    requires Order(keys, data) && data != map[]
    ensures keys != [] && forall i :: 0 <= i < |keys| ==> keys[i] in data
  {
    NonEmptyOrder(keys, data);
  }

  lemma TextIsThere(inputs: Inputs)
    ensures Arranged(EMPTY, inputs).Ready? ==> CTRL_TEXT in Arranged(EMPTY, inputs).s.data
  {
    hide WithStream, Resizes, NumColsOf, Described;
    if Coded(EMPTY, inputs).Ready? {
      var coded := Coded(EMPTY, inputs).s;
      LibsKeepKeys(coded, inputs, NumColsOf(coded), |inputs.libs|);
    }
  }

  lemma {:induction false} LibsKeepKeys(s: Store, inputs: Inputs, col: nat, n: nat)
    requires n <= |inputs.libs|
    ensures WithLibs(s, inputs, col, n).Ready? ==> s.data.Keys <= WithLibs(s, inputs, col, n).s.data.Keys
  {
    hide SectionWalk, SaveFile, RestoreFile;
    if n > 0 {
      LibsKeepKeys(s, inputs, col, n - 1);
    }
  }
}
