/**
 The control packet's section: where the metadata's symbols go, and whether it has bytes when the ELF
 writer looks it up.
 */
module PacketSection {
  import opened Bytes
  import opened Symbols
  import opened TxnLayout
  import opened TxnMachine
  import opened TxnEncode
  import opened ByteWalk
  import opened WalkRefinement
  import opened Metadata
  import opened Setup
  import opened Pipeline

  ghost predicate HasPacketSymbol(syms: seq<Symbol>) {
    exists i :: 0 <= i < |syms| && syms[i].section == CTRL_DATA
  }

  /** Two stores with the same packet section, in one of which it has symbols exactly when in the other. */
  ghost predicate SamePacket(s: Store, t: Store) {
    && (CTRL_DATA in s.data <==> CTRL_DATA in t.data)
    && (CTRL_DATA in s.data ==> s.data[CTRL_DATA] == t.data[CTRL_DATA])
    && (HasPacketSymbol(s.syms) <==> HasPacketSymbol(t.syms))
  }

  /** Symbols outside the packet section are in sections with bytes. */
  ghost predicate StreamsPlaced(s: Store) {
    forall i :: 0 <= i < |s.syms| && s.syms[i].section != CTRL_DATA ==>
      s.syms[i].section in s.data && s.data[s.syms[i].section] != []
  }

  lemma PmSectionIsOther(id: nat)
    ensures PmSection(id) != CTRL_DATA
  {
    assert |".ctrlpkt.pm."| == 12 && |PmSection(id)| > 12;
  }

  lemma {:induction false} PmPacketsKeep(s: Store, packets: seq<PmPacket>, n: nat)
    requires n <= |packets|
    ensures SamePacket(s, WithPmPackets(s, packets, n)) && WithPmPackets(s, packets, n).syms == s.syms
  {
    hide PmSection;
    if n > 0 {
      PmPacketsKeep(s, packets, n - 1);
      PmSectionIsOther(packets[n - 1].id);
    }
  }

  /** Before the metadata: no symbols, and the packet section is the packet, if there is one. */
  lemma BuffersPacket(inputs: Inputs)
    ensures var s := WithBuffers(EMPTY, inputs);
            && s.syms == [] && (CTRL_DATA in s.data <==> inputs.controlPacket != [])
            && (CTRL_DATA in s.data ==> s.data[CTRL_DATA] == inputs.controlPacket)
  {
    hide WithPmPackets;
    var text := map[CTRL_TEXT := inputs.mcCode];
    var data := if inputs.controlPacket == [] then text else text[CTRL_DATA := inputs.controlPacket];
    assert EMPTY.data[CTRL_TEXT := inputs.mcCode] == text;
    PmPacketsKeep(EMPTY.(data := data), inputs.pmPackets, |inputs.pmPackets|);
  }

  function MetaLocations(inputs: Inputs): seq<Location> {
    if inputs.meta.None? then [] else TreeLocations(inputs.meta.value)
  }

  /** After it: the packet section has symbols exactly when the tree has locations, and then exists. */
  lemma DescribedPacket(inputs: Inputs)
    requires Described(EMPTY, inputs).Ready?
    ensures var s := Described(EMPTY, inputs).s;
            && StreamsPlaced(s) && (HasPacketSymbol(s.syms) <==> MetaLocations(inputs) != [])
            && (HasPacketSymbol(s.syms) ==> CTRL_DATA in s.data && s.data[CTRL_DATA] == inputs.controlPacket)
  {
    hide TreeLocations, TreeError, TreeNames, WithBuffers;
    BuffersPacket(inputs);
    var ls, s := MetaLocations(inputs), Described(EMPTY, inputs).s;
    if inputs.meta.Some? {
      assert s.syms == SymbolsAt(ls);
      if ls != [] {
        assert s.syms[0].section == CTRL_DATA;
      }
    }
  }

  /** A stream in another section leaves the packet section and its symbols alone. */
  lemma StreamKeeps(s: Store, section: string, argname: string)
    requires section in s.data && section != CTRL_DATA && '_' !in argname && CleanMap(s.xrt)
    requires SectionSafe(s, section, argname) && StreamsPlaced(s) && WithStream(s, section, argname).Ready?
    ensures SamePacket(s, WithStream(s, section, argname).s) && StreamsPlaced(WithStream(s, section, argname).s)
  {
    hide WalkTo, CleanMap, StepSafe;
    var b, next := s.data[section], WithStream(s, section, argname).s;
    EmittedSound(EncodingOf(b), EnvOf(s, argname), section, b, NumOps(b));
    WalkKeeps(EncodingOf(b), EnvOf(s, argname), section, b, NumOps(b));
    assert |next.data[section]| == |b| >= TXN_HEADER;
    var w := SectionWalk(s, section, argname).w;
    assert forall i :: 0 <= i < |s.syms| ==> next.syms[i] == s.syms[i];
    forall i | |s.syms| <= i < |next.syms| ensures next.syms[i].section == section {
      assert next.syms[i] == w.syms[i - |s.syms|] && SoundSymbol(w.syms[i - |s.syms|], section);
    }
  }

  lemma PreemptKeeps(s: Store, files: map<string, seq<byte>>, col: nat)
    requires CleanMap(s.xrt) && StreamsPlaced(s) && PreemptSafe(s, files, col) && WithPreempt(s, files, col).Ready?
    ensures var next := WithPreempt(s, files, col).s;
            SamePacket(s, next) && StreamsPlaced(next) && next.xrt == s.xrt
  {
    hide SectionWalk, SaveFile, RestoreFile, CleanMap, WithStream, StreamsPlaced, MemorySafe;
    var read := WithFiles(s, files, col);
    var saved := WithStream(read, PREEMPT_SAVE, SCRATCH_PAD).s;
    FilesPlaced(s, files, col);
    StreamShape(read, PREEMPT_SAVE, SCRATCH_PAD);
    StreamKeeps(read, PREEMPT_SAVE, SCRATCH_PAD);
    StreamShape(saved, PREEMPT_RESTORE, SCRATCH_PAD);
    StreamKeeps(saved, PREEMPT_RESTORE, SCRATCH_PAD);
  }

  lemma StreamShape(s: Store, section: string, argname: string)
    requires section in s.data && WithStream(s, section, argname).Ready?
    ensures var next := WithStream(s, section, argname).s;
            && next.xrt == s.xrt && next.data.Keys == s.data.Keys
            && forall key :: key in s.data && key != section ==> next.data[key] == s.data[key]
  {
    hide SectionWalk;
  }

  /** Files that can be walked are not empty. */
  lemma FilesPlaced(s: Store, files: map<string, seq<byte>>, col: nat)
    requires StreamsPlaced(s) && PreemptSafe(s, files, col) && WithPreempt(s, files, col).Ready?
    ensures var read := WithFiles(s, files, col); StreamsPlaced(read) && SamePacket(s, read)
  {
    hide SectionWalk, SaveFile, RestoreFile, WithStream, StepSafe;
    var read := WithFiles(s, files, col);
    var saved := WithStream(read, PREEMPT_SAVE, SCRATCH_PAD).s;
    StreamShape(read, PREEMPT_SAVE, SCRATCH_PAD);
    assert |read.data[PREEMPT_SAVE]| >= TXN_HEADER && |saved.data[PREEMPT_RESTORE]| >= TXN_HEADER;
    assert read.data[PREEMPT_RESTORE] == saved.data[PREEMPT_RESTORE];
  }

  lemma {:induction false} LibsKeep(s: Store, inputs: Inputs, col: nat, n: nat)
    requires n <= |inputs.libs| && CleanMap(s.xrt) && StreamsPlaced(s) && WithLibs(s, inputs, col, n).Ready?
    requires forall k :: 0 <= k < n ==> LibSafe(s, inputs, col, k)
    ensures var next := WithLibs(s, inputs, col, n).s;
            SamePacket(s, next) && StreamsPlaced(next) && next.xrt == s.xrt
  {
    hide WithPreempt, PreemptSafe, CleanMap, StreamsPlaced;
    if n > 0 {
      LibsKeep(s, inputs, col, n - 1);
      assert LibSafe(s, inputs, col, n - 1);
      if inputs.libs[n - 1] == PREEMPT_LIB {
        PreemptKeeps(WithLibs(s, inputs, col, n - 1).s, inputs.files, col);
      }
    }
  }

  lemma GatheredPacket(inputs: Inputs)
    requires InputsSafe(EMPTY, inputs) && Gathered(EMPTY, inputs).Ready?
    ensures var s := Gathered(EMPTY, inputs).s;
            && StreamsPlaced(s) && (HasPacketSymbol(s.syms) <==> MetaLocations(inputs) != [])
            && (HasPacketSymbol(s.syms) ==> CTRL_DATA in s.data && s.data[CTRL_DATA] == inputs.controlPacket)
  {
    hide WithStream, WithLibs, Described, StreamsPlaced, SectionSafe, LibSafe, NumColsOf, MetaLocations;
    var described := Described(EMPTY, inputs).s;
    DescribedPacket(inputs);
    assert CleanMap(described.xrt) by { DescribedClean(inputs); }
    StreamKeeps(described, CTRL_TEXT, "");
    StreamShape(described, CTRL_TEXT, "");
    var coded := Coded(EMPTY, inputs).s;
    LibsKeep(coded, inputs, NumColsOf(coded), |inputs.libs|);
  }

  lemma DescribedClean(inputs: Inputs)
    requires Described(EMPTY, inputs).Ready?
    ensures CleanMap(Described(EMPTY, inputs).s.xrt)
  {
    hide WithBuffers, WithMetadata;
    EmptySound();
    BuffersSound(EMPTY, inputs);
    MetadataSound(WithBuffers(EMPTY, inputs), inputs.meta);
  }

  /** Once the setup has accepted its inputs, every symbol's section exists and has bytes exactly when the
      metadata names no patch location or the control packet is not empty. */
  lemma PlacedExact(inputs: Inputs)
    requires InputsSafe(EMPTY, inputs) && Arranged(EMPTY, inputs).Ready?
    ensures Placed(Arranged(EMPTY, inputs).s) <==> MetaLocations(inputs) == [] || inputs.controlPacket != []
  {
    hide Gathered, Resizes, MetaLocations, InputsSafe;
    var gathered, s := Gathered(EMPTY, inputs).s, Arranged(EMPTY, inputs).s;
    GatheredPacket(inputs);
    forall i | 0 <= i < |s.syms| ensures s.syms[i].section == gathered.syms[i].section {
      ResizesKeep(gathered.syms, i);
    }
    if HasPacketSymbol(gathered.syms) {
      var i :| 0 <= i < |gathered.syms| && gathered.syms[i].section == CTRL_DATA;
      assert s.syms[i].section == CTRL_DATA;
    }
  }

  /** One external buffer with a location at offset 0, and no control packet. */
  function EmptyPacketInputs(mcCode: seq<byte>): Inputs {
    Inputs(mcCode, Some(Tree(Some([External(0, false, 0, 0, None, Some([0]))]), None, None)), [], [], map[], [])
  }

  /** Validation accepts it: the symbol is made at a wrapped position, asking for the packet's size has made
      its section, and that section is empty. */
  lemma EmptyPacketDescribed(mcCode: seq<byte>)
    ensures var p := Described(EMPTY, EmptyPacketInputs(mcCode));
            && p.Ready? && p.s.syms == [Symbol("3", TWO_32 - 8, 0, 0, CTRL_DATA, ControlPacket48, 0)]
            && CTRL_DATA in p.s.data && p.s.data[CTRL_DATA] == [] && p.s.data[CTRL_TEXT] == mcCode
  {
    var inputs := EmptyPacketInputs(mcCode);
    var e := External(0, false, 0, 0, None, Some([0]));
    assert [e][..0] == [];
    assert AllLocations([e]) == AllLocations([e][..0]) + BufferLocations(e);
    assert BufferLocations(e) == [Location("3", 0, 0, 0)];
    assert BufferValid(0, [e][0]);
    AcceptedBuffers(0, [e]);
    BuffersPacket(inputs);
  }

  /** The control code without ops is accepted as it is. */
  lemma EmptyCodeWalks(env: Env, numCols: byte)
    ensures var b := EncodeStream(Legacy, numCols, []);
            && EncodingOf(b) == Legacy && MemorySafe(Legacy, env, CTRL_TEXT, b)
            && WalkAll(Legacy, env, CTRL_TEXT, b) == Walking(StartOf(b))
  {
    hide EncodeStream, WellFormed;
    var b := EncodeStream(Legacy, numCols, []);
    SmallStream(Legacy, numCols, []);
    WellFormedShort(Legacy, b);
    assert NumOps(b) == |Ops(Legacy, b)| == 0;
  }

  /** Inputs that the setup accepts, with such a tree and no op at all, whose symbol is in a section without
      bytes: the ELF writer will not find it. */
  lemma EmptyPacketAccepted(numCols: byte)
    ensures var inputs := EmptyPacketInputs(EncodeStream(Legacy, numCols, []));
            && InputsSafe(EMPTY, inputs) && Arranged(EMPTY, inputs).Ready?
            && Arranged(EMPTY, inputs).s.syms == [Symbol("3", TWO_32 - 8, 0, 0, CTRL_DATA, ControlPacket48, 0)]
            && CTRL_DATA in Arranged(EMPTY, inputs).s.data && Arranged(EMPTY, inputs).s.data[CTRL_DATA] == []
            && !Placed(Arranged(EMPTY, inputs).s)
  {
    hide EncodeStream, MemorySafe, WalkAll, Described, EmptyPacketInputs, Resizes;
    var b := EncodeStream(Legacy, numCols, []);
    var inputs := EmptyPacketInputs(b);
    EmptyPacketDescribed(b);
    var s := Described(EMPTY, inputs).s;
    EmptyCodeWalks(EnvOf(s, ""), numCols);
    NoLibraries(b);
    assert s.syms + [] == s.syms;
    assert Gathered(EMPTY, inputs) == Ready(s);
    ResizesKeep(s.syms, 0);
    assert Resizes(s.syms) == s.syms;
  }

  lemma NoLibraries(mcCode: seq<byte>)
    ensures EmptyPacketInputs(mcCode).libs == []
  {
  }
}
