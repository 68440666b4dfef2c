/**
 What the argument setup leaves behind, read off its inputs: the section table key by key, the names, the
 PM ids and the symbols before the control code is walked, and then what the walks add to them.
 */
module SetupMeaning {
  import opened Bytes
  import opened Symbols
  import opened TxnLayout
  import opened TxnMachine
  import opened ByteWalk
  import opened Scratchpad
  import opened Metadata
  import opened MetadataSites
  import opened Setup

  // ----- before the control code is walked -----

  function PmKey(id: nat): string { ".ctrlpkt.pm." + Decimal(id) }

  /** PM packet i is the last with its id. */
  ghost predicate LastOfId(packets: seq<PmPacket>, i: nat)
    requires i < |packets|
  {
    forall j :: i < j < |packets| ==> packets[j].id != packets[i].id
  }

  ghost predicate IsPmKey(packets: seq<PmPacket>, key: string) {
    exists i :: 0 <= i < |packets| && key == PmKey(packets[i].id)
  }

  /** The control packet: the one given, else the one there was, else nothing. */
  function Packet(data: map<string, seq<byte>>, given: seq<byte>): seq<byte> {
    if given != [] then given else if ".ctrldata" in data then data[".ctrldata"] else []
  }

  /** The section table, key by key; `asked` says that a patch location has been looked at. */
  ghost predicate TableAfter(before: map<string, seq<byte>>, inputs: Inputs, asked: bool,
                             after: map<string, seq<byte>>)
  {
    && (forall key :: key in after <==>
          || key in before || key == ".ctrltext" || (key == ".ctrldata" && (inputs.controlPacket != [] || asked))
          || IsPmKey(inputs.pmPackets, key))
    && after[".ctrltext"] == inputs.mcCode
    && (".ctrldata" in after ==> after[".ctrldata"] == Packet(before, inputs.controlPacket))
    && (forall i :: 0 <= i < |inputs.pmPackets| && LastOfId(inputs.pmPackets, i) ==>
          after[PmKey(inputs.pmPackets[i].id)] == inputs.pmPackets[i].data)
    && forall key :: key in before && key != ".ctrltext" && key != ".ctrldata" && !IsPmKey(inputs.pmPackets, key) ==>
         after[key] == before[key]
  }

  /** A LOAD_PM_START may name exactly the ids there were and those of the packets. */
  ghost predicate IdsAfter(before: seq<nat>, packets: seq<PmPacket>, after: seq<nat>) {
    && |after| == |before| + |packets| && after[..|before|] == before
    && forall i :: 0 <= i < |packets| ==> after[|before| + i] == packets[i].id
  }

  lemma PmKeysDiffer(a: nat, b: nat)
    ensures PmKey(a) == PmKey(b) ==> a == b
    ensures PmKey(a) != ".ctrltext" && PmKey(a) != ".ctrldata"
  {
    assert PmKey(a)[12..] == Decimal(a) && PmKey(b)[12..] == Decimal(b);
    if PmKey(a) == PmKey(b) {
      DecimalInjective(a, b);
    }
    assert PmKey(a)[5] == 'p' != ".ctrltext"[5];
    assert PmKey(a)[5] != ".ctrldata"[5];
  }

  /** What the first n PM packets add. */
  lemma {:induction false} PacketsAdd(s: Store, packets: seq<PmPacket>, n: nat)
    requires n <= |packets|
    ensures var t := WithPmPackets(s, packets, n);
            && t.syms == s.syms && t.xrt == s.xrt && IdsAfter(s.pmIds, packets[..n], t.pmIds)
            && (forall key :: key in t.data <==> key in s.data || IsPmKey(packets[..n], key))
            && (forall key :: key in s.data && !IsPmKey(packets[..n], key) ==> t.data[key] == s.data[key])
            && forall i :: 0 <= i < n && LastOfId(packets[..n], i) ==> t.data[PmKey(packets[i].id)] == packets[i].data
  {
    hide PmKey, IsPmKey, LastOfId, IdsAfter, PmSection;
    if n == 0 {
      NoPackets(s, packets);
    } else {
      PacketsAdd(s, packets, n - 1);
      var before, t := WithPmPackets(s, packets, n - 1), WithPmPackets(s, packets, n);
      var last := packets[n - 1];
      PmKeyIsSection(last.id);
      OneMoreId(s.pmIds, packets, n, before.pmIds);
      forall key ensures IsPmKey(packets[..n], key) <==> IsPmKey(packets[..n - 1], key) || key == PmKey(last.id) {
        OneMoreKey(packets, n, key);
      }
      forall i | 0 <= i < n && LastOfId(packets[..n], i)
        ensures PmKey(packets[i].id) in t.data && t.data[PmKey(packets[i].id)] == packets[i].data
      {
        if i < n - 1 {
          EarlierLast(packets, n, i);
        }
      }
    }
  }

  lemma NoPackets(s: Store, packets: seq<PmPacket>)
    ensures IdsAfter(s.pmIds, packets[..0], s.pmIds) && forall key :: !IsPmKey(packets[..0], key)
  {
  }

  lemma OneMoreId(ids: seq<nat>, packets: seq<PmPacket>, n: nat, after: seq<nat>)
    requires 0 < n <= |packets| && IdsAfter(ids, packets[..n - 1], after)
    ensures IdsAfter(ids, packets[..n], after + [packets[n - 1].id])
  {
    assert forall i :: 0 <= i < n - 1 ==> packets[..n - 1][i] == packets[..n][i];
  }

  lemma OneMoreKey(packets: seq<PmPacket>, n: nat, key: string)
    requires 0 < n <= |packets|
    ensures IsPmKey(packets[..n], key) <==> IsPmKey(packets[..n - 1], key) || key == PmKey(packets[n - 1].id)
  {
    hide PmKey;
    var before, after := packets[..n - 1], packets[..n];
    if key == PmKey(packets[n - 1].id) {
      assert key == PmKey(after[n - 1].id);
    }
    if i :| 0 <= i < |before| && key == PmKey(before[i].id) {
      assert key == PmKey(after[i].id);
    }
    if i :| 0 <= i < n - 1 && key == PmKey(after[i].id) {
      assert key == PmKey(before[i].id);
    }
  }

  lemma EarlierLast(packets: seq<PmPacket>, n: nat, i: nat)
    requires i < n - 1 < |packets| && LastOfId(packets[..n], i)
    ensures LastOfId(packets[..n - 1], i) && PmKey(packets[i].id) != PmKey(packets[n - 1].id)
    ensures IsPmKey(packets[..n - 1], PmKey(packets[i].id))
  {
    hide PmKey;
    var before, after := packets[..n - 1], packets[..n];
    assert forall j :: i < j < n - 1 ==> before[j].id == after[j].id;
    assert after[n - 1].id != after[i].id;
    PmKeysDiffer(packets[i].id, packets[n - 1].id);
    assert PmKey(before[i].id) == PmKey(packets[i].id);
  }

  lemma PmKeyIsSection(id: nat)
    ensures PmKey(id) == PmSection(id)
  {
  }

  lemma BuffersMeaning(s: Store, inputs: Inputs)
    ensures var t := WithBuffers(s, inputs);
            && t.syms == s.syms && t.xrt == s.xrt && IdsAfter(s.pmIds, inputs.pmPackets, t.pmIds)
            && TableAfter(s.data, inputs, false, t.data)
  {
    hide PmKey, LastOfId, IdsAfter, IsPmKey, WithPmPackets;
    var text := s.data[CTRL_TEXT := inputs.mcCode];
    var data := if inputs.controlPacket == [] then text else text[CTRL_DATA := inputs.controlPacket];
    PacketsAdd(s.(data := data), inputs.pmPackets, |inputs.pmPackets|);
    assert inputs.pmPackets[..|inputs.pmPackets|] == inputs.pmPackets;
    OtherKeys(inputs.pmPackets);
  }

  lemma OtherKeys(packets: seq<PmPacket>)
    ensures !IsPmKey(packets, ".ctrltext") && !IsPmKey(packets, ".ctrldata")
  {
    hide PmKey;
    forall i | 0 <= i < |packets| ensures PmKey(packets[i].id) != ".ctrltext" && PmKey(packets[i].id) != ".ctrldata" {
      PmKeysDiffer(packets[i].id, 0);
    }
  }

  ghost predicate SomeLocation(meta: Option<Tree>) {
    meta.Some? && !TreeSymbols(meta.value, [])
  }

  /** The store that the control code's walk starts from. */
  ghost predicate DescribedAs(s: Store, inputs: Inputs, t: Store) {
    && TableAfter(s.data, inputs, SomeLocation(inputs.meta), t.data)
    && IdsAfter(s.pmIds, inputs.pmPackets, t.pmIds)
    && (inputs.meta.None? ==> t.xrt == s.xrt && t.syms == s.syms)
    && (inputs.meta.Some? ==>
          && NamesOf(s.xrt, inputs.meta.value, t.xrt)
          && s.syms <= t.syms && TreeSymbols(inputs.meta.value, t.syms[|s.syms|..]))
  }

  /** Before the control code is walked: the inputs are refused exactly for an invalid tree, and otherwise
      table, ids, names and symbols are those that the inputs say. */
  lemma DescribedMeaning(s: Store, inputs: Inputs)
    ensures var size := |Packet(s.data, inputs.controlPacket)| % 0x1_0000_0000;
            match Described(s, inputs)
            case Ready(t) =>
              && (inputs.meta.Some? ==> TreeValid(size, inputs.meta.value)) && DescribedAs(s, inputs, t)
            case Refused(why) =>
              && inputs.meta.Some? && !TreeValid(size, inputs.meta.value)
              && why.BadMetadata? && TreeRefused(size, inputs.meta.value, why.problem)
  {
    hide WithBuffers, TreeError, TreeNames, TreeLocations, TreeSymbols, TreeValid, TreeRefused, NamesOf, IsPmKey,
         LastOfId, IdsAfter;
    var filled := WithBuffers(s, inputs);
    BuffersMeaning(s, inputs);
    if inputs.meta.Some? {
      var tree := inputs.meta.value;
      assert PacketSize(filled.data) == |Packet(s.data, inputs.controlPacket)| % 0x1_0000_0000;
      TreeMeaning(PacketSize(filled.data), tree);
      NamesMeaning(s.xrt, tree);
      NoTreeSymbols(tree);
      if Described(s, inputs).Ready? {
        var t := Described(s, inputs).s;
        assert t.syms[|s.syms|..] == SymbolsAt(TreeLocations(tree));
      }
    }
  }

  /** A tree has no symbols exactly when it names no location. */
  lemma NoTreeSymbols(tree: Tree)
    ensures TreeSymbols(tree, []) <==> TreeLocations(tree) == []
  {
    hide AllLocations, DmaLocations, IsSite, Precedes;
    TreeMeaning(0, tree);
    if tree.buffers.Some? {
      var es := tree.buffers.value;
      var all := TreeSites(es);
      if all != [] {
        forall sites | Lists(es, sites, []) ensures !(forall s :: s in sites <==> IsSite(es, s)) {
          assert IsSite(es, all[0]) && all[0] !in sites;
        }
      }
    }
  }

  // ----- what the walks add -----

  /** The walk of bytes b over section `section`, with the names and ids of a store. */
  function StreamWalk(s: Store, b: seq<byte>, section: string, argname: string): Walk {
    WalkAll(EncodingOf(b), Env(argname, s.xrt, s.pmIds), section, b)
  }

  function SaveName(col: nat): string { "preempt_save_stx_4x" + Decimal(col) + ".bin" }

  function RestoreName(col: nat): string { "preempt_restore_stx_4x" + Decimal(col) + ".bin" }

  /** How often the libraries name "preempt". */
  function Preempts(libs: seq<string>): nat { multiset(libs)["preempt"] }

  function Times(syms: seq<Symbol>, n: nat): seq<Symbol> {
    if n == 0 then [] else Times(syms, n - 1) + syms
  }

  function SaveWalk(s: Store, files: map<string, seq<byte>>, col: nat): Walk
    requires SaveName(col) in files
  {
    StreamWalk(s, files[SaveName(col)], ".preempt_save", "scratch-pad-mem")
  }

  function RestoreWalk(s: Store, files: map<string, seq<byte>>, col: nat): Walk
    requires RestoreName(col) in files
  {
    StreamWalk(s, files[RestoreName(col)], ".preempt_restore", "scratch-pad-mem")
  }

  /** Both preemption streams are there and accepted. */
  predicate PreemptReady(s: Store, files: map<string, seq<byte>>, col: nat) {
    && SaveName(col) in files && RestoreName(col) in files
    && SaveWalk(s, files, col).Walking? && RestoreWalk(s, files, col).Walking?
  }

  function PreemptSymbols(s: Store, files: map<string, seq<byte>>, col: nat): seq<Symbol>
    requires PreemptReady(s, files, col)
  {
    SaveWalk(s, files, col).w.syms + RestoreWalk(s, files, col).w.syms
  }

  /** Else this is reported: a missing file before a bad stream, save before restore. */
  function PreemptProblem(s: Store, files: map<string, seq<byte>>, col: nat): Refusal
    requires !PreemptReady(s, files, col)
  {
    if SaveName(col) !in files then NoFile(SaveName(col))
    else if RestoreName(col) !in files then NoFile(RestoreName(col))
    else
      var save, restore := SaveWalk(s, files, col), RestoreWalk(s, files, col);
      if save.Halted? then BadStream(".preempt_save", save.error)
      else BadStream(".preempt_restore", restore.error)
  }

  /** What n "preempt" libraries make of a store: one pair of sections, n times their symbols. */
  ghost predicate PreemptAfter(s: Store, files: map<string, seq<byte>>, col: nat, n: nat, p: Progress) {
    if n == 0 then p == Ready(s)
    else if !PreemptReady(s, files, col) then p == Refused(PreemptProblem(s, files, col))
    else
      && p.Ready? && p.s.xrt == s.xrt && p.s.pmIds == s.pmIds
      && p.s.syms == s.syms + Times(PreemptSymbols(s, files, col), n)
      && p.s.data == s.data[".preempt_save" := SaveWalk(s, files, col).w.b]
                           [".preempt_restore" := RestoreWalk(s, files, col).w.b]
  }

  lemma SameNames(col: nat)
    ensures SaveName(col) == SaveFile(col) && RestoreName(col) == RestoreFile(col)
  {
  }

  /** One more. */
  lemma PreemptOnce(s: Store, files: map<string, seq<byte>>, col: nat, n: nat, before: Store)
    requires PreemptAfter(s, files, col, n, Ready(before))
    ensures PreemptAfter(s, files, col, n + 1, WithPreempt(before, files, col))
  {
    hide WalkAll, Decimal, EncodingOf, SaveName, RestoreName, SaveFile, RestoreFile;
    SameNames(col);
    if PreemptReady(s, files, col) {
      var save, restore := SaveWalk(s, files, col), RestoreWalk(s, files, col);
      var read := WithFiles(before, files, col);
      assert SectionWalk(read, PREEMPT_SAVE, SCRATCH_PAD) == save;
      var saved := WithStream(read, PREEMPT_SAVE, SCRATCH_PAD).s;
      assert SectionWalk(saved, PREEMPT_RESTORE, SCRATCH_PAD) == restore;
      var after := WithStream(saved, PREEMPT_RESTORE, SCRATCH_PAD).s;
      assert after.syms == s.syms + (Times(PreemptSymbols(s, files, col), n) + PreemptSymbols(s, files, col));
      assert after.data == s.data[".preempt_save" := save.w.b][".preempt_restore" := restore.w.b];
    }
  }

  lemma {:induction false} LibsMeaning(s: Store, inputs: Inputs, col: nat, n: nat)
    requires n <= |inputs.libs|
    ensures PreemptAfter(s, inputs.files, col, Preempts(inputs.libs[..n]), WithLibs(s, inputs, col, n))
  {
    hide WithPreempt, PreemptReady, PreemptProblem, PreemptSymbols, SaveWalk, RestoreWalk;
    if n > 0 {
      LibsMeaning(s, inputs, col, n - 1);
      var m := Preempts(inputs.libs[..n - 1]);
      assert inputs.libs[..n] == inputs.libs[..n - 1] + [inputs.libs[n - 1]];
      var p := WithLibs(s, inputs, col, n - 1);
      if p.Ready? && inputs.libs[n - 1] == PREEMPT_LIB {
        PreemptOnce(s, inputs.files, col, m, p.s);
      }
    }
  }

  /** Everything gathered: the control code walked with the names and ids its inputs gave it, then the
      preemption streams for as many columns as its header says, again for each library that names them. */
  lemma GatheredMeaning(s: Store, inputs: Inputs)
    requires InputsSafe(s, inputs) && Described(s, inputs).Ready?
    ensures var d := Described(s, inputs).s;
            var text := StreamWalk(d, inputs.mcCode, ".ctrltext", "");
            if text.Halted? then Gathered(s, inputs) == Refused(BadStream(".ctrltext", text.error))
            else
              var coded := Store(d.data[".ctrltext" := text.w.b], d.syms + text.w.syms, d.xrt, d.pmIds);
              PreemptAfter(coded, inputs.files, ByteAt(inputs.mcCode, TXN_NUM_COLS), Preempts(inputs.libs),
                           Gathered(s, inputs))
  {
    hide WalkAll, Described, PreemptAfter, SectionSafe, LibSafe;
    var d := Described(s, inputs).s;
    TextIsCode(s, inputs);
    if Coded(s, inputs).Ready? {
      TextKeepsCols(d);
      var coded := Coded(s, inputs).s;
      LibsMeaning(coded, inputs, NumColsOf(coded), |inputs.libs|);
      assert inputs.libs[..|inputs.libs|] == inputs.libs;
    }
  }

  lemma TextIsCode(s: Store, inputs: Inputs)
    requires Described(s, inputs).Ready?
    ensures Described(s, inputs).s.data[".ctrltext"] == inputs.mcCode
  {
    hide Described, IdsAfter, NamesOf, TreeSymbols, IsPmKey, LastOfId, SomeLocation;
    DescribedMeaning(s, inputs);
  }

  // ----- the resizes -----

  /** The size a preemption section's symbols get: the least that covers each of its transfers. */
  ghost predicate LargestExtent(syms: seq<Symbol>, section: string, size: nat) {
    && (forall i :: 0 <= i < |syms| && syms[i].section == section ==> syms[i].addend + syms[i].size <= size)
    && exists i :: 0 <= i < |syms| && syms[i].section == section && syms[i].addend + syms[i].size == size
  }

  /** Finally every symbol is as gathered, but for the size of those in the two preemption sections. */
  lemma ResizesMeaning(syms: seq<Symbol>, i: nat)
    requires Narrow(syms) && i < |syms|
    ensures Resizes(syms)[i] == syms[i].(size := Resizes(syms)[i].size)
    ensures var size := Resizes(syms)[i].size;
            if syms[i].section in {".preempt_save", ".preempt_restore"} then LargestExtent(syms, syms[i].section, size)
            else size == syms[i].size
  {
    hide MaxExtent;
    var once := Resized(syms, PREEMPT_SAVE);
    OtherSectionsExtent(syms, once, PREEMPT_RESTORE);
    if syms[i].section in {PREEMPT_SAVE, PREEMPT_RESTORE} {
      MaxExtentIsMaximum(syms, syms[i].section);
      assert forall j :: 0 <= j < |syms| ==> Extent(syms[j]) == syms[j].addend + syms[j].size;
      ResizedCovers(syms, syms[i].section, i);
    }
  }
}
