/**
 External-buffer metadata: the parsed tree, its validation, and the control-packet symbols it yields.
 A missing or mistyped key, which the tree reader itself refuses, is not part of this model.
 */
module Metadata {
  import opened Bytes
  import opened Symbols

  const MAX_ARG_INDEX: nat := 24
  const PACKET_HEADER: nat := 8

  datatype Coalesced = Coalesced(offset: nat, patches: Option<seq<nat>>)

  /** One external buffer; `patches` are the offsets of its control-packet patch locations. */
  datatype External = External(xrtId: nat, isControlPacket: bool, size: nat, offset: nat,
                               coalesced: Option<seq<Coalesced>>, patches: Option<seq<nat>>)

  /** One entry of the DMA compiler's flat patch list. */
  datatype DmaPatch = DmaPatch(offset: nat, argIndex: nat, boOffset: nat)

  /** What the reader looks for: the AIE compiler's buffers, else the DMA compiler's patch list. */
  datatype Tree = Tree(buffers: Option<seq<External>>, controlIndex: Option<nat>, dmaPatches: Option<seq<DmaPatch>>)

  datatype JsonError = BadLocation(offset: nat, argIndex: nat) | BadAddend(addend: nat)

  // ----- what one location yields -----

  /** One patch location with what decides its symbol. */
  datatype Location = Location(name: string, argIndex: nat, addend: nat, offset: nat)

  /** Eight bytes up, in 32-bit arithmetic. */
  function PacketPos(offset: nat): nat { (offset - PACKET_HEADER) % TWO_32 }

  function SymbolAt(l: Location): Symbol {
    Symbol(l.name, PacketPos(l.offset), l.addend, 0, CTRL_DATA, ControlPacket48, 0)
  }

  predicate Located(size: nat, offset: nat, argIndex: nat) { offset <= size && argIndex <= MAX_ARG_INDEX }

  function ArgName(argIndex: nat): string { Decimal((argIndex + ARG_OFFSET) % TWO_32) }

  function SymbolsAt(ls: seq<Location>): (syms: seq<Symbol>)
    ensures |syms| == |ls|
  {
    seq(|ls|, i requires 0 <= i < |ls| => SymbolAt(ls[i]))
  }

  lemma SymbolsAtConcat(a: seq<Location>, b: seq<Location>)
    ensures SymbolsAt(a + b) == SymbolsAt(a) + SymbolsAt(b)
  {
  }

  /** The control packet's entry of the section table: asking for its size creates it, empty. */
  function WithPacket(data: map<string, seq<byte>>, asked: bool): map<string, seq<byte>> {
    if asked && CTRL_DATA !in data then data[CTRL_DATA := []] else data
  }

  lemma PacketAskedTwice(data: map<string, seq<byte>>, once: bool, again: bool)
    ensures WithPacket(WithPacket(data, once), again) == WithPacket(data, once || again)
    ensures PacketSize(WithPacket(data, once)) == PacketSize(data)
  {
  }

  /** Its size, cast to 32 bits. */
  function PacketSize(data: map<string, seq<byte>>): (size: nat)
    ensures size < TWO_32
  {
    if CTRL_DATA in data then |data[CTRL_DATA]| % TWO_32 else 0
  }

  // ----- the tree, flattened -----

  function OffsetsOf(patches: Option<seq<nat>>): seq<nat> { if patches.None? then [] else patches.value }

  function Locations(name: string, argIndex: nat, addend: nat, offsets: seq<nat>): (ls: seq<Location>)
    ensures |ls| == |offsets|
  {
    seq(|offsets|, i requires 0 <= i < |offsets| => Location(name, argIndex, addend, offsets[i]))
  }

  function CoalescedLocations(name: string, argIndex: nat, cs: seq<Coalesced>): seq<Location> {
    if cs == [] then []
    else
      var last := cs[|cs| - 1];
      CoalescedLocations(name, argIndex, cs[..|cs| - 1]) +
      Locations(name, argIndex, last.offset, OffsetsOf(last.patches))
  }

  function BufferLocations(e: External): seq<Location> {
    if e.coalesced.Some? then CoalescedLocations(ArgName(e.xrtId), e.xrtId, e.coalesced.value)
    else Locations(ArgName(e.xrtId), e.xrtId, e.offset, OffsetsOf(e.patches))
  }

  /** All patch locations in traversal order. */
  function AllLocations(es: seq<External>): seq<Location> {
    if es == [] then [] else AllLocations(es[..|es| - 1]) + BufferLocations(es[|es| - 1])
  }

  /** Names for the external buffers; the first entry of an xrt id decides. */
  function Named(map0: map<nat, string>, es: seq<External>): map<nat, string> {
    if es == [] then map0 else NamedOnce(Named(map0, es[..|es| - 1]), es[|es| - 1])
  }

  function NamedOnce(before: map<nat, string>, e: External): map<nat, string> {
    if e.xrtId in before then before
    else before[e.xrtId := if e.isControlPacket then CONTROL_PACKET else ArgName(e.xrtId)]
  }

  // ----- validation -----

  function LocationError(size: nat, offset: nat, argIndex: nat): Option<JsonError> {
    if Located(size, offset, argIndex) then None else Some(BadLocation(offset, argIndex))
  }

  function Earlier(first: Option<JsonError>, second: Option<JsonError>): Option<JsonError> {
    if first.Some? then first else second
  }

  /** The first location outside the packet, or with an invalid argument index. */
  function OffsetsError(packetSize: nat, argIndex: nat, offsets: seq<nat>): Option<JsonError> {
    if offsets == [] then None
    else Earlier(OffsetsError(packetSize, argIndex, offsets[..|offsets| - 1]),
                 LocationError(packetSize, offsets[|offsets| - 1], argIndex))
  }

  function PatchesError(packetSize: nat, argIndex: nat, addend: nat, offsets: seq<nat>): Option<JsonError> {
    if addend > MAX_ARGPLUS then Some(BadAddend(addend)) else OffsetsError(packetSize, argIndex, offsets)
  }

  function CoalescedError(packetSize: nat, bufferSize: nat, argIndex: nat, c: Coalesced): Option<JsonError> {
    Earlier(LocationError(bufferSize, c.offset, argIndex),
            PatchesError(packetSize, argIndex, c.offset, OffsetsOf(c.patches)))
  }

  function CoalescedsError(packetSize: nat, bufferSize: nat, argIndex: nat, cs: seq<Coalesced>): Option<JsonError> {
    if cs == [] then None
    else Earlier(CoalescedsError(packetSize, bufferSize, argIndex, cs[..|cs| - 1]),
                 CoalescedError(packetSize, bufferSize, argIndex, cs[|cs| - 1]))
  }

  function BufferError(packetSize: nat, e: External): Option<JsonError> {
    match e.coalesced
    case None => PatchesError(packetSize, e.xrtId, e.offset, OffsetsOf(e.patches))
    case Some(cs) => CoalescedsError(packetSize, e.size, e.xrtId, cs)
  }

  /** The first thing wrong with the buffers, in traversal order. */
  function BuffersError(packetSize: nat, es: seq<External>): Option<JsonError> {
    if es == [] then None
    else Earlier(BuffersError(packetSize, es[..|es| - 1]), BufferError(packetSize, es[|es| - 1]))
  }

  // ----- what is accepted -----

  ghost predicate PatchesValid(packetSize: nat, argIndex: nat, addend: nat, offsets: seq<nat>) {
    && addend <= MAX_ARGPLUS
    && forall i :: 0 <= i < |offsets| ==> Located(packetSize, offsets[i], argIndex)
  }

  ghost predicate CoalescedValid(packetSize: nat, bufferSize: nat, argIndex: nat, c: Coalesced) {
    Located(bufferSize, c.offset, argIndex) && PatchesValid(packetSize, argIndex, c.offset, OffsetsOf(c.patches))
  }

  ghost predicate BufferValid(packetSize: nat, e: External) {
    match e.coalesced
    case None => PatchesValid(packetSize, e.xrtId, e.offset, OffsetsOf(e.patches))
    case Some(cs) => forall i :: 0 <= i < |cs| ==> CoalescedValid(packetSize, e.size, e.xrtId, cs[i])
  }

  lemma LocationsEmpty(name: string, argIndex: nat, addend: nat, offsets: seq<nat>)
    ensures Locations(name, argIndex, addend, offsets) == [] <==> offsets == []
  {
  }

  lemma {:induction false} OffsetsErrorMeaning(packetSize: nat, argIndex: nat, offsets: seq<nat>)
    ensures OffsetsError(packetSize, argIndex, offsets).None? <==>
            forall i :: 0 <= i < |offsets| ==> Located(packetSize, offsets[i], argIndex)
  {
    if offsets != [] {
      var before := offsets[..|offsets| - 1];
      OffsetsErrorMeaning(packetSize, argIndex, before);
      assert forall i :: 0 <= i < |before| ==> before[i] == offsets[i];
    }
  }

  lemma {:induction false} CoalescedsErrorMeaning(packetSize: nat, bufferSize: nat, argIndex: nat, cs: seq<Coalesced>)
    ensures CoalescedsError(packetSize, bufferSize, argIndex, cs).None? <==>
            forall i :: 0 <= i < |cs| ==> CoalescedValid(packetSize, bufferSize, argIndex, cs[i])
  {
    if cs != [] {
      var before, last := cs[..|cs| - 1], cs[|cs| - 1];
      CoalescedsErrorMeaning(packetSize, bufferSize, argIndex, before);
      assert forall i :: 0 <= i < |before| ==> before[i] == cs[i];
      OffsetsErrorMeaning(packetSize, argIndex, OffsetsOf(last.patches));
    }
  }

  /** A tree is accepted exactly when every buffer is valid. */
  lemma {:induction false} AcceptedBuffers(packetSize: nat, es: seq<External>)
    ensures BuffersError(packetSize, es).None? <==> forall i :: 0 <= i < |es| ==> BufferValid(packetSize, es[i])
  {
    hide CoalescedsError, CoalescedValid, OffsetsError;
    if es != [] {
      var before, last := es[..|es| - 1], es[|es| - 1];
      AcceptedBuffers(packetSize, before);
      assert forall i :: 0 <= i < |before| ==> before[i] == es[i];
      if last.coalesced.Some? {
        CoalescedsErrorMeaning(packetSize, last.size, last.xrtId, last.coalesced.value);
      } else {
        OffsetsErrorMeaning(packetSize, last.xrtId, OffsetsOf(last.patches));
      }
    }
  }

  // ----- the traversals, one element further -----

  lemma OneMoreOffset(packetSize: nat, name: string, argIndex: nat, addend: nat, offsets: seq<nat>, i: nat)
    requires i < |offsets|
    ensures SymbolsAt(Locations(name, argIndex, addend, offsets[..i + 1])) ==
            SymbolsAt(Locations(name, argIndex, addend, offsets[..i])) +
            [Symbol(name, PacketPos(offsets[i]), addend, 0, CTRL_DATA, ControlPacket48, 0)]
    ensures OffsetsError(packetSize, argIndex, offsets[..i + 1]) ==
            Earlier(OffsetsError(packetSize, argIndex, offsets[..i]), LocationError(packetSize, offsets[i], argIndex))
  {
    assert offsets[..i + 1][..i] == offsets[..i];
  }

  lemma {:induction false} OffsetsErrorStays(packetSize: nat, argIndex: nat, offsets: seq<nat>, i: nat)
    requires i <= |offsets| && OffsetsError(packetSize, argIndex, offsets[..i]).Some?
    ensures OffsetsError(packetSize, argIndex, offsets) == OffsetsError(packetSize, argIndex, offsets[..i])
    decreases |offsets|
  {
    if i < |offsets| {
      assert offsets[..|offsets| - 1][..i] == offsets[..i];
      OffsetsErrorStays(packetSize, argIndex, offsets[..|offsets| - 1], i);
    } else {
      assert offsets[..i] == offsets;
    }
  }

  lemma OneMoreCoalesced(packetSize: nat, name: string, e: External, cs: seq<Coalesced>, i: nat)
    requires i < |cs|
    ensures CoalescedLocations(name, e.xrtId, cs[..i + 1]) ==
            CoalescedLocations(name, e.xrtId, cs[..i]) +
            Locations(name, e.xrtId, cs[i].offset, OffsetsOf(cs[i].patches))
    ensures CoalescedsError(packetSize, e.size, e.xrtId, cs[..i + 1]) ==
            Earlier(CoalescedsError(packetSize, e.size, e.xrtId, cs[..i]),
                    CoalescedError(packetSize, e.size, e.xrtId, cs[i]))
  {
    hide CoalescedError, Locations;
    assert cs[..i + 1][..i] == cs[..i];
  }

  lemma {:induction false} CoalescedsErrorStays(packetSize: nat, bufferSize: nat, argIndex: nat, cs: seq<Coalesced>,
                                                i: nat)
    requires i <= |cs| && CoalescedsError(packetSize, bufferSize, argIndex, cs[..i]).Some?
    ensures CoalescedsError(packetSize, bufferSize, argIndex, cs) ==
            CoalescedsError(packetSize, bufferSize, argIndex, cs[..i])
    decreases |cs|
  {
    hide CoalescedError;
    if i < |cs| {
      assert cs[..|cs| - 1][..i] == cs[..i];
      CoalescedsErrorStays(packetSize, bufferSize, argIndex, cs[..|cs| - 1], i);
    } else {
      assert cs[..i] == cs;
    }
  }

  lemma OneMoreBuffer(packetSize: nat, map0: map<nat, string>, es: seq<External>, i: nat)
    requires i < |es|
    ensures AllLocations(es[..i + 1]) == AllLocations(es[..i]) + BufferLocations(es[i])
    ensures BuffersError(packetSize, es[..i + 1]) ==
            Earlier(BuffersError(packetSize, es[..i]), BufferError(packetSize, es[i]))
    ensures Named(map0, es[..i + 1]) == NamedOnce(Named(map0, es[..i]), es[i])
  {
    hide BufferLocations, NamedOnce, BufferError;
    assert es[..i + 1][..i] == es[..i];
  }

  lemma {:induction false} BuffersErrorStays(packetSize: nat, es: seq<External>, i: nat)
    requires i <= |es| && BuffersError(packetSize, es[..i]).Some?
    ensures BuffersError(packetSize, es) == BuffersError(packetSize, es[..i])
    decreases |es|
  {
    hide BufferError;
    if i < |es| {
      assert es[..|es| - 1][..i] == es[..i];
      BuffersErrorStays(packetSize, es[..|es| - 1], i);
    } else {
      assert es[..i] == es;
    }
  }

  // ----- empty traversals -----

  lemma NoOffsets(packetSize: nat, name: string, argIndex: nat, addend: nat)
    ensures OffsetsError(packetSize, argIndex, []) == None && SymbolsAt(Locations(name, argIndex, addend, [])) == []
  {
  }

  lemma NoCoalesced(packetSize: nat, name: string, e: External)
    ensures CoalescedsError(packetSize, e.size, e.xrtId, []) == None
    ensures SymbolsAt(CoalescedLocations(name, e.xrtId, [])) == [] && CoalescedLocations(name, e.xrtId, []) == []
  {
  }

  lemma NoBuffers(packetSize: nat, map0: map<nat, string>)
    ensures BuffersError(packetSize, []) == None && SymbolsAt(AllLocations([])) == [] && AllLocations([]) == []
    ensures Named(map0, []) == map0
  {
  }

  lemma BufferCases(packetSize: nat, e: External)
    ensures e.coalesced.None? ==>
              && BufferError(packetSize, e) == PatchesError(packetSize, e.xrtId, e.offset, OffsetsOf(e.patches))
              && BufferLocations(e) == Locations(ArgName(e.xrtId), e.xrtId, e.offset, OffsetsOf(e.patches))
    ensures e.coalesced.Some? ==>
              && BufferError(packetSize, e) == CoalescedsError(packetSize, e.size, e.xrtId, e.coalesced.value)
              && BufferLocations(e) == CoalescedLocations(ArgName(e.xrtId), e.xrtId, e.coalesced.value)
  {
  }

  // ----- the DMA compiler's flat list -----

  /** std::map::insert keeps an entry that is already there. */
  function Inserted(m: map<nat, string>, key: nat, name: string): map<nat, string> {
    if key in m then m else m[key := name]
  }

  function FixedNames(m: map<nat, string>, n: nat): map<nat, string>
    requires n <= 5
  {
    if n == 0 then m else Inserted(FixedNames(m, n - 1), n - 1, Decimal(n - 1 + ARG_OFFSET))
  }

  function DmaNames(map0: map<nat, string>, controlIndex: Option<nat>): map<nat, string> {
    FixedNames(map0, 5)[if controlIndex.Some? then controlIndex.value else 4 := CONTROL_PACKET]
  }

  lemma {:induction false} FixedNamesMeaning(m: map<nat, string>, n: nat, key: nat)
    requires n <= 5
    ensures key in FixedNames(m, n) <==> key in m || key < n
    ensures key in m ==> FixedNames(m, n)[key] == m[key]
    ensures key !in m && key < n ==> FixedNames(m, n)[key] == ArgName(key)
  {
    if n > 0 {
      FixedNamesMeaning(m, n - 1, key);
    }
  }

  /** After the DMA parser: the control packet's index is named so, whatever was there; any other index
      keeps an earlier name, and indexes 0 to 4 otherwise get their argument's number. */
  lemma DmaNamesMeaning(map0: map<nat, string>, controlIndex: Option<nat>, key: nat)
    ensures var names, control := DmaNames(map0, controlIndex), if controlIndex.Some? then controlIndex.value else 4;
            && (key in names <==> key in map0 || key < 5 || key == control)
            && (key in names ==> names[key] == if key == control then CONTROL_PACKET
                                               else if key in map0 then map0[key] else ArgName(key))
  {
    FixedNamesMeaning(map0, 5, key);
  }

  function DmaLocation(p: DmaPatch): Location { Location(ArgName(p.argIndex), p.argIndex, p.boOffset, p.offset) }

  function DmaLocations(ps: seq<DmaPatch>): (ls: seq<Location>)
    ensures |ls| == |ps|
  {
    seq(|ps|, i requires 0 <= i < |ps| => DmaLocation(ps[i]))
  }

  function DmaError(packetSize: nat, p: DmaPatch): Option<JsonError> {
    Earlier(LocationError(packetSize, p.offset, p.argIndex),
            if p.boOffset > MAX_ARGPLUS then Some(BadAddend(p.boOffset)) else None)
  }

  function DmasError(packetSize: nat, ps: seq<DmaPatch>): Option<JsonError> {
    if ps == [] then None
    else Earlier(DmasError(packetSize, ps[..|ps| - 1]), DmaError(packetSize, ps[|ps| - 1]))
  }

  /** A flat list is accepted exactly when every entry is located and has a 32-bit offset in its buffer. */
  lemma {:induction false} AcceptedDmaPatches(packetSize: nat, ps: seq<DmaPatch>)
    ensures DmasError(packetSize, ps).None? <==>
            forall i :: 0 <= i < |ps| ==>
              Located(packetSize, ps[i].offset, ps[i].argIndex) && ps[i].boOffset <= MAX_ARGPLUS
  {
    if ps != [] {
      var before := ps[..|ps| - 1];
      AcceptedDmaPatches(packetSize, before);
      assert forall i :: 0 <= i < |before| ==> before[i] == ps[i];
    }
  }

  lemma NoDmaPatches(packetSize: nat)
    ensures DmasError(packetSize, []) == None && SymbolsAt(DmaLocations([])) == []
  {
  }

  lemma OneMoreDmaPatch(packetSize: nat, ps: seq<DmaPatch>, i: nat)
    requires i < |ps|
    ensures SymbolsAt(DmaLocations(ps[..i + 1])) == SymbolsAt(DmaLocations(ps[..i])) + [SymbolAt(DmaLocation(ps[i]))]
    ensures DmasError(packetSize, ps[..i + 1]) == Earlier(DmasError(packetSize, ps[..i]), DmaError(packetSize, ps[i]))
  {
    hide DmaError, DmaLocation, SymbolAt;
    assert ps[..i + 1][..i] == ps[..i];
  }

  lemma {:induction false} DmasErrorStays(packetSize: nat, ps: seq<DmaPatch>, i: nat)
    requires i <= |ps| && DmasError(packetSize, ps[..i]).Some?
    ensures DmasError(packetSize, ps) == DmasError(packetSize, ps[..i])
    decreases |ps|
  {
    hide DmaError;
    if i < |ps| {
      assert ps[..|ps| - 1][..i] == ps[..i];
      DmasErrorStays(packetSize, ps[..|ps| - 1], i);
    } else {
      assert ps[..i] == ps;
    }
  }

  // ----- either format -----

  function TreeLocations(tree: Tree): seq<Location> {
    if tree.buffers.Some? then AllLocations(tree.buffers.value)
    else if tree.dmaPatches.Some? then DmaLocations(tree.dmaPatches.value)
    else []
  }

  function TreeError(packetSize: nat, tree: Tree): Option<JsonError> {
    if tree.buffers.Some? then BuffersError(packetSize, tree.buffers.value)
    else if tree.dmaPatches.Some? then DmasError(packetSize, tree.dmaPatches.value)
    else None
  }

  function TreeNames(map0: map<nat, string>, tree: Tree): map<nat, string> {
    if tree.buffers.Some? then Named(map0, tree.buffers.value)
    else if tree.dmaPatches.Some? then DmaNames(map0, tree.controlIndex)
    else map0
  }

  // ----- what acceptance guarantees -----

  lemma {:induction false} CoalescedLocationsValid(packetSize: nat, bufferSize: nat, name: string, argIndex: nat,
                                                   cs: seq<Coalesced>)
    requires forall i :: 0 <= i < |cs| ==> CoalescedValid(packetSize, bufferSize, argIndex, cs[i])
    ensures forall l :: l in CoalescedLocations(name, argIndex, cs) ==> Located(packetSize, l.offset, l.argIndex)
  {
    if cs != [] {
      CoalescedLocationsValid(packetSize, bufferSize, name, argIndex, cs[..|cs| - 1]);
      assert CoalescedValid(packetSize, bufferSize, argIndex, cs[|cs| - 1]);
    }
  }

  lemma {:induction false} BufferLocationsValid(packetSize: nat, es: seq<External>)
    requires forall i :: 0 <= i < |es| ==> BufferValid(packetSize, es[i])
    ensures forall l :: l in AllLocations(es) ==> Located(packetSize, l.offset, l.argIndex)
  {
    if es != [] {
      BufferLocationsValid(packetSize, es[..|es| - 1]);
      var e := es[|es| - 1];
      assert BufferValid(packetSize, e);
      if e.coalesced.Some? {
        CoalescedLocationsValid(packetSize, e.size, ArgName(e.xrtId), e.xrtId, e.coalesced.value);
      }
    }
  }

  /** Every location of an accepted tree is inside the control packet, with a valid argument index. */
  lemma LocationsValid(packetSize: nat, tree: Tree)
    requires TreeError(packetSize, tree).None?
    ensures forall l :: l in TreeLocations(tree) ==> Located(packetSize, l.offset, l.argIndex)
  {
    if tree.buffers.Some? {
      AcceptedBuffers(packetSize, tree.buffers.value);
      BufferLocationsValid(packetSize, tree.buffers.value);
    } else if tree.dmaPatches.Some? {
      AcceptedDmaPatches(packetSize, tree.dmaPatches.value);
    }
  }

  /** A symbol of an accepted tree leaves its 8-byte header inside the control packet exactly when its
      offset covers the header; otherwise its position wraps to the top of the 32-bit range. */
  lemma PositionInsidePacket(packetSize: nat, l: Location)
    requires Located(packetSize, l.offset, l.argIndex) && packetSize < TWO_32
    ensures SymbolAt(l).pos + PACKET_HEADER <= packetSize || SymbolAt(l).pos >= TWO_32 - PACKET_HEADER
    ensures SymbolAt(l).pos + PACKET_HEADER == l.offset <==> l.offset >= PACKET_HEADER
    ensures l.offset >= PACKET_HEADER ==> SymbolAt(l).pos + PACKET_HEADER <= packetSize && packetSize > 0
  {
  }

  /** The first buffer with an xrt id decides its name; earlier entries of the map win over all. */
  lemma {:induction false} FirstEntryDecides(map0: map<nat, string>, es: seq<External>, i: nat)
    requires i < |es| && es[i].xrtId !in map0
    requires forall j :: 0 <= j < i ==> es[j].xrtId != es[i].xrtId
    ensures es[i].xrtId in Named(map0, es)
    ensures Named(map0, es)[es[i].xrtId] == if es[i].isControlPacket then CONTROL_PACKET else ArgName(es[i].xrtId)
    decreases |es|
  {
    if i < |es| - 1 {
      FirstEntryDecides(map0, es[..|es| - 1], i);
    } else {
      NotNamed(map0, es[..i], es[i].xrtId);
    }
  }

  lemma {:induction false} NotNamed(map0: map<nat, string>, es: seq<External>, id: nat)
    requires id !in map0 && forall j :: 0 <= j < |es| ==> es[j].xrtId != id
    ensures id !in Named(map0, es)
  {
    if es != [] {
      NotNamed(map0, es[..|es| - 1], id);
    }
  }
}
