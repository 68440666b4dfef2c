/**
 What a metadata tree says, without the traversal: one symbol for each patch location, the first thing
 wrong with a tree that is refused, and the name of every external buffer.
 */
module MetadataSites {
  import opened Bytes
  import opened Symbols
  import opened Metadata

  // ----- patch locations -----

  /** Location number `loc` of group `group` of a buffer: a coalesced buffer each is a group, and a buffer
      without any is one itself. */
  datatype Site = Site(buffer: nat, group: nat, loc: nat)

  function NumGroups(e: External): nat { if e.coalesced.Some? then |e.coalesced.value| else 1 }

  /** Where the group starts in its buffer. */
  function GroupOffset(e: External, g: nat): nat
    requires g < NumGroups(e)
  {
    if e.coalesced.Some? then e.coalesced.value[g].offset else e.offset
  }

  /** Where the packet has its address. */
  function GroupPatches(e: External, g: nat): seq<nat>
    requires g < NumGroups(e)
  {
    var patches := if e.coalesced.Some? then e.coalesced.value[g].patches else e.patches;
    if patches.Some? then patches.value else []
  }

  predicate IsSite(es: seq<External>, s: Site) {
    && s.buffer < |es| && s.group < NumGroups(es[s.buffer])
    && s.loc < |GroupPatches(es[s.buffer], s.group)|
  }

  predicate Precedes(s: Site, t: Site) {
    s.buffer < t.buffer || (s.buffer == t.buffer && (s.group < t.group || (s.group == t.group && s.loc < t.loc)))
  }

  /** The name a buffer goes by: the number of its kernel argument, three above its id. */
  function NumberName(id: nat): string { Decimal((id + 3) % 0x1_0000_0000) }

  /** A packet location's symbol stands eight bytes further up, where its header is. */
  function PacketSymbol(id: nat, offset: nat, addend: nat): Symbol {
    Symbol(NumberName(id), (offset - 8) % 0x1_0000_0000, addend, 0, ".ctrldata", ControlPacket48, 0)
  }

  function SiteSymbol(es: seq<External>, s: Site): Symbol
    requires IsSite(es, s)
  {
    var e := es[s.buffer];
    PacketSymbol(e.xrtId, GroupPatches(e, s.group)[s.loc], GroupOffset(e, s.group))
  }

  ghost predicate InOrder(sites: seq<Site>) {
    forall m, n :: 0 <= m < n < |sites| ==> Precedes(sites[m], sites[n])
  }

  /** The symbols are those of the sites, one by one. */
  ghost predicate Lists(es: seq<External>, sites: seq<Site>, syms: seq<Symbol>) {
    && |sites| == |syms| && InOrder(sites)
    && forall n :: 0 <= n < |sites| ==> IsSite(es, sites[n]) && syms[n] == SiteSymbol(es, sites[n])
  }

  lemma ListsBoth(es: seq<External>, sites: seq<Site>, more: seq<Site>, syms: seq<Symbol>, further: seq<Symbol>)
    requires Lists(es, sites, syms) && Lists(es, more, further)
    requires forall s, t :: s in sites && t in more ==> Precedes(s, t)
    ensures Lists(es, sites + more, syms + further)
  {
    hide IsSite, Precedes;
    var all := sites + more;
    forall m, n | 0 <= m < n < |all| ensures Precedes(all[m], all[n]) {
      if m < |sites| <= n {
        assert all[m] in sites && all[n] in more;
      }
    }
  }

  /** The sites of one group. */
  lemma GroupSites(es: seq<External>, i: nat, g: nat) returns (sites: seq<Site>)
    requires i < |es| && g < NumGroups(es[i])
    ensures var e := es[i];
            Lists(es, sites, SymbolsAt(Locations(ArgName(e.xrtId), e.xrtId, GroupOffset(e, g), GroupPatches(e, g))))
    ensures forall s :: s in sites <==> IsSite(es, s) && s.buffer == i && s.group == g
  {
    var patches := GroupPatches(es[i], g);
    sites := seq(|patches|, k requires 0 <= k < |patches| => Site(i, g, k));
    forall s | IsSite(es, s) && s.buffer == i && s.group == g ensures s in sites {
      assert sites[s.loc] == s;
    }
  }

  /** The sites of the first n groups of a coalesced buffer. */
  lemma {:induction false} CoalescedSites(es: seq<External>, i: nat, n: nat) returns (sites: seq<Site>)
    requires i < |es| && es[i].coalesced.Some? && n <= |es[i].coalesced.value|
    ensures var e := es[i];
            Lists(es, sites, SymbolsAt(CoalescedLocations(ArgName(e.xrtId), e.xrtId, e.coalesced.value[..n])))
    ensures forall s :: s in sites <==> IsSite(es, s) && s.buffer == i && s.group < n
  {
    hide IsSite, SymbolAt;
    sites := [];
    if n > 0 {
      var e, cs := es[i], es[i].coalesced.value;
      var before := CoalescedSites(es, i, n - 1);
      var last := GroupSites(es, i, n - 1);
      sites := before + last;
      var name := ArgName(e.xrtId);
      var front, back := CoalescedLocations(name, e.xrtId, cs[..n - 1]),
                         Locations(name, e.xrtId, cs[n - 1].offset, GroupPatches(e, n - 1));
      assert cs[..n][..n - 1] == cs[..n - 1];
      SymbolsAtConcat(front, back);
      ListsBoth(es, before, last, SymbolsAt(front), SymbolsAt(back));
    }
  }

  lemma BufferSites(es: seq<External>, i: nat) returns (sites: seq<Site>)
    requires i < |es|
    ensures Lists(es, sites, SymbolsAt(BufferLocations(es[i])))
    ensures forall s :: s in sites <==> IsSite(es, s) && s.buffer == i
  {
    hide Lists, SymbolsAt, Locations;
    if es[i].coalesced.Some? {
      sites := CoalescedSites(es, i, |es[i].coalesced.value|);
      assert es[i].coalesced.value[..|es[i].coalesced.value|] == es[i].coalesced.value;
    } else {
      sites := GroupSites(es, i, 0);
    }
  }

  lemma {:induction false} SitesTo(es: seq<External>, n: nat) returns (sites: seq<Site>)
    requires n <= |es|
    ensures Lists(es, sites, SymbolsAt(AllLocations(es[..n])))
    ensures forall s :: s in sites <==> IsSite(es, s) && s.buffer < n
  {
    hide IsSite, SymbolAt, BufferLocations;
    sites := [];
    if n > 0 {
      var before := SitesTo(es, n - 1);
      var last := BufferSites(es, n - 1);
      sites := before + last;
      var front, back := AllLocations(es[..n - 1]), BufferLocations(es[n - 1]);
      assert es[..n][..n - 1] == es[..n - 1];
      SymbolsAtConcat(front, back);
      ListsBoth(es, before, last, SymbolsAt(front), SymbolsAt(back));
    }
  }

  /** A tree's symbols are those of its patch locations: every location once, in the order of the buffers,
      of their coalesced buffers and of the list. */
  lemma TreeSites(es: seq<External>) returns (sites: seq<Site>)
    ensures Lists(es, sites, SymbolsAt(AllLocations(es)))
    ensures forall s :: s in sites <==> IsSite(es, s)
  {
    hide Lists, SymbolsAt;
    sites := SitesTo(es, |es|);
    assert es[..|es|] == es;
  }

  /** Entry i of the flat list has its own symbol. */
  lemma FlatSymbols(ps: seq<DmaPatch>, i: nat)
    requires i < |ps|
    ensures SymbolsAt(DmaLocations(ps))[i] == PacketSymbol(ps[i].argIndex, ps[i].offset, ps[i].boOffset)
  {
  }

  // ----- what is refused -----

  predicate Bounded(size: nat, offset: nat, id: nat) { offset <= size && id <= 24 }

  /** A group is valid: inside its buffer if coalesced, a 32-bit addend, every location inside the packet. */
  ghost predicate GroupValid(packetSize: nat, e: External, g: nat)
    requires g < NumGroups(e)
  {
    && (e.coalesced.Some? ==> Bounded(e.size, GroupOffset(e, g), e.xrtId))
    && GroupOffset(e, g) <= 0xFFFF_FFFF
    && forall k :: 0 <= k < |GroupPatches(e, g)| ==> Bounded(packetSize, GroupPatches(e, g)[k], e.xrtId)
  }

  /** What is reported of a group that is not. */
  ghost predicate GroupFault(packetSize: nat, e: External, g: nat, error: JsonError)
    requires g < NumGroups(e)
  {
    if e.coalesced.Some? && !Bounded(e.size, GroupOffset(e, g), e.xrtId) then
      error == BadLocation(GroupOffset(e, g), e.xrtId)
    else if GroupOffset(e, g) > 0xFFFF_FFFF then error == BadAddend(GroupOffset(e, g))
    else exists k: nat :: FirstOutside(packetSize, GroupPatches(e, g), e.xrtId, k)
                     && error == BadLocation(GroupPatches(e, g)[k], e.xrtId)
  }

  ghost predicate FirstOutside(packetSize: nat, offsets: seq<nat>, id: nat, k: nat) {
    && k < |offsets| && !Bounded(packetSize, offsets[k], id)
    && forall m :: 0 <= m < k ==> Bounded(packetSize, offsets[m], id)
  }

  ghost predicate GroupsValid(packetSize: nat, e: External, n: nat)
    requires n <= NumGroups(e)
  {
    forall g :: 0 <= g < n ==> GroupValid(packetSize, e, g)
  }

  ghost predicate BuffersValid(packetSize: nat, es: seq<External>) {
    forall i :: 0 <= i < |es| ==> GroupsValid(packetSize, es[i], NumGroups(es[i]))
  }

  /** The fault of group g of buffer i, all groups before it being valid. */
  ghost predicate FirstFault(packetSize: nat, es: seq<External>, i: nat, g: nat, error: JsonError) {
    && i < |es| && g < NumGroups(es[i]) && GroupFault(packetSize, es[i], g, error)
    && !GroupValid(packetSize, es[i], g) && GroupsValid(packetSize, es[i], g) && BuffersValid(packetSize, es[..i])
  }

  lemma {:induction false} OffsetsFault(packetSize: nat, id: nat, offsets: seq<nat>)
    ensures match OffsetsError(packetSize, id, offsets)
            case None => forall k :: 0 <= k < |offsets| ==> Bounded(packetSize, offsets[k], id)
            case Some(error) =>
              exists k: nat :: FirstOutside(packetSize, offsets, id, k) && error == BadLocation(offsets[k], id)
  {
    if offsets != [] {
      var last := |offsets| - 1;
      OffsetsFault(packetSize, id, offsets[..last]);
      if OffsetsError(packetSize, id, offsets[..last]).Some? {
        var k: nat :| FirstOutside(packetSize, offsets[..last], id, k)
                 && OffsetsError(packetSize, id, offsets[..last]).value == BadLocation(offsets[..last][k], id);
        assert FirstOutside(packetSize, offsets, id, k);
      } else {
        assert forall m :: 0 <= m < last ==> offsets[..last][m] == offsets[m];
        assert !Bounded(packetSize, offsets[last], id) ==> FirstOutside(packetSize, offsets, id, last);
      }
    }
  }

  function GroupError(packetSize: nat, e: External, g: nat): Option<JsonError>
    requires g < NumGroups(e)
  {
    if e.coalesced.Some? then CoalescedError(packetSize, e.size, e.xrtId, e.coalesced.value[g])
    else PatchesError(packetSize, e.xrtId, e.offset, OffsetsOf(e.patches))
  }

  lemma GroupErrorMeaning(packetSize: nat, e: External, g: nat)
    requires g < NumGroups(e)
    ensures match GroupError(packetSize, e, g)
            case None => GroupValid(packetSize, e, g)
            case Some(error) => !GroupValid(packetSize, e, g) && GroupFault(packetSize, e, g, error)
  {
    hide OffsetsError;
    OffsetsFault(packetSize, e.xrtId, GroupPatches(e, g));
  }

  /** The first fault among the first n groups of a buffer. */
  lemma {:induction false} GroupsFault(packetSize: nat, e: External, n: nat)
    requires e.coalesced.Some? && n <= |e.coalesced.value|
    ensures match CoalescedsError(packetSize, e.size, e.xrtId, e.coalesced.value[..n])
            case None => GroupsValid(packetSize, e, n)
            case Some(error) =>
              exists g :: 0 <= g < n && GroupFault(packetSize, e, g, error) && !GroupValid(packetSize, e, g)
                          && GroupsValid(packetSize, e, g)
  {
    hide CoalescedError, GroupFault, GroupValid;
    if n > 0 {
      GroupsFault(packetSize, e, n - 1);
      assert e.coalesced.value[..n][..n - 1] == e.coalesced.value[..n - 1];
      GroupErrorMeaning(packetSize, e, n - 1);
    }
  }

  lemma BufferFault(packetSize: nat, e: External)
    ensures match BufferError(packetSize, e)
            case None => GroupsValid(packetSize, e, NumGroups(e))
            case Some(error) =>
              exists g :: 0 <= g < NumGroups(e) && GroupFault(packetSize, e, g, error)
                          && !GroupValid(packetSize, e, g) && GroupsValid(packetSize, e, g)
  {
    hide CoalescedsError, PatchesError, GroupFault, GroupValid;
    if e.coalesced.Some? {
      GroupsFault(packetSize, e, NumGroups(e));
      assert e.coalesced.value[..NumGroups(e)] == e.coalesced.value;
    } else {
      GroupErrorMeaning(packetSize, e, 0);
    }
  }

  /** Buffers are all valid, or refused for the first group that is not. */
  ghost predicate BuffersOutcome(packetSize: nat, es: seq<External>, outcome: Option<JsonError>) {
    match outcome
    case None => BuffersValid(packetSize, es)
    case Some(error) => exists i: nat, g: nat :: FirstFault(packetSize, es, i, g, error)
  }

  /** A tree is accepted exactly when every group is valid, and else refused for the first that is not. */
  lemma {:induction false} TreeFault(packetSize: nat, es: seq<External>)
    ensures BuffersOutcome(packetSize, es, BuffersError(packetSize, es))
  {
    hide BufferError, BuffersOutcome;
    if es == [] {
      NoFault(packetSize);
    } else {
      TreeFault(packetSize, es[..|es| - 1]);
      OneMoreFault(packetSize, es, BuffersError(packetSize, es[..|es| - 1]));
    }
  }

  lemma NoFault(packetSize: nat)
    ensures BuffersOutcome(packetSize, [], None)
  {
  }

  lemma OneMoreFault(packetSize: nat, es: seq<External>, before: Option<JsonError>)
    requires es != [] && BuffersOutcome(packetSize, es[..|es| - 1], before)
    ensures BuffersOutcome(packetSize, es, Earlier(before, BufferError(packetSize, es[|es| - 1])))
  {
    hide BufferError, GroupFault, GroupsValid, GroupValid;
    var last, front := |es| - 1, es[..|es| - 1];
    BufferFault(packetSize, es[last]);
    if before.Some? {
      var i: nat, g: nat :| FirstFault(packetSize, front, i, g, before.value);
      assert front[..i] == es[..i];
      assert FirstFault(packetSize, es, i, g, before.value);
    } else if BufferError(packetSize, es[last]).Some? {
      var error := BufferError(packetSize, es[last]).value;
      var g :| 0 <= g < NumGroups(es[last]) && GroupFault(packetSize, es[last], g, error)
               && !GroupValid(packetSize, es[last], g) && GroupsValid(packetSize, es[last], g);
      assert FirstFault(packetSize, es, last, g, error);
    } else {
      assert forall i :: 0 <= i < last ==> front[i] == es[i];
    }
  }

  predicate FlatValid(packetSize: nat, p: DmaPatch) {
    Bounded(packetSize, p.offset, p.argIndex) && p.boOffset <= 0xFFFF_FFFF
  }

  ghost predicate FlatOutcome(packetSize: nat, ps: seq<DmaPatch>, outcome: Option<JsonError>) {
    match outcome
    case None => forall i :: 0 <= i < |ps| ==> FlatValid(packetSize, ps[i])
    case Some(error) => exists i: nat :: FirstFlat(packetSize, ps, i, error)
  }

  /** The flat list likewise: its first bad entry, whose location is looked at before its addend. */
  lemma {:induction false} FlatFault(packetSize: nat, ps: seq<DmaPatch>)
    ensures FlatOutcome(packetSize, ps, DmasError(packetSize, ps))
  {
    hide DmaError, FlatOutcome;
    if ps == [] {
      NoFlatFault(packetSize);
    } else {
      FlatFault(packetSize, ps[..|ps| - 1]);
      OneMoreFlatFault(packetSize, ps, DmasError(packetSize, ps[..|ps| - 1]));
    }
  }

  lemma NoFlatFault(packetSize: nat)
    ensures FlatOutcome(packetSize, [], None)
  {
  }

  lemma OneMoreFlatFault(packetSize: nat, ps: seq<DmaPatch>, before: Option<JsonError>)
    requires ps != [] && FlatOutcome(packetSize, ps[..|ps| - 1], before)
    ensures FlatOutcome(packetSize, ps, Earlier(before, DmaError(packetSize, ps[|ps| - 1])))
  {
    hide DmaError, FlatValid, Bounded;
    var last, front := |ps| - 1, ps[..|ps| - 1];
    FlatError(packetSize, ps[last]);
    assert forall m :: 0 <= m < last ==> front[m] == ps[m];
    if before.Some? {
      var i: nat :| FirstFlat(packetSize, front, i, before.value);
      assert FirstFlat(packetSize, ps, i, before.value);
    } else if DmaError(packetSize, ps[last]).Some? {
      assert FirstFlat(packetSize, ps, last, DmaError(packetSize, ps[last]).value);
    }
  }

  lemma FlatError(packetSize: nat, p: DmaPatch)
    ensures DmaError(packetSize, p) ==
            if FlatValid(packetSize, p) then None
            else if Bounded(packetSize, p.offset, p.argIndex) then Some(BadAddend(p.boOffset))
            else Some(BadLocation(p.offset, p.argIndex))
  {
  }

  ghost predicate FirstFlat(packetSize: nat, ps: seq<DmaPatch>, i: nat, error: JsonError) {
    && i < |ps| && !FlatValid(packetSize, ps[i]) && (forall m :: 0 <= m < i ==> FlatValid(packetSize, ps[m]))
    && error == if !Bounded(packetSize, ps[i].offset, ps[i].argIndex) then BadLocation(ps[i].offset, ps[i].argIndex)
                else BadAddend(ps[i].boOffset)
  }

  // ----- either format -----

  ghost predicate TreeValid(packetSize: nat, tree: Tree) {
    if tree.buffers.Some? then BuffersValid(packetSize, tree.buffers.value)
    else tree.dmaPatches.Some? ==>
           forall i :: 0 <= i < |tree.dmaPatches.value| ==> FlatValid(packetSize, tree.dmaPatches.value[i])
  }

  /** Why a tree is refused. */
  ghost predicate TreeRefused(packetSize: nat, tree: Tree, error: JsonError) {
    if tree.buffers.Some? then exists i: nat, g: nat :: FirstFault(packetSize, tree.buffers.value, i, g, error)
    else tree.dmaPatches.Some? && exists i: nat :: FirstFlat(packetSize, tree.dmaPatches.value, i, error)
  }

  /** The symbols of a tree. */
  ghost predicate TreeSymbols(tree: Tree, syms: seq<Symbol>) {
    if tree.buffers.Some? then
      var es := tree.buffers.value;
      exists sites :: Lists(es, sites, syms) && forall s :: s in sites <==> IsSite(es, s)
    else if tree.dmaPatches.Some? then
      var ps := tree.dmaPatches.value;
      && |syms| == |ps|
      && forall i :: 0 <= i < |ps| ==> syms[i] == PacketSymbol(ps[i].argIndex, ps[i].offset, ps[i].boOffset)
    else syms == []
  }

  /** The names after a tree with buffers: a known id keeps its name, and the first buffer with another
      decides that one's. */
  ghost predicate BufferNames(before: map<nat, string>, es: seq<External>, after: map<nat, string>) {
    && (forall id: nat :: id in after <==> id in before || exists i :: 0 <= i < |es| && es[i].xrtId == id)
    && (forall id: nat :: id in before ==> id in after && after[id] == before[id])
    && forall i :: 0 <= i < |es| && es[i].xrtId !in before && FirstOfId(es, i) ==>
         && es[i].xrtId in after
         && after[es[i].xrtId] == if es[i].isControlPacket then "control-packet" else NumberName(es[i].xrtId)
  }

  ghost predicate FirstOfId(es: seq<External>, i: nat)
    requires i < |es|
  {
    forall j :: 0 <= j < i ==> es[j].xrtId != es[i].xrtId
  }

  /** After a flat list: the control packet's index, 4 by default, is named so whatever was there, and the
      indexes 0 to 4 have names. */
  ghost predicate FlatNames(before: map<nat, string>, controlIndex: Option<nat>, after: map<nat, string>) {
    var control := if controlIndex.Some? then controlIndex.value else 4;
    && (forall id: nat :: id in after <==> id in before || id < 5 || id == control)
    && forall id: nat :: id in after ==>
         after[id] == if id == control then "control-packet" else if id in before then before[id] else NumberName(id)
  }

  ghost predicate NamesOf(before: map<nat, string>, tree: Tree, after: map<nat, string>) {
    if tree.buffers.Some? then BufferNames(before, tree.buffers.value, after)
    else if tree.dmaPatches.Some? then FlatNames(before, tree.controlIndex, after)
    else after == before
  }

  lemma {:induction false} NamedKeeps(map0: map<nat, string>, es: seq<External>, id: nat)
    ensures id in Named(map0, es) <==> id in map0 || exists i :: 0 <= i < |es| && es[i].xrtId == id
    ensures id in map0 ==> Named(map0, es)[id] == map0[id]
  {
    if es != [] {
      var last, before := |es| - 1, es[..|es| - 1];
      NamedKeeps(map0, before, id);
      assert forall i :: 0 <= i < last ==> before[i] == es[i];
      assert id in Named(map0, es) <==> id in Named(map0, before) || es[last].xrtId == id;
    }
  }

  lemma NamesMeaning(before: map<nat, string>, tree: Tree)
    ensures NamesOf(before, tree, TreeNames(before, tree))
  {
    hide Named, DmaNames, Decimal;
    if tree.buffers.Some? {
      var es := tree.buffers.value;
      forall id: nat ensures id in Named(before, es) <==> id in before || exists i :: 0 <= i < |es| && es[i].xrtId == id
                ensures id in before ==> Named(before, es)[id] == before[id] {
        NamedKeeps(before, es, id);
      }
      forall i | 0 <= i < |es| && es[i].xrtId !in before && FirstOfId(es, i)
        ensures es[i].xrtId in Named(before, es)
        ensures Named(before, es)[es[i].xrtId] ==
                if es[i].isControlPacket then "control-packet" else NumberName(es[i].xrtId)
      {
        FirstEntryDecides(before, es, i);
      }
    } else if tree.dmaPatches.Some? {
      var names := DmaNames(before, tree.controlIndex);
      var control := if tree.controlIndex.Some? then tree.controlIndex.value else 4;
      forall id: nat ensures id in names <==> id in before || id < 5 || id == control
                ensures id in names ==>
                          names[id] == if id == control then "control-packet"
                                       else if id in before then before[id] else NumberName(id) {
        DmaNamesMeaning(before, tree.controlIndex, id);
      }
    }
  }

  lemma TreeMeaning(packetSize: nat, tree: Tree)
    ensures TreeSymbols(tree, SymbolsAt(TreeLocations(tree)))
    ensures match TreeError(packetSize, tree)
            case None => TreeValid(packetSize, tree)
            case Some(error) => !TreeValid(packetSize, tree) && TreeRefused(packetSize, tree, error)
  {
    hide Lists, SymbolAt, AllLocations, BuffersError, DmasError, GroupFault;
    if tree.buffers.Some? {
      var sites := TreeSites(tree.buffers.value);
      TreeFault(packetSize, tree.buffers.value);
    } else if tree.dmaPatches.Some? {
      var ps := tree.dmaPatches.value;
      FlatFault(packetSize, ps);
      forall i | 0 <= i < |ps|
        ensures SymbolsAt(DmaLocations(ps))[i] == PacketSymbol(ps[i].argIndex, ps[i].offset, ps[i].boOffset)
      {
        FlatSymbols(ps, i);
      }
    }
  }
}
