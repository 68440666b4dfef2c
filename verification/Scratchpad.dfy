/**
 Resizing the scratchpad: every symbol of a section gets the largest size + addend among them, so that
 the one scratch buffer they share covers all their transfers.
 */
module Scratchpad {
  import opened Bytes
  import opened Symbols

  /** 64-bit size plus 32-bit addend, in 64-bit arithmetic. */
  function Extent(sym: Symbol): nat { (sym.size + sym.addend) % TWO_64 }

  /** The largest extent in a section, 0 when it has no symbol. */
  function MaxExtent(syms: seq<Symbol>, section: string): nat {
    if syms == [] then 0
    else
      var last, rest := syms[|syms| - 1], MaxExtent(syms[..|syms| - 1], section);
      if last.section == section && Extent(last) > rest then Extent(last) else rest
  }

  function Resize(sym: Symbol, section: string, size: nat): Symbol {
    if sym.section == section then sym.(size := size) else sym
  }

  function Resized(syms: seq<Symbol>, section: string): (r: seq<Symbol>)
    ensures |r| == |syms|
  {
    seq(|syms|, i requires 0 <= i < |syms| => Resize(syms[i], section, MaxExtent(syms, section)))
  }

  /** Fields as the preprocessor makes them: 32-bit sizes and addends. */
  ghost predicate Narrow(syms: seq<Symbol>) {
    forall i :: 0 <= i < |syms| ==> syms[i].size < TWO_32 && syms[i].addend < TWO_32
  }

  /** MaxExtent is the maximum: it bounds every extent of the section, and one symbol attains it. */
  lemma {:induction false} MaxExtentIsMaximum(syms: seq<Symbol>, section: string)
    ensures forall i :: 0 <= i < |syms| && syms[i].section == section ==> Extent(syms[i]) <= MaxExtent(syms, section)
    ensures MaxExtent(syms, section) == 0 ||
            exists i :: 0 <= i < |syms| && syms[i].section == section && Extent(syms[i]) == MaxExtent(syms, section)
  {
    hide Extent;
    if syms != [] {
      var rest := syms[..|syms| - 1];
      MaxExtentIsMaximum(rest, section);
      assert forall i :: 0 <= i < |rest| ==> rest[i] == syms[i];
    }
  }

  /** With 32-bit fields nothing wraps: each symbol's bytes [addend, addend + size) lie in the new size. */
  lemma ResizedCovers(syms: seq<Symbol>, section: string, i: nat)
    requires Narrow(syms) && i < |syms| && syms[i].section == section
    ensures syms[i].addend + syms[i].size <= Resized(syms, section)[i].size
    ensures Resized(syms, section)[i] == syms[i].(size := MaxExtent(syms, section))
  {
    MaxExtentIsMaximum(syms, section);
    assert Extent(syms[i]) == syms[i].size + syms[i].addend;
  }

  lemma {:induction false} OtherSectionsExtent(syms: seq<Symbol>, changed: seq<Symbol>, section: string)
    requires |syms| == |changed|
    requires forall i :: 0 <= i < |syms| ==>
               changed[i].section == syms[i].section && (syms[i].section == section ==> changed[i] == syms[i])
    ensures MaxExtent(changed, section) == MaxExtent(syms, section)
  {
    hide Extent;
    if syms != [] {
      OtherSectionsExtent(syms[..|syms| - 1], changed[..|syms| - 1], section);
    }
  }

  /** Resizing two sections gives the same symbols in either order. */
  lemma ResizesCommute(syms: seq<Symbol>, a: string, b: string)
    ensures Resized(Resized(syms, a), b) == Resized(Resized(syms, b), a)
  {
    if a != b {
      OtherSectionsExtent(syms, Resized(syms, a), b);
      OtherSectionsExtent(syms, Resized(syms, b), a);
    }
  }

  /** Resizing again is not harmless: the new size is extended by the addends once more.  It changes
      nothing exactly when every addend of the section is 0. */
  lemma ResizeTwice(syms: seq<Symbol>, section: string)
    requires Narrow(syms)
    ensures Resized(Resized(syms, section), section) == Resized(syms, section) <==>
            forall i :: 0 <= i < |syms| && syms[i].section == section ==> syms[i].addend == 0
  {
    var once := Resized(syms, section);
    var twice := Resized(once, section);
    var m := MaxExtent(syms, section);
    MaxExtentIsMaximum(syms, section);
    MaxExtentIsMaximum(once, section);
    MaxExtentIsSmall(syms, section);
    forall i | 0 <= i < |syms| && syms[i].section == section
      ensures Extent(once[i]) == m + syms[i].addend
    {
      assert once[i].size == m;
    }
    if forall i :: 0 <= i < |syms| && syms[i].section == section ==> syms[i].addend == 0 {
      if i :| 0 <= i < |syms| && syms[i].section == section {
        assert Extent(once[i]) == m;
        assert MaxExtent(once, section) == m;
      }
      assert twice == once;
    } else {
      var i :| 0 <= i < |syms| && syms[i].section == section && syms[i].addend != 0;
      assert Extent(once[i]) > m;
      assert twice[i].size > once[i].size;
    }
  }

  lemma {:induction false} MaxExtentIsSmall(syms: seq<Symbol>, section: string)
    requires Narrow(syms)
    ensures MaxExtent(syms, section) < 2 * TWO_32
  {
    if syms != [] {
      MaxExtentIsSmall(syms[..|syms| - 1], section);
    }
  }

  /** The size field of a masked patch is its mask: a resize keeps it exactly when the patch has addend 0
      and nothing in its section reaches further than the mask's own number. */
  lemma MaskSurvivesResize(syms: seq<Symbol>, section: string, i: nat)
    requires Narrow(syms) && i < |syms| && syms[i].section == section && syms[i].schema == Scaler32
    ensures Resized(syms, section)[i] == syms[i] <==>
            && syms[i].addend == 0
            && forall j :: 0 <= j < |syms| && syms[j].section == section ==>
                 syms[j].size + syms[j].addend <= syms[i].size
  {
    hide MaxExtent;
    MaxExtentIsMaximum(syms, section);
    assert Resized(syms, section)[i] == syms[i].(size := MaxExtent(syms, section));
    forall j | 0 <= j < |syms| ensures Extent(syms[j]) == syms[j].size + syms[j].addend {
    }
  }
}
