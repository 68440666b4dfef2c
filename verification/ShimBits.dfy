/**
 Clearing the address bits of shim BDs in a buffer.

 Word 1 of a shim BD keeps its two low bits and word 2 its upper half; the 46 address bits
 between them are zeroed because the runtime sets them.
 */
module ShimBits {
  import opened Bytes

  /** Bytes of a BD up to the last one that clearing touches. */
  const BD_TOUCHED: nat := 10

  /** The buffer after the address bits of the BD at off are cleared. */
  function Clear(b: seq<byte>, off: nat): (c: seq<byte>)
    ensures |c| == |b|
    ensures forall i :: 0 <= i < |b| ==>
              c[i] == if i == off + 4 then b[i] % 4 else if off + 5 <= i < off + BD_TOUCHED then 0 else b[i]
  {
    seq(|b|, i requires 0 <= i < |b| =>
      if i == off + 4 then b[i] % 4 else if off + 5 <= i < off + BD_TOUCHED then 0 else b[i])
  }

  function ClearAll(b: seq<byte>, offs: seq<nat>): (c: seq<byte>)
    ensures |c| == |b|
    decreases |offs|
  {
    if offs == [] then b else Clear(ClearAll(b, offs[..|offs| - 1]), offs[|offs| - 1])
  }

  lemma ClearAllSnoc(b: seq<byte>, offs: seq<nat>, off: nat)
    ensures ClearAll(b, offs + [off]) == Clear(ClearAll(b, offs), off)
  {
    assert (offs + [off])[..|offs|] == offs;
  }

  /** Clearing the BD at off leaves byte i alone: it is not one it touches, or is already clear. */
  predicate Spares(b: seq<byte>, off: nat, i: nat)
    requires i < |b|
  {
    (i == off + 4 ==> b[i] < 4) && (off + 5 <= i < off + BD_TOUCHED ==> b[i] == 0)
  }

  lemma {:induction false} ClearAllShrinks(b: seq<byte>, offs: seq<nat>, i: nat)
    requires i < |b|
    ensures ClearAll(b, offs)[i] <= b[i]
    decreases |offs|
  {
    if offs != [] {
      ClearAllShrinks(b, offs[..|offs| - 1], i);
    }
  }

  /** Clearing any list of BDs leaves byte i alone exactly when each of the clears does. */
  lemma {:induction false} ClearAllExact(b: seq<byte>, offs: seq<nat>, i: nat)
    requires i < |b|
    ensures ClearAll(b, offs)[i] == b[i] <==> forall n :: 0 <= n < |offs| ==> Spares(b, offs[n], i)
    decreases |offs|
  {
    if offs != [] {
      var before, last := offs[..|offs| - 1], offs[|offs| - 1];
      ClearAllExact(b, before, i);
      ClearAllShrinks(b, before, i);
      assert forall n :: 0 <= n < |before| ==> before[n] == offs[n];
      if ClearAll(b, offs)[i] == b[i] {
        assert ClearAll(b, before)[i] == b[i];
        forall n | 0 <= n < |offs| ensures Spares(b, offs[n], i) {
          assert n < |before| ==> Spares(b, before[n], i);
        }
      }
    }
  }

  // ----- what repeated clearing does to one byte -----

  /** 2: some BD zeroes byte i; 1: some BD keeps only its two low bits; 0: untouched. */
  function Level(offs: seq<nat>, i: nat): (n: nat)
    ensures n <= 2
    decreases |offs|
  {
    if offs == [] then 0 else LevelNext(Level(offs[..|offs| - 1], i), offs[|offs| - 1], i)
  }

  /** What clearing one more BD makes of it. */
  function LevelNext(before: nat, off: nat, i: nat): (n: nat)
    ensures before <= 2 ==> n <= 2
  {
    if off + 5 <= i < off + BD_TOUCHED then 2 else if i == off + 4 && before == 0 then 1 else before
  }

  lemma LevelSnoc(offs: seq<nat>, off: nat, i: nat)
    ensures Level(offs + [off], i) == LevelNext(Level(offs, i), off, i)
  {
    assert (offs + [off])[..|offs|] == offs;
  }

  function Masked(v: byte, level: nat): byte {
    if level == 0 then v else if level == 1 then v % 4 else 0
  }

  lemma {:induction false} ClearAllByte(b: seq<byte>, offs: seq<nat>, i: nat)
    requires i < |b|
    ensures ClearAll(b, offs)[i] == Masked(b[i], Level(offs, i))
    decreases |offs|
  {
    if offs != [] {
      ClearAllByte(b, offs[..|offs| - 1], i);
    }
  }

  /** Clearing the same BDs again changes nothing. */
  lemma ClearAllIdempotent(b: seq<byte>, offs: seq<nat>)
    ensures ClearAll(ClearAll(b, offs), offs) == ClearAll(b, offs)
  {
    var c := ClearAll(b, offs);
    forall i | 0 <= i < |b| ensures ClearAll(c, offs)[i] == c[i] {
      ClearAllByte(b, offs, i);
      ClearAllByte(c, offs, i);
    }
  }
}
