/**
 What every run of the patching machine does, stated without the machine.

 The PM window, the BD index and the verdict on each op are given in closed form from the op
 sequence alone; the machine is proved to compute them, for both encodings.
 */
module TxnRuns {
  import opened Bytes
  import opened Symbols
  import opened TxnLayout
  import opened TxnMachine

  // ----- the PM-load window -----

  /** The latest LOAD_PM_START before op k, or -1. */
  function LastLoad(ops: seq<Op>, k: nat): (j: int)
    requires k <= |ops|
    ensures -1 <= j < k
    ensures j >= 0 ==> ops[j].LoadPm?
    ensures forall i :: j < i < k ==> !ops[i].LoadPm?
  {
    if k == 0 then -1 else if ops[k - 1].LoadPm? then k - 1 else LastLoad(ops, k - 1)
  }

  /** The window before op k: the legacy walker counts it down op by op, the optimized one never does. */
  function WindowAt(enc: Encoding, ops: seq<Op>, k: nat): nat
    requires k <= |ops|
  {
    var j := LastLoad(ops, k);
    if j < 0 then 0
    else match enc
      case Legacy => if ops[j].count > k - j - 1 then ops[j].count - (k - j - 1) else 0
      case Opt => ops[j].count + 1
  }

  function PmAt(ops: seq<Op>, k: nat): nat
    requires k <= |ops|
  {
    var j := LastLoad(ops, k); if j < 0 then 0 else ops[j].id
  }

  predicate InPm(enc: Encoding, ops: seq<Op>, k: nat)
    requires k <= |ops|
  {
    WindowAt(enc, ops, k) > 0
  }

  lemma {:induction false} WindowInvariant(enc: Encoding, env: Env, ops: seq<Op>, k: nat)
    requires k <= |ops| && After(enc, env, ops, k).Running?
    ensures After(enc, env, ops, k).st.window == WindowAt(enc, ops, k)
    ensures After(enc, env, ops, k).st.pm == PmAt(ops, k)
  {
    if k > 0 {
      WindowInvariant(enc, env, ops, k - 1);
    }
  }

  /** Legacy PM mode is exactly the c ops after a LOAD_PM_START with count c, cut by the next one. */
  lemma LegacyWindowExtent(ops: seq<Op>, k: nat)
    requires k < |ops|
    ensures InPm(Legacy, ops, k) <==>
            exists j :: 0 <= j < k && ops[j].LoadPm? && k - j <= ops[j].count
                        && forall i :: j < i < k ==> !ops[i].LoadPm?
  {
    var last := LastLoad(ops, k);
    if j :| 0 <= j < k && ops[j].LoadPm? && k - j <= ops[j].count && forall i :: j < i < k ==> !ops[i].LoadPm? {
      assert j == last;
    }
  }

  /** Optimized PM mode never ends: it is everything after the first LOAD_PM_START. */
  lemma OptWindowExtent(ops: seq<Op>, k: nat)
    requires k < |ops|
    ensures InPm(Opt, ops, k) <==> exists j :: 0 <= j < k && ops[j].LoadPm?
  {
    if j :| 0 <= j < k && ops[j].LoadPm? {
      assert j <= LastLoad(ops, k);
    }
  }

  // ----- the BD index -----

  /** Byte of a block-write's payload that goes to register key r, if a BD chunk starts there. */
  function ChunkAt(enc: Encoding, op: Op, r: nat): Option<nat> {
    if op.BlockWrite? && r < KeySpace(enc) then
      var d := (r - op.reg) % KeySpace(enc);
      if d < |op.payload| && d % SHIM_DMA_BD_SIZE == 0 then Some(d) else None
    else None
  }

  /** The last indexed chunk before op k that starts at register key r. */
  function BackScan(enc: Encoding, ops: seq<Op>, k: nat, r: nat): Option<Loc>
    requires k <= |ops|
  {
    if k == 0 then None
    else if !InPm(enc, ops, k - 1) && ChunkAt(enc, ops[k - 1], r).Some? then
      Some(Loc(k - 1, ChunkAt(enc, ops[k - 1], r).value))
    else BackScan(enc, ops, k - 1, r)
  }

  predicate Indexes(enc: Encoding, ops: seq<Op>, j: nat, r: nat)
    requires j < |ops|
  {
    !InPm(enc, ops, j) && ChunkAt(enc, ops[j], r).Some?
  }

  /** BackScan is the last block-write outside PM mode with a chunk at r, and None says there is none. */
  lemma {:induction false} BackScanMeaning(enc: Encoding, ops: seq<Op>, k: nat, r: nat)
    requires k <= |ops|
    ensures match BackScan(enc, ops, k, r)
            case None => forall j :: 0 <= j < k ==> !Indexes(enc, ops, j, r)
            case Some(bd) =>
              && bd.op < k && Indexes(enc, ops, bd.op, r) && bd.byte == ChunkAt(enc, ops[bd.op], r).value
              && forall j :: bd.op < j < k ==> !Indexes(enc, ops, j, r)
  {
    if k > 0 {
      BackScanMeaning(enc, ops, k - 1, r);
    }
  }

  /** Payloads are shorter than the register space, as 32-bit sizes make them. */
  ghost predicate SizesFit(ops: seq<Op>) {
    forall k :: 0 <= k < |ops| && ops[k].BlockWrite? ==> 0 < |ops[k].payload| < TWO_32
  }

  /** Two places in the register space are d apart exactly when adding d to one gives the other. */
  lemma ModularDistance(w: nat, a: nat, r: nat, d: nat)
    requires w == TWO_32 || w == TWO_64
    requires d < w && r < w
    ensures (a + d) % w == r <==> (r - a) % w == d
  {
    if w == TWO_32 {
    } else {
    }
  }

  lemma {:induction false} AddChunksLookup(enc: Encoding, index: map<nat, Loc>, reg: nat, k: nat, n: nat, r: nat)
    requires 32 * n < KeySpace(enc) + 32
    ensures var next := AddChunks(enc, index, reg, k, n);
            var d := (r - reg) % KeySpace(enc);
            var hit := r < KeySpace(enc) && d % 32 == 0 && d < 32 * n;
            && (r in next <==> hit || r in index)
            && (r in next ==> next[r] == if hit then Loc(k, d) else index[r])
  {
    if n > 0 {
      AddChunksLookup(enc, index, reg, k, n - 1, r);
      if r < KeySpace(enc) {
        ModularDistance(KeySpace(enc), reg, r, 32 * (n - 1));
      }
    }
  }

  ghost predicate IndexMatches(enc: Encoding, ops: seq<Op>, k: nat, index: map<nat, Loc>, r: nat)
    requires k <= |ops|
  {
    && (r in index <==> BackScan(enc, ops, k, r).Some?)
    && (r in index ==> BackScan(enc, ops, k, r) == Some(index[r]))
  }

  lemma NextIndexMatches(enc: Encoding, ops: seq<Op>, k: nat, index: map<nat, Loc>, r: nat)
    requires k < |ops| && SizesFit(ops) && IndexMatches(enc, ops, k, index, r)
    ensures IndexMatches(enc, ops, k + 1, NextIndex(enc, ops, k, InPm(enc, ops, k), index), r)
  {
    var op := ops[k];
    if op.BlockWrite? && !InPm(enc, ops, k) {
      AddChunksLookup(enc, index, op.reg, k, NumChunks(|op.payload|), r);
      var d := (r - op.reg) % KeySpace(enc);
      assert d % 32 == 0 ==> (d < |op.payload| <==> d < 32 * NumChunks(|op.payload|));
    }
  }

  /** At every step the map holds, for every register key, what scanning backward finds. */
  lemma {:induction false} IndexInvariant(enc: Encoding, env: Env, ops: seq<Op>, k: nat, r: nat)
    requires k <= |ops| && SizesFit(ops) && After(enc, env, ops, k).Running?
    ensures IndexMatches(enc, ops, k, After(enc, env, ops, k).st.index, r)
  {
    if k > 0 {
      IndexInvariant(enc, env, ops, k - 1, r);
      WindowInvariant(enc, env, ops, k - 1);
      NextIndexMatches(enc, ops, k - 1, After(enc, env, ops, k - 1).st.index, r);
    }
  }

  // ----- the verdict on each op -----

  function BdFor(enc: Encoding, ops: seq<Op>, k: nat): Option<Loc>
    requires k < |ops|
  {
    if ops[k].DdrPatch? then BackScan(enc, ops, k, BdBase(ops[k].regaddr)) else None
  }

  /** What op k does, from the op sequence alone. */
  function VerdictAt(enc: Encoding, env: Env, ops: seq<Op>, k: nat): Verdict
    requires k < |ops|
  {
    OpVerdict(env, ops, k, InPm(enc, ops, k), PmAt(ops, k), BdFor(enc, ops, k))
  }

  /** Symbols of the first k ops. */
  function RelocsOf(enc: Encoding, env: Env, ops: seq<Op>, k: nat): seq<Reloc>
    requires k <= |ops|
  {
    if k == 0 then []
    else RelocsOf(enc, env, ops, k - 1) +
         (match VerdictAt(enc, env, ops, k - 1) case Accept(effect) => effect.relocs case Reject(_) => [])
  }

  /** BDs cleared by the first k ops. */
  function ClearedBy(enc: Encoding, env: Env, ops: seq<Op>, k: nat): seq<Loc>
    requires k <= |ops|
  {
    if k == 0 then []
    else ClearedBy(enc, env, ops, k - 1) +
         (match VerdictAt(enc, env, ops, k - 1) case Accept(effect) => effect.cleared case Reject(_) => [])
  }

  ghost predicate Accepted(enc: Encoding, env: Env, ops: seq<Op>, k: nat)
    requires k <= |ops|
  {
    forall j :: 0 <= j < k ==> VerdictAt(enc, env, ops, j).Accept?
  }

  lemma StepIsVerdict(enc: Encoding, env: Env, ops: seq<Op>, k: nat)
    requires k < |ops| && SizesFit(ops) && After(enc, env, ops, k).Running?
    ensures var st := After(enc, env, ops, k).st;
            VerdictHere(env, ops, k, st) == VerdictAt(enc, env, ops, k)
  {
    WindowInvariant(enc, env, ops, k);
    if ops[k].DdrPatch? {
      IndexInvariant(enc, env, ops, k, BdBase(ops[k].regaddr));
    }
  }

  lemma NextFollowsVerdict(enc: Encoding, env: Env, ops: seq<Op>, k: nat)
    requires k < |ops| && SizesFit(ops) && After(enc, env, ops, k).Running?
    ensures var st, next := After(enc, env, ops, k).st, After(enc, env, ops, k + 1);
            match VerdictAt(enc, env, ops, k)
            case Reject(error) => next == Failed(error, st)
            case Accept(effect) =>
              && next.Running? && next.st.relocs == st.relocs + effect.relocs
              && next.st.cleared == st.cleared + effect.cleared
  {
    StepIsVerdict(enc, env, ops, k);
  }

  /** The machine runs on exactly while every verdict accepts, and then it has emitted what they say. */
  lemma {:induction false} RunFollowsVerdicts(enc: Encoding, env: Env, ops: seq<Op>, k: nat)
    requires k <= |ops| && SizesFit(ops)
    ensures After(enc, env, ops, k).Running? <==> Accepted(enc, env, ops, k)
    ensures After(enc, env, ops, k).Running? ==>
              && After(enc, env, ops, k).st.relocs == RelocsOf(enc, env, ops, k)
              && After(enc, env, ops, k).st.cleared == ClearedBy(enc, env, ops, k)
  {
    hide VerdictAt, Step;
    if k > 0 {
      RunFollowsVerdicts(enc, env, ops, k - 1);
      if After(enc, env, ops, k - 1).Running? {
        NextFollowsVerdict(enc, env, ops, k - 1);
      } else {
        FailureStays(enc, env, ops, k - 1, k);
      }
    }
  }

  /** A failed run reports the first rejected op, with the symbols of the ops before it. */
  lemma {:induction false} FailureIsFirstReject(enc: Encoding, env: Env, ops: seq<Op>, k: nat) returns (j: nat)
    requires k <= |ops| && SizesFit(ops) && After(enc, env, ops, k).Failed?
    ensures j < k && Accepted(enc, env, ops, j)
    ensures VerdictAt(enc, env, ops, j) == Reject(After(enc, env, ops, k).error)
    ensures After(enc, env, ops, k).st.relocs == RelocsOf(enc, env, ops, j)
    ensures After(enc, env, ops, k).st.cleared == ClearedBy(enc, env, ops, j)
  {
    if After(enc, env, ops, k - 1).Failed? {
      j := FailureIsFirstReject(enc, env, ops, k - 1);
    } else {
      j := k - 1;
      RunFollowsVerdicts(enc, env, ops, j);
      NextFollowsVerdict(enc, env, ops, j);
    }
  }

  // ----- acceptance -----

  /** The conditions a caller can read off the stream. */
  ghost predicate Acceptable(enc: Encoding, env: Env, ops: seq<Op>, k: nat)
    requires k < |ops|
  {
    match ops[k]
    case Unknown(_) => false
    case LoadPm(_, id) => id in env.pmIds
    case DdrPatch(regaddr, _, argplus) =>
      && !InPm(enc, ops, k)
      && (exists j :: 0 <= j < k && Indexes(enc, ops, j, BdBase(regaddr)))
      && argplus <= 0xFFFF_FFFF
    case _ => true
  }

  /** A stream is accepted exactly when every op is known, every PM id listed, and every patch names
      an earlier indexed BD, outside PM mode, with an addend of at most 32 bits. */
  lemma ExactAcceptance(enc: Encoding, env: Env, ops: seq<Op>)
    requires SizesFit(ops)
    ensures Run(enc, env, ops).Running? <==> forall k :: 0 <= k < |ops| ==> Acceptable(enc, env, ops, k)
  {
    RunFollowsVerdicts(enc, env, ops, |ops|);
    forall k | 0 <= k < |ops|
      ensures VerdictAt(enc, env, ops, k).Accept? <==> Acceptable(enc, env, ops, k)
    {
      AcceptableExact(enc, env, ops, k);
    }
  }

  lemma AcceptableExact(enc: Encoding, env: Env, ops: seq<Op>, k: nat)
    requires k < |ops|
    ensures VerdictAt(enc, env, ops, k).Accept? <==> Acceptable(enc, env, ops, k)
  {
    if ops[k].DdrPatch? {
      BackScanMeaning(enc, ops, k, BdBase(ops[k].regaddr));
    }
  }
}
