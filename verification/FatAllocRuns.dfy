// Whole runs of create_chain, remove_chain and f_getfree on one volume (dfs/ff.c).
module FatAllocRuns {
  import opened Words
  import opened FatVolume
  import opened FatChain
  import opened FatAlloc
  import opened FatFree

  datatype AllocOp = CreateOp(clst: nat) | RemoveOp(clst: nat) | CountOp

  /** What a call does to the table, and what it answers. */
  ghost predicate AllocStep(t: Fat, hint: nat, op: AllocOp, answer: nat, u: Fat, mark: nat) {
    && |u| == |t|
    && match op
       case CreateOp(c) => Created(t, hint, c, answer, u, mark)
       case RemoveOp(c) => u == if InRange(t, c) then RemoveWalk(t, c).0 else t
       case CountOp => u == t && answer == FreeCount(t)
  }

  /** One table more than there are calls; hints are the allocator's last_clust before each call. */
  ghost predicate IsAllocRun(ops: seq<AllocOp>, answers: seq<nat>, tables: seq<Fat>, hints: seq<nat>, mark: nat) {
    && |answers| == |ops| == |hints| && |tables| == |ops| + 1
    && forall i | 0 <= i < |ops| :: AllocStep(tables[i], hints[i], ops[i], answers[i], tables[i + 1], mark)
  }

  /** The reserved entries are in use and, where f_getfree goes through get_fat, no cluster has the invalid entry 1. */
  ghost predicate Sane(fatType: FatType, t: Fat) {
    |t| >= 3 && t[0] != 0 && t[1] != 0 && (fatType == Fat12 ==> forall k | InRange(t, k) :: t[k] != 1)
  }

  /** remove_chain only ever clears entries of clusters. */
  lemma {:induction false} RemoveClears(t: Fat, c: nat)
    ensures var u := RemoveWalk(t, c).0;
            |u| == |t| && forall k | 0 <= k < |t| :: u[k] == t[k] || (InRange(t, k) && u[k] == 0)
    decreases |t| - FreeCount(t)
  {
    hide FreeCount;
    if InRange(t, c) && t[c] >= 2 {
      RemoveRound(t, c);
      RemoveClears(t[c := 0], t[c]);
    }
  }

  lemma RemoveRound(t: Fat, c: nat)
    requires InRange(t, c) && t[c] >= 2
    ensures RemoveWalk(t, c) == RemoveWalk(t[c := 0], t[c])
    ensures FreeCount(t) < FreeCount(t[c := 0]) <= |t|
  {
    FreeCountUpdate(t, c, 0);
    FreeUpToBound(t[c := 0], |t|);
  }

  lemma SaneStep(fatType: FatType, t: Fat, hint: nat, op: AllocOp, answer: nat, u: Fat, mark: nat)
    requires Sane(fatType, t) && mark >= |t| && AllocStep(t, hint, op, answer, u, mark)
    ensures Sane(fatType, u)
  {
    hide ScanAnswer, FreeCount;
    match op
    case CreateOp(c) =>
    case RemoveOp(c) => RemoveClears(t, c);
    case CountOp =>
  }

  /** One call on the volume. */
  method PerformAlloc(fs: Volume, op: AllocOp) returns (answer: nat)
    requires fs.Valid() && Sane(fs.g.fatType, fs.Fat()) && CountTruthful(fs.Fat(), fs.freeClust)
    modifies fs`disk, fs`winsect, fs`wflag, fs`image, fs`lastClust, fs`freeClust, fs`fsiFlag, fs.win
    ensures fs.Valid() && fs.g.Valid() && IsDisk(fs.g, fs.image)
    ensures AllocStep(old(fs.Fat()), old(fs.lastClust), op, answer, fs.Fat(), END_MARK % fs.g.EntrySpan())
    ensures Sane(fs.g.fatType, fs.Fat()) && CountTruthful(fs.Fat(), fs.freeClust)
    ensures old(MirrorsAgree(fs.g, fs.image)) ==> MirrorsAgree(fs.g, fs.image)
    ensures SameOutsideFat(fs.g, old(fs.image), fs.image)
  {
    hide *;
    fs.ImageIsDisk();
    EndMarkOutside(fs.g);
    ghost var t, mark := fs.Fat(), END_MARK % fs.g.EntrySpan();
    SameOutsideFatRefl(fs.g, fs.image);
    match op {
      case CreateOp(c) =>
        ghost var steps;
        answer, steps := CreateChain(fs, c);
        fs.ImageIsDisk();
        IsCreate(t, old(fs.lastClust), c, answer, fs.Fat(), mark);
      case RemoveOp(c) =>
        ghost var steps;
        var res;
        res, steps := RemoveChain(fs, c);
        fs.ImageIsDisk();
        answer := 0;
        IsRemove(t, old(fs.lastClust), c, answer, fs.Fat(), mark);
      case CountOp =>
        var res;
        CountIsTrue(fs.g.fatType, t, fs.freeClust);
        res, answer := GetFree(fs);
        fs.ImageIsDisk();
        IsCount(t, old(fs.lastClust), answer, mark, fs.freeClust);
    }
    SaneStep(fs.g.fatType, t, old(fs.lastClust), op, answer, fs.Fat(), mark);
  }

  lemma IsCreate(t: Fat, hint: nat, c: nat, r: nat, u: Fat, mark: nat)
    requires |u| == |t| && Created(t, hint, c, r, u, mark)
    ensures AllocStep(t, hint, CreateOp(c), r, u, mark)
  {
    hide Created;
  }

  lemma IsRemove(t: Fat, hint: nat, c: nat, r: nat, u: Fat, mark: nat)
    requires |u| == |t| && u == if 2 <= c < |t| then RemoveWalk(t, c).0 else t
    ensures AllocStep(t, hint, RemoveOp(c), r, u, mark)
  {
    hide RemoveWalk;
  }

  lemma IsCount(t: Fat, hint: nat, n: nat, mark: nat, freeClust: nat)
    requires n == FreeCount(t) == freeClust
    ensures AllocStep(t, hint, CountOp, n, t, mark) && CountTruthful(t, freeClust)
  {
  }

  /** Both the scan and a plausible stored count give the number of free clusters. */
  lemma CountIsTrue(fatType: FatType, t: Fat, freeClust: nat)
    requires Sane(fatType, t) && CountTruthful(t, freeClust) && |t| < 0x1000_0000
    ensures freeClust <= |t| - 2 ==> freeClust == FreeCount(t)
    ensures Scanned(fatType, t) == FreeCount(t)
  {
    ScannedIsTrue(fatType, t);
  }

  /**
   * Every run of the three calls, in any order and on any arguments: the stored count stays truthful and
   * every count answered is right.
   */
  method RunAlloc(fs: Volume, ops: seq<AllocOp>)
    returns (answers: seq<nat>, ghost tables: seq<Fat>, ghost hints: seq<nat>)
    requires fs.Valid() && Sane(fs.g.fatType, fs.Fat()) && CountTruthful(fs.Fat(), fs.freeClust)
    modifies fs`disk, fs`winsect, fs`wflag, fs`image, fs`lastClust, fs`freeClust, fs`fsiFlag, fs.win
    ensures fs.Valid()
    ensures IsAllocRun(ops, answers, tables, hints, END_MARK % fs.g.EntrySpan())
    ensures |tables| > 0 && tables[0] == old(fs.Fat()) && tables[|tables| - 1] == fs.Fat()
    ensures Sane(fs.g.fatType, fs.Fat()) && CountTruthful(fs.Fat(), fs.freeClust)
    ensures old(MirrorsAgree(fs.g, fs.image)) ==> MirrorsAgree(fs.g, fs.image)
  {
    hide *;
    fs.ImageIsDisk();
    ghost var mark := END_MARK % fs.g.EntrySpan();
    answers, tables, hints := [], [fs.Fat()], [];
    RunOfNone(tables, mark);
    var i := 0;
    while i < |ops|
      invariant 0 <= i <= |ops| && fs.Valid() && fs.g.Valid() && IsDisk(fs.g, fs.image)
      invariant Sane(fs.g.fatType, fs.Fat()) && CountTruthful(fs.Fat(), fs.freeClust)
      invariant |tables| == i + 1 && tables[0] == old(fs.Fat()) && tables[i] == fs.Fat()
      invariant IsAllocRun(ops[..i], answers, tables, hints, mark)
      invariant old(MirrorsAgree(fs.g, fs.image)) ==> MirrorsAgree(fs.g, fs.image)
    {
      ghost var hint := fs.lastClust;
      var answer := PerformAlloc(fs, ops[i]);
      RunMore(ops[..i], answers, tables, hints, mark, ops[i], answer, fs.Fat(), hint);
      assert ops[..i + 1] == ops[..i] + [ops[i]];
      answers, tables, hints := answers + [answer], tables + [fs.Fat()], hints + [hint];
      i := i + 1;
    }
    assert ops[..i] == ops;
  }

  lemma RunOfNone(tables: seq<Fat>, mark: nat)
    requires |tables| == 1
    ensures IsAllocRun([], [], tables, [], mark)
  {
  }

  lemma RunMore(ops: seq<AllocOp>, answers: seq<nat>, tables: seq<Fat>, hints: seq<nat>, mark: nat,
                op: AllocOp, answer: nat, u: Fat, hint: nat)
    requires IsAllocRun(ops, answers, tables, hints, mark) && AllocStep(tables[|ops|], hint, op, answer, u, mark)
    ensures IsAllocRun(ops + [op], answers + [answer], tables + [u], hints + [hint], mark)
  {
    hide AllocStep;
  }

  /** A run in which only heads of chains are removed keeps the graph well formed throughout. */
  lemma {:induction false} RunKeepsGraph(ops: seq<AllocOp>, answers: seq<nat>, tables: seq<Fat>, hints: seq<nat>,
                                         mark: nat, i: nat)
    requires IsAllocRun(ops, answers, tables, hints, mark) && i <= |ops|
    requires |tables[0]| >= 3 && WellFormed(tables[0]) && mark >= |tables[0]|
    requires forall j | 0 <= j < i && ops[j].RemoveOp? :: IsHead(tables[j], ops[j].clst)
    ensures WellFormed(tables[i]) && |tables[i]| == |tables[0]|
  {
    hide WellFormed, AllocStep, IsHead;
    if i > 0 {
      RunKeepsGraph(ops, answers, tables, hints, mark, i - 1);
      assert AllocStep(tables[i - 1], hints[i - 1], ops[i - 1], answers[i - 1], tables[i], mark);
      StepKeepsGraph(tables[i - 1], hints[i - 1], ops[i - 1], answers[i - 1], tables[i], mark);
    }
  }

  lemma StepKeepsGraph(t: Fat, hint: nat, op: AllocOp, answer: nat, u: Fat, mark: nat)
    requires |t| >= 3 && WellFormed(t) && mark >= |t| && AllocStep(t, hint, op, answer, u, mark)
    requires op.RemoveOp? ==> IsHead(t, op.clst)
    ensures WellFormed(u) && |u| == |t|
  {
    hide WellFormed, IsHead, FreeCount, RemoveWalk;
    match op
    case CreateOp(c) => CreateKeepsGraph(t, hint, c, answer, u, mark);
    case RemoveOp(c) => if InRange(t, c) { RemoveKeepsGraph(t, c); }
    case CountOp =>
  }

  lemma CreateKeepsGraph(t: Fat, hint: nat, c: nat, r: nat, u: Fat, mark: nat)
    requires |t| >= 3 && WellFormed(t) && mark >= |t| && Created(t, hint, c, r, u, mark)
    ensures WellFormed(u)
  {
    hide WellFormed, ScanAnswer;
    if u != t {
      ScanRange(t, if c == 0 then StartHint(|t|, hint) else c, r);
      CreateGraph(t, c, r, mark);
    }
  }

  lemma RemoveKeepsGraph(t: Fat, c: nat)
    requires WellFormed(t) && InRange(t, c) && IsHead(t, c)
    ensures WellFormed(RemoveWalk(t, c).0)
  {
    hide IsChain, FreeCount, IsHead;
    if t[c] != 0 {
      assert HasChain(t, c);
      var ch :| IsChainFrom(t, c, ch);
      RemoveFreesChain(t, ch);
    }
  }
}
