// Whole runs of f_write, f_read and f_lseek on one open file (dfs/ff.c).
module FatRuns {
  import opened Words
  import opened FatVolume
  import opened FatChain
  import opened FatFile
  import opened FatIsolation
  import opened FatData

  datatype Op = WriteOp(data: seq<byte>) | ReadOp(count: nat) | SeekOp(target: dword)

  datatype Event = Wrote(count: nat) | Got(data: seq<byte>) | Moved | Refused

  /**
   * What a client can know of an open file: its bytes, its pointer, how many clusters it has, and how many the volume
   * has left.
   */
  datatype State = State(bytes: seq<byte>, pos: nat, clusters: nat, free: nat)

  /** The clusters that the first p bytes of a file occupy. */
  function ClustersFor(p: nat, unit: nat): nat
    requires unit > 0
  {
    if p == 0 then 0 else (p - 1) / unit + 1
  }

  /** The bytes lie in the clusters. */
  predicate Housed(unit: nat, s: State) {
    s.pos <= |s.bytes| <= s.clusters * unit
  }

  /** The pointer has been moved to t.pos with room made for it: no cluster more than that takes. */
  ghost predicate Extended(unit: nat, s: State, t: State)
    requires unit > 0
  {
    var n := ClustersFor(t.pos, unit);
    t.clusters == if n > s.clusters then n else s.clusters
  }

  /** No cluster is left, and the pointer is at the end of the file's. */
  ghost predicate Exhausted(unit: nat, t: State) {
    t.free == 0 && t.pos == t.clusters * unit
  }

  /**
   * A file as the client sees it, on clusters of unit bytes: reads and seeks leave the bytes alone, a write splices
   * its data in at the pointer, and the clusters a file gains are the clusters the volume loses.
   */
  ghost predicate Step(r: bool, w: bool, unit: nat, s: State, op: Op, ev: Event, t: State) {
    && unit > 0 && Housed(unit, s) && Housed(unit, t)
    && t.free + t.clusters == s.free + s.clusters
    && match op
       case WriteOp(data) =>
         if !w then ev == Refused && t == s
         else
           && ev.Wrote? && ev.count <= |data|
           && t.bytes == Splice(s.bytes, s.pos, data[..ev.count]) && t.pos == s.pos + ev.count
           && (if ev.count == 0 then t.clusters == s.clusters else Extended(unit, s, t))
           && (ev.count < |data| ==>
                 Exhausted(unit, t) || (ev.count == 0 && |s.bytes| + |data| >= 0x1_0000_0000))
       case ReadOp(n) =>
         if !r then ev == Refused && t == s
         else
           && t == s.(pos := if s.pos + n <= |s.bytes| then s.pos + n else |s.bytes|)
           && ev == Got(s.bytes[s.pos..t.pos])
       case SeekOp(p) =>
         && ev == Moved
         && (p <= |s.bytes| ==> t == s.(pos := p))
         && (p > |s.bytes| && !w ==> t == s.(pos := |s.bytes|))
         && (p > |s.bytes| && w ==>
               && s.bytes <= t.bytes && |t.bytes| == (if t.pos > |s.bytes| then t.pos else |s.bytes|)
               && Extended(unit, s, t)
               && (t.pos == p || (t.pos < p && Exhausted(unit, t))))
  }

  ghost predicate Follows(r: bool, w: bool, unit: nat, ops: seq<Op>, evs: seq<Event>, states: seq<State>) {
    && |evs| == |ops| && |states| == |ops| + 1
    && forall i | 0 <= i < |ops| :: Step(r, w, unit, states[i], ops[i], evs[i], states[i + 1])
  }

  /** The state of an open file. */
  ghost function StateOf(f: File): State
    requires f.Valid()
    reads f, f.buf, f.fs, f.fs.win
  {
    Usable(f);
    State(f.Contents(), f.fptr, |f.chain|, FreeCount(f.fs.Fat()))
  }

  ghost function UnitOf(f: File): int {
    ClusterBytes(f.fs.g)
  }

  lemma Usable(f: File)
    requires f.Valid()
    ensures 0 <= f.fptr <= f.fsize <= |f.content| && f.fs.g.Valid() && IsDisk(f.fs.g, f.fs.image)
  {
  }

  /** The file's bytes lie in its clusters, and how many of them the pointer needs. */
  lemma Sized(f: File)
    requires f.Valid()
    ensures f.fs.g.ss > 0 && f.fs.g.csize > 0 && UnitOf(f) > 0 && f.fptr >= 0
    ensures 0 <= f.fptr <= f.fsize <= |f.content| == |f.chain| * UnitOf(f)
    ensures ClustersFor(f.fptr, UnitOf(f)) == if f.fptr == 0 then 0 else ClusterIndex(f.fs.g, f.fptr - 1) + 1
    ensures f.fs.g.Valid() && IsDisk(f.fs.g, f.fs.image)
    ensures StateOf(f) == State(f.Contents(), f.fptr, |f.chain|, FreeCount(Table(f.fs.g, f.fs.image)))
    ensures f.fs.Valid() && f.fs.Fat() == Table(f.fs.g, f.fs.image)
    ensures f.Contents() == f.content[..f.fsize] && Housed(UnitOf(f), StateOf(f))
  {
    hide File.Core, File.Loop, Geometry.Valid, IsDisk, FreeCount, Volume.Fat, GoodChain, Volume.Valid, Table;
    f.LoopOf();
    f.LoopFacts();
    f.CoreFacts();
    f.fs.FatIsTable();
    CapacityIs(f.fs.g, f.chain);
    OffsetIs(f.fs.g, |f.chain|);
    assert |f.chain| * f.fs.g.csize * f.fs.g.ss == |f.chain| * (f.fs.g.csize * f.fs.g.ss);
    MulLe(1, f.fs.g.csize, f.fs.g.ss);
    if f.fptr > 0 { IndexByBytes(f.fs.g, f.fptr - 1); }
  }

  method Perform(f: File, op: Op) returns (ev: Event)
    requires f.Valid() && (op.WriteOp? ==> |op.data| < 0x1_0000_0000)
    modifies f, f.buf, f.fs, f.fs.win
    ensures f.Valid() && UnitOf(f) > 0
    ensures Step(f.readable, f.writable, UnitOf(f), old(StateOf(f)), op, ev, StateOf(f))
    ensures Kept(f.fs.g, old(f.Now()), f.Now())
  {
    hide File.Valid, Splice, FreeCount, Volume.Fat, Kept, UnitOf, ClustersFor, ClusterIndex, File.Now, StateOf,
         File.Contents, Housed;
    Sized(f);
    f.NowIs();
    match op {
      case WriteOp(data) =>
        SpliceNothing(f.Contents(), f.fptr, data);
        var res, n := f.Write(data);
        ev := if res == Ok then Wrote(n) else Refused;
      case ReadOp(n) =>
        var res, data := f.Read(n);
        ev := if res == Ok then Got(data) else Refused;
      case SeekOp(p) =>
        var res := f.Seek(p);
        ev := Moved;
    }
    Sized(f);
    f.NowIs();
    KeptCount(f.fs.g, old(f.Now()), f.Now());
  }

  /**
   * Every run of reads, writes and seeks on an open file is a run of the byte-sequence file above, and
   * touches nothing of the volume but the file.
   */
  method Run(f: File, ops: seq<Op>) returns (evs: seq<Event>, ghost states: seq<State>)
    requires f.Valid() && forall i | 0 <= i < |ops| :: ops[i].WriteOp? ==> |ops[i].data| < 0x1_0000_0000
    modifies f, f.buf, f.fs, f.fs.win
    ensures f.Valid() && UnitOf(f) > 0
    ensures Follows(f.readable, f.writable, UnitOf(f), ops, evs, states)
    ensures states[0] == old(StateOf(f)) && states[|ops|] == StateOf(f)
    ensures Kept(f.fs.g, old(f.Now()), f.Now())
  {
    hide *;
    f.LoopOf();
    f.LoopFacts();
    f.KeptNow();
    Sized(f);
    evs := [];
    states := [StateOf(f)];
    FollowsNothing(f.readable, f.writable, UnitOf(f), states);
    var i := 0;
    while i < |ops|
      invariant 0 <= i <= |ops| && f.Valid() && UnitOf(f) > 0
      invariant |states| == i + 1 && states[0] == old(StateOf(f)) && states[i] == StateOf(f)
      invariant Follows(f.readable, f.writable, UnitOf(f), ops[..i], evs, states)
      invariant Kept(f.fs.g, old(f.Now()), f.Now())
    {
      ghost var was := f.Now();
      var ev := Perform(f, ops[i]);
      KeptThen(f.fs.g, old(f.Now()), was, f.Now());
      FollowsMore(f.readable, f.writable, UnitOf(f), ops[..i], evs, states, ops[i], ev, StateOf(f));
      assert ops[..i + 1] == ops[..i] + [ops[i]];
      evs := evs + [ev];
      states := states + [StateOf(f)];
      i := i + 1;
    }
    assert ops[..i] == ops;
  }

  lemma FollowsNothing(r: bool, w: bool, unit: nat, states: seq<State>)
    requires |states| == 1
    ensures Follows(r, w, unit, [], [], states)
  {
  }

  lemma FollowsMore(r: bool, w: bool, unit: nat, ops: seq<Op>, evs: seq<Event>, states: seq<State>, op: Op, ev: Event,
                    t: State)
    requires Follows(r, w, unit, ops, evs, states) && Step(r, w, unit, states[|ops|], op, ev, t)
    ensures Follows(r, w, unit, ops + [op], evs + [ev], states + [t])
  {
    hide Step;
  }

  /**
   * How much a write stores: everything, or what the file's and the volume's clusters have room for, whichever is
   * less.  Below 4 GB that is exact.
   */
  lemma WritesWhatFits(r: bool, unit: nat, s: State, data: seq<byte>, ev: Event, t: State)
    requires Step(r, true, unit, s, WriteOp(data), ev, t) && |s.bytes| + |data| < 0x1_0000_0000
    ensures var room := (s.clusters + s.free) * unit - s.pos;
            ev.Wrote? && ev.count == if |data| <= room then |data| else room
  {
    hide Splice, Extended;
    MulLe(t.clusters, s.clusters + s.free, unit);
  }

  /** How far a stretching seek gets. */
  lemma SeeksWhatFits(r: bool, unit: nat, s: State, p: dword, ev: Event, t: State)
    requires Step(r, true, unit, s, SeekOp(p), ev, t) && p > |s.bytes|
    ensures var end := (s.clusters + s.free) * unit; t.pos == if p <= end then p else end
  {
    hide Extended;
    MulLe(t.clusters, s.clusters + s.free, unit);
  }

  /** Conservation: over every run, the clusters of the file and those still free add up to the same. */
  lemma {:induction false} ClustersConserved(r: bool, w: bool, unit: nat, ops: seq<Op>, evs: seq<Event>,
                                             states: seq<State>, i: nat)
    requires Follows(r, w, unit, ops, evs, states) && i < |states|
    ensures states[i].free + states[i].clusters == states[0].free + states[0].clusters
    ensures states[0].clusters <= states[i].clusters
  {
    if i > 0 {
      ClustersConserved(r, w, unit, ops, evs, states, i - 1);
      assert Step(r, w, unit, states[i - 1], ops[i - 1], evs[i - 1], states[i]);
    }
  }

  /** What was written completely is read back, once the pointer is moved to where it was. */
  lemma ReadBack(unit: nat, data: seq<byte>, p: dword, evs: seq<Event>, states: seq<State>)
    requires Follows(true, true, unit, [WriteOp(data), SeekOp(p), ReadOp(|data|)], evs, states)
    requires states[0].pos == p && evs[0] == Wrote(|data|)
    ensures evs[2] == Got(data)
  {
    var ops := [WriteOp(data), SeekOp(p), ReadOp(|data|)];
    assert Step(true, true, unit, states[0], ops[0], evs[0], states[1]);
    assert Step(true, true, unit, states[1], ops[1], evs[1], states[2]);
    assert Step(true, true, unit, states[2], ops[2], evs[2], states[3]);
    assert data[..|data|] == data;
  }

  /** If the FAT copies agreed before a run, they agree on the disk whenever the window is clean after it. */
  lemma CopiesAgreeAfter(f: File, before: Snap)
    requires f.Valid() && Kept(f.fs.g, before, f.Now()) && MirrorsAgree(f.fs.g, before.image) && !f.fs.wflag
    ensures f.fs.g.Valid() && IsDisk(f.fs.g, f.fs.disk) && MirrorsAgree(f.fs.g, f.fs.disk)
  {
    hide File.Core, MirrorsAgree, Geometry.Valid, DataKept, TableKept;
    f.LoopOf();
    f.LoopFacts();
    f.fs.CleanCopiesAgree();
  }

  /** Another file of the volume after a run: its chain, and every sector of it, is as it was. */
  lemma OtherFileAfter(f: File, before: Snap, other: seq<nat>)
    requires f.Valid() && Kept(f.fs.g, before, f.Now())
    requires IsChain(Table(f.fs.g, before.image), other) && Apart(other, before.chain)
    ensures f.fs.g.Valid() && IsDisk(f.fs.g, f.fs.image)
    ensures IsChain(f.fs.Fat(), other) && Apart(other, f.chain)
    ensures SectorsSame(f.fs.g, other, before.image, f.fs.image)
  {
    hide *;
    f.LoopOf();
    f.LoopFacts();
    f.NowIs();
    f.fs.FatIsTable();
    OthersUntouched(f.fs.g, before, f.Now(), other);
  }
}
