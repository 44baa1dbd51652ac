// Cluster chains as a graph: the FAT is a sequence of entries, a chain is a
// walk that ends at an end mark.  Everything here is about values; FatAlloc
// ties it to the volume.
module FatChain {

  type Fat = seq<nat>

  ghost predicate InRange(t: Fat, c: int) {
    2 <= c < |t|
  }

  /** ch is a walk of linked clusters whose last entry is an end mark. */
  ghost predicate IsChain(t: Fat, ch: seq<nat>) {
    && |ch| > 0
    && (forall i | 0 <= i < |ch| :: InRange(t, ch[i]))
    && (forall i | 0 <= i < |ch| - 1 :: t[ch[i]] == ch[i + 1])
    && t[ch[|ch| - 1]] >= |t|
  }

  ghost predicate IsChainFrom(t: Fat, c: int, ch: seq<nat>) {
    |ch| > 0 && ch[0] == c && IsChain(t, ch)
  }

  ghost predicate HasChain(t: Fat, c: int) {
    exists ch :: IsChainFrom(t, c, ch)
  }

  ghost predicate NoSharedSuccessor(t: Fat) {
    forall a, b | InRange(t, a) && InRange(t, b) && a != b && InRange(t, t[a]) :: t[a] != t[b]
  }

  /**
   * Every entry is free, an end mark or an in-range link, no two links meet, and
   * no walk loops: from each allocated cluster the links reach an end mark.
   */
  ghost predicate WellFormed(t: Fat) {
    && (forall c | InRange(t, c) && t[c] != 0 :: HasChain(t, c))
    && NoSharedSuccessor(t)
  }

  /** No link leads to c. */
  ghost predicate IsHead(t: Fat, c: nat) {
    forall b | InRange(t, b) :: t[b] != c
  }

  lemma ChainStep(t: Fat, ch: seq<nat>, i: int)
    requires IsChain(t, ch) && 0 <= i < |ch|
    ensures if i < |ch| - 1 then t[ch[i]] == ch[i + 1] && InRange(t, ch[i + 1]) else t[ch[i]] >= |t|
    ensures InRange(t, ch[i]) && t[ch[i]] >= 2
  {
  }

  lemma ChainSuffix(t: Fat, ch: seq<nat>, i: nat)
    requires IsChain(t, ch) && i < |ch|
    ensures IsChain(t, ch[i..])
  {
  }

  lemma {:induction false} ChainUnique(t: Fat, a: seq<nat>, b: seq<nat>)
    requires IsChain(t, a) && IsChain(t, b) && a[0] == b[0]
    ensures a == b
    decreases |a|
  {
    ChainStep(t, a, 0);
    ChainStep(t, b, 0);
    if |a| > 1 {
      ChainSuffix(t, a, 1);
      ChainSuffix(t, b, 1);
      ChainUnique(t, a[1..], b[1..]);
      assert a == [a[0]] + a[1..] && b == [b[0]] + b[1..];
    }
  }

  /** A chain never visits a cluster twice. */
  lemma ChainDistinct(t: Fat, ch: seq<nat>)
    requires IsChain(t, ch)
    ensures forall i, j | 0 <= i < j < |ch| :: ch[i] != ch[j]
  {
    forall i, j | 0 <= i < j < |ch| ensures ch[i] != ch[j] {
      if ch[i] == ch[j] {
        ChainSuffix(t, ch, i);
        ChainSuffix(t, ch, j);
        ChainUnique(t, ch[i..], ch[j..]);
      }
    }
  }

  /** A chain only depends on the entries of its own clusters. */
  lemma ChainFrame(t: Fat, c: nat, v: nat, ch: seq<nat>)
    requires IsChain(t, ch) && c < |t| && c !in ch
    ensures IsChain(t[c := v], ch)
  {
  }

  /** A link of a well-formed table leads to an allocated cluster. */
  lemma LinkAllocated(t: Fat, b: int)
    requires WellFormed(t) && InRange(t, b) && InRange(t, t[b])
    ensures t[t[b]] >= 2
  {
    assert HasChain(t, b);
    var ch :| IsChainFrom(t, b, ch);
    ChainStep(t, ch, 0);
    ChainStep(t, ch, 1);
  }

  /** A chain does not contain a free cluster. */
  lemma FreeNotInChain(t: Fat, ch: seq<nat>, c: nat)
    requires IsChain(t, ch) && c < |t| && t[c] == 0
    ensures c !in ch
  {
    hide IsChain;
    if c in ch {
      var i :| 0 <= i < |ch| && ch[i] == c;
      ChainStep(t, ch, i);
    }
  }

  /** A cluster with an end mark can only be the last of a chain. */
  lemma EndIsLast(t: Fat, ch: seq<nat>, a: nat)
    requires IsChain(t, ch) && InRange(t, a) && t[a] >= |t|
    ensures a in ch ==> ch[|ch| - 1] == a
  {
    if a in ch {
      var i :| 0 <= i < |ch| && ch[i] == a;
      ChainStep(t, ch, i);
    }
  }

  /** A cluster no link leads to can only be the first of a chain. */
  lemma HeadIsFirst(t: Fat, ch: seq<nat>, h: nat)
    requires IsChain(t, ch) && IsHead(t, h)
    ensures h !in ch[1..]
  {
    if h in ch[1..] {
      var i :| 0 <= i < |ch| - 1 && ch[1..][i] == h;
      ChainStep(t, ch, i);
    }
  }

  /** Marking a free cluster as a one-cluster chain keeps the table well formed and touches no chain. */
  lemma MarkFreeChain(t: Fat, c: nat, mark: nat, ch: seq<nat>)
    requires IsChain(t, ch) && InRange(t, c) && t[c] == 0
    ensures c !in ch && IsChain(t[c := mark], ch)
  {
    hide IsChain;
    FreeNotInChain(t, ch, c);
    ChainFrame(t, c, mark, ch);
  }

  lemma MarkFree(t: Fat, c: nat, mark: nat)
    requires WellFormed(t) && InRange(t, c) && t[c] == 0 && mark >= |t|
    ensures WellFormed(t[c := mark])
    ensures IsHead(t[c := mark], c)
    ensures IsChain(t[c := mark], [c])
  {
    hide IsChain;
    var u := t[c := mark];
    OneCluster(u, c);
    forall k | InRange(u, k) && u[k] != 0 ensures HasChain(u, k) {
      if k != c {
        assert HasChain(t, k);
        var ch :| IsChainFrom(t, k, ch);
        MarkFreeChain(t, c, mark, ch);
        assert IsChainFrom(u, k, ch);
      } else {
        assert IsChainFrom(u, k, [c]);
      }
    }
    forall b | InRange(u, b) ensures u[b] != c {
      if b != c && t[b] == c { LinkAllocated(t, b); }
    }
  }

  lemma OneCluster(t: Fat, c: nat)
    requires InRange(t, c) && t[c] >= |t|
    ensures IsChain(t, [c])
  {
  }

  /** Linking the end a of a chain to the one-cluster chain c appends c to every chain through a. */
  ghost function Appended(ch: seq<nat>, a: nat, c: nat): (e: seq<nat>)
    ensures |ch| > 0 ==> |e| > 0 && e[0] == ch[0]
  {
    if a in ch then ch + [c] else ch
  }

  lemma LinkEndChain(t: Fat, a: nat, c: nat, ch: seq<nat>)
    requires IsChain(t, ch) && InRange(t, a) && InRange(t, c) && a != c
    requires t[a] >= |t| && t[c] >= |t|
    ensures IsChain(t[a := c], Appended(ch, a, c))
  {
    var u := t[a := c];
    if a in ch {
      EndIsLast(t, ch, a);
      ChainDistinct(t, ch);
      var e := ch + [c];
      forall i | 0 <= i < |e| - 1 ensures u[e[i]] == e[i + 1] {
        ChainStep(t, ch, i);
      }
    } else {
      ChainFrame(t, a, c, ch);
    }
  }

  lemma LinkEnd(t: Fat, a: nat, c: nat)
    requires WellFormed(t) && InRange(t, a) && InRange(t, c) && a != c
    requires t[a] >= |t| && t[c] >= |t| && IsHead(t, c)
    ensures WellFormed(t[a := c])
  {
    hide IsChain, Appended;
    var u := t[a := c];
    forall k | InRange(u, k) && u[k] != 0 ensures HasChain(u, k) {
      assert t[k] != 0;
      assert HasChain(t, k);
      var ch :| IsChainFrom(t, k, ch);
      LinkEndChain(t, a, c, ch);
      assert IsChainFrom(u, k, Appended(ch, a, c));
    }
  }

  lemma NonEmpty(t: Fat, ch: seq<nat>)
    requires IsChain(t, ch)
    ensures |ch| > 0 && InRange(t, ch[0])
  {
  }

  /** Freeing the head of a chain keeps the table well formed and makes its successor a head. */
  lemma FreeHeadChain(t: Fat, h: nat, ch: seq<nat>)
    requires IsChain(t, ch) && InRange(t, h) && IsHead(t, h)
    ensures ch[0] != h ==> h !in ch && IsChain(t[h := 0], ch)
    ensures ch[0] == h && |ch| > 1 ==> IsChain(t[h := 0], ch[1..])
  {
    HeadIsFirst(t, ch, h);
    if ch[0] != h {
      assert ch == [ch[0]] + ch[1..];
      ChainFrame(t, h, 0, ch);
    } else if |ch| > 1 {
      ChainSuffix(t, ch, 1);
      ChainFrame(t, h, 0, ch[1..]);
    }
  }

  lemma FreeHead(t: Fat, h: nat)
    requires WellFormed(t) && InRange(t, h) && t[h] != 0 && IsHead(t, h)
    ensures WellFormed(t[h := 0])
    ensures InRange(t, t[h]) ==> IsHead(t[h := 0], t[h])
  {
    hide IsChain;
    var u := t[h := 0];
    forall k | InRange(u, k) && u[k] != 0 ensures HasChain(u, k) {
      assert HasChain(t, k);
      var ch :| IsChainFrom(t, k, ch);
      FreeHeadChain(t, h, ch);
      assert IsChainFrom(u, k, ch);
    }
  }

  /** A well-formed table has no entry 1. */
  lemma WellFormedNoOnes(t: Fat)
    requires WellFormed(t)
    ensures forall k | InRange(t, k) :: t[k] != 1
  {
    hide IsChain;
    forall k | InRange(t, k) ensures t[k] != 1 {
      if t[k] != 0 {
        assert HasChain(t, k);
        var ch :| IsChainFrom(t, k, ch);
        ChainStep(t, ch, 0);
      }
    }
  }

  /** Number of zero entries among clusters 2 .. |t| - 1. */
  ghost function FreeCount(t: Fat): nat {
    FreeUpTo(t, |t|)
  }

  ghost function FreeUpTo(t: Fat, n: nat): nat
    requires n <= |t|
  {
    if n <= 2 then 0 else FreeUpTo(t, n - 1) + (if t[n - 1] == 0 then 1 else 0)
  }

  lemma {:induction false} FreeUpToUpdate(t: Fat, c: nat, v: nat, n: nat)
    requires InRange(t, c) && n <= |t|
    ensures FreeUpTo(t[c := v], n) ==
            FreeUpTo(t, n) + (if c < n then (if v == 0 then 1 else 0) - (if t[c] == 0 then 1 else 0) else 0)
  {
    if n > 2 {
      FreeUpToUpdate(t, c, v, n - 1);
    }
  }

  lemma FreeCountUpdate(t: Fat, c: nat, v: nat)
    requires InRange(t, c)
    ensures FreeCount(t[c := v]) ==
            FreeCount(t) + (if v == 0 then 1 else 0) - (if t[c] == 0 then 1 else 0)
  {
    FreeUpToUpdate(t, c, v, |t|);
  }

  lemma {:induction false} FreeUpToBound(t: Fat, n: nat)
    requires 2 <= n <= |t|
    ensures FreeUpTo(t, n) <= n - 2
    ensures FreeUpTo(t, n) > 0 <==> exists c :: 2 <= c < n && t[c] == 0
  {
    if n > 2 {
      FreeUpToBound(t, n - 1);
    }
  }

  /** Where c comes in create_chain's circular scan that starts after hint. */
  function ScanRank(n: nat, hint: nat, c: int): int {
    if c > hint then c - hint - 1 else c - hint - 1 + (n - 2)
  }

  /** Every cluster before c in the scan order is allocated. */
  ghost predicate AllUsedBefore(t: Fat, hint: nat, c: int) {
    forall k | InRange(t, k) && ScanRank(|t|, hint, k) < ScanRank(|t|, hint, c) :: t[k] > 1
  }

  /** r is what the scan answers: the first free cluster, 0 if all are in use, 1 if it meets an entry 1 first. */
  ghost predicate ScanAnswer(t: Fat, hint: nat, r: nat) {
    || (InRange(t, r) && t[r] == 0 && AllUsedBefore(t, hint, r))
    || (r == 0 && forall k | InRange(t, k) :: t[k] > 1)
    || (r == 1 && exists k :: InRange(t, k) && t[k] == 1 && AllUsedBefore(t, hint, k))
  }

  lemma ScanRange(t: Fat, hint: nat, r: nat)
    requires ScanAnswer(t, hint, r)
    ensures r >= 2 ==> InRange(t, r) && t[r] == 0
  {
  }

  /** On a table without the invalid entry 1, the scan fails exactly when nothing is free. */
  lemma ScanComplete(t: Fat, hint: nat, r: nat)
    requires |t| >= 3 && ScanAnswer(t, hint, r)
    requires forall k | InRange(t, k) :: t[k] != 1
    ensures r == 0 <==> FreeCount(t) == 0
    ensures r != 0 ==> InRange(t, r) && t[r] == 0
  {
    FreeUpToBound(t, |t|);
  }

  /** remove_chain's effect on an arbitrary table: the entries it clears and whether it succeeds. */
  ghost function RemoveWalk(t: Fat, c: nat): (r: (Fat, bool))
    ensures |r.0| == |t|
    decreases |t| - FreeCount(t)
  {
    if !InRange(t, c) || t[c] == 0 then (t, true)
    else if t[c] == 1 then (t, false)
    else
      FreeCountUpdate(t, c, 0);
      FreeUpToBound(t[c := 0], |t|);
      RemoveWalk(t[c := 0], t[c])
  }

  /** t with every cluster of ch free. */
  ghost function Cleared(t: Fat, ch: seq<nat>): (u: Fat)
    ensures |u| == |t|
    ensures forall c | 0 <= c < |t| :: u[c] == if c in ch then 0 else t[c]
  {
    seq(|t|, c requires 0 <= c < |t| => if c in ch then 0 else t[c])
  }

  /** On the head of a chain, remove_chain frees exactly that chain. */
  lemma {:induction false} RemoveFreesChain(t: Fat, ch: seq<nat>)
    requires WellFormed(t) && IsChain(t, ch) && IsHead(t, ch[0])
    ensures RemoveWalk(t, ch[0]) == (Cleared(t, ch), true)
    ensures WellFormed(Cleared(t, ch))
    decreases |ch|
  {
    hide IsChain, WellFormed, Cleared, FreeCount;
    NonEmpty(t, ch);
    var h := ch[0];
    var u := t[h := 0];
    ChainStep(t, ch, 0);
    FreeHead(t, h);
    FreeHeadChain(t, h, ch);
    if |ch| == 1 {
      assert Cleared(t, ch) == u;
      assert RemoveWalk(u, t[h]) == (u, true);
    } else {
      RemoveFreesChain(u, ch[1..]);
      assert Cleared(u, ch[1..]) == Cleared(t, ch);
    }
  }

  /** A chain that starts outside ch survives the removal of ch. */
  lemma {:induction false} RemoveKeepsOthers(t: Fat, ch: seq<nat>, o: seq<nat>)
    requires IsChain(t, ch) && IsChain(t, o) && IsHead(t, ch[0]) && NoSharedSuccessor(t) && o[0] !in ch
    ensures IsChain(Cleared(t, ch), o)
  {
    var k := 0;
    while k < |o|
      invariant 0 <= k <= |o|
      invariant forall i | 0 <= i < k :: o[i] !in ch
    {
      if k > 0 && o[k] in ch {
        var j :| 0 <= j < |ch| && ch[j] == o[k];
        ChainStep(t, o, k - 1);
        if j > 0 { ChainStep(t, ch, j - 1); }
      }
      k := k + 1;
    }
  }
}
