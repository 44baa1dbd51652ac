// The finsh heap: a first-fit allocator with splitting and coalescing over two
// address-sorted intrusive lists, and its collector (finsh/finsh_heap.c).
module FinshHeap {
  import opened Words

  const HEADER: int := 8
  const NULL: int := -1

  // ----- How blocks lie in the heap -----

  /** The address after block b. */
  ghost function End(len: seq<int>, b: int): int
    requires 0 <= b < |len|
  {
    b + HEADER + len[b]
  }

  /** A block's header and payload lie in the heap, aligned. */
  ghost predicate Sized(len: seq<int>, b: int) {
    0 <= b < |len| && b % 4 == 0 && len[b] >= 0 && len[b] % 4 == 0 && End(len, b) <= |len|
  }

  /** After block b comes another block, or the end of the heap if b is free. */
  ghost predicate Linked(all: set<int>, free: set<int>, len: seq<int>, b: int) {
    0 <= b < |len| && (End(len, b) in all || (b in free && End(len, b) == |len|))
  }

  ghost predicate Below(len: seq<int>, a: int, b: int) {
    0 <= a < |len| && End(len, a) <= b
  }

  /** The blocks, of which some are free, fill the heap one after the other, and the highest one is free. */
  ghost predicate Laid(all: set<int>, free: set<int>, len: seq<int>) {
    && free <= all && 0 in all
    && (forall b | b in all :: Sized(len, b))
    && (forall b | b in all :: Linked(all, free, len, b))
    && (forall a, b | a in all && b in all && a < b :: Below(len, a, b))
  }

  /** No free block comes right after b. */
  ghost predicate Alone(free: set<int>, len: seq<int>, b: int) {
    0 <= b < |len| && End(len, b) !in free
  }

  /** No two free blocks touch. */
  ghost predicate Coalesced(free: set<int>, len: seq<int>) {
    forall b | b in free :: Alone(free, len, b)
  }

  /** Cutting size bytes off the front of free block b. */
  lemma Carve(all: set<int>, free: set<int>, len: seq<int>, b: int, size: int)
    requires Laid(all, free, len) && Coalesced(free, len) && b in free
    requires 0 <= size && size % 4 == 0 && Sized(len, b) && size + HEADER <= len[b]
    ensures var n := b + HEADER + size;
            && 0 <= n < |len| && n !in all
            && Laid(all + {n}, free - {b} + {n}, len[n := len[b] - HEADER - size][b := size])
            && Coalesced(free - {b} + {n}, len[n := len[b] - HEADER - size][b := size])
  {
    hide Linked, Alone, Below;
    var n := b + HEADER + size;
    var e := len[n := len[b] - HEADER - size][b := size];
    if n in all { BelowIs(len, b, n); }
    forall c | c in all + {n} ensures Sized(e, c) {}
    forall c | c in all + {n} ensures Linked(all + {n}, free - {b} + {n}, e, c) {
      LinkCarved(all, free, len, b, size, c);
    }
    forall c, d | c in all + {n} && d in all + {n} && c < d ensures Below(e, c, d) {
      BelowCarved(all, len, b, size, c, d);
    }
    forall c | c in free - {b} + {n} ensures Alone(free - {b} + {n}, e, c) {
      AloneCarved(all, free, len, b, size, c);
    }
  }

  lemma BelowIs(len: seq<int>, a: int, b: int)
    ensures Below(len, a, b) <==> 0 <= a < |len| && End(len, a) <= b
  {
  }

  lemma LinkCarved(all: set<int>, free: set<int>, len: seq<int>, b: int, size: int, c: int)
    requires free <= all && b in free && 0 <= size && Sized(len, b) && size + HEADER <= len[b]
    requires b + HEADER + size !in all && c in all + {b + HEADER + size}
    requires forall c | c in all :: Linked(all, free, len, c)
    ensures var n := b + HEADER + size;
            Linked(all + {n}, free - {b} + {n}, len[n := len[b] - HEADER - size][b := size], c)
  {
    assert Linked(all, free, len, b);
    if c in all { assert Linked(all, free, len, c); }
  }

  lemma BelowCarved(all: set<int>, len: seq<int>, b: int, size: int, c: int, d: int)
    requires b in all && 0 <= size && Sized(len, b) && (forall c | c in all :: Sized(len, c)) && size + HEADER <= len[b]
    requires forall a, b | a in all && b in all && a < b :: Below(len, a, b)
    requires var n := b + HEADER + size; n !in all && c in all + {n} && d in all + {n} && c < d
    ensures var n := b + HEADER + size; Below(len[n := len[b] - HEADER - size][b := size], c, d)
  {
    assert Sized(len, b);
    if c in all { assert Sized(len, c); }
    if c in all && d in all { assert Below(len, c, d); }
    if c < b && c in all { assert Below(len, c, b); }
    if b < d && d in all { assert Below(len, b, d); }
    if b < c && c in all { assert Below(len, b, c); }
  }

  lemma AloneCarved(all: set<int>, free: set<int>, len: seq<int>, b: int, size: int, c: int)
    requires free <= all && b in free && 0 <= size && Sized(len, b) && (forall c | c in all :: Sized(len, c))
             && size + HEADER <= len[b]
    requires forall a, b | a in all && b in all && a < b :: Below(len, a, b)
    requires Coalesced(free, len)
    requires var n := b + HEADER + size; n !in all && c in free - {b} + {n}
    ensures var n := b + HEADER + size; Alone(free - {b} + {n}, len[n := len[b] - HEADER - size][b := size], c)
  {
    assert Sized(len, b) && Alone(free, len, b);
    if c in free {
      assert Sized(len, c) && Alone(free, len, c);
      if c < b { assert Below(len, c, b); } else if b < c { assert Below(len, b, c); }
    }
  }

  /** A live block that becomes free. */
  lemma Freed(all: set<int>, free: set<int>, len: seq<int>, b: int)
    requires Laid(all, free, len) && b in all
    ensures Laid(all, free + {b}, len)
  {
    hide Sized, Below, Linked;
    forall c | c in all ensures Linked(all, free + {b}, len, c) {
      LinkMono(all, free, free + {b}, len, c);
    }
  }

  lemma LinkMono(all: set<int>, f: set<int>, g: set<int>, len: seq<int>, c: int)
    requires Linked(all, f, len, c) && f <= g
    ensures Linked(all, g, len, c)
  {
  }

  /** Two touching free blocks made one. */
  lemma Joined(all: set<int>, free: set<int>, len: seq<int>, a: int, n: int)
    requires Laid(all, free, len) && a in free && n in free && 0 <= a < |len| && 0 <= n < |len| && End(len, a) == n
    ensures Laid(all - {n}, free - {n}, len[a := len[a] + HEADER + len[n]])
  {
    hide Linked, Below;
    var e := len[a := len[a] + HEADER + len[n]];
    assert Sized(len, a) && Sized(len, n);
    forall c | c in all - {n} ensures Sized(e, c) { assert Sized(len, c); }
    forall c | c in all - {n} ensures Linked(all - {n}, free - {n}, e, c) {
      LinkJoined(all, free, len, a, n, c);
    }
    forall c, d | c in all - {n} && d in all - {n} && c < d ensures Below(e, c, d) {
      assert Sized(len, c) && Sized(len, d) && Below(len, c, d);
      if c == a {
        if d < n { BelowIs(len, a, d); } else { assert Below(len, n, d); }
        BelowIs(len, n, d);
      }
      BelowIs(len, c, d);
      BelowIs(e, c, d);
    }
  }

  lemma LinkJoined(all: set<int>, free: set<int>, len: seq<int>, a: int, n: int, c: int)
    requires free <= all && a in free && n in free && 0 <= a < |len| && 0 <= n < |len| && End(len, a) == n
    requires c in all - {n} && (forall b | b in all :: Sized(len, b)) && Linked(all, free, len, c)
             && Linked(all, free, len, n)
    requires forall a, b | a in all && b in all && a < b :: Below(len, a, b)
    ensures Linked(all - {n}, free - {n}, len[a := len[a] + HEADER + len[n]], c)
  {
    assert Sized(len, c) && Sized(len, n) && Sized(len, a);
    if c < a { assert Below(len, c, a); }
    if a < c { assert Below(len, a, c); }
  }

  lemma LaidFrame(all: set<int>, free: set<int>, a: seq<int>, b: seq<int>)
    requires Laid(all, free, a) && |a| == |b| && forall x | x in all && 0 <= x < |a| :: a[x] == b[x]
    ensures Laid(all, free, b)
  {
    hide Laid, Linked, Below;
    forall c | c in all ensures Sized(b, c) && Linked(all, free, b, c) {
      LaidAt(all, free, a, c);
      LinkSame(all, free, a, b, c);
    }
    forall c, d | c in all && d in all && c < d ensures Below(b, c, d) {
      LaidAt(all, free, a, c);
      LaidBelow(all, free, a, c, d);
      BelowIs(b, c, d);
    }
    LaidFrom(all, free, a, b);
  }

  lemma LinkSame(all: set<int>, free: set<int>, a: seq<int>, b: seq<int>, c: int)
    requires Laid(all, free, a) && |a| == |b| && c in all && 0 <= c < |a| && a[c] == b[c]
    ensures Linked(all, free, b, c)
  {
    hide Sized, Below;
    assert Linked(all, free, a, c);
  }

  lemma LaidFrom(all: set<int>, free: set<int>, a: seq<int>, len: seq<int>)
    requires Laid(all, free, a)
    requires (forall b | b in all :: Sized(len, b)) && (forall b | b in all :: Linked(all, free, len, b))
    requires forall a, b | a in all && b in all && a < b :: Below(len, a, b)
    ensures Laid(all, free, len)
  {
    hide Sized, Linked, Below;
  }

  /** x does not end at b. */
  ghost predicate Clear(len: seq<int>, x: int, b: int) {
    0 <= x < |len| && End(len, x) != b
  }

  /** The sizes after finsh_block_merge around b, with p before and n after it where they touch. */
  ghost function MergedSizes(len: seq<int>, p: int, b: int, n: int, before: bool, after: bool): seq<int>
    requires 0 <= b < |len| && (before ==> 0 <= p < |len|) && (after ==> 0 <= n < |len|)
  {
    if before && after then len[p := len[p] + len[b] + len[n] + 2 * HEADER]
    else if before then len[p := len[p] + len[b] + HEADER]
    else if after then len[b := len[b] + len[n] + HEADER]
    else len
  }

  ghost function Swallowed(b: int, n: int, before: bool, after: bool): set<int> {
    (if before then {b} else {}) + (if after then {n} else {})
  }

  /** b was just freed among blocks that were coalesced; p and n are its neighbours in the free list. */
  ghost predicate Mergeable(all: set<int>, free: set<int>, len: seq<int>, p: int, b: int, n: int, before: bool,
                            after: bool) {
    && Laid(all, free, len) && b in free && Sized(len, b)
    && Coalesced(free - {b}, len)
    && (before ==> p in free && Sized(len, p) && End(len, p) == b)
    && (!before ==> forall x | x in free :: Clear(len, x, b))
    && (after ==> n in free && Sized(len, n) && End(len, b) == n)
    && (!after ==> Alone(free, len, b))
  }

  lemma MergedLaid(all: set<int>, free: set<int>, len: seq<int>, p: int, b: int, n: int, before: bool, after: bool)
    requires Mergeable(all, free, len, p, b, n, before, after)
    ensures var gone := Swallowed(b, n, before, after);
            Laid(all - gone, free - gone, MergedSizes(len, p, b, n, before, after))
  {
    hide Linked, Below, Alone, Coalesced, Laid;
    var gone := Swallowed(b, n, before, after);
    var len1, all1, free1 := len, all, free;
    if after {
      Joined(all, free, len, b, n);
      len1, all1, free1 := len[b := len[b] + HEADER + len[n]], all - {n}, free - {n};
    }
    if before {
      assert End(len1, p) == b;
      Joined(all1, free1, len1, p, b);
      var len2 := len1[p := len1[p] + HEADER + len1[b]];
      LaidFrame(all1 - {b}, free1 - {b}, len2, MergedSizes(len, p, b, n, before, after));
      all1, free1 := all1 - {b}, free1 - {b};
    }
    assert all1 == all - gone && free1 == free - gone;
  }

  lemma MergedCoalesced(all: set<int>, free: set<int>, len: seq<int>, p: int, b: int, n: int, before: bool, after: bool)
    requires Mergeable(all, free, len, p, b, n, before, after)
    ensures var gone := Swallowed(b, n, before, after);
            Coalesced(free - gone, MergedSizes(len, p, b, n, before, after))
  {
    hide Linked, Below, Laid;
    var gone := Swallowed(b, n, before, after);
    var e := MergedSizes(len, p, b, n, before, after);
    forall x | x in free - gone ensures Alone(free - gone, e, x) {
      var q := if before then p else b;
      if x == q {
        if after { assert Alone(free - {b}, len, n); }
      } else {
        assert Alone(free - {b}, len, x);
        if !before { assert Clear(len, x, b); }
      }
    }
  }

  lemma EmptyOrNot(s: set<int>)
    ensures s == {} || exists x :: x in s
  {
    if !exists x :: x in s { assert s == {}; }
  }

  lemma MaxOf(s: set<int>) returns (m: int)
    requires s != {}
    ensures m in s && forall x | x in s :: x <= m
    decreases |s|
  {
    EmptyOrNot(s);
    var x :| x in s;
    m := x;
    var rest := s - {x};
    if rest != {} {
      var y := MaxOf(rest);
      if x < y { m := y; }
    }
    forall z | z in s ensures z <= m {
      assert z == x || z in rest;
    }
  }

  /** The highest block is free: it is above every live block. */
  lemma TopIsFree(all: set<int>, free: set<int>, len: seq<int>) returns (top: int)
    requires Laid(all, free, len)
    ensures top in free && Sized(len, top) && End(len, top) == |len| && forall b | b in all :: b <= top
  {
    hide Below;
    top := MaxOf(all);
    assert Sized(len, top) && Linked(all, free, len, top);
  }

  /** Every byte of the heap belongs to exactly one block. */
  lemma Covered(all: set<int>, free: set<int>, len: seq<int>, x: int) returns (b: int)
    requires Laid(all, free, len) && 0 <= x < |len|
    ensures b in all && Sized(len, b) && b <= x < End(len, b)
    ensures forall c | c in all && Sized(len, c) && c <= x < End(len, c) :: c == b
  {
    var below := set c | c in all && c <= x;
    assert 0 in below;
    b := MaxOf(below);
    assert Sized(len, b) && Linked(all, free, len, b);
    assert End(len, b) !in below;
    forall c | c in all && Sized(len, c) && c <= x < End(len, c) ensures c == b {
      assert c in below && (c < b ==> Below(len, c, b));
    }
  }

  // ----- Intrusive lists -----

  ghost predicate Sorted(s: seq<int>) {
    forall i, j | 0 <= i < j < |s| :: s[i] < s[j]
  }

  ghost function First(s: seq<int>): int {
    if s == [] then NULL else s[0]
  }

  /** The link after element i of list s. */
  ghost function After(s: seq<int>, i: int): int
    requires 0 <= i < |s|
  {
    if i + 1 < |s| then s[i + 1] else NULL
  }

  /** Following next from head visits the addresses s, in rising order. */
  ghost predicate IsList(next: seq<int>, head: int, s: seq<int>) {
    && head == First(s) && Sorted(s)
    && (forall i | 0 <= i < |s| :: 0 <= s[i] < |next|)
    && forall i | 0 <= i < |s| :: Link(next, s, i)
  }

  /** Element i of s is linked to the one after it. */
  ghost predicate Link(next: seq<int>, s: seq<int>, i: int)
  {
    0 <= i < |s| && 0 <= s[i] < |next| && next[s[i]] == After(s, i)
  }

  ghost function Elems(s: seq<int>): set<int> {
    set x | x in s
  }

  lemma ListFrame(a: seq<int>, b: seq<int>, head: int, s: seq<int>)
    requires IsList(a, head, s) && |a| == |b| && forall x | x in s && 0 <= x < |a| :: a[x] == b[x]
    ensures IsList(b, head, s)
  {
    forall i | 0 <= i < |s| ensures Link(b, s, i) { assert Link(a, s, i); }
  }

  /** s with x put in at place k. */
  ghost function Inserted(s: seq<int>, k: int, x: int): seq<int>
    requires 0 <= k <= |s|
  {
    s[..k] + [x] + s[k..]
  }

  ghost function Dropped(s: seq<int>, k: int): seq<int>
    requires 0 <= k < |s|
  {
    s[..k] + s[k + 1..]
  }

  lemma ElemsInserted(s: seq<int>, k: int, x: int)
    requires 0 <= k <= |s|
    ensures Elems(Inserted(s, k, x)) == Elems(s) + {x}
  {
    assert s == s[..k] + s[k..];
  }

  lemma ElemsDropped(s: seq<int>, k: int)
    requires 0 <= k < |s| && Sorted(s)
    ensures Elems(Dropped(s, k)) == Elems(s) - {s[k]}
  {
    assert s == s[..k] + [s[k]] + s[k + 1..];
  }

  /** The place of x in a sorted list it is not in. */
  ghost predicate PlaceOf(s: seq<int>, k: int, x: int) {
    0 <= k <= |s| && (k > 0 ==> s[k - 1] < x) && (k < |s| ==> x < s[k])
  }

  lemma InsertedSorted(s: seq<int>, k: int, x: int)
    requires Sorted(s) && PlaceOf(s, k, x)
    ensures Sorted(Inserted(s, k, x))
  {
  }

  /** The links after finsh_block_insert has put x in at place k. */
  ghost function LinksInserted(next: seq<int>, s: seq<int>, k: int, x: int): seq<int>
    requires PlaceOf(s, k, x) && 0 <= x < |next| && forall i | 0 <= i < |s| :: 0 <= s[i] < |next|
  {
    var a := if k < |s| then next[x := s[k]] else next;
    if k > 0 then a[s[k - 1] := x] else a
  }

  /**
   * Inserting keeps a list a list exactly when some element comes after the new one or the new one's
   * own link was clear: a stale link is never cleared.
   */
  lemma InsertIsList(next: seq<int>, head: int, s: seq<int>, k: int, x: int)
    requires IsList(next, head, s) && x !in s && PlaceOf(s, k, x) && 0 <= x < |next|
    ensures IsList(LinksInserted(next, s, k, x), if k == 0 then x else head, Inserted(s, k, x))
            <==> (k < |s| || next[x] == NULL)
  {
    InsertedSorted(s, k, x);
    var b, t := LinksInserted(next, s, k, x), Inserted(s, k, x);
    InsertedLinks(next, head, s, k, x);
    assert t[k] == x && After(t, k) == if k < |s| then s[k] else NULL;
    assert IsList(b, if k == 0 then x else head, t) ==> Link(b, t, k);
    if k < |s| || next[x] == NULL {
      forall i | 0 <= i < |t| ensures Link(b, t, i) {}
    }
  }

  lemma InsertedLinks(next: seq<int>, head: int, s: seq<int>, k: int, x: int)
    requires IsList(next, head, s) && x !in s && PlaceOf(s, k, x) && 0 <= x < |next|
    ensures var b, t := LinksInserted(next, s, k, x), Inserted(s, k, x);
            && |b| == |next| && |t| == |s| + 1
            && b[x] == (if k < |s| then s[k] else next[x])
            && forall i | 0 <= i < |t| && i != k :: Link(b, t, i)
  {
    var b, t := LinksInserted(next, s, k, x), Inserted(s, k, x);
    forall i | 0 <= i < |t| && i != k ensures Link(b, t, i) {
      var j := if i < k then i else i - 1;
      assert t[i] == s[j] && Link(next, s, j);
    }
  }

  /** The links after element k has been taken out; the first element's own link is cleared, another's is not. */
  ghost function LinksDropped(next: seq<int>, s: seq<int>, k: int): seq<int>
    requires 0 <= k < |s| && forall i | 0 <= i < |s| :: 0 <= s[i] < |next|
  {
    if k == 0 then next[s[0] := NULL] else next[s[k - 1] := next[s[k]]]
  }

  lemma DropIsList(next: seq<int>, head: int, s: seq<int>, k: int)
    requires IsList(next, head, s) && 0 <= k < |s|
    ensures IsList(LinksDropped(next, s, k), First(Dropped(s, k)), Dropped(s, k))
  {
    var b, t := LinksDropped(next, s, k), Dropped(s, k);
    DroppedSorted(s, k);
    forall i | 0 <= i < |t| ensures Link(b, t, i) {
      DroppedLink(next, head, s, k, i);
    }
  }

  lemma DroppedSorted(s: seq<int>, k: int)
    requires Sorted(s) && 0 <= k < |s|
    ensures Sorted(Dropped(s, k))
  {
    var t := Dropped(s, k);
    forall i, j | 0 <= i < j < |t| ensures t[i] < t[j] {
      assert s[if i < k then i else i + 1] < s[if j < k then j else j + 1];
    }
  }

  lemma DroppedLink(next: seq<int>, head: int, s: seq<int>, k: int, i: int)
    requires IsList(next, head, s) && 0 <= k < |s| && 0 <= i < |s| - 1
    ensures var b, t := LinksDropped(next, s, k), Dropped(s, k);
            |t| == |s| - 1 && Link(b, t, i)
  {
    var j := if i < k then i else i + 1;
    var t := Dropped(s, k);
    assert t[i] == s[j] && Link(next, s, j) && Link(next, s, k);
    if k == 0 {
      assert s[0] < s[j];
    } else if i != k - 1 {
      assert s[j] != s[k - 1];
    }
  }

  /** The two lists and the blocks they hold. */
  ghost predicate Shape(next: seq<int>, len: seq<int>, freeList: int, allocateList: int, free: seq<int>,
                        live: seq<int>) {
    && |next| == |len|
    && IsList(next, freeList, free) && IsList(next, allocateList, live)
    && Elems(free) !! Elems(live)
    && Laid(Elems(free) + Elems(live), Elems(free), len)
    && Coalesced(Elems(free), len)
  }

  /** With nothing allocated the heap is one free block. */
  lemma EmptyIsOneBlock(next: seq<int>, len: seq<int>, freeList: int, allocateList: int, free: seq<int>)
    requires Shape(next, len, freeList, allocateList, free, [])
    ensures |len| >= 8 && free == [0] && len[0] == |len| - 8
  {
    hide Linked, Alone, Sized, Below, Link;
    var all := Elems(free) + Elems([]);
    assert all == Elems(free);
    ListFacts(next, freeList, free);
    FirstReachesEnd(all, len);
    forall i | 0 <= i < |free| ensures free[i] == 0 {
      InElems(free);
      NothingAfter(all, len, free[i]);
    }
    InElems(free);
    FirstTwoDiffer(free);
  }

  lemma FirstTwoDiffer(s: seq<int>)
    requires forall i, j | 0 <= i < j < |s| :: s[i] < s[j]
    ensures |s| > 1 ==> s[0] != s[1]
  {
  }

  lemma FirstReachesEnd(all: set<int>, len: seq<int>)
    requires Laid(all, all, len) && Coalesced(all, len)
    ensures 0 in all && 8 <= |len| && len[0] == |len| - 8
  {
    assert Sized(len, 0) && Alone(all, len, 0) && Linked(all, all, len, 0);
  }

  lemma NothingAfter(all: set<int>, len: seq<int>, b: int)
    requires Laid(all, all, len) && b in all && 8 <= |len| && len[0] == |len| - 8
    ensures b == 0
  {
    hide Sized;
    FirstBelow(all, len, b);
    LastBlock(len, b);
  }

  lemma FirstBelow(all: set<int>, len: seq<int>, b: int)
    requires Laid(all, all, len) && b in all && |len| > 0
    ensures Sized(len, b) && b >= 0 && (b > 0 ==> 8 + len[0] <= b)
  {
    assert Sized(len, b);
    if b > 0 {
      assert Below(len, 0, b);
    }
  }

  lemma LastBlock(len: seq<int>, b: int)
    requires Sized(len, b)
    ensures b + 8 <= |len|
  {
  }

  // ----- finsh_block_merge on the list and the sizes -----

  ghost function MergedList(s: seq<int>, j: int, before: bool, after: bool): seq<int>
    requires 0 <= j < |s| && (before ==> j > 0) && (after ==> j + 1 < |s|)
  {
    var s1 := if after then Dropped(s, j + 1) else s;
    if before then Dropped(s1, j) else s1
  }

  ghost function MergedLens(len: seq<int>, s: seq<int>, j: int, before: bool, after: bool): seq<int>
    requires 0 <= j < |s| && (before ==> j > 0) && (after ==> j + 1 < |s|)
             && forall i | 0 <= i < |s| :: 0 <= s[i] < |len|
  {
    MergedSizes(len, if j > 0 then s[j - 1] else NULL, s[j], if j + 1 < |s| then s[j + 1] else NULL, before, after)
  }

  ghost function MergedLinks(next: seq<int>, s: seq<int>, j: int, before: bool, after: bool): seq<int>
    requires 0 <= j < |s| && (before ==> j > 0) && (after ==> j + 1 < |s|)
             && forall i | 0 <= i < |s| :: 0 <= s[i] < |next|
  {
    if before && after then next[s[j - 1] := next[s[j + 1]]]
    else if before then next[s[j - 1] := next[s[j]]]
    else if after then next[s[j] := next[s[j + 1]]]
    else next
  }

  lemma MergedIsList(next: seq<int>, head: int, s: seq<int>, j: int, before: bool, after: bool)
    requires IsList(next, head, s) && 0 <= j < |s| && (before ==> j > 0) && (after ==> j + 1 < |s|)
    ensures IsList(MergedLinks(next, s, j, before, after), head, MergedList(s, j, before, after))
  {
    hide Link, Sorted;
    var s1, n1 := s, next;
    if after {
      DropIsList(next, head, s, j + 1);
      s1, n1 := Dropped(s, j + 1), LinksDropped(next, s, j + 1);
      DroppedFront(s, j + 1);
    }
    if before {
      DropIsList(n1, head, s1, j);
      DroppedFront(s1, j);
      var s2, n2 := Dropped(s1, j), LinksDropped(n1, s1, j);
      NotInDropped(s1, j);
      ListFrame(n2, MergedLinks(next, s, j, before, after), head, s2);
    }
  }

  lemma DroppedFront(s: seq<int>, k: int)
    requires 0 < k < |s|
    ensures First(Dropped(s, k)) == First(s) && |Dropped(s, k)| == |s| - 1
    ensures forall i | 0 <= i < k :: Dropped(s, k)[i] == s[i]
  {
  }

  lemma NotInDropped(s: seq<int>, k: int)
    requires 0 <= k < |s| && Sorted(s)
    ensures s[k] !in Dropped(s, k)
  {
  }

  lemma MergedElems(s: seq<int>, j: int, before: bool, after: bool)
    requires Sorted(s) && 0 <= j < |s| && (before ==> j > 0) && (after ==> j + 1 < |s|)
    ensures Elems(MergedList(s, j, before, after)) ==
            Elems(s) - Swallowed(s[j], if j + 1 < |s| then s[j + 1] else NULL, before, after)
  {
    hide Sorted, Elems;
    var s1 := s;
    if after {
      ElemsDropped(s, j + 1);
      DroppedSorted(s, j + 1);
      s1 := Dropped(s, j + 1);
      DroppedFront(s, j + 1);
    }
    if before { ElemsDropped(s1, j); }
  }

  /** Only list neighbours can touch. */
  lemma MergeableHere(all: set<int>, s: seq<int>, len: seq<int>, j: int, before: bool, after: bool)
    requires Laid(all, Elems(s), len) && Sorted(s) && 0 <= j < |s| && Coalesced(Elems(s) - {s[j]}, len)
    requires forall i | 0 <= i < |s| :: Sized(len, s[i])
    requires before <==> j > 0 && End(len, s[j - 1]) == s[j]
    requires after <==> j + 1 < |s| && End(len, s[j]) == s[j + 1]
    ensures Mergeable(all, Elems(s), len, if j > 0 then s[j - 1] else NULL, s[j],
                      if j + 1 < |s| then s[j + 1] else NULL, before, after)
  {
    hide Linked;
    assert s[j] in Elems(s);
    if !before {
      forall x | x in Elems(s) ensures Clear(len, x, s[j]) {
        var i :| 0 <= i < |s| && s[i] == x;
        assert Sized(len, s[i]);
        if i < j - 1 { assert Below(len, s[i], s[j - 1]); }
      }
    }
    assert Sized(len, s[j]);
    if j + 1 < |s| { assert s[j + 1] in Elems(s) && Below(len, s[j], s[j + 1]); }
    if End(len, s[j]) in Elems(s) {
      var i :| 0 <= i < |s| && s[i] == End(len, s[j]);
      assert i == j + 1;
    }
  }

  lemma MergedShape(next: seq<int>, len: seq<int>, freeList: int, allocateList: int, s: seq<int>, live: seq<int>,
                    j: int, before: bool, after: bool)
    requires |next| == |len| && IsList(next, freeList, s) && IsList(next, allocateList, live) && Elems(s) !! Elems(live)
    requires Laid(Elems(s) + Elems(live), Elems(s), len) && 0 <= j < |s| && Coalesced(Elems(s) - {s[j]}, len)
    requires forall i | 0 <= i < |s| :: Sized(len, s[i])
    requires before <==> j > 0 && End(len, s[j - 1]) == s[j]
    requires after <==> j + 1 < |s| && End(len, s[j]) == s[j + 1]
    ensures Shape(MergedLinks(next, s, j, before, after), MergedLens(len, s, j, before, after),
                  freeList, allocateList, MergedList(s, j, before, after), live)
    ensures forall x | x in live && 0 <= x < |len| :: MergedLens(len, s, j, before, after)[x] == len[x]
  {
    hide Laid, Coalesced, Mergeable, Link, Sorted, MergedList, Elems, Swallowed;
    var all := Elems(s) + Elems(live);
    var p, n := if j > 0 then s[j - 1] else NULL, if j + 1 < |s| then s[j + 1] else NULL;
    MergedIsList(next, freeList, s, j, before, after);
    MergedElems(s, j, before, after);
    MergeableHere(all, s, len, j, before, after);
    MergedLaid(all, Elems(s), len, p, s[j], n, before, after);
    MergedCoalesced(all, Elems(s), len, p, s[j], n, before, after);
    InElems(s);
    InElems(live);
    SwallowedIn(s, j, before, after);
    var gone := Swallowed(s[j], n, before, after);
    assert all - gone == (Elems(s) - gone) + Elems(live);
    ListFrame(next, MergedLinks(next, s, j, before, after), allocateList, live);
  }

  lemma InElems(s: seq<int>)
    ensures forall x :: x in s <==> x in Elems(s)
    ensures forall i | 0 <= i < |s| :: s[i] in Elems(s)
  {
  }

  lemma SwallowedIn(s: seq<int>, j: int, before: bool, after: bool)
    requires 0 <= j < |s| && (after ==> j + 1 < |s|)
    ensures Swallowed(s[j], if j + 1 < |s| then s[j + 1] else NULL, before, after) <= Elems(s)
  {
  }

  /** One free block that fills the heap. */
  lemma InitialShape(next: seq<int>, len: seq<int>)
    requires |next| == |len| >= HEADER && |len| % 4 == 0 && next[0] == NULL && len[0] == |len| - HEADER
    ensures Shape(next, len, 0, NULL, [0], [])
  {
    assert Elems([0]) == {0} && Elems([]) == {};
    assert Sized(len, 0) && Linked({0}, {0}, len, 0) && Alone({0}, len, 0);
    assert Elems([0]) + Elems([]) == {0};
  }

  /** A session variable: whether it has a type, and its value as a pointer. */
  datatype Variable = Variable(typed: bool, ptr: int)

  ghost predicate IsTarget(data: int, vars: seq<Variable>) {
    exists i | 0 <= i < |vars| :: vars[i].typed && vars[i].ptr == data
  }

  /** The blocks of s whose payload some typed variable points to. */
  ghost function Referenced(s: seq<int>, vars: seq<Variable>): seq<int> {
    if s == [] then [] else
    var r := Referenced(s[..|s| - 1], vars);
    if IsTarget(s[|s| - 1] + HEADER, vars) then r + [s[|s| - 1]] else r
  }

  lemma ReferencedNone(s: seq<int>, vars: seq<Variable>)
    ensures Referenced(s[..0], vars) == []
  {
  }

  lemma ReferencedMore(s: seq<int>, c: int, vars: seq<Variable>)
    requires 0 <= c < |s|
    ensures Referenced(s[..c + 1], vars) ==
            if IsTarget(s[c] + HEADER, vars) then Referenced(s[..c], vars) + [s[c]] else Referenced(s[..c], vars)
  {
    assert s[..c + 1][..c] == s[..c];
  }

  /** The collector keeps exactly the blocks pointed to. */
  lemma {:induction false} ReferencedExactly(s: seq<int>, vars: seq<Variable>, b: int)
    ensures b in Referenced(s, vars) <==> b in s && IsTarget(b + HEADER, vars)
  {
    hide IsTarget;
    if s != [] {
      ReferencedExactly(s[..|s| - 1], vars, b);
      assert s == s[..|s| - 1] + [s[|s| - 1]];
    }
  }

  lemma DroppedIs(s: seq<int>, k: int)
    requires 0 <= k < |s|
    ensures Dropped(s, k)[..k] == s[..k] && Dropped(s, k)[k..] == s[k + 1..]
    ensures |Dropped(s, k)| == |s| - 1 && (k < |s| - 1 ==> Dropped(s, k)[k] == s[k + 1])
  {
  }

  /** HEAP_ALIGN_SIZE */
  function Rounded(size: nat): nat {
    (size + 3) / 4 * 4
  }

  /** Requests near the top of the 32-bit range wrap around in the size arithmetic. */
  const MAX_REQUEST: nat := 0xFFFF_FFF0

  lemma RoundedIs(size: nat)
    ensures size <= Rounded(size) < size + 4 && Rounded(size) % 4 == 0
  {
  }

  /** The lists and sizes of a heap at some moment. */
  datatype Layout = Layout(next: seq<int>, len: seq<int>, freeList: int, allocateList: int, free: seq<int>,
                           live: seq<int>)

  /** Layout b is a well-formed heap that holds the blocks of a that typed variables point to, and nothing else. */
  ghost predicate Collected(a: Layout, b: Layout, vars: seq<Variable>) {
    && Shape(b.next, b.len, b.freeList, b.allocateList, b.free, b.live)
    && b.live == Referenced(a.live, vars) && |b.len| == |a.len|
    && forall x | x in b.live && 0 <= x < |b.len| :: b.len[x] == a.len[x]
  }

  lemma CollectedIs(a: Layout, b: Layout, vars: seq<Variable>)
    requires Shape(b.next, b.len, b.freeList, b.allocateList, b.free, b.live)
    requires b.live == Referenced(a.live, vars) && |b.len| == |a.len|
    requires forall x | x in b.live && 0 <= x < |b.len| :: b.len[x] == a.len[x]
    ensures Collected(a, b, vars)
  {
  }

  lemma KeptLive(a: Layout, b: Layout, collected: bool, vars: seq<Variable>)
    requires if collected then Collected(a, b, vars) else a == b
    ensures b.live == a.live || b.live == Referenced(a.live, vars)
    ensures |b.len| == |a.len| && forall x | x in b.live && 0 <= x < |b.len| :: b.len[x] == a.len[x]
  {
    hide Shape, Referenced;
  }

  /** A search for need bytes that passed over the first k free blocks has seen every one below the k-th. */
  lemma Searched(l: Layout, k: int, need: int)
    requires 0 <= k <= |l.free|
    requires forall i | 0 <= i < k :: 0 <= l.free[i] < |l.len| && l.len[l.free[i]] < need
    requires forall i, j | 0 <= i < j < |l.free| :: l.free[i] < l.free[j]
    ensures forall b | b in l.free && 0 <= b < |l.len| && (k < |l.free| ==> b < l.free[k]) :: l.len[b] < need
  {
  }

  /** Blocks a and b do not share a byte, headers included. */
  ghost predicate Disjoint(len: seq<int>, a: int, b: int) {
    0 <= a < |len| && 0 <= b < |len| && (End(len, a) <= b || End(len, b) <= a)
  }

  /** A request for n bytes has been served at ptr, beside the live blocks kept. */
  ghost predicate Served(kept: seq<int>, live: seq<int>, len: seq<int>, bytesBefore: seq<byte>, bytes: seq<byte>,
                         ptr: int, n: nat) {
    var b := ptr - HEADER;
    && Elems(live) == Elems(kept) + {b} && b !in kept
    && ptr % 4 == 0 && 0 <= b < |len| && len[b] == n && ptr + n <= |bytes| == |bytesBefore|
    && (forall i | 0 <= i < |bytes| :: bytes[i] == if ptr <= i < ptr + n then 0 else bytesBefore[i])
    && (forall x | x in live && x != b :: x in kept && Disjoint(len, x, b))
  }

  lemma ServedBlock(next: seq<int>, len: seq<int>, freeList: int, allocateList: int, free: seq<int>, live: seq<int>,
                    kept: seq<int>, b: int, n: nat)
    requires Shape(next, len, freeList, allocateList, free, live) && Elems(live) == Elems(kept) + {b}
    requires 0 <= b < |len| && len[b] == n
    ensures HEADER == 8 && NULL == -1 && (b + HEADER) % 4 == 0 && 0 <= b && b + HEADER + n <= |len|
    ensures forall x | x in live && x != b :: x in kept && Disjoint(len, x, b)
  {
    hide Linked, Coalesced, Alone, Link, Sorted, Elems;
    InElems(live);
    InElems(kept);
    var all := Elems(free) + Elems(live);
    LaidAt(all, Elems(free), len, b);
    forall x | x in live && x != b ensures x in kept && Disjoint(len, x, b) {
      LaidAt(all, Elems(free), len, x);
      if x < b { LaidBelow(all, Elems(free), len, x, b); } else { LaidBelow(all, Elems(free), len, b, x); }
    }
  }

  lemma ServedIs(liveBefore: seq<int>, kept: seq<int>, live: seq<int>, len: seq<int>, bytesBefore: seq<byte>,
                 bytes: seq<byte>, ptr: int, n: nat, vars: seq<Variable>)
    requires kept == liveBefore || kept == Referenced(liveBefore, vars)
    requires Elems(live) == Elems(kept) + {ptr - HEADER} && ptr - HEADER !in kept
    requires ptr % 4 == 0 && 0 <= ptr - HEADER < |len| && len[ptr - HEADER] == n && ptr + n <= |bytes| == |bytesBefore|
    requires forall i | 0 <= i < |bytes| :: bytes[i] == if ptr <= i < ptr + n then 0 else bytesBefore[i]
    requires forall x | x in live && x != ptr - HEADER :: x in kept && Disjoint(len, x, ptr - HEADER)
    ensures Served(kept, live, len, bytesBefore, bytes, ptr, n)
    ensures forall x | x in live && x != ptr - HEADER :: x in liveBefore
  {
    hide Elems, Disjoint, Referenced;
    forall x | x in live && x != ptr - HEADER ensures x in liveBefore {
      ReferencedExactly(liveBefore, vars, x);
    }
  }

  class Heap {
    const len: array<int>
    const next: array<int>
    const bytes: array<byte>
    var freeList: int
    var allocateList: int
    ghost var free: seq<int>
    ghost var live: seq<int>

    ghost predicate Valid()
      reads this, len, next
    {
      && len != next
      && bytes.Length == len.Length
      && Shape(next[..], len[..], freeList, allocateList, free, live)
    }

    ghost function Now(): Layout
      reads this, len, next
    {
      Layout(next[..], len[..], freeList, allocateList, free, live)
    }

    /** finsh_heap_init, for a heap of max bytes */
    constructor (max: nat)
      requires max >= HEADER && max % 4 == 0
      ensures Valid() && free == [0] && live == [] && len.Length == max && len[0] == max - HEADER
      ensures fresh(len) && fresh(next) && fresh(bytes)
    {
      hide Shape;
      len := new int[max](_ => 0);
      next := new int[max](_ => 0);
      bytes := new byte[max](_ => 0);
      freeList := 0;
      allocateList := NULL;
      free := [0];
      live := [];
      new;
      len[0] := max - HEADER;
      next[0] := NULL;
      InitialShape(next[..], len[..]);
    }

    /** finsh_block_insert, on either list */
    method Insert(list: int, header: int, ghost s: seq<int>) returns (head: int, ghost k: int)
      requires IsList(next[..], list, s) && header !in s && 0 <= header < next.Length
      modifies next
      ensures 0 <= k <= |s| && PlaceOf(s, k, header)
      ensures next[..] == LinksInserted(old(next[..]), s, k, header)
      ensures IsList(next[..], head, Inserted(s, k, header)) <==> (k < |s| || old(next[header]) == NULL)
    {
      hide Sorted, Inserted;
      k := 0;
      head := header;
      if list != NULL {
        var node := list;
        if node > header {
          next[header] := node;
        } else {
          head := list;
          k, node := FindPlace(list, header, s);
          assert Link(next[..], s, k - 1);
          if next[node] != NULL { next[header] := next[node]; }
          next[node] := header;
        }
      }
      assert PlaceOf(s, k, header);
      assert next[..] == LinksInserted(old(next[..]), s, k, header);
      InsertIsList(old(next[..]), list, s, k, header);
    }

    /** The last element below header. */
    method FindPlace(list: int, header: int, ghost s: seq<int>) returns (ghost k: int, node: int)
      requires IsList(next[..], list, s) && header !in s && s != [] && s[0] <= header
      ensures 1 <= k && PlaceOf(s, k, header) && node == s[k - 1] && 0 <= node < next.Length
    {
      hide Sorted;
      node := list;
      k := 1;
      while !(next[node] > header) && next[node] != NULL
        invariant 1 <= k <= |s| && node == s[k - 1] && s[k - 1] < header
        decreases |s| - k
      {
        assert Link(next[..], s, k - 1);
        node := next[node];
        k := k + 1;
      }
      assert Link(next[..], s, k - 1);
    }

    /** finsh_block_remove, on either list */
    method Remove(list: int, header: int, ghost s: seq<int>, ghost k: int) returns (head: int)
      requires IsList(next[..], list, s) && 0 <= k < |s| && s[k] == header
      modifies next
      ensures next[..] == LinksDropped(old(next[..]), s, k)
      ensures IsList(next[..], head, Dropped(s, k))
    {
      hide Sorted, Dropped;
      head := list;
      ghost var before := next[..];
      DropIsList(before, list, s, k);
      DropHead(s, k);
      if list == header {
        HeadIsFirst(before, list, s, k);
        head := next[header];
        next[header] := NULL;
      } else {
        var node := FindBefore(list, header, s, k);
        assert Link(before, s, k);
        next[node] := next[header];
      }
      assert next[..] == LinksDropped(before, s, k);
    }

    /** The element whose link leads to header, which is not the first. */
    method FindBefore(list: int, header: int, ghost s: seq<int>, ghost k: int) returns (node: int)
      requires IsList(next[..], list, s) && 0 <= k < |s| && s[k] == header && list != header
      ensures 1 <= k && node == s[k - 1] && 0 <= node < next.Length
    {
      node := list;
      ghost var i := 0;
      while node != NULL && next[node] != header
        invariant 0 <= i < k && node == s[i]
        decreases k - i
      {
        assert Link(next[..], s, i);
        node := next[node];
        i := i + 1;
      }
      assert Link(next[..], s, i);
    }

    /** finsh_block_split: cut size bytes off the front of free block header, the k-th. */
    method Split(header: int, size: int, ghost k: int)
      requires len != next && len.Length == next.Length && IsList(next[..], freeList, free)
      requires 0 <= k < |free| && free[k] == header && header + HEADER + size !in free
      requires k + 1 < |free| ==> header + HEADER + size < free[k + 1]
      requires 0 <= size && header + HEADER + size < len.Length
      modifies this`free, len, next
      ensures var n := header + HEADER + size;
              && free == Inserted(old(free), k + 1, n)
              && IsList(next[..], freeList, free)
              && len[..] == old(len[..])[n := old(len[header]) - HEADER - size][header := size]
              && next[..] == old(next[..])[n := old(next[header])][header := n]
    {
      hide Sorted, Link, Inserted;
      ghost var links, s := next[..], free;
      LinkIs(links, freeList, s, k);
      var n := header + HEADER + size;
      len[n] := len[header] - HEADER - size;
      len[header] := size;
      next[n] := next[header];
      next[header] := n;
      ghost var mid := links[n := links[header]];
      ListFrame(links, mid, freeList, s);
      assert next[..] == LinksInserted(mid, s, k + 1, n);
      InsertIsList(mid, freeList, s, k + 1, n);
      free := Inserted(s, k + 1, n);
    }

    /** finsh_block_merge, for the free block just inserted at place j. */
    method Merge(header: int, ghost j: int)
      requires len != next && len.Length == next.Length && IsList(next[..], freeList, free)
      requires 0 <= j < |free| && free[j] == header
      requires forall i | 0 <= i < |free| :: Sized(len[..], free[i])
      requires Laid(Elems(free) + Elems(live), Elems(free), len[..]) && Coalesced(Elems(free) - {header}, len[..])
      requires Elems(free) !! Elems(live) && IsList(next[..], allocateList, live)
      modifies this`free, len, next
      ensures Shape(next[..], len[..], freeList, allocateList, free, live)
      ensures forall x | x in live && 0 <= x < len.Length :: len[x] == old(len[x])
    {
      hide Laid, Coalesced, IsList, Elems, Dropped, Shape, Sized, MergedList, Link, Sorted, Alone, Linked, Below, Valid;
      ghost var links, sizes, s := next[..], len[..], free;
      ListFacts(links, freeList, s);
      var nextNode := next[header];
      LinkIs(links, freeList, s, j);
      var prevNode := NULL;
      if freeList != header {
        prevNode := FindBefore(freeList, header, free, j);
      }
      FirstIs(links, freeList, s, j);
      var before := prevNode != NULL && prevNode + len[prevNode] + HEADER == header;
      var after := nextNode != NULL && header + len[header] + HEADER == nextNode;
      if before {
        if after {
          LinkIs(links, freeList, s, j + 1);
          len[prevNode] := len[prevNode] + len[header] + len[nextNode] + 2 * HEADER;
          next[prevNode] := next[nextNode];
        } else {
          len[prevNode] := len[prevNode] + len[header] + HEADER;
          next[prevNode] := next[header];
        }
      } else if after {
        LinkIs(links, freeList, s, j + 1);
        len[header] := len[header] + len[nextNode] + HEADER;
        next[header] := next[nextNode];
      }
      MergedShape(links, sizes, freeList, allocateList, s, live, j, before, after);
      free := MergedList(s, j, before, after);
      assert next[..] == MergedLinks(links, s, j, before, after);
      assert len[..] == MergedLens(sizes, s, j, before, after);
    }

    /** finsh_heap_free of the k-th live block */
    method Free(ptr: int, ghost k: int)
      requires Valid() && 0 <= k < |live| && live[k] + HEADER == ptr
      modifies this`freeList, this`allocateList, this`free, this`live, len, next
      ensures Valid() && live == Dropped(old(live), k)
      ensures forall x | x in live && 0 <= x < len.Length :: len[x] == old(len[x])
    {
      hide *;
      ValidShape();
      ShapeParts(next[..], len[..], freeList, allocateList, free, live);
      ghost var links, all := next[..], Elems(free) + Elems(live);
      var header := ptr - HEADER;
      InElems(live);
      FreedBelowTop(next[..], len[..], freeList, allocateList, free, live, k);
      allocateList := Remove(allocateList, header, live, k);
      live := Dropped(live, k);
      RemovedFromLive(links, len[..], freeList, old(allocateList), free, old(live), k);
      ghost var links1, s := next[..], free;
      ghost var j;
      freeList, j := Insert(freeList, header, free);
      free := Inserted(free, j, header);
      InsertedIntoFree(links1, len[..], old(freeList), allocateList, s, live, all, j, header);
      Merge(header, j);
      ShapeIsValid();
    }

    /** Turn the first size bytes of free block header into a live block. */
    method Take(header: int, size: int, ghost k: int)
      requires Valid() && 0 <= k < |free| && free[k] == header && 0 <= size && size % 4 == 0
      requires 0 <= header < len.Length && len[header] >= size + HEADER
      modifies this`freeList, this`allocateList, this`free, this`live, len, next
      ensures Valid() && Elems(live) == old(Elems(live)) + {header} && len[header] == size
      ensures header !in old(live)
      ensures forall x | x in old(live) && 0 <= x < len.Length :: len[x] == old(len[x])
    {
      hide *;
      ValidShape();
      ghost var n0, l0, f0, v0 := next[..], len[..], free, live;
      ShapeParts(n0, l0, freeList, allocateList, f0, v0);
      CarveHere(n0, l0, freeList, allocateList, f0, v0, k, size);
      ghost var n := header + HEADER + size;
      Split(header, size, k);
      ghost var n1, f1 := next[..], free;
      SplitOff(n0, n1, allocateList, f0, v0, k, n);
      ListFacts(n1, freeList, f1);
      ListFacts(n0, allocateList, v0);
      freeList := Remove(freeList, header, free, k);
      ghost var n2, f2 := next[..], Dropped(f1, k);
      free := f2;
      RemovedFromFree(n1, freeList, f1, allocateList, v0, k);
      next[header] := NULL;
      ghost var n3 := next[..];
      ListFrame(n2, n3, freeList, f2);
      ListFrame(n2, n3, allocateList, v0);
      ghost var j;
      allocateList, j := Insert(allocateList, header, live);
      live := Inserted(v0, j, header);
      InsertedIntoLive(n3, freeList, f2, v0, j, header);
      SetsAfterTake(f0, v0, f1, f2, k, n, j);
      TakenShape(next[..], len[..], freeList, allocateList, f0, free, v0, live, header, n);
      ShapeIsValid();
    }

    /**
     * The first free block that holds size bytes and a header of 8; a strict search also wants room for a payload
     * in what is left over.
     */
    method FirstFit(size: nat, strict: bool) returns (header: int, ghost k: int)
      requires Valid()
      ensures header == NULL ==> forall b | b in free && 0 <= b < len.Length ::
                                   if strict then len[b] <= size + 8 else len[b] < size + 8
      ensures header != NULL ==>
                && header in free && 0 <= header < len.Length
                && (if strict then len[header] > size + 8 else len[header] >= size + 8)
                && forall b | b in free && 0 <= b < header ::
                     b < len.Length && if strict then len[b] <= size + 8 else len[b] < size + 8
      ensures header != NULL ==> 0 <= k < |free| && free[k] == header
    {
      hide Laid, Coalesced, Link, Sorted, IsList;
      ListFacts(next[..], freeList, free);
      header := freeList;
      k := 0;
      while header != NULL && (if strict then len[header] <= size + HEADER else len[header] < size + HEADER)
        invariant 0 <= k <= |free| && header == (if k < |free| then free[k] else NULL)
        invariant forall i | 0 <= i < k ::
                    if strict then len[free[i]] <= size + 8 else len[free[i]] < size + 8
        decreases |free| - k
      {
        LinkIs(next[..], freeList, free, k);
        header := next[header];
        k := k + 1;
      }
      Searched(Now(), k, size + (if strict then 9 else 8));
    }

    /** finsh_heap_gc: release every live block no typed variable points to. */
    method Gc(vars: seq<Variable>)
      requires Valid()
      modifies this`freeList, this`allocateList, this`free, this`live, len, next
      ensures Valid() && live == Referenced(old(live), vars)
      ensures forall x | x in live && 0 <= x < len.Length :: len[x] == old(len[x])
    {
      hide *;
      ghost var i, c := 0, 0;
      ghost var s := live;
      ValidShape();
      ShapeParts(next[..], len[..], freeList, allocateList, free, live);
      HeadIs(next[..], allocateList, live);
      var header := allocateList;
      ReferencedNone(s, vars);
      while header != NULL
        invariant Valid()
        invariant 0 <= i <= |live| && 0 <= c <= |s| && header == (if i < |live| then live[i] else NULL)
        invariant live[..i] == Referenced(s[..c], vars) && live[i..] == s[c..]
        invariant forall x | x in live && 0 <= x < len.Length :: len[x] == old(len[x])
        decreases |s| - c
      {
        ValidShape();
        ShapeParts(next[..], len[..], freeList, allocateList, free, live);
        var used := PointedTo(header + HEADER, vars);
        var temp := header;
        LinkIs(next[..], allocateList, live, i);
        header := next[header];
        ReferencedMore(s, c, vars);
        SameRest(live, s, i, c);
        if used {
          i := i + 1;
        } else {
          ghost var v := live;
          Free(temp + HEADER, i);
          DroppedIs(v, i);
        }
        c := c + 1;
      }
      ValidShape();
      ShapeParts(next[..], len[..], freeList, allocateList, free, live);
      if i < |live| { NotNull(next[..], allocateList, live, i); }
      assert live[..i] == live && s[..c] == s;
    }

    /** The inner loop of the collector. */
    method PointedTo(data: int, vars: seq<Variable>) returns (used: bool)
      ensures used == IsTarget(data, vars)
    {
      var i := 0;
      while i < |vars|
        invariant 0 <= i <= |vars| && !IsTarget(data, vars[..i])
      {
        if vars[i].typed && vars[i].ptr == data { return true; }
        i := i + 1;
      }
      assert vars[..i] == vars;
      used := false;
    }

    /** The two searches of finsh_heap_allocate, with a collection between them, and the heap that was searched last. */
    method FindBlock(n: nat, vars: seq<Variable>)
      returns (header: int, ghost k: int, ghost searched: Layout, ghost collected: bool)
      requires Valid()
      modifies this`freeList, this`allocateList, this`free, this`live, len, next
      ensures Valid() && HEADER == 8 && searched == Now()
      ensures searched == Layout(next[..], len[..], freeList, allocateList, free, live)
      ensures !collected ==> searched == old(Now())
      ensures collected ==> Collected(old(Now()), searched, vars)
      ensures collected ==> forall b | b in old(free) && 0 <= b < len.Length :: old(len[b]) <= n + 8
      ensures header == NULL ==> collected && forall b | b in free && 0 <= b < len.Length :: len[b] < n + 8
      ensures header != NULL ==>
                && 0 <= k < |free| && free[k] == header && 0 <= header < len.Length
                && len[header] >= n + (if collected then 8 else 9)
                && forall b | b in free && 0 <= b < header && b < len.Length ::
                     len[b] < n + (if collected then 8 else 9)
    {
      hide *;
      ghost var before := Now();
      NowIs();
      ValidShape();
      searched, collected := before, false;
      header, k := FirstFit(n, true);
      if header == NULL {
        Gc(vars);
        ValidShape();
        NowIs();
        searched, collected := Now(), true;
        CollectedIs(before, searched, vars);
        header, k := FirstFit(n, false);
      }
    }

    /**
     * finsh_heap_allocate.  The heap that is searched is the heap as it was, or, if no block there had more than n + 8
     * bytes, the heap after collection.  The first block with room is taken, and the answer is NULL only if
     * there is none; the block is new, aligned, zeroed and apart from every other live block.
     */
    method Allocate(size: nat, vars: seq<Variable>) returns (ptr: int, ghost searched: Layout, ghost collected: bool)
      requires Valid() && size <= MAX_REQUEST
      modifies this`freeList, this`allocateList, this`free, this`live, len, next, bytes
      ensures Valid()
      ensures !collected ==> searched == old(Now())
      ensures collected ==> Collected(old(Now()), searched, vars)
      ensures collected ==> forall b | b in old(free) && 0 <= b < len.Length :: old(len[b]) <= Rounded(size) + 8
      ensures ptr == NULL ==>
                && collected && Now() == searched && bytes[..] == old(bytes[..])
                && forall b | b in free && 0 <= b < len.Length :: len[b] < Rounded(size) + 8
      ensures ptr != NULL ==>
                && 0 <= ptr - 8 < |searched.len| && ptr - 8 in searched.free
                && searched.len[ptr - 8] >= Rounded(size) + (if collected then 8 else 9)
                && forall b | b in searched.free && 0 <= b < ptr - 8 ::
                     searched.len[b] < Rounded(size) + (if collected then 8 else 9)
      ensures ptr != NULL ==>
                && Served(searched.live, live, len[..], old(bytes[..]), bytes[..], ptr, Rounded(size))
                && (forall x | x in live && x != ptr - 8 :: x in old(live))
                && forall x | x in live && x != ptr - 8 && 0 <= x < len.Length :: len[x] == old(len[x])
    {
      hide *;
      var n := Rounded(size);
      RoundedIs(size);
      ghost var before, k := Now(), 0;
      NowIs();
      var header;
      header, k, searched, collected := FindBlock(n, vars);
      if header == NULL {
        return NULL, searched, collected;
      }
      KeptLive(before, searched, collected, vars);
      Take(header, n, k);
      ValidShape();
      ptr := header + HEADER;
      ghost var data, sizes := bytes[..], len[..];
      ServedBlock(next[..], len[..], freeList, allocateList, free, live, searched.live, header, n);
      forall i | ptr <= i < ptr + n { bytes[i] := 0; }
      assert len[..] == sizes;
      assert ptr - HEADER == header;
      ServedIs(before.live, searched.live, live, len[..], data, bytes[..], ptr, n, vars);
    }

    lemma NowIs()
      ensures Now() == Layout(next[..], len[..], freeList, allocateList, free, live)
    {
    }

    /** What a fresh heap of max bytes answers to its first request. */
    static method FirstAllocation(max: nat, size: nat) returns (ptr: int)
      requires max >= 8 && max % 4 == 0 && size <= MAX_REQUEST
      ensures ptr == if Rounded(size) + 16 <= max then 8 else -1
      ensures max == 128 && size == 32 ==> ptr == 8
    {
      hide Shape, Served, Rounded;
      var heap := new Heap(max);
      RoundedIs(size);
      ghost var searched, collected;
      ptr, searched, collected := heap.Allocate(size, []);
      if collected {
        EmptyIsOneBlock(searched.next, searched.len, searched.freeList, searched.allocateList, searched.free);
      }
    }

    lemma ShapeIsValid()
      requires len != next && bytes.Length == len.Length && Shape(next[..], len[..], freeList, allocateList, free, live)
      ensures Valid()
    {
    }

    lemma ValidShape()
      requires Valid()
      ensures HEADER == 8 && len != next && bytes.Length == len.Length
      ensures Shape(next[..], len[..], freeList, allocateList, free, live)
    {
    }
  }

  lemma HeadIsFirst(next: seq<int>, head: int, s: seq<int>, k: int)
    requires IsList(next, head, s) && 0 <= k < |s| && s[k] == head
    ensures k == 0 && next[head] == After(s, 0)
  {
    assert Link(next, s, 0);
  }

  lemma DropHead(s: seq<int>, k: int)
    requires 0 <= k < |s|
    ensures First(Dropped(s, k)) == if k == 0 then After(s, 0) else s[0]
  {
  }

  lemma ListFacts(next: seq<int>, head: int, s: seq<int>)
    requires IsList(next, head, s)
    ensures forall i | 0 <= i < |s| :: 0 <= s[i] < |next|
    ensures Sorted(s) && NULL == -1 && forall i, j | 0 <= i < j < |s| :: s[i] < s[j]
    ensures head == if s == [] then NULL else s[0]
  {
  }

  lemma LinkIs(next: seq<int>, head: int, s: seq<int>, i: int)
    requires IsList(next, head, s) && 0 <= i < |s|
    ensures 0 <= s[i] < |next| && next[s[i]] == if i + 1 < |s| then s[i + 1] else NULL
  {
    assert Link(next, s, i);
  }

  lemma FirstIs(next: seq<int>, head: int, s: seq<int>, j: int)
    requires IsList(next, head, s) && 0 <= j < |s|
    ensures head == s[j] <==> j == 0
  {
  }

  lemma ShapeParts(next: seq<int>, len: seq<int>, freeList: int, allocateList: int, free: seq<int>, live: seq<int>)
    requires Shape(next, len, freeList, allocateList, free, live)
    ensures |next| == |len| && IsList(next, freeList, free) && IsList(next, allocateList, live)
    ensures Elems(free) !! Elems(live) && Laid(Elems(free) + Elems(live), Elems(free), len)
            && Coalesced(Elems(free), len)
  {
  }

  /** A live block lies below the last free one, so that inserting it never depends on its stale link. */
  lemma FreedBelowTop(next: seq<int>, len: seq<int>, freeList: int, allocateList: int, free: seq<int>, live: seq<int>,
                      k: int)
    requires Shape(next, len, freeList, allocateList, free, live) && 0 <= k < |live|
    ensures live[k] !in free && 0 <= live[k] < |next|
    ensures |free| > 0 && live[k] < free[|free| - 1]
  {
    hide Sized, Linked, Below, Alone, Link;
    InElems(live);
    InElems(free);
    var top := TopIsFree(Elems(free) + Elems(live), Elems(free), len);
    assert top in free && live[k] in Elems(free) + Elems(live);
  }

  lemma RemovedFromLive(next: seq<int>, len: seq<int>, freeList: int, allocateList: int, free: seq<int>,
                        live: seq<int>, k: int)
    requires Shape(next, len, freeList, allocateList, free, live) && 0 <= k < |live|
    ensures forall i | 0 <= i < |live| :: 0 <= live[i] < |next|
    ensures IsList(LinksDropped(next, live, k), freeList, free)
    ensures live[k] !in Dropped(live, k) && Elems(Dropped(live, k)) == Elems(live) - {live[k]}
  {
    hide Laid, Coalesced, Link, Dropped, Sorted;
    ListFacts(next, allocateList, live);
    InElems(live);
    InElems(free);
    ListFrame(next, LinksDropped(next, live, k), freeList, free);
    NotInDropped(live, k);
    ElemsDropped(live, k);
  }

  lemma InsertedIntoFree(next: seq<int>, len: seq<int>, freeList: int, allocateList: int, s: seq<int>, live: seq<int>,
                         all: set<int>, j: int, b: int)
    requires |next| == |len| && IsList(next, freeList, s) && IsList(next, allocateList, live) && Elems(s) !! Elems(live)
    requires b !in s && b !in live && all == Elems(s) + Elems(live) + {b} && 0 <= b < |next|
    requires Laid(all, Elems(s), len) && Coalesced(Elems(s), len) && PlaceOf(s, j, b) && |s| > 0 && b < s[|s| - 1]
    ensures j < |s| && IsList(LinksInserted(next, s, j, b), allocateList, live)
    ensures var t := Inserted(s, j, b);
            && |t| == |s| + 1 && t[j] == b && Elems(t) !! Elems(live)
            && Laid(Elems(t) + Elems(live), Elems(t), len) && Coalesced(Elems(t) - {b}, len)
            && forall i | 0 <= i < |t| :: Sized(len, t[i])
  {
    hide Linked, Below, Alone, Link, Coalesced, Sized, Elems;
    InElems(live);
    InElems(s);
    ListFrame(next, LinksInserted(next, s, j, b), allocateList, live);
    var t := Inserted(s, j, b);
    ElemsInserted(s, j, b);
    InElems(t);
    Freed(all, Elems(s), len, b);
    assert Elems(t) + Elems(live) == all && Elems(t) - {b} == Elems(s);
  }

  lemma CarveHere(next: seq<int>, len: seq<int>, freeList: int, allocateList: int, free: seq<int>, live: seq<int>,
                  k: int, size: int)
    requires Shape(next, len, freeList, allocateList, free, live) && 0 <= k < |free|
    requires 0 <= size && size % 4 == 0 && 0 <= free[k] < |len| && len[free[k]] >= size + HEADER
    ensures var b := free[k];
            var n := b + HEADER + size;
            && 0 <= n < |len| && n !in free && n !in live && b !in live && n != b
            && (forall x | x in free :: x !in live)
            && (k + 1 < |free| ==> n < free[k + 1])
            && Laid(Elems(free) + Elems(live) + {n}, Elems(free) - {b} + {n},
                len[n := len[b] - HEADER - size][b := size])
            && Coalesced(Elems(free) - {b} + {n}, len[n := len[b] - HEADER - size][b := size])
  {
    hide Linked, Alone, Link, Coalesced, Elems, Laid, Sized, Below, Sorted;
    InElems(free);
    InElems(live);
    ListFacts(next, freeList, free);
    var all := Elems(free) + Elems(live);
    LaidAt(all, Elems(free), len, free[k]);
    if k + 1 < |free| { LaidBelow(all, Elems(free), len, free[k], free[k + 1]); }
    Carve(all, Elems(free), len, free[k], size);
  }

  lemma LaidAt(all: set<int>, free: set<int>, len: seq<int>, b: int)
    requires Laid(all, free, len) && b in all
    ensures Sized(len, b)
  {
  }

  lemma LaidBelow(all: set<int>, free: set<int>, len: seq<int>, a: int, b: int)
    requires Laid(all, free, len) && a in all && b in all && a < b
    ensures 0 <= a < |len| && End(len, a) <= b
  {
    assert Below(len, a, b);
  }

  lemma SplitOff(n0: seq<int>, n1: seq<int>, allocateList: int, f0: seq<int>, live: seq<int>, k: int, n: int)
    requires IsList(n0, allocateList, live) && 0 <= k < |f0| && f0[k] !in live && n !in live
    requires 0 <= n < |n0| && 0 <= f0[k] < |n0| && n1 == n0[n := n0[f0[k]]][f0[k] := n]
    ensures IsList(n1, allocateList, live)
    ensures var f1 := Inserted(f0, k + 1, n); k < |f1| && f1[k] == f0[k] && forall x | x in f1 :: x in f0 || x == n
  {
    hide Link, Sorted;
    ListFrame(n0, n1, allocateList, live);
  }

  lemma RemovedFromFree(next: seq<int>, freeList: int, f1: seq<int>, allocateList: int, live: seq<int>, k: int)
    requires 0 <= k < |f1| && (forall i | 0 <= i < |f1| :: 0 <= f1[i] < |next|) && Sorted(f1)
    requires IsList(next, allocateList, live) && forall x | x in f1 :: x !in live
    ensures IsList(LinksDropped(next, f1, k), allocateList, live) && f1[k] !in Dropped(f1, k)
    ensures forall x | x in Dropped(f1, k) :: x in f1
  {
    hide Link;
    ListFrame(next, LinksDropped(next, f1, k), allocateList, live);
    NotInDropped(f1, k);
  }

  lemma InsertedIntoLive(next: seq<int>, freeList: int, free: seq<int>, live: seq<int>, j: int, b: int)
    requires IsList(next, freeList, free) && PlaceOf(live, j, b) && 0 <= b < |next| && b !in free
    requires (forall i | 0 <= i < |live| :: 0 <= live[i] < |next|) && forall x | x in free :: x !in live
    ensures IsList(LinksInserted(next, live, j, b), freeList, free)
  {
    hide Link, Sorted;
    ListFrame(next, LinksInserted(next, live, j, b), freeList, free);
  }

  lemma SetsAfterTake(f0: seq<int>, v0: seq<int>, f1: seq<int>, f2: seq<int>, k: int, n: int, j: int)
    requires 0 <= k < |f0| && n !in f0 && f1 == Inserted(f0, k + 1, n) && Sorted(f1) && f2 == Dropped(f1, k)
             && 0 <= j <= |v0|
    ensures Elems(f2) == Elems(f0) - {f0[k]} + {n}
    ensures Elems(Inserted(v0, j, f0[k])) == Elems(v0) + {f0[k]}
  {
    hide Sorted, Elems, Dropped;
    assert f1[k] == f0[k];
    ElemsInserted(f0, k + 1, n);
    ElemsDropped(f1, k);
    ElemsInserted(v0, j, f0[k]);
    InElems(f0);
  }

  lemma TakenShape(next: seq<int>, len: seq<int>, freeList: int, allocateList: int, f0: seq<int>, f2: seq<int>,
                   v0: seq<int>, v2: seq<int>, b: int, n: int)
    requires |next| == |len| && IsList(next, freeList, f2) && IsList(next, allocateList, v2)
    requires Elems(f0) !! Elems(v0) && b in f0 && n !in f0 && n !in v0
    requires Elems(f2) == Elems(f0) - {b} + {n} && Elems(v2) == Elems(v0) + {b}
    requires Laid(Elems(f0) + Elems(v0) + {n}, Elems(f0) - {b} + {n}, len) && Coalesced(Elems(f0) - {b} + {n}, len)
    ensures Shape(next, len, freeList, allocateList, f2, v2)
  {
    hide Laid, Coalesced, IsList, Elems;
    InElems(f0);
    InElems(v0);
    assert Elems(f2) + Elems(v2) == Elems(f0) + Elems(v0) + {n};
  }

  lemma HeadIs(next: seq<int>, head: int, s: seq<int>)
    requires IsList(next, head, s)
    ensures head == if |s| > 0 then s[0] else NULL
  {
  }

  lemma NotNull(next: seq<int>, head: int, s: seq<int>, i: int)
    requires IsList(next, head, s) && 0 <= i < |s|
    ensures s[i] != NULL
  {
  }

  lemma SameRest(a: seq<int>, b: seq<int>, i: int, c: int)
    requires 0 <= i < |a| && 0 <= c <= |b| && a[i..] == b[c..]
    ensures c < |b| && a[i] == b[c] && a[i + 1..] == b[c + 1..]
    ensures a[..i + 1] == a[..i] + [a[i]]
  {
    assert |a[i..]| == |b[c..]|;
    assert a[i] == a[i..][0] && b[c] == b[c..][0];
    assert a[i + 1..] == a[i..][1..] && b[c + 1..] == b[c..][1..];
  }
}
