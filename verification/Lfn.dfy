// Long file names in directory entries: writing, reading and comparing the
// 13-character segments (dfs/ff.c: fit_lfn, pick_lfn, cmp_lfn).
module Lfn {
  import opened Words

  type wchar = c: int | 0 <= c < 0x1_0000

  const MAX_LFN: nat := 255
  const FILLER: wchar := 0xFFFF
  const LLE: nat := 0x40
  const ENTRY: nat := 32
  const LDIR_ORD: nat := 0
  const LDIR_ATTR: nat := 11
  const LDIR_TYPE: nat := 12
  const LDIR_CHKSUM: nat := 13
  const LDIR_FST_CLUS_LO: nat := 26
  const AM_LFN: byte := 0x0F

  /** Where the characters of a segment lie in its entry. */
  const LFN_OFS: seq<nat> := [1, 3, 5, 7, 9, 14, 16, 18, 20, 22, 24, 28, 30]

  lemma OfsRange(s: nat)
    requires s < 13
    ensures |LFN_OFS| == 13 && 1 <= LFN_OFS[s] && LFN_OFS[s] + 2 <= ENTRY
    ensures LFN_OFS[s] + 2 <= LDIR_ATTR || LDIR_CHKSUM < LFN_OFS[s]
    ensures LFN_OFS[s] + 2 <= LDIR_FST_CLUS_LO || LDIR_FST_CLUS_LO + 2 <= LFN_OFS[s]
  {
  }

  lemma OfsApart(s: nat, t: nat)
    requires s < t < 13
    ensures |LFN_OFS| == 13 && LFN_OFS[s] + 2 <= LFN_OFS[t]
  {
  }

  /** Character s of an entry. */
  function CharAt(e: seq<byte>, s: nat): (c: wchar)
    requires |e| == ENTRY && s < 13
  {
    OfsRange(s);
    LdWord(e, LFN_OFS[s])
  }

  /** The last-entry flag and the sequence number as pick_lfn and cmp_lfn mask it. */
  function IsLast(o: byte): bool {
    o / 64 % 2 == 1
  }

  function PickOrder(o: byte): nat {
    o % 64
  }

  function CmpOrder(o: byte): nat {
    if IsLast(o) then o - LLE else o
  }

  // ----- Names and their segments -----

  ghost predicate GoodName(name: seq<wchar>) {
    1 <= |name| <= MAX_LFN && forall i | 0 <= i < |name| :: name[i] != 0 && name[i] != FILLER
  }

  /** The name buffer of FatFs: the name, a zero, anything. */
  ghost predicate HoldsName(buf: seq<wchar>, name: seq<wchar>) {
    |buf| == MAX_LFN + 1 && |name| <= MAX_LFN && buf[..|name|] == name && buf[|name|] == 0
  }

  /** Character i of a name in directory entries: the name, one zero, then fillers. */
  function Slot(name: seq<wchar>, i: nat): wchar {
    if i < |name| then name[i] else if i == |name| then 0 else FILLER
  }

  /** Entry e is segment ord of the name. */
  ghost predicate IsSegment(e: seq<byte>, name: seq<wchar>, ord: nat) {
    && |e| == ENTRY && 1 <= ord <= 20
    && e[LDIR_ORD] == (if |name| <= 13 * ord then ord + LLE else ord)
    && forall s | 0 <= s < 13 :: CharAt(e, s) == Slot(name, 13 * (ord - 1) + s)
  }

  function Segments(n: nat): nat {
    (n + 12) / 13
  }

  // ----- fit_lfn -----

  method PutChar(dir: array<byte>, s: nat, wc: wchar)
    requires dir.Length == ENTRY && s < 13
    modifies dir
    ensures CharAt(dir[..], s) == wc
    ensures forall t | 0 <= t < 13 && t != s :: CharAt(dir[..], t) == old(CharAt(dir[..], t))
    ensures forall k | k in {LDIR_ATTR, LDIR_TYPE, LDIR_CHKSUM, LDIR_FST_CLUS_LO,
            LDIR_FST_CLUS_LO + 1} :: dir[k] == old(dir[k])
  {
    hide LFN_OFS, Byte;
    OfsRange(s);
    var o := LFN_OFS[s];
    WordRead(wc);
    dir[o], dir[o + 1] := Byte(wc, 0), Byte(wc, 1);
    forall t | 0 <= t < 13 && t != s ensures CharAt(dir[..], t) == old(CharAt(dir[..], t)) {
      OfsRange(t);
      if s < t { OfsApart(s, t); } else { OfsApart(t, s); }
    }
  }

  /** What fit_lfn puts around the characters. */
  ghost predicate IsLfnEntry(e: seq<byte>, sum: byte) {
    && |e| == ENTRY
    && e[LDIR_ATTR] == AM_LFN && e[LDIR_TYPE] == 0 && e[LDIR_CHKSUM] == sum
    && e[LDIR_FST_CLUS_LO] == 0 && e[LDIR_FST_CLUS_LO + 1] == 0
  }

  method FitLfn(lfnbuf: array<wchar>, dir: array<byte>, ord: byte, sum: byte, ghost name: seq<wchar>)
    requires GoodName(name) && HoldsName(lfnbuf[..], name)
    requires dir.Length == ENTRY && 1 <= ord <= Segments(|name|)
    modifies dir
    ensures IsSegment(dir[..], name, ord) && IsLfnEntry(dir[..], sum)
  {
    hide LFN_OFS, CharAt;
    SegmentsFit(|name|, ord);
    dir[LDIR_CHKSUM] := sum;
    dir[LDIR_ATTR] := AM_LFN;
    dir[LDIR_TYPE] := 0;
    dir[LDIR_FST_CLUS_LO], dir[LDIR_FST_CLUS_LO + 1] := 0, 0;
    ghost var base := 13 * (ord - 1);
    var i: nat := (ord - 1) * 13;
    var s: nat := 0;
    var wc: wchar := 0;
    while s < 13
      invariant 0 <= s <= 13
      invariant wc == FILLER <==> base + s > |name|
      invariant i == if base + s <= |name| then base + s else |name| + 1
      invariant IsLfnEntry(dir[..], sum)
      invariant forall t | 0 <= t < s :: CharAt(dir[..], t) == Slot(name, base + t)
    {
      if wc != FILLER {
        BufAt(lfnbuf[..], name, i);
        wc := lfnbuf[i];
        i := i + 1;
      }
      PutChar(dir, s, wc);
      if wc == 0 { wc := FILLER; }
      s := s + 1;
    }
    ghost var e := dir[..];
    var o := ord;
    if wc != FILLER { BufAt(lfnbuf[..], name, i); }
    if wc == FILLER || lfnbuf[i] == 0 { o := ord + LLE; }
    dir[LDIR_ORD] := o;
    OrdApart(e, dir[..]);
  }

  lemma SegmentsFit(n: nat, ord: nat)
    requires 1 <= ord <= Segments(n) && n <= MAX_LFN
    ensures 13 * (ord - 1) < n && ord <= 20
  {
  }

  lemma BufAt(buf: seq<wchar>, name: seq<wchar>, i: nat)
    requires HoldsName(buf, name) && i <= |name|
    ensures i < |buf| && buf[i] == Slot(name, i)
  {
    if i < |name| { assert buf[i] == buf[..|name|][i]; }
  }

  lemma OrdApart(e: seq<byte>, f: seq<byte>)
    requires |e| == |f| == ENTRY && forall k | 1 <= k < ENTRY :: e[k] == f[k]
    ensures forall t | 0 <= t < 13 :: CharAt(f, t) == CharAt(e, t)
  {
    hide LFN_OFS;
    forall t | 0 <= t < 13 ensures CharAt(f, t) == CharAt(e, t) { OfsRange(t); }
  }

  /** A segment byte by byte: where its 13 characters lie, low byte first, and what stands around them. */
  lemma SegmentBytes(e: seq<byte>, name: seq<wchar>, ord: nat, sum: byte, s: nat)
    requires IsSegment(e, name, ord) && IsLfnEntry(e, sum) && s < 13
    ensures |e| == 32 && e[0] == (if |name| <= 13 * ord then 0x40 + ord else ord)
    ensures e[11] == 0x0F && e[12] == 0 && e[13] == sum && e[26] == 0 && e[27] == 0
    ensures var o := [1, 3, 5, 7, 9, 14, 16, 18, 20, 22, 24, 28, 30][s];
            var i := 13 * (ord - 1) + s;
            var c := if i < |name| then name[i] else if i == |name| then 0 else 0xFFFF;
            e[o] == c % 0x100 && e[o + 1] == c / 0x100
  {
    hide LdWord;
    var o := LFN_OFS[s];
    assert CharAt(e, s) == Slot(name, 13 * (ord - 1) + s);
    WordIs(e, o);
  }

  lemma WordIs(e: seq<byte>, o: nat)
    requires o + 2 <= |e|
    ensures LdWord(e, o) % 0x100 == e[o] && LdWord(e, o) / 0x100 == e[o + 1]
  {
    DivModUnique(LdWord(e, o), e[o + 1], e[o], 0x100);
  }

  // ----- pick_lfn -----

  /** How many characters of an entry count: up to and including the first zero. */
  function Taken(e: seq<byte>, s: nat): (n: nat)
    requires |e| == ENTRY && s <= 13
    ensures s <= n <= 13 && (s < 13 ==> s < n)
    decreases 13 - s
  {
    if s == 13 then 13 else if CharAt(e, s) == 0 then s + 1 else Taken(e, s + 1)
  }

  lemma TakenStep(e: seq<byte>, s: nat)
    requires |e| == ENTRY && s <= 13
    ensures Taken(e, s) == if s == 13 then 13 else if CharAt(e, s) == 0 then s + 1 else Taken(e, s + 1)
    ensures s <= Taken(e, s) <= 13 && 0 < Taken(e, 0) <= 13 && (s < 13 ==> s < Taken(e, s))
  {
  }

  ghost predicate Filled(e: seq<byte>, from: nat, to: nat)
    requires |e| == ENTRY && to <= 13
  {
    forall s | from <= s < to :: CharAt(e, s) == FILLER
  }

  /** An entry pick_lfn accepts: padded with fillers, and everything it stores has room. */
  ghost predicate Pickable(e: seq<byte>)
    requires |e| == ENTRY
  {
    && PickOrder(e[LDIR_ORD]) >= 1
    && Filled(e, Taken(e, 0), 13)
    && 13 * (PickOrder(e[LDIR_ORD]) - 1) + Taken(e, 0) + (if IsLast(e[LDIR_ORD]) then 1 else 0) <= MAX_LFN
  }

  /** The buffer after an entry has been picked up. */
  ghost predicate Picked(before: seq<wchar>, after: seq<wchar>, e: seq<byte>)
    requires |e| == ENTRY && PickOrder(e[LDIR_ORD]) >= 1
  {
    var base, n := 13 * (PickOrder(e[LDIR_ORD]) - 1), Taken(e, 0);
    && |after| == |before|
    && forall k | 0 <= k < |before| ::
         after[k] == if base <= k < base + n then CharAt(e, k - base)
                     else if IsLast(e[LDIR_ORD]) && k == base + n then 0
                     else before[k]
  }

  method PickLfn(lfnbuf: array<wchar>, dir: array<byte>) returns (ok: bool)
    requires lfnbuf.Length == MAX_LFN + 1 && dir.Length == ENTRY
    modifies lfnbuf
    ensures ok <==> Pickable(dir[..])
    ensures ok ==> Picked(old(lfnbuf[..]), lfnbuf[..], dir[..])
  {
    hide CharAt, Taken, IsLast, PickOrder;
    ghost var e := dir[..];
    TakenStep(e, 0);
    var order := PickOrder(dir[LDIR_ORD]);
    if order == 0 { return false; }
    ghost var base: nat := 13 * (order - 1);
    var i: nat := (order - 1) * 13;
    var s, wc: nat := 0, 1;
    while s < 13
      invariant 0 <= s <= 13 && base <= i && (s > 0 ==> i <= MAX_LFN)
      invariant wc != 0 ==> Taken(e, 0) == Taken(e, s) && i == base + s
      invariant wc == 0 ==> i == base + Taken(e, 0) && Taken(e, 0) <= s && Filled(e, Taken(e, 0), s)
      invariant dir[..] == e
      invariant forall k | 0 <= k < lfnbuf.Length ::
                  lfnbuf[k] == if base <= k < i then CharAt(e, k - base) else old(lfnbuf[k])
    {
      var uc := CharAt(dir[..], s);
      TakenStep(e, s);
      if wc != 0 {
        if i >= MAX_LFN { return false; }
        wc := uc;
        lfnbuf[i] := uc;
        i := i + 1;
      } else if uc != FILLER {
        return false;
      }
      s := s + 1;
    }
    TakenStep(e, 13);
    if IsLast(dir[LDIR_ORD]) {
      if i >= MAX_LFN { return false; }
      lfnbuf[i] := 0;
    }
    ok := true;
  }

  // ----- The segments of a name -----

  lemma OrderOf(e: seq<byte>, name: seq<wchar>, ord: nat)
    requires IsSegment(e, name, ord)
    ensures PickOrder(e[LDIR_ORD]) == CmpOrder(e[LDIR_ORD]) == ord && (IsLast(e[LDIR_ORD]) <==> |name| <= 13 * ord)
  {
    hide CharAt;
  }

  /** What counts in segment ord: all of it, or up to the zero after the name. */
  lemma {:induction false} SegmentTaken(e: seq<byte>, name: seq<wchar>, ord: nat, s: nat)
    requires GoodName(name) && IsSegment(e, name, ord) && s <= 13 && 13 * (ord - 1) + s <= |name|
    ensures Taken(e, s) == if 13 * ord <= |name| then 13 else |name| - 13 * (ord - 1) + 1
    decreases 13 - s
  {
    hide CharAt, Taken;
    TakenStep(e, s);
    if s < 13 && 13 * (ord - 1) + s < |name| {
      SegmentTaken(e, name, ord, s + 1);
    }
  }

  lemma SegmentIs(e: seq<byte>, name: seq<wchar>, ord: nat)
    requires GoodName(name) && IsSegment(e, name, ord) && 13 * (ord - 1) < |name|
    ensures Taken(e, 0) == if 13 * ord <= |name| then 13 else |name| - 13 * (ord - 1) + 1
    ensures Filled(e, Taken(e, 0), 13)
    ensures Pickable(e) <==> (|name| < 13 * ord ==> |name| <= MAX_LFN - 2)
  {
    hide CharAt, Taken, PickOrder, IsLast, CmpOrder;
    OrderOf(e, name, ord);
    SegmentTaken(e, name, ord, 0);
    TakenStep(e, 0);
  }

  ghost predicate AllSegments(es: seq<seq<byte>>, name: seq<wchar>) {
    |es| == Segments(|name|) && forall k | 0 <= k < |es| :: IsSegment(es[k], name, |es| - k)
  }

  /** The entries of a name, in the order dir_register writes them: the last segment first. */
  method StoreName(lfnbuf: array<wchar>, sum: byte, ghost name: seq<wchar>) returns (es: seq<seq<byte>>)
    requires GoodName(name) && HoldsName(lfnbuf[..], name)
    ensures AllSegments(es, name) && forall k | 0 <= k < |es| :: IsLfnEntry(es[k], sum)
    ensures 13 * (|es| - 1) < |name| <= 13 * |es|
  {
    hide IsSegment, IsLfnEntry, GoodName, Segments;
    var ne := CountChars(lfnbuf, name);
    SegmentsBound(name);
    SegmentsExact(name);
    ne := (ne + 25) / 13 - 1;
    es := [];
    while ne > 0
      invariant 0 <= ne <= Segments(|name|) <= 20 && |es| == Segments(|name|) - ne
      invariant forall k | 0 <= k < |es| :: IsSegment(es[k], name, Segments(|name|) - k) && IsLfnEntry(es[k], sum)
    {
      var dir := new byte[ENTRY];
      FitLfn(lfnbuf, dir, ne, sum, name);
      es := es + [dir[..]];
      ne := ne - 1;
    }
  }

  method CountChars(lfnbuf: array<wchar>, ghost name: seq<wchar>) returns (ne: nat)
    requires GoodName(name) && HoldsName(lfnbuf[..], name)
    ensures ne == |name|
  {
    ne := 0;
    BufAt(lfnbuf[..], name, 0);
    while lfnbuf[ne] != 0
      invariant 0 <= ne <= |name| && lfnbuf[ne] == Slot(name, ne)
      decreases |name| - ne
    {
      ne := ne + 1;
      BufAt(lfnbuf[..], name, ne);
    }
  }

  lemma SegmentsExact(name: seq<wchar>)
    requires GoodName(name)
    ensures 13 * (Segments(|name|) - 1) < |name| <= 13 * Segments(|name|)
  {
  }

  lemma SegmentsBound(name: seq<wchar>)
    requires GoodName(name)
    ensures 1 <= Segments(|name|) <= 20 && (|name| + 25) / 13 - 1 == Segments(|name|)
  {
  }

  /** Reading entries one after the other, as dir_read does. */
  method LoadName(es: seq<seq<byte>>, lfnbuf: array<wchar>, ghost name: seq<wchar>) returns (ok: bool)
    requires lfnbuf.Length == MAX_LFN + 1 && forall k | 0 <= k < |es| :: |es[k]| == ENTRY
    modifies lfnbuf
    ensures ok <==> forall k | 0 <= k < |es| :: Pickable(es[k])
    ensures ok && GoodName(name) && AllSegments(es, name) ==> HoldsName(lfnbuf[..], name)
  {
    hide IsSegment, GoodName, Segments, Pickable, Picked, Taken, HoldsName;
    var k := 0;
    StartLoad(lfnbuf[..], name, |es|);
    while k < |es|
      invariant 0 <= k <= |es|
      invariant forall j | 0 <= j < k :: Pickable(es[j])
      invariant GoodName(name) && AllSegments(es, name) ==> Loaded(lfnbuf[..], name, |es| - k, k == 0)
    {
      var dir := new byte[ENTRY](i requires 0 <= i < ENTRY => es[k][i]);
      assert dir[..] == es[k];
      ghost var before := lfnbuf[..];
      ok := PickLfn(lfnbuf, dir);
      if !ok { return; }
      if GoodName(name) && AllSegments(es, name) {
        LoadMore(before, lfnbuf[..], es[k], name, |es|, k);
      }
      k := k + 1;
    }
    ok := true;
    if GoodName(name) && AllSegments(es, name) { EndLoad(lfnbuf[..], name, |es|); }
  }

  /** Segments above ord have been read, and with them the terminator. */
  ghost predicate Loaded(buf: seq<wchar>, name: seq<wchar>, ord: nat, none: bool) {
    |buf| == MAX_LFN + 1 && (none || forall i | 13 * ord <= i <= |name| && i < |buf| :: buf[i] == Slot(name, i))
  }

  lemma StartLoad(buf: seq<wchar>, name: seq<wchar>, n: nat)
    requires |buf| == MAX_LFN + 1
    ensures Loaded(buf, name, n, true)
  {
  }

  lemma LoadMore(before: seq<wchar>, after: seq<wchar>, e: seq<byte>, name: seq<wchar>, n: nat, k: nat)
    requires GoodName(name) && n == Segments(|name|) && k < n && IsSegment(e, name, n - k) && Pickable(e)
    requires Loaded(before, name, n - k, k == 0) && Picked(before, after, e)
    ensures Loaded(after, name, n - k - 1, false)
  {
    hide CharAt, Taken, PickOrder, IsLast, CmpOrder;
    var ord := n - k;
    OrderOf(e, name, ord);
    SegmentsFit(|name|, ord);
    SegmentIs(e, name, ord);
    LastFits(name, n);
    var base := 13 * (ord - 1);
    forall i | base <= i <= |name| && i < |after| ensures after[i] == Slot(name, i) {
      if i < base + Taken(e, 0) {
        assert CharAt(e, i - base) == Slot(name, base + (i - base));
      }
    }
  }

  lemma LastFits(name: seq<wchar>, n: nat)
    requires n == Segments(|name|)
    ensures |name| <= 13 * n
  {
  }

  lemma EndLoad(buf: seq<wchar>, name: seq<wchar>, n: nat)
    requires GoodName(name) && n == Segments(|name|) && Loaded(buf, name, 0, n == 0)
    ensures HoldsName(buf, name)
  {
    SegmentsBound(name);
    forall i | 0 <= i < |name| ensures buf[i] == name[i] { assert buf[i] == Slot(name, i); }
    assert buf[|name|] == Slot(name, |name|);
  }

  /** A stored name can be read back exactly when it has at most 253 characters. */
  lemma ReadableLength(es: seq<seq<byte>>, name: seq<wchar>)
    requires GoodName(name) && AllSegments(es, name)
    ensures (forall k | 0 <= k < |es| :: |es[k]| == ENTRY && Pickable(es[k])) <==> |name| <= 253
  {
    hide Pickable, Segments, CharAt;
    SegmentsBound(name);
    LastFits(name, |es|);
    forall k | 0 <= k < |es| ensures |es[k]| == ENTRY
        && (Pickable(es[k]) <==> (|name| < 13 * (|es| - k) ==> |name| <= MAX_LFN - 2)) {
      SegmentsFit(|name|, |es| - k);
      SegmentIs(es[k], name, |es| - k);
    }
    assert |es[0]| == ENTRY && (Pickable(es[0]) <==> (|name| < 13 * |es| ==> |name| <= MAX_LFN - 2));
  }

  // ----- cmp_lfn -----

  /** ff_wtoupper, of which only this is known. */
  ghost predicate IsUpper(upper: wchar -> wchar) {
    forall c :: upper(c) == 0 <==> c == 0
  }

  /** An entry that agrees with the name in buf as far as the entry goes. */
  ghost predicate Matches(e: seq<byte>, buf: seq<wchar>, upper: wchar -> wchar)
    requires |e| == ENTRY && |buf| == MAX_LFN + 1
  {
    var o := CmpOrder(e[LDIR_ORD]);
    var base, n := 13 * (o - 1), Taken(e, 0);
    && o >= 1 && Filled(e, n, 13) && base + n <= MAX_LFN
    && (forall s | 0 <= s < n :: SameAt(e, buf, upper, base, s))
    && (IsLast(e[LDIR_ORD]) && CharAt(e, n - 1) != 0 ==> buf[base + n] == 0)
  }

  ghost predicate SameAt(e: seq<byte>, buf: seq<wchar>, upper: wchar -> wchar, base: int, s: nat)
    requires |e| == ENTRY && s < 13
  {
    0 <= base + s < |buf| && upper(CharAt(e, s)) == upper(buf[base + s])
  }

  method CmpLfn(lfnbuf: array<wchar>, dir: seq<byte>, upper: wchar -> wchar) returns (matched: bool)
    requires lfnbuf.Length == MAX_LFN + 1 && |dir| == ENTRY && IsUpper(upper)
    ensures matched <==> Matches(dir, lfnbuf[..], upper)
  {
    hide CharAt, Taken, IsLast, CmpOrder;
    var o := CmpOrder(dir[LDIR_ORD]);
    ghost var e, buf := dir, lfnbuf[..];
    if o == 0 { return false; }
    ghost var base := 13 * (o - 1);
    var i: nat := (o - 1) * 13;
    TakenStep(e, 0);
    var s, wc: nat := 0, 1;
    while s < 13
      invariant 0 <= s <= 13 && base <= i && (s > 0 ==> i <= MAX_LFN)
      invariant wc != 0 ==> Taken(e, 0) == Taken(e, s) && i == base + s && (s > 0 ==> CharAt(e, s - 1) != 0)
      invariant wc == 0 ==> 0 < s && Taken(e, 0) <= s && i == base + Taken(e, 0) && CharAt(e, Taken(e, 0) - 1) == 0
      invariant wc == 0 ==> Filled(e, Taken(e, 0), s)
      invariant forall t | 0 <= t < s && t < Taken(e, 0) :: SameAt(e, buf, upper, base, t)
    {
      TakenStep(e, s);
      var uc := CharAt(dir, s);
      if wc != 0 {
        wc := upper(uc);
        if i >= MAX_LFN || wc != upper(lfnbuf[i]) {
          assert !SameAt(e, buf, upper, base, s) || base + Taken(e, 0) > MAX_LFN;
          return false;
        }
        i := i + 1;
      } else if uc != FILLER {
        return false;
      }
      s := s + 1;
    }
    TakenStep(e, 13);
    matched := !(IsLast(dir[LDIR_ORD]) && wc != 0 && lfnbuf[i] != 0);
  }

  ghost predicate SameName(a: seq<wchar>, b: seq<wchar>, upper: wchar -> wchar) {
    |a| == |b| && forall i | 0 <= i < |a| :: upper(a[i]) == upper(b[i])
  }

  /**
   * Every entry of a matches a buffer holding b exactly when a and b are the same but for case, and a has a
   * terminator inside the buffer.
   */
  lemma MatchIsEquality(es: seq<seq<byte>>, a: seq<wchar>, b: seq<wchar>, buf: seq<wchar>, upper: wchar -> wchar)
    requires GoodName(a) && AllSegments(es, a) && GoodName(b) && HoldsName(buf, b) && IsUpper(upper)
    ensures (forall k | 0 <= k < |es| :: |es[k]| == ENTRY && Matches(es[k], buf, upper))
            <==> SameName(a, b, upper) && |a| < 255
  {
    hide CharAt, Taken, IsLast, CmpOrder, Matches, Segments, GoodName, IsSegment, IsUpper;
    if SameName(a, b, upper) && |a| < MAX_LFN {
      forall k | 0 <= k < |es| ensures |es[k]| == ENTRY && Matches(es[k], buf, upper) {
        SegmentsFit2(a, |es| - k);
        SameMatches(es[k], a, b, buf, upper, |es| - k);
      }
    }
    if forall k | 0 <= k < |es| :: |es[k]| == ENTRY && Matches(es[k], buf, upper) {
      SegmentsBound(a);
      forall i | 0 <= i <= |a| ensures AgreesAt(a, buf, upper, i) {
        var ord := OrdOf(a, i);
        var k := |es| - ord;
        assert |es[k]| == ENTRY && Matches(es[k], buf, upper);
        SegmentsFit2(a, ord);
        MatchAgrees(es[k], a, buf, upper, ord, i);
      }
      AgreeIsSame(a, b, buf, upper);
    }
  }

  lemma SegmentsFit2(a: seq<wchar>, ord: nat)
    requires GoodName(a) && 1 <= ord <= Segments(|a|)
    ensures 13 * (ord - 1) < |a| && ord <= 20
  {
  }

  /** The segment that tells about character i of the name, or about its end. */
  lemma OrdOf(a: seq<wchar>, i: nat) returns (ord: nat)
    requires GoodName(a) && i <= |a|
    ensures 1 <= ord <= Segments(|a|) && 13 * (ord - 1) <= i
    ensures i < 13 * ord || (i == |a| == 13 * ord)
  {
    ord := if i < |a| || i % 13 != 0 then i / 13 + 1 else i / 13;
  }

  /** Position i of buf agrees with the name a followed by a zero. */
  ghost predicate AgreesAt(a: seq<wchar>, buf: seq<wchar>, upper: wchar -> wchar, i: nat) {
    i < MAX_LFN && i < |buf| && (if i < |a| then upper(a[i]) == upper(buf[i]) else buf[i] == 0)
  }

  lemma SameMatches(e: seq<byte>, a: seq<wchar>, b: seq<wchar>, buf: seq<wchar>, upper: wchar -> wchar, ord: nat)
    requires GoodName(a) && IsSegment(e, a, ord) && 13 * (ord - 1) < |a| < MAX_LFN && HoldsName(buf, b)
             && SameName(a, b, upper)
    ensures |e| == ENTRY && Matches(e, buf, upper)
  {
    hide CharAt, Taken, IsLast, CmpOrder;
    OrderOf(e, a, ord);
    SegmentIs(e, a, ord);
    TakenStep(e, 0);
    var base, n := 13 * (ord - 1), Taken(e, 0);
    forall s | 0 <= s < n ensures SameAt(e, buf, upper, base, s) {
      assert CharAt(e, s) == Slot(a, base + s);
      BufAt(buf, b, base + s);
    }
    if 13 * ord <= |a| { BufAt(buf, b, base + n); }
    assert CharAt(e, n - 1) == Slot(a, base + (n - 1));
  }

  lemma MatchAgrees(e: seq<byte>, a: seq<wchar>, buf: seq<wchar>, upper: wchar -> wchar, ord: nat, i: nat)
    requires GoodName(a) && IsSegment(e, a, ord) && 13 * (ord - 1) < |a| && IsUpper(upper)
    requires |buf| == MAX_LFN + 1 && Matches(e, buf, upper) && i <= |a| && 13 * (ord - 1) <= i
    requires i < 13 * ord || (i == |a| == 13 * ord)
    ensures AgreesAt(a, buf, upper, i)
  {
    hide CharAt, Taken, IsLast, CmpOrder;
    OrderOf(e, a, ord);
    SegmentIs(e, a, ord);
    TakenStep(e, 0);
    var base := 13 * (ord - 1);
    if i < 13 * ord {
      assert CharAt(e, i - base) == Slot(a, base + (i - base));
      assert SameAt(e, buf, upper, base, i - base);
    } else {
      assert CharAt(e, 12) == Slot(a, base + 12);
    }
  }

  function Shorter(a: seq<wchar>, b: seq<wchar>): nat {
    if |b| < |a| then |b| else |a|
  }

  lemma AgreeIsSame(a: seq<wchar>, b: seq<wchar>, buf: seq<wchar>, upper: wchar -> wchar)
    requires GoodName(a) && GoodName(b) && HoldsName(buf, b) && IsUpper(upper)
    requires forall i | 0 <= i <= |a| :: AgreesAt(a, buf, upper, i)
    ensures SameName(a, b, upper) && |a| < MAX_LFN
  {
    BufAt(buf, b, |b|);
    assert AgreesAt(a, buf, upper, |a|);
    assert AgreesAt(a, buf, upper, Shorter(a, b));
    if |a| < |b| { BufAt(buf, b, |a|); }
    forall i | 0 <= i < |a| ensures upper(a[i]) == upper(b[i]) {
      assert AgreesAt(a, buf, upper, i);
      BufAt(buf, b, i);
    }
  }

  /** A name of 254 characters is written in 20 entries and cannot be read back. */
  lemma LongestNamesAreLost(es: seq<seq<byte>>)
    requires AllSegments(es, seq(254, _ => 0x41))
    ensures |es| == 20 && exists k | 0 <= k < |es| :: |es[k]| == ENTRY && !Pickable(es[k])
  {
    var name: seq<wchar> := seq(254, _ => 0x41);
    assert GoodName(name);
    ReadableLength(es, name);
    var k :| 0 <= k < |es| && !(|es[k]| == ENTRY && Pickable(es[k]));
    assert IsSegment(es[k], name, |es| - k);
  }
}
