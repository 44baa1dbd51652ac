// Path normalisation: the in-place rewrite of dfs_normalize_path against a stack
// of components (dfs/dfs.c).
module Path {
  import opened Wrappers

  const NUL: char := '\0'

  // ----- The meaning of a path -----

  /** Characters before the first slash. */
  function NameLen(s: string): (n: nat)
    ensures n <= |s|
  {
    if s == "" || s[0] == '/' then 0 else 1 + NameLen(s[1..])
  }

  /** s without its leading slashes. */
  function Skip(s: string): (r: string)
    ensures |r| <= |s|
  {
    if s != "" && s[0] == '/' then Skip(s[1..]) else s
  }

  lemma {:induction false} NameLenParts(s: string)
    ensures NameLen(s) < |s| ==> s[NameLen(s)] == '/'
    ensures forall i | 0 <= i < NameLen(s) :: s[i] != '/'
  {
    if s != "" && s[0] != '/' {
      NameLenParts(s[1..]);
      forall i | 0 <= i < NameLen(s) ensures s[i] != '/' {
        if i > 0 { assert s[i] == s[1..][i - 1]; }
      }
    }
  }

  function First(s: string): string {
    s[..NameLen(s)]
  }

  function Rest(s: string): string {
    Skip(s[NameLen(s)..])
  }

  /** The parts of a path between its slashes. */
  function Components(s: string): seq<string>
    decreases |s|
  {
    if s == "" then []
    else if s[0] == '/' then Components(Skip(s))
    else [First(s)] + Components(Rest(s))
  }

  /** What is left of a path from position i on. */
  function From(path: string, i: nat): string
    requires i <= |path|
  {
    path[i..]
  }

  predicate Absolute(s: string) {
    s != "" && s[0] == '/'
  }

  /** The directory reached so far: names from the root, or from nowhere once the root has been left. */
  datatype Place = Place(rooted: bool, names: seq<string>)

  /** One component: "." stays, ".." drops the last name, then the root itself, and then fails. */
  function Enter(p: Place, c: string): Option<Place> {
    if c == "." then Some(p)
    else if c != ".." then Some(p.(names := p.names + [c]))
    else if p.names != [] then Some(p.(names := p.names[..|p.names| - 1]))
    else if p.rooted then Some(p.(rooted := false))
    else None
  }

  function Walk(p: Place, cs: seq<string>): Option<Place>
    decreases |cs|
  {
    if cs == [] then Some(p) else
    match Enter(p, cs[0])
    case None => None
    case Some(q) => Walk(q, cs[1..])
  }

  function Slashed(names: seq<string>): string {
    if names == [] then "" else Slashed(names[..|names| - 1]) + names[|names| - 1] + "/"
  }

  function Join(names: seq<string>): string {
    if names == [] then ""
    else if |names| == 1 then names[0]
    else Join(names[..|names| - 1]) + "/" + names[|names| - 1]
  }

  function Text(p: Place): string {
    (if p.rooted then "/" else "") + Slashed(p.names)
  }

  /** NoPath is the NULL result; StrayRead stands for the read in front of an empty buffer. */
  datatype Outcome = Normal(path: string) | NoPath | StrayRead

  function Shown(p: Place): Outcome {
    if p.rooted then Normal("/" + Join(p.names))
    else if p.names == [] then StrayRead
    else Normal(Join(p.names))
  }

  /** What is left to do at place p with s still to read. */
  function Resume(p: Place, s: string): Outcome {
    match Walk(p, Components(s))
    case None => NoPath
    case Some(q) => Shown(q)
  }

  function Meaning(s: string): Outcome {
    Resume(Place(Absolute(s), []), s)
  }

  // ----- Steps of the rewrite -----

  lemma ResumeEnd(p: Place)
    ensures Resume(p, "") == Shown(p)
  {
  }

  lemma ResumeSlash(p: Place, s: string)
    requires Absolute(s)
    ensures Resume(p, s) == Resume(p, Skip(s))
  {
  }

  lemma ResumeName(p: Place, s: string)
    requires s != "" && s[0] != '/'
    ensures Resume(p, s) == match Enter(p, First(s)) case None => NoPath case Some(q) => Resume(q, Rest(s))
  {
    hide Enter, First, Rest;
    var cs := Components(s);
    assert cs == [First(s)] + Components(Rest(s));
    assert cs[1..] == Components(Rest(s));
  }

  /** Names are what may stand between two slashes. */
  ghost predicate Proper(names: seq<string>) {
    forall i | 0 <= i < |names| :: names[i] != "" && '/' !in names[i]
  }

  lemma SlashedLast(names: seq<string>, n: string)
    ensures Slashed(names + [n]) == Slashed(names) + n + "/"
  {
    assert (names + [n])[..|names|] == names;
  }

  lemma {:induction false} SlashedJoin(names: seq<string>)
    requires names != []
    ensures Slashed(names) == Join(names) + "/"
  {
    if |names| > 1 {
      SlashedJoin(names[..|names| - 1]);
    } else {
      assert Slashed(names[..0]) == "";
    }
  }

  /** Text ends with a slash unless it is empty. */
  lemma TextEnd(p: Place)
    ensures Text(p) == "" <==> !p.rooted && p.names == []
    ensures Text(p) != "" ==> Text(p)[|Text(p)| - 1] == '/'
    ensures |Text(p)| == 1 && Proper(p.names) ==> p.rooted && p.names == []
  {
  }

  /** Going up one name shortens the text to the slash before it. */
  lemma TextUp(p: Place)
    requires p.names != []
    ensures var n := p.names[|p.names| - 1];
            Text(p) == Text(p.(names := p.names[..|p.names| - 1])) + n + "/"
  {
  }

  lemma SkipStep(path: string, src: nat)
    requires src <= |path|
    ensures Skip(From(path, src)) == if src < |path| && path[src] == '/' then Skip(From(path, src + 1))
            else From(path, src)
  {
    if src < |path| { assert From(path, src)[1..] == From(path, src + 1); }
  }

  lemma NameStep(path: string, src: nat)
    requires src <= |path|
    ensures NameLen(From(path, src)) == if src == |path| || path[src] == '/' then 0
            else 1 + NameLen(From(path, src + 1))
  {
    if src < |path| { assert From(path, src)[1..] == From(path, src + 1); }
  }

  class Buffer {
    const buf: array<char>

    constructor (path: string)
      ensures fresh(buf) && buf.Length == |path| + 1 && buf[..|path|] == path && buf[|path|] == NUL
    {
      buf := new char[|path| + 1](i requires 0 <= i <= |path| => if i < |path| then path[i] else NUL);
    }

    /** From src on, the buffer still holds the path. */
    ghost predicate Unread(path: string, src: nat)
      reads buf
    {
      && src <= |path| && buf.Length == |path| + 1 && NUL !in path && buf[|path|] == NUL
      && forall i | src <= i < |path| :: buf[i] == path[i]
    }

    lemma PeekIs(path: string, src: nat, i: nat)
      requires Unread(path, src) && src <= i <= |path|
      ensures buf[i] == if i < |path| then path[i] else NUL
      ensures (i < |path| ==> path[i] != NUL) && NUL == '\0'
    {
    }

    method SkipSlashes(path: string, from: nat) returns (src: nat)
      requires Unread(path, from)
      ensures from <= src <= |path| && Skip(From(path, from)) == From(path, src)
    {
      hide Skip;
      src := from;
      PeekIs(path, from, src);
      while buf[src] == '/'
        invariant from <= src <= |path| && Skip(From(path, from)) == Skip(From(path, src))
        invariant buf[src] == if src < |path| then path[src] else NUL
        decreases |path| - src
      {
        SkipStep(path, src);
        src := src + 1;
        PeekIs(path, from, src);
      }
      SkipStep(path, src);
    }

    /** Copy up to the next slash or the end. */
    method CopyName(path: string, from: nat, to: nat) returns (src: nat, dst: nat)
      requires Unread(path, from) && to <= from
      modifies buf
      ensures src == from + NameLen(From(path, from)) && dst == to + NameLen(From(path, from)) && Unread(path, src)
      ensures src < |path| ==> path[src] == '/'
      ensures dst <= src
      ensures buf[..dst] == old(buf[..to]) + First(From(path, from))
    {
      hide NameLen;
      src, dst := from, to;
      PeekIs(path, src, src);
      while buf[src] != NUL && buf[src] != '/'
        invariant from <= src <= |path| && dst == to + (src - from) && Unread(path, src)
        invariant NameLen(From(path, from)) == (src - from) + NameLen(From(path, src))
        invariant buf[src] == if src < |path| then path[src] else NUL
        invariant buf[..dst] == old(buf[..to]) + path[from..src]
        decreases |path| - src
      {
        NameStep(path, src);
        assert path[from..src + 1] == path[from..src] + [path[src]];
        buf[dst] := buf[src];
        assert buf[..dst + 1] == buf[..dst] + [path[src]];
        src, dst := src + 1, dst + 1;
        PeekIs(path, src, src);
      }
      NameStep(path, src);
      assert path[from..src] == First(From(path, from));
    }

    /** up_one: back over the last name, to just after the slash before it. */
    method UpOne(to: nat, ghost p: Place) returns (ok: bool, dst: nat)
      requires to <= buf.Length && buf[..to] == Text(p) && Proper(p.names)
      ensures ok <==> Enter(p, "..").Some?
      ensures ok ==> dst <= to && buf[..dst] == Text(Enter(p, "..").value)
    {
      hide Text, Slashed;
      TextEnd(p);
      assert forall i | 0 <= i < to :: buf[i] == Text(p)[i];
      dst := 0;
      if to == 0 { return false, dst; }
      ok := true;
      dst := to - 1;
      ghost var q := Enter(p, "..").value;
      if p.names != [] { TextUp(p); }
      UpText(p);
      TextEnd(q);
      assert Text(q) != "" ==> buf[|Text(q)| - 1] == '/' by {
        assert Text(q) != "" ==> Text(p)[..|Text(q)|][|Text(q)| - 1] == '/';
      }
      while 0 < dst && buf[dst - 1] != '/'
        invariant |Text(q)| <= dst < to
        decreases dst
      {
        dst := dst - 1;
      }
      if dst > |Text(q)| {
        NameHasNoSlash(p, dst - 1);
      }
      assert buf[..dst] == buf[..to][..dst];
    }

    /** Between two components: what has been read is in the buffer as p's text. */
    ghost predicate Between(path: string, src: nat, dst: nat, p: Place)
      reads buf
    {
      Unread(path, src) && dst <= src && buf[..dst] == Text(p) && At(path, src, p)
    }

    lemma BetweenParts(path: string, src: nat, dst: nat, p: Place)
      requires Between(path, src, dst, p)
      ensures Unread(path, src) && src <= |path| && buf.Length == |path| + 1 && dst <= src && buf[..dst] == Text(p)
              && At(path, src, p)
      ensures src < |path| ==> path[src] != NUL
    {
    }

    lemma BetweenFrom(path: string, src: nat, dst: nat, p: Place)
      requires Unread(path, src) && dst <= src && dst <= buf.Length && buf[..dst] == Text(p) && At(path, src, p)
      ensures Between(path, src, dst, p) && buf.Length == |path| + 1 && buf[|path|] == NUL
    {
    }

    /** Keep one of a run of slashes. */
    method PutSlash(path: string, from: nat, to: nat) returns (src: nat, dst: nat)
      requires Unread(path, from) && to <= from < |path| && path[from] == '/'
      modifies buf
      ensures dst == to + 1 <= buf.Length && buf[..dst] == old(buf[..to]) + "/"
      ensures from < src <= |path| && Unread(path, src) && Skip(From(path, from)) == From(path, src)
    {
      hide Skip, From, NameLen;
      buf[to] := '/';
      dst := to + 1;
      assert buf[..dst] == old(buf[..to]) + "/";
      SkipStep(path, from);
      src := SkipSlashes(path, from + 1);
    }

    /** Copy up to the next slash and skip it; at the end of the path the rewrite is over. */
    method CopyStep(path: string, from: nat, to: nat, ghost p: Place)
      returns (open: bool, src: nat, dst: nat, ghost q: Place)
      requires Between(path, from, to, p)
      requires First(From(path, from)) != "." && First(From(path, from)) != ".."
      modifies buf
      ensures open ==> from < src && Between(path, src, dst, q)
      ensures !open ==> dst <= |path| && Finish(buf[..dst]) == Meaning(path)
      ensures buf.Length == |path| + 1 && buf[|path|] == NUL
    {
      hide *;
      BetweenParts(path, from, to, p);
      FirstParts(path, from);
      src, dst := CopyName(path, from, to);
      PeekIs(path, src, |path|);
      PeekIs(path, src, src);
      q := p;
      open := buf[src] == '/';
      if open {
        src, dst := PutSlash(path, src, dst);
        q := StepOn(path, from, p, src);
        BetweenFrom(path, src, dst, q);
      } else {
        StepEnd(path, from, p);
      }
    }

    /** Whether the component at from is "." (1), ".." (2) or neither (0). */
    method DotsAhead(path: string, from: nat) returns (dots: nat)
      requires Unread(path, from)
      ensures dots == DotsAt(path, from)
      ensures from + dots <= |path|
    {
      PeekIs(path, from, from);
      dots := 0;
      if buf[from] == '.' {
        PeekIs(path, from, from + 1);
        if buf[from + 1] == NUL || buf[from + 1] == '/' {
          dots := 1;
        } else if buf[from + 1] == '.' {
          PeekIs(path, from, from + 2);
          if buf[from + 2] == NUL || buf[from + 2] == '/' { dots := 2; }
        }
      }
    }

    /** One pass of the loop; gone is set when ".." leads out of the path. */
    method Component(path: string, from: nat, to: nat, ghost p: Place)
      returns (open: bool, gone: bool, src: nat, dst: nat, ghost q: Place)
      requires Between(path, from, to, p)
      modifies buf
      ensures buf.Length == |path| + 1 && buf[|path|] == NUL
      ensures gone ==> Meaning(path) == NoPath
      ensures !gone && open ==> from < src <= |path| && Between(path, src, dst, q)
      ensures !gone && !open ==> dst <= |path| && Finish(buf[..dst]) == Meaning(path)
    {
      hide *;
      BetweenParts(path, from, to, p);
      PeekIs(path, from, |path|);
      var dots := DotsAhead(path, from);
      DotsMean(path, from);
      gone := false;
      if dots == 0 {
        open, src, dst, q := CopyStep(path, from, to, p);
        if open { BetweenParts(path, src, dst, q); }
      } else {
        open, q, dst := true, p, to;
        src := SkipDots(path, from, dots);
        if dots == 2 {
          AtProper(path, from, p);
          UpStep(path, from, p, src);
          var ok;
          ok, dst := UpOne(to, p);
          gone := !ok;
          if ok {
            q := Enter(p, "..").value;
            BetweenFrom(path, src, dst, q);
          }
        } else {
          DotStep(path, from, p, src);
          BetweenFrom(path, src, dst, q);
        }
      }
    }

    /** Past the dots and the slashes after them. */
    method SkipDots(path: string, from: nat, dots: nat) returns (src: nat)
      requires Unread(path, from) && 0 < dots == NameLen(From(path, from)) && from + dots <= |path|
      ensures from < src <= |path| && From(path, src) == Rest(From(path, from)) && Unread(path, src)
    {
      hide *;
      FirstParts(path, from);
      UnreadLater(path, from, from + dots);
      src := SkipSlashes(path, from + dots);
      UnreadLater(path, from, src);
    }

    lemma UnreadLater(path: string, from: nat, src: nat)
      requires Unread(path, from) && from <= src <= |path|
      ensures Unread(path, src)
    {
    }

    /**
     * dfs_normalize_path, on the copy of the path it owns.  indices lists the read and the write index
     * before each component: writing never overtakes reading.
     */
    method Normalize(path: string) returns (r: Outcome, ghost indices: seq<(nat, nat)>)
      requires buf.Length == |path| + 1 && buf[..|path|] == path && buf[|path|] == NUL && NUL !in path
      modifies buf
      ensures r == Meaning(path)
      ensures r.Normal? ==> |r.path| <= |path| && buf[..|r.path|] == r.path && buf[|r.path|] == NUL
      ensures |indices| > 0 && forall i | 0 <= i < |indices| :: indices[i].1 <= indices[i].0 <= |path|
    {
      hide *;
      StartBetween(path);
      var src: nat, dst: nat := 0, 0;
      var open := true;
      ghost var p := Place(false, []);
      indices := [(src, dst)];
      while open
        invariant |indices| > 0 && forall i | 0 <= i < |indices| :: indices[i].1 <= indices[i].0 <= |path|
        invariant src <= |path| && buf.Length == |path| + 1 && buf[|path|] == NUL
        invariant open ==> Between(path, src, dst, p)
        invariant !open ==> dst <= |path| && Finish(buf[..dst]) == Meaning(path)
        decreases |path| - src + (if open then 1 else 0)
      {
        var gone, next;
        open, gone, next, dst, p := Component(path, src, dst, p);
        if gone { return NoPath, indices; }
        if open {
          src := next;
          BetweenParts(path, src, dst, p);
          indices := indices + [(src, dst)];
        }
      }
      FinishIs(buf[..dst]);
      if dst == 0 { return StrayRead, indices; }
      buf[dst] := NUL;
      var end := dst;
      if dst - 1 != 0 && buf[dst - 1] == '/' {
        end := dst - 1;
        buf[end] := NUL;
      }
      r := Normal(buf[..end]);
    }

    lemma StartBetween(path: string)
      requires buf.Length == |path| + 1 && buf[..|path|] == path && buf[|path|] == NUL && NUL !in path
      ensures Between(path, 0, 0, Place(false, []))
    {
      assert forall i | 0 <= i < |path| :: buf[i] == buf[..|path|][i];
    }
  }

  lemma FinishIs(t: string)
    ensures t == "" ==> Finish(t) == StrayRead
    ensures t != "" ==> Finish(t) == Normal(if |t| >= 2 && t[|t| - 1] == '/' then t[..|t| - 1] else t)
  {
  }

  /** The number of dots of a "." or ".." component at from. */
  ghost function DotsAt(path: string, from: nat): nat
    requires from <= |path|
  {
    if from < |path| && path[from] == '.' then
      if from + 1 == |path| || path[from + 1] == '/' then 1
      else if path[from + 1] == '.' && (from + 2 == |path| || path[from + 2] == '/') then 2
      else 0
    else 0
  }

  lemma DotsMean(path: string, from: nat)
    requires from <= |path|
    ensures DotsAt(path, from) == 1 ==> First(From(path, from)) == "."
    ensures DotsAt(path, from) == 2 ==> First(From(path, from)) == ".."
    ensures DotsAt(path, from) == 0 ==> First(From(path, from)) != "." && First(From(path, from)) != ".."
    ensures DotsAt(path, from) != 0 ==> NameLen(From(path, from)) == DotsAt(path, from)
    ensures DotsAt(path, from) in {0, 1, 2}
  {
    hide NameLen;
    NameStep(path, from);
    if from < |path| && path[from] == '.' {
      NameStep(path, from + 1);
      if from + 1 < |path| {
        NameStep(path, from + 2);
      }
    }
    var n := NameLen(From(path, from));
    assert n > 0 ==> First(From(path, from))[0] == path[from];
    assert n > 1 ==> First(From(path, from))[1] == path[from + 1];
    if DotsAt(path, from) == 2 { assert First(From(path, from)) == [path[from], path[from + 1]]; }
  }

  lemma AtProper(path: string, from: nat, p: Place)
    requires At(path, from, p)
    ensures Proper(p.names)
  {
  }

  lemma DotStep(path: string, from: nat, p: Place, to: nat)
    requires At(path, from, p) && First(From(path, from)) == "." && from < to <= |path|
             && From(path, to) == Rest(From(path, from))
    ensures At(path, to, p)
  {
    hide *;
    FirstParts(path, from);
    SkipParts(From(path, from + NameLen(From(path, from))));
    AtResume(path, from, p);
    ResumeName(p, From(path, from));
    EnterDots(p);
    AtPlace(path, to, p);
  }

  /** ".." goes up, or ends the walk. */
  lemma UpStep(path: string, from: nat, p: Place, to: nat)
    requires At(path, from, p) && First(From(path, from)) == ".." && from < to <= |path|
             && From(path, to) == Rest(From(path, from))
    ensures match Enter(p, "..") case None => Meaning(path) == NoPath case Some(q) => At(path, to, q)
  {
    hide *;
    FirstParts(path, from);
    SkipParts(From(path, from + NameLen(From(path, from))));
    AtResume(path, from, p);
    ResumeName(p, From(path, from));
    if Enter(p, "..").Some? {
      EnterDots(p);
      AtPlace(path, to, Enter(p, "..").value);
    }
  }

  lemma EnterDots(p: Place)
    ensures Enter(p, ".") == Some(p)
    ensures Enter(p, "..").Some? && Proper(p.names) ==> Proper(Enter(p, "..").value.names)
  {
  }

  lemma AtPlace(path: string, to: nat, p: Place)
    requires Proper(p.names) && 0 < to <= |path| && (From(path, to) != "" ==> From(path, to)[0] != '/')
    requires Resume(p, From(path, to)) == Meaning(path)
    ensures At(path, to, p)
  {
    hide Resume, Meaning;
  }

  /** Before component src of the path, the walk has reached p. */
  ghost predicate At(path: string, src: nat, p: Place) {
    && src <= |path| && Proper(p.names)
    && (if src == 0 then p == Place(false, [])
        else (src < |path| ==> path[src] != '/') && Resume(p, From(path, src)) == Meaning(path))
  }

  lemma AtResume(path: string, src: nat, p: Place)
    requires At(path, src, p) && (src < |path| ==> path[src] != '/')
    ensures Resume(p, From(path, src)) == Meaning(path) && Proper(p.names)
  {
    hide Resume;
    if src == 0 { assert From(path, src) == path; }
  }

  lemma FirstParts(path: string, from: nat)
    requires from <= |path|
    ensures |First(From(path, from))| == NameLen(From(path, from)) <= |path| - from
    ensures From(path, from + NameLen(From(path, from))) == From(path, from)[NameLen(From(path, from))..]
    ensures Rest(From(path, from)) == Skip(From(path, from + NameLen(From(path, from))))
    ensures '/' !in First(From(path, from)) && (First(From(path, from)) == "" ==> from == |path| || path[from] == '/')
    ensures First(From(path, from)) != "" ==>
              From(path, from) != "" && From(path, from)[0] != '/' && from < |path| && path[from] != '/'
  {
    hide NameLen, Skip;
    NameLenParts(From(path, from));
    NameStep(path, from);
    assert From(path, from + NameLen(From(path, from))) == From(path, from)[NameLen(From(path, from))..];
  }

  /** A name, or the leading slashes, with more to come after a slash. */
  lemma StepOn(path: string, from: nat, p: Place, to: nat) returns (q: Place)
    requires At(path, from, p) && from + NameLen(From(path, from)) < |path| && from < to <= |path|
    requires From(path, to) == Skip(From(path, from + NameLen(From(path, from))))
    requires First(From(path, from)) != "." && First(From(path, from)) != ".."
    ensures Text(q) == Text(p) + First(From(path, from)) + "/" && At(path, to, q)
  {
    hide *;
    FirstParts(path, from);
    var n := First(From(path, from));
    SkipParts(From(path, from + NameLen(From(path, from))));
    if n != "" {
      q := p.(names := p.names + [n]);
      AtResume(path, from, p);
      ResumeName(p, From(path, from));
      EnterName(p, n);
      TextPush(p, n);
      ProperPush(p.names, n);
      AtPlace(path, to, q);
    } else {
      q := Place(true, []);
      LeadingSlash(path, from, p);
      AtRoot();
      AtPlace(path, to, q);
    }
  }

  lemma ProperPush(names: seq<string>, n: string)
    requires Proper(names) && n != "" && '/' !in n
    ensures Proper(names + [n])
  {
  }

  lemma AtRoot()
    ensures Proper([])
  {
  }

  lemma SkipParts(s: string)
    ensures Skip(s) != "" ==> Skip(s)[0] != '/'
  {
  }

  lemma LeadingSlash(path: string, from: nat, p: Place)
    requires At(path, from, p) && from < |path| && path[from] == '/'
    ensures from == 0 && Text(Place(true, [])) == Text(p) + "" + "/"
    ensures Resume(Place(true, []), Skip(path)) == Meaning(path) && NameLen(path) == 0 && From(path, 0) == path
  {
    hide Resume;
    ResumeSlash(Place(true, []), path);
  }

  lemma TextPush(p: Place, n: string)
    ensures Text(p.(names := p.names + [n])) == Text(p) + n + "/"
  {
    SlashedLast(p.names, n);
  }

  /** The last component, or nothing, before the end. */
  lemma StepEnd(path: string, from: nat, p: Place)
    requires At(path, from, p) && from + NameLen(From(path, from)) == |path|
    requires First(From(path, from)) != "." && First(From(path, from)) != ".."
    ensures Finish(Text(p) + First(From(path, from))) == Meaning(path)
  {
    hide *;
    FirstParts(path, from);
    AtResume(path, from, p);
    FromEnd(path);
    SkipNothing();
    var n := First(From(path, from));
    if n != "" {
      ResumeName(p, From(path, from));
      EnterName(p, n);
      ResumeEnd(p.(names := p.names + [n]));
      FinishName(p, n);
    } else {
      ResumeEnd(p);
      FinishText(p);
      assert Text(p) + n == Text(p);
    }
  }

  lemma FromEnd(path: string)
    ensures From(path, |path|) == ""
  {
  }

  lemma SkipNothing()
    ensures Skip("") == ""
  {
  }

  lemma EnterName(p: Place, c: string)
    requires c != "." && c != ".."
    ensures Enter(p, c) == Some(p.(names := p.names + [c]))
  {
  }

  /** The end of the rewrite: drop a trailing slash, unless it is the root. */
  function Finish(t: string): Outcome {
    if t == "" then StrayRead
    else if |t| >= 2 && t[|t| - 1] == '/' then Normal(t[..|t| - 1])
    else Normal(t)
  }

  lemma FinishText(p: Place)
    requires Proper(p.names)
    ensures Finish(Text(p)) == Shown(p)
  {
    TextEnd(p);
    if p.names != [] {
      SlashedJoin(p.names);
      assert Text(p) == (if p.rooted then "/" else "") + Join(p.names) + "/";
      var n := p.names[|p.names| - 1];
      assert |Join(p.names)| >= |n| > 0;
    }
  }

  lemma JoinLast(names: seq<string>, n: string)
    ensures Join(names + [n]) == Slashed(names) + n
  {
    assert (names + [n])[..|names|] == names;
    if names != [] { SlashedJoin(names); }
  }

  lemma FinishName(p: Place, n: string)
    requires n != "" && '/' !in n
    ensures Finish(Text(p) + n) == Shown(p.(names := p.names + [n]))
  {
    hide Slashed, Join;
    var root := if p.rooted then "/" else "";
    JoinLast(p.names, n);
    var t := Text(p) + n;
    assert t == root + Join(p.names + [n]);
    assert t[|t| - 1] == n[|n| - 1];
  }

  /** What going up does to the text. */
  lemma UpText(p: Place)
    requires Text(p) != ""
    ensures Enter(p, "..").Some?
    ensures var q := Enter(p, "..").value; |Text(q)| < |Text(p)| && Text(p)[..|Text(q)|] == Text(q)
  {
    if p.names != [] { TextUp(p); }
  }

  lemma NameHasNoSlash(p: Place, i: nat)
    requires Text(p) != "" && Proper(p.names) && Enter(p, "..").Some?
    requires |Text(Enter(p, "..").value)| <= i < |Text(p)| - 1
    ensures Text(p)[i] != '/'
  {
    if p.names != [] {
      TextUp(p);
      var n := p.names[|p.names| - 1];
      var t := Text(Enter(p, "..").value);
      assert Text(p)[i] == n[i - |t|];
    }
  }

  // ----- What normalising means -----

  function Ups(cs: seq<string>): nat {
    if cs == [] then 0 else (if cs[0] == ".." then 1 else 0) + Ups(cs[1..])
  }

  function Names(cs: seq<string>): nat {
    if cs == [] then 0 else (if cs[0] != "." && cs[0] != ".." then 1 else 0) + Names(cs[1..])
  }

  /** No prefix of cs goes up more often than it goes down, starting d names below the root. */
  ghost predicate Balanced(d: nat, cs: seq<string>) {
    forall k | 0 <= k <= |cs| :: Ups(cs[..k]) <= d + Names(cs[..k])
  }

  /** The component stack. */
  function Resolve(names: seq<string>, cs: seq<string>): seq<string>
    decreases |cs|
  {
    if cs == [] then names
    else if cs[0] == "." then Resolve(names, cs[1..])
    else if cs[0] != ".." then Resolve(names + [cs[0]], cs[1..])
    else Resolve(if names == [] then [] else names[..|names| - 1], cs[1..])
  }

  lemma PrefixCounts(cs: seq<string>, k: nat)
    requires 0 < k <= |cs|
    ensures Ups(cs[..k]) == (if cs[0] == ".." then 1 else 0) + Ups(cs[1..][..k - 1])
    ensures Names(cs[..k]) == (if cs[0] != "." && cs[0] != ".." then 1 else 0) + Names(cs[1..][..k - 1])
  {
    assert cs[..k][1..] == cs[1..][..k - 1];
  }

  function Deeper(d: nat, c: string): int {
    if c == "." then d else if c == ".." then d - 1 else d + 1
  }

  lemma BalancedStep(d: nat, cs: seq<string>)
    requires cs != []
    ensures Balanced(d, cs) <==> Deeper(d, cs[0]) >= 0 && Balanced(Deeper(d, cs[0]), cs[1..])
  {
    hide Ups, Names;
    CountsOfNone(cs);
    CountsOfNone(cs[1..]);
    PrefixCounts(cs, 1);
    if Balanced(d, cs) {
      assert Ups(cs[..1]) <= d + Names(cs[..1]);
      forall k | 0 <= k <= |cs| - 1 ensures Ups(cs[1..][..k]) <= Deeper(d, cs[0]) + Names(cs[1..][..k]) {
        PrefixCounts(cs, k + 1);
        assert Ups(cs[..k + 1]) <= d + Names(cs[..k + 1]);
      }
    }
    if Deeper(d, cs[0]) >= 0 && Balanced(Deeper(d, cs[0]), cs[1..]) {
      forall k | 0 <= k <= |cs| ensures Ups(cs[..k]) <= d + Names(cs[..k]) {
        if k > 0 {
          PrefixCounts(cs, k);
          assert Ups(cs[1..][..k - 1]) <= Deeper(d, cs[0]) + Names(cs[1..][..k - 1]);
        }
      }
    }
  }

  lemma CountsOfNone(cs: seq<string>)
    ensures Ups(cs[..0]) == Names(cs[..0]) == 0
  {
  }

  /** The walk from the root stays rooted exactly on balanced components, and then it is the component stack. */
  lemma {:induction false} WalkRooted(names: seq<string>, cs: seq<string>)
    ensures var w := Walk(Place(true, names), cs);
            if Balanced(|names|, cs) then w == Some(Place(true, Resolve(names, cs))) else w == None || !w.value.rooted
    decreases |cs|
  {
    hide Balanced;
    if cs == [] {
      BalancedNothing(|names|);
    } else {
      BalancedStep(|names|, cs);
      match Enter(Place(true, names), cs[0])
      case None =>
      case Some(q) =>
        if q.rooted { WalkRooted(q.names, cs[1..]); } else { WalkLost(q, cs[1..]); }
    }
  }

  lemma BalancedNothing(d: nat)
    ensures Balanced(d, [])
  {
    CountsOfNone([]);
  }

  /** Once lost, the root does not come back. */
  lemma {:induction false} WalkLost(p: Place, cs: seq<string>)
    requires !p.rooted
    ensures Walk(p, cs) == None || !Walk(p, cs).value.rooted
    decreases |cs|
  {
    if cs != [] {
      match Enter(p, cs[0])
      case None =>
      case Some(q) => WalkLost(q, cs[1..]);
    }
  }

  /** A name a normal path may contain. */
  ghost predicate Plain(names: seq<string>) {
    Proper(names) && forall i | 0 <= i < |names| :: names[i] != "." && names[i] != ".."
  }

  lemma ComponentsStep(s: string)
    ensures Components(s) == if s == "" then [] else if s[0] == '/' then Components(Skip(s))
            else [First(s)] + Components(Rest(s))
  {
    hide First, Rest, Skip;
  }

  lemma {:induction false} ComponentsProper(s: string)
    ensures Proper(Components(s))
    decreases |s|
  {
    hide *;
    ComponentsStep(s);
    AtRoot();
    if s != "" {
      if s[0] == '/' {
        ShorterSkip(s);
        ComponentsProper(Skip(s));
      } else {
        RestShorter(s);
        ComponentsProper(Rest(s));
        ProperFront(First(s), Components(Rest(s)));
      }
    }
  }

  lemma ProperFront(n: string, names: seq<string>)
    requires Proper(names) && n != "" && '/' !in n
    ensures Proper([n] + names)
  {
  }

  lemma ShorterSkip(s: string)
    requires s != "" && s[0] == '/'
    ensures |Skip(s)| < |s|
  {
  }

  lemma RestShorter(s: string)
    requires s != "" && s[0] != '/'
    ensures |Rest(s)| < |s| && First(s) != "" && '/' !in First(s)
  {
    NameLenParts(s);
  }

  lemma {:induction false} WalkPlain(p: Place, cs: seq<string>)
    requires Plain(p.names) && Proper(cs)
    ensures Walk(p, cs).Some? ==> Plain(Walk(p, cs).value.names)
    decreases |cs|
  {
    if cs != [] {
      match Enter(p, cs[0])
      case None =>
      case Some(q) => WalkPlain(q, cs[1..]);
    }
  }

  /** Join(names) with the first name in front. */
  lemma {:induction false} JoinFirst(names: seq<string>)
    requires names != []
    ensures Join(names) == names[0] + (if |names| == 1 then "" else "/" + Join(names[1..]))
    decreases |names|
  {
    if |names| > 2 {
      var front, n := names[..|names| - 1], names[|names| - 1];
      JoinFirst(front);
      assert front[1..] == names[1..][..|names| - 2];
      assert names[1..][|names| - 2] == n;
    } else if |names| == 2 {
      assert Join(names[..1]) == names[0];
      assert names[1..] == [names[1]];
    }
  }

  /** Splitting undoes joining. */
  lemma {:induction false} ComponentsOfJoin(names: seq<string>)
    requires Proper(names)
    ensures Components(Join(names)) == names
    ensures names != [] ==> Join(names) != "" && Join(names)[0] != '/'
    decreases |names|
  {
    hide *;
    ComponentsStep(Join(names));
    if names == [] {
      JoinNothing();
    } else {
      ProperRest(names);
      ComponentsOfJoin(names[1..]);
      JoinNothing();
      JoinSplit(names);
      assert names == [names[0]] + names[1..];
    }
  }

  lemma JoinSplit(names: seq<string>)
    requires Proper(names) && names != [] && (Join(names[1..]) != "" ==> Join(names[1..])[0] != '/')
    ensures var s := Join(names);
            s != "" && s[0] != '/' && First(s) == names[0] && Rest(s) == Join(names[1..])
  {
    hide *;
    JoinFirst(names);
    JoinNothing();
    ProperFirst(names);
    if |names| == 1 {
      FirstOf(names[0], "");
      SkipNothing();
      assert names[1..] == [];
    } else {
      var tail := "/" + Join(names[1..]);
      FirstOf(names[0], tail);
      SlashThen(tail, Join(names[1..]));
    }
  }

  lemma ProperFirst(names: seq<string>)
    requires Proper(names) && names != []
    ensures names[0] != "" && '/' !in names[0]
  {
  }

  lemma FirstOf(n: string, tail: string)
    requires n != "" && '/' !in n && (tail != "" ==> tail[0] == '/')
    ensures var s := n + tail; s != "" && s[0] != '/' && First(s) == n && Rest(s) == Skip(tail)
  {
    hide NameLen, Skip;
    var s := n + tail;
    NameLenIs(s, |n|);
    assert s[..|n|] == n && s[|n|..] == tail;
  }

  lemma SlashThen(s: string, t: string)
    requires s == "/" + t && (t != "" ==> t[0] != '/')
    ensures Skip(s) == t
  {
    hide Skip;
    SkipStep(s, 0);
    SkipStep(s, 1);
    assert s[0..] == s && s[1..] == t;
  }

  lemma JoinNothing()
    ensures Join([]) == ""
  {
  }

  lemma ProperRest(names: seq<string>)
    requires Proper(names) && names != []
    ensures Proper(names[1..])
  {
  }

  lemma {:induction false} NameLenIs(s: string, n: nat)
    requires n <= |s| && (forall i | 0 <= i < n :: s[i] != '/') && (n < |s| ==> s[n] == '/')
    ensures NameLen(s) == n
  {
    if n > 0 { NameLenIs(s[1..], n - 1); }
  }

  lemma {:induction false} WalkStays(p: Place, cs: seq<string>)
    requires Plain(cs)
    ensures Walk(p, cs) == Some(Place(p.rooted, p.names + cs))
    decreases |cs|
  {
    if cs == [] {
      assert p.names + cs == p.names;
    } else {
      WalkStays(p.(names := p.names + [cs[0]]), cs[1..]);
      assert p.names + [cs[0]] + cs[1..] == p.names + cs;
    }
  }

  /** Showing a place and reading it back. */
  lemma ShownMeansItself(p: Place)
    requires Plain(p.names) && Shown(p).Normal?
    ensures Meaning(Shown(p).path) == Shown(p)
    ensures Absolute(Shown(p).path) <==> p.rooted
  {
    hide Walk, Join, Skip;
    var r := Shown(p).path;
    JoinNothing();
    ComponentsOfJoin(p.names);
    WalkStays(Place(p.rooted, []), p.names);
    if p.rooted {
      SlashThen(r, Join(p.names));
    }
    assert Components(r) == p.names;
    assert [] + p.names == p.names;
  }

  /**
   * An absolute path in which no prefix has more ".." than names normalises to "/" and its component
   * stack; every other absolute path loses its root: the result is missing or not absolute.
   */
  lemma NormalForm(s: string)
    requires Absolute(s)
    ensures Balanced(0, Components(s)) ==>
              var names := Resolve([], Components(s));
              Meaning(s) == Normal("/" + Join(names)) && Plain(names)
    ensures !Balanced(0, Components(s)) ==> !(Meaning(s).Normal? && Absolute(Meaning(s).path))
  {
    hide Walk, Components, Balanced, Join, Resolve;
    var cs := Components(s);
    WalkRooted([], cs);
    ComponentsProper(s);
    WalkPlain(Place(true, []), cs);
    var w := Walk(Place(true, []), cs);
    if !Balanced(0, cs) && w.Some? && Shown(w.value).Normal? {
      ShownMeansItself(w.value);
    }
  }

  /** Normalising a normalised path changes nothing. */
  lemma Idempotent(s: string)
    requires Meaning(s).Normal?
    ensures Meaning(Meaning(s).path) == Meaning(s)
  {
    hide Walk, Components, Join;
    var cs := Components(s);
    var p := Place(Absolute(s), []);
    ComponentsProper(s);
    WalkPlain(p, cs);
    ShownMeansItself(Walk(p, cs).value);
  }

  /** ".." at the root: a relative result, a stray read, no result. */
  lemma RootLost()
    ensures Meaning("/../a") == Normal("a") && Meaning("/..") == StrayRead && Meaning("/../..") == NoPath
  {
    hide *;
    SmallJoins();
    RootedMeaning(["..", "a"]);
    RootedMeaning([".."]);
    RootedMeaning(["..", ".."]);
    WalkUp();
    ShownUp();
  }

  /** A component ends at the next slash, and any number of slashes is as good as one. */
  lemma PartsOf(n: string, gap: string, rest: string)
    requires n != "" && '/' !in n && gap != "" && forall i | 0 <= i < |gap| :: gap[i] == '/'
    ensures Components(n + gap + rest) == [n] + Components(rest) && Components(gap + rest) == Components(rest)
    ensures Components(n) == [n]
  {
    hide *;
    NameEnds(n, "");
    assert n + "" == n;
    NameEnds(n, gap + rest);
    assert n + (gap + rest) == n + gap + rest;
    NameFirst(n, "");
    NameFirst(n, gap + rest);
    SkipGap(gap, rest);
    SlashesOnly(gap, rest);
    SlashesOnly(rest, "");
    assert rest + "" == rest;
  }

  lemma NameFirst(n: string, t: string)
    requires n != "" && '/' !in n && NameLen(n + t) == |n|
    ensures Components(n + t) == [n] + Components(Skip(t)) && Components("") == [] && Skip("") == ""
  {
    var s := n + t;
    assert s[..|n|] == n && s[|n|..] == t && s[0] == n[0];
  }

  lemma {:induction false} SkipGap(gap: string, rest: string)
    requires forall i | 0 <= i < |gap| :: gap[i] == '/'
    ensures Skip(gap + rest) == Skip(rest)
  {
    if gap == "" {
      assert gap + rest == rest;
    } else {
      assert (gap + rest)[1..] == gap[1..] + rest;
      SkipGap(gap[1..], rest);
    }
  }

  lemma SlashesOnly(gap: string, rest: string)
    ensures Components(gap + rest) == Components(Skip(gap + rest))
  {
    SkipTwice(gap + rest);
  }

  lemma {:induction false} SkipTwice(s: string)
    ensures Skip(s) == "" || Skip(s)[0] != '/'
    ensures Skip(Skip(s)) == Skip(s) && (s == "" || s[0] != '/' ==> Skip(s) == s)
  {
    if s != "" && s[0] == '/' { SkipTwice(s[1..]); }
  }

  lemma {:induction false} NameEnds(n: string, t: string)
    requires '/' !in n && (t == "" || t[0] == '/')
    ensures NameLen(n + t) == |n|
  {
    if n == "" {
      assert n + t == t;
    } else {
      assert (n + t)[1..] == n[1..] + t;
      NameEnds(n[1..], t);
    }
  }

  /** "." stays, ".." goes back over the last name, and names are joined with single slashes. */
  lemma SmallWalk()
    ensures match Walk(Place(true, []), ["a", ".", "b", "..", "c"])
            case None => false
            case Some(q) => Shown(q) == Normal("/a/c")
  {
    var p := Place(true, ["a"]);
    assert ["a", ".", "b", "..", "c"][1..] == [".", "b", "..", "c"] && [".", "b", "..", "c"][1..] == ["b", "..", "c"];
    assert ["b", "..", "c"][1..] == ["..", "c"] && ["..", "c"][1..] == ["c"] && ["c"][1..] == [];
    assert Walk(Place(true, ["a", "c"]), []) == Some(Place(true, ["a", "c"]));
    assert Walk(p, ["c"]) == Some(Place(true, ["a", "c"])) by { assert ["a"] + ["c"] == ["a", "c"]; }
    assert Walk(Place(true, ["a", "b"]), ["..", "c"]) == Walk(p, ["c"]) by { assert ["a", "b"][..1] == ["a"]; }
    assert Walk(p, ["b", "..", "c"]) == Walk(Place(true, ["a", "b"]), ["..", "c"]) by {
      assert ["a"] + ["b"] == ["a", "b"];
    }
    assert [] + ["a"] == ["a"];
    assert Join(["a", "c"]) == "a/c" by { assert ["a", "c"][..1] == ["a"]; }
  }

  lemma SmallJoins()
    ensures "/" + Join(["..", "a"]) == "/../a" && "/" + Join([".."]) == "/.." && "/" + Join(["..", ".."]) == "/../.."
    ensures Proper(["..", "a"]) && Proper([".."]) && Proper(["..", ".."])
  {
    assert Join(["..", "a"][..1]) == ".." && Join(["..", ".."][..1]) == "..";
  }

  lemma ShownUp()
    ensures Shown(Place(false, ["a"])) == Normal("a") && Shown(Place(false, [])) == StrayRead
  {
  }

  /** The meaning of "/" and some names. */
  lemma RootedMeaning(names: seq<string>)
    requires Proper(names)
    ensures Meaning("/" + Join(names)) ==
            match Walk(Place(true, []), names) case None => NoPath case Some(q) => Shown(q)
  {
    hide Walk, Join, Skip, Shown;
    var r := "/" + Join(names);
    JoinNothing();
    ComponentsOfJoin(names);
    SlashThen(r, Join(names));
    assert Components(r) == names;
  }

  lemma WalkUp()
    ensures Walk(Place(true, []), [".."]) == Some(Place(false, []))
    ensures Walk(Place(true, []), ["..", "a"]) == Some(Place(false, ["a"]))
    ensures Walk(Place(true, []), ["..", ".."]) == None
  {
    assert [".."][1..] == [] && ["a"][1..] == [] && ["..", "a"][1..] == ["a"] && ["..", ".."][1..] == [".."];
    assert [] + ["a"] == ["a"];
  }
}
