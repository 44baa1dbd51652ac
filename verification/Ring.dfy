// The mirror-bit ring buffer as a bounded queue of bytes
// (DeviceDrivers/ringbuffer.c, DeviceDrivers/rtdevice.h).
module Ring {
  import opened Words

  const RT_ALIGN_SIZE: nat := 4

  datatype State = Empty | Full | HalfFull

  /** The last n elements of s, or all of them. */
  function Newest(s: seq<byte>, n: nat): seq<byte> {
    if |s| <= n then s else s[|s| - n..]
  }

  /** The pool read from r on, round the end. */
  function Turned(pool: seq<byte>, r: nat): (s: seq<byte>)
    requires r <= |pool|
    ensures |s| == |pool|
    ensures forall i | 0 <= i < |pool| :: s[i] == if r + i < |pool| then pool[r + i] else pool[r + i - |pool|]
  {
    pool[r..] + pool[..r]
  }

  /** Storing data behind len elements, round the end. */
  function Stored(pool: seq<byte>, w: nat, data: seq<byte>): (s: seq<byte>)
    requires w <= |pool| && |data| <= |pool|
    ensures |s| == |pool|
  {
    var room := |pool| - w;
    if |data| <= room then pool[..w] + data + pool[w + |data|..]
    else data[room..] + pool[|data| - room..w] + data[..room]
  }

  function Wrapped(size: nat, i: nat): nat
    requires i < 2 * size
  {
    if i < size then i else i - size
  }

  lemma StoredQueue(pool: seq<byte>, r: nat, len: nat, w: nat, data: seq<byte>)
    requires r < |pool| && len + |data| <= |pool| && w == Wrapped(|pool|, r + len)
    ensures Turned(Stored(pool, w, data), r)[..len + |data|] == Turned(pool, r)[..len] + data
  {
    var s := Stored(pool, w, data);
    forall i | 0 <= i < len + |data| ensures Turned(s, r)[i] == (Turned(pool, r)[..len] + data)[i] {
      StoredAt(pool, w, data, if r + i < |pool| then r + i else r + i - |pool|);
    }
  }

  lemma StoredAt(pool: seq<byte>, w: nat, data: seq<byte>, k: nat)
    requires w < |pool| && |data| <= |pool| && k < |pool|
    ensures Stored(pool, w, data)[k] ==
            if w <= k < w + |data| then data[k - w]
            else if k + |pool| < w + |data| then data[k + |pool| - w]
            else pool[k]
  {
  }

  lemma StoredFrom(pool: seq<byte>, w: nat, data: seq<byte>, s: seq<byte>)
    requires w < |pool| && |data| <= |pool| && |s| == |pool|
    requires forall k | 0 <= k < |pool| ::
               s[k] == if w <= k < w + |data| then data[k - w]
                       else if k + |pool| < w + |data| then data[k + |pool| - w]
                       else pool[k]
    ensures s == Stored(pool, w, data)
  {
    hide Stored;
    forall k | 0 <= k < |pool| ensures s[k] == Stored(pool, w, data)[k] { StoredAt(pool, w, data, k); }
  }

  /** Moving the read index on by n takes n elements off the front. */
  lemma TakenQueue(pool: seq<byte>, r: nat, len: nat, n: nat)
    requires r < |pool| && n <= len <= |pool|
    ensures Turned(pool, Wrapped(|pool|, r + n))[..len - n] == Turned(pool, r)[n..len]
  {
  }

  /** Storing into a full ring and moving the read index with the write index drops the oldest. */
  lemma ForcedQueue(pool: seq<byte>, r: nat, data: seq<byte>)
    requires r < |pool| && |data| <= |pool|
    ensures Turned(Stored(pool, r, data), Wrapped(|pool|, r + |data|)) == Newest(Turned(pool, r) + data, |pool|)
  {
    hide Newest, Stored, Turned;
    var s := Stored(pool, r, data);
    var q := Wrapped(|pool|, r + |data|);
    var all := Turned(pool, r) + data;
    NewestLength(all, |pool|);
    forall i | 0 <= i < |pool| ensures Turned(s, q)[i] == Newest(all, |pool|)[i] {
      StoredAt(pool, r, data, Wrapped(|pool|, q + i));
      NewestAt(all, |pool|, i);
    }
  }

  lemma NewestLength(s: seq<byte>, n: nat)
    requires n <= |s|
    ensures |Newest(s, n)| == n
  {
  }

  lemma NewestAt(s: seq<byte>, n: nat, i: nat)
    requires i < n <= |s|
    ensures |Newest(s, n)| == n && Newest(s, n)[i] == s[|s| - n + i]
  {
  }

  /** Storing past the read index: from it on the ring shows the last of the data. */
  lemma OverrunQueue(pool: seq<byte>, r: nat, len: nat, w: nat, data: seq<byte>)
    requires r < |pool| && len < |pool| < len + |data| && |data| <= |pool| && w == Wrapped(|pool|, r + len)
    ensures Turned(Stored(pool, w, data), r)[..len + |data| - |pool|] == data[|pool| - len..]
  {
    var s := Stored(pool, w, data);
    forall i | 0 <= i < len + |data| - |pool| ensures Turned(s, r)[i] == data[|pool| - len..][i] {
      StoredAt(pool, w, data, if r + i < |pool| then r + i else r + i - |pool|);
    }
  }

  class RingBuffer {
    const buffer: array<byte>
    const bufferSize: nat
    var readMirror: bool
    var readIndex: nat
    var writeMirror: bool
    var writeIndex: nat

    /** Equal mirrors mean the writer is ahead on the same lap, unequal ones that it is one lap ahead. */
    ghost predicate Valid()
      reads this
    {
      && 0 < bufferSize == buffer.Length
      && readIndex < bufferSize && writeIndex < bufferSize
      && (readMirror == writeMirror ==> readIndex <= writeIndex)
      && (readMirror != writeMirror ==> writeIndex <= readIndex)
    }

    /** rt_ringbuffer_init; the size is rounded down, so a pool under one word gives a ring that holds nothing. */
    constructor (size: nat)
      requires 0 < size < 0x8000
      ensures bufferSize == size / 4 * 4
      ensures Valid() <==> size >= 4
      ensures Valid() ==> Contents() == []
      ensures fresh(buffer)
    {
      bufferSize := size / RT_ALIGN_SIZE * RT_ALIGN_SIZE;
      buffer := new byte[size / RT_ALIGN_SIZE * RT_ALIGN_SIZE];
      readMirror, readIndex := false, 0;
      writeMirror, writeIndex := false, 0;
    }

    function Status(): State
      reads this
    {
      if readIndex == writeIndex then (if readMirror == writeMirror then Empty else Full) else HalfFull
    }

    function DataLen(): (n: nat)
      requires readIndex < bufferSize && writeIndex < bufferSize
      reads this
      ensures n <= bufferSize
    {
      match Status()
      case Empty => 0
      case Full => bufferSize
      case HalfFull => if writeIndex > readIndex then writeIndex - readIndex else bufferSize - (readIndex - writeIndex)
    }

    function SpaceLen(): nat
      requires readIndex < bufferSize && writeIndex < bufferSize
      reads this
    {
      bufferSize - DataLen()
    }

    /** The queue, oldest byte first. */
    ghost function Contents(): (s: seq<byte>)
      requires Valid()
      reads this, buffer
      ensures |s| == DataLen() <= bufferSize
    {
      Turned(buffer[..], readIndex)[..DataLen()]
    }

    /** The status says what the queue holds. */
    lemma StatusIs()
      requires Valid()
      ensures Status() == Empty <==> Contents() == []
      ensures Status() == Full <==> |Contents()| == bufferSize
      ensures Status() == Full ==> writeIndex == readIndex
      ensures SpaceLen() == bufferSize - |Contents()|
      ensures writeIndex == Wrapped(bufferSize, readIndex + DataLen())
    {
    }

    /** The two memcpy calls that store data behind the write index. */
    method CopyIn(data: seq<byte>)
      requires Valid() && |data| <= bufferSize
      modifies buffer
      ensures buffer[..] == Stored(old(buffer[..]), writeIndex, data)
    {
      hide Stored;
      var room := bufferSize - writeIndex;
      if room > |data| {
        forall i | 0 <= i < |data| { buffer[writeIndex + i] := data[i]; }
      } else {
        forall i | 0 <= i < room { buffer[writeIndex + i] := data[i]; }
        forall i | 0 <= i < |data| - room { buffer[i] := data[room + i]; }
      }
      StoredFrom(old(buffer[..]), writeIndex, data, buffer[..]);
    }

    /** rt_ringbuffer_put: as much as fits. */
    method Put(data: seq<byte>) returns (n: nat)
      requires Valid()
      modifies this`writeMirror, this`writeIndex, buffer
      ensures Valid() && n == (if |data| <= old(SpaceLen()) then |data| else old(SpaceLen()))
      ensures Contents() == old(Contents()) + data[..n]
    {
      hide Turned, Stored, Contents, Wrapped, Status;
      StatusIs();
      ContentsIs();
      ghost var len, pool, w := DataLen(), buffer[..], writeIndex;
      n := 0;
      var size := SpaceLen();
      if size == 0 {
        assert Contents() == old(Contents()) + data[..0];
        return;
      }
      n := if size < |data| then size else |data|;
      CopyIn(data[..n]);
      StoredQueue(pool, readIndex, len, w, data[..n]);
      PutIndices(n);
      ContentsIs();
    }

    /** The index part of put. */
    method PutIndices(n: nat)
      requires Valid() && DataLen() + n <= bufferSize && DataLen() < bufferSize
      modifies this`writeMirror, this`writeIndex
      ensures Valid() && DataLen() == old(DataLen()) + n
    {
      if bufferSize - writeIndex > n {
        writeIndex := writeIndex + n;
      } else {
        writeMirror := !writeMirror;
        writeIndex := n - (bufferSize - writeIndex);
      }
    }

    lemma ContentsIs()
      requires Valid()
      ensures Contents() == Turned(buffer[..], readIndex)[..DataLen()]
      ensures |Contents()| == DataLen() <= |buffer[..]| == bufferSize
    {
    }

    /** rt_ringbuffer_get: as much as there is. */
    method Get(length: nat) returns (data: seq<byte>)
      requires Valid()
      modifies this`readMirror, this`readIndex
      ensures Valid() && |data| == (if length <= old(|Contents()|) then length else old(|Contents()|))
      ensures old(Contents()) == data + Contents()
    {
      hide Turned, Contents, Wrapped, Status;
      ContentsIs();
      ghost var len, r, pool := DataLen(), readIndex, buffer[..];
      data := [];
      var size := DataLen();
      if size == 0 { return; }
      var n := if size < length then size else length;
      TakenQueue(pool, r, len, n);
      Cut(Turned(pool, r), 0, n, len);
      data := CopyOut(n);
      TakeIndices(n);
      ContentsIs();
    }

    /** The index part of get. */
    method TakeIndices(n: nat)
      requires Valid() && n <= DataLen()
      modifies this`readMirror, this`readIndex
      ensures Valid() && DataLen() == old(DataLen()) - n && readIndex == Wrapped(bufferSize, old(readIndex) + n)
    {
      if bufferSize - readIndex > n {
        readIndex := readIndex + n;
      } else {
        readMirror := !readMirror;
        readIndex := n - (bufferSize - readIndex);
      }
    }

    method CopyOut(n: nat) returns (data: seq<byte>)
      requires Valid() && n <= bufferSize
      ensures data == Turned(buffer[..], readIndex)[..n]
    {
      if bufferSize - readIndex > n {
        data := buffer[readIndex..readIndex + n];
      } else {
        data := buffer[readIndex..bufferSize] + buffer[..n - (bufferSize - readIndex)];
      }
    }

    /** rt_ringbuffer_putchar */
    method PutChar(ch: byte) returns (n: nat)
      requires Valid()
      modifies this`writeMirror, this`writeIndex, buffer
      ensures Valid() && n == (if old(|Contents()|) < bufferSize then 1 else 0)
      ensures Contents() == old(Contents()) + (if n == 1 then [ch] else [])
    {
      hide Turned, Stored;
      StatusIs();
      ghost var len, pool, w := DataLen(), buffer[..], writeIndex;
      n := 0;
      if SpaceLen() == 0 {
        assert Contents() == old(Contents()) + [];
        return;
      }
      buffer[writeIndex] := ch;
      StoredOne(pool, w, ch);
      StoredQueue(pool, readIndex, len, w, [ch]);
      if writeIndex == bufferSize - 1 {
        writeMirror := !writeMirror;
        writeIndex := 0;
      } else {
        writeIndex := writeIndex + 1;
      }
      n := 1;
      assert DataLen() == len + 1;
    }

    /** rt_ringbuffer_getchar */
    method GetChar() returns (n: nat, ch: byte)
      requires Valid()
      modifies this`readMirror, this`readIndex
      ensures Valid() && n == (if old(Contents()) == [] then 0 else 1)
      ensures n == 0 ==> Contents() == old(Contents())
      ensures n == 1 ==> old(Contents()) == [ch] + Contents()
    {
      hide Turned;
      StatusIs();
      ghost var len, r := DataLen(), readIndex;
      n, ch := 0, 0;
      if DataLen() == 0 { return; }
      TakenQueue(buffer[..], r, len, 1);
      ch := buffer[readIndex];
      if readIndex == bufferSize - 1 {
        readMirror := !readMirror;
        readIndex := 0;
      } else {
        readIndex := readIndex + 1;
      }
      n := 1;
      assert DataLen() == len - 1;
      assert old(Contents()) == [ch] + Turned(buffer[..], r)[1..len];
    }

    /** rt_ringbuffer_putchar_force: the newest bufferSize bytes survive. */
    method PutCharForce(ch: byte)
      requires Valid()
      modifies this`readMirror, this`readIndex, this`writeMirror, this`writeIndex, buffer
      ensures Valid() && Contents() == Newest(old(Contents()) + [ch], bufferSize)
    {
      hide Turned, Stored, Contents, Newest, Wrapped, Status;
      StatusIs();
      ContentsIs();
      ghost var len, pool, r, w := DataLen(), buffer[..], readIndex, writeIndex;
      var oldState := Status();
      buffer[writeIndex] := ch;
      StoredOne(pool, w, ch);
      ForceOneIndices(oldState);
      ContentsIs();
      if oldState == Full {
        ForcedQueue(pool, r, [ch]);
        WholeQueue(pool, r, buffer[..], readIndex);
      } else {
        StoredQueue(pool, r, len, w, [ch]);
        NewestAll(Turned(pool, r)[..len] + [ch], bufferSize);
      }
    }

    /** The index part of putchar_force. */
    method ForceOneIndices(oldState: State)
      requires Valid() && oldState == Status()
      modifies this`readMirror, this`readIndex, this`writeMirror, this`writeIndex
      ensures Valid()
      ensures oldState == Full ==> DataLen() == bufferSize && readIndex == Wrapped(bufferSize, old(readIndex) + 1)
      ensures oldState != Full ==> DataLen() == old(DataLen()) + 1 && readIndex == old(readIndex)
    {
      if writeIndex == bufferSize - 1 {
        writeMirror := !writeMirror;
        writeIndex := 0;
        if oldState == Full {
          readMirror := !readMirror;
          readIndex := writeIndex;
        }
      } else {
        writeIndex := writeIndex + 1;
        if oldState == Full { readIndex := writeIndex; }
      }
    }

    /**
     * rt_ringbuffer_put_force.  On a full ring it drops the oldest bytes and on one with room it appends;
     * otherwise the read index stays behind, a whole lap is lost, and what can be read is the data's end.
     */
    method PutForce(data: seq<byte>) returns (n: nat)
      requires Valid()
      modifies this`readMirror, this`readIndex, this`writeMirror, this`writeIndex, buffer
      ensures n == if |data| <= bufferSize then |data| else bufferSize
      ensures readIndex < bufferSize && writeIndex < bufferSize
      ensures old(|Contents()|) == bufferSize || old(|Contents()|) + n <= bufferSize ==>
                Valid() && Contents() == Newest(old(Contents()) + data[..n], bufferSize)
      ensures old(|Contents()|) < bufferSize < old(|Contents()|) + n ==>
                && !Valid() && readIndex == old(readIndex)
                && DataLen() == old(|Contents()|) + n - bufferSize < bufferSize
                && Turned(buffer[..], readIndex)[..DataLen()] == data[bufferSize - old(|Contents()|)..n]
    {
      hide Turned, Stored, Contents, Newest, Wrapped, Status;
      StatusIs();
      ContentsIs();
      ghost var len, pool, r, w := DataLen(), buffer[..], readIndex, writeIndex;
      var oldState := Status();
      n := if |data| > bufferSize then bufferSize else |data|;
      CopyIn(data[..n]);
      ForceIndices(n, oldState);
      if oldState == Full {
        ForcedQueue(pool, r, data[..n]);
        WholeQueue(pool, r, buffer[..], readIndex);
        ContentsIs();
      } else if len + n <= bufferSize {
        StoredQueue(pool, r, len, w, data[..n]);
        NewestAll(Turned(pool, r)[..len] + data[..n], bufferSize);
        ContentsIs();
      } else {
        OverrunQueue(pool, r, len, w, data[..n]);
        assert data[..n][bufferSize - len..] == data[bufferSize - len..n];
      }
    }

    /** The index part of put_force. */
    method ForceIndices(n: nat, oldState: State)
      requires Valid() && n <= bufferSize && oldState == Status()
      modifies this`readMirror, this`readIndex, this`writeMirror, this`writeIndex
      ensures readIndex < bufferSize && writeIndex < bufferSize
      ensures oldState == Full ==>
                Valid() && DataLen() == bufferSize && readIndex == Wrapped(bufferSize, old(readIndex) + n)
      ensures oldState != Full ==> readIndex == old(readIndex)
      ensures oldState != Full && old(DataLen()) + n <= bufferSize ==> Valid() && DataLen() == old(DataLen()) + n
      ensures old(DataLen()) < bufferSize < old(DataLen()) + n ==>
                !Valid() && DataLen() == old(DataLen()) + n - bufferSize
    {
      if bufferSize - writeIndex > n {
        writeIndex := writeIndex + n;
        if oldState == Full { readIndex := writeIndex; }
      } else {
        writeMirror := !writeMirror;
        writeIndex := n - (bufferSize - writeIndex);
        if oldState == Full {
          readMirror := !readMirror;
          readIndex := writeIndex;
        }
      }
    }
  }

  lemma StoredOne(pool: seq<byte>, w: nat, ch: byte)
    requires w < |pool|
    ensures Stored(pool, w, [ch]) == pool[w := ch]
  {
  }

  lemma WholeQueue(a: seq<byte>, r: nat, b: seq<byte>, q: nat)
    requires r <= |a| && q <= |b|
    ensures Turned(a, r)[..|a|] == Turned(a, r) && Turned(b, q)[..|b|] == Turned(b, q)
  {
  }

  lemma NewestAll(s: seq<byte>, n: nat)
    requires |s| <= n
    ensures Newest(s, n) == s
  {
  }

  /** Three bytes forced into a ring of four that holds three: two are left. */
  method OverrunLosesLap() returns (n: nat)
    ensures n == 2
  {
    var ring := new RingBuffer(4);
    n := ring.Put([1, 2, 3]);
    n := ring.PutForce([4, 5, 6]);
    n := ring.DataLen();
  }
}
