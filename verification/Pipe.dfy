// The blocking pipe: one reader and one writer over a ring buffer, as the atomic
// sections between interrupt disable and enable (DeviceDrivers/pipe.c).
module Pipe {
  import opened Words
  import opened Ring

  /** Where a thread is in rt_pipe_read (a size in bytes) or rt_pipe_write (the bytes). */
  datatype Thread<T> = Idle | Trying(request: T) | Suspended(request: T)

  datatype PipeState = PipeState(
    queue: seq<byte>,
    capacity: nat,
    reader: Thread<nat>,
    writer: Thread<seq<byte>>,
    accepted: seq<byte>,   // everything writers were told was written
    delivered: seq<byte>)  // everything readers got

  /** The ring buffer takes its lengths on 16 bits. */
  function Short(n: nat): nat {
    n % 0x1_0000
  }

  function Min(a: nat, b: nat): nat {
    if a <= b then a else b
  }

  /** Waking a suspended thread: it goes back to trying the same request. */
  function Woken<T>(t: Thread<T>): Thread<T> {
    if t.Suspended? then Trying(t.request) else t
  }

  /** One pass of the reader's loop. */
  function ReadSection(s: PipeState): PipeState
    requires s.reader.Trying?
  {
    var n := Min(Short(s.reader.request), |s.queue|);
    if n == 0 then s.(reader := Suspended(s.reader.request))
    else s.(reader := Idle, writer := Woken(s.writer), queue := s.queue[n..], delivered := s.delivered + s.queue[..n])
  }

  /** One pass of the writer's loop. */
  function WriteSection(s: PipeState): PipeState
    requires s.writer.Trying? && |s.queue| <= s.capacity
  {
    var data := s.writer.request;
    var n := Min(Short(|data|), s.capacity - |s.queue|);
    if n == 0 then s.(writer := Suspended(data))
    else
      s.(writer := Idle, reader := Woken(s.reader), queue := s.queue + data[..n], accepted := s.accepted + data[..n])
  }

  /** A reader's pass takes the oldest bytes, as many as asked for (on 16 bits) or as there are, whichever is less. */
  lemma ReadTakes(s: PipeState)
    requires s.reader.Trying?
    ensures var t, asked := ReadSection(s), s.reader.request % 0x1_0000;
            var n := if asked < |s.queue| then asked else |s.queue|;
            && t.delivered == s.delivered + s.queue[..n] && t.queue == s.queue[n..]
            && t.accepted == s.accepted && t.capacity == s.capacity
            && t.reader == (if n > 0 then Idle else Suspended(s.reader.request))
            && t.writer == (if n > 0 && s.writer.Suspended? then Trying(s.writer.request) else s.writer)
  {
    assert s.queue[..0] == [] && s.queue[0..] == s.queue;
  }

  /** A writer's pass appends the first bytes, as many as given (on 16 bits) or as there is room for. */
  lemma WriteGives(s: PipeState)
    requires s.writer.Trying? && |s.queue| <= s.capacity
    ensures var t, data, room := WriteSection(s), s.writer.request, s.capacity - |s.queue|;
            var n := if |data| % 0x1_0000 < room then |data| % 0x1_0000 else room;
            && n <= |data|
            && t.accepted == s.accepted + data[..n] && t.queue == s.queue + data[..n]
            && t.delivered == s.delivered && t.capacity == s.capacity
            && t.writer == (if n > 0 then Idle else Suspended(data))
            && t.reader == (if n > 0 && s.reader.Suspended? then Trying(s.reader.request) else s.reader)
  {
    assert s.writer.request[..0] == [];
    ShortLe(|s.writer.request|);
  }

  // ----- Runs -----

  /** A suspended reader means an empty ring, a suspended writer a full one, and no byte is lost, added or reordered. */
  ghost predicate Inv(s: PipeState) {
    && 0 < s.capacity && |s.queue| <= s.capacity
    && (s.reader.Suspended? ==> s.queue == [])
    && (s.writer.Suspended? ==> |s.queue| == s.capacity)
    && s.delivered + s.queue == s.accepted
  }

  /** A pass keeps the invariant exactly when the size survives its cut to 16 bits, or there was nothing to read. */
  lemma ReadKeeps(s: PipeState)
    requires Inv(s) && s.reader.Trying?
    ensures Inv(ReadSection(s)) <==> Short(s.reader.request) != 0 || s.queue == []
  {
    hide Short;
    var n := Min(Short(s.reader.request), |s.queue|);
    assert s.queue == s.queue[..n] + s.queue[n..];
    assert s.delivered + s.queue[..n] + s.queue[n..] == s.delivered + s.queue;
  }

  lemma WriteKeeps(s: PipeState)
    requires Inv(s) && s.writer.Trying?
    ensures Inv(WriteSection(s)) <==> Short(|s.writer.request|) != 0 || |s.queue| == s.capacity
  {
    hide Short;
    ShortLe(|s.writer.request|);
    var n := Min(Short(|s.writer.request|), s.capacity - |s.queue|);
    if n > 0 {
      var more := s.writer.request[..n];
      assert s.delivered + (s.queue + more) == s.delivered + s.queue + more;
    }
  }

  datatype Move = StartRead(size: nat) | StartWrite(data: seq<byte>) | ReaderRuns | WriterRuns

  /** What the scheduler may do next; a suspended thread does not run. */
  ghost predicate Enabled(s: PipeState, m: Move) {
    match m
    case StartRead(size) => s.reader == Idle && 0 < size < 0x1_0000
    case StartWrite(data) => s.writer == Idle && 0 < |data| < 0x1_0000
    case ReaderRuns => s.reader.Trying?
    case WriterRuns => s.writer.Trying?
  }

  function After(s: PipeState, m: Move): PipeState {
    match m
    case StartRead(size) => s.(reader := Trying(size))
    case StartWrite(data) => s.(writer := Trying(data))
    case ReaderRuns => if s.reader.Trying? then ReadSection(s) else s
    case WriterRuns => if s.writer.Trying? && |s.queue| <= s.capacity then WriteSection(s) else s
  }

  /** Requests keep their size while they wait. */
  ghost predicate Sized(s: PipeState) {
    && (s.reader.Idle? || 0 < s.reader.request < 0x1_0000)
    && (s.writer.Idle? || 0 < |s.writer.request| < 0x1_0000)
  }

  ghost predicate IsRun(states: seq<PipeState>, moves: seq<Move>) {
    && |states| == |moves| + 1
    && forall i | 0 <= i < |moves| :: Enabled(states[i], moves[i]) && states[i + 1] == After(states[i], moves[i])
  }

  function Initial(capacity: nat): PipeState {
    PipeState([], capacity, Idle, Idle, [], [])
  }

  lemma ShortSame(n: nat)
    requires n < 0x1_0000
    ensures Short(n) == n
  {
  }

  lemma MoveKeeps(s: PipeState, m: Move)
    requires Inv(s) && Sized(s) && Enabled(s, m)
    ensures Inv(After(s, m)) && Sized(After(s, m))
  {
    match m
    case StartRead(_) =>
    case StartWrite(_) =>
    case ReaderRuns => ReadKeeps(s); ShortSame(s.reader.request);
    case WriterRuns => WriteKeeps(s); ShortSame(|s.writer.request|);
  }

  /** Safety of every interleaving. */
  lemma {:induction false} EveryRunIsSafe(states: seq<PipeState>, moves: seq<Move>, capacity: nat, i: nat)
    requires IsRun(states, moves) && capacity > 0 && states[0] == Initial(capacity) && i < |states|
    ensures Inv(states[i]) && Sized(states[i])
    ensures !(states[i].reader.Suspended? && states[i].writer.Suspended?)
    ensures states[i].delivered <= states[i].accepted
  {
    hide After, Enabled;
    if i > 0 {
      EveryRunIsSafe(states, moves, capacity, i - 1);
      assert Enabled(states[i - 1], moves[i - 1]);
      MoveKeeps(states[i - 1], moves[i - 1]);
    }
  }

  /**
   * No lost wake-up: as long as both sides have work, somebody can run, and a suspended thread's partner is
   * either idle or about to wake it.
   */
  lemma NeverStuck(s: PipeState)
    requires Inv(s) && Sized(s)
    ensures s.reader.Suspended? && s.writer.Trying? ==> WriteSection(s).reader.Trying?
    ensures s.writer.Suspended? && s.reader.Trying? ==> ReadSection(s).writer.Trying?
    ensures !s.reader.Idle? && !s.writer.Idle? ==> s.reader.Trying? || s.writer.Trying?
  {
    if s.writer.Trying? { ShortSame(|s.writer.request|); }
    if s.reader.Trying? { ShortSame(s.reader.request); }
  }

  // ----- The device -----

  class PipeDevice {
    const ring: RingBuffer
    var reader: Thread<nat>
    var writer: Thread<seq<byte>>
    ghost var accepted: seq<byte>
    ghost var delivered: seq<byte>

    constructor (ring: RingBuffer)
      requires ring.Valid() && ring.Contents() == []
      ensures this.ring == ring && ring.Valid() && View() == Initial(ring.bufferSize)
    {
      this.ring := ring;
      reader, writer := Idle, Idle;
      accepted, delivered := [], [];
    }

    ghost function View(): PipeState
      requires ring.Valid()
      reads this, ring, ring.buffer
    {
      PipeState(ring.Contents(), ring.bufferSize, reader, writer, accepted, delivered)
    }

    /** The section of rt_pipe_read between disabling and enabling interrupts. */
    method ReadOnce() returns (data: seq<byte>)
      requires ring.Valid() && reader.Trying?
      modifies this, ring
      ensures ring.Valid() && View() == ReadSection(old(View()))
      ensures delivered == old(delivered) + data
      ensures var asked, q := old(reader).request % 0x1_0000, old(ring.Contents());
              |data| == if asked < |q| then asked else |q|
    {
      hide RingBuffer.Valid, RingBuffer.Contents;
      data := ring.Get(Short(reader.request));
      ghost var n := |data|;
      assert n == Min(Short(reader.request), |old(ring.Contents())|);
      assert data == old(ring.Contents())[..n] && ring.Contents() == old(ring.Contents())[n..];
      if |data| == 0 {
        assert ring.Contents() == old(ring.Contents());
        reader := Suspended(reader.request);
      } else {
        if writer.Suspended? { writer := Trying(writer.request); }
        reader := Idle;
      }
      delivered := delivered + data;
    }

    /** The section of rt_pipe_write between disabling and enabling interrupts. */
    method WriteOnce() returns (n: nat)
      requires ring.Valid() && writer.Trying?
      modifies this, ring, ring.buffer
      ensures ring.Valid() && old(|View().queue|) <= old(View().capacity) && View() == WriteSection(old(View()))
      ensures var given, room := |old(writer).request| % 0x1_0000, ring.bufferSize - |old(ring.Contents())|;
              n == if given < room then given else room
      ensures n <= |old(writer).request| && accepted == old(accepted) + old(writer).request[..n]
    {
      hide RingBuffer.Valid, RingBuffer.Contents;
      var data := writer.request;
      ShortLe(|data|);
      ring.StatusIs();
      ghost var q := ring.Contents();
      n := ring.Put(data[..Short(|data|)]);
      assert n == Min(Short(|data|), ring.bufferSize - |q|);
      assert data[..Short(|data|)][..n] == data[..n];
      if n == 0 {
        writer := Suspended(data);
        assert ring.Contents() == q;
      } else {
        if reader.Suspended? { reader := Trying(reader.request); }
        writer := Idle;
      }
      accepted := accepted + data[..n];
    }
  }

  lemma ShortLe(n: nat)
    ensures Short(n) <= n
  {
  }

  /** A read of 65536 bytes suspends the reader on a ring that holds a byte. */
  lemma LongReadSuspends()
    ensures var s := PipeState([7], 4, Trying(0x1_0000), Idle, [7], []);
            Inv(s) && ReadSection(s).reader.Suspended? && ReadSection(s).queue == [7] && !Inv(ReadSection(s))
  {
    var s := PipeState([7], 4, Trying(0x1_0000), Idle, [7], []);
    ReadKeeps(s);
  }

  /** A write of 65536 bytes suspends the writer on an empty ring. */
  lemma LongWriteSuspends(data: seq<byte>)
    requires |data| == 0x1_0000
    ensures var s := PipeState([], 4, Idle, Trying(data), [], []);
            Inv(s) && WriteSection(s).writer.Suspended? && WriteSection(s).queue == [] && !Inv(WriteSection(s))
  {
    var s := PipeState([], 4, Idle, Trying(data), [], []);
    WriteKeeps(s);
  }
}
