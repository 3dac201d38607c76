/** One publish and one read of trace samples as functions of the ring (app/src/plc_debug.c:209-301, 420-470),
    and what whole histories of them promise. */
module TraceSpec {
  import opened Bytes
  import opened RingBuffers

  /** What GetDebugVariable reports of a variable: its bytes, or a NULL value of some size. */
  datatype Variable = Variable(isNull: bool, bytes: seq<byte>)

  /** The variables of the running program, by debug index; an index outside is out of bounds. */
  type Program = map<word, Variable>

  datatype Sample = Sample(tick: word, values: seq<byte>)

  const TICK_SIZE: nat := 4

  /** The values of the traced variables, collected until one cannot be read. */
  function Collect(p: Program, idxs: seq<word>): (r: (seq<byte>, bool))
  {
    if idxs == [] then ([], true)
    else if idxs[0] !in p || p[idxs[0]].isNull then ([], false)
    else
      var rest := Collect(p, idxs[1..]);
      (p[idxs[0]].bytes + rest.0, rest.1)
  }

  /** What a publish asks the ring for: the tick and the values, or the tick and one byte when nothing is traced. */
  function AskSize(total: nat): nat {
    TICK_SIZE + if total > 0 then total else 1
  }

  /** publish_debug's wrap: if the first claim is short, it is filled with zeros, finished, and as many of the oldest
      bytes are read and thrown away. */
  function MakeRoom(r: Ring, ask: nat): (r': Ring)
    requires r.Valid()
    ensures r'.Valid() && |r'.data| == |r.data|
  {
    var c := r.PutClaim(ask);
    if c < ask then r.Commit(Zeros(c)).Drop(c) else r
  }

  /** The record a publish writes. */
  function Record(tick: word, total: nat, values: seq<byte>): seq<byte> {
    LittleEndian(tick) + if total > 0 then values else [0]
  }

  /** publish_debug: the ring afterwards and the return value (0 or -1). */
  function Publish(r: Ring, p: Program, idxs: seq<word>, total: nat, tick: word): (out: (Ring, int))
    requires r.Valid() && (total > 0 ==> |Collect(p, idxs).0| <= total)
    ensures out.0.Valid() && |out.0.data| == |r.data|
  {
    var ask := AskSize(total);
    var r1 := MakeRoom(r, ask);
    if r.PutClaim(ask) < ask && r1.PutClaim(ask) < ask then (r1, -1)
    else
      var values := Collect(p, idxs);
      (r1.Commit(Record(tick, total, values.0)), if total > 0 && !values.1 then -1 else 0)
  }

  /** GetTraceVariables' loop: whole blocks are taken while the ring grants them. */
  function ReadAll(r: Ring, total: nat): (out: (Ring, seq<Sample>))
    requires r.Valid()
    ensures out.0.Valid() && |out.0.data| == |r.data|
    decreases r.used
  {
    var block := total + TICK_SIZE;
    if r.GetClaim(block) == block then
      var s := r.data[r.head..r.head + block];
      var rest := ReadAll(r.Drop(block), total);
      (rest.0, [Sample(Word(s, 0), s[TICK_SIZE..])] + rest.1)
    else (r, [])
  }

  // ---------------------------------------------------------------- one publish

  /** A publish that loses no queued byte: the claim is granted in full, or nothing is queued, or nothing is granted. */
  predicate Smooth(r: Ring, ask: nat)
    requires r.Valid()
  {
    r.PutClaim(ask) == ask || r.used == 0 || r.PutClaim(ask) == 0
  }

  /** Queued bytes a publish throws away. */
  function Lost(r: Ring, ask: nat): nat
    requires r.Valid()
  {
    var c := r.PutClaim(ask);
    if c < ask then Min(c, r.used) else 0
  }

  /** Making room throws away the oldest `Lost` queued bytes, not the padding it wrote, and nothing if and only if
      the publish is smooth. */
  lemma RoomCostsOldest(r: Ring, ask: nat)
    requires r.Valid()
    ensures Lost(r, ask) == 0 <==> Smooth(r, ask)
    ensures var c := r.PutClaim(ask);
            c < ask ==> MakeRoom(r, ask).Contents() == (r.Contents() + Zeros(c))[c..]
    ensures Smooth(r, ask) ==> MakeRoom(r, ask).Contents() == r.Contents()
  {
    var c := r.PutClaim(ask);
    if c < ask {
      var padded := r.Commit(Zeros(c));
      CommitAppends(r, Zeros(c));
      DropRemovesOldest(padded, c);
    }
  }

  /** A publish that finds its claim short while samples are queued drops the oldest of them: with 10 bytes of capacity
      and two queued records of 4 bytes, the next record of 4 costs the first two bytes of the oldest. */
  lemma PaddingDropsUnread(r: Ring)
    requires r.Valid() && |r.data| == 10 && r.head == 0 && r.used == 8
    ensures MakeRoom(r, 4).Contents() == r.Contents()[2..] + [0, 0]
  {
    RoomCostsOldest(r, 4);
  }

  /** A publish that is refused although it lost nothing leaves no claim open, unless the record exceeds the ring. */
  lemma RefusalLeavesNoClaim(r: Ring, ask: nat)
    requires r.Valid() && Smooth(r, ask) && ask <= |r.data|
    requires r.PutClaim(ask) < ask && MakeRoom(r, ask).PutClaim(ask) < ask
    ensures MakeRoom(r, ask).PutClaim(ask) == 0
  {
  }

  /** The second claim, behind the padding, is granted in full exactly when the record fits the free bytes; without
      padding, exactly when the first was. */
  lemma RoomGranted(r: Ring, ask: nat)
    requires r.Valid() && ask > 0
    ensures r.PutClaim(ask) == ask || MakeRoom(r, ask).PutClaim(ask) == ask <==> r.used + ask <= |r.data|
    ensures r.PutClaim(ask) == ask ==> MakeRoom(r, ask) == r
    ensures MakeRoom(r, ask).used == r.used
  {
    hide Splice, Zeros;
  }

  /** A publish succeeds if and only if the record fits the free bytes of the ring, wherever they lie, and every traced
      variable can be read. It then queues the whole record behind the room it made. */
  lemma PublishVerdict(r: Ring, p: Program, idxs: seq<word>, total: nat, tick: word)
    requires r.Valid() && (total > 0 ==> |Collect(p, idxs).0| <= total)
    ensures var (r', ret) := Publish(r, p, idxs, total, tick);
            var fits := r.used + AskSize(total) <= |r.data|;
            && (ret == 0 || ret == -1)
            && (ret == 0 <==> fits && (total > 0 ==> Collect(p, idxs).1))
            && r'.Contents() == MakeRoom(r, AskSize(total)).Contents()
                                + if fits then Record(tick, total, Collect(p, idxs).0) else []
  {
    hide Collect, LittleEndian, Ring.Contents, MakeRoom;
    RoomGranted(r, AskSize(total));
    var room := MakeRoom(r, AskSize(total));
    if r.used + AskSize(total) <= |r.data| {
      CommitAppends(room, Record(tick, total, Collect(p, idxs).0));
    } else {
      assert room.Contents() + [] == room.Contents();
    }
  }

  /** So a publish that loses nothing succeeds if and only if the record fits the ring and the ring is empty or grants
      the first claim. */
  lemma SmoothVerdict(r: Ring, p: Program, idxs: seq<word>, total: nat, tick: word)
    requires r.Valid() && Smooth(r, AskSize(total))
    requires total > 0 ==> Collect(p, idxs).1 && |Collect(p, idxs).0| == total
    ensures Publish(r, p, idxs, total, tick).1 == 0
            <==> AskSize(total) <= |r.data| && (r.used == 0 || r.PutClaim(AskSize(total)) == AskSize(total))
  {
    PublishVerdict(r, p, idxs, total, tick);
  }

  lemma PublishAppends(r: Ring, p: Program, idxs: seq<word>, total: nat, tick: word)
    requires r.Valid() && total > 0 && Collect(p, idxs).1 && |Collect(p, idxs).0| == total
    requires Smooth(r, AskSize(total))
    ensures var (r', ret) := Publish(r, p, idxs, total, tick);
            r'.Contents() == if ret == 0 then r.Contents() + Record(tick, total, Collect(p, idxs).0) else r.Contents()
  {
    RoomCostsOldest(r, AskSize(total));
    var r1 := MakeRoom(r, AskSize(total));
    if r.PutClaim(AskSize(total)) == AskSize(total) || r1.PutClaim(AskSize(total)) == AskSize(total) {
      CommitAppends(r1, Record(tick, total, Collect(p, idxs).0));
    }
  }

  // ---------------------------------------------------------------- histories

  datatype Event = PublishEvent(p: Program, tick: word) | ReadEvent

  datatype Log = Log(ring: Ring, published: seq<Sample>, delivered: seq<Sample>)

  /** One event of a history. */
  function Next(l: Log, idxs: seq<word>, total: nat, e: Event): (l': Log)
    requires l.ring.Valid() && total > 0
    requires e.PublishEvent? ==> Collect(e.p, idxs).1 && |Collect(e.p, idxs).0| == total
    ensures l'.ring.Valid()
  {
    match e
    case PublishEvent(p, tick) =>
      var (r', ret) := Publish(l.ring, p, idxs, total, tick);
      Log(r', if ret == 0 then l.published + [Sample(tick, Collect(p, idxs).0)] else l.published, l.delivered)
    case ReadEvent =>
      var (r', samples) := ReadAll(l.ring, total);
      Log(r', l.published, l.delivered + samples)
  }

  /** The outcome of a history with a fixed list of traced variables. */
  function Run(r: Ring, idxs: seq<word>, total: nat, events: seq<Event>): (l: Log)
    requires r.Valid() && total > 0 && Readable(idxs, total, events)
    ensures l.ring.Valid()
  {
    if events == [] then Log(r, [], [])
    else Next(Run(r, idxs, total, events[..|events| - 1]), idxs, total, events[|events| - 1])
  }

  /** In every publish of the history all traced variables can be read and have their stable sizes. */
  predicate Readable(idxs: seq<word>, total: nat, events: seq<Event>) {
    forall i :: 0 <= i < |events| && events[i].PublishEvent? ==>
      Collect(events[i].p, idxs).1 && |Collect(events[i].p, idxs).0| == total
  }

  /** Every publish of the history is smooth when it happens. */
  ghost predicate AllSmooth(r: Ring, idxs: seq<word>, total: nat, events: seq<Event>)
    requires r.Valid() && total > 0 && Readable(idxs, total, events)
  {
    forall i :: 0 <= i < |events| && events[i].PublishEvent? ==>
      Smooth(Run(r, idxs, total, events[..i]).ring, AskSize(total))
  }

  /** The bytes of a sample in the ring. */
  function Frame(s: Sample): seq<byte> {
    LittleEndian(s.tick) + s.values
  }

  /** The bytes of a queue of samples. */
  function Frames(samples: seq<Sample>): seq<byte> {
    if samples == [] then [] else Frame(samples[0]) + Frames(samples[1..])
  }

  predicate Sized(samples: seq<Sample>, total: nat) {
    forall s :: s in samples ==> |s.values| == total
  }

  /** The ring holds exactly these samples, and none of them straddles the physical end. */
  ghost predicate Holds(r: Ring, total: nat, pending: seq<Sample>)
    requires r.Valid()
  {
    && r.Contents() == Frames(pending)
    && Sized(pending, total)
    && InBlocks(r, |pending|, total + TICK_SIZE)
  }

  /** The queued bytes are `n` blocks, none of which straddles the physical end. */
  predicate InBlocks(r: Ring, n: nat, block: nat) {
    r.used == n * block && NoStraddle(r.head, |r.data|, n, block)
  }

  /** Each of `n` consecutive blocks from index `head` on lies in one piece in a buffer of `size` bytes. */
  predicate NoStraddle(head: nat, size: nat, n: nat, block: nat)
    decreases n
  {
    n == 0 || (head + block <= size && NoStraddle(if head + block == size then 0 else head + block, size, n - 1, block))
  }

  lemma {:induction false} FramesAppend(samples: seq<Sample>, s: Sample)
    ensures Frames(samples + [s]) == Frames(samples) + Frame(s)
  {
    hide Frame;
    if samples == [] {
      assert [] + [s] == [s];
      assert Frames([s]) == Frame(s) + Frames([]);
    } else {
      FramesAppend(samples[1..], s);
      assert (samples + [s])[1..] == samples[1..] + [s];
      assert Frames(samples + [s]) == Frame(samples[0]) + Frames(samples[1..] + [s]);
    }
  }

  lemma SizedAppend(samples: seq<Sample>, s: Sample, total: nat)
    requires Sized(samples, total) && |s.values| == total
    ensures Sized(samples + [s], total)
  {
  }

  lemma {:induction false} NoStraddleAppend(head: nat, size: nat, n: nat, block: nat, tail: nat)
    requires head < size && block > 0 && NoStraddle(head, size, n, block) && n * block <= size
    requires tail == if head + n * block < size then head + n * block else head + n * block - size
    requires tail + block <= size
    ensures NoStraddle(head, size, n + 1, block)
    decreases n
  {
    if n > 0 {
      assert n * block == block + (n - 1) * block;
      NoStraddleAppend(if head + block == size then 0 else head + block, size, n - 1, block, tail);
    }
  }

  /** A smooth publish keeps the blocks in one piece, and adds one exactly when it succeeds. */
  lemma PublishKeepsBlocks(r: Ring, p: Program, idxs: seq<word>, total: nat, tick: word, n: nat)
    requires r.Valid() && total > 0 && Collect(p, idxs).1 && |Collect(p, idxs).0| == total
    requires Smooth(r, AskSize(total)) && InBlocks(r, n, total + TICK_SIZE)
    ensures var (r', ret) := Publish(r, p, idxs, total, tick);
            InBlocks(r', if ret == 0 then n + 1 else n, total + TICK_SIZE)
  {
    hide Collect, LittleEndian, Ring.Contents;
    var block := total + TICK_SIZE;
    assert (n + 1) * block == n * block + block;
    if r.PutClaim(block) == block {
      NoStraddleAppend(r.head, |r.data|, n, block, r.Pos(r.used));
    } else if r.used == 0 {
      NoBlocks(n, block);
      var r1 := MakeRoom(r, block);
      if r1.PutClaim(block) == block {
        NoStraddleAppend(r1.head, |r1.data|, 0, block, r1.head);
      }
    }
  }

  /** What a publish leaves in a ring that holds whole samples: those samples, and the new one if it succeeded. */
  lemma PublishHolds(r: Ring, p: Program, idxs: seq<word>, total: nat, tick: word, pending: seq<Sample>)
    requires r.Valid() && total > 0 && Collect(p, idxs).1 && |Collect(p, idxs).0| == total
    requires Holds(r, total, pending) && Smooth(r, AskSize(total))
    ensures var (r', ret) := Publish(r, p, idxs, total, tick);
            Holds(r', total, if ret == 0 then pending + [Sample(tick, Collect(p, idxs).0)] else pending)
  {
    PublishAppends(r, p, idxs, total, tick);
    PublishKeepsBlocks(r, p, idxs, total, tick, |pending|);
    var s := Sample(tick, Collect(p, idxs).0);
    FramesAppend(pending, s);
    SizedAppend(pending, s, total);
    assert Record(tick, total, s.values) == Frame(s);
    assert |pending + [s]| == |pending| + 1;
    hide Frames, Frame, Record, Sized, Collect, LittleEndian, Publish, InBlocks, Smooth, Ring.Contents;
  }

  lemma FrameReads(tick: word, values: seq<byte>)
    ensures var frame := LittleEndian(tick) + values;
            Word(frame, 0) == tick && frame[TICK_SIZE..] == values
  {
    var frame := LittleEndian(tick) + values;
    assert frame[..TICK_SIZE] == LittleEndian(tick);
    WordOfBytes(tick);
    NumberSame(frame, 0, LittleEndian(tick), 0, 4);
  }

  lemma SplitAt(a: seq<byte>, b: seq<byte>, n: nat)
    requires |a| == n
    ensures (a + b)[..n] == a && (a + b)[n..] == b
  {
  }

  /** The first of the whole blocks in the ring can be claimed, and the rest are whole blocks again. */
  lemma OldestBlock(r: Ring, block: nat, n: nat)
    requires r.Valid() && block > 0 && n > 0 && r.used == n * block && NoStraddle(r.head, |r.data|, n, block)
    ensures r.GetClaim(block) == block && r.used == block + (n - 1) * block
    ensures var r' := r.Drop(block); r'.used == (n - 1) * block && NoStraddle(r'.head, |r'.data|, n - 1, block)
  {
    hide Ring.Contents;
    assert n * block == block + (n - 1) * block;
  }

  /** The oldest sample can be claimed whole, shows its frame, and without it the ring holds the rest. */
  lemma OldestFrame(r: Ring, total: nat, pending: seq<Sample>)
    requires r.Valid() && Holds(r, total, pending) && pending != []
    ensures var block := total + TICK_SIZE;
            && r.GetClaim(block) == block && r.used == block + (|pending| - 1) * block
            && r.data[r.head..r.head + block] == LittleEndian(pending[0].tick) + pending[0].values
            && Holds(r.Drop(block), total, pending[1..])
  {
    var block := total + TICK_SIZE;
    OldestBlock(r, block, |pending|);
    ClaimShowsOldest(r, block);
    DropRemovesOldest(r, block);
    hide LittleEndian, NoStraddle, Ring.Contents, Ring.Drop, Ring.Pos;
    SplitAt(LittleEndian(pending[0].tick) + pending[0].values, Frames(pending[1..]), block);
  }

  /** A read takes every sample of the ring, decoded as it was published, and fills as many elements as it allocates. */
  lemma {:induction false} ReadTakesAll(r: Ring, total: nat, pending: seq<Sample>)
    requires r.Valid() && Holds(r, total, pending)
    ensures var (r', samples) := ReadAll(r, total);
            && samples == pending && Holds(r', total, [])
            && |samples| == r.used / (total + TICK_SIZE)
    decreases |pending|
  {
    var block := total + TICK_SIZE;
    Quotient(|pending|, block);
    if pending != [] {
      OldestFrame(r, total, pending);
      ReadTakesAll(r.Drop(block), total, pending[1..]);
      FrameReads(pending[0].tick, pending[0].values);
      hide Holds, Frames, Word, LittleEndian;
      ReadStep(r, total);
    }
  }

  lemma AtLeastOne(n: nat, d: nat)
    requires n > 0
    ensures n * d >= d
  {
  }

  lemma Quotient(n: nat, d: nat)
    requires d > 0
    ensures n * d / d == n && n * d % d == 0
  {
    var q, rem := n * d / d, n * d % d;
    assert n * d == d * q + rem;
    assert d * (n - q) == rem;
    if q < n {
      AtLeastOne(n - q, d);
    }
  }

  lemma NoBlocks(n: nat, d: nat)
    requires d > 0 && n * d == 0
    ensures n == 0
  {
    if n > 0 {
      AtLeastOne(n, d);
    }
  }

  /** The part of a log not yet delivered is exactly what the ring holds. */
  ghost predicate InOrder(l: Log, total: nat) {
    && l.ring.Valid() && l.delivered <= l.published
    && Holds(l.ring, total, l.published[|l.delivered|..])
  }

  lemma NextInOrder(l: Log, idxs: seq<word>, total: nat, e: Event)
    requires total > 0 && InOrder(l, total)
    requires e.PublishEvent? ==>
               && Collect(e.p, idxs).1 && |Collect(e.p, idxs).0| == total
               && Smooth(l.ring, AskSize(total))
    ensures InOrder(Next(l, idxs, total, e), total)
  {
    hide Frames, NoStraddle, Smooth;
    var pending := l.published[|l.delivered|..];
    match e {
      case PublishEvent(p, tick) =>
        PublishHolds(l.ring, p, idxs, total, tick, pending);
        hide Publish, Holds;
        var s := Sample(tick, Collect(p, idxs).0);
        assert (l.published + [s])[|l.delivered|..] == pending + [s];
      case ReadEvent =>
        ReadTakesAll(l.ring, total, pending);
        hide ReadAll, Holds;
        assert l.delivered + pending == l.published;
        assert l.published[|l.published|..] == [];
    }
  }

  lemma SmoothPrefix(r: Ring, idxs: seq<word>, total: nat, events: seq<Event>)
    requires r.Valid() && total > 0 && Readable(idxs, total, events) && events != []
    requires AllSmooth(r, idxs, total, events)
    ensures AllSmooth(r, idxs, total, events[..|events| - 1])
    ensures events[|events| - 1].PublishEvent? ==>
              Smooth(Run(r, idxs, total, events[..|events| - 1]).ring, AskSize(total))
  {
    hide Run, Collect;
    var before := events[..|events| - 1];
    forall i | 0 <= i < |before| && before[i].PublishEvent?
      ensures Smooth(Run(r, idxs, total, before[..i]).ring, AskSize(total))
    {
      assert before[..i] == events[..i];
      assert events[i].PublishEvent?;
    }
  }

  /** The trace FIFO: over any history of publishes and reads in which every publish is smooth, the samples delivered
      and then those still queued are exactly the samples published, in order. */
  lemma {:induction false} FifoRoundTrip(r: Ring, idxs: seq<word>, total: nat, events: seq<Event>)
    requires r.Valid() && r.used == 0 && total > 0 && Readable(idxs, total, events)
    requires AllSmooth(r, idxs, total, events)
    ensures InOrder(Run(r, idxs, total, events), total)
    decreases |events|
  {
    if events == [] {
      assert r.Contents() == [];
    } else {
      SmoothPrefix(r, idxs, total, events);
      FifoRoundTrip(r, idxs, total, events[..|events| - 1]);
      NextInOrder(Run(r, idxs, total, events[..|events| - 1]), idxs, total, events[|events| - 1]);
    }
  }

  // ---------------------------------------------------------------- record sizes that divide the capacity

  /** Everything in the ring lies on multiples of the block size. */
  predicate Aligned(r: Ring, block: nat) {
    r.Valid() && block > 0 && r.head % block == 0 && r.used % block == 0 && |r.data| % block == 0
  }

  lemma MultipleSum(a: int, b: int, d: nat)
    requires d > 0 && a % d == 0 && b % d == 0
    ensures (a + b) % d == 0 && (a - b) % d == 0
  {
    var x, y := a / d, b / d;
    assert a == d * x && b == d * y;
    assert a + b == d * (x + y) && a - b == d * (x - y);
    MultipleMod(x + y, d);
    MultipleMod(x - y, d);
  }

  lemma MultipleMod(n: int, d: nat)
    requires d > 0
    ensures d * n % d == 0
  {
    if n >= 0 {
      Quotient(n, d);
    } else {
      Quotient(-n, d);
      var q := d * n / d;
      var rem := d * n % d;
      assert d * n == d * q + rem;
      assert d * (n - q) == rem;
      if n > q {
        AtLeastOne(n - q, d);
      } else if n < q {
        AtLeastOne(q - n, d);
        assert d * (q - n) == -rem;
      }
    }
  }

  lemma PositiveMultiple(a: nat, d: nat)
    requires d > 0 && a % d == 0 && a > 0
    ensures a >= d
  {
  }

  /** In an aligned ring a claim of one block is granted in full or not at all. */
  lemma AlignedClaim(r: Ring, block: nat)
    requires Aligned(r, block)
    ensures r.PutClaim(block) == block || r.PutClaim(block) == 0
    ensures r.PutClaim(block) == 0 <==> r.used == |r.data|
    ensures r.Pos(r.used) % block == 0
  {
    MultipleSum(r.head, r.used, block);
    MultipleSum(r.head + r.used, |r.data|, block);
    MultipleSum(|r.data|, r.used, block);
    MultipleSum(|r.data|, r.Pos(r.used), block);
    PositiveMultiple(|r.data| - r.Pos(r.used), block);
    if r.used < |r.data| {
      PositiveMultiple(|r.data| - r.used, block);
    }
  }

  /** When nothing is granted, a publish reports -1 and leaves the ring exactly as it was. */
  lemma FullRingRefuses(r: Ring, p: Program, idxs: seq<word>, total: nat, tick: word)
    requires r.Valid() && r.used == |r.data| && (total > 0 ==> |Collect(p, idxs).0| <= total)
    ensures Publish(r, p, idxs, total, tick) == (r, -1)
  {
    assert r.Commit([]) == r;
    assert Zeros(0) == [];
  }

  lemma AlignedPublish(r: Ring, p: Program, idxs: seq<word>, total: nat, tick: word)
    requires total > 0 && Aligned(r, total + TICK_SIZE) && Collect(p, idxs).1 && |Collect(p, idxs).0| == total
    ensures Aligned(Publish(r, p, idxs, total, tick).0, total + TICK_SIZE)
  {
    var block := total + TICK_SIZE;
    AlignedClaim(r, block);
    if r.used == |r.data| {
      FullRingRefuses(r, p, idxs, total, tick);
    } else {
      Quotient(1, block);
      MultipleSum(r.used, block, block);
    }
  }

  lemma {:induction false} AlignedRead(r: Ring, total: nat)
    requires Aligned(r, total + TICK_SIZE)
    ensures Aligned(ReadAll(r, total).0, total + TICK_SIZE)
    decreases r.used
  {
    var block := total + TICK_SIZE;
    if r.GetClaim(block) == block {
      Quotient(1, block);
      MultipleSum(r.head, block, block);
      MultipleSum(r.used, block, block);
      MultipleSum(r.head + block, |r.data|, block);
      AlignedRead(r.Drop(block), total);
    }
  }

  /** When the record size divides the capacity, every publish of every history is smooth:
      no record is lost, none straddles the physical end, whatever the interleaving. */
  lemma {:induction false} DividingSizeIsSmooth(r: Ring, idxs: seq<word>, total: nat, events: seq<Event>)
    requires total > 0 && Aligned(r, total + TICK_SIZE) && Readable(idxs, total, events)
    ensures AllSmooth(r, idxs, total, events)
    ensures Aligned(Run(r, idxs, total, events).ring, total + TICK_SIZE)
    decreases |events|
  {
    if events != [] {
      var before := events[..|events| - 1];
      DividingSizeIsSmooth(r, idxs, total, before);
      AlignedNext(Run(r, idxs, total, before), idxs, total, events[|events| - 1]);
      hide Aligned, Next, Collect;
      forall i | 0 <= i < |events| && events[i].PublishEvent?
        ensures Smooth(Run(r, idxs, total, events[..i]).ring, AskSize(total))
      {
        if i < |before| {
          assert before[..i] == events[..i];
          assert before[i].PublishEvent?;
        } else {
          assert events[..i] == before;
        }
      }
    }
  }

  lemma AlignedNext(l: Log, idxs: seq<word>, total: nat, e: Event)
    requires l.ring.Valid() && total > 0 && Aligned(l.ring, total + TICK_SIZE)
    requires e.PublishEvent? ==> Collect(e.p, idxs).1 && |Collect(e.p, idxs).0| == total
    ensures Smooth(l.ring, AskSize(total)) && Aligned(Next(l, idxs, total, e).ring, total + TICK_SIZE)
  {
    AlignedClaim(l.ring, total + TICK_SIZE);
    hide Aligned, Publish, ReadAll;
    match e {
      case PublishEvent(p, tick) => AlignedPublish(l.ring, p, idxs, total, tick);
      case ReadEvent => AlignedRead(l.ring, total);
    }
  }

  /** So with such a record size the trace is a FIFO without further conditions. */
  lemma DividingSizeFifo(r: Ring, idxs: seq<word>, total: nat, events: seq<Event>)
    requires total > 0 && Aligned(r, total + TICK_SIZE) && r.used == 0 && Readable(idxs, total, events)
    ensures InOrder(Run(r, idxs, total, events), total)
  {
    DividingSizeIsSmooth(r, idxs, total, events);
    FifoRoundTrip(r, idxs, total, events);
  }

  /** The history of `n` publishes of the same program. */
  function Publishes(p: Program, tick: word, n: nat): seq<Event> {
    seq(n, _ => PublishEvent(p, tick))
  }

  lemma PublishFits(r: Ring, p: Program, idxs: seq<word>, total: nat, tick: word)
    requires r.Valid() && total > 0 && Collect(p, idxs).1 && |Collect(p, idxs).0| == total
    requires r.head == 0 && r.used + total + TICK_SIZE <= |r.data|
    ensures var (r', ret) := Publish(r, p, idxs, total, tick);
            ret == 0 && r'.head == 0 && r'.used == r.used + total + TICK_SIZE && |r'.data| == |r.data|
  {
    hide Splice, Collect, LittleEndian;
  }

  lemma {:induction false} FillUp(r: Ring, idxs: seq<word>, total: nat, p: Program, tick: word, n: nat)
    requires r.Valid() && total > 0 && Collect(p, idxs).1 && |Collect(p, idxs).0| == total
    requires r.head == 0 && r.used == 0 && n * (total + TICK_SIZE) <= |r.data|
    ensures Readable(idxs, total, Publishes(p, tick, n))
    ensures var r' := Run(r, idxs, total, Publishes(p, tick, n)).ring;
            r'.head == 0 && r'.used == n * (total + TICK_SIZE) && |r'.data| == |r.data|
    decreases n
  {
    if n > 0 {
      var block := total + TICK_SIZE;
      assert n * block == (n - 1) * block + block;
      FillUp(r, idxs, total, p, tick, n - 1);
      var events := Publishes(p, tick, n);
      assert events[..n - 1] == Publishes(p, tick, n - 1);
      PublishFits(Run(r, idxs, total, events[..n - 1]).ring, p, idxs, total, tick);
      hide Publish, Collect;
    }
  }

  /** How many records the ring has room for. */
  function Capacity(r: Ring, total: nat): nat {
    |r.data| / (total + TICK_SIZE)
  }

  lemma Leftover(size: nat, block: nat)
    requires 0 < block <= size
    ensures size / block * block == size - size % block && 0 < size / block * block
  {
    var n := size / block;
    assert size == block * n + size % block;
    assert block * n == n * block;
    AtLeastOne(n, block);
  }

  lemma ShortClaimLoses(r: Ring, ask: nat)
    requires r.Valid() && r.head == 0 && 0 < r.used < |r.data| < r.used + ask
    ensures Lost(r, ask) > 0 && !Smooth(r, ask)
  {
  }

  /** The divisibility is needed: whenever the capacity holds a record but is no multiple of its size, filling the empty
      ring makes the next publish throw queued bytes away. */
  lemma OtherSizesLose(r: Ring, idxs: seq<word>, total: nat, p: Program, tick: word)
    requires r.Valid() && total > 0 && Collect(p, idxs).1 && |Collect(p, idxs).0| == total
    requires r.head == 0 && r.used == 0
    requires total + TICK_SIZE <= |r.data| && |r.data| % (total + TICK_SIZE) != 0
    ensures var events := Publishes(p, tick, Capacity(r, total));
            Readable(idxs, total, events)
            && Lost(Run(r, idxs, total, events).ring, AskSize(total)) > 0
            && !Smooth(Run(r, idxs, total, events).ring, AskSize(total))
  {
    var n := Capacity(r, total);
    Leftover(|r.data|, total + TICK_SIZE);
    FillUp(r, idxs, total, p, tick, n);
    hide Run, Collect, Readable, Smooth, Lost;
    ShortClaimLoses(Run(r, idxs, total, Publishes(p, tick, n)).ring, AskSize(total));
  }

  /** A record larger than the ring is always refused and never queued. */
  lemma {:induction false} LargeRecordsRefused(r: Ring, idxs: seq<word>, total: nat, events: seq<Event>)
    requires r.Valid() && r.used == 0 && 0 < total && |r.data| < total + TICK_SIZE && Readable(idxs, total, events)
    ensures var l := Run(r, idxs, total, events);
            l.ring.used == 0 && |l.ring.data| == |r.data| && l.published == [] && l.delivered == []
    ensures AllSmooth(r, idxs, total, events)
    decreases |events|
  {
    if events != [] {
      var before := events[..|events| - 1];
      LargeRecordsRefused(r, idxs, total, before);
      var b := Run(r, idxs, total, before);
      hide Collect;
      if events[|events| - 1].PublishEvent? {
        LargeRecordRefused(b.ring, events[|events| - 1].p, idxs, total, events[|events| - 1].tick);
      }
      SmoothSoFar(r, idxs, total, events);
    }
  }

  lemma LargeRecordRefused(r: Ring, p: Program, idxs: seq<word>, total: nat, tick: word)
    requires r.Valid() && r.used == 0 && 0 < total && |r.data| < total + TICK_SIZE && |Collect(p, idxs).0| <= total
    ensures var (r', ret) := Publish(r, p, idxs, total, tick); ret == -1 && r'.used == 0 && |r'.data| == |r.data|
    ensures Smooth(r, AskSize(total))
  {
    hide Splice;
  }

  /** A history is smooth if its beginning is and its last publish is. */
  lemma SmoothSoFar(r: Ring, idxs: seq<word>, total: nat, events: seq<Event>)
    requires r.Valid() && total > 0 && Readable(idxs, total, events) && events != []
    requires AllSmooth(r, idxs, total, events[..|events| - 1])
    requires events[|events| - 1].PublishEvent? ==>
               Smooth(Run(r, idxs, total, events[..|events| - 1]).ring, AskSize(total))
    ensures AllSmooth(r, idxs, total, events)
  {
    hide Run, Collect;
    var before := events[..|events| - 1];
    forall i | 0 <= i < |events| && events[i].PublishEvent?
      ensures Smooth(Run(r, idxs, total, events[..i]).ring, AskSize(total))
    {
      if i < |before| {
        assert before[..i] == events[..i];
        assert before[i].PublishEvent?;
      } else {
        assert events[..i] == before;
      }
    }
  }

  lemma FullHistoryIsUneven(r: Ring, idxs: seq<word>, total: nat, p: Program, tick: word)
    returns (events: seq<Event>)
    requires r.Valid() && total > 0 && Collect(p, idxs).1 && |Collect(p, idxs).0| == total
    requires r.head == 0 && r.used == 0
    requires total + TICK_SIZE <= |r.data| && |r.data| % (total + TICK_SIZE) != 0
    ensures Readable(idxs, total, events) && !AllSmooth(r, idxs, total, events)
  {
    OtherSizesLose(r, idxs, total, p, tick);
    var fill := Publishes(p, tick, Capacity(r, total));
    events := fill + [PublishEvent(p, tick)];
    OneMoreReadable(idxs, total, fill, p, tick);
    hide Run, Smooth, Collect, Readable, AllSmooth, Publishes, Capacity;
    assert events[..|events| - 1] == fill;
    if AllSmooth(r, idxs, total, events) {
      SmoothPrefix(r, idxs, total, events);
    }
  }

  lemma OneMoreReadable(idxs: seq<word>, total: nat, events: seq<Event>, p: Program, tick: word)
    requires Readable(idxs, total, events) && Collect(p, idxs).1 && |Collect(p, idxs).0| == total
    ensures Readable(idxs, total, events + [PublishEvent(p, tick)])
  {
    hide Collect;
  }

  /** The sizes that work: from an empty ring at index 0, every history is smooth if and only if the record size divides
      the capacity, or no record fits at all. */
  lemma SizesThatWork(r: Ring, idxs: seq<word>, total: nat, p: Program, tick: word)
    requires r.Valid() && total > 0 && Collect(p, idxs).1 && |Collect(p, idxs).0| == total
    requires r.head == 0 && r.used == 0
    ensures (forall events: seq<Event> :: Readable(idxs, total, events) ==> AllSmooth(r, idxs, total, events))
            <==> |r.data| % (total + TICK_SIZE) == 0 || |r.data| < total + TICK_SIZE
  {
    hide AllSmooth, Readable, Collect;
    if |r.data| % (total + TICK_SIZE) == 0 {
      forall events: seq<Event> | Readable(idxs, total, events)
        ensures AllSmooth(r, idxs, total, events)
      {
        DividingSizeIsSmooth(r, idxs, total, events);
      }
    } else if |r.data| < total + TICK_SIZE {
      forall events: seq<Event> | Readable(idxs, total, events)
        ensures AllSmooth(r, idxs, total, events)
      {
        LargeRecordsRefused(r, idxs, total, events);
      }
    } else {
      var events := FullHistoryIsUneven(r, idxs, total, p, tick);
    }
  }

  // ---------------------------------------------------------------- when nothing is traced

  /** The bytes of a queue of records published while nothing is traced. */
  function UntracedFrames(ticks: seq<word>): seq<byte> {
    if ticks == [] then [] else LittleEndian(ticks[0]) + [0] + UntracedFrames(ticks[1..])
  }

  lemma {:induction false} UntracedAppend(ticks: seq<word>, tick: word)
    ensures UntracedFrames(ticks + [tick]) == UntracedFrames(ticks) + (LittleEndian(tick) + [0])
    ensures |UntracedFrames(ticks)| == 5 * |ticks|
  {
    if ticks == [] {
      assert UntracedFrames([tick]) == LittleEndian(tick) + [0] + UntracedFrames([]);
    } else {
      UntracedAppend(ticks[1..], tick);
      assert (ticks + [tick])[1..] == ticks[1..] + [tick];
    }
  }

  /** A publish that loses nothing while nothing is traced appends the tick and a zero byte, or changes nothing. */
  lemma UntracedPublish(r: Ring, p: Program, idxs: seq<word>, tick: word)
    requires r.Valid() && Smooth(r, AskSize(0))
    ensures var (r', ret) := Publish(r, p, idxs, 0, tick);
            r'.Contents() == if ret == 0 then r.Contents() + (LittleEndian(tick) + [0]) else r.Contents()
  {
    RoomCostsOldest(r, AskSize(0));
    var r1 := MakeRoom(r, AskSize(0));
    if r.PutClaim(AskSize(0)) == AskSize(0) || r1.PutClaim(AskSize(0)) == AskSize(0) {
      CommitAppends(r1, Record(tick, 0, Collect(p, idxs).0));
    }
  }

  lemma HoldsFours(r: Ring, pending: seq<Sample>)
    requires r.Valid() && Holds(r, 0, pending)
    ensures r.used % 4 == 0
  {
    hide Frames, NoStraddle, Ring.Contents;
    assert r.used == 4 * |pending|;
  }

  /** One such publish on a ring of whole samples leaves no whole samples of the reader's size, however they are chosen.
      */
  lemma UntracedBreaksFrames(r: Ring, p: Program, idxs: seq<word>, tick: word, pending: seq<Sample>, more: seq<Sample>)
    requires r.Valid() && Holds(r, 0, pending) && Smooth(r, AskSize(0)) && Publish(r, p, idxs, 0, tick).1 == 0
    ensures !Holds(Publish(r, p, idxs, 0, tick).0, 0, more)
  {
    UntracedUsed(r, p, idxs, tick);
    HoldsFours(r, pending);
    var r' := Publish(r, p, idxs, 0, tick).0;
    hide *;
    if Holds(r', 0, more) {
      HoldsFours(r', more);
    }
  }

  lemma UntracedUsed(r: Ring, p: Program, idxs: seq<word>, tick: word)
    requires r.Valid() && Smooth(r, AskSize(0)) && Publish(r, p, idxs, 0, tick).1 == 0
    ensures Publish(r, p, idxs, 0, tick).0.used == r.used + 5
  {
    UntracedPublish(r, p, idxs, tick);
    var r' := Publish(r, p, idxs, 0, tick).0;
    hide *;
    assert r'.used == |r'.Contents()| == |r.Contents()| + 5 == r.used + 5;
  }

  // ---------------------------------------------------------------- histories with nothing traced

  /** One event of a history with nothing traced. */
  function UntracedNext(l: Log, idxs: seq<word>, e: Event): (l': Log)
    requires l.ring.Valid()
    ensures l'.ring.Valid()
  {
    match e
    case PublishEvent(p, tick) =>
      var (r', ret) := Publish(l.ring, p, idxs, 0, tick);
      Log(r', if ret == 0 then l.published + [Sample(tick, [])] else l.published, l.delivered)
    case ReadEvent =>
      var (r', samples) := ReadAll(l.ring, 0);
      Log(r', l.published, l.delivered + samples)
  }

  function UntracedRun(r: Ring, idxs: seq<word>, events: seq<Event>): (l: Log)
    requires r.Valid()
    ensures l.ring.Valid()
  {
    if events == [] then Log(r, [], [])
    else UntracedNext(UntracedRun(r, idxs, events[..|events| - 1]), idxs, events[|events| - 1])
  }

  /** Every publish of the history loses nothing when it happens. */
  ghost predicate UntracedSmooth(r: Ring, idxs: seq<word>, events: seq<Event>)
    requires r.Valid()
  {
    events == []
    || (UntracedSmooth(r, idxs, events[..|events| - 1])
        && (events[|events| - 1].PublishEvent? ==>
              Smooth(UntracedRun(r, idxs, events[..|events| - 1]).ring, AskSize(0))))
  }

  /** Four bytes go with each sample read. */
  lemma {:induction false} ReadCounts(r: Ring)
    requires r.Valid()
    ensures var (r', samples) := ReadAll(r, 0); r'.used + 4 * |samples| == r.used
    decreases r.used
  {
    if r.GetClaim(TICK_SIZE) == TICK_SIZE {
      ReadStep(r, 0);
      ReadCounts(r.Drop(TICK_SIZE));
    }
  }

  lemma UntracedCounts(r: Ring, p: Program, idxs: seq<word>, tick: word)
    requires r.Valid() && Smooth(r, AskSize(0))
    ensures var (r', ret) := Publish(r, p, idxs, 0, tick); r'.used == r.used + if ret == 0 then 5 else 0
  {
    UntracedPublish(r, p, idxs, tick);
    var (r', ret) := Publish(r, p, idxs, 0, tick);
    hide *;
    assert r'.used == |r'.Contents()| && r.used == |r.Contents()|;
  }

  /** Five bytes come with each sample published and four go with each delivered. */
  lemma {:induction false} UntracedBalance(r: Ring, idxs: seq<word>, events: seq<Event>)
    requires r.Valid() && r.used == 0 && UntracedSmooth(r, idxs, events)
    ensures var l := UntracedRun(r, idxs, events); l.ring.used + 4 * |l.delivered| == 5 * |l.published|
    decreases |events|
  {
    if events != [] {
      var before := events[..|events| - 1];
      UntracedBalance(r, idxs, before);
      var b := UntracedRun(r, idxs, before);
      hide Publish, ReadAll, Smooth;
      match events[|events| - 1]
      case PublishEvent(p, tick) => UntracedCounts(b.ring, p, idxs, tick);
      case ReadEvent => ReadCounts(b.ring);
    }
  }

  lemma HoldsNothing(r: Ring)
    requires r.Valid() && r.used == 0
    ensures Holds(r, 0, [])
  {
    assert r.Contents() == [];
  }

  lemma InOrderCounts(l: Log)
    requires InOrder(l, 0)
    ensures l.ring.used + 4 * |l.delivered| == 4 * |l.published|
  {
    hide Frames, NoStraddle, Sized, Ring.Contents;
    assert l.ring.used == 4 * |l.published[|l.delivered|..]|;
  }

  /** So over every history with nothing traced, the samples delivered and those queued are the samples published in
      order if and only if none was published. */
  lemma UntracedNeverInOrder(r: Ring, idxs: seq<word>, events: seq<Event>)
    requires r.Valid() && r.used == 0 && UntracedSmooth(r, idxs, events)
    ensures var l := UntracedRun(r, idxs, events); InOrder(l, 0) <==> l.published == []
  {
    UntracedBalance(r, idxs, events);
    var l := UntracedRun(r, idxs, events);
    if l.published == [] {
      assert l.delivered == [] && l.ring.used == 0;
      HoldsNothing(l.ring);
    } else if InOrder(l, 0) {
      InOrderCounts(l);
    }
  }

  /** Reading one block of four bytes. */
  lemma TakeFour(r: Ring, tick: word, rest: seq<byte>)
    requires r.Valid() && r.head + TICK_SIZE <= |r.data| && r.Contents() == LittleEndian(tick) + rest
    ensures ReadAll(r, 0).1 == [Sample(tick, [])] + ReadAll(r.Drop(TICK_SIZE), 0).1
    ensures r.Drop(TICK_SIZE).Contents() == rest
    ensures r.head + TICK_SIZE < |r.data| ==> r.Drop(TICK_SIZE).head == r.head + TICK_SIZE
  {
    hide LittleEndian, Word, Ring.Contents, ReadAll;
    var frame := LittleEndian(tick);
    assert r.used == |frame + rest|;
    SplitAt(frame, rest, TICK_SIZE);
    ClaimShowsOldest(r, TICK_SIZE);
    DropRemovesOldest(r, TICK_SIZE);
    assert frame + [] == frame;
    FrameReads(tick, []);
    ReadStep(r, 0);
  }

  /** As many blocks are read as fit the bytes of a queue in one piece. */
  lemma {:induction false} BlocksTaken(r: Ring)
    requires r.Valid() && r.head + r.used <= |r.data|
    ensures |ReadAll(r, 0).1| == r.used / TICK_SIZE
    decreases r.used
  {
    if r.used >= TICK_SIZE {
      ReadStep(r, 0);
      BlocksTaken(r.Drop(TICK_SIZE));
    }
  }

  /** The tick a read finds at the second place: the padding byte of the first record and the low bytes of the second.
      */
  function Shifted(tick: word): word {
    U32(0x100 * tick as int)
  }

  lemma ShiftedValue(tick: word)
    ensures Shifted(tick) == 0x100 * (tick as int % 0x100_0000)
    ensures Shifted(tick) == tick <==> tick == 0
  {
    var low, high := tick as int % 0x100_0000, tick as int / 0x100_0000;
    assert 0x100 * tick as int == 0x1_0000_0000 * high + 0x100 * low;
    U32Shift(0x100 * low, high);
  }

  lemma Assembled(a: byte, b: byte, c: byte, d: byte)
    ensures LittleEndian(a as int + 0x100 * b as int + 0x1_0000 * c as int + 0x100_0000 * d as int) == [a, b, c, d]
  {
    var q3 := d as int;
    var q2 := c as int + 0x100 * q3;
    var q1 := b as int + 0x100 * q2;
    var w := a as int + 0x100 * q1;
    Quotients(w, q1, q2, q3);
  }

  lemma Quotients(w: nat, q1: nat, q2: nat, q3: nat)
    requires 0 <= w - 0x100 * q1 < 0x100 && 0 <= q1 - 0x100 * q2 < 0x100 && 0 <= q2 - 0x100 * q3 < 0x100
    ensures w / 0x100 == q1 && w / 0x1_0000 == q2 && w / 0x100_0000 == q3
    ensures w % 0x100 == w - 0x100 * q1 && q1 % 0x100 == q1 - 0x100 * q2 && q2 % 0x100 == q2 - 0x100 * q3
  {
  }

  /** The bytes of a tick, and of the tick shifted by one byte. */
  lemma ShiftedBytes(tick: word)
    ensures var s := LittleEndian(tick);
            LittleEndian(Shifted(tick)) == [0, s[0], s[1], s[2]] && s[3] == tick / 0x100_0000
  {
    var q1, q2, q3 := tick as int / 0x100, tick as int / 0x1_0000, tick as int / 0x100_0000;
    Quotients(tick, q1, q2, q3);
    var s := LittleEndian(tick);
    assert s == [tick % 0x100, q1 % 0x100, q2 % 0x100, q3];
    assert tick as int % 0x100_0000 == s[0] as int + 0x100 * s[1] as int + 0x1_0000 * s[2] as int;
    ShiftedValue(tick);
    Assembled(0, s[0], s[1], s[2]);
  }

  lemma SecondBlock(tick: word, rest: seq<byte>)
    ensures [0] + (LittleEndian(tick) + rest) == LittleEndian(Shifted(tick)) + ([tick / 0x100_0000] + rest)
  {
    ShiftedBytes(tick);
    hide LittleEndian, Shifted;
    assert LittleEndian(tick) == LittleEndian(Shifted(tick))[1..] + [tick / 0x100_0000];
  }

  lemma Regroup(a: seq<byte>, b: seq<byte>, c: seq<byte>)
    ensures a + b + c == a + (b + c)
  {
  }

  lemma TwoRecords(ticks: seq<word>)
    requires |ticks| >= 2
    ensures UntracedFrames(ticks)
            == LittleEndian(ticks[0])
               + (LittleEndian(Shifted(ticks[1])) + ([ticks[1] / 0x100_0000] + ([0] + UntracedFrames(ticks[2..]))))
  {
    var zero: seq<byte> := [0];
    var rest := zero + UntracedFrames(ticks[2..]);
    assert ticks[1..][1..] == ticks[2..];
    assert UntracedFrames(ticks) == LittleEndian(ticks[0]) + zero + UntracedFrames(ticks[1..]);
    assert UntracedFrames(ticks[1..]) == LittleEndian(ticks[1]) + zero + UntracedFrames(ticks[2..]);
    hide LittleEndian, Shifted, UntracedFrames;
    Regroup(LittleEndian(ticks[1]), zero, UntracedFrames(ticks[2..]));
    Regroup(LittleEndian(ticks[0]), zero, LittleEndian(ticks[1]) + rest);
    SecondBlock(ticks[1], rest);
  }

  /** With nothing traced, reading two or more records that lie in one piece returns a quarter more samples than were
      published; the first has its tick, the second the second tick shifted by a byte, which is right only for tick 0.
      */
  lemma UntracedMisreads(r: Ring, ticks: seq<word>)
    requires r.Valid() && r.head + r.used <= |r.data| && |ticks| >= 2 && r.Contents() == UntracedFrames(ticks)
    ensures var samples := ReadAll(r, 0).1;
            && |samples| == 5 * |ticks| / TICK_SIZE
            && samples[0] == Sample(ticks[0], []) && samples[1] == Sample(Shifted(ticks[1]), [])
            && (samples[1].tick == ticks[1] <==> ticks[1] == 0)
  {
    hide LittleEndian, ReadAll, Ring.Contents, Ring.Drop, Ring.Pos, UntracedFrames, Shifted;
    UntracedAppend(ticks, 0);
    BlocksTaken(r);
    ShiftedValue(ticks[1]);
    TwoRecords(ticks);
    var tail := [ticks[1] / 0x100_0000] + ([0] + UntracedFrames(ticks[2..]));
    TwoBlocks(r, ticks[0], Shifted(ticks[1]), tail);
  }

  lemma TwoBlocks(r: Ring, a: word, b: word, rest: seq<byte>)
    requires r.Valid() && r.head + r.used <= |r.data| && rest != []
    requires r.Contents() == LittleEndian(a) + (LittleEndian(b) + rest)
    ensures |ReadAll(r, 0).1| >= 2 && ReadAll(r, 0).1[..2] == [Sample(a, []), Sample(b, [])]
  {
    assert r.used == |r.Contents()|;
    hide LittleEndian, ReadAll, Ring.Contents, Ring.Drop, Ring.Pos;
    TakeFour(r, a, LittleEndian(b) + rest);
    TakeFour(r.Drop(TICK_SIZE), b, rest);
  }

  /** For instance, after ticks 1 and 2 have been published into an empty ring, a read answers ticks 1 and 512. */
  lemma UntracedReadsMisframe(r: Ring, idxs: seq<word>)
    requires r.Valid() && r.head == 0 && r.used == 0 && |r.data| == 8192
    ensures var r1 := Publish(r, map[], idxs, 0, 1).0;
            var r2 := Publish(r1, map[], idxs, 0, 2).0;
            ReadAll(r2, 0).1 == [Sample(1, []), Sample(512, [])]
  {
    var r1 := Publish(r, map[], idxs, 0, 1).0;
    var r2 := Publish(r1, map[], idxs, 0, 2).0;
    hide Publish, ReadAll, Ring.Contents, Shifted;
    assert r.Contents() == UntracedFrames([]);
    hide UntracedFrames;
    UntracedGrows(r, map[], idxs, [], 1);
    assert [] + [1] == [1];
    UntracedGrows(r1, map[], idxs, [1], 2);
    assert [1] + [2] == [1, 2];
    ShiftedValue(2);
    UntracedMisreads(r2, [1, 2]);
  }

  lemma UntracedGrows(r: Ring, p: Program, idxs: seq<word>, ticks: seq<word>, tick: word)
    requires r.Valid() && r.head == 0 && r.used + 5 <= |r.data| && r.Contents() == UntracedFrames(ticks)
    ensures var r' := Publish(r, p, idxs, 0, tick).0;
            r'.head == 0 && r'.used == r.used + 5 && |r'.data| == |r.data|
            && r'.Contents() == UntracedFrames(ticks + [tick])
  {
    UntracedAt(r, p, idxs, tick);
    UntracedPublish(r, p, idxs, tick);
    UntracedAppend(ticks, tick);
    hide Publish, LittleEndian, UntracedFrames;
  }

  lemma UntracedAt(r: Ring, p: Program, idxs: seq<word>, tick: word)
    requires r.Valid() && r.head == 0 && r.used + 5 <= |r.data|
    ensures var (r', ret) := Publish(r, p, idxs, 0, tick);
            ret == 0 && r'.head == 0 && r'.used == r.used + 5 && |r'.data| == |r.data| && Smooth(r, AskSize(0))
  {
    hide LittleEndian, Splice;
  }

  lemma ReadStep(r: Ring, total: nat)
    requires r.Valid() && r.GetClaim(total + TICK_SIZE) == total + TICK_SIZE
    ensures var s := r.data[r.head..r.head + total + TICK_SIZE];
            && ReadAll(r, total).0 == ReadAll(r.Drop(total + TICK_SIZE), total).0
            && ReadAll(r, total).1 == [Sample(Word(s, 0), s[TICK_SIZE..])] + ReadAll(r.Drop(total + TICK_SIZE), total).1
  {
  }
}
