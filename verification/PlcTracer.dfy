/** The trace operations on the runtime's own buffers: the ring, filled in place, and the traced-variable arrays
    (app/src/plc_debug.c:47-65, 209-473). */
module PlcTracer {
  import opened Bytes
  import opened RingBuffers
  import opened TraceSpec
  import opened PlcDebug

  function Prefixed(done: seq<byte>, rest: (seq<byte>, bool)): (r: (seq<byte>, bool))
    ensures |r.0| == |done| + |rest.0| && r.1 == rest.1
  {
    (done + rest.0, rest.1)
  }

  lemma PrefixedNothing(done: seq<byte>, complete: bool)
    ensures Prefixed(done, ([], complete)) == (done, complete)
  {
    assert done + [] == done;
  }

  /** What the values from the `i`-th traced variable on add to those already copied. */
  lemma CollectFrom(p: Program, idxs: seq<word>, i: nat, done: seq<byte>)
    requires i <= |idxs|
    ensures i == 0 ==> Prefixed([], Collect(p, idxs[i..])) == Collect(p, idxs)
    ensures i == |idxs| ==> Collect(p, idxs[i..]) == ([], true)
    ensures i < |idxs| && (idxs[i] !in p || p[idxs[i]].isNull) ==> Collect(p, idxs[i..]) == ([], false)
    ensures i < |idxs| && idxs[i] in p && !p[idxs[i]].isNull ==>
              Prefixed(done, Collect(p, idxs[i..])) == Prefixed(done + p[idxs[i]].bytes, Collect(p, idxs[i + 1..]))
  {
    if i == 0 {
      assert idxs[i..] == idxs;
      assert [] + Collect(p, idxs).0 == Collect(p, idxs).0;
    }
    if i < |idxs| && idxs[i] in p && !p[idxs[i]].isNull {
      assert idxs[i..][1..] == idxs[i + 1..];
      var rest := Collect(p, idxs[i + 1..]).0;
      assert done + (p[idxs[i]].bytes + rest) == done + p[idxs[i]].bytes + rest;
    }
  }

  /** What reading on adds to the samples already taken. */
  lemma ReadFrom(r: Ring, total: nat, taken: seq<Sample>)
    requires r.Valid()
    ensures var block := total + TICK_SIZE;
            if r.GetClaim(block) == block then
              var s := r.data[r.head..r.head + block];
              && ReadAll(r, total).0 == ReadAll(r.Drop(block), total).0
              && taken + ReadAll(r, total).1
                 == taken + [Sample(Word(s, 0), s[TICK_SIZE..])] + ReadAll(r.Drop(block), total).1
            else
              ReadAll(r, total).0 == r && taken + ReadAll(r, total).1 == taken
  {
  }

  /** publish_debug's loop: copies the values of the traced variables to index `at` of the ring's buffer, until one
      cannot be read. */
  method WriteValues(ring: RingBuffer, tracedIdxs: array<word>, tracedCount: nat, p: Program, at: nat)
    returns (written: nat, ok: bool)
    requires ring.Valid() && tracedIdxs as object != ring.buffer && tracedCount <= tracedIdxs.Length
    requires at + |Collect(p, tracedIdxs[..tracedCount]).0| <= ring.buffer.Length
    modifies ring.buffer
    ensures ring.Valid()
    ensures var values := Collect(p, tracedIdxs[..tracedCount]);
            && written == |values.0| && ok == values.1
            && ring.View() == old(ring.View()).(data := Splice(old(ring.buffer[..]), at, values.0))
  {
    hide Splice, Collect, Prefixed;
    written, ok := 0, true;
    ghost var idxs := tracedIdxs[..tracedCount];
    ghost var all := Collect(p, idxs);
    ghost var before := ring.buffer[..];
    ghost var done: seq<byte> := [];
    var i := 0;
    SpliceNothing(ring.buffer[..], at);
    CollectFrom(p, idxs, 0, []);
    while i < tracedCount
      invariant i <= tracedCount && written == |done| && tracedIdxs[..tracedCount] == idxs
      invariant all == Prefixed(done, Collect(p, idxs[i..]))
      invariant ring.buffer[..] == Splice(before, at, done)
    {
      var idx := tracedIdxs[i];
      assert idx == idxs[i];
      CollectFrom(p, idxs, i, done);
      if idx !in p || p[idx].isNull {
        PrefixedNothing(done, false);
        return written, false;
      }
      ring.Write(at + written, p[idx].bytes);
      SpliceTwice(before, at, done, p[idx].bytes);
      done := done + p[idx].bytes;
      written := written + |p[idx].bytes|;
      i := i + 1;
    }
    CollectFrom(p, idxs, i, done);
    PrefixedNothing(done, true);
  }

  /** GetTraceVariables' loop: takes whole blocks while the ring grants them. */
  method TakeBlocks(ring: RingBuffer, total: nat) returns (samples: seq<Sample>)
    requires ring.Valid()
    modifies ring
    ensures ring.Valid() && (ring.View(), samples) == ReadAll(old(ring.View()), total)
  {
    hide Word, ReadAll;
    var block := total + TICK_SIZE;
    samples := [];
    ghost var all := ReadAll(ring.View(), total);
    ghost var r := ring.View();
    assert [] + all.1 == all.1;
    var at, granted := ring.GetClaim(block);
    while granted == block
      invariant ring.Valid() && ring.View() == r
      invariant at == ring.head && granted == r.GetClaim(block)
      invariant all.0 == ReadAll(r, total).0
      invariant all.1 == samples + ReadAll(r, total).1
      decreases ring.used
    {
      var s := ring.buffer[at..at + block];
      ReadFrom(r, total, samples);
      samples := samples + [Sample(Word(s, 0), s[TICK_SIZE..])];
      ring.Consume(block);
      r := r.Drop(block);
      at, granted := ring.GetClaim(block);
    }
    ReadFrom(r, total, samples);
  }

  lemma StoreFields(s: TraceState, i: nat, idx: word, size: nat)
    requires s.Valid() && i < TRACE_VARS_MAX_COUNT
    ensures Store(s, i, idx, size)
            == TraceState(s.ring, s.idxs[i := idx], s.sizes[i := size], i + 1, s.total + size, s.token)
  {
  }

  class Tracer {
    const ring: RingBuffer
    const tracedIdxs: array<word>
    const tracedSizes: array<nat>
    var tracedCount: nat
    var tracedTotalSize: nat
    var debugToken: word

    ghost predicate Valid()
      reads this, ring, ring.buffer, tracedIdxs, tracedSizes
    {
      && ring.Valid()
      && tracedIdxs.Length == TRACE_VARS_MAX_COUNT == tracedSizes.Length
      && tracedCount <= TRACE_VARS_MAX_COUNT
      && tracedIdxs as object != ring.buffer && tracedSizes as object != ring.buffer
      && tracedIdxs as object != tracedSizes
    }

    function View(): (s: TraceState)
      requires Valid()
      reads this, ring, ring.buffer, tracedIdxs, tracedSizes
      ensures s.Valid()
    {
      TraceState(ring.View(), tracedIdxs[..], tracedSizes[..], tracedCount, tracedTotalSize, debugToken)
    }

    constructor (size: nat)
      requires size > 0
      ensures Valid() && fresh(ring) && fresh(ring.buffer) && fresh(tracedIdxs) && fresh(tracedSizes)
      ensures View().total == 0 && View().token == 0 && View().ring.Contents() == []
    {
      ring := new RingBuffer(size);
      tracedIdxs := new word[TRACE_VARS_MAX_COUNT];
      tracedSizes := new nat[TRACE_VARS_MAX_COUNT];
      tracedCount, tracedTotalSize, debugToken := 0, 0, 0;
    }

    /** __init_debug's part: the ring starts anew. */
    method InitDebug()
      requires Valid()
      modifies ring
      ensures Valid() && View() == old(View()).(ring := old(ring.View()).(head := 0, used := 0))
    {
      ring.Reset();
    }

    /** Fills a short claim with zeros, finishes it and throws away as many of the oldest bytes. */
    method WrapRing(ask: nat)
      requires Valid() && ring.View().PutClaim(ask) < ask
      modifies ring, ring.buffer
      ensures Valid() && View() == old(View()).(ring := MakeRoom(old(ring.View()), ask))
    {
      var at, granted := ring.PutClaim(ask);
      ring.Write(at, Zeros(granted));
      ring.PutFinish(granted);
      ring.Consume(granted);
    }

    /** Writes the tick and then the values, or one zero byte when nothing is traced, and finishes what was written. */
    method WriteRecord(p: Program, tick: word, at: nat) returns (ret: int)
      requires Valid()
      requires tracedTotalSize > 0 ==> |Collect(p, View().Traced()).0| <= tracedTotalSize
      requires ring.View().PutClaim(AskSize(tracedTotalSize)) == AskSize(tracedTotalSize)
      requires at == ring.View().Pos(ring.used)
      modifies ring, ring.buffer
      ensures Valid()
      ensures var values := Collect(p, old(View()).Traced());
              && ret == (if tracedTotalSize > 0 && !values.1 then -1 else 0)
              && View() == old(View()).(ring := old(ring.View()).Commit(Record(tick, tracedTotalSize, values.0)))
    {
      hide Splice, LittleEndian;
      ghost var r1 := ring.View();
      assert tracedIdxs[..tracedCount] == View().Traced();
      ring.Write(at, LittleEndian(tick));
      var written := TICK_SIZE;
      ret := 0;
      if tracedTotalSize > 0 {
        var n, ok := WriteValues(ring, tracedIdxs, tracedCount, p, at + written);
        SpliceTwice(r1.data, at, LittleEndian(tick), Collect(p, old(View()).Traced()).0);
        written := written + n;
        if !ok {
          ret := -1;
        }
      } else {
        ring.Write(at + written, [0]);
        SpliceTwice(r1.data, at, LittleEndian(tick), [0]);
        written := written + 1;
      }
      ring.PutFinish(written);
    }

    /** publish_debug. */
    method PublishDebug(p: Program, tick: word) returns (ret: int)
      requires Valid()
      requires tracedTotalSize > 0 ==> |Collect(p, View().Traced()).0| <= tracedTotalSize
      modifies ring, ring.buffer
      ensures Valid()
      ensures var (r, status) := Publish(old(ring.View()), p, old(View()).Traced(), old(tracedTotalSize), tick);
              ret == status && View() == old(View()).(ring := r)
    {
      hide Splice, LittleEndian, Collect, Record;
      var totalSize := AskSize(tracedTotalSize);
      var at, granted := ring.PutClaim(totalSize);
      if granted < totalSize {
        WrapRing(totalSize);
        at, granted := ring.PutClaim(totalSize);
        if granted < totalSize {
          return -1;
        }
      }
      ret := WriteRecord(p, tick, at);
    }

    /** SetTraceVariablesList for the debug indexes of the orders. */
    method SetTraceVariablesList(orders: seq<word>, p: Program) returns (token: word)
      requires Valid()
      modifies this, ring, tracedIdxs, tracedSizes
      ensures Valid()
      ensures (View(), token) == SetList(old(View()), orders, p)
    {
      hide Enter, Store;
      tracedTotalSize := 0;
      debugToken := U32(debugToken + 1);
      ring.Reset();
      if |orders| == 0 {
        return DEBUG_SUSPENDED;
      }
      if |orders| > TRACE_VARS_MAX_COUNT {
        return TOO_MANY_TRACED;
      }
      ghost var s1 := View();
      var i := 0;
      while i < |orders|
        invariant i <= |orders| && Valid() && debugToken == s1.token
        invariant Enter(View(), orders, p, i) == Enter(s1, orders, p, 0)
      {
        EnterStep(View(), orders, p, i);
        StoreFields(View(), i, orders[i], if orders[i] in p then |p[orders[i]].bytes| else 0);
        tracedIdxs[i] := orders[i];
        if orders[i] in p {
          tracedSizes[i] := |p[orders[i]].bytes|;
          tracedTotalSize := tracedTotalSize + |p[orders[i]].bytes|;
          tracedCount := i + 1;
        } else {
          return TOO_MANY_TRACED;
        }
        i := i + 1;
      }
      EnterStep(View(), orders, p, i);
      return debugToken;
    }

    /** GetTraceVariables, one pass of its waiting loop. `elements` is the number of samples it allocates. */
    method GetTraceVariables(token: word, tick: word) returns (reply: Reply, elements: nat)
      requires Valid()
      modifies ring
      ensures Valid()
      ensures (View(), reply) == Fetch(old(View()), token, tick)
      ensures reply.Samples? ==> elements == old(ring.used) / (tracedTotalSize + TICK_SIZE)
    {
      if token != debugToken {
        return Broken(tick), 1;
      }
      var block := tracedTotalSize + TICK_SIZE;
      elements := ring.used / block;
      if elements == 0 {
        return Waiting, 0;
      }
      var samples := TakeBlocks(ring, tracedTotalSize);
      reply := Samples(samples);
    }
  }
}
