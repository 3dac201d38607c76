/** The trace state of the runtime and its three operations: choosing the traced variables, publishing a sample,
    and fetching samples (app/src/plc_debug.c:54-60, 209-301, 314-384, 395-473). */
module PlcDebug {
  import opened Bytes
  import opened RingBuffers
  import opened TraceSpec

  const TRACE_VARS_MAX_COUNT: nat := 64
  const TOO_MANY_TRACED: word := U32(-1)
  const DEBUG_SUSPENDED: word := U32(-5)

  datatype TraceState = TraceState(ring: Ring, idxs: seq<word>, sizes: seq<nat>, count: nat, total: nat, token: word) {
    predicate Valid() {
      && ring.Valid()
      && |idxs| == |sizes| == TRACE_VARS_MAX_COUNT
      && count <= TRACE_VARS_MAX_COUNT
    }

    function Traced(): seq<word>
      requires Valid()
    {
      idxs[..count]
    }
  }

  datatype Reply = Broken(tick: word) | Waiting | Samples(samples: seq<Sample>)

  function Sum(s: seq<nat>): nat {
    if s == [] then 0 else Sum(s[..|s| - 1]) + s[|s| - 1]
  }

  // ---------------------------------------------------------------- choosing the traced variables

  /** One variable entered at index `i`. */
  function Store(s: TraceState, i: nat, idx: word, size: nat): (r: TraceState)
    requires s.Valid() && i < TRACE_VARS_MAX_COUNT
    ensures r.Valid() && r.token == s.token && r.ring == s.ring
  {
    s.(idxs := s.idxs[i := idx], sizes := s.sizes[i := size], total := s.total + size, count := i + 1)
  }

  /** The loop that enters the ordered variables from order `i` on; it stops at one whose size cannot be read. */
  function Enter(s: TraceState, orders: seq<word>, p: Program, i: nat): (r: (TraceState, bool))
    requires s.Valid() && i <= |orders| <= TRACE_VARS_MAX_COUNT
    ensures r.0.Valid() && r.0.token == s.token && r.0.ring == s.ring
    decreases |orders| - i
  {
    if i == |orders| then (s, true)
    else if orders[i] !in p then (s.(idxs := s.idxs[i := orders[i]]), false)
    else Enter(Store(s, i, orders[i], |p[orders[i]].bytes|), orders, p, i + 1)
  }

  /** SetTraceVariablesList: the new state and the token it answers. */
  function SetList(s: TraceState, orders: seq<word>, p: Program): (r: (TraceState, word))
    requires s.Valid()
    ensures r.0.Valid() && r.0.token == U32(s.token + 1) && r.0.ring == s.ring.(head := 0, used := 0)
  {
    var s1 := s.(total := 0, token := U32(s.token + 1), ring := s.ring.(head := 0, used := 0));
    if |orders| == 0 then (s1, DEBUG_SUSPENDED)
    else if |orders| > TRACE_VARS_MAX_COUNT then (s1, TOO_MANY_TRACED)
    else
      var (s2, ok) := Enter(s1, orders, p, 0);
      (s2, if ok then s2.token else TOO_MANY_TRACED)
  }

  // ---------------------------------------------------------------- the layout of records

  /** The variables that can be read keep the same sizes all the time. */
  predicate Stable(p: Program, sizeOf: map<word, nat>) {
    forall k :: k in p ==> k in sizeOf && |p[k].bytes| == sizeOf[k]
  }

  /** Whenever records carry values, the traced size is the sum of the sizes of the listed variables,
      and these are the variables' own. */
  predicate Coherent(s: TraceState, sizeOf: map<word, nat>)
    requires s.Valid()
  {
    s.total > 0 ==>
      && s.total == Sum(s.sizes[..s.count])
      && forall i :: 0 <= i < s.count ==> s.idxs[i] in sizeOf && s.sizes[i] == sizeOf[s.idxs[i]]
  }

  predicate EnteredUpTo(s: TraceState, sizeOf: map<word, nat>, i: nat)
    requires s.Valid() && i <= TRACE_VARS_MAX_COUNT
  {
    && s.total == Sum(s.sizes[..i])
    && (i > 0 ==> s.count == i)
    && forall k :: 0 <= k < i ==> s.idxs[k] in sizeOf && s.sizes[k] == sizeOf[s.idxs[k]]
  }

  lemma StoreEnters(s: TraceState, sizeOf: map<word, nat>, i: nat, idx: word, size: nat)
    requires s.Valid() && i < TRACE_VARS_MAX_COUNT && EnteredUpTo(s, sizeOf, i)
    requires idx in sizeOf && size == sizeOf[idx]
    ensures EnteredUpTo(Store(s, i, idx, size), sizeOf, i + 1)
  {
    assert Store(s, i, idx, size).sizes[..i + 1][..i] == s.sizes[..i];
  }

  lemma StoreExtends(s: TraceState, orders: seq<word>, i: nat, size: nat)
    requires s.Valid() && i < |orders| <= TRACE_VARS_MAX_COUNT && s.idxs[..i] == orders[..i]
    ensures Store(s, i, orders[i], size).idxs[..i + 1] == orders[..i + 1]
  {
    assert orders[..i + 1] == orders[..i] + [orders[i]];
    assert s.idxs[i := orders[i]][..i + 1] == s.idxs[..i] + [orders[i]];
  }

  /** Entering may stop here: what was entered so far is coherent, also with the next index already overwritten. */
  lemma EnteredIsCoherent(s: TraceState, sizeOf: map<word, nat>, i: nat, idx: word)
    requires s.Valid() && i <= TRACE_VARS_MAX_COUNT && EnteredUpTo(s, sizeOf, i)
    ensures Coherent(s, sizeOf) && (i > 0 ==> s.count == i)
    ensures i < TRACE_VARS_MAX_COUNT ==> Coherent(s.(idxs := s.idxs[i := idx]), sizeOf)
  {
    assert s.sizes[..0] == [];
  }

  lemma EnterStep(s: TraceState, orders: seq<word>, p: Program, i: nat)
    requires s.Valid() && i <= |orders| <= TRACE_VARS_MAX_COUNT
    ensures i == |orders| ==> Enter(s, orders, p, i) == (s, true)
    ensures i < |orders| && orders[i] !in p ==> Enter(s, orders, p, i) == (s.(idxs := s.idxs[i := orders[i]]), false)
    ensures i < |orders| && orders[i] in p ==>
              Enter(s, orders, p, i) == Enter(Store(s, i, orders[i], |p[orders[i]].bytes|), orders, p, i + 1)
  {
  }

  lemma {:induction false} EnterIsCoherent(s: TraceState, orders: seq<word>, p: Program, sizeOf: map<word, nat>, i: nat)
    requires s.Valid() && i <= |orders| <= TRACE_VARS_MAX_COUNT && Stable(p, sizeOf)
    requires EnteredUpTo(s, sizeOf, i)
    ensures Coherent(Enter(s, orders, p, i).0, sizeOf)
    ensures Enter(s, orders, p, i).1 ==>
              var r := Enter(s, orders, p, i).0;
              && (|orders| > 0 ==> r.count == |orders|)
              && (s.idxs[..i] == orders[..i] ==> r.idxs[..|orders|] == orders)
    decreases |orders| - i
  {
    hide Enter, Store, Coherent, EnteredUpTo, Sum;
    EnterStep(s, orders, p, i);
    if i == |orders| {
      EnteredIsCoherent(s, sizeOf, i, 0);
      assert orders[..i] == orders;
    } else if orders[i] in p {
      var size := |p[orders[i]].bytes|;
      StoreEnters(s, sizeOf, i, orders[i], size);
      EnterIsCoherent(Store(s, i, orders[i], size), orders, p, sizeOf, i + 1);
      if s.idxs[..i] == orders[..i] {
        StoreExtends(s, orders, i, size);
      }
    } else {
      EnteredIsCoherent(s, sizeOf, i, orders[i]);
    }
  }

  lemma SumOfNothing()
    ensures Sum([]) == 0
  {
  }

  lemma SetListIsCoherent(s: TraceState, orders: seq<word>, p: Program, sizeOf: map<word, nat>)
    requires s.Valid() && Stable(p, sizeOf)
    ensures var (s', token) := SetList(s, orders, p);
            && Coherent(s', sizeOf)
            && (0 < |orders| <= TRACE_VARS_MAX_COUNT && (forall o :: o in orders ==> o in p) ==>
                  s'.Traced() == orders && token == s'.token)
  {
    hide Enter, Sum;
    assert s.sizes[..0] == [] && Sum([]) == 0 by {
      SumOfNothing();
    }
    if 0 < |orders| <= TRACE_VARS_MAX_COUNT {
      var s1 := s.(total := 0, token := U32(s.token + 1), ring := s.ring.(head := 0, used := 0));
      EnterIsCoherent(s1, orders, p, sizeOf, 0);
      if forall o :: o in orders ==> o in p {
        EnterSucceeds(s1, orders, p, 0);
        assert s1.idxs[..0] == orders[..0];
      }
    }
  }

  lemma {:induction false} EnterSucceeds(s: TraceState, orders: seq<word>, p: Program, i: nat)
    requires s.Valid() && i <= |orders| <= TRACE_VARS_MAX_COUNT
    requires forall o :: o in orders ==> o in p
    ensures Enter(s, orders, p, i).1
    decreases |orders| - i
  {
    hide Store;
    if i < |orders| {
      EnterSucceeds(Store(s, i, orders[i], |p[orders[i]].bytes|), orders, p, i + 1);
    }
  }

  /** The sizes of the ordered variables. */
  function SizesOf(p: Program, orders: seq<word>): (sizes: seq<nat>)
    requires forall o :: o in orders ==> o in p
    ensures |sizes| == |orders|
  {
    seq(|orders|, i requires 0 <= i < |orders| => |p[orders[i]].bytes|)
  }

  /** The first `i` orders, all readable, are entered: indexes, sizes, their sum, and the count. */
  predicate Holding(s: TraceState, orders: seq<word>, p: Program, i: nat)
    requires s.Valid() && i <= |orders| <= TRACE_VARS_MAX_COUNT
  {
    && (forall o :: o in orders[..i] ==> o in p)
    && s.idxs[..i] == orders[..i] && s.sizes[..i] == SizesOf(p, orders[..i])
    && s.total == Sum(SizesOf(p, orders[..i])) && (i > 0 ==> s.count == i)
  }

  lemma StoreHolds(s: TraceState, orders: seq<word>, p: Program, i: nat)
    requires s.Valid() && i < |orders| <= TRACE_VARS_MAX_COUNT && Holding(s, orders, p, i) && orders[i] in p
    ensures Holding(Store(s, i, orders[i], |p[orders[i]].bytes|), orders, p, i + 1)
  {
    var size := |p[orders[i]].bytes|;
    StoreExtends(s, orders, i, size);
    assert orders[..i + 1] == orders[..i] + [orders[i]];
    var sizes := SizesOf(p, orders[..i + 1]);
    assert sizes[..i] == SizesOf(p, orders[..i]) && sizes[i] == size;
    assert s.sizes[i := size][..i + 1] == s.sizes[..i] + [size] == sizes;
  }

  /** Where the loop stops: behind the last order, or at the first unreadable one. */
  lemma {:induction false} EnterHolds(s: TraceState, orders: seq<word>, p: Program, i: nat, stop: nat)
    requires s.Valid() && i <= stop <= |orders| <= TRACE_VARS_MAX_COUNT && Holding(s, orders, p, i)
    requires forall k :: i <= k < stop ==> orders[k] in p
    requires stop < |orders| ==> orders[stop] !in p
    ensures var (r, ok) := Enter(s, orders, p, i);
            && ok == (stop == |orders|) && Holding(r, orders, p, stop) && (stop == 0 ==> r.count == s.count)
    decreases stop - i
  {
    hide Enter, Store, Sum, SizesOf, Holding;
    EnterStep(s, orders, p, i);
    if i < stop {
      StoreHolds(s, orders, p, i);
      EnterHolds(Store(s, i, orders[i], |p[orders[i]].bytes|), orders, p, i + 1, stop);
    } else if stop < |orders| {
      StopHolds(s, orders, p, stop);
    }
  }

  lemma StopHolds(s: TraceState, orders: seq<word>, p: Program, i: nat)
    requires s.Valid() && i < |orders| <= TRACE_VARS_MAX_COUNT && Holding(s, orders, p, i)
    ensures Holding(s.(idxs := s.idxs[i := orders[i]]), orders, p, i)
  {
    hide Sum, SizesOf;
    assert s.idxs[i := orders[i]][..i] == s.idxs[..i];
  }

  /** What a new list leads to. Orders the table has room for are entered up to the first that cannot be read: the
      traced size is the sum of their sizes. If all can be read they are the traced variables, and the answer is the new
      token; otherwise it is 2^32 - 1, as for too many orders. No orders at all are answered 2^32 - 5. */
  lemma ListIsTraced(s: TraceState, orders: seq<word>, p: Program, stop: nat)
    requires s.Valid() && stop <= |orders|
    requires forall k :: 0 <= k < stop ==> orders[k] in p
    requires stop < |orders| ==> orders[stop] !in p
    ensures var (s', answer) := SetList(s, orders, p);
            if 0 < |orders| <= 64 then
              && (forall o :: o in orders[..stop] ==> o in p)
              && s'.idxs[..stop] == orders[..stop] && s'.sizes[..stop] == SizesOf(p, orders[..stop])
              && s'.total == Sum(SizesOf(p, orders[..stop])) && s'.count == (if stop > 0 then stop else s.count)
              && answer == if stop == |orders| then U32(s.token + 1) else 0xFFFF_FFFF
            else
              && s'.total == 0 && s'.count == s.count && s'.idxs == s.idxs && s'.sizes == s.sizes
              && answer == if orders == [] then 0xFFFF_FFFB else 0xFFFF_FFFF
  {
    hide Enter, Sum;
    if 0 < |orders| <= 64 {
      var s1 := s.(total := 0, token := U32(s.token + 1), ring := s.ring.(head := 0, used := 0));
      SumOfNothing();
      assert orders[..0] == [] && s.idxs[..0] == [] && s.sizes[..0] == [] && SizesOf(p, []) == [];
      EnterHolds(s1, orders, p, 0, stop);
    }
  }

  /** A list of readable variables is traced as it is: the state has these variables, their sizes and the sum. */
  lemma ReadableListIsTraced(s: TraceState, orders: seq<word>, p: Program)
    requires s.Valid() && 0 < |orders| <= TRACE_VARS_MAX_COUNT && forall o :: o in orders ==> o in p
    ensures var (s', answer) := SetList(s, orders, p);
            && s'.Traced() == orders && s'.count == |orders| && s'.sizes[..|orders|] == SizesOf(p, orders)
            && s'.total == Sum(SizesOf(p, orders)) && answer == s'.token == U32(s.token + 1)
  {
    hide SetList, Sum;
    assert orders[..|orders|] == orders;
    ListIsTraced(s, orders, p, |orders|);
  }

  lemma {:induction false} SumSplit(a: seq<nat>, b: seq<nat>)
    ensures Sum(a + b) == Sum(a) + Sum(b)
  {
    if b == [] {
      assert a + b == a;
    } else {
      SumSplit(a, b[..|b| - 1]);
      assert (a + b)[..|a + b| - 1] == a + b[..|b| - 1];
    }
  }

  /** Collecting values that have the listed sizes yields at most their sum, and exactly that if all can be read. */
  lemma {:induction false} CollectFits(p: Program, idxs: seq<word>, sizes: seq<nat>)
    requires |idxs| == |sizes| && forall i :: 0 <= i < |idxs| ==> idxs[i] in p ==> |p[idxs[i]].bytes| == sizes[i]
    ensures |Collect(p, idxs).0| <= Sum(sizes)
    ensures Collect(p, idxs).1 ==> |Collect(p, idxs).0| == Sum(sizes)
  {
    if idxs != [] {
      assert sizes == [sizes[0]] + sizes[1..];
      SumSplit([sizes[0]], sizes[1..]);
      assert [sizes[0]][..0] == [];
      CollectFits(p, idxs[1..], sizes[1..]);
    }
  }

  predicate CanRead(p: Program, idx: word) {
    idx in p && !p[idx].isNull
  }

  /** Every variable is collected if and only if every one can be read. */
  lemma {:induction false} CollectedIff(p: Program, idxs: seq<word>)
    ensures Collect(p, idxs).1 <==> forall k :: 0 <= k < |idxs| ==> CanRead(p, idxs[k])
  {
    if idxs != [] {
      CollectedIff(p, idxs[1..]);
      if Collect(p, idxs).1 {
        forall k | 0 <= k < |idxs|
          ensures CanRead(p, idxs[k])
        {
          if k > 0 {
            assert idxs[k] == idxs[1..][k - 1];
          }
        }
      }
    }
  }

  /** The bytes of variable `i` stand behind those of the variables before it, as soon as these can be read. */
  lemma {:induction false} CollectedAt(p: Program, idxs: seq<word>, i: nat)
    requires i < |idxs| && forall k :: 0 <= k <= i ==> CanRead(p, idxs[k])
    ensures idxs[i] in p && forall o :: o in idxs[..i] ==> o in p
    ensures var at := Sum(SizesOf(p, idxs[..i]));
            var bytes := p[idxs[i]].bytes;
            at + |bytes| <= |Collect(p, idxs).0| && Collect(p, idxs).0[at..at + |bytes|] == bytes
  {
    hide Sum, SizesOf;
    assert CanRead(p, idxs[0]) && CanRead(p, idxs[i]);
    var first := p[idxs[0]].bytes;
    assert Collect(p, idxs).0 == first + Collect(p, idxs[1..]).0;
    if i == 0 {
      SumOfNothing();
      assert idxs[..0] == [] && SizesOf(p, []) == [];
    } else {
      SizesFirst(p, idxs[..i]);
      CollectedAt(p, idxs[1..], i - 1);
      assert idxs[..i] == [idxs[0]] + idxs[1..][..i - 1];
      SumSplit([|first|], SizesOf(p, idxs[1..][..i - 1]));
      SumOfOne(|first|);
    }
  }

  lemma SizesFirst(p: Program, idxs: seq<word>)
    requires idxs != [] && forall o :: o in idxs ==> o in p
    ensures SizesOf(p, idxs) == [|p[idxs[0]].bytes|] + SizesOf(p, idxs[1..])
  {
  }

  lemma SumOfOne(n: nat)
    ensures Sum([n]) == n
  {
    assert [n][..0] == [];
  }

  /** A coherent state's records have the layout the reader expects. */
  lemma CoherentRecords(s: TraceState, p: Program, sizeOf: map<word, nat>)
    requires s.Valid() && Coherent(s, sizeOf) && Stable(p, sizeOf) && s.total > 0
    ensures |Collect(p, s.Traced()).0| <= s.total
    ensures Collect(p, s.Traced()).1 ==> |Collect(p, s.Traced()).0| == s.total
  {
    CollectFits(p, s.Traced(), s.sizes[..s.count]);
  }

  // ---------------------------------------------------------------- runs of all three operations

  datatype Command =
    | Set(orders: seq<word>, program: Program)
    | PublishSample(program: Program, tick: word)
    | Get(token: word, tick: word)
    | Start  // __init_debug, at every start of the PLC

  /** A command that looks at the program sees its variables with their stable sizes. */
  predicate StableIn(c: Command, sizeOf: map<word, nat>) {
    c.Set? || c.PublishSample? ==> Stable(c.program, sizeOf)
  }

  /** GetTraceVariables, one pass of its waiting loop: a stale token is refused; without a whole block it waits. */
  function Fetch(s: TraceState, token: word, tick: word): (r: (TraceState, Reply))
    requires s.Valid()
    ensures r.0.Valid()
  {
    if token != s.token then (s, Broken(tick))
    else if s.ring.used / (s.total + TICK_SIZE) == 0 then (s, Waiting)
    else
      var (ring, samples) := ReadAll(s.ring, s.total);
      (s.(ring := ring), Samples(samples))
  }

  /** A client that still holds the token from before the latest list is told so and takes nothing from the ring. */
  lemma StaleTokenIsRefused(s: TraceState, orders: seq<word>, p: Program, tick: word)
    requires s.Valid()
    ensures var s1 := SetList(s, orders, p).0;
            Fetch(s1, s.token, tick) == (s1, Broken(tick)) && s1.ring.Contents() == []
  {
    hide Enter;
    assert U32(s.token + 1) != s.token;
  }

  /** With the current token a fetch waits exactly while fewer bytes than one record are queued; otherwise it answers
      the samples it could read. */
  lemma CurrentTokenIsServed(s: TraceState, tick: word)
    requires s.Valid()
    ensures var (s', reply) := Fetch(s, s.token, tick);
            && (reply == Waiting <==> s.ring.used < s.total + TICK_SIZE) && (reply.Waiting? ==> s' == s)
            && (s.ring.used >= s.total + TICK_SIZE ==>
                  reply == Samples(ReadAll(s.ring, s.total).1) && s' == s.(ring := ReadAll(s.ring, s.total).0))
  {
    hide ReadAll;
    QuotientIsZero(s.ring.used, s.total + TICK_SIZE);
  }

  lemma QuotientIsZero(n: nat, d: nat)
    requires d > 0
    ensures n / d == 0 <==> n < d
  {
  }

  /** Whoever asks with the current token gets every queued sample, and leaves the ring empty. */
  lemma FetchTakesAll(s: TraceState, tick: word, pending: seq<Sample>)
    requires s.Valid() && Holds(s.ring, s.total, pending)
    ensures var (s', reply) := Fetch(s, s.token, tick);
            if pending == [] then s' == s && reply == Waiting
            else reply == Samples(pending) && s' == s.(ring := s'.ring) && s'.ring.used == 0
  {
    hide ReadAll, Fetch, NoStraddle, Frames;
    CurrentTokenIsServed(s, tick);
    ReadTakesAll(s.ring, s.total, pending);
    if pending != [] {
      AtLeastOne(|pending|, s.total + TICK_SIZE);
    }
  }

  function Execute(s: TraceState, c: Command, sizeOf: map<word, nat>): (s': TraceState)
    requires s.Valid() && Coherent(s, sizeOf) && StableIn(c, sizeOf)
    ensures s'.Valid()
  {
    match c
    case Set(orders, p) => SetList(s, orders, p).0
    case PublishSample(p, tick) =>
      if s.total > 0 then CoherentRecords(s, p, sizeOf);
        s.(ring := Publish(s.ring, p, s.Traced(), s.total, tick).0)
      else s.(ring := Publish(s.ring, p, s.Traced(), 0, tick).0)
    case Get(token, tick) => Fetch(s, token, tick).0
    case Start => s.(ring := s.ring.(head := 0, used := 0))
  }

  lemma ExecuteIsCoherent(s: TraceState, c: Command, sizeOf: map<word, nat>)
    requires s.Valid() && Coherent(s, sizeOf) && StableIn(c, sizeOf)
    ensures Coherent(Execute(s, c, sizeOf), sizeOf)
  {
    match c {
      case Set(orders, p) => SetListIsCoherent(s, orders, p, sizeOf);
      case PublishSample(_, _) =>
      case Get(_, _) =>
      case Start =>
    }
  }

  /** The state after a run of the operations with stable variable sizes: its layout is always coherent. */
  function After(s: TraceState, commands: seq<Command>, sizeOf: map<word, nat>): (s': TraceState)
    requires s.Valid() && Coherent(s, sizeOf)
    requires forall i :: 0 <= i < |commands| ==> StableIn(commands[i], sizeOf)
    ensures s'.Valid() && Coherent(s', sizeOf)
  {
    if commands == [] then s
    else
      var b := After(s, commands[..|commands| - 1], sizeOf);
      var c := commands[|commands| - 1];
      ExecuteIsCoherent(b, c, sizeOf);
      Execute(b, c, sizeOf)
  }

  /** Whatever the ring holds, a publish while variables are traced makes room, and then, exactly if the record fits the
      free bytes, writes the tick and the values of the current list in order, as far as they can be read; it reports 0
      exactly if it wrote all of them, which then have the length a read takes. */
  lemma RecordsFollowList(s: TraceState, sizeOf: map<word, nat>, p: Program, tick: word)
    requires s.Valid() && Coherent(s, sizeOf) && Stable(p, sizeOf) && s.total > 0
    ensures |Collect(p, s.Traced()).0| <= s.total
    ensures var (values, complete) := Collect(p, s.Traced());
            var room := MakeRoom(s.ring, AskSize(s.total));
            var (ring, ret) := Publish(s.ring, p, s.Traced(), s.total, tick);
            var fits := s.ring.used + TICK_SIZE + s.total <= |s.ring.data|;
            && Execute(s, PublishSample(p, tick), sizeOf).ring == ring
            && ring.Contents() == room.Contents() + (if fits then LittleEndian(tick) + values else [])
            && (ret == 0 <==> fits && complete) && (complete ==> |values| == s.total)
    ensures var c := s.ring.PutClaim(AskSize(s.total));
            MakeRoom(s.ring, AskSize(s.total)).Contents()
            == if c < AskSize(s.total) then (s.ring.Contents() + Zeros(c))[c..] else s.ring.Contents()
  {
    hide Collect, LittleEndian, Ring.Contents, MakeRoom, Publish, Coherent, Stable;
    CoherentRecords(s, p, sizeOf);
    RoomCostsOldest(s.ring, AskSize(s.total));
    PublishVerdict(s.ring, p, s.Traced(), s.total, tick);
  }

  // ---------------------------------------------------------------- the samples of the current list

  /** A run of the operations, with the samples published and fetched since the latest list was set or the PLC started.
      */
  datatype TraceLog = TraceLog(state: TraceState, published: seq<Sample>, delivered: seq<Sample>)

  function Trace(l: TraceLog, c: Command, sizeOf: map<word, nat>): (l': TraceLog)
    requires l.state.Valid() && Coherent(l.state, sizeOf) && StableIn(c, sizeOf)
    ensures l'.state == Execute(l.state, c, sizeOf) && l'.state.Valid() && Coherent(l'.state, sizeOf)
  {
    ExecuteIsCoherent(l.state, c, sizeOf);
    var s := l.state;
    var s' := Execute(s, c, sizeOf);
    match c
    case Set(_, _) => TraceLog(s', [], [])
    case Start => TraceLog(s', [], [])
    case PublishSample(p, tick) =>
      if s.total > 0 then CoherentRecords(s, p, sizeOf);
        if Publish(s.ring, p, s.Traced(), s.total, tick).1 == 0 then
          TraceLog(s', l.published + [Sample(tick, Collect(p, s.Traced()).0)], l.delivered)
        else TraceLog(s', l.published, l.delivered)
      else TraceLog(s', l.published, l.delivered)
    case Get(token, tick) =>
      match Fetch(s, token, tick).1
      case Samples(samples) => TraceLog(s', l.published, l.delivered + samples)
      case _ => TraceLog(s', l.published, l.delivered)
  }

  /** While variables are traced: a publish reads all of them and loses no queued byte. */
  ghost predicate Gentle(s: TraceState, c: Command)
    requires s.Valid()
  {
    c.PublishSample? && s.total > 0 ==> Collect(c.program, s.Traced()).1 && Smooth(s.ring, AskSize(s.total))
  }

  /** While variables are traced, the ring holds whole samples of the current list: those published since it was set or
      the PLC started, and not yet fetched. */
  ghost predicate Tracks(l: TraceLog) {
    l.state.Valid() && (l.state.total > 0 ==> InOrder(Log(l.state.ring, l.published, l.delivered), l.state.total))
  }

  lemma EmptyInOrder(r: Ring, total: nat)
    requires r.Valid() && r.used == 0
    ensures InOrder(Log(r, [], []), total)
  {
    assert r.Contents() == [];
  }

  lemma PublishTracks(l: TraceLog, p: Program, tick: word, sizeOf: map<word, nat>)
    requires Tracks(l) && Coherent(l.state, sizeOf) && Stable(p, sizeOf) && Gentle(l.state, PublishSample(p, tick))
    ensures Tracks(Trace(l, PublishSample(p, tick), sizeOf))
  {
    if l.state.total > 0 {
      CoherentRecords(l.state, p, sizeOf);
      hide InOrder, Publish, Collect, Smooth, Coherent, Stable;
      NextInOrder(Log(l.state.ring, l.published, l.delivered), l.state.Traced(), l.state.total, PublishEvent(p, tick));
    }
  }

  lemma GetTracks(l: TraceLog, token: word, tick: word, sizeOf: map<word, nat>)
    requires Tracks(l) && Coherent(l.state, sizeOf)
    ensures Tracks(Trace(l, Get(token, tick), sizeOf))
  {
    if l.state.total > 0 {
      hide InOrder, ReadAll, Coherent;
      NextInOrder(Log(l.state.ring, l.published, l.delivered), [], l.state.total, ReadEvent);
    }
  }

  lemma SetTracks(l: TraceLog, orders: seq<word>, p: Program, sizeOf: map<word, nat>)
    requires l.state.Valid() && Coherent(l.state, sizeOf) && Stable(p, sizeOf)
    ensures Tracks(Trace(l, Set(orders, p), sizeOf))
  {
    hide InOrder, Enter, Coherent, Stable;
    var s' := SetList(l.state, orders, p).0;
    EmptyInOrder(s'.ring, s'.total);
  }

  lemma StartTracks(l: TraceLog, sizeOf: map<word, nat>)
    requires l.state.Valid() && Coherent(l.state, sizeOf)
    ensures Tracks(Trace(l, Start, sizeOf))
  {
    hide InOrder, Coherent;
    EmptyInOrder(l.state.ring.(head := 0, used := 0), l.state.total);
  }

  predicate AllStable(commands: seq<Command>, sizeOf: map<word, nat>) {
    forall i :: 0 <= i < |commands| ==> StableIn(commands[i], sizeOf)
  }

  function TraceRun(l: TraceLog, commands: seq<Command>, sizeOf: map<word, nat>): (l': TraceLog)
    requires l.state.Valid() && Coherent(l.state, sizeOf) && AllStable(commands, sizeOf)
    ensures l'.state.Valid() && Coherent(l'.state, sizeOf)
  {
    if commands == [] then l
    else Trace(TraceRun(l, commands[..|commands| - 1], sizeOf), commands[|commands| - 1], sizeOf)
  }

  /** Every publish of the run is gentle when it happens. */
  ghost predicate AllGentle(l: TraceLog, commands: seq<Command>, sizeOf: map<word, nat>)
    requires l.state.Valid() && Coherent(l.state, sizeOf) && AllStable(commands, sizeOf)
  {
    commands == []
    || (AllGentle(l, commands[..|commands| - 1], sizeOf)
        && Gentle(TraceRun(l, commands[..|commands| - 1], sizeOf).state, commands[|commands| - 1]))
  }

  /** The trace over changing lists and restarts: in every run in which publishes are gentle, the samples fetched since
      the latest list was set or the PLC last started, and then those in the ring, are exactly the samples published
      since, in order and of that list's size. */
  lemma {:induction false} MixedFifo(l: TraceLog, commands: seq<Command>, sizeOf: map<word, nat>)
    requires Tracks(l) && Coherent(l.state, sizeOf) && AllStable(commands, sizeOf) && AllGentle(l, commands, sizeOf)
    ensures Tracks(TraceRun(l, commands, sizeOf))
    decreases |commands|
  {
    if commands != [] {
      var before := commands[..|commands| - 1];
      MixedFifo(l, before, sizeOf);
      var b := TraceRun(l, before, sizeOf);
      hide Tracks, Gentle, Trace, Coherent, Stable;
      match commands[|commands| - 1]
      case Set(orders, p) => SetTracks(b, orders, p, sizeOf);
      case PublishSample(p, tick) => PublishTracks(b, p, tick, sizeOf);
      case Get(token, tick) => GetTracks(b, token, tick, sizeOf);
      case Start => StartTracks(b, sizeOf);
    }
  }

  lemma GetDelivers(l: TraceLog, tick: word, sizeOf: map<word, nat>)
    requires Tracks(l) && Coherent(l.state, sizeOf) && l.state.total > 0
    ensures var l' := Trace(l, Get(l.state.token, tick), sizeOf);
            l'.delivered == l.published == l'.published && l'.state.ring.used == 0
  {
    hide Coherent, Fetch, Holds;
    var pending := l.published[|l.delivered|..];
    FetchTakesAll(l.state, tick, pending);
    assert l.delivered + pending == l.published;
    if pending == [] {
      NothingQueued(l.state.ring, l.state.total);
    }
  }

  lemma NothingQueued(r: Ring, total: nat)
    requires r.Valid() && Holds(r, total, [])
    ensures r.used == 0
  {
  }

  /** So after every such run one Get with the current token completes the delivery: everything published since the
      latest list or start has been fetched. */
  lemma GetCompletes(l: TraceLog, commands: seq<Command>, sizeOf: map<word, nat>, tick: word)
    requires Tracks(l) && Coherent(l.state, sizeOf) && AllStable(commands, sizeOf) && AllGentle(l, commands, sizeOf)
    ensures var b := TraceRun(l, commands, sizeOf);
            var l' := Trace(b, Get(b.state.token, tick), sizeOf);
            b.state.total > 0 ==> l'.delivered == b.published && l'.state.ring.used == 0
  {
    hide InOrder, Coherent, AllStable, AllGentle, Trace;
    MixedFifo(l, commands, sizeOf);
    var b := TraceRun(l, commands, sizeOf);
    if b.state.total > 0 {
      GetDelivers(b, tick, sizeOf);
    }
  }
}
