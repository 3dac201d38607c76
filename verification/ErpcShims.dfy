/** The struct shims on a codec that appends to the bytes it writes and consumes those it reads
    (app/erpc/erpc_PLCObject_client.cpp:51-310, app/erpc/erpc_PLCObject_server.cpp:56-294). */
module ErpcShims {
  import opened Bytes
  import opened PlcConfig
  import opened Wrappers
  import opened ErpcSpec

  /** The codec's own calls. A read past the end clears `ok`, and every later read then fails as well. */
  class Codec {
    var output: seq<byte>
    var input: seq<byte>
    var ok: bool

    constructor (input: seq<byte>)
      ensures this.output == [] && this.input == input && ok
    {
      this.output, this.input, ok := [], input, true;
    }

    method Write(w: word)
      modifies this`output
      ensures output == old(output) + LittleEndian(w)
    {
      output := output + LittleEndian(w);
    }

    method WriteInt(i: int32)
      modifies this`output
      ensures output == old(output) + EncInt(i)
    {
      output := output + LittleEndian(U32(i));
    }

    method WriteBytes(s: seq<byte>)
      modifies this`output
      ensures output == old(output) + EncBytes(s)
    {
      Write(U32(|s|));
      output := output + s;
    }

    method Read() returns (w: word)
      modifies this`input, this`ok
      ensures Took(old(ok), old(input), DecWord(old(input)), w)
    {
      w := 0;
      if ok && |input| >= 4 {
        w := Word(input, 0);
        input := input[4..];
      } else {
        ok := false;
      }
    }

    method ReadInt() returns (i: int32)
      modifies this`input, this`ok
      ensures Took(old(ok), old(input), DecInt(old(input)), i)
    {
      var w := Read();
      var v: int := w;
      i := if v < 0x8000_0000 then v else v - 0x1_0000_0000;
    }

    method ReadBytes() returns (s: seq<byte>)
      modifies this`input, this`ok
      ensures Took(old(ok), old(input), DecBytes(old(input)), s)
    {
      s := [];
      var n := Read();
      if ok && n <= |input| {
        s := input[..n];
        input := input[n..];
      } else {
        ok := false;
      }
    }

    /** The outcome of a read: the value was decoded from the input, or the codec has failed. */
    ghost predicate Took<T>(wasOk: bool, before: seq<byte>, decoded: Decoded<T>, x: T)
      reads this
    {
      && ok == (wasOk && decoded.Some?)
      && (ok ==> decoded == Some((x, input)))
    }
  }

  // ---------------------------------------------------------------- write

  lemma {:induction false} CStringEnds(buffer: seq<byte>, a: nat, n: nat)
    requires a <= n < |buffer| && buffer[n] == 0 && forall j :: a <= j < n ==> buffer[j] != 0
    ensures CString(buffer, a) == buffer[a..n]
    decreases n - a
  {
    if a < n {
      CStringEnds(buffer, a + 1, n);
      assert buffer[a..n] == [buffer[a]] + buffer[a + 1..n];
    }
  }

  method Strlen(buffer: seq<byte>) returns (n: nat)
    requires 0 in buffer
    ensures n < |buffer| && buffer[..n] == CString(buffer, 0)
  {
    n := 0;
    ghost var k :| 0 <= k < |buffer| && buffer[k] == 0;
    while buffer[n] != 0
      invariant n <= k && forall j :: 0 <= j < n ==> buffer[j] != 0
      decreases k - n
    {
      n := n + 1;
    }
    CStringEnds(buffer, 0, n);
    assert buffer[0..n] == buffer[..n];
  }

  method WriteText(codec: Codec, buffer: seq<byte>)
    requires 0 in buffer
    modifies codec`output
    ensures codec.output == old(codec.output) + EncText(buffer)
  {
    var n := Strlen(buffer);
    codec.WriteBytes(buffer[..n]);
  }

  method WriteBinary(codec: Codec, b: Binary)
    modifies codec`output
    ensures codec.output == old(codec.output) + EncBinary(b)
  {
    codec.WriteBytes(b.data);
  }

  method WriteExtraFile(codec: Codec, f: ExtraFile)
    requires 0 in f.fname
    modifies codec`output
    ensures codec.output == old(codec.output) + EncExtraFile(f)
  {
    WriteText(codec, f.fname);
    WriteBinary(codec, f.blobID);
  }

  method WriteExtraFiles(codec: Codec, fs: seq<ExtraFile>)
    requires forall f :: f in fs ==> 0 in f.fname
    modifies codec`output
    ensures codec.output == old(codec.output) + EncList(EncExtraFile, fs)
  {
    hide EncExtraFile;
    codec.Write(U32(|fs|));
    for i := 0 to |fs|
      invariant codec.output + EncAll(EncExtraFile, fs[i..]) == old(codec.output) + EncList(EncExtraFile, fs)
    {
      WriteExtraFile(codec, fs[i]);
      assert fs[i..][1..] == fs[i + 1..];
    }
  }

  method WriteTraceOrder(codec: Codec, o: TraceOrder)
    modifies codec`output
    ensures codec.output == old(codec.output) + EncTraceOrder(o)
  {
    codec.Write(o.idx);
    WriteBinary(codec, o.force);
  }

  method WriteTraceOrders(codec: Codec, os: seq<TraceOrder>)
    modifies codec`output
    ensures codec.output == old(codec.output) + EncList(EncTraceOrder, os)
  {
    hide EncTraceOrder;
    codec.Write(U32(|os|));
    for i := 0 to |os|
      invariant codec.output + EncAll(EncTraceOrder, os[i..]) == old(codec.output) + EncList(EncTraceOrder, os)
    {
      WriteTraceOrder(codec, os[i]);
      assert os[i..][1..] == os[i + 1..];
    }
  }

  method WriteTraceSample(codec: Codec, t: TraceSample)
    modifies codec`output
    ensures codec.output == old(codec.output) + EncTraceSample(t)
  {
    codec.Write(t.tick);
    WriteBinary(codec, t.buffer);
  }

  method WriteTraceSamples(codec: Codec, ts: seq<TraceSample>)
    modifies codec`output
    ensures codec.output == old(codec.output) + EncList(EncTraceSample, ts)
  {
    hide EncTraceSample;
    codec.Write(U32(|ts|));
    for i := 0 to |ts|
      invariant codec.output + EncAll(EncTraceSample, ts[i..]) == old(codec.output) + EncList(EncTraceSample, ts)
    {
      WriteTraceSample(codec, ts[i]);
      assert ts[i..][1..] == ts[i + 1..];
    }
  }

  method WriteTraceVariables(codec: Codec, t: TraceVariables)
    modifies codec`output
    ensures codec.output == old(codec.output) + EncTraceVariables(t)
  {
    codec.WriteInt(t.status);
    WriteTraceSamples(codec, t.traces);
  }

  method WriteLogMessage(codec: Codec, m: LogMessage)
    requires 0 in m.msg
    modifies codec`output
    ensures codec.output == old(codec.output) + EncLogMessage(m)
  {
    WriteText(codec, m.msg);
    codec.Write(m.tick);
    codec.Write(m.sec);
    codec.Write(m.nsec);
  }

  method WritePskId(codec: Codec, p: PskId)
    requires 0 in p.id && 0 in p.psk
    modifies codec`output
    ensures codec.output == old(codec.output) + EncPskId(p)
  {
    WriteText(codec, p.id);
    WriteText(codec, p.psk);
  }

  method WritePlcStatus(codec: Codec, p: PlcStatus)
    requires |p.logcounts| == LOG_LEVELS
    modifies codec`output
    ensures codec.output == old(codec.output) + EncPlcStatus(p)
  {
    ghost var enc := w => LittleEndian(w);
    codec.WriteInt(p.status);
    for i := 0 to LOG_LEVELS
      invariant codec.output + EncAll(enc, p.logcounts[i..]) == old(codec.output) + EncPlcStatus(p)
    {
      codec.Write(p.logcounts[i]);
      assert p.logcounts[i..][1..] == p.logcounts[i + 1..];
    }
  }

  // ---------------------------------------------------------------- read

  method ReadText(codec: Codec) returns (buffer: seq<byte>)
    modifies codec`input, codec`ok
    ensures codec.Took(old(codec.ok), old(codec.input), DecText(old(codec.input)), buffer)
  {
    var text := codec.ReadBytes();
    buffer := text + [0];
  }

  method ReadBinary(codec: Codec) returns (b: Binary)
    modifies codec`input, codec`ok
    ensures codec.Took(old(codec.ok), old(codec.input), DecBinary(old(codec.input)), b)
  {
    var data := codec.ReadBytes();
    if |data| > 0 {
      b := Binary(false, data);
    } else {
      b := Binary(true, []);
    }
  }

  method ReadExtraFile(codec: Codec) returns (f: ExtraFile)
    modifies codec`input, codec`ok
    ensures codec.Took(old(codec.ok), old(codec.input), DecExtraFile(old(codec.input)), f)
  {
    hide DecText, DecBinary;
    var fname := ReadText(codec);
    var blobID := ReadBinary(codec);
    f := ExtraFile(fname, blobID);
  }

  method ReadTraceOrder(codec: Codec) returns (o: TraceOrder)
    modifies codec`input, codec`ok
    ensures codec.Took(old(codec.ok), old(codec.input), DecTraceOrder(old(codec.input)), o)
  {
    hide DecWord, DecBinary;
    var idx := codec.Read();
    var force := ReadBinary(codec);
    o := TraceOrder(idx, force);
  }

  method ReadTraceSample(codec: Codec) returns (t: TraceSample)
    modifies codec`input, codec`ok
    ensures codec.Took(old(codec.ok), old(codec.input), DecTraceSample(old(codec.input)), t)
  {
    hide DecWord, DecBinary;
    var tick := codec.Read();
    var buffer := ReadBinary(codec);
    t := TraceSample(tick, buffer);
  }

  /** What the elements still to be read add to those already read. */
  function Continued<T>(done: seq<T>, more: Decoded<seq<T>>): Decoded<seq<T>> {
    match more
    case None => None
    case Some((xs, rest)) => Some((done + xs, rest))
  }

  lemma ContinueNothing<T>(more: Decoded<seq<T>>)
    ensures Continued([], more) == more
  {
    if more.Some? {
      assert [] + more.value.0 == more.value.0;
    }
  }

  lemma ContinueStep<T>(dec: seq<byte> -> Decoded<T>, n: nat, s: seq<byte>, done: seq<T>)
    ensures Continued(done, DecMany(dec, 0, s)) == Some((done, s))
    ensures n > 0 && dec(s).None? ==> Continued(done, DecMany(dec, n, s)).None?
    ensures n > 0 && dec(s).Some? ==>
              Continued(done, DecMany(dec, n, s))
                  == Continued(done + [dec(s).value.0], DecMany(dec, n - 1, dec(s).value.1))
  {
    assert done + [] == done;
    if n > 0 && dec(s).Some? {
      var (x, rest) := dec(s).value;
      var more := DecMany(dec, n - 1, rest);
      if more.Some? {
        assert done + ([x] + more.value.0) == done + [x] + more.value.0;
      }
    }
  }

  method ReadExtraFiles(codec: Codec) returns (fs: seq<ExtraFile>)
    modifies codec`input, codec`ok
    ensures codec.Took(old(codec.ok), old(codec.input), DecList(DecExtraFile, old(codec.input)), fs)
  {
    hide DecWord, DecExtraFile, DecMany;
    fs := [];
    var n := codec.Read();
    ghost var start, decoded := codec.ok, DecMany(DecExtraFile, n, codec.input);
    ContinueNothing(decoded);
    for i := 0 to n
      invariant codec.ok ==> start && Continued(fs, DecMany(DecExtraFile, n - i, codec.input)) == decoded
      invariant !codec.ok && start ==> decoded.None?
      invariant !start ==> !codec.ok
    {
      ContinueStep(DecExtraFile, n - i, codec.input, fs);
      var f := ReadExtraFile(codec);
      fs := fs + [f];
    }
    ContinueStep(DecExtraFile, 0, codec.input, fs);
  }

  method ReadTraceOrders(codec: Codec) returns (os: seq<TraceOrder>)
    modifies codec`input, codec`ok
    ensures codec.Took(old(codec.ok), old(codec.input), DecList(DecTraceOrder, old(codec.input)), os)
  {
    hide DecWord, DecTraceOrder, DecMany;
    os := [];
    var n := codec.Read();
    ghost var start, decoded := codec.ok, DecMany(DecTraceOrder, n, codec.input);
    ContinueNothing(decoded);
    for i := 0 to n
      invariant codec.ok ==> start && Continued(os, DecMany(DecTraceOrder, n - i, codec.input)) == decoded
      invariant !codec.ok && start ==> decoded.None?
      invariant !start ==> !codec.ok
    {
      ContinueStep(DecTraceOrder, n - i, codec.input, os);
      var o := ReadTraceOrder(codec);
      os := os + [o];
    }
    ContinueStep(DecTraceOrder, 0, codec.input, os);
  }

  method ReadTraceSamples(codec: Codec) returns (ts: seq<TraceSample>)
    modifies codec`input, codec`ok
    ensures codec.Took(old(codec.ok), old(codec.input), DecList(DecTraceSample, old(codec.input)), ts)
  {
    hide DecWord, DecTraceSample, DecMany;
    ts := [];
    var n := codec.Read();
    ghost var start, decoded := codec.ok, DecMany(DecTraceSample, n, codec.input);
    ContinueNothing(decoded);
    for i := 0 to n
      invariant codec.ok ==> start && Continued(ts, DecMany(DecTraceSample, n - i, codec.input)) == decoded
      invariant !codec.ok && start ==> decoded.None?
      invariant !start ==> !codec.ok
    {
      ContinueStep(DecTraceSample, n - i, codec.input, ts);
      var t := ReadTraceSample(codec);
      ts := ts + [t];
    }
    ContinueStep(DecTraceSample, 0, codec.input, ts);
  }

  method ReadTraceVariables(codec: Codec) returns (t: TraceVariables)
    modifies codec`input, codec`ok
    ensures codec.Took(old(codec.ok), old(codec.input), DecTraceVariables(old(codec.input)), t)
  {
    hide DecInt, DecList;
    var status := codec.ReadInt();
    var traces := ReadTraceSamples(codec);
    t := TraceVariables(status, traces);
  }

  method ReadLogMessage(codec: Codec) returns (m: LogMessage)
    modifies codec`input, codec`ok
    ensures codec.Took(old(codec.ok), old(codec.input), DecLogMessage(old(codec.input)), m)
  {
    hide DecText, DecWord;
    var msg := ReadText(codec);
    var tick := codec.Read();
    var sec := codec.Read();
    var nsec := codec.Read();
    m := LogMessage(msg, tick, sec, nsec);
  }

  method ReadPskId(codec: Codec) returns (p: PskId)
    modifies codec`input, codec`ok
    ensures codec.Took(old(codec.ok), old(codec.input), DecPskId(old(codec.input)), p)
  {
    hide DecText;
    var id := ReadText(codec);
    var psk := ReadText(codec);
    p := PskId(id, psk);
  }

  method ReadPlcStatus(codec: Codec) returns (p: PlcStatus)
    modifies codec`input, codec`ok
    ensures codec.Took(old(codec.ok), old(codec.input), DecPlcStatus(old(codec.input)), p)
  {
    hide DecInt, DecWord, DecMany;
    var status := codec.ReadInt();
    var logcounts := [];
    ghost var start, decoded := codec.ok, DecMany(DecWord, LOG_LEVELS, codec.input);
    ContinueNothing(decoded);
    for i := 0 to LOG_LEVELS
      invariant codec.ok ==> start && Continued(logcounts, DecMany(DecWord, LOG_LEVELS - i, codec.input)) == decoded
      invariant !codec.ok && start ==> decoded.None?
      invariant !start ==> !codec.ok
    {
      ContinueStep(DecWord, LOG_LEVELS - i, codec.input, logcounts);
      var w := codec.Read();
      logcounts := logcounts + [w];
    }
    ContinueStep(DecWord, 0, codec.input, logcounts);
    p := PlcStatus(status, logcounts);
  }

  // ---------------------------------------------------------------- from one side to the other

  /** NewPLC's extra files from client to server: what is read is what was written, and what follows is left. */
  method SendExtraFiles(fs: seq<ExtraFile>, rest: seq<byte>)
      returns (received: seq<ExtraFile>, left: seq<byte>, ok: bool)
    requires |fs| < 0x1_0000_0000 && forall f :: f in fs ==> IsString(f.fname) && IsBinary(f.blobID)
    ensures ok && received == fs && left == rest
  {
    var writer := new Codec([]);
    forall f | f in fs
      ensures 0 in f.fname
    {
      assert f.fname[|f.fname| - 1] == 0;
    }
    WriteExtraFiles(writer, fs);
    var reader := new Codec(writer.output + rest);
    forall i | 0 <= i < |fs|
      ensures FileFits(fs[i]) && IsString(fs[i].fname) && IsBinary(fs[i].blobID)
    {
      assert fs[i] in fs;
    }
    ExtraFilesRoundTrip(fs, rest);
    assert [] + EncList(EncExtraFile, fs) == EncList(EncExtraFile, fs);
    received := ReadExtraFiles(reader);
    left, ok := reader.input, reader.ok;
  }

  /** SetTraceVariablesList's orders from client to server. */
  method SendTraceOrders(os: seq<TraceOrder>, rest: seq<byte>)
      returns (received: seq<TraceOrder>, left: seq<byte>, ok: bool)
    requires |os| < 0x1_0000_0000 && forall o :: o in os ==> IsBinary(o.force)
    ensures ok && received == os && left == rest
  {
    var writer := new Codec([]);
    WriteTraceOrders(writer, os);
    var reader := new Codec(writer.output + rest);
    TraceOrdersRoundTrip(os, rest);
    assert [] + EncList(EncTraceOrder, os) == EncList(EncTraceOrder, os);
    received := ReadTraceOrders(reader);
    left, ok := reader.input, reader.ok;
  }

  /** GetTraceVariables' reply from server to client. */
  method SendTraceVariables(t: TraceVariables, rest: seq<byte>)
      returns (received: TraceVariables, left: seq<byte>, ok: bool)
    requires |t.traces| < 0x1_0000_0000 && forall x :: x in t.traces ==> IsBinary(x.buffer)
    ensures ok && received == t && left == rest
  {
    var writer := new Codec([]);
    WriteTraceVariables(writer, t);
    var reader := new Codec(writer.output + rest);
    TraceVariablesRoundTrip(t, rest);
    assert [] + EncTraceVariables(t) == EncTraceVariables(t);
    received := ReadTraceVariables(reader);
    left, ok := reader.input, reader.ok;
  }

  /** GetLogMessage's reply from server to client. */
  method SendLogMessage(m: LogMessage, rest: seq<byte>) returns (received: LogMessage, left: seq<byte>, ok: bool)
    requires IsString(m.msg)
    ensures ok && received == m && left == rest
  {
    var writer := new Codec([]);
    assert m.msg[|m.msg| - 1] == 0;
    WriteLogMessage(writer, m);
    var reader := new Codec(writer.output + rest);
    LogMessageRoundTrip(m, rest);
    assert [] + EncLogMessage(m) == EncLogMessage(m);
    received := ReadLogMessage(reader);
    left, ok := reader.input, reader.ok;
  }

  /** GetPLCID's reply from server to client. */
  method SendPskId(p: PskId, rest: seq<byte>) returns (received: PskId, left: seq<byte>, ok: bool)
    requires IsString(p.id) && IsString(p.psk)
    ensures ok && received == p && left == rest
  {
    var writer := new Codec([]);
    assert p.id[|p.id| - 1] == 0 && p.psk[|p.psk| - 1] == 0;
    WritePskId(writer, p);
    var reader := new Codec(writer.output + rest);
    PskIdRoundTrip(p, rest);
    assert [] + EncPskId(p) == EncPskId(p);
    received := ReadPskId(reader);
    left, ok := reader.input, reader.ok;
  }

  /** GetPLCstatus' reply from server to client. */
  method SendPlcStatus(p: PlcStatus, rest: seq<byte>) returns (received: PlcStatus, left: seq<byte>, ok: bool)
    requires |p.logcounts| == LOG_LEVELS
    ensures ok && received == p && left == rest
  {
    var writer := new Codec([]);
    WritePlcStatus(writer, p);
    var reader := new Codec(writer.output + rest);
    PlcStatusRoundTrip(p, rest);
    assert [] + EncPlcStatus(p) == EncPlcStatus(p);
    received := ReadPlcStatus(reader);
    left, ok := reader.input, reader.ok;
  }
}
