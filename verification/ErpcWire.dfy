/** The octets of the eRPC messages, field by field (app/erpc/erpc_PLCObject_client.cpp:51-119,
    app/erpc/erpc_PLCObject_server.cpp:198-294): words of four octets, least significant first, strings and binaries
    behind their length, lists behind their count. */
module ErpcWire {
  import opened Bytes
  import opened PlcConfig
  import opened Wrappers
  import opened ErpcSpec

  lemma {:induction false} TextOf(text: seq<byte>, rest: seq<byte>, at: nat)
    requires 0 !in text && at <= |text|
    ensures CString(text + [0] + rest, at) == text[at..]
    decreases |text| - at
  {
    var buffer := text + [0] + rest;
    if at == |text| {
      assert buffer[at] == 0;
    } else {
      assert buffer[at] == text[at] && text[at] in text;
      TextOf(text, rest, at + 1);
      assert text[at..] == [text[at]] + text[at + 1..];
    }
  }

  /** A string goes out as its length without the NUL and its characters, whatever stands behind the NUL. */
  lemma TextWire(text: seq<byte>, rest: seq<byte>)
    requires 0 !in text && |text| < 0x1_0000_0000
    ensures EncText(text + [0] + rest) == LittleEndian(|text|) + text
  {
    TextOf(text, rest, 0);
  }

  lemma BinaryWire(b: Binary)
    requires |b.data| < 0x1_0000_0000
    ensures EncBinary(b) == LittleEndian(|b.data|) + b.data
  {
    assert U32(|b.data|) == |b.data|;
  }

  lemma ExtraFileWire(fname: seq<byte>, blobID: Binary)
    requires 0 !in fname && |fname| < 0x1_0000_0000 && |blobID.data| < 0x1_0000_0000
    ensures EncExtraFile(ExtraFile(fname + [0], blobID))
            == LittleEndian(|fname|) + fname + (LittleEndian(|blobID.data|) + blobID.data)
  {
    hide LittleEndian, EncText, EncBinary, CString;
    TextWire(fname, []);
    BinaryWire(blobID);
    assert fname + [0] + [] == fname + [0];
  }

  lemma TraceOrderWire(idx: word, force: Binary)
    requires |force.data| < 0x1_0000_0000
    ensures EncTraceOrder(TraceOrder(idx, force)) == LittleEndian(idx) + (LittleEndian(|force.data|) + force.data)
  {
    hide LittleEndian, EncBinary;
    BinaryWire(force);
  }

  lemma TraceSampleWire(tick: word, buffer: Binary)
    requires |buffer.data| < 0x1_0000_0000
    ensures EncTraceSample(TraceSample(tick, buffer))
            == LittleEndian(tick) + (LittleEndian(|buffer.data|) + buffer.data)
  {
    hide LittleEndian, EncBinary;
    BinaryWire(buffer);
  }

  lemma LogMessageWire(msg: seq<byte>, tick: word, sec: word, nsec: word)
    requires 0 !in msg && |msg| < 0x1_0000_0000
    ensures EncLogMessage(LogMessage(msg + [0], tick, sec, nsec))
            == LittleEndian(|msg|) + msg + LittleEndian(tick) + LittleEndian(sec) + LittleEndian(nsec)
  {
    TextWire(msg, []);
    assert msg + [0] + [] == msg + [0];
  }

  lemma PskIdWire(id: seq<byte>, psk: seq<byte>)
    requires 0 !in id && 0 !in psk && |id| < 0x1_0000_0000 && |psk| < 0x1_0000_0000
    ensures EncPskId(PskId(id + [0], psk + [0])) == LittleEndian(|id|) + id + (LittleEndian(|psk|) + psk)
  {
    TextWire(id, []);
    TextWire(psk, []);
    assert id + [0] + [] == id + [0] && psk + [0] + [] == psk + [0];
  }

  /** A negative status goes out in two's complement. */
  lemma PlcStatusWire(status: int32, a: word, b: word, c: word, d: word)
    ensures EncPlcStatus(PlcStatus(status, [a, b, c, d]))
            == LittleEndian(if status >= 0 then status else status + 0x1_0000_0000)
               + (LittleEndian(a) + (LittleEndian(b) + (LittleEndian(c) + LittleEndian(d))))
  {
    hide LittleEndian;
    var enc := (w: word) => LittleEndian(w);
    assert EncAll(enc, []) == [];
    assert EncAll(enc, [d]) == LittleEndian(d) + EncAll(enc, [d][1..]) == LittleEndian(d);
    assert [c, d][1..] == [d] && EncAll(enc, [c, d]) == LittleEndian(c) + LittleEndian(d);
    assert [b, c, d][1..] == [c, d] && EncAll(enc, [b, c, d]) == LittleEndian(b) + (LittleEndian(c) + LittleEndian(d));
    assert [a, b, c, d][1..] == [b, c, d];
  }

  /** A list goes out as its count and its elements in order. */
  lemma ListWire<T>(enc: T -> seq<byte>, xs: seq<T>, x: T)
    requires |xs| + 1 < 0x1_0000_0000
    ensures EncList(enc, []) == [0, 0, 0, 0]
    ensures EncList(enc, xs + [x])[..4] == LittleEndian(|xs| + 1)
    ensures EncList(enc, xs + [x])[4..] == EncList(enc, xs)[4..] + enc(x)
  {
    AllAppend(enc, xs, x);
    assert LittleEndian(0) == [0, 0, 0, 0];
  }

  lemma {:induction false} AllAppend<T>(enc: T -> seq<byte>, xs: seq<T>, x: T)
    ensures EncAll(enc, xs + [x]) == EncAll(enc, xs) + enc(x)
  {
    if xs == [] {
      assert [x][1..] == [] && [] + [x] == [x];
    } else {
      AllAppend(enc, xs[1..], x);
      assert (xs + [x])[1..] == xs[1..] + [x];
    }
  }

  lemma TraceVariablesWire(status: int32, traces: seq<TraceSample>)
    ensures EncTraceVariables(TraceVariables(status, traces))
            == LittleEndian(if status >= 0 then status else status + 0x1_0000_0000) + EncList(EncTraceSample, traces)
  {
  }

  /** For instance: tick 258 with the two octets 7 and 9. */
  lemma SampleImage()
    ensures EncTraceSample(TraceSample(258, Binary(false, [7, 9]))) == [2, 1, 0, 0, 2, 0, 0, 0, 7, 9]
  {
    assert LittleEndian(258) == [2, 1, 0, 0] && LittleEndian(2) == [2, 0, 0, 0];
  }
}
