/** The wire form of the eRPC structs and how it is read back (app/erpc/erpc_PLCObject_client.cpp:51-310,
    app/erpc/erpc_PLCObject_server.cpp:56-294), over the codec's words, counted byte strings and counted lists. */
module ErpcSpec {
  import opened Bytes
  import opened PlcConfig
  import opened Wrappers

  type int32 = i: int | -0x8000_0000 <= i < 0x8000_0000

  /** A value and the bytes that follow it, or nothing if the bytes end too soon. */
  type Decoded<T> = Option<(T, seq<byte>)>

  // ---------------------------------------------------------------- codec primitives

  function EncBytes(s: seq<byte>): seq<byte> {
    LittleEndian(U32(|s|)) + s
  }

  function DecWord(s: seq<byte>): Decoded<word> {
    if |s| < 4 then None else Some((Word(s, 0), s[4..]))
  }

  function EncInt(i: int32): seq<byte> {
    LittleEndian(U32(i))
  }

  function DecInt(s: seq<byte>): Decoded<int32> {
    match DecWord(s)
    case None => None
    case Some((w, rest)) => Some((if w < 0x8000_0000 then w else w - 0x1_0000_0000, rest))
  }

  function DecBytes(s: seq<byte>): Decoded<seq<byte>> {
    match DecWord(s)
    case None => None
    case Some((n, rest)) => if |rest| < n then None else Some((rest[..n], rest[n..]))
  }

  function EncAll<T>(enc: T -> seq<byte>, xs: seq<T>): seq<byte> {
    if xs == [] then [] else enc(xs[0]) + EncAll(enc, xs[1..])
  }

  function EncList<T>(enc: T -> seq<byte>, xs: seq<T>): seq<byte> {
    LittleEndian(U32(|xs|)) + EncAll(enc, xs)
  }

  function DecMany<T>(dec: seq<byte> -> Decoded<T>, n: nat, s: seq<byte>): Decoded<seq<T>> {
    if n == 0 then Some(([], s))
    else
      match dec(s)
      case None => None
      case Some((x, rest)) =>
        match DecMany(dec, n - 1, rest)
        case None => None
        case Some((xs, rest')) => Some(([x] + xs, rest'))
  }

  function DecList<T>(dec: seq<byte> -> Decoded<T>, s: seq<byte>): Decoded<seq<T>> {
    match DecWord(s)
    case None => None
    case Some((n, rest)) => DecMany(dec, n, rest)
  }

  lemma WordRoundTrip(w: word, rest: seq<byte>)
    ensures DecWord(LittleEndian(w) + rest) == Some((w, rest))
  {
    var s := LittleEndian(w) + rest;
    NumberSame(s, 0, LittleEndian(w), 0, 4);
    WordOfBytes(w);
  }

  lemma IntRoundTrip(i: int32, rest: seq<byte>)
    ensures DecInt(EncInt(i) + rest) == Some((i, rest))
  {
    WordRoundTrip(U32(i), rest);
  }

  lemma BytesRoundTrip(s: seq<byte>, rest: seq<byte>)
    requires |s| < 0x1_0000_0000
    ensures DecBytes(EncBytes(s) + rest) == Some((s, rest))
  {
    hide LittleEndian, Word, DecWord;
    assert EncBytes(s) + rest == LittleEndian(|s|) + (s + rest);
    WordRoundTrip(|s|, s + rest);
  }

  /** A list reads back, element for element, when each of its elements does. */
  lemma {:induction false} ManyRoundTrip<T>(enc: T -> seq<byte>, dec: seq<byte> -> Decoded<T>, xs: seq<T>, ys: seq<T>,
                                            rest: seq<byte>)
    requires |xs| == |ys|
    requires forall i, r :: 0 <= i < |xs| ==> dec(enc(xs[i]) + r) == Some((ys[i], r))
    ensures DecMany(dec, |xs|, EncAll(enc, xs) + rest) == Some((ys, rest))
  {
    if xs == [] {
      assert [] + rest == rest && ys == [];
    } else {
      assert [ys[0]] + ys[1..] == ys;
      assert enc(xs[0]) + (EncAll(enc, xs[1..]) + rest) == EncAll(enc, xs) + rest;
      assert dec(EncAll(enc, xs) + rest) == Some((ys[0], EncAll(enc, xs[1..]) + rest));
      ManyRoundTrip(enc, dec, xs[1..], ys[1..], rest);
    }
  }

  lemma ListRoundTrip<T>(enc: T -> seq<byte>, dec: seq<byte> -> Decoded<T>, xs: seq<T>, ys: seq<T>, rest: seq<byte>)
    requires |xs| == |ys| && |xs| < 0x1_0000_0000
    requires forall i, r :: 0 <= i < |xs| ==> dec(enc(xs[i]) + r) == Some((ys[i], r))
    ensures DecList(dec, EncList(enc, xs) + rest) == Some((ys, rest))
  {
    hide EncAll, DecMany, DecWord, LittleEndian;
    assert EncList(enc, xs) + rest == LittleEndian(|xs|) + (EncAll(enc, xs) + rest);
    WordRoundTrip(|xs|, EncAll(enc, xs) + rest);
    ManyRoundTrip(enc, dec, xs, ys, rest);
  }

  // ---------------------------------------------------------------- the structs

  /** `isNull` says that the data pointer is NULL. */
  datatype Binary = Binary(isNull: bool, data: seq<byte>)

  /** Character pointers are the bytes of the buffers they point to. */
  datatype ExtraFile = ExtraFile(fname: seq<byte>, blobID: Binary)
  datatype TraceOrder = TraceOrder(idx: word, force: Binary)
  datatype TraceSample = TraceSample(tick: word, buffer: Binary)
  datatype LogMessage = LogMessage(msg: seq<byte>, tick: word, sec: word, nsec: word)
  datatype PskId = PskId(id: seq<byte>, psk: seq<byte>)
  datatype PlcStatus = PlcStatus(status: int32, logcounts: seq<word>)
  datatype TraceVariables = TraceVariables(status: int32, traces: seq<TraceSample>)

  /** A string is written without its NUL. */
  function EncText(buffer: seq<byte>): seq<byte> {
    EncBytes(CString(buffer, 0))
  }

  /** A string is copied into a buffer of its own and terminated. */
  function DecText(s: seq<byte>): Decoded<seq<byte>> {
    match DecBytes(s)
    case None => None
    case Some((text, rest)) => Some((text + [0], rest))
  }

  function EncBinary(b: Binary): seq<byte> {
    EncBytes(b.data)
  }

  function DecBinary(s: seq<byte>): Decoded<Binary> {
    match DecBytes(s)
    case None => None
    case Some((data, rest)) => Some((Binary(data == [], data), rest))
  }

  function EncExtraFile(f: ExtraFile): seq<byte> {
    EncText(f.fname) + EncBinary(f.blobID)
  }

  function DecExtraFile(s: seq<byte>): Decoded<ExtraFile> {
    match DecText(s)
    case None => None
    case Some((fname, s1)) =>
      match DecBinary(s1)
      case None => None
      case Some((blobID, s2)) => Some((ExtraFile(fname, blobID), s2))
  }

  function EncTraceOrder(o: TraceOrder): seq<byte> {
    LittleEndian(o.idx) + EncBinary(o.force)
  }

  function DecTraceOrder(s: seq<byte>): Decoded<TraceOrder> {
    match DecWord(s)
    case None => None
    case Some((idx, s1)) =>
      match DecBinary(s1)
      case None => None
      case Some((force, s2)) => Some((TraceOrder(idx, force), s2))
  }

  function EncTraceSample(t: TraceSample): seq<byte> {
    LittleEndian(t.tick) + EncBinary(t.buffer)
  }

  function DecTraceSample(s: seq<byte>): Decoded<TraceSample> {
    match DecWord(s)
    case None => None
    case Some((tick, s1)) =>
      match DecBinary(s1)
      case None => None
      case Some((buffer, s2)) => Some((TraceSample(tick, buffer), s2))
  }

  function EncLogMessage(m: LogMessage): seq<byte> {
    EncText(m.msg) + LittleEndian(m.tick) + LittleEndian(m.sec) + LittleEndian(m.nsec)
  }

  function DecLogMessage(s: seq<byte>): Decoded<LogMessage> {
    match DecText(s)
    case None => None
    case Some((msg, s1)) =>
      match DecWord(s1)
      case None => None
      case Some((tick, s2)) =>
        match DecWord(s2)
        case None => None
        case Some((sec, s3)) =>
          match DecWord(s3)
          case None => None
          case Some((nsec, s4)) => Some((LogMessage(msg, tick, sec, nsec), s4))
  }

  function EncPskId(p: PskId): seq<byte> {
    EncText(p.id) + EncText(p.psk)
  }

  function DecPskId(s: seq<byte>): Decoded<PskId> {
    match DecText(s)
    case None => None
    case Some((id, s1)) =>
      match DecText(s1)
      case None => None
      case Some((psk, s2)) => Some((PskId(id, psk), s2))
  }

  function EncPlcStatus(p: PlcStatus): seq<byte> {
    EncInt(p.status) + EncAll(w => LittleEndian(w), p.logcounts)
  }

  function DecPlcStatus(s: seq<byte>): Decoded<PlcStatus> {
    match DecInt(s)
    case None => None
    case Some((status, s1)) =>
      match DecMany(DecWord, LOG_LEVELS, s1)
      case None => None
      case Some((logcounts, s2)) => Some((PlcStatus(status, logcounts), s2))
  }

  function EncTraceVariables(t: TraceVariables): seq<byte> {
    EncInt(t.status) + EncList(EncTraceSample, t.traces)
  }

  function DecTraceVariables(s: seq<byte>): Decoded<TraceVariables> {
    match DecInt(s)
    case None => None
    case Some((status, s1)) =>
      match DecList(DecTraceSample, s1)
      case None => None
      case Some((traces, s2)) => Some((TraceVariables(status, traces), s2))
  }

  // ---------------------------------------------------------------- round trips

  /** The buffer ends at its first NUL, so it is the string it holds. */
  predicate IsString(buffer: seq<byte>) {
    buffer == CString(buffer, 0) + [0] && |buffer| <= 0x1_0000_0000
  }

  predicate IsBinary(b: Binary) {
    (b.isNull <==> b.data == []) && |b.data| < 0x1_0000_0000
  }

  /** A string reads back as the bytes before its first NUL, newly terminated: unchanged exactly when it ends there. */
  lemma TextRoundTrip(buffer: seq<byte>, rest: seq<byte>)
    requires |CString(buffer, 0)| < 0x1_0000_0000
    ensures DecText(EncText(buffer) + rest) == Some((CString(buffer, 0) + [0], rest))
    ensures DecText(EncText(buffer) + rest) == Some((buffer, rest)) <==> IsString(buffer)
  {
    BytesRoundTrip(CString(buffer, 0), rest);
  }

  /** Binary data reads back; an empty one always as NULL, so it is unchanged exactly when NULL means empty. */
  lemma BinaryRoundTrip(b: Binary, rest: seq<byte>)
    requires |b.data| < 0x1_0000_0000
    ensures DecBinary(EncBinary(b) + rest) == Some((Binary(b.data == [], b.data), rest))
    ensures DecBinary(EncBinary(b) + rest) == Some((b, rest)) <==> IsBinary(b)
  {
    BytesRoundTrip(b.data, rest);
  }

  /** What the other side reads: the string newly terminated, and NULL for no bytes. */
  function FileAsRead(f: ExtraFile): ExtraFile {
    ExtraFile(CString(f.fname, 0) + [0], BinaryAsRead(f.blobID))
  }

  function BinaryAsRead(b: Binary): Binary {
    Binary(b.data == [], b.data)
  }

  function OrderAsRead(o: TraceOrder): TraceOrder {
    TraceOrder(o.idx, BinaryAsRead(o.force))
  }

  function SampleAsRead(t: TraceSample): TraceSample {
    TraceSample(t.tick, BinaryAsRead(t.buffer))
  }

  /** Lengths that the wire can count. */
  predicate FileFits(f: ExtraFile) {
    |CString(f.fname, 0)| < 0x1_0000_0000 && |f.blobID.data| < 0x1_0000_0000
  }

  lemma ExtraFileRoundTrip(f: ExtraFile, rest: seq<byte>)
    requires FileFits(f)
    ensures DecExtraFile(EncExtraFile(f) + rest) == Some((FileAsRead(f), rest))
    ensures FileAsRead(f) == f <==> IsString(f.fname) && IsBinary(f.blobID)
  {
    TextRoundTrip(f.fname, EncBinary(f.blobID) + rest);
    BinaryRoundTrip(f.blobID, rest);
    hide EncText, DecText, EncBinary, DecBinary, CString;
    assert EncExtraFile(f) + rest == EncText(f.fname) + (EncBinary(f.blobID) + rest);
  }

  lemma TraceOrderRoundTrip(o: TraceOrder, rest: seq<byte>)
    requires |o.force.data| < 0x1_0000_0000
    ensures DecTraceOrder(EncTraceOrder(o) + rest) == Some((OrderAsRead(o), rest))
    ensures OrderAsRead(o) == o <==> IsBinary(o.force)
  {
    WordRoundTrip(o.idx, EncBinary(o.force) + rest);
    BinaryRoundTrip(o.force, rest);
    hide LittleEndian, DecWord, EncBinary, DecBinary;
    assert EncTraceOrder(o) + rest == LittleEndian(o.idx) + (EncBinary(o.force) + rest);
  }

  lemma TraceSampleRoundTrip(t: TraceSample, rest: seq<byte>)
    requires |t.buffer.data| < 0x1_0000_0000
    ensures DecTraceSample(EncTraceSample(t) + rest) == Some((SampleAsRead(t), rest))
    ensures SampleAsRead(t) == t <==> IsBinary(t.buffer)
  {
    WordRoundTrip(t.tick, EncBinary(t.buffer) + rest);
    BinaryRoundTrip(t.buffer, rest);
    hide LittleEndian, DecWord, EncBinary, DecBinary;
    assert EncTraceSample(t) + rest == LittleEndian(t.tick) + (EncBinary(t.buffer) + rest);
  }

  lemma LogMessageRoundTrip(m: LogMessage, rest: seq<byte>)
    requires IsString(m.msg)
    ensures DecLogMessage(EncLogMessage(m) + rest) == Some((m, rest))
  {
    hide EncText, DecText, LittleEndian, DecWord;
    var r3 := LittleEndian(m.nsec) + rest;
    var r2 := LittleEndian(m.sec) + r3;
    var r1 := LittleEndian(m.tick) + r2;
    assert EncLogMessage(m) + rest == EncText(m.msg) + r1;
    TextRoundTrip(m.msg, r1);
    WordRoundTrip(m.tick, r2);
    WordRoundTrip(m.sec, r3);
    WordRoundTrip(m.nsec, rest);
  }

  lemma PskIdRoundTrip(p: PskId, rest: seq<byte>)
    requires IsString(p.id) && IsString(p.psk)
    ensures DecPskId(EncPskId(p) + rest) == Some((p, rest))
  {
    hide EncText, DecText;
    assert EncPskId(p) + rest == EncText(p.id) + (EncText(p.psk) + rest);
    TextRoundTrip(p.id, EncText(p.psk) + rest);
    TextRoundTrip(p.psk, rest);
  }

  lemma PlcStatusRoundTrip(p: PlcStatus, rest: seq<byte>)
    requires |p.logcounts| == LOG_LEVELS
    ensures DecPlcStatus(EncPlcStatus(p) + rest) == Some((p, rest))
  {
    var enc := w => LittleEndian(w);
    assert EncPlcStatus(p) + rest == EncInt(p.status) + (EncAll(enc, p.logcounts) + rest);
    IntRoundTrip(p.status, EncAll(enc, p.logcounts) + rest);
    forall i, r | 0 <= i < |p.logcounts|
      ensures DecWord(enc(p.logcounts[i]) + r) == Some((p.logcounts[i], r))
    {
      WordRoundTrip(p.logcounts[i], r);
    }
    ManyRoundTrip(enc, DecWord, p.logcounts, p.logcounts, rest);
  }

  /** NewPLC's extra files: server read after client write. The list comes back unchanged if and only if every name ends
      at its first NUL and every blob ID is NULL exactly when it is empty. */
  lemma ExtraFilesRoundTrip(fs: seq<ExtraFile>, rest: seq<byte>)
    requires |fs| < 0x1_0000_0000 && forall i :: 0 <= i < |fs| ==> FileFits(fs[i])
    ensures var read := DecList(DecExtraFile, EncList(EncExtraFile, fs) + rest);
            && read == Some((seq(|fs|, i requires 0 <= i < |fs| => FileAsRead(fs[i])), rest))
            && (read == Some((fs, rest))
                <==> forall i :: 0 <= i < |fs| ==> IsString(fs[i].fname) && IsBinary(fs[i].blobID))
  {
    var read := seq(|fs|, i requires 0 <= i < |fs| => FileAsRead(fs[i]));
    forall i, r | 0 <= i < |fs|
      ensures DecExtraFile(EncExtraFile(fs[i]) + r) == Some((read[i], r))
      ensures read[i] == fs[i] <==> IsString(fs[i].fname) && IsBinary(fs[i].blobID)
    {
      ExtraFileRoundTrip(fs[i], r);
    }
    hide DecExtraFile, EncExtraFile, FileAsRead, IsString, IsBinary, DecList, EncList;
    ListRoundTrip(EncExtraFile, DecExtraFile, fs, read, rest);
    SameElements(fs, read);
    forall i | 0 <= i < |fs|
      ensures read[i] == fs[i] <==> IsString(fs[i].fname) && IsBinary(fs[i].blobID)
    {
      ExtraFileRoundTrip(fs[i], []);
    }
  }

  lemma SameElements<T>(xs: seq<T>, ys: seq<T>)
    requires |xs| == |ys|
    ensures xs == ys <==> forall i :: 0 <= i < |xs| ==> ys[i] == xs[i]
  {
  }

  /** SetTraceVariablesList's orders: server read after client write. The list comes back unchanged if and only if every
      forced value is NULL exactly when it is empty. */
  lemma TraceOrdersRoundTrip(os: seq<TraceOrder>, rest: seq<byte>)
    requires |os| < 0x1_0000_0000 && forall i :: 0 <= i < |os| ==> |os[i].force.data| < 0x1_0000_0000
    ensures var read := DecList(DecTraceOrder, EncList(EncTraceOrder, os) + rest);
            && read == Some((seq(|os|, i requires 0 <= i < |os| => OrderAsRead(os[i])), rest))
            && (read == Some((os, rest)) <==> forall i :: 0 <= i < |os| ==> IsBinary(os[i].force))
  {
    var read := seq(|os|, i requires 0 <= i < |os| => OrderAsRead(os[i]));
    forall i, r | 0 <= i < |os|
      ensures DecTraceOrder(EncTraceOrder(os[i]) + r) == Some((read[i], r))
    {
      TraceOrderRoundTrip(os[i], r);
    }
    hide DecTraceOrder, EncTraceOrder, OrderAsRead, IsBinary, DecList, EncList;
    ListRoundTrip(EncTraceOrder, DecTraceOrder, os, read, rest);
    SameElements(os, read);
    forall i | 0 <= i < |os|
      ensures read[i] == os[i] <==> IsBinary(os[i].force)
    {
      TraceOrderRoundTrip(os[i], []);
    }
  }

  /** GetTraceVariables' samples: client read after server write. */
  lemma TraceSamplesRoundTrip(ts: seq<TraceSample>, rest: seq<byte>)
    requires |ts| < 0x1_0000_0000 && forall i :: 0 <= i < |ts| ==> |ts[i].buffer.data| < 0x1_0000_0000
    ensures var read := DecList(DecTraceSample, EncList(EncTraceSample, ts) + rest);
            && read == Some((seq(|ts|, i requires 0 <= i < |ts| => SampleAsRead(ts[i])), rest))
            && (read == Some((ts, rest)) <==> forall i :: 0 <= i < |ts| ==> IsBinary(ts[i].buffer))
  {
    var read := seq(|ts|, i requires 0 <= i < |ts| => SampleAsRead(ts[i]));
    forall i, r | 0 <= i < |ts|
      ensures DecTraceSample(EncTraceSample(ts[i]) + r) == Some((read[i], r))
    {
      TraceSampleRoundTrip(ts[i], r);
    }
    hide DecTraceSample, EncTraceSample, SampleAsRead, IsBinary, DecList, EncList;
    ListRoundTrip(EncTraceSample, DecTraceSample, ts, read, rest);
    SameElements(ts, read);
    forall i | 0 <= i < |ts|
      ensures read[i] == ts[i] <==> IsBinary(ts[i].buffer)
    {
      TraceSampleRoundTrip(ts[i], []);
    }
  }

  /** GetTraceVariables' reply: client read after server write. It comes back unchanged if and only if every sample's
      buffer is NULL exactly when it is empty. */
  lemma TraceVariablesRoundTrip(t: TraceVariables, rest: seq<byte>)
    requires |t.traces| < 0x1_0000_0000
    requires forall i :: 0 <= i < |t.traces| ==> |t.traces[i].buffer.data| < 0x1_0000_0000
    ensures var read := DecTraceVariables(EncTraceVariables(t) + rest);
            && read.Some? && read.value.1 == rest && read.value.0.status == t.status
            && read.value.0.traces == seq(|t.traces|, i requires 0 <= i < |t.traces| => SampleAsRead(t.traces[i]))
            && (read == Some((t, rest)) <==> forall i :: 0 <= i < |t.traces| ==> IsBinary(t.traces[i].buffer))
  {
    hide EncInt, DecInt, EncList, DecList, IsBinary, SampleAsRead;
    var list := EncList(EncTraceSample, t.traces);
    IntRoundTrip(t.status, list + rest);
    TraceSamplesRoundTrip(t.traces, rest);
    assert EncTraceVariables(t) + rest == EncInt(t.status) + (list + rest);
  }

  /** A forced value of no bytes does not survive the wire: it arrives as NULL, which means "not forced". */
  lemma EmptyForceIsDropped(idx: word, rest: seq<byte>)
    ensures DecTraceOrder(EncTraceOrder(TraceOrder(idx, Binary(false, []))) + rest)
            == Some((TraceOrder(idx, Binary(true, [])), rest))
  {
    TraceOrderRoundTrip(TraceOrder(idx, Binary(false, [])), rest);
  }
}
