/** What the readers make of a message that ends too soon: every one fails exactly if bytes of its own are missing, and
    otherwise reads the same value (app/erpc/erpc_PLCObject_client.cpp:173-310,
    app/erpc/erpc_PLCObject_server.cpp:56-161). */
module ErpcCut {
  import opened Bytes
  import opened PlcConfig
  import opened Wrappers
  import opened ErpcSpec

  /** What a decoder leaves is the end of what it was given. */
  predicate Ends(s: seq<byte>, rest: seq<byte>) {
    |rest| <= |s| && s[|s| - |rest|..] == rest
  }

  /** Of the first `k` bytes of `s`, which decodes to `full`, the decoder makes `cut`: nothing if bytes it takes are
      missing, else the same value. */
  ghost predicate CutsTo<T>(s: seq<byte>, k: nat, full: Decoded<T>, cut: Decoded<T>) {
    && k <= |s| && full.Some? && Ends(s, full.value.1)
    && var taken := |s| - |full.value.1|;
       cut == if k < taken then None else Some((full.value.0, full.value.1[..k - taken]))
  }

  /** Where a second part starts, and how far the cut reaches into it. */
  lemma CutBehind(s: seq<byte>, s1: seq<byte>, s2: seq<byte>)
    requires Ends(s, s1) && Ends(s1, s2)
    ensures Ends(s, s2)
  {
    assert s[|s| - |s1|..][|s1| - |s2|..] == s[|s| - |s2|..];
  }

  lemma WordCut(s: seq<byte>, k: nat)
    requires DecWord(s).Some? && k <= |s|
    ensures CutsTo(s, k, DecWord(s), DecWord(s[..k]))
  {
    hide Number;
    if k >= 4 {
      assert s[..k][0..4] == s[0..4];
      NumberSame(s[..k], 0, s, 0, 4);
      assert s[..k][4..] == s[4..][..k - 4];
    }
  }

  lemma IntCut(s: seq<byte>, k: nat)
    requires DecInt(s).Some? && k <= |s|
    ensures CutsTo(s, k, DecInt(s), DecInt(s[..k]))
  {
    hide DecWord;
    WordCut(s, k);
  }

  lemma PartCut(s1: seq<byte>, n: nat, k: nat)
    requires n <= |s1|
    ensures Ends(s1, s1[n..])
    ensures n <= k <= |s1| ==> s1[..k][..n] == s1[..n] && s1[..k][n..] == s1[n..][..k - n]
  {
  }

  lemma BytesCut(s: seq<byte>, k: nat)
    requires DecBytes(s).Some? && k <= |s|
    ensures CutsTo(s, k, DecBytes(s), DecBytes(s[..k]))
  {
    hide DecWord, Ends;
    WordCut(s, k);
    var (n, s1) := DecWord(s).value;
    PartCut(s1, n, if k < |s| - |s1| then n else k - (|s| - |s1|));
    CutBehind(s, s1, s1[n..]);
  }

  lemma TextCut(s: seq<byte>, k: nat)
    requires DecText(s).Some? && k <= |s|
    ensures CutsTo(s, k, DecText(s), DecText(s[..k]))
  {
    hide DecBytes, Ends;
    BytesCut(s, k);
  }

  lemma BinaryCut(s: seq<byte>, k: nat)
    requires DecBinary(s).Some? && k <= |s|
    ensures CutsTo(s, k, DecBinary(s), DecBinary(s[..k]))
  {
    hide DecBytes, Ends;
    BytesCut(s, k);
  }

  lemma EndsFits(s: seq<byte>, rest: seq<byte>)
    requires Ends(s, rest)
    ensures |rest| <= |s|
  {
  }

  lemma ExtraFileCut(s: seq<byte>, k: nat)
    requires DecExtraFile(s).Some? && k <= |s|
    ensures CutsTo(s, k, DecExtraFile(s), DecExtraFile(s[..k]))
  {
    hide DecText, DecBinary, Ends;
    TextCut(s, k);
    var s1 := DecText(s).value.1;
    EndsFits(s, s1);
    if |s| - |s1| <= k {
      BinaryCut(s1, k - (|s| - |s1|));
    } else {
      BinaryCut(s1, 0);
    }
    CutBehind(s, s1, DecExtraFile(s).value.1);
    EndsFits(s1, DecExtraFile(s).value.1);
  }

  lemma TraceOrderCut(s: seq<byte>, k: nat)
    requires DecTraceOrder(s).Some? && k <= |s|
    ensures CutsTo(s, k, DecTraceOrder(s), DecTraceOrder(s[..k]))
  {
    hide DecWord, DecBinary, Ends;
    WordCut(s, k);
    var s1 := DecWord(s).value.1;
    EndsFits(s, s1);
    if |s| - |s1| <= k {
      BinaryCut(s1, k - (|s| - |s1|));
    } else {
      BinaryCut(s1, 0);
    }
    CutBehind(s, s1, DecTraceOrder(s).value.1);
    EndsFits(s1, DecTraceOrder(s).value.1);
  }

  lemma TraceSampleCut(s: seq<byte>, k: nat)
    requires DecTraceSample(s).Some? && k <= |s|
    ensures CutsTo(s, k, DecTraceSample(s), DecTraceSample(s[..k]))
  {
    hide DecWord, DecBinary, Ends;
    WordCut(s, k);
    var s1 := DecWord(s).value.1;
    EndsFits(s, s1);
    if |s| - |s1| <= k {
      BinaryCut(s1, k - (|s| - |s1|));
    } else {
      BinaryCut(s1, 0);
    }
    CutBehind(s, s1, DecTraceSample(s).value.1);
    EndsFits(s1, DecTraceSample(s).value.1);
  }

  lemma PskIdCut(s: seq<byte>, k: nat)
    requires DecPskId(s).Some? && k <= |s|
    ensures CutsTo(s, k, DecPskId(s), DecPskId(s[..k]))
  {
    hide DecText, Ends;
    TextCut(s, k);
    var s1 := DecText(s).value.1;
    EndsFits(s, s1);
    if |s| - |s1| <= k {
      TextCut(s1, k - (|s| - |s1|));
    } else {
      TextCut(s1, 0);
    }
    CutBehind(s, s1, DecPskId(s).value.1);
    EndsFits(s1, DecPskId(s).value.1);
  }

  /** A list is cut short like its elements, one after the other. */
  lemma {:induction false} ManyCut<T>(dec: seq<byte> -> Decoded<T>, n: nat, s: seq<byte>, k: nat)
    requires forall t, j: nat :: dec(t).Some? && j <= |t| ==> CutsTo(t, j, dec(t), dec(t[..j]))
    requires DecMany(dec, n, s).Some? && k <= |s|
    ensures CutsTo(s, k, DecMany(dec, n, s), DecMany(dec, n, s[..k]))
    decreases n
  {
    hide Ends;
    if n == 0 {
      NothingTaken(s);
    } else {
      assert CutsTo(s, k, dec(s), dec(s[..k]));
      var s1 := dec(s).value.1;
      EndsFits(s, s1);
      if |s| - |s1| <= k {
        ManyCut(dec, n - 1, s1, k - (|s| - |s1|));
      } else {
        ManyCut(dec, n - 1, s1, 0);
      }
      CutBehind(s, s1, DecMany(dec, n, s).value.1);
      EndsFits(s1, DecMany(dec, n, s).value.1);
    }
  }

  lemma NothingTaken(s: seq<byte>)
    ensures Ends(s, s)
  {
  }

  lemma ListCut<T>(dec: seq<byte> -> Decoded<T>, s: seq<byte>, k: nat)
    requires forall t, j: nat :: dec(t).Some? && j <= |t| ==> CutsTo(t, j, dec(t), dec(t[..j]))
    requires DecList(dec, s).Some? && k <= |s|
    ensures CutsTo(s, k, DecList(dec, s), DecList(dec, s[..k]))
  {
    hide Ends, DecWord, DecMany;
    WordCut(s, k);
    var (n, s1) := DecWord(s).value;
    EndsFits(s, s1);
    ManyCut(dec, n, s1, if |s| - |s1| <= k then k - (|s| - |s1|) else 0);
    CutBehind(s, s1, DecList(dec, s).value.1);
    EndsFits(s1, DecList(dec, s).value.1);
  }

  lemma ExtraFilesCut(s: seq<byte>, k: nat)
    requires DecList(DecExtraFile, s).Some? && k <= |s|
    ensures CutsTo(s, k, DecList(DecExtraFile, s), DecList(DecExtraFile, s[..k]))
  {
    hide DecExtraFile, DecList, CutsTo;
    forall t, j: nat | DecExtraFile(t).Some? && j <= |t|
      ensures CutsTo(t, j, DecExtraFile(t), DecExtraFile(t[..j]))
    {
      ExtraFileCut(t, j);
    }
    ListCut(DecExtraFile, s, k);
  }

  lemma TraceOrdersCut(s: seq<byte>, k: nat)
    requires DecList(DecTraceOrder, s).Some? && k <= |s|
    ensures CutsTo(s, k, DecList(DecTraceOrder, s), DecList(DecTraceOrder, s[..k]))
  {
    hide DecTraceOrder, DecList, CutsTo;
    forall t, j: nat | DecTraceOrder(t).Some? && j <= |t|
      ensures CutsTo(t, j, DecTraceOrder(t), DecTraceOrder(t[..j]))
    {
      TraceOrderCut(t, j);
    }
    ListCut(DecTraceOrder, s, k);
  }

  lemma TraceSamplesCut(s: seq<byte>, k: nat)
    requires DecList(DecTraceSample, s).Some? && k <= |s|
    ensures CutsTo(s, k, DecList(DecTraceSample, s), DecList(DecTraceSample, s[..k]))
  {
    hide DecTraceSample, DecList, CutsTo;
    forall t, j: nat | DecTraceSample(t).Some? && j <= |t|
      ensures CutsTo(t, j, DecTraceSample(t), DecTraceSample(t[..j]))
    {
      TraceSampleCut(t, j);
    }
    ListCut(DecTraceSample, s, k);
  }

  lemma FourCountsCut(s: seq<byte>, k: nat)
    requires DecMany(DecWord, LOG_LEVELS, s).Some? && k <= |s|
    ensures CutsTo(s, k, DecMany(DecWord, LOG_LEVELS, s), DecMany(DecWord, LOG_LEVELS, s[..k]))
  {
    hide DecWord, DecMany, CutsTo;
    forall t, j: nat | DecWord(t).Some? && j <= |t|
      ensures CutsTo(t, j, DecWord(t), DecWord(t[..j]))
    {
      WordCut(t, j);
    }
    ManyCut(DecWord, LOG_LEVELS, s, k);
  }

  lemma PlcStatusCut(s: seq<byte>, k: nat)
    requires DecPlcStatus(s).Some? && k <= |s|
    ensures CutsTo(s, k, DecPlcStatus(s), DecPlcStatus(s[..k]))
  {
    hide DecInt, DecMany, Ends;
    IntCut(s, k);
    var s1 := DecInt(s).value.1;
    EndsFits(s, s1);
    FourCountsCut(s1, if |s| - |s1| <= k then k - (|s| - |s1|) else 0);
    CutBehind(s, s1, DecPlcStatus(s).value.1);
    EndsFits(s1, DecPlcStatus(s).value.1);
  }

  lemma TraceVariablesCut(s: seq<byte>, k: nat)
    requires DecTraceVariables(s).Some? && k <= |s|
    ensures CutsTo(s, k, DecTraceVariables(s), DecTraceVariables(s[..k]))
  {
    hide DecInt, DecList, DecTraceSample, Ends;
    IntCut(s, k);
    var s1 := DecInt(s).value.1;
    EndsFits(s, s1);
    TraceSamplesCut(s1, if |s| - |s1| <= k then k - (|s| - |s1|) else 0);
    CutBehind(s, s1, DecTraceVariables(s).value.1);
    EndsFits(s1, DecTraceVariables(s).value.1);
  }

  /** Three words one after the other, as the last fields of a log message. */
  function DecThree(s: seq<byte>): Decoded<(word, word, word)> {
    match DecWord(s)
    case None => None
    case Some((a, s1)) =>
      match DecWord(s1)
      case None => None
      case Some((b, s2)) =>
        match DecWord(s2)
        case None => None
        case Some((c, s3)) => Some(((a, b, c), s3))
  }

  lemma ThreeCut(s: seq<byte>, k: nat)
    requires DecThree(s).Some? && k <= |s|
    ensures CutsTo(s, k, DecThree(s), DecThree(s[..k]))
  {
    hide DecWord, Ends;
    var s1 := DecWord(s).value.1;
    WordCut(s, k);
    EndsFits(s, s1);
    var k1 := if |s| - |s1| <= k then k - (|s| - |s1|) else 0;
    WordCut(s1, k1);
    var s2 := DecWord(s1).value.1;
    EndsFits(s1, s2);
    var k2 := if |s1| - |s2| <= k1 then k1 - (|s1| - |s2|) else 0;
    WordCut(s2, k2);
    var s3 := DecWord(s2).value.1;
    EndsFits(s2, s3);
    CutBehind(s1, s2, s3);
    CutBehind(s, s1, s3);
  }

  lemma LogMessageCut(s: seq<byte>, k: nat)
    requires DecLogMessage(s).Some? && k <= |s|
    ensures CutsTo(s, k, DecLogMessage(s), DecLogMessage(s[..k]))
  {
    hide DecText, DecWord, Ends;
    TextCut(s, k);
    var s1 := DecText(s).value.1;
    EndsFits(s, s1);
    ThreeCut(s1, if |s| - |s1| <= k then k - (|s| - |s1|) else 0);
    CutBehind(s, s1, DecLogMessage(s).value.1);
    EndsFits(s1, DecLogMessage(s).value.1);
  }
}
