/** A transfer of two uploads that meets every hypothesis of the upload results, for a concrete digest. */
module UploadExample {
  import opened Bytes
  import opened Wrappers
  import opened UploadSpec
  import opened UploadResults

  /** A digest that pads and cuts to 16 bytes. */
  function Pad(x: seq<byte>): (d: seq<byte>)
    ensures |d| == DIGEST_SIZE
  {
    if |x| >= DIGEST_SIZE then x[..DIGEST_SIZE] else x + Zeros(DIGEST_SIZE - |x|)
  }

  const PAGE := "/lfs:/tmp/page.tmp"
  const PLC := "/lfs:/tmp/plc.tmp"
  const SCOPE := Scope(1, {[1], [1, 7], [2], [2, 8]})
  const SEND: seq<Event> :=
    [PurgeEvent, SeedEvent(PAGE, [1]), AppendEvent([7]), SeedEvent(PLC, [2]), AppendEvent([8])]
  const EXTRAS := [NamedUpload("index.htm", Pad([1, 7]))]
  const INSTALL := NewEvent([], Pad([2, 8]), EXTRAS)
  const SENT := History([Upload(PAGE, [1], [7], true), Upload(PLC, [2], [8], true)], Loading)

  lemma PadIsInjective()
    ensures Injective(Pad, SCOPE)
  {
    forall x, y | x in SCOPE.hashes && y in SCOPE.hashes && Pad(x) == Pad(y)
      ensures x == y
    {
      assert Pad(x)[0] == x[0] && Pad(y)[0] == y[0];
      assert Pad(x)[1] == (if |x| == 2 then x[1] else 0) && Pad(y)[1] == (if |y| == 2 then y[1] else 0);
    }
  }

  lemma NamesAreTemporary()
    ensures IsTemporary(PAGE) && IsTemporary(PLC) && PAGE != PLC
  {
    assert PAGE[..10] == TMP_FILE_PATH && PLC[..10] == TMP_FILE_PATH;
    assert TMP_FILE_EXTENSION <= PAGE[14..];
    assert TMP_FILE_EXTENSION <= PLC[13..];
    assert PAGE[11] != PLC[11];
  }

  /** One more event of an orderly history. */
  lemma Extended(before: seq<Event>, e: Event)
    requires Orderly(Pad, SCOPE, before) && Allowed(Pad, SCOPE, Told(before), e)
    ensures Orderly(Pad, SCOPE, before + [e]) && (before + [e])[..|before|] == before
  {
    assert (before + [e])[..|before|] == before;
  }

  lemma SeedsAreOrderly()
    ensures Orderly(Pad, SCOPE, SEND[..3]) && Told(SEND[..3]) == History([Upload(PAGE, [1], [7], true)], Loading)
  {
    NamesAreTemporary();
    hide IsTemporary, Pad;
    Extended([], SEND[0]);
    assert [] + [SEND[0]] == SEND[..1];
    assert Told(SEND[..1]) == History([], Idle);
    Extended(SEND[..1], SEND[1]);
    assert SEND[..1] + [SEND[1]] == SEND[..2];
    assert Told(SEND[..2]) == History([Upload(PAGE, [1], [], true)], Loading);
    assert [1] + ([] + [7]) == [1, 7];
    Extended(SEND[..2], SEND[2]);
    assert SEND[..2] + [SEND[2]] == SEND[..3];
    assert [] + [7] == [7];
    assert [Upload(PAGE, [1], [], true)][0 := Upload(PAGE, [1], [7], true)] == [Upload(PAGE, [1], [7], true)];
  }

  lemma SendIsOrderly()
    ensures Orderly(Pad, SCOPE, SEND) && Told(SEND) == SENT
  {
    SeedsAreOrderly();
    NamesAreTemporary();
    hide IsTemporary, Pad;
    Extended(SEND[..3], SEND[3]);
    assert SEND[..3] + [SEND[3]] == SEND[..4];
    assert Told(SEND[..4]) == History([Upload(PAGE, [1], [7], true), Upload(PLC, [2], [], true)], Loading);
    assert [2] + ([] + [8]) == [2, 8];
    Extended(SEND[..4], SEND[4]);
    assert SEND[..4] + [SEND[4]] == SEND;
    assert [] + [8] == [8];
    assert [Upload(PAGE, [1], [7], true), Upload(PLC, [2], [], true)][1 := Upload(PLC, [2], [8], true)] == SENT.uploads;
  }

  lemma IdsOfSent()
    ensures IdOf(Pad, SENT.uploads[0]) == Pad([1, 7]) && IdOf(Pad, SENT.uploads[1]) == Pad([2, 8])
    ensures Pad([1, 7]) != Pad([2, 8])
  {
    assert [1] + [7] == [1, 7] && [2] + [8] == [2, 8];
    assert Pad([1, 7])[0] != Pad([2, 8])[0];
  }

  lemma PageDestination()
    ensures Destination("index.htm") != PLC_BIN_FILE && Destination("index.htm") != PLC_MD5_FILE
  {
    var d := Destination("index.htm");
    assert d[|d| - 1] == 'm' && PLC_BIN_FILE[|PLC_BIN_FILE| - 1] == 'n' && PLC_MD5_FILE[|PLC_MD5_FILE| - 1] == 't';
  }

  /** The whole history is orderly, uses nothing closed, and installs the program and the page that were sent. */
  lemma TransferWorks(files: map<string, seq<byte>>)
    ensures Injective(Pad, SCOPE) && Orderly(Pad, SCOPE, SEND + [INSTALL])
    ensures var s := Run(Boot(files), Pad, SEND + [INSTALL]);
            && !s.fault && s.reload
            && PLC_BIN_FILE in s.files && s.files[PLC_BIN_FILE] == [8]
            && Destination("index.htm") in s.files && s.files[Destination("index.htm")] == [7]
  {
    PadIsInjective();
    SendIsOrderly();
    IdsOfSent();
    PageDestination();
    hide Pad, IsTemporary, Injective, Orderly, Told, Destination, NewPlc, MoveExtras, Reflects, Seed, Append, Purge;
    var s := Run(Boot(files), Pad, SEND);
    UploadIntegrity(files, Pad, SCOPE, SEND);
    assert ExtrasPick(Pad, SENT.uploads, EXTRAS, [0]);
    TransferInstalls(s, Pad, SCOPE, SENT, [], EXTRAS, [0]);
    assert EXTRAS[0].fname == "index.htm";
    Extended(SEND, INSTALL);
    UploadIntegrity(files, Pad, SCOPE, SEND + [INSTALL]);
    Faultless(Run(Boot(files), Pad, SEND + [INSTALL]), Told(SEND + [INSTALL]));
  }

  lemma Faultless(s: State, h: History)
    requires Reflects(s, Pad, SCOPE, h)
    ensures !s.fault
  {
  }
}
