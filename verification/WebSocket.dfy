/** WebSocket frames as the runtime builds and parses them (app/src/plc_http.c:356-409, 428-479), against
    sections 5.2 and 5.3 of RFC 6455. */
module WebSocket {
  import opened Bytes
  import opened Wrappers

  /** `payload` is the offset of the payload and `key` the masking key, if any. */
  datatype Header = Header(fin: bool, opcode: byte, key: seq<byte>, length: nat, payload: nat)

  /** The number in a field of the header, most significant octet first, as section 5.2 has it. */
  function HighFirst(s: seq<byte>): nat {
    if s == [] then 0 else 0x100 * HighFirst(s[..|s| - 1]) + s[|s| - 1]
  }

  /** The 64-bit number the parser's little-endian CPU reads in the same field. */
  function LongWord(m: seq<byte>, a: nat): nat
    requires a + 8 <= |m|
  {
    Word(m, a) + 0x1_0000_0000 * Word(m, a + 4)
  }

  function Octet(n: nat): byte {
    n % 0x100
  }

  function Power2(n: nat): nat {
    if n == 0 then 1 else 2 * Power2(n - 1)
  }

  /** Exclusive or of the lowest `n` bits. */
  function XorBits(a: nat, b: nat, n: nat): (x: nat)
    ensures x < Power2(n)
    decreases n
  {
    if n == 0 then 0 else (a % 2 + b % 2) % 2 + 2 * XorBits(a / 2, b / 2, n - 1)
  }

  function Xor(a: byte, b: byte): byte {
    assert Power2(8) == 0x100;
    XorBits(a, b, 8)
  }

  lemma BitTwice(a: nat, k: nat, rest: nat)
    ensures var x := (a % 2 + k % 2) % 2 + 2 * rest; x / 2 == rest && (x % 2 + k % 2) % 2 == a % 2
  {
    assert a % 2 == 0 || a % 2 == 1;
    assert k % 2 == 0 || k % 2 == 1;
  }

  lemma XorBitsStep(a: nat, k: nat, n: nat)
    requires n > 0
    ensures XorBits(a, k, n) == (a % 2 + k % 2) % 2 + 2 * XorBits(a / 2, k / 2, n - 1)
  {
  }

  lemma TwiceStep(a: nat, k: nat, n: nat)
    requires n > 0 && XorBits(XorBits(a / 2, k / 2, n - 1), k / 2, n - 1) == a / 2
    ensures XorBits(XorBits(a, k, n), k, n) == a
  {
    hide XorBits;
    XorBitsStep(a, k, n);
    XorBitsStep(XorBits(a, k, n), k, n);
    BitTwice(a, k, XorBits(a / 2, k / 2, n - 1));
  }

  /** Masking twice with the same key restores the octet. */
  lemma {:induction false} XorBitsTwice(a: nat, k: nat, n: nat)
    requires a < Power2(n)
    ensures XorBits(XorBits(a, k, n), k, n) == a
    decreases n
  {
    if n > 0 {
      XorBitsTwice(a / 2, k / 2, n - 1);
      TwiceStep(a, k, n);
    }
  }

  // ---------------------------------------------------------------- building

  function HeaderLength(n: nat): nat {
    if n <= 125 then 2 else if n <= 0xFFFF then 4 else 10
  }

  /** The header send_websocket_message writes for a text of `n` bytes. */
  function HeaderFor(n: nat): (h: seq<byte>)
    ensures |h| == HeaderLength(n)
  {
    if n <= 125 then [0x81, Octet(n)]
    else if n <= 0xFFFF then [0x81, 126, Octet(n / 0x100), Octet(n)]
    else [0x81, 127, 0, 0, 0, 0, Octet(n / 0x100_0000), Octet(n / 0x1_0000), Octet(n / 0x100), Octet(n)]
  }

  /** send_websocket_message's frame. */
  method BuildFrame(message: seq<byte>) returns (frame: array<byte>)
    ensures fresh(frame) && frame[..] == HeaderFor(|message|) + message
  {
    var n := |message|;
    var headerLength := HeaderLength(n);
    frame := new byte[n + headerLength];
    WriteHeader(frame, n);
    CopyPayload(frame, headerLength, message);
    assert frame[..] == frame[..headerLength] + frame[headerLength..];
  }

  /** The switch over the message length that writes the header. */
  method WriteHeader(frame: array<byte>, n: nat)
    requires HeaderLength(n) <= frame.Length
    modifies frame
    ensures frame[..HeaderLength(n)] == HeaderFor(n)
  {
    frame[0] := 0x81;
    if n <= 125 {
      frame[1] := Octet(n);
    } else if n <= 0xFFFF {
      frame[1] := 126;
      frame[2], frame[3] := Octet(n / 0x100), Octet(n);
    } else {
      frame[1] := 127;
      frame[2], frame[3], frame[4], frame[5] := 0, 0, 0, 0;
      frame[6], frame[7] := Octet(n / 0x100_0000), Octet(n / 0x1_0000);
      frame[8], frame[9] := Octet(n / 0x100), Octet(n);
    }
  }

  /** memcpy of the message behind the header. */
  method CopyPayload(frame: array<byte>, at: nat, message: seq<byte>)
    requires frame.Length == at + |message|
    modifies frame
    ensures frame[at..] == message && frame[..at] == old(frame[..at])
  {
    for i := 0 to |message|
      invariant frame[at..at + i] == message[..i] && frame[..at] == old(frame[..at])
    {
      frame[at + i] := message[i];
    }
    assert frame[at..at + |message|] == message[..|message|];
  }

  // ---------------------------------------------------------------- parsing

  /** parse_websocket_frame's reading of the header; nothing if the frame is too short for it. */
  function ParseHeader(frame: seq<byte>): (h: Option<Header>)
    ensures h.Some? ==> h.value.payload <= |frame| && |h.value.key| in {0, 4}
  {
    if |frame| < 2 then None
    else
      var short := frame[1] % 0x80;
      if (short == 126 && |frame| < 4) || (short == 127 && |frame| < 10) then None
      else
        var (length, pos) :=
          if short == 126 then (0x100 * frame[2] as int + frame[3], 4)
          else if short == 127 then (LongWord(frame, 2), 10)
          else (short, 2);
        var fin, opcode := frame[0] / 0x80 == 1, frame[0] % 0x10;
        if frame[1] / 0x80 == 0 then Some(Header(fin, opcode, [], length, pos))
        else if |frame| < pos + 4 then None
        else Some(Header(fin, opcode, frame[pos..pos + 4], length, pos + 4))
  }

  /** Section 5.3: byte `i` of the payload is combined with octet `i` modulo 4 of the key. */
  function Masked(payload: seq<byte>, key: seq<byte>): (m: seq<byte>)
    requires |key| == 4
    ensures |m| == |payload|
  {
    seq(|payload|, i requires 0 <= i < |payload| => Xor(payload[i], key[i % 4]))
  }

  /** How much of the announced payload lies inside the received bytes. */
  function Received(frame: seq<byte>, h: Header): (n: nat)
    requires h.payload <= |frame|
    ensures h.payload + n <= |frame| && n <= h.length
    ensures n == h.length <==> h.payload + h.length <= |frame|
  {
    if h.payload + h.length <= |frame| then h.length else |frame| - h.payload
  }

  /** The received bytes after parsing: the payload of a masked frame is unmasked, everything else is as it was. */
  function Unmasked(frame: seq<byte>, h: Header): (r: seq<byte>)
    requires |h.key| in {0, 4} && h.payload <= |frame|
    ensures |r| == |frame|
  {
    var end := h.payload + Received(frame, h);
    if h.key == [] then frame else frame[..h.payload] + Masked(frame[h.payload..end], h.key) + frame[end..]
  }

  /** parse_websocket_frame up to its unmasking in place. The loop trusts the announced length: `stray` counts its
      writes behind the received bytes, of which there are none if and only if the announced payload was received whole.
      */
  method ParseFrame(frame: array<byte>) returns (header: Option<Header>, stray: nat)
    modifies frame
    ensures header == ParseHeader(old(frame[..]))
    ensures frame[..] == if header.Some? then Unmasked(old(frame[..]), header.value) else old(frame[..])
    ensures stray == 0 <==> header.None? || header.value.key == []
                            || header.value.payload + header.value.length <= frame.Length
    ensures stray > 0 ==> stray == header.value.payload + header.value.length - frame.Length
  {
    stray := 0;
    header := ReadHeader(frame);
    if header.Some? && |header.value.key| > 0 {
      stray := Unmask(frame, header.value);
    }
  }

  method ReadHeader(frame: array<byte>) returns (header: Option<Header>)
    ensures header == ParseHeader(frame[..])
  {
    hide Number;
    if frame.Length < 2 {
      return None;
    }
    var fin, opcode := frame[0] / 0x80 == 1, frame[0] % 0x10;
    var length, pos := frame[1] % 0x80, 2;
    if length == 126 {
      if frame.Length < 4 {
        return None;
      }
      length := 0x100 * frame[2] as int + frame[3];
      pos := 4;
    } else if length == 127 {
      if frame.Length < 10 {
        return None;
      }
      length := LongWord(frame[..], 2);
      pos := 10;
    }
    var key := [];
    if frame[1] / 0x80 != 0 {
      if frame.Length < pos + 4 {
        return None;
      }
      key := frame[pos..pos + 4];
      pos := pos + 4;
    }
    header := Some(Header(fin, opcode, key, length, pos));
  }

  method Unmask(frame: array<byte>, h: Header) returns (stray: nat)
    requires |h.key| == 4 && h.payload <= frame.Length
    modifies frame
    ensures frame[..] == Unmasked(old(frame[..]), h) && stray == h.length - Received(old(frame[..]), h)
  {
    hide Xor;
    stray := 0;
    ghost var inside := Received(frame[..], h);
    for i := 0 to h.length
      invariant stray == if i <= inside then 0 else i - inside
      invariant forall j :: 0 <= j < i && j < inside ==>
                  frame[h.payload + j] == Xor(old(frame[h.payload + j]), h.key[j % 4])
      invariant forall j :: 0 <= j < frame.Length && !(h.payload <= j < h.payload + i) ==> frame[j] == old(frame[j])
    {
      if h.payload + i < frame.Length {
        frame[h.payload + i] := Xor(frame[h.payload + i], h.key[i % 4]);
      } else {
        stray := stray + 1;
      }
    }
    ghost var was := old(frame[..]);
    forall j | 0 <= j < frame.Length
      ensures frame[j] == Unmasked(was, h)[j]
    {
      UnmaskedAt(was, h, j);
      if h.payload <= j < h.payload + inside {
        assert frame[h.payload + (j - h.payload)] == Xor(was[j], h.key[(j - h.payload) % 4]);
      }
    }
  }

  lemma UnmaskedAt(frame: seq<byte>, h: Header, j: nat)
    requires |h.key| == 4 && h.payload <= |frame| && j < |frame|
    ensures Unmasked(frame, h)[j] == if h.payload <= j < h.payload + Received(frame, h)
                                     then Xor(frame[j], h.key[(j - h.payload) % 4]) else frame[j]
  {
    hide Xor, Received;
    var end := h.payload + Received(frame, h);
    if j < h.payload {
    } else if j < end {
      assert frame[h.payload..end][j - h.payload] == frame[j];
    } else {
      assert frame[end..][j - end] == frame[j];
    }
  }

  // ---------------------------------------------------------------- results

  /** The length of the payload as section 5.2 defines it, in network order, and the length of the header before any
      masking key. */
  function RfcLength(frame: seq<byte>): (nat, nat)
    requires |frame| >= 10
  {
    var short := frame[1] % 0x80;
    if short == 126 then (HighFirst(frame[2..4]), 4)
    else if short == 127 then (HighFirst(frame[2..10]), 10)
    else (short, 2)
  }

  /** The sender's frame for any text means, by section 5.2, exactly that many bytes, and no frame with a shorter header
      can say so. */
  lemma ShortestHeader(n: nat, tail: seq<byte>, other: seq<byte>)
    requires n < 0x1_0000_0000 && |tail| >= 8 && |other| >= 10
    ensures RfcLength(HeaderFor(n) + tail) == (n, HeaderLength(n))
    ensures RfcLength(other).0 == n ==> RfcLength(other).1 >= HeaderLength(n)
  {
    HeaderMeaning(n, tail);
    if RfcLength(other).1 == 4 {
      TwoOctets(other[2..4]);
    }
  }

  lemma TwoOctets(s: seq<byte>)
    requires |s| == 2
    ensures HighFirst(s) == 0x100 * s[0] as int + s[1] <= 0xFFFF
  {
    assert s[..1][..0] == [];
    assert HighFirst(s[..1]) == s[0];
  }

  lemma HeaderMeaning(n: nat, tail: seq<byte>)
    requires n < 0x1_0000_0000 && |tail| >= 8
    ensures RfcLength(HeaderFor(n) + tail) == (n, HeaderLength(n))
  {
    var f := HeaderFor(n) + tail;
    if n <= 125 {
    } else if n <= 0xFFFF {
      TwoOctets(f[2..4]);
    } else {
      LongLength(f[2..10], n);
    }
  }

  lemma Digit(s: seq<byte>, k: nat)
    requires 0 < k <= |s|
    ensures HighFirst(s[..k]) == 0x100 * HighFirst(s[..k - 1]) + s[k - 1]
  {
    assert s[..k][..k - 1] == s[..k - 1];
  }

  lemma EightOctets(a: byte, b: byte, c: byte, d: byte)
    ensures HighFirst([0, 0, 0, 0, a, b, c, d]) == 0x100 * (0x100 * (0x100 * a as int + b) + c) + d
  {
    var s := [0, 0, 0, 0, a, b, c, d];
    assert HighFirst(s[..0]) == 0;
    hide HighFirst;
    Digit(s, 1);
    Digit(s, 2);
    Digit(s, 3);
    Digit(s, 4);
    Digit(s, 5);
    Digit(s, 6);
    Digit(s, 7);
    Digit(s, 8);
    assert s[..8] == s;
  }

  lemma Quotients(n: nat)
    ensures n / 0x1_0000 == n / 0x100 / 0x100 && n / 0x100_0000 == n / 0x1_0000 / 0x100
  {
  }

  lemma LastOctet(n: nat)
    ensures n == 0x100 * (n / 0x100) + Octet(n) && (n < 0x100 ==> n / 0x100 == 0)
  {
  }

  lemma OctetsOf(n: nat)
    requires n < 0x1_0000_0000
    ensures 0x100 * (0x100 * (0x100 * Octet(n / 0x100_0000) as int + Octet(n / 0x1_0000)) + Octet(n / 0x100))
        + Octet(n) == n
  {
    hide Octet;
    var q1 := n / 0x100;
    var q2 := n / 0x1_0000;
    var q3 := n / 0x100_0000;
    Quotients(n);
    LastOctet(n);
    LastOctet(q1);
    LastOctet(q2);
    LastOctet(q3);
  }

  lemma LongLength(s: seq<byte>, n: nat)
    requires n < 0x1_0000_0000
    requires s == [0, 0, 0, 0, Octet(n / 0x100_0000), Octet(n / 0x1_0000), Octet(n / 0x100), Octet(n)]
    ensures HighFirst(s) == n
  {
    hide Octet, HighFirst;
    EightOctets(Octet(n / 0x100_0000), Octet(n / 0x1_0000), Octet(n / 0x100), Octet(n));
    OctetsOf(n);
  }

  lemma WordIsZero(m: seq<byte>, a: nat)
    requires a + 4 <= |m|
    ensures Word(m, a) == 0 <==> m[a] == 0 && m[a + 1] == 0 && m[a + 2] == 0 && m[a + 3] == 0
  {
    assert Number(m, a + 3, 1) == m[a + 3];
    assert Number(m, a + 2, 2) == m[a + 2] as int + 0x100 * Number(m, a + 3, 1);
    assert Number(m, a + 1, 3) == m[a + 1] as int + 0x100 * Number(m, a + 2, 2);
  }

  /** What the parser's CPU makes of the sender's 64-bit field. */
  lemma SwappedLength(frame: seq<byte>, n: nat)
    requires 0xFFFF < n < 0x1_0000_0000 && HeaderFor(n) <= frame
    ensures LongWord(frame, 2) > n
  {
    hide Word, Octet;
    WordIsZero(frame, 2);
    WordIsZero(frame, 6);
    OctetsOf(n);
    assert frame[2] == 0 && frame[3] == 0 && frame[4] == 0 && frame[5] == 0;
    assert frame[6] == Octet(n / 0x100_0000) && frame[7] == Octet(n / 0x1_0000);
    assert frame[8] == Octet(n / 0x100) && frame[9] == Octet(n);
  }

  /** The parser's header decoding recovers a text frame of the sender's: its FIN, its opcode, no masking key, and its
      payload's place; and it recovers its length if and only if the message has at most 65535 bytes. */
  lemma HeaderRoundTrip(message: seq<byte>)
    requires |message| < 0x1_0000_0000
    ensures var n := |message|;
            var h := ParseHeader(HeaderFor(n) + message);
            && h == Some(Header(true, 1, [], h.value.length, HeaderLength(n)))
            && (HeaderFor(n) + message)[h.value.payload..] == message
            && (h.value.length == n <==> n <= 0xFFFF)
  {
    hide Octet, LongWord;
    var n := |message|;
    var f := HeaderFor(n) + message;
    LastOctet(n);
    LastOctet(n / 0x100);
    if n > 0xFFFF {
      SwappedLength(f, n);
    } else if n > 125 {
      assert f[2] == n / 0x100 && f[3] == Octet(n);
    }
  }

  /** A client's frame as sections 5.2 and 5.3 ask for it: a length in the shortest form, a masking key, and the payload
      masked with it. */
  function ClientFrame(fin: bool, opcode: byte, key: seq<byte>, payload: seq<byte>): seq<byte>
    requires opcode < 0x10 && |key| == 4 && |payload| <= 0xFFFF
  {
    var n := |payload|;
    var first: byte := (if fin then 0x80 else 0) + opcode;
    (if n <= 125 then [first, 0x80 + n] else [first, 0x80 + 126, Octet(n / 0x100), Octet(n)])
    + key + Masked(payload, key)
  }

  lemma MaskedTwice(payload: seq<byte>, key: seq<byte>)
    requires |key| == 4
    ensures Masked(Masked(payload, key), key) == payload
  {
    assert Power2(8) == 0x100;
    forall i | 0 <= i < |payload|
      ensures Xor(Xor(payload[i], key[i % 4]), key[i % 4]) == payload[i]
    {
      XorBitsTwice(payload[i], key[i % 4], 8);
    }
  }

  /** Parsing a client's frame, whatever follows it, recovers its fields, restores its payload, and changes no octet of
      its header or behind it. */
  lemma ClientRoundTrip(fin: bool, opcode: byte, key: seq<byte>, payload: seq<byte>, rest: seq<byte>)
    requires opcode < 0x10 && |key| == 4 && |payload| <= 0xFFFF
    ensures var at := HeaderLength(|payload|) + 4;
            var frame := ClientFrame(fin, opcode, key, payload) + rest;
            && ParseHeader(frame) == Some(Header(fin, opcode, key, |payload|, at))
            && at + |payload| <= |frame|
            && Unmasked(frame, Header(fin, opcode, key, |payload|, at)) == frame[..at] + payload + rest
  {
    var n := |payload|;
    var at := HeaderLength(n) + 4;
    var frame := ClientFrame(fin, opcode, key, payload) + rest;
    ClientHeader(fin, opcode, key, payload, rest);
    hide ParseHeader, Masked, ClientFrame;
    assert frame[at..at + n] == Masked(payload, key) && frame[at + n..] == rest;
    MaskedTwice(payload, key);
  }

  lemma ClientHeader(fin: bool, opcode: byte, key: seq<byte>, payload: seq<byte>, rest: seq<byte>)
    requires opcode < 0x10 && |key| == 4 && |payload| <= 0xFFFF
    ensures var at := HeaderLength(|payload|) + 4;
            var frame := ClientFrame(fin, opcode, key, payload) + rest;
            && ParseHeader(frame) == Some(Header(fin, opcode, key, |payload|, at))
            && |frame| == at + |payload| + |rest|
            && frame[at..at + |payload|] == Masked(payload, key) && frame[at + |payload|..] == rest
  {
    hide Masked;
    var n := |payload|;
    var frame := ClientFrame(fin, opcode, key, payload) + rest;
    assert frame[0] / 0x80 == (if fin then 1 else 0) && frame[0] % 0x10 == opcode;
    if n <= 125 {
      assert frame[2..6] == key;
    } else {
      assert frame[2] == n / 0x100 && frame[4..8] == key;
    }
  }

  /** Of a client's frame cut short behind its header, the parser reads the same header, and its loop writes behind the
      received bytes as often as bytes are missing: never exactly when the whole frame was received. */
  lemma CutClientFrame(fin: bool, opcode: byte, key: seq<byte>, payload: seq<byte>, k: nat)
    requires opcode < 0x10 && |key| == 4 && |payload| <= 0xFFFF
    requires HeaderLength(|payload|) + 4 <= k <= |ClientFrame(fin, opcode, key, payload)|
    ensures var frame := ClientFrame(fin, opcode, key, payload);
            var h := Header(fin, opcode, key, |payload|, HeaderLength(|payload|) + 4);
            && ParseHeader(frame[..k]) == Some(h)
            && h.length - Received(frame[..k], h) == |frame| - k
            && Unmasked(frame[..k], h) == (frame[..h.payload] + payload)[..k]
  {
    var frame := ClientFrame(fin, opcode, key, payload);
    var at := HeaderLength(|payload|) + 4;
    assert frame + [] == frame;
    ClientHeader(fin, opcode, key, payload, []);
    SameHeader(frame, k, at);
    hide ParseHeader, ClientFrame, Masked;
    assert frame[at..] == frame[at..at + |payload|];
    CutUnmasked(frame, payload, Header(fin, opcode, key, |payload|, at), k);
  }

  lemma CutUnmasked(frame: seq<byte>, payload: seq<byte>, h: Header, k: nat)
    requires |h.key| == 4 && h.length == |payload| && h.payload <= k <= |frame| == h.payload + |payload|
    requires frame[h.payload..] == Masked(payload, h.key)
    ensures h.length - Received(frame[..k], h) == |frame| - k
    ensures Unmasked(frame[..k], h) == (frame[..h.payload] + payload)[..k]
  {
    hide Masked;
    MaskedPart(payload, h.key, k - h.payload);
    CutSlices(frame, payload, k, h.payload);
    assert h.payload + Received(frame[..k], h) == k;
    assert frame[..h.payload] + payload[..k - h.payload] + [] == frame[..h.payload] + payload[..k - h.payload];
  }

  lemma CutSlices(frame: seq<byte>, payload: seq<byte>, k: nat, at: nat)
    requires at <= k <= |frame| && |frame| == at + |payload|
    ensures frame[..k][at..k] == frame[at..][..k - at] && frame[..k][..at] == frame[..at] && frame[..k][k..] == []
    ensures (frame[..at] + payload)[..k] == frame[..at] + payload[..k - at]
  {
  }

  lemma PrefixSlice(frame: seq<byte>, k: nat, lo: nat, hi: nat)
    requires lo <= hi <= k <= |frame|
    ensures frame[..k][lo..hi] == frame[lo..hi]
  {
  }

  lemma SameHeader(frame: seq<byte>, k: nat, at: nat)
    requires k <= |frame| && ParseHeader(frame).Some? && ParseHeader(frame).value.payload == at <= k
    ensures ParseHeader(frame[..k]) == ParseHeader(frame)
  {
    hide Number;
    var f := frame[..k];
    assert 2 <= at;
    assert f[0] == frame[0] && f[1] == frame[1];
    if frame[1] % 0x80 == 127 {
      PrefixSlice(frame, k, 2, 6);
      PrefixSlice(frame, k, 6, 10);
      NumberSame(f, 2, frame, 2, 4);
      NumberSame(f, 6, frame, 6, 4);
    }
    if at >= 4 {
      PrefixSlice(frame, k, at - 4, at);
    }
  }

  lemma MaskedPart(payload: seq<byte>, key: seq<byte>, n: nat)
    requires |key| == 4 && n <= |payload|
    ensures Masked(Masked(payload, key)[..n], key) == payload[..n]
  {
    MaskedTwice(payload, key);
    assert Masked(Masked(payload, key)[..n], key) == Masked(Masked(payload, key), key)[..n];
  }
}
