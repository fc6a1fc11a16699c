/** The XMODEM-CRC transfer format and the receiver that accepts it: section 7
    of Forsberg's XMODEM/YMODEM Protocol Reference. */
module Xmodem {
  import opened Bytes
  import Crc
  import CrcErrors
  import CrcFewBits

  const SOH: byte := 0x01
  const EOT: byte := 0x04
  const ACK: byte := 0x06
  const PAYLOAD := 128
  const BODY := 130
  const PACKET := 133

  /** A packet: header, number and its complement, payload, CRC. */
  function Packet(pid: byte, payload: seq<byte>): (s: seq<byte>)
    requires |payload| == PAYLOAD
    ensures |s| == PACKET
  {
    [SOH, pid, 255 - pid] + (payload + Crc.CrcBytes(Crc.Crc16(payload)))
  }

  function Next(pid: byte): byte {
    (pid as int + 1) % 256
  }

  ghost predicate Payloads(ps: seq<seq<byte>>) {
    forall p :: p in ps ==> |p| == PAYLOAD
  }

  /** What a sender transmits: numbered packets, then the end marker. */
  ghost function Transfer(pid: byte, ps: seq<seq<byte>>): seq<byte>
    requires Payloads(ps)
    decreases |ps|
  {
    if ps == [] then [EOT] else Packet(pid, ps[0]) + Transfer(Next(pid), ps[1..])
  }

  function Flatten(ps: seq<seq<byte>>): seq<byte> {
    if ps == [] then [] else ps[0] + Flatten(ps[1..])
  }

  /** Data cut into payloads. */
  function Packets(image: seq<byte>): seq<seq<byte>> {
    if |image| < PAYLOAD then [] else [image[..PAYLOAD]] + Packets(image[PAYLOAD..])
  }

  lemma {:induction false} FlattenPackets(image: seq<byte>)
    requires |image| % PAYLOAD == 0
    ensures Payloads(Packets(image)) && Flatten(Packets(image)) == image
  {
    if image == [] {
    } else {
      FlattenPackets(image[PAYLOAD..]);
      assert Packets(image)[1..] == Packets(image[PAYLOAD..]);
    }
  }

  /** The outcome of listening to a line: a complete transfer and what follows
      it, a refusal, or nothing yet because the line has fallen silent. */
  datatype Reception = Complete(data: seq<byte>, rest: seq<byte>) | Refused | Waiting

  /** The outcome when data was received before. */
  function Prepend(data: seq<byte>, r: Reception): Reception {
    match r
    case Complete(more, rest) => Complete(data + more, rest)
    case Refused => Refused
    case Waiting => Waiting
  }

  lemma PrependTwice(a: seq<byte>, b: seq<byte>, r: Reception)
    ensures Prepend(a, Prepend(b, r)) == Prepend(a + b, r)
  {
    if r.Complete? {
      assert a + (b + r.data) == (a + b) + r.data;
    }
  }

  lemma PrependNothing(r: Reception)
    ensures Prepend([], r) == r
  {
    if r.Complete? {
      assert [] + r.data == r.data;
    }
  }

  /** How the start of a line is classified. */
  datatype Opening = Silence | Bad | End | Good

  function Open(line: seq<byte>, pid: byte, room: nat): (r: Opening)
    ensures r == Good ==> |line| >= PACKET && room >= PAYLOAD
    ensures r == End ==> line != []
  {
    if line == [] then Silence
    else if line[0] != SOH then (if line[0] == EOT then End else Bad)
    else if |line| < 3 then Silence
    else if line[1] as int != 255 - line[2] as int || line[1] != pid || PAYLOAD > room then Bad
    else if |line| < PACKET then Silence
    else if !Crc.Checks(line[3..PACKET]) then Bad
    else Good
  }

  /** Packets numbered from pid, with room for room more bytes. */
  function Receive(line: seq<byte>, pid: byte, room: nat): (r: Reception)
    ensures r.Complete? ==> |r.data| <= room
    decreases |line|
  {
    match Open(line, pid, room)
    case Silence => Waiting
    case Bad => Refused
    case End => Complete([], line[1..])
    case Good => Prepend(line[3..3 + PAYLOAD], Receive(line[PACKET..], Next(pid), room - PAYLOAD))
  }

  /** The number of packets accepted before the outcome is known. */
  function Accepted(line: seq<byte>, pid: byte, room: nat): nat
    decreases |line|
  {
    if Open(line, pid, room) == Good then 1 + Accepted(line[PACKET..], Next(pid), room - PAYLOAD) else 0
  }

  lemma {:induction false} AcceptedOfComplete(line: seq<byte>, pid: byte, room: nat)
    requires Receive(line, pid, room).Complete?
    ensures Accepted(line, pid, room) * PAYLOAD == |Receive(line, pid, room).data|
    decreases |line|
  {
    hide Open;
    if Open(line, pid, room) == Good {
      AcceptedOfComplete(line[PACKET..], Next(pid), room - PAYLOAD);
    }
  }

  lemma OpenPacket(pid: byte, payload: seq<byte>, more: seq<byte>, room: nat)
    requires |payload| == PAYLOAD <= room
    ensures var line := Packet(pid, payload) + more;
            Open(line, pid, room) == Good && line[3..3 + PAYLOAD] == payload && line[PACKET..] == more
  {
    hide Crc.Crc16, Crc.CrcBytes, Crc.Checks;
    var line := Packet(pid, payload) + more;
    var body := payload + Crc.CrcBytes(Crc.Crc16(payload));
    assert line[3..PACKET] == body;
    CrcErrors.SentChecks(payload);
  }

  lemma ReceivePacket(pid: byte, payload: seq<byte>, more: seq<byte>, room: nat)
    requires |payload| == PAYLOAD <= room
    ensures Receive(Packet(pid, payload) + more, pid, room)
         == Prepend(payload, Receive(more, Next(pid), room - PAYLOAD))
  {
    hide Open, Packet, Prepend;
    OpenPacket(pid, payload, more, room);
  }

  lemma OpenEnd(more: seq<byte>, pid: byte, room: nat)
    ensures Open([EOT] + more, pid, room) == End && ([EOT] + more)[1..] == more
  {
  }

  /** A transfer that fits is received, whatever follows it on the line. */
  lemma {:induction false} TransferIsReceived(ps: seq<seq<byte>>, pid: byte, room: nat, rest: seq<byte>)
    requires Payloads(ps) && |Flatten(ps)| <= room
    ensures Receive(Transfer(pid, ps) + rest, pid, room) == Complete(Flatten(ps), rest)
    decreases |ps|
  {
    hide Open, Packet;
    if ps == [] {
      OpenEnd(rest, pid, room);
    } else {
      var more := Transfer(Next(pid), ps[1..]) + rest;
      assert Packet(pid, ps[0]) + more == Transfer(pid, ps) + rest;
      ReceivePacket(pid, ps[0], more, room);
      TransferIsReceived(ps[1..], Next(pid), room - PAYLOAD, rest);
    }
  }

  /** A packet that is accepted is the packet a sender makes of its payload. */
  lemma AcceptedIsPacket(line: seq<byte>, pid: byte, room: nat)
    requires Open(line, pid, room) == Good
    ensures line == Packet(pid, line[3..3 + PAYLOAD]) + line[PACKET..]
  {
    hide Crc.Crc16, Crc.CrcBytes;
    var body, payload := line[3..PACKET], line[3..3 + PAYLOAD];
    assert body[..PAYLOAD] == payload;
    CrcErrors.AcceptedCrcBytes(Crc.Crc16(payload), body[PAYLOAD], body[PAYLOAD + 1]);
    assert body == payload + Crc.CrcBytes(Crc.Crc16(payload));
    assert line == line[..3] + body + line[PACKET..];
  }

  /** Only transfers are received. */
  lemma {:induction false} ReceivedIsTransfer(line: seq<byte>, pid: byte, room: nat) returns (ps: seq<seq<byte>>)
    requires Receive(line, pid, room).Complete?
    ensures var r := Receive(line, pid, room);
            Payloads(ps) && line == Transfer(pid, ps) + r.rest && r.data == Flatten(ps)
    decreases |line|
  {
    hide Packet, Crc.Checks;
    var r := Receive(line, pid, room);
    if Open(line, pid, room) == Good {
      AcceptedIsPacket(line, pid, room);
      var more := ReceivedIsTransfer(line[PACKET..], Next(pid), room - PAYLOAD);
      ps := [line[3..3 + PAYLOAD]] + more;
      assert ps[1..] == more;
      var packet := Packet(pid, ps[0]);
      assert packet + (Transfer(Next(pid), more) + r.rest) == (packet + Transfer(Next(pid), more)) + r.rest;
    } else {
      ps := [];
      assert line == [EOT] + line[1..];
    }
  }

  /** The line carries a transfer of data numbered from 1, and then rest. */
  ghost predicate Carries(line: seq<byte>, data: seq<byte>, rest: seq<byte>) {
    exists ps :: CarriesPayloads(line, ps, data, rest)
  }

  ghost predicate CarriesPayloads(line: seq<byte>, ps: seq<seq<byte>>, data: seq<byte>, rest: seq<byte>) {
    Payloads(ps) && line == Transfer(1, ps) + rest && data == Flatten(ps)
  }

  /** The receiver decides exactly what the line carries, if it fits. */
  lemma ReceiveDecides(line: seq<byte>, data: seq<byte>, rest: seq<byte>, room: nat)
    ensures Receive(line, 1, room) == Complete(data, rest) <==> Carries(line, data, rest) && |data| <= room
  {
    hide Receive, Transfer;
    if Receive(line, 1, room) == Complete(data, rest) {
      var ps := ReceivedIsTransfer(line, 1, room);
      assert CarriesPayloads(line, ps, data, rest);
    }
    if Carries(line, data, rest) && |data| <= room {
      var ps :| CarriesPayloads(line, ps, data, rest);
      TransferIsReceived(ps, 1, room, rest);
    }
  }

  // Damaged packets.

  /** Numbered packets, without the end marker. */
  function Sending(pid: byte, ps: seq<seq<byte>>): seq<byte>
    requires forall p :: p in ps ==> |p| == PAYLOAD
    decreases |ps|
  {
    if ps == [] then [] else Packet(pid, ps[0]) + Sending(Next(pid), ps[1..])
  }

  /** The number of the packet after n packets. */
  function After(pid: byte, n: nat): byte
    decreases n
  {
    if n == 0 then pid else After(Next(pid), n - 1)
  }

  /** Packets that arrive undamaged are received, whatever follows them. */
  lemma {:induction false} SendingIsReceived(ps: seq<seq<byte>>, pid: byte, room: nat, line: seq<byte>)
    requires Payloads(ps) && |Flatten(ps)| <= room
    ensures Receive(Sending(pid, ps) + line, pid, room)
         == Prepend(Flatten(ps), Receive(line, After(pid, |ps|), room - |Flatten(ps)|))
    decreases |ps|
  {
    hide Receive, Packet, Prepend;
    if ps == [] {
      assert Sending(pid, ps) + line == line;
      PrependNothing(Receive(line, pid, room));
    } else {
      var more := Sending(Next(pid), ps[1..]) + line;
      assert Packet(pid, ps[0]) + more == Sending(pid, ps) + line;
      ReceivePacket(pid, ps[0], more, room);
      SendingIsReceived(ps[1..], Next(pid), room - PAYLOAD, line);
      PrependTwice(ps[0], Flatten(ps[1..]), Receive(line, After(pid, |ps|), room - |Flatten(ps)|));
    }
  }

  lemma {:induction false} SendingIsAccepted(ps: seq<seq<byte>>, pid: byte, room: nat, line: seq<byte>)
    requires Payloads(ps) && |Flatten(ps)| <= room
    ensures Accepted(Sending(pid, ps) + line, pid, room)
         == |ps| + Accepted(line, After(pid, |ps|), room - |Flatten(ps)|)
    decreases |ps|
  {
    hide Open, Packet;
    if ps == [] {
      assert Sending(pid, ps) + line == line;
    } else {
      var more := Sending(Next(pid), ps[1..]) + line;
      assert Packet(pid, ps[0]) + more == Sending(pid, ps) + line;
      OpenPacket(pid, ps[0], more, room);
      SendingIsAccepted(ps[1..], Next(pid), room - PAYLOAD, line);
    }
  }

  /** An error in the first three bytes, or one in the rest that is a burst of
      at most 16 bits, or that changes an odd number of bits, or two. */
  ghost predicate Damaged(sent: seq<byte>, got: seq<byte>) {
    |sent| == |got| == PACKET &&
    (got[..3] != sent[..3] ||
     CrcErrors.Burst(CrcErrors.Difference(sent[3..], got[3..])) ||
     CrcErrors.Odd(CrcErrors.Difference(sent[3..], got[3..])) ||
     CrcFewBits.Ones(CrcErrors.Difference(sent[3..], got[3..])) == 2)
  }

  lemma DamagedHeader(pid: byte, room: nat, line: seq<byte>)
    requires |line| >= 3 && line[..3] != [SOH, pid, 255 - pid]
    ensures Receive(line, pid, room) == if line[0] == EOT then Complete([], line[1..]) else Refused
    ensures Open(line, pid, room) != Good
  {
    hide Crc.Checks;
    assert line[..3] == [line[0], line[1], line[2]];
  }

  lemma DamagedBody(pid: byte, payload: seq<byte>, room: nat, got: seq<byte>, rest: seq<byte>)
    requires |payload| == PAYLOAD && Damaged(Packet(pid, payload), got) && got[..3] == [SOH, pid, 255 - pid]
    ensures Receive(got + rest, pid, room) == Refused && Open(got + rest, pid, room) != Good
  {
    hide Crc.Checks, Crc.Crc16, Crc.CrcBytes, CrcErrors.Burst, CrcErrors.Odd, CrcErrors.Difference,
      CrcFewBits.Ones;
    var line, sent := got + rest, Packet(pid, payload);
    assert line[3..PACKET] == got[3..];
    assert sent[3..] == payload + Crc.CrcBytes(Crc.Crc16(payload));
    CrcErrors.SentChecks(payload);
    if CrcErrors.Burst(CrcErrors.Difference(sent[3..], got[3..])) {
      CrcErrors.BurstIsFound(sent[3..], got[3..]);
    } else if CrcErrors.Odd(CrcErrors.Difference(sent[3..], got[3..])) {
      CrcErrors.OddErrorsAreFound(sent[3..], got[3..]);
    } else {
      CrcFewBits.FewErrorsAreFound(sent[3..], got[3..]);
    }
  }

  /** A packet that is damaged, anywhere in a transfer, ends it as refused; but
      if its first byte became the end marker the transfer is taken for complete
      with the packets before it. */
  lemma DamagedPacketEndsTransfer(before: seq<seq<byte>>, payload: seq<byte>, got: seq<byte>, rest: seq<byte>,
                                  room: nat)
    requires Payloads(before) && |Flatten(before)| <= room && |payload| == PAYLOAD
    requires Damaged(Packet(After(1, |before|), payload), got)
    ensures Receive(Sending(1, before) + (got + rest), 1, room)
         == if got[0] == EOT then Complete(Flatten(before), (got + rest)[1..]) else Refused
  {
    hide Receive, Sending, Damaged, Flatten, Packet, After, Payloads;
    var pid, line, left := After(1, |before|), got + rest, room - |Flatten(before)|;
    DamagedHasSize(Packet(pid, payload), got);
    FrontOfLine(got, rest);
    SendingIsReceived(before, 1, room, line);
    assert Receive(line, pid, left) == if got[0] == EOT then Complete([], line[1..]) else Refused by {
      if got[..3] != [SOH, pid, 255 - pid] {
        DamagedHeader(pid, left, line);
      } else {
        DamagedBody(pid, payload, left, got, rest);
      }
    }
    assert Flatten(before) + [] == Flatten(before);
  }

  /** Such a packet is not accepted, and those before it are. */
  lemma DamagedIsNotAccepted(before: seq<seq<byte>>, payload: seq<byte>, got: seq<byte>, rest: seq<byte>, room: nat)
    requires Payloads(before) && |Flatten(before)| <= room && |payload| == PAYLOAD
    requires Damaged(Packet(After(1, |before|), payload), got)
    ensures Accepted(Sending(1, before) + (got + rest), 1, room) == |before|
  {
    hide Receive, Open, Sending, Damaged, Flatten, Packet, After, Payloads;
    var pid, line, left := After(1, |before|), got + rest, room - |Flatten(before)|;
    DamagedHasSize(Packet(pid, payload), got);
    FrontOfLine(got, rest);
    SendingIsAccepted(before, 1, room, line);
    if got[..3] != [SOH, pid, 255 - pid] {
      DamagedHeader(pid, left, line);
    } else {
      DamagedBody(pid, payload, left, got, rest);
    }
  }

  lemma FrontOfLine(got: seq<byte>, rest: seq<byte>)
    requires |got| >= 3
    ensures (got + rest)[..3] == got[..3] && (got + rest)[0] == got[0] == got[..3][0]
  {
  }

  lemma DamagedHasSize(sent: seq<byte>, got: seq<byte>)
    requires Damaged(sent, got)
    ensures |got| == PACKET
  {
  }
}
