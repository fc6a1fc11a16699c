/** A transfer byte by byte: where each packet is on the line, and what number
    it has. */
module XmodemLayout {
  import opened Bytes
  import opened Xmodem
  import Crc

  /** The packet k of a transfer numbered from pid, at its place on the line. */
  predicate PacketAt(line: seq<byte>, pid: byte, k: nat, payload: seq<byte>) {
    133 * k + 133 <= |line| &&
    line[133 * k] == 0x01 &&
    line[133 * k + 1] as int == (pid + k) % 256 &&
    line[133 * k + 2] as int == 255 - (pid + k) % 256 &&
    line[133 * k + 3..133 * k + 131] == payload &&
    line[133 * k + 131..133 * k + 133] == Crc.CrcBytes(Crc.Crc16(payload))
  }

  ghost predicate PacketsAt(line: seq<byte>, pid: byte, ps: seq<seq<byte>>) {
    |line| == 133 * |ps| + 1 && line[133 * |ps|] == 0x04 &&
    forall k: nat :: k < |ps| ==> PacketAt(line, pid, k, ps[k])
  }

  lemma NextNumber(pid: byte, k: nat)
    ensures (Next(pid) + k) % 256 == (pid + (k + 1)) % 256
  {
  }

  /** Behind the first packet, packet k + 1 is packet k. */
  lemma PacketMoves(line: seq<byte>, pid: byte, k: nat, payload: seq<byte>)
    requires |line| >= 133
    ensures PacketAt(line[133..], Next(pid), k, payload) <==> PacketAt(line, pid, k + 1, payload)
  {
    hide Crc.CrcBytes, Crc.Crc16, Next;
    NextNumber(pid, k);
    var rest := line[133..];
    if 133 * k + 133 <= |rest| {
      assert rest[133 * k + 3..133 * k + 131] == line[133 * (k + 1) + 3..133 * (k + 1) + 131];
      assert rest[133 * k + 131..133 * k + 133] == line[133 * (k + 1) + 131..133 * (k + 1) + 133];
    }
  }

  lemma FirstPacket(line: seq<byte>, pid: byte, payload: seq<byte>)
    requires |payload| == PAYLOAD
    ensures PacketAt(line, pid, 0, payload) <==> |line| >= 133 && line[..133] == Packet(pid, payload)
  {
    hide Crc.CrcBytes, Crc.Crc16;
    if |line| >= 133 {
      var front, packet := line[..133], Packet(pid, payload);
      assert front == front[..3] + front[3..131] + front[131..133];
      assert packet[..3] == [SOH, pid, 255 - pid] && packet[3..131] == payload;
      assert packet[131..133] == Crc.CrcBytes(Crc.Crc16(payload));
      assert front[..3] == [line[0], line[1], line[2]];
      assert packet == packet[..3] + packet[3..131] + packet[131..133];
      assert front[3..131] == line[3..131] && front[131..133] == line[131..133];
    }
  }

  lemma PayloadsMore(ps: seq<seq<byte>>)
    requires Payloads(ps) && ps != []
    ensures |ps[0]| == PAYLOAD && Payloads(ps[1..])
  {
  }

  lemma PacketsMove(line: seq<byte>, pid: byte, ps: seq<seq<byte>>)
    requires ps != [] && |line| >= 133
    ensures PacketsAt(line, pid, ps) <==> PacketAt(line, pid, 0, ps[0]) && PacketsAt(line[133..], Next(pid), ps[1..])
  {
    hide PacketAt, Next;
    var rest := line[133..];
    forall k: nat
      ensures PacketAt(rest, Next(pid), k, if k < |ps[1..]| then ps[1..][k] else [])
         <==> PacketAt(line, pid, k + 1, if k + 1 < |ps| then ps[k + 1] else [])
    {
      PacketMoves(line, pid, k, if k < |ps[1..]| then ps[1..][k] else []);
    }
    if PacketsAt(rest, Next(pid), ps[1..]) && PacketAt(line, pid, 0, ps[0]) {
      forall k: nat | k < |ps|
        ensures PacketAt(line, pid, k, ps[k])
      {
        if k > 0 {
          assert PacketAt(rest, Next(pid), k - 1, ps[1..][k - 1]);
        }
      }
    }
  }

  /** A transfer is the line that has these packets, numbered one after the
      other modulo 256, and the end marker. */
  lemma {:induction false} TransferDecides(line: seq<byte>, pid: byte, ps: seq<seq<byte>>)
    requires Payloads(ps)
    ensures line == Transfer(pid, ps) <==> PacketsAt(line, pid, ps)
    decreases |ps|
  {
    hide PacketAt, Packet, Next;
    if ps != [] && |line| >= 133 {
      PayloadsMore(ps);
      TransferDecides(line[133..], Next(pid), ps[1..]);
      FirstPacket(line, pid, ps[0]);
      PacketsMove(line, pid, ps);
      assert line == line[..133] + line[133..];
    }
  }

  // The same for the data that a line carries.

  /** The line carries data in packets that are numbered from 1, then the end
      marker, and then rest. */
  ghost predicate CarriesAt(line: seq<byte>, data: seq<byte>, rest: seq<byte>) {
    var n := |data| / 128;
    |data| == 128 * n && |line| == 133 * n + 1 + |rest| && line[133 * n] == 0x04 && line[133 * n + 1..] == rest &&
    forall k: nat :: k < n ==> PacketAt(line, 1, k, data[128 * k..128 * k + 128])
  }

  lemma {:induction false} PayloadAt(ps: seq<seq<byte>>, k: nat)
    requires Payloads(ps)
    ensures |Flatten(ps)| == 128 * |ps|
    ensures k < |ps| ==> Flatten(ps)[128 * k..128 * k + 128] == ps[k]
    decreases |ps|
  {
    if ps != [] {
      PayloadsMore(ps);
      PayloadAt(ps[1..], if k > 0 then k - 1 else 0);
      var more := Flatten(ps[1..]);
      if 0 < k < |ps| {
        assert (ps[0] + more)[128 * k..128 * k + 128] == more[128 * (k - 1)..128 * (k - 1) + 128];
      }
    }
  }

  lemma PacketInFront(line: seq<byte>, rest: seq<byte>, pid: byte, k: nat, payload: seq<byte>)
    requires 133 * k + 133 <= |line|
    ensures PacketAt(line + rest, pid, k, payload) <==> PacketAt(line, pid, k, payload)
  {
    hide Crc.CrcBytes, Crc.Crc16;
    assert (line + rest)[133 * k + 3..133 * k + 131] == line[133 * k + 3..133 * k + 131];
    assert (line + rest)[133 * k + 131..133 * k + 133] == line[133 * k + 131..133 * k + 133];
  }

  lemma TransferAt(line: seq<byte>, ps: seq<seq<byte>>, rest: seq<byte>)
    requires Payloads(ps) && |line| == 133 * |ps| + 1
    ensures line == Transfer(1, ps) <==> CarriesAt(line + rest, Flatten(ps), rest)
  {
    hide PacketAt, Transfer, Payloads, Flatten;
    var all, data := line + rest, Flatten(ps);
    PayloadAt(ps, 0);
    TransferDecides(line, 1, ps);
    assert |data| / 128 == |ps| && all[133 * |ps|..][0] == line[133 * |ps|] && all[133 * |ps| + 1..] == rest;
    if PacketsAt(line, 1, ps) {
      forall k: nat | k < |ps|
        ensures PacketAt(all, 1, k, data[128 * k..128 * k + 128])
      {
        PayloadAt(ps, k);
        PacketInFront(line, rest, 1, k, ps[k]);
      }
      assert CarriesAt(all, data, rest);
    }
    if CarriesAt(all, data, rest) {
      forall k: nat | k < |ps|
        ensures PacketAt(line, 1, k, ps[k])
      {
        PayloadAt(ps, k);
        PacketInFront(line, rest, 1, k, ps[k]);
      }
      assert PacketsAt(line, 1, ps);
    }
  }

  lemma TransferLength(pid: byte, ps: seq<seq<byte>>)
    requires Payloads(ps)
    ensures |Transfer(pid, ps)| == 133 * |ps| + 1
  {
    hide Transfer;
    TransferDecides(Transfer(pid, ps), pid, ps);
  }

  lemma CarriesDecides(line: seq<byte>, data: seq<byte>, rest: seq<byte>)
    ensures Carries(line, data, rest) <==> CarriesAt(line, data, rest)
  {
    hide Transfer, Payloads, Flatten, PacketAt;
    if Carries(line, data, rest) {
      var ps :| CarriesPayloads(line, ps, data, rest);
      TransferLength(1, ps);
      TransferAt(Transfer(1, ps), ps, rest);
    }
    if CarriesAt(line, data, rest) {
      var ps := Packets(data);
      FlattenPackets(data);
      PayloadAt(ps, 0);
      var front := line[..133 * |ps| + 1];
      assert line == front + rest;
      TransferAt(front, ps, rest);
      assert CarriesPayloads(line, ps, data, rest);
    }
  }

  /** What the receiver accepts, byte by byte. */
  lemma ReceiveIsLayout(line: seq<byte>, data: seq<byte>, rest: seq<byte>, room: nat)
    ensures Receive(line, 1, room) == Complete(data, rest) <==> CarriesAt(line, data, rest) && |data| <= room
  {
    hide Receive, Carries, CarriesAt;
    ReceiveDecides(line, data, rest, room);
    CarriesDecides(line, data, rest);
  }

  /** What is sent before a packet is a transfer without its end marker, and the
      number of the packet counts those before it. */
  lemma {:induction false} SendingIsTransfer(pid: byte, ps: seq<seq<byte>>)
    requires Payloads(ps)
    ensures Sending(pid, ps) + [EOT] == Transfer(pid, ps) && After(pid, |ps|) as int == (pid + |ps|) % 256
    decreases |ps|
  {
    hide Packet, Next;
    if ps != [] {
      PayloadsMore(ps);
      SendingIsTransfer(Next(pid), ps[1..]);
      NextNumber(pid, |ps| - 1);
      var first, more := Packet(pid, ps[0]), Sending(Next(pid), ps[1..]);
      assert (first + more) + [EOT] == first + (more + [EOT]);
    }
  }
}
