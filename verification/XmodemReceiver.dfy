/** The receiver as it runs: it reads the serial line character by character
    and stores the payloads in the receive buffer. */
module XmodemReceiver {
  import opened Bytes
  import opened Xmodem
  import opened XmodemLayout
  import Crc
  import CrcLoop

  /** The serial line: what is still to arrive, and what was sent. */
  class Uart {
    var rx: seq<byte>
    var tx: seq<byte>

    constructor (line: seq<byte>)
      ensures rx == line && tx == []
    {
      rx, tx := line, [];
    }

    /** The next character; None when the line stays silent for good. */
    method Getc() returns (c: Option<byte>)
      modifies this`rx
      ensures c == (if old(rx) == [] then None else Some(old(rx)[0]))
      ensures rx == (if old(rx) == [] then [] else old(rx)[1..])
    {
      if rx == [] {
        return None;
      }
      c := Some(rx[0]);
      rx := rx[1..];
    }

    method Putc(c: byte)
      modifies this`tx
      ensures tx == old(tx) + [c]
    {
      tx := tx + [c];
    }
  }

  function Acks(n: nat): (s: seq<byte>)
    ensures |s| == n
  {
    if n == 0 then [] else Acks(n - 1) + [ACK]
  }

  /** The inner loop: the BODY characters of a packet body go to the buffer. */
  method ReceiveBody(uart: Uart, a: array<byte>, dest: nat, ghost mem: seq<byte>)
    returns (done: bool, ghost got: seq<byte>)
    requires dest + BODY <= a.Length == |mem| && Memory(a, mem)
    modifies uart`rx, a
    ensures done <==> |old(uart.rx)| >= BODY
    ensures got == if done then old(uart.rx)[..BODY] else old(uart.rx)
    ensures uart.rx == old(uart.rx)[|got|..]
    ensures Memory(a, Patch(mem, dest, got))
  {
    ghost var line := uart.rx;
    got := [];
    PatchNothing(mem, dest);
    for i := 0 to BODY
      invariant |line| >= i && got == line[..i] && uart.rx == line[i..]
      invariant Memory(a, Patch(mem, dest, got))
    {
      var c := uart.Getc();
      if c == None {
        return false, got;
      }
      PatchMore(mem, dest, got, line[i]);
      a[dest + i] := c.value;
      got := got + [line[i]];
    }
    done := true;
  }

  /** The three characters before a packet body. Good means that a body is to
      follow. */
  method ReceiveHeader(uart: Uart, pid: byte, len: nat, maxlen: nat) returns (o: Opening)
    requires len <= maxlen
    modifies uart`rx
    ensures var line := old(uart.rx);
      match o
      case Silence => Open(line, pid, maxlen - len) == Silence
      case Bad => Open(line, pid, maxlen - len) == Bad
      case End => Open(line, pid, maxlen - len) == End && uart.rx == line[1..]
      case Good =>
        |line| >= 3 && len + PAYLOAD <= maxlen && uart.rx == line[3..] &&
        Open(line, pid, maxlen - len) ==
          if |line| < PACKET then Silence else if Crc.Checks(line[3..PACKET]) then Good else Bad
  {
    hide Crc.Checks;
    var c := uart.Getc();
    if c == None {
      return Silence;
    }
    if c.value != SOH {
      if c.value == EOT {
        return End;
      } else {
        return Bad;
      }
    }
    var pid1 := uart.Getc();
    if pid1 == None {
      return Silence;
    }
    var pid2 := uart.Getc();
    if pid2 == None {
      return Silence;
    }
    if pid1.value as int % 256 != 255 - pid2.value as int % 256 {
      return Bad;
    }
    if pid1.value != pid {
      return Bad;
    }
    if len + PAYLOAD > maxlen {
      return Bad;
    }
    o := Good;
  }

  /** The bytes of a region that was stored last. */
  lemma StoredSlice(mem: seq<byte>, at: nat, data: seq<byte>, i: nat, j: nat)
    requires at + |data| <= |mem| && i <= j <= |data|
    ensures Patch(mem, at, data)[at + i..at + j] == data[i..j]
  {
  }

  /** The CRC of the body that was stored at dest, against the two characters
      behind it. */
  method CheckBody(a: array<byte>, dest: nat, ghost mem: seq<byte>, ghost body: seq<byte>) returns (ok: bool)
    requires dest + BODY <= a.Length == |mem| && |body| == BODY && Memory(a, Patch(mem, dest, body))
    ensures ok <==> Crc.Checks(body)
  {
    hide Crc.Received, Patch, Crc.Crc16;
    StoredSlice(mem, dest, body, 0, PAYLOAD);
    StoredSlice(mem, dest, body, PAYLOAD, BODY);
    var crc := CrcLoop.Crc16Ccitt(a[dest..dest + PAYLOAD]);
    assert a[dest + PAYLOAD..dest + BODY][0] == body[PAYLOAD..BODY][0];
    assert a[dest + PAYLOAD..dest + BODY][1] == body[PAYLOAD..BODY][1];
    var tcrc := Crc.Received(a[dest + BODY - 2], a[dest + BODY - 1]);
    ok := crc == tcrc;
  }

  /** One round of the packet loop: everything but the answer. */
  method ReceivePacket(uart: Uart, pid: byte, a: array<byte>, dest: nat, len: nat, maxlen: nat, ghost mem: seq<byte>)
    returns (o: Opening, ghost got: seq<byte>)
    requires len <= maxlen && dest + (maxlen - len) + 2 <= a.Length == |mem| && Memory(a, mem)
    modifies uart`rx, a
    ensures o == Open(old(uart.rx), pid, maxlen - len)
    ensures |got| <= maxlen - len + 2 && Memory(a, Patch(mem, dest, got))
    ensures o == End ==> uart.rx == old(uart.rx)[1..] && got == []
    ensures o == Good ==> |old(uart.rx)| >= PACKET && len + PAYLOAD <= maxlen
    ensures o == Good ==> uart.rx == old(uart.rx)[PACKET..] && got == old(uart.rx)[3..PACKET]
  {
    hide Memory, Patch, Crc.Checks, Open;
    ghost var line := uart.rx;
    got := [];
    PatchNothing(mem, dest);
    o := ReceiveHeader(uart, pid, len, maxlen);
    if o != Good {
      return;
    }
    var done;
    done, got := ReceiveBody(uart, a, dest, mem);
    if !done {
      return Silence, got;
    }
    assert line[3..][..BODY] == line[3..PACKET];
    assert line[3..][BODY..] == line[PACKET..];
    var ok := CheckBody(a, dest, mem, got);
    o := if ok then Good else Bad;
  }

  /** w with data stored at position at, growing w where needed. */
  function Overlay(w: seq<byte>, at: nat, data: seq<byte>): (r: seq<byte>)
    requires at <= |w|
    ensures |r| == if at + |data| <= |w| then |w| else at + |data|
  {
    if at + |data| <= |w| then Patch(w, at, data) else w[..at] + data
  }

  lemma PatchOverlay(mem: seq<byte>, base: nat, w: seq<byte>, at: nat, data: seq<byte>)
    requires at <= |w| && base + |w| <= |mem| && base + at + |data| <= |mem|
    ensures base + |Overlay(w, at, data)| <= |mem|
    ensures Patch(Patch(mem, base, w), base + at, data) == Patch(mem, base, Overlay(w, at, data))
  {
  }

  lemma OverlayPrefix(w: seq<byte>, at: nat, data: seq<byte>, n: nat)
    requires at <= |w| && n <= |data|
    ensures at + n <= |Overlay(w, at, data)|
    ensures Overlay(w, at, data)[..at + n] == w[..at] + data[..n]
  {
  }

  /** The answers given for an outcome after n packets. */
  function Answers(n: nat, r: Reception): nat {
    if r.Complete? then n + 1 else n
  }

  /** rxmodem, from the first character on: receive at most maxlen bytes into
      the buffer at base. The result is the number of bytes, 0 for a transfer
      that is refused, and None when the line falls silent in the middle. The
      CRC characters of the last packet end up behind the data, at most two
      places past maxlen. */
  method Rxmodem(uart: Uart, a: array<byte>, base: nat, maxlen: nat, ghost mem: seq<byte>)
    returns (r: Option<nat>, ghost written: seq<byte>)
    requires base + maxlen + 2 <= a.Length == |mem| && Memory(a, mem)
    modifies uart, a
    ensures |written| <= maxlen + 2 && Memory(a, Patch(mem, base, written))
    ensures match Receive(old(uart.rx), 1, maxlen)
            case Complete(data, rest) =>
              r == Some(|data|) && |data| <= |written| && written[..|data|] == data && uart.rx == rest
            case Refused => r == Some(0)
            case Waiting => r == None
    ensures var line := old(uart.rx);
            uart.tx == old(uart.tx) + Acks(Answers(Accepted(line, 1, maxlen), Receive(line, 1, maxlen)))
  {
    hide Memory, Patch, Open, Receive, Accepted, Acks, Overlay, Flatten;
    ghost var line := uart.rx;
    var pid: byte, len: nat, n: nat := 1, 0, 0;
    written := [];
    PatchNothing(mem, base);
    PrependNothing(Receive(line, 1, maxlen));
    NoAcks(uart.tx);
    while true
      invariant len <= maxlen && len <= |written| <= maxlen + 2
      invariant Memory(a, Patch(mem, base, written))
      invariant Receive(line, 1, maxlen) == Prepend(written[..len], Receive(uart.rx, pid, maxlen - len))
      invariant Accepted(line, 1, maxlen) == n + Accepted(uart.rx, pid, maxlen - len)
      invariant uart.tx == old(uart.tx) + Acks(n)
      decreases |uart.rx|
    {
      ghost var now := uart.rx;
      ReceiveRound(now, pid, maxlen - len);
      var o;
      ghost var got;
      o, got := ReceivePacket(uart, pid, a, base + len, len, maxlen, Patch(mem, base, written));
      PatchOverlay(mem, base, written, len, got);
      OverlayPrefix(written, len, got, 0);
      ghost var before := written;
      written := Overlay(written, len, got);
      assert got[..0] == [] && before[..len] + [] == before[..len];
      if o == Silence {
        return None, written;
      }
      if o == End {
        uart.Putc(ACK);
        OneMoreAck(old(uart.tx), n);
        assert before[..len] + [] == before[..len];
        return Some(len), written;
      }
      if o == Bad {
        return Some(0), written;
      }
      OverlayPrefix(before, len, got, PAYLOAD);
      assert got[..PAYLOAD] == now[3..3 + PAYLOAD];
      PrependTwice(before[..len], now[3..3 + PAYLOAD], Receive(uart.rx, Next(pid), maxlen - len - PAYLOAD));
      pid := Next(pid);
      len := len + PAYLOAD;
      uart.Putc(ACK);
      OneMoreAck(old(uart.tx), n);
      n := n + 1;
    }
  }

  lemma NoAcks(tx: seq<byte>)
    ensures tx + Acks(0) == tx
  {
  }

  lemma OneMoreAck(tx: seq<byte>, n: nat)
    ensures (tx + Acks(n)) + [ACK] == tx + Acks(n + 1)
  {
  }

  lemma {:induction false} AcksAreAcks(n: nat)
    ensures forall i :: 0 <= i < n ==> Acks(n)[i] == 0x06
  {
    if n > 0 {
      AcksAreAcks(n - 1);
    }
  }

  /** A sender of n packets gets n + 1 ACKs. */
  lemma AcksOfTransfer(ps: seq<seq<byte>>, rest: seq<byte>, room: nat)
    requires Payloads(ps) && |Flatten(ps)| <= room
    ensures var line := Transfer(1, ps) + rest;
            Answers(Accepted(line, 1, room), Receive(line, 1, room)) == |ps| + 1
  {
    hide Receive, Accepted, Transfer, Flatten, Payloads;
    var line := Transfer(1, ps) + rest;
    TransferIsReceived(ps, 1, room, rest);
    AcceptedOfComplete(line, 1, room);
    PayloadAt(ps, 0);
  }

  /** One whose packet behind n others is damaged gets n, or one more if it was
      taken for the end marker. */
  lemma AcksOfDamaged(before: seq<seq<byte>>, payload: seq<byte>, got: seq<byte>, rest: seq<byte>, room: nat)
    requires Payloads(before) && |Flatten(before)| <= room && |payload| == PAYLOAD
    requires Damaged(Packet(After(1, |before|), payload), got)
    ensures |got| == PACKET
    ensures var line := Sending(1, before) + (got + rest);
            Answers(Accepted(line, 1, room), Receive(line, 1, room)) == |before| + (if got[0] == 0x04 then 1 else 0)
  {
    hide Receive, Accepted, Sending, Damaged, Flatten, Payloads, Packet, After;
    DamagedHasSize(Packet(After(1, |before|), payload), got);
    DamagedPacketEndsTransfer(before, payload, got, rest, room);
    DamagedIsNotAccepted(before, payload, got, rest, room);
  }

  /** What one round of the loop means for the outcome. */
  lemma ReceiveRound(line: seq<byte>, pid: byte, room: nat)
    ensures var r := Receive(line, pid, room);
      match Open(line, pid, room)
      case Silence => r == Waiting
      case Bad => r == Refused
      case End => r == Complete([], line[1..])
      case Good => r == Prepend(line[3..3 + PAYLOAD], Receive(line[PACKET..], Next(pid), room - PAYLOAD))
    ensures Accepted(line, pid, room)
      == if Open(line, pid, room) == Good then 1 + Accepted(line[PACKET..], Next(pid), room - PAYLOAD) else 0
  {
    hide Open, Prepend;
  }
}
