/** Files sent and received through the mailbox (ethercatfoe.c). */
module Foe {
  import opened Memory

  datatype Packet = Packet(number: nat, data: seq<byte>)

  /** The packets of a file from position `o` on: full ones, and a last one that is shorter, perhaps
      empty. */
  function Packets(file: seq<byte>, maxdata: nat, o: nat, number: nat): seq<Packet>
    requires o <= |file| && maxdata > 0
    decreases |file| - o
  {
    if |file| - o < maxdata then [Packet(number, file[o..])]
    else [Packet(number, file[o..o + maxdata])] + Packets(file, maxdata, o + maxdata, number + 1)
  }

  /** What the slave says to the master's messages. */
  datatype Answer = Ack(number: nat) | Busy | Error(code: nat) | OtherOp | OtherType | NoMail

  datatype Outcome = Ok | NoAnswer | PacketNumber | FileNotFound | FoeError | PacketError | BufferTooSmall

  /** What stops a transfer when it is not an acknowledgement. */
  function Stop(a: Answer): Outcome {
    match a
    case NoMail => NoAnswer
    case Error(code) => if code == 0x8001 then FileNotFound else FoeError
    case OtherOp => PacketError
    case OtherType => PacketError
    // a busy slave is meant to be served again, but the loop ends here, without an error
    case Busy => Ok
    case Ack(_) => PacketNumber
  }

  /** What is still to be sent: nothing after the last packet. */
  ghost function ToSend(file: seq<byte>, maxdata: nat, o: nat, number: nat, more: bool): seq<Packet>
    requires o <= |file| && maxdata > 0
  {
    if more then Packets(file, maxdata, o, number) else []
  }

  /** The packets that are sent if all goes well: none for an empty file or a mailbox without room. */
  function WholeFile(file: seq<byte>, maxdata: nat): seq<Packet> {
    if maxdata > 0 && file != [] then Packets(file, maxdata, 0, 1) else []
  }

  /** The first answer from `k` on that is not the acknowledgement expected, but `n` at most. */
  function FirstStop(answers: nat -> Answer, k: nat, n: nat): (r: nat)
    requires k <= n
    ensures k <= r <= n && (r < n ==> answers(r) != Ack(r))
    ensures forall j {:trigger answers(j)} :: k <= j < r ==> answers(j) == Ack(j)
    decreases n - k
  {
    if k == n || answers(k) != Ack(k) then k else FirstStop(answers, k + 1, n)
  }

  /** Where sending ends: with the first answer that stops it, or after the last packet. */
  function WriteResult(file: seq<byte>, maxdata: nat, answers: nat -> Answer): (r: (Outcome, seq<Packet>))
    ensures r.1 <= WholeFile(file, maxdata)
  {
    var whole := WholeFile(file, maxdata);
    var k := FirstStop(answers, 0, |whole|);
    (if answers(k) == Ack(k) then Ok else Stop(answers(k)), whole[..k])
  }

  lemma {:induction false} StopsThere(answers: nat -> Answer, n: nat, k: nat)
    requires k <= n && forall j {:trigger answers(j)} :: 0 <= j < k ==> answers(j) == Ack(j)
    requires answers(k) != Ack(k) || k == n
    ensures FirstStop(answers, 0, n) == k
  {
    var r := FirstStop(answers, 0, n);
    assert answers(r) == answers(r) && answers(k) == answers(k);
  }

  /** Sends a file, packet by packet, each after the one before it was acknowledged; `answers(k)` comes
      after `k` packets. */
  method Write(file: seq<byte>, mbxl: nat, answers: nat -> Answer) returns (outcome: Outcome, sent: seq<Packet>)
    requires mbxl >= 12
    ensures (outcome, sent) == WriteResult(file, mbxl - 12, answers)
    ensures mbxl > 12 && file != [] ==> sent <= Packets(file, mbxl - 12, 0, 1)
    ensures mbxl == 12 || file == [] ==> sent == []
    ensures forall k :: 0 <= k < |sent| ==> answers(k) == Ack(k)
    ensures answers(|sent|) != Ack(|sent|) ==> outcome == Stop(answers(|sent|))
    ensures answers(|sent|) == Ack(|sent|) ==>
              outcome == Ok && (mbxl > 12 && file != [] ==> sent == Packets(file, mbxl - 12, 0, 1))
  {
    hide Packets;
    var maxdata := mbxl - 12;
    var o: nat, sendpacket: nat := 0, 0;
    var dofinalzero := false;
    sent, outcome := [], Ok;
    var worktodo := true;
    ghost var whole := WholeFile(file, maxdata);
    while worktodo
      invariant o <= |file| && sendpacket == |sent|
      invariant dofinalzero ==> o == |file| && maxdata > 0
      invariant maxdata == 0 ==> o == 0
      invariant maxdata > 0 ==> whole == sent + ToSend(file, maxdata, o, sendpacket + 1, o < |file| || dofinalzero)
      invariant maxdata == 0 || file == [] ==> sent == []
      invariant forall k :: 0 <= k < |sent| ==> answers(k) == Ack(k)
      invariant !worktodo ==> answers(|sent|) != Ack(|sent|) ==> outcome == Stop(answers(|sent|))
      invariant !worktodo ==> answers(|sent|) == Ack(|sent|) ==>
                  outcome == Ok && (maxdata == 0 || (o == |file| && !dofinalzero))
      decreases worktodo, |file| - o, dofinalzero
    {
      worktodo := false;
      var answer := answers(sendpacket);
      if answer == Ack(sendpacket) {
        outcome := Ok;
        var tsize := if |file| - o > maxdata then maxdata else |file| - o;
        if tsize > 0 || dofinalzero {
          NextPacket(file, maxdata, o, sendpacket + 1);
          worktodo := true;
          dofinalzero := o + tsize == |file| && tsize == maxdata;
          sendpacket := sendpacket + 1;
          sent := sent + [Packet(sendpacket, file[o..o + tsize])];
          o := o + tsize;
        }
      } else {
        outcome := Stop(answer);
      }
    }
    StopsThere(answers, |whole|, |sent|);
    assert whole[..|sent|] == sent;
  }

  /** A writer that reports success without having sent all packets of the file: that happens exactly if
      the first answer that is not the acknowledgement expected is Busy, and comes while packets are left
      to be sent. */
  lemma {:induction false} LostIfBusy(file: seq<byte>, maxdata: nat, answers: nat -> Answer)
    ensures var (outcome, sent) := WriteResult(file, maxdata, answers); var n := |WholeFile(file, maxdata)|;
            outcome == Ok && sent != WholeFile(file, maxdata)
            <==> FirstStop(answers, 0, n) < n && answers(FirstStop(answers, 0, n)) == Busy
  {
    hide Packets, FirstStop;
    var whole := WholeFile(file, maxdata);
    var k := FirstStop(answers, 0, |whole|);
    assert whole[..|whole|] == whole;
  }

  /** What the outcome of a writer says of the answer to the last packet that was sent. */
  lemma {:induction false} OutcomeTells(file: seq<byte>, maxdata: nat, answers: nat -> Answer)
    ensures var (outcome, sent) := WriteResult(file, maxdata, answers);
            var last := answers(|sent|);
            && (outcome == FileNotFound <==> last == Error(0x8001))
            && (outcome == FoeError <==> last.Error? && last.code != 0x8001)
            && (outcome == NoAnswer <==> last == NoMail)
            && (outcome == PacketError <==> last == OtherOp || last == OtherType)
            && (outcome == PacketNumber <==> last.Ack? && last.number != |sent|)
            && (outcome == Ok <==> last == Busy || last == Ack(|sent|))
  {
    hide FirstStop, WholeFile;
  }

  /** For example a slave that is busy after the first of two packets: the last two bytes are not sent,
      and the writer reports success. */
  lemma {:induction false} BusyLosesBytes()
    ensures WriteResult([1, 2, 3, 4, 5, 6], 4, k => if k == 0 then Ack(0) else Busy) == (Ok, [Packet(1, [1, 2, 3, 4])])
    ensures Packets([1, 2, 3, 4, 5, 6], 4, 0, 1) == [Packet(1, [1, 2, 3, 4]), Packet(2, [5, 6])]
  {
    var file: seq<byte>, answers := [1, 2, 3, 4, 5, 6], k => if k == 0 then Ack(0) else Busy;
    var whole := [Packet(1, [1, 2, 3, 4]), Packet(2, [5, 6])];
    assert file[0..4] == [1, 2, 3, 4] && file[4..] == [5, 6];
    assert Packets(file, 4, 4, 2) == [Packet(2, [5, 6])];
    assert WholeFile(file, 4) == whole;
    StopsThere(answers, 2, 1);
    assert whole[..1] == [Packet(1, [1, 2, 3, 4])];
  }

  lemma {:induction false} NextPacket(file: seq<byte>, maxdata: nat, o: nat, number: nat)
    requires o <= |file| && maxdata > 0
    ensures var n := if |file| - o > maxdata then maxdata else |file| - o;
            Packets(file, maxdata, o, number)
            == [Packet(number, file[o..o + n])]
               + (if n < maxdata then [] else Packets(file, maxdata, o + n, number + 1))
  {
    assert file[o..] == file[o..|file|];
  }

  /** What the slave sends to a master that reads. */
  datatype Incoming = Data(packet: Packet) | Refused | OtherMessage

  /** Where reading ends: the outcome, the file read so far, and the number of packets taken. */
  datatype Reading = Reading(outcome: Outcome, file: seq<byte>, packets: nat)

  /** Reading from message `k` on, after as many packets, with the file read so far in `got`. */
  ghost function ReadFrom(incoming: seq<Incoming>, k: nat, got: seq<byte>, buffersize: int, maxdata: nat): (r: Reading)
    requires k <= |incoming|
    ensures got <= r.file && (|got| <= buffersize || r.file == got || |r.file| <= buffersize)
    decreases |incoming| - k
  {
    if k == |incoming| then Reading(NoAnswer, got, k)
    else match incoming[k]
      case Refused => Reading(FoeError, got, k)
      case OtherMessage => Reading(PacketError, got, k)
      case Data(packet) =>
        if packet.number != k + 1 || |got| + |packet.data| > buffersize then Reading(BufferTooSmall, got, k)
        else if |packet.data| == maxdata then ReadFrom(incoming, k + 1, got + packet.data, buffersize, maxdata)
        else Reading(Ok, got + packet.data, k + 1)
  }

  /** Reads a file into `p`, acknowledging each packet; a packet that is not full is the last one. */
  method Read(incoming: seq<Incoming>, mbxl: nat, buffersize: int, p: array<byte>)
      returns (outcome: Outcome, dataread: nat, acks: seq<nat>)
    requires mbxl >= 12 && buffersize <= p.Length
    modifies p
    ensures var r := ReadFrom(incoming, 0, [], buffersize, mbxl - 12);
            && |r.file| <= p.Length && outcome == r.outcome && dataread == |r.file|
            && p[..] == Patch(old(p[..]), 0, r.file)
            && |acks| == r.packets && forall k :: 0 <= k < |acks| ==> acks[k] == k + 1
  {
    hide Patch;
    var maxdata := mbxl - 12;
    var prevpacket: nat := 0;
    dataread, acks, outcome := 0, [], Ok;
    var worktodo := true;
    ghost var got: seq<byte> := [];
    ghost var was := p[..];
    PatchNothing(was);
    while worktodo
      invariant dataread == |got| <= p.Length && p[..] == Patch(was, 0, got)
      invariant worktodo ==> prevpacket == |acks| <= |incoming|
      invariant worktodo ==> ReadFrom(incoming, prevpacket, got, buffersize, maxdata)
                             == ReadFrom(incoming, 0, [], buffersize, maxdata)
      invariant !worktodo ==> Reading(outcome, got, |acks|) == ReadFrom(incoming, 0, [], buffersize, maxdata)
      invariant forall k :: 0 <= k < |acks| ==> acks[k] == k + 1
      decreases worktodo, |incoming| - prevpacket
    {
      worktodo := false;
      if prevpacket == |incoming| {
        outcome := NoAnswer;
      } else {
        match incoming[prevpacket]
        case Refused => outcome := FoeError;
        case OtherMessage => outcome := PacketError;
        case Data(packet) =>
          prevpacket := prevpacket + 1;
          if packet.number == prevpacket && dataread + |packet.data| <= buffersize {
            PatchMore(was, got, packet.data);
            CopyIn(p, dataread, packet.data);
            dataread := dataread + |packet.data|;
            got := got + packet.data;
            worktodo := |packet.data| == maxdata;
            acks := acks + [packet.number];
            outcome := Ok;
          } else {
            outcome := BufferTooSmall;
          }
      }
    }
  }

  /** Message `k` is the packet with number `k + 1`. */
  predicate Numbered(incoming: seq<Incoming>, k: nat)
    requires k < |incoming|
  {
    incoming[k].Data? && incoming[k].packet.number == k + 1
  }

  /** The data of the messages from `j` to `k`. */
  function Joined(incoming: seq<Incoming>, j: nat, k: nat): seq<byte>
    requires j <= k <= |incoming|
    decreases k - j
  {
    if j == k then [] else (if incoming[j].Data? then incoming[j].packet.data else []) + Joined(incoming, j + 1, k)
  }

  predicate LastOf(r: Reading, i: nat) { r.outcome == Ok && i == r.packets - 1 }

  /** What reading from message `k` on has taken, whatever was sent: packets whose numbers count from 1 without a
      gap, all of them full but the last one if reading was successful. */
  ghost predicate ReadWell(incoming: seq<Incoming>, k: nat, r: Reading, maxdata: nat) {
    && k <= r.packets <= |incoming|
    && (forall i {:trigger incoming[i]} :: k <= i < r.packets ==>
          Numbered(incoming, i) && (|incoming[i].packet.data| == maxdata <==> !LastOf(r, i)))
    && (r.outcome == Ok ==> k < r.packets)
  }

  lemma {:induction false} OneMoreRead(incoming: seq<Incoming>, k: nat, r: Reading, maxdata: nat)
    requires k < |incoming| && ReadWell(incoming, k + 1, r, maxdata)
    requires Numbered(incoming, k) && |incoming[k].packet.data| == maxdata
    ensures ReadWell(incoming, k, r, maxdata)
  {
    forall i | k <= i < r.packets
      ensures Numbered(incoming, i) && (|incoming[i].packet.data| == maxdata <==> !LastOf(r, i))
    {
      if i > k {
        assert incoming[i] == incoming[i];
      }
    }
  }

  lemma {:induction false} AnyReading(incoming: seq<Incoming>, k: nat, got: seq<byte>, buffersize: int, maxdata: nat)
    requires k <= |incoming|
    ensures var r := ReadFrom(incoming, k, got, buffersize, maxdata);
            ReadWell(incoming, k, r, maxdata) && r.file == got + Joined(incoming, k, r.packets)
    decreases |incoming| - k
  {
    hide Joined;
    var r := ReadFrom(incoming, k, got, buffersize, maxdata);
    JoinedStep(incoming, k, r.packets);
    assert got + [] == got;
    if k < |incoming| && incoming[k].Data? && incoming[k].packet.number == k + 1 {
      var data := incoming[k].packet.data;
      if |got| + |data| <= buffersize {
        if |data| == maxdata {
          AnyReading(incoming, k + 1, got + data, buffersize, maxdata);
          OneMoreRead(incoming, k, r, maxdata);
          assert (got + data) + Joined(incoming, k + 1, r.packets) == got + (data + Joined(incoming, k + 1, r.packets));
        } else {
          JoinedStep(incoming, k + 1, k + 1);
          assert data + [] == data;
        }
      }
    }
  }

  lemma {:induction false} JoinedStep(incoming: seq<Incoming>, j: nat, k: nat)
    requires j <= |incoming|
    ensures j == k ==> Joined(incoming, j, k) == []
    ensures j < k <= |incoming| && incoming[j].Data? ==>
              Joined(incoming, j, k) == incoming[j].packet.data + Joined(incoming, j + 1, k)
  {
  }

  /** Why reading stops without success at the message behind those taken: there is none, it is not a packet, it
      has the wrong number, or there is no room for it. */
  lemma {:induction false} WhyReadingStops(incoming: seq<Incoming>, k: nat, got: seq<byte>, buffersize: int,
                                           maxdata: nat)
    requires k <= |incoming|
    ensures var r := ReadFrom(incoming, k, got, buffersize, maxdata);
            r.packets <= |incoming| && (r.outcome != Ok ==>
              var n := r.packets;
              && (n == |incoming| <==> r.outcome == NoAnswer)
              && (n < |incoming| && incoming[n].OtherMessage? <==> r.outcome == PacketError)
              && (n < |incoming| && incoming[n].Refused? <==> r.outcome == FoeError)
              && (n < |incoming| && incoming[n].Data? <==> r.outcome == BufferTooSmall)
              && (r.outcome == BufferTooSmall <==>
                    n < |incoming| && incoming[n].Data?
                    && (!Numbered(incoming, n) || |r.file| + |incoming[n].packet.data| > buffersize)))
    decreases |incoming| - k
  {
    if k < |incoming| && incoming[k].Data? {
      var packet := incoming[k].packet;
      if packet.number == k + 1 && |got| + |packet.data| <= buffersize && |packet.data| == maxdata {
        WhyReadingStops(incoming, k + 1, got + packet.data, buffersize, maxdata);
      }
    }
  }

  /** The messages from `k` on begin with the packets of a file from position `o` on. */
  ghost predicate Carries(incoming: seq<Incoming>, k: nat, packets: seq<Packet>) {
    k + |packets| <= |incoming| && forall i {:trigger packets[i]} :: 0 <= i < |packets| ==>
        incoming[k + i] == Data(packets[i])
  }

  lemma {:induction false} ReadStep(incoming: seq<Incoming>, k: nat, got: seq<byte>, buffersize: int, maxdata: nat)
    requires k < |incoming| && incoming[k].Data?
    ensures var packet := incoming[k].packet;
            ReadFrom(incoming, k, got, buffersize, maxdata)
            == if packet.number != k + 1 || |got| + |packet.data| > buffersize then Reading(BufferTooSmall, got, k)
               else if |packet.data| == maxdata then ReadFrom(incoming, k + 1, got + packet.data, buffersize, maxdata)
               else Reading(Ok, got + packet.data, k + 1)
  {
  }

  lemma {:induction false} PacketsAreRead(incoming: seq<Incoming>, k: nat, file: seq<byte>, o: nat, buffersize: int,
                                          maxdata: nat)
    requires o <= |file| && maxdata > 0 && o <= buffersize && Carries(incoming, k, Packets(file, maxdata, o, k + 1))
    ensures var r := ReadFrom(incoming, k, file[..o], buffersize, maxdata);
            if |file| <= buffersize then r == Reading(Ok, file, k + |Packets(file, maxdata, o, k + 1)|)
            else r.outcome == BufferTooSmall
    decreases |file| - o
  {
    hide Packets, Carries, ReadFrom;
    var n := if |file| - o > maxdata then maxdata else |file| - o;
    var packets := Packets(file, maxdata, o, k + 1);
    NextPacket(file, maxdata, o, k + 1);
    CarriesFirst(incoming, k, packets);
    assert file[..o] + file[o..o + n] == file[..o + n];
    ReadStep(incoming, k, file[..o], buffersize, maxdata);
    if n < maxdata {
      assert file[..|file|] == file;
    } else if o + n <= buffersize {
      CarriesRest(incoming, k, packets);
      assert packets[1..] == Packets(file, maxdata, o + n, k + 2);
      PacketsAreRead(incoming, k + 1, file, o + n, buffersize, maxdata);
    }
  }

  lemma {:induction false} CarriesFirst(incoming: seq<Incoming>, k: nat, packets: seq<Packet>)
    requires packets != [] && Carries(incoming, k, packets)
    ensures k + |packets| <= |incoming| && incoming[k] == Data(packets[0])
  {
    assert packets[0] == packets[0];
  }

  lemma {:induction false} CarriesRest(incoming: seq<Incoming>, k: nat, packets: seq<Packet>)
    requires packets != [] && Carries(incoming, k, packets)
    ensures Carries(incoming, k + 1, packets[1..])
  {
    forall i | 0 <= i < |packets| - 1 ensures incoming[k + 1 + i] == Data(packets[1..][i]) {
      assert packets[i + 1] == packets[1..][i];
    }
  }

  /** The packets of a file, whatever comes after them, are read as this file and no more is taken, if
      and only if the buffer is large enough. */
  lemma {:induction false} RoundTrip(file: seq<byte>, mbxl: nat, buffersize: nat, incoming: seq<Incoming>)
    requires mbxl > 12 && Carries(incoming, 0, Packets(file, mbxl - 12, 0, 1))
    ensures var r := ReadFrom(incoming, 0, [], buffersize, mbxl - 12);
            && (|file| <= buffersize ==> r == Reading(Ok, file, |Packets(file, mbxl - 12, 0, 1)|))
            && (|file| > buffersize ==> r.outcome == BufferTooSmall)
  {
    hide Packets, Carries, ReadFrom;
    assert file[..0] == [];
    PacketsAreRead(incoming, 0, file, 0, buffersize, mbxl - 12);
  }

  /** All packets but the last are full, and the last is strictly shorter; the numbers count from 1. */
  lemma {:induction false} OnlyLastIsShort(file: seq<byte>, maxdata: nat, o: nat, number: nat, k: nat)
    requires o <= |file| && maxdata > 0 && k < |Packets(file, maxdata, o, number)|
    ensures var packets := Packets(file, maxdata, o, number);
            && packets[k].number == number + k
            && (if k < |packets| - 1 then |packets[k].data| == maxdata else |packets[k].data| < maxdata)
    decreases |file| - o
  {
    if |file| - o >= maxdata && k > 0 {
      OnlyLastIsShort(file, maxdata, o + maxdata, number + 1, k - 1);
    }
  }

  /** If packets are missing at the end, the reader waits for the next one in vain. */
  lemma {:induction false} CutIsNoticed(incoming: seq<Incoming>, k: nat, file: seq<byte>, o: nat, buffersize: int,
                                        maxdata: nat)
    requires o <= |file| <= buffersize && maxdata > 0 && k <= |incoming|
    requires |incoming| - k < |Packets(file, maxdata, o, k + 1)|
    requires Carries(incoming, k, Packets(file, maxdata, o, k + 1)[..|incoming| - k])
    ensures var r := ReadFrom(incoming, k, file[..o], buffersize, maxdata);
            r.outcome == NoAnswer && r.packets == |incoming| && r.file <= file
    decreases |file| - o
  {
    hide Packets, Carries;
    if k < |incoming| {
      var n := if |file| - o > maxdata then maxdata else |file| - o;
      var packets := Packets(file, maxdata, o, k + 1);
      var first := packets[..|incoming| - k];
      NextPacket(file, maxdata, o, k + 1);
      CarriesFirst(incoming, k, first);
      CarriesRest(incoming, k, first);
      assert file[..o] + file[o..o + n] == file[..o + n];
      var rest := Packets(file, maxdata, o + n, k + 2);
      assert first[1..] == rest[..|incoming| - (k + 1)];
      CutIsNoticed(incoming, k + 1, file, o + n, buffersize, maxdata);
    }
  }

  /** The packets that a writer has sent, as the messages a reader gets. */
  function AsIncoming(sent: seq<Packet>): (incoming: seq<Incoming>)
    ensures |incoming| == |sent| && forall k {:trigger sent[k]} :: 0 <= k < |sent| ==> incoming[k] == Data(sent[k])
  {
    seq(|sent|, k requires 0 <= k < |sent| => Data(sent[k]))
  }

  lemma {:induction false} NothingToRead(file: seq<byte>, buffersize: int, maxdata: nat)
    ensures ReadFrom([], 0, [], buffersize, maxdata) == Reading(NoAnswer, [], 0) && [] <= file
  {
  }

  /** Everything has been sent. */
  predicate SentCompletely(file: seq<byte>, maxdata: nat, sent: seq<Packet>) {
    maxdata > 0 && file != [] && sent == Packets(file, maxdata, 0, 1)
  }

  /** What a writer has sent, however the slave has answered, is read as the file exactly if the file is
      not empty, the mailbox has room for data and all packets have been sent; else reading fails. */
  lemma {:induction false} WrittenIsRead(file: seq<byte>, maxdata: nat, buffersize: nat, answers: nat -> Answer)
    requires |file| <= buffersize
    ensures var sent := WriteResult(file, maxdata, answers).1;
            var r := ReadFrom(AsIncoming(sent), 0, [], buffersize, maxdata);
            && (if SentCompletely(file, maxdata, sent) then r.outcome == Ok && r.file == file
                else r.outcome == NoAnswer && r.file <= file)
            && r.packets == |sent|
  {
    hide Packets, ReadFrom, WriteResult;
    var sent := WriteResult(file, maxdata, answers).1;
    var incoming, whole := AsIncoming(sent), WholeFile(file, maxdata);
    assert file[..0] == [];
    if whole == [] {
      NothingToRead(file, buffersize, maxdata);
      if maxdata > 0 {
        NextPacket(file, maxdata, 0, 1);
      }
    } else if sent == whole {
      RoundTrip(file, maxdata + 12, buffersize, incoming);
    } else {
      assert whole[..|sent|] == sent;
      CutIsNoticed(incoming, 0, file, 0, buffersize, maxdata);
    }
  }

  /** A file is sent, and what was sent is read on the other side into a buffer that is large enough. */
  method WriteThenRead(file: seq<byte>, mbxl: nat, answers: nat -> Answer, p: array<byte>)
      returns (written: Outcome, sent: seq<Packet>, outcome: Outcome, dataread: nat)
    requires mbxl >= 12 && |file| <= p.Length
    modifies p
    ensures (written, sent) == WriteResult(file, mbxl - 12, answers)
    ensures outcome == Ok <==> SentCompletely(file, mbxl - 12, sent)
    ensures dataread <= |file| && p[..dataread] == file[..dataread] && (outcome == Ok ==> dataread == |file|)
    ensures p[dataread..] == old(p[dataread..])
  {
    hide WriteResult, ReadFrom, SentCompletely;
    written, sent := Write(file, mbxl, answers);
    var acks;
    outcome, dataread, acks := Read(AsIncoming(sent), mbxl, p.Length, p);
    WrittenIsRead(file, mbxl - 12, p.Length, answers);
  }
}
