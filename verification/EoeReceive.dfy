/** Ethernet frames received through the mailbox, in one go (ecx_EOErecv). */
module EoeReceive {
  import opened Memory
  import opened EoeSend

  /** What a call returns: the size of the frame, or why there is none. */
  datatype Outcome = Received(size: int) | InvalidData | PacketError | NoMail

  /** The working variables of a reception; the counters have 8 and 16 bits. */
  datatype Rx = Rx(fragmentno: nat, frameno: nat, offset: nat, buf: seq<byte>)

  /** A message is refused. */
  predicate Refused(rx: Rx, m: Mail, port: nat) {
    || (rx.fragmentno != FragNo(m) && FragNo(m) > 0)
    || (rx.fragmentno == 0 && (32 * OffsetField(m) > |rx.buf| || port != Port(m)))
    || (rx.fragmentno != 0 && (rx.frameno != FrameNo(m) || rx.offset != 32 * OffsetField(m)))
  }

  /** The working variables after a message that is not refused; one that does not fit is skipped. */
  function Taken(rx: Rx, m: Mail): (r: Rx)
    requires DataSize(m) <= |m.data|
    ensures |r.buf| == |rx.buf|
  {
    var start := if rx.fragmentno == 0 then rx.(offset := 0, frameno := FrameNo(m)) else rx;
    if start.offset + DataSize(m) <= |rx.buf| then
      start.(buf := Patch(rx.buf, start.offset, m.data[..DataSize(m)]),
             offset := (start.offset + DataSize(m)) % 65536, fragmentno := (rx.fragmentno + 1) % 256)
    else start
  }

  /** The size reported with the last fragment, without a time stamp. */
  function SizeOf(rx: Rx, m: Mail): int {
    if TimeAppended(m) then (rx.offset + 65532) % 65536 else rx.offset
  }

  predicate Readable(inbox: seq<Mail>) {
    forall k {:trigger inbox[k]} :: 0 <= k < |inbox| ==> DataSize(inbox[k]) <= |inbox[k].data|
  }

  /** The reception from message `k` on: its outcome and the buffer. */
  function ReceiveFrom(inbox: seq<Mail>, k: nat, port: nat, rx: Rx): (r: (Outcome, seq<byte>))
    requires k <= |inbox| && Readable(inbox)
    ensures |r.1| == |rx.buf|
    decreases |inbox| - k
  {
    if k == |inbox| then (NoMail, rx.buf)
    else if !IsEoe(inbox[k]) then (PacketError, rx.buf)
    else if Refused(rx, inbox[k], port) then (InvalidData, rx.buf)
    else
      var next := Taken(rx, inbox[k]);
      if LastFragment(inbox[k]) then (Received(SizeOf(next, inbox[k])), next.buf)
      else ReceiveFrom(inbox, k + 1, port, next)
  }

  /** Receives one frame from the messages of a mailbox into a buffer. */
  method Receive(inbox: seq<Mail>, port: nat, buf: array<byte>) returns (outcome: Outcome)
    requires Readable(inbox)
    modifies buf
    ensures (outcome, buf[..]) == ReceiveFrom(inbox, 0, port, Rx(0, 0, 0, old(buf[..])))
  {
    hide Refused, Patch;
    var rxfragmentno: nat, rxframeno: nat, rxframeoffset: nat := 0, 0, 0;
    var k := 0;
    while k < |inbox|
      invariant k <= |inbox|
      invariant ReceiveFrom(inbox, k, port, Rx(rxfragmentno, rxframeno, rxframeoffset, buf[..]))
                == ReceiveFrom(inbox, 0, port, Rx(0, 0, 0, old(buf[..])))
    {
      var m := inbox[k];
      if !IsEoe(m) {
        return PacketError;
      }
      if Refused(Rx(rxfragmentno, rxframeno, rxframeoffset, buf[..]), m, port) {
        return InvalidData;
      }
      if rxfragmentno == 0 {
        rxframeoffset := 0;
        rxframeno := FrameNo(m);
      }
      if rxframeoffset + DataSize(m) <= buf.Length {
        CopyIn(buf, rxframeoffset, m.data[..DataSize(m)]);
        rxframeoffset := (rxframeoffset + DataSize(m)) % 65536;
        rxfragmentno := (rxfragmentno + 1) % 256;
      }
      if LastFragment(m) {
        if TimeAppended(m) {
          rxframeoffset := (rxframeoffset + 65532) % 65536;
        }
        return Received(rxframeoffset);
      }
      k := k + 1;
    }
    return NoMail;
  }

  /** The first `o` bytes of the frame have arrived. */
  ghost predicate Arrived(buf: seq<byte>, frame: seq<byte>, o: nat) {
    o <= |frame| && o <= |buf| && buf[..o] == frame[..o]
  }

  /** Frames of up to 2016 bytes: counters and offsets of all fragments fit their six bits. */
  lemma {:induction false} FitsSixBits(mails: seq<Mail>, frame: seq<byte>, port: nat, start: nat, maxdata: nat, k: nat)
    requires Complete(mails, frame, port, start, maxdata) && |frame| <= 2016 && k < |mails|
    ensures 32 * k <= OffsetOf(mails, k) <= OffsetOf(mails, k) + |mails[k].data| <= |frame|
    ensures OffsetOf(mails, k) % 32 == 0 && k < 64
    ensures FragNo(mails[k]) == k && FrameNo(mails[k]) == (start + 1) % 16
    ensures 32 * OffsetField(mails[k]) == if k == 0 then 32 * RoundUp(|frame|) else OffsetOf(mails, k)
  {
    hide IsFragment, Fragments, Complete, FragNo, FrameNo, OffsetField, RoundUp, LastFragment;
    var m, o := mails[k], OffsetOf(mails, k);
    Nth(mails, frame, port, start, maxdata, k);
    if k > 0 {
      FitsSixBits(mails, frame, port, start, maxdata, k - 1);
      Nth(mails, frame, port, start, maxdata, k - 1);
      NotLastIsBlocks(mails[k - 1], frame, port, start, maxdata, k - 1, OffsetOf(mails, k - 1));
    }
    Narrow(m, frame, port, start, maxdata, k, o);
  }

  lemma {:induction false} Nth(mails: seq<Mail>, frame: seq<byte>, port: nat, start: nat, maxdata: nat, k: nat)
    requires Complete(mails, frame, port, start, maxdata) && k < |mails|
    ensures IsFragment(mails[k], frame, port, start, maxdata, k, OffsetOf(mails, k))
    ensures LastFragment(mails[k]) <==> k == |mails| - 1
  {
    hide IsFragment, OffsetOf, LastFragment;
    assert FragmentAt(mails, frame, port, start, maxdata, k);
  }

  lemma {:induction false} NotLastIsBlocks(m: Mail, frame: seq<byte>, port: nat, start: nat, maxdata: nat, k: nat,
                                           o: nat)
    requires IsFragment(m, frame, port, start, maxdata, k, o) && !LastFragment(m)
    ensures |m.data| % 32 == 0 && |m.data| >= 32
  {
  }

  lemma {:induction false} Narrow(m: Mail, frame: seq<byte>, port: nat, start: nat, maxdata: nat, k: nat, o: nat)
    requires IsFragment(m, frame, port, start, maxdata, k, o) && |frame| <= 2016 && 32 * k <= o && o % 32 == 0
    ensures o + |m.data| <= |frame|
    ensures k < 64 && FragNo(m) == k && FrameNo(m) == (start + 1) % 16
    ensures 32 * OffsetField(m) == if k == 0 then 32 * RoundUp(|frame|) else o
  {
    hide IsEoe, Port, TimeAppended, LastFragment, DataSize;
  }

  /** What arrives next continues what has arrived. */
  lemma {:induction false} ArrivesNext(rx: seq<byte>, frame: seq<byte>, o: nat, data: seq<byte>)
    requires Arrived(rx, frame, o) && o + |data| <= |frame| && o + |data| <= |rx|
    requires data == frame[o..o + |data|]
    ensures Arrived(Patch(rx, o, data), frame, o + |data|)
  {
    assert frame[..o + |data|] == frame[..o] + data;
    assert Patch(rx, o, data)[..o + |data|] == rx[..o] + data;
  }

  /** The state of a reception that has taken in the first `k` fragments. */
  ghost predicate TookIn(rx: Rx, mails: seq<Mail>, k: nat, frame: seq<byte>, start: nat) {
    && k <= |mails| && rx.fragmentno == k
    && (k > 0 ==> rx.frameno == (start + 1) % 16)
    && rx.offset == OffsetOf(mails, k) && Arrived(rx.buf, frame, rx.offset)
  }

  lemma {:induction false} NotRefused(rx: Rx, mails: seq<Mail>, k: nat, frame: seq<byte>, port: nat, start: nat,
                                      maxdata: nat)
    requires Complete(mails, frame, port, start, maxdata) && |frame| <= 2016 && port < 16
    requires k < |mails| && TookIn(rx, mails, k, frame, start) && 32 * RoundUp(|frame|) <= |rx.buf|
    ensures !Refused(rx, mails[k], port)
  {
    hide Complete, IsFragment, Port, FragNo, FrameNo, OffsetField, Arrived, OffsetOf, RoundUp;
    FitsSixBits(mails, frame, port, start, maxdata, k);
    Nth(mails, frame, port, start, maxdata, k);
    HasPort(mails[k], frame, port, start, maxdata, k, OffsetOf(mails, k));
  }

  lemma {:induction false} HasPort(m: Mail, frame: seq<byte>, port: nat, start: nat, maxdata: nat, k: nat, o: nat)
    requires IsFragment(m, frame, port, start, maxdata, k, o)
    ensures IsEoe(m) && Port(m) == port % 16 && !TimeAppended(m)
  {
  }

  lemma {:induction false} CarriesData(m: Mail, frame: seq<byte>, port: nat, start: nat, maxdata: nat, k: nat, o: nat)
    requires IsFragment(m, frame, port, start, maxdata, k, o)
    ensures DataSize(m) == |m.data| && o + |m.data| <= |frame| && m.data == frame[o..o + |m.data|]
  {
  }

  lemma {:induction false} TakesFragment(rx: Rx, mails: seq<Mail>, k: nat, frame: seq<byte>, port: nat, start: nat,
                                         maxdata: nat)
    requires Complete(mails, frame, port, start, maxdata) && |frame| <= 2016
    requires k < |mails| && TookIn(rx, mails, k, frame, start) && |frame| <= |rx.buf|
    requires Readable(mails)
    ensures TookIn(Taken(rx, mails[k]), mails, k + 1, frame, start)
  {
    hide Complete, IsFragment, DataSize, FragNo, FrameNo, Arrived, Patch, Readable;
    var m, o := mails[k], OffsetOf(mails, k);
    FitsSixBits(mails, frame, port, start, maxdata, k);
    Nth(mails, frame, port, start, maxdata, k);
    CarriesData(m, frame, port, start, maxdata, k, o);
    assert m.data[..DataSize(m)] == m.data;
    ArrivesNext(rx.buf, frame, o, m.data);
  }

  lemma {:induction false} ReceivesRest(rx: Rx, mails: seq<Mail>, k: nat, frame: seq<byte>, port: nat, start: nat,
                                        maxdata: nat)
    requires Complete(mails, frame, port, start, maxdata) && |frame| <= 2016 && port < 16
    requires k < |mails| && TookIn(rx, mails, k, frame, start) && 32 * RoundUp(|frame|) <= |rx.buf|
    requires Readable(mails)
    ensures var r := ReceiveFrom(mails, k, port, rx);
            r.0 == Received(|frame|) && r.1[..|frame|] == frame
    decreases |mails| - k
  {
    hide Complete, IsFragment, IsEoe, Refused, Taken, TimeAppended, OffsetOf, LastFragment, RoundUp;
    NotRefused(rx, mails, k, frame, port, start, maxdata);
    TakesFragment(rx, mails, k, frame, port, start, maxdata);
    Nth(mails, frame, port, start, maxdata, k);
    HasPort(mails[k], frame, port, start, maxdata, k, OffsetOf(mails, k));
    EndsAt(mails, frame, port, start, maxdata);
    if k < |mails| - 1 {
      ReceivesRest(Taken(rx, mails[k]), mails, k + 1, frame, port, start, maxdata);
    }
  }

  lemma {:induction false} EndsAt(mails: seq<Mail>, frame: seq<byte>, port: nat, start: nat, maxdata: nat)
    requires Complete(mails, frame, port, start, maxdata)
    ensures mails != [] && OffsetOf(mails, |mails|) == |frame|
  {
    hide Fragments, OffsetOf;
  }

  lemma {:induction false} IsReadable(mails: seq<Mail>, frame: seq<byte>, port: nat, start: nat, maxdata: nat)
    requires Complete(mails, frame, port, start, maxdata)
    ensures Readable(mails)
  {
    forall k | 0 <= k < |mails| ensures DataSize(mails[k]) <= |mails[k].data| {
      assert FragmentAt(mails, frame, port, start, maxdata, k);
    }
  }

  /** A frame of up to 2016 bytes that is sent is received unchanged, exactly if the buffer has room for
      its length rounded up to 32 and the port number fits its four bits. */
  lemma {:induction false} RoundTrip(mails: seq<Mail>, frame: seq<byte>, port: nat, start: nat, maxdata: nat,
                                     buf: seq<byte>)
    requires Complete(mails, frame, port, start, maxdata) && |frame| <= 2016
    ensures Readable(mails)
    ensures var r := ReceiveFrom(mails, 0, port, Rx(0, 0, 0, buf));
            var fits := port < 16 && 32 * RoundUp(|frame|) <= |buf|;
            && (fits ==> r.0 == Received(|frame|) && r.1[..|frame|] == frame)
            && (!fits ==> r == (InvalidData, buf))
  {
    hide Complete, IsFragment, FragNo, FrameNo, OffsetField, LastFragment, TimeAppended, Taken;
    IsReadable(mails, frame, port, start, maxdata);
    EndsAt(mails, frame, port, start, maxdata);
    var rx := Rx(0, 0, 0, buf);
    if port < 16 && 32 * RoundUp(|frame|) <= |buf| {
      ReceivesRest(rx, mails, 0, frame, port, start, maxdata);
    } else {
      FitsSixBits(mails, frame, port, start, maxdata, 0);
      Nth(mails, frame, port, start, maxdata, 0);
      HasPort(mails[0], frame, port, start, maxdata, 0, 0);
    }
  }
}
