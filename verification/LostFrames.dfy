/** Cycles in which some frames do not come back: what the working counter then says. */
module LostFrames {
  import opened Memory
  import opened Bits
  import opened Wire
  import opened ProcessData
  import opened Transfers

  /** The datagrams that have come back, of the first `k`. */
  function CameBack(sent: seq<Datagram>, k: nat, bus: Bus): seq<Datagram>
    requires k <= |sent|
  {
    if k == 0 then [] else CameBack(sent, k - 1, bus) + (if bus.arrives(k - 1) then [sent[k - 1]] else [])
  }

  /** No slave has counted a datagram that is lost. */
  ghost predicate LostUnseen(sent: seq<Datagram>, k: nat, bus: Bus)
    requires k <= |sent|
  {
    forall i {:trigger sent[i]} :: 0 <= i < k ==> bus.arrives(i) || Return(sent[i], bus.slaves).wkc == 0
  }

  /** The counters that come back never exceed those of a cycle without losses, and reach them exactly if
      no slave has counted a lost datagram. */
  lemma {:induction false} ArrivedAtMost(sent: seq<Datagram>, k: nat, bus: Bus)
    requires k <= |sent|
    ensures ArrivedSum(sent, k, bus) <= WeightedSum(sent, k, bus.slaves)
    ensures ArrivedSum(sent, k, bus) == WeightedSum(sent, k, bus.slaves) <==> LostUnseen(sent, k, bus)
  {
    hide Return;
    if k > 0 {
      ArrivedAtMost(sent, k - 1, bus);
      if LostUnseen(sent, k, bus) {
        assert sent[k - 1] == sent[k - 1];
      }
    }
  }

  lemma {:induction false} NoShare(c: Command, slaves: seq<Slave>, j: nat, addr: nat, n: nat, i: nat)
    requires i < j <= |slaves| && Counter(c, slaves, j, addr, n) == 0
    ensures Share(c, slaves[i], addr, n) == 0
  {
    hide Share;
    if i < j - 1 {
      NoShare(c, slaves, j - 1, addr, n, i);
    }
  }

  /** A datagram that no slave has counted has nothing to do with any window. */
  lemma {:induction false} Unseen(d: Datagram, slaves: seq<Slave>, i: nat)
    requires i < |slaves| && Return(d, slaves).wkc == 0
    ensures Reads(d.command) ==> !Meets(slaves[i].inStart, slaves[i].inLen, d.addr, |d.data|)
    ensures Writes(d.command) ==> !Meets(slaves[i].outStart, slaves[i].outLen, d.addr, |d.data|)
  {
    hide ByteAfter, Meets;
    NoShare(d.command, slaves, |slaves|, d.addr, |d.data|, i);
  }

  /** Then every slave has taken all its outputs from datagrams that have come back. */
  lemma {:induction false} TakenFromArrived(sent: seq<Datagram>, k: nat, bus: Bus, j: nat)
    requires k <= |sent| && LostUnseen(sent, k, bus) && j < |bus.slaves|
    ensures AllTaken(CameBack(sent, k, bus), bus.slaves, j) == AllTaken(sent[..k], bus.slaves, j)
  {
    hide Return, Meets;
    if k > 0 {
      TakenFromArrived(sent, k - 1, bus, j);
      assert sent[..k][..k - 1] == sent[..k - 1];
      var before := CameBack(sent, k - 1, bus);
      if bus.arrives(k - 1) {
        assert (before + [sent[k - 1]])[..|before|] == before;
      } else {
        assert sent[k - 1] == sent[k - 1];
        Unseen(sent[k - 1], bus.slaves, j);
        assert before + [] == before;
      }
    }
  }

  /** All reading datagrams have one command and were sent from the image. */
  ghost predicate ReadAs(sent: seq<Datagram>, c: Command, g: Group, image: seq<byte>) {
    forall i {:trigger sent[i]} :: 0 <= i < |sent| && Reads(sent[i].command) ==>
      sent[i].command == c && SentFrom(sent[i], image, g.logstartaddr)
  }

  ghost predicate AllInIomap(sent: seq<Datagram>, g: Group, size: nat) {
    forall i {:trigger sent[i]} :: 0 <= i < |sent| ==> Fits(sent[i], Home(g), size)
  }

  /** What comes back for offset `o` of the IOmap. */
  ghost function Back(c: Command, g: Group, slaves: seq<Slave>, image: seq<byte>, o: nat): byte
    requires o < |image|
  {
    if o < Shift(g) then 0 else ByteOf(c, slaves, g.logstartaddr, image, o - Shift(g))
  }

  /** A byte that comes back in a reading datagram. */
  lemma {:induction false} ReturnByte(d: Datagram, c: Command, g: Group, slaves: seq<Slave>, image: seq<byte>, i: nat)
    requires Reads(d.command) && d.command == c && SentFrom(d, image, g.logstartaddr) && i < |d.data|
    ensures Return(d, slaves).data[i] == ByteOf(c, slaves, g.logstartaddr, image, d.addr - g.logstartaddr + i)
  {
    hide ByteAfter, Counter;
  }

  /** One datagram changes a byte only to what comes back for it. */
  lemma {:induction false} OneByteBack(d: Datagram, c: Command, g: Group, slaves: seq<Slave>, image: seq<byte>,
                                       now: seq<byte>, o: nat)
    requires Reads(d.command) ==> d.command == c && SentFrom(d, image, g.logstartaddr)
    requires Fits(d, Home(g), |image|) && |now| == |image| && o < |image|
    ensures var covers := Reads(d.command) && d.addr <= Home(g) + o < d.addr + |d.data|;
            (if Reads(d.command) then Patch(now, d.addr - Home(g), Return(d, slaves).data) else now)[o]
            == if covers then Back(c, g, slaves, image, o) else now[o]
  {
    hide ByteOf, Return, Shift;
    if Reads(d.command) && d.addr <= Home(g) + o < d.addr + |d.data| {
      ReturnByte(d, c, g, slaves, image, Home(g) + o - d.addr);
    }
  }

  lemma {:induction false} OneByte(d: Datagram, k: nat, c: Command, g: Group, bus: Bus, image: seq<byte>,
                                   now: seq<byte>, o: nat)
    requires Reads(d.command) ==> d.command == c && SentFrom(d, image, g.logstartaddr)
    requires Fits(d, Home(g), |image|) && |now| == |image| && o < |image|
    ensures var covers := Reads(d.command) && d.addr <= Home(g) + o < d.addr + |d.data|;
            ImageWith(now, d, k, bus, Home(g))[o] == if bus.arrives(k) && covers then Back(c, g, bus.slaves, image, o)
              else now[o]
  {
    hide Back, Fits, Home, Patch, Return;
    OneByteBack(d, c, g, bus.slaves, image, now, o);
  }

  /** A byte after one more datagram of a cycle without losses. */
  lemma {:induction false} CompleteStep(sent: seq<Datagram>, k: nat, c: Command, g: Group, slaves: seq<Slave>,
                                        image: seq<byte>, o: nat)
    requires k < |sent| && ReadAs(sent, c, g, image) && AllInIomap(sent, g, |image|) && o < |image|
    ensures forall i :: 0 <= i < |sent| ==> Fits(sent[i], Home(g), |image|)
    ensures Collected(sent, k + 1, slaves, Home(g), image)[o]
            == if Reads(sent[k].command) && sent[k].addr <= Home(g) + o < sent[k].addr + |sent[k].data|
               then Back(c, g, slaves, image, o) else Collected(sent, k, slaves, Home(g), image)[o]
  {
    hide Back, Fits, Home, Patch, Return, SentFrom;
    assert Fits(sent[k], Home(g), |image|);
    OneByteBack(sent[k], c, g, slaves, image, Collected(sent, k, slaves, Home(g), image), o);
  }

  /** ... and of a cycle with losses. */
  lemma {:induction false} ArrivedStep(sent: seq<Datagram>, k: nat, c: Command, g: Group, bus: Bus, image: seq<byte>,
                                       o: nat)
    requires k < |sent| && ReadAs(sent, c, g, image) && AllInIomap(sent, g, |image|) && o < |image|
    ensures ArrivedImage(sent, k + 1, bus, Home(g), image)[o]
            == if bus.arrives(k) && Reads(sent[k].command)
                  && sent[k].addr <= Home(g) + o < sent[k].addr + |sent[k].data|
               then Back(c, g, bus.slaves, image, o) else ArrivedImage(sent, k, bus, Home(g), image)[o]
  {
    hide Back, Fits, Home, ImageWith, SentFrom;
    OneMoreArrived(sent, k, bus, Home(g), image);
    OneByte(sent[k], k, c, g, bus, image, ArrivedImage(sent, k, bus, Home(g), image), o);
  }

  /** Without losses a byte is as it was, or what has come back for it. */
  lemma {:induction false} OldOrBack(sent: seq<Datagram>, k: nat, c: Command, g: Group, slaves: seq<Slave>,
                                     image: seq<byte>, o: nat)
    requires k <= |sent| && ReadAs(sent, c, g, image) && AllInIomap(sent, g, |image|) && o < |image|
    ensures forall i :: 0 <= i < |sent| ==> Fits(sent[i], Home(g), |image|)
    ensures var complete := Collected(sent, k, slaves, Home(g), image)[o];
            complete == image[o] || complete == Back(c, g, slaves, image, o)
  {
    hide Back, Fits, Home, ReadAs, Patch, Return;
    if k > 0 {
      OldOrBack(sent, k - 1, c, g, slaves, image, o);
      CompleteStep(sent, k - 1, c, g, slaves, image, o);
    }
  }

  /** With losses it is as it was, or as it would be without. */
  lemma {:induction false} OldOrComplete(sent: seq<Datagram>, k: nat, c: Command, g: Group, bus: Bus, image: seq<byte>,
                                         o: nat)
    requires k <= |sent| && ReadAs(sent, c, g, image) && AllInIomap(sent, g, |image|) && o < |image|
    ensures forall i :: 0 <= i < |sent| ==> Fits(sent[i], Home(g), |image|)
    ensures var arrived := ArrivedImage(sent, k, bus, Home(g), image)[o];
            arrived == image[o] || arrived == Collected(sent, k, bus.slaves, Home(g), image)[o]
  {
    hide Back, Fits, Home, ImageWith, ReadAs, Patch, Return;
    if k > 0 {
      OldOrComplete(sent, k - 1, c, g, bus, image, o);
      OldOrBack(sent, k - 1, c, g, bus.slaves, image, o);
      CompleteStep(sent, k - 1, c, g, bus.slaves, image, o);
      ArrivedStep(sent, k - 1, c, g, bus, image, o);
    }
  }

  /** A byte that no lost datagram covers is as it would be without losses. */
  lemma {:induction false} UncoveredIsComplete(sent: seq<Datagram>, k: nat, c: Command, g: Group, bus: Bus,
                                               image: seq<byte>, o: nat)
    requires k <= |sent| && ReadAs(sent, c, g, image) && AllInIomap(sent, g, |image|) && o < |image|
    requires forall i {:trigger sent[i]} :: 0 <= i < k && !bus.arrives(i) && Reads(sent[i].command) ==>
               !(sent[i].addr <= Home(g) + o < sent[i].addr + |sent[i].data|)
    ensures forall i :: 0 <= i < |sent| ==> Fits(sent[i], Home(g), |image|)
    ensures ArrivedImage(sent, k, bus, Home(g), image)[o] == Collected(sent, k, bus.slaves, Home(g), image)[o]
  {
    hide Back, Fits, Home, ImageWith, ReadAs, Patch, Return;
    if k > 0 {
      UncoveredIsComplete(sent, k - 1, c, g, bus, image, o);
      CompleteStep(sent, k - 1, c, g, bus.slaves, image, o);
      ArrivedStep(sent, k - 1, c, g, bus, image, o);
    }
  }

  /** If no slave has counted a lost datagram, the inputs of every slave are as they would be without
      losses. */
  lemma {:induction false} InputIsComplete(sent: seq<Datagram>, c: Command, g: Group, bus: Bus, image: seq<byte>,
                                           j: nat, o: nat)
    requires ReadAs(sent, c, g, image) && AllInIomap(sent, g, |image|) && o < |image| && LostUnseen(sent, |sent|, bus)
    requires j < |bus.slaves| && Home(g) + o >= 0
    requires Meets(bus.slaves[j].inStart, bus.slaves[j].inLen, Home(g) + o, 1)
    ensures forall i :: 0 <= i < |sent| ==> Fits(sent[i], Home(g), |image|)
    ensures ArrivedImage(sent, |sent|, bus, Home(g), image)[o] == Collected(sent, |sent|, bus.slaves, Home(g), image)[o]
  {
    hide Return, Fits, Home, SentFrom;
    forall i {:trigger sent[i]} | 0 <= i < |sent| && !bus.arrives(i) && Reads(sent[i].command)
      ensures !(sent[i].addr <= Home(g) + o < sent[i].addr + |sent[i].data|)
    {
      Unseen(sent[i], bus.slaves, j);
    }
    UncoveredIsComplete(sent, |sent|, c, g, bus, image, o);
  }

  /** The inputs of a slave have a place in the IOmap. */
  ghost predicate InputsFit(g: Group, s: Slave, size: nat) {
    8 * Home(g) <= s.inStart && s.inStart - 8 * Home(g) + s.inLen <= 8 * size
  }

  /** What the IOmap holds in the place of a slave's inputs. */
  function InputsAt(g: Group, s: Slave, image: seq<byte>): (r: seq<bool>)
    requires InputsFit(g, s, |image|)
    ensures |r| == s.inLen
  {
    BitsOf(image)[s.inStart - 8 * Home(g)..s.inStart - 8 * Home(g) + s.inLen]
  }

  /** ... and so is the whole window of its inputs, wherever it is in the IOmap. */
  lemma {:induction false} WindowIsComplete(sent: seq<Datagram>, c: Command, g: Group, bus: Bus, image: seq<byte>,
                                            j: nat)
    requires ReadAs(sent, c, g, image) && AllInIomap(sent, g, |image|) && LostUnseen(sent, |sent|, bus)
    requires j < |bus.slaves| && InputsFit(g, bus.slaves[j], |image|)
    ensures forall i :: 0 <= i < |sent| ==> Fits(sent[i], Home(g), |image|)
    ensures InputsAt(g, bus.slaves[j], ArrivedImage(sent, |sent|, bus, Home(g), image))
            == InputsAt(g, bus.slaves[j], Collected(sent, |sent|, bus.slaves, Home(g), image))
  {
    hide LostUnseen, ArrivedImage, Collected, Fits, ReadAs, Home, Bit, InputsAt;
    AllOfThemFit(sent, g, |image|);
    var s := bus.slaves[j];
    var arrived := ArrivedImage(sent, |sent|, bus, Home(g), image);
    var complete := Collected(sent, |sent|, bus.slaves, Home(g), image);
    forall i | 0 <= i < s.inLen ensures InputsAt(g, s, arrived)[i] == InputsAt(g, s, complete)[i] {
      var x := s.inStart - 8 * Home(g) + i;
      InputIsComplete(sent, c, g, bus, image, j, x / 8);
      BitOfInputs(g, s, arrived, i);
      BitOfInputs(g, s, complete, i);
    }
  }

  lemma {:induction false} BitOfInputs(g: Group, s: Slave, image: seq<byte>, i: nat)
    requires InputsFit(g, s, |image|) && i < s.inLen
    ensures var x := s.inStart - 8 * Home(g) + i;
            0 <= x / 8 < |image| && InputsAt(g, s, image)[i] == Bit(image[x / 8], x % 8)
  {
    hide Home, Bit;
    var x := s.inStart - 8 * Home(g) + i;
    assert BitsOf(image)[x] == BitAt(image, x);
  }

  lemma {:induction false} AllOfThemFit(all: seq<Datagram>, g: Group, size: nat)
    requires AllInIomap(all, g, size)
    ensures forall i {:trigger all[i]} :: 0 <= i < |all| ==> Fits(all[i], Home(g), size)
  {
  }

  /** The datagrams of a cycle: some that read, all with one command, and some that write. */
  lemma {:induction false} CycleReads(g: Group, ins: seq<Datagram>, outs: seq<Datagram>, c: Command, image: seq<byte>)
    requires SentAs(ins, c, g, image) && AllInIomap(ins, g, |image|) && AllInIomap(outs, g, |image|)
    requires forall k {:trigger outs[k]} :: 0 <= k < |outs| ==> outs[k].command == LWR
    ensures ReadAs(ins + outs, c, g, image) && AllInIomap(ins + outs, g, |image|)
  {
    hide Fits, Home, SentFrom;
    var all := ins + outs;
    forall i {:trigger all[i]} | 0 <= i < |all|
      ensures Fits(all[i], Home(g), |image|)
      ensures Reads(all[i].command) ==> all[i].command == c && SentFrom(all[i], image, g.logstartaddr)
    {
      if i < |ins| {
        assert all[i] == ins[i];
      } else {
        assert all[i] == outs[i - |ins|];
      }
    }
  }

  lemma {:induction false} Counters(frames: seq<Datagram>, bus: Bus)
    ensures SomeArrives(bus, |frames|) ==> frames != []
    ensures frames == [] ==> LostUnseen(frames, |frames|, bus) && ArrivedSum(frames, |frames|, bus) == 0
  {
  }
}
