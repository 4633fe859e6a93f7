/** The segmented exchange does what a single exchange of the whole image would do. */
module ExchangeRefinement {
  import opened Memory
  import opened Bits
  import opened Wire
  import opened ProcessData
  import opened Transfers
  import opened LostFrames

  /** The slaves are laid out as the sequential mapper does it, in whole bytes or in bits: outputs in the first
      part of the image, inputs in the second, no window cut by a segment, inputs disjoint. */
  ghost predicate Layout(g: Group, slaves: seq<Slave>) {
    && ValidBus(slaves) && OutputsIn(g, slaves)
    && InputsIn(g, slaves, g.obytes, g.obytes + g.ibytes) && InputsDisjoint(slaves)
  }

  lemma {:induction false} LayoutIsClear(g: Group, slaves: seq<Slave>)
    requires Layout(g, slaves)
    ensures OutputsClear(slaves)
  {
    hide InOneSegment;
    forall i, j | 0 <= i < j < |slaves|
      ensures Apart(slaves[i].inStart, slaves[i].inLen, slaves[j].outStart, slaves[j].outLen)
    {
      assert WindowIn(g, slaves[j].outStart, slaves[j].outLen, 0, g.obytes);
      assert WindowIn(g, slaves[i].inStart, slaves[i].inLen, g.obytes, g.obytes + g.ibytes);
    }
  }

  /** In the output part of the image no slave puts anything on the bus. */
  lemma {:induction false} OutputsUntouched(c: Command, g: Group, slaves: seq<Slave>, j: nat, x: nat, b: byte)
    requires Layout(g, slaves) && j <= |slaves| && x < g.logstartaddr + g.obytes
    ensures ByteAfter(c, slaves, j, x, b) == b
  {
    hide InOneSegment;
    forall i | 0 <= i < j ensures !Meets(slaves[i].inStart, slaves[i].inLen, x, 1) {
      assert WindowIn(g, slaves[i].inStart, slaves[i].inLen, g.obytes, g.obytes + g.ibytes);
    }
    NoInputInByte(c, slaves, j, x, b);
  }

  /** The number of frames that one cycle needs. */
  function FramesNeeded(g: Group): nat
    requires ValidGroup(g)
  {
    if g.obytes + g.ibytes == 0 then 0
    else if g.blockLRW == 0 then g.nsegments
    else (if g.ibytes > 0 then g.nsegments - g.isegment else 0) + (if g.obytes > 0 then g.isegment + 1 else 0)
  }

  /** What one cycle promises. `before` and `after` are the contents of the IOmap, `sent` the
      process-data datagrams of all frames. */
  ghost predicate Exchanged(g: Group, slaves: seq<Slave>, sent: seq<Datagram>, before: seq<byte>, after: seq<byte>) {
    && |after| == |before| && g.obytes + g.ibytes <= |before|
    // each slave with outputs takes its part of the image exactly once
    && (forall j {:trigger slaves[j]} :: 0 <= j < |slaves| && slaves[j].outLen > 0 ==>
          OutputsFit(g, slaves[j], |before|) && AllTaken(sent, slaves, j) == [OutputsOf(g, slaves[j], before)])
    // the inputs of each slave end up in its place of the IOmap
    && (forall j {:trigger slaves[j]} :: 0 <= j < |slaves| && slaves[j].inLen > 0 ==>
          InputsFit(g, slaves[j], |after|) && InputsAt(g, slaves[j], after) == slaves[j].input)
    // outputs, and everything behind the image, stay as they are
    && (forall o {:trigger after[o]} :: 0 <= o < |after| && !(g.obytes <= o < g.obytes + g.ibytes) ==>
         after[o] == before[o])
  }

  /** The bytes of the image after the reading datagrams, seen byte by byte. */
  ghost predicate ReadBack(c: Command, g: Group, slaves: seq<Slave>, lo: nat, before: seq<byte>, after: seq<byte>) {
    && |after| == |before| && g.obytes + g.ibytes <= |before|
    && forall o {:trigger after[o]} :: 0 <= o < |after| ==>
         after[o] == if lo <= o < g.obytes + g.ibytes then ByteOf(c, slaves, g.logstartaddr, before, o) else before[o]
  }

  lemma {:induction false} ReadBackInputs(c: Command, g: Group, slaves: seq<Slave>, lo: nat, before: seq<byte>,
                                          after: seq<byte>)
    requires ReadBack(c, g, slaves, lo, before, after) && Layout(g, slaves) && Reads(c) && lo <= g.obytes
    requires Shift(g) == 0
    ensures forall j {:trigger slaves[j]} :: 0 <= j < |slaves| && slaves[j].inLen > 0 ==>
              InputsFit(g, slaves[j], |after|) && InputsAt(g, slaves[j], after) == slaves[j].input
    ensures forall o {:trigger after[o]} ::
              0 <= o < |after| && !(g.obytes <= o < g.obytes + g.ibytes) && (o < lo || c.LRW?) ==>
              after[o] == before[o]
    ensures lo == g.obytes ==> forall o {:trigger after[o]} ::
              0 <= o < |after| && !(g.obytes <= o < g.obytes + g.ibytes) ==> after[o] == before[o]
  {
    hide InOneSegment, ByteAfter;
    forall j {:trigger slaves[j]} | 0 <= j < |slaves| && slaves[j].inLen > 0
      ensures InputsFit(g, slaves[j], |after|) && InputsAt(g, slaves[j], after) == slaves[j].input
    {
      InputsOfSlave(c, g, slaves, lo, before, after, j);
    }
    forall o {:trigger after[o]} | 0 <= o < g.obytes && c.LRW? ensures after[o] == before[o] {
      OutputsUntouched(c, g, slaves, |slaves|, g.logstartaddr + o, before[o]);
    }
  }

  lemma {:induction false} SizeOf(c: Command, g: Group, slaves: seq<Slave>, lo: nat, before: seq<byte>,
                                  after: seq<byte>)
    requires ReadBack(c, g, slaves, lo, before, after)
    ensures |after| == |before| && g.obytes + g.ibytes <= |before|
  {
  }

  lemma {:induction false} BitReadBack(c: Command, g: Group, slaves: seq<Slave>, lo: nat, before: seq<byte>,
                                       after: seq<byte>, x: nat)
    requires ReadBack(c, g, slaves, lo, before, after) && 8 * lo <= x < 8 * (g.obytes + g.ibytes)
    ensures x < 8 * |before| == 8 * |after|
    ensures BitsOf(after)[x]
            == BitAfter(c, slaves, |slaves|, 8 * g.logstartaddr + x, !c.LRD? && BitAt(before, x))
  {
    hide ByteOf, Bit, BitAfter;
    assert after[x / 8] == ByteOf(c, slaves, g.logstartaddr, before, x / 8);
    BitOfImage(c, slaves, g.logstartaddr, before, x);
  }

  lemma {:induction false} InputsOfSlave(c: Command, g: Group, slaves: seq<Slave>, lo: nat, before: seq<byte>,
                                         after: seq<byte>, j: nat)
    requires ReadBack(c, g, slaves, lo, before, after) && Layout(g, slaves) && Reads(c) && lo <= g.obytes
    requires Shift(g) == 0 && j < |slaves| && slaves[j].inLen > 0
    ensures InputsFit(g, slaves[j], |after|) && InputsAt(g, slaves[j], after) == slaves[j].input
  {
    hide InOneSegment, ByteOf, BitAt, ReadBack, InputsDisjoint, BitAfter;
    var s := slaves[j];
    assert WindowIn(g, s.inStart, s.inLen, g.obytes, g.obytes + g.ibytes);
    var from := s.inStart - 8 * g.logstartaddr;
    SizeOf(c, g, slaves, lo, before, after);
    var window := InputsAt(g, s, after);
    assert |window| == |s.input|;
    forall i | 0 <= i < |window| ensures window[i] == s.input[i] {
      assert window[i] == BitsOf(after)[from + i];
      BitReadBack(c, g, slaves, lo, before, after, from + i);
      InputComesBack(c, slaves, j, 8 * g.logstartaddr + from + i, !c.LRD? && BitAt(before, from + i));
    }
  }

  /** The datagrams of one cycle: one transfer of the whole image, or one reading the inputs (`ins`)
      and one writing the outputs (`outs`). */
  ghost predicate SentFor(g: Group, ins: seq<Datagram>, outs: seq<Datagram>, image: seq<byte>) {
    !g.overlap &&
    if g.obytes + g.ibytes == 0 then ins == [] && outs == []
    else if g.blockLRW == 0 then
      outs == [] && ins != [] && Done(ins, LRW, g, 0, 0, g.obytes + g.ibytes, image)
    else
      && (if g.ibytes > 0 then ins != [] && Done(ins, LRD, g, g.isegment, g.obytes, g.obytes + g.ibytes, image)
         else ins == [])
      && (if g.obytes > 0 then outs != [] && Done(outs, LWR, g, 0, 0, g.obytes, image) else outs == [])
  }

  lemma {:induction false} SkippedAll(g: Group)
    requires ValidGroup(g)
    ensures g.isegment < g.nsegments <= |g.iosegment| && g.ioffset <= g.iosegment[g.isegment] && Shift(g) == 0
    ensures Skipped(g, g.nsegments - g.isegment) == g.ibytes
  {
    hide Upto;
    InputPart(g, g.nsegments - g.isegment);
  }

  lemma {:induction false} OutputsEnd(g: Group)
    requires ValidGroup(g)
    ensures g.isegment + 1 <= g.nsegments <= |g.iosegment| && Upto(g, g.isegment + 1) >= g.obytes && Shift(g) == 0
  {
    UptoStep(g, g.isegment);
    hide Upto;
  }

  lemma {:induction false} InputsCarry(mine: seq<Datagram>, g: Group, image: seq<byte>, k: nat)
    requires ValidGroup(g) && InputGrams(mine, g, image) && g.isegment + |mine| <= g.nsegments && k < |mine|
    ensures g.nsegments <= |g.iosegment|
    ensures CarriesSegment(mine[k], LRD, g, g.isegment + k, g.obytes, g.obytes + g.ibytes)
            && SentFrom(mine[k], image, g.logstartaddr)
  {
    hide Upto, Skipped, SentFrom, Tiles, Clamp;
    InputPart(g, k);
    InputPart(g, k + 1);
    assert IsInputGram(mine[k], g, k, image);
  }

  /** In an image that is not overlapped, the datagrams that read the inputs are a transfer of exactly
      these. */
  lemma {:induction false} InputsAreDone(mine: seq<Datagram>, g: Group, image: seq<byte>)
    requires ValidGroup(g) && g.ibytes > 0 && InputGrams(mine, g, image) && StopsAtEnd(mine, g)
             && g.obytes + g.ibytes <= |image|
    ensures mine != [] && Done(mine, LRD, g, g.isegment, g.obytes, g.obytes + g.ibytes, image)
    ensures |mine| <= g.nsegments - g.isegment
  {
    hide Upto, Skipped, SentFrom, Tiles, CarriesSegment, IsInputGram;
    InputPart(g, |mine|);
    assert Upto(g, g.isegment) <= g.obytes;
    forall k | 0 <= k < |mine|
      ensures CarriesSegment(mine[k], LRD, g, g.isegment + k, g.obytes, g.obytes + g.ibytes)
              && SentFrom(mine[k], image, g.logstartaddr)
    {
      InputsCarry(mine, g, image, k);
    }
  }

  /** ecx_main_send_processdata for an image that is not overlapped. */
  method SendProcessData(m: Master, g: Group, bus: Bus)
    returns (wkc: nat, ghost ins: seq<Datagram>, ghost outs: seq<Datagram>)
    requires m.Valid() && m.pushed == m.pulled == 0 && m.rx == map[] && m.sent == []
    requires ValidGroup(g) && g.obytes + g.ibytes <= m.iomap.Length && FramesNeeded(g) <= MAXBUF
    modifies m, m.idx, m.data, m.length
    ensures m.Queued(g, bus) && m.pulled == 0 && m.sent == ins + outs && m.stamp == m.DCtime == old(m.DCtime)
    ensures wkc == if g.obytes + g.ibytes > 0 then 1 else 0
    ensures SentFor(g, ins, outs, m.iomap[..])
  {
    hide Upto, Transfer, Tiles, Skipped, InputGrams, StopsAtEnd;
    wkc, ins, outs := 0, [], [];
    m.stamp := m.DCtime;
    if g.obytes + g.ibytes > 0 {
      wkc := 1;
      if g.blockLRW > 0 {
        if g.ibytes > 0 {
          SkippedAll(g);
          ins := m.SendInputs(g, bus);
          InputsAreDone(ins, g, m.iomap[..]);
        }
        if g.obytes > 0 {
          OutputsEnd(g);
          outs := m.SendOutputs(g, bus, ins, g.isegment + 1);
        }
      } else {
        ins := m.SendImage(g, bus);
      }
    }
    assert ins + [] == ins;
  }

  /** The working counter of one cycle. */
  lemma {:induction false} CycleCounter(g: Group, ins: seq<Datagram>, outs: seq<Datagram>, image: seq<byte>,
                                        slaves: seq<Slave>)
    requires SentFor(g, ins, outs, image) && Layout(g, slaves)
    ensures WeightedSum(ins + outs, |ins + outs|, slaves)
            == 2 * OutputCount(slaves, |slaves|) + InputCount(slaves, |slaves|)
    ensures ins + outs == [] <==> g.obytes + g.ibytes == 0
  {
    hide OutputsIn, InputsIn, Done, Return, InputsDisjoint, ValidBus;
    var hi := g.obytes + g.ibytes;
    SumOfBoth(ins, outs, slaves, |outs|);
    if g.obytes == 0 {
      NoOutputs(g, slaves, |slaves|);
    }
    if g.ibytes == 0 {
      NoInputs(g, slaves, |slaves|, g.obytes);
    }
    if ins != [] {
      if g.blockLRW == 0 { ImageCounter(ins, g, hi, image, slaves, g.obytes, hi); }
      else { InputsCounter(ins, g, g.isegment, g.obytes, hi, image, slaves, g.obytes, hi); }
    }
    if outs != [] {
      OutputsCounter(outs, g, image, slaves);
    }
  }

  lemma {:induction false} AllFitTheImage(g: Group, ins: seq<Datagram>, outs: seq<Datagram>, image: seq<byte>)
    requires SentFor(g, ins, outs, image)
    ensures forall k {:trigger (ins + outs)[k]} :: 0 <= k < |ins + outs| ==>
              Fits((ins + outs)[k], Home(g), |image|) && !(ins + outs)[k].command.FRMW?
    ensures forall k {:trigger ins[k]} :: 0 <= k < |ins| ==>
              Fits(ins[k], Home(g), |image|) && ins[k].command == if g.blockLRW == 0 then LRW else LRD
    ensures forall k {:trigger outs[k]} :: 0 <= k < |outs| ==>
              Fits(outs[k], Home(g), |image|) && outs[k].command == LWR
  {
    hide Done, Fits, Home;
    if ins != [] {
      if g.blockLRW == 0 { DoneFits(ins, LRW, g, 0, 0, g.obytes + g.ibytes, image); }
      else { DoneFits(ins, LRD, g, g.isegment, g.obytes, g.obytes + g.ibytes, image); }
    }
    if outs != [] {
      DoneFits(outs, LWR, g, 0, 0, g.obytes, image);
    }
  }

  /** The contents of the IOmap after one cycle. */
  lemma {:induction false} CycleImage(g: Group, ins: seq<Datagram>, outs: seq<Datagram>, image: seq<byte>,
                                      after: seq<byte>, slaves: seq<Slave>)
    requires SentFor(g, ins, outs, image) && g.obytes + g.ibytes <= |image|
    requires forall k {:trigger (ins + outs)[k]} :: 0 <= k < |ins + outs| ==> Fits((ins + outs)[k], Home(g), |image|)
    requires after == Collected(ins + outs, |ins + outs|, slaves, Home(g), image)
    ensures if g.blockLRW == 0 then ReadBack(LRW, g, slaves, 0, image, after)
            else ReadBack(LRD, g, slaves, g.obytes, image, after)
  {
    hide Done, Fits, ByteOf, Home, Collected;
    AllFitTheImage(g, ins, outs, image);
    WritesCollectNothing(ins, outs, slaves, Home(g), image, |outs|);
    NothingTaken(ins, slaves, Home(g), image);
    var lo := if g.blockLRW == 0 then 0 else g.obytes;
    var c := if g.blockLRW == 0 then LRW else LRD;
    forall o {:trigger after[o]} | 0 <= o < |after|
      ensures after[o] == if lo <= o < g.obytes + g.ibytes then ByteOf(c, slaves, g.logstartaddr, image, o)
              else image[o]
    {
      if ins != [] {
        CollectedImage(ins, c, g, if g.blockLRW == 0 then 0 else g.isegment, lo, g.obytes + g.ibytes, image, slaves, o);
      }
    }
  }

  /** The outputs that the slaves take in one cycle. */
  lemma {:induction false} CycleOutputs(g: Group, ins: seq<Datagram>, outs: seq<Datagram>, image: seq<byte>,
                                        slaves: seq<Slave>, j: nat)
    requires SentFor(g, ins, outs, image) && Layout(g, slaves) && j < |slaves| && slaves[j].outLen > 0
    ensures OutputsFit(g, slaves[j], |image|) && AllTaken(ins + outs, slaves, j) == [OutputsOf(g, slaves[j], image)]
  {
    hide Done, Taken, InOneSegment, AllTaken, OutputsClear;
    assert WindowIn(g, slaves[j].outStart, slaves[j].outLen, 0, g.obytes);
    LayoutIsClear(g, slaves);
    TakenFromBoth(ins, outs, slaves, j);
    if g.blockLRW == 0 {
      OutputsTaken(ins, LRW, g, g.obytes + g.ibytes, image, slaves, j);
      TakenFromNothing(slaves, j);
      assert AllTaken(ins, slaves, j) + [] == AllTaken(ins, slaves, j);
    } else {
      AllFitTheImage(g, ins, outs, image);
      ReadsTakeNothing(ins, slaves, j);
      OutputsTaken(outs, LWR, g, g.obytes, image, slaves, j);
      assert [] + AllTaken(outs, slaves, j) == AllTaken(outs, slaves, j);
    }
  }

  lemma {:induction false} CycleExchanges(g: Group, ins: seq<Datagram>, outs: seq<Datagram>, image: seq<byte>,
                                          after: seq<byte>, slaves: seq<Slave>)
    requires SentFor(g, ins, outs, image) && Layout(g, slaves) && g.obytes + g.ibytes <= |image|
    requires if g.blockLRW == 0 then ReadBack(LRW, g, slaves, 0, image, after)
             else ReadBack(LRD, g, slaves, g.obytes, image, after)
    ensures Exchanged(g, slaves, ins + outs, image, after)
  {
    hide SentFor, Layout, AllTaken, ReadBack;
    forall j {:trigger slaves[j]} | 0 <= j < |slaves| && slaves[j].outLen > 0
      ensures OutputsFit(g, slaves[j], |image|) && AllTaken(ins + outs, slaves, j) == [OutputsOf(g, slaves[j], image)]
    {
      CycleOutputs(g, ins, outs, image, slaves, j);
    }
    ReadBackSizes(g, slaves, image, after);
    NotShifted(g, ins, outs, image);
    if g.blockLRW == 0 {
      ReadBackInputs(LRW, g, slaves, 0, image, after);
    } else {
      ReadBackInputs(LRD, g, slaves, g.obytes, image, after);
    }
  }

  lemma {:induction false} NotShifted(g: Group, ins: seq<Datagram>, outs: seq<Datagram>, image: seq<byte>)
    requires SentFor(g, ins, outs, image)
    ensures Shift(g) == 0
  {
  }

  lemma {:induction false} ReadBackSizes(g: Group, slaves: seq<Slave>, image: seq<byte>, after: seq<byte>)
    requires ReadBack(LRW, g, slaves, 0, image, after) || ReadBack(LRD, g, slaves, g.obytes, image, after)
    ensures |after| == |image| && g.obytes + g.ibytes <= |image|
  {
  }

  /** The datagrams that read were all sent from the image, with one command. */
  lemma {:induction false} SentForReads(g: Group, ins: seq<Datagram>, outs: seq<Datagram>, image: seq<byte>)
    requires SentFor(g, ins, outs, image)
    ensures ReadAs(ins + outs, if g.blockLRW == 0 then LRW else LRD, g, image)
            && AllInIomap(ins + outs, g, |image|)
    ensures !g.overlap
  {
    hide Done, Fits, Home, SentFrom;
    AllFitTheImage(g, ins, outs, image);
    if ins != [] {
      if g.blockLRW == 0 { DoneIsSent(ins, LRW, g, 0, 0, g.obytes + g.ibytes, image); }
      else { DoneIsSent(ins, LRD, g, g.isegment, g.obytes, g.obytes + g.ibytes, image); }
    }
    CycleReads(g, ins, outs, if g.blockLRW == 0 then LRW else LRD, image);
  }

  /** A cycle in which frames are lost, but none that a slave has counted, does what a cycle without losses
      does. */
  lemma {:induction false} CompleteExchange(g: Group, ins: seq<Datagram>, outs: seq<Datagram>, image: seq<byte>,
                                            after: seq<byte>, bus: Bus)
    requires SentFor(g, ins, outs, image) && Layout(g, bus.slaves) && g.obytes + g.ibytes <= |image|
    requires AllInIomap(ins + outs, g, |image|) && LostUnseen(ins + outs, |ins + outs|, bus)
    requires after == ArrivedImage(ins + outs, |ins + outs|, bus, Home(g), image)
    ensures Exchanged(g, bus.slaves, CameBack(ins + outs, |ins + outs|, bus), image, after)
  {
    hide SentFor, Layout, AllTaken, ReadBack, LostUnseen, ArrivedImage, Collected, Fits, Home, Exchanged, CameBack;
    var all, slaves := ins + outs, bus.slaves;
    SentForReads(g, ins, outs, image);
    assert forall i :: 0 <= i < |all| ==> Fits(all[i], Home(g), |image|);
    var complete := Collected(all, |all|, slaves, Home(g), image);
    CycleImage(g, ins, outs, image, complete, slaves);
    CycleExchanges(g, ins, outs, image, complete, slaves);
    SameExchange(g, all, image, after, complete, bus, if g.blockLRW == 0 then LRW else LRD);
  }

  lemma {:induction false} SameExchange(g: Group, all: seq<Datagram>, image: seq<byte>, after: seq<byte>,
                                        complete: seq<byte>, bus: Bus, c: Command)
    requires Layout(g, bus.slaves) && !g.overlap && ReadAs(all, c, g, image) && AllInIomap(all, g, |image|)
             && LostUnseen(all, |all|, bus)
    requires forall i :: 0 <= i < |all| ==> Fits(all[i], Home(g), |image|)
    requires after == ArrivedImage(all, |all|, bus, Home(g), image)
    requires complete == Collected(all, |all|, bus.slaves, Home(g), image)
    requires Exchanged(g, bus.slaves, all, image, complete)
    ensures Exchanged(g, bus.slaves, CameBack(all, |all|, bus), image, after)
  {
    hide AllTaken, LostUnseen, ArrivedImage, Collected, Fits, ReadAs, AllInIomap, InOneSegment, ValidBus,
         InputsDisjoint, OutputsIn, CameBack;
    var slaves := bus.slaves;
    forall j {:trigger slaves[j]} | 0 <= j < |slaves| && slaves[j].outLen > 0
      ensures AllTaken(CameBack(all, |all|, bus), slaves, j) == AllTaken(all, slaves, j)
    {
      TakenFromArrived(all, |all|, bus, j);
      assert all[..|all|] == all;
    }
    forall j {:trigger slaves[j]} | 0 <= j < |slaves| && slaves[j].inLen > 0
      ensures InputsFit(g, slaves[j], |after|) && InputsAt(g, slaves[j], after) == slaves[j].input
    {
      WindowIsComplete(all, c, g, bus, image, j);
    }
    forall o {:trigger after[o]} | 0 <= o < |after| && !(g.obytes <= o < g.obytes + g.ibytes)
      ensures after[o] == image[o]
    {
      OldOrComplete(all, |all|, c, g, bus, image, o);
      assert complete[o] == image[o];
    }
  }

  /** The working counter of a cycle without losses. */
  function FullCounter(g: Group, slaves: seq<Slave>): int {
    if g.obytes + g.ibytes == 0 then NOFRAME else 2 * OutputCount(slaves, |slaves|) + InputCount(slaves, |slaves|)
  }

  /** One cycle: send the process data, let the bus answer, receive; with LRW as well as with LRD and LWR,
      with a clock datagram or without. The working counter never exceeds twice the number of slaves with
      outputs plus the number with inputs, and it reaches this value exactly if no slave has counted a frame
      that is lost. Then each slave has taken its outputs once, from a frame that has come back, and the
      inputs of all slaves are in the IOmap. For an empty image there is no frame and the result says so. */
  method Exchange(m: Master, g: Group, bus: Bus) returns (wkc: int, ghost frames: seq<Datagram>)
    requires m.Valid() && m.pushed == m.pulled == 0 && m.rx == map[] && m.sent == []
    requires ValidGroup(g) && g.obytes + g.ibytes <= m.iomap.Length && FramesNeeded(g) <= MAXBUF
    requires Layout(g, bus.slaves) && (g.hasdc && g.obytes + g.ibytes > 0 ==> bus.arrives(0))
    modifies m, m.idx, m.data, m.length, m.iomap
    ensures wkc <= FullCounter(g, bus.slaves) && (frames == [] <==> g.obytes + g.ibytes == 0)
    ensures wkc == FullCounter(g, bus.slaves) <==>
            (frames == [] || SomeArrives(bus, |frames|)) && LostUnseen(frames, |frames|, bus)
    ensures wkc == FullCounter(g, bus.slaves) ==>
              Exchanged(g, bus.slaves, CameBack(frames, |frames|, bus), old(m.iomap[..]), m.iomap[..])
    ensures NoneLost(bus, |frames|) ==>
              && wkc == FullCounter(g, bus.slaves)
              && if g.blockLRW == 0 then ReadBack(LRW, g, bus.slaves, 0, old(m.iomap[..]), m.iomap[..])
                 else ReadBack(LRD, g, bus.slaves, g.obytes, old(m.iomap[..]), m.iomap[..])
    ensures m.DCtime == if g.hasdc && g.obytes + g.ibytes > 0 then TimeOf(bus, g.clockSlave, old(m.DCtime))
            else old(m.DCtime)
    ensures m.Valid() && m.pushed == m.pulled == 0 && m.rx == map[]
  {
    hide Layout, SentFor, Exchanged, ReadBack, Upto, IsEntry, Fits, LostUnseen, SomeArrives, ArrivedSum, ArrivedImage,
         Home, CameBack, NoneLost, AllInIomap;
    ghost var image := m.iomap[..];
    var sentWkc: nat;
    ghost var ins, outs;
    sentWkc, ins, outs := SendProcessData(m, g, bus);
    frames := ins + outs;
    AllFitTheImage(g, ins, outs, image);
    SentForReads(g, ins, outs, image);
    CycleCounter(g, ins, outs, image, bus.slaves);
    wkc := m.Receive(g, bus);
    ArrivedAtMost(frames, |frames|, bus);
    Counters(frames, bus);
    if LostUnseen(frames, |frames|, bus) {
      CompleteExchange(g, ins, outs, image, m.iomap[..], bus);
    }
    if NoneLost(bus, |frames|) {
      AllArrived(frames, |frames|, bus, Home(g), image);
      CycleImage(g, ins, outs, image, m.iomap[..], bus.slaves);
    }
  }

  /** Some slave provides a bit of the image. */
  ghost predicate InputAt(slaves: seq<Slave>, x: nat) {
    exists j :: 0 <= j < |slaves| && Covers(slaves[j].inStart, slaves[j].inLen, x)
  }

  /** A byte of the image of which every bit is provided by some slave, or zero before the exchange. */
  ghost predicate OwnedOrZero(g: Group, slaves: seq<Slave>, before: seq<byte>, o: nat)
    requires o < |before|
  {
    forall k {:trigger Bit(before[o], k)} :: 0 <= k < 8 ==>
      InputAt(slaves, 8 * (g.logstartaddr + o) + k) || !Bit(before[o], k)
  }

  /** All bytes of the input part are provided by slaves or zero. */
  ghost predicate InputsFillImage(g: Group, slaves: seq<Slave>, before: seq<byte>)
    requires g.obytes + g.ibytes <= |before|
  {
    forall o {:trigger OwnedOrZero(g, slaves, before, o)} :: g.obytes <= o < g.obytes + g.ibytes ==>
        OwnedOrZero(g, slaves, before, o)
  }

  /** The exchange of the whole image as one single LRW datagram. */
  function WholeExchange(g: Group, slaves: seq<Slave>, image: seq<byte>): Datagram
    requires g.obytes + g.ibytes <= |image|
  {
    Return(Datagram(LRW, g.logstartaddr, image[..g.obytes + g.ibytes], 0), slaves)
  }

  /** One input bit after reading with LRD: that of the single exchange, exactly if a slave provides it or it
      was zero. */
  lemma {:induction false} InputBit(slaves: seq<Slave>, x: nat, b: bool)
    requires ValidBus(slaves) && InputsDisjoint(slaves)
    ensures BitAfter(LRD, slaves, |slaves|, x, false) == BitAfter(LRW, slaves, |slaves|, x, b)
            <==> InputAt(slaves, x) || !b
  {
    hide BitAfter, Covers, ValidBus, InputsDisjoint;
    if InputAt(slaves, x) {
      var j :| 0 <= j < |slaves| && Covers(slaves[j].inStart, slaves[j].inLen, x);
      InputComesBack(LRD, slaves, j, x, false);
      InputComesBack(LRW, slaves, j, x, b);
    } else {
      NoInputHere(LRD, slaves, |slaves|, x, false);
      NoInputHere(LRW, slaves, |slaves|, x, b);
    }
  }

  /** ... and one byte. */
  lemma {:induction false} InputByte(g: Group, slaves: seq<Slave>, before: seq<byte>, o: nat)
    requires ValidBus(slaves) && InputsDisjoint(slaves) && o < |before|
    ensures ByteOf(LRD, slaves, g.logstartaddr, before, o) == ByteOf(LRW, slaves, g.logstartaddr, before, o)
            <==> OwnedOrZero(g, slaves, before, o)
  {
    hide ByteOf, BitAfter, ValidBus, InputsDisjoint, Bit, InputAt;
    var lrd := ByteOf(LRD, slaves, g.logstartaddr, before, o);
    var lrw := ByteOf(LRW, slaves, g.logstartaddr, before, o);
    forall k {:trigger Bit(before[o], k)} {:trigger Bit(lrd, k)} | 0 <= k < 8
      ensures Bit(lrd, k) == Bit(lrw, k) <==> InputAt(slaves, 8 * (g.logstartaddr + o) + k) || !Bit(before[o], k)
    {
      BitOfByteOf(LRD, slaves, g.logstartaddr, before, o, k);
      BitOfByteOf(LRW, slaves, g.logstartaddr, before, o, k);
      InputBit(slaves, 8 * (g.logstartaddr + o) + k, Bit(before[o], k));
    }
    if OwnedOrZero(g, slaves, before, o) {
      SameByte(lrd, lrw);
    }
  }

  lemma {:induction false} BitOfByteOf(c: Command, slaves: seq<Slave>, base: nat, image: seq<byte>, o: nat, k: nat)
    requires o < |image| && k < 8
    ensures Bit(ByteOf(c, slaves, base, image, o), k)
            == BitAfter(c, slaves, |slaves|, 8 * (base + o) + k, !c.LRD? && Bit(image[o], k))
  {
    hide ByteAfter, BitAfter, Bit;
    BitOfImage(c, slaves, base, image, 8 * o + k);
  }

  /** Whatever the segments, the IOmap ends up as after one single exchange of the whole image; without
      LRW exactly if every input byte is provided by a slave or was zero before. */
  lemma {:induction false} RefinesWholeExchange(c: Command, g: Group, slaves: seq<Slave>, lo: nat, before: seq<byte>,
                                                after: seq<byte>)
    requires ReadBack(c, g, slaves, lo, before, after) && Layout(g, slaves)
    requires (c.LRW? && lo == 0) || (c.LRD? && lo == g.obytes)
    ensures after[..g.obytes + g.ibytes] == WholeExchange(g, slaves, before).data
            <==> c.LRW? || InputsFillImage(g, slaves, before)
  {
    hide OutputsIn, InputsIn, ValidBus, InputsDisjoint, ByteAfter, OwnedOrZero, ByteOf;
    var whole := WholeExchange(g, slaves, before).data;
    forall o | 0 <= o < |whole|
      ensures after[o] == whole[o] <==> c.LRW? || o < lo || OwnedOrZero(g, slaves, before, o)
    {
      WholeByteIs(g, slaves, before, o);
      if o < lo {
        OutputsStay(g, slaves, before, o);
      } else if c.LRD? {
        InputByte(g, slaves, before, o);
      }
    }
    if !c.LRW? && after[..g.obytes + g.ibytes] == whole {
      forall o | g.obytes <= o < g.obytes + g.ibytes ensures OwnedOrZero(g, slaves, before, o) {
        assert after[..g.obytes + g.ibytes][o] == whole[o];
      }
    }
  }

  lemma {:induction false} WholeByteIs(g: Group, slaves: seq<Slave>, before: seq<byte>, o: nat)
    requires g.obytes + g.ibytes <= |before| && o < g.obytes + g.ibytes
    ensures WholeExchange(g, slaves, before).data[o] == ByteOf(LRW, slaves, g.logstartaddr, before, o)
  {
    hide ByteAfter;
  }

  lemma {:induction false} OutputsStay(g: Group, slaves: seq<Slave>, before: seq<byte>, o: nat)
    requires Layout(g, slaves) && o < g.obytes && o < |before|
    ensures ByteOf(LRW, slaves, g.logstartaddr, before, o) == before[o]
  {
    hide ByteAfter, Layout;
    OutputsUntouched(LRW, g, slaves, |slaves|, g.logstartaddr + o, before[o]);
  }

  /** ... and the single exchange has the same working counter. */
  lemma {:induction false} WholeCounter(g: Group, slaves: seq<Slave>, image: seq<byte>)
    requires Layout(g, slaves) && ValidGroup(g) && g.obytes + g.ibytes <= |image|
    ensures WholeExchange(g, slaves, image).wkc == 2 * OutputCount(slaves, |slaves|) + InputCount(slaves, |slaves|)
  {
    hide InOneSegment, ByteAfter, Upto;
    var d := Datagram(LRW, g.logstartaddr, image[..g.obytes + g.ibytes], 0);
    forall j {:trigger slaves[j]} | 0 <= j < |slaves|
      ensures Meetings([d], slaves[j].outStart, slaves[j].outLen) == if slaves[j].outLen > 0 then 1 else 0
      ensures Meetings([d], slaves[j].inStart, slaves[j].inLen) == if slaves[j].inLen > 0 then 1 else 0
    {
      assert WindowIn(g, slaves[j].outStart, slaves[j].outLen, 0, g.obytes);
      assert WindowIn(g, slaves[j].inStart, slaves[j].inLen, g.obytes, g.obytes + g.ibytes);
      assert [d][..0] == [];
      assert Meetings([], slaves[j].outStart, slaves[j].outLen) == 0
             == Meetings([], slaves[j].inStart, slaves[j].inLen);
    }
    ExpectedCounter(LRW, [d], slaves, |slaves|);
    assert [d][..0] == [];
    assert CounterSum(LRW, [], slaves, |slaves|) == 0;
  }
}
