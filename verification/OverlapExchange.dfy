/** Exchanging an overlapped image, in which the outputs and the inputs of a slave have the same logical
    addresses. With LRW the replies are stored behind the outputs in the IOmap; LRD asks for the wrong
    addresses. */
module OverlapExchange {
  import opened Memory
  import opened Bits
  import opened Wire
  import opened ProcessData
  import opened Transfers
  import opened LostFrames

  /** The group record that the overlapping mapper leaves. */
  ghost predicate ValidOverlap(g: Group) {
    g.overlap && ValidSegments(g) && g.isegment == 0 && g.ioffset == 0
  }

  /** The slaves as the overlapping mapper lays them out: both directions from the start of the image on. */
  ghost predicate OverlapLayout(g: Group, slaves: seq<Slave>) {
    && ValidBus(slaves) && OutputsIn(g, slaves) && InputsIn(g, slaves, 0, g.ibytes)
    && InputsDisjoint(slaves) && OutputsClear(slaves)
  }

  function FramesNeeded(g: Group): nat {
    if Length(g) == 0 then 0
    else if g.blockLRW == 0 then g.nsegments
    else (if g.ibytes > 0 then g.nsegments else 0) + (if g.obytes > 0 then g.nsegments else 0)
  }

  /** The datagrams of one cycle: one transfer of the whole image, or those that read (`ins`) and those
      that write the outputs (`outs`). */
  ghost predicate SentFor(g: Group, ins: seq<Datagram>, outs: seq<Datagram>, image: seq<byte>) {
    if Length(g) == 0 then ins == [] && outs == []
    else if g.blockLRW == 0 then outs == [] && ins != [] && Done(ins, LRW, g, 0, 0, Length(g), image)
    else
      && (if g.ibytes > 0 then InputGrams(ins, g, image) && StopsAtEnd(ins, g) else ins == [])
      && (if g.obytes > 0 then outs != [] && Done(outs, LWR, g, 0, 0, g.obytes, image) else outs == [])
  }

  lemma {:induction false} OverlapSegments(g: Group)
    requires ValidOverlap(g)
    ensures 0 < g.nsegments <= |g.iosegment| && g.isegment == 0 && g.ioffset == 0
    ensures Skipped(g, g.nsegments) == Length(g) == Upto(g, g.nsegments)
  {
    NoSegments(g);
    hide Upto;
  }

  /** ecx_main_send_processdata for an overlapped image. */
  method SendProcessData(m: Master, g: Group, bus: Bus)
    returns (wkc: nat, ghost ins: seq<Datagram>, ghost outs: seq<Datagram>)
    requires m.Valid() && m.pushed == m.pulled == 0 && m.rx == map[] && m.sent == []
    requires ValidOverlap(g) && g.obytes + Length(g) <= m.iomap.Length && FramesNeeded(g) <= MAXBUF
    modifies m, m.idx, m.data, m.length
    ensures m.Queued(g, bus) && m.pulled == 0 && m.sent == ins + outs && m.stamp == m.DCtime == old(m.DCtime)
    ensures wkc == if Length(g) > 0 then 1 else 0
    ensures SentFor(g, ins, outs, m.iomap[..])
  {
    hide Upto, Transfer, Tiles, Skipped, InputGrams;
    wkc, ins, outs := 0, [], [];
    m.stamp := m.DCtime;
    OverlapSegments(g);
    if Length(g) > 0 {
      wkc := 1;
      if g.blockLRW > 0 {
        if g.ibytes > 0 {
          ins := m.SendInputs(g, bus);
        }
        if g.obytes > 0 {
          m.PushedAll(g, bus);
          outs := m.SendOutputs(g, bus, ins, g.nsegments);
        }
      } else {
        ins := m.SendImage(g, bus);
      }
    }
    assert ins + [] == ins;
  }

  /** How far reading goes: at least over as many bytes as there are inputs. */
  ghost function ReadLength(g: Group, ins: seq<Datagram>): int
    requires g.isegment + |ins| <= |g.iosegment|
  {
    if g.blockLRW == 0 then Length(g) else if g.ibytes > 0 then Skipped(g, |ins|) else 0
  }

  lemma {:induction false} LrwReadsAll(g: Group, ins: seq<Datagram>)
    requires g.isegment + |ins| <= |g.iosegment|
    ensures g.blockLRW == 0 ==> ReadLength(g, ins) == Length(g)
  {
  }

  lemma {:induction false} ReadsEnough(g: Group, ins: seq<Datagram>, outs: seq<Datagram>, image: seq<byte>)
    requires ValidOverlap(g) && SentFor(g, ins, outs, image)
    ensures g.isegment + |ins| <= |g.iosegment| && g.ibytes <= ReadLength(g, ins) <= Length(g)
  {
    hide Upto, Tiles, Transfer, SentFrom, InputGrams, Skipped;
    OverlapSegments(g);
    if g.blockLRW > 0 && g.ibytes > 0 {
      SkippedBound(g, |ins|);
    } else if g.blockLRW == 0 && ins != [] {
      assert 0 + |ins| <= |g.iosegment| by { TransferLength(ins, LRW, g, 0, 0, Length(g), image); }
    }
  }

  lemma {:induction false} TransferLength(mine: seq<Datagram>, c: Command, g: Group, base: nat, lo: nat, hi: nat,
                                          image: seq<byte>)
    requires Done(mine, c, g, base, lo, hi, image)
    ensures base + |mine| <= |g.iosegment|
  {
  }

  /** A byte of the IOmap after reading: at offset `o`, from the end of the outputs on, what has come back from
      logical address `o - Shift(g)` of the image, `n` bytes in all. */
  function ReadByte(g: Group, slaves: seq<Slave>, n: nat, before: seq<byte>, o: nat): byte
    requires g.obytes + n <= |before| && o < |before|
  {
    if g.obytes <= o < g.obytes + n then
      ByteOf(if g.blockLRW == 0 then LRW else LRD, slaves, g.logstartaddr, before, o - Shift(g))
    else before[o]
  }

  ghost predicate ReadBehind(g: Group, slaves: seq<Slave>, n: nat, before: seq<byte>, after: seq<byte>) {
    && |after| == |before| && g.obytes + n <= |before|
    && forall o {:trigger after[o]} :: 0 <= o < |after| ==> after[o] == ReadByte(g, slaves, n, before, o)
  }

  lemma {:induction false} InputGramsAreSent(ins: seq<Datagram>, g: Group, image: seq<byte>)
    requires InputGrams(ins, g, image)
    ensures SentAs(ins, LRD, g, image)
  {
    hide Skipped, SentFrom, Tiles;
    forall i {:trigger ins[i]} | 0 <= i < |ins|
      ensures ins[i].command == LRD && SentFrom(ins[i], image, g.logstartaddr)
    {
      assert IsInputGram(ins[i], g, i, image);
    }
  }

  lemma {:induction false} SentFits(mine: seq<Datagram>, c: Command, g: Group, image: seq<byte>)
    requires SentAs(mine, c, g, image) && Shift(g) == 0
    ensures forall k {:trigger mine[k]} :: 0 <= k < |mine| ==> Fits(mine[k], Home(g), |image|)
  {
    forall k {:trigger mine[k]} | 0 <= k < |mine| ensures Fits(mine[k], Home(g), |image|) {
      assert SentFrom(mine[k], image, g.logstartaddr);
    }
  }

  lemma {:induction false} AllFitTheImage(g: Group, ins: seq<Datagram>, outs: seq<Datagram>, image: seq<byte>)
    requires ValidOverlap(g) && SentFor(g, ins, outs, image) && g.obytes + Length(g) <= |image|
    ensures SentAs(ins, if g.blockLRW == 0 then LRW else LRD, g, image)
    ensures forall k {:trigger ins[k]} :: 0 <= k < |ins| ==> Fits(ins[k], Home(g), |image|)
    ensures forall k {:trigger outs[k]} :: 0 <= k < |outs| ==> Fits(outs[k], Home(g), |image|) && outs[k].command == LWR
  {
    hide Done, Fits, Home, SentFrom, InputGrams, StopsAtEnd, ValidSegments;
    if ins != [] {
      if g.blockLRW == 0 {
        DoneFits(ins, LRW, g, 0, 0, Length(g), image);
        DoneIsSent(ins, LRW, g, 0, 0, Length(g), image);
      } else {
        InputGramsAreSent(ins, g, image);
        SentFits(ins, LRD, g, image);
      }
    }
    if outs != [] {
      DoneFits(outs, LWR, g, 0, 0, g.obytes, image);
    }
  }

  lemma {:induction false} BothFit(a: seq<Datagram>, b: seq<Datagram>, g: Group, size: nat)
    requires forall k {:trigger a[k]} :: 0 <= k < |a| ==> Fits(a[k], Home(g), size) && !a[k].command.FRMW?
    requires forall k {:trigger b[k]} :: 0 <= k < |b| ==> Fits(b[k], Home(g), size) && !b[k].command.FRMW?
    ensures forall k {:trigger (a + b)[k]} :: 0 <= k < |a + b| ==>
              Fits((a + b)[k], Home(g), size) && !(a + b)[k].command.FRMW?
  {
    hide Fits, Home;
  }

  /** The contents of the IOmap after one cycle. */
  lemma {:induction false} CycleImage(g: Group, ins: seq<Datagram>, outs: seq<Datagram>, image: seq<byte>,
                                      after: seq<byte>, slaves: seq<Slave>)
    requires ValidOverlap(g) && SentFor(g, ins, outs, image) && g.obytes + Length(g) <= |image|
    requires forall k {:trigger (ins + outs)[k]} :: 0 <= k < |ins + outs| ==> Fits((ins + outs)[k], Home(g), |image|)
    requires after == Collected(ins + outs, |ins + outs|, slaves, Home(g), image)
    ensures g.isegment + |ins| <= |g.iosegment| && 0 <= ReadLength(g, ins)
            && ReadBehind(g, slaves, ReadLength(g, ins), image, after)
  {
    hide Fits, ByteOf, Home, Collected, ReadLength, ValidOverlap;
    AllFitTheImage(g, ins, outs, image);
    ReadsEnough(g, ins, outs, image);
    WritesCollectNothing(ins, outs, slaves, Home(g), image, |outs|);
    NothingTaken(ins, slaves, Home(g), image);
    forall o {:trigger after[o]} | 0 <= o < |after|
      ensures after[o] == ReadByte(g, slaves, ReadLength(g, ins), image, o)
    {
      CycleByte(g, ins, outs, image, slaves, o);
    }
  }

  lemma {:induction false} CycleByte(g: Group, ins: seq<Datagram>, outs: seq<Datagram>, image: seq<byte>,
                                     slaves: seq<Slave>, o: nat)
    requires ValidOverlap(g) && SentFor(g, ins, outs, image) && g.obytes + Length(g) <= |image| && o < |image|
    requires g.isegment + |ins| <= |g.iosegment| && 0 <= ReadLength(g, ins) <= Length(g)
    requires forall k :: 0 <= k < |ins| ==> Fits(ins[k], Home(g), |image|)
    ensures Collected(ins, |ins|, slaves, Home(g), image)[o] == ReadByte(g, slaves, ReadLength(g, ins), image, o)
  {
    hide Fits, ByteOf, Home, Collected, Skipped, ValidSegments, Upto, SentFrom;
    if ins == [] {
      NothingTaken(ins, slaves, Home(g), image);
    } else if g.blockLRW == 0 {
      CollectedImage(ins, LRW, g, 0, 0, Length(g), image, slaves, o);
    } else {
      InputGramsAreSent(ins, g, image);
      CollectedTiles(ins, LRD, g, g.obytes, g.obytes + Skipped(g, |ins|), image, slaves, o);
    }
  }

  /** Each slave with outputs takes its part of the image exactly once. */
  ghost predicate OutputsDelivered(g: Group, slaves: seq<Slave>, sent: seq<Datagram>, before: seq<byte>) {
    forall j {:trigger slaves[j]} :: 0 <= j < |slaves| && slaves[j].outLen > 0 ==>
      OutputsFit(g, slaves[j], |before|) && AllTaken(sent, slaves, j) == [OutputsOf(g, slaves[j], before)]
  }

  /** The inputs of a slave are where the overlapping mapper puts them: behind the outputs, as far from
      there as their logical address is from the start of the image. */
  ghost predicate InputDelivered(g: Group, s: Slave, after: seq<byte>) {
    s.inLen > 0 ==>
      var at := 8 * g.obytes + s.inStart - 8 * g.logstartaddr;
      0 <= at && at + s.inLen <= 8 * |after| && BitsOf(after)[at..at + s.inLen] == s.input
  }

  ghost predicate InputsDelivered(g: Group, slaves: seq<Slave>, after: seq<byte>) {
    forall j {:trigger slaves[j]} :: 0 <= j < |slaves| ==> InputDelivered(g, slaves[j], after)
  }

  lemma {:induction false} CycleOutputs(g: Group, ins: seq<Datagram>, outs: seq<Datagram>, image: seq<byte>,
                                        slaves: seq<Slave>)
    requires ValidOverlap(g) && SentFor(g, ins, outs, image) && OverlapLayout(g, slaves)
             && g.obytes + Length(g) <= |image|
    ensures OutputsDelivered(g, slaves, ins + outs, image)
  {
    hide Done, Taken, InOneSegment, AllTaken, ValidSegments, InputsIn, InputsDisjoint, OutputsClear, InputGrams,
         StopsAtEnd;
    AllFitTheImage(g, ins, outs, image);
    forall j {:trigger slaves[j]} | 0 <= j < |slaves| && slaves[j].outLen > 0
      ensures OutputsFit(g, slaves[j], |image|) && AllTaken(ins + outs, slaves, j) == [OutputsOf(g, slaves[j], image)]
    {
      assert WindowIn(g, slaves[j].outStart, slaves[j].outLen, 0, g.obytes);
      TakenFromBoth(ins, outs, slaves, j);
      if g.blockLRW == 0 {
        OutputsTaken(ins, LRW, g, Length(g), image, slaves, j);
        TakenFromNothing(slaves, j);
        assert AllTaken(ins, slaves, j) + [] == AllTaken(ins, slaves, j);
      } else {
        ReadsTakeNothing(ins, slaves, j);
        OutputsTaken(outs, LWR, g, g.obytes, image, slaves, j);
        assert [] + AllTaken(outs, slaves, j) == AllTaken(outs, slaves, j);
      }
    }
  }

  /** If the replies are stored as far from the outputs as they were read from the start of the image,
      which is so with LRW, and with LRD if there are no outputs, all inputs are delivered. */
  lemma {:induction false} InputsArrive(g: Group, slaves: seq<Slave>, n: nat, before: seq<byte>, after: seq<byte>)
    requires ReadBehind(g, slaves, n, before, after) && OverlapLayout(g, slaves) && g.ibytes <= n
             && Shift(g) == g.obytes
    ensures InputsDelivered(g, slaves, after)
  {
    hide ByteAfter, InOneSegment, Shift, OutputsIn, OutputsClear;
    forall j {:trigger slaves[j]} | 0 <= j < |slaves| ensures InputDelivered(g, slaves[j], after) {
      assert WindowIn(g, slaves[j].inStart, slaves[j].inLen, 0, g.ibytes);
      if slaves[j].inLen > 0 {
        InputArrives(g, slaves, n, before, after, j);
      }
    }
  }

  lemma {:induction false} SizeBehind(g: Group, slaves: seq<Slave>, n: nat, before: seq<byte>, after: seq<byte>)
    requires ReadBehind(g, slaves, n, before, after)
    ensures |after| == |before| && g.obytes + n <= |before|
  {
  }

  /** A bit of what is read behind the outputs. */
  lemma {:induction false} BitBehind(g: Group, slaves: seq<Slave>, n: nat, before: seq<byte>, after: seq<byte>, x: nat)
    requires ReadBehind(g, slaves, n, before, after) && 8 * g.obytes <= x < 8 * (g.obytes + n)
    ensures x < 8 * |after| == 8 * |before| && 8 * Shift(g) <= x
    ensures var c := if g.blockLRW == 0 then LRW else LRD;
            BitsOf(after)[x]
            == BitAfter(c, slaves, |slaves|, 8 * g.logstartaddr + x - 8 * Shift(g),
                        !c.LRD? && BitAt(before, x - 8 * Shift(g)))
  {
    hide ByteOf, Bit, BitAfter;
    var c := if g.blockLRW == 0 then LRW else LRD;
    assert after[x / 8] == ByteOf(c, slaves, g.logstartaddr, before, x / 8 - Shift(g));
    BitOfImage(c, slaves, g.logstartaddr, before, x - 8 * Shift(g));
  }

  lemma {:induction false} InputArrives(g: Group, slaves: seq<Slave>, n: nat, before: seq<byte>, after: seq<byte>,
                                        j: nat)
    requires ReadBehind(g, slaves, n, before, after) && ValidBus(slaves) && InputsDisjoint(slaves)
             && Shift(g) == g.obytes
    requires j < |slaves| && slaves[j].inLen > 0
    requires 8 * g.logstartaddr <= slaves[j].inStart
    requires slaves[j].inStart + slaves[j].inLen <= 8 * (g.logstartaddr + n)
    ensures InputDelivered(g, slaves[j], after)
  {
    hide ByteOf, Shift, InputsDisjoint, BitAt, ReadBehind, BitAfter;
    var s := slaves[j];
    SizeBehind(g, slaves, n, before, after);
    var at := 8 * g.obytes + s.inStart - 8 * g.logstartaddr;
    var c := if g.blockLRW == 0 then LRW else LRD;
    var window := BitsOf(after)[at..at + s.inLen];
    assert |window| == |s.input|;
    forall i | 0 <= i < |window| ensures window[i] == s.input[i] {
      assert window[i] == BitsOf(after)[at + i];
      BitBehind(g, slaves, n, before, after, at + i);
      InputComesBack(c, slaves, j, s.inStart + i, !c.LRD? && BitAt(before, at + i - 8 * g.obytes));
    }
  }

  /** How often the datagrams meet the input windows of the first `j` slaves. */
  function InputMeetings(sent: seq<Datagram>, slaves: seq<Slave>, j: nat): nat
    requires j <= |slaves|
  {
    if j == 0 then 0
    else InputMeetings(sent, slaves, j - 1) + Meetings(sent, slaves[j - 1].inStart, slaves[j - 1].inLen)
  }

  lemma {:induction false} ReadCounter(sent: seq<Datagram>, slaves: seq<Slave>, j: nat)
    requires j <= |slaves|
    ensures CounterSum(LRD, sent, slaves, j) == InputMeetings(sent, slaves, j)
  {
    hide Meetings;
    if j == 0 {
      CounterOfNobody(LRD, sent, slaves);
    } else {
      ReadCounter(sent, slaves, j - 1);
      CounterBySlave(LRD, sent, slaves, j);
    }
  }

  /** The working counter of a cycle without losses: every output counts twice; an input counts once with
      LRW, and with LRD as often as its window is met. */
  function FullCounter(g: Group, slaves: seq<Slave>, ins: seq<Datagram>): int {
    if Length(g) == 0 then NOFRAME
    else 2 * OutputCount(slaves, |slaves|)
         + if g.blockLRW == 0 then InputCount(slaves, |slaves|) else InputMeetings(ins, slaves, |slaves|)
  }

  lemma {:induction false} CycleCounter(g: Group, ins: seq<Datagram>, outs: seq<Datagram>, image: seq<byte>,
                                        slaves: seq<Slave>)
    requires SentFor(g, ins, outs, image) && OverlapLayout(g, slaves)
    requires SentAs(ins, if g.blockLRW == 0 then LRW else LRD, g, image)
    ensures ins + outs == [] <==> Length(g) == 0
    ensures ins + outs != [] ==> WeightedSum(ins + outs, |ins + outs|, slaves) == FullCounter(g, slaves, ins)
  {
    hide OutputsIn, InputsIn, Done, Return, InputsDisjoint, OutputsClear, ValidBus, SentFrom, InputGrams, Meetings,
         StopsAtEnd;
    SumOfBoth(ins, outs, slaves, |outs|);
    SentSomething(g, ins, outs, image);
    if g.blockLRW == 0 {
      if ins != [] {
        ImageCounter(ins, g, Length(g), image, slaves, 0, g.ibytes);
        NothingTaken(outs, slaves, 0, []);
      }
    } else {
      ReadsCounted(ins, g, image, slaves);
      if outs != [] {
        OutputsCounter(outs, g, image, slaves);
      } else {
        NoOutputs(g, slaves, |slaves|);
        NothingTaken(outs, slaves, 0, []);
      }
    }
  }

  lemma {:induction false} ReadsCounted(ins: seq<Datagram>, g: Group, image: seq<byte>, slaves: seq<Slave>)
    requires SentAs(ins, LRD, g, image)
    ensures WeightedSum(ins, |ins|, slaves) == InputMeetings(ins, slaves, |slaves|)
  {
    hide SentFrom, Meetings, WeightedSum;
    ReadCounter(ins, slaves, |slaves|);
    SumOfKind(ins, LRD, slaves, |ins|);
    assert ins[..|ins|] == ins;
  }

  /** The datagrams that read were all sent from the image, with one command. */
  lemma {:induction false} SentForReads(g: Group, ins: seq<Datagram>, outs: seq<Datagram>, image: seq<byte>)
    requires ValidOverlap(g) && SentFor(g, ins, outs, image) && g.obytes + Length(g) <= |image|
    ensures ReadAs(ins + outs, if g.blockLRW == 0 then LRW else LRD, g, image)
            && AllInIomap(ins + outs, g, |image|)
  {
    hide Done, Fits, Home, SentFrom, ValidOverlap, SentFor;
    AllFitTheImage(g, ins, outs, image);
    CycleReads(g, ins, outs, if g.blockLRW == 0 then LRW else LRD, image);
  }

  /** If no slave has counted a lost frame, all has been delivered that would be without losses. */
  lemma {:induction false} CompleteExchange(g: Group, ins: seq<Datagram>, outs: seq<Datagram>, image: seq<byte>,
                                            after: seq<byte>, bus: Bus)
    requires ValidOverlap(g) && SentFor(g, ins, outs, image) && OverlapLayout(g, bus.slaves)
             && g.obytes + Length(g) <= |image|
    requires AllInIomap(ins + outs, g, |image|) && LostUnseen(ins + outs, |ins + outs|, bus)
    requires after == ArrivedImage(ins + outs, |ins + outs|, bus, Home(g), image)
    ensures OutputsDelivered(g, bus.slaves, CameBack(ins + outs, |ins + outs|, bus), image)
    ensures g.blockLRW == 0 || g.obytes == 0 ==> InputsDelivered(g, bus.slaves, after)
  {
    hide SentFor, OverlapLayout, AllTaken, ReadBehind, LostUnseen, ArrivedImage, Collected, Fits, Home, CameBack,
         InputDelivered, Shift, ReadLength, ValidOverlap, ReadAs, AllInIomap;
    var all, slaves := ins + outs, bus.slaves;
    SentForReads(g, ins, outs, image);
    AllOfThemFit(all, g, |image|);
    var complete := Collected(all, |all|, slaves, Home(g), image);
    CycleOutputs(g, ins, outs, image, slaves);
    OutputsFromArrived(g, all, bus, image);
    if g.blockLRW == 0 || g.obytes == 0 {
      CycleImage(g, ins, outs, image, complete, slaves);
      ReadsEnough(g, ins, outs, image);
      StoredInPlace(g);
      InputsArrive(g, slaves, ReadLength(g, ins), image, complete);
      forall j {:trigger slaves[j]} | 0 <= j < |slaves| ensures InputDelivered(g, slaves[j], after) {
        InputStays(g, all, image, after, complete, bus, if g.blockLRW == 0 then LRW else LRD, j);
      }
    }
  }

  lemma {:induction false} StoredInPlace(g: Group)
    requires ValidOverlap(g) && (g.blockLRW == 0 || g.obytes == 0)
    ensures Shift(g) == g.obytes
  {
  }

  lemma {:induction false} OutputsFromArrived(g: Group, all: seq<Datagram>, bus: Bus, image: seq<byte>)
    requires OutputsDelivered(g, bus.slaves, all, image) && LostUnseen(all, |all|, bus)
    ensures OutputsDelivered(g, bus.slaves, CameBack(all, |all|, bus), image)
  {
    hide AllTaken, LostUnseen, CameBack;
    var slaves := bus.slaves;
    forall j {:trigger slaves[j]} | 0 <= j < |slaves|
      ensures AllTaken(CameBack(all, |all|, bus), slaves, j) == AllTaken(all, slaves, j)
    {
      TakenFromArrived(all, |all|, bus, j);
      assert all[..|all|] == all;
    }
  }

  lemma {:induction false} InputStays(g: Group, all: seq<Datagram>, image: seq<byte>, after: seq<byte>,
                                      complete: seq<byte>, bus: Bus, c: Command, j: nat)
    requires ReadAs(all, c, g, image) && AllInIomap(all, g, |image|) && LostUnseen(all, |all|, bus)
    requires forall i {:trigger all[i]} :: 0 <= i < |all| ==> Fits(all[i], Home(g), |image|)
    requires after == ArrivedImage(all, |all|, bus, Home(g), image)
             && complete == Collected(all, |all|, bus.slaves, Home(g), image)
    requires j < |bus.slaves| && Shift(g) == g.obytes && InputDelivered(g, bus.slaves[j], complete)
    ensures InputDelivered(g, bus.slaves[j], after)
  {
    hide LostUnseen, ArrivedImage, Collected, Fits, ReadAs, AllInIomap, Shift;
    if bus.slaves[j].inLen > 0 {
      WindowIsComplete(all, c, g, bus, image, j);
    }
  }

  /** One cycle of an overlapped image. If no slave has counted a frame that is lost, it delivers all outputs,
      with LRW also all inputs, and with LRD and LWR the inputs if there are no outputs. The counter says
      whether this is so. Without losses, the IOmap holds behind the outputs what has come back. */
  method Exchange(m: Master, g: Group, bus: Bus)
    returns (wkc: int, ghost frames: seq<Datagram>, ghost n: nat, ghost ins: seq<Datagram>)
    requires m.Valid() && m.pushed == m.pulled == 0 && m.rx == map[] && m.sent == []
    requires ValidOverlap(g) && g.obytes + Length(g) <= m.iomap.Length && FramesNeeded(g) <= MAXBUF
    requires OverlapLayout(g, bus.slaves) && (g.hasdc && Length(g) > 0 ==> bus.arrives(0))
    modifies m, m.idx, m.data, m.length, m.iomap
    ensures LostUnseen(frames, |frames|, bus) ==>
              && OutputsDelivered(g, bus.slaves, CameBack(frames, |frames|, bus), old(m.iomap[..]))
              && (g.blockLRW == 0 || g.obytes == 0 ==> InputsDelivered(g, bus.slaves, m.iomap[..]))
    ensures ins <= frames && forall k :: |ins| <= k < |frames| ==> frames[k].command == LWR
    ensures wkc <= FullCounter(g, bus.slaves, ins)
    ensures wkc == FullCounter(g, bus.slaves, ins) <==>
            (frames == [] || SomeArrives(bus, |frames|)) && LostUnseen(frames, |frames|, bus)
    ensures g.ibytes <= n <= Length(g) && (g.blockLRW == 0 ==> n == Length(g))
    ensures NoneLost(bus, |frames|) ==>
              && LostUnseen(frames, |frames|, bus) && (frames == [] || SomeArrives(bus, |frames|))
              && ReadBehind(g, bus.slaves, n, old(m.iomap[..]), m.iomap[..])
    ensures m.DCtime == if g.hasdc && Length(g) > 0 then TimeOf(bus, g.clockSlave, old(m.DCtime)) else old(m.DCtime)
    ensures m.Valid() && m.pushed == m.pulled == 0 && m.rx == map[]
  {
    hide OverlapLayout, SentFor, ReadBehind, Upto, IsEntry, Fits, InputsDelivered, OutputsDelivered, ValidSegments,
         ReadLength, Home, LostUnseen, SomeArrives, ArrivedSum, ArrivedImage, CameBack, NoneLost, AllInIomap,
         WeightedSum;
    ghost var image := m.iomap[..];
    var sentWkc: nat;
    ghost var outs;
    sentWkc, ins, outs := SendProcessData(m, g, bus);
    frames := ins + outs;
    AllFitTheImage(g, ins, outs, image);
    BothFit(ins, outs, g, |image|);
    SentForReads(g, ins, outs, image);
    CycleCounter(g, ins, outs, image, bus.slaves);
    wkc := m.Receive(g, bus);
    ReadsEnough(g, ins, outs, image);
    n := ReadLength(g, ins);
    LrwReadsAll(g, ins);
    ArrivedAtMost(frames, |frames|, bus);
    Counters(frames, bus);
    if LostUnseen(frames, |frames|, bus) {
      CompleteExchange(g, ins, outs, image, m.iomap[..], bus);
    }
    if NoneLost(bus, |frames|) {
      AllArrived(frames, |frames|, bus, Home(g), image);
      CycleImage(g, ins, outs, image, m.iomap[..], bus.slaves);
    }
  }

  lemma {:induction false} SentSomething(g: Group, ins: seq<Datagram>, outs: seq<Datagram>, image: seq<byte>)
    requires SentFor(g, ins, outs, image)
    ensures ins + outs == [] <==> Length(g) == 0
  {
    hide Done, InputGrams, Skipped;
  }

  /** The same slaves with other inputs. */
  ghost predicate SameWindows(a: seq<Slave>, b: seq<Slave>) {
    |a| == |b| && forall j {:trigger b[j]} :: 0 <= j < |a| ==>
        b[j] == a[j].(input := b[j].input) && |b[j].input| == |a[j].input|
  }

  /** All inputs are zero but the first bit of slave `j`. */
  function OneMarked(slaves: seq<Slave>, j: nat): (r: seq<Slave>)
    ensures |r| == |slaves|
  {
    seq(|slaves|, i requires 0 <= i < |slaves| =>
      slaves[i].(input := seq(|slaves[i].input|, b => i == j && b == 0)))
  }

  lemma {:induction false} MarkedLayout(slaves: seq<Slave>, j: nat)
    requires ValidBus(slaves) && InputsDisjoint(slaves)
    ensures SameWindows(slaves, OneMarked(slaves, j)) && ValidBus(OneMarked(slaves, j))
            && InputsDisjoint(OneMarked(slaves, j))
  {
    var ws := OneMarked(slaves, j);
    forall i, k | 0 <= i < k < |ws| ensures Apart(ws[i].inStart, ws[i].inLen, ws[k].inStart, ws[k].inLen) {
      assert Apart(slaves[i].inStart, slaves[i].inLen, slaves[k].inStart, slaves[k].inLen);
    }
  }

  /** Only one bit of the bus is set. */
  lemma {:induction false} OtherBitsAreZero(slaves: seq<Slave>, j: nat, x: nat)
    requires ValidBus(slaves) && InputsDisjoint(slaves) && j < |slaves| && x != slaves[j].inStart
    ensures !BitAfter(LRD, OneMarked(slaves, j), |slaves|, x, false)
  {
    hide BitAfter, ValidBus, InputsDisjoint;
    var ws := OneMarked(slaves, j);
    MarkedLayout(slaves, j);
    if i :| 0 <= i < |ws| && Covers(ws[i].inStart, ws[i].inLen, x) {
      InputComesBack(LRD, ws, i, x, false);
      MarkedBit(slaves, j, i, x - ws[i].inStart);
    } else {
      NoInputHere(LRD, ws, |ws|, x, false);
    }
  }

  lemma {:induction false} MarkedBit(slaves: seq<Slave>, j: nat, i: nat, b: nat)
    requires ValidBus(slaves) && i < |slaves| && b < slaves[i].inLen
    ensures b < |OneMarked(slaves, j)[i].input| && OneMarked(slaves, j)[i].input[b] == (i == j && b == 0)
  {
  }

  function AfterReading(g: Group, slaves: seq<Slave>, n: nat, before: seq<byte>): (after: seq<byte>)
    requires g.obytes + n <= |before|
    ensures ReadBehind(g, slaves, n, before, after)
  {
    seq(|before|, o requires 0 <= o < |before| => ReadByte(g, slaves, n, before, o))
  }

  /** Whatever the slaves have on the bus arrives in its place. */
  ghost predicate AlwaysDelivers(g: Group, slaves: seq<Slave>, n: nat) {
    forall ws, before, after {:trigger ReadBehind(g, ws, n, before, after)} ::
      SameWindows(slaves, ws) && ReadBehind(g, ws, n, before, after) ==> InputsDelivered(g, ws, after)
  }

  /** LRD and LWR deliver the inputs, whatever they are, exactly if the group has no outputs or no slave
      has inputs: reading starts at the address of the inputs in an image that is not overlapped. */
  lemma {:induction false} LrdDeliversIff(g: Group, slaves: seq<Slave>, n: nat)
    requires OverlapLayout(g, slaves) && g.overlap && g.blockLRW > 0 && g.ibytes <= n
    ensures AlwaysDelivers(g, slaves, n) <==>
              g.obytes == 0 || forall j {:trigger slaves[j]} :: 0 <= j < |slaves| ==> slaves[j].inLen == 0
  {
    hide ReadBehind, OverlapLayout, InputDelivered;
    if g.obytes > 0 && exists j :: 0 <= j < |slaves| && slaves[j].inLen > 0 {
      var j :| 0 <= j < |slaves| && slaves[j].inLen > 0;
      LrdMisses(g, slaves, n, j);
    } else {
      forall ws, before, after | SameWindows(slaves, ws) && ReadBehind(g, ws, n, before, after)
        ensures InputsDelivered(g, ws, after)
      {
        if g.obytes == 0 {
          SameLayout(g, slaves, ws);
          InputsArrive(g, ws, n, before, after);
        } else {
          NothingToDeliver(g, slaves, ws, after);
        }
      }
    }
  }

  lemma {:induction false} NothingToDeliver(g: Group, slaves: seq<Slave>, ws: seq<Slave>, after: seq<byte>)
    requires SameWindows(slaves, ws) && forall j {:trigger slaves[j]} :: 0 <= j < |slaves| ==> slaves[j].inLen == 0
    ensures InputsDelivered(g, ws, after)
  {
    forall j {:trigger ws[j]} | 0 <= j < |ws| ensures InputDelivered(g, ws[j], after) {
      assert ws[j] == slaves[j].(input := ws[j].input);
    }
  }

  lemma {:induction false} SameLayout(g: Group, slaves: seq<Slave>, ws: seq<Slave>)
    requires OverlapLayout(g, slaves) && SameWindows(slaves, ws)
    ensures OverlapLayout(g, ws)
  {
    hide WindowIn, Apart;
    forall j {:trigger ws[j]} | 0 <= j < |ws| ensures ws[j] == slaves[j].(input := ws[j].input) {
    }
    forall j {:trigger ws[j]} | 0 <= j < |ws|
      ensures WindowIn(g, ws[j].outStart, ws[j].outLen, 0, g.obytes)
              && WindowIn(g, ws[j].inStart, ws[j].inLen, 0, g.ibytes)
    {
      assert slaves[j] == slaves[j];
    }
    forall i, j | 0 <= i < j < |ws|
      ensures Apart(ws[i].inStart, ws[i].inLen, ws[j].inStart, ws[j].inLen)
      ensures Apart(ws[i].inStart, ws[i].inLen, ws[j].outStart, ws[j].outLen)
    {
      assert Apart(slaves[i].inStart, slaves[i].inLen, slaves[j].inStart, slaves[j].inLen);
    }
  }

  /** With outputs, the first input bit of a slave is looked for behind its window. */
  lemma {:induction false} LrdMisses(g: Group, slaves: seq<Slave>, n: nat, j: nat)
    requires OverlapLayout(g, slaves) && g.overlap && g.blockLRW > 0 && g.ibytes <= n && g.obytes > 0
    requires j < |slaves| && slaves[j].inLen > 0
    ensures !AlwaysDelivers(g, slaves, n)
  {
    hide BitAfter, InOneSegment, OutputsIn, OutputsClear, ReadBehind, Bit, ByteOf;
    var ws := OneMarked(slaves, j);
    MarkedLayout(slaves, j);
    var before: seq<byte> := seq(g.obytes + n, i => 0);
    var after := AfterReading(g, ws, n, before);
    SizeBehind(g, ws, n, before, after);
    assert WindowIn(g, slaves[j].inStart, slaves[j].inLen, 0, g.ibytes);
    assert ws[j] == slaves[j].(input := ws[j].input);
    var at := 8 * g.obytes + slaves[j].inStart - 8 * g.logstartaddr;
    OtherBitsAreZero(slaves, j, 8 * g.logstartaddr + at);
    MarkedBit(slaves, j, j, 0);
    BitBehind(g, ws, n, before, after, at);
    assert !BitsOf(after)[at];
    assert BitsOf(after)[at..at + ws[j].inLen][0] == BitsOf(after)[at];
    assert !InputDelivered(g, ws[j], after);
  }
}
