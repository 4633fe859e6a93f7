/** The image that the overlapping mapper builds is one that the exchange with LRW can handle. */
module MappedOverlap {
  import opened Memory
  import opened Numbers
  import opened FmmuMapping
  import opened ProcessImage
  import opened ImageLayout
  import opened MapGroup
  import opened FmmuWindows
  import opened OverlapImage
  import Segments
  import M = MappedExchange
  import W = Wire
  import P = ProcessData
  import T = Transfers
  import L = LostFrames
  import X = OverlapExchange

  /** The bits of one direction of slave `k` in its slot. */
  ghost function SlotLength(s: seq<Slave>, group: nat, base: nat, d: Direction, k: nat): nat
    requires WellFormedList(s) && 1 <= k < |s|
  {
    var m := Slot(s, group, base, k);
    if Takes(s[k], group, d) then End(DataOf(s[k], d), 8 * m) - 8 * m else 0
  }

  /** Slave `k` has the windows that the mapper has laid out for it: both begin with its slot. */
  ghost predicate HasWindows(w: W.Slave, s: seq<Slave>, group: nat, base: nat, k: nat)
    requires WellFormedList(s) && 1 <= k < |s|
  {
    && w.outLen == SlotLength(s, group, base, Outputs, k)
    && (w.outLen > 0 ==> w.outStart == 8 * Slot(s, group, base, k))
    && |w.input| == w.inLen == SlotLength(s, group, base, Inputs, k)
    && (w.inLen > 0 ==> w.inStart == 8 * Slot(s, group, base, k))
  }

  ghost predicate AllHaveWindows(ws: seq<W.Slave>, s: seq<Slave>, group: nat, base: nat)
    requires WellFormedList(s)
  {
    |ws| == |s| - 1 && forall j {:trigger ws[j]} :: 0 <= j < |ws| ==> HasWindows(ws[j], s, group, base, j + 1)
  }

  /** The list that the mapper leaves behind; moving the input addresses in the IOmap does not concern the
      slaves. */
  ghost function Slotted(s: seq<Slave>, group: nat, base: nat): (t: seq<Slave>)
    requires CanOverlapAll(s, group, base)
    ensures |t| == |s|
  {
    seq(|s|, k requires 0 <= k < |s| => if k == 0 then s[0] else InSlot(s, group, base, k))
  }

  /** A slave of the group maps for writing what lies in its output window, and for reading what lies in its
      input window. */
  lemma {:induction false} TableMaps(s: seq<Slave>, group: nat, base: nat, k: nat, d: Direction, x: nat)
    requires CanOverlapAll(s, group, base) && 1 <= k < |s| && InGroup(s[k], group) && Spare(s[k].fmmu, 0)
    ensures WellFormedList(s)
    ensures MapsBit(Slotted(s, group, base)[k].fmmu, TypeFor(d), x) <==>
            W.Covers(8 * Slot(s, group, base, k), SlotLength(s, group, base, d, k), x)
  {
    hide MapsBit, Slot, Spare, Mapped, CanMap, DataOf, End, Start;
    var m := Slot(s, group, base, k);
    assert CanOverlap(s[k], m, group, base);
    IdleMaps(s[k].fmmu, s[k].fmmuUnused, TypeFor(d), x);
    if s[k].obits > 0 {
      MappedMaps(s[k], Outputs, 8 * m, group, base, TypeFor(d), x);
    }
    var u := OutputsPlaced(s[k], m, group, base);
    SameAfter(s[k], m, group, base);
    if s[k].ibits > 0 {
      MappedMaps(u, Inputs, 8 * m, group, base, TypeFor(d), x);
    }
    if Bits(s[k], d) > 0 {
      InItsBytes(s[k], d, m);
    }
  }

  lemma {:induction false} SlotWindows(s: seq<Slave>, group: nat, base: nat, w: W.Slave, k: nat)
    requires CanOverlapAll(s, group, base) && 1 <= k < |s| && InGroup(s[k], group) && Spare(s[k].fmmu, 0)
    requires Follows(w, Slotted(s, group, base)[k].fmmu)
    ensures WellFormedList(s) && HasWindows(w, s, group, base, k)
  {
    TableMaps(s, group, base, k, Outputs, 0);
    hide MapsBit, Slot, SlotLength;
    var table, m := Slotted(s, group, base)[k].fmmu, Slot(s, group, base, k);
    var o, i := SlotLength(s, group, base, Outputs, k), SlotLength(s, group, base, Inputs, k);
    forall x: nat ensures MapsBit(table, WRITE_TYPE, x) <==> W.Covers(8 * m, o, x) {
      TableMaps(s, group, base, k, Outputs, x);
    }
    forall x: nat ensures MapsBit(table, READ_TYPE, x) <==> W.Covers(8 * m, i, x) {
      TableMaps(s, group, base, k, Inputs, x);
    }
    SameWindow(w.outStart, w.outLen, 8 * m, 8 * m + o);
    SameWindow(w.inStart, w.inLen, 8 * m, 8 * m + i);
  }

  /** The slaves of the list that the mapper leaves behind have on the bus the windows of the layout. */
  lemma {:induction false} TablesGiveWindows(s: seq<Slave>, group: nat, base: nat, ws: seq<W.Slave>)
    requires CanOverlapAll(s, group, base) && WellFormedList(s) && Idle(s, group)
    requires AllOnBus(ws, Slotted(s, group, base), group)
    ensures AllHaveWindows(ws, s, group, base)
  {
    hide Slot, SlotLength, Spare, MapsBit, CanOverlapAll, HasWindows;
    var t := Slotted(s, group, base);
    forall j | 0 <= j < |ws| ensures HasWindows(ws[j], s, group, base, j + 1) {
      assert OnBus(ws[j], t[j + 1], group);
      SameGroup(s, group, base, j + 1);
      if InGroup(s[j + 1], group) {
        SlotWindows(s, group, base, ws[j], j + 1);
      } else {
        Outside(s, group, base, ws[j], j + 1);
      }
    }
  }

  lemma {:induction false} SameGroup(s: seq<Slave>, group: nat, base: nat, k: nat)
    requires CanOverlapAll(s, group, base) && 1 <= k < |s|
    ensures InSlot(s, group, base, k).group == s[k].group
  {
    hide CanOverlap, Slot;
  }

  lemma {:induction false} Outside(s: seq<Slave>, group: nat, base: nat, w: W.Slave, k: nat)
    requires WellFormedList(s) && 1 <= k < |s| && !InGroup(s[k], group) && w.outLen == w.inLen == |w.input| == 0
    ensures HasWindows(w, s, group, base, k)
  {
    hide Slot;
  }

  /** The group record as the exchange reads it. */
  function Record(grp: Group, hasdc: bool, clockSlave: word): P.Group
    requires grp.nsegments <= grp.IOsegment.Length
    reads grp, grp.IOsegment
  {
    P.Group(grp.logstartaddr, grp.Obytes, grp.Ibytes, grp.blockLRW, hasdc, clockSlave,
            grp.nsegments, grp.Isegment, grp.Ioffset, grp.IOsegment[..grp.nsegments], true)
  }

  /** One direction of a slave ends in the bytes it takes. */
  lemma {:induction false} WindowInBytes(s: seq<Slave>, group: nat, base: nat, d: Direction, k: nat)
    requires WellFormedList(s) && 1 <= k < |s| && Takes(s[k], group, d)
    ensures var m := Slot(s, group, base, k);
            8 * m + SlotLength(s, group, base, d, k) <= 8 * After(s[k], d, m)
  {
    hide Slot, End, DataOf, After;
    InItsBytes(s[k], d, Slot(s, group, base, k));
  }

  /** The windows of a slave end with its slot. */
  lemma {:induction false} WindowInSlot(s: seq<Slave>, group: nat, base: nat, d: Direction, k: nat)
    requires WellFormedList(s) && 1 <= k < |s|
    ensures 8 * Slot(s, group, base, k) + SlotLength(s, group, base, d, k) <= 8 * Slot(s, group, base, k + 1)
  {
    hide After, SlotLength, Slot;
    SlotOf(s, group, base, k);
    if Takes(s[k], group, d) {
      WindowInBytes(s, group, base, d, k);
    } else {
      NoWindow(s, group, base, d, k);
    }
  }

  /** No direction of any slave goes on behind where it ends in the last slot. */
  lemma {:induction false} WindowInSize(s: seq<Slave>, group: nat, base: nat, d: Direction, k: nat)
    requires WellFormedList(s) && 1 <= k < |s| && SlotLength(s, group, base, d, k) > 0
    ensures base <= Slot(s, group, base, k)
    ensures 8 * Slot(s, group, base, k) + SlotLength(s, group, base, d, k) <= 8 * EndInSlot(s, group, base, d, |s| - 1)
  {
    hide After, SlotLength;
    WindowInSlot(s, group, base, d, k);
    SlotsExtend(s, group, base, 1, k);
    NoWindow(s, group, base, d, k);
    WindowInBytes(s, group, base, d, k);
    if k < |s| - 1 {
      SlotsExtend(s, group, base, k + 1, |s| - 1);
    }
    hide Slot;
  }

  /** A window lies within one segment. */
  lemma {:induction false} WindowInSegment(g: P.Group, s: seq<Slave>, group: nat, base: nat, d: Direction, k: nat)
    requires WellFormedList(s) && 1 <= k < |s| && SlotLength(s, group, base, d, k) > 0
    requires g.iosegment == Segments.AllSegments(Segments.CutOf(Slots(s, group, base, |s|)))
    ensures base <= Slot(s, group, base, k)
    ensures T.InOneSegment(g, 8 * (Slot(s, group, base, k) - base), SlotLength(s, group, base, d, k))
  {
    hide After, Slot, Slots, Segments.CutOf, Segments.AllSegments, Segments.Total, SlotLength;
    NoWindow(s, group, base, d, k);
    var j := SlotInOneSegment(s, group, base, k);
    WindowInSlot(s, group, base, d, k);
    assert T.SegmentHolds(g, j, 8 * (Slot(s, group, base, k) - base), SlotLength(s, group, base, d, k));
  }

  /** The mapping of a group, as the exchange relies on it: in at most 64 segments. No FMMU was in use before,
      and on the bus every slave follows the FMMUs of the list that the mapper leaves behind. */
  ghost predicate Mapping(grp: Group, s: seq<Slave>, group: nat, ws: seq<W.Slave>)
    reads grp, grp.IOsegment
  {
    var base := grp.logstartaddr;
    && WellFormedList(s) && |s| > 1 && DescribesOverlap(grp, s, group, base)
    && |Segments.CutOf(Slots(s, group, base, |s|)).closed| < Segments.MAX_IOSEGMENTS
    && CanOverlapAll(s, group, base) && Idle(s, group) && AllOnBus(ws, Slotted(s, group, base), group)
  }

  lemma {:induction false} RecordIsValid(grp: Group, hasdc: bool, clockSlave: word, s: seq<Slave>, group: nat,
                                         base: nat)
    requires WellFormedList(s) && |s| > 1 && DescribesOverlap(grp, s, group, base)
    requires |Segments.CutOf(Slots(s, group, base, |s|)).closed| < Segments.MAX_IOSEGMENTS
    ensures 0 < grp.nsegments <= grp.IOsegment.Length && X.ValidOverlap(Record(grp, hasdc, clockSlave))
    ensures Record(grp, hasdc, clockSlave).iosegment == Segments.AllSegments(Segments.CutOf(Slots(s, group, base, |s|)))
  {
    hide Slots, EndInSlot, SlotIncrements, Segments.CutOf, Segments.Total;
    SegmentsOfOverlap(grp, s, group, base);
    var g := Record(grp, hasdc, clockSlave);
    assert g.iosegment[..g.nsegments] == g.iosegment;
  }

  lemma {:induction false} OneWindow(g: P.Group, s: seq<Slave>, group: nat, base: nat, d: Direction, k: nat, size: nat)
    requires WellFormedList(s) && 1 <= k < |s| && g.logstartaddr == base
    requires g.iosegment == Segments.AllSegments(Segments.CutOf(Slots(s, group, base, |s|)))
    requires base + size == EndInSlot(s, group, base, d, |s| - 1)
    ensures T.WindowIn(g, 8 * Slot(s, group, base, k), SlotLength(s, group, base, d, k), 0, size)
  {
    hide Slot, SlotLength, EndInSlot, Slots, Segments.CutOf, Segments.AllSegments, T.InOneSegment;
    if SlotLength(s, group, base, d, k) > 0 {
      WindowInSize(s, group, base, d, k);
      WindowInSegment(g, s, group, base, d, k);
    }
  }

  lemma {:induction false} WindowsFit(g: P.Group, s: seq<Slave>, group: nat, base: nat, ws: seq<W.Slave>)
    requires WellFormedList(s) && |s| > 1 && AllHaveWindows(ws, s, group, base) && g.logstartaddr == base
    requires g.iosegment == Segments.AllSegments(Segments.CutOf(Slots(s, group, base, |s|)))
    requires base + g.obytes == EndInSlot(s, group, base, Outputs, |s| - 1)
    requires base + g.ibytes == EndInSlot(s, group, base, Inputs, |s| - 1)
    ensures T.OutputsIn(g, ws) && T.InputsIn(g, ws, 0, g.ibytes)
  {
    hide Slot, SlotLength, EndInSlot, Slots, Segments.CutOf, Segments.AllSegments, T.InOneSegment;
    forall j {:trigger ws[j]} | 0 <= j < |ws|
      ensures T.WindowIn(g, ws[j].outStart, ws[j].outLen, 0, g.obytes)
      ensures T.WindowIn(g, ws[j].inStart, ws[j].inLen, 0, g.ibytes)
    {
      assert HasWindows(ws[j], s, group, base, j + 1);
      OneWindow(g, s, group, base, Outputs, j + 1, g.obytes);
      OneWindow(g, s, group, base, Inputs, j + 1, g.ibytes);
    }
  }

  /** The windows of different slaves have nothing in common, whatever their direction. */
  lemma {:induction false} SlotsApart(s: seq<Slave>, group: nat, base: nat, i: nat, j: nat, d: Direction, e: Direction)
    requires WellFormedList(s) && 1 <= i < j < |s|
    ensures T.Apart(8 * Slot(s, group, base, i), SlotLength(s, group, base, d, i), 8 * Slot(s, group, base, j),
                    SlotLength(s, group, base, e, j))
  {
    hide Slot, SlotLength;
    WindowInSlot(s, group, base, d, i);
    SlotsExtend(s, group, base, i + 1, j);
  }

  lemma {:induction false} WindowsApart(s: seq<Slave>, group: nat, base: nat, ws: seq<W.Slave>)
    requires WellFormedList(s) && AllHaveWindows(ws, s, group, base)
    ensures W.ValidBus(ws) && T.InputsDisjoint(ws) && T.OutputsClear(ws)
  {
    hide Slot, SlotLength;
    forall j | 0 <= j < |ws| ensures |ws[j].input| == ws[j].inLen {
      assert HasWindows(ws[j], s, group, base, j + 1);
    }
    forall i, j | 0 <= i < j < |ws|
      ensures T.Apart(ws[i].inStart, ws[i].inLen, ws[j].inStart, ws[j].inLen)
      ensures T.Apart(ws[i].inStart, ws[i].inLen, ws[j].outStart, ws[j].outLen)
    {
      assert HasWindows(ws[i], s, group, base, i + 1) && HasWindows(ws[j], s, group, base, j + 1);
      SlotsApart(s, group, base, i + 1, j + 1, Inputs, Inputs);
      SlotsApart(s, group, base, i + 1, j + 1, Inputs, Outputs);
    }
  }

  /** The overlapping image of a group is laid out as the exchange needs it. */
  lemma {:induction false} MapperGivesLayout(grp: Group, hasdc: bool, clockSlave: word, s: seq<Slave>, group: nat,
                                             ws: seq<W.Slave>)
    requires Mapping(grp, s, group, ws)
    ensures 0 < grp.nsegments <= grp.IOsegment.Length
    ensures X.ValidOverlap(Record(grp, hasdc, clockSlave)) && X.OverlapLayout(Record(grp, hasdc, clockSlave), ws)
  {
    hide Slots, EndInSlot, SlotIncrements, Segments.CutOf, Segments.AllSegments, X.ValidOverlap, T.OutputsIn,
         T.InputsIn, AllHaveWindows, T.InputsDisjoint, T.OutputsClear, W.ValidBus;
    RecordIsValid(grp, hasdc, clockSlave, s, group, grp.logstartaddr);
    TablesGiveWindows(s, group, grp.logstartaddr, ws);
    WindowsFit(Record(grp, hasdc, clockSlave), s, group, grp.logstartaddr, ws);
    WindowsApart(s, group, grp.logstartaddr, ws);
  }

  /** A slave has one programmed FMMU in a direction in which it has bytes, and none in any other. */
  ghost predicate CountsOnce(s: seq<Slave>, group: nat, base: nat, d: Direction, k: nat)
    requires WellFormedList(s) && 1 <= k < |s|
  {
    Takes(s[k], group, d) ==>
      ActiveCount(Fmmus(DataOf(s[k], d), 8 * Slot(s, group, base, k))) == if SlotLength(s, group, base, d, k) > 0
        then 1 else 0
  }

  ghost predicate AllCountOnce(s: seq<Slave>, group: nat, base: nat, d: Direction, k: nat)
    requires WellFormedList(s) && 1 <= k <= |s|
  {
    forall j {:trigger CountsOnce(s, group, base, d, j)} :: 1 <= j < k ==> CountsOnce(s, group, base, d, j)
  }

  lemma {:induction false} ActiveIfData(s: seq<Slave>, group: nat, base: nat, d: Direction, k: nat)
    requires WellFormedList(s) && 1 <= k < |s| && Takes(s[k], group, d) && SlotLength(s, group, base, d, k) > 0
    ensures ActiveCount(Fmmus(DataOf(s[k], d), 8 * Slot(s, group, base, k))) >= 1
  {
    hide Slot, Fill, Filled;
    var m := Slot(s, group, base, k);
    assert (8 * m + 7) / 8 == m;
    if Bits(s[k], d) > 7 {
      M.SomeActive(DataOf(s[k], d), 0, 0, 0, m);
    }
  }

  /** The mapper never counts less than the bus does, and exactly as much if every slave counts once. */
  lemma {:induction false} CountsCompare(s: seq<Slave>, group: nat, base: nat, ws: seq<W.Slave>, d: Direction, k: nat)
    requires WellFormedList(s) && AllHaveWindows(ws, s, group, base) && 1 <= k <= |s|
    ensures SlotIncrements(s, group, base, d, k) >= M.BusCount(ws, d, k)
    ensures SlotIncrements(s, group, base, d, k) == M.BusCount(ws, d, k) <==> AllCountOnce(s, group, base, d, k)
  {
    hide Slot, SlotLength, Fmmus, ActiveCount;
    if k > 1 {
      CountsCompare(s, group, base, ws, d, k - 1);
      assert HasWindows(ws[k - 2], s, group, base, k - 1);
      NoWindow(s, group, base, d, k - 1);
      if Takes(s[k - 1], group, d) && SlotLength(s, group, base, d, k - 1) > 0 {
        ActiveIfData(s, group, base, d, k - 1);
      }
      if AllCountOnce(s, group, base, d, k) {
        assert CountsOnce(s, group, base, d, k - 1);
      }
    }
  }

  lemma {:induction false} NoWindow(s: seq<Slave>, group: nat, base: nat, d: Direction, k: nat)
    requires WellFormedList(s) && 1 <= k < |s|
    ensures !Takes(s[k], group, d) ==> SlotLength(s, group, base, d, k) == 0
  {
  }

  /** All slaves of a mapped group have one programmed FMMU per direction. */
  ghost predicate OneFmmuEach(grp: Group, s: seq<Slave>, group: nat, ws: seq<W.Slave>)
    requires Mapping(grp, s, group, ws)
    reads grp, grp.IOsegment
  {
    AllCountOnce(s, group, grp.logstartaddr, Outputs, |s|) && AllCountOnce(s, group, grp.logstartaddr, Inputs, |s|)
  }

  /** The working counter that the application expects, as for an image that is not overlapped. */
  lemma {:induction false} ExpectedCounterIsRight(grp: Group, s: seq<Slave>, group: nat, ws: seq<W.Slave>)
    requires Mapping(grp, s, group, ws)
    ensures grp.outputsWKC * 2 + grp.inputsWKC >= 2 * W.OutputCount(ws, |ws|) + W.InputCount(ws, |ws|)
    ensures grp.outputsWKC * 2 + grp.inputsWKC == 2 * W.OutputCount(ws, |ws|) + W.InputCount(ws, |ws|)
            <==> OneFmmuEach(grp, s, group, ws)
  {
    hide SlotIncrements, AllCountOnce, Slots, EndInSlot, Segments.CutOf;
    TablesGiveWindows(s, group, grp.logstartaddr, ws);
    CountsCompare(s, group, grp.logstartaddr, ws, Outputs, |s|);
    CountsCompare(s, group, grp.logstartaddr, ws, Inputs, |s|);
  }

  /** One cycle of an overlapping image with LRW. The working counter never exceeds the one that the
      application expects. If it is the expected one, every slave has taken its outputs and its inputs have
      arrived behind the outputs, whatever frames may be lost. Without losses, the replies take as many bytes
      behind the outputs as the larger direction has; that is more than the size that the mapper returns
      exactly if there are more outputs than inputs. */
  method Cycle(grp: Group, hasdc: bool, clockSlave: word, m: P.Master, bus: P.Bus, ghost s: seq<Slave>,
               ghost group: nat)
      returns (wkc: int, ghost frames: seq<W.Datagram>)
    requires Mapping(grp, s, group, bus.slaves) && grp.nsegments <= grp.IOsegment.Length && grp.nsegments <= P.MAXBUF
    requires m.Valid() && m.pushed == m.pulled == 0 && m.rx == map[] && m.sent == [] && (hasdc ==> bus.arrives(0))
    requires grp.blockLRW == 0 && 0 < Max(grp.Obytes, grp.Ibytes)
             && grp.Obytes + Max(grp.Obytes, grp.Ibytes) <= m.iomap.Length
    modifies m, m.idx, m.data, m.length, m.iomap
    ensures wkc <= grp.outputsWKC * 2 + grp.inputsWKC
    ensures wkc == grp.outputsWKC * 2 + grp.inputsWKC ==>
              && old(OneFmmuEach(grp, s, group, bus.slaves))
              && X.OutputsDelivered(old(Record(grp, hasdc, clockSlave)), bus.slaves, L.CameBack(frames, |frames|, bus),
                                    old(m.iomap[..]))
              && X.InputsDelivered(old(Record(grp, hasdc, clockSlave)), bus.slaves, m.iomap[..])
    ensures P.NoneLost(bus, |frames|) ==>
              && (wkc == grp.outputsWKC * 2 + grp.inputsWKC <==> old(OneFmmuEach(grp, s, group, bus.slaves)))
              && X.ReadBehind(old(Record(grp, hasdc, clockSlave)), bus.slaves, Max(grp.Obytes, grp.Ibytes),
                              old(m.iomap[..]),
                              m.iomap[..])
  {
    hide Mapping, X.ValidOverlap, X.OverlapLayout, X.InputsDelivered, X.OutputsDelivered, X.ReadBehind, OneFmmuEach,
         L.LostUnseen, P.SomeArrives, L.CameBack, P.NoneLost;
    MapperGivesLayout(grp, hasdc, clockSlave, s, group, bus.slaves);
    ExpectedCounterIsRight(grp, s, group, bus.slaves);
    ghost var n, ins;
    wkc, frames, n, ins := X.Exchange(m, Record(grp, hasdc, clockSlave), bus);
  }
}
