/** The image that the mapper builds is one that the exchange can handle, and the working counter that
    the mapper predicts is the one that comes back. */
module MappedExchange {
  import opened Memory
  import opened FmmuMapping
  import Numbers
  import opened ProcessImage
  import opened ImageLayout
  import opened MapGroup
  import opened ImageProperties
  import opened FmmuWindows
  import B = Bits
  import Segments
  import W = Wire
  import P = ProcessData
  import T = Transfers
  import L = LostFrames
  import X = ExchangeRefinement

  /** All slaves that take part have whole bytes. */
  ghost predicate ByteOriented(s: seq<Slave>, group: nat) {
    forall k, d {:trigger Takes(s[k], group, d)} :: 1 <= k < |s| && Takes(s[k], group, d) ==> Bits(s[k], d) > 7
  }

  /** The window of slave `k` in one direction, in bits; its length is 0 if it takes no part. */
  ghost function WindowStart(s: seq<Slave>, group: nat, base: nat, d: Direction, k: nat): nat
    requires WellFormedList(s) && 1 <= k < |s|
  {
    From(s, group, d, StartOf(s, group, base, d), k)
  }

  ghost function WindowLength(s: seq<Slave>, group: nat, base: nat, d: Direction, k: nat): nat
    requires WellFormedList(s) && 1 <= k < |s|
  {
    if Takes(s[k], group, d) then
      IntervalInImage(s, group, d, StartOf(s, group, base, d), k);
      To(s, group, d, StartOf(s, group, base, d), k) - WindowStart(s, group, base, d, k)
    else 0
  }

  /** No segment ends within the bits from `from` to `to` of an image. */
  ghost predicate Uncut(segments: seq<nat>, from: int, to: int) {
    forall j {:trigger segments[..j]} :: 0 <= j <= |segments| ==> !(from < 8 * Segments.Total(segments[..j]) < to)
  }

  /** No segment ends within the data of a slave. */
  ghost predicate AllUncut(s: seq<Slave>, group: nat, base: nat)
    requires WellFormedList(s)
  {
    var segments := Segments.AllSegments(Segments.CutOf(ImageBlocks(s, group, base)));
    forall k, d {:trigger Takes(s[k], group, d)} :: 1 <= k < |s| && Takes(s[k], group, d) ==>
      var from := WindowStart(s, group, base, d, k) - 8 * base;
      Uncut(segments, from, from + WindowLength(s, group, base, d, k))
  }

  /** An interval that is not cut lies in one segment. */
  lemma {:induction false} UncutIsHeld(segments: seq<nat>, from: int, to: int) returns (j: nat)
    requires Uncut(segments, from, to) && 0 <= from < to <= 8 * Segments.Total(segments)
    ensures j < |segments| && 8 * Segments.Total(segments[..j]) <= from && to <= 8 * Segments.Total(segments[..j + 1])
  {
    var last := |segments| - 1;
    assert segments[..|segments|] == segments;
    if segments == [] {
      assert false;
    }
    if from >= 8 * Segments.Total(segments[..last]) {
      j := last;
    } else {
      var init := segments[..last];
      forall i {:trigger init[..i]} | 0 <= i <= |init| ensures !(from < 8 * Segments.Total(init[..i]) < to) {
        assert init[..i] == segments[..i];
      }
      assert !(from < 8 * Segments.Total(segments[..last]) < to);
      j := UncutIsHeld(init, from, to);
      assert init[..j] == segments[..j] && init[..j + 1] == segments[..j + 1];
    }
  }

  /** An interval in one segment is not cut. */
  lemma {:induction false} HeldIsUncut(segments: seq<nat>, j: nat, from: int, to: int)
    requires j < |segments| && 8 * Segments.Total(segments[..j]) <= from
             && to <= 8 * Segments.Total(segments[..j + 1])
    ensures Uncut(segments, from, to)
  {
    hide Segments.Total;
    forall i {:trigger segments[..i]} | 0 <= i <= |segments| ensures !(from < 8 * Segments.Total(segments[..i]) < to) {
      if i <= j {
        Segments.TotalOfPrefix(segments, i, j);
      } else {
        Segments.TotalOfPrefix(segments, j + 1, i);
      }
    }
  }

  /** Slaves with whole bytes are never cut. */
  lemma {:induction false} BytesAreUncut(s: seq<Slave>, group: nat, base: nat)
    requires WellFormedList(s) && ByteOriented(s, group)
    ensures AllUncut(s, group, base)
  {
    hide From, To, EndOf, StartOf, ImageBlocks, Segments.CutOf, Segments.AllSegments, Segments.Total, Uncut;
    forall k, d {:trigger Takes(s[k], group, d)} | 1 <= k < |s| && Takes(s[k], group, d)
      ensures var from := WindowStart(s, group, base, d, k) - 8 * base;
              Uncut(Segments.AllSegments(Segments.CutOf(ImageBlocks(s, group, base))), from,
                    from + WindowLength(s, group, base, d, k))
    {
      var j := ByteSlaveInOneSegment(s, group, base, d, k);
      IntervalInImage(s, group, d, StartOf(s, group, base, d), k);
      IntervalIsExact(s, group, d, StartOf(s, group, base, d), k);
      var from := WindowStart(s, group, base, d, k) - 8 * base;
      HeldIsUncut(Segments.AllSegments(Segments.CutOf(ImageBlocks(s, group, base))), j, from,
                  from + WindowLength(s, group, base, d, k));
    }
  }

  /** Slave `k` has the windows that the mapper has laid out for it. */
  ghost predicate HasWindows(w: W.Slave, s: seq<Slave>, group: nat, base: nat, k: nat)
    requires WellFormedList(s) && 1 <= k < |s|
  {
    && w.outLen == WindowLength(s, group, base, Outputs, k)
    && (w.outLen > 0 ==> w.outStart == WindowStart(s, group, base, Outputs, k))
    && |w.input| == w.inLen == WindowLength(s, group, base, Inputs, k)
    && (w.inLen > 0 ==> w.inStart == WindowStart(s, group, base, Inputs, k))
  }

  ghost predicate AllHaveWindows(ws: seq<W.Slave>, s: seq<Slave>, group: nat, base: nat)
    requires WellFormedList(s)
  {
    |ws| == |s| - 1 && forall j {:trigger ws[j]} :: 0 <= j < |ws| ==> HasWindows(ws[j], s, group, base, j + 1)
  }

  /** What the FMMU table of slave `k` maps after one direction of the whole list has been mapped. */
  lemma {:induction false} PlacedMaps(s: seq<Slave>, group: nat, d: Direction, start: nat, base: nat, k: nat,
                                      fmmutype: nat, x: nat)
    requires CanMapAll(s, group, d, start) && 1 <= k < |s| && Spare(s[k].fmmu, s[k].fmmuUnused)
    ensures var t := AllMapped(s, group, d, start, base)[k];
            && Spare(t.fmmu, t.fmmuUnused)
            && (MapsBit(t.fmmu, fmmutype, x) <==>
                MapsBit(s[k].fmmu, fmmutype, x)
                || (fmmutype == TypeFor(d) && Takes(s[k], group, d)
                    && From(s, group, d, start, k) <= x < To(s, group, d, start, k)))
  {
    hide MapsBit, Mapped, Spare, Cursor, Start, End, DataOf;
    assert AllMapped(s, group, d, start, base)[k] == Placed(s, group, d, start, base, k);
    if Takes(s[k], group, d) {
      MappedMaps(s[k], d, Cursor(s, group, d, start, k), group, base, fmmutype, x);
      CursorSteps(s, group, d, start, k);
    }
  }

  /** A slave of the group maps for writing what lies in its output window, and for reading what lies in its
      input window. */
  lemma {:induction false} TableMaps(s: seq<Slave>, group: nat, base: nat, k: nat, d: Direction, x: nat)
    requires CanMapGroup(s, group, base) && WellFormedList(s) && 1 <= k < |s| && Spare(s[k].fmmu, 0)
    ensures MapsBit(FullyMapped(s, group, base)[k].fmmu, TypeFor(d), x) <==>
            W.Covers(WindowStart(s, group, base, d, k), WindowLength(s, group, base, d, k), x)
  {
    hide MapsBit, From, To, EndOf, AllMapped, CanMapAll, CanMapGroup, Spare;
    CanMapParts(s, group, base);
    IdleMaps(s[k].fmmu, s[k].fmmuUnused, TypeFor(d), x);
    var t, middle := AllMapped(s, group, Outputs, 8 * base, base), Middle(s, group, base);
    PlacedMaps(s, group, Outputs, 8 * base, base, k, TypeFor(d), x);
    PlacedMaps(t, group, Inputs, middle, base, k, TypeFor(d), x);
    MappingKeepsData(s, group, Outputs, 8 * base, base);
    SameInterval(s, t, group, Inputs, middle, k);
    assert FullyMapped(s, group, base)[k] == AllMapped(t, group, Inputs, middle, base)[k];
    if Takes(s[k], group, d) {
      IntervalInImage(s, group, d, StartOf(s, group, base, d), k);
    }
  }

  lemma {:induction false} SameInterval(s: seq<Slave>, t: seq<Slave>, group: nat, d: Direction, start: nat, k: nat)
    requires WellFormedList(s) && WellFormedList(t) && SameData(s, t) && 1 <= k < |s|
    ensures From(s, group, d, start, k) == From(t, group, d, start, k)
    ensures To(s, group, d, start, k) == To(t, group, d, start, k)
    ensures Takes(s[k], group, d) == Takes(t[k], group, d)
  {
    hide Cursor, Start;
    SameLayout(s, t, group, d, start, k);
    SameLayout(s, t, group, d, start, k + 1);
  }

  /** The slaves of the list that the mapper leaves behind have on the bus the windows of the layout. */
  lemma {:induction false} TablesGiveWindows(s: seq<Slave>, group: nat, base: nat, ws: seq<W.Slave>)
    requires CanMapGroup(s, group, base) && WellFormedList(s) && Idle(s, group)
    requires AllOnBus(ws, FullyMapped(s, group, base), group)
    ensures AllHaveWindows(ws, s, group, base)
  {
    hide WindowStart, WindowLength, Spare, MapsBit;
    var t := FullyMapped(s, group, base);
    forall j | 0 <= j < |ws| ensures HasWindows(ws[j], s, group, base, j + 1) {
      assert OnBus(ws[j], t[j + 1], group);
      SameGroup(s, group, base, j + 1);
      if InGroup(s[j + 1], group) {
        OneWindow(s, group, base, ws[j], j + 1);
      } else {
        NoWindow(s, group, base, Outputs, j + 1);
        NoWindow(s, group, base, Inputs, j + 1);
      }
    }
  }

  lemma {:induction false} SameGroup(s: seq<Slave>, group: nat, base: nat, k: nat)
    requires CanMapGroup(s, group, base) && 1 <= k < |s|
    ensures FullyMapped(s, group, base)[k].group == s[k].group
  {
    hide CanMapAll, AllMapped, EndOf;
    CanMapParts(s, group, base);
    MappingKeepsData(s, group, Outputs, 8 * base, base);
    MappingKeepsData(AllMapped(s, group, Outputs, 8 * base, base), group, Inputs, EndOf(s, group, Outputs, 8 * base),
                     base);
  }

  lemma {:induction false} OneWindow(s: seq<Slave>, group: nat, base: nat, w: W.Slave, k: nat)
    requires CanMapGroup(s, group, base) && WellFormedList(s) && 1 <= k < |s| && Spare(s[k].fmmu, 0)
    requires Follows(w, FullyMapped(s, group, base)[k].fmmu)
    ensures HasWindows(w, s, group, base, k)
  {
    hide WindowStart, WindowLength, MapsBit;
    var table := FullyMapped(s, group, base)[k].fmmu;
    var o, i := WindowStart(s, group, base, Outputs, k), WindowStart(s, group, base, Inputs, k);
    forall x: nat ensures MapsBit(table, WRITE_TYPE, x) <==> W.Covers(o, WindowLength(s, group, base, Outputs, k), x) {
      TableMaps(s, group, base, k, Outputs, x);
    }
    forall x: nat ensures MapsBit(table, READ_TYPE, x) <==> W.Covers(i, WindowLength(s, group, base, Inputs, k), x) {
      TableMaps(s, group, base, k, Inputs, x);
    }
    SameWindow(w.outStart, w.outLen, o, o + WindowLength(s, group, base, Outputs, k));
    SameWindow(w.inStart, w.inLen, i, i + WindowLength(s, group, base, Inputs, k));
  }

  /** The group record as the exchange reads it. */
  function Record(grp: Group, hasdc: bool, clockSlave: word): P.Group
    requires grp.nsegments <= grp.IOsegment.Length
    reads grp, grp.IOsegment
  {
    P.Group(grp.logstartaddr, grp.Obytes, grp.Ibytes, grp.blockLRW, hasdc, clockSlave,
            grp.nsegments, grp.Isegment, grp.Ioffset, grp.IOsegment[..grp.nsegments], false)
  }

  lemma {:induction false} RecordIsValid(grp: Group, hasdc: bool, clockSlave: word, s: seq<Slave>, group: nat,
                                         base: nat)
    requires CanMapGroup(s, group, base) && Describes(grp, s, group, base) && WellFormedList(s)
    requires |Segments.CutOf(ImageBlocks(s, group, base)).closed| < Segments.MAX_IOSEGMENTS
    ensures P.ValidGroup(Record(grp, hasdc, clockSlave))
    ensures Record(grp, hasdc, clockSlave).iosegment
            == Segments.AllSegments(Segments.CutOf(ImageBlocks(s, group, base)))
  {
    hide CanMapGroup, ImageBlocks, Segments.CutOf, Segments.Total;
    SegmentsOfGroup(grp, s, group, base);
    var g := Record(grp, hasdc, clockSlave);
    assert g.iosegment[..g.nsegments] == g.iosegment;
    assert g.iosegment[..g.isegment] == grp.IOsegment[..grp.Isegment];
    assert g.iosegment[g.isegment] == grp.IOsegment[grp.Isegment];
    DescribesSegments(grp, s, group, base);
  }

  lemma {:induction false} DescribesSegments(grp: Group, s: seq<Slave>, group: nat, base: nat)
    requires CanMapGroup(s, group, base) && Describes(grp, s, group, base)
    ensures 0 < grp.nsegments <= grp.IOsegment.Length
  {
  }

  /** The window of a slave lies in its part of the image ... */
  lemma {:induction false} WindowInPart(s: seq<Slave>, group: nat, base: nat, d: Direction, k: nat)
    requires WellFormedList(s) && 1 <= k < |s| && Takes(s[k], group, d)
    ensures var first := WindowStart(s, group, base, d, k); var start := StartOf(s, group, base, d);
            start <= first && first + WindowLength(s, group, base, d, k) <= EndOf(s, group, d, start)
  {
    hide From, To, EndOf, StartOf;
    IntervalInImage(s, group, d, StartOf(s, group, base, d), k);
  }

  lemma {:induction false} WindowFits(g: P.Group, s: seq<Slave>, group: nat, base: nat, d: Direction, k: nat)
    requires WellFormedList(s) && 1 <= k < |s| && AllUncut(s, group, base)
    requires g.logstartaddr == base && g.iosegment == Segments.AllSegments(Segments.CutOf(ImageBlocks(s, group, base)))
    requires Segments.Total(g.iosegment) == g.obytes + g.ibytes
    requires 8 * (base + g.obytes) == Middle(s, group, base)
    requires 8 * (base + g.obytes + g.ibytes) == EndOf(s, group, Inputs, Middle(s, group, base))
    ensures T.WindowIn(g, WindowStart(s, group, base, d, k), WindowLength(s, group, base, d, k),
                       if d.Outputs? then 0 else g.obytes, if d.Outputs? then g.obytes else g.obytes + g.ibytes)
  {
    hide WindowStart, WindowLength, EndOf, ImageBlocks, Segments.CutOf, Segments.AllSegments, Segments.Total, Uncut;
    if Takes(s[k], group, d) && WindowLength(s, group, base, d, k) > 0 {
      WindowInPart(s, group, base, d, k);
      MiddleIsEnd(s, group, base);
      var from := WindowStart(s, group, base, d, k) - 8 * base;
      var j := UncutIsHeld(g.iosegment, from, from + WindowLength(s, group, base, d, k));
      assert T.SegmentHolds(g, j, from, WindowLength(s, group, base, d, k));
    } else {
      NoWindow(s, group, base, d, k);
    }
  }

  lemma {:induction false} MiddleIsEnd(s: seq<Slave>, group: nat, base: nat)
    requires WellFormedList(s)
    ensures Middle(s, group, base) == EndOf(s, group, Outputs, StartOf(s, group, base, Outputs))
    ensures StartOf(s, group, base, Inputs) == Middle(s, group, base)
    ensures StartOf(s, group, base, Outputs) == 8 * base
  {
    hide EndOf;
  }

  /** All slaves as the bus sees them fit the image of the group. */
  lemma {:induction false} WindowsFit(g: P.Group, s: seq<Slave>, group: nat, base: nat, ws: seq<W.Slave>, j: nat)
    requires WellFormedList(s) && AllUncut(s, group, base) && AllHaveWindows(ws, s, group, base) && j < |ws|
    requires g.logstartaddr == base && g.iosegment == Segments.AllSegments(Segments.CutOf(ImageBlocks(s, group, base)))
    requires Segments.Total(g.iosegment) == g.obytes + g.ibytes
    requires 8 * (base + g.obytes) == Middle(s, group, base)
    requires 8 * (base + g.obytes + g.ibytes) == EndOf(s, group, Inputs, Middle(s, group, base))
    ensures T.WindowIn(g, ws[j].outStart, ws[j].outLen, 0, g.obytes)
    ensures T.WindowIn(g, ws[j].inStart, ws[j].inLen, g.obytes, g.obytes + g.ibytes)
  {
    hide ImageBlocks, T.InOneSegment, WindowStart, WindowLength, AllUncut, EndOf, Segments.CutOf, Segments.AllSegments;
    assert HasWindows(ws[j], s, group, base, j + 1);
    WindowFits(g, s, group, base, Outputs, j + 1);
    WindowFits(g, s, group, base, Inputs, j + 1);
  }

  lemma {:induction false} InputsApart(s: seq<Slave>, group: nat, base: nat, ws: seq<W.Slave>, i: nat, j: nat)
    requires WellFormedList(s) && AllHaveWindows(ws, s, group, base) && i < j < |ws| && ws[i].inLen > 0
             && ws[j].inLen > 0
    ensures ws[i].inStart + ws[i].inLen <= ws[j].inStart
  {
    hide WindowStart, WindowLength;
    assert HasWindows(ws[i], s, group, base, i + 1) && HasWindows(ws[j], s, group, base, j + 1);
    InputsInOrder(s, group, base, i + 1, j + 1);
  }

  lemma {:induction false} BusIsValid(s: seq<Slave>, group: nat, base: nat, ws: seq<W.Slave>)
    requires WellFormedList(s) && AllHaveWindows(ws, s, group, base)
    ensures W.ValidBus(ws)
  {
    hide WindowStart, WindowLength;
    forall j | 0 <= j < |ws| ensures |ws[j].input| == ws[j].inLen {
      assert HasWindows(ws[j], s, group, base, j + 1);
    }
  }

  /** The image of a group is laid out as the exchange needs it, if no slave is cut by a segment. */
  lemma {:induction false} MapperGivesLayout(grp: Group, hasdc: bool, clockSlave: word, s: seq<Slave>, group: nat,
                                             base: nat, ws: seq<W.Slave>)
    requires CanMapGroup(s, group, base) && Describes(grp, s, group, base) && WellFormedList(s)
    requires |Segments.CutOf(ImageBlocks(s, group, base)).closed| < Segments.MAX_IOSEGMENTS
    requires grp.logstartaddr == base && AllUncut(s, group, base) && AllHaveWindows(ws, s, group, base)
    ensures P.ValidGroup(Record(grp, hasdc, clockSlave)) && X.Layout(Record(grp, hasdc, clockSlave), ws)
  {
    hide CanMapGroup, Describes, WellFormedList, AllHaveWindows, ImageBlocks, Middle, EndOf, Segments.CutOf,
         Segments.AllSegments, T.WindowIn, AllUncut, P.ValidGroup, W.ValidBus, Segments.Total;
    DescribesSegments(grp, s, group, base);
    var g := Record(grp, hasdc, clockSlave);
    RecordIsValid(grp, hasdc, clockSlave, s, group, base);
    ImageBounds(grp, s, group, base);
    WholeImage(g);
    BusIsValid(s, group, base, ws);
    forall j {:trigger ws[j]} | 0 <= j < |ws|
      ensures T.WindowIn(g, ws[j].outStart, ws[j].outLen, 0, g.obytes)
      ensures T.WindowIn(g, ws[j].inStart, ws[j].inLen, g.obytes, g.obytes + g.ibytes)
    {
      WindowsFit(g, s, group, base, ws, j);
    }
    forall i, j | 0 <= i < j < |ws| ensures T.Apart(ws[i].inStart, ws[i].inLen, ws[j].inStart, ws[j].inLen) {
      if ws[i].inLen > 0 && ws[j].inLen > 0 {
        InputsApart(s, group, base, ws, i, j);
      }
    }
  }

  lemma {:induction false} WholeImage(g: P.Group)
    requires P.ValidGroup(g) && |g.iosegment| == g.nsegments
    ensures Segments.Total(g.iosegment) == g.obytes + g.ibytes
  {
    assert g.iosegment[..g.nsegments] == g.iosegment;
  }

  lemma {:induction false} ImageBounds(grp: Group, s: seq<Slave>, group: nat, base: nat)
    requires CanMapGroup(s, group, base) && Describes(grp, s, group, base) && WellFormedList(s)
    ensures 8 * (base + grp.Obytes) == Middle(s, group, base)
    ensures 8 * (base + grp.Obytes + grp.Ibytes) == EndOf(s, group, Inputs, Middle(s, group, base))
  {
    hide CanMapGroup, EndOf, AllMapped;
    SameBlocks(s, group, base);
  }

  lemma {:induction false} InputsInOrder(s: seq<Slave>, group: nat, base: nat, j: nat, k: nat)
    requires WellFormedList(s) && 1 <= j < k < |s|
    requires WindowLength(s, group, base, Inputs, j) > 0 && WindowLength(s, group, base, Inputs, k) > 0
    ensures WindowStart(s, group, base, Inputs, j) + WindowLength(s, group, base, Inputs, j)
            <= WindowStart(s, group, base, Inputs, k)
  {
    hide From, To, Middle;
    IntervalsAreOrdered(s, group, Inputs, Middle(s, group, base), j, k);
  }

  /** A slave has one programmed FMMU in a direction in which it has bytes of the image, and none in any
      other. */
  ghost predicate CountsOnce(s: seq<Slave>, group: nat, base: nat, d: Direction, k: nat)
    requires WellFormedList(s) && 1 <= k < |s|
  {
    Takes(s[k], group, d) ==>
      ActiveCount(Fmmus(DataOf(s[k], d), Cursor(s, group, d, StartOf(s, group, base, d), k)))
      == if WindowLength(s, group, base, d, k) > 0 then 1 else 0
  }

  ghost predicate AllCountOnce(s: seq<Slave>, group: nat, base: nat, d: Direction, k: nat)
    requires WellFormedList(s) && 1 <= k <= |s|
  {
    forall j {:trigger CountsOnce(s, group, base, d, j)} :: 1 <= j < k ==> CountsOnce(s, group, base, d, j)
  }

  /** The increments that the slaves before `k` cause on the bus. */
  function BusCount(ws: seq<W.Slave>, d: Direction, k: nat): nat
    requires 1 <= k <= |ws| + 1
  {
    if d.Outputs? then W.OutputCount(ws, k - 1) else W.InputCount(ws, k - 1)
  }

  /** An area of which some bytes are mapped has a programmed FMMU. */
  lemma {:induction false} SomeActive(a: Area, c: nat, count: nat, done: nat, logAddr: nat)
    requires a.Valid() && c < MAX_SM && done <= a.bytes
    ensures Filled(a, c, count, done) > done ==> ActiveCount(Fill(a, c, count, done, logAddr)) >= 1
    decreases MAX_SM - c, a.bytes - done
  {
    hide Pass, NextSm;
    if c < MAX_SM - 1 && done < a.bytes {
      var (next, n) := Pass(a, c, count);
      var size := Numbers.Min(n, a.bytes - done);
      FillFirst(a, c, count, done, logAddr);
      SomeActive(a, next, n, done + size, logAddr + size);
    }
  }

  /** A slave with data in the image has a programmed FMMU. */
  lemma {:induction false} ActiveIfData(s: seq<Slave>, group: nat, base: nat, d: Direction, k: nat)
    requires WellFormedList(s) && 1 <= k < |s| && Takes(s[k], group, d) && WindowLength(s, group, base, d, k) > 0
    ensures ActiveCount(Fmmus(DataOf(s[k], d), Cursor(s, group, d, StartOf(s, group, base, d), k))) >= 1
  {
    hide Cursor, StartOf, Fill, Filled;
    var a, cursor := DataOf(s[k], d), Cursor(s, group, d, StartOf(s, group, base, d), k);
    if Bits(s[k], d) > 7 {
      SomeActive(a, 0, 0, 0, (cursor + 7) / 8);
      CursorSteps(s, group, d, StartOf(s, group, base, d), k);
    }
  }

  lemma {:induction false} CursorSteps(s: seq<Slave>, group: nat, d: Direction, start: nat, k: nat)
    requires WellFormedList(s) && 1 <= k < |s| && Takes(s[k], group, d)
    ensures Cursor(s, group, d, start, k + 1) == End(DataOf(s[k], d), Cursor(s, group, d, start, k))
  {
    hide End, DataOf;
  }

  /** The mapper never counts less than the bus does, and exactly as much if every slave counts once. */
  lemma {:induction false} CountsCompare(s: seq<Slave>, group: nat, base: nat, ws: seq<W.Slave>, d: Direction, k: nat)
    requires WellFormedList(s) && AllHaveWindows(ws, s, group, base) && 1 <= k <= |s|
    ensures Increments(s, group, d, StartOf(s, group, base, d), k) >= BusCount(ws, d, k)
    ensures Increments(s, group, d, StartOf(s, group, base, d), k) == BusCount(ws, d, k) <==>
              AllCountOnce(s, group, base, d, k)
  {
    hide WindowStart, WindowLength, Fmmus, ActiveCount, Cursor, StartOf;
    if k > 1 {
      CountsCompare(s, group, base, ws, d, k - 1);
      assert HasWindows(ws[k - 2], s, group, base, k - 1);
      if Takes(s[k - 1], group, d) && WindowLength(s, group, base, d, k - 1) > 0 {
        ActiveIfData(s, group, base, d, k - 1);
      }
      NoWindow(s, group, base, d, k - 1);
      if AllCountOnce(s, group, base, d, k) {
        assert CountsOnce(s, group, base, d, k - 1);
      }
    }
  }

  lemma {:induction false} NoWindow(s: seq<Slave>, group: nat, base: nat, d: Direction, k: nat)
    requires WellFormedList(s) && 1 <= k < |s|
    ensures !Takes(s[k], group, d) ==> WindowLength(s, group, base, d, k) == 0
  {
  }

  /** The working counter that the application expects, twice the output increments plus the input
      increments counted by the mapper, is never less than that of an undisturbed cycle, and equal to it
      exactly if every slave has one programmed FMMU per direction. */
  lemma {:induction false} ExpectedCounterIsRight(grp: Group, s: seq<Slave>, group: nat, base: nat, ws: seq<W.Slave>)
    requires CanMapGroup(s, group, base) && Describes(grp, s, group, base) && WellFormedList(s)
    requires AllHaveWindows(ws, s, group, base)
    ensures grp.outputsWKC * 2 + grp.inputsWKC >= 2 * W.OutputCount(ws, |ws|) + W.InputCount(ws, |ws|)
    ensures grp.outputsWKC * 2 + grp.inputsWKC == 2 * W.OutputCount(ws, |ws|) + W.InputCount(ws, |ws|)
            <==> AllCountOnce(s, group, base, Outputs, |s|) && AllCountOnce(s, group, base, Inputs, |s|)
  {
    hide CanMapGroup, Increments, AllMapped, AllCountOnce;
    SameBlocks(s, group, base);
    CountsCompare(s, group, base, ws, Outputs, |s|);
    CountsCompare(s, group, base, ws, Inputs, |s|);
  }

  /** The mapping of a group, as the exchange relies on it: made by the mapper in at most 64 segments, none of
      which ends within the data of a slave. No FMMU was in use before, and on the bus every slave follows the
      FMMUs of the list that the mapper leaves behind. */
  ghost predicate Mapping(grp: Group, s: seq<Slave>, group: nat, ws: seq<W.Slave>)
    reads grp, grp.IOsegment
  {
    var base := grp.logstartaddr;
    && CanMapGroup(s, group, base) && Describes(grp, s, group, base) && WellFormedList(s)
    && |Segments.CutOf(ImageBlocks(s, group, base)).closed| < Segments.MAX_IOSEGMENTS
    && AllUncut(s, group, base)
    && Idle(s, group) && AllOnBus(ws, FullyMapped(s, group, base), group)
  }

  /** All slaves of a mapped group have one programmed FMMU per direction. */
  ghost predicate OneFmmuEach(grp: Group, s: seq<Slave>, group: nat, ws: seq<W.Slave>)
    requires Mapping(grp, s, group, ws)
    reads grp, grp.IOsegment
  {
    AllCountOnce(s, group, grp.logstartaddr, Outputs, |s|) && AllCountOnce(s, group, grp.logstartaddr, Inputs, |s|)
  }

  lemma {:induction false} MappingIsUsable(grp: Group, hasdc: bool, clockSlave: word, s: seq<Slave>, group: nat,
                                           ws: seq<W.Slave>)
    requires Mapping(grp, s, group, ws)
    ensures 0 < grp.nsegments <= grp.IOsegment.Length
    ensures P.ValidGroup(Record(grp, hasdc, clockSlave)) && X.Layout(Record(grp, hasdc, clockSlave), ws)
    ensures grp.outputsWKC * 2 + grp.inputsWKC >= 2 * W.OutputCount(ws, |ws|) + W.InputCount(ws, |ws|)
    ensures grp.outputsWKC * 2 + grp.inputsWKC == 2 * W.OutputCount(ws, |ws|) + W.InputCount(ws, |ws|)
            <==> OneFmmuEach(grp, s, group, ws)
  {
    hide CanMapGroup, Describes, WellFormedList, ImageBlocks, Segments.CutOf, AllUncut, AllHaveWindows, AllCountOnce,
         P.ValidGroup, X.Layout, Record;
    DescribesSegments(grp, s, group, grp.logstartaddr);
    TablesGiveWindows(s, group, grp.logstartaddr, ws);
    MapperGivesLayout(grp, hasdc, clockSlave, s, group, grp.logstartaddr, ws);
    ExpectedCounterIsRight(grp, s, group, grp.logstartaddr, ws);
  }

  /** Byte-oriented slaves leave the cursor at whole bytes. */
  lemma {:induction false} CursorIsWhole(s: seq<Slave>, group: nat, d: Direction, start: nat, k: nat)
    requires WellFormedList(s) && ByteOriented(s, group) && start % 8 == 0 && 1 <= k <= |s|
    ensures Cursor(s, group, d, start, k) % 8 == 0
  {
    hide End, DataOf;
    if k > 1 {
      CursorIsWhole(s, group, d, start, k - 1);
      if Takes(s[k - 1], group, d) {
        IntervalIsExact(s, group, d, start, k - 1);
      }
    }
  }

  /** The input window of slave `k` covers bit `x`. */
  ghost predicate HasInput(s: seq<Slave>, group: nat, base: nat, k: nat, x: nat)
    requires WellFormedList(s) && 1 <= k < |s|
  {
    W.Covers(WindowStart(s, group, base, Inputs, k), WindowLength(s, group, base, Inputs, k), x)
  }

  /** The input windows of the slaves before `k` leave no bit out, if all slaves have whole bytes. */
  lemma {:induction false} InputsTile(s: seq<Slave>, group: nat, base: nat, k: nat, x: nat) returns (j: nat)
    requires WellFormedList(s) && ByteOriented(s, group) && 1 <= k <= |s|
    requires Middle(s, group, base) <= x < Cursor(s, group, Inputs, Middle(s, group, base), k)
    ensures 1 <= j < k && HasInput(s, group, base, j, x)
  {
    hide Cursor, EndOf, ByteOriented;
    var start := Middle(s, group, base);
    MiddleIsWhole(s, group, base);
    if k == 1 {
      StartOfList(s, group, Inputs, start);
      assert false;
    }
    if x < Cursor(s, group, Inputs, start, k - 1) {
      j := InputsTile(s, group, base, k - 1, x);
    } else {
      j := k - 1;
      CursorIsWhole(s, group, Inputs, start, j);
      SlaveStep(s, group, Inputs, start, j);
      LastHasInput(s, group, base, j, x);
    }
  }

  lemma {:induction false} LastHasInput(s: seq<Slave>, group: nat, base: nat, k: nat, x: nat)
    requires WellFormedList(s) && 1 <= k < |s| && Takes(s[k], group, Inputs)
    requires var start := Middle(s, group, base);
             Cursor(s, group, Inputs, start, k) % 8 == 0
             && Cursor(s, group, Inputs, start, k) <= x < Cursor(s, group, Inputs, start, k + 1)
    ensures HasInput(s, group, base, k, x)
  {
    hide Cursor, EndOf;
    IntervalInImage(s, group, Inputs, Middle(s, group, base), k);
    assert From(s, group, Inputs, Middle(s, group, base), k) == Cursor(s, group, Inputs, Middle(s, group, base), k);
  }

  /** Every input byte of an image mapped for byte-oriented slaves is provided by a slave. */
  lemma {:induction false} InputsFill(grp: Group, hasdc: bool, clockSlave: word, s: seq<Slave>, group: nat,
                                      ws: seq<W.Slave>, before: seq<byte>)
    requires Mapping(grp, s, group, ws) && 0 < grp.nsegments <= grp.IOsegment.Length && ByteOriented(s, group)
    requires grp.Obytes + grp.Ibytes <= |before|
    ensures X.InputsFillImage(Record(grp, hasdc, clockSlave), ws, before)
  {
    hide X.InputAt, B.Bit;
    var g := Record(grp, hasdc, clockSlave);
    forall o | g.obytes <= o < g.obytes + g.ibytes ensures X.OwnedOrZero(g, ws, before, o) {
      forall k {:trigger B.Bit(before[o], k)} | 0 <= k < 8 ensures X.InputAt(ws, 8 * (grp.logstartaddr + o) + k) {
        InputBitIsOwned(grp, s, group, ws, 8 * o + k);
      }
    }
  }

  lemma {:induction false} InputBitIsOwned(grp: Group, s: seq<Slave>, group: nat, ws: seq<W.Slave>, o: nat)
    requires Mapping(grp, s, group, ws) && ByteOriented(s, group)
    requires 8 * grp.Obytes <= o < 8 * (grp.Obytes + grp.Ibytes)
    ensures X.InputAt(ws, 8 * grp.logstartaddr + o)
  {
    hide CanMapGroup, Describes, Cursor, HasInput, ImageBlocks, Segments.CutOf, ByteOriented, AllCountOnce, AllUncut,
         AllOnBus, AllHaveWindows, Idle;
    var base := grp.logstartaddr;
    TablesGiveWindows(s, group, base, ws);
    ImageBounds(grp, s, group, base);
    CursorIsWhole(s, group, Inputs, Middle(s, group, base), |s|);
    MiddleIsWhole(s, group, base);
    var j := InputsTile(s, group, base, |s|, 8 * base + o);
    OwnedBySlave(s, group, base, ws, j, 8 * base + o);
  }

  lemma {:induction false} OwnedBySlave(s: seq<Slave>, group: nat, base: nat, ws: seq<W.Slave>, j: nat, x: nat)
    requires WellFormedList(s) && AllHaveWindows(ws, s, group, base) && 1 <= j < |s| && HasInput(s, group, base, j, x)
    ensures X.InputAt(ws, x)
  {
    hide WindowStart, WindowLength;
    assert HasWindows(ws[j - 1], s, group, base, j);
    assert W.Covers(ws[j - 1].inStart, ws[j - 1].inLen, x);
  }

  /** One cycle with a mapped group, with LRW or without. The working counter never exceeds the one that the
      application expects. If it is the expected one, then outputs and inputs have been exchanged, whatever
      frames may be lost, and all slaves have one FMMU per direction. Without losses, the counter is the expected
      one exactly if all slaves have one FMMU per direction, and the IOmap is that of one single exchange of the
      whole image with LRW, and without exactly if every input bit is provided by a slave or was zero before; so
      it always is if all slaves have whole bytes. */
  method Cycle(grp: Group, hasdc: bool, clockSlave: word, m: P.Master, bus: P.Bus, ghost s: seq<Slave>,
               ghost group: nat)
      returns (wkc: int, ghost frames: seq<W.Datagram>)
    requires Mapping(grp, s, group, bus.slaves) && grp.nsegments <= grp.IOsegment.Length
    requires m.Valid() && m.pushed == m.pulled == 0 && m.rx == map[] && m.sent == []
    requires 0 < grp.Obytes + grp.Ibytes <= m.iomap.Length && (hasdc ==> bus.arrives(0))
    requires P.ValidGroup(Record(grp, hasdc, clockSlave)) ==> X.FramesNeeded(Record(grp, hasdc, clockSlave)) <= P.MAXBUF
    modifies m, m.idx, m.data, m.length, m.iomap
    ensures wkc <= grp.outputsWKC * 2 + grp.inputsWKC
    ensures wkc == grp.outputsWKC * 2 + grp.inputsWKC ==>
              && old(OneFmmuEach(grp, s, group, bus.slaves))
              && X.Exchanged(old(Record(grp, hasdc, clockSlave)), bus.slaves, L.CameBack(frames, |frames|, bus),
                             old(m.iomap[..]),
                             m.iomap[..])
    ensures P.NoneLost(bus, |frames|) ==>
              && (wkc == grp.outputsWKC * 2 + grp.inputsWKC <==> old(OneFmmuEach(grp, s, group, bus.slaves)))
              && (m.iomap[..grp.Obytes + grp.Ibytes]
                  == X.WholeExchange(old(Record(grp, hasdc, clockSlave)), bus.slaves, old(m.iomap[..])).data
                  <==> grp.blockLRW == 0
                       || X.InputsFillImage(old(Record(grp, hasdc, clockSlave)), bus.slaves, old(m.iomap[..])))
    ensures ByteOriented(s, group) ==>
              X.InputsFillImage(old(Record(grp, hasdc, clockSlave)), bus.slaves, old(m.iomap[..]))
  {
    hide Mapping, P.ValidGroup, X.Layout, X.Exchanged, X.ReadBack, X.FramesNeeded, X.WholeExchange, X.InputsFillImage,
         OneFmmuEach, P.NoneLost, L.LostUnseen, P.SomeArrives, L.CameBack;
    ghost var before := m.iomap[..];
    ghost var g := Record(grp, hasdc, clockSlave);
    MappingIsUsable(grp, hasdc, clockSlave, s, group, bus.slaves);
    if ByteOriented(s, group) {
      InputsFill(grp, hasdc, clockSlave, s, group, bus.slaves, before);
    }
    wkc, frames := X.Exchange(m, Record(grp, hasdc, clockSlave), bus);
    if P.NoneLost(bus, |frames|) {
      var c, lo := if g.blockLRW == 0 then W.LRW else W.LRD, if g.blockLRW == 0 then 0 else g.obytes;
      X.RefinesWholeExchange(c, g, bus.slaves, lo, before, m.iomap[..]);
      assert m.iomap[..][..grp.Obytes + grp.Ibytes] == m.iomap[..grp.Obytes + grp.Ibytes];
    }
  }
}
