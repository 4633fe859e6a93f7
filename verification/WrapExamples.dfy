/** Three buses on which the clock of the first slave wraps while the frame is behind it. On the first the
    delay pass finds a wrong delay. On the second, with three links behind the first slave, and on the third,
    with a link that takes no time, all delays come out right although the entry port is the wrong one. */
module WrapExamples {
  import opened Topology
  import opened DistributedClocks
  import opened DelayExactness
  import opened DelayPass
  import opened WrappedFirst

  /** The list entry of a DC slave before the pass. */
  function Fresh(ports: PortMap, parent: nat): Entry {
    Entry(true, 0, ports.Count(), ports, parent, NO_PORTS, 0, 0, Latch(0, 0, 0, 0), 0, 0, 0)
  }

  /** The entry of the master. */
  const MASTER := Fresh(NO_PORTS, 0)

  const LEAF := NO_PORTS.With(0)
  const LINE := LEAF.With(1)

  /** The step for slave `i` if its entry port is known. */
  lemma {:induction false} MeasureKnown(s: seq<Entry>, i: nat, latch: Latch, entryport: nat)
    requires 1 <= i < |s| && ParentsFirst(s) && Lowest(s[i].activeports, latch, entryport)
    requires s[i].parent == 0 || s[s[i].parent].hasdc
    ensures var p, entered := s[i].parent, Entered(s[i], latch, entryport);
            Measure(s, i, latch)
            == if p == 0 then s[i := entered]
               else s[p := PortTaken(s[p])][i := Attached(s[p], entered, i - p <= 1)]
  {
    OneLowest(s[i].activeports, latch, entryport, EntryPort(s[i].activeports, latch));
  }

  /** The delay of a slave from the three spans. */
  lemma {:induction false} DelayOf(parent: Entry, slave: Entry, first: bool, around: int, inside: int, earlier: nat)
    requires parent.topology > 1
    requires SpanAt(parent, FirstOpen(parent.consumedports)) == around && Inside(slave) == inside
    requires if first then earlier == 0 else SpanBefore(parent, FirstOpen(parent.consumedports)) == earlier
    ensures Attached(parent, slave, first).pdelay
            == Int32(Half(around - (if inside > around then -inside else inside)) + earlier + parent.pdelay)
  {
    hide Int32, Half, PrevPort;
  }

  lemma {:induction false} PassStep(s: seq<Entry>, regs: seq<Latch>, i: nat)
    requires |s| == |regs| + 1 && 1 <= i < |s| && ParentsFirst(s)
    ensures Pass(s, regs, 1) == s && Pass(s, regs, i + 1) == Measure(Pass(s, regs, i), i, regs[i - 1])
  {
  }

  /** A slave with nothing behind it. */
  lemma {:induction false} LeafIsShown(s: Slave)
    requires s.link.below.End? && s.link.clock == 0 && 0 <= Arrival(s) < TWO31
    ensures SlaveShows(Fresh(LEAF, s.parent), Latch(Arrival(s), 0, 0, 0), s)
  {
  }

  /** A slave with one link on port 1. */
  lemma {:induction false} LineIsShown(s: Slave, back: nat)
    requires s.link.below.Link? && s.link.below.port == 1 && s.link.below.next.End? && s.link.clock == 0
    requires PassTime(s, 1) == back < TWO31 && 0 <= Arrival(s) < TWO31
    ensures SlaveShows(Fresh(LINE, s.parent), Latch(Arrival(s), back, 0, 0), s)
  {
    assert PortsOf(s.link.below.next) == NO_PORTS;
    hide ReturnTime;
  }

  /** Two slaves, five units apart; the clock of the first one wraps right after the frame has entered, so
      that port 1 shows a lower stamp than port 0. */
  const PAIR := Link(0, 0, TWO31 - 1, Link(1, 5, 0, End, End), End)
  const PAIR_LIST := [MASTER, Fresh(LINE, 0), Fresh(LEAF, 1)]
  const PAIR_REGS := [Latch(TWO31 - 1, 9 - TWO31, 0, 0), Latch(5, 0, 0, 0)]

  lemma {:induction false} PairIsShown()
    ensures Shows(PAIR_LIST, PAIR_REGS, PAIR) && ParentsFirst(PAIR_LIST)
    ensures FewLinks(PAIR) && !NoneWraps(PAIR_REGS, PAIR) && TrueDelay(PAIR, 2) == 5
  {
    var leaf := PAIR.below;
    assert Stations(leaf, 2, 1, 0, 0) == [Station(1, 0, 0, leaf)];
    var bus := BusStations(PAIR);
    assert bus == [Station(0, 0, 0, PAIR), Station(1, 0, 0, leaf)];
    assert RoundTrip(leaf) == 10 && PassTime(bus[0], 1) == 10;
    hide RoundTrip, ReturnTime, PassTime, Stations;
    var first := 1;
    assert Active(bus[0]).Has(1) && PAIR_REGS[first - 1].Port(1) < PAIR_REGS[first - 1].Port(0);
  }

  /** The pass gives the second slave a delay of -5. */
  lemma {:induction false} WrapBreaksDelay()
    ensures Shows(PAIR_LIST, PAIR_REGS, PAIR) && ParentsFirst(PAIR_LIST) && !NoneWraps(PAIR_REGS, PAIR)
    ensures Pass(PAIR_LIST, PAIR_REGS, 3)[2].pdelay == -5 && TrueDelay(PAIR, 2) == 5
  {
    PairIsShown();
    hide Shows, NoneWraps, TrueDelay;
    MeasureKnown(PAIR_LIST, 1, PAIR_REGS[0], 1);
    var s := PAIR_LIST[1 := Entered(PAIR_LIST[1], PAIR_REGS[0], 1)];
    MeasureKnown(s, 2, PAIR_REGS[1], 0);
    var slave := Entered(s[2], PAIR_REGS[1], 0);
    assert Int32(TWO31 - 1 - (9 - TWO31)) == -10;
    assert Attached(s[1], slave, true).pdelay == -5;
    assert Pass(PAIR_LIST, PAIR_REGS, 1 + 1) == s;
  }

  /** Six slaves, of which the first has three links, with spans of 10, 2 and 18; its clock wraps right after
      the frame has entered, and port 3 is taken for the entry port. */
  const FORK := Link(0, 0, TWO31 - 1, FORK_BELOW, End)
  const FORK_BELOW := Link(3, 3, 0, Link(1, 2, 0, End, End), Link(1, 1, 0, End, FORK_LAST))
  const FORK_LAST := Link(2, 1, 0, Link(1, 8, 0, End, End), End)
  const ALL := PortMap(true, true, true, true)
  const FORK_LIST := [MASTER, Fresh(ALL, 0), Fresh(LINE, 1), Fresh(LEAF, 2), Fresh(LEAF, 1), Fresh(LINE, 1),
                      Fresh(LEAF, 5)]
  const FORK_FIRST := Latch(TWO31 - 1, 11 - TWO31, 29 - TWO31, 9 - TWO31)
  const FORK_REGS := [FORK_FIRST, Latch(3, 7, 0, 0), Latch(5, 0, 0, 0), Latch(11, 0, 0, 0), Latch(13, 29, 0, 0),
                      Latch(21, 0, 0, 0)]

  lemma {:induction false} ForkStations()
    ensures IsBus(FORK)
    ensures BusStations(FORK) == [Station(0, 0, 0, FORK), Station(1, 0, 0, FORK_BELOW),
                                  Station(2, 0, 3, FORK_BELOW.below), Station(1, 3, 10, FORK_BELOW.next),
                                  Station(1, 1, 12, FORK_LAST), Station(5, 0, 13, FORK_LAST.below)]
  {
    assert Stations(FORK_BELOW.below, 3, 2, 0, 3) == [Station(2, 0, 3, FORK_BELOW.below)];
    assert Stations(FORK_LAST.below, 6, 5, 0, 13) == [Station(5, 0, 13, FORK_LAST.below)];
    assert Stations(FORK_LAST, 5, 1, 1, 12) == [Station(1, 1, 12, FORK_LAST), Station(5, 0, 13, FORK_LAST.below)];
    assert BackFromFirst(FORK_BELOW, 0) == 10 && BackFromFirst(FORK_BELOW.next, 10) == 12;
    assert Stations(FORK_BELOW.next, 4, 1, 3, 10)
        == [Station(1, 3, 10, FORK_BELOW.next)] + Stations(FORK_LAST, 5, 1, 1, 12);
    assert Size(FORK_BELOW.below) == 1;
    assert Stations(FORK_BELOW, 2, 1, 0, 0)
        == [Station(1, 0, 0, FORK_BELOW)] + Stations(FORK_BELOW.below, 3, 2, 0, 3)
           + Stations(FORK_BELOW.next, 4, 1, 3, 10);
  }

  lemma {:induction false} ForkIsShown()
    ensures Shows(FORK_LIST, FORK_REGS, FORK) && ParentsFirst(FORK_LIST) && !NoneWraps(FORK_REGS, FORK)
  {
    ForkStations();
    ForkTimes();
    var bus := BusStations(FORK);
    LineIsShown(bus[1], 7);
    LeafIsShown(bus[2]);
    LeafIsShown(bus[3]);
    LineIsShown(bus[4], 29);
    LeafIsShown(bus[5]);
    hide Stations, BusStations, RoundTrip, PassTime, ReturnTime, IsBus, SlaveShows;
    ForkFirst();
    var first := 1;
    assert Active(bus[0]).Has(1) && FORK_REGS[first - 1].Port(1) < FORK_REGS[first - 1].Port(0);
  }

  lemma {:induction false} ForkFirst()
    ensures SlaveShows(FORK_LIST[1], FORK_FIRST, Station(0, 0, 0, FORK))
  {
    ForkTimes();
    var first := Station(0, 0, 0, FORK);
    assert PortsOf(FORK_LAST) == NO_PORTS.With(2) && PortsOf(FORK_BELOW.next) == NO_PORTS.With(2).With(1);
    assert Active(first) == ALL && PassTime(first, 0) == 0;
    hide RoundTrip, PassTime, ReturnTime, PortsOf;
  }

  lemma {:induction false} ForkTimes()
    ensures RoundTrip(FORK_BELOW) == 30
    ensures var first := Station(0, 0, 0, FORK);
            PassTime(first, 3) == 10 && PassTime(first, 1) == 12 && PassTime(first, 2) == 30
    ensures PassTime(Station(1, 0, 0, FORK_BELOW), 1) == 7 && PassTime(Station(1, 1, 12, FORK_LAST), 1) == 29
  {
    assert RoundTrip(FORK_BELOW.below) == 4 && RoundTrip(FORK_LAST.below) == 16;
    assert RoundTrip(FORK_LAST) == 18;
  }

  /** The delays before slave `i` in the list after the pass has reached it, and the ports of the slaves with
      children that are left. */
  ghost predicate ForkAfter(s: seq<Entry>, i: nat, delays: seq<int>, first: PortMap, second: PortMap, fifth: PortMap) {
    && |s| == 7 && ParentsFirst(s) && |delays| == i - 1 <= 6
    && (forall k :: i <= k < 7 ==> s[k] == FORK_LIST[k])
    && (forall k :: 1 <= k < i ==> s[k].pdelay == delays[k - 1] && Keeps(s[k], FORK_LIST[k], FORK_REGS[k - 1]))
    && (i > 1 ==> s[1].consumedports == first && s[1].entryport == 3)
    && (i > 2 ==> s[2].consumedports == second && s[2].entryport == 0)
    && (i > 5 ==> s[5].consumedports == fifth && s[5].entryport == 0)
  }

  ghost predicate Keeps(e: Entry, f: Entry, rt: Latch) {
    && e.hasdc && e.topology == f.topology && e.activeports == f.activeports && e.parent == f.parent
    && e.rt == rt
  }

  lemma {:induction false} ForkStep1()
    ensures ForkAfter(Measure(FORK_LIST, 1, FORK_FIRST), 2, [0], ALL.Without(3), NO_PORTS, NO_PORTS)
  {
    MeasureKnown(FORK_LIST, 1, FORK_FIRST, 3);
  }

  lemma {:induction false} ForkStep2(s: seq<Entry>)
    requires ForkAfter(s, 2, [0], ALL.Without(3), NO_PORTS, NO_PORTS)
    ensures ForkAfter(Measure(s, 2, FORK_REGS[1]), 3, [0, 3], LEAF.With(2), LINE.Without(0), NO_PORTS)
  {
    hide PathDelay;
    MeasureKnown(s, 2, FORK_REGS[1], 0);
    DelayOf(s[1], Entered(s[2], FORK_REGS[1], 0), true, 2, 4, 0);
  }

  lemma {:induction false} ForkStep3(s: seq<Entry>)
    requires ForkAfter(s, 3, [0, 3], LEAF.With(2), LINE.Without(0), NO_PORTS)
    ensures ForkAfter(Measure(s, 3, FORK_REGS[2]), 4, [0, 3, 5], LEAF.With(2), NO_PORTS, NO_PORTS)
  {
    hide PathDelay;
    MeasureKnown(s, 3, FORK_REGS[2], 0);
    DelayOf(s[2], Entered(s[3], FORK_REGS[2], 0), true, 4, 0, 0);
  }

  lemma {:induction false} ForkStep4(s: seq<Entry>)
    requires ForkAfter(s, 4, [0, 3, 5], LEAF.With(2), NO_PORTS, NO_PORTS)
    ensures ForkAfter(Measure(s, 4, FORK_REGS[3]), 5, [0, 3, 5, 11], LEAF, NO_PORTS, NO_PORTS)
  {
    hide PathDelay;
    MeasureKnown(s, 4, FORK_REGS[3], 0);
    DelayOf(s[1], Entered(s[4], FORK_REGS[3], 0), false, 18, 0, 2);
  }

  lemma {:induction false} ForkStep5(s: seq<Entry>)
    requires ForkAfter(s, 5, [0, 3, 5, 11], LEAF, NO_PORTS, NO_PORTS)
    ensures ForkAfter(Measure(s, 5, FORK_REGS[4]), 6, [0, 3, 5, 11, 13], NO_PORTS, NO_PORTS, LINE.Without(0))
  {
    hide PathDelay;
    MeasureKnown(s, 5, FORK_REGS[4], 0);
    DelayOf(s[1], Entered(s[5], FORK_REGS[4], 0), false, -30, 16, 20);
  }

  lemma {:induction false} ForkStep6(s: seq<Entry>)
    requires ForkAfter(s, 6, [0, 3, 5, 11, 13], NO_PORTS, NO_PORTS, LINE.Without(0))
    ensures ForkAfter(Measure(s, 6, FORK_REGS[5]), 7, [0, 3, 5, 11, 13, 21], NO_PORTS, NO_PORTS, NO_PORTS)
  {
    hide PathDelay;
    MeasureKnown(s, 6, FORK_REGS[5], 0);
    DelayOf(s[5], Entered(s[6], FORK_REGS[5], 0), true, 16, 0, 0);
  }

  /** Behind three links a wrap of the first slave's clock may go unnoticed: although no slave on a link of
      the first one gets the port it is on, each slave gets its true delay. */
  lemma {:induction false} WrapMayGoUnnoticed()
    ensures Shows(FORK_LIST, FORK_REGS, FORK) && ParentsFirst(FORK_LIST) && !NoneWraps(FORK_REGS, FORK)
    ensures DelaysAreTrue(Pass(FORK_LIST, FORK_REGS, 7), FORK)
  {
    ForkIsShown();
    ForkPass();
    ForkTrueDelays();
    hide Shows, NoneWraps, Pass, TrueDelay;
    var r := Pass(FORK_LIST, FORK_REGS, 7);
    forall k | 1 <= k < |r| ensures r[k].pdelay == TrueDelay(FORK, k) {
      assert k == 1 || k == 2 || k == 3 || k == 4 || k == 5 || k == 6;
    }
  }

  lemma {:induction false} ForkPass()
    requires ParentsFirst(FORK_LIST)
    ensures ForkAfter(Pass(FORK_LIST, FORK_REGS, 7), 7, [0, 3, 5, 11, 13, 21], NO_PORTS, NO_PORTS, NO_PORTS)
  {
    hide ForkAfter, Measure, ParentsFirst, Pass;
    PassStep(FORK_LIST, FORK_REGS, 1);
    ForkStep1();
    PassStep(FORK_LIST, FORK_REGS, 2);
    ForkStep2(Pass(FORK_LIST, FORK_REGS, 2));
    PassStep(FORK_LIST, FORK_REGS, 3);
    ForkStep3(Pass(FORK_LIST, FORK_REGS, 3));
    PassStep(FORK_LIST, FORK_REGS, 4);
    ForkStep4(Pass(FORK_LIST, FORK_REGS, 4));
    PassStep(FORK_LIST, FORK_REGS, 5);
    ForkStep5(Pass(FORK_LIST, FORK_REGS, 5));
    PassStep(FORK_LIST, FORK_REGS, 6);
    ForkStep6(Pass(FORK_LIST, FORK_REGS, 6));
  }

  lemma {:induction false} ForkTrueDelays()
    ensures IsBus(FORK) && Size(FORK) == 6
    ensures TrueDelay(FORK, 1) == 0 && TrueDelay(FORK, 2) == 3 && TrueDelay(FORK, 3) == 5
    ensures TrueDelay(FORK, 4) == 11 && TrueDelay(FORK, 5) == 13 && TrueDelay(FORK, 6) == 21
  {
    ForkStations();
  }

  /** Three slaves in a line, the first two at no distance; the clock of the first one wraps right after the
      frame has entered. */
  const TIGHT := Link(0, 0, TWO31 - 1, Link(1, 0, 0, Link(1, 4, 0, End, End), End), End)
  const TIGHT_LIST := [MASTER, Fresh(LINE, 0), Fresh(LINE, 1), Fresh(LEAF, 2)]
  const TIGHT_REGS := [Latch(TWO31 - 1, 7 - TWO31, 0, 0), Latch(0, 8, 0, 0), Latch(4, 0, 0, 0)]

  lemma {:induction false} TightStations()
    ensures IsBus(TIGHT) && RoundTrip(TIGHT.below) == 8
    ensures BusStations(TIGHT) == [Station(0, 0, 0, TIGHT), Station(1, 0, 0, TIGHT.below),
                                   Station(2, 0, 0, TIGHT.below.below)]
    ensures PassTime(Station(0, 0, 0, TIGHT), 1) == 8 && PassTime(Station(1, 0, 0, TIGHT.below), 1) == 8
    ensures Active(Station(0, 0, 0, TIGHT)) == LINE
  {
    var second := TIGHT.below;
    assert Stations(second.below, 3, 2, 0, 0) == [Station(2, 0, 0, second.below)];
    assert Stations(second, 2, 1, 0, 0) == [Station(1, 0, 0, second)] + Stations(second.below, 3, 2, 0, 0);
    assert RoundTrip(second.below) == 8;
  }

  lemma {:induction false} TightIsShown()
    ensures Shows(TIGHT_LIST, TIGHT_REGS, TIGHT) && ParentsFirst(TIGHT_LIST) && !NoneWraps(TIGHT_REGS, TIGHT)
    ensures TrueDelay(TIGHT, 1) == 0 && TrueDelay(TIGHT, 2) == 0 && TrueDelay(TIGHT, 3) == 4
  {
    TightStations();
    var bus := BusStations(TIGHT);
    LineIsShown(bus[1], 8);
    LeafIsShown(bus[2]);
    hide Stations, BusStations, RoundTrip, ReturnTime, IsBus, PortsOf;
    var first := 1;
    assert Active(bus[0]).Has(1) && TIGHT_REGS[first - 1].Port(1) < TIGHT_REGS[first - 1].Port(0);
  }

  /** Behind a single link that takes no time the wrap goes unnoticed as well. */
  lemma {:induction false} NoDelayGoesUnnoticed()
    ensures Shows(TIGHT_LIST, TIGHT_REGS, TIGHT) && ParentsFirst(TIGHT_LIST) && !NoneWraps(TIGHT_REGS, TIGHT)
    ensures DelaysAreTrue(Pass(TIGHT_LIST, TIGHT_REGS, 4), TIGHT)
  {
    TightIsShown();
    TightPass();
    hide Shows, NoneWraps, Pass, TrueDelay;
    var r := Pass(TIGHT_LIST, TIGHT_REGS, 4);
    forall k | 1 <= k < |r| ensures r[k].pdelay == TrueDelay(TIGHT, k) {
      assert k == 1 || k == 2 || k == 3;
    }
  }

  lemma {:induction false} TightPass()
    requires ParentsFirst(TIGHT_LIST)
    ensures var r := Pass(TIGHT_LIST, TIGHT_REGS, 4);
            r[1].pdelay == 0 && r[2].pdelay == 0 && r[3].pdelay == 4
  {
    hide Pass, PathDelay, Measure;
    PassStep(TIGHT_LIST, TIGHT_REGS, 1);
    MeasureKnown(TIGHT_LIST, 1, TIGHT_REGS[0], 1);
    PassStep(TIGHT_LIST, TIGHT_REGS, 2);
    TightSecond(Pass(TIGHT_LIST, TIGHT_REGS, 2));
    PassStep(TIGHT_LIST, TIGHT_REGS, 3);
    TightThird(Pass(TIGHT_LIST, TIGHT_REGS, 3));
  }

  lemma {:induction false} TightSecond(s: seq<Entry>)
    requires s == TIGHT_LIST[1 := Entered(TIGHT_LIST[1], TIGHT_REGS[0], 1)]
    ensures ParentsFirst(s)
    ensures var r := Measure(s, 2, TIGHT_REGS[1]);
            && r[1].pdelay == 0 && r[2].pdelay == 0 && Keeps(r[2], TIGHT_LIST[2], TIGHT_REGS[1])
            && r[2].entryport == 0 && r[2].consumedports == LINE.Without(0) && r[3] == TIGHT_LIST[3]
  {
    hide PathDelay;
    MeasureKnown(s, 2, TIGHT_REGS[1], 0);
    DelayOf(s[1], Entered(s[2], TIGHT_REGS[1], 0), true, -8, 8, 0);
  }

  lemma {:induction false} TightThird(s: seq<Entry>)
    requires |s| == 4 && ParentsFirst(s) && s[1].pdelay == 0 && s[2].pdelay == 0
    requires Keeps(s[2], TIGHT_LIST[2], TIGHT_REGS[1]) && s[2].entryport == 0
    requires s[2].consumedports == LINE.Without(0) && s[3] == TIGHT_LIST[3]
    ensures var r := Measure(s, 3, TIGHT_REGS[2]);
            r[1].pdelay == 0 && r[2].pdelay == 0 && r[3].pdelay == 4
  {
    hide PathDelay;
    MeasureKnown(s, 3, TIGHT_REGS[2], 0);
    DelayOf(s[2], Entered(s[3], TIGHT_REGS[2], 0), true, 8, 0, 0);
  }
}
