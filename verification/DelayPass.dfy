/** The delays that the measurement gives to all slaves of a bus, if every slave has DC. */
module DelayPass {
  import opened Topology
  import opened PortOrder
  import opened DistributedClocks
  import opened DelayExactness
  import W = WrappedClocks
  import F = WrappedFirst

  /** The bus as the slave list and the latched times show it before the measurement: `s[k]` belongs
      to slave k, s[0] to the master, and the delay of the first slave is still zero. */
  ghost predicate Shows(s: seq<Entry>, regs: seq<Latch>, root: Row) {
    && IsBus(root) && |s| == |regs| + 1 == Size(root) + 1
    && RoundTrip(root.below) < TWO31
    && s[1].pdelay == 0
    && forall k :: 1 <= k < |s| ==> SlaveShows(s[k], regs[k - 1], BusStations(root)[k - 1])
  }

  ghost predicate SlaveShows(e: Entry, rt: Latch, s: Slave) {
    && e.hasdc && e.parent == s.parent && e.activeports == Active(s) && e.topology == Active(s).Count()
    && LatchedBy(rt, s)
  }

  /** No clock of the slaves before slave `i` wraps while the frame is behind its slave. */
  ghost predicate NoWrapBefore(regs: seq<Latch>, root: Row, i: nat)
    requires IsBus(root) && |regs| == Size(root) && i <= |regs| + 1
  {
    forall k {:trigger regs[k - 1]} :: 1 <= k < i ==> NoWrap(regs[k - 1], BusStations(root)[k - 1])
  }

  ghost predicate NoneWraps(regs: seq<Latch>, root: Row)
    requires IsBus(root) && |regs| == Size(root)
  {
    NoWrapBefore(regs, root, |regs| + 1)
  }

  /** At most two links lead on from the first slave, and the first of them takes some time. */
  predicate FewLinks(root: Row) {
    && root.Link? && root.below.Link? && root.below.delay > 0
    && (root.below.next.End? || root.below.next.next.End?)
  }

  /** The clock of the first slave does not wrap, or few links lead on from there. */
  ghost predicate Decisive(regs: seq<Latch>, root: Row)
    requires IsBus(root) && |regs| == Size(root)
  {
    NoWrap(regs[0], BusStations(root)[0]) || FewLinks(root)
  }

  /** The delay that a slave should be given: the time from the frame's arrival at slave 1 to its
      arrival there. */
  function TrueDelay(root: Row, k: nat): int
    requires IsBus(root) && 1 <= k <= Size(root)
  {
    Arrival(BusStations(root)[k - 1]) - Arrival(BusStations(root)[0])
  }

  /** The state of the list when slaves 1 to i - 1 have been measured. */
  ghost predicate Measured(s: seq<Entry>, root: Row, i: nat)
    requires IsBus(root) && |s| == Size(root) + 1 && 1 <= i <= |s|
  {
    forall k :: 1 <= k < i ==> Done(s[k], root, k, i)
  }

  /** Slave k has been measured, and its ports towards slaves before i have been handed out. */
  ghost predicate Done(e: Entry, root: Row, k: nat, i: nat)
    requires IsBus(root) && 1 <= k < i <= Size(root) + 1
  {
    && Knows(e, BusStations(root)[k - 1])
    && e.pdelay == TrueDelay(root, k)
    && e.consumedports == PortsOf(Rest(BusStations(root), k, i))
  }

  /** The list after slaves 1 to i - 1 have been measured. */
  ghost function Pass(s: seq<Entry>, regs: seq<Latch>, i: nat): (r: seq<Entry>)
    requires |s| == |regs| + 1 && 1 <= i <= |s| && ParentsFirst(s)
    ensures |r| == |s| && ParentsFirst(r)
  {
    if i == 1 then s else Measure(Pass(s, regs, i - 1), i - 1, regs[i - 2])
  }

  /** The same description of a slave. */
  ghost predicate SameSlave(e: Entry, f: Entry) {
    e.hasdc == f.hasdc && e.parent == f.parent && e.group == f.group
  }

  /** What the measurement leaves alone: the description of every slave, and all of slaves i and up. */
  ghost predicate Untouched(s: seq<Entry>, s0: seq<Entry>, i: nat) {
    && |s| == |s0|
    && (forall k :: 1 <= k < |s| ==> SameSlave(s[k], s0[k]))
    && (forall k :: 1 <= k < |s| && i <= k ==> s[k] == s0[k])
  }

  lemma {:induction false} MeasureKeeps(s: seq<Entry>, i: nat, latch: Latch)
    requires 1 <= i < |s| && ParentsFirst(s)
    ensures Untouched(Measure(s, i, latch), s, i + 1)
  {
    hide EntryPort, PathDelay;
  }

  lemma {:induction false} PassKeeps(s: seq<Entry>, regs: seq<Latch>, i: nat)
    requires |s| == |regs| + 1 && 1 <= i <= |s| && ParentsFirst(s)
    ensures Untouched(Pass(s, regs, i), s, i)
  {
    hide Measure;
    if i > 1 {
      PassKeeps(s, regs, i - 1);
      MeasureKeeps(Pass(s, regs, i - 1), i - 1, regs[i - 2]);
    }
  }

  lemma {:induction false} TrueDelayBounds(root: Row, k: nat)
    requires IsBus(root) && 1 <= k <= Size(root)
    ensures 0 <= TrueDelay(root, k)
    ensures TrueDelay(root, k) + RoundTrip(BusStations(root)[k - 1].link.below) <= RoundTrip(root.below)
  {
    BusIsPlaced(root);
    if k > 1 {
      WithinRow(BusStations(root), root.below, 2, 1, 0, root.delay, k);
    }
  }

  /** The first open port of a row is the port of its first link. */
  lemma {:induction false} FirstOpenOfRow(row: Row, floor: nat)
    requires row.Link? && Wired(row, floor)
    ensures FirstOpen(PortsOf(row)) == row.port
    ensures PortsOf(row).Without(row.port) == PortsOf(row.next)
  {
    RowBounds(row.next, Rank(row.port));
  }

  /** The entry port of a measured slave is port 0, and all ports towards its children are open. */
  lemma {:induction false} EntersOnPort0(e: Entry, rt: Latch, s: Slave, entryport: nat)
    requires SlaveShows(e, rt, s) && NoWrap(rt, s) && Wired(s.link.below, 0)
    requires Lowest(e.activeports, rt, entryport)
    ensures entryport == 0
    ensures Knows(Entered(e, rt, 0), s)
    ensures Entered(e, rt, 0).consumedports == PortsOf(s.link.below)
  {
    RowBounds(s.link.below, 0);
    assert e.activeports.Has(0);
  }

  /** The delay of slave `i` is right once it is attached to its parent, and the parent has then
      handed out the port the slave is really on. */
  lemma {:induction false} AttachIsExact(root: Row, i: nat, p: Entry, entered: Entry)
    requires IsBus(root) && 2 <= i <= Size(root) && RoundTrip(root.below) < TWO31
    requires var parent := BusStations(root)[i - 1].parent;
             && 1 <= parent < i && Knows(p, BusStations(root)[parent - 1]) && p.pdelay == TrueDelay(root, parent)
             && p.consumedports == PortsOf(Rest(BusStations(root), parent, i))
    requires Knows(entered, BusStations(root)[i - 1])
    ensures var attached := Attached(p, entered, i - BusStations(root)[i - 1].parent <= 1);
            Knows(attached, BusStations(root)[i - 1]) && attached.pdelay == TrueDelay(root, i)
    ensures PortTaken(p).consumedports == PortsOf(BusStations(root)[i - 1].link.next)
  {
    var bus := BusStations(root);
    var c := bus[i - 1];
    var parent := c.parent;
    BusHangs(root, i);
    BusRest(root, i);
    FirstOpenOfRow(c.link, Rank(c.prev));
    ParentHasLinks(bus[parent - 1], c);
    TrueDelayBounds(root, i);
    TrueDelayBounds(root, parent);
    RowIsWired(root, parent);
    DelayStep(bus[parent - 1], c, p, entered.(parentport := c.link.port), i - parent <= 1, Arrival(bus[0]));
  }

  lemma {:induction false} RowIsWired(root: Row, k: nat)
    requires IsBus(root) && 1 <= k <= Size(root)
    ensures Wired(BusStations(root)[k - 1].link.below, 0)
  {
    if k > 1 {
      BusHangs(root, k);
    }
  }

  /** Once slave `i` has been attached, it is done and so is its parent. */
  lemma {:induction false} AttachedIsDone(root: Row, i: nat, p: Entry, entered: Entry)
    requires IsBus(root) && 2 <= i <= Size(root) && RoundTrip(root.below) < TWO31
    requires var parent := BusStations(root)[i - 1].parent;
             1 <= parent < i && Done(p, root, parent, i)
    requires Knows(entered, BusStations(root)[i - 1])
    requires entered.consumedports == PortsOf(BusStations(root)[i - 1].link.below)
    ensures var parent := BusStations(root)[i - 1].parent;
            && Done(Attached(p, entered, i - parent <= 1), root, i, i + 1)
            && Done(PortTaken(p), root, parent, i + 1)
  {
    AttachIsExact(root, i, p, entered);
  }

  /** Slave `i` is the next to be measured. */
  ghost predicate Next(u: seq<Entry>, regs: seq<Latch>, root: Row, i: nat) {
    && IsBus(root) && |u| == |regs| + 1 == Size(root) + 1 && 1 <= i < |u| && RoundTrip(root.below) < TWO31
    && ParentsFirst(u) && SlaveShows(u[i], regs[i - 1], BusStations(root)[i - 1])
    && (u[i].parent == 0 || u[u[i].parent].hasdc) && (i == 1 ==> u[1].pdelay == 0)
  }

  lemma {:induction false} HasLowest(active: PortMap, rt: Latch)
    requires active.Has(0)
    ensures Lowest(active, rt, EntryPort(active, rt))
  {
  }

  /** Measuring slave `i` extends the set of correctly measured slaves by one. */
  lemma {:induction false} MeasureIsExact(s: seq<Entry>, regs: seq<Latch>, root: Row, i: nat)
    requires Next(s, regs, root, i) && Measured(s, root, i) && NoWrap(regs[i - 1], BusStations(root)[i - 1])
    ensures Measured(Measure(s, i, regs[i - 1]), root, i + 1)
  {
    var parent := s[i].parent;
    RowIsWired(root, i);
    HasLowest(s[i].activeports, regs[i - 1]);
    EntersOnPort0(s[i], regs[i - 1], BusStations(root)[i - 1], EntryPort(s[i].activeports, regs[i - 1]));
    if i > 1 {
      BusRest(root, i);
      AttachedIsDone(root, i, s[parent], Entered(s[i], regs[i - 1], 0));
    }
    OthersAreDone(s, Measure(s, i, regs[i - 1]), root, i, parent);
  }

  lemma {:induction false} OthersAreDone(s: seq<Entry>, r: seq<Entry>, root: Row, i: nat, parent: nat)
    requires IsBus(root) && |s| == |r| == Size(root) + 1 && 1 <= i < |s| && Measured(s, root, i)
    requires parent == BusStations(root)[i - 1].parent < i
    requires Done(r[i], root, i, i + 1) && (parent > 0 ==> Done(r[parent], root, parent, i + 1))
    requires forall k :: 1 <= k < i && k != parent ==> r[k] == s[k]
    ensures Measured(r, root, i + 1)
  {
    forall k | 1 <= k < i + 1 ensures Done(r[k], root, k, i + 1) {
      if k < i && k != parent {
        assert Done(s[k], root, k, i);
      }
    }
  }

  /** Some slave before `i` has a wrong delay. */
  ghost predicate SomeWrong(s: seq<Entry>, root: Row, i: nat)
    requires IsBus(root) && |s| == Size(root) + 1 && 1 <= i <= |s|
  {
    exists k :: 1 <= k < i && s[k].pdelay != TrueDelay(root, k)
  }

  /** The first slave after it has been measured with a clock that wraps: a link is taken for the way in,
      and its port 0 is left for a slave behind. */
  ghost predicate FirstIsWrapped(e: Entry, first: Slave) {
    F.Wrapped(e, first) && e.consumedports == Active(first).Without(e.entryport)
  }

  /** The number of the slave behind the second link of the first slave. */
  function Second(root: Row): nat
    requires root.Link? && root.below.Link?
  {
    3 + Size(root.below.below)
  }

  /** Two links lead on from the first slave; the slave behind the first of them has its true delay by
      chance, and port 0 is left for the slave behind the other. */
  ghost predicate Halfway(e: Entry, root: Row) {
    && FewLinks(root) && root.below.next.Link? && F.Wrapped(e, Station(0, 0, 0, root))
    && e.consumedports == NO_PORTS.With(0)
    && (e.entryport == root.below.port ==> F.Span(root.below.next) <= F.Span(root.below))
  }

  /** What is known before slave `i` if few links lead on from the first slave and its clock wraps. */
  ghost predicate WrapFound(s: seq<Entry>, root: Row, i: nat)
    requires IsBus(root) && FewLinks(root) && |s| == Size(root) + 1 && 1 < i <= |s|
  {
    if i == 2 then FirstIsWrapped(s[1], Station(0, 0, 0, root))
    else SomeWrong(s, root, i) || (i <= Second(root) && Halfway(s[1], root))
  }

  /** What is known of the delays before slave `i`: they are right if no clock has wrapped so far. If a later
      clock than the first has wrapped, one of them is wrong. */
  ghost predicate Found(s: seq<Entry>, regs: seq<Latch>, root: Row, i: nat)
    requires IsBus(root) && |s| == |regs| + 1 == Size(root) + 1 && 1 <= i <= |s|
  {
    && (NoWrapBefore(regs, root, i) ==> Measured(s, root, i))
    && (FirstGoesOn(regs, root) && !NoWrapBefore(regs, root, i) ==> SomeWrong(s, root, i))
    && (!FirstGoesOn(regs, root) && FewLinks(root) && i > 1 ==> WrapFound(s, root, i))
  }

  ghost predicate FirstGoesOn(regs: seq<Latch>, root: Row)
    requires IsBus(root) && |regs| == Size(root)
  {
    NoWrap(regs[0], BusStations(root)[0])
  }

  /** The first slave's clock wraps. */
  lemma {:induction false} FirstWraps(u: seq<Entry>, regs: seq<Latch>, root: Row)
    requires Next(u, regs, root, 1) && FewLinks(root) && !FirstGoesOn(regs, root)
    ensures WrapFound(Measure(u, 1, regs[0]), root, 2)
  {
    BusIsPlaced(root);
    HasLowest(u[1].activeports, regs[0]);
  }

  /** The first clock that wraps is that of a later slave: its delay is too large. */
  lemma {:induction false} LaterWraps(u: seq<Entry>, regs: seq<Latch>, root: Row, i: nat)
    requires Next(u, regs, root, i) && i > 1 && Measured(u, root, i)
    requires !NoWrap(regs[i - 1], BusStations(root)[i - 1])
    ensures Measure(u, i, regs[i - 1])[i].pdelay != TrueDelay(root, i)
  {
    var bus := BusStations(root);
    var c := bus[i - 1];
    var parent := u[i].parent;
    HasLowest(u[i].activeports, regs[i - 1]);
    var entered := Entered(u[i], regs[i - 1], EntryPort(u[i].activeports, regs[i - 1]));
    BusHangs(root, i);
    BusRest(root, i);
    assert Done(u[parent], root, parent, i);
    FirstOpenOfRow(c.link, Rank(c.prev));
    ParentHasLinks(bus[parent - 1], c);
    TrueDelayBounds(root, i);
    TrueDelayBounds(root, parent);
    WithinBus(root, parent);
    WithinBus(root, i);
    W.WrapGivesTooMuch(bus[parent - 1], c, u[parent], entered.(parentport := c.link.port), i - parent <= 1,
                       Arrival(bus[0]));
  }

  lemma {:induction false} WithinBus(root: Row, k: nat)
    requires IsBus(root) && 1 <= k <= Size(root) && RoundTrip(root.below) < TWO31
    ensures RoundTrip(BusStations(root)[k - 1].link.below) < TWO31
    ensures Arrival(BusStations(root)[k - 1]) - Arrival(BusStations(root)[0])
            + RoundTrip(BusStations(root)[k - 1].link.below) < TWO31
    ensures Wired(BusStations(root)[k - 1].link.below, 0)
  {
    TrueDelayBounds(root, k);
    RowIsWired(root, k);
  }

  /** The slave with number 2 hangs on the first link of slave 1. */
  lemma {:induction false} SecondOfBus(root: Row)
    requires IsBus(root) && Size(root) >= 2
    ensures var bus := BusStations(root);
            && bus[0] == Station(0, 0, 0, root) && root.below.Link? && Wired(root.below, 0)
            && bus[1] == Station(1, 0, root.delay, root.below) && TrueDelay(root, 2) == root.below.delay
  {
    BusIsPlaced(root);
  }

  /** The slave behind the second link of slave 1. */
  lemma {:induction false} BehindSecond(root: Row)
    requires IsBus(root) && root.below.Link? && root.below.next.Link?
    ensures 3 <= Second(root) <= Size(root)
    ensures BusStations(root)[Second(root) - 1].parent == 1
    ensures BusStations(root)[Second(root) - 1].link == root.below.next
    ensures TrueDelay(root, Second(root)) == F.Span(root.below) + root.below.next.delay
  {
    BusIsPlaced(root);
    var bus, below := BusStations(root), root.below;
    assert Stationed(bus, below, 2, 1, 0, root.delay);
    assert Stationed(bus, below.next, Second(root), 1, below.port, BackFromFirst(below, root.delay));
  }

  /** No slave of a row hangs on a slave before the parent of the row. */
  lemma {:induction false} HangBehind(bus: seq<Slave>, row: Row, self: nat, parent: nat, prev: nat, departure: int,
                                      k: nat)
    requires Stationed(bus, row, self, parent, prev, departure) && 1 <= self <= k < self + Size(row)
    requires parent < self
    ensures bus[k - 1].parent >= parent
  {
    var after := self + 1 + Size(row.below);
    if k == self {
    } else if k < after {
      HangBehind(bus, row.below, self + 1, self, 0, departure + row.delay, k);
    } else {
      HangBehind(bus, row.next, after, parent, row.port, BackFromFirst(row, departure), k);
    }
  }

  lemma {:induction false} HangBehindFirst(root: Row, k: nat)
    requires IsBus(root) && root.below.Link? && 2 < k < Second(root)
    ensures k <= Size(root) && BusStations(root)[k - 1].parent >= 2
  {
    BusIsPlaced(root);
    var bus, below := BusStations(root), root.below;
    assert Stationed(bus, below, 2, 1, 0, root.delay);
    HangBehind(bus, below.below, 3, 2, 0, root.delay + below.delay, k);
  }

  /** The slave behind the only link of a first slave whose clock has wrapped. */
  lemma {:induction false} OnlyIsWrong(u: seq<Entry>, regs: seq<Latch>, root: Row)
    requires Next(u, regs, root, 2) && FirstIsWrapped(u[1], Station(0, 0, 0, root))
    requires FewLinks(root) && root.below.next.End?
    ensures Measure(u, 2, regs[1])[2].pdelay != TrueDelay(root, 2)
  {
    var bus := BusStations(root);
    SecondOfBus(root);
    F.OneLink(bus[0]);
    HasLowest(u[2].activeports, regs[1]);
    var entered := Entered(u[2], regs[1], EntryPort(u[2].activeports, regs[1]));
    F.OnlyChild(bus[0], bus[1], u[1], entered.(parentport := 0));
  }

  /** The slave behind the first of two links. */
  lemma {:induction false} FirstMayBeRight(u: seq<Entry>, regs: seq<Latch>, root: Row)
    requires Next(u, regs, root, 2) && FirstIsWrapped(u[1], Station(0, 0, 0, root))
    requires FewLinks(root) && root.below.next.Link?
    ensures var r := Measure(u, 2, regs[1]);
            r[2].pdelay == TrueDelay(root, 2) ==> Halfway(r[1], root)
  {
    var bus := BusStations(root);
    SecondOfBus(root);
    RowIsWired(root, 2);
    F.TwoLinks(bus[0]);
    HasLowest(u[2].activeports, regs[1]);
    var entered := Entered(u[2], regs[1], EntryPort(u[2].activeports, regs[1]));
    var attached := entered.(parentport := root.below.next.port);
    var r := Measure(u, 2, regs[1]);
    if r[2].pdelay == TrueDelay(root, 2) && u[1].entryport == root.below.port {
      F.FirstOfTwo(bus[0], bus[1], u[1], attached);
    }
  }

  /** The slave behind the second of two links, if the one behind the first has its true delay. */
  lemma {:induction false} SecondIsWrong(u: seq<Entry>, regs: seq<Latch>, root: Row)
    requires IsBus(root) && FewLinks(root) && Next(u, regs, root, Second(root)) && Halfway(u[1], root)
    ensures Measure(u, Second(root), regs[Second(root) - 1])[Second(root)].pdelay != TrueDelay(root, Second(root))
  {
    var bus, i := BusStations(root), Second(root);
    SecondOfBus(root);
    BehindSecond(root);
    RowIsWired(root, i);
    F.TwoLinks(bus[0]);
    HasLowest(u[i].activeports, regs[i - 1]);
    var entered := Entered(u[i], regs[i - 1], EntryPort(u[i].activeports, regs[i - 1]));
    F.SecondOfTwo(bus[0], bus[i - 1], u[1], entered.(parentport := 0));
  }

  /** One more slave behind a first slave whose clock has wrapped. */
  lemma {:induction false} WrapFoundStep(u: seq<Entry>, regs: seq<Latch>, root: Row, i: nat)
    requires Next(u, regs, root, i) && i > 1 && FewLinks(root) && WrapFound(u, root, i)
    ensures WrapFound(Measure(u, i, regs[i - 1]), root, i + 1)
  {
    hide Halfway, FirstIsWrapped;
    var r := Measure(u, i, regs[i - 1]);
    if i == 2 {
      if root.below.next.End? {
        OnlyIsWrong(u, regs, root);
      } else {
        FirstMayBeRight(u, regs, root);
      }
    } else if SomeWrong(u, root, i) {
      var k :| 1 <= k < i && u[k].pdelay != TrueDelay(root, k);
      assert r[k].pdelay != TrueDelay(root, k);
    } else if i == Second(root) {
      SecondIsWrong(u, regs, root);
    } else {
      HangBehindFirst(root, i);
      assert r[1] == u[1];
    }
  }

  /** Whatever slave `i` finds, what is known of the delays goes on. */
  lemma {:induction false} FoundStep(u: seq<Entry>, regs: seq<Latch>, root: Row, i: nat)
    requires Next(u, regs, root, i) && Found(u, regs, root, i)
    ensures Found(Measure(u, i, regs[i - 1]), regs, root, i + 1)
  {
    hide SlaveShows, Measured, WrapFound, NoWrap, FirstGoesOn;
    var r := Measure(u, i, regs[i - 1]);
    WrapsBefore(regs, root, i);
    if NoWrapBefore(regs, root, i + 1) {
      MeasureIsExact(u, regs, root, i);
    } else if FirstGoesOn(regs, root) {
      if NoWrapBefore(regs, root, i) {
        LaterWraps(u, regs, root, i);
        assert r[i].pdelay != TrueDelay(root, i);
      } else {
        var k :| 1 <= k < i && u[k].pdelay != TrueDelay(root, k);
        assert r[k].pdelay != TrueDelay(root, k);
      }
    } else if FewLinks(root) {
      if i == 1 {
        FirstWraps(u, regs, root);
      } else {
        WrapFoundStep(u, regs, root, i);
      }
    }
  }

  lemma {:induction false} WrapsBefore(regs: seq<Latch>, root: Row, i: nat)
    requires IsBus(root) && |regs| == Size(root) && 1 <= i <= |regs|
    ensures NoWrapBefore(regs, root, i + 1) <==>
              NoWrapBefore(regs, root, i) && NoWrap(regs[i - 1], BusStations(root)[i - 1])
    ensures NoWrapBefore(regs, root, i + 1) ==> FirstGoesOn(regs, root)
    ensures i == 1 ==> NoWrapBefore(regs, root, 1) && (FirstGoesOn(regs, root) <==> NoWrapBefore(regs, root, 2))
  {
    var first := 1;
    assert NoWrapBefore(regs, root, i + 1) ==> NoWrap(regs[first - 1], BusStations(root)[first - 1]);
  }

  /** What is found holds of every stage of the pass over a bus. */
  lemma {:induction false} PassFinds(s: seq<Entry>, regs: seq<Latch>, root: Row, i: nat)
    requires Shows(s, regs, root) && ParentsFirst(s) && 1 <= i <= |s|
    ensures Found(Pass(s, regs, i), regs, root, i)
  {
    hide Found, Pass, Next, Measure, SlaveShows, ParentsFirst;
    if i == 1 {
      NothingFound(s, regs, root);
    } else {
      PassFinds(s, regs, root, i - 1);
      PassGoesOn(s, regs, root, i - 1);
      FoundStep(Pass(s, regs, i - 1), regs, root, i - 1);
    }
  }

  lemma {:induction false} NothingFound(s: seq<Entry>, regs: seq<Latch>, root: Row)
    requires Shows(s, regs, root) && ParentsFirst(s)
    ensures Found(Pass(s, regs, 1), regs, root, 1)
  {
  }

  lemma {:induction false} PassGoesOn(s: seq<Entry>, regs: seq<Latch>, root: Row, i: nat)
    requires Shows(s, regs, root) && ParentsFirst(s) && 1 <= i < |s|
    ensures Next(Pass(s, regs, i), regs, root, i)
    ensures Pass(s, regs, i + 1) == Measure(Pass(s, regs, i), i, regs[i - 1])
  {
    hide Measure, LatchedBy;
    PassKeeps(s, regs, i);
    assert SlaveShows(s[i], regs[i - 1], BusStations(root)[i - 1]);
    var p := s[i].parent;
    if p > 0 {
      assert SlaveShows(s[p], regs[p - 1], BusStations(root)[p - 1]);
    }
  }

  /** The delays that ecx_configdc promises. */
  ghost predicate DelaysAreTrue(s: seq<Entry>, root: Row)
    requires IsBus(root) && |s| == Size(root) + 1
  {
    forall k :: 1 <= k < |s| ==> s[k].pdelay == TrueDelay(root, k)
  }

  /** The pass over a whole bus gives every slave its true delay if no clock wraps while the frame is behind
      its slave. If at most two links lead on from the first slave, or its clock does not wrap, then only if
      no clock wraps. */
  lemma {:induction false} PassIsExact(s: seq<Entry>, regs: seq<Latch>, root: Row)
    requires Shows(s, regs, root) && ParentsFirst(s)
    ensures NoneWraps(regs, root) ==> DelaysAreTrue(Pass(s, regs, |s|), root)
    ensures Decisive(regs, root) ==> (DelaysAreTrue(Pass(s, regs, |s|), root) <==> NoneWraps(regs, root))
  {
    hide Pass, NoWrap;
    var r := Pass(s, regs, |s|);
    PassFinds(s, regs, root, |s|);
    if NoneWraps(regs, root) {
      forall k | 1 <= k < |s| ensures r[k].pdelay == TrueDelay(root, k) {
        assert Done(r[k], root, k, |s|);
      }
    } else if FirstGoesOn(regs, root) {
    } else if FewLinks(root) {
      NotOnlyHalfway(r, root);
    }
  }

  lemma {:induction false} NotOnlyHalfway(r: seq<Entry>, root: Row)
    requires IsBus(root) && FewLinks(root) && |r| == Size(root) + 1 > 2 && WrapFound(r, root, |r|)
    ensures SomeWrong(r, root, |r|)
  {
    if root.below.next.Link? {
      BehindSecond(root);
    }
  }
}
