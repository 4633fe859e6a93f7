/** What the measurement makes of a slave whose clock wraps while the frame is behind it: a later port
    then has the lowest stamp and is taken for the entry port, and a delay comes out wrong. */
module WrappedClocks {
  import opened Topology
  import opened PortOrder
  import opened DistributedClocks
  import opened DelayExactness

  /** What the slave list says about a slave whose times have been taken in, with any entry port. */
  ghost predicate TakenIn(e: Entry, s: Slave) {
    && e.activeports == Active(s) && e.topology == Active(s).Count() && LatchedBy(e.rt, s)
    && Active(s).Has(e.entryport)
  }

  lemma {:induction false} RoundTripIsEven(row: Row)
    ensures RoundTrip(row) % 2 == 0
  {
    if row.Link? {
      RoundTripIsEven(row.below);
      RoundTripIsEven(row.next);
    }
  }

  /** A port is passed an even time after the active port before it. */
  lemma {:induction false} PassedAfterPrevious(p: Slave, last: nat, row: Row, departure: int, port: nat)
    requires At(p, last, row, departure) && last <= 3 && PortsOf(row).Has(port)
    ensures var before := PrevPort(Active(p), port);
            && Active(p).Has(before)
            && PassTime(p, before) <= PassTime(p, port)
            && (PassTime(p, port) - PassTime(p, before)) % 2 == 0
    decreases row
  {
    if port == row.port {
      PrevPortIsLast(p, last, row, departure);
      AtNext(p, last, row, departure);
      RoundTripIsEven(row.below);
    } else {
      AtNext(p, last, row, departure);
      RowBounds(row.next, Rank(row.port));
      PassedAfterPrevious(p, row.port, row.next, BackFromFirst(row, departure), port);
    }
  }

  /** All ports are passed between the arrival at a slave and its completion. */
  lemma {:induction false} PassedWithin(s: Slave, port: nat)
    ensures Arrival(s) <= PassTime(s, port) <= Arrival(s) + RoundTrip(s.link.below)
  {
    ReturnIsLater(s.link.below, Arrival(s), port);
  }

  /** If a later port has a lower stamp than port 0, the slave has something below it, and the span that
      the master takes for the time behind the slave is not positive. */
  lemma {:induction false} InsideWrapped(c: Slave, slave: Entry)
    requires TakenIn(slave, c) && Wired(c.link.below, 0) && RoundTrip(c.link.below) < TWO31
    requires slave.entryport != 0
    ensures 0 - RoundTrip(c.link.below) <= Inside(slave) <= 0 && Inside(slave) % 2 == 0
  {
    hide ReturnTime, RoundTrip, PrevPort, Wired;
    var e := slave.entryport;
    AtStart(c);
    PassedAfterPrevious(c, 0, c.link.below, Arrival(c), e);
    PassedWithin(c, e);
    var before := PrevPort(Active(c), e);
    PassedWithin(c, before);
    StampDifference(c.link.clock, PassTime(c, before), PassTime(c, e));
  }

  /** The span that the master takes for the time behind a slave, whichever port it takes for the entry. */
  lemma {:induction false} InsideOfAny(c: Slave, slave: Entry)
    requires TakenIn(slave, c) && Wired(c.link.below, 0) && RoundTrip(c.link.below) < TWO31
    ensures Inside(slave) % 2 == 0
    ensures Inside(slave) == RoundTrip(c.link.below) || 0 - RoundTrip(c.link.below) <= Inside(slave) <= 0
  {
    if slave.entryport == 0 {
      InsideSlave(c, slave);
      RoundTripIsEven(c.link.below);
    } else {
      InsideWrapped(c, slave);
    }
  }

  /** A clock that wraps has passed some time. */
  lemma {:induction false} WrapTakesTime(c: Slave, slave: Entry)
    requires TakenIn(slave, c) && slave.rt.Port(slave.entryport) < slave.rt.Port(0)
    ensures RoundTrip(c.link.below) > 0
  {
    PassedWithin(c, slave.entryport);
    assert Active(c).Has(0);
  }

  /** The delay formula with a span for the slave that is not positive. */
  lemma {:induction false} FormulaTooLarge(parent: Entry, slave: Entry, first: bool, delay: nat, behind: nat,
                                           earlier: nat)
    requires SpanAt(parent, slave.parentport) == 2 * delay + behind
    requires SpanBefore(parent, slave.parentport) == earlier
    requires first ==> earlier == 0
    requires behind % 2 == 0 && behind > 0 && 0 - behind <= Inside(slave) <= 0 && Inside(slave) % 2 == 0
    requires 0 <= delay + earlier + parent.pdelay && delay + earlier + parent.pdelay + behind < TWO31
    ensures PathDelay(parent, slave, first) > delay + earlier + parent.pdelay
  {
    hide Inside;
    var half := (behind - Inside(slave)) / 2;
    assert Half(2 * delay + behind - Inside(slave)) == delay + half;
    Reduce(delay + half + earlier + parent.pdelay, 0);
  }

  /** The first slave whose clock wraps gets a delay that is too large. */
  lemma {:induction false} WrapGivesTooMuch(p: Slave, c: Slave, parent: Entry, slave: Entry, first: bool, start: int)
    requires Knows(parent, p) && TakenIn(slave, c)
    requires At(p, c.prev, c.link, c.departure) && Wired(p.link.below, 0) && Wired(c.link.below, 0)
    requires slave.parentport == c.link.port
    requires first ==> c.prev == 0
    requires RoundTrip(p.link.below) < TWO31
    requires parent.pdelay == Arrival(p) - start && 0 <= Arrival(c) - start
    requires Arrival(c) - start + RoundTrip(c.link.below) < TWO31
    requires slave.rt.Port(slave.entryport) < slave.rt.Port(0)
    ensures PathDelay(parent, slave, first) > Arrival(c) - start
  {
    hide TakenIn, Knows, PathDelay, LatchedBy, Int32, Half, RoundTrip, Inside;
    ParentHasLinks(p, c);
    PrevPortIsLast(p, c.prev, c.link, c.departure);
    LinkWithinRow(p, c);
    ThroughLink(p, c, parent);
    InsideWrapped(c, slave);
    WrapTakesTime(c, slave);
    EarlierChildren(p, c, parent);
    RoundTripIsEven(c.link.below);
    KnowsPorts(parent, p);
    FormulaTooLarge(parent, slave, first, c.link.delay, RoundTrip(c.link.below), c.departure - Arrival(p));
  }

  lemma {:induction false} KnowsPorts(e: Entry, s: Slave)
    requires Knows(e, s)
    ensures e.activeports == Active(s) && e.entryport == 0
  {
  }
}
