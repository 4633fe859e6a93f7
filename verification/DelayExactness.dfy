/** The delay computed from port time stamps is the time the frame really takes to a slave. */
module DelayExactness {
  import opened Topology
  import opened PortOrder
  import opened DistributedClocks

  /** The registers of a slave hold, for every active port, the time at which the frame passed it on
      the slave's own clock, reduced to a signed 32-bit number. */
  ghost predicate LatchedBy(rt: Latch, s: Slave) {
    forall q :: Active(s).Has(q) ==> rt.Port(q) == Int32(s.link.clock + PassTime(s, q))
  }

  /** The clock of the slave does not wrap while the frame is behind it: port 0 has the lowest stamp. */
  ghost predicate NoWrap(rt: Latch, s: Slave) {
    forall q :: Active(s).Has(q) ==> rt.Port(0) <= rt.Port(q)
  }

  /** A slave below one that has a single open port is measured at that port, where no time passes. */
  lemma {:induction false} BelowOnePort(parent: Entry, s: Entry, first: bool)
    requires parent.topology == 1 && parent.activeports == NO_PORTS.With(parent.entryport) && parent.entryport <= 3
    ensures var a := Attached(parent, s, first); a.parentport == parent.entryport && SpanAt(parent, a.parentport) == 0
  {
  }

  /** The 32-bit number that differs from `x` by a multiple of 2^32. */
  lemma {:induction false} Int32Is(x: int)
    ensures -0x8000_0000 <= Int32(x) < 0x8000_0000 && (Int32(x) - x) % 0x1_0000_0000 == 0
  {
    assert Int32(x) - x == -0x1_0000_0000 * ((x + 0x8000_0000) / 0x1_0000_0000);
  }

  /** Whatever the stamps are, a slave behind earlier children of its parent is never measured at less than the
      first child would be: in 32 bits, by at most half their range more. */
  lemma {:induction false} LaterIsNotShorter(parent: Entry, slave: Entry)
    ensures (PathDelay(parent, slave, false) - PathDelay(parent, slave, true)) % 0x1_0000_0000 <= 0x8000_0000
  {
    Int32Is(slave.rt.Port(0));
    var dt3, inner, earlier := SpanAt(parent, slave.parentport), Inside(slave), SpanBefore(parent, slave.parentport);
    var first := Half(dt3 - (if inner > dt3 then -inner else inner)) + 0 + parent.pdelay;
    var dt2 := if earlier < 0 then -earlier else earlier;
    hide SpanAt, Inside, SpanBefore, Half;
    Int32Is(first);
    Int32Is(first + dt2);
    SpanIsShort(parent, slave.parentport);
    Difference(Int32(first + dt2), Int32(first), first + dt2, first);
  }

  lemma {:induction false} SpanIsShort(slave: Entry, port: nat)
    ensures -0x8000_0000 <= SpanBefore(slave, port) < 0x8000_0000
  {
    Int32Is(slave.rt.Port(PrevPort(slave.activeports, port)) - slave.rt.Port(slave.entryport));
  }

  lemma {:induction false} Difference(a: int, b: int, c: int, d: int)
    requires (a - c) % 0x1_0000_0000 == 0 == (b - d) % 0x1_0000_0000 && 0 <= c - d < 0x1_0000_0000
    ensures (a - b) % 0x1_0000_0000 == c - d
  {
    var m, n := (a - c) / 0x1_0000_0000, (b - d) / 0x1_0000_0000;
    assert a - b == 0x1_0000_0000 * (m - n) + (c - d);
  }

  /** Half of a number, rounded towards zero. */
  lemma {:induction false} HalfIs(x: int)
    ensures Half(-x) == -Half(x) && (x >= 0 ==> 2 * Half(x) <= x <= 2 * Half(x) + 1)
  {
  }

  /** Differences of wrapped stamps are exact as long as they fit in 31 bits. */
  lemma {:induction false} StampDifference(clock: int, x: int, y: int)
    requires 0 - TWO31 <= x - y < TWO31
    ensures Int32(Int32(clock + x) - Int32(clock + y)) == x - y
  {
    var a, b := clock + x + TWO31, clock + y + TWO31;
    assert a == TWO32 * (a / TWO32) + a % TWO32;
    assert b == TWO32 * (b / TWO32) + b % TWO32;
    var n := (b / TWO32) - (a / TWO32);
    var d := Int32(clock + x) - Int32(clock + y);
    assert d == x - y + TWO32 * n;
    Reduce(x - y, n);
  }

  lemma {:induction false} Reduce(v: int, n: int)
    requires 0 - TWO31 <= v < TWO31
    ensures Int32(v + TWO32 * n) == v
  {
    assert (v + TWO31 + TWO32 * n) % TWO32 == v + TWO31;
  }

  lemma {:induction false} PrevPortIsLast(p: Slave, last: nat, row: Row, departure: int)
    requires At(p, last, row, departure) && row.Link? && last <= 3
    ensures PrevPort(Active(p), row.port) == last
  {
    RowBounds(row.next, Rank(row.port));
    assert Active(p).Has(1) && Rank(1) > Rank(last) ==> PortsOf(row).Has(1);
    assert Active(p).Has(2) && Rank(2) > Rank(last) ==> PortsOf(row).Has(2);
    assert Active(p).Has(3) && Rank(3) > Rank(last) ==> PortsOf(row).Has(3);
  }

  /** The last port of a non-empty row in the order of the frame. */
  function LastPort(ports: PortMap): nat {
    if ports.p2 then 2 else if ports.p1 then 1 else 3
  }

  lemma {:induction false} ReturnFromLast(row: Row, floor: nat, departure: int)
    requires row.Link? && Wired(row, floor)
    ensures ReturnTime(row, departure, LastPort(PortsOf(row))) == departure + RoundTrip(row)
  {
    RowBounds(row.next, Rank(row.port));
    if row.next.Link? {
      ReturnFromLast(row.next, Rank(row.port), BackFromFirst(row, departure));
      assert PortsOf(row.next).Has(row.next.port);
    }
  }

  /** How long a frame is away below a slave, from the stamps of its entry port and its last port. */
  lemma {:induction false} InnerTime(s: Slave)
    requires Wired(s.link.below, 0) && s.link.below.Link?
    ensures Active(s).Has(PrevPort(Active(s), 0))
    ensures PassTime(s, PrevPort(Active(s), 0)) == Arrival(s) + RoundTrip(s.link.below)
  {
    var below := s.link.below;
    RowBounds(below, 0);
    ReturnFromLast(below, 0, Arrival(s));
    assert PortsOf(below).Has(below.port);
  }

  lemma {:induction false} ReturnIsLater(row: Row, departure: int, port: nat)
    ensures departure <= ReturnTime(row, departure, port) <= departure + RoundTrip(row)
  {
    if row.Link? && port != row.port {
      ReturnIsLater(row.next, BackFromFirst(row, departure), port);
    }
  }

  /** No slave of a row is reached before the frame starts on the row, and all are left again before
      it is back. */
  lemma {:induction false} WithinRow(bus: seq<Slave>, row: Row, self: nat, parent: nat, prev: nat, departure: int,
                                     k: nat)
    requires Stationed(bus, row, self, parent, prev, departure) && 1 <= self <= k < self + Size(row)
    ensures departure <= Arrival(bus[k - 1])
    ensures Arrival(bus[k - 1]) + RoundTrip(bus[k - 1].link.below) <= departure + RoundTrip(row)
  {
    if k == self {
    } else if k <= self + Size(row.below) {
      WithinRow(bus, row.below, self + 1, self, 0, departure + row.delay, k);
    } else {
      WithinRow(bus, row.next, self + 1 + Size(row.below), parent, row.port, BackFromFirst(row, departure), k);
    }
  }

  /** A slave with something below it has more than one link. */
  lemma {:induction false} ParentHasLinks(p: Slave, c: Slave)
    requires At(p, c.prev, c.link, c.departure)
    ensures Active(p).Count() > 1 && c.prev <= 3
  {
    assert PortsOf(c.link).Has(c.link.port);
  }

  /** What the slave list says about a slave whose times have been taken in. */
  ghost predicate Knows(e: Entry, s: Slave) {
    && e.activeports == Active(s) && e.topology == Active(s).Count() && e.entryport == 0
    && LatchedBy(e.rt, s)
  }

  /** One step of the measurement: if the delay of the parent is exact then so is the slave's. */
  lemma {:induction false} DelayStep(p: Slave, c: Slave, parent: Entry, slave: Entry, first: bool, start: int)
    requires Knows(parent, p) && Knows(slave, c)
    requires At(p, c.prev, c.link, c.departure) && Wired(p.link.below, 0) && Wired(c.link.below, 0)
    requires slave.parentport == c.link.port
    requires first ==> c.prev == 0
    requires RoundTrip(p.link.below) < TWO31
    requires parent.pdelay == Arrival(p) - start && 0 <= Arrival(c) - start < TWO31
    ensures PathDelay(parent, slave, first) == Arrival(c) - start
  {
    ParentHasLinks(p, c);
    PrevPortIsLast(p, c.prev, c.link, c.departure);
    LinkWithinRow(p, c);
    ThroughLink(p, c, parent);
    InsideSlave(c, slave);
    EarlierChildren(p, c, parent);
    DelayFormula(parent, slave, first, c.link.delay, RoundTrip(c.link.below), c.departure - Arrival(p));
  }

  /** What the delay formula makes of the three spans. */
  lemma {:induction false} DelayFormula(parent: Entry, slave: Entry, first: bool, delay: nat, inner: nat, earlier: nat)
    requires SpanAt(parent, slave.parentport) == 2 * delay + inner
    requires Inside(slave) == inner
    requires SpanBefore(parent, slave.parentport) == earlier
    requires first ==> earlier == 0
    requires 0 <= delay + earlier + parent.pdelay < TWO31
    ensures PathDelay(parent, slave, first) == delay + earlier + parent.pdelay
  {
    assert Half(2 * delay) == delay;
    Reduce(delay + earlier + parent.pdelay, 0);
  }

  /** The stamps of the parent around a link span twice its delay and the time behind it. */
  lemma {:induction false} ThroughLink(p: Slave, c: Slave, parent: Entry)
    requires Knows(parent, p) && At(p, c.prev, c.link, c.departure) && RoundTrip(p.link.below) < TWO31
    ensures Int32(parent.rt.Port(c.link.port) - parent.rt.Port(c.prev))
            == 2 * c.link.delay + RoundTrip(c.link.below)
  {
    AtNext(p, c.prev, c.link, c.departure);
    assert PortsOf(c.link).Has(c.link.port);
    LinkWithinRow(p, c);
    StampDifference(p.link.clock, PassTime(p, c.link.port), PassTime(p, c.prev));
  }

  /** The stamps of a slave span the time the frame spends below it. */
  lemma {:induction false} InsideSlave(c: Slave, slave: Entry)
    requires Knows(slave, c) && Wired(c.link.below, 0) && RoundTrip(c.link.below) < TWO31
    ensures Inside(slave) == RoundTrip(c.link.below)
  {
    CountsOpenPorts(c);
    if c.link.below.Link? {
      InnerTime(c);
      StampDifference(c.link.clock, Arrival(c) + RoundTrip(c.link.below), Arrival(c));
    }
  }

  lemma {:induction false} LinkWithinRow(p: Slave, c: Slave)
    requires At(p, c.prev, c.link, c.departure)
    ensures 2 * c.link.delay + RoundTrip(c.link.below) <= RoundTrip(p.link.below)
  {
    AtNext(p, c.prev, c.link, c.departure);
    assert PortsOf(c.link).Has(c.link.port);
    ReturnIsLater(p.link.below, Arrival(p), c.link.port);
    ReturnIsLater(p.link.below, Arrival(p), c.prev);
  }

  lemma {:induction false} EarlierChildren(p: Slave, c: Slave, parent: Entry)
    requires Knows(parent, p) && At(p, c.prev, c.link, c.departure) && RoundTrip(p.link.below) < TWO31
    ensures Int32(parent.rt.Port(c.prev) - parent.rt.Port(0)) == c.departure - Arrival(p) >= 0
  {
    ReturnIsLater(p.link.below, Arrival(p), c.prev);
    StampDifference(p.link.clock, c.departure, Arrival(p));
  }
}
