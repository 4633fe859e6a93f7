/** What becomes of the slaves behind the first one if the clock of that one wraps. The links of the first
    slave are then handed out in the wrong order, and the last slave behind it is given port 0. */
module WrappedFirst {
  import opened Topology
  import opened PortOrder
  import opened DistributedClocks
  import opened DelayExactness
  import opened WrappedClocks

  /** The first slave after its times have been taken in, with a later port for the entry port. */
  ghost predicate Wrapped(e: Entry, first: Slave) {
    TakenIn(e, first) && e.entryport != 0 && e.pdelay == 0
  }

  /** The time from the frame setting out for the first link of a row to its return from it. */
  function Span(row: Row): nat
    requires row.Link?
  {
    2 * row.delay + RoundTrip(row.below)
  }

  /** The delay formula when the parent's stamps are taken in the wrong order. */
  lemma {:induction false} FormulaBackwards(parent: Entry, slave: Entry, first: bool, around: nat)
    requires SpanAt(parent, slave.parentport) == 0 - around && around % 2 == 0
    requires Inside(slave) % 2 == 0 && 0 - around < Inside(slave) <= around
    requires first || SpanBefore(parent, slave.parentport) >= 0
    requires parent.pdelay == 0 && around < TWO31
    requires first || SpanBefore(parent, slave.parentport) < TWO31
    ensures PathDelay(parent, slave, first)
            == (if first then 0 else SpanBefore(parent, slave.parentport)) - (around - Inside(slave)) / 2
  {
    hide Int32, Inside;
    var earlier := if first then 0 else SpanBefore(parent, slave.parentport);
    assert Half(0 - around + Inside(slave)) == 0 - (around - Inside(slave)) / 2;
    Reduce(earlier - (around - Inside(slave)) / 2, 0);
  }

  /** A slave with one link: seen from port 0, the port before is that of the link. */
  lemma {:induction false} OneLink(p: Slave)
    requires Wired(p.link.below, 0) && p.link.below.Link? && p.link.below.next.End?
    ensures var port := p.link.below.port;
            && 1 <= port <= 3 && Active(p) == NO_PORTS.With(0).With(port) && PrevPort(Active(p), 0) == port
            && PassTime(p, port) == Arrival(p) + RoundTrip(p.link.below) && PassTime(p, 0) == Arrival(p)
    ensures RoundTrip(p.link.below) == Span(p.link.below)
  {
    assert PortsOf(p.link.below.next) == NO_PORTS && RoundTrip(p.link.below.next) == 0;
  }

  /** If the first slave has one link and its clock wraps, the slave behind the link gets a negative
      delay. */
  lemma {:induction false} OnlyChild(p: Slave, c: Slave, parent: Entry, slave: Entry)
    requires Wrapped(parent, p) && TakenIn(slave, c) && RoundTrip(p.link.below) < TWO31
    requires Wired(p.link.below, 0) && p.link.below == c.link && c.link.next.End? && c.link.delay > 0
    requires slave.parentport == 0
    ensures PathDelay(parent, slave, true) < 0
  {
    hide TakenIn, Int32, Inside, PathDelay;
    OneLink(p);
    OneLinkStamps(p, parent);
    InsideOfAny(c, slave);
    RoundTripIsEven(c.link);
    FormulaBackwards(parent, slave, true, Span(c.link));
  }

  lemma {:induction false} OneLinkStamps(p: Slave, parent: Entry)
    requires Wrapped(parent, p) && RoundTrip(p.link.below) < TWO31
    requires Wired(p.link.below, 0) && p.link.below.Link? && p.link.below.next.End?
    ensures SpanAt(parent, 0) == 0 - RoundTrip(p.link.below)
  {
    OneLink(p);
    StampDifference(p.link.clock, PassTime(p, 0), PassTime(p, p.link.below.port));
  }

  ghost predicate HasTwoLinks(p: Slave) {
    Wired(p.link.below, 0) && p.link.below.Link? && p.link.below.next.Link? && p.link.below.next.next.End?
  }

  /** A slave with two links: the ports before each of its three ports, and when they are passed. */
  lemma {:induction false} TwoLinks(p: Slave)
    requires HasTwoLinks(p)
    ensures var a, b := p.link.below.port, p.link.below.next.port;
            && 1 <= a <= 3 && 1 <= b <= 3 && Rank(a) < Rank(b)
            && Active(p) == NO_PORTS.With(0).With(a).With(b)
            && PrevPort(Active(p), 0) == b && PrevPort(Active(p), b) == a
            && PassTime(p, 0) == Arrival(p) && PassTime(p, a) == Arrival(p) + Span(p.link.below)
            && PassTime(p, b) == Arrival(p) + RoundTrip(p.link.below)
    ensures RoundTrip(p.link.below) == Span(p.link.below) + Span(p.link.below.next)
  {
    var second := p.link.below.next;
    assert Wired(second, Rank(p.link.below.port));
    assert PortsOf(second.next) == NO_PORTS && RoundTrip(second.next) == 0;
    assert PortsOf(second) == NO_PORTS.With(second.port);
    var back := BackFromFirst(p.link.below, Arrival(p));
    assert ReturnTime(second, back, second.port) == back + Span(second);
  }

  /** The stamps of a first slave with two links whose clock has wrapped: up to the second link they span
      that link, and up to port 0 everything, backwards. */
  lemma {:induction false} TwoLinksStamps(p: Slave, parent: Entry)
    requires Wrapped(parent, p) && HasTwoLinks(p) && RoundTrip(p.link.below) < TWO31
    ensures SpanAt(parent, p.link.below.next.port) == Span(p.link.below.next)
    ensures SpanAt(parent, 0) == 0 - RoundTrip(p.link.below)
    ensures parent.entryport == p.link.below.port ==> SpanBefore(parent, 0) == Span(p.link.below.next)
    ensures parent.entryport != p.link.below.port ==> SpanBefore(parent, 0) == 0
  {
    hide Span, RoundTrip, PassTime, Int32;
    TwoLinks(p);
    var a, b := p.link.below.port, p.link.below.next.port;
    assert parent.entryport == a || parent.entryport == b;
    StampDifference(p.link.clock, PassTime(p, b), PassTime(p, a));
    StampDifference(p.link.clock, PassTime(p, 0), PassTime(p, b));
    StampDifference(p.link.clock, PassTime(p, b), PassTime(p, b));
  }

  /** If the port of the first link is taken for the entry port, the first of two children is given the
      port of the second; its delay is then right only if the second link is no longer than the first. */
  lemma {:induction false} FirstOfTwo(p: Slave, c: Slave, parent: Entry, slave: Entry)
    requires Wrapped(parent, p) && TakenIn(slave, c) && HasTwoLinks(p) && RoundTrip(p.link.below) < TWO31
    requires c.link == p.link.below && Wired(c.link.below, 0) && slave.parentport == c.link.next.port
    requires PathDelay(parent, slave, true) == c.link.delay
    ensures Span(c.link.next) <= Span(c.link)
  {
    hide TakenIn, Int32, Inside, PathDelay;
    TwoLinks(p);
    TwoLinksStamps(p, parent);
    InsideOfAny(c, slave);
    RoundTripIsEven(c.link.next.below);
    FormulaOfNext(parent, slave, Span(c.link.next));
  }

  lemma {:induction false} FormulaOfNext(parent: Entry, slave: Entry, next: nat)
    requires SpanAt(parent, slave.parentport) == next && next % 2 == 0
    requires Inside(slave) % 2 == 0 && 0 - TWO31 < Inside(slave) < TWO31 && next < TWO31
    requires next + Inside(slave) < TWO31 && next - Inside(slave) < TWO31 && parent.pdelay == 0
    ensures PathDelay(parent, slave, true)
            == (if Inside(slave) > next then next + Inside(slave) else next - Inside(slave)) / 2
  {
    hide Int32, Inside;
    var sum := if Inside(slave) > next then next + Inside(slave) else next - Inside(slave);
    assert Half(sum) == sum / 2;
    Reduce(sum / 2, 0);
  }

  /** The second of two children is given port 0. Its delay is right at most if the second link is longer
      than the first, and then only if the port of the first link is taken for the entry port. */
  lemma {:induction false} SecondOfTwo(p: Slave, c: Slave, parent: Entry, slave: Entry)
    requires Wrapped(parent, p) && TakenIn(slave, c) && HasTwoLinks(p) && RoundTrip(p.link.below) < TWO31
    requires c.link == p.link.below.next && Wired(c.link.below, 0) && slave.parentport == 0
    requires p.link.below.delay > 0
    requires parent.entryport == p.link.below.port ==> Span(c.link) <= Span(p.link.below)
    ensures PathDelay(parent, slave, false) != Span(p.link.below) + c.link.delay
  {
    hide TakenIn, Int32, Inside, PathDelay;
    TwoLinks(p);
    TwoLinksStamps(p, parent);
    InsideOfAny(c, slave);
    RoundTripIsEven(p.link.below);
    FormulaBackwards(parent, slave, false, RoundTrip(p.link.below));
  }
}
