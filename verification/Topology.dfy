/** The physical tree of slaves and the path a frame takes through it.

    A slave has four ports. The frame always enters a slave on port 0, then visits whatever hangs
    on ports 3, 1 and 2, in that order, and leaves on port 0 again; slaves are therefore numbered in
    preorder. This is the environment of the master: nothing in it is computed by the master, which
    only sees port maps and latched receive times.
 */
module Topology {
  import opened Bits

  /** A bitmap over the four ports of a slave. */
  datatype PortMap = PortMap(p0: bool, p1: bool, p2: bool, p3: bool) {
    predicate Has(port: nat) {
      match port
      case 0 => p0
      case 1 => p1
      case 2 => p2
      case 3 => p3
      case _ => false
    }

    function With(port: nat): PortMap {
      match port
      case 0 => this.(p0 := true)
      case 1 => this.(p1 := true)
      case 2 => this.(p2 := true)
      case 3 => this.(p3 := true)
      case _ => this
    }

    function Without(port: nat): PortMap {
      match port
      case 0 => this.(p0 := false)
      case 1 => this.(p1 := false)
      case 2 => this.(p2 := false)
      case 3 => this.(p3 := false)
      case _ => this
    }

    function Count(): nat {
      (if p0 then 1 else 0) + (if p1 then 1 else 0) + (if p2 then 1 else 0) + (if p3 then 1 else 0)
    }
  }

  const NO_PORTS := PortMap(false, false, false, false)

  /** The order in which a frame passes the ports of a slave: 0, 3, 1, 2. */
  function Rank(port: nat): nat {
    match port
    case 0 => 0
    case 3 => 1
    case 1 => 2
    case _ => 3
  }

  /** The links that leave one slave, in the order the frame takes them. Each link leads to one
      slave, and `below` are the links leaving that slave in turn. `delay` is the propagation time
      of the link in one direction, `clock` the offset of the far slave's receive-time clock. */
  datatype Row = End | Link(port: nat, delay: nat, clock: int, below: Row, next: Row)

  /** The links of a row sit on ports 1 to 3 and are listed in the order of the frame. */
  predicate Wired(row: Row, floor: nat) {
    row.Link? ==>
      && 1 <= row.port <= 3 && floor < Rank(row.port)
      && Wired(row.below, 0) && Wired(row.next, Rank(row.port))
  }

  /** A bus: the single link from the master to the first slave and everything behind it. */
  predicate IsBus(root: Row) {
    root.Link? && root.next.End? && Wired(root.below, 0)
  }

  function Size(row: Row): nat {
    if row.End? then 0 else 1 + Size(row.below) + Size(row.next)
  }

  function Length(row: Row): nat {
    if row.End? then 0 else 1 + Length(row.next)
  }

  /** Time from the frame setting out for the first link of a row to its return from the last. */
  function RoundTrip(row: Row): nat {
    if row.End? then 0 else 2 * row.delay + RoundTrip(row.below) + RoundTrip(row.next)
  }

  function PortsOf(row: Row): PortMap {
    if row.End? then NO_PORTS else PortsOf(row.next).With(row.port)
  }

  /** When a frame that starts on a row at time `departure` comes back through `port`. */
  function ReturnTime(row: Row, departure: int, port: nat): int {
    if row.End? then departure
    else
      var back := departure + 2 * row.delay + RoundTrip(row.below);
      if port == row.port then back else ReturnTime(row.next, back, port)
  }

  /** What is true of one slave. It hangs on slave `parent` by the first link of `link`; the frame
      sets out for it at time `departure`, having come back to the parent through port `prev`. */
  datatype Station = Station(parent: nat, prev: nat, departure: int, link: Row)

  type Slave = s: Station | s.link.Link? witness Station(0, 0, 0, Link(1, 0, 0, End, End))

  function Arrival(s: Slave): int {
    s.departure + s.link.delay
  }

  function Active(s: Slave): PortMap {
    PortsOf(s.link.below).With(0)
  }

  /** A word of the DL status register says which ports have a link and communication: for port `p`, bit 9 + 2p
      that there is communication, and bit 8 + 2p that the port is closed. */
  predicate OpenIn(dlstat: nat, port: nat) {
    Bit(dlstat, 9 + 2 * port) && !Bit(dlstat, 8 + 2 * port)
  }

  /** A DL status word of a slave: its active ports are those that are open, whatever the other bits are. */
  ghost predicate StatusOf(dlstat: nat, s: Slave) {
    forall port {:trigger OpenIn(dlstat, port)} :: 0 <= port <= 3 ==> (OpenIn(dlstat, port) <==> Active(s).Has(port))
  }

  /** The time at which the frame passes an active port of the slave. */
  function PassTime(s: Slave, port: nat): int {
    if port == 0 then Arrival(s) else ReturnTime(s.link.below, Arrival(s), port)
  }

  /** The time at which the frame is back from the first link of a row. */
  function BackFromFirst(row: Row, departure: int): int
    requires row.Link?
  {
    departure + 2 * row.delay + RoundTrip(row.below)
  }

  /** All slaves of a row and below, in preorder; the first of them has number `self`. */
  function Stations(row: Row, self: nat, parent: nat, prev: nat, departure: int): (s: seq<Slave>)
    ensures |s| == Size(row)
  {
    if row.End? then []
    else
      [Station(parent, prev, departure, row)]
      + Stations(row.below, self + 1, self, 0, departure + row.delay)
      + Stations(row.next, self + 1 + Size(row.below), parent, row.port, BackFromFirst(row, departure))
  }

  /** The slaves of a whole bus: slave 1, at index 0, hangs on the master, number 0. */
  function BusStations(root: Row): (s: seq<Slave>)
    requires IsBus(root)
    ensures |s| == Size(root)
  {
    Stations(root, 1, 0, 0, 0)
  }

  /** The slaves of a row occupy the numbers from `self` on in the list `bus` of all slaves. */
  ghost predicate Stationed(bus: seq<Slave>, row: Row, self: nat, parent: nat, prev: nat, departure: int) {
    row.Link? ==>
      && 1 <= self && self + Size(row) <= |bus| + 1
      && bus[self - 1] == Station(parent, prev, departure, row)
      && Stationed(bus, row.below, self + 1, self, 0, departure + row.delay)
      && Stationed(bus, row.next, self + 1 + Size(row.below), parent, row.port, BackFromFirst(row, departure))
  }

  /** The list has the slaves of `part` from index `at` on. */
  ghost predicate HasPart(bus: seq<Slave>, at: nat, part: seq<Slave>) {
    at + |part| <= |bus| && forall i {:trigger part[i]} :: 0 <= i < |part| ==> bus[at + i] == part[i]
  }

  lemma {:induction false} TwoParts(bus: seq<Slave>, at: nat, a: seq<Slave>, b: seq<Slave>)
    requires HasPart(bus, at, a + b)
    ensures HasPart(bus, at, a) && HasPart(bus, at + |a|, b)
  {
    forall i {:trigger a[i]} | 0 <= i < |a| ensures bus[at + i] == a[i] {
      assert (a + b)[i] == a[i];
    }
    forall i {:trigger b[i]} | 0 <= i < |b| ensures bus[at + |a| + i] == b[i] {
      assert (a + b)[|a| + i] == b[i];
    }
  }

  lemma {:induction false} StationsArePlaced(bus: seq<Slave>, row: Row, self: nat, parent: nat, prev: nat,
                                             departure: int)
    requires 1 <= self && HasPart(bus, self - 1, Stations(row, self, parent, prev, departure))
    ensures Stationed(bus, row, self, parent, prev, departure)
    decreases row
  {
    if row.Link? {
      var first := [Station(parent, prev, departure, row)];
      var below := Stations(row.below, self + 1, self, 0, departure + row.delay);
      var next := Stations(row.next, self + 1 + Size(row.below), parent, row.port, BackFromFirst(row, departure));
      TwoParts(bus, self - 1, first + below, next);
      TwoParts(bus, self - 1, first, below);
      assert bus[self - 1] == first[0];
      hide Stations, BackFromFirst, HasPart;
      StationsArePlaced(bus, row.below, self + 1, self, 0, departure + row.delay);
      StationsArePlaced(bus, row.next, self + 1 + Size(row.below), parent, row.port, BackFromFirst(row, departure));
    }
  }

  lemma {:induction false} BusIsPlaced(root: Row)
    requires IsBus(root)
    ensures Stationed(BusStations(root), root, 1, 0, 0, 0)
  {
    StationsArePlaced(BusStations(root), root, 1, 0, 0, 0);
  }

  /** Every port in the map lies later in the order of the frame than rank `floor`. */
  predicate Above(ports: PortMap, floor: nat) {
    !ports.p0 && (ports.p3 ==> floor < 1) && (ports.p1 ==> floor < 2) && (ports.p2 ==> floor < 3)
  }

  lemma {:induction false} RowBounds(row: Row, floor: nat)
    requires Wired(row, floor)
    ensures Above(PortsOf(row), floor)
    ensures PortsOf(row).Count() == Length(row) <= 3
  {
    if row.Link? {
      RowBounds(row.next, Rank(row.port));
    }
  }

  /** A slave has one link more than slaves hanging on it. */
  lemma {:induction false} CountsOpenPorts(s: Slave)
    requires Wired(s.link.below, 0)
    ensures Active(s).Count() == 1 + Length(s.link.below) <= 4
  {
    RowBounds(s.link.below, 0);
  }
}
