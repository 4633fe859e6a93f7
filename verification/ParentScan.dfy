/** Recovering the parent of every slave from link counts alone (ecx_config_init).

    When slaves are numbered in preorder, the parent of a slave is found by walking back over the
    slaves before it with a counter: an end point counts -1, a line slave 0, a split +1 and a
    cross +2. The walk stops at the first slave with more than one link at which the counter is
    not negative.
 */
module ParentScan {
  import opened Topology
  import opened Bits

  /** What the topology part of ecx_config_init stores for one slave. */
  datatype Entry = Entry(activeports: PortMap, topology: int, parent: nat)

  /** The change of `topoc` at a slave with `links` links. */
  function Weight(links: int): int {
    if links == 1 then -1 else if links == 3 then 1 else if links == 4 then 2 else 0
  }

  /** The backward walk, about to look at slave `slavec` (whose link count is `links[slavec - 1]`)
      with counter `topoc`. The result is the number of the slave it stops at. */
  function Scan(links: seq<int>, slavec: nat, topoc: int): nat
    requires 1 <= slavec <= |links|
  {
    var c := topoc + Weight(links[slavec - 1]);
    if (c >= 0 && links[slavec - 1] > 1) || slavec == 1 then slavec else Scan(links, slavec - 1, c)
  }

  /** The link counts that the slaves of a bus report. */
  ghost predicate Reported(links: seq<int>, bus: seq<Slave>) {
    |links| == |bus| && forall i :: 0 <= i < |bus| ==> links[i] == Active(bus[i]).Count()
  }

  /** The link counts of a row whose first slave has number `self`: one more than the links below. */
  ghost predicate Counted(links: seq<int>, row: Row, self: nat) {
    row.Link? ==>
      && 1 <= self && self + Size(row) <= |links| + 1
      && links[self - 1] == 1 + Length(row.below) <= 4
      && Counted(links, row.below, self + 1)
      && Counted(links, row.next, self + 1 + Size(row.below))
  }

  lemma {:induction false} ReportedIsCounted(links: seq<int>, bus: seq<Slave>, row: Row, floor: nat, self: nat,
                                             parent: nat, prev: nat, departure: int)
    requires Reported(links, bus) && Stationed(bus, row, self, parent, prev, departure) && Wired(row, floor)
    ensures Counted(links, row, self)
  {
    if row.Link? {
      CountsOpenPorts(bus[self - 1]);
      ReportedIsCounted(links, bus, row.below, 0, self + 1, self, 0, departure + row.delay);
      ReportedIsCounted(links, bus, row.next, Rank(row.port), self + 1 + Size(row.below), parent, row.port,
                        BackFromFirst(row, departure));
    }
  }

  /** The walk passes over a complete row: every branch in it sums to -1, and every suffix of it is
      itself a sequence of complete branches, so the counter stays negative throughout. */
  lemma {:induction false} ScanSkipsRow(links: seq<int>, row: Row, self: nat, topoc: int)
    requires Counted(links, row, self) && 2 <= self <= |links| + 1 && topoc <= 0
    ensures Scan(links, self + Size(row) - 1, topoc) == Scan(links, self - 1, topoc - Length(row))
  {
    if row.Link? {
      var after := self + 1 + Size(row.below);
      ScanSkipsRow(links, row.next, after, topoc);
      ScanSkipsRow(links, row.below, self + 1, topoc - Length(row.next));
    }
  }

  /** What the slaves up to number `last` must do for a row of `length` links hanging on `parent`:
      a walk that enters them with a counter that accounts for fewer finished siblings than the row
      is long stops at `parent`. */
  ghost predicate LeadsTo(links: seq<int>, last: nat, length: nat, parent: nat)
    requires 1 <= last <= |links|
  {
    forall c :: 0 - length < c <= 0 ==> Scan(links, last, c) == parent
  }

  lemma {:induction false} ChildrenLeadHere(links: seq<int>, below: Row, self: nat)
    requires 1 <= self <= |links| && links[self - 1] == 1 + Length(below) <= 4
    ensures LeadsTo(links, self, Length(below), self)
  {
  }

  lemma {:induction false} SiblingsLeadOn(links: seq<int>, row: Row, self: nat, parent: nat)
    requires row.Link? && Counted(links, row, self) && 2 <= self
    requires LeadsTo(links, self - 1, Length(row), parent)
    ensures LeadsTo(links, self + Size(row.below), Length(row.next), parent)
  {
    var last := self + Size(row.below);
    forall c | 0 - Length(row.next) < c <= 0 ensures Scan(links, last, c) == parent {
      ScanSkipsRow(links, row.below, self + 1, c);
    }
  }

  /** For a row anywhere in the tree, the walk back from any of its slaves stops at that slave's
      true parent. */
  lemma {:induction false} ScanInRow(links: seq<int>, bus: seq<Slave>, row: Row, self: nat, parent: nat, prev: nat,
                                     departure: int, k: nat)
    requires |links| == |bus| && Counted(links, row, self) && Stationed(bus, row, self, parent, prev, departure)
    requires 2 <= self <= k < self + Size(row)
    requires LeadsTo(links, self - 1, Length(row), parent)
    ensures Scan(links, k - 1, 0) == bus[k - 1].parent
  {
    var after := self + 1 + Size(row.below);
    if k == self {
      assert Scan(links, self - 1, 0) == parent;
    } else if k < after {
      ChildrenLeadHere(links, row.below, self);
      ScanInRow(links, bus, row.below, self + 1, self, 0, departure + row.delay, k);
    } else {
      SiblingsLeadOn(links, row, self, parent);
      ScanInRow(links, bus, row.next, after, parent, row.port, BackFromFirst(row, departure), k);
    }
  }

  /** The whole bus: for every slave but the first the walk finds the true parent. */
  lemma {:induction false} ScanFindsParent(root: Row, links: seq<int>, slave: nat)
    requires IsBus(root) && Reported(links, BusStations(root)) && 1 < slave <= Size(root)
    ensures Scan(links, slave - 1, 0) == BusStations(root)[slave - 1].parent
  {
    var bus := BusStations(root);
    BusIsPlaced(root);
    CountsOpenPorts(bus[0]);
    ReportedIsCounted(links, bus, root.below, 0, 2, 1, 0, root.delay);
    ChildrenLeadHere(links, root.below, 1);
    ScanInRow(links, bus, root.below, 2, 1, 0, root.delay, slave);
  }

  /** The ports that are open and have communication, from the two bits of each port in the DL status
      register. */
  function OpenPorts(dlstat: nat): PortMap {
    PortMap(dlstat / 0x100 % 4 == 2, dlstat / 0x400 % 4 == 2, dlstat / 0x1000 % 4 == 2, dlstat / 0x4000 % 4 == 2)
  }

  /** Two neighbouring bits of a word. */
  lemma {:induction false} TwoBits(w: nat, k: nat)
    ensures Shifted(w, k) % 4 == 2 <==> Bit(w, k + 1) && !Bit(w, k)
  {
    BitOfShifted(w, k, 0);
    BitOfShifted(w, k, 1);
    var q := Shifted(w, k);
    assert Bit(q, 1) == Bit(q / 2, 0);
  }

  lemma {:induction false} ShiftedByTwo(w: nat, k: nat)
    ensures Shifted(w, k + 2) == Shifted(w, k) / 4
  {
    assert Shifted(w, k + 1) == Shifted(w, k) / 2;
  }

  lemma {:induction false} PortBits(w: nat)
    ensures Shifted(w, 8) == w / 0x100 && Shifted(w, 10) == w / 0x400
    ensures Shifted(w, 12) == w / 0x1000 && Shifted(w, 14) == w / 0x4000
  {
    assert Shifted(w, 0) == w;
    ShiftedByTwo(w, 0);
    ShiftedByTwo(w, 2);
    ShiftedByTwo(w, 4);
    ShiftedByTwo(w, 6);
    ShiftedByTwo(w, 8);
    ShiftedByTwo(w, 10);
    ShiftedByTwo(w, 12);
    hide Shifted;
    assert Shifted(w, 8) == w / 0x100;
  }

  /** A port is open if its communication bit is set and its bit for a closed port is not. */
  lemma {:induction false} OpenPortsAreOpen(dlstat: nat)
    ensures forall port {:trigger OpenIn(dlstat, port)} :: 0 <= port <= 3 ==>
              (OpenPorts(dlstat).Has(port) <==> OpenIn(dlstat, port))
  {
    hide Shifted, Bit;
    PortBits(dlstat);
    TwoBits(dlstat, 8);
    TwoBits(dlstat, 10);
    TwoBits(dlstat, 12);
    TwoBits(dlstat, 14);
  }

  /** Port maps with the same ports. */
  lemma {:induction false} SamePorts(a: PortMap, b: PortMap)
    requires a.Has(0) == b.Has(0) && a.Has(1) == b.Has(1) && a.Has(2) == b.Has(2) && a.Has(3) == b.Has(3)
    ensures a == b
  {
  }

  lemma {:induction false} StatusShows(dlstat: nat, s: Slave)
    requires StatusOf(dlstat, s)
    ensures OpenPorts(dlstat) == Active(s)
  {
    hide OpenPorts, Active, OpenIn;
    OpenPortsAreOpen(dlstat);
    var a, b := OpenPorts(dlstat), Active(s);
    assert OpenIn(dlstat, 0) == b.Has(0) && OpenIn(dlstat, 1) == b.Has(1) && OpenIn(dlstat, 2) == b.Has(2)
           && OpenIn(dlstat, 3) == b.Has(3);
    SamePorts(a, b);
  }

  /** Port map and number of links of one slave. */
  method ReadPorts(dlstat: nat) returns (b: PortMap, h: nat)
    ensures b == OpenPorts(dlstat) && h == b.Count()
    ensures forall port {:trigger OpenIn(dlstat, port)} :: 0 <= port <= 3 ==> (b.Has(port) <==> OpenIn(dlstat, port))
  {
    OpenPortsAreOpen(dlstat);
    hide OpenIn;
    b, h := NO_PORTS, 0;
    if dlstat / 0x100 % 4 == 2 {
      b, h := b.(p0 := true), h + 1;
    }
    if dlstat / 0x400 % 4 == 2 {
      b, h := b.(p1 := true), h + 1;
    }
    if dlstat / 0x1000 % 4 == 2 {
      b, h := b.(p2 := true), h + 1;
    }
    if dlstat / 0x4000 % 4 == 2 {
      b, h := b.(p3 := true), h + 1;
    }
  }

  /** The list after the first slaves have been found: their ports, links and parents. */
  ghost predicate FoundUpto(list: seq<Entry>, was: seq<Entry>, root: Row, upto: nat)
    requires IsBus(root) && upto <= Size(root) < |list| == |was|
  {
    && (forall i :: 0 <= i < |list| && !(1 <= i <= upto) ==> list[i] == was[i])
    && forall i {:trigger list[i]} :: 1 <= i <= upto ==>
         var slave := BusStations(root)[i - 1];
         list[i] == Entry(Active(slave), Active(slave).Count(), slave.parent)
  }

  /** The topology part of ecx_config_init. `dlstat[i]` is the DL status register of slave `i + 1`. The
      parents stored in the slave list are those of the real tree. */
  method ConfigInit(slavelist: array<Entry>, dlstat: seq<nat>, ghost root: Row)
    requires IsBus(root) && |dlstat| == Size(root) < slavelist.Length
    requires forall i {:trigger dlstat[i]} :: 0 <= i < |dlstat| ==> StatusOf(dlstat[i], BusStations(root)[i])
    modifies slavelist
    ensures FoundUpto(slavelist[..], old(slavelist[..]), root, |dlstat|)
  {
    hide OpenPorts, Active, Scan, StatusOf;
    ghost var links := seq(|dlstat|, i requires 0 <= i < |dlstat| => Active(BusStations(root)[i]).Count() as int);
    ghost var was := slavelist[..];
    assert Reported(links, BusStations(root));
    var slave := 1;
    while slave <= |dlstat|
      invariant 1 <= slave <= |dlstat| + 1
      invariant FoundUpto(slavelist[..], was, root, slave - 1)
    {
      FindSlave(slavelist, slave, dlstat[slave - 1], links, was, root);
      slave := slave + 1;
    }
  }

  /** One slave: its ports, and its parent among the slaves before it. */
  method FindSlave(slavelist: array<Entry>, slave: nat, dlstat: nat, ghost links: seq<int>, ghost was: seq<Entry>,
                   ghost root: Row)
    requires IsBus(root) && 1 <= slave <= Size(root) < slavelist.Length == |was|
    requires StatusOf(dlstat, BusStations(root)[slave - 1])
    requires |links| == Size(root) && Reported(links, BusStations(root))
    requires forall i {:trigger links[i]} :: 0 <= i < |links| ==> links[i] == Active(BusStations(root)[i]).Count()
    requires FoundUpto(slavelist[..], was, root, slave - 1)
    modifies slavelist
    ensures FoundUpto(slavelist[..], was, root, slave)
  {
    hide OpenPorts, Reported, Scan, OpenIn, Active;
    BusIsPlaced(root);
    StatusShows(dlstat, BusStations(root)[slave - 1]);
    hide StatusOf;
    var b, h := ReadPorts(dlstat);
    slavelist[slave] := Entry(b, h, 0);
    if slave > 1 {
      assert forall i :: 1 <= i < slave ==> slavelist[i].topology == links[i - 1];
      var parent := FindParent(slavelist, slave, links);
      slavelist[slave] := slavelist[slave].(parent := parent);
      ScanFindsParent(root, links, slave);
    }
  }

  /** The inner do-while loop: walk back from the slave before `slave`. */
  method FindParent(slavelist: array<Entry>, slave: nat, ghost links: seq<int>) returns (parent: nat)
    requires 1 < slave < slavelist.Length && slave - 1 <= |links|
    requires forall i :: 1 <= i < slave ==> slavelist[i].topology == links[i - 1]
    ensures parent == Scan(links, slave - 1, 0)
  {
    var topoc := 0;
    var slavec := slave - 1;
    parent := 0;
    while slavec > 0
      invariant 0 <= slavec < slave
      invariant slavec > 0 ==> Scan(links, slavec, topoc) == Scan(links, slave - 1, 0)
      invariant slavec == 0 ==> parent == Scan(links, slave - 1, 0)
      decreases slavec
    {
      var topology := slavelist[slavec].topology;
      if topology == 1 { topoc := topoc - 1; }
      if topology == 3 { topoc := topoc + 1; }
      if topology == 4 { topoc := topoc + 2; }
      if (topoc >= 0 && topology > 1) || slavec == 1 {
        parent := slavec;
        slavec := 1;
      }
      slavec := slavec - 1;
    }
  }
}
