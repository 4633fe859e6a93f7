/** How slaves hang on the ports of their parents: the facts about the tree that the delay
    measurement relies on. */
module PortOrder {
  import opened Topology

  /** Where the frame is within slave `p`: it has just come back through port `last` at time
      `departure` and still has the links of `row` before it. */
  ghost predicate At(p: Slave, last: nat, row: Row, departure: int) {
    && Active(p).Has(last) && PassTime(p, last) == departure
    && Wired(row, Rank(last))
    && (forall q :: Active(p).Has(q) && Rank(q) > Rank(last) ==> PortsOf(row).Has(q))
    && (forall q :: PortsOf(row).Has(q) ==> Active(p).Has(q) && PassTime(p, q) == ReturnTime(row, departure, q))
  }

  lemma {:induction false} AtStart(p: Slave)
    requires Wired(p.link.below, 0)
    ensures At(p, 0, p.link.below, Arrival(p))
  {
    RowBounds(p.link.below, 0);
  }

  lemma {:induction false} AtNext(p: Slave, last: nat, row: Row, departure: int)
    requires At(p, last, row, departure) && row.Link?
    ensures At(p, row.port, row.next, BackFromFirst(row, departure))
    ensures PassTime(p, row.port) == BackFromFirst(row, departure)
  {
    RowBounds(row.next, Rank(row.port));
    assert PortsOf(row).Has(row.port);
  }

  /** What holds of the slave with number `k`: it hangs on an earlier slave, in the order of that
      slave's ports, and only the slave right after its parent is its parent's first child. */
  ghost predicate Hangs(bus: seq<Slave>, k: nat)
    requires 1 <= k <= |bus|
  {
    var c := bus[k - 1];
    && 1 <= c.parent < k && Wired(c.link.below, 0)
    && At(bus[c.parent - 1], c.prev, c.link, c.departure)
    && (c.parent == k - 1 ==> c.prev == 0)
  }

  lemma {:induction false} RowHangs(bus: seq<Slave>, row: Row, self: nat, parent: nat, prev: nat, departure: int,
                                    k: nat)
    requires Stationed(bus, row, self, parent, prev, departure)
    requires 1 <= parent < self && parent <= |bus| && At(bus[parent - 1], prev, row, departure)
    requires parent == self - 1 ==> prev == 0
    requires self <= k < self + Size(row)
    ensures Hangs(bus, k)
  {
    var after := self + 1 + Size(row.below);
    if k == self {
    } else if k < after {
      AtStart(bus[self - 1]);
      RowHangs(bus, row.below, self + 1, self, 0, departure + row.delay, k);
    } else {
      AtNext(bus[parent - 1], prev, row, departure);
      RowHangs(bus, row.next, after, parent, row.port, BackFromFirst(row, departure), k);
    }
  }

  lemma {:induction false} BusHangs(root: Row, k: nat)
    requires IsBus(root) && 2 <= k <= Size(root)
    ensures Hangs(BusStations(root), k)
  {
    var bus := BusStations(root);
    BusIsPlaced(root);
    AtStart(bus[0]);
    RowHangs(bus, root.below, 2, 1, 0, root.delay, k);
  }

  /** The links of slave `p` whose slaves have number `i` or higher. */
  ghost function Rest(bus: seq<Slave>, p: nat, i: nat): Row
    requires 1 <= p < i <= |bus| + 1
  {
    if i == p + 1 then bus[p - 1].link.below
    else if bus[i - 2].parent == p then bus[i - 2].link.next
    else Rest(bus, p, i - 1)
  }

  /** Passing a whole row takes nothing away from slaves other than the one it hangs on. */
  lemma {:induction false} RestIsKept(bus: seq<Slave>, row: Row, self: nat, parent: nat, prev: nat, departure: int,
                                      q: nat)
    requires Stationed(bus, row, self, parent, prev, departure)
    requires 1 <= q < self <= |bus| + 1 && q != parent
    ensures self + Size(row) <= |bus| + 1 && Rest(bus, q, self + Size(row)) == Rest(bus, q, self)
  {
    if row.Link? {
      var after := self + 1 + Size(row.below);
      RestIsKept(bus, row.below, self + 1, self, 0, departure + row.delay, q);
      RestIsKept(bus, row.next, after, parent, row.port, BackFromFirst(row, departure), q);
      assert after + Size(row.next) == self + Size(row);
    }
  }

  lemma {:induction false} RestInRow(bus: seq<Slave>, row: Row, self: nat, parent: nat, prev: nat, departure: int,
                                     k: nat)
    requires Stationed(bus, row, self, parent, prev, departure)
    requires 1 <= parent < self <= |bus| + 1 && Rest(bus, parent, self) == row
    requires self <= k < self + Size(row)
    ensures 1 <= bus[k - 1].parent < k && Rest(bus, bus[k - 1].parent, k) == bus[k - 1].link
  {
    var after := self + 1 + Size(row.below);
    if k == self {
    } else if k < after {
      RestInRow(bus, row.below, self + 1, self, 0, departure + row.delay, k);
    } else {
      RestIsKept(bus, row.below, self + 1, self, 0, departure + row.delay, parent);
      RestInRow(bus, row.next, after, parent, row.port, BackFromFirst(row, departure), k);
    }
  }

  /** When slave `k` is reached, its own link is the first one its parent has left. */
  lemma {:induction false} BusRest(root: Row, k: nat)
    requires IsBus(root) && 2 <= k <= Size(root)
    ensures 1 <= BusStations(root)[k - 1].parent < k
    ensures Rest(BusStations(root), BusStations(root)[k - 1].parent, k) == BusStations(root)[k - 1].link
  {
    BusIsPlaced(root);
    RestInRow(BusStations(root), root.below, 2, 1, 0, root.delay, k);
  }
}
