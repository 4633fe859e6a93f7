/** The places in the IOmap that the slave list gives for the data of a slave are those at which the exchange finds
    its bits. */
module SlavePointers {
  import opened FmmuMapping
  import opened ProcessImage
  import opened ImageLayout
  import opened MapGroup
  import opened ImageProperties
  import opened OverlapImage
  import opened MappedExchange
  import opened PublishedOffsets

  /** The data of a slave in one direction have room in its sync managers, and no place in the IOmap yet. */
  ghost predicate Unplaced(s: Slave, d: Direction) {
    && WellFormed(s) && Bits(s, d) > 0 && s.outputs.Null? && s.inputs.Null?
    && (Bits(s, d) > 7 ==> Cover(DataOf(s, d), 0) >= DataOf(s, d).bytes)
  }

  /** Mapping one direction at `cursor` gives it its place, counted from logical address 0 for group 0 and from the
      start of the image for any other group, and leaves the place of the other direction alone. */
  lemma {:induction false} PlaceOfFirst(s: Slave, d: Direction, cursor: nat, group: nat, base: nat)
    requires CanMap(s, d, cursor) && Fmmus(DataOf(s, d), cursor) != []
    ensures var t := Mapped(s, d, cursor, group, base);
            && (Place(s, d).Null? ==>
                  && Place(t, d).InMap?
                  && BitPlace(t, d) == BitStart(Fmmus(DataOf(s, d), cursor)[0]) - 8 * (if group != 0 then base else 0))
            && OthersKept(t, s, d)
  {
    hide Fmmus, WriteAt, FirstFmmu, DataOf;
  }

  lemma {:induction false} PlaceOfData(s: Slave, d: Direction, cursor: nat, group: nat, base: nat)
    requires CanMap(s, d, cursor) && Place(s, d).Null?
    requires Bits(s, d) > 7 ==> Cover(DataOf(s, d), 0) >= DataOf(s, d).bytes
    ensures var t := Mapped(s, d, cursor, group, base);
            && Place(t, d).InMap? && OthersKept(t, s, d)
            && BitPlace(t, d) == Start(DataOf(s, d), cursor) - 8 * (if group != 0 then base else 0)
  {
    hide Fmmus, Cover, Start, Mapped;
    FirstBegins(DataOf(s, d), cursor);
    PlaceOfFirst(s, d, cursor, group, base);
  }

  /** One direction of the whole list. */
  lemma {:induction false} PlaceInList(s: seq<Slave>, group: nat, d: Direction, start: nat, base: nat, k: nat)
    requires CanMapAll(s, group, d, start) && WellFormedList(s) && 1 <= k < |s|
    ensures var t := AllMapped(s, group, d, start, base)[k];
            && (InGroup(s[k], group) && Bits(s[k], d) > 0 && Place(s[k], d).Null?
                && (Bits(s[k], d) > 7 ==> Cover(DataOf(s[k], d), 0) >= DataOf(s[k], d).bytes) ==>
                  && Place(t, d).InMap?
                  && BitPlace(t, d) == From(s, group, d, start, k) - 8 * (if group != 0 then base else 0))
            && (!Takes(s[k], group, d) ==> t == s[k])
  {
    hide Fmmus, Cover, Cursor, Mapped, Start;
    assert AllMapped(s, group, d, start, base)[k] == Placed(s, group, d, start, base, k);
    if Takes(s[k], group, d) && Place(s[k], d).Null?
       && (Bits(s[k], d) > 7 ==> Cover(DataOf(s[k], d), 0) >= DataOf(s[k], d).bytes) {
      PlaceOfData(s[k], d, Cursor(s, group, d, start, k), group, base);
    }
  }

  lemma {:induction false} OtherPlace(s: seq<Slave>, group: nat, d: Direction, start: nat, base: nat, k: nat)
    requires CanMapAll(s, group, d, start) && WellFormedList(s) && 1 <= k < |s|
    ensures OthersKept(AllMapped(s, group, d, start, base)[k], s[k], d)
  {
    hide Fmmus, Cursor, FirstFmmu, DataOf, WriteAt, CanMap;
    assert AllMapped(s, group, d, start, base)[k] == Placed(s, group, d, start, base, k);
  }

  lemma {:induction false} SamePlace(t: Slave, s: Slave, d: Direction, place: int)
    requires OthersKept(t, s, d) && Place(s, Other(d)).InMap? && BitPlace(s, Other(d)) == place
    ensures Place(t, Other(d)).InMap? && BitPlace(t, Other(d)) == place
  {
  }

  /** In the sequential image, the place of a slave's data in the IOmap, to the bit, is that of its window in the
      image, exactly if the group is not group 0 or the image begins at logical address 0. */
  lemma {:induction false} PointsAtWindow(s: seq<Slave>, group: nat, base: nat, k: nat, d: Direction)
    requires CanMapGroup(s, group, base) && WellFormedList(s) && 1 <= k < |s|
    requires InGroup(s[k], group) && Unplaced(s[k], d)
    ensures var t := FullyMapped(s, group, base)[k];
            && Place(t, d).InMap?
            && (BitPlace(t, d) == WindowStart(s, group, base, d, k) - 8 * base <==> group != 0 || base == 0)
  {
    hide From, To, EndOf, AllMapped, CanMapAll, CanMapGroup, Cover, BitPlace, OthersKept;
    CanMapParts(s, group, base);
    var u, middle := AllMapped(s, group, Outputs, 8 * base, base), Middle(s, group, base);
    MappingKeepsData(s, group, Outputs, 8 * base, base);
    SameInterval(s, u, group, Inputs, middle, k);
    SameDataAt(s, u, k);
    PlaceInList(s, group, Outputs, 8 * base, base, k);
    PlaceInList(u, group, Inputs, middle, base, k);
    OtherPlace(s, group, Outputs, 8 * base, base, k);
    OtherPlace(u, group, Inputs, middle, base, k);
    var t := FullyMapped(s, group, base)[k];
    assert t == AllMapped(u, group, Inputs, middle, base)[k];
    if d.Outputs? {
      SamePlace(t, u[k], Inputs, From(s, group, Outputs, 8 * base, k) - 8 * (if group != 0 then base else 0));
    } else {
      StillUnplaced(u[k], s[k]);
    }
  }

  /** The master's own record, for group 0 and an image that begins at logical address 0, spans the data of all slaves
      in each direction. */
  lemma {:induction false} MasterSpans(s: seq<Slave>, grp: Group, k: nat, d: Direction)
    requires CanMapGroup(s, 0, 0) && Describes(grp, s, 0, 0) && WellFormedList(s) && 1 <= k < |s|
    requires Unplaced(s[k], d)
    ensures var master, t := MasterRecord(s[0], 0, grp.Obytes, grp.Ibytes), FullyMapped(s, 0, 0)[k];
            && Place(master, d).InMap? && Place(t, d).InMap?
            && 8 * Place(master, d).offset <= BitPlace(t, d)
            && BitPlace(t, d) + WindowLength(s, 0, 0, d, k) <= 8 * (Place(master, d).offset + Bytes(master, d))
  {
    hide WindowStart, WindowLength, EndOf, AllMapped, CanMapAll, CanMapGroup, Describes, BitPlace;
    PointsAtWindow(s, 0, 0, k, d);
    ImageBounds(grp, s, 0, 0);
    MiddleIsEnd(s, 0, 0);
    WindowInPart(s, 0, 0, d, k);
  }

  lemma {:induction false} StillUnplaced(u: Slave, s: Slave)
    requires OthersKept(u, s, Outputs) && s.inputs.Null?
    ensures Place(u, Inputs).Null?
  {
  }

  lemma {:induction false} SameDataAt(s: seq<Slave>, u: seq<Slave>, k: nat)
    requires WellFormedList(s) && WellFormedList(u) && SameData(s, u) && 1 <= k < |s|
    ensures InGroup(u[k], 0) && u[k].group == s[k].group && DataOf(u[k], Inputs) == DataOf(s[k], Inputs)
    ensures Bits(u[k], Inputs) == Bits(s[k], Inputs)
  {
  }

  /** In the overlapped image, the place of a slave's outputs is that of its slot, and its inputs are found as far
      behind as the outputs of all slaves take. */
  lemma {:induction false} PointsAtSlot(s: seq<Slave>, group: nat, base: nat, k: nat, d: Direction, obytes: nat)
    requires CanOverlapAll(s, group, base) && 1 <= k < |s| && InGroup(s[k], group) && Unplaced(s[k], d)
    ensures WellFormedList(s)
    ensures var t := Moved(InSlot(s, group, base, k), obytes);
            && Place(t, d).InMap?
            && (BitPlace(t, d) == 8 * (Slot(s, group, base, k) - base) + (if d.Outputs? then 0 else 8 * obytes)
                <==> group != 0 || base == 0)
  {
    hide Mapped, DataOf, Cover, Slot, OthersKept, Start, CanMap;
    var m := Slot(s, group, base, k);
    assert CanOverlap(s[k], m, group, base);
    var u := OutputsPlaced(s[k], m, group, base);
    SameAfter(s[k], m, group, base);
    if d.Outputs? {
      PlaceOfData(s[k], Outputs, 8 * m, group, base);
      StartOfSlot(s[k], Outputs, m);
      if s[k].ibits > 0 {
        KeepsOthers(u, Inputs, 8 * m, group, base);
        HasRoom(u, Inputs, 8 * m);
        SamePlace(Mapped(u, Inputs, 8 * m, group, base), u, Inputs, BitPlace(u, Outputs));
      }
    } else {
      if s[k].obits > 0 {
        KeepsOthers(s[k], Outputs, 8 * m, group, base);
        StillUnplaced(u, s[k]);
      }
      PlaceOfData(u, Inputs, 8 * m, group, base);
      StartOfSlot(s[k], Inputs, m);
    }
  }

  lemma {:induction false} StartOfSlot(s: Slave, d: Direction, m: nat)
    requires WellFormed(s)
    ensures Start(DataOf(s, d), 8 * m) == 8 * m
  {
  }

  lemma {:induction false} HasRoom(s: Slave, d: Direction, cursor: nat)
    requires CanMap(s, d, cursor)
    ensures FirstFmmu(s, d) + |Fmmus(DataOf(s, d), cursor)| <= MAX_FMMU
  {
  }

  lemma {:induction false} KeepsOthers(s: Slave, d: Direction, cursor: nat, group: nat, base: nat)
    requires CanMap(s, d, cursor)
    ensures OthersKept(Mapped(s, d, cursor, group, base), s, d)
  {
    hide Fmmus, WriteAt, FirstFmmu, DataOf;
  }
}
