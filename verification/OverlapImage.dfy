/** ecx_config_overlap_map_group: every slave has one slot of the logical image, in which its outputs
    and its inputs both start at the first byte. */
module OverlapImage {
  import opened Memory
  import opened Numbers
  import opened FmmuMapping
  import opened ProcessImage
  import opened ImageLayout
  import opened Segments
  import opened MapGroup

  /** The first free byte after one direction of a slave is mapped at byte `m`. */
  function After(s: Slave, d: Direction, m: nat): (r: nat)
    requires WellFormed(s)
    ensures r >= m
  {
    if Bits(s, d) > 0 then WholeByte(End(DataOf(s, d), 8 * m)) / 8 else m
  }

  function SlotEnd(s: Slave, m: nat): (r: nat)
    requires WellFormed(s)
    ensures r >= m
  {
    Max(After(s, Inputs, m), After(s, Outputs, m))
  }

  /** The first byte of the slot of slave `k`. */
  ghost function Slot(s: seq<Slave>, group: nat, base: nat, k: nat): nat
    requires WellFormedList(s) && 1 <= k <= |s|
  {
    if k == 1 then base
    else if InGroup(s[k - 1], group) then SlotEnd(s[k - 1], Slot(s, group, base, k - 1))
    else Slot(s, group, base, k - 1)
  }

  /** The sizes of the slots of the slaves before `k` that are in the group. */
  ghost function Slots(s: seq<Slave>, group: nat, base: nat, k: nat): seq<nat>
    requires WellFormedList(s) && 1 <= k <= |s|
  {
    if k == 1 then []
    else if InGroup(s[k - 1], group) then
      Slots(s, group, base, k - 1) + [SlotEnd(s[k - 1], Slot(s, group, base, k - 1)) - Slot(s, group, base, k - 1)]
    else Slots(s, group, base, k - 1)
  }

  lemma {:induction false} SlotsSum(s: seq<Slave>, group: nat, base: nat, k: nat)
    requires WellFormedList(s) && 1 <= k <= |s|
    ensures base + Total(Slots(s, group, base, k)) == Slot(s, group, base, k)
  {
    hide SlotEnd;
    if k > 1 {
      SlotsSum(s, group, base, k - 1);
      var m := Slot(s, group, base, k - 1);
      TotalOneMore(Slots(s, group, base, k - 1), SlotEnd(s[k - 1], m) - m);
    }
  }

  lemma {:induction false} SlotsExtend(s: seq<Slave>, group: nat, base: nat, j: nat, k: nat)
    requires WellFormedList(s) && 1 <= j <= k <= |s|
    ensures Slots(s, group, base, j) <= Slots(s, group, base, k)
    ensures Slot(s, group, base, j) <= Slot(s, group, base, k)
    decreases k
  {
    hide SlotEnd;
    if j < k {
      SlotsExtend(s, group, base, j, k - 1);
    }
  }

  /** The slots up to and with slave `k`. */
  lemma {:induction false} SlotOf(s: seq<Slave>, group: nat, base: nat, k: nat)
    requires WellFormedList(s) && 1 <= k < |s|
    ensures var m := Slot(s, group, base, k);
            if InGroup(s[k], group) then
              && Slot(s, group, base, k + 1) == SlotEnd(s[k], m)
              && Slots(s, group, base, k + 1) == Slots(s, group, base, k) + [SlotEnd(s[k], m) - m]
            else
              Slot(s, group, base, k + 1) == m && Slots(s, group, base, k + 1) == Slots(s, group, base, k)
  {
    hide SlotEnd;
  }

  /** One direction of a slave begins with the first byte of its slot and ends in the bytes it takes. */
  lemma {:induction false} InItsBytes(s: Slave, d: Direction, m: nat)
    requires WellFormed(s) && Bits(s, d) > 0
    ensures 8 * m == Start(DataOf(s, d), 8 * m) <= End(DataOf(s, d), 8 * m) <= 8 * After(s, d, m)
  {
    hide Filled;
  }

  /** Both directions of a slave lie in its slot, and the slots of different slaves are disjoint. */
  lemma {:induction false} SlotHoldsSlave(s: seq<Slave>, group: nat, base: nat, k: nat, d: Direction)
    requires WellFormedList(s) && 1 <= k < |s| && InGroup(s[k], group) && Bits(s[k], d) > 0
    ensures var m := Slot(s, group, base, k); var a := DataOf(s[k], d);
            8 * m == Start(a, 8 * m) <= End(a, 8 * m) <= 8 * Slot(s, group, base, k + 1)
  {
    hide Slot, Start, End, DataOf, After;
    SlotOf(s, group, base, k);
    InItsBytes(s[k], d, Slot(s, group, base, k));
  }

  /** The slot of a slave among all slots. */
  lemma {:induction false} SlotIsBlock(s: seq<Slave>, group: nat, base: nat, k: nat) returns (i: nat)
    requires WellFormedList(s) && 1 <= k < |s| && InGroup(s[k], group)
    ensures var all := Slots(s, group, base, |s|);
            i < |all| && all[..i] == Slots(s, group, base, k) && all[..i + 1] == Slots(s, group, base, k + 1)
  {
    hide SlotEnd, Slot;
    var upto := Slots(s, group, base, k + 1);
    var all := Slots(s, group, base, |s|);
    SlotOf(s, group, base, k);
    SlotsExtend(s, group, base, k + 1, |s|);
    i := |upto| - 1;
    assert upto == all[..|upto|];
    assert upto[..i] == all[..i] == Slots(s, group, base, k);
  }

  /** No slave at all is cut in two: its slot, counted from the start of the image, lies in one
      segment. */
  lemma {:induction false} SlotInOneSegment(s: seq<Slave>, group: nat, base: nat, k: nat) returns (j: nat)
    requires WellFormedList(s) && 1 <= k < |s| && InGroup(s[k], group)
    ensures base <= Slot(s, group, base, k) <= Slot(s, group, base, k + 1)
    ensures Holds(AllSegments(CutOf(Slots(s, group, base, |s|))), j,
                  Slot(s, group, base, k) - base, Slot(s, group, base, k + 1) - base)
  {
    hide Slots, Slot, CutOf, AllSegments, Holds, Total;
    var i := SlotIsBlock(s, group, base, k);
    SlotsExtend(s, group, base, k, k + 1);
    SlotsSum(s, group, base, k);
    SlotsSum(s, group, base, k + 1);
    j := BlockInOneSegment(Slots(s, group, base, |s|), i);
  }

  /** A slave that can be mapped into the slot that starts at byte `m`. */
  ghost predicate CanOverlap(s: Slave, m: nat, group: nat, base: nat) {
    && WellFormed(s)
    && (s.obits > 0 ==> CanMap(s, Outputs, 8 * m))
    && (s.ibits > 0 ==> CanMap(OutputsPlaced(s, m, group, base), Inputs, 8 * m))
  }

  ghost function OutputsPlaced(s: Slave, m: nat, group: nat, base: nat): (t: Slave)
    requires s.obits > 0 ==> CanMap(s, Outputs, 8 * m)
    ensures t.sm == s.sm && t.ibits == s.ibits && t.obits == s.obits && t.group == s.group && t.blockLRW == s.blockLRW
  {
    if s.obits > 0 then Mapped(s, Outputs, 8 * m, group, base) else s
  }

  ghost function Overlapped(s: Slave, m: nat, group: nat, base: nat): (t: Slave)
    requires CanOverlap(s, m, group, base)
    ensures t.sm == s.sm && t.ibits == s.ibits && t.obits == s.obits && t.group == s.group && t.blockLRW == s.blockLRW
  {
    var u := OutputsPlaced(s, m, group, base);
    if s.ibits > 0 then Mapped(u, Inputs, 8 * m, group, base) else u
  }

  /** The part of the loop that maps the outputs or the inputs of one slave into its slot. */
  method MapInSlot(slavelist: array<Slave>, k: nat, d: Direction, group: nat, base: nat, m: nat, wkc0: nat)
    returns (next: nat, wkc: nat)
    requires 1 <= k < slavelist.Length && WellFormed(slavelist[k])
    requires Bits(slavelist[k], d) > 0 ==> CanMap(slavelist[k], d, 8 * m)
    modifies slavelist
    ensures next == After(old(slavelist[k]), d, m)
    ensures slavelist[..] == old(slavelist[..])[k := if Bits(old(slavelist[k]), d) > 0
                                                       then Mapped(old(slavelist[k]), d, 8 * m, group, base)
                                                       else old(slavelist[k])]
    ensures wkc == wkc0 + (if Bits(old(slavelist[k]), d) > 0
                           then ActiveCount(Fmmus(DataOf(old(slavelist[k]), d), 8 * m)) else 0)
  {
    hide Mapped, Fmmus, End, CanMap, DataOf;
    next, wkc := m, wkc0;
    if Bits(slavelist[k], d) > 0 {
      var bitPos: nat;
      next, bitPos, wkc := CreateMapping(slavelist, k, d, group, base, m, 0, wkc0);
      if bitPos > 0 {
        next := next + 1;
      }
    }
  }

  /** Working-counter increments of the slaves before `k`. */
  ghost function SlotIncrements(s: seq<Slave>, group: nat, base: nat, d: Direction, k: nat): nat
    requires WellFormedList(s) && 1 <= k <= |s|
  {
    if k == 1 then 0
    else
      SlotIncrements(s, group, base, d, k - 1)
      + (if Takes(s[k - 1], group, d)
         then ActiveCount(Fmmus(DataOf(s[k - 1], d), 8 * Slot(s, group, base, k - 1))) else 0)
  }

  ghost predicate CanOverlapAll(s: seq<Slave>, group: nat, base: nat) {
    WellFormedList(s) &&
    forall k :: 1 <= k < |s| && InGroup(s[k], group) ==> CanOverlap(s[k], Slot(s, group, base, k), group, base)
  }

  /** Slave `k` when the loop has passed it. */
  ghost function InSlot(s: seq<Slave>, group: nat, base: nat, k: nat): Slave
    requires CanOverlapAll(s, group, base) && 1 <= k < |s|
  {
    if InGroup(s[k], group) then Overlapped(s[k], Slot(s, group, base, k), group, base) else s[k]
  }

  ghost predicate OverlappedBefore(t: seq<Slave>, s: seq<Slave>, group: nat, base: nat, k: nat)
    requires CanOverlapAll(s, group, base)
  {
    && |t| == |s| && t[0] == s[0]
    && (forall i :: 1 <= i < |s| && i < k ==> t[i] == InSlot(s, group, base, i))
    && (forall i :: 1 <= i < |s| && k <= i ==> t[i] == s[i])
  }

  /** Where the outputs (inputs) end in the slot of slave `k`; for a slave that has none, or is not
      in the group, that is where the slot starts. */
  ghost function EndInSlot(s: seq<Slave>, group: nat, base: nat, d: Direction, k: nat): nat
    requires WellFormedList(s) && 1 <= k < |s|
  {
    var m := Slot(s, group, base, k);
    if InGroup(s[k], group) then After(s[k], d, m) else m
  }

  /** The state of the loop: first free byte, open segment, counters, and where the outputs and inputs
      of the slave before `k` end. */
  datatype State = State(m: nat, so: nat, si: nat, current: nat, size: nat, owkc: nat, iwkc: nat)

  ghost predicate AtSlave(q: State, iosegment: seq<nat>, s: seq<Slave>, group: nat, base: nat, k: nat)
    requires WellFormedList(s) && 1 <= k <= |s|
  {
    && q.m == Slot(s, group, base, k)
    && (k > 1 ==> q.so == EndInSlot(s, group, base, Outputs, k - 1) && q.si == EndInSlot(s, group, base, Inputs, k - 1))
    && q.owkc == SlotIncrements(s, group, base, Outputs, k)
    && q.iwkc == SlotIncrements(s, group, base, Inputs, k)
    && q.current < |iosegment| && Cut(iosegment[..q.current], q.size) == Capped(Slots(s, group, base, k))
  }

  /** Mapping its outputs does not change where the inputs of a slave end. */
  lemma {:induction false} SameAfter(s: Slave, m: nat, group: nat, base: nat)
    requires CanOverlap(s, m, group, base)
    ensures WellFormed(OutputsPlaced(s, m, group, base))
    ensures After(OutputsPlaced(s, m, group, base), Inputs, m) == After(s, Inputs, m)
    ensures DataOf(OutputsPlaced(s, m, group, base), Inputs) == DataOf(s, Inputs)
  {
    hide Fmmus, End, WriteAt;
  }

  /** Both directions of one slave, from the first byte `m` of its slot on. */
  method MapSlot(slavelist: array<Slave>, k: nat, group: nat, base: nat, m: nat, owkc0: nat, iwkc0: nat)
    returns (so: nat, si: nat, owkc: nat, iwkc: nat)
    requires 1 <= k < slavelist.Length && CanOverlap(slavelist[k], m, group, base)
    modifies slavelist
    ensures var s := old(slavelist[k]);
            && slavelist[..] == old(slavelist[..])[k := Overlapped(s, m, group, base)]
            && so == After(s, Outputs, m) && si == After(s, Inputs, m)
            && owkc == owkc0 + (if s.obits > 0 then ActiveCount(Fmmus(DataOf(s, Outputs), 8 * m)) else 0)
            && iwkc == iwkc0 + (if s.ibits > 0 then ActiveCount(Fmmus(DataOf(s, Inputs), 8 * m)) else 0)
  {
    hide Mapped, Fmmus, CanMap, DataOf, End, ActiveCount, After;
    ghost var s := slavelist[k];
    so, owkc := MapInSlot(slavelist, k, Outputs, group, base, m, owkc0);
    assert slavelist[k] == OutputsPlaced(s, m, group, base);
    SameAfter(s, m, group, base);
    si, iwkc := MapInSlot(slavelist, k, Inputs, group, base, m, iwkc0);
  }

  /** One iteration of the loop over the slaves. */
  method OverlapSlave(slavelist: array<Slave>, iosegment: array<nat>, group: nat, base: nat, k: nat, q: State,
                      ghost s: seq<Slave>)
    returns (r: State)
    requires 1 <= k < slavelist.Length && iosegment.Length == MAX_IOSEGMENTS && CanOverlapAll(s, group, base)
    requires OverlappedBefore(slavelist[..], s, group, base, k) && AtSlave(q, iosegment[..], s, group, base, k)
    modifies slavelist, iosegment
    ensures OverlappedBefore(slavelist[..], s, group, base, k + 1)
    ensures AtSlave(r, iosegment[..], s, group, base, k + 1)
  {
    hide Overlapped, Fmmus, CanOverlap, Capped, DataOf, After, Slot, Slots, ActiveCount;
    ghost var t := slavelist[..];
    assert slavelist[k] == s[k];
    r := q.(so := q.m, si := q.m);
    SlotOf(s, group, base, k);
    if InGroup(slavelist[k], group) {
      var so, si, owkc, iwkc := MapSlot(slavelist, k, group, base, q.m, q.owkc, q.iwkc);
      assert slavelist[..] == t[k := InSlot(s, group, base, k)];
      var diff := Max(si, so) - q.m;
      assert iosegment[..][..q.current] == iosegment[..q.current];
      var current, size := AddToSegment(iosegment, q.current, q.size, diff, Slots(s, group, base, k));
      assert iosegment[..][..current] == iosegment[..current];
      r := State(q.m + diff, so, si, current, size, owkc, iwkc);
    }
  }

  /** An address and a distance added to it. */
  function Further(a: Address, distance: nat): Address {
    match a
    case Null => if distance == 0 then Null else Stray(distance)
    case InMap(offset) => InMap(offset + distance)
    case Stray(d) => Stray(d + distance)
  }

  /** The inputs of every slave come after all outputs in the IOmap. */
  function Moved(s: Slave, distance: nat): Slave {
    s.(inputs := Further(s.inputs, distance))
  }

  /** The input address of a slave without inputs, if it was not set, stays so exactly if there are no outputs
      to move the inputs behind. */
  lemma {:induction false} UnsetStaysIff(s: seq<Slave>, group: nat, base: nat, k: nat, obytes: nat)
    requires CanOverlapAll(s, group, base) && 1 <= k < |s| && s[k].inputs.Null? && !Takes(s[k], group, Inputs)
    ensures Moved(InSlot(s, group, base, k), obytes).inputs.Null? <==> obytes == 0
  {
    hide Fmmus, DataOf, Slot;
  }

  method MoveInputs(slavelist: array<Slave>, distance: nat)
    requires slavelist.Length > 0
    modifies slavelist
    ensures slavelist[0] == old(slavelist[0])
    ensures forall k :: 1 <= k < slavelist.Length ==> slavelist[k] == Moved(old(slavelist[k]), distance)
  {
    var k := 1;
    while k < slavelist.Length
      invariant 1 <= k <= slavelist.Length && slavelist[0] == old(slavelist[0])
      invariant forall i :: 1 <= i < k ==> slavelist[i] == Moved(old(slavelist[i]), distance)
      invariant forall i :: k <= i < slavelist.Length ==> slavelist[i] == old(slavelist[i])
    {
      slavelist[k] := Moved(slavelist[k], distance);
      k := k + 1;
    }
  }

  ghost predicate DescribesOverlap(grp: Group, s: seq<Slave>, group: nat, base: nat)
    requires WellFormedList(s) && |s| > 1
    reads grp, grp.IOsegment
  {
    && base + grp.Obytes == EndInSlot(s, group, base, Outputs, |s| - 1)
    && base + grp.Ibytes == EndInSlot(s, group, base, Inputs, |s| - 1)
    && grp.outputs == InMap(0) && grp.inputs == InMap(grp.Obytes) && grp.Isegment == 0 && grp.Ioffset == 0
    && 0 < grp.nsegments <= grp.IOsegment.Length == MAX_IOSEGMENTS
    && grp.IOsegment[..grp.nsegments] == AllSegments(Capped(Slots(s, group, base, |s|)))
    && grp.outputsWKC == SlotIncrements(s, group, base, Outputs, |s|)
    && grp.inputsWKC == SlotIncrements(s, group, base, Inputs, |s|)
  }

  /** The loop over all slaves. */
  method AllSlots(slavelist: array<Slave>, iosegment: array<nat>, group: nat, base: nat) returns (q: State)
    requires slavelist.Length > 1 && iosegment.Length == MAX_IOSEGMENTS && CanOverlapAll(slavelist[..], group, base)
    modifies slavelist, iosegment
    ensures var s := old(slavelist[..]);
            OverlappedBefore(slavelist[..], s, group, base, |s|) && AtSlave(q, iosegment[..], s, group, base, |s|)
  {
    hide CanOverlapAll, Slots, Slot, SlotIncrements, Capped, EndInSlot, InSlot;
    ghost var s := slavelist[..];
    q := State(base, base, base, 0, 0, 0, 0);
    StartOfSlots(s, group, base);
    var k := 1;
    while k < slavelist.Length
      invariant 1 <= k <= slavelist.Length
      invariant OverlappedBefore(slavelist[..], s, group, base, k) && AtSlave(q, iosegment[..], s, group, base, k)
    {
      q := OverlapSlave(slavelist, iosegment, group, base, k, q, s);
      k := k + 1;
    }
  }

  lemma {:induction false} SameBlocking(t: seq<Slave>, s: seq<Slave>, group: nat, base: nat, k: nat)
    requires CanOverlapAll(s, group, base) && OverlappedBefore(t, s, group, base, |s|) && 1 <= k <= |s|
    ensures Blocking(t, group, k) == Blocking(s, group, k)
  {
    hide CanOverlap, Slot;
    if k > 1 {
      SameBlocking(t, s, group, base, k - 1);
      assert t[k - 1] == InSlot(s, group, base, k - 1);
    }
  }

  /** The group record once the loop has passed all slaves. */
  method RecordGroup(grp: Group, q: State, blocking: nat, ghost s: seq<Slave>, group: nat)
    requires WellFormedList(s) && |s| > 1 && grp.IOsegment.Length == MAX_IOSEGMENTS
    requires AtSlave(q, grp.IOsegment[..], s, group, grp.logstartaddr, |s|)
    modifies grp, grp.IOsegment
    ensures grp.logstartaddr == old(grp.logstartaddr) && grp.blockLRW == old(grp.blockLRW) + blocking
    ensures DescribesOverlap(grp, s, group, grp.logstartaddr)
  {
    hide Slots, Slot, SlotIncrements, Capped, EndInSlot;
    var base := grp.logstartaddr;
    grp.IOsegment[q.current] := q.size;
    grp.nsegments, grp.Isegment, grp.Ioffset := q.current + 1, 0, 0;
    grp.outputsWKC, grp.inputsWKC := q.owkc, q.iwkc;
    grp.blockLRW := grp.blockLRW + blocking;
    EndsAfterSlot(s, group, base);
    grp.Obytes, grp.Ibytes := q.so - base, q.si - base;
    grp.outputs, grp.inputs := InMap(0), InMap(grp.Obytes);
  }

  /** ecx_config_overlap_map_group. */
  method OverlapMapGroup(slavelist: array<Slave>, grp: Group, group: nat) returns (size: nat)
    requires slavelist.Length > 0 && grp.IOsegment.Length == MAX_IOSEGMENTS
    requires slavelist.Length > 1 ==> CanOverlapAll(AllWithBytes(slavelist[..], group), group, grp.logstartaddr)
    modifies slavelist, grp, grp.IOsegment
    ensures slavelist.Length == 1 ==> size == 0 && unchanged(slavelist) && unchanged(grp)
    ensures slavelist.Length > 1 ==> size == grp.Obytes + grp.Ibytes && grp.logstartaddr == old(grp.logstartaddr)
    ensures slavelist.Length > 1 ==>
              var s := AllWithBytes(old(slavelist[..]), group);
              && DescribesOverlap(grp, s, group, grp.logstartaddr)
              && slavelist[0] == MasterRecord(s[0], group, grp.Obytes, grp.Ibytes)
              && (forall k :: 1 <= k < slavelist.Length ==>
                    slavelist[k] == Moved(InSlot(s, group, grp.logstartaddr, k), grp.Obytes))
              && grp.blockLRW == old(grp.blockLRW) + Blocking(s, group, |s|)
  {
    hide CanOverlap, Slots, Slot, SlotIncrements, Capped, AllWithBytes, After, Blocking, InSlot, Moved, EndInSlot,
         DescribesOverlap, AtSlave;
    size := 0;
    if slavelist.Length > 1 {
      var base := grp.logstartaddr;
      FindMappings(slavelist, group);
      ghost var s := slavelist[..];
      var q := AllSlots(slavelist, grp.IOsegment, group, base);
      var blocking := CountBlocking(slavelist, group);
      SameBlocking(slavelist[..], s, group, base, |s|);
      RecordGroup(grp, q, blocking, s, group);
      MoveInputs(slavelist, grp.Obytes);
      slavelist[0] := MasterRecord(slavelist[0], group, grp.Obytes, grp.Ibytes);
      size := grp.Obytes + grp.Ibytes;
    }
  }

  lemma {:induction false} StartOfSlots(s: seq<Slave>, group: nat, base: nat)
    requires CanOverlapAll(s, group, base)
    ensures WellFormedList(s) && Slot(s, group, base, 1) == base && Capped(Slots(s, group, base, 1)) == Cut([], 0)
    ensures SlotIncrements(s, group, base, Outputs, 1) == 0 == SlotIncrements(s, group, base, Inputs, 1)
  {
  }

  /** The recorded sizes: the larger of the two is the size of the logical image. */
  lemma {:induction false} EndsAfterSlot(s: seq<Slave>, group: nat, base: nat)
    requires WellFormedList(s) && |s| > 1
    ensures base <= EndInSlot(s, group, base, Outputs, |s| - 1) && base <= EndInSlot(s, group, base, Inputs, |s| - 1)
    ensures Max(EndInSlot(s, group, base, Inputs, |s| - 1), EndInSlot(s, group, base, Outputs, |s| - 1))
            == Slot(s, group, base, |s|)
  {
    hide After;
    SlotsExtend(s, group, base, 1, |s| - 1);
  }

  /** The segments of an overlapping image sum to the larger of its two sizes, as long as no more than
      64 of them are needed. */
  lemma {:induction false} SegmentsOfOverlap(grp: Group, s: seq<Slave>, group: nat, base: nat)
    requires WellFormedList(s) && |s| > 1 && DescribesOverlap(grp, s, group, base)
    requires |CutOf(Slots(s, group, base, |s|)).closed| < MAX_IOSEGMENTS
    ensures grp.IOsegment[..grp.nsegments] == AllSegments(CutOf(Slots(s, group, base, |s|)))
    ensures Total(grp.IOsegment[..grp.nsegments]) == Max(grp.Obytes, grp.Ibytes)
    ensures AllFit(grp.IOsegment[..grp.nsegments]) <==> AllFit(Slots(s, group, base, |s|))
  {
    hide EndInSlot, Slots, Slot, CutOf, Capped;
    CappedIsCut(Slots(s, group, base, |s|));
    CutConserves(Slots(s, group, base, |s|));
    SegmentsFitIff(Slots(s, group, base, |s|));
    SlotsSum(s, group, base, |s|);
    EndsAfterSlot(s, group, base);
  }
}
