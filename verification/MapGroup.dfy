/** ecx_config_map_group: the sequential process image, outputs first, cut into segments. */
module MapGroup {
  import opened Memory
  import opened FmmuMapping
  import opened ProcessImage
  import opened ImageLayout
  import opened Segments

  class Group {
    var logstartaddr: nat
    var Obytes: nat
    var Ibytes: nat
    var nsegments: nat
    var Isegment: nat
    var Ioffset: nat
    var outputsWKC: nat
    var inputsWKC: nat
    var blockLRW: nat
    var outputs: Address
    var inputs: Address
    const IOsegment: array<nat>

    constructor (logstartaddr: nat)
      ensures fresh(IOsegment) && IOsegment.Length == MAX_IOSEGMENTS && this.logstartaddr == logstartaddr
      ensures blockLRW == 0
    {
      this.logstartaddr := logstartaddr;
      Obytes, Ibytes, nsegments, Isegment, Ioffset := 0, 0, 0, 0, 0;
      outputsWKC, inputsWKC, blockLRW := 0, 0, 0;
      outputs, inputs := Null, Null;
      IOsegment := new nat[MAX_IOSEGMENTS](_ => 0);
    }
  }

  /** All slaves of the group can be mapped in one direction. */
  ghost predicate CanMapAll(s: seq<Slave>, group: nat, d: Direction, start: nat) {
    WellFormedList(s) &&
    forall k :: 1 <= k < |s| && Takes(s[k], group, d) ==> CanMap(s[k], d, Cursor(s, group, d, start, k))
  }

  /** The list when the slaves before `k` have been mapped. */
  ghost predicate MappedBefore(t: seq<Slave>, s: seq<Slave>, group: nat, d: Direction, start: nat, base: nat, k: nat)
    requires CanMapAll(s, group, d, start)
  {
    && |t| == |s| && t[0] == s[0]
    && (forall i :: 1 <= i < |s| && i < k ==> t[i] == Placed(s, group, d, start, base, i))
    && (forall i :: 1 <= i < |s| && k <= i ==> t[i] == s[i])
  }

  /** The state of the loop over the slaves: cursor, open segment and counters. */
  datatype Progress = Progress(logAddr: nat, bitPos: nat, current: nat, size: nat, wkc: nat)

  ghost predicate Reached(p: Progress, s: seq<Slave>, group: nat, d: Direction, start: nat, k: nat, wkc0: nat)
    requires WellFormedList(s) && 1 <= k <= |s|
  {
    && p.bitPos <= 7 && 8 * p.logAddr + p.bitPos == Cursor(s, group, d, start, k)
    && p.wkc == wkc0 + Increments(s, group, d, start, k)
  }

  /** The segments cut so far belong to the given blocks. */
  ghost predicate Segmented(p: Progress, iosegment: seq<nat>, blocks: seq<nat>) {
    p.current < |iosegment| && Cut(iosegment[..p.current], p.size) == Capped(blocks)
  }

  /** The slave to be mapped next is still as it was, and with it mapped one more is done. */
  lemma {:induction false} NextToMap(t: seq<Slave>, s: seq<Slave>, group: nat, d: Direction, start: nat, base: nat,
                                     k: nat)
    requires CanMapAll(s, group, d, start) && 1 <= k < |t| && MappedBefore(t, s, group, d, start, base, k)
    ensures WellFormedList(s) && |t| == |s| && t[k] == s[k]
    ensures MappedBefore(t[k := Placed(s, group, d, start, base, k)], s, group, d, start, base, k + 1)
    ensures if Takes(s[k], group, d)
            then CanMap(s[k], d, Cursor(s, group, d, start, k))
                 && Placed(s, group, d, start, base, k) == Mapped(s[k], d, Cursor(s, group, d, start, k), group, base)
            else t[k := Placed(s, group, d, start, base, k)] == t
  {
    hide Mapped, Cursor, Fmmus, DataOf;
  }

  /** A block is added to the segments: the bytes up to where the cursor stands now. */
  method AddBlock(iosegment: array<nat>, p: Progress, logAddr: nat, bitPos: nat, wkc: nat, ghost blocks: seq<nat>)
    returns (q: Progress)
    requires iosegment.Length == MAX_IOSEGMENTS && Segmented(p, iosegment[..], blocks) && p.logAddr <= logAddr
    modifies iosegment
    ensures q.logAddr == logAddr && q.bitPos == bitPos && q.wkc == wkc
    ensures Segmented(q, iosegment[..], blocks + [logAddr - p.logAddr])
  {
    hide Capped;
    assert iosegment[..][..p.current] == iosegment[..p.current];
    var current, size := AddToSegment(iosegment, p.current, p.size, logAddr - p.logAddr, blocks);
    assert iosegment[..][..current] == iosegment[..current];
    q := Progress(logAddr, bitPos, current, size, wkc);
  }

  /** Mapping slave `k`, if it takes part, and adding its block to the segments. */
  method MapSlave(slavelist: array<Slave>, iosegment: array<nat>, group: nat, d: Direction, base: nat, k: nat,
                  p: Progress, ghost s: seq<Slave>, ghost start: nat, ghost wkc0: nat, ghost blocks: seq<nat>)
    returns (q: Progress)
    requires 1 <= k < slavelist.Length && CanMapAll(s, group, d, start)
    requires iosegment.Length == MAX_IOSEGMENTS
    requires MappedBefore(slavelist[..], s, group, d, start, base, k) && Reached(p, s, group, d, start, k, wkc0)
    requires Segmented(p, iosegment[..], blocks + Blocks(s, group, d, start, k))
    modifies slavelist, iosegment
    ensures MappedBefore(slavelist[..], s, group, d, start, base, k + 1)
    ensures Reached(q, s, group, d, start, k + 1, wkc0)
    ensures Segmented(q, iosegment[..], blocks + Blocks(s, group, d, start, k + 1))
  {
    hide Mapped, DataOf, Fmmus, End, CanMap, Segmented, Blocks, Cursor, Increments, MappedBefore, CanMapAll, Placed,
         Takes;
    ghost var t := slavelist[..];
    NextToMap(t, s, group, d, start, base, k);
    SlaveStep(s, group, d, start, k);
    assert slavelist[k] == s[k];
    q := p;
    if Takes(slavelist[k], group, d) {
      var logAddr, bitPos, wkc := CreateMapping(slavelist, k, d, group, base, p.logAddr, p.bitPos, p.wkc);
      assert slavelist[..] == t[k := Placed(s, group, d, start, base, k)];
      CursorGrows(s, group, d, start, k, k + 1);
      q := AddBlock(iosegment, p, logAddr, bitPos, wkc, blocks + Blocks(s, group, d, start, k));
      assert blocks + Blocks(s, group, d, start, k + 1)
             == blocks + Blocks(s, group, d, start, k) + [logAddr - p.logAddr];
    }
  }

  /** What one slave adds to the layout. */
  lemma {:induction false} SlaveStep(s: seq<Slave>, group: nat, d: Direction, start: nat, k: nat)
    requires WellFormedList(s) && 1 <= k < |s|
    ensures !Takes(s[k], group, d) ==>
              && Cursor(s, group, d, start, k + 1) == Cursor(s, group, d, start, k)
              && Blocks(s, group, d, start, k + 1) == Blocks(s, group, d, start, k)
              && Increments(s, group, d, start, k + 1) == Increments(s, group, d, start, k)
    ensures Takes(s[k], group, d) ==>
              var c := Cursor(s, group, d, start, k);
              && Cursor(s, group, d, start, k + 1) == End(DataOf(s[k], d), c) >= c
              && Blocks(s, group, d, start, k + 1)
                 == Blocks(s, group, d, start, k) + [Cursor(s, group, d, start, k + 1) / 8 - c / 8]
              && Increments(s, group, d, start, k + 1)
                 == Increments(s, group, d, start, k) + ActiveCount(Fmmus(DataOf(s[k], d), c))
  {
    hide DataOf, End, Fmmus, ActiveCount;
  }

  /** A byte that is only partly used is finished, and added to the segments. */
  method FinishByte(iosegment: array<nat>, p: Progress, ghost blocks: seq<nat>) returns (q: Progress)
    requires iosegment.Length == MAX_IOSEGMENTS && Segmented(p, iosegment[..], blocks) && p.bitPos <= 7
    modifies iosegment
    ensures var c := 8 * p.logAddr + p.bitPos;
            && q.bitPos == 0 && 8 * q.logAddr == WholeByte(c) && q.wkc == p.wkc
            && Segmented(q, iosegment[..], blocks + LastBlock(c))
  {
    hide Capped;
    q := p;
    if p.bitPos > 0 {
      q := AddBlock(iosegment, p, p.logAddr + 1, 0, p.wkc, blocks);
    } else {
      assert blocks + [] == blocks;
    }
  }

  /** The list with one direction of the whole group mapped. */
  ghost function AllMapped(s: seq<Slave>, group: nat, d: Direction, start: nat, base: nat): (t: seq<Slave>)
    requires CanMapAll(s, group, d, start)
    ensures MappedBefore(t, s, group, d, start, base, |s|)
  {
    seq(|s|, k requires 0 <= k < |s| => if k == 0 then s[0] else Placed(s, group, d, start, base, k))
  }

  lemma {:induction false} AllMappedIs(t: seq<Slave>, s: seq<Slave>, group: nat, d: Direction, start: nat, base: nat)
    requires CanMapAll(s, group, d, start) && MappedBefore(t, s, group, d, start, base, |s|)
    ensures t == AllMapped(s, group, d, start, base)
  {
    hide Placed, CanMapAll;
  }

  /** One direction of the whole group, with the byte that finishes it. */
  method MapDirection(slavelist: array<Slave>, iosegment: array<nat>, group: nat, d: Direction, base: nat, p0: Progress,
                      ghost blocks: seq<nat>)
    returns (p: Progress)
    requires iosegment.Length == MAX_IOSEGMENTS && slavelist.Length > 0
    requires p0.bitPos == 0 && CanMapAll(slavelist[..], group, d, 8 * p0.logAddr)
    requires Segmented(p0, iosegment[..], blocks)
    modifies slavelist, iosegment
    ensures var s := old(slavelist[..]); var start := 8 * p0.logAddr;
            && slavelist[..] == AllMapped(s, group, d, start, base)
            && p.bitPos == 0 && 8 * p.logAddr == EndOf(s, group, d, start)
            && p.wkc == p0.wkc + Increments(s, group, d, start, |s|)
            && Segmented(p, iosegment[..], blocks + AllBlocks(s, group, d, start))
  {
    hide Capped, Placed, Takes, Blocks, Cursor, Increments;
    ghost var s, start := slavelist[..], 8 * p0.logAddr;
    p := p0;
    StartOfList(s, group, d, start);
    assert blocks + [] == blocks;
    var k := 1;
    while k < slavelist.Length
      invariant 1 <= k <= slavelist.Length
      invariant MappedBefore(slavelist[..], s, group, d, start, base, k)
      invariant Reached(p, s, group, d, start, k, p0.wkc)
      invariant Segmented(p, iosegment[..], blocks + Blocks(s, group, d, start, k))
    {
      p := MapSlave(slavelist, iosegment, group, d, base, k, p, s, start, p0.wkc, blocks);
      k := k + 1;
    }
    AllMappedIs(slavelist[..], s, group, d, start, base);
    ghost var c := Cursor(s, group, d, start, |s|);
    assert blocks + (Blocks(s, group, d, start, |s|) + LastBlock(c))
           == blocks + Blocks(s, group, d, start, |s|) + LastBlock(c);
    p := FinishByte(iosegment, p, blocks + Blocks(s, group, d, start, |s|));
  }

  lemma {:induction false} StartOfList(s: seq<Slave>, group: nat, d: Direction, start: nat)
    requires WellFormedList(s)
    ensures Cursor(s, group, d, start, 1) == start && Blocks(s, group, d, start, 1) == []
    ensures Increments(s, group, d, start, 1) == 0
  {
  }

  /** ecx_map_sm: the byte counts of slaves with more than seven bits. */
  function WithBytes(s: Slave): Slave {
    s.(ibytes := if s.ibits > 7 then (s.ibits + 7) / 8 else s.ibytes,
       obytes := if s.obits > 7 then (s.obits + 7) / 8 else s.obytes)
  }

  /** With a count of zero before, a slave of eight bits and more gets as many bytes as its bits take, and one with
      fewer keeps the zero. */
  lemma {:induction false} BytesAreFound(s: Slave, d: Direction)
    requires s.obytes == s.ibytes == 0
    ensures var bits, bytes := Bits(s, d), Bytes(WithBytes(s), d);
            (if bits >= 8 then 8 * bytes - 8 < bits <= 8 * bytes else bytes == 0) && bytes == BytesFor(bits)
  {
  }

  ghost function AllWithBytes(s: seq<Slave>, group: nat): (t: seq<Slave>)
    ensures |t| == |s|
  {
    seq(|s|, k requires 0 <= k < |s| => if k > 0 && InGroup(s[k], group) then WithBytes(s[k]) else s[k])
  }

  method FindMappings(slavelist: array<Slave>, group: nat)
    modifies slavelist
    ensures slavelist[..] == AllWithBytes(old(slavelist[..]), group)
  {
    ghost var s := slavelist[..];
    var k := 1;
    while k < slavelist.Length
      invariant k >= 1
      invariant forall i :: 0 <= i < slavelist.Length ==>
                  slavelist[i] == if 0 < i < k && InGroup(s[i], group) then WithBytes(s[i]) else s[i]
    {
      if InGroup(slavelist[k], group) {
        if slavelist[k].ibits > 7 {
          slavelist[k] := slavelist[k].(ibytes := (slavelist[k].ibits + 7) / 8);
        }
        if slavelist[k].obits > 7 {
          slavelist[k] := slavelist[k].(obytes := (slavelist[k].obits + 7) / 8);
        }
      }
      k := k + 1;
    }
  }

  /** The number of slaves of the group before `k` that block the use of LRW. */
  function Blocking(s: seq<Slave>, group: nat, k: nat): nat
    requires 1 <= k <= |s|
  {
    if k == 1 then 0
    else Blocking(s, group, k - 1) + (if InGroup(s[k - 1], group) && s[k - 1].blockLRW > 0 then 1 else 0)
  }

  /** The use of LRW is blocked exactly if some slave of the group blocks it; all slaves are in group 0. */
  lemma {:induction false} BlockedIff(s: seq<Slave>, group: nat, k: nat)
    requires 1 <= k <= |s|
    ensures Blocking(s, group, k) > 0 <==>
            exists i {:trigger s[i]} :: 1 <= i < k && (group == 0 || s[i].group == group) && s[i].blockLRW > 0
  {
    if k > 1 {
      BlockedIff(s, group, k - 1);
      if InGroup(s[k - 1], group) && s[k - 1].blockLRW > 0 {
        assert 1 <= k - 1 < k;
      }
    }
  }

  method CountBlocking(slavelist: array<Slave>, group: nat) returns (n: nat)
    requires slavelist.Length > 0
    ensures n == Blocking(slavelist[..], group, slavelist.Length)
  {
    n := 0;
    var k := 1;
    while k < slavelist.Length
      invariant 1 <= k <= slavelist.Length && n == Blocking(slavelist[..], group, k)
    {
      if InGroup(slavelist[k], group) && slavelist[k].blockLRW > 0 {
        n := n + 1;
      }
      k := k + 1;
    }
  }

  /** The slaves, before anything is mapped, can all be mapped at logical address `base`. */
  ghost predicate CanMapGroup(s: seq<Slave>, group: nat, base: nat) {
    && CanMapAll(s, group, Outputs, 8 * base)
    && CanMapAll(AllMapped(s, group, Outputs, 8 * base, base), group, Inputs, EndOf(s, group, Outputs, 8 * base))
  }

  ghost function FullyMapped(s: seq<Slave>, group: nat, base: nat): seq<Slave>
    requires CanMapGroup(s, group, base)
  {
    AllMapped(AllMapped(s, group, Outputs, 8 * base, base), group, Inputs, EndOf(s, group, Outputs, 8 * base), base)
  }

  /** The master's own record, which describes the whole image of group 0. */
  function MasterRecord(m: Slave, group: nat, obytes: nat, ibytes: nat): Slave {
    if group == 0 then m.(outputs := InMap(0), obytes := obytes, inputs := InMap(obytes), ibytes := ibytes) else m
  }

  /** What the group record says of the outputs of the slaves `s` mapped from logical address `base` on:
      where they are, how many bytes, in which segment they end and where, and their working counter. */
  ghost predicate DescribesOutputs(grp: Group, s: seq<Slave>, group: nat, base: nat)
    requires CanMapAll(s, group, Outputs, 8 * base)
    reads grp
  {
    var outs := AllBlocks(s, group, Outputs, 8 * base);
    && grp.outputs == InMap(0) && 8 * (base + grp.Obytes) == EndOf(s, group, Outputs, 8 * base)
    && Cut(Capped(outs).closed, grp.Ioffset) == Capped(outs) && grp.Isegment == |Capped(outs).closed|
    && grp.outputsWKC == Increments(s, group, Outputs, 8 * base, |s|)
  }

  /** ... and of the whole image: also the inputs, which follow the outputs, and all segments. */
  ghost predicate Describes(grp: Group, s: seq<Slave>, group: nat, base: nat)
    requires CanMapGroup(s, group, base)
    reads grp, grp.IOsegment
  {
    var t := AllMapped(s, group, Outputs, 8 * base, base);
    var middle := EndOf(s, group, Outputs, 8 * base);
    var outs, ins := AllBlocks(s, group, Outputs, 8 * base), AllBlocks(t, group, Inputs, middle);
    && DescribesOutputs(grp, s, group, base)
    && grp.inputs == InMap(grp.Obytes)
    && 8 * (base + grp.Obytes + grp.Ibytes) == EndOf(t, group, Inputs, middle)
    && 0 < grp.nsegments <= grp.IOsegment.Length == MAX_IOSEGMENTS
    && grp.IOsegment[..grp.nsegments] == AllSegments(Capped(outs + ins))
    && grp.inputsWKC == Increments(t, group, Inputs, middle, |t|)
  }

  lemma {:induction false} MappableIsWellFormed(s: seq<Slave>, group: nat, d: Direction, start: nat)
    requires CanMapAll(s, group, d, start)
    ensures WellFormedList(s)
  {
    hide CanMap;
  }

  lemma {:induction false} EndIsLater(s: seq<Slave>, group: nat, d: Direction, start: nat)
    requires WellFormedList(s)
    ensures start <= EndOf(s, group, d, start)
  {
    CursorGrows(s, group, d, start, 1, |s|);
  }

  lemma {:induction false} NothingCut()
    ensures Capped([]) == Cut([], 0)
  {
  }

  lemma {:induction false} CanMapParts(s: seq<Slave>, group: nat, base: nat)
    requires CanMapGroup(s, group, base)
    ensures CanMapAll(s, group, Outputs, 8 * base) && WellFormedList(s)
    ensures var t := AllMapped(s, group, Outputs, 8 * base, base);
            CanMapAll(t, group, Inputs, EndOf(s, group, Outputs, 8 * base)) && WellFormedList(t)
  {
    hide CanMap, AllMapped, EndOf;
  }

  /** ecx_config_map_group. Without slaves there is nothing to map. */
  method MapGroup(slavelist: array<Slave>, grp: Group, group: nat) returns (size: nat)
    requires slavelist.Length > 0 && grp.IOsegment.Length == MAX_IOSEGMENTS
    requires slavelist.Length > 1 ==> CanMapGroup(AllWithBytes(slavelist[..], group), group, grp.logstartaddr)
    modifies slavelist, grp, grp.IOsegment
    ensures slavelist.Length == 1 ==> size == 0 && unchanged(slavelist) && unchanged(grp)
    ensures slavelist.Length > 1 ==> grp.logstartaddr == old(grp.logstartaddr) && size == grp.Obytes + grp.Ibytes
    ensures slavelist.Length > 1 ==>
              var s := AllWithBytes(old(slavelist[..]), group);
              && Describes(grp, s, group, grp.logstartaddr)
              && slavelist[..]
                 == FullyMapped(s, group, grp.logstartaddr)[0 := MasterRecord(s[0], group, grp.Obytes, grp.Ibytes)]
              && grp.blockLRW == old(grp.blockLRW) + Blocking(FullyMapped(s, group, grp.logstartaddr), group, |s|)
  {
    size := 0;
    if slavelist.Length > 1 {
      size := MapSlaves(slavelist, grp, group);
    }
  }

  /** The first half: all outputs. */
  method MapOutputs(slavelist: array<Slave>, grp: Group, group: nat) returns (p: Progress)
    requires slavelist.Length > 1 && grp.IOsegment.Length == MAX_IOSEGMENTS
    requires CanMapAll(slavelist[..], group, Outputs, 8 * grp.logstartaddr)
    modifies slavelist, grp, grp.IOsegment
    ensures grp.logstartaddr == old(grp.logstartaddr) && grp.blockLRW == old(grp.blockLRW)
    ensures var s, base := old(slavelist[..]), grp.logstartaddr;
            && slavelist[..] == AllMapped(s, group, Outputs, 8 * base, base) && DescribesOutputs(grp, s, group, base)
            && p.logAddr == base + grp.Obytes && p.bitPos == 0
            && Segmented(p, grp.IOsegment[..], AllBlocks(s, group, Outputs, 8 * base))
  {
    hide CanMapAll, AllMapped, EndOf, Increments, AllBlocks, Capped;
    var base := grp.logstartaddr;
    ghost var s := slavelist[..];
    NothingCut();
    p := Progress(base, 0, 0, 0, 0);
    assert grp.IOsegment[..][..0] == [];
    p := MapDirection(slavelist, grp.IOsegment, group, Outputs, base, p, []);
    MappableIsWellFormed(s, group, Outputs, 8 * base);
    EndIsLater(s, group, Outputs, 8 * base);
    ghost var outs := AllBlocks(s, group, Outputs, 8 * base);
    assert [] + outs == outs;
    grp.outputs, grp.Obytes, grp.outputsWKC := InMap(0), p.logAddr - base, p.wkc;
    grp.nsegments, grp.Isegment, grp.Ioffset := p.current + 1, p.current, p.size;
  }

  /** The second half: all inputs, behind the outputs. */
  method MapInputs(slavelist: array<Slave>, grp: Group, group: nat, p0: Progress, ghost outs: seq<nat>)
    returns (size: nat)
    requires slavelist.Length > 1 && grp.IOsegment.Length == MAX_IOSEGMENTS
    requires p0.logAddr == grp.logstartaddr + grp.Obytes && p0.bitPos == 0 && Segmented(p0, grp.IOsegment[..], outs)
    requires CanMapAll(slavelist[..], group, Inputs, 8 * p0.logAddr)
    modifies slavelist, grp`Ibytes, grp`nsegments, grp`inputsWKC, grp`inputs, grp`blockLRW, grp.IOsegment
    ensures var s, base, start := old(slavelist[..]), grp.logstartaddr, 8 * p0.logAddr;
            && slavelist[..] == AllMapped(s, group, Inputs, start, base)
            && grp.inputs == InMap(grp.Obytes) && 8 * (base + grp.Obytes + grp.Ibytes) == EndOf(s, group, Inputs, start)
            && grp.inputsWKC == Increments(s, group, Inputs, start, |s|)
            && 0 < grp.nsegments <= grp.IOsegment.Length
            && grp.IOsegment[..grp.nsegments] == AllSegments(Capped(outs + AllBlocks(s, group, Inputs, start)))
            && grp.blockLRW == old(grp.blockLRW) + Blocking(slavelist[..], group, |s|)
    ensures size == grp.Obytes + grp.Ibytes
  {
    hide CanMapAll, AllMapped, EndOf, Increments, AllBlocks, Capped, Blocking;
    var base := grp.logstartaddr;
    MappableIsWellFormed(slavelist[..], group, Inputs, 8 * p0.logAddr);
    EndIsLater(slavelist[..], group, Inputs, 8 * p0.logAddr);
    var p := MapDirection(slavelist, grp.IOsegment, group, Inputs, base, p0.(wkc := 0), outs);
    var blocking := CountBlocking(slavelist, group);
    grp.blockLRW := grp.blockLRW + blocking;
    grp.IOsegment[p.current] := p.size;
    grp.nsegments, grp.inputsWKC, grp.inputs := p.current + 1, p.wkc, InMap(grp.Obytes);
    grp.Ibytes := p.logAddr - base - grp.Obytes;
    size := p.logAddr - base;
  }

  /** The mapping of at least one slave. The master's own record is completed at the end; nothing in
      between looks at it. */
  method MapSlaves(slavelist: array<Slave>, grp: Group, group: nat) returns (size: nat)
    requires slavelist.Length > 1 && grp.IOsegment.Length == MAX_IOSEGMENTS
    requires CanMapGroup(AllWithBytes(slavelist[..], group), group, grp.logstartaddr)
    modifies slavelist, grp, grp.IOsegment
    ensures grp.logstartaddr == old(grp.logstartaddr) && size == grp.Obytes + grp.Ibytes
    ensures var s := AllWithBytes(old(slavelist[..]), group);
            && Describes(grp, s, group, grp.logstartaddr)
            && slavelist[..]
               == FullyMapped(s, group, grp.logstartaddr)[0 := MasterRecord(s[0], group, grp.Obytes, grp.Ibytes)]
            && grp.blockLRW == old(grp.blockLRW) + Blocking(FullyMapped(s, group, grp.logstartaddr), group, |s|)
  {
    hide CanMapAll, AllMapped, EndOf, Increments, AllBlocks, Capped, AllWithBytes, Blocking, Segmented;
    var base := grp.logstartaddr;
    FindMappings(slavelist, group);
    ghost var s := slavelist[..];
    CanMapParts(s, group, base);
    var p := MapOutputs(slavelist, grp, group);
    size := MapInputs(slavelist, grp, group, p, AllBlocks(s, group, Outputs, 8 * base));
    assert FullyMapped(s, group, base)[0] == s[0];
    slavelist[0] := MasterRecord(slavelist[0], group, grp.Obytes, grp.Ibytes);
  }
}
