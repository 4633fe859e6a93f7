/** What the sequential mapper guarantees about the image as a whole. */
module ImageProperties {
  import opened FmmuMapping
  import opened ProcessImage
  import opened ImageLayout
  import opened Segments
  import opened MapGroup

  /** Everything up to here is output, everything from here on is input. */
  ghost function Middle(s: seq<Slave>, group: nat, base: nat): nat
    requires WellFormedList(s)
  {
    EndOf(s, group, Outputs, 8 * base)
  }

  /** The blocks of the whole image; sizes, kinds and bits of a slave do not change when its outputs
      are mapped, so the inputs are laid out as if for the original list. */
  ghost function ImageBlocks(s: seq<Slave>, group: nat, base: nat): seq<nat>
    requires WellFormedList(s)
  {
    AllBlocks(s, group, Outputs, 8 * base) + AllBlocks(s, group, Inputs, Middle(s, group, base))
  }

  ghost predicate SameData(s: seq<Slave>, t: seq<Slave>) {
    |s| == |t| && forall k :: 1 <= k < |s| ==>
      s[k].group == t[k].group && s[k].sm == t[k].sm && s[k].obits == t[k].obits && s[k].ibits == t[k].ibits
  }

  lemma {:induction false} SameLayout(s: seq<Slave>, t: seq<Slave>, group: nat, d: Direction, start: nat, k: nat)
    requires WellFormedList(s) && WellFormedList(t) && SameData(s, t) && 1 <= k <= |s|
    ensures Cursor(s, group, d, start, k) == Cursor(t, group, d, start, k)
    ensures Blocks(s, group, d, start, k) == Blocks(t, group, d, start, k)
    ensures Increments(s, group, d, start, k) == Increments(t, group, d, start, k)
  {
    hide End, Fmmus, ActiveCount;
    if k > 1 {
      SameLayout(s, t, group, d, start, k - 1);
    }
  }

  lemma {:induction false} MappingKeepsData(s: seq<Slave>, group: nat, d: Direction, start: nat, base: nat)
    requires CanMapAll(s, group, d, start)
    ensures WellFormedList(s) && SameData(s, AllMapped(s, group, d, start, base))
  {
    hide Fmmus, WriteAt, CanMap;
    var t := AllMapped(s, group, d, start, base);
    forall k | 1 <= k < |s|
      ensures s[k].group == t[k].group && s[k].sm == t[k].sm && s[k].obits == t[k].obits && s[k].ibits == t[k].ibits
    {
      assert t[k] == Placed(s, group, d, start, base, k);
    }
  }

  /** Slaves are given disjoint intervals: within one direction in the order of the slaves, and all
      outputs before all inputs. */
  lemma {:induction false} OutputsBeforeInputs(s: seq<Slave>, group: nat, base: nat, j: nat, k: nat)
    requires WellFormedList(s) && 1 <= j < |s| && 1 <= k < |s|
    requires Takes(s[j], group, Outputs) && Takes(s[k], group, Inputs)
    ensures var middle := Middle(s, group, base);
            && To(s, group, Outputs, 8 * base, j) <= middle <= From(s, group, Inputs, middle, k)
            && middle % 8 == 0
  {
    hide From, To, Cursor;
    IntervalInImage(s, group, Outputs, 8 * base, j);
    IntervalInImage(s, group, Inputs, Middle(s, group, base), k);
  }

  /** The blocks of the image sum to its size. */
  lemma {:induction false} ImageSize(s: seq<Slave>, group: nat, base: nat)
    requires WellFormedList(s)
    ensures var middle := Middle(s, group, base);
            && Total(AllBlocks(s, group, Outputs, 8 * base)) == middle / 8 - base
            && Total(ImageBlocks(s, group, base)) == EndOf(s, group, Inputs, middle) / 8 - base
  {
    hide AllBlocks, EndOf;
    var middle := Middle(s, group, base);
    AllBlocksSum(s, group, Outputs, 8 * base);
    AllBlocksSum(s, group, Inputs, middle);
    EndIsLater(s, group, Outputs, 8 * base);
    EndIsLater(s, group, Inputs, middle);
    TotalOfConcat(AllBlocks(s, group, Outputs, 8 * base), AllBlocks(s, group, Inputs, middle));
  }

  lemma {:induction false} TotalOfConcat(a: seq<nat>, b: seq<nat>)
    ensures Total(a + b) == Total(a) + Total(b)
    decreases |b|
  {
    if b == [] {
      assert a + b == a;
    } else {
      var last := |b| - 1;
      TotalOfConcat(a, b[..last]);
      assert (a + b)[..|a + b| - 1] == a + b[..last];
    }
  }

  /** Later blocks do not touch segments that are closed, and only enlarge the open one. */
  lemma {:induction false} CutExtends(a: seq<nat>, b: seq<nat>)
    ensures CutOf(a).closed <= CutOf(a + b).closed
    decreases |b|
  {
    if b == [] {
      assert a + b == a;
    } else {
      var last := |b| - 1;
      CutExtends(a, b[..last]);
      assert (a + b)[..|a + b| - 1] == a + b[..last];
    }
  }

  /** The block of slave `k` within the blocks of one direction, in bytes from the start. */
  lemma {:induction false} BlockOfSlave(s: seq<Slave>, group: nat, d: Direction, start: nat, k: nat) returns (i: nat)
    requires WellFormedList(s) && 1 <= k < |s| && Takes(s[k], group, d) && start % 8 == 0
    ensures var blocks := AllBlocks(s, group, d, start);
            && i < |blocks|
            && start / 8 + Total(blocks[..i]) == Cursor(s, group, d, start, k) / 8
            && start / 8 + Total(blocks[..i + 1]) == Cursor(s, group, d, start, k + 1) / 8
  {
    hide Cursor;
    var before, upto := Blocks(s, group, d, start, k), Blocks(s, group, d, start, k + 1);
    var blocks := AllBlocks(s, group, d, start);
    BlocksSum(s, group, d, start, k);
    BlocksSum(s, group, d, start, k + 1);
    CursorGrows(s, group, d, start, 1, k);
    CursorGrows(s, group, d, start, k, k + 1);
    BlocksExtend(s, group, d, start, k + 1, |s|);
    StartOfList(s, group, d, start);
    i := |before|;
    assert upto <= blocks;
    assert blocks[..i] == upto[..i] == before;
    assert blocks[..i + 1] == upto;
  }

  ghost function StartOf(s: seq<Slave>, group: nat, base: nat, d: Direction): nat
    requires WellFormedList(s)
  {
    if d.Outputs? then 8 * base else Middle(s, group, base)
  }

  /** ... and within the blocks of the whole image. */
  lemma {:induction false} BlockInImage(s: seq<Slave>, group: nat, base: nat, d: Direction, k: nat) returns (i: nat)
    requires WellFormedList(s) && 1 <= k < |s| && Takes(s[k], group, d)
    ensures var blocks := ImageBlocks(s, group, base); var start := StartOf(s, group, base, d);
            && i < |blocks|
            && base + Total(blocks[..i]) == Cursor(s, group, d, start, k) / 8
            && base + Total(blocks[..i + 1]) == Cursor(s, group, d, start, k + 1) / 8
  {
    hide Cursor, EndOf, AllBlocks;
    var outs := AllBlocks(s, group, Outputs, 8 * base);
    var ins := AllBlocks(s, group, Inputs, Middle(s, group, base));
    MiddleIsWhole(s, group, base);
    i := BlockOfSlave(s, group, d, StartOf(s, group, base, d), k);
    if d.Outputs? {
      assert (outs + ins)[..i] == outs[..i] && (outs + ins)[..i + 1] == outs[..i + 1];
    } else {
      assert (outs + ins)[..|outs| + i] == outs + ins[..i];
      assert (outs + ins)[..|outs| + i + 1] == outs + ins[..i + 1];
      TotalOfConcat(outs, ins[..i]);
      TotalOfConcat(outs, ins[..i + 1]);
      ImageSize(s, group, base);
      i := |outs| + i;
    }
  }

  lemma {:induction false} MiddleIsWhole(s: seq<Slave>, group: nat, base: nat)
    requires WellFormedList(s)
    ensures Middle(s, group, base) % 8 == 0 && base <= Middle(s, group, base) / 8
  {
    EndIsLater(s, group, Outputs, 8 * base);
  }

  /** No byte-oriented slave is cut in two by a segment boundary: all its bytes, counted from the
      start of the image, lie in one segment. */
  lemma {:induction false} ByteSlaveInOneSegment(s: seq<Slave>, group: nat, base: nat, d: Direction, k: nat)
    returns (j: nat)
    requires WellFormedList(s) && 1 <= k < |s| && Takes(s[k], group, d) && Bits(s[k], d) > 7
    ensures var start := StartOf(s, group, base, d);
            && base <= From(s, group, d, start, k) / 8 <= To(s, group, d, start, k) / 8
            && Holds(AllSegments(CutOf(ImageBlocks(s, group, base))), j,
                     From(s, group, d, start, k) / 8 - base, To(s, group, d, start, k) / 8 - base)
  {
    hide Cursor, ImageBlocks, CutOf, End, EndOf, Middle;
    var start := StartOf(s, group, base, d);
    var i := BlockInImage(s, group, base, d, k);
    j := BlockInOneSegment(ImageBlocks(s, group, base), i);
    MiddleIsWhole(s, group, base);
    IntervalInImage(s, group, d, start, k);
  }

  /** The segments of the group record: they sum to the image, and the segments before `Isegment`
      together with `Ioffset` are exactly the outputs. They all fit a datagram exactly when no slave
      needs more than that. This holds as long as no more than 64 segments are needed. */
  lemma {:induction false} SegmentsOfGroup(grp: Group, s: seq<Slave>, group: nat, base: nat)
    requires CanMapGroup(s, group, base) && Describes(grp, s, group, base) && WellFormedList(s)
    requires |CutOf(ImageBlocks(s, group, base)).closed| < MAX_IOSEGMENTS
    ensures grp.IOsegment[..grp.nsegments] == AllSegments(CutOf(ImageBlocks(s, group, base)))
    ensures Total(grp.IOsegment[..grp.nsegments]) == grp.Obytes + grp.Ibytes
    ensures grp.Isegment < grp.nsegments && grp.Ioffset <= grp.IOsegment[grp.Isegment]
    ensures Total(grp.IOsegment[..grp.Isegment]) + grp.Ioffset == grp.Obytes
    ensures AllFit(grp.IOsegment[..grp.nsegments]) <==> AllFit(ImageBlocks(s, group, base))
  {
    hide CanMapGroup, AllBlocks, EndOf, Increments, CutOf, Capped;
    var outs := AllBlocks(s, group, Outputs, 8 * base);
    var ins := AllBlocks(s, group, Inputs, Middle(s, group, base));
    SameBlocks(s, group, base);
    CutExtends(outs, ins);
    CappedIsCut(outs + ins);
    CappedIsCut(outs);
    CutConserves(outs + ins);
    CutConserves(outs);
    ImageSize(s, group, base);
    SegmentsFitIff(outs + ins);
    FirstSegments(grp.IOsegment[..grp.nsegments], CutOf(outs), CutOf(outs + ins));
    assert grp.IOsegment[..grp.nsegments][..grp.Isegment] == grp.IOsegment[..grp.Isegment];
    OpenGrows(outs, ins);
  }

  /** The blocks of the inputs as the mapper met them, after the outputs were mapped. */
  lemma {:induction false} SameBlocks(s: seq<Slave>, group: nat, base: nat)
    requires CanMapGroup(s, group, base) && WellFormedList(s)
    ensures var middle := Middle(s, group, base); var t := AllMapped(s, group, Outputs, 8 * base, base);
            && WellFormedList(t)
            && AllBlocks(t, group, Inputs, middle) == AllBlocks(s, group, Inputs, middle)
            && EndOf(t, group, Inputs, middle) == EndOf(s, group, Inputs, middle)
            && Increments(t, group, Inputs, middle, |t|) == Increments(s, group, Inputs, middle, |s|)
  {
    hide CanMapAll, AllMapped, Cursor, Blocks, Increments;
    CanMapParts(s, group, base);
    MappingKeepsData(s, group, Outputs, 8 * base, base);
    SameLayout(s, AllMapped(s, group, Outputs, 8 * base, base), group, Inputs, Middle(s, group, base), |s|);
  }

  lemma {:induction false} FirstSegments(segments: seq<nat>, first: Cut, all: Cut)
    requires segments == AllSegments(all) && first.closed <= all.closed
    ensures |first.closed| < |segments| && segments[..|first.closed|] == first.closed
    ensures Total(segments[..|first.closed|]) + first.open == Total(AllSegments(first))
  {
    TotalOfAll(first);
  }

  /** The segment that was open after the outputs holds at least what it held then. */
  lemma {:induction false} OpenGrows(a: seq<nat>, b: seq<nat>)
    ensures |CutOf(a).closed| < |AllSegments(CutOf(a + b))|
    ensures CutOf(a).open <= AllSegments(CutOf(a + b))[|CutOf(a).closed|]
    decreases |b|
  {
    if b == [] {
      assert a + b == a;
    } else {
      var last := |b| - 1;
      OpenGrows(a, b[..last]);
      CutExtends(a, b[..last]);
      assert (a + b)[..|a + b| - 1] == a + b[..last];
    }
  }
}
