/** Cutting the process image into segments that fit a datagram. The image grows in blocks, one per
    mapped slave; a block that does not fit the open segment closes it and opens the next one. */
module Segments {

  /** Process data that fits a frame together with the datagram for the distributed clock: a frame of
      1518 bytes without headers, working counter and check sequence, less 20 bytes. */
  const MAX_SEGMENT: nat := 1518 - 14 - 2 - 10 - 2 - 4 - 20
  const MAX_IOSEGMENTS: nat := 64

  /** The closed segments and the size of the open one. */
  datatype Cut = Cut(closed: seq<nat>, open: nat)

  function AddBlock(c: Cut, block: nat): Cut {
    if c.open + block > MAX_SEGMENT then Cut(c.closed + [c.open], block) else Cut(c.closed, c.open + block)
  }

  /** Cutting without a limit on the number of segments. */
  function CutOf(blocks: seq<nat>): Cut {
    if blocks == [] then Cut([], 0) else AddBlock(CutOf(blocks[..|blocks| - 1]), blocks[|blocks| - 1])
  }

  /** What the code does at the limit: the last segment is not closed again and the block is lost. */
  function AddCapped(c: Cut, block: nat): Cut {
    if c.open + block > MAX_SEGMENT && |c.closed| >= MAX_IOSEGMENTS - 1 then c else AddBlock(c, block)
  }

  function Capped(blocks: seq<nat>): Cut {
    if blocks == [] then Cut([], 0) else AddCapped(Capped(blocks[..|blocks| - 1]), blocks[|blocks| - 1])
  }

  function Total(s: seq<nat>): nat {
    if s == [] then 0 else Total(s[..|s| - 1]) + s[|s| - 1]
  }

  function AllSegments(c: Cut): seq<nat> { c.closed + [c.open] }

  lemma {:induction false} TotalOneMore(s: seq<nat>, x: nat)
    ensures Total(s + [x]) == Total(s) + x
  {
    assert (s + [x])[..|s|] == s;
  }

  lemma {:induction false} TotalOfPrefix(s: seq<nat>, i: nat, j: nat)
    requires i <= j <= |s|
    ensures Total(s[..i]) <= Total(s[..j])
    decreases j
  {
    if i < j {
      TotalOfPrefix(s, i, j - 1);
      assert s[..j][..j - 1] == s[..j - 1];
    }
  }

  lemma {:induction false} TotalOfAll(c: Cut)
    ensures Total(AllSegments(c)) == Total(c.closed) + c.open
  {
    TotalOneMore(c.closed, c.open);
  }

  lemma {:induction false} AddKeepsTotal(c: Cut, block: nat)
    ensures Total(AllSegments(AddBlock(c, block))) == Total(AllSegments(c)) + block
  {
    TotalOfAll(c);
    TotalOfAll(AddBlock(c, block));
    TotalOneMore(c.closed, c.open);
  }

  /** No byte is lost or invented: the segments sum to the blocks. */
  lemma {:induction false} CutConserves(blocks: seq<nat>)
    ensures Total(AllSegments(CutOf(blocks))) == Total(blocks)
  {
    if blocks == [] {
      TotalOfAll(CutOf(blocks));
    } else {
      var init := blocks[..|blocks| - 1];
      CutConserves(init);
      AddKeepsTotal(CutOf(init), blocks[|blocks| - 1]);
    }
  }

  /** Any way to cut the image into segments of at most 1466 bytes that leaves all blocks whole: each block
      either goes on with the open segment or begins a new one. */
  ghost predicate IsCutting(c: Cut, blocks: seq<nat>)
    decreases |blocks|
  {
    if blocks == [] then c == Cut([], 0)
    else
      var init, last := blocks[..|blocks| - 1], blocks[|blocks| - 1];
      exists b {:trigger IsCutting(b, init)} :: IsCutting(b, init)
        && (c == Cut(b.closed + [b.open], last) || (b.open + last <= 1466 && c == Cut(b.closed, b.open + last)))
  }

  /** No other cutting has fewer segments: neighbouring blocks share a segment whenever they can. */
  lemma {:induction false} CutIsSmallest(blocks: seq<nat>, c: Cut)
    requires IsCutting(c, blocks)
    ensures |AllSegments(CutOf(blocks))| <= |AllSegments(c)|
    ensures |CutOf(blocks).closed| == |c.closed| ==> CutOf(blocks).open <= c.open
  {
    if blocks != [] {
      var init, last := blocks[..|blocks| - 1], blocks[|blocks| - 1];
      var b :| IsCutting(b, init)
        && (c == Cut(b.closed + [b.open], last) || (b.open + last <= 1466 && c == Cut(b.closed, b.open + last)));
      CutIsSmallest(init, b);
    }
  }

  /** ... and it is one of them. */
  lemma {:induction false} CutIsCutting(blocks: seq<nat>)
    ensures IsCutting(CutOf(blocks), blocks)
  {
    if blocks != [] {
      CutIsCutting(blocks[..|blocks| - 1]);
    }
  }

  ghost predicate AllFit(s: seq<nat>) {
    forall i :: 0 <= i < |s| ==> s[i] <= MAX_SEGMENT
  }

  /** Every segment fits a datagram exactly when every block does. */
  lemma {:induction false} SegmentsFitIff(blocks: seq<nat>)
    ensures AllFit(AllSegments(CutOf(blocks))) <==> AllFit(blocks)
  {
    if blocks != [] {
      var last := blocks[|blocks| - 1];
      var init := blocks[..|blocks| - 1];
      SegmentsFitIff(init);
      AddFitsIff(CutOf(init), last);
      FitsOneMore(init, last);
      assert blocks == init + [last];
    }
  }

  lemma {:induction false} FitsOneMore(s: seq<nat>, x: nat)
    ensures AllFit(s + [x]) <==> AllFit(s) && x <= MAX_SEGMENT
  {
    if AllFit(s + [x]) {
      assert (s + [x])[|s|] == x;
      forall i | 0 <= i < |s| ensures s[i] <= MAX_SEGMENT {
        assert (s + [x])[i] == s[i];
      }
    }
  }

  lemma {:induction false} AddFitsIff(c: Cut, block: nat)
    ensures AllFit(AllSegments(AddBlock(c, block))) <==> AllFit(AllSegments(c)) && block <= MAX_SEGMENT
  {
    FitsOneMore(c.closed, c.open);
    FitsOneMore(c.closed, c.open + block);
    FitsOneMore(c.closed + [c.open], block);
  }

  /** The j-th segment holds the bytes from `from` to `to` of the image. */
  ghost predicate Holds(segments: seq<nat>, j: nat, from: nat, to: nat) {
    j < |segments| && Total(segments[..j]) <= from && to <= Total(segments[..j + 1])
  }

  lemma {:induction false} AddKeepsHolding(c: Cut, block: nat, j: nat, from: nat, to: nat)
    requires Holds(AllSegments(c), j, from, to)
    ensures Holds(AllSegments(AddBlock(c, block)), j, from, to)
  {
    var a, b := AllSegments(c), AllSegments(AddBlock(c, block));
    assert a[..j] == b[..j];
    if j < |c.closed| {
      assert a[..j + 1] == b[..j + 1];
    } else {
      assert a[..j + 1] == a[..j] + [c.open];
      assert b[..j + 1] == b[..j] + [b[j]];
      TotalOneMore(a[..j], c.open);
      TotalOneMore(b[..j], b[j]);
    }
  }

  lemma {:induction false} LastHolds(c: Cut, block: nat)
    ensures var t := Total(AllSegments(c)); var d := AddBlock(c, block);
            Holds(AllSegments(d), |d.closed|, t, t + block)
  {
    var d := AddBlock(c, block);
    TotalOfAll(c);
    TotalOfAll(d);
    TotalOneMore(c.closed, c.open);
    assert AllSegments(d)[..|d.closed|] == d.closed;
    assert AllSegments(d)[..|d.closed| + 1] == AllSegments(d);
  }

  /** No block is cut in two: each lies within one segment. */
  lemma {:induction false} BlockInOneSegment(blocks: seq<nat>, k: nat) returns (j: nat)
    requires k < |blocks|
    ensures Holds(AllSegments(CutOf(blocks)), j, Total(blocks[..k]), Total(blocks[..k + 1]))
  {
    var init := blocks[..|blocks| - 1];
    CutConserves(init);
    if k == |blocks| - 1 {
      LastHolds(CutOf(init), blocks[k]);
      assert blocks[..k + 1] == init + [blocks[k]];
      TotalOneMore(init, blocks[k]);
      j := |CutOf(blocks).closed|;
    } else {
      j := BlockInOneSegment(init, k);
      assert init[..k] == blocks[..k] && init[..k + 1] == blocks[..k + 1];
      AddKeepsHolding(CutOf(init), blocks[|blocks| - 1], j, Total(blocks[..k]), Total(blocks[..k + 1]));
    }
  }

  /** Up to 64 segments the limit plays no part. */
  lemma {:induction false} CappedIsCut(blocks: seq<nat>)
    requires |CutOf(blocks).closed| < MAX_IOSEGMENTS
    ensures Capped(blocks) == CutOf(blocks)
  {
    if blocks != [] {
      CappedIsCut(blocks[..|blocks| - 1]);
    }
  }

  lemma {:induction false} CappedBounds(blocks: seq<nat>)
    requires AllFit(blocks)
    ensures |Capped(blocks).closed| < MAX_IOSEGMENTS && Capped(blocks).open <= MAX_SEGMENT
    ensures Total(AllSegments(Capped(blocks))) <= Total(blocks)
  {
    if blocks == [] {
      TotalOfAll(Capped(blocks));
    } else {
      var last := |blocks| - 1;
      assert AllFit(blocks[..last]);
      CappedBounds(blocks[..last]);
      AddKeepsTotal(Capped(blocks[..last]), blocks[last]);
    }
  }

  /** The segments the code records sum to the image exactly when 64 of them are enough. */
  lemma {:induction false} CappedConservesIff(blocks: seq<nat>)
    requires AllFit(blocks)
    ensures Total(AllSegments(Capped(blocks))) == Total(blocks) <==> |CutOf(blocks).closed| < MAX_IOSEGMENTS
  {
    CutConserves(blocks);
    if |CutOf(blocks).closed| < MAX_IOSEGMENTS {
      CappedIsCut(blocks);
    } else {
      CappedLoses(blocks);
    }
  }

  lemma {:induction false} CappedLoses(blocks: seq<nat>)
    requires AllFit(blocks) && |CutOf(blocks).closed| >= MAX_IOSEGMENTS
    ensures Total(AllSegments(Capped(blocks))) < Total(blocks)
  {
    var last := |blocks| - 1;
    var init := blocks[..last];
    assert AllFit(init);
    CappedBounds(init);
    AddKeepsTotal(Capped(init), blocks[last]);
    if |CutOf(init).closed| >= MAX_IOSEGMENTS {
      CappedLoses(init);
    } else {
      CappedIsCut(init);
    }
  }

  /** The code after each block: `iosegment` is the table, `segmentsize` the size of the open segment. */
  method AddToSegment(iosegment: array<nat>, currentsegment: nat, segmentsize: nat, diff: nat, ghost blocks: seq<nat>)
    returns (current: nat, size: nat)
    requires iosegment.Length == MAX_IOSEGMENTS && currentsegment < MAX_IOSEGMENTS
    requires Cut(iosegment[..currentsegment], segmentsize) == Capped(blocks)
    modifies iosegment
    ensures current < MAX_IOSEGMENTS
    ensures Cut(iosegment[..current], size) == Capped(blocks + [diff])
  {
    assert (blocks + [diff])[..|blocks|] == blocks;
    current, size := currentsegment, segmentsize;
    if size + diff > MAX_SEGMENT {
      iosegment[current] := size;
      if current < MAX_IOSEGMENTS - 1 {
        current := current + 1;
        size := diff;
      }
    } else {
      size := size + diff;
    }
  }

  /** For example, 65 blocks that each fill a segment. */
  function FullBlocks(n: nat): seq<nat> { seq(n, i => MAX_SEGMENT) }

  lemma {:induction false} OneMoreFull(n: nat)
    requires n > 0
    ensures FullBlocks(n)[..n - 1] == FullBlocks(n - 1) && FullBlocks(n)[n - 1] == MAX_SEGMENT
  {
  }

  lemma {:induction false} CutOfFull(n: nat)
    requires 0 < n <= MAX_IOSEGMENTS
    ensures Capped(FullBlocks(n)) == Cut(FullBlocks(n - 1), MAX_SEGMENT)
  {
    OneMoreFull(n);
    if n > 1 {
      CutOfFull(n - 1);
      OneMoreFull(n - 1);
      assert FullBlocks(n - 1) == FullBlocks(n - 2) + [MAX_SEGMENT];
    } else {
      assert FullBlocks(0) == [];
    }
  }

  lemma {:induction false} TotalOfFull(n: nat)
    ensures Total(FullBlocks(n)) == n * MAX_SEGMENT
  {
    if n > 0 {
      OneMoreFull(n);
      TotalOfFull(n - 1);
    }
  }

  /** A 65th block of any size is in no segment, and the others stay as they are. */
  lemma {:induction false} SixtyFifthIsLost(x: nat)
    requires x > 0
    ensures AllSegments(Capped(FullBlocks(64) + [x])) == FullBlocks(64)
    ensures Total(FullBlocks(64) + [x]) == 64 * 1466 + x
  {
    var all := FullBlocks(64) + [x];
    CutOfFull(64);
    OneMoreFull(64);
    assert all[..64] == FullBlocks(64);
    assert FullBlocks(63) + [MAX_SEGMENT] == FullBlocks(64);
    TotalOfFull(64);
    TotalOneMore(FullBlocks(64), x);
  }
}
