/** Where the mapper puts the data of every slave: a bit cursor runs over the slaves in order, first
    for all outputs and then, from the next whole byte, for all inputs. */
module ImageLayout {
  import opened FmmuMapping
  import opened ProcessImage
  import opened Segments

  /** Slave lists: entry 0 is the master, slaves start at 1. */
  ghost predicate WellFormedList(s: seq<Slave>) {
    |s| > 0 && forall i :: 1 <= i < |s| ==> WellFormed(s[i])
  }

  /** Group 0 stands for all slaves. */
  predicate InGroup(s: Slave, group: nat) {
    group == 0 || s.group == group
  }

  predicate Takes(s: Slave, group: nat, d: Direction) {
    InGroup(s, group) && Bits(s, d) > 0
  }

  /** The bit cursor before slave `k` is mapped, if it starts at `start`. */
  ghost function Cursor(s: seq<Slave>, group: nat, d: Direction, start: nat, k: nat): nat
    requires WellFormedList(s) && 1 <= k <= |s|
  {
    if k == 1 then start
    else
      var c := Cursor(s, group, d, start, k - 1);
      if Takes(s[k - 1], group, d) then End(DataOf(s[k - 1], d), c) else c
  }

  /** The bytes by which the image grows at each slave before `k`. */
  ghost function Blocks(s: seq<Slave>, group: nat, d: Direction, start: nat, k: nat): seq<nat>
    requires WellFormedList(s) && 1 <= k <= |s|
  {
    if k == 1 then []
    else
      var before := Blocks(s, group, d, start, k - 1);
      if Takes(s[k - 1], group, d) then
        CursorGrows(s, group, d, start, k - 1, k);
        before + [Cursor(s, group, d, start, k) / 8 - Cursor(s, group, d, start, k - 1) / 8]
      else before
  }

  /** Working-counter increments of the slaves before `k`. */
  ghost function Increments(s: seq<Slave>, group: nat, d: Direction, start: nat, k: nat): nat
    requires WellFormedList(s) && 1 <= k <= |s|
  {
    if k == 1 then 0
    else
      Increments(s, group, d, start, k - 1)
      + (if Takes(s[k - 1], group, d)
         then ActiveCount(Fmmus(DataOf(s[k - 1], d), Cursor(s, group, d, start, k - 1))) else 0)
  }

  /** Slave `k` after one direction of the whole list has been mapped. */
  ghost function Placed(s: seq<Slave>, group: nat, d: Direction, start: nat, base: nat, k: nat): Slave
    requires WellFormedList(s) && 1 <= k < |s|
    requires Takes(s[k], group, d) ==> CanMap(s[k], d, Cursor(s, group, d, start, k))
  {
    if Takes(s[k], group, d) then Mapped(s[k], d, Cursor(s, group, d, start, k), group, base) else s[k]
  }

  /** A started byte is finished before the next direction. */
  function WholeByte(cursor: nat): nat { 8 * ((cursor + 7) / 8) }

  function LastBlock(cursor: nat): seq<nat> {
    if cursor % 8 > 0 then [1] else []
  }

  /** The blocks of one direction, with the byte that finishes it. */
  ghost function AllBlocks(s: seq<Slave>, group: nat, d: Direction, start: nat): seq<nat>
    requires WellFormedList(s)
  {
    Blocks(s, group, d, start, |s|) + LastBlock(Cursor(s, group, d, start, |s|))
  }

  ghost function EndOf(s: seq<Slave>, group: nat, d: Direction, start: nat): nat
    requires WellFormedList(s)
  {
    WholeByte(Cursor(s, group, d, start, |s|))
  }

  lemma {:induction false} CursorGrows(s: seq<Slave>, group: nat, d: Direction, start: nat, j: nat, k: nat)
    requires WellFormedList(s) && 1 <= j <= k <= |s|
    ensures Cursor(s, group, d, start, j) <= Cursor(s, group, d, start, k)
    decreases k
  {
    hide Filled;
    if j < k {
      CursorGrows(s, group, d, start, j, k - 1);
    }
  }

  /** The interval of the image that slave `k` is given. */
  ghost function From(s: seq<Slave>, group: nat, d: Direction, start: nat, k: nat): nat
    requires WellFormedList(s) && 1 <= k < |s|
  {
    Start(DataOf(s[k], d), Cursor(s, group, d, start, k))
  }

  ghost function To(s: seq<Slave>, group: nat, d: Direction, start: nat, k: nat): nat
    requires WellFormedList(s) && 1 <= k < |s|
  {
    Cursor(s, group, d, start, k + 1)
  }

  /** All intervals of one direction are ordered like the slaves, disjoint, and inside the image. */
  lemma {:induction false} IntervalsAreOrdered(s: seq<Slave>, group: nat, d: Direction, start: nat, j: nat, k: nat)
    requires WellFormedList(s) && 1 <= j < k < |s| && Takes(s[j], group, d) && Takes(s[k], group, d)
    ensures start <= From(s, group, d, start, j) <= To(s, group, d, start, j)
    ensures To(s, group, d, start, j) <= From(s, group, d, start, k) <= To(s, group, d, start, k)
    ensures To(s, group, d, start, k) <= EndOf(s, group, d, start)
  {
    IntervalInImage(s, group, d, start, j);
    IntervalInImage(s, group, d, start, k);
    CursorGrows(s, group, d, start, j + 1, k);
  }

  lemma {:induction false} IntervalInImage(s: seq<Slave>, group: nat, d: Direction, start: nat, k: nat)
    requires WellFormedList(s) && 1 <= k < |s| && Takes(s[k], group, d)
    ensures start <= Cursor(s, group, d, start, k) <= From(s, group, d, start, k) <= To(s, group, d, start, k)
    ensures To(s, group, d, start, k) <= EndOf(s, group, d, start)
  {
    hide Filled;
    CursorGrows(s, group, d, start, 1, k);
    CursorGrows(s, group, d, start, k + 1, |s|);
  }

  /** The FMMUs programmed for a slave are a partition of its interval; the interval has exactly its
      bits if these are seven or fewer, and otherwise exactly its bytes when the matching sync
      managers before the last one cover them. */
  lemma {:induction false} IntervalIsExact(s: seq<Slave>, group: nat, d: Direction, start: nat, k: nat)
    requires WellFormedList(s) && 1 <= k < |s| && Takes(s[k], group, d)
    ensures Partition(Fmmus(DataOf(s[k], d), Cursor(s, group, d, start, k)),
                      From(s, group, d, start, k), To(s, group, d, start, k))
    ensures Bits(s[k], d) <= 7 ==> To(s, group, d, start, k) - From(s, group, d, start, k) == Bits(s[k], d)
    ensures Bits(s[k], d) > 7 ==> From(s, group, d, start, k) % 8 == 0 == To(s, group, d, start, k) % 8
    ensures Bits(s[k], d) > 7 && Cover(DataOf(s[k], d), 0) >= BytesFor(Bits(s[k], d)) ==>
              To(s, group, d, start, k) - From(s, group, d, start, k) == 8 * BytesFor(Bits(s[k], d))
  {
    hide Fmmus, Partition, Start, End, Cover;
    FmmusPartition(DataOf(s[k], d), Cursor(s, group, d, start, k));
    Width(DataOf(s[k], d), Cursor(s, group, d, start, k));
  }

  /** The blocks of one direction sum to its bytes. */
  lemma {:induction false} BlocksSum(s: seq<Slave>, group: nat, d: Direction, start: nat, k: nat)
    requires WellFormedList(s) && 1 <= k <= |s|
    ensures Total(Blocks(s, group, d, start, k)) == Cursor(s, group, d, start, k) / 8 - start / 8
  {
    hide DataOf, End;
    if k > 1 {
      BlocksSum(s, group, d, start, k - 1);
      if Takes(s[k - 1], group, d) {
        CursorGrows(s, group, d, start, k - 1, k);
        TotalOneMore(Blocks(s, group, d, start, k - 1),
                     Cursor(s, group, d, start, k) / 8 - Cursor(s, group, d, start, k - 1) / 8);
      }
    }
  }

  lemma {:induction false} AllBlocksSum(s: seq<Slave>, group: nat, d: Direction, start: nat)
    requires WellFormedList(s)
    ensures Total(AllBlocks(s, group, d, start)) == EndOf(s, group, d, start) / 8 - start / 8
  {
    hide Blocks;
    var c := Cursor(s, group, d, start, |s|);
    BlocksSum(s, group, d, start, |s|);
    if c % 8 > 0 {
      TotalOneMore(Blocks(s, group, d, start, |s|), 1);
    } else {
      assert Blocks(s, group, d, start, |s|) + [] == Blocks(s, group, d, start, |s|);
    }
  }

  /** The blocks of earlier slaves come first. */
  lemma {:induction false} BlocksExtend(s: seq<Slave>, group: nat, d: Direction, start: nat, j: nat, k: nat)
    requires WellFormedList(s) && 1 <= j <= k <= |s|
    ensures Blocks(s, group, d, start, j) <= Blocks(s, group, d, start, k)
    decreases k
  {
    hide Cursor;
    if j < k {
      BlocksExtend(s, group, d, start, j, k - 1);
    }
  }
}
