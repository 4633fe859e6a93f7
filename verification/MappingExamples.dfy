/** Small groups for which the mapper does not do what its callers rely on. */
module MappingExamples {
  import opened FmmuMapping
  import opened ProcessImage
  import opened ImageLayout
  import opened ImageProperties
  import opened OverlapImage
  import opened MappedExchange
  import opened FmmuWindows
  import opened MapGroup
  import opened PublishedOffsets
  import opened Segments
  import W = Wire

  const NO_SM := Sm(0, 0, 0)
  const NO_FMMU := Fmmu(0, 0, 0, 0, 0, 0, false)

  /** A slave of group 0 with outputs only, before it is mapped. */
  function OutputSlave(first: Sm, second: Sm, bits: nat): Slave {
    Slave(0, [first, second, NO_SM, NO_SM, NO_SM, NO_SM, NO_SM, NO_SM], bits, 0, BytesFor(bits), 0,
          [NO_FMMU, NO_FMMU, NO_FMMU, NO_FMMU], 0, Null, 0, Null, 0, 0)
  }

  /** The master and one slave with a byte of outputs. */
  const ONE_BYTE := [OutputSlave(NO_SM, NO_SM, 0), OutputSlave(Sm(0x1000, 1, 3), NO_SM, 8)]

  lemma {:induction false} OneByteFmmu()
    ensures WellFormedList(ONE_BYTE) && Bits(ONE_BYTE[1], Outputs) == 8
    ensures var a := DataOf(ONE_BYTE[1], Outputs);
            Filled(a, 0, 0, 0) == 1 && |Fmmus(a, 0)| == 1
  {
    var a := DataOf(ONE_BYTE[1], Outputs);
    assert NextSm(a, 0) == 0 && Pass(a, 0, 0) == (0, 1);
    assert Fill(a, 0, 1, 1, 1) == [];
  }

  /** In the overlapped image of this slave the input address, which is not set, is moved by the one byte of
      outputs: the slave then seems to have inputs. */
  lemma {:induction false} UnsetInputsAreMoved()
    ensures CanOverlapAll(ONE_BYTE, 0, 0) && ONE_BYTE[1].inputs == Null && ONE_BYTE[1].ibits == 0
    ensures EndInSlot(ONE_BYTE, 0, 0, Outputs, 1) == 1
    ensures Moved(InSlot(ONE_BYTE, 0, 0, 1), 1).inputs == Stray(1)
  {
    OneByteFmmu();
    hide Fmmus, DataOf, Filled;
    assert Slot(ONE_BYTE, 0, 0, 1) == 0;
  }

  /** The master and one slave with four bytes of outputs in each of two sync managers with a gap between
      them. */
  const TWO_BUFFERS := [OutputSlave(NO_SM, NO_SM, 0), OutputSlave(Sm(0x1000, 4, 3), Sm(0x1100, 4, 3), 64)]

  lemma {:induction false} TwoFmmus()
    ensures WellFormedList(TWO_BUFFERS) && Bits(TWO_BUFFERS[1], Outputs) == 64
    ensures var a := DataOf(TWO_BUFFERS[1], Outputs);
            Filled(a, 0, 0, 0) == 8 && ActiveCount(Fmmus(a, 0)) == 2 == |Fmmus(a, 0)|
  {
    var a := DataOf(TWO_BUFFERS[1], Outputs);
    assert NextSm(a, 0) == 0 && NextSm(a, 1) == 1;
    assert Gather(a, 0, 4) == (1, 4) && Gather(a, 1, 8) == (1, 8);
    hide NextSm, Gather;
    assert Pass(a, 0, 0) == (1, 4) && Pass(a, 1, 4) == (1, 8);
    assert Fill(a, 1, 8, 8, 8) == [] && Filled(a, 1, 8, 8) == 8;
    var fs := Fill(a, 1, 4, 4, 4);
    assert |fs| == 1 && fs[0].active;
    assert ActiveCount(fs) == 1 by { assert ActiveCount(fs[1..]) == 0; }
  }

  lemma {:induction false} StaysWellFormed(s: Slave, d: Direction, cursor: nat)
    requires CanMap(s, d, cursor)
    ensures WellFormed(Mapped(s, d, cursor, 0, 0))
  {
    hide Fmmus, DataOf;
  }

  lemma {:induction false} NothingToMap(s: seq<Slave>, start: nat)
    requires WellFormedList(s) && forall k :: 1 <= k < |s| ==> s[k].ibits == 0
    ensures CanMapAll(s, 0, Inputs, start)
  {
  }

  lemma {:induction false} TwoBuffersCanBeMapped()
    ensures CanMapGroup(TWO_BUFFERS, 0, 0) && Idle(TWO_BUFFERS, 0)
  {
    TwoFmmus();
    hide Fmmus, DataOf, Filled, Mapped;
    var s := TWO_BUFFERS;
    assert CanMapAll(s, 0, Outputs, 0);
    MappingKeepsData(s, 0, Outputs, 0, 0);
    var t := AllMapped(s, 0, Outputs, 0, 0);
    assert t[1] == Placed(s, 0, Outputs, 0, 0, 1);
    StaysWellFormed(s[1], Outputs, 0);
    NothingToMap(t, EndOf(s, 0, Outputs, 0));
  }

  /** What the mapper leaves behind. */
  ghost function TwoBuffersMapped(): seq<Slave> {
    TwoBuffersCanBeMapped();
    FullyMapped(TWO_BUFFERS, 0, 0)
  }

  /** The mapper counts two FMMUs, which makes an expected counter of 4; the slave answers for both with one
      increment of 2. */
  lemma {:induction false} CounterNeverReached(ws: seq<W.Slave>)
    requires AllOnBus(ws, TwoBuffersMapped(), 0)
    ensures WellFormedList(TWO_BUFFERS)
    ensures 2 * Increments(TWO_BUFFERS, 0, Outputs, StartOf(TWO_BUFFERS, 0, 0, Outputs), 2)
            + Increments(TWO_BUFFERS, 0, Inputs, StartOf(TWO_BUFFERS, 0, 0, Inputs), 2) == 4
    ensures 2 * W.OutputCount(ws, |ws|) + W.InputCount(ws, |ws|) == 2
  {
    TwoFmmus();
    TwoBuffersCanBeMapped();
    TablesGiveWindows(TWO_BUFFERS, 0, 0, ws);
    hide Fmmus, DataOf, Filled, AllMapped, OnBus, CanMapAll;
    assert HasWindows(ws[0], TWO_BUFFERS, 0, 0, 1);
  }

  /** The master and four slaves with outputs: 1465 bytes, six bits, four bits, and eight bytes. The four bits
      begin in the last byte of the first segment and end in the second segment. */
  const CUT := [OutputSlave(NO_SM, NO_SM, 0), OutputSlave(Sm(0x1000, 1465, 3), NO_SM, 11720),
                OutputSlave(Sm(0x1000, 1, 3), NO_SM, 6), OutputSlave(Sm(0x1000, 1, 3), NO_SM, 4),
                OutputSlave(Sm(0x1000, 8, 3), NO_SM, 64)]

  lemma {:induction false} OneBuffer(length: nat)
    requires length > 0
    ensures var s := OutputSlave(Sm(0x1000, length, 3), NO_SM, 8 * length);
            WellFormed(s) && Filled(DataOf(s, Outputs), 0, 0, 0) == length
  {
    var a := DataOf(OutputSlave(Sm(0x1000, length, 3), NO_SM, 8 * length), Outputs);
    assert NextSm(a, 0) == 0 && Pass(a, 0, 0) == (0, length);
    assert Filled(a, 0, length, length) == length;
  }

  lemma {:induction false} CutCursors()
    ensures WellFormedList(CUT)
    ensures Cursor(CUT, 0, Outputs, 0, 1) == 0 && Cursor(CUT, 0, Outputs, 0, 2) == 11720
    ensures Cursor(CUT, 0, Outputs, 0, 3) == 11726 && Cursor(CUT, 0, Outputs, 0, 4) == 11730
    ensures Cursor(CUT, 0, Outputs, 0, 5) == 11800
  {
    OneBuffer(1465);
    OneBuffer(8);
    hide Filled;
    assert Cursor(CUT, 0, Outputs, 0, 2) == 11720;
    assert Cursor(CUT, 0, Outputs, 0, 3) == 11726;
    assert Cursor(CUT, 0, Outputs, 0, 4) == 11730;
  }

  lemma {:induction false} CutBlocks()
    requires WellFormedList(CUT)
    ensures AllBlocks(CUT, 0, Outputs, 0) == [1465, 0, 1, 9] && Middle(CUT, 0, 0) == 11800
    ensures AllBlocks(CUT, 0, Inputs, 11800) == []
  {
    CutCursors();
    hide Cursor;
    assert Blocks(CUT, 0, Outputs, 0, 2) == [1465];
    assert Blocks(CUT, 0, Outputs, 0, 3) == [1465, 0];
    assert Blocks(CUT, 0, Outputs, 0, 4) == [1465, 0, 1];
    NoInputsMapped(CUT, 11800, 5);
  }

  lemma {:induction false} NoInputsMapped(s: seq<Slave>, start: nat, k: nat)
    requires WellFormedList(s) && 1 <= k <= |s| && forall i :: 1 <= i < |s| ==> s[i].ibits == 0
    ensures Blocks(s, 0, Inputs, start, k) == [] && Cursor(s, 0, Inputs, start, k) == start
  {
    if k > 1 {
      NoInputsMapped(s, start, k - 1);
    }
  }

  lemma {:induction false} CutSegments()
    ensures AllSegments(CutOf([1465, 0, 1, 9])) == [1466, 9]
  {
    assert [1465, 0, 1, 9][..3] == [1465, 0, 1] && [1465, 0, 1][..2] == [1465, 0] && [1465, 0][..1] == [1465];
    assert [1465][..0] == [];
    assert CutOf([1465]) == Segments.Cut([], 1465);
    assert CutOf([1465, 0]) == Segments.Cut([], 1465);
    assert CutOf([1465, 0, 1]) == Segments.Cut([], 1466);
  }

  /** The four bits of the third slave lie in two segments, so that with two datagrams it counts four for its
      outputs, and not two as the mapper expects. */
  lemma {:induction false} CutInTwo(d: W.Datagram, e: W.Datagram)
    requires d.addr == 0 && |d.data| == 1466 == e.addr && |e.data| == 9
    ensures WellFormedList(CUT) && !AllUncut(CUT, 0, 0)
    ensures var start, len := WindowStart(CUT, 0, 0, Outputs, 3), WindowLength(CUT, 0, 0, Outputs, 3);
            start == 11726 && len == 4 && W.Meetings([d, e], start, len) == 2
  {
    CutCursors();
    CutBlocks();
    CutSegments();
    hide Cursor, CutOf, AllSegments, AllBlocks, Middle;
    var segments := [1466, 9];
    assert ImageBlocks(CUT, 0, 0) == [1465, 0, 1, 9];
    assert segments[..1] == [1466] && [1466][..0] == [];
    assert Segments.Total([1466]) == 1466;
    assert Takes(CUT[3], 0, Outputs);
    assert [d, e][..1] == [d] && [d][..0] == [];
    assert W.Meetings([d], 11726, 4) == 1;
  }

  /** The master, a slave of four bits and a slave of one byte. */
  const BITS_FIRST := [OutputSlave(NO_SM, NO_SM, 0), OutputSlave(Sm(0x1000, 1, 3), NO_SM, 4),
                       OutputSlave(Sm(0x1000, 1, 3), NO_SM, 8)]

  /** The application publishes offset 0 for the second slave, whose byte is the second one of the image. */
  lemma {:induction false} PublishedTooLow()
    ensures WellFormedList(BITS_FIRST) && Covered(BITS_FIRST)
    ensures SumBytes(BITS_FIRST, Outputs, 2) == 0 && From(BITS_FIRST, 0, Outputs, 0, 2) == 8
  {
    assert Cursor(BITS_FIRST, 0, Outputs, 0, 2) == 4;
    hide Cursor;
    var s := BITS_FIRST;
    forall k, d {:trigger Bytes(s[k], d)} | 1 <= k < |s|
      ensures Bytes(s[k], d) == BytesFor(Bits(s[k], d))
      ensures Bits(s[k], d) > 7 ==> Cover(DataOf(s[k], d), 0) >= BytesFor(Bits(s[k], d))
    {
      assert d == Outputs || d == Inputs;
    }
  }
}
