/** What a sequence of datagrams that covers a part of the image does: which windows it meets, what the
    slaves take from it, and what the IOmap holds when its replies are taken in. */
module Transfers {
  import opened Memory
  import opened Bits
  import opened Wire
  import opened ProcessData

  /** A window, given by its offset in the image in bits, lies within one segment. */
  ghost predicate InOneSegment(g: Group, from: nat, len: nat) {
    exists k :: 0 <= k < |g.iosegment| && SegmentHolds(g, k, from, len)
  }

  ghost predicate SegmentHolds(g: Group, k: nat, from: nat, len: nat)
    requires k < |g.iosegment|
  {
    8 * Upto(g, k) <= from && from + len <= 8 * Upto(g, k + 1)
  }

  ghost predicate WindowIn(g: Group, start: nat, len: nat, lo: nat, hi: nat) {
    len > 0 ==>
      && 8 * (g.logstartaddr + lo) <= start && start + len <= 8 * (g.logstartaddr + hi)
      && InOneSegment(g, start - 8 * g.logstartaddr, len)
  }

  /** All output windows lie in the outputs, all input windows between `lo` and `hi`, uncut by a segment. */
  ghost predicate OutputsIn(g: Group, slaves: seq<Slave>) {
    forall j {:trigger slaves[j]} :: 0 <= j < |slaves| ==>
        WindowIn(g, slaves[j].outStart, slaves[j].outLen, 0, g.obytes)
  }

  ghost predicate InputsIn(g: Group, slaves: seq<Slave>, lo: nat, hi: nat) {
    forall j {:trigger slaves[j]} :: 0 <= j < |slaves| ==> WindowIn(g, slaves[j].inStart, slaves[j].inLen, lo, hi)
  }

  /** Two windows have no bit in common. */
  predicate Apart(start: nat, len: nat, other: nat, otherLen: nat) {
    len == 0 || otherLen == 0 || start + len <= other || other + otherLen <= start
  }

  /** The inputs of different slaves are apart. */
  ghost predicate InputsDisjoint(slaves: seq<Slave>) {
    forall i, j :: 0 <= i < j < |slaves| ==>
        Apart(slaves[i].inStart, slaves[i].inLen, slaves[j].inStart, slaves[j].inLen)
  }

  /** What a slave is to take has not been replaced by the inputs of a slave before it. */
  ghost predicate OutputsClear(slaves: seq<Slave>) {
    forall i, j :: 0 <= i < j < |slaves| ==>
        Apart(slaves[i].inStart, slaves[i].inLen, slaves[j].outStart, slaves[j].outLen)
  }

  /** All datagrams of a transfer, with what the sender guarantees about them. */
  ghost predicate Done(mine: seq<Datagram>, c: Command, g: Group, base: nat, lo: nat, hi: nat, image: seq<byte>) {
    && Transfer(mine, c, g, base, lo, hi, image) && hi <= |image|
    && Tiles(mine, g.logstartaddr + lo, g.logstartaddr + hi)
    && Upto(g, base) <= lo && (mine != [] ==> Upto(g, base + |mine|) >= hi)
  }

  /** A window that no segment cuts lies within one of the datagrams. */
  lemma {:induction false} WindowInDatagram(mine: seq<Datagram>, c: Command, g: Group, base: nat, lo: nat, hi: nat,
                                            image: seq<byte>, start: nat, len: nat)
    returns (i: nat)
    requires Done(mine, c, g, base, lo, hi, image) && mine != [] && len > 0 && WindowIn(g, start, len, lo, hi)
    ensures i < |mine| && 8 * mine[i].addr <= start && start + len <= 8 * (mine[i].addr + |mine[i].data|)
  {
    hide Upto, SentFrom;
    var from := start - 8 * g.logstartaddr;
    var k :| 0 <= k < |g.iosegment| && SegmentHolds(g, k, from, len);
    if k < base {
      UptoGrows(g, k + 1, base);
      assert false;
    }
    if k >= base + |mine| {
      UptoGrows(g, base + |mine|, k);
      assert false;
    }
    i := k - base;
    assert CarriesSegment(mine[i], c, g, base + i, lo, hi);
  }

  lemma {:induction false} WindowMetOnce(mine: seq<Datagram>, c: Command, g: Group, base: nat, lo: nat, hi: nat,
                                         image: seq<byte>, start: nat, len: nat)
    requires Done(mine, c, g, base, lo, hi, image) && mine != [] && WindowIn(g, start, len, lo, hi)
    ensures Meetings(mine, start, len) == if len > 0 then 1 else 0
  {
    hide Transfer, Upto, InOneSegment;
    if len > 0 {
      var i := WindowInDatagram(mine, c, g, base, lo, hi, image, start, len);
      OneMeeting(mine, g.logstartaddr + lo, g.logstartaddr + hi, i, start, len);
    } else {
      NeverMet(mine, start);
    }
  }

  lemma {:induction false} NeverMet(mine: seq<Datagram>, start: nat)
    ensures Meetings(mine, start, 0) == 0
  {
    if mine != [] {
      NeverMet(mine[..|mine| - 1], start);
    }
  }

  lemma {:induction false} OutputsOnce(mine: seq<Datagram>, c: Command, g: Group, base: nat, hi: nat, image: seq<byte>,
                                       slaves: seq<Slave>)
    requires Done(mine, c, g, base, 0, hi, image) && mine != [] && OutputsIn(g, slaves) && g.obytes <= hi
    ensures OutputsMetOnce(mine, slaves)
  {
    hide Transfer, Upto, InOneSegment, Meetings, Done;
    forall j {:trigger slaves[j]} | 0 <= j < |slaves|
      ensures Meetings(mine, slaves[j].outStart, slaves[j].outLen) == if slaves[j].outLen > 0 then 1 else 0
    {
      WindowMetOnce(mine, c, g, base, 0, hi, image, slaves[j].outStart, slaves[j].outLen);
    }
  }

  lemma {:induction false} InputsOnce(mine: seq<Datagram>, c: Command, g: Group, base: nat, lo: nat, hi: nat,
                                      image: seq<byte>, slaves: seq<Slave>, from: nat, to: nat)
    requires Done(mine, c, g, base, lo, hi, image) && mine != [] && InputsIn(g, slaves, from, to) && lo <= from
             && to <= hi
    ensures InputsMetOnce(mine, slaves)
  {
    hide Transfer, Upto, InOneSegment, Meetings, Done;
    forall j {:trigger slaves[j]} | 0 <= j < |slaves|
      ensures Meetings(mine, slaves[j].inStart, slaves[j].inLen) == if slaves[j].inLen > 0 then 1 else 0
    {
      WindowMetOnce(mine, c, g, base, lo, hi, image, slaves[j].inStart, slaves[j].inLen);
    }
  }

  /** The counters of datagrams of one kind, as the receiver adds them up. */
  lemma {:induction false} SumOfKind(sent: seq<Datagram>, c: Command, slaves: seq<Slave>, k: nat)
    requires k <= |sent| && forall i :: 0 <= i < k ==> sent[i].command == c
    ensures WeightedSum(sent, k, slaves) == CounterSum(c, sent[..k], slaves, |slaves|) * (if c.LWR? then 2 else 1)
  {
    hide Counter;
    if k > 0 {
      SumOfKind(sent, c, slaves, k - 1);
      assert sent[..k][..k - 1] == sent[..k - 1];
    }
  }

  lemma {:induction false} SumOfBoth(a: seq<Datagram>, b: seq<Datagram>, slaves: seq<Slave>, k: nat)
    requires k <= |b|
    ensures WeightedSum(a + b, |a| + k, slaves) == WeightedSum(a, |a|, slaves) + WeightedSum(b, k, slaves)
    decreases k
  {
    hide Return;
    if k == 0 {
      SumOfPrefix(a, a + b, slaves, |a|);
    } else {
      SumOfBoth(a, b, slaves, k - 1);
      assert (a + b)[|a| + k - 1] == b[k - 1];
    }
  }

  lemma {:induction false} SumOfPrefix(a: seq<Datagram>, ab: seq<Datagram>, slaves: seq<Slave>, k: nat)
    requires k <= |a| <= |ab| && a == ab[..|a|]
    ensures WeightedSum(ab, k, slaves) == WeightedSum(a, k, slaves)
  {
    hide Return;
    if k > 0 {
      SumOfPrefix(a, ab, slaves, k - 1);
    }
  }

  /** The working counter of an LRW exchange. */
  lemma {:induction false} ImageCounter(mine: seq<Datagram>, g: Group, hi: nat, image: seq<byte>, slaves: seq<Slave>,
                                        from: nat, to: nat)
    requires Done(mine, LRW, g, 0, 0, hi, image) && mine != []
    requires OutputsIn(g, slaves) && InputsIn(g, slaves, from, to) && g.obytes <= hi && to <= hi
    ensures WeightedSum(mine, |mine|, slaves) == 2 * OutputCount(slaves, |slaves|) + InputCount(slaves, |slaves|)
  {
    hide OutputsIn, InputsIn, Upto, Tiles, SentFrom, OutputsMetOnce, InputsMetOnce;
    OutputsOnce(mine, LRW, g, 0, hi, image, slaves);
    InputsOnce(mine, LRW, g, 0, 0, hi, image, slaves, from, to);
    ExpectedCounter(LRW, mine, slaves, |slaves|);
    SumOfKind(mine, LRW, slaves, |mine|);
    assert mine[..|mine|] == mine;
  }

  lemma {:induction false} InputsCounter(mine: seq<Datagram>, g: Group, base: nat, lo: nat, hi: nat, image: seq<byte>,
                                         slaves: seq<Slave>, from: nat, to: nat)
    requires Done(mine, LRD, g, base, lo, hi, image) && mine != [] && InputsIn(g, slaves, from, to) && lo <= from
             && to <= hi
    ensures WeightedSum(mine, |mine|, slaves) == InputCount(slaves, |slaves|)
  {
    hide InputsIn, Upto, Tiles, SentFrom, OutputsMetOnce, InputsMetOnce;
    InputsOnce(mine, LRD, g, base, lo, hi, image, slaves, from, to);
    ExpectedCounter(LRD, mine, slaves, |slaves|);
    SumOfKind(mine, LRD, slaves, |mine|);
    assert mine[..|mine|] == mine;
  }

  lemma {:induction false} OutputsCounter(mine: seq<Datagram>, g: Group, image: seq<byte>, slaves: seq<Slave>)
    requires Done(mine, LWR, g, 0, 0, g.obytes, image) && mine != [] && OutputsIn(g, slaves)
    ensures WeightedSum(mine, |mine|, slaves) == 2 * OutputCount(slaves, |slaves|)
  {
    hide OutputsIn, Upto, Tiles, SentFrom, OutputsMetOnce, InputsMetOnce;
    OutputsOnce(mine, LWR, g, 0, g.obytes, image, slaves);
    ExpectedCounter(LWR, mine, slaves, |slaves|);
    SumOfKind(mine, LWR, slaves, |mine|);
    assert mine[..|mine|] == mine;
  }

  /** Without any outputs (inputs) no slave has a window for them. */
  lemma {:induction false} NoOutputs(g: Group, slaves: seq<Slave>, j: nat)
    requires j <= |slaves| && OutputsIn(g, slaves) && g.obytes == 0
    ensures OutputCount(slaves, j) == 0
  {
    hide InOneSegment;
    if j > 0 {
      NoOutputs(g, slaves, j - 1);
    }
  }

  lemma {:induction false} NoInputs(g: Group, slaves: seq<Slave>, j: nat, at: nat)
    requires j <= |slaves| && InputsIn(g, slaves, at, at)
    ensures InputCount(slaves, j) == 0
  {
    hide InOneSegment;
    if j > 0 {
      NoInputs(g, slaves, j - 1, at);
    }
  }

  /** What comes back of the byte at offset `o` of the image in a reading datagram. */
  function ByteOf(c: Command, slaves: seq<Slave>, base: nat, image: seq<byte>, o: nat): byte
    requires o < |image|
  {
    ByteAfter(c, slaves, |slaves|, base + o, if c.LRD? then 0 else image[o])
  }

  /** All datagrams have one command and were sent from the image. */
  ghost predicate SentAs(mine: seq<Datagram>, c: Command, g: Group, image: seq<byte>) {
    forall i {:trigger mine[i]} :: 0 <= i < |mine| ==> mine[i].command == c && SentFrom(mine[i], image, g.logstartaddr)
  }

  /** One reading reply changes exactly the bytes of its datagram. */
  lemma {:induction false} PatchedByte(mine: seq<Datagram>, c: Command, g: Group, image: seq<byte>, slaves: seq<Slave>,
                                       k: nat, o: nat)
    requires 0 < k <= |mine| && Reads(c) && o < |image| && SentAs(mine, c, g, image)
    requires forall i :: 0 <= i < |mine| ==> Fits(mine[i], Home(g), |image|)
    ensures var d, p := mine[k - 1], o - Shift(g);
            Collected(mine, k, slaves, Home(g), image)[o]
            == if 0 <= p && d.addr <= g.logstartaddr + p < d.addr + |d.data|
               then ByteOf(c, slaves, g.logstartaddr, image, p)
               else Collected(mine, k - 1, slaves, Home(g), image)[o]
  {
    hide ByteAfter, Shift;
    assert Fits(mine[k - 1], Home(g), |image|) && SentFrom(mine[k - 1], image, g.logstartaddr);
  }

  /** The IOmap when the first `k` replies of a reading transfer have been taken in. */
  lemma {:induction false} CollectedByte(mine: seq<Datagram>, c: Command, g: Group, lo: nat, image: seq<byte>,
                                         slaves: seq<Slave>, k: nat, o: nat)
    requires SentAs(mine, c, g, image) && k <= |mine| && Reads(c) && o < |image|
    requires forall i :: 0 <= i < |mine| ==> Fits(mine[i], Home(g), |image|)
    requires k > 0 ==> Tiles(mine[..k], g.logstartaddr + lo, mine[k - 1].addr + |mine[k - 1].data|)
    ensures var p := o - Shift(g);
            Collected(mine, k, slaves, Home(g), image)[o]
            == if k > 0 && lo <= p && g.logstartaddr + p < mine[k - 1].addr + |mine[k - 1].data|
               then ByteOf(c, slaves, g.logstartaddr, image, p) else image[o]
  {
    hide ByteOf, Tiles, SentFrom, Fits, Shift, Home, SentAs;
    if k > 0 {
      PatchedByte(mine, c, g, image, slaves, k, o);
      PrefixTiles(mine, g.logstartaddr + lo, k);
      hide Collected;
      CollectedByte(mine, c, g, lo, image, slaves, k - 1, o);
    }
  }

  lemma {:induction false} PrefixTiles(mine: seq<Datagram>, from: nat, k: nat)
    requires 0 < k <= |mine| && Tiles(mine[..k], from, mine[k - 1].addr + |mine[k - 1].data|)
    ensures from <= mine[k - 1].addr
    ensures k == 1 ==> mine[0].addr == from
    ensures k > 1 ==> mine[k - 1].addr == mine[k - 2].addr + |mine[k - 2].data|
    ensures k > 1 ==> Tiles(mine[..k - 1], from, mine[k - 2].addr + |mine[k - 2].data|)
  {
    assert mine[..k][..k - 1] == mine[..k - 1];
    if k > 1 {
      assert mine[..k - 1][k - 2] == mine[k - 2];
    }
  }

  /** The IOmap after a complete reading transfer. */
  lemma {:induction false} CollectedTiles(mine: seq<Datagram>, c: Command, g: Group, lo: nat, hi: nat, image: seq<byte>,
                                          slaves: seq<Slave>, o: nat)
    requires SentAs(mine, c, g, image) && Tiles(mine, g.logstartaddr + lo, g.logstartaddr + hi) && mine != []
             && Reads(c)
    requires forall i :: 0 <= i < |mine| ==> Fits(mine[i], Home(g), |image|)
    requires o < |image|
    ensures var p := o - Shift(g);
            Collected(mine, |mine|, slaves, Home(g), image)[o]
            == if lo <= p < hi then ByteOf(c, slaves, g.logstartaddr, image, p) else image[o]
  {
    hide ByteOf, Collected, SentAs, Shift, Home, Fits;
    assert mine[..|mine|] == mine;
    CollectedByte(mine, c, g, lo, image, slaves, |mine|, o);
  }

  lemma {:induction false} DoneIsSent(mine: seq<Datagram>, c: Command, g: Group, base: nat, lo: nat, hi: nat,
                                      image: seq<byte>)
    requires Done(mine, c, g, base, lo, hi, image)
    ensures SentAs(mine, c, g, image)
  {
    hide Upto, SentFrom, Tiles;
    forall i {:trigger mine[i]} | 0 <= i < |mine|
      ensures mine[i].command == c && SentFrom(mine[i], image, g.logstartaddr)
    {
      assert CarriesSegment(mine[i], c, g, base + i, lo, hi);
    }
  }

  lemma {:induction false} CollectedImage(mine: seq<Datagram>, c: Command, g: Group, base: nat, lo: nat, hi: nat,
                                          image: seq<byte>, slaves: seq<Slave>, o: nat)
    requires Done(mine, c, g, base, lo, hi, image) && mine != [] && Reads(c) && o < |image|
    requires forall i :: 0 <= i < |mine| ==> Fits(mine[i], Home(g), |image|)
    ensures var p := o - Shift(g);
            Collected(mine, |mine|, slaves, Home(g), image)[o]
            == if lo <= p < hi then ByteOf(c, slaves, g.logstartaddr, image, p) else image[o]
  {
    hide Upto, Transfer, ByteOf, Collected, SentAs, Shift, Home, Fits;
    DoneIsSent(mine, c, g, base, lo, hi, image);
    CollectedTiles(mine, c, g, lo, hi, image, slaves, o);
  }

  /** Writing datagrams do not change the IOmap. */
  lemma {:induction false} WritesCollectNothing(a: seq<Datagram>, b: seq<Datagram>, slaves: seq<Slave>, base: int,
                                                image: seq<byte>, k: nat)
    requires k <= |b| && (forall i :: 0 <= i < |b| ==> b[i].command == LWR)
    requires forall i :: 0 <= i < |a + b| ==> Fits((a + b)[i], base, |image|)
    requires forall i :: 0 <= i < |a| ==> Fits(a[i], base, |image|)
    ensures Collected(a + b, |a| + k, slaves, base, image) == Collected(a, |a|, slaves, base, image)
    decreases k
  {
    hide Patch, Return, Fits;
    if k == 0 {
      CollectedPrefix(a, a + b, slaves, base, image, |a|);
    } else {
      assert (a + b)[|a| + k - 1] == b[k - 1];
      WritesCollectNothing(a, b, slaves, base, image, k - 1);
    }
  }

  lemma {:induction false} CollectedPrefix(a: seq<Datagram>, ab: seq<Datagram>, slaves: seq<Slave>, base: int,
                                           image: seq<byte>, k: nat)
    requires k <= |a| <= |ab| && a == ab[..|a|]
    requires forall i :: 0 <= i < |ab| ==> Fits(ab[i], base, |image|)
    requires forall i :: 0 <= i < |a| ==> Fits(a[i], base, |image|)
    ensures Collected(ab, k, slaves, base, image) == Collected(a, k, slaves, base, image)
  {
    hide Patch, Return, Fits;
    if k > 0 {
      CollectedPrefix(a, ab, slaves, base, image, k - 1);
    }
  }

  /** In the window of its inputs a slave puts exactly these on the bus. */
  lemma {:induction false} InputComesBack(c: Command, slaves: seq<Slave>, j: nat, x: nat, b: bool)
    requires ValidBus(slaves) && InputsDisjoint(slaves) && j < |slaves| && Reads(c)
    requires Covers(slaves[j].inStart, slaves[j].inLen, x)
    ensures BitAfter(c, slaves, |slaves|, x, b) == slaves[j].input[x - slaves[j].inStart]
  {
    forall i | j < i < |slaves| ensures !Covers(slaves[i].inStart, slaves[i].inLen, x) {
      assert Apart(slaves[j].inStart, slaves[j].inLen, slaves[i].inStart, slaves[i].inLen);
    }
    InputHere(c, slaves, |slaves|, j, x, b);
  }

  /** A bit of what comes back of the image. */
  lemma {:induction false} BitOfImage(c: Command, slaves: seq<Slave>, base: nat, image: seq<byte>, x: nat)
    requires x < 8 * |image|
    ensures Bit(ByteOf(c, slaves, base, image, x / 8), x % 8)
            == BitAfter(c, slaves, |slaves|, 8 * base + x, !c.LRD? && BitAt(image, x))
  {
    hide ByteAfter, BitAfter;
    NoBits(x % 8);
    BitOfByteAfter(c, slaves, |slaves|, base + x / 8, if c.LRD? then 0 else image[x / 8], x % 8);
    assert 8 * (base + x / 8) + x % 8 == 8 * base + x;
  }

  lemma {:induction false} NoBits(k: nat)
    ensures !Bit(0, k)
  {
    if k > 0 {
      NoBits(k - 1);
    }
  }

  /** What a slave takes is still as it was sent. */
  lemma {:induction false} StillSent(c: Command, slaves: seq<Slave>, j: nat, x: nat, b: bool)
    requires OutputsClear(slaves) && j < |slaves| && Covers(slaves[j].outStart, slaves[j].outLen, x)
    ensures BitAfter(c, slaves, j, x, b) == b
  {
    forall i | 0 <= i < j ensures !Covers(slaves[i].inStart, slaves[i].inLen, x) {
      assert Apart(slaves[i].inStart, slaves[i].inLen, slaves[j].outStart, slaves[j].outLen);
    }
    NoInputHere(c, slaves, j, x, b);
  }

  /** The outputs of a slave in the IOmap. */
  ghost predicate OutputsFit(g: Group, s: Slave, size: nat) {
    8 * g.logstartaddr <= s.outStart && s.outStart - 8 * g.logstartaddr + s.outLen <= 8 * size
  }

  function OutputsOf(g: Group, s: Slave, image: seq<byte>): (r: seq<bool>)
    requires OutputsFit(g, s, |image|)
    ensures |r| == s.outLen
  {
    BitsOf(image)[s.outStart - 8 * g.logstartaddr..s.outStart - 8 * g.logstartaddr + s.outLen]
  }

  /** Each slave with outputs takes its part of the image, once. */
  lemma {:induction false} OutputsTaken(mine: seq<Datagram>, c: Command, g: Group, hi: nat, image: seq<byte>,
                                        slaves: seq<Slave>, j: nat)
    requires Done(mine, c, g, 0, 0, hi, image) && mine != [] && Writes(c) && g.obytes <= hi
    requires OutputsIn(g, slaves) && OutputsClear(slaves) && j < |slaves| && slaves[j].outLen > 0
    ensures OutputsFit(g, slaves[j], |image|) && AllTaken(mine, slaves, j) == [OutputsOf(g, slaves[j], image)]
  {
    hide Upto, InOneSegment, AllTaken, OutputsClear, OutputsOf;
    var s := slaves[j];
    assert WindowIn(g, s.outStart, s.outLen, 0, g.obytes);
    var i := WindowInDatagram(mine, c, g, 0, 0, hi, image, s.outStart, s.outLen);
    TakenOnce(mine, g.logstartaddr, g.logstartaddr + hi, slaves, j, i);
    assert CarriesSegment(mine[i], c, g, 0 + i, 0, hi) && SentFrom(mine[i], image, g.logstartaddr);
    WholeWindowTaken(mine[i], g, image, slaves, j);
  }

  lemma {:induction false} WholeWindowTaken(d: Datagram, g: Group, image: seq<byte>, slaves: seq<Slave>, j: nat)
    requires OutputsClear(slaves) && j < |slaves| && slaves[j].outLen > 0 && Writes(d.command)
    requires SentFrom(d, image, g.logstartaddr)
    requires 8 * d.addr <= slaves[j].outStart && slaves[j].outStart + slaves[j].outLen <= 8 * (d.addr + |d.data|)
    ensures OutputsFit(g, slaves[j], |image|) && Taken(d, slaves, j) == [OutputsOf(g, slaves[j], image)]
  {
    hide BitAfter, OutputsClear, BitAt, OutputsOf;
    var s := slaves[j];
    var taken := Taken(d, slaves, j)[0];
    assert |taken| == s.outLen;
    forall i | 0 <= i < |taken| ensures taken[i] == OutputsOf(g, s, image)[i] {
      assert taken[i] == BitAfter(d.command, slaves, j, s.outStart + i, BitAt(d.data, s.outStart + i - 8 * d.addr));
      StillSent(d.command, slaves, j, s.outStart + i, BitAt(d.data, s.outStart + i - 8 * d.addr));
      BitOfSent(d, g, image, s.outStart + i);
      BitOfOutputs(g, s, image, i);
    }
    assert taken == OutputsOf(g, s, image);
    assert Taken(d, slaves, j) == [taken];
  }

  lemma {:induction false} BitOfOutputs(g: Group, s: Slave, image: seq<byte>, i: nat)
    requires OutputsFit(g, s, |image|) && i < s.outLen
    ensures OutputsOf(g, s, image)[i] == BitAt(image, s.outStart - 8 * g.logstartaddr + i)
  {
    hide BitAt;
  }

  lemma {:induction false} BitOfSent(d: Datagram, g: Group, image: seq<byte>, x: nat)
    requires SentFrom(d, image, g.logstartaddr) && !d.command.LRD? && 8 * d.addr <= x < 8 * (d.addr + |d.data|)
    ensures 8 * g.logstartaddr <= x && x - 8 * g.logstartaddr < 8 * |image|
    ensures BitAt(d.data, x - 8 * d.addr) == BitAt(image, x - 8 * g.logstartaddr)
  {
    hide Bit;
    var from := d.addr - g.logstartaddr;
    var i := (x - 8 * d.addr) / 8;
    assert (x - 8 * g.logstartaddr) / 8 == from + i;
    assert image[from..from + |d.data|][i] == image[from + i];
  }

  lemma {:induction false} ReadsTakeNothing(a: seq<Datagram>, slaves: seq<Slave>, j: nat)
    requires j < |slaves| && forall i :: 0 <= i < |a| ==> a[i].command == LRD
    ensures AllTaken(a, slaves, j) == []
  {
    if a != [] {
      ReadsTakeNothing(a[..|a| - 1], slaves, j);
    }
  }

  lemma {:induction false} TakenFromBoth(a: seq<Datagram>, b: seq<Datagram>, slaves: seq<Slave>, j: nat)
    requires j < |slaves|
    ensures AllTaken(a + b, slaves, j) == AllTaken(a, slaves, j) + AllTaken(b, slaves, j)
    decreases |b|
  {
    hide Taken;
    if b == [] {
      assert a + b == a;
    } else {
      var last := |b| - 1;
      assert (a + b)[..|a + b| - 1] == a + b[..last];
      TakenFromBoth(a, b[..last], slaves, j);
    }
  }

  lemma {:induction false} TakenFromNothing(slaves: seq<Slave>, j: nat)
    requires j < |slaves|
    ensures AllTaken([], slaves, j) == []
  {
  }

  /** The datagrams of a transfer fit the part of the IOmap they belong to. */
  lemma {:induction false} DoneFits(mine: seq<Datagram>, c: Command, g: Group, base: nat, lo: nat, hi: nat,
                                    image: seq<byte>)
    requires Done(mine, c, g, base, lo, hi, image) && (Shift(g) == 0 || Shift(g) + hi <= |image|)
    ensures forall k {:trigger mine[k]} :: 0 <= k < |mine| ==> Fits(mine[k], Home(g), |image|) && mine[k].command == c
  {
    hide Upto, Tiles, SentFrom, Shift;
    forall k {:trigger mine[k]} | 0 <= k < |mine| ensures Fits(mine[k], Home(g), |image|) && mine[k].command == c {
      assert CarriesSegment(mine[k], c, g, base + k, lo, hi);
    }
  }
}
