/** The bytes of a process-data frame: what is laid out for sending, and what is read at fixed places of the
    frame that comes back (ecx_main_send_processdata, ecx_receive_processdata_group, ecx_waitinframe). */
module ProcessFrames {
  import opened Memory
  import opened FrameBuilder
  import W = Wire
  import P = ProcessData

  const EC_CMD_LWR := 11
  /** In the receive buffer, which has no Ethernet header, the data of the first datagram begin here. */
  const EC_HEADER := FIRST + 10 - ETH_HEADERSIZE

  function Code(c: W.Command): byte {
    match c
    case LRD => EC_CMD_LRD
    case LWR => EC_CMD_LWR
    case LRW => EC_CMD_LRW
    case FRMW => EC_CMD_FRMW
  }

  /** A datagram with the address cut into two words. */
  function Words(d: W.Datagram, index: byte): Datagram {
    Datagram(Code(d.command), index, d.addr % 65536, d.addr / 65536 % 65536, d.data)
  }

  /** Header, data and working counter of a datagram from `pos` on. */
  ghost predicate GramAt(b: seq<byte>, pos: nat, d: W.Datagram, index: byte, follows: bool) {
    && pos + OVERHEAD + |d.data| <= |b| && |d.data| < 2048
    && HeaderAt(b, pos, Code(d.command), index, d.addr % 65536, d.addr / 65536 % 65536,
                |d.data| + (if follows then EC_DATAGRAMFOLLOWS else 0))
    && b[pos + 10..pos + 10 + |d.data|] == d.data
    && WordAt(b, pos + 10 + |d.data|) == d.wkc
  }

  /** The bytes of a frame behind its length field. */
  function FrameLength(f: P.Frame): nat {
    OVERHEAD + |f.gram.data| + (if f.clock.Some? then OVERHEAD + |f.clock.value.data| else 0)
  }

  /** A frame from its length field at `at` on. */
  ghost predicate FrameAt(b: seq<byte>, at: nat, f: P.Frame, index: byte) {
    && at + 2 + FrameLength(f) <= |b| && FrameLength(f) < 2048
    && WordAt(b, at) == EC_ECATTYPE + FrameLength(f)
    && GramAt(b, at + 2, f.gram, index, f.clock.Some?)
    && (f.clock.Some? ==> GramAt(b, at + 2 + OVERHEAD + |f.gram.data|, f.clock.value, index, false))
  }

  /** A frame that can be sent: the counters are zero, and so are the data that are only read. */
  predicate Sendable(f: P.Frame) {
    && FIRST + FrameLength(f) <= EC_BUFSIZE && f.gram.wkc == 0 && !f.gram.command.FRMW?
    && (f.gram.command.LRD? ==> f.gram.data == seq(|f.gram.data|, _ => 0))
    && (f.clock.Some? ==> f.clock.value.wkc == 0 && f.clock.value.command.FRMW?)
  }

  lemma {:induction false} LaidOut(b: seq<byte>, pos: nat, d: W.Datagram, index: byte, follows: bool)
    requires DatagramAt(b, pos, Sent(Words(d, index)), follows) && d.wkc == 0
    requires d.command.LRD? ==> d.data == seq(|d.data|, _ => 0)
    ensures GramAt(b, pos, d, index, follows)
  {
    hide WordAt;
  }

  /** The part of the sending loop that lays out one frame; the result is where the clock will be in the
      frame that comes back. */
  method LayOut(port: Port, f: P.Frame, index: byte) returns (dcto: nat)
    requires Sendable(f) && port.txbuf.Length == EC_BUFSIZE
    modifies port, port.txbuf
    ensures FrameAt(port.txbuf[..], ETH_HEADERSIZE, f, index) && port.txbuflength == FIRST + FrameLength(f)
    ensures f.clock.Some? ==> dcto == P.ClockOffset(|f.gram.data|)
  {
    hide DatagramAt, WordAt, HeaderAt, Sent;
    dcto := 0;
    var first := Words(f.gram, index);
    port.SetupDatagram(first);
    ghost var chain := [Entry(Sent(first), false)];
    SentLength(first);
    PosOfOne(chain);
    if f.clock.Some? {
      var second := Words(f.clock.value, index);
      SentLength(second);
      PosOfTwo(Added(chain, second, false));
      dcto := port.AddDatagram(second, false, chain);
      ghost var all := Added(chain, second, false);
      InChain(port.txbuf[..], all, 0);
      InChain(port.txbuf[..], all, 1);
      LaidOut(port.txbuf[..], FIRST, f.gram, index, true);
      LaidOut(port.txbuf[..], FIRST + OVERHEAD + |f.gram.data|, f.clock.value, index, false);
    } else {
      InChain(port.txbuf[..], chain, 0);
      LaidOut(port.txbuf[..], FIRST, f.gram, index, false);
    }
  }

  /** The receiver's way through a frame that was laid out. */
  lemma {:induction false} WalkGram(b: seq<byte>, pos: nat, d: W.Datagram, index: byte, follows: bool)
    requires GramAt(b, pos, d, index, follows)
    ensures Walk(b, pos) == [Words(d, index)] + (if follows then Walk(b, pos + OVERHEAD + |d.data|) else [])
  {
    WalkOnce(b, pos, |d.data|, follows);
    hide WordAt, Walk;
  }

  /** A process-data datagram in a frame: the command code of its kind, and its logical address in two words. */
  predicate CarriesData(w: Datagram, d: W.Datagram) {
    && w.command == (match d.command case LRD => 10 case LWR => 11 case LRW => 12 case FRMW => 14)
    && w.adp + 65536 * w.ado == d.addr && w.data == d.data
  }

  /** In the first frame of a cycle with a clock, the slaves find two datagrams: the process data, and command
      14 for the slave of the clock, at the register of the system time, with the time known so far. In every
      other frame they find the process data only. */
  lemma {:induction false} ClockIsDistributed(tx: seq<byte>, d: W.Datagram, k: nat, g: P.Group, time: P.Time,
                                              index: byte)
    requires FrameAt(tx, ETH_HEADERSIZE, P.FrameFor(d, k, g, time), index) && d.addr < 65536 * 65536
    ensures var w := Walk(tx, FIRST);
            && |w| == (if k == 0 && g.hasdc then 2 else 1) && CarriesData(w[0], d)
            && (k == 0 && g.hasdc ==>
                  w[1].command == 14 && w[1].adp == g.clockSlave && w[1].ado == 0x0910 && w[1].data == time)
  {
    hide GramAt, Walk;
    var f := P.FrameFor(d, k, g, time);
    WalkGram(tx, FIRST, f.gram, index, f.clock.Some?);
    if f.clock.Some? {
      WalkGram(tx, FIRST + OVERHEAD + |f.gram.data|, f.clock.value, index, false);
    }
  }

  /** Every frame of a cycle can be sent, if its datagram carries no more than the largest segment. */
  lemma {:induction false} FramesAreSendable(d: W.Datagram, k: nat, g: P.Group, time: P.Time, image: seq<byte>)
    requires P.SentFrom(d, image, g.logstartaddr) && d.wkc == 0 && !d.command.FRMW?
    requires |d.data| <= 1466
    ensures Sendable(P.FrameFor(d, k, g, time)) && FIRST + FrameLength(P.FrameFor(d, k, g, time)) <= 1514
  {
  }

  lemma {:induction false} SentLength(d: Datagram)
    ensures |Sent(d).data| == |d.data|
  {
  }

  lemma {:induction false} PosOfOne(chain: seq<FrameBuilder.Entry>)
    requires |chain| == 1
    ensures PosOf(chain, 0) == FIRST && PosOf(chain, 1) == FIRST + OVERHEAD + |chain[0].d.data|
  {
  }

  lemma {:induction false} PosOfTwo(chain: seq<FrameBuilder.Entry>)
    requires |chain| == 2
    ensures PosOf(chain, 0) == FIRST && PosOf(chain, 1) == FIRST + OVERHEAD + |chain[0].d.data|
    ensures PosOf(chain, 2) == PosOf(chain, 1) + OVERHEAD + |chain[1].d.data|
  {
  }

  /** What the bus makes of a frame: other data of the same length, and other counters. */
  ghost predicate Answers(g: P.Frame, f: P.Frame) {
    && g.gram == f.gram.(data := g.gram.data, wkc := g.gram.wkc) && |g.gram.data| == |f.gram.data|
    && g.gram.wkc < 65536 && g.clock.Some? == f.clock.Some?
    && (g.clock.Some? ==>
          && g.clock.value == f.clock.value.(data := g.clock.value.data, wkc := g.clock.value.wkc)
          && |g.clock.value.data| == |f.clock.value.data| && g.clock.value.wkc < 65536)
  }

  /** The slaves write data and counter of a datagram in place. */
  function Overwritten(b: seq<byte>, pos: nat, d: W.Datagram): (r: seq<byte>)
    requires pos + OVERHEAD + |d.data| <= |b| && d.wkc < 65536
    ensures |r| == |b|
  {
    Patch(Patch(b, pos + 10, d.data), pos + 10 + |d.data|, [d.wkc % 256, d.wkc / 256])
  }

  /** The frame that comes back as `g`. */
  function Returned(b: seq<byte>, at: nat, g: P.Frame): (r: seq<byte>)
    requires at + 2 + FrameLength(g) <= |b| && g.gram.wkc < 65536 && (g.clock.Some? ==> g.clock.value.wkc < 65536)
    ensures |r| == |b|
  {
    var r := Overwritten(b, at + 2, g.gram);
    if g.clock.Some? then Overwritten(r, at + 2 + OVERHEAD + |g.gram.data|, g.clock.value) else r
  }

  lemma {:induction false} OverwrittenHere(b: seq<byte>, pos: nat, d: W.Datagram, was: W.Datagram, index: byte,
                                           follows: bool)
    requires GramAt(b, pos, was, index, follows) && d.wkc < 65536
    requires d == was.(data := d.data, wkc := d.wkc) && |d.data| == |was.data|
    ensures GramAt(Overwritten(b, pos, d), pos, d, index, follows)
    ensures SameOutside(b, Overwritten(b, pos, d), pos + 10, pos + OVERHEAD + |d.data|)
  {
    hide WordAt, Patch;
    var end := pos + 10 + |d.data|;
    var c := Patch(b, pos + 10, d.data);
    Patched(b, pos + 10, d.data);
    Patched(c, end, [d.wkc % 256, d.wkc / 256]);
    var r := Overwritten(b, pos, d);
    SameSlice(c, r, end, end + 2, pos + 10, end);
    SameHeader(b, r, pos + 10, end + 2, pos, Code(d.command), index, d.addr % 65536, d.addr / 65536 % 65536,
               |d.data| + (if follows then EC_DATAGRAMFOLLOWS else 0));
    assert WordAt(r, end) == d.wkc by { WordOf(r, end, d.wkc); }
  }

  lemma {:induction false} WordOf(b: seq<byte>, pos: nat, w: nat)
    requires pos + 2 <= |b| && w < 65536 && b[pos] == w % 256 && b[pos + 1] == w / 256
    ensures WordAt(b, pos) == w
  {
  }

  lemma {:induction false} GramKept(b: seq<byte>, c: seq<byte>, from: nat, to: nat, pos: nat, d: W.Datagram,
                                    index: byte, follows: bool)
    requires SameOutside(b, c, from, to) && GramAt(b, pos, d, index, follows)
    requires pos + OVERHEAD + |d.data| <= from || to <= pos
    ensures GramAt(c, pos, d, index, follows)
  {
    hide WordAt;
    SameHeader(b, c, from, to, pos, Code(d.command), index, d.addr % 65536, d.addr / 65536 % 65536,
               |d.data| + (if follows then EC_DATAGRAMFOLLOWS else 0));
    SameSlice(b, c, from, to, pos + 10, pos + 10 + |d.data|);
    SameWord(b, c, from, to, pos + 10 + |d.data|);
  }

  /** Writing in place makes the bytes of the answer from those of the frame. */
  lemma {:induction false} BusWritesInPlace(b: seq<byte>, at: nat, f: P.Frame, g: P.Frame, index: byte)
    requires FrameAt(b, at, f, index) && Answers(g, f)
    ensures FrameAt(Returned(b, at, g), at, g, index)
  {
    hide WordAt, GramAt, Overwritten;
    var pos, n := at + 2, OVERHEAD + |f.gram.data|;
    assert pos + n <= |b|;
    var c := Overwritten(b, pos, g.gram);
    OverwrittenHere(b, pos, g.gram, f.gram, index, f.clock.Some?);
    SameWord(b, c, pos + 10, pos + n, at);
    if f.clock.Some? {
      GramKept(b, c, pos + 10, pos + n, pos + n, f.clock.value, index, false);
      OverwrittenHere(c, pos + n, g.clock.value, f.clock.value, index, false);
      var r, end := Returned(b, at, g), pos + n + OVERHEAD + |g.clock.value.data|;
      GramKept(c, r, pos + n + 10, end, pos, g.gram, index, true);
      SameWord(c, r, pos + n + 10, end, at);
    }
  }

  /** What waiting for a frame returns: the last two bytes that the length field counts. */
  function LastWord(rx: seq<byte>): nat
    requires |rx| >= 2 && rx[0] as nat + 256 * (rx[1] as nat % 16) + 2 <= |rx|
  {
    WordAt(rx, rx[0] as nat + 256 * (rx[1] as nat % 16))
  }

  /** The places at which the receiving loop reads: the command, the data and the counter behind `dcl` bytes
      of them, the clock at `dcto`, and the last counter. */
  ghost predicate ReadAs(rx: seq<byte>, dcl: nat, dcto: nat, f: P.Frame) {
    && |rx| >= EC_HEADER + dcl + 2 && rx[2] == Code(f.gram.command)
    && rx[EC_HEADER..EC_HEADER + dcl] == f.gram.data && WordAt(rx, EC_HEADER + dcl) == f.gram.wkc
    && (f.clock.Some? ==> dcto + |f.clock.value.data| <= |rx|
                          && rx[dcto..dcto + |f.clock.value.data|] == f.clock.value.data)
    && rx[0] as nat + 256 * (rx[1] as nat % 16) + 2 <= |rx| && LastWord(rx) == P.LastCounter(f)
  }

  lemma {:induction false} FrameIsRead(rx: seq<byte>, f: P.Frame, index: byte)
    requires FrameAt(rx, 0, f, index)
    ensures ReadAs(rx, |f.gram.data|, P.ClockOffset(|f.gram.data|), f)
  {
    LengthField(rx, FrameLength(f));
    hide WordAt;
    assert GramAt(rx, 2, f.gram, index, f.clock.Some?);
  }

  lemma {:induction false} LengthField(rx: seq<byte>, n: nat)
    requires |rx| >= 2 && n < 2048 && WordAt(rx, 0) == EC_ECATTYPE + n
    ensures rx[0] as nat + 256 * (rx[1] as nat % 16) == n
  {
    assert rx[1] as nat == 16 + n / 256 && rx[0] as nat == n % 256;
  }

  /** The k-th frame of a cycle, sent as it was laid out: what the receiving loop reads at `DCl` and `DCtO`
      are the data and the counter of the process data, and the clock. */
  lemma {:induction false} AnswerIsRead(tx: seq<byte>, d: W.Datagram, k: nat, g: P.Group, time: P.Time, bus: P.Bus,
                                        index: byte)
    requires FrameAt(tx, ETH_HEADERSIZE, P.FrameFor(d, k, g, time), index)
    requires W.Return(d, bus.slaves).wkc < 65536
    ensures var f := P.Reply(P.FrameFor(d, k, g, time), bus);
            && tx[ETH_HEADERSIZE..] != [] && 2 + FrameLength(f) <= |tx[ETH_HEADERSIZE..]|
            && ReadAs(Returned(tx[ETH_HEADERSIZE..], 0, f), |d.data|, P.ClockOffset(|d.data|), f)
  {
    hide W.Return, FrameAt, Returned, ReadAs, P.ClockOffset;
    var sent := P.FrameFor(d, k, g, time);
    var f := P.Reply(sent, bus);
    Behind(tx, sent, index);
    BusWritesInPlace(tx[ETH_HEADERSIZE..], 0, sent, f, index);
    FrameIsRead(Returned(tx[ETH_HEADERSIZE..], 0, f), f, index);
  }

  /** The Ethernet header is not part of the receive buffer. */
  lemma {:induction false} Behind(tx: seq<byte>, f: P.Frame, index: byte)
    requires FrameAt(tx, ETH_HEADERSIZE, f, index)
    ensures FrameAt(tx[ETH_HEADERSIZE..], 0, f, index) && 2 + FrameLength(f) <= |tx| - ETH_HEADERSIZE
  {
    var rx := tx[ETH_HEADERSIZE..];
    GramBehind(tx, 2, f.gram, index, f.clock.Some?);
    if f.clock.Some? {
      GramBehind(tx, 2 + OVERHEAD + |f.gram.data|, f.clock.value, index, false);
    }
    hide GramAt;
  }

  lemma {:induction false} GramBehind(tx: seq<byte>, pos: nat, d: W.Datagram, index: byte, follows: bool)
    requires |tx| >= ETH_HEADERSIZE && GramAt(tx, ETH_HEADERSIZE + pos, d, index, follows)
    ensures GramAt(tx[ETH_HEADERSIZE..], pos, d, index, follows)
  {
    var rx, at := tx[ETH_HEADERSIZE..], ETH_HEADERSIZE + pos;
    assert rx[pos + 10..pos + 10 + |d.data|] == tx[at + 10..at + 10 + |d.data|];
  }

  /** If the first frame of a cycle with a clock is lost, the next one is read at the places of the first: its
      counter is found there if both are of the same length; from a longer one, two bytes of process data are
      taken for the counter. */
  lemma {:induction false} NextIsMisread(rx: seq<byte>, f: P.Frame, index: byte, dcl: nat)
    requires FrameAt(rx, 0, f, index) && f.clock.None? && dcl <= |f.gram.data|
    ensures EC_HEADER + dcl + 2 <= |rx|
    ensures dcl == |f.gram.data| ==> WordAt(rx, EC_HEADER + dcl) == f.gram.wkc
    ensures dcl + 2 <= |f.gram.data| ==> WordAt(rx, EC_HEADER + dcl) == WordAt(f.gram.data, dcl)
  {
    hide HeaderAt;
    assert GramAt(rx, 2, f.gram, index, false);
    if dcl + 2 <= |f.gram.data| {
      assert f.gram.data[dcl] == rx[EC_HEADER + dcl] && f.gram.data[dcl + 1] == rx[EC_HEADER + dcl + 1];
    }
  }
}
